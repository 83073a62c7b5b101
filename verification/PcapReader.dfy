/** The reader of classic PCAP files: a global header of 24 bytes, then packet records of 16 bytes and their data. */
module PcapReader {
  import opened Bytes

  const GLOBAL_HEADER_SIZE: nat := 24
  const PACKET_HEADER_SIZE: nat := 16
  const PCAPNG_SECTION_HEADER: u32 := 0x0A0D0D0A
  const ETHERNET_LINK_TYPE: u32 := 1

  datatype Endianness = Little | Big
  datatype Precision = Microsecond | Nanosecond

  function Get16(e: Endianness, data: bytes, offset: nat): u16
    requires HasBytes(data, offset, 2)
  {
    if e == Little then ReadLe16(data, offset) else ReadBe16(data, offset)
  }

  function Get32(e: Endianness, data: bytes, offset: nat): u32
    requires HasBytes(data, offset, 4)
  {
    if e == Little then ReadLe32(data, offset) else ReadBe32(data, offset)
  }

  datatype Magic = UnknownMagic | Magic(endianness: Endianness, precision: Precision)

  function DetectMagic(magic: bytes): Magic {
    if magic == [0xD4, 0xC3, 0xB2, 0xA1] then Magic(Little, Microsecond)
    else if magic == [0xA1, 0xB2, 0xC3, 0xD4] then Magic(Big, Microsecond)
    else if magic == [0x4D, 0x3C, 0xB2, 0xA1] then Magic(Little, Nanosecond)
    else if magic == [0xA1, 0xB2, 0x3C, 0x4D] then Magic(Big, Nanosecond)
    else UnknownMagic
  }

  datatype GlobalHeader = GlobalHeader(
    magic: bytes,
    endianness: Endianness,
    precision: Precision,
    versionMajor: u16,
    versionMinor: u16,
    reserved1: u32,
    reserved2: u32,
    snaplen: u32,
    linkType: u32)

  const NO_HEADER := GlobalHeader([0, 0, 0, 0], Little, Microsecond, 0, 0, 0, 0, 0, 0)

  datatype PacketRecord = PacketRecord(
    index: nat,
    headerOffset: nat,
    dataOffset: nat,
    tsSec: u32,
    tsFraction: u32,
    capturedLength: u32,
    originalLength: u32,
    data: bytes)
  {
    /** The record's time in ticks of a clock that ticks every `tickNanos` nanoseconds. */
    function Timestamp(precision: Precision, tickNanos: nat): int
      requires ValidTick(tickNanos)
    {
      if precision == Nanosecond then (tsSec * 1_000_000_000 + tsFraction) / tickNanos
      else (tsSec * 1_000_000 + tsFraction) * (1000 / tickNanos)
    }
  }

  /** The clock resolves microseconds evenly. */
  predicate ValidTick(tickNanos: nat) {
    0 < tickNanos <= 1000 && 1000 % tickNanos == 0
  }

  /** What the reader reports, with the numbers its messages give. */
  datatype Error =
    | NoError
    | GlobalHeaderCut
    | PcapNg
    | UnsupportedMagic
    | UnsupportedVersion(major: u16, minor: u16)
    | ZeroSnaplen
    | UnsupportedLinkType(linkType: u32)
    | PacketHeaderCut(offset: nat, trailing: nat)
    | LengthsContradict(index: nat, offset: nat, captured: u32, original: u32)
    | PacketDataCut(index: nat, offset: nat, expected: u32, available: nat, missing: nat)

  /** What is left at the end of a file that stops inside a record. */
  datatype Tail =
    | NoTail
    | HeaderTail(offset: nat, trailing: nat)
    | DataTail(offset: nat, expected: u32, available: nat, missing: nat)

  // --------------------------------------- what reading means ---------------------------------------

  function HeaderAt(file: bytes, e: Endianness, p: Precision): GlobalHeader
    requires |file| >= GLOBAL_HEADER_SIZE
  {
    GlobalHeader(file[..4], e, p, Get16(e, file, 4), Get16(e, file, 6), Get32(e, file, 8), Get32(e, file, 12),
                 Get32(e, file, 16), Get32(e, file, 20))
  }

  function HeaderFault(h: GlobalHeader): Error {
    if h.versionMajor != 2 || h.versionMinor != 4 then UnsupportedVersion(h.versionMajor, h.versionMinor)
    else if h.snaplen == 0 then ZeroSnaplen
    else if h.linkType != ETHERNET_LINK_TYPE then UnsupportedLinkType(h.linkType)
    else NoError
  }

  datatype ReaderState = ReaderState(file: bytes, isOpen: bool, header: GlobalHeader, offset: nat, index: nat,
      error: Error, tail: Tail)

  function NotOpened(file: bytes, header: GlobalHeader, error: Error): ReaderState {
    ReaderState(file, false, header, 0, 0, error, NoTail)
  }

  function JustOpened(file: bytes, header: GlobalHeader): ReaderState {
    ReaderState(file, true, header, GLOBAL_HEADER_SIZE, 0, NoError, NoTail)
  }

  /** The state after opening a file. */
  function Opened(file: bytes): ReaderState {
    if |file| < GLOBAL_HEADER_SIZE then NotOpened(file, NO_HEADER, GlobalHeaderCut)
    else if ReadBe32(file, 0) == PCAPNG_SECTION_HEADER then NotOpened(file, NO_HEADER, PcapNg)
    else
      match DetectMagic(file[..4])
      case UnknownMagic => NotOpened(file, NO_HEADER, UnsupportedMagic)
      case Magic(e, p) =>
        var h := HeaderAt(file, e, p);
        if HeaderFault(h) != NoError then NotOpened(file, h, HeaderFault(h))
        else JustOpened(file, h)
  }

  datatype Reading = AtEnd | Record(record: PacketRecord) | Fault(error: Error, tail: Tail)

  /** What is at `offset`, where record number `index` must start. */
  function ReadingAt(file: bytes, e: Endianness, offset: nat, index: nat): Reading
    requires offset <= |file|
  {
    var remaining := |file| - offset;
    if remaining == 0 then AtEnd
    else if remaining < PACKET_HEADER_SIZE then
      Fault(PacketHeaderCut(offset, remaining), HeaderTail(offset, remaining))
    else
      var captured, original := Get32(e, file, offset + 8), Get32(e, file, offset + 12);
      var dataOffset := offset + PACKET_HEADER_SIZE;
      var available := |file| - dataOffset;
      if captured > original then Fault(LengthsContradict(index, offset, captured, original), NoTail)
      else if captured > available then
        Fault(PacketDataCut(index, offset, captured, available, captured - available),
              DataTail(dataOffset, captured, available, captured - available))
      else
        Record(PacketRecord(index, offset, dataOffset, Get32(e, file, offset), Get32(e, file, offset + 4),
                            captured, original, file[dataOffset..dataOffset + captured]))
  }

  datatype Next = NoRecord | NextRecord(record: PacketRecord)

  /** One call of the reader: the new state and the record, if there is one. */
  function Step(s: ReaderState): (ReaderState, Next)
    requires s.isOpen ==> s.offset <= |s.file|
  {
    if !s.isOpen || s.error != NoError then (s, NoRecord)
    else
      match ReadingAt(s.file, s.header.endianness, s.offset, s.index)
      case AtEnd => (s, NoRecord)
      case Fault(error, tail) => (s.(error := error, tail := tail), NoRecord)
      case Record(r) => (s.(offset := r.dataOffset + r.capturedLength, index := s.index + 1), NextRecord(r))
  }

  /** All records from `offset` on, and the fault that ended them, if one did. */
  datatype Listing = Listing(records: seq<PacketRecord>, error: Error, tail: Tail)

  function ReadAll(file: bytes, e: Endianness, offset: nat, index: nat): Listing
    requires offset <= |file|
    decreases |file| - offset
  {
    match ReadingAt(file, e, offset, index)
    case AtEnd => Listing([], NoError, NoTail)
    case Fault(error, tail) => Listing([], error, tail)
    case Record(r) =>
      var rest := ReadAll(file, e, r.dataOffset + r.capturedLength, index + 1);
      rest.(records := [r] + rest.records)
  }

  /** A reader that has returned no record never returns one again, nor changes in any way. */
  lemma StopsForGood(s: ReaderState)
    requires s.isOpen ==> s.offset <= |s.file|
    requires Step(s).1 == NoRecord
    ensures Step(s).0.offset == s.offset && Step(s).0.file == s.file
    ensures Step(Step(s).0) == (Step(s).0, NoRecord)
  {
  }

  lemma SameWords(e: Endianness, file: bytes, offset: nat, raw: bytes)
    requires HasBytes(file, offset, PACKET_HEADER_SIZE) && raw == file[offset..offset + PACKET_HEADER_SIZE]
    ensures Get32(e, raw, 0) == Get32(e, file, offset) && Get32(e, raw, 4) == Get32(e, file, offset + 4)
    ensures Get32(e, raw, 8) == Get32(e, file, offset + 8) && Get32(e, raw, 12) == Get32(e, file, offset + 12)
  {
  }

  lemma SameHeader(file: bytes, raw: bytes)
    requires |file| >= GLOBAL_HEADER_SIZE && raw == file[..GLOBAL_HEADER_SIZE]
    ensures raw[..4] == file[..4] && ReadBe32(raw, 0) == ReadBe32(file, 0)
    ensures forall e, p :: HeaderAt(raw, e, p) == HeaderAt(file, e, p)
  {
    assert raw[..4] == file[..4];
  }

  // ------------------------------------------- the reader -------------------------------------------

  /** The source's file stream is the bytes of the file and a position in them; reading cannot fail before their end. */
  class PcapReader {
    var file: bytes
    var position: nat
    var isOpen: bool
    var header: GlobalHeader
    var nextInputOffset: nat
    var nextPacketIndex: nat
    var error: Error
    var tail: Tail

    ghost predicate Valid()
      reads this
    {
      && (isOpen ==> nextInputOffset <= |file|)
      && (isOpen && error == NoError ==> position == nextInputOffset && tail == NoTail)
    }

    ghost function Contents(): ReaderState
      reads this
    {
      ReaderState(file, isOpen, header, nextInputOffset, nextPacketIndex, error, tail)
    }

    constructor ()
      ensures Valid() && Contents() == NotOpened([], NO_HEADER, NoError)
    {
      file, position, isOpen, header := [], 0, false, NO_HEADER;
      nextInputOffset, nextPacketIndex, error, tail := 0, 0, NoError, NoTail;
    }

    method Clear()
      modifies this
      ensures Contents() == NotOpened([], NO_HEADER, NoError) && position == 0
    {
      file, position, isOpen, header := [], 0, false, NO_HEADER;
      nextInputOffset, nextPacketIndex, error, tail := 0, 0, NoError, NoTail;
    }

    /** The next `count` bytes of the stream, or those that are left. */
    method Read(count: nat) returns (data: bytes)
      requires position <= |file|
      modifies `position
      ensures old(position) <= position == Min(old(position) + count, |file|) && data == file[old(position)..position]
    {
      var end := Min(position + count, |file|);
      data := file[position..end];
      position := end;
    }

    /** Opens a file, whatever the reader did before. */
    method Open(input: bytes) returns (ok: bool)
      modifies this
      ensures Valid() && Contents() == Opened(input) && ok == isOpen
    {
      hide Get16, Get32, ReadBe32;
      Clear();
      file := input;
      ok := false;
      var raw := Read(GLOBAL_HEADER_SIZE);
      if |raw| < GLOBAL_HEADER_SIZE {
        error := GlobalHeaderCut;
        return;
      }
      SameHeader(file, raw);
      if ReadBe32(raw, 0) == PCAPNG_SECTION_HEADER {
        error := PcapNg;
        return;
      }
      var magic := DetectMagic(raw[..4]);
      if magic.UnknownMagic? {
        error := UnsupportedMagic;
        return;
      }
      var e := magic.endianness;
      header := header.(magic := raw[..4], endianness := e, precision := magic.precision);
      header := header.(versionMajor := Get16(e, raw, 4), versionMinor := Get16(e, raw, 6));
      header := header.(reserved1 := Get32(e, raw, 8), reserved2 := Get32(e, raw, 12));
      header := header.(snaplen := Get32(e, raw, 16), linkType := Get32(e, raw, 20));
      assert header == HeaderAt(raw, e, magic.precision);
      if header.versionMajor != 2 || header.versionMinor != 4 {
        error := UnsupportedVersion(header.versionMajor, header.versionMinor);
        return;
      }
      if header.snaplen == 0 {
        error := ZeroSnaplen;
        return;
      }
      if header.linkType != ETHERNET_LINK_TYPE {
        error := UnsupportedLinkType(header.linkType);
        return;
      }
      isOpen := true;
      nextInputOffset := GLOBAL_HEADER_SIZE;
      ok := true;
    }

    method ReadNext() returns (next: Next)
      requires Valid()
      modifies this
      ensures Valid() && (Contents(), next) == Step(old(Contents()))
    {
      next := NoRecord;
      if !isOpen || error != NoError {
        return;
      }
      if nextInputOffset == |file| {
        return;
      }
      var remainingForHeader := |file| - nextInputOffset;
      if remainingForHeader < PACKET_HEADER_SIZE {
        error := PacketHeaderCut(nextInputOffset, remainingForHeader);
        tail := HeaderTail(nextInputOffset, remainingForHeader);
        return;
      }
      next := ReadRecord();
    }

    /** The rest of `ReadNext`, once a whole packet header is there. */
    method ReadRecord() returns (next: Next)
      requires Valid() && isOpen && error == NoError && |file| - nextInputOffset >= PACKET_HEADER_SIZE
      modifies this
      ensures Valid() && (Contents(), next) == Step(old(Contents()))
    {
      hide Get32;
      next := NoRecord;
      var e, packetHeaderOffset := header.endianness, nextInputOffset;
      var raw := Read(PACKET_HEADER_SIZE);
      var tsSec, tsFraction, capturedLength, originalLength := Get32(e, raw, 0), Get32(e, raw, 4), Get32(e, raw, 8),
          Get32(e, raw, 12);
      SameWords(e, file, packetHeaderOffset, raw);
      if capturedLength > originalLength {
        error := LengthsContradict(nextPacketIndex, packetHeaderOffset, capturedLength, originalLength);
        return;
      }
      var dataOffset := packetHeaderOffset + PACKET_HEADER_SIZE;
      var remainingData := |file| - dataOffset;
      if capturedLength > remainingData {
        error := PacketDataCut(nextPacketIndex, packetHeaderOffset, capturedLength, remainingData,
            capturedLength - remainingData);
        tail := DataTail(dataOffset, capturedLength, remainingData, capturedLength - remainingData);
        return;
      }
      var data := Read(capturedLength);
      next := NextRecord(PacketRecord(nextPacketIndex, packetHeaderOffset, dataOffset, tsSec, tsFraction,
                                      capturedLength, originalLength, data));
      nextInputOffset := dataOffset + capturedLength;
      nextPacketIndex := nextPacketIndex + 1;
    }
  }
}
