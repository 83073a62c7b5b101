/** PCAP files as they are written, and what the reader makes of them: whole, cut short, or arbitrary. */
module PcapFiles {
  import opened Bytes
  import opened PcapReader

  function Put16(e: Endianness, v: u16): (data: bytes)
    ensures |data| == 2
  {
    if e == Little then Le16(v) else Be16(v)
  }

  function Put32(e: Endianness, v: u32): (data: bytes)
    ensures |data| == 4
  {
    if e == Little then Le32(v) else Be32(v)
  }

  lemma Get16Undoes(e: Endianness, data: bytes, offset: nat, v: u16)
    requires Holds(data, offset, Put16(e, v))
    ensures Get16(e, data, offset) == v
  {
    if e == Little { ReadLe16Undoes(data, offset, v); } else { ReadBe16Undoes(data, offset, v); }
  }

  lemma Get32Undoes(e: Endianness, data: bytes, offset: nat, v: u32)
    requires Holds(data, offset, Put32(e, v))
    ensures Get32(e, data, offset) == v
  {
    if e == Little { ReadLe32Undoes(data, offset, v); } else { ReadBe32Undoes(data, offset, v); }
  }

  // ----------------------------------------- the global header -----------------------------------------

  function HeaderBytes(h: GlobalHeader): bytes {
    var e := h.endianness;
    h.magic + Put16(e, h.versionMajor) + Put16(e, h.versionMinor) + Put32(e, h.reserved1) + Put32(e, h.reserved2) +
    Put32(e, h.snaplen) + Put32(e, h.linkType)
  }

  /** The number a file starts with, in the byte order of the file. */
  function MagicNumber(precision: Precision): u32 {
    if precision == Microsecond then 0xA1B2C3D4 else 0xA1B23C4D
  }

  /** A header of the format: the magic number, version 2.4, a snaplen, and the number of Ethernet. */
  predicate Supported(h: GlobalHeader) {
    && h.magic == Put32(h.endianness, MagicNumber(h.precision))
    && h.versionMajor == 2 && h.versionMinor == 4 && h.snaplen != 0 && h.linkType == 1
  }

  lemma MagicTells(magic: bytes)
    ensures forall e, p :: DetectMagic(magic) == Magic(e, p) <==> magic == Put32(e, MagicNumber(p))
    ensures DetectMagic(magic).Magic? ==> |magic| == 4 && magic[0] != 0x0A
  {
    assert Put32(Little, 0xA1B2C3D4) == [0xD4, 0xC3, 0xB2, 0xA1];
    assert Put32(Big, 0xA1B2C3D4) == [0xA1, 0xB2, 0xC3, 0xD4];
    assert Put32(Little, 0xA1B23C4D) == [0x4D, 0x3C, 0xB2, 0xA1];
    assert Put32(Big, 0xA1B23C4D) == [0xA1, 0xB2, 0x3C, 0x4D];
  }

  lemma HeaderReads(h: GlobalHeader, file: bytes)
    requires |h.magic| == 4 && Holds(file, 0, HeaderBytes(h))
    ensures |HeaderBytes(h)| == GLOBAL_HEADER_SIZE <= |file| && HeaderAt(file, h.endianness, h.precision) == h
  {
    hide Put16, Put32, Get16, Get32;
    var e := h.endianness;
    var toMajor := h.magic + Put16(e, h.versionMajor);
    var toMinor := toMajor + Put16(e, h.versionMinor);
    var toReserved1 := toMinor + Put32(e, h.reserved1);
    var toReserved2 := toReserved1 + Put32(e, h.reserved2);
    var toSnaplen := toReserved2 + Put32(e, h.snaplen);
    HoldsSplit(file, 0, toSnaplen, Put32(e, h.linkType));
    HoldsSplit(file, 0, toReserved2, Put32(e, h.snaplen));
    HoldsSplit(file, 0, toReserved1, Put32(e, h.reserved2));
    HoldsSplit(file, 0, toMinor, Put32(e, h.reserved1));
    HoldsSplit(file, 0, toMajor, Put16(e, h.versionMinor));
    HoldsSplit(file, 0, h.magic, Put16(e, h.versionMajor));
    Get16Undoes(e, file, 4, h.versionMajor);
    Get16Undoes(e, file, 6, h.versionMinor);
    Get32Undoes(e, file, 8, h.reserved1);
    Get32Undoes(e, file, 12, h.reserved2);
    Get32Undoes(e, file, 16, h.snaplen);
    Get32Undoes(e, file, 20, h.linkType);
    assert file[..4] == h.magic;
  }

  lemma NoPcapNg(file: bytes)
    requires |file| >= 4 && file[0] != 0x0A
    ensures ReadBe32(file, 0) != PCAPNG_SECTION_HEADER
  {
  }

  /** A file that starts with a supported header is opened, with that header. */
  lemma HeaderOpens(h: GlobalHeader, file: bytes)
    requires Supported(h) && Holds(file, 0, HeaderBytes(h))
    ensures Opened(file) == JustOpened(file, h)
  {
    hide HeaderBytes, Get16, Get32, Put32, Holds, DetectMagic, MagicNumber, ReadBe32;
    HeaderReads(h, file);
    MagicTells(h.magic);
    assert file[..4] == h.magic;
    assert file[0] == h.magic[0];
    NoPcapNg(file);
  }

  lemma Put16Undoes(e: Endianness, data: bytes, offset: nat)
    requires HasBytes(data, offset, 2)
    ensures Holds(data, offset, Put16(e, Get16(e, data, offset)))
  {
    if e == Little {
      assert ReadLe16(data, offset) % 0x100 == data[offset];
    } else {
      Be16Undoes(data, offset);
    }
  }

  lemma HeaderIsThere(file: bytes, e: Endianness, p: Precision)
    requires |file| >= GLOBAL_HEADER_SIZE
    ensures Holds(file, 0, HeaderBytes(HeaderAt(file, e, p)))
  {
    hide Get16, Get32, Put16, Put32, Holds;
    var h := HeaderAt(file, e, p);
    var toMajor := h.magic + Put16(e, h.versionMajor);
    var toMinor := toMajor + Put16(e, h.versionMinor);
    var toReserved1 := toMinor + Put32(e, h.reserved1);
    var toReserved2 := toReserved1 + Put32(e, h.reserved2);
    SliceHolds(file, 0, h.magic);
    Put16Undoes(e, file, 4);
    Put16Undoes(e, file, 6);
    Put32Undoes(e, file, 8);
    Put32Undoes(e, file, 12);
    Put32Undoes(e, file, 16);
    Put32Undoes(e, file, 20);
    HoldsJoin(file, 0, h.magic, Put16(e, h.versionMajor));
    HoldsJoin(file, 0, toMajor, Put16(e, h.versionMinor));
    HoldsJoin(file, 0, toMinor, Put32(e, h.reserved1));
    HoldsJoin(file, 0, toReserved1, Put32(e, h.reserved2));
    HoldsJoin(file, 0, toReserved2, Put32(e, h.snaplen));
    HoldsJoin(file, 0, toReserved2 + Put32(e, h.snaplen), Put32(e, h.linkType));
  }

  lemma OpenedHeader(file: bytes)
    requires Opened(file).isOpen
    ensures |file| >= GLOBAL_HEADER_SIZE
    ensures var h := Opened(file).header;
            h == HeaderAt(file, h.endianness, h.precision) && DetectMagic(h.magic) == Magic(h.endianness, h.precision)
            && HeaderFault(h) == NoError
  {
  }

  /** A file is opened if and only if it starts with a supported header. */
  lemma OpensIffSupported(file: bytes)
    ensures Opened(file).isOpen <==> exists h :: Supported(h) && Holds(file, 0, HeaderBytes(h))
  {
    hide Opened, HeaderBytes, HeaderAt, DetectMagic, Put32, Holds, MagicNumber;
    if Opened(file).isOpen {
      OpenedHeader(file);
      var h := Opened(file).header;
      HeaderIsThere(file, h.endianness, h.precision);
      MagicTells(h.magic);
      assert Supported(h);
    }
    forall h | Supported(h) && Holds(file, 0, HeaderBytes(h)) ensures Opened(file).isOpen {
      HeaderOpens(h, file);
    }
  }

  /** A file shorter than a global header is reported as such, and nothing is taken from it. */
  lemma CutHeaderIsReported(file: bytes)
    ensures |file| < 24 <==> Opened(file).error == GlobalHeaderCut
    ensures |file| < 24 ==> !Opened(file).isOpen
                            && Opened(file).header == GlobalHeader([0, 0, 0, 0], Little, Microsecond, 0, 0, 0, 0, 0, 0)
  {
  }

  /** A file that starts like a pcapng section is reported as one, if it is as long as a global header. */
  lemma PcapNgIsReported(file: bytes)
    requires |file| >= 24
    ensures Opened(file).error == PcapNg <==> file[..4] == [0x0A, 0x0D, 0x0D, 0x0A]
  {
    hide HeaderAt, DetectMagic;
    var a, b, c, d := file[0], file[1], file[2], file[3];
    assert file[..4] == [a, b, c, d];
    Octets(d, c, b, a);
  }

  // -------------------------------------------- the records --------------------------------------------

  /** A record as it stands in a file. */
  datatype FileRecord = FileRecord(tsSec: u32, tsFraction: u32, originalLength: u32, data: bytes)
  {
    predicate Valid() {
      |data| <= originalLength
    }

    function Size(): nat {
      PACKET_HEADER_SIZE + |data|
    }
  }

  predicate ValidRecords(rs: seq<FileRecord>) {
    forall i | 0 <= i < |rs| :: rs[i].Valid()
  }

  function RecordHeader(e: Endianness, r: FileRecord): (data: bytes)
    requires r.Valid()
    ensures |data| == PACKET_HEADER_SIZE
  {
    Put32(e, r.tsSec) + (Put32(e, r.tsFraction) + (Put32(e, |r.data|) + Put32(e, r.originalLength)))
  }

  function RecordsBytes(e: Endianness, rs: seq<FileRecord>): (data: bytes)
    requires ValidRecords(rs)
    ensures |data| == SizeOf(rs)
  {
    if rs == [] then [] else RecordHeader(e, rs[0]) + (rs[0].data + RecordsBytes(e, rs[1..]))
  }

  function SizeOf(rs: seq<FileRecord>): nat {
    if rs == [] then 0 else rs[0].Size() + SizeOf(rs[1..])
  }

  /** What the reader must return for a record of which the header is at `offset`. */
  function Placed(r: FileRecord, offset: nat, index: nat): PacketRecord
    requires r.Valid()
  {
    PacketRecord(index, offset, offset + PACKET_HEADER_SIZE, r.tsSec, r.tsFraction, |r.data|, r.originalLength, r.data)
  }

  /** The same for records that follow one another from `offset` on. */
  function Placement(rs: seq<FileRecord>, offset: nat, index: nat): seq<PacketRecord>
    requires ValidRecords(rs)
    decreases |rs|
  {
    if rs == [] then [] else [Placed(rs[0], offset, index)] + Placement(rs[1..], offset + rs[0].Size(), index + 1)
  }

  lemma WordsRead(e: Endianness, r: FileRecord, file: bytes, offset: nat)
    requires r.Valid() && Holds(file, offset, RecordHeader(e, r))
    ensures HasBytes(file, offset, PACKET_HEADER_SIZE)
    ensures Get32(e, file, offset) == r.tsSec && Get32(e, file, offset + 4) == r.tsFraction
    ensures Get32(e, file, offset + 8) == |r.data| && Get32(e, file, offset + 12) == r.originalLength
  {
    hide Put32, Get32;
    var lengths := Put32(e, |r.data|) + Put32(e, r.originalLength);
    HoldsSplit(file, offset, Put32(e, r.tsSec), Put32(e, r.tsFraction) + lengths);
    HoldsSplit(file, offset + 4, Put32(e, r.tsFraction), lengths);
    HoldsSplit(file, offset + 8, Put32(e, |r.data|), Put32(e, r.originalLength));
    Get32Undoes(e, file, offset, r.tsSec);
    Get32Undoes(e, file, offset + 4, r.tsFraction);
    Get32Undoes(e, file, offset + 8, |r.data|);
    Get32Undoes(e, file, offset + 12, r.originalLength);
  }

  // -------------------------------------------- files cut short --------------------------------------------

  /** From `offset` on the file is the beginning, or all, of the records. */
  predicate BeginsAs(file: bytes, offset: nat, e: Endianness, rs: seq<FileRecord>)
    requires ValidRecords(rs)
  {
    offset <= |file| <= offset + SizeOf(rs) && file[offset..] == RecordsBytes(e, rs)[..|file| - offset]
  }

  lemma FirstBegins(file: bytes, offset: nat, e: Endianness, rs: seq<FileRecord>)
    requires ValidRecords(rs) && rs != [] && BeginsAs(file, offset, e, rs)
    ensures |file| - offset >= PACKET_HEADER_SIZE ==> Holds(file, offset, RecordHeader(e, rs[0]))
    ensures |file| - offset >= rs[0].Size() ==>
              && file[offset + PACKET_HEADER_SIZE..offset + rs[0].Size()] == rs[0].data
              && BeginsAs(file, offset + rs[0].Size(), e, rs[1..])
  {
    hide RecordHeader;
    var head, data, rest := RecordHeader(e, rs[0]), rs[0].data, RecordsBytes(e, rs[1..]);
    var all := head + (data + rest);
    assert forall i | offset <= i < |file| :: file[i] == file[offset..][i - offset] == all[i - offset];
    if |file| - offset >= rs[0].Size() {
      assert forall i | 0 <= i < |data| :: all[PACKET_HEADER_SIZE + i] == data[i];
      assert forall i | 0 <= i < |rest| :: all[rs[0].Size() + i] == rest[i];
      assert file[offset + rs[0].Size()..] == rest[..|file| - offset - rs[0].Size()];
    }
  }

  /** How many records fit whole into `room` bytes. */
  function FitCount(rs: seq<FileRecord>, room: nat): (n: nat)
    ensures n <= |rs| && SizeOf(rs[..n]) <= room
    ensures n < |rs| ==> room < SizeOf(rs[..n]) + rs[n].Size()
  {
    if rs == [] || rs[0].Size() > room then 0
    else
      var n := FitCount(rs[1..], room - rs[0].Size());
      assert rs[..n + 1][1..] == rs[1..][..n];
      n + 1
  }

  /** What is reported when `left` bytes follow the last whole record, the next record being `cut`. */
  function CutError(cut: FileRecord, at: nat, left: nat, index: nat): Error
    requires cut.Valid() && left < cut.Size()
  {
    if left == 0 then NoError
    else if left < PACKET_HEADER_SIZE then PacketHeaderCut(at, left)
    else PacketDataCut(index, at, |cut.data|, left - PACKET_HEADER_SIZE, cut.Size() - left)
  }

  function CutTail(cut: FileRecord, at: nat, left: nat): Tail
    requires cut.Valid() && left < cut.Size()
  {
    if left == 0 then NoTail
    else if left < PACKET_HEADER_SIZE then HeaderTail(at, left)
    else DataTail(at + PACKET_HEADER_SIZE, |cut.data|, left - PACKET_HEADER_SIZE, cut.Size() - left)
  }

  lemma FirstReads(file: bytes, offset: nat, e: Endianness, rs: seq<FileRecord>, index: nat)
    requires ValidRecords(rs) && rs != [] && BeginsAs(file, offset, e, rs)
    ensures ReadingAt(file, e, offset, index) ==
            if |file| - offset >= rs[0].Size() then Record(Placed(rs[0], offset, index))
            else if |file| == offset then AtEnd
            else Fault(CutError(rs[0], offset, |file| - offset, index), CutTail(rs[0], offset, |file| - offset))
    ensures |file| - offset >= rs[0].Size() ==> BeginsAs(file, offset + rs[0].Size(), e, rs[1..])
  {
    hide RecordsBytes, RecordHeader, Get32;
    FirstBegins(file, offset, e, rs);
    if |file| - offset >= PACKET_HEADER_SIZE {
      WordsRead(e, rs[0], file, offset);
    }
  }

  /** What the reader must list of a file that has room for `n` records and a bit of the next. */
  function CutListing(rs: seq<FileRecord>, n: nat, offset: nat, index: nat, room: nat): Listing
    requires ValidRecords(rs) && n <= |rs| && SizeOf(rs[..n]) <= room
    requires n < |rs| ==> room < SizeOf(rs[..n]) + rs[n].Size()
  {
    var at, left := offset + SizeOf(rs[..n]), room - SizeOf(rs[..n]);
    if n == |rs| then Listing(Placement(rs[..n], offset, index), NoError, NoTail)
    else Listing(Placement(rs[..n], offset, index), CutError(rs[n], at, left, index + n), CutTail(rs[n], at, left))
  }

  lemma CutListingStep(rs: seq<FileRecord>, n: nat, offset: nat, index: nat, room: nat)
    requires ValidRecords(rs) && n < |rs| && rs[0].Size() <= room
    requires SizeOf(rs[1..][..n]) <= room - rs[0].Size()
    requires n < |rs| - 1 ==> room - rs[0].Size() < SizeOf(rs[1..][..n]) + rs[1..][n].Size()
    ensures SizeOf(rs[..n + 1]) == rs[0].Size() + SizeOf(rs[1..][..n])
    ensures var rest := CutListing(rs[1..], n, offset + rs[0].Size(), index + 1, room - rs[0].Size());
            CutListing(rs, n + 1, offset, index, room) ==
            rest.(records := [Placed(rs[0], offset, index)] + rest.records)
  {
    hide CutError, CutTail;
    assert rs[..n + 1][1..] == rs[1..][..n];
  }

  lemma CutListingOfNone(rs: seq<FileRecord>, offset: nat, index: nat, room: nat)
    requires ValidRecords(rs) && (rs != [] ==> room < rs[0].Size()) && (rs == [] ==> room == 0)
    ensures CutListing(rs, 0, offset, index, room) ==
            if room == 0 then Listing([], NoError, NoTail)
            else Listing([], CutError(rs[0], offset, room, index), CutTail(rs[0], offset, room))
  {
    assert rs[..0] == [];
  }

  lemma ReadAllUnfolds(file: bytes, e: Endianness, offset: nat, index: nat, reading: Reading)
    requires offset <= |file| && reading == ReadingAt(file, e, offset, index)
    ensures reading.Record? ==> offset < reading.record.dataOffset + reading.record.capturedLength <= |file|
    ensures ReadAll(file, e, offset, index) ==
            match reading
            case AtEnd => Listing([], NoError, NoTail)
            case Fault(error, tail) => Listing([], error, tail)
            case Record(r) =>
              var rest := ReadAll(file, e, r.dataOffset + r.capturedLength, index + 1);
              rest.(records := [r] + rest.records)
  {
    hide Get32;
  }

  /** The records before the cut are read, and then the cut is reported. */
  lemma {:induction false} CutReads(file: bytes, offset: nat, e: Endianness, rs: seq<FileRecord>, index: nat, n: nat)
    requires ValidRecords(rs) && BeginsAs(file, offset, e, rs) && n == FitCount(rs, |file| - offset)
    ensures ReadAll(file, e, offset, index) == CutListing(rs, n, offset, index, |file| - offset)
    decreases |rs|
  {
    hide ReadAll, ReadingAt, CutListing, CutError, CutTail, RecordsBytes;
    var reading := ReadingAt(file, e, offset, index);
    ReadAllUnfolds(file, e, offset, index, reading);
    if rs == [] {
      CutListingOfNone(rs, offset, index, 0);
      EndReads(file, e, index);
    } else {
      FirstReads(file, offset, e, rs, index);
      if n == 0 {
        CutListingOfNone(rs, offset, index, |file| - offset);
      } else {
        CutReads(file, offset + rs[0].Size(), e, rs[1..], index + 1, n - 1);
        CutListingStep(rs, n - 1, offset, index, |file| - offset);
      }
    }
  }

  lemma EndReads(file: bytes, e: Endianness, index: nat)
    ensures ReadingAt(file, e, |file|, index) == AtEnd
  {
  }

  /** A well-formed file cut at any byte after its global header still opens, and gives exactly the records that fit
      whole, unchanged. It then ends cleanly if and only if the cut is on a record boundary; otherwise the tail says
      what is left: fewer bytes than a header, or how much of the data of the next record is there and missing. */
  lemma TruncationExact(h: GlobalHeader, rs: seq<FileRecord>, cut: nat, n: nat)
    requires Supported(h) && ValidRecords(rs) && GLOBAL_HEADER_SIZE <= cut <= GLOBAL_HEADER_SIZE + SizeOf(rs)
    requires n == FitCount(rs, cut - GLOBAL_HEADER_SIZE)
    ensures |HeaderBytes(h)| == GLOBAL_HEADER_SIZE
    ensures var file := (HeaderBytes(h) + RecordsBytes(h.endianness, rs))[..cut];
            var listing := ReadAll(file, h.endianness, GLOBAL_HEADER_SIZE, 0);
            var boundary := GLOBAL_HEADER_SIZE + SizeOf(rs[..n]);
            && Opened(file) == JustOpened(file, h)
            && listing.records == Placement(rs[..n], GLOBAL_HEADER_SIZE, 0)
            && (listing.error == NoError <==> cut == boundary)
            && match listing.tail
               case NoTail => cut == boundary
               case HeaderTail(offset, trailing) =>
                 offset == boundary && 0 < trailing == cut - boundary < PACKET_HEADER_SIZE
               case DataTail(offset, expected, available, missing) =>
                 && n < |rs| && offset == boundary + PACKET_HEADER_SIZE <= cut
                 && available == cut - offset && available + missing == expected == |rs[n].data| && missing > 0
  {
    hide HeaderBytes, RecordsBytes, Get32, Get16;
    var whole := HeaderBytes(h) + RecordsBytes(h.endianness, rs);
    HeaderIsWhole(h);
    var file := whole[..cut];
    assert Holds(file, 0, HeaderBytes(h));
    HeaderOpens(h, file);
    assert file[GLOBAL_HEADER_SIZE..] == RecordsBytes(h.endianness, rs)[..cut - GLOBAL_HEADER_SIZE];
    CutReads(file, GLOBAL_HEADER_SIZE, h.endianness, rs, 0, n);
    if n == |rs| {
      assert rs[..n] == rs;
    }
  }

  lemma HeaderIsWhole(h: GlobalHeader)
    requires |h.magic| == 4
    ensures |HeaderBytes(h)| == GLOBAL_HEADER_SIZE
  {
  }

  // -------------------------------------- arbitrary files --------------------------------------

  /** Writing undoes reading. */
  lemma Put32Undoes(e: Endianness, data: bytes, offset: nat)
    requires HasBytes(data, offset, 4)
    ensures Holds(data, offset, Put32(e, Get32(e, data, offset)))
  {
    if e == Little { Le32Undoes(data, offset); } else { Be32Undoes(data, offset); }
  }

  /** The record as it stands in its file. */
  function Content(r: PacketRecord): FileRecord {
    FileRecord(r.tsSec, r.tsFraction, r.originalLength, r.data)
  }

  function Contents(rs: seq<PacketRecord>): seq<FileRecord> {
    if rs == [] then [] else [Content(rs[0])] + Contents(rs[1..])
  }

  lemma RecordIsThere(file: bytes, e: Endianness, offset: nat, index: nat, r: PacketRecord)
    requires offset <= |file| && ReadingAt(file, e, offset, index) == Record(r)
    ensures Content(r).Valid() && r == Placed(Content(r), offset, index)
    ensures Holds(file, offset, RecordHeader(e, Content(r)) + r.data)
  {
    hide Put32, Get32, Holds;
    var lengths := Put32(e, |r.data|) + Put32(e, r.originalLength);
    Put32Undoes(e, file, offset);
    Put32Undoes(e, file, offset + 4);
    Put32Undoes(e, file, offset + 8);
    Put32Undoes(e, file, offset + 12);
    HoldsJoin(file, offset + 8, Put32(e, |r.data|), Put32(e, r.originalLength));
    HoldsJoin(file, offset + 4, Put32(e, r.tsFraction), lengths);
    HoldsJoin(file, offset, Put32(e, r.tsSec), Put32(e, r.tsFraction) + lengths);
    SliceHolds(file, r.dataOffset, r.data);
    HoldsJoin(file, offset, RecordHeader(e, Content(r)), r.data);
  }

  lemma HoldsRecord(file: bytes, offset: nat, e: Endianness, first: FileRecord, rs: seq<FileRecord>)
    requires first.Valid() && ValidRecords(rs)
    requires Holds(file, offset, RecordHeader(e, first) + first.data)
    requires Holds(file, offset + first.Size(), RecordsBytes(e, rs))
    ensures ValidRecords([first] + rs) && SizeOf([first] + rs) == first.Size() + SizeOf(rs)
    ensures Holds(file, offset, RecordsBytes(e, [first] + rs))
  {
    hide Holds, RecordHeader;
    assert ([first] + rs)[1..] == rs;
    HoldsJoin(file, offset, RecordHeader(e, first) + first.data, RecordsBytes(e, rs));
    Associative(RecordHeader(e, first), first.data, RecordsBytes(e, rs));
  }

  /** Of any file whatever, the reader returns what is there: the records it lists stand in the file one after another,
      and it lists them without fault if and only if they are all of it. */
  lemma {:induction false} ListedIsThere(file: bytes, e: Endianness, offset: nat, index: nat, listing: Listing)
    requires offset <= |file| && listing == ReadAll(file, e, offset, index)
    ensures var rs := Contents(listing.records);
            && ValidRecords(rs) && listing.records == Placement(rs, offset, index)
            && Holds(file, offset, RecordsBytes(e, rs))
            && (listing.error == NoError <==> offset + SizeOf(rs) == |file|)
    decreases |file| - offset
  {
    hide ReadAll, ReadingAt, Holds, RecordsBytes, RecordHeader, Placed;
    var reading := ReadingAt(file, e, offset, index);
    ReadAllUnfolds(file, e, offset, index, reading);
    if reading.Record? {
      var r := reading.record;
      var rest := ReadAll(file, e, r.dataOffset + r.capturedLength, index + 1);
      assert listing.records[1..] == rest.records;
      RecordIsThere(file, e, offset, index, r);
      RecordEnds(file, e, offset, index, r);
      ListedIsThere(file, e, r.dataOffset + r.capturedLength, index + 1, rest);
      HoldsRecord(file, offset, e, Content(r), Contents(rest.records));
      PlacementCons(Content(r), Contents(rest.records), offset, index);
    } else {
      NothingThere(file, e, offset, index);
    }
  }

  lemma RecordEnds(file: bytes, e: Endianness, offset: nat, index: nat, r: PacketRecord)
    requires offset <= |file| && ReadingAt(file, e, offset, index) == Record(r)
    ensures r.dataOffset + r.capturedLength == offset + Content(r).Size() <= |file|
  {
    hide Get32;
  }

  lemma PlacementCons(first: FileRecord, rs: seq<FileRecord>, offset: nat, index: nat)
    requires first.Valid() && ValidRecords(rs) && ValidRecords([first] + rs)
    ensures Placement([first] + rs, offset, index) ==
            [Placed(first, offset, index)] + Placement(rs, offset + first.Size(), index + 1)
  {
    assert ([first] + rs)[1..] == rs;
  }

  lemma NothingThere(file: bytes, e: Endianness, offset: nat, index: nat)
    requires offset <= |file| && !ReadingAt(file, e, offset, index).Record?
    ensures RecordsBytes(e, []) == [] && Holds(file, offset, [])
    ensures ReadingAt(file, e, offset, index).AtEnd? <==> offset == |file|
    ensures ReadingAt(file, e, offset, index).Fault? ==> ReadingAt(file, e, offset, index).error != NoError
  {
    hide Get32;
  }

  /** Records written out are read back, each where it was put. */
  lemma RecordsRead(file: bytes, offset: nat, e: Endianness, rs: seq<FileRecord>, index: nat)
    requires ValidRecords(rs) && offset <= |file| && file[offset..] == RecordsBytes(e, rs)
    ensures ReadAll(file, e, offset, index) == Listing(Placement(rs, offset, index), NoError, NoTail)
  {
    hide RecordsBytes, ReadAll;
    assert BeginsAs(file, offset, e, rs);
    assert rs[..|rs|] == rs;
    AllFit(rs);
    CutReads(file, offset, e, rs, index, |rs|);
  }

  lemma {:induction false} AllFit(rs: seq<FileRecord>)
    ensures FitCount(rs, SizeOf(rs)) == |rs|
  {
    if rs != [] {
      AllFit(rs[1..]);
    }
  }

  /** A file reads without fault if and only if its records are some sequence of records written out. */
  lemma CleanIffWritten(file: bytes, e: Endianness, offset: nat)
    requires offset <= |file|
    ensures ReadAll(file, e, offset, 0).error == NoError <==>
            exists rs :: ValidRecords(rs) && file[offset..] == RecordsBytes(e, rs)
  {
    hide ReadAll, RecordsBytes;
    var listing := ReadAll(file, e, offset, 0);
    ListedIsThere(file, e, offset, 0, listing);
    if listing.error == NoError {
      var rs := Contents(listing.records);
      assert file[offset..] == RecordsBytes(e, rs);
    }
    forall rs | ValidRecords(rs) && file[offset..] == RecordsBytes(e, rs) ensures listing.error == NoError {
      RecordsRead(file, offset, e, rs, 0);
    }
  }
}
