/** TLS records (section 5.1 of RFC 8446): reading a header, scanning a payload into records,
    serialising records, and the place of a byte position within a stream of records. */
module TlsRecords {
  import opened Bytes

  const CHANGE_CIPHER_SPEC: byte := 0x14
  const ALERT: byte := 0x15
  const HANDSHAKE: byte := 0x16
  const APPLICATION_DATA: byte := 0x17
  const HEADER_SIZE: nat := 5

  predicate IsContentType(contentType: byte) {
    contentType in {CHANGE_CIPHER_SPEC, ALERT, HANDSHAKE, APPLICATION_DATA}
  }

  /** The content type and fragment length of the record header at `offset`, if there is a plausible one. */
  function ReadHeader(payload: bytes, offset: nat): Option<(byte, u16)> {
    if !HasBytes(payload, offset, HEADER_SIZE) then None
    else if !IsContentType(payload[offset]) || payload[offset + 1] != 0x03 then None
    else Some((payload[offset], ReadBe16(payload, offset + 3)))
  }

  /** A record found in a payload: where it starts, its type, and its size with its header. */
  datatype Record = Record(start: nat, contentType: byte, size: nat)

  /** How a scan ended: on a record boundary, inside a record of which `missing` bytes are still to come,
      or at something that is no record header. */
  datatype Ending = AtBoundary | InRecord(missing: nat) | NoHeader

  datatype Scan = Scan(records: seq<Record>, ending: Ending)

  /** The flat parse of `payload` from `offset` on. */
  function ScanRecords(payload: bytes, offset: nat): Scan
    decreases |payload| - offset
  {
    if offset >= |payload| then Scan([], AtBoundary)
    else
      match ReadHeader(payload, offset)
      case None => Scan([], NoHeader)
      case Some((contentType, length)) =>
        var record := Record(offset, contentType, HEADER_SIZE + length);
        var next := offset + record.size;
        if next > |payload| then Scan([record], InRecord(next - |payload|))
        else
          var rest := ScanRecords(payload, next);
          Scan([record] + rest.records, rest.ending)
  }

  /** Some record has the given type. */
  predicate HasType(records: seq<Record>, contentType: byte) {
    records != [] && (records[0].contentType == contentType || HasType(records[1..], contentType))
  }

  /** The last application-data record. */
  function LastApplicationData(records: seq<Record>): Option<Record> {
    if records == [] then None
    else
      match LastApplicationData(records[1..])
      case Some(r) => Some(r)
      case None => if records[0].contentType == APPLICATION_DATA then Some(records[0]) else None
  }

  lemma {:induction false} HasTypeMeans(records: seq<Record>, contentType: byte)
    ensures HasType(records, contentType) <==> exists r :: r in records && r.contentType == contentType
  {
    if records != [] {
      assert records == [records[0]] + records[1..];
      HasTypeMeans(records[1..], contentType);
      if HasType(records, contentType) {
        assert records[0] in records;
        assert records[0].contentType == contentType || exists r :: r in records[1..] && r.contentType == contentType;
      }
    }
  }

  /** The last application-data record is one, and none comes after it. */
  lemma {:induction false} LastApplicationDataIsLast(records: seq<Record>)
    ensures LastApplicationData(records).None? <==> !HasType(records, APPLICATION_DATA)
    ensures LastApplicationData(records).Some? ==>
              exists i | 0 <= i < |records| ::
                && records[i] == LastApplicationData(records).value && records[i].contentType == APPLICATION_DATA
                && forall j | i < j < |records| :: records[j].contentType != APPLICATION_DATA
  {
    if records != [] {
      var rest := records[1..];
      LastApplicationDataIsLast(rest);
      if LastApplicationData(rest).Some? {
        var i :| 0 <= i < |rest| && rest[i] == LastApplicationData(rest).value
                 && rest[i].contentType == APPLICATION_DATA
                 && forall j | i < j < |rest| :: rest[j].contentType != APPLICATION_DATA;
        assert records[i + 1] == rest[i] && forall j | i + 1 < j < |records| :: records[j] == rest[j - 1];
      } else {
        forall j | 0 < j < |records| ensures records[j].contentType != APPLICATION_DATA {
          HasTypeMeans(rest, APPLICATION_DATA);
          assert rest[j - 1] in rest;
        }
      }
    }
  }

  /** The first offset past `records`, which start at `offset`. */
  function EndOf(offset: nat, records: seq<Record>): nat
    decreases |records|
  {
    if records == [] then offset else EndOf(offset + records[0].size, records[1..])
  }

  /** The headers of `records` are in the payload, and the records follow one another from `offset` on. */
  predicate Tiles(payload: bytes, offset: nat, records: seq<Record>)
    decreases |records|
  {
    records == [] ||
    (&& records[0].start == offset
     && ReadHeader(payload, offset) == Some((records[0].contentType, records[0].size - HEADER_SIZE))
     && Tiles(payload, offset + records[0].size, records[1..]))
  }

  lemma TilesCons(payload: bytes, r: Record, rest: seq<Record>)
    requires ReadHeader(payload, r.start) == Some((r.contentType, r.size - HEADER_SIZE))
    requires Tiles(payload, r.start + r.size, rest)
    ensures Tiles(payload, r.start, [r] + rest)
    ensures EndOf(r.start, [r] + rest) == EndOf(r.start + r.size, rest)
  {
    assert ([r] + rest)[1..] == rest;
  }

  lemma {:induction false} TiledRecord(payload: bytes, offset: nat, records: seq<Record>, r: Record)
    requires Tiles(payload, offset, records) && r in records
    ensures offset <= r.start && HEADER_SIZE <= r.size && r.start + HEADER_SIZE <= |payload|
    ensures ReadHeader(payload, r.start) == Some((r.contentType, r.size - HEADER_SIZE))
    decreases |records|
  {
    if r != records[0] {
      TiledRecord(payload, offset + records[0].size, records[1..], r);
    }
  }

  lemma {:induction false} TilesOrdered(payload: bytes, offset: nat, records: seq<Record>, i: nat, j: nat)
    requires Tiles(payload, offset, records) && i < j < |records|
    ensures records[i].start + records[i].size <= records[j].start
    decreases |records|
  {
    if i > 0 {
      TilesOrdered(payload, offset + records[0].size, records[1..], i - 1, j - 1);
    } else {
      TiledRecord(payload, offset + records[0].size, records[1..], records[j]);
    }
  }

  /** How a scan whose records end at `end` can end itself. */
  predicate EndsAs(payload: bytes, records: seq<Record>, end: nat, ending: Ending) {
    match ending
    case AtBoundary => end == |payload|
    case InRecord(missing) => records != [] && 0 < missing < 0x1_0000 && end == |payload| + missing
    case NoHeader => end < |payload| && ReadHeader(payload, end) == None
  }

  /** The records of a scan tile the payload from `offset` on, and only the last can reach past its end, which it
      then does by the missing bytes; otherwise they end at the end of the payload or where no header follows. */
  lemma {:induction false} ScanShape(payload: bytes, offset: nat)
    requires offset <= |payload|
    ensures var scan := ScanRecords(payload, offset);
            && Tiles(payload, offset, scan.records)
            && EndsAs(payload, scan.records, EndOf(offset, scan.records), scan.ending)
    decreases |payload| - offset
  {
    if offset < |payload| && ReadHeader(payload, offset).Some? {
      var (contentType, length) := ReadHeader(payload, offset).value;
      var record := Record(offset, contentType, HEADER_SIZE + length);
      var next := offset + record.size;
      if next <= |payload| {
        ScanShape(payload, next);
        TilesCons(payload, record, ScanRecords(payload, next).records);
      } else {
        TilesCons(payload, record, []);
        assert [record] + [] == [record];
      }
    }
  }

  // --------------------------------------- streams of records ---------------------------------------

  datatype TlsRecord = TlsRecord(contentType: byte, minorVersion: byte, fragment: bytes)
  {
    /** The content types of TLS records are the numbers 20 to 23. */
    predicate Valid() {
      20 <= contentType <= 23 && |fragment| < 0x1_0000
    }

    function Size(): nat {
      HEADER_SIZE + |fragment|
    }

    function Encode(): (data: bytes)
      requires Valid()
      ensures |data| == Size()
    {
      [contentType, 0x03, minorVersion] + Be16(|fragment|) + fragment
    }
  }

  predicate ValidStream(records: seq<TlsRecord>) {
    forall r | r in records :: r.Valid()
  }

  function StreamSize(records: seq<TlsRecord>): nat {
    if records == [] then 0 else records[0].Size() + StreamSize(records[1..])
  }

  function EncodeStream(records: seq<TlsRecord>): (data: bytes)
    requires ValidStream(records)
    ensures |data| == StreamSize(records)
  {
    if records == [] then [] else records[0].Encode() + EncodeStream(records[1..])
  }

  /** Where the first `position` bytes of a stream end: on a record boundary, or `done` bytes into a record
      that has `missing` bytes left. */
  datatype Place = Boundary | Inside(contentType: byte, done: nat, missing: nat)

  function PlaceOf(records: seq<TlsRecord>, position: nat): Place
    requires position <= StreamSize(records)
  {
    if position == 0 then Boundary
    else if position < records[0].Size() then Inside(records[0].contentType, position, records[0].Size() - position)
    else PlaceOf(records[1..], position - records[0].Size())
  }

  /** The records that start at or after `position`. */
  function RecordsAfter(records: seq<TlsRecord>, position: nat): seq<TlsRecord>
    requires position <= StreamSize(records)
  {
    if position == 0 then records
    else if position < records[0].Size() then records[1..]
    else RecordsAfter(records[1..], position - records[0].Size())
  }

  /** The bytes of the record the first `position` bytes end in that are still to come. */
  function Missing(records: seq<TlsRecord>, position: nat): nat
    requires position <= StreamSize(records)
  {
    match PlaceOf(records, position)
    case Boundary => 0
    case Inside(_, _, missing) => missing
  }

  lemma HeaderReads(record: TlsRecord, payload: bytes, offset: nat)
    requires record.Valid() && HasBytes(payload, offset, HEADER_SIZE)
    requires payload[offset..offset + HEADER_SIZE] == record.Encode()[..HEADER_SIZE]
    ensures ReadHeader(payload, offset) == Some((record.contentType, |record.fragment|))
  {
    var head := payload[offset..offset + HEADER_SIZE];
    assert head[0] == record.contentType && head[1] == 0x03;
    assert payload[offset + 3..offset + 5] == head[3..5] == record.Encode()[3..5] == Be16(|record.fragment|);
    ReadBe16Undoes(payload, offset + 3, |record.fragment|);
  }

  /** The payload from `offset` on is a prefix of the serialised stream. */
  predicate Carries(payload: bytes, offset: nat, records: seq<TlsRecord>)
    requires ValidStream(records)
  {
    && offset <= |payload| <= offset + StreamSize(records)
    && payload[offset..] == EncodeStream(records)[..|payload| - offset]
  }

  lemma CarriesFirst(payload: bytes, offset: nat, records: seq<TlsRecord>)
    requires ValidStream(records) && Carries(payload, offset, records) && offset < |payload|
    ensures HasBytes(payload, offset, HEADER_SIZE) ==>
              ReadHeader(payload, offset) == Some((records[0].contentType, |records[0].fragment|))
    ensures offset + records[0].Size() <= |payload| ==> Carries(payload, offset + records[0].Size(), records[1..])
  {
    var data, first := EncodeStream(records), records[0];
    var length := |payload| - offset;
    assert data == first.Encode() + EncodeStream(records[1..]);
    if length >= HEADER_SIZE {
      assert payload[offset..offset + HEADER_SIZE] == payload[offset..][..HEADER_SIZE] == first.Encode()[..HEADER_SIZE];
      HeaderReads(first, payload, offset);
    }
    if length >= first.Size() {
      assert payload[offset + first.Size()..] == payload[offset..][first.Size()..];
    }
  }

  /** Scanning a prefix of a serialised stream stops exactly where the prefix does. */
  lemma {:induction false} ScanFollowsStream(records: seq<TlsRecord>, payload: bytes, offset: nat)
    requires ValidStream(records) && Carries(payload, offset, records)
    ensures var scan := ScanRecords(payload, offset);
            && (match PlaceOf(records, |payload| - offset)
                case Boundary => scan.ending == AtBoundary
                case Inside(contentType, done, missing) =>
                  if done < HEADER_SIZE then
                    scan.ending == NoHeader
                  else
                    && scan.ending == InRecord(missing)
                    && scan.records != [] && scan.records[|scan.records| - 1].contentType == contentType)
            && (|payload| - offset >= HEADER_SIZE ==>
                  scan.records != [] && scan.records[0].contentType == records[0].contentType)
    decreases |payload| - offset
  {
    if offset < |payload| {
      CarriesFirst(payload, offset, records);
      if offset + records[0].Size() <= |payload| {
        ScanFollowsStream(records[1..], payload, offset + records[0].Size());
      }
    }
  }

  lemma {:induction false} WholeStreamEndsRecord(records: seq<TlsRecord>)
    ensures PlaceOf(records, StreamSize(records)) == Boundary
  {
    if records != [] {
      WholeStreamEndsRecord(records[1..]);
    }
  }

  lemma RecordIsThere(payload: bytes, offset: nat, contentType: byte, length: u16) returns (r: TlsRecord)
    requires ReadHeader(payload, offset) == Some((contentType, length)) && offset + HEADER_SIZE + length <= |payload|
    ensures r.Valid() && r.Size() == HEADER_SIZE + length && payload[offset..offset + r.Size()] == r.Encode()
  {
    r := TlsRecord(contentType, payload[offset + 2], payload[offset + HEADER_SIZE..offset + HEADER_SIZE + length]);
    var head: bytes := [r.contentType, 0x03, r.minorVersion];
    SliceHolds(payload, offset, head);
    Be16Undoes(payload, offset + 3);
    SliceHolds(payload, offset + HEADER_SIZE, r.fragment);
    HoldsJoin(payload, offset, head, Be16(length));
    HoldsJoin(payload, offset, head + Be16(length), r.fragment);
    HoldsIsSlice(payload, offset, r.Encode());
  }

  lemma {:induction false} CleanScanIsStream(payload: bytes, offset: nat) returns (records: seq<TlsRecord>)
    requires offset <= |payload| && ScanRecords(payload, offset).ending == AtBoundary
    ensures ValidStream(records) && payload[offset..] == EncodeStream(records)
    decreases |payload| - offset
  {
    records := [];
    if offset < |payload| {
      var (contentType, length) := ReadHeader(payload, offset).value;
      var first := RecordIsThere(payload, offset, contentType, length);
      var rest := CleanScanIsStream(payload, offset + first.Size());
      records := [first] + rest;
      assert records[1..] == rest;
      assert payload[offset..] == payload[offset..offset + first.Size()] + payload[offset + first.Size()..];
    }
  }

  /** A payload scans as whole records if and only if it is a stream of records written out. */
  lemma CleanScanIffStream(payload: bytes, offset: nat)
    requires offset <= |payload|
    ensures ScanRecords(payload, offset).ending == AtBoundary <==>
            exists records :: ValidStream(records) && payload[offset..] == EncodeStream(records)
  {
    hide ScanRecords, ReadHeader;
    if ScanRecords(payload, offset).ending == AtBoundary {
      var records := CleanScanIsStream(payload, offset);
    }
    forall records | ValidStream(records) && payload[offset..] == EncodeStream(records)
      ensures ScanRecords(payload, offset).ending == AtBoundary
    {
      WholeStreamEndsRecord(records);
      ScanFollowsStream(records, payload, offset);
    }
  }

  lemma WithoutFirst(records: seq<TlsRecord>)
    requires ValidStream(records) && records != []
    ensures EncodeStream(records)[records[0].Size()..] == EncodeStream(records[1..])
  {
  }

  lemma DropTwice(data: bytes, a: nat, b: nat)
    requires a + b <= |data|
    ensures data[a..][b..] == data[a + b..]
  {
  }

  /** What follows a position is the rest of its record and then the records after it: their bytes ... */
  lemma {:induction false} SplitAt(records: seq<TlsRecord>, a: nat)
    requires ValidStream(records) && a <= StreamSize(records)
    ensures ValidStream(RecordsAfter(records, a))
    ensures var m := Missing(records, a);
            && a + m + StreamSize(RecordsAfter(records, a)) == StreamSize(records)
            && EncodeStream(records)[a + m..] == EncodeStream(RecordsAfter(records, a))
  {
    hide EncodeStream;
    if a > 0 {
      var size := records[0].Size();
      WithoutFirst(records);
      if a >= size {
        SplitAt(records[1..], a - size);
        DropTwice(EncodeStream(records), size, a - size + Missing(records[1..], a - size));
      }
    }
  }

  /** ... and the places in them. */
  lemma {:induction false} PlacesSplit(records: seq<TlsRecord>, a: nat, b: nat)
    requires ValidStream(records) && a <= b <= StreamSize(records)
    ensures var m := Missing(records, a);
            && (b >= a + m ==>
                  && b - (a + m) <= StreamSize(RecordsAfter(records, a))
                  && PlaceOf(records, b) == PlaceOf(RecordsAfter(records, a), b - (a + m)))
            && (PlaceOf(records, a).Inside? && b < a + m ==>
                  PlaceOf(records, b) ==
                  Inside(PlaceOf(records, a).contentType, PlaceOf(records, a).done + (b - a), m - (b - a)))
  {
    if a > 0 && a >= records[0].Size() {
      PlacesSplit(records[1..], a - records[0].Size(), b - records[0].Size());
    }
  }
}
