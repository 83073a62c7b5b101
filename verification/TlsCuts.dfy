/** Where the tracker cuts, in terms of the stream of TLS records its segments carry. */
module TlsCuts {
  import opened Bytes
  import opened PolicyConfig
  import opened TlsRecords
  import opened TlsConstrictor
  import opened TlsRuns
  import opened TlsStreams

  // ---------------------------------- the stream, byte by byte ----------------------------------

  /** The content type of the record that byte `position` of the stream belongs to. */
  function TypeAt(records: seq<TlsRecord>, position: nat): byte
    requires position < StreamSize(records)
  {
    if position < records[0].Size() then records[0].contentType else TypeAt(records[1..], position - records[0].Size())
  }

  /** A record of the stream: where it starts, and its size. */
  datatype Span = NoSpan | Span(start: nat, size: nat)
  {
    function Moved(distance: nat): Span {
      if NoSpan? then NoSpan else Span(start + distance, size)
    }
  }

  /** The last application-data record that begins before `position`. */
  function LastDataBefore(records: seq<TlsRecord>, position: nat): Span {
    if records == [] || position == 0 then NoSpan
    else
      var size := records[0].Size();
      var rest := if position <= size then NoSpan else LastDataBefore(records[1..], position - size);
      if rest.Span? then rest.Moved(size)
      else if records[0].contentType == APPLICATION_DATA then Span(0, size)
      else NoSpan
  }

  /** Its bytes are application data, and no byte after it and before `position` is. */
  lemma {:induction false} LastDataAt(records: seq<TlsRecord>, position: nat, q: nat)
    requires position <= StreamSize(records) && q < StreamSize(records)
    ensures match LastDataBefore(records, position)
            case NoSpan => q < position ==> TypeAt(records, q) != APPLICATION_DATA
            case Span(start, size) =>
              && start < position && start + size <= StreamSize(records) && size >= HEADER_SIZE
              && (start <= q < start + size ==> TypeAt(records, q) == APPLICATION_DATA)
              && (start + size <= q < position ==> TypeAt(records, q) != APPLICATION_DATA)
  {
    if position > 0 {
      var first, rest := records[0].Size(), records[1..];
      if position > first {
        if q >= first {
          LastDataAt(rest, position - first, q - first);
        } else {
          LastDataAt(rest, position - first, 0);
        }
      }
    }
  }

  /** A position divides the application data before it from that after it; the former includes a record that the
      position is inside of. */
  lemma {:induction false} LastDataSplit(records: seq<TlsRecord>, a: nat, b: nat)
    requires a <= b <= StreamSize(records)
    ensures var end := a + Missing(records, a);
            if b <= end then LastDataBefore(records, b) == LastDataBefore(records, a)
            else
              && b - end <= StreamSize(RecordsAfter(records, a))
              && var later := LastDataBefore(RecordsAfter(records, a), b - end);
                 LastDataBefore(records, b) == if later.Span? then later.Moved(end) else LastDataBefore(records, a)
  {
    if a > 0 && a >= records[0].Size() {
      LastDataSplit(records[1..], a - records[0].Size(), b - records[0].Size());
    }
  }

  /** The application data before a position ends with the record the position is inside of, or before the position. */
  lemma {:induction false} LastDataEnds(records: seq<TlsRecord>, a: nat)
    requires a <= StreamSize(records)
    ensures var inside := PlaceOf(records, a).Inside? && PlaceOf(records, a).contentType == APPLICATION_DATA;
            match LastDataBefore(records, a)
            case NoSpan => !inside
            case Span(start, size) =>
              start < a && if inside then start + size == a + Missing(records, a) else start + size <= a
  {
    if a > 0 && a >= records[0].Size() {
      LastDataEnds(records[1..], a - records[0].Size());
    }
  }

  // ---------------------------------- the scan and the stream ----------------------------------

  lemma FirstScans(stream: seq<TlsRecord>, payload: bytes, offset: nat, scan: Scan)
    requires ValidStream(stream) && Carries(payload, offset, stream) && offset + HEADER_SIZE <= |payload|
    requires scan == ScanRecords(payload, offset)
    ensures var first := Record(offset, stream[0].contentType, stream[0].Size());
            if offset + first.size <= |payload| then
              && Carries(payload, offset + first.size, stream[1..])
              && scan.records == [first] + ScanRecords(payload, offset + first.size).records
            else
              scan.records == [first]
  {
    CarriesFirst(payload, offset, stream);
    var first := Record(offset, stream[0].contentType, stream[0].Size());
    if offset + first.size <= |payload| {
      ScanCons(payload, first, scan);
    }
  }

  /** The record of a scan at the span of a stream that starts at `offset`. */
  function FoundAt(span: Span, offset: nat): Option<Record> {
    if span.NoSpan? then None else Some(Record(offset + span.start, APPLICATION_DATA, span.size))
  }

  lemma PastFirst(stream: seq<TlsRecord>, position: nat, offset: nat)
    requires 0 < position <= StreamSize(stream) && HeaderWhole(stream, position)
    ensures position >= HEADER_SIZE
    ensures var first := Record(offset, stream[0].contentType, stream[0].Size());
            var rest := if position < first.size then None
                        else FoundAt(LastDataBefore(stream[1..], position - first.size), offset + first.size);
            && (position >= first.size ==> HeaderWhole(stream[1..], position - first.size))
            && FoundAt(LastDataBefore(stream, position), offset) ==
               if rest.Some? then rest else if first.contentType == APPLICATION_DATA then Some(first) else None
  {
    ShortPlace(stream, position);
  }

  lemma NothingScanned(stream: seq<TlsRecord>, payload: bytes)
    ensures LastApplicationData(ScanRecords(payload, |payload|).records) == None
    ensures FoundAt(LastDataBefore(stream, 0), |payload|) == None
  {
  }

  /** The last application-data record a scan finds is the last one of the stream, if no header was split. */
  lemma {:induction false} ScanFindsLastData(stream: seq<TlsRecord>, payload: bytes, offset: nat)
    requires ValidStream(stream) && Carries(payload, offset, stream) && HeaderWhole(stream, |payload| - offset)
    ensures LastApplicationData(ScanRecords(payload, offset).records) ==
              FoundAt(LastDataBefore(stream, |payload| - offset), offset)
    decreases |payload| - offset
  {
    hide ScanRecords, EncodeStream, LastApplicationData, HeaderWhole, LastDataBefore, FoundAt;
    if offset == |payload| {
      NothingScanned(stream, payload);
    } else {
      PastFirst(stream, |payload| - offset, offset);
      FirstScans(stream, payload, offset, ScanRecords(payload, offset));
      var first := Record(offset, stream[0].contentType, stream[0].Size());
      if offset + first.size <= |payload| {
        ScanFindsLastData(stream[1..], payload, offset + first.size);
        LastOfCons(first, ScanRecords(payload, offset + first.size).records);
      } else {
        OnlyRecord(first);
      }
    }
  }

  lemma LastOfCons(r: Record, rest: seq<Record>)
    ensures LastApplicationData([r] + rest) ==
            if LastApplicationData(rest).Some? then LastApplicationData(rest)
            else if r.contentType == APPLICATION_DATA then Some(r) else None
  {
    assert ([r] + rest)[1..] == rest;
  }

  // --------------------------------------- where a cut is ---------------------------------------

  /** A segment carrying stream bytes `a` to `b` is cut: no header is split, and its last application-data record
      either was carried into it and ends with it, or begins in it, and the configured part of it ends before the
      segment does. */
  predicate CutsStream(stream: seq<TlsRecord>, a: nat, b: nat, config: TlsOptions)
    requires a <= b <= StreamSize(stream)
  {
    CleanCut(stream, a, b) &&
    match LastDataBefore(stream, b)
    case NoSpan => false
    case Span(start, size) =>
      if start < a then start + size == b && config.keepContinuationBytes < b - a
      else start + Min(config.keepRecordBytes, Min(size, b - start)) < b
  }

  /** The first stream byte the cut drops. */
  function CutAt(stream: seq<TlsRecord>, a: nat, b: nat, config: TlsOptions): int
    requires a <= b <= StreamSize(stream)
  {
    match LastDataBefore(stream, b)
    case NoSpan => b
    case Span(start, size) =>
      if start < a then a + config.keepContinuationBytes
      else start + Min(config.keepRecordBytes, Min(size, b - start))
  }

  /** The shape of an in-sequence payload. */
  function ShapeOfPayload(payload: bytes, s: DirectionState): Shape {
    if s.active && s.remaining >= |payload| then
      if s.constrictible && s.remaining == |payload| then FinalContinuation else Keep(NoApplicationData)
    else if s.active && s.constrictible then Keep(NoApplicationData)
    else ShapeOfRecords(s.Idle(), ScanRecords(payload, s.remaining), |payload|)
  }

  function ShapeOfRecords(s: DirectionState, scan: Scan, size: nat): Shape {
    if RefusesFirst(s, scan.records) then Keep(NoRecord) else ShapeOf(scan, size)
  }

  lemma ShapeInSequence(t: Table, seg: Segment)
    requires var s := StateAt(t, seg.key);
             seg.payload != [] && !SynOrRst(seg.flags) && (s.synchronized ==> s.expectedSeq == seg.tcpSeq)
    ensures Track(t, seg).shape == ShapeOfPayload(seg.payload, StateAt(t, seg.key))
  {
    hide ScanRecords;
  }

  /** A verdict is as the stream says, for a segment from `a` to `b`. */
  predicate CutAsStream(verdict: (Disposition, nat), stream: seq<TlsRecord>, a: nat, b: nat, config: TlsOptions)
    requires a <= b <= StreamSize(stream)
  {
    && (verdict.0 == AppDataPrefix <==> CutsStream(stream, a, b, config))
    && (verdict.0 == AppDataPrefix ==> a + verdict.1 == CutAt(stream, a, b, config))
  }

  lemma CarriedCut(payload: bytes, s: DirectionState, stream: seq<TlsRecord>, tcpSeq: u32, a: nat, b: nat,
                   config: TlsOptions)
    requires ValidStream(stream) && a < b <= StreamSize(stream) && HeaderWhole(stream, a)
    requires s.active && AtPlace(s, PlaceOf(stream, a), tcpSeq) && |payload| == b - a
    requires b - a <= s.remaining || s.constrictible
    ensures CutAsStream(Verdict(ShapeOfPayload(payload, s), |payload|, config), stream, a, b, config)
  {
    hide ScanRecords, LastDataBefore;
    LastDataSplit(stream, a, b);
    LastDataEnds(stream, a);
    if b - a <= s.remaining {
      CarriedFollows(tcpSeq, payload, s, stream, a, b);
    }
  }

  /** What the scan of the stream after the carried record means for the verdict. */
  lemma RecordsVerdict(s: DirectionState, scan: Scan, later: Span, before: Span, clean: bool, a: nat, b: nat,
                       end: nat, config: TlsOptions)
    requires a <= end < b && (before.Span? ==> before.start < a && before.start + before.size < b)
    requires if clean then
               && !scan.ending.NoHeader? && !RefusesFirst(s, scan.records)
               && LastApplicationData(scan.records) == FoundAt(later, end - a)
             else
               scan.ending.NoHeader? || RefusesFirst(s, scan.records)
    requires later.Span? ==> end + later.start < b
    ensures var last := if later.Span? then later.Moved(end) else before;
            var verdict := Verdict(ShapeOfRecords(s, scan, b - a), b - a, config);
            var cut := if last.NoSpan? then b
                       else last.start + Min(config.keepRecordBytes, Min(last.size, b - last.start));
            && (verdict.0 == AppDataPrefix <==> clean && last.Span? && last.start >= a && cut < b)
            && (verdict.0 == AppDataPrefix ==> a + verdict.1 == cut)
  {
  }

  /** The scan from the end of the carried record on, against the rest of the stream. */
  lemma ScanOfRest(payload: bytes, s: DirectionState, m: nat, rest: seq<TlsRecord>)
    requires ValidStream(rest) && Carries(payload, m, rest) && m < |payload|
    requires s.synchronized || s.confirmed || rest[0].contentType == HANDSHAKE
    ensures var scan, later := ScanRecords(payload, m), LastDataBefore(rest, |payload| - m);
            && (later.Span? ==> later.start < |payload| - m)
            && if HeaderWhole(rest, |payload| - m) then
                 && !scan.ending.NoHeader? && !RefusesFirst(s, scan.records)
                 && LastApplicationData(scan.records) == FoundAt(later, m)
               else
                 scan.ending.NoHeader? || RefusesFirst(s, scan.records)
  {
    hide ScanRecords, LastDataBefore, EncodeStream, LastApplicationData, FoundAt;
    ScanFollowsStream(rest, payload, m);
    FirstAccepted(payload, s, m, rest);
    ShortPlace(rest, |payload| - m);
    LastDataAt(rest, |payload| - m, 0);
    if HeaderWhole(rest, |payload| - m) {
      ScanFindsLastData(rest, payload, m);
    }
  }

  lemma RecordsCut(payload: bytes, s: DirectionState, stream: seq<TlsRecord>, a: nat, b: nat, config: TlsOptions)
    requires s.Valid() && s == s.Idle() && ValidStream(stream) && a < b <= StreamSize(stream)
    requires payload == EncodeStream(stream)[a..b] && Missing(stream, a) < b - a
    requires s.synchronized || s.confirmed || (a == 0 && stream[0].contentType == HANDSHAKE)
    requires PlaceOf(stream, a).Inside? ==> PlaceOf(stream, a).contentType != APPLICATION_DATA
    ensures var shape := ShapeOfRecords(s, ScanRecords(payload, Missing(stream, a)), |payload|);
            CutAsStream(Verdict(shape, |payload|, config), stream, a, b, config)
  {
    hide ScanRecords, LastDataBefore, LastApplicationData, RecordsAfter, Verdict, ShapeOfRecords, FoundAt;
    hide EncodeStream, StreamSize, Carries, PlaceOf, Missing;
    var m, rest := Missing(stream, a), RecordsAfter(stream, a);
    RestFacts(payload, stream, a, b);
    ScanOfRest(payload, s, m, rest);
    LastDataSplit(stream, a, b);
    LastDataEnds(stream, a);
    RecordsVerdict(s, ScanRecords(payload, m), LastDataBefore(rest, b - a - m), LastDataBefore(stream, a),
                   HeaderWhole(stream, b), a, b, a + m, config);
  }

  /** A segment of a direction in step with its stream is cut exactly when and where the stream says. */
  lemma CutInStream(t: Table, seg: Segment, stream: seq<TlsRecord>, start: u32, a: nat, b: nat, config: TlsOptions)
    requires ValidTable(t) && ValidStream(stream) && CarriesBytes(seg, stream, start, a, b) && a < b
    requires HeaderWhole(stream, a) && Agrees(StateAt(t, seg.key), stream, start, a)
    ensures CutAsStream(Verdict(Track(t, seg).shape, |seg.payload|, config), stream, a, b, config)
  {
    hide CutAsStream, EncodeStream, ScanRecords, Track;
    var s := StateAt(t, seg.key);
    ShapeInSequence(t, seg);
    if s.active && (b - a <= s.remaining || s.constrictible) {
      CarriedCut(seg.payload, s, stream, seg.tcpSeq, a, b, config);
    } else {
      RecordsCut(seg.payload, s.Idle(), stream, a, b, config);
    }
  }

  // --------------------------------------- what a cut drops ---------------------------------------

  /** The first byte a cut drops is application data unless the configured part is the whole record; and all bytes it
      drops are if and only if the last record that begins in the segment, or reaches into it, is. */
  lemma DroppedBytes(t: Table, seg: Segment, stream: seq<TlsRecord>, start: u32, a: nat, b: nat, config: TlsOptions)
    requires ValidTable(t) && ValidStream(stream) && CarriesBytes(seg, stream, start, a, b) && a < b
    requires HeaderWhole(stream, a) && Agrees(StateAt(t, seg.key), stream, start, a)
    requires Verdict(Track(t, seg).shape, |seg.payload|, config).0 == AppDataPrefix
    ensures var from := a + Verdict(Track(t, seg).shape, |seg.payload|, config).1;
            var last := LastDataBefore(stream, b);
            && a <= from < b && last.Span?
            && (TypeAt(stream, from) == APPLICATION_DATA <==> last.start < a || config.keepRecordBytes < last.size)
            && ((forall q | from <= q < b :: TypeAt(stream, q) == APPLICATION_DATA) <==>
                  TypeAt(stream, b - 1) == APPLICATION_DATA)
  {
    hide Track, TypeAt, LastDataBefore;
    CutInStream(t, seg, stream, start, a, b, config);
    var last := LastDataBefore(stream, b);
    LastDataAt(stream, b, 0);
    forall q | 0 <= q < StreamSize(stream)
      ensures last.start <= q < last.start + last.size ==> TypeAt(stream, q) == APPLICATION_DATA
      ensures last.start + last.size <= q < b ==> TypeAt(stream, q) != APPLICATION_DATA
    {
      LastDataAt(stream, b, q);
    }
  }

  // ------------------------------------------ whole runs ------------------------------------------

  /** Every segment of `k` that has a payload is cut as the stream says. */
  predicate AlwaysCutAsStream(t: Table, segs: seq<Segment>, k: DirectionKey, stream: seq<TlsRecord>, position: nat,
                              config: TlsOptions)
    decreases |segs|
  {
    segs == [] ||
    (var next := Next(segs[0], k, position);
     var step := Track(t, segs[0]);
     && next <= StreamSize(stream)
     && (next > position ==>
           CutAsStream(Verdict(step.shape, |segs[0].payload|, config), stream, position, next, config))
     && AlwaysCutAsStream(step.table, segs[1..], k, stream, next, config))
  }

  /** While the cuts between segments are clean, every segment of a direction, whatever comes between, is cut exactly
      when and where the stream says. */
  lemma {:induction false} RunCutsInStream(t: Table, segs: seq<Segment>, k: DirectionKey, stream: seq<TlsRecord>,
                                           start: u32, position: nat, config: TlsOptions)
    requires ValidTable(t) && ValidStream(stream) && InOrder(segs, k, stream, start, position)
    requires position <= StreamSize(stream) && HeaderWhole(stream, position)
    requires Agrees(StateAt(t, k), stream, start, position)
    requires CleanCuts(segs, k, stream, position)
    ensures AlwaysCutAsStream(t, segs, k, stream, position, config)
    decreases |segs|
  {
    hide Track, CutAsStream, StreamSize, EncodeStream, PlaceOf;
    if segs != [] {
      var next := Next(segs[0], k, position);
      EventFollows(t, segs[0], k, stream, start, position);
      TrackKeepsValid(t, segs[0]);
      if next > position {
        CutInStream(t, segs[0], stream, start, position, next, config);
      }
      RunCutsInStream(Track(t, segs[0]).table, segs[1..], k, stream, start, next, config);
    }
  }

  // -------------------------------------- after a split header --------------------------------------

  /** A handshake of 0x1703 octets, which start like an application-data header does after its first two. */
  const LOOKALIKE := TlsRecord(HANDSHAKE, 3, [0, 0x10, 0] + seq(0x1700, _ => 7))

  const HANDSHAKES := [TlsRecord(HANDSHAKE, 3, []), LOOKALIKE]

  lemma HandshakeBytes()
    ensures ValidStream(HANDSHAKES) && StreamSize(HANDSHAKES) == 0x170D
    ensures EncodeStream(HANDSHAKES)[..5] == [HANDSHAKE, 3, 3, 0, 0]
    ensures EncodeStream(HANDSHAKES)[5..8] == [HANDSHAKE, 3, 3]
    ensures EncodeStream(HANDSHAKES)[8..13] == [APPLICATION_DATA, 3, 0, 0x10, 0]
    ensures forall q | 0 <= q < 0x170D :: TypeAt(HANDSHAKES, q) == HANDSHAKE
  {
    var rest := HANDSHAKES[1..];
    assert rest == [LOOKALIKE] && rest[1..] == [];
    assert StreamSize(rest) == 0x1708;
    assert Be16(0x1703) == [0x17, 3] && Be16(0) == [0, 0];
    assert LOOKALIKE.Encode()[..8] == [HANDSHAKE, 3, 3, 0x17, 3, 0, 0x10, 0];
    assert EncodeStream(rest) == LOOKALIKE.Encode() + [];
    assert EncodeStream(HANDSHAKES) == [HANDSHAKE, 3, 3, 0, 0] + LOOKALIKE.Encode();
    assert EncodeStream(HANDSHAKES)[5..13] == LOOKALIKE.Encode()[..8];
  }

  lemma LookalikeScans(payload: bytes)
    requires 5 <= |payload| <= 0x1000 && payload[..5] == [APPLICATION_DATA, 3, 0, 0x10, 0]
    ensures ScanRecords(payload, 0) == Scan([Record(0, APPLICATION_DATA, 0x1005)], InRecord(0x1005 - |payload|))
  {
    assert forall i | 0 <= i < 5 :: payload[i] == payload[..5][i];
    assert ReadHeader(payload, 0) == Some((APPLICATION_DATA, 0x1000));
  }

  lemma SplitHeaderScans()
    ensures ScanRecords([HANDSHAKE, 3, 3], 0) == Scan([], NoHeader)
  {
  }

  /** The direction after its first two segments, of which the second has only three bytes of a header: synchronised,
      although its place in the stream is lost. */
  lemma AfterSplit(k: DirectionKey)
    ensures var segs := [Segment(k, 0, 0, [HANDSHAKE, 3, 3, 0, 0]), Segment(k, 5, 0, [HANDSHAKE, 3, 3])];
            var s := StateAt(Run(map[], segs), k);
            s.synchronized && s.expectedSeq == 8 && !s.active && s.remaining == 0
  {
    hide ScanRecords;
    var first, second := Segment(k, 0, 0, [HANDSHAKE, 3, 3, 0, 0]), Segment(k, 5, 0, [HANDSHAKE, 3, 3]);
    var segs := [first, second];
    HelloScans();
    SplitHeaderScans();
    assert segs[..1] == [first] && [first][..0] == [];
    assert Run(map[], [first][..0]) == map[];
    assert HasType([Record(0, HANDSHAKE, 5)], HANDSHAKE);
    var s := StateAt(Run(map[], [first]), k);
    assert s.synchronized && s.expectedSeq == 5 && !s.active && s.remaining == 0;
  }

  /** Once a split header has lost the place, a cut can drop bytes of any record: a stream of handshake records only
      is cut, by as much as the configuration allows, in a segment of which the only header accepted is one of
      application data. */
  lemma HandshakeIsCut(k: DirectionKey, n: nat, config: TlsOptions)
    requires 5 <= n <= 0x1000
    ensures ValidStream(HANDSHAKES) && StreamSize(HANDSHAKES) == 0x170D
    ensures forall q | 0 <= q < StreamSize(HANDSHAKES) :: TypeAt(HANDSHAKES, q) == HANDSHAKE
    ensures var data := EncodeStream(HANDSHAKES);
            var first, second := Segment(k, 0, 0, data[..5]), Segment(k, 5, 0, data[5..8]);
            var third := Segment(k, 8, 0, data[8..8 + n]);
            var step := Track(Run(map[], [first, second]), third);
            && InOrder([first, second, third], k, HANDSHAKES, 0, 0) && !CleanCut(HANDSHAKES, 5, 8)
            && (config.keepRecordBytes < n ==>
                  Verdict(step.shape, n, config) == (AppDataPrefix, config.keepRecordBytes))
            && DropsOnlyApplicationData(step.accepted, 0)
  {
    hide ScanRecords, EncodeStream, Run;
    HandshakeBytes();
    var data := EncodeStream(HANDSHAKES);
    var first, second := Segment(k, 0, 0, data[..5]), Segment(k, 5, 0, data[5..8]);
    var third := Segment(k, 8, 0, data[8..8 + n]);
    assert third.payload[..5] == data[8..13];
    LookalikeScans(third.payload);
    OnlyRecord(Record(0, APPLICATION_DATA, 0x1005));
    AfterSplit(k);
    assert data[0..5] == data[..5];
    var segs := [first, second, third];
    assert segs[1..] == [second, third] && segs[1..][1..] == [third] && [third][1..] == [];
    assert InOrder([third], k, HANDSHAKES, 0, 8);
    assert InOrder([second, third], k, HANDSHAKES, 0, 5);
    assert PlaceOf(HANDSHAKES[1..], 3) == Inside(HANDSHAKE, 3, 0x1705);
  }
}
