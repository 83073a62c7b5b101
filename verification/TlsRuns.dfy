/** What the TLS tracker guarantees over whole runs of segments. */
module TlsRuns {
  import opened Bytes
  import opened PolicyConfig
  import opened TlsRecords
  import opened TlsConstrictor

  /** The table after a run of segments. */
  function Run(t: Table, segs: seq<Segment>): Table {
    if segs == [] then t else Track(Run(t, segs[..|segs| - 1]), segs[|segs| - 1]).table
  }

  /** The two directions of one connection. */
  predicate SamePair(a: DirectionKey, b: DirectionKey) {
    a == b || a == b.Reverse()
  }

  // ------------------------------------- reachable states -------------------------------------

  /** In every reachable table: synchronised directions are confirmed, carried records are well-formed and only in
      synchronised directions, and everything else is cleared. */
  lemma {:induction false} ReachableIsValid(segs: seq<Segment>)
    ensures ValidTable(Run(map[], segs))
  {
    if segs != [] {
      ReachableIsValid(segs[..|segs| - 1]);
      TrackKeepsValid(Run(map[], segs[..|segs| - 1]), segs[|segs| - 1]);
    }
  }

  /** From a valid table, a segment with payload is given up as no record only by refusing its first header, it
      then leaves the direction unsynchronised; and a direction that starts over stays confirmed. */
  lemma OutcomesOfValid(t: Table, seg: Segment)
    requires ValidTable(t) && seg.payload != []
    ensures var s := Resync(StateAt(Flush(t, seg), seg.key), seg.tcpSeq);
            var step := Track(t, seg);
            && (step.shape == Keep(NoRecord) <==> !s.active && RefusesFirst(s, ScanRecords(seg.payload, 0).records))
            && (step.shape == Keep(NoRecord) <==>
                  !StateAt(step.table, seg.key).synchronized && !(s.active && s.constrictible))
            && (s.active && s.constrictible && s.remaining < |seg.payload| ==>
                  StateAt(step.table, seg.key).confirmed && !StateAt(step.table, seg.key).synchronized)
  {
    var s := Resync(StateAt(Flush(t, seg), seg.key), seg.tcpSeq);
    if !s.active {
      assert s == s.Idle();
    }
  }

  // ------------------------------------ confirmation is history ------------------------------------

  /** The tracker accepted a handshake header in this segment. */
  predicate AcceptsHandshake(t: Table, seg: Segment) {
    HasType(Track(t, seg).accepted, HANDSHAKE)
  }

  /** Segment `i` brought `k`'s connection a handshake header, and no SYN or RST came after it. */
  ghost predicate HandshakeAt(segs: seq<Segment>, k: DirectionKey, i: nat) {
    && i < |segs| && SamePair(segs[i].key, k) && AcceptsHandshake(Run(map[], segs[..i]), segs[i])
    && forall j | i < j < |segs| :: SamePair(segs[j].key, k) ==> !SynOrRst(segs[j].flags)
  }

  /** A segment of `k`'s connection brought an accepted handshake header, within or after its last SYN or RST. */
  ghost predicate HandshakeSinceReset(segs: seq<Segment>, k: DirectionKey) {
    exists i :: HandshakeAt(segs, k, i)
  }

  lemma ConfirmationStep(t: Table, seg: Segment, k: DirectionKey)
    requires ValidTable(t)
    ensures StateAt(Track(t, seg).table, k).confirmed ==
            if SamePair(seg.key, k) then AcceptsHandshake(t, seg) || (StateAt(t, k).confirmed && !SynOrRst(seg.flags))
            else StateAt(t, k).confirmed
  {
    var flushed := Flush(t, seg);
    if seg.payload != [] {
      PayloadConfirms(flushed, seg, Resync(StateAt(flushed, seg.key), seg.tcpSeq), k);
    }
  }

  lemma PayloadConfirms(t: Table, seg: Segment, s: DirectionState, k: DirectionKey)
    requires s.Valid() && s.confirmed == StateAt(t, seg.key).confirmed && seg.payload != []
    ensures var step := TrackPayload(t, seg, s);
            StateAt(step.table, k).confirmed ==
            (StateAt(t, k).confirmed || (SamePair(seg.key, k) && HasType(step.accepted, HANDSHAKE)))
  {
  }

  lemma HandshakeAtOfInit(segs: seq<Segment>, k: DirectionKey, i: nat)
    requires segs != []
    ensures var n := |segs| - 1;
            HandshakeAt(segs, k, i) <==>
            if i == n then SamePair(segs[n].key, k) && AcceptsHandshake(Run(map[], segs[..n]), segs[n])
            else HandshakeAt(segs[..n], k, i) && (SamePair(segs[n].key, k) ==> !SynOrRst(segs[n].flags))
  {
    var n := |segs| - 1;
    if i < n {
      assert segs[..n][..i] == segs[..i];
    }
  }

  /** Confirmation is exactly history. */
  lemma {:induction false} ConfirmedIsHistory(segs: seq<Segment>, k: DirectionKey)
    ensures StateAt(Run(map[], segs), k).confirmed <==> HandshakeSinceReset(segs, k)
  {
    if segs != [] {
      var n := |segs| - 1;
      ConfirmedIsHistory(segs[..n], k);
      ReachableIsValid(segs[..n]);
      ConfirmationStep(Run(map[], segs[..n]), segs[n], k);
      forall i: nat ensures HandshakeAt(segs, k, i) <==>
            if i == n then SamePair(segs[n].key, k) && AcceptsHandshake(Run(map[], segs[..n]), segs[n])
            else HandshakeAt(segs[..n], k, i) && (SamePair(segs[n].key, k) ==> !SynOrRst(segs[n].flags)) {
        HandshakeAtOfInit(segs, k, i);
      }
      if HandshakeSinceReset(segs[..n], k) {
        var i :| HandshakeAt(segs[..n], k, i);
        assert HandshakeAt(segs, k, i) <==> (SamePair(segs[n].key, k) ==> !SynOrRst(segs[n].flags));
      }
      assert HandshakeAt(segs, k, n) <==> SamePair(segs[n].key, k) && AcceptsHandshake(Run(map[], segs[..n]), segs[n]);
    }
  }

  /** The two directions of a connection are always confirmed together. */
  lemma ConfirmedTogether(segs: seq<Segment>, k: DirectionKey)
    ensures StateAt(Run(map[], segs), k).confirmed == StateAt(Run(map[], segs), k.Reverse()).confirmed
  {
    ConfirmedIsHistory(segs, k);
    ConfirmedIsHistory(segs, k.Reverse());
    assert forall a :: SamePair(a, k) <==> SamePair(a, k.Reverse());
    assert forall i :: HandshakeAt(segs, k, i) <==> HandshakeAt(segs, k.Reverse(), i);
  }

  /** No segment is ever cut without a handshake header accepted in its connection since its last SYN or RST. */
  lemma CutNeedsHandshake(segs: seq<Segment>, seg: Segment, config: TlsOptions)
    requires Verdict(Track(Run(map[], segs), seg).shape, |seg.payload|, config).0 == AppDataPrefix
    ensures HandshakeSinceReset(segs + [seg], seg.key)
  {
    var all := segs + [seg];
    assert all[..|segs|] == segs;
    ReachableIsValid(segs);
    CutIsConfirmed(Run(map[], segs), seg);
    ConfirmedIsHistory(all, seg.key);
  }

  lemma CutIsConfirmed(t: Table, seg: Segment)
    requires ValidTable(t) && (Track(t, seg).shape.FinalContinuation? || Track(t, seg).shape.LastRecord?)
    ensures StateAt(Track(t, seg).table, seg.key).confirmed
  {
    TrackKeepsValid(t, seg);
    var s := Resync(StateAt(Flush(t, seg), seg.key), seg.tcpSeq);
    if Track(t, seg).shape.LastRecord? {
      var records := ScanRecords(seg.payload, s.remaining).records;
      LastApplicationDataIsLast(records);
    }
  }

  // -------------------------------------- where a cut is placed --------------------------------------

  /** `r` is the last application-data record among `records`. */
  ghost predicate IsLastApplicationData(records: seq<Record>, r: Record) {
    exists i | 0 <= i < |records| ::
      records[i] == r && r.contentType == APPLICATION_DATA
      && forall j | i < j < |records| :: records[j].contentType != APPLICATION_DATA
  }

  /** The segment is exactly the rest of a carried application-data record, in sequence. */
  predicate CompletesApplicationData(t: Table, seg: Segment) {
    var s := StateAt(Flush(t, seg), seg.key);
    && seg.payload != [] && s.active && s.expectedSeq == seg.tcpSeq
    && s.activeType == APPLICATION_DATA && s.remaining == |seg.payload|
  }

  /** The offset in the payload at which records can start: the bytes of the carried record, if in sequence, lie
      before it. */
  function CarriedBytes(t: Table, seg: Segment): nat {
    var s := StateAt(Flush(t, seg), seg.key);
    if s.active && s.expectedSeq == seg.tcpSeq then s.remaining else 0
  }

  /** A cut keeps either the configured part of an exactly completed application-data record, or everything before
      the last accepted application-data record of the segment and the configured part of that record. The accepted
      records tile the payload from the end of the carried record on. Every other outcome keeps the payload whole. */
  lemma CutPlacement(t: Table, seg: Segment, config: TlsOptions)
    requires ValidTable(t)
    ensures var step := Track(t, seg);
            var (disposition, kept) := Verdict(step.shape, |seg.payload|, config);
            && (disposition == AppDataPrefix ==> kept < |seg.payload|)
            && (disposition != AppDataPrefix ==> kept == |seg.payload|)
            && (step.accepted != [] ==> Tiles(seg.payload, CarriedBytes(t, seg), step.accepted))
            && (disposition == AppDataPrefix && CompletesApplicationData(t, seg) ==>
                  kept == config.keepContinuationBytes)
            && (disposition == AppDataPrefix && !CompletesApplicationData(t, seg) ==>
                  exists r | IsLastApplicationData(step.accepted, r) ::
                    r.start <= kept == r.start + Min(config.keepRecordBytes, Min(r.size, |seg.payload| - r.start)))
  {
    hide ScanRecords, Tiles, HasType, LastApplicationData, IsLastApplicationData;
    var flushed := Flush(t, seg);
    var s := Resync(StateAt(flushed, seg.key), seg.tcpSeq);
    if seg.payload != [] && !(s.active && (s.remaining >= |seg.payload| || s.constrictible)) {
      var r := RecordCutPlacement(flushed, seg, s.Idle(), s.remaining, config);
    }
  }

  lemma RecordCutPlacement(t: Table, seg: Segment, s: DirectionState, offset: nat, config: TlsOptions)
    returns (r: Record)
    requires offset < |seg.payload|
    ensures TrackRecords(t, seg, s, ScanRecords(seg.payload, offset)).accepted != [] ==>
              Tiles(seg.payload, offset, ScanRecords(seg.payload, offset).records)
    ensures var step := TrackRecords(t, seg, s, ScanRecords(seg.payload, offset));
            var (disposition, kept) := Verdict(step.shape, |seg.payload|, config);
            && (disposition == AppDataPrefix ==>
                  && IsLastApplicationData(step.accepted, r)
                  && r.start <= kept == r.start + Min(config.keepRecordBytes, Min(r.size, |seg.payload| - r.start)))
  {
    var scan := ScanRecords(seg.payload, offset);
    ScanShape(seg.payload, offset);
    r := Record(0, 0, 0);
    if LastApplicationData(scan.records).Some? {
      r := LastApplicationData(scan.records).value;
      LastRecordFacts(seg.payload, offset, scan.records);
      RecordVerdict(scan, |seg.payload|, r, config);
    }
  }

  lemma RecordVerdict(scan: Scan, size: nat, r: Record, config: TlsOptions)
    requires LastApplicationData(scan.records) == Some(r) && r.start < size
    ensures var (disposition, kept) := Verdict(ShapeOf(scan, size), size, config);
            var cut := r.start + Min(config.keepRecordBytes, Min(r.size, size - r.start));
            && (disposition == AppDataPrefix <==> scan.ending != NoHeader && cut < size)
            && (disposition == AppDataPrefix ==> kept == cut)
  {
  }

  lemma LastRecordFacts(payload: bytes, offset: nat, records: seq<Record>)
    requires Tiles(payload, offset, records) && LastApplicationData(records).Some?
    ensures var r := LastApplicationData(records).value;
            IsLastApplicationData(records, r) && r.start + HEADER_SIZE <= |payload| && r.size >= HEADER_SIZE
  {
    LastApplicationDataIsLast(records);
    TiledRecord(payload, offset, records, LastApplicationData(records).value);
  }

  /** And a cut is made whenever one of the two shortens the payload: exactly completed application data ... */
  lemma CompletionIsCut(t: Table, seg: Segment, config: TlsOptions)
    requires ValidTable(t) && CompletesApplicationData(t, seg)
    ensures Verdict(Track(t, seg).shape, |seg.payload|, config).0 == AppDataPrefix <==>
            config.keepContinuationBytes < |seg.payload|
  {
  }

  /** ... or a last application-data record in a segment whose accepted records account for all of it. */
  lemma RecordIsCut(t: Table, seg: Segment, r: Record, config: TlsOptions)
    requires ValidTable(t) && IsLastApplicationData(Track(t, seg).accepted, r)
    requires Track(t, seg).shape != Keep(Malformed)
    ensures Verdict(Track(t, seg).shape, |seg.payload|, config).0 == AppDataPrefix <==>
            r.start + Min(config.keepRecordBytes, Min(r.size, |seg.payload| - r.start)) < |seg.payload|
  {
    var offset, records := CarriedBytes(t, seg), Track(t, seg).accepted;
    LastIsUnique(records, r);
    AcceptedAreScanned(t, seg);
    ScanShape(seg.payload, offset);
    LastRecordFacts(seg.payload, offset, records);
    RecordVerdict(ScanRecords(seg.payload, offset), |seg.payload|, r, config);
  }

  lemma LastIsUnique(records: seq<Record>, r: Record)
    requires IsLastApplicationData(records, r)
    ensures LastApplicationData(records) == Some(r)
  {
    LastApplicationDataIsLast(records);
    HasTypeMeans(records, APPLICATION_DATA);
    assert r in records;
  }

  /** What the tracker accepts is the flat parse of what follows the carried record. */
  lemma AcceptedAreScanned(t: Table, seg: Segment)
    requires ValidTable(t) && Track(t, seg).accepted != []
    ensures var scan := ScanRecords(seg.payload, CarriedBytes(t, seg));
            && CarriedBytes(t, seg) < |seg.payload|
            && Track(t, seg).accepted == scan.records && Track(t, seg).shape == ShapeOf(scan, |seg.payload|)
  {
    var s := StateAt(Flush(t, seg), seg.key);
    assert !s.active ==> s == s.Idle();
  }

  // ------------------------------------- what a cut drops -------------------------------------

  /** Every record with bytes past the first `kept` is application data. */
  predicate DropsOnlyApplicationData(records: seq<Record>, kept: nat) {
    forall i | 0 <= i < |records| && records[i].start + records[i].size > kept ::
      records[i].contentType == APPLICATION_DATA
  }

  /** Judged by the record headers the segment itself holds from the end of the carried record on, a cut drops nothing
      but application data if and only if the last of them is one of application data: any other record after the cut
      one is dropped with it. */
  lemma OnlyApplicationDataDropped(t: Table, seg: Segment, config: TlsOptions)
    requires ValidTable(t) && Verdict(Track(t, seg).shape, |seg.payload|, config).0 == AppDataPrefix
    requires !CompletesApplicationData(t, seg)
    ensures var kept := Verdict(Track(t, seg).shape, |seg.payload|, config).1;
            var records := ScanRecords(seg.payload, CarriedBytes(t, seg)).records;
            && records != []
            && (DropsOnlyApplicationData(records, kept) <==> records[|records| - 1].contentType == APPLICATION_DATA)
  {
    hide Track, CarriedBytes, Tiles, ScanRecords;
    var accepted, kept := Track(t, seg).accepted, Verdict(Track(t, seg).shape, |seg.payload|, config).1;
    CutPlacement(t, seg, config);
    var r :| IsLastApplicationData(accepted, r)
             && r.start <= kept == r.start + Min(config.keepRecordBytes, Min(r.size, |seg.payload| - r.start));
    DropsFromLast(seg.payload, CarriedBytes(t, seg), accepted, r, kept);
    AcceptedAreScanned(t, seg);
  }

  lemma DropsFromLast(payload: bytes, offset: nat, records: seq<Record>, r: Record, kept: nat)
    requires Tiles(payload, offset, records) && IsLastApplicationData(records, r) && r.start <= kept <= r.start + r.size
    ensures records != []
    ensures DropsOnlyApplicationData(records, kept) <==> records[|records| - 1].contentType == APPLICATION_DATA
  {
    var i :| 0 <= i < |records| && records[i] == r
             && forall j | i < j < |records| :: records[j].contentType != APPLICATION_DATA;
    forall j | 0 <= j < i ensures records[j].start + records[j].size <= kept {
      TilesOrdered(payload, offset, records, j, i);
    }
    if i < |records| - 1 {
      var last := records[|records| - 1];
      TilesOrdered(payload, offset, records, i, |records| - 1);
      TiledRecord(payload, offset, records, last);
      assert last.start + last.size > kept;
    }
  }

  const HELLO: bytes := [22, 3, 3, 0, 0]
  const DATA_THEN_ALERT: bytes := [23, 3, 3, 0, 1, 0xAA, 21, 3, 3, 0, 2, 1, 0]

  lemma HelloScans()
    ensures ScanRecords(HELLO, 0) == Scan([Record(0, HANDSHAKE, 5)], AtBoundary)
  {
    assert ReadHeader(HELLO, 0) == Some((HANDSHAKE, 0));
    assert ScanRecords(HELLO, 5) == Scan([], AtBoundary);
  }

  lemma DataThenAlertScans()
    ensures ScanRecords(DATA_THEN_ALERT, 0) == Scan([Record(0, APPLICATION_DATA, 6), Record(6, ALERT, 7)], AtBoundary)
  {
    assert ReadHeader(DATA_THEN_ALERT, 0) == Some((APPLICATION_DATA, 1));
    assert ReadHeader(DATA_THEN_ALERT, 6) == Some((ALERT, 2));
    assert ScanRecords(DATA_THEN_ALERT, 13) == Scan([], AtBoundary);
    assert ScanRecords(DATA_THEN_ALERT, 6) == Scan([Record(6, ALERT, 7)], AtBoundary);
  }

  /** It does happen: after a handshake record, a segment with an application-data record and an alert is cut in the
      former, under every configuration, and the alert is lost. */
  lemma AlertIsDropped(k: DirectionKey, config: TlsOptions)
    ensures var t := Run(map[], [Segment(k, 0, 0, HELLO)]);
            var step := Track(t, Segment(k, 5, 0, DATA_THEN_ALERT));
            var (disposition, kept) := Verdict(step.shape, |DATA_THEN_ALERT|, config);
            disposition == AppDataPrefix && kept <= 6 && !DropsOnlyApplicationData(step.accepted, kept)
  {
    hide ScanRecords;
    HelloScans();
    DataThenAlertScans();
    var hello := [Segment(k, 0, 0, HELLO)];
    assert hello[..0] == [];
    var t := Run(map[], hello);
    assert HasType([Record(0, HANDSHAKE, 5)], HANDSHAKE);
    assert Run(map[], hello[..0]) == map[];
    assert t == Track(map[], hello[0]).table;
    assert StateAt(t, k).synchronized && StateAt(t, k).expectedSeq == 5 && !StateAt(t, k).active &&
        StateAt(t, k).remaining == 0;
    var records := [Record(0, APPLICATION_DATA, 6), Record(6, ALERT, 7)];
    OnlyRecord(records[1]);
    assert records[1..] == [records[1]];
    assert LastApplicationData(records) == Some(records[0]);
    assert records[1].contentType != APPLICATION_DATA;
  }
}
