/** The tracker against a flat parse: a stream of TLS records, cut into segments of one direction that arrive in
    order among the segments of other directions and connections. */
module TlsStreams {
  import opened Bytes
  import opened TlsRecords
  import opened TlsConstrictor
  import opened TlsRuns

  /** The direction is synchronised at `expected`, and carries a record exactly when `place` is inside one: that one. */
  predicate AtPlace(s: DirectionState, place: Place, expected: u32) {
    && s.synchronized && s.expectedSeq == expected
    && match place
       case Boundary => !s.active
       case Inside(contentType, _, missing) =>
         s.active && s.activeType == contentType && s.remaining == missing &&
             s.constrictible == (contentType == APPLICATION_DATA)
  }

  /** The direction's state is what the flat parse of the first `position` stream bytes says. */
  predicate Tracks(s: DirectionState, stream: seq<TlsRecord>, start: u32, position: nat)
    requires position <= StreamSize(stream)
  {
    AtPlace(s, PlaceOf(stream, position), U32(start + position))
  }

  /** Before its first byte the direction may be unsynchronised, and need not be confirmed when the stream opens
      with a handshake. */
  predicate Ready(s: DirectionState, stream: seq<TlsRecord>, start: u32) {
    && !s.active && (s.synchronized ==> s.expectedSeq == start)
    && (s.confirmed || stream == [] || stream[0].contentType == HANDSHAKE)
  }

  predicate Agrees(s: DirectionState, stream: seq<TlsRecord>, start: u32, position: nat)
    requires position <= StreamSize(stream)
  {
    if position == 0 then Ready(s, stream, start) else Tracks(s, stream, start, position)
  }

  /** The position is not inside a record header. */
  predicate HeaderWhole(stream: seq<TlsRecord>, position: nat)
    requires position <= StreamSize(stream)
  {
    PlaceOf(stream, position).Inside? ==> PlaceOf(stream, position).done >= HEADER_SIZE
  }

  /** Cutting the stream into a segment from `a` to `b` splits no header, and an application-data record carried
      into the segment does not end before the segment does. */
  predicate CleanCut(stream: seq<TlsRecord>, a: nat, b: nat)
    requires a <= b <= StreamSize(stream)
  {
    && HeaderWhole(stream, b)
    && (PlaceOf(stream, a).Inside? && PlaceOf(stream, a).contentType == APPLICATION_DATA ==>
          b - a <= Missing(stream, a))
  }

  /** The segment carries stream bytes `a` to `b` in sequence. */
  predicate CarriesBytes(seg: Segment, stream: seq<TlsRecord>, start: u32, a: nat, b: nat)
    requires ValidStream(stream)
  {
    && !SynOrRst(seg.flags) && seg.tcpSeq == U32(start + a)
    && a <= b <= StreamSize(stream) && seg.payload == EncodeStream(stream)[a..b]
  }

  lemma SeqAdvances(start: u32, a: nat, b: nat)
    requires a <= b
    ensures U32(U32(start + a) + (b - a)) == U32(start + b)
  {
  }

  /** The first header the segment brings is accepted, if it is there. */
  lemma FirstAccepted(payload: bytes, s: DirectionState, offset: nat, stream: seq<TlsRecord>)
    requires ValidStream(stream) && Carries(payload, offset, stream) && offset < |payload|
    requires s.synchronized || s.confirmed || stream[0].contentType == HANDSHAKE
    ensures RefusesFirst(s, ScanRecords(payload, offset).records) ==>
              |payload| - offset < HEADER_SIZE && !s.synchronized
  {
    ScanFollowsStream(stream, payload, offset);
  }

  /** The state of a direction after its records have been tracked. */
  function AfterRecords(tcpSeq: u32, size: nat, s: DirectionState, scan: Scan): DirectionState {
    if RefusesFirst(s, scan.records) then (if s.confirmed then s else FRESH)
    else Carry(Advance(s, scan.records), scan).(expectedSeq := U32(tcpSeq + size))
  }

  /** The state of a direction, synchronised or idle, after an in-sequence payload. */
  function AfterPayload(tcpSeq: u32, payload: bytes, s: DirectionState): DirectionState {
    if s.active && s.remaining >= |payload| then
      var advanced := s.(expectedSeq := U32(tcpSeq + |payload|));
      if s.remaining > |payload| then advanced.(remaining := s.remaining - |payload|) else advanced.Idle()
    else if s.active && s.constrictible then
      if s.confirmed then FRESH.(confirmed := true, seenApplicationData := s.seenApplicationData) else FRESH
    else
      AfterRecords(tcpSeq, |payload|, s.Idle(), ScanRecords(payload, s.remaining))
  }

  /** An in-sequence segment goes straight to the payload rules. */
  lemma AfterPayloadIsState(t: Table, seg: Segment)
    requires var s := StateAt(t, seg.key);
             seg.payload != [] && !SynOrRst(seg.flags) && (s.synchronized ==> s.expectedSeq == seg.tcpSeq)
    ensures StateAt(Track(t, seg).table, seg.key) == AfterPayload(seg.tcpSeq, seg.payload, StateAt(t, seg.key))
  {
  }

  /** Records found from `offset` on leave a synchronised direction where the stream is, unless a header was split. */
  lemma RecordsFollow(tcpSeq: u32, payload: bytes, s: DirectionState, offset: nat, stream: seq<TlsRecord>)
    requires s.Valid() && s == s.Idle() && ValidStream(stream)
    requires Carries(payload, offset, stream) && offset < |payload|
    requires s.synchronized || s.confirmed || stream[0].contentType == HANDSHAKE
    ensures var place := PlaceOf(stream, |payload| - offset);
            AtPlace(AfterRecords(tcpSeq, |payload|, s, ScanRecords(payload, offset)), place, U32(tcpSeq + |payload|))
            <==> !(place.Inside? && place.done < HEADER_SIZE)
  {
    FirstAccepted(payload, s, offset, stream);
    ShortPlace(stream, |payload| - offset);
    ScanFollowsStream(stream, payload, offset);
  }

  /** Fewer bytes than a header are inside a header. */
  lemma ShortPlace(stream: seq<TlsRecord>, position: nat)
    requires 0 < position <= StreamSize(stream)
    ensures position < HEADER_SIZE ==> PlaceOf(stream, position).Inside? && PlaceOf(stream, position).done < HEADER_SIZE
  {
  }

  /** The payload stays within the carried record. */
  lemma CarriedFollows(tcpSeq: u32, payload: bytes, s: DirectionState, stream: seq<TlsRecord>, a: nat, b: nat)
    requires ValidStream(stream) && a < b <= StreamSize(stream)
    requires s.active && AtPlace(s, PlaceOf(stream, a), tcpSeq) && HeaderWhole(stream, a)
    requires |payload| == b - a <= s.remaining
    ensures AtPlace(AfterPayload(tcpSeq, payload, s), PlaceOf(stream, b), U32(tcpSeq + |payload|))
    ensures CleanCut(stream, a, b)
  {
    SplitAt(stream, a);
    PlacesSplit(stream, a, b);
  }

  /** One payload: the state still agrees with the flat parse after it exactly when the cut is clean. */
  lemma PayloadFollows(tcpSeq: u32, payload: bytes, s: DirectionState, stream: seq<TlsRecord>, a: nat, b: nat)
    requires s.Valid() && ValidStream(stream) && a < b <= StreamSize(stream) && payload == EncodeStream(stream)[a..b]
    requires HeaderWhole(stream, a)
    requires AtPlace(s, PlaceOf(stream, a), tcpSeq) ||
             (a == 0 && !s.active && (s.confirmed || stream[0].contentType == HANDSHAKE))
    ensures AtPlace(AfterPayload(tcpSeq, payload, s), PlaceOf(stream, b), U32(tcpSeq + |payload|)) <==>
              CleanCut(stream, a, b)
  {
    assert s.remaining == Missing(stream, a);
    if s.active && s.remaining >= b - a {
      CarriedFollows(tcpSeq, payload, s, stream, a, b);
    } else if !s.constrictible {
      NewRecordsFollow(tcpSeq, payload, s.Idle(), stream, a, b);
    }
  }

  /** One segment: the tracker still agrees with the flat parse after it exactly when the cut is clean. */
  lemma SegmentFollows(t: Table, seg: Segment, stream: seq<TlsRecord>, start: u32, a: nat, b: nat)
    requires ValidTable(t) && ValidStream(stream) && CarriesBytes(seg, stream, start, a, b) && a < b
    requires HeaderWhole(stream, a) && Agrees(StateAt(t, seg.key), stream, start, a)
    ensures Agrees(StateAt(Track(t, seg).table, seg.key), stream, start, b) <==> CleanCut(stream, a, b)
  {
    AfterPayloadIsState(t, seg);
    SeqAdvances(start, a, b);
    PayloadFollows(seg.tcpSeq, seg.payload, StateAt(t, seg.key), stream, a, b);
  }

  lemma NewRecordsFollow(tcpSeq: u32, payload: bytes, s: DirectionState, stream: seq<TlsRecord>, a: nat, b: nat)
    requires s.Valid() && s == s.Idle() && ValidStream(stream) && a < b <= StreamSize(stream) &&
             payload == EncodeStream(stream)[a..b]
    requires Missing(stream, a) < b - a
    requires s.synchronized || s.confirmed || (a == 0 && stream[0].contentType == HANDSHAKE)
    ensures AtPlace(AfterRecords(tcpSeq, |payload|, s, ScanRecords(payload, Missing(stream, a))),
                    PlaceOf(stream, b), U32(tcpSeq + |payload|))
            <==> HeaderWhole(stream, b)
  {
    hide ScanRecords, PlaceOf, RecordsAfter, EncodeStream, StreamSize;
    RestFacts(payload, stream, a, b);
    RecordsFollow(tcpSeq, payload, s, Missing(stream, a), RecordsAfter(stream, a));
  }

  lemma RestFacts(payload: bytes, stream: seq<TlsRecord>, a: nat, b: nat)
    requires ValidStream(stream) && a <= b <= StreamSize(stream) && payload == EncodeStream(stream)[a..b]
    requires Missing(stream, a) < b - a
    ensures var m, rest := Missing(stream, a), RecordsAfter(stream, a);
            && ValidStream(rest) && Carries(payload, m, rest) && b - a - m <= StreamSize(rest)
            && PlaceOf(stream, b) == PlaceOf(rest, b - a - m)
            && (a == 0 ==> rest == stream)
  {
    SplitAt(stream, a);
    PlacesSplit(stream, a, b);
    RestStart(stream, a);
    CarriesRest(payload, stream, a, b);
  }

  lemma RestStart(stream: seq<TlsRecord>, a: nat)
    requires a <= StreamSize(stream)
    ensures a == 0 ==> RecordsAfter(stream, a) == stream && PlaceOf(stream, a) == Boundary
  {
  }

  lemma CarriesRest(payload: bytes, stream: seq<TlsRecord>, a: nat, b: nat)
    requires ValidStream(stream) && a <= b <= StreamSize(stream) && payload == EncodeStream(stream)[a..b]
    requires Missing(stream, a) < b - a && ValidStream(RecordsAfter(stream, a))
    requires a + Missing(stream, a) + StreamSize(RecordsAfter(stream, a)) == StreamSize(stream)
    requires EncodeStream(stream)[a + Missing(stream, a)..] == EncodeStream(RecordsAfter(stream, a))
    ensures Carries(payload, Missing(stream, a), RecordsAfter(stream, a))
  {
    var m := Missing(stream, a);
    assert payload[m..] == EncodeStream(stream)[a + m..b] == EncodeStream(stream)[a + m..][..b - a - m];
  }

  // ---------------------------------------- interleaved runs ----------------------------------------

  lemma OthersLeaveAlone(t: Table, seg: Segment, k: DirectionKey)
    requires !SamePair(seg.key, k)
    ensures StateAt(Track(t, seg).table, k) == StateAt(t, k)
  {
  }

  /** A segment of the reverse direction can at most confirm this one. */
  lemma ReverseOnlyConfirms(t: Table, seg: Segment, k: DirectionKey)
    requires seg.key == k.Reverse() && seg.key != k && !SynOrRst(seg.flags)
    ensures StateAt(Track(t, seg).table, k) in {StateAt(t, k), StateAt(t, k).(confirmed := true)}
  {
  }

  /** The segments of direction `k` that have a payload carry the stream from `position` on, in order; no segment of the
      connection opens or aborts it; those of other connections are arbitrary. */
  predicate InOrder(segs: seq<Segment>, k: DirectionKey, stream: seq<TlsRecord>, start: u32, position: nat)
    requires ValidStream(stream)
  {
    segs == [] ||
    (var next := Next(segs[0], k, position);
     && (SamePair(segs[0].key, k) ==> !SynOrRst(segs[0].flags))
     && (segs[0].key == k && segs[0].payload != [] ==> CarriesBytes(segs[0], stream, start, position, next))
     && InOrder(segs[1..], k, stream, start, next))
  }

  function Next(seg: Segment, k: DirectionKey, position: nat): nat {
    if seg.key == k then position + |seg.payload| else position
  }

  /** Every cut the segments of `k` make in the stream is clean. */
  predicate CleanCuts(segs: seq<Segment>, k: DirectionKey, stream: seq<TlsRecord>, position: nat) {
    segs == [] ||
    (var next := Next(segs[0], k, position);
     && position <= next <= StreamSize(stream)
     && (next > position ==> CleanCut(stream, position, next))
     && CleanCuts(segs[1..], k, stream, next))
  }

  /** After every segment the state of `k` agrees with the flat parse. */
  predicate AlwaysAgrees(t: Table, segs: seq<Segment>, k: DirectionKey, stream: seq<TlsRecord>, start: u32,
                         position: nat)
    decreases |segs|
  {
    segs == [] ||
    (var after := Track(t, segs[0]).table;
     var next := Next(segs[0], k, position);
     && next <= StreamSize(stream)
     && Agrees(StateAt(after, k), stream, start, next)
     && AlwaysAgrees(after, segs[1..], k, stream, start, next))
  }

  lemma EventFollows(t: Table, seg: Segment, k: DirectionKey, stream: seq<TlsRecord>, start: u32, position: nat)
    requires ValidTable(t) && ValidStream(stream) && InOrder([seg], k, stream, start, position)
    requires position <= StreamSize(stream) && HeaderWhole(stream, position)
    requires Agrees(StateAt(t, k), stream, start, position)
    ensures var next := Next(seg, k, position);
            && next <= StreamSize(stream)
            && (Agrees(StateAt(Track(t, seg).table, k), stream, start, next) <==>
                (next > position ==> CleanCut(stream, position, next)))
  {
    hide ScanRecords, StreamSize, EncodeStream, PlaceOf, Resync, TrackPayload;
    if seg.key == k {
      if seg.payload != [] {
        SegmentFollows(t, seg, stream, start, position, position + |seg.payload|);
      }
    } else if seg.key == k.Reverse() {
      ReverseOnlyConfirms(t, seg, k);
    } else {
      assert seg.key != k.Reverse();
      OthersLeaveAlone(t, seg, k);
    }
  }

  /** Whatever the segmentation and the interleaving, the tracker agrees with the flat parse after every segment
      exactly when no cut splits a header and no carried application-data record ends inside a segment. */
  lemma {:induction false} AgreesIffCutsAreClean(t: Table, segs: seq<Segment>, k: DirectionKey,
      stream: seq<TlsRecord>, start: u32, position: nat)
    requires ValidTable(t) && ValidStream(stream) && InOrder(segs, k, stream, start, position)
    requires position <= StreamSize(stream) && HeaderWhole(stream, position)
    requires Agrees(StateAt(t, k), stream, start, position)
    ensures AlwaysAgrees(t, segs, k, stream, start, position) <==> CleanCuts(segs, k, stream, position)
    decreases |segs|
  {
    if segs != [] {
      var next := Next(segs[0], k, position);
      EventFollows(t, segs[0], k, stream, start, position);
      TrackKeepsValid(t, segs[0]);
      if Agrees(StateAt(Track(t, segs[0]).table, k), stream, start, next) {
        AgreesIffCutsAreClean(Track(t, segs[0]).table, segs[1..], k, stream, start, next);
      }
    }
  }

  // ---------------------------------------- losing the place ----------------------------------------

  /** A split header loses the place: a handshake record of which three header bytes come first. */
  lemma SplitHeaderLosesPlace(k: DirectionKey)
    ensures var stream := [TlsRecord(HANDSHAKE, 3, [])];
            var segs := [Segment(k, 0, 0, EncodeStream(stream)[..3])];
            && InOrder(segs, k, stream, 0, 0) && Agrees(StateAt(map[], k), stream, 0, 0)
            && !HeaderWhole(stream, 3) && !AlwaysAgrees(map[], segs, k, stream, 0, 0)
  {
    var stream := [TlsRecord(HANDSHAKE, 3, [])];
    var segs := [Segment(k, 0, 0, EncodeStream(stream)[..3])];
    assert stream[1..] == [] && segs[1..] == [];
    AgreesIffCutsAreClean(map[], segs, k, stream, 0, 0);
  }

  const THREE_RECORDS :=
    [TlsRecord(HANDSHAKE, 3, []), TlsRecord(APPLICATION_DATA, 3, [1, 2]), TlsRecord(ALERT, 3, [1, 0])]

  lemma ThreePlaces()
    ensures ValidStream(THREE_RECORDS) && StreamSize(THREE_RECORDS) == 19
    ensures PlaceOf(THREE_RECORDS, 0) == Boundary
    ensures PlaceOf(THREE_RECORDS, 11) == Inside(APPLICATION_DATA, 6, 1)
    ensures PlaceOf(THREE_RECORDS, 19) == Boundary
  {
    var rest := THREE_RECORDS[1..];
    assert rest[1..] == [THREE_RECORDS[2]] && rest[1..][1..] == [];
    assert StreamSize(rest[1..]) == 7 && StreamSize(rest) == 14;
    assert PlaceOf(rest[1..], 7) == Boundary && PlaceOf(rest, 14) == Boundary;
    assert PlaceOf(rest, 6) == Inside(APPLICATION_DATA, 6, 1);
  }

  /** So does a carried application-data record that ends inside a segment, although no header is split: the record
      has one byte left when a segment brings it together with an alert. */
  lemma EndedCarryLosesPlace(k: DirectionKey)
    ensures var stream := THREE_RECORDS;
            && ValidStream(stream) && StreamSize(stream) == 19
            && var first := Segment(k, 0, 0, EncodeStream(stream)[..11]);
               var second := Segment(k, 11, 0, EncodeStream(stream)[11..]);
               && InOrder([first, second], k, stream, 0, 0)
               && HeaderWhole(stream, 11) && HeaderWhole(stream, 19)
               && AlwaysAgrees(map[], [first], k, stream, 0, 0)
               && !AlwaysAgrees(map[], [first, second], k, stream, 0, 0)
  {
    hide PlaceOf, EncodeStream, StreamSize, Track;
    var stream := THREE_RECORDS;
    ThreePlaces();
    var first, second := Segment(k, 0, 0, EncodeStream(stream)[..11]), Segment(k, 11, 0, EncodeStream(stream)[11..]);
    var segs := [first, second];
    assert [first][1..] == [] && segs[1..] == [second] && [second][1..] == [];
    assert EncodeStream(stream)[0..11] == first.payload && EncodeStream(stream)[11..19] == second.payload;
    assert InOrder([second], k, stream, 0, 11);
    AgreesIffCutsAreClean(map[], [first], k, stream, 0, 0);
    AgreesIffCutsAreClean(map[], segs, k, stream, 0, 0);
    assert !CleanCut(stream, 11, 19);
    assert !CleanCuts([second], k, stream, 11);
  }
}
