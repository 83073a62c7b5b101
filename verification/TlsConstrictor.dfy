/** The TLS record tracker: one state per direction of a TCP connection, advanced segment by segment. */
module TlsConstrictor {
  import opened Bytes
  import opened PacketDecode
  import opened PolicyConfig
  import opened TlsRecords

  datatype Disposition = NoRecord | Malformed | NoApplicationData | AppDataPrefix

  datatype TlsResult = TlsResult(disposition: Disposition, outputLen: u32)

  datatype DirectionKey = DirectionKey(srcIp: bytes, dstIp: bytes, addressLength: byte, srcPort: u16, dstPort: u16)
  {
    function Reverse(): DirectionKey {
      DirectionKey(dstIp, srcIp, addressLength, dstPort, srcPort)
    }
  }

  datatype DirectionState = DirectionState(
    confirmed: bool,
    seenApplicationData: bool,
    synchronized: bool,
    expectedSeq: u32,
    active: bool,
    activeType: byte,
    remaining: nat,
    constrictible: bool)
  {
    /** No record is carried into the next segment. */
    function Idle(): DirectionState {
      this.(active := false, activeType := 0, remaining := 0, constrictible := false)
    }

    /** What holds of every direction the tracker ever reaches. */
    predicate Valid() {
      && (synchronized ==> confirmed)
      && (seenApplicationData ==> confirmed)
      && (!synchronized ==> !active && expectedSeq == 0)
      && (active ==>
            1 <= remaining < 0x1_0000 && IsContentType(activeType) && constrictible == (activeType == APPLICATION_DATA))
      && (!active ==> activeType == 0 && remaining == 0 && !constrictible)
    }
  }

  const FRESH := DirectionState(false, false, false, 0, false, 0, 0, false)

  type Table = map<DirectionKey, DirectionState>

  predicate ValidTable(t: Table) {
    forall k | k in t :: t[k].Valid()
  }

  function StateAt(t: Table, k: DirectionKey): DirectionState {
    if k in t then t[k] else FRESH
  }

  function KeyOf(decoded: Decoded): DirectionKey {
    DirectionKey(decoded.network.srcAddress, decoded.network.dstAddress, decoded.network.addressLength,
                 decoded.transport.srcPort, decoded.transport.dstPort)
  }

  /** Two packets are of the same direction exactly when their addresses and ports agree. */
  lemma SameKeyIff(d: Decoded, e: Decoded)
    ensures KeyOf(d) == KeyOf(e) <==>
            && d.network.addressLength == e.network.addressLength
            && d.network.srcAddress == e.network.srcAddress && d.network.dstAddress == e.network.dstAddress
            && d.transport.srcPort == e.transport.srcPort && d.transport.dstPort == e.transport.dstPort
  {
  }

  /** They are of reverse directions exactly when source and destination are exchanged. */
  lemma ReverseKeyIff(d: Decoded, e: Decoded)
    ensures KeyOf(e) == KeyOf(d).Reverse() <==>
            && d.network.addressLength == e.network.addressLength
            && d.network.srcAddress == e.network.dstAddress && d.network.dstAddress == e.network.srcAddress
            && d.transport.srcPort == e.transport.dstPort && d.transport.dstPort == e.transport.srcPort
  {
  }

  predicate SynOrRst(flags: byte) {
    flags / 2 % 4 != 0
  }

  /** SYN is the bit of weight 2, RST that of weight 4; FIN and the bits above do not count. */
  lemma SynOrRstMeans(fin: bool, syn: bool, rst: bool, others: nat)
    requires others < 32
    ensures var flags := (if fin then 1 else 0) + (if syn then 2 else 0) + (if rst then 4 else 0) + 8 * others;
            SynOrRst(flags) <==> syn || rst
  {
  }

  // ------------------------------------------------------------------------------------------------
  // One tracker step, stated over the flat parse of the segment.
  // ------------------------------------------------------------------------------------------------

  datatype Segment = Segment(key: DirectionKey, tcpSeq: u32, flags: byte, payload: bytes)

  /** What a segment looks like to the tracker: to be kept whole, the exact end of a carried application-data
      record, or one whose last application-data record starts at `start` and has `present` bytes in it. */
  datatype Shape = Keep(disposition: Disposition) | FinalContinuation | LastRecord(start: nat, present: nat)

  /** The new table, the shape, and the record headers the tracker accepted. */
  datatype Step = Step(table: Table, shape: Shape, accepted: seq<Record>)

  function Flush(t: Table, seg: Segment): Table {
    if SynOrRst(seg.flags) then t - {seg.key, seg.key.Reverse()} else t
  }

  /** A gap in the sequence numbers drops the carried record and the synchronisation, but not the confirmation. */
  function Resync(s: DirectionState, tcpSeq: u32): DirectionState {
    if s.synchronized && tcpSeq != s.expectedSeq then s.Idle().(synchronized := false, expectedSeq := 0) else s
  }

  function Track(t: Table, seg: Segment): Step {
    var flushed := Flush(t, seg);
    if seg.payload == [] then Step(flushed, Keep(NoApplicationData), [])
    else TrackPayload(flushed, seg, Resync(StateAt(flushed, seg.key), seg.tcpSeq))
  }

  function TrackPayload(t: Table, seg: Segment, s: DirectionState): Step {
    if s.active && s.remaining >= |seg.payload| then
      Continue(t, seg, s)
    else if s.active && s.constrictible then
      Restart(t, seg, s)
    else
      TrackRecords(t, seg, s.Idle(), ScanRecords(seg.payload, s.remaining))
  }

  /** A carried application-data record ends inside the segment: the direction starts over, keeping what it knew. */
  function Restart(t: Table, seg: Segment, s: DirectionState): Step {
    Step(if s.confirmed then t[seg.key := FRESH.(confirmed := true, seenApplicationData := s.seenApplicationData)]
         else t - {seg.key},
         Keep(NoApplicationData), [])
  }

  /** The whole segment belongs to the carried record. */
  function Continue(t: Table, seg: Segment, s: DirectionState): Step
    requires s.remaining >= |seg.payload|
  {
    var advanced := s.(expectedSeq := U32(seg.tcpSeq + |seg.payload|));
    if s.remaining > |seg.payload| then
      Step(t[seg.key := advanced.(remaining := s.remaining - |seg.payload|)], Keep(NoApplicationData), [])
    else
      Step(t[seg.key := advanced.Idle()], if s.constrictible then FinalContinuation else Keep(NoApplicationData), [])
  }

  /** Without synchronisation the first header must be there, and be a handshake unless TLS is confirmed. */
  predicate RefusesFirst(s: DirectionState, records: seq<Record>) {
    !s.synchronized && (records == [] || (records[0].contentType != HANDSHAKE && !s.confirmed))
  }

  function TrackRecords(t: Table, seg: Segment, s: DirectionState, scan: Scan): Step {
    if RefusesFirst(s, scan.records) then
      Step(if s.confirmed then t[seg.key := s] else t - {seg.key}, Keep(NoRecord), [])
    else
      var after := Carry(Advance(s, scan.records), scan).(expectedSeq := U32(seg.tcpSeq + |seg.payload|));
      Step(ConfirmReverse(t, seg.key, HasType(scan.records, HANDSHAKE))[seg.key := after],
           ShapeOf(scan, |seg.payload|), scan.records)
  }

  /** Accepting headers synchronises a direction; a handshake among them confirms it. */
  function Advance(s: DirectionState, records: seq<Record>): DirectionState {
    s.(synchronized := s.synchronized || records != [],
       confirmed := s.confirmed || HasType(records, HANDSHAKE),
       seenApplicationData := s.seenApplicationData || HasType(records, APPLICATION_DATA))
  }

  /** A handshake also confirms the reverse direction. */
  function ConfirmReverse(t: Table, key: DirectionKey, handshake: bool): Table {
    if handshake then t[key.Reverse() := StateAt(t, key.Reverse()).(confirmed := true)] else t
  }

  function Carry(s: DirectionState, scan: Scan): DirectionState {
    if scan.ending.InRecord? && scan.records != [] then
      var last := scan.records[|scan.records| - 1].contentType;
      s.(active := true, activeType := last, remaining := scan.ending.missing,
         constrictible := last == APPLICATION_DATA)
    else
      s
  }

  function ShapeOf(scan: Scan, size: nat): Shape {
    if scan.ending.NoHeader? then Keep(Malformed)
    else
      match LastApplicationData(scan.records)
      case None => Keep(NoApplicationData)
      case Some(r) => LastRecord(r.start, Max(0, Min(r.size, size - r.start)))
  }

  /** How many payload bytes a shape asks to keep; `None` for all of them. */
  function Candidate(shape: Shape, size: nat, config: TlsOptions): Option<nat> {
    match shape
    case Keep(_) => None
    case FinalContinuation => Some(Min(config.keepContinuationBytes, size))
    case LastRecord(start, present) => Some(start + Min(config.keepRecordBytes, present))
  }

  function Verdict(shape: Shape, size: nat, config: TlsOptions): (Disposition, nat) {
    match Candidate(shape, size, config)
    case None => (shape.disposition, size)
    case Some(kept) => if kept >= size then (NoApplicationData, size) else (AppDataPrefix, kept)
  }

  /** What `Evaluate` computes: the new table and the result. */
  function Evaluation(t: Table, packet: bytes, decoded: Decoded, config: TlsOptions): (Table, TlsResult) {
    if decoded.transport.protocol != Tcp then
      (t, TlsResult(Malformed, U32(|packet|)))
    else if decoded.transport.payloadLength > 0 &&
            !HasBytes(packet, decoded.transport.payloadOffset, decoded.transport.payloadLength) then
      (Flush(t, Segment(KeyOf(decoded), 0, decoded.transport.tcpFlags, [])), TlsResult(Malformed, U32(|packet|)))
    else
      var seg := SegmentOf(packet, decoded);
      var step := Track(t, seg);
      (step.table, ResultOf(step.shape, decoded.transport.payloadOffset, |seg.payload|, |packet|, config))
  }

  /** The result for a payload of `size` bytes at `start` in a packet of `whole` bytes. */
  function ResultOf(shape: Shape, start: nat, size: nat, whole: nat, config: TlsOptions): TlsResult {
    var verdict := Verdict(shape, size, config);
    TlsResult(verdict.0, U32(if verdict.0 == AppDataPrefix then start + verdict.1 else whole))
  }

  /** Only a candidate shortens a segment. */
  lemma KeepsAreNotCuts(t: Table, seg: Segment)
    ensures Track(t, seg).shape != Keep(AppDataPrefix)
  {
  }

  function SegmentOf(packet: bytes, decoded: Decoded): Segment
    requires decoded.transport.payloadLength > 0 ==>
               HasBytes(packet, decoded.transport.payloadOffset, decoded.transport.payloadLength)
  {
    var t := decoded.transport;
    Segment(KeyOf(decoded), t.tcpSeq, t.tcpFlags,
            if t.payloadLength == 0 then [] else packet[t.payloadOffset..t.payloadOffset + t.payloadLength])
  }

  function AdvanceOne(s: DirectionState, contentType: byte): DirectionState {
    s.(synchronized := true,
       confirmed := s.confirmed || contentType == HANDSHAKE,
       seenApplicationData := s.seenApplicationData || contentType == APPLICATION_DATA)
  }

  /** The bytes of a payload of `size` bytes to keep when record `r` in it is to be cut. */
  function Kept(r: Record, size: nat, config: TlsOptions): nat {
    r.start + Min(config.keepRecordBytes, Max(0, Min(r.size, size - r.start)))
  }

  /** What the record loop carries from one header to the next. */
  datatype LoopState = LoopState(table: Table, state: DirectionState, candidate: Option<nat>)

  datatype LoopEnd = LoopRefused(at: LoopState) | LoopDone(uncertain: bool, at: LoopState)

  /** The record loop, one header at a time. */
  function Loop(key: DirectionKey, payload: bytes, config: TlsOptions, at: LoopState, offset: nat): LoopEnd
    decreases |payload| - offset
  {
    if offset >= |payload| then LoopDone(false, at)
    else
      match ReadHeader(payload, offset)
      case None => if at.state.synchronized then LoopDone(true, at) else LoopRefused(at)
      case Some((contentType, length)) =>
        if !at.state.synchronized && contentType != HANDSHAKE && !at.state.confirmed then LoopRefused(at)
        else
          var r := Record(offset, contentType, HEADER_SIZE + length);
          var next := AcceptOne(key, payload, config, at, r);
          if offset + r.size > |payload| then
            LoopDone(false, next.(state := Carry(next.state, Scan([r], InRecord(offset + r.size - |payload|)))))
          else
            Loop(key, payload, config, next, offset + r.size)
  }

  lemma OnlyRecord(r: Record)
    ensures forall ty :: HasType([r], ty) <==> r.contentType == ty
    ensures LastApplicationData([r]) == if r.contentType == APPLICATION_DATA then Some(r) else None
  {
    assert [r][1..] == [] && LastApplicationData([]) == None;
    assert forall ty :: !HasType([], ty);
  }

  /** What the loop must end with, given the flat parse of the rest of the payload. */
  function ScanEnd(key: DirectionKey, payload: bytes, config: TlsOptions, at: LoopState, scan: Scan): LoopEnd {
    LoopDone(scan.ending.NoHeader?,
             LoopState(ConfirmReverse(at.table, key, HasType(scan.records, HANDSHAKE)),
                       Carry(Advance(at.state, scan.records), scan),
                       match LastApplicationData(scan.records)
                       case Some(r) => Some(Kept(r, |payload|, config))
                       case None => at.candidate))
  }

  function AcceptOne(key: DirectionKey, payload: bytes, config: TlsOptions, at: LoopState, r: Record): LoopState {
    LoopState(ConfirmReverse(at.table, key, r.contentType == HANDSHAKE),
              AdvanceOne(at.state, r.contentType),
              if r.contentType == APPLICATION_DATA then Some(Kept(r, |payload|, config)) else at.candidate)
  }

  lemma ScanEndOfOne(key: DirectionKey, payload: bytes, config: TlsOptions, at: LoopState, r: Record, ending: Ending)
    requires ending.InRecord?
    ensures var next := AcceptOne(key, payload, config, at, r);
            ScanEnd(key, payload, config, at, Scan([r], ending)) ==
            LoopDone(false, next.(state := Carry(next.state, Scan([r], ending))))
  {
    OnlyRecord(r);
  }

  lemma ScanEndOfCons(key: DirectionKey, payload: bytes, config: TlsOptions, at: LoopState, r: Record, rest: Scan)
    requires rest.ending.InRecord? ==> rest.records != []
    ensures ScanEnd(key, payload, config, at, Scan([r] + rest.records, rest.ending))
         == ScanEnd(key, payload, config, AcceptOne(key, payload, config, at, r), rest)
  {
    assert ([r] + rest.records)[1..] == rest.records;
  }

  lemma CutScanHasRecord(payload: bytes, offset: nat)
    ensures ScanRecords(payload, offset).ending.InRecord? ==> ScanRecords(payload, offset).records != []
  {
  }

  lemma ScanCons(payload: bytes, r: Record, scan: Scan)
    requires r.start < |payload| && ReadHeader(payload, r.start) == Some((r.contentType, r.size - HEADER_SIZE))
    requires r.start + r.size <= |payload| && scan == ScanRecords(payload, r.start)
    ensures var rest := ScanRecords(payload, r.start + r.size);
            scan == Scan([r] + rest.records, rest.ending)
  {
  }

  lemma LoopCons(key: DirectionKey, payload: bytes, config: TlsOptions, at: LoopState, r: Record, loop: LoopEnd)
    requires r.start < |payload| && ReadHeader(payload, r.start) == Some((r.contentType, r.size - HEADER_SIZE))
    requires r.start + r.size <= |payload| && loop == Loop(key, payload, config, at, r.start)
    ensures loop == if RefusesFirst(at.state, [r]) then LoopRefused(at)
                    else Loop(key, payload, config, AcceptOne(key, payload, config, at, r), r.start + r.size)
  {
  }

  /** The loop computes what the flat parse says: which headers it accepts, the state they leave, and where the
      last application-data record is to be cut. */
  lemma {:induction false} LoopIsScan(key: DirectionKey, payload: bytes, config: TlsOptions, at: LoopState, offset: nat,
                                      loop: LoopEnd, scan: Scan)
    requires at.state == at.state.Idle()
    requires loop == Loop(key, payload, config, at, offset) && scan == ScanRecords(payload, offset)
    ensures loop == if offset < |payload| && RefusesFirst(at.state, scan.records) then LoopRefused(at)
                    else ScanEnd(key, payload, config, at, scan)
    decreases |payload| - offset
  {
    if offset < |payload| && ReadHeader(payload, offset).Some? {
      var (contentType, length) := ReadHeader(payload, offset).value;
      var r := Record(offset, contentType, HEADER_SIZE + length);
      if offset + r.size <= |payload| {
        var next, rest := AcceptOne(key, payload, config, at, r), ScanRecords(payload, offset + r.size);
        ScanCons(payload, r, scan);
        LoopCons(key, payload, config, at, r, loop);
        var end := Loop(key, payload, config, next, offset + r.size);
        LoopIsScan(key, payload, config, next, offset + r.size, end, rest);
        CutScanHasRecord(payload, offset + r.size);
        ScanEndOfCons(key, payload, config, at, r, rest);
      } else {
        ScanEndOfOne(key, payload, config, at, r, InRecord(offset + r.size - |payload|));
      }
    }
  }

  lemma AdvanceKeepsValid(s: DirectionState, scan: Scan, after: u32)
    requires s.Valid() && s == s.Idle() && !RefusesFirst(s, scan.records)
    requires scan.records != [] ==> IsContentType(scan.records[|scan.records| - 1].contentType)
    requires scan.ending.InRecord? ==> 0 < scan.ending.missing < 0x1_0000
    ensures Carry(Advance(s, scan.records), scan).(expectedSeq := after).Valid()
  {
  }

  /** Every reachable table is valid: the tracker keeps the per-direction invariant. */
  lemma TrackKeepsValid(t: Table, seg: Segment)
    requires ValidTable(t)
    ensures ValidTable(Track(t, seg).table)
  {
    var flushed := Flush(t, seg);
    var s := Resync(StateAt(flushed, seg.key), seg.tcpSeq);
    if seg.payload != [] && !(s.active && (s.remaining >= |seg.payload| || s.constrictible)) {
      RecordsKeepValid(flushed, seg, s.Idle(), s.remaining);
    }
  }

  lemma RecordsKeepValid(t: Table, seg: Segment, s: DirectionState, offset: nat)
    requires ValidTable(t) && s.Valid() && s == s.Idle() && offset < |seg.payload|
    ensures ValidTable(TrackRecords(t, seg, s, ScanRecords(seg.payload, offset)).table)
  {
    var scan := ScanRecords(seg.payload, offset);
    ScanShape(seg.payload, offset);
    if !RefusesFirst(s, scan.records) {
      if scan.records != [] {
        TiledRecord(seg.payload, offset, scan.records, scan.records[|scan.records| - 1]);
      }
      ScannedKeepsValid(t, seg, s, scan);
    }
  }

  lemma ScannedKeepsValid(t: Table, seg: Segment, s: DirectionState, scan: Scan)
    requires ValidTable(t) && s.Valid() && s == s.Idle() && !RefusesFirst(s, scan.records)
    requires scan.records != [] ==> IsContentType(scan.records[|scan.records| - 1].contentType)
    requires scan.ending.InRecord? ==> 0 < scan.ending.missing < 0x1_0000
    ensures ValidTable(TrackRecords(t, seg, s, scan).table)
  {
    AdvanceKeepsValid(s, scan, U32(seg.tcpSeq + |seg.payload|));
  }

  lemma EvaluationKeepsValid(t: Table, packet: bytes, decoded: Decoded, config: TlsOptions)
    requires ValidTable(t)
    ensures ValidTable(Evaluation(t, packet, decoded, config).0)
  {
    var d := decoded.transport;
    if d.payloadLength == 0 || HasBytes(packet, d.payloadOffset, d.payloadLength) {
      TrackKeepsValid(t, SegmentOf(packet, decoded));
    }
  }

  /** The tracker. The source's reference into its hash map is here a copy of the entry, written back or erased
      before every return. */
  class TlsConstrictor {
    var directions: Table

    ghost predicate Valid()
      reads this
    {
      ValidTable(directions)
    }

    constructor ()
      ensures Valid() && directions == map[]
    {
      directions := map[];
    }

    /** Accepts a header in direction `key`, whose entry is `state`: a handshake confirms both directions. */
    method Accept(key: DirectionKey, contentType: byte, state: DirectionState) returns (after: DirectionState)
      modifies this
      ensures after == AdvanceOne(state, contentType)
      ensures directions == ConfirmReverse(old(directions), key, contentType == HANDSHAKE)
    {
      after := state.(synchronized := true);
      if contentType == HANDSHAKE {
        after := after.(confirmed := true);
        directions := directions[key.Reverse() := StateAt(directions, key.Reverse()).(confirmed := true)];
      }
      if contentType == APPLICATION_DATA {
        after := after.(seenApplicationData := true);
      }
    }

    /** The record loop: reads headers from `start` on, accepting each in turn, until the payload is used up,
        a record reaches past it, or no header follows. */
    method TakeRecords(key: DirectionKey, payload: bytes, start: nat, s: DirectionState, config: TlsOptions)
      returns (refused: bool, uncertain: bool, candidate: Option<nat>, state: DirectionState)
      requires s == s.Idle() && start < |payload|
      modifies this
      ensures Loop(key, payload, config, LoopState(old(directions), s, None), start) ==
              if refused then LoopRefused(LoopState(directions, state, candidate))
              else LoopDone(uncertain, LoopState(directions, state, candidate))
    {
      var offset := start;
      refused, uncertain, candidate, state := false, false, None, s;
      while !uncertain && offset < |payload|
        invariant offset <= |payload| && !uncertain
        invariant state.synchronized || state == s
        invariant Loop(key, payload, config, LoopState(directions, state, candidate), offset)
               == Loop(key, payload, config, LoopState(old(directions), s, None), start)
        decreases |payload| - offset
      {
        var header := ReadHeader(payload, offset);
        if header.None? {
          if !state.synchronized {
            refused := true;
            return;
          }
          uncertain := true;
          break;
        }
        var (contentType, length) := header.value;
        if !state.synchronized && contentType != HANDSHAKE && !s.confirmed {
          refused := true;
          return;
        }
        state := Accept(key, contentType, state);
        var size: nat := HEADER_SIZE + length;
        var remainingPayload := |payload| - offset;
        var isAppData := contentType == APPLICATION_DATA;
        if size > remainingPayload {
          if isAppData {
            candidate := Some(offset + Min(config.keepRecordBytes, remainingPayload));
          }
          state := state.(active := true);
          state := state.(activeType := contentType);
          state := state.(remaining := size - remainingPayload);
          state := state.(constrictible := isAppData);
          offset := |payload|;
          break;
        }
        if isAppData {
          candidate := Some(offset + Min(config.keepRecordBytes, size));
        }
        offset := offset + size;
      }
    }

    /** Judges one segment: the table moves as `Track` says, and the result is the verdict on the segment's shape. */
    method Evaluate(packet: bytes, decoded: Decoded, config: TlsOptions) returns (result: TlsResult)
      requires Valid()
      modifies this
      ensures Valid()
      ensures (directions, result) == Evaluation(old(directions), packet, decoded, config)
    {
      hide TrackPayload, Resync;
      EvaluationKeepsValid(directions, packet, decoded, config);
      result := TlsResult(NoRecord, U32(|packet|));
      if decoded.transport.protocol != Tcp {
        result := result.(disposition := Malformed);
        return;
      }
      var key := KeyOf(decoded);
      if SynOrRst(decoded.transport.tcpFlags) {
        directions := directions - {key};
        directions := directions - {key.Reverse()};
      }
      assert directions == Flush(old(directions), Segment(key, 0, decoded.transport.tcpFlags, []));
      if decoded.transport.payloadLength == 0 {
        result := result.(disposition := NoApplicationData);
        return;
      }
      if !HasBytes(packet, decoded.transport.payloadOffset, decoded.transport.payloadLength) {
        result := result.(disposition := Malformed);
        return;
      }
      ghost var seg := SegmentOf(packet, decoded);
      var start := decoded.transport.payloadOffset;
      var payload := packet[start..start + decoded.transport.payloadLength];
      var disposition, kept := EvaluatePayload(key, decoded.transport.tcpSeq, payload, config, seg);
      result := TlsResult(disposition,
                          U32(if disposition == AppDataPrefix then decoded.transport.payloadOffset + kept
                              else |packet|));
    }

    /** Accounts for the part of the payload that belongs to the carried record, if there is one. */
    method ResumeRecord(s: DirectionState, payload: bytes, config: TlsOptions)
      returns (state: DirectionState, offset: nat, candidate: Option<nat>, resetDirection: bool, keptMiddle: bool)
      requires s.Valid()
      ensures offset == Min(s.remaining, |payload|)
      ensures state == if s.remaining > |payload| then s.(remaining := s.remaining - |payload|) else s.Idle()
      ensures candidate == if s.constrictible && s.remaining == |payload| then Some(Min(config.keepContinuationBytes,
              |payload|)) else None
      ensures resetDirection == (s.constrictible && s.remaining < |payload|)
      ensures keptMiddle == (s.constrictible && s.remaining > |payload|)
    {
      state, offset, candidate, resetDirection, keptMiddle := s, 0, None, false, false;
      if state.active {
        if state.remaining > |payload| {
          keptMiddle := state.constrictible;
          state := state.(remaining := state.remaining - |payload|);
          offset := |payload|;
        } else if state.remaining == |payload| {
          if state.constrictible {
            candidate := Some(Min(config.keepContinuationBytes, |payload|));
          }
          offset := |payload|;
          state := state.Idle();
        } else {
          offset := state.remaining;
          resetDirection := state.constrictible;
          state := state.Idle();
        }
      }
    }

    /** The same for a segment whose flags have been dealt with and whose payload is not empty. */
    method EvaluatePayload(key: DirectionKey, tcpSeq: u32, payload: bytes, config: TlsOptions,
                           ghost seg: Segment)
      returns (disposition: Disposition, kept: nat)
      requires Valid() && payload != []
      requires seg.key == key && seg.tcpSeq == tcpSeq && seg.payload == payload
      modifies this
      ensures var step := TrackPayload(old(directions), seg, Resync(StateAt(old(directions), key), tcpSeq));
              directions == step.table && (disposition, kept) == Verdict(step.shape, |payload|, config)
    {
      kept := |payload|;
      var state := StateAt(directions, key);
      if state.synchronized && tcpSeq != state.expectedSeq {
        state := state.Idle();
        state := state.(synchronized := false);
        state := state.(expectedSeq := 0);
      }
      var offset, candidate, resetDirection, keptMiddle;
      state, offset, candidate, resetDirection, keptMiddle := ResumeRecord(state, payload, config);
      if !resetDirection && offset < |payload| {
        disposition, kept := EvaluateRecords(key, tcpSeq, payload, offset, state, config, seg);
        return;
      }
      state := state.(expectedSeq := U32(tcpSeq + |payload|));
      if resetDirection {
        directions := directions - {key};
        if state.confirmed {
          directions := directions[key := FRESH.(confirmed := true)];
          directions := directions[key := directions[key].(seenApplicationData := state.seenApplicationData)];
        }
        disposition := NoApplicationData;
        return;
      }
      directions := directions[key := state];
      disposition, kept := Judge(state.synchronized, false, keptMiddle, candidate, |payload|);
    }

    /** The part of a payload, from `offset` on, where records start; nothing is carried into it. */
    method EvaluateRecords(key: DirectionKey, tcpSeq: u32, payload: bytes, offset: nat, s: DirectionState,
                           config: TlsOptions, ghost seg: Segment)
      returns (disposition: Disposition, kept: nat)
      requires s == s.Idle() && offset < |payload|
      requires seg.key == key && seg.tcpSeq == tcpSeq && seg.payload == payload
      modifies this
      ensures var step := TrackRecords(old(directions), seg, s, ScanRecords(payload, offset));
              directions == step.table && (disposition, kept) == Verdict(step.shape, |payload|, config)
    {
      ghost var at := LoopState(directions, s, None);
      ghost var end := Loop(key, payload, config, at, offset);
      LoopIsScan(key, payload, config, at, offset, end, ScanRecords(payload, offset));
      var refused, uncertain, candidate, state := TakeRecords(key, payload, offset, s, config);
      if refused {
        directions := if state.confirmed then directions[key := state] else directions - {key};
        disposition, kept := NoRecord, |payload|;
        return;
      }
      state := state.(expectedSeq := U32(tcpSeq + |payload|));
      directions := directions[key := state];
      disposition, kept := Judge(state.synchronized, uncertain, false, candidate, |payload|);
    }

    /** The last branches: only a candidate shorter than the payload, found without doubt, shortens it. */
    method Judge(synchronized: bool, uncertain: bool, keptMiddle: bool, candidate: Option<nat>, size: nat)
      returns (disposition: Disposition, kept: nat)
      ensures disposition == AppDataPrefix <==>
                synchronized && !uncertain && !keptMiddle && candidate.Some? && candidate.value < size
      ensures disposition == Malformed <==> uncertain
      ensures disposition == NoRecord <==> !synchronized && !uncertain && !keptMiddle
      ensures kept == if disposition == AppDataPrefix then candidate.value else size
    {
      kept := size;
      if uncertain {
        disposition := Malformed;
        return;
      }
      if keptMiddle {
        disposition := NoApplicationData;
        return;
      }
      if !synchronized || candidate == None || candidate.value >= size {
        disposition := if synchronized then NoApplicationData else NoRecord;
        return;
      }
      disposition, kept := AppDataPrefix, candidate.value;
    }
  }
}
