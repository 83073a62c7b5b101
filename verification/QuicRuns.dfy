/** What the QUIC constrictor has learned after any run of datagrams, and when it then matches a short header. */
module QuicRuns {
  import opened Bytes
  import opened PacketDecode
  import opened PolicyConfig
  import opened QuicPackets
  import opened QuicConstrictor
  import opened CanonicalFlows

  /** The table after a run of datagrams. */
  function Run(flows: Flows, run: seq<Datagram>): Flows {
    if run == [] then flows else Learn(Run(flows, run[..|run| - 1]), run[|run| - 1])
  }

  /** The source connection IDs a list of headers announces, the empty ones left out. */
  function Announced(headers: seq<LongHeader>): seq<bytes> {
    if headers == [] then []
    else (if headers[0].scid == [] then [] else [headers[0].scid]) + Announced(headers[1..])
  }

  /** Everything one side of a flow has announced in a run, in order. */
  function History(run: seq<Datagram>, key: FlowKey, direction: FlowDirection): seq<bytes> {
    if run == [] then []
    else
      var last := run[|run| - 1];
      History(run[..|run| - 1], key, direction) +
      if last.key == key && last.direction == direction then Announced(LongHeaders(last.payload, 0).headers) else []
  }

  function Last(ids: seq<bytes>): Option<bytes> {
    if ids == [] then None else Some(ids[|ids| - 1])
  }

  lemma {:induction false} LearnAllIsLast(s: FlowState, direction: FlowDirection, headers: seq<LongHeader>)
    ensures ScidOf(LearnAll(s, direction, headers), direction)
         == if Announced(headers) == [] then ScidOf(s, direction) else Last(Announced(headers))
    ensures PeerScid(LearnAll(s, direction, headers), direction) == PeerScid(s, direction)
    decreases |headers|
  {
    if headers != [] {
      LearnAllIsLast(LearnOne(s, direction, headers[0].scid), direction, headers[1..]);
    }
  }

  /** A datagram teaches its own side of its own flow the last ID it announces, and nothing else. */
  lemma LearnStep(flows: Flows, d: Datagram, headers: seq<LongHeader>, learned: Flows, key: FlowKey,
                  direction: FlowDirection)
    requires learned == LearnHeaders(flows, d.key, d.direction, headers)
    ensures ScidOf(FlowAt(learned, key), direction) ==
            if d.key == key && d.direction == direction && Announced(headers) != [] then Last(Announced(headers))
            else ScidOf(FlowAt(flows, key), direction)
  {
    LearnAllIsLast(FlowAt(flows, d.key), d.direction, headers);
  }

  /** What a side of a flow is known by is exactly the last non-empty connection ID it has announced. */
  lemma {:induction false} LearnedIsHistory(run: seq<Datagram>, key: FlowKey, direction: FlowDirection)
    ensures ScidOf(FlowAt(Run(map[], run), key), direction) == Last(History(run, key, direction))
  {
    hide LongHeaders, LearnHeaders, Announced;
    if run != [] {
      var init, last := run[..|run| - 1], run[|run| - 1];
      LearnedIsHistory(init, key, direction);
      LearnStep(Run(map[], init), last, LongHeaders(last.payload, 0).headers, Run(map[], run), key, direction);
    }
  }

  /** The bytes after the long headers are a packet with a short header that may be cut: it carries, after its first
      byte, the ID its destination has announced; or none was announced, and the settings let that pass. */
  predicate MayCut(payload: bytes, parsed: Coalesced, id: Option<bytes>, config: QuicOptions)
    requires parsed.end <= |payload|
  {
    && !parsed.malformed && parsed.end < |payload| && payload[parsed.end] / 0x40 == 1
    && match id
       case Some(expected) => Holds(payload, parsed.end + 1, expected)
       case None => !config.requireDcidMatch && config.allowUnknownDcid
  }

  /** The bytes a cut must keep: the long headers, the first byte of the short one, and the ID. */
  function MustKeep(parsed: Coalesced, id: Option<bytes>): nat {
    parsed.end + 1 + if id.Some? then |id.value| else 0
  }

  /** The bytes a cut keeps: the configured part of the short packet, but no less than it must and no more than there
      is. */
  function Keeps(parsed: Coalesced, id: Option<bytes>, size: nat, config: QuicOptions): nat {
    var idLength := if id.Some? then |id.value| else 0;
    Min(size, parsed.end + Max(config.keepShortHeaderBytes, 1 + idLength))
  }

  /** After any run, a short header is matched exactly when it follows well-formed long headers and carries the ID its
      destination announced last, or none was announced and the settings let that pass; the output then covers the long
      packets, the first byte and the whole ID. */
  lemma ShortHeaderMatch(run: seq<Datagram>, packet: bytes, decoded: Decoded, config: QuicOptions)
    requires PaddedAddresses(decoded) && Applies(decoded, config) && |packet| < TWO_32
    requires HasBytes(packet, decoded.transport.payloadOffset, decoded.transport.payloadLength)
    ensures var d := DatagramOf(packet, decoded);
            var parsed := LongHeaders(d.payload, 0);
            var id := Last(History(run, d.key, Opposite(d.direction)));
            var start := decoded.transport.payloadOffset;
            var result := Evaluation(Run(map[], run), packet, decoded, config).1;
            && (result.disposition == ShortHeaderMatched <==> MayCut(d.payload, parsed, id, config))
            && (result.disposition == ShortHeaderMatched ==>
                  && result.outputLen == start + Keeps(parsed, id, |d.payload|, config)
                  && start + MustKeep(parsed, id) <= result.outputLen <= start + |d.payload|)
  {
    hide LongHeaders, History, MayCut, Keeps, ShapeAt, LearnHeaders, CanonicalFlow;
    var d := DatagramOf(packet, decoded);
    var parsed := LongHeaders(d.payload, 0);
    var flows := Run(map[], run);
    LearnedIsHistory(run, d.key, Opposite(d.direction));
    var learned := LearnHeaders(flows, d.key, d.direction, parsed.headers);
    LearnStep(flows, d, parsed.headers, learned, d.key, Opposite(d.direction));
    var peer := PeerScid(FlowAt(learned, d.key), d.direction);
    assert peer == Last(History(run, d.key, Opposite(d.direction)));
    MatchAt(peer, d.payload, parsed, decoded.transport.payloadOffset, |packet|, config);
  }

  lemma MatchAt(peer: Option<bytes>, payload: bytes, parsed: Coalesced, start: nat, size: nat, config: QuicOptions)
    requires parsed.end <= |payload| && start + |payload| <= size < TWO_32
    ensures var result := ResultOf(ShapeAt(peer, payload, parsed, config), start, |payload|, config);
            && (result.disposition == ShortHeaderMatched <==> MayCut(payload, parsed, peer, config))
            && (result.disposition == ShortHeaderMatched ==>
                  && result.outputLen == start + Keeps(parsed, peer, |payload|, config)
                  && start + MustKeep(parsed, peer) <= result.outputLen <= start + |payload|)
  {
    if peer.Some? && HasBytes(payload, parsed.end, 1 + |peer.value|) {
      var part := payload[parsed.end + 1..parsed.end + 1 + |peer.value|];
      if Holds(payload, parsed.end + 1, peer.value) {
        assert part == peer.value;
      }
      forall i | 0 <= i < |part| ensures part[i] == payload[parsed.end + 1 + i] {}
    }
  }

  // ------------------------------------------ locality ------------------------------------------

  /** A datagram of one flow is judged by that flow's entry alone, and changes no other. */
  lemma JudgedLocally(f: Flows, g: Flows, d: Datagram, parsed: Coalesced, start: nat, config: QuicOptions, key: FlowKey)
    requires parsed.end <= |d.payload| && FlowAt(f, key) == FlowAt(g, key)
    ensures d.key == key ==> Judged(f, d, parsed, start, config).1 == Judged(g, d, parsed, start, config).1
    ensures d.key == key ==>
              FlowAt(Judged(f, d, parsed, start, config).0, key) == FlowAt(Judged(g, d, parsed, start, config).0, key)
    ensures d.key != key ==> FlowAt(Judged(f, d, parsed, start, config).0, key) == FlowAt(f, key)
  {
  }
}
