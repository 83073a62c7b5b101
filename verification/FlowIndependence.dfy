/** The decisions on one connection or flow do not depend on the traffic around it. */
module FlowIndependence {
  import opened Bytes
  import opened PacketDecode
  import opened DecodeExtent
  import opened PolicyConfig
  import opened LiveCapturePolicy
  import opened PolicyRuns
  import opened CanonicalFlows
  import QuicPackets
  import QuicRuns
  import TlsRuns
  import TlsStreams
  import opened TlsRecords
  import Tls = TlsConstrictor
  import Quic = QuicConstrictor

  /** The packet, not refused, is of the TCP connection or UDP flow of `flow`: of the same protocol and between the same
      two endpoints, addresses and ports; and for UDP under the same IP version. */
  predicate Belongs(d: Decoded, flow: Decoded) {
    && d.failure == NoFailure && SameEndpoints(d, flow)
    && match flow.transport.protocol
       case Tcp => d.transport.protocol == Tcp
       case Udp => d.transport.protocol == Udp && d.network.version == flow.network.version
       case NoTransport => false
  }

  /** The packet has sane lengths, decodes, and is a packet of the flow. */
  predicate InFlow(packet: CapturedPacket, flow: Decoded) {
    Sound(packet) && Belongs(Decode(packet.View(), packet.link), flow)
  }

  /** The packets of a run that belong to the flow. */
  function Only(flow: Decoded, packets: seq<CapturedPacket>): seq<CapturedPacket>
    decreases |packets|
  {
    if packets == [] then []
    else if InFlow(packets[0], flow) then [packets[0]] + Only(flow, packets[1..])
    else Only(flow, packets[1..])
  }

  /** The decisions a run takes on the packets of the flow. */
  function DecisionsOn(flow: Decoded, config: Config, s: State, packets: seq<CapturedPacket>): seq<Decision>
    decreases |packets|
  {
    if packets == [] then []
    else
      var (next, decision) := Decide(config, s, packets[0]);
      var rest := DecisionsOn(flow, config, next, packets[1..]);
      if InFlow(packets[0], flow) then [decision] + rest else rest
  }

  /** The two memories agree on everything about the flow. */
  predicate SameMemory(s: State, r: State, flow: Decoded)
    requires Quic.PaddedAddresses(flow)
  {
    if flow.transport.protocol == Tcp then SameDirections(s.tls, r.tls, Tls.KeyOf(flow))
    else Quic.FlowAt(s.quic, Quic.CanonicalFlow(flow).0) == Quic.FlowAt(r.quic, Quic.CanonicalFlow(flow).0)
  }

  predicate SameDirections(t: Tls.Table, u: Tls.Table, k: Tls.DirectionKey) {
    Tls.StateAt(t, k) == Tls.StateAt(u, k) && Tls.StateAt(t, k.Reverse()) == Tls.StateAt(u, k.Reverse())
  }

  // ------------------------------------------ one TLS step ------------------------------------------

  /** A segment is tracked by the states of its own two directions alone. */
  lemma TrackedLocally(t: Tls.Table, u: Tls.Table, seg: Tls.Segment, k: Tls.DirectionKey)
    requires TlsRuns.SamePair(seg.key, k) && SameDirections(t, u, k)
    ensures Tls.Track(t, seg).shape == Tls.Track(u, seg).shape
    ensures SameDirections(Tls.Track(t, seg).table, Tls.Track(u, seg).table, k)
  {
    var a, b := Tls.Flush(t, seg), Tls.Flush(u, seg);
    assert SameDirections(a, b, k);
    if seg.payload != [] {
      PayloadTrackedLocally(a, b, seg, Tls.Resync(Tls.StateAt(a, seg.key), seg.tcpSeq), k);
    }
  }

  lemma PayloadTrackedLocally(t: Tls.Table, u: Tls.Table, seg: Tls.Segment, s: Tls.DirectionState, k: Tls.DirectionKey)
    requires TlsRuns.SamePair(seg.key, k) && SameDirections(t, u, k) && seg.payload != []
    ensures Tls.TrackPayload(t, seg, s).shape == Tls.TrackPayload(u, seg, s).shape
    ensures SameDirections(Tls.TrackPayload(t, seg, s).table, Tls.TrackPayload(u, seg, s).table, k)
  {
    hide ScanRecords, HasType, Tls.ShapeOf, Tls.Advance, Tls.Carry, Tls.RefusesFirst;
  }

  lemma TlsLocal(t: Tls.Table, u: Tls.Table, view: bytes, d: Decoded, options: TlsOptions, k: Tls.DirectionKey)
    requires HasBytes(view, d.transport.payloadOffset, d.transport.payloadLength) && d.transport.protocol == Tcp
    ensures TlsRuns.SamePair(Tls.KeyOf(d), k) && SameDirections(t, u, k) ==>
              && Tls.Evaluation(t, view, d, options).1 == Tls.Evaluation(u, view, d, options).1
              && SameDirections(Tls.Evaluation(t, view, d, options).0, Tls.Evaluation(u, view, d, options).0, k)
    ensures !TlsRuns.SamePair(Tls.KeyOf(d), k) ==> SameDirections(Tls.Evaluation(t, view, d, options).0, t, k)
  {
    hide Tls.Track;
    var seg := Tls.SegmentOf(view, d);
    if TlsRuns.SamePair(seg.key, k) {
      if SameDirections(t, u, k) {
        TrackedLocally(t, u, seg, k);
      }
    } else {
      TlsStreams.OthersLeaveAlone(t, seg, k);
      TlsStreams.OthersLeaveAlone(t, seg, k.Reverse());
    }
  }

  // ------------------------------------------ one QUIC step ------------------------------------------

  lemma QuicLocal(f: Quic.Flows, g: Quic.Flows, view: bytes, d: Decoded, options: QuicOptions, key: Quic.FlowKey)
    requires Quic.PaddedAddresses(d) && Quic.FlowAt(f, key) == Quic.FlowAt(g, key)
    ensures Quic.CanonicalFlow(d).0 == key ==>
              && Quic.Evaluation(f, view, d, options).1 == Quic.Evaluation(g, view, d, options).1
              && Quic.FlowAt(Quic.Evaluation(f, view, d, options).0, key) ==
                  Quic.FlowAt(Quic.Evaluation(g, view, d, options).0, key)
    ensures Quic.CanonicalFlow(d).0 != key ==>
              Quic.FlowAt(Quic.Evaluation(f, view, d, options).0, key) == Quic.FlowAt(f, key)
  {
    hide Quic.Judged, QuicPackets.LongHeaders;
    if Quic.Applies(d, options) && HasBytes(view, d.transport.payloadOffset, d.transport.payloadLength) {
      var datagram := Quic.DatagramOf(view, d);
      var parsed := QuicPackets.LongHeaders(datagram.payload, 0);
      QuicRuns.JudgedLocally(f, g, datagram, parsed, d.transport.payloadOffset, options, key);
    }
  }

  // ------------------------------------------ one packet ------------------------------------------

  /** The keys under which the constrictors file packets tell flows apart as their endpoints do. */
  lemma KeysTell(d: Decoded, flow: Decoded)
    requires Quic.PaddedAddresses(d) && Quic.PaddedAddresses(flow) && d.failure == NoFailure
    ensures d.transport.protocol == Tcp == flow.transport.protocol ==>
              (Belongs(d, flow) <==> TlsRuns.SamePair(Tls.KeyOf(d), Tls.KeyOf(flow)))
    ensures d.transport.protocol == Udp == flow.transport.protocol ==>
              (Belongs(d, flow) <==> Quic.CanonicalFlow(d).0 == Quic.CanonicalFlow(flow).0)
  {
    hide Quic.PaddedAddresses, Quic.CanonicalFlow, Tls.KeyOf;
    Tls.SameKeyIff(d, flow);
    Tls.ReverseKeyIff(flow, d);
    CanonicalFlows.SameFlowIffSamePair(flow, d);
  }

  lemma JudgeLocal(config: Config, s: State, r: State, view: bytes, d: Decoded, reason: Reason, baseline: u32,
                   flow: Decoded)
    requires Quic.PaddedAddresses(d) && reason == Classify(config, false, d) && d.failure == NoFailure
    requires Quic.PaddedAddresses(flow) && flow.transport.protocol != NoTransport
    requires HasBytes(view, d.transport.payloadOffset, d.transport.payloadLength)
    requires SameMemory(s, r, flow)
    ensures Belongs(d, flow) ==>
              && Judge(config, s, view, d, reason, baseline).1 == Judge(config, r, view, d, reason, baseline).1
              && SameMemory(Judge(config, s, view, d, reason, baseline).0,
                            Judge(config, r, view, d, reason, baseline).0, flow)
    ensures !Belongs(d, flow) ==> SameMemory(Judge(config, s, view, d, reason, baseline).0, s, flow)
  {
    hide Tls.Evaluation, Quic.Evaluation, Quic.CanonicalFlow, Tls.KeyOf, Quic.PaddedAddresses, SameDirections;
    hide SameEndpoints, TlsRuns.SamePair;
    KeysTell(d, flow);
    if flow.transport.protocol == Tcp {
      if GoesToTls(reason, d) {
        TlsLocal(s.tls, r.tls, view, d, config.tls, Tls.KeyOf(flow));
      } else {
        SameAsItself(s.tls, Tls.KeyOf(flow));
      }
    } else if GoesToQuic(reason, d) {
      QuicLocal(s.quic, r.quic, view, d, config.quic, Quic.CanonicalFlow(flow).0);
    }
  }

  lemma SameAsItself(t: Tls.Table, k: Tls.DirectionKey)
    ensures SameDirections(t, t, k)
  {
  }

  lemma StepLocal(config: Config, s: State, r: State, packet: CapturedPacket, flow: Decoded)
    requires Quic.PaddedAddresses(flow) && flow.transport.protocol != NoTransport && SameMemory(s, r, flow)
    ensures InFlow(packet, flow) ==>
              && Decide(config, s, packet).1 == Decide(config, r, packet).1
              && SameMemory(Decide(config, s, packet).0, Decide(config, r, packet).0, flow)
    ensures !InFlow(packet, flow) ==> SameMemory(Decide(config, s, packet).0, s, flow)
  {
    hide Decode, Belongs, SameMemory, Quic.PaddedAddresses;
    var view, d := packet.View(), Decode(packet.View(), packet.link);
    CanonicalFlows.DecodedIsPadded(view, packet.link);
    if packet.Malformed() || d.failure != NoFailure {
      SameMemoryAsItself(s, flow);
    } else {
      PayloadInView(view, packet.link);
      JudgeLocal(config, s, r, view, d, Classify(config, false, d), Baseline(config.capture, packet), flow);
    }
  }

  lemma SameMemoryAsItself(s: State, flow: Decoded)
    requires Quic.PaddedAddresses(flow)
    ensures SameMemory(s, s, flow)
  {
  }

  lemma PayloadInView(view: bytes, link: LinkType)
    requires Decode(view, link).failure == NoFailure
    ensures HasBytes(view, Decode(view, link).transport.payloadOffset, Decode(view, link).transport.payloadLength)
  {
    if Decode(view, link).transport.protocol != NoTransport {
      TransportMeansIp(view, link);
      Layout(view, link);
    }
  }

  // ------------------------------------------ whole runs ------------------------------------------

  lemma Transitive(a: State, b: State, c: State, flow: Decoded)
    requires Quic.PaddedAddresses(flow) && SameMemory(a, b, flow) && SameMemory(b, c, flow)
    ensures SameMemory(a, c, flow)
  {
  }

  /** From memories that agree on the flow, a run decides about the flow's packets as if they came alone. */
  lemma {:induction false} DecidedAlone(config: Config, s: State, r: State, packets: seq<CapturedPacket>, flow: Decoded)
    requires Quic.PaddedAddresses(flow) && flow.transport.protocol != NoTransport && SameMemory(s, r, flow)
    ensures DecisionsOn(flow, config, s, packets) == Decisions(config, r, Only(flow, packets))
    decreases |packets|
  {
    hide Decide, InFlow, SameMemory;
    if packets != [] {
      var first, rest := packets[0], packets[1..];
      StepLocal(config, s, r, first, flow);
      if InFlow(first, flow) {
        DecidedAlone(config, Decide(config, s, first).0, Decide(config, r, first).0, rest, flow);
        assert ([first] + Only(flow, rest))[1..] == Only(flow, rest);
      } else {
        Transitive(Decide(config, s, first).0, s, r, flow);
        DecidedAlone(config, Decide(config, s, first).0, r, rest, flow);
      }
    }
  }

  /** In any interleaving, the decisions on the packets of one TCP connection or UDP flow, given by any packet of it,
      are those a fresh policy takes when it is given only those packets. */
  lemma FlowIndependent(config: Config, packets: seq<CapturedPacket>, flow: Decoded)
    requires Quic.PaddedAddresses(flow) && flow.transport.protocol != NoTransport
    ensures DecisionsOn(flow, config, EMPTY, packets) == Decisions(config, EMPTY, Only(flow, packets))
  {
    hide Decide;
    SameMemoryAsItself(EMPTY, flow);
    DecidedAlone(config, EMPTY, EMPTY, packets, flow);
  }
}
