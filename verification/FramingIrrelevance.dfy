/** How a datagram is framed does not matter: the decisions on a run of datagrams are the same under any link
    headers. */
module FramingIrrelevance {
  import opened Bytes
  import opened PacketDecode
  import opened DecodeExtent
  import opened FrameBuilder
  import opened PolicyConfig
  import opened LiveCapturePolicy
  import opened PolicyRuns
  import CanonicalFlows
  import QuicPackets
  import Tls = TlsConstrictor
  import Quic = QuicConstrictor

  /** An IP datagram, possibly followed by padding. */
  datatype Arrival = Arrival(version: IpVersion, datagram: bytes)
  {
    /** The datagram decodes. */
    predicate Decodes() {
      && version != NoIp && ReadIp(version, datagram, 0).Read?
      && ReadTransport(datagram, ReadIp(version, datagram, 0).value).Read?
    }

    /** What the layers above the link are, counted from the start of the datagram. */
    function Layers(): Decoded
      requires Decodes()
    {
      var ip := ReadIp(version, datagram, 0).value;
      Decoded(true, NoFailure, NO_LINK, ip.fields, ReadTransport(datagram, ip).value)
    }
  }

  /** The packet is the datagram under the given framing, fully captured, and no length limit bites. */
  predicate Wraps(config: CaptureOptions, packet: CapturedPacket, framing: Framing, arrival: Arrival) {
    && arrival.Decodes() && framing.Valid(arrival.version)
    && packet.data == Frame(framing, arrival.version, arrival.datagram) && packet.link == framing.Link()
    && packet.capturedLen == |packet.data| <= packet.originalLen
    && |packet.data| <= config.defaultSnaplen && |packet.data| <= config.maxCaptureLen
  }

  /** `d` with its layers above the link `m` bytes further on, under another link header. */
  predicate Shifted(d: Decoded, e: Decoded, m: nat) {
    && e.failure == NoFailure == d.failure && e.success && d.success
    && e.network == d.network.(headerOffset := e.network.headerOffset)
    && e.transport == MoveTransport(d.transport, m)
  }

  lemma WrappedIsShifted(config: CaptureOptions, packet: CapturedPacket, framing: Framing, arrival: Arrival)
    requires Wraps(config, packet, framing, arrival)
    ensures packet.View() == packet.data && !packet.Malformed() && Baseline(config, packet) == |packet.data|
    ensures Shifted(arrival.Layers(), Decode(packet.View(), packet.link), framing.HeaderLength())
  {
    hide Decode, ReadIp, ReadTransport, Frame, IpEnd;
    assert packet.View() == packet.data;
    FrameDecodes(framing, arrival.version, arrival.datagram);
  }

  // ------------------------------------------ one packet ------------------------------------------

  lemma ShiftedPayload(packet: bytes, head: bytes, datagram: bytes, offset: nat, count: nat)
    requires packet == head + datagram && HasBytes(datagram, offset, count)
    ensures HasBytes(packet, |head| + offset, count)
    ensures packet[|head| + offset..|head| + offset + count] == datagram[offset..offset + count]
  {
  }

  lemma SameSegment(datagram: bytes, d: Decoded, packet: bytes, e: Decoded, head: bytes)
    requires packet == head + datagram && Shifted(d, e, |head|) && d.transport.protocol != NoTransport
    requires HasBytes(datagram, d.transport.payloadOffset, d.transport.payloadLength)
    ensures HasBytes(packet, e.transport.payloadOffset, e.transport.payloadLength)
    ensures Tls.SegmentOf(packet, e) == Tls.SegmentOf(datagram, d)
    ensures packet[e.transport.payloadOffset..e.transport.payloadOffset + e.transport.payloadLength]
         == datagram[d.transport.payloadOffset..d.transport.payloadOffset + d.transport.payloadLength]
  {
    ShiftedPayload(packet, head, datagram, d.transport.payloadOffset, d.transport.payloadLength);
  }

  lemma TlsVerdictShifts(shape: Tls.Shape, start: nat, size: nat, whole: nat, m: nat, config: Config)
    requires shape != Tls.Keep(Tls.AppDataPrefix) && start + size <= whole && m + whole < TWO_32
    ensures var a := TlsDecision(config, whole, Tls.ResultOf(shape, start, size, whole, config.tls));
            var b := TlsDecision(config, m + whole, Tls.ResultOf(shape, m + start, size, m + whole, config.tls));
            b == (m + a.0, a.1)
  {
    ResultInPayload(shape, start, size, whole, config.tls);
    ResultInPayload(shape, m + start, size, m + whole, config.tls);
  }

  lemma TlsShifts(config: Config, t: Tls.Table, datagram: bytes, d: Decoded, packet: bytes, e: Decoded, head: bytes)
    requires packet == head + datagram && |packet| < TWO_32 && Shifted(d, e, |head|) && d.transport.protocol == Tcp
    requires HasBytes(datagram, d.transport.payloadOffset, d.transport.payloadLength)
    ensures var (u, a) := Tls.Evaluation(t, datagram, d, config.tls);
            var (v, b) := Tls.Evaluation(t, packet, e, config.tls);
            && u == v
            && TlsDecision(config, |packet|, b) ==
               (|head| + TlsDecision(config, |datagram|, a).0, TlsDecision(config, |datagram|, a).1)
  {
    hide Tls.Track;
    SameSegment(datagram, d, packet, e, head);
    var seg := Tls.SegmentOf(datagram, d);
    Tls.KeepsAreNotCuts(t, seg);
    TlsVerdictShifts(Tls.Track(t, seg).shape, d.transport.payloadOffset, |seg.payload|, |datagram|, |head|, config);
  }

  lemma QuicVerdictShifts(shape: Quic.Shape, start: nat, size: nat, whole: nat, m: nat, config: Config)
    requires start + size <= whole && m + whole < TWO_32
    requires Quic.Kept(shape, size, config.quic) <= size && shape != Quic.KeepAll(Quic.ShortHeaderMatched)
    ensures var a := QuicDecision(config, whole, Quic.ResultOf(shape, start, size, config.quic));
            var b := QuicDecision(config, m + whole, Quic.ResultOf(shape, m + start, size, config.quic));
            b == (m + a.0, a.1)
  {
  }

  lemma KeptAtMost(peer: Option<bytes>, payload: bytes, parsed: QuicPackets.Coalesced, config: QuicOptions)
    requires parsed.end <= |payload|
    ensures var shape := Quic.ShapeAt(peer, payload, parsed, config);
            Quic.Kept(shape, |payload|, config) <= |payload| && shape != Quic.KeepAll(Quic.ShortHeaderMatched)
  {
  }

  lemma QuicShifts(config: Config, f: Quic.Flows, datagram: bytes, d: Decoded, packet: bytes, e: Decoded, head: bytes)
    requires packet == head + datagram && |packet| < TWO_32 && Shifted(d, e, |head|) && d.transport.protocol == Udp
    requires HasBytes(datagram, d.transport.payloadOffset, d.transport.payloadLength)
    requires Quic.PaddedAddresses(d) && Quic.PaddedAddresses(e)
    ensures var (u, a) := Quic.Evaluation(f, datagram, d, config.quic);
            var (v, b) := Quic.Evaluation(f, packet, e, config.quic);
            && u == v
            && QuicDecision(config, |packet|, b) ==
               (|head| + QuicDecision(config, |datagram|, a).0, QuicDecision(config, |datagram|, a).1)
  {
    hide QuicPackets.LongHeaders, Quic.LearnHeaders, Quic.ShapeAt;
    SameSegment(datagram, d, packet, e, head);
    if Quic.Applies(d, config.quic) {
      var g := Quic.DatagramOf(datagram, d);
      assert g == Quic.DatagramOf(packet, e);
      var parsed := QuicPackets.LongHeaders(g.payload, 0);
      var learned := Quic.LearnHeaders(f, g.key, g.direction, parsed.headers);
      var peer := Quic.PeerScid(Quic.FlowAt(learned, g.key), g.direction);
      KeptAtMost(peer, g.payload, parsed, config.quic);
      QuicVerdictShifts(Quic.ShapeAt(peer, g.payload, parsed, config.quic), d.transport.payloadOffset, |g.payload|,
                        |datagram|, |head|, config);
    }
  }

  lemma ShiftedIsPadded(d: Decoded, e: Decoded, m: nat)
    requires Shifted(d, e, m) && Quic.PaddedAddresses(e)
    ensures Quic.PaddedAddresses(d)
  {
  }

  lemma JudgementShifts(config: Config, s: State, datagram: bytes, d: Decoded, packet: bytes, e: Decoded, head: bytes)
    requires packet == head + datagram && |packet| < TWO_32 && Shifted(d, e, |head|)
    requires d.transport.protocol != NoTransport ==>
               HasBytes(datagram, d.transport.payloadOffset, d.transport.payloadLength)
    requires Quic.PaddedAddresses(d) && Quic.PaddedAddresses(e)
    ensures Classify(config, false, d) == Classify(config, false, e)
    ensures var reason := Classify(config, false, d);
            var (u, (a, why)) := Judge(config, s, datagram, d, reason, |datagram|);
            Judge(config, s, packet, e, reason, |packet|) == (u, (|head| + a, why))
  {
    hide Tls.Evaluation, Quic.Evaluation, TlsDecision, QuicDecision;
    var reason := Classify(config, false, d);
    if GoesToTls(reason, d) {
      TlsShifts(config, s.tls, datagram, d, packet, e, head);
    } else if GoesToQuic(reason, d) {
      QuicShifts(config, s.quic, datagram, d, packet, e, head);
    }
  }

  /** What a policy decides about a datagram by itself: the new memory, the bytes kept, and the reason. */
  function Bare(config: Config, s: State, arrival: Arrival): (State, (u32, Reason))
    requires arrival.Decodes() && |arrival.datagram| < TWO_32 && Quic.PaddedAddresses(arrival.Layers())
  {
    Judge(config, s, arrival.datagram, arrival.Layers(), Classify(config, false, arrival.Layers()), |arrival.datagram|)
  }

  lemma PayloadInDatagram(arrival: Arrival)
    requires arrival.Decodes() && arrival.Layers().transport.protocol != NoTransport
    ensures var t := arrival.Layers().transport;
            HasBytes(arrival.datagram, t.payloadOffset, t.payloadLength)
  {
    IpShape(arrival.version, arrival.datagram, 0);
    TransportShape(arrival.datagram, ReadIp(arrival.version, arrival.datagram, 0).value);
  }

  /** A framed datagram is judged as the datagram by itself, its link header kept on top. */
  lemma FramedIsBare(config: Config, s: State, packet: CapturedPacket, framing: Framing, arrival: Arrival)
    requires Wraps(config.capture, packet, framing, arrival)
    ensures |arrival.datagram| < TWO_32 && Quic.PaddedAddresses(arrival.Layers())
    ensures var (after, (kept, reason)) := Bare(config, s, arrival);
            var (next, decision) := Decide(config, s, packet);
            next == after && decision.reason == reason && decision.outputLen == framing.HeaderLength() + kept
  {
    hide Decode, Judge, Quic.PaddedAddresses, ReadIp, ReadTransport, TagBytes;
    WrappedIsShifted(config.capture, packet, framing, arrival);
    var d, e := arrival.Layers(), Decode(packet.View(), packet.link);
    CanonicalFlows.DecodedIsPadded(packet.View(), packet.link);
    ShiftedIsPadded(d, e, framing.HeaderLength());
    if d.transport.protocol != NoTransport {
      PayloadInDatagram(arrival);
    }
    JudgementShifts(config, s, arrival.datagram, d, packet.data, e, LinkBytes(framing, arrival.version));
  }

  // ------------------------------------------ whole runs ------------------------------------------

  /** The packets are the datagrams, in order, each under its own framing. */
  predicate Framed(config: CaptureOptions, packets: seq<CapturedPacket>, framings: seq<Framing>,
                   arrivals: seq<Arrival>) {
    |packets| == |framings| == |arrivals| &&
    forall i | 0 <= i < |packets| :: Wraps(config, packets[i], framings[i], arrivals[i])
  }

  lemma StepsAgree(config: Config, s: State, p: CapturedPacket, pf: Framing, q: CapturedPacket, qf: Framing,
                   arrival: Arrival)
    requires Wraps(config.capture, p, pf, arrival) && Wraps(config.capture, q, qf, arrival)
    ensures var (u, a) := Decide(config, s, p);
            var (v, b) := Decide(config, s, q);
            u == v && a.reason == b.reason && a.outputLen - pf.HeaderLength() == b.outputLen - qf.HeaderLength()
  {
    hide Decide, Bare, Wraps;
    FramedIsBare(config, s, p, pf, arrival);
    FramedIsBare(config, s, q, qf, arrival);
  }

  /** Two runs over the same datagrams, each datagram framed either way in either run, remember the same, give the
      same reasons, and keep the same number of bytes behind the link headers. */
  lemma {:induction false} FramingIrrelevant(config: Config, s: State, arrivals: seq<Arrival>,
                                             ps: seq<CapturedPacket>, pf: seq<Framing>, qs: seq<CapturedPacket>,
                                                 qf: seq<Framing>)
    requires Framed(config.capture, ps, pf, arrivals) && Framed(config.capture, qs, qf, arrivals)
    ensures After(config, s, ps) == After(config, s, qs)
    ensures |Decisions(config, s, ps)| == |Decisions(config, s, qs)| == |arrivals|
    ensures forall i | 0 <= i < |arrivals| ::
              var a, b := Decisions(config, s, ps)[i], Decisions(config, s, qs)[i];
              a.reason == b.reason && a.outputLen - pf[i].HeaderLength() == b.outputLen - qf[i].HeaderLength()
    decreases |arrivals|
  {
    hide Decide, Wraps;
    if arrivals != [] {
      StepsAgree(config, s, ps[0], pf[0], qs[0], qf[0], arrivals[0]);
      FramingIrrelevant(config, Decide(config, s, ps[0]).0, arrivals[1..], ps[1..], pf[1..], qs[1..], qf[1..]);
    }
  }
}
