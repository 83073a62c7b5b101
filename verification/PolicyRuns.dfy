/** What the capture policy guarantees for every packet and over whole runs. */
module PolicyRuns {
  import opened Bytes
  import opened PacketDecode
  import opened DecodeExtent
  import opened PolicyConfig
  import opened LiveCapturePolicy
  import CanonicalFlows
  import QuicPackets
  import Tls = TlsConstrictor
  import Quic = QuicConstrictor

  // --------------------------------------- runs of packets ---------------------------------------

  function Decisions(config: Config, s: State, packets: seq<CapturedPacket>): seq<Decision>
    decreases |packets|
  {
    if packets == [] then []
    else
      var (next, decision) := Decide(config, s, packets[0]);
      [decision] + Decisions(config, next, packets[1..])
  }

  function After(config: Config, s: State, packets: seq<CapturedPacket>): State
    decreases |packets|
  {
    if packets == [] then s else After(config, Decide(config, s, packets[0]).0, packets[1..])
  }

  // --------------------------------------- which packets are judged ---------------------------------------

  /** One of the two ports is among those configured. */
  predicate OnPort(d: Decoded, ports: seq<u16>) {
    d.transport.srcPort in ports || d.transport.dstPort in ports
  }

  /** The lengths agree, and the packet decodes. */
  predicate Sound(packet: CapturedPacket) {
    && packet.capturedLen <= |packet.data| && packet.capturedLen <= packet.originalLen
    && Decode(packet.View(), packet.link).failure == NoFailure
  }

  predicate TlsPacket(config: Config, packet: CapturedPacket) {
    var d := Decode(packet.View(), packet.link);
    Sound(packet) && d.transport.protocol == Tcp && config.tls.enabled && OnPort(d, config.tls.ports)
  }

  predicate QuicPacket(config: Config, packet: CapturedPacket) {
    var d := Decode(packet.View(), packet.link);
    Sound(packet) && d.transport.protocol == Udp && config.quic.enabled && OnPort(d, config.quic.ports)
  }

  predicate TlsReason(reason: Reason) {
    reason in {TlsCandidate, TlsApplicationDataConstricted, TlsMalformedFallback, TlsNoRecordFallback}
  }

  predicate QuicReason(reason: Reason) {
    reason in {QuicCandidate, QuicLongHeader, QuicShortHeaderMatched, QuicShortHeaderConstricted,
               QuicShortHeaderUnknownCidFallback, QuicShortHeaderDcidMismatchFallback, QuicMalformedFallback}
  }

  lemma ReasonsFollow(config: Config, s: State, view: bytes, d: Decoded, reason: Reason, baseline: u32)
    requires Quic.PaddedAddresses(d)
    ensures var final := Judge(config, s, view, d, reason, baseline).1.1;
            if reason == TlsCandidate then TlsReason(final) else if reason == QuicCandidate then QuicReason(final)
            else final == reason
  {
    hide Tls.Evaluation, Quic.Evaluation;
  }

  /** The reason of every decision, whatever is remembered, tells what kind of packet it is about; and each kind has
      its own. */
  lemma ReasonTellsKind(config: Config, s: State, packet: CapturedPacket)
    ensures var d, reason := Decode(packet.View(), packet.link), Decide(config, s, packet).1.reason;
            && (reason == ParseError <==> !Sound(packet))
            && (reason == NonIp <==> Sound(packet) && d.network.version == NoIp)
            && (reason == Default <==>
                  Sound(packet) && d.network.version != NoIp && d.transport.protocol == NoTransport)
            && (reason == TcpOther <==> Sound(packet) && d.transport.protocol == Tcp && !TlsPacket(config, packet))
            && (reason == UdpOther <==> Sound(packet) && d.transport.protocol == Udp && !QuicPacket(config, packet))
            && (TlsReason(reason) <==> TlsPacket(config, packet))
            && (QuicReason(reason) <==> QuicPacket(config, packet))
  {
    hide Decode, Judge, Quic.PaddedAddresses;
    var view, d := packet.View(), Decode(packet.View(), packet.link);
    CanonicalFlows.DecodedIsPadded(view, packet.link);
    SuccessMeans(view, packet.link);
    ReasonsFollow(config, s, view, d, Classify(config, packet.Malformed(), d), Baseline(config.capture, packet));
  }

  // --------------------------------------- length guarantee ---------------------------------------

  /** A result that asks for a cut asks for one inside the payload, and keeps every byte before it. */
  lemma TlsCutInPayload(t: Tls.Table, view: bytes, d: Decoded, config: TlsOptions)
    requires HasBytes(view, d.transport.payloadOffset, d.transport.payloadLength) && |view| < TWO_32
    ensures var result := Tls.Evaluation(t, view, d, config).1;
            result.disposition == Tls.AppDataPrefix ==>
              d.transport.payloadOffset <= result.outputLen < d.transport.payloadOffset + d.transport.payloadLength
  {
    var seg := Tls.SegmentOf(view, d);
    Tls.KeepsAreNotCuts(t, seg);
    ResultInPayload(Tls.Track(t, seg).shape, d.transport.payloadOffset, |seg.payload|, |view|, config);
  }

  lemma ResultInPayload(shape: Tls.Shape, start: nat, size: nat, whole: nat, config: TlsOptions)
    requires shape != Tls.Keep(Tls.AppDataPrefix) && start + size <= whole < TWO_32
    ensures var result := Tls.ResultOf(shape, start, size, whole, config);
            result.disposition == Tls.AppDataPrefix ==> start <= result.outputLen < start + size
  {
  }

  lemma QuicCutInPayload(f: Quic.Flows, view: bytes, d: Decoded, config: QuicOptions)
    requires Quic.PaddedAddresses(d)
    requires HasBytes(view, d.transport.payloadOffset, d.transport.payloadLength) && |view| < TWO_32
    ensures var result := Quic.Evaluation(f, view, d, config).1;
            result.disposition == Quic.ShortHeaderMatched ==>
              d.transport.payloadOffset <= result.outputLen <= d.transport.payloadOffset + d.transport.payloadLength
  {
    if Quic.Applies(d, config) {
      var datagram := Quic.DatagramOf(view, d);
      var parsed := QuicPackets.LongHeaders(datagram.payload, 0);
      ShapeInPayload(f, datagram, parsed, d.transport.payloadOffset, config, |view|);
    }
  }

  lemma ShapeInPayload(f: Quic.Flows, g: Quic.Datagram, parsed: QuicPackets.Coalesced, start: nat,
      config: QuicOptions, size: nat)
    requires parsed.end <= |g.payload| && start + |g.payload| <= size < TWO_32
    ensures var result := Quic.Judged(f, g, parsed, start, config).1;
            result.disposition == Quic.ShortHeaderMatched ==> start <= result.outputLen <= start + |g.payload|
  {
  }

  predicate Constricted(reason: Reason) {
    reason == TlsApplicationDataConstricted || reason == QuicShortHeaderConstricted
  }

  /** For every packet and every state: the output is no longer than the captured, original, snaplen and maximum
      lengths; it is shorter than the least of them exactly when the reason says so; and then it saves at least the
      configured number of bytes and loses no byte of the link, network and transport headers. */
  lemma LengthGuarantee(config: Config, s: State, packet: CapturedPacket)
    ensures var decision := Decide(config, s, packet).1;
            var baseline := Baseline(config.capture, packet);
            && decision.outputLen <= packet.capturedLen && decision.outputLen <= |packet.data|
            && decision.outputLen <= packet.originalLen <= decision.originalLen
            && decision.outputLen <= config.capture.defaultSnaplen && decision.outputLen <= config.capture.maxCaptureLen
            && (decision.outputLen < baseline <==> Constricted(decision.reason))
            && (!Constricted(decision.reason) ==> decision.outputLen == baseline)
            && baseline in {packet.capturedLen, |packet.data|, packet.originalLen, config.capture.defaultSnaplen,
                            config.capture.maxCaptureLen}
            && baseline <= packet.capturedLen && baseline <= |packet.data| && baseline <= packet.originalLen
            && baseline <= config.capture.defaultSnaplen && baseline <= config.capture.maxCaptureLen
            && (Constricted(decision.reason) ==>
                  && baseline - decision.outputLen >= config.minSavedBytes
                  && decision.decode == Decode(packet.View(), packet.link) && IpDecoded(decision.decode)
                  && var d := decision.decode;
                     && d.transport.protocol == (if decision.reason == TlsApplicationDataConstricted then Tcp else Udp)
                     && d.transport.payloadOffset ==
                        d.link.headerLength + d.network.headerLength + d.transport.headerLength
                     && d.transport.payloadOffset <= decision.outputLen)
  {
    hide Decode, Tls.Evaluation, Quic.Evaluation, Quic.PaddedAddresses;
    var view, d := packet.View(), Decode(packet.View(), packet.link);
    var reason, baseline := Classify(config, packet.Malformed(), d), Baseline(config.capture, packet);
    CanonicalFlows.DecodedIsPadded(view, packet.link);
    if GoesToTls(reason, d) || GoesToQuic(reason, d) {
      TransportMeansIp(view, packet.link);
      Layout(view, packet.link);
      JudgedLength(config, s, view, d, reason, baseline);
    }
  }

  /** So the writer is never asked for more bytes than there are. */
  lemma OutputFits(config: Config, s: State, packet: CapturedPacket)
    ensures Decide(config, s, packet).1.outputLen <= packet.SafeCapturedLen()
  {
    hide Decide;
    LengthGuarantee(config, s, packet);
  }

  /** A decode that reports a transport header reports an IP header. */
  lemma TransportMeansIp(packet: bytes, link: LinkType)
    requires Decode(packet, link).failure == NoFailure && Decode(packet, link).transport.protocol != NoTransport
    ensures IpDecoded(Decode(packet, link))
  {
    var read := ReadLink(packet, link);
    var version := EthertypeVersion(read.fields.ethertype);
    if version != NoIp && ReadIp(version, packet, read.offset).Read? {
      IpShape(version, packet, read.offset);
    }
  }

  lemma JudgedLength(config: Config, s: State, view: bytes, d: Decoded, reason: Reason, baseline: u32)
    requires Quic.PaddedAddresses(d) && (GoesToTls(reason, d) || GoesToQuic(reason, d))
    requires d.transport.protocol == (if reason == TlsCandidate then Tcp else Udp)
    requires HasBytes(view, d.transport.payloadOffset, d.transport.payloadLength) && |view| < TWO_32
    ensures var (output, final) := Judge(config, s, view, d, reason, baseline).1;
            && output <= baseline
            && (output < baseline <==> Constricted(final))
            && (output < baseline ==>
                  && d.transport.protocol == (if final == TlsApplicationDataConstricted then Tcp else Udp)
                  && d.transport.payloadOffset <= output && baseline - output >= config.minSavedBytes)
  {
    hide Tls.Evaluation, Quic.Evaluation;
    if GoesToTls(reason, d) {
      TlsCutInPayload(s.tls, view, d, config.tls);
    } else {
      QuicCutInPayload(s.quic, view, d, config.quic);
    }
  }

  // --------------------------------------- monotone keeping ---------------------------------------

  /** The second configuration keeps at least as much: only the keep sizes and the savings threshold differ. */
  predicate KeepsMore(c: Config, e: Config) {
    && e == c.(minSavedBytes := e.minSavedBytes,
               tls := c.tls.(keepRecordBytes := e.tls.keepRecordBytes,
                             keepContinuationBytes := e.tls.keepContinuationBytes),
               quic := c.quic.(keepShortHeaderBytes := e.quic.keepShortHeaderBytes))
    && c.minSavedBytes <= e.minSavedBytes && c.tls.keepRecordBytes <= e.tls.keepRecordBytes
    && c.tls.keepContinuationBytes <= e.tls.keepContinuationBytes
    && c.quic.keepShortHeaderBytes <= e.quic.keepShortHeaderBytes
  }

  lemma TlsKeepsMore(t: Tls.Table, view: bytes, d: Decoded, c: TlsOptions, e: TlsOptions)
    requires HasBytes(view, d.transport.payloadOffset, d.transport.payloadLength) && |view| < TWO_32
    requires c.keepRecordBytes <= e.keepRecordBytes && c.keepContinuationBytes <= e.keepContinuationBytes
    ensures Tls.Evaluation(t, view, d, c).0 == Tls.Evaluation(t, view, d, e).0
    ensures CutsLess(Tls.Evaluation(t, view, d, c).1, Tls.Evaluation(t, view, d, e).1)
  {
    var seg := Tls.SegmentOf(view, d);
    Tls.KeepsAreNotCuts(t, seg);
    ResultKeepsMore(Tls.Track(t, seg).shape, d.transport.payloadOffset, |seg.payload|, |view|, c, e);
  }

  /** `b` cuts no more than `a`. */
  predicate CutsLess(a: Tls.TlsResult, b: Tls.TlsResult) {
    || a == b
    || (a.disposition == Tls.AppDataPrefix && b.disposition == Tls.NoApplicationData)
    || (a.disposition == b.disposition == Tls.AppDataPrefix && a.outputLen <= b.outputLen)
  }

  lemma ResultKeepsMore(shape: Tls.Shape, start: nat, size: nat, whole: nat, c: TlsOptions, e: TlsOptions)
    requires shape != Tls.Keep(Tls.AppDataPrefix) && start + size <= whole < TWO_32
    requires c.keepRecordBytes <= e.keepRecordBytes && c.keepContinuationBytes <= e.keepContinuationBytes
    ensures CutsLess(Tls.ResultOf(shape, start, size, whole, c), Tls.ResultOf(shape, start, size, whole, e))
  {
    ResultInPayload(shape, start, size, whole, c);
    ResultInPayload(shape, start, size, whole, e);
  }

  lemma QuicKeepsMore(f: Quic.Flows, view: bytes, d: Decoded, c: QuicOptions, e: QuicOptions)
    requires Quic.PaddedAddresses(d)
    requires HasBytes(view, d.transport.payloadOffset, d.transport.payloadLength) && |view| < TWO_32
    requires e == c.(keepShortHeaderBytes := e.keepShortHeaderBytes) && c.keepShortHeaderBytes <= e.keepShortHeaderBytes
    ensures Quic.Evaluation(f, view, d, c).0 == Quic.Evaluation(f, view, d, e).0
    ensures var a, b := Quic.Evaluation(f, view, d, c).1, Quic.Evaluation(f, view, d, e).1;
            a == b || (a.disposition == b.disposition == Quic.ShortHeaderMatched && a.outputLen <= b.outputLen)
  {
    if Quic.Applies(d, c) {
      var g := Quic.DatagramOf(view, d);
      JudgedKeepsMore(f, g, QuicPackets.LongHeaders(g.payload, 0), d.transport.payloadOffset, c, e, |view|);
    }
  }

  lemma JudgedKeepsMore(f: Quic.Flows, g: Quic.Datagram, parsed: QuicPackets.Coalesced, start: nat, c: QuicOptions,
      e: QuicOptions, size: nat)
    requires parsed.end <= |g.payload| && start + |g.payload| <= size < TWO_32
    requires e == c.(keepShortHeaderBytes := e.keepShortHeaderBytes) && c.keepShortHeaderBytes <= e.keepShortHeaderBytes
    ensures var (x, a), (y, b) := Quic.Judged(f, g, parsed, start, c), Quic.Judged(f, g, parsed, start, e);
            && x == y
            && (a == b || (a.disposition == b.disposition == Quic.ShortHeaderMatched && a.outputLen <= b.outputLen))
  {
  }

  lemma StepKeepsMore(c: Config, e: Config, s: State, packet: CapturedPacket)
    requires KeepsMore(c, e)
    ensures Decide(c, s, packet).0 == Decide(e, s, packet).0
    ensures Decide(c, s, packet).1.outputLen <= Decide(e, s, packet).1.outputLen
  {
    hide Decode, Tls.Evaluation, Quic.Evaluation, Quic.PaddedAddresses;
    var view, d := packet.View(), Decode(packet.View(), packet.link);
    var reason := Classify(c, packet.Malformed(), d);
    CanonicalFlows.DecodedIsPadded(view, packet.link);
    if GoesToTls(reason, d) || GoesToQuic(reason, d) {
      TransportMeansIp(view, packet.link);
      Layout(view, packet.link);
      JudgeKeepsMore(c, e, s, view, d, reason, Baseline(c.capture, packet));
    }
  }

  lemma JudgeKeepsMore(c: Config, e: Config, s: State, view: bytes, d: Decoded, reason: Reason, baseline: u32)
    requires KeepsMore(c, e) && Quic.PaddedAddresses(d) && (GoesToTls(reason, d) || GoesToQuic(reason, d))
    requires HasBytes(view, d.transport.payloadOffset, d.transport.payloadLength) && |view| < TWO_32
    ensures Judge(c, s, view, d, reason, baseline).0 == Judge(e, s, view, d, reason, baseline).0
    ensures Judge(c, s, view, d, reason, baseline).1.0 <= Judge(e, s, view, d, reason, baseline).1.0
  {
    hide Tls.Evaluation, Quic.Evaluation;
    if GoesToTls(reason, d) {
      TlsKeepsMore(s.tls, view, d, c.tls, e.tls);
    } else {
      QuicKeepsMore(s.quic, view, d, c.quic, e.quic);
    }
  }

  /** Keeping more never changes what is remembered, and never shortens the output of any packet of any run. */
  lemma {:induction false} MonotoneKeeping(c: Config, e: Config, s: State, packets: seq<CapturedPacket>)
    requires KeepsMore(c, e)
    ensures After(c, s, packets) == After(e, s, packets)
    ensures |Decisions(c, s, packets)| == |Decisions(e, s, packets)| == |packets|
    ensures forall i | 0 <= i < |packets| ::
              Decisions(c, s, packets)[i].outputLen <= Decisions(e, s, packets)[i].outputLen
    decreases |packets|
  {
    if packets != [] {
      StepKeepsMore(c, e, s, packets[0]);
      MonotoneKeeping(c, e, Decide(c, s, packets[0]).0, packets[1..]);
    }
  }

  // --------------------------------------- saved packets ---------------------------------------

  /** The packet as it is saved. */
  function Saved(packet: CapturedPacket, decision: Decision): CapturedPacket
    requires decision.outputLen <= packet.SafeCapturedLen()
  {
    CapturedPacket(packet.View()[..decision.outputLen], decision.outputLen, decision.originalLen,
                   packet.timestamp, packet.link)
  }

  /** A packet cut inside its IP datagram is left alone when it is judged again, by any policy with the same capture
      limits, whatever it remembers. */
  lemma SavedIsFixedPoint(c: Config, s: State, packet: CapturedPacket, e: Config, r: State)
    requires IpDecoded(Decode(packet.View(), packet.link)) && e.capture == c.capture
    requires Decide(c, s, packet).1.outputLen < IpEnd(packet.View(), packet.link)
    ensures var decision := Decide(c, s, packet).1;
            && decision.outputLen <= packet.SafeCapturedLen()
            && var (after, again) := Decide(e, r, Saved(packet, decision));
               after == r && again.reason == ParseError && again.outputLen == decision.outputLen
               && again.originalLen == decision.originalLen
  {
    LengthGuarantee(c, s, packet);
    var decision := Decide(c, s, packet).1;
    ShorterPrefixFails(packet.View(), packet.link, decision.outputLen);
    var saved := Saved(packet, decision);
    assert saved.View() == packet.View()[..decision.outputLen];
    assert Classify(e, saved.Malformed(), Decode(saved.View(), packet.link)) == ParseError;
  }
}
