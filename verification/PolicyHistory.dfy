/** The policy's memory is the memory of its two constrictors after the segments and datagrams it passed to them, so
    what holds of every run of a constrictor holds of every run of the policy. */
module PolicyHistory {
  import opened Bytes
  import opened PacketDecode
  import opened DecodeExtent
  import opened PolicyConfig
  import opened LiveCapturePolicy
  import opened PolicyRuns
  import opened FlowIndependence
  import opened TlsCuts
  import opened TlsRecords
  import opened TlsStreams
  import CanonicalFlows
  import QuicPackets
  import QuicRuns
  import TlsRuns
  import Tls = TlsConstrictor
  import Quic = QuicConstrictor

  predicate PassedToTls(config: Config, packet: CapturedPacket) {
    var d := Decode(packet.View(), packet.link);
    GoesToTls(Classify(config, packet.Malformed(), d), d)
  }

  predicate PassedToQuic(config: Config, packet: CapturedPacket) {
    var d := Decode(packet.View(), packet.link);
    GoesToQuic(Classify(config, packet.Malformed(), d), d)
  }

  function SegmentIn(packet: CapturedPacket): Tls.Segment
    requires Decode(packet.View(), packet.link).failure == NoFailure
  {
    PayloadInView(packet.View(), packet.link);
    Tls.SegmentOf(packet.View(), Decode(packet.View(), packet.link))
  }

  function DatagramIn(packet: CapturedPacket): Quic.Datagram
    requires Decode(packet.View(), packet.link).failure == NoFailure
  {
    PayloadInView(packet.View(), packet.link);
    CanonicalFlows.DecodedIsPadded(packet.View(), packet.link);
    Quic.DatagramOf(packet.View(), Decode(packet.View(), packet.link))
  }

  /** The TCP segments of a run that the policy passes to the TLS constrictor. */
  function Segments(config: Config, packets: seq<CapturedPacket>): seq<Tls.Segment> {
    if packets == [] then []
    else
      var last := packets[|packets| - 1];
      Segments(config, packets[..|packets| - 1]) + if PassedToTls(config, last) then [SegmentIn(last)] else []
  }

  /** The UDP datagrams of a run that the policy passes to the QUIC constrictor. */
  function Datagrams(config: Config, packets: seq<CapturedPacket>): seq<Quic.Datagram> {
    if packets == [] then []
    else
      var last := packets[|packets| - 1];
      Datagrams(config, packets[..|packets| - 1]) + if PassedToQuic(config, last) then [DatagramIn(last)] else []
  }

  lemma {:induction false} AfterLast(config: Config, s: State, packets: seq<CapturedPacket>)
    requires packets != []
    ensures After(config, s, packets) ==
              Decide(config, After(config, s, packets[..|packets| - 1]), packets[|packets| - 1]).0
    decreases |packets|
  {
    hide Decide;
    if |packets| > 1 {
      AfterLast(config, Decide(config, s, packets[0]).0, packets[1..]);
      assert packets[1..][..|packets| - 2] == packets[..|packets| - 1][1..];
    } else {
      assert packets[..0] == [] && packets[1..] == [];
    }
  }

  lemma StepProjects(config: Config, s: State, packet: CapturedPacket)
    ensures Decide(config, s, packet).0.tls == if PassedToTls(config, packet) then Tls.Track(s.tls,
            SegmentIn(packet)).table else s.tls
    ensures Decide(config, s, packet).0.quic == if PassedToQuic(config, packet) then Quic.Learn(s.quic,
            DatagramIn(packet)) else s.quic
  {
    hide Decode, Tls.Track, Quic.LearnHeaders, QuicPackets.LongHeaders, Quic.CanonicalFlow;
    var view, d := packet.View(), Decode(packet.View(), packet.link);
    CanonicalFlows.DecodedIsPadded(view, packet.link);
    if d.failure == NoFailure {
      PayloadInView(view, packet.link);
    }
  }

  /** After any run, each constrictor remembers exactly what its own segments or datagrams left it with. */
  lemma {:induction false} MemoryIsHistory(config: Config, packets: seq<CapturedPacket>)
    ensures After(config, EMPTY, packets)
         == State(TlsRuns.Run(map[], Segments(config, packets)), QuicRuns.Run(map[], Datagrams(config, packets)))
  {
    hide Decide, Tls.Track, Quic.Learn, PassedToTls, PassedToQuic;
    if packets != [] {
      var init, last := packets[..|packets| - 1], packets[|packets| - 1];
      MemoryIsHistory(config, init);
      AfterLast(config, EMPTY, packets);
      StepProjects(config, After(config, EMPTY, init), last);
      RunAppends(Segments(config, init), Segments(config, packets));
      LearnAppends(Datagrams(config, init), Datagrams(config, packets));
    }
  }

  lemma RunAppends(init: seq<Tls.Segment>, all: seq<Tls.Segment>)
    ensures all == init + [] ==> TlsRuns.Run(map[], all) == TlsRuns.Run(map[], init)
    ensures |all| == |init| + 1 && all[..|init|] == init ==>
              TlsRuns.Run(map[], all) == Tls.Track(TlsRuns.Run(map[], init), all[|init|]).table
  {
    hide Tls.Track;
  }

  lemma LearnAppends(init: seq<Quic.Datagram>, all: seq<Quic.Datagram>)
    ensures all == init + [] ==> QuicRuns.Run(map[], all) == QuicRuns.Run(map[], init)
    ensures |all| == |init| + 1 && all[..|init|] == init ==>
              QuicRuns.Run(map[], all) == Quic.Learn(QuicRuns.Run(map[], init), all[|init|])
  {
    hide Quic.Learn;
  }

  /** A TLS constriction comes from a cut of the segment passed on. */
  lemma ConstrictedIsCut(config: Config, s: State, packet: CapturedPacket)
    requires Decide(config, s, packet).1.reason == TlsApplicationDataConstricted
    ensures PassedToTls(config, packet) && Decode(packet.View(), packet.link).failure == NoFailure
    ensures Tls.Verdict(Tls.Track(s.tls, SegmentIn(packet)).shape, |SegmentIn(packet).payload|, config.tls).0 ==
              Tls.AppDataPrefix
  {
    hide Decode, Tls.Track, Quic.Evaluation;
    var view, d := packet.View(), Decode(packet.View(), packet.link);
    CanonicalFlows.DecodedIsPadded(view, packet.link);
    PayloadInView(view, packet.link);
  }

  /** A policy never cuts TLS application data before it has accepted a handshake header on that connection, in or
      since the last SYN or RST it saw there. */
  lemma ConstrictedNeedsHandshake(config: Config, packets: seq<CapturedPacket>, packet: CapturedPacket)
    ensures Decide(config, After(config, EMPTY, packets), packet).1.reason == TlsApplicationDataConstricted ==>
              && PassedToTls(config, packet)
              && TlsRuns.HandshakeSinceReset(Segments(config, packets) + [SegmentIn(packet)], SegmentIn(packet).key)
  {
    hide Decide, Decode, Tls.Track, Tls.Verdict, Segments, SegmentIn, PassedToTls, TlsRuns.HandshakeSinceReset;
    var s := After(config, EMPTY, packets);
    if Decide(config, s, packet).1.reason == TlsApplicationDataConstricted {
      ConstrictedIsCut(config, s, packet);
      MemoryIsHistory(config, packets);
      TlsRuns.CutNeedsHandshake(Segments(config, packets), SegmentIn(packet), config.tls);
    }
  }

  /** A QUIC constriction comes from a matched short header, and its output length is that of the match. */
  lemma ConstrictedIsMatched(config: Config, s: State, packet: CapturedPacket)
    requires Decide(config, s, packet).1.reason == QuicShortHeaderConstricted
    ensures PassedToQuic(config, packet)
    ensures Quic.PaddedAddresses(Decode(packet.View(), packet.link))
    ensures var d := Decode(packet.View(), packet.link);
            var result := Quic.Evaluation(s.quic, packet.View(), d, config.quic).1;
            && Quic.Applies(d, config.quic)
            && result.disposition == Quic.ShortHeaderMatched
            && Decide(config, s, packet).1.outputLen == result.outputLen
  {
    hide Decode, Tls.Evaluation, Quic.Evaluation, Quic.PaddedAddresses;
    CanonicalFlows.DecodedIsPadded(packet.View(), packet.link);
  }

  /** A policy cuts a QUIC packet with a short header only where it carries the ID that its destination announced last,
      or, if the settings let that pass, none was announced; the output then holds the headers of the packet, its long
      packets, the first byte of the short one and the whole ID. */
  lemma ConstrictedMatchesId(config: Config, packets: seq<CapturedPacket>, packet: CapturedPacket)
    ensures Decide(config, After(config, EMPTY, packets), packet).1.reason == QuicShortHeaderConstricted ==>
              && PassedToQuic(config, packet)
              && var g := DatagramIn(packet);
                 var parsed := QuicPackets.LongHeaders(g.payload, 0);
                 var other := CanonicalFlows.Opposite(g.direction);
                 var id := QuicRuns.Last(QuicRuns.History(Datagrams(config, packets), g.key, other));
                 && QuicRuns.MayCut(g.payload, parsed, id, config.quic)
                 && Decode(packet.View(), packet.link).transport.payloadOffset + QuicRuns.MustKeep(parsed, id)
                    <= Decide(config, After(config, EMPTY, packets), packet).1.outputLen
  {
    hide Decide, Decode, Datagrams, Quic.Evaluation, Quic.PaddedAddresses, QuicPackets.LongHeaders;
    hide QuicRuns.History, QuicRuns.MayCut, QuicRuns.MustKeep;
    var s := After(config, EMPTY, packets);
    if Decide(config, s, packet).1.reason == QuicShortHeaderConstricted {
      ConstrictedIsMatched(config, s, packet);
      PayloadInView(packet.View(), packet.link);
      MemoryIsHistory(config, packets);
      var d := Decode(packet.View(), packet.link);
      QuicRuns.ShortHeaderMatch(Datagrams(config, packets), packet.View(), d, config.quic);
    }
  }

  // ------------------------------------ exactly when a packet is cut ------------------------------------

  /** An output of `output` bytes is shorter than the baseline, by no less than the threshold. */
  predicate Saves(config: Config, packet: CapturedPacket, output: int) {
    var baseline := Baseline(config.capture, packet);
    output < baseline && baseline - output >= config.minSavedBytes
  }

  function TlsVerdict(config: Config, s: State, packet: CapturedPacket): (Tls.Disposition, nat)
    requires Decode(packet.View(), packet.link).failure == NoFailure
  {
    var seg := SegmentIn(packet);
    Tls.Verdict(Tls.Track(s.tls, seg).shape, |seg.payload|, config.tls)
  }

  lemma TlsVerdictIsEvaluated(config: Config, s: State, packet: CapturedPacket)
    requires TlsPacket(config, packet)
    ensures var d := Decode(packet.View(), packet.link);
            var result := Tls.Evaluation(s.tls, packet.View(), d, config.tls).1;
            var (disposition, kept) := TlsVerdict(config, s, packet);
            && result.disposition == disposition
            && (disposition == Tls.AppDataPrefix ==>
                  d.transport.payloadLength > 0 && result.outputLen == d.transport.payloadOffset + kept)
  {
    hide Decode, Tls.Track, Tls.KeyOf, Tls.Verdict;
    var view, d := packet.View(), Decode(packet.View(), packet.link);
    PayloadInView(view, packet.link);
    var seg := SegmentIn(packet);
    Tls.KeepsAreNotCuts(s.tls, seg);
    CutLeavesLess(Tls.Track(s.tls, seg).shape, |seg.payload|, config.tls);
  }

  lemma CutLeavesLess(shape: Tls.Shape, size: nat, options: TlsOptions)
    requires shape != Tls.Keep(Tls.AppDataPrefix)
    ensures var (disposition, kept) := Tls.Verdict(shape, size, options);
            disposition == Tls.AppDataPrefix ==> kept < size
  {
  }

  /** A packet is constricted as TLS if and only if it is one the tracker must see, its segment is cut, and the cut
      saves enough; the output then ends where the cut is. */
  lemma TlsConstrictedIff(config: Config, s: State, packet: CapturedPacket)
    ensures var d, decision := Decode(packet.View(), packet.link), Decide(config, s, packet).1;
            && (decision.reason == TlsApplicationDataConstricted <==>
                  && TlsPacket(config, packet)
                  && var (disposition, kept) := TlsVerdict(config, s, packet);
                     disposition == Tls.AppDataPrefix && Saves(config, packet, d.transport.payloadOffset + kept))
            && (decision.reason == TlsApplicationDataConstricted ==>
                  decision.outputLen == d.transport.payloadOffset + TlsVerdict(config, s, packet).1)
  {
    hide Decode, Tls.Evaluation, Quic.Evaluation, Quic.PaddedAddresses, TlsVerdict, Baseline;
    ReasonTellsKind(config, s, packet);
    if TlsPacket(config, packet) {
      CanonicalFlows.DecodedIsPadded(packet.View(), packet.link);
      SuccessMeans(packet.View(), packet.link);
      TlsVerdictIsEvaluated(config, s, packet);
    }
  }

  /** A packet of a direction in step with its stream is constricted if and only if the stream says that its segment is
      to be cut, and the cut saves enough. */
  lemma ConstrictedAsStream(config: Config, packets: seq<CapturedPacket>, packet: CapturedPacket,
                            stream: seq<TlsRecord>, start: u32, a: nat, b: nat)
    requires TlsPacket(config, packet) && ValidStream(stream)
    requires CarriesBytes(SegmentIn(packet), stream, start, a, b) && a < b && HeaderWhole(stream, a)
    requires Agrees(Tls.StateAt(After(config, EMPTY, packets).tls, SegmentIn(packet).key), stream, start, a)
    ensures var offset := Decode(packet.View(), packet.link).transport.payloadOffset;
            var decision := Decide(config, After(config, EMPTY, packets), packet).1;
            decision.reason == TlsApplicationDataConstricted <==>
              && CutsStream(stream, a, b, config.tls)
              && Saves(config, packet, offset + CutAt(stream, a, b, config.tls) - a)
  {
    hide Decide, Decode, Segments, SegmentIn, Tls.Track, Tls.Verdict;
    hide CutsStream, CutAt, Agrees, CarriesBytes, EncodeStream;
    var s := After(config, EMPTY, packets);
    MemoryIsHistory(config, packets);
    TlsRuns.ReachableIsValid(Segments(config, packets));
    TlsConstrictedIff(config, s, packet);
    CutInStream(s.tls, SegmentIn(packet), stream, start, a, b, config.tls);
  }

  /** A packet is constricted as QUIC if and only if it is one the constrictor must see, what has been announced on its
      flow lets its short header be cut, and the cut saves enough; the output is then what the cut keeps. */
  lemma QuicConstrictedIff(config: Config, packets: seq<CapturedPacket>, packet: CapturedPacket)
    ensures var d := Decode(packet.View(), packet.link);
            var decision := Decide(config, After(config, EMPTY, packets), packet).1;
            if QuicPacket(config, packet) && d.transport.payloadLength > 0 then
              var g := DatagramIn(packet);
              var parsed := QuicPackets.LongHeaders(g.payload, 0);
              var other := CanonicalFlows.Opposite(g.direction);
              var id := QuicRuns.Last(QuicRuns.History(Datagrams(config, packets), g.key, other));
              var output := d.transport.payloadOffset + QuicRuns.Keeps(parsed, id, |g.payload|, config.quic);
              && (decision.reason == QuicShortHeaderConstricted <==>
                    QuicRuns.MayCut(g.payload, parsed, id, config.quic) && Saves(config, packet, output))
              && (decision.reason == QuicShortHeaderConstricted ==> decision.outputLen == output)
            else
              decision.reason != QuicShortHeaderConstricted
  {
    hide Decide, Decode, Datagrams, Quic.Evaluation, Quic.PaddedAddresses, QuicPackets.LongHeaders, Baseline;
    hide QuicRuns.History, QuicRuns.MayCut, QuicRuns.MustKeep, QuicRuns.Keeps;
    var s, d := After(config, EMPTY, packets), Decode(packet.View(), packet.link);
    CanonicalFlows.DecodedIsPadded(packet.View(), packet.link);
    ReasonTellsKind(config, s, packet);
    if QuicPacket(config, packet) && d.transport.payloadLength > 0 {
      PayloadInView(packet.View(), packet.link);
      MemoryIsHistory(config, packets);
      QuicRuns.ShortHeaderMatch(Datagrams(config, packets), packet.View(), d, config.quic);
      QuicDecided(config, s, packet);
    } else if Decide(config, s, packet).1.reason == QuicShortHeaderConstricted {
      ConstrictedIsMatched(config, s, packet);
    }
  }

  lemma QuicDecided(config: Config, s: State, packet: CapturedPacket)
    requires QuicPacket(config, packet) && Decode(packet.View(), packet.link).transport.payloadLength > 0
    requires Quic.PaddedAddresses(Decode(packet.View(), packet.link))
    ensures Quic.Applies(Decode(packet.View(), packet.link), config.quic)
    ensures var result := Quic.Evaluation(s.quic, packet.View(), Decode(packet.View(), packet.link), config.quic).1;
            var decision := Decide(config, s, packet).1;
            && (decision.reason == QuicShortHeaderConstricted <==>
                  result.disposition == Quic.ShortHeaderMatched && Saves(config, packet, result.outputLen))
            && (decision.reason == QuicShortHeaderConstricted ==> decision.outputLen == result.outputLen)
  {
    hide Decode, Tls.Evaluation, Quic.Evaluation, Quic.PaddedAddresses, Baseline;
    SuccessMeans(packet.View(), packet.link);
  }
}
