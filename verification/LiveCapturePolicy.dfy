/** The capture policy: decodes a packet, lets the TLS or the QUIC constrictor judge it, and decides how many of its
    bytes to write. */
module LiveCapturePolicy {
  import opened Bytes
  import opened PacketDecode
  import opened PolicyConfig
  import CanonicalFlows
  import Tls = TlsConstrictor
  import Quic = QuicConstrictor

  /** A captured packet; `timestamp` counts ticks of the system clock since the epoch. */
  datatype CapturedPacket = CapturedPacket(data: bytes, capturedLen: u32, originalLen: u32, timestamp: int,
                                           link: LinkType)
  {
    function SafeCapturedLen(): u32 {
      Min(capturedLen, |data|)
    }

    /** The bytes that were really captured. */
    function View(): (view: bytes)
      ensures |view| == SafeCapturedLen()
    {
      data[..SafeCapturedLen()]
    }

    /** The lengths contradict one another. */
    predicate Malformed() {
      capturedLen > |data| || originalLen < SafeCapturedLen()
    }
  }

  datatype Reason =
    | Default
    | ParseError
    | NonIp
    | TcpOther
    | UdpOther
    | TlsCandidate
    | TlsApplicationDataConstricted
    | TlsMalformedFallback
    | TlsNoRecordFallback
    | QuicCandidate
    | QuicLongHeader
    | QuicShortHeaderMatched
    | QuicShortHeaderConstricted
    | QuicShortHeaderUnknownCidFallback
    | QuicShortHeaderDcidMismatchFallback
    | QuicMalformedFallback

  datatype Decision = Decision(outputLen: u32, originalLen: u32, reason: Reason, decode: Decoded)

  /** A cut that saves too little is not made. */
  function ApplyMinimumSavings(baseline: u32, candidate: u32, minSaved: u32): u32 {
    if candidate >= baseline then baseline
    else if baseline - candidate < minSaved then baseline
    else candidate
  }

  /** The length before any cut: the shortest of the captured, original, snaplen and maximum lengths. */
  function Baseline(config: CaptureOptions, packet: CapturedPacket): u32 {
    Min(Min(packet.SafeCapturedLen(), packet.originalLen), Min(config.defaultSnaplen, config.maxCaptureLen))
  }

  predicate AnyPort(ports: seq<u16>, d: Decoded) {
    PortConfigured(ports, d.transport.srcPort) || PortConfigured(ports, d.transport.dstPort)
  }

  /** The reason a packet has before a constrictor has seen it. */
  function Classify(config: Config, malformed: bool, d: Decoded): Reason {
    if malformed || d.failure != NoFailure then ParseError
    else if d.IsNonIp() then NonIp
    else
      match d.transport.protocol
      case Tcp => if config.tls.enabled && AnyPort(config.tls.ports, d) then TlsCandidate else TcpOther
      case Udp => if config.quic.enabled && AnyPort(config.quic.ports, d) then QuicCandidate else UdpOther
      case NoTransport => Default
  }

  function TlsDecision(config: Config, baseline: u32, result: Tls.TlsResult): (u32, Reason) {
    match result.disposition
    case AppDataPrefix =>
      var output := ApplyMinimumSavings(baseline, Min(baseline, result.outputLen), config.minSavedBytes);
      (output, if output < baseline then TlsApplicationDataConstricted else TlsCandidate)
    case Malformed => (baseline, TlsMalformedFallback)
    case NoRecord => (baseline, TlsNoRecordFallback)
    case NoApplicationData => (baseline, TlsCandidate)
  }

  function QuicDecision(config: Config, baseline: u32, result: Quic.QuicResult): (u32, Reason) {
    match result.disposition
    case ShortHeaderMatched =>
      var output := ApplyMinimumSavings(baseline, Min(baseline, result.outputLen), config.minSavedBytes);
      (output, if output < baseline then QuicShortHeaderConstricted else QuicShortHeaderMatched)
    case LongHeaderSeen => (baseline, QuicLongHeader)
    case UnknownCidFallback => (baseline, QuicShortHeaderUnknownCidFallback)
    case DcidMismatchFallback => (baseline, QuicShortHeaderDcidMismatchFallback)
    case MalformedFallback => (baseline, QuicMalformedFallback)
    case NotApplicable => (baseline, QuicCandidate)
  }

  /** What the constrictors remember. */
  datatype State = State(tls: Tls.Table, quic: Quic.Flows)

  const EMPTY := State(map[], map[])

  predicate GoesToTls(reason: Reason, d: Decoded) {
    reason == TlsCandidate && (d.transport.payloadLength > 0 || Tls.SynOrRst(d.transport.tcpFlags))
  }

  predicate GoesToQuic(reason: Reason, d: Decoded) {
    reason == QuicCandidate && d.transport.payloadLength > 0
  }

  /** The new state, output length and reason for a packet with bytes `view` that decode to `d`. */
  function Judge(config: Config, s: State, view: bytes, d: Decoded, reason: Reason, baseline: u32)
    : (State, (u32, Reason))
    requires Quic.PaddedAddresses(d)
  {
    if GoesToTls(reason, d) then
      var (table, result) := Tls.Evaluation(s.tls, view, d, config.tls);
      (s.(tls := table), TlsDecision(config, baseline, result))
    else if GoesToQuic(reason, d) then
      var (flows, result) := Quic.Evaluation(s.quic, view, d, config.quic);
      (s.(quic := flows), QuicDecision(config, baseline, result))
    else
      (s, (baseline, reason))
  }

  /** What `Evaluate` computes: the new state and the decision. */
  function Decide(config: Config, s: State, packet: CapturedPacket): (State, Decision) {
    var d := Decode(packet.View(), packet.link);
    var baseline := Baseline(config.capture, packet);
    CanonicalFlows.DecodedIsPadded(packet.View(), packet.link);
    var (next, judged) := Judge(config, s, packet.View(), d, Classify(config, packet.Malformed(), d), baseline);
    (next, Decision(judged.0, Max(packet.originalLen, baseline), judged.1, d))
  }

  class LiveCapturePolicy {
    const config: Config
    const tls: Tls.TlsConstrictor
    const quic: Quic.QuicConstrictor

    ghost predicate Valid()
      reads tls
    {
      tls.Valid()
    }

    ghost function Memory(): State
      reads tls, quic
    {
      State(tls.directions, quic.flows)
    }

    constructor (config: Config)
      ensures this.config == config && fresh(tls) && fresh(quic)
      ensures Valid() && Memory() == EMPTY
    {
      this.config := config;
      tls := new Tls.TlsConstrictor();
      quic := new Quic.QuicConstrictor();
    }

    method Evaluate(packet: CapturedPacket) returns (decision: Decision)
      requires Valid()
      modifies tls, quic
      ensures Valid()
      ensures (Memory(), decision) == Decide(config, old(Memory()), packet)
    {
      var safeCapturedLen := packet.SafeCapturedLen();
      var effectiveInputLen := Min(safeCapturedLen, packet.originalLen);
      var malformed := packet.capturedLen > |packet.data| || packet.originalLen < safeCapturedLen;
      var outputLen := Min(effectiveInputLen, Min(config.capture.defaultSnaplen, config.capture.maxCaptureLen));
      var conservativeOriginalLen := Max(packet.originalLen, outputLen);
      var view := packet.data[..safeCapturedLen];
      var decoded := DecodePacket(view, packet.link);
      CanonicalFlows.DecodedIsPadded(view, packet.link);

      var reason := Default;
      if malformed || decoded.failure != NoFailure {
        reason := ParseError;
      } else if decoded.IsNonIp() {
        reason := NonIp;
      } else if decoded.transport.protocol == Tcp {
        var tlsCandidate := config.tls.enabled && (PortConfigured(config.tls.ports, decoded.transport.srcPort) ||
                                                   PortConfigured(config.tls.ports, decoded.transport.dstPort));
        reason := if tlsCandidate then TlsCandidate else TcpOther;
      } else if decoded.transport.protocol == Udp {
        var quicCandidate := config.quic.enabled && (PortConfigured(config.quic.ports, decoded.transport.srcPort) ||
                                                     PortConfigured(config.quic.ports, decoded.transport.dstPort));
        reason := if quicCandidate then QuicCandidate else UdpOther;
      }
      assert view == packet.View() && reason == Classify(config, packet.Malformed(), decoded);

      var finalOutputLen := outputLen;
      if reason == TlsCandidate && (decoded.transport.payloadLength > 0 || Tls.SynOrRst(decoded.transport.tcpFlags)) {
        var result := tls.Evaluate(view, decoded, config.tls);
        finalOutputLen, reason := ApplyTls(result, outputLen);
      } else if reason == QuicCandidate && decoded.transport.payloadLength > 0 {
        var result := quic.Evaluate(view, decoded, config.quic);
        finalOutputLen, reason := ApplyQuic(result, outputLen);
      }
      decision := Decision(finalOutputLen, conservativeOriginalLen, reason, decoded);
    }

    method ApplyTls(result: Tls.TlsResult, outputLen: u32) returns (finalOutputLen: u32, reason: Reason)
      ensures (finalOutputLen, reason) == TlsDecision(config, outputLen, result)
    {
      finalOutputLen, reason := outputLen, TlsCandidate;
      if result.disposition == Tls.AppDataPrefix {
        finalOutputLen := ApplyMinimumSavings(outputLen, Min(outputLen, result.outputLen), config.minSavedBytes);
        if finalOutputLen < outputLen {
          reason := TlsApplicationDataConstricted;
        }
      } else if result.disposition == Tls.Malformed {
        reason := TlsMalformedFallback;
      } else if result.disposition == Tls.NoRecord {
        reason := TlsNoRecordFallback;
      }
    }

    method ApplyQuic(result: Quic.QuicResult, outputLen: u32) returns (finalOutputLen: u32, reason: Reason)
      ensures (finalOutputLen, reason) == QuicDecision(config, outputLen, result)
    {
      finalOutputLen, reason := outputLen, QuicCandidate;
      if result.disposition == Quic.LongHeaderSeen {
        reason := QuicLongHeader;
      } else if result.disposition == Quic.ShortHeaderMatched {
        finalOutputLen := ApplyMinimumSavings(outputLen, Min(outputLen, result.outputLen), config.minSavedBytes);
        reason := if finalOutputLen < outputLen then QuicShortHeaderConstricted else QuicShortHeaderMatched;
      } else if result.disposition == Quic.UnknownCidFallback {
        reason := QuicShortHeaderUnknownCidFallback;
      } else if result.disposition == Quic.DcidMismatchFallback {
        reason := QuicShortHeaderDcidMismatchFallback;
      } else if result.disposition == Quic.MalformedFallback {
        reason := QuicMalformedFallback;
      }
    }
  }
}
