/** The QUIC constrictor: canonical flows, a table of the connection IDs each side of a flow has announced, and the
    decision whether a packet with a short header may be cut. */
module QuicConstrictor {
  import opened Bytes
  import opened PacketDecode
  import opened PolicyConfig
  import opened QuicPackets

  datatype Disposition =
    | NotApplicable
    | LongHeaderSeen
    | ShortHeaderMatched
    | UnknownCidFallback
    | DcidMismatchFallback
    | MalformedFallback

  datatype QuicResult = QuicResult(disposition: Disposition, outputLen: u32)

  // ------------------------------------------- flows -------------------------------------------

  /** `address` always has 16 octets, those past `addressLength` zero. */
  datatype Endpoint = Endpoint(address: bytes, addressLength: byte, port: u16)

  predicate Padded(e: Endpoint) {
    && |e.address| == ADDRESS_SIZE && e.addressLength <= ADDRESS_SIZE
    && forall i | e.addressLength <= i < ADDRESS_SIZE :: e.address[i] == 0
  }

  /** The order of octet strings: by the first octet that differs, and a proper prefix before what it is a prefix of. */
  function CompareOctets(left: bytes, right: bytes): int {
    if left == [] && right == [] then 0
    else if left == [] then -1
    else if right == [] then 1
    else if left[0] < right[0] then -1
    else if left[0] > right[0] then 1
    else CompareOctets(left[1..], right[1..])
  }

  /** The order of endpoints: by address, then by port. */
  function Compare(left: Endpoint, right: Endpoint): int
    requires left.addressLength <= |left.address| && right.addressLength <= |right.address|
  {
    var byAddress := CompareOctets(left.address[..left.addressLength], right.address[..right.addressLength]);
    if byAddress != 0 then byAddress
    else if left.port < right.port then -1
    else if left.port > right.port then 1
    else 0
  }

  method CompareEndpoints(left: Endpoint, right: Endpoint) returns (order: int)
    requires left.addressLength <= |left.address| && right.addressLength <= |right.address|
    ensures order == Compare(left, right)
  {
    var l, r := left.address[..left.addressLength], right.address[..right.addressLength];
    var compareLength := Min(left.addressLength, right.addressLength);
    var index := 0;
    assert l[0..] == l && r[0..] == r;
    while index < compareLength
      invariant 0 <= index <= compareLength
      invariant CompareOctets(l[index..], r[index..]) == CompareOctets(l, r)
    {
      if left.address[index] < right.address[index] {
        return -1;
      }
      if left.address[index] > right.address[index] {
        return 1;
      }
      assert l[index..][1..] == l[index + 1..] && r[index..][1..] == r[index + 1..];
      index := index + 1;
    }
    if left.addressLength < right.addressLength {
      return -1;
    }
    if left.addressLength > right.addressLength {
      return 1;
    }
    if left.port < right.port {
      return -1;
    }
    if left.port > right.port {
      return 1;
    }
    return 0;
  }

  datatype FlowKey = FlowKey(ipVersion: IpVersion, a: Endpoint, b: Endpoint)

  datatype FlowDirection = AToB | BToA

  function SourceOf(d: Decoded): Endpoint {
    Endpoint(d.network.srcAddress, d.network.addressLength, d.transport.srcPort)
  }

  function DestinationOf(d: Decoded): Endpoint {
    Endpoint(d.network.dstAddress, d.network.addressLength, d.transport.dstPort)
  }

  /** Both addresses are zero-padded to 16 octets, as the decoder stores them. */
  predicate PaddedAddresses(d: Decoded) {
    Padded(SourceOf(d)) && Padded(DestinationOf(d))
  }

  function CanonicalFlow(d: Decoded): (FlowKey, FlowDirection)
    requires PaddedAddresses(d)
  {
    if Compare(SourceOf(d), DestinationOf(d)) <= 0 then
      (FlowKey(d.network.version, SourceOf(d), DestinationOf(d)), AToB)
    else
      (FlowKey(d.network.version, DestinationOf(d), SourceOf(d)), BToA)
  }

  method MakeCanonicalFlow(d: Decoded) returns (key: FlowKey, direction: FlowDirection)
    requires PaddedAddresses(d)
    ensures (key, direction) == CanonicalFlow(d)
  {
    var order := CompareEndpoints(SourceOf(d), DestinationOf(d));
    if order <= 0 {
      return FlowKey(d.network.version, SourceOf(d), DestinationOf(d)), AToB;
    }
    return FlowKey(d.network.version, DestinationOf(d), SourceOf(d)), BToA;
  }

  // ------------------------------------ learned connection IDs ------------------------------------

  /** The connection ID each side last announced as its own, if it has. */
  datatype FlowState = FlowState(aScid: Option<bytes>, bScid: Option<bytes>)

  const NOTHING_KNOWN := FlowState(None, None)

  type Flows = map<FlowKey, FlowState>

  function FlowAt(flows: Flows, key: FlowKey): FlowState {
    if key in flows then flows[key] else NOTHING_KNOWN
  }

  /** A side's announced ID: `AToB` is side a's. */
  function ScidOf(s: FlowState, direction: FlowDirection): Option<bytes> {
    if direction == AToB then s.aScid else s.bScid
  }

  /** The ID the destination of a packet has announced. */
  function PeerScid(s: FlowState, direction: FlowDirection): Option<bytes> {
    if direction == AToB then s.bScid else s.aScid
  }

  function LearnOne(s: FlowState, direction: FlowDirection, scid: bytes): FlowState {
    if scid == [] then s
    else if direction == AToB then s.(aScid := Some(scid))
    else s.(bScid := Some(scid))
  }

  function LearnAll(s: FlowState, direction: FlowDirection, headers: seq<LongHeader>): FlowState
    decreases |headers|
  {
    if headers == [] then s else LearnAll(LearnOne(s, direction, headers[0].scid), direction, headers[1..])
  }

  /** A UDP payload of a flow. */
  datatype Datagram = Datagram(key: FlowKey, direction: FlowDirection, payload: bytes)

  function LearnHeaders(flows: Flows, key: FlowKey, direction: FlowDirection, headers: seq<LongHeader>): Flows {
    if headers == [] then flows else flows[key := LearnAll(FlowAt(flows, key), direction, headers)]
  }

  function Learn(flows: Flows, d: Datagram): Flows {
    LearnHeaders(flows, d.key, d.direction, LongHeaders(d.payload, 0).headers)
  }

  /** What a datagram looks like: to be kept whole, or one whose short-header packet at `offset` may be cut down to
      its first `required` bytes. */
  datatype Shape = KeepAll(disposition: Disposition) | ShortAt(offset: nat, required: nat)

  /** The shape of a payload, given its long headers and the ID its destination has announced. */
  function ShapeAt(peer: Option<bytes>, payload: bytes, parsed: Coalesced, config: QuicOptions): Shape
    requires parsed.end <= |payload|
  {
    var sawLong := parsed.headers != [];
    if parsed.malformed then KeepAll(MalformedFallback)
    else if parsed.end == |payload| then KeepAll(if sawLong then LongHeaderSeen else NotApplicable)
    else if !IsShortHeaderCompatible(payload[parsed.end]) then
      KeepAll(if sawLong then MalformedFallback else NotApplicable)
    else
      match peer
      case None =>
        if config.requireDcidMatch || !config.allowUnknownDcid then KeepAll(UnknownCidFallback)
        else ShortAt(parsed.end, 1)
      case Some(id) =>
        if !HasBytes(payload, parsed.end, 1 + |id|) then KeepAll(MalformedFallback)
        else if payload[parsed.end + 1..parsed.end + 1 + |id|] != id then KeepAll(DcidMismatchFallback)
        else ShortAt(parsed.end, 1 + |id|)
  }

  /** The shape of a datagram, given what its flow has announced after its own long headers. */
  function ShapeOf(s: FlowState, d: Datagram, config: QuicOptions): Shape {
    ShapeAt(PeerScid(s, d.direction), d.payload, LongHeaders(d.payload, 0), config)
  }

  /** The payload bytes a shape keeps. */
  function Kept(shape: Shape, size: nat, config: QuicOptions): nat {
    match shape
    case KeepAll(_) => size
    case ShortAt(offset, required) => offset + Max(0, Min(size - offset, Max(config.keepShortHeaderBytes, required)))
  }

  predicate Applies(d: Decoded, config: QuicOptions) {
    && config.enabled && d.transport.protocol == Udp && d.transport.payloadLength > 0
    && (PortConfigured(config.ports, d.transport.srcPort) || PortConfigured(config.ports, d.transport.dstPort))
  }

  function DatagramOf(packet: bytes, d: Decoded): Datagram
    requires PaddedAddresses(d) && HasBytes(packet, d.transport.payloadOffset, d.transport.payloadLength)
  {
    var flow := CanonicalFlow(d);
    Datagram(flow.0, flow.1, packet[d.transport.payloadOffset..d.transport.payloadOffset + d.transport.payloadLength])
  }

  /** The new table and the result for a datagram whose payload starts at `start` in its packet. */
  function Judged(flows: Flows, d: Datagram, parsed: Coalesced, start: nat, config: QuicOptions): (Flows, QuicResult)
    requires parsed.end <= |d.payload|
  {
    var learned := LearnHeaders(flows, d.key, d.direction, parsed.headers);
    var shape := ShapeAt(PeerScid(FlowAt(learned, d.key), d.direction), d.payload, parsed, config);
    (learned, ResultOf(shape, start, |d.payload|, config))
  }

  function ResultOf(shape: Shape, start: nat, size: nat, config: QuicOptions): QuicResult {
    match shape
    case KeepAll(disposition) => QuicResult(disposition, 0)
    case ShortAt(_, _) => QuicResult(ShortHeaderMatched, U32(start + Kept(shape, size, config)))
  }

  /** What `Evaluate` computes: the new table and the result. */
  function Evaluation(flows: Flows, packet: bytes, d: Decoded, config: QuicOptions): (Flows, QuicResult)
    requires PaddedAddresses(d)
  {
    if !Applies(d, config) then (flows, QuicResult(NotApplicable, 0))
    else if !HasBytes(packet, d.transport.payloadOffset, d.transport.payloadLength) then (flows,
        QuicResult(MalformedFallback, 0))
    else
      var datagram := DatagramOf(packet, d);
      Judged(flows, datagram, LongHeaders(datagram.payload, 0), d.transport.payloadOffset, config)
  }

  // -------------------------------------- the loop, step by step --------------------------------------

  /** The loop over coalesced packets: the table, where it stopped, and whether a header did not parse. */
  datatype Absorbed = Absorbed(flows: Flows, end: nat, malformed: bool)

  function Absorb(flows: Flows, d: Datagram, offset: nat): Absorbed
    requires offset <= |d.payload|
    decreases |d.payload| - offset
  {
    if offset == |d.payload| || !IsLongHeader(d.payload[offset]) then Absorbed(flows, offset, false)
    else
      match LongHeaderAt(d.payload, offset)
      case None => Absorbed(flows, offset, true)
      case Some(header) =>
        Absorb(flows[d.key := LearnOne(FlowAt(flows, d.key), d.direction, header.scid)], d, offset + header.size)
  }

  lemma LearnHeadersCons(flows: Flows, key: FlowKey, direction: FlowDirection, headers: seq<LongHeader>)
    requires headers != []
    ensures var first := LearnOne(FlowAt(flows, key), direction, headers[0].scid);
            LearnHeaders(flows[key := first], key, direction, headers[1..])
            == LearnHeaders(flows, key, direction, headers)
  {
    var first := LearnOne(FlowAt(flows, key), direction, headers[0].scid);
    assert headers[1..] == [] ==> LearnAll(first, direction, headers[1..]) == first;
  }

  lemma AbsorbOneMore(flows: Flows, d: Datagram, offset: nat, h: LongHeader, end: nat, absorbed: Absorbed,
                      rest: Absorbed)
    requires offset <= end == offset + h.size <= |d.payload| && LongHeaderAt(d.payload, offset) == Some(h)
    requires absorbed == Absorb(flows, d, offset)
    requires rest == Absorb(flows[d.key := LearnOne(FlowAt(flows, d.key), d.direction, h.scid)], d, end)
    ensures absorbed == rest
  {
    hide LongHeaderAt;
  }

  /** The loop learns what the parsed headers, taken together, teach. */
  lemma {:induction false} AbsorbLearns(flows: Flows, d: Datagram, offset: nat, parsed: Coalesced, absorbed: Absorbed)
    requires offset <= |d.payload| && parsed == LongHeaders(d.payload, offset) && absorbed == Absorb(flows, d, offset)
    ensures absorbed == Absorbed(LearnHeaders(flows, d.key, d.direction, parsed.headers), parsed.end, parsed.malformed)
    decreases |d.payload| - offset
  {
    if offset < |d.payload| && IsLongHeader(d.payload[offset]) {
      match LongHeaderAt(d.payload, offset)
      case None =>
      case Some(header) =>
        var end := offset + header.size;
        var next := flows[d.key := LearnOne(FlowAt(flows, d.key), d.direction, header.scid)];
        var restParsed, restAbsorbed := LongHeaders(d.payload, end), Absorb(next, d, end);
        OneMore(d.payload, offset, LongHeaderAt(d.payload, offset), header, end, parsed, restParsed);
        AbsorbOneMore(flows, d, offset, header, end, absorbed, restAbsorbed);
        AbsorbLearns(next, d, end, restParsed, restAbsorbed);
        assert parsed.headers[0] == header && parsed.headers[1..] == restParsed.headers;
        LearnHeadersCons(flows, d.key, d.direction, parsed.headers);
    }
  }

  class QuicConstrictor {
    var flows: Flows

    constructor ()
      ensures flows == map[]
    {
      flows := map[];
    }

    /** Learns the connection IDs a datagram announces and judges the short-header packet at its end. */
    method Evaluate(packet: bytes, decoded: Decoded, config: QuicOptions) returns (result: QuicResult)
      requires PaddedAddresses(decoded)
      modifies this
      ensures (flows, result) == Evaluation(old(flows), packet, decoded, config)
    {
      var t := decoded.transport;
      if !config.enabled || t.protocol != Udp || t.payloadLength == 0 ||
         (!PortConfigured(config.ports, t.srcPort) && !PortConfigured(config.ports, t.dstPort)) {
        return QuicResult(NotApplicable, 0);
      }
      if t.payloadOffset > |packet| || t.payloadLength > |packet| - t.payloadOffset {
        return QuicResult(MalformedFallback, 0);
      }
      var payload := packet[t.payloadOffset..t.payloadOffset + t.payloadLength];
      var key, direction := MakeCanonicalFlow(decoded);
      assert DatagramOf(packet, decoded) == Datagram(key, direction, payload);
      ghost var parsed;
      result, parsed := EvaluatePayload(key, direction, payload, t.payloadOffset, config);
    }

    /** The same for a payload that starts at `start` in its packet, once its flow is known. */
    method EvaluatePayload(key: FlowKey, direction: FlowDirection, payload: bytes, start: nat, config: QuicOptions)
      returns (result: QuicResult, ghost parsed: Coalesced)
      modifies this
      ensures parsed == LongHeaders(payload, 0) && parsed.end <= |payload|
      ensures (flows, result) == Judged(old(flows), Datagram(key, direction, payload), parsed, start, config)
    {
      var malformed, offset;
      malformed, offset, parsed := ParseAndLearn(key, direction, payload);
      if malformed {
        result := QuicResult(MalformedFallback, 0);
      } else {
        result := JudgeShort(key, direction, payload, offset, start, config, parsed);
      }
    }

    method ParseAndLearn(key: FlowKey, direction: FlowDirection, payload: bytes)
      returns (malformed: bool, offset: nat, ghost parsed: Coalesced)
      modifies this
      ensures parsed == LongHeaders(payload, 0) && flows == LearnHeaders(old(flows), key, direction, parsed.headers)
      ensures malformed == parsed.malformed && offset == parsed.end <= |payload|
      ensures |parsed.headers| == 0 <==> offset == 0
    {
      ghost var d := Datagram(key, direction, payload);
      parsed := LongHeaders(payload, 0);
      StopsAtShortHeader(payload, 0, parsed);
      AbsorbLearns(flows, d, 0, parsed, Absorb(flows, d, 0));
      malformed, offset := TakeHeaders(key, direction, payload, d);
    }

    /** The loop: parses long headers and stores the source connection IDs they announce. */
    method TakeHeaders(key: FlowKey, direction: FlowDirection, payload: bytes, ghost d: Datagram)
      returns (malformed: bool, offset: nat)
      requires d == Datagram(key, direction, payload)
      modifies this
      ensures offset <= |payload| && Absorbed(flows, offset, malformed) == Absorb(old(flows), d, 0)
    {
      hide LongHeaderAt;
      malformed, offset := false, 0;
      while offset < |payload| && IsLongHeader(payload[offset])
        invariant offset <= |payload| && Absorb(flows, d, offset) == Absorb(old(flows), d, 0)
        decreases |payload| - offset
      {
        var header := ParseLongHeader(payload, offset);
        if header.None? {
          malformed := true;
          return;
        }
        var state := FlowAt(flows, key);
        if |header.value.scid| > 0 {
          if direction == AToB {
            state := state.(aScid := Some(header.value.scid));
          } else {
            state := state.(bScid := Some(header.value.scid));
          }
        }
        flows := flows[key := state];
        offset := offset + header.value.size;
      }
    }

    /** What comes after the long headers: nothing, a short header, or neither. */
    method JudgeShort(key: FlowKey, direction: FlowDirection, payload: bytes, offset: nat, start: nat,
                      config: QuicOptions, ghost parsed: Coalesced)
      returns (result: QuicResult)
      requires offset == parsed.end <= |payload| && !parsed.malformed && (|parsed.headers| == 0 <==> offset == 0)
      ensures result == ResultOf(ShapeAt(PeerScid(FlowAt(flows, key), direction), payload, parsed, config), start,
              |payload|, config)
    {
      var sawLong := offset > 0;
      if offset == |payload| {
        return QuicResult(if sawLong then LongHeaderSeen else NotApplicable, 0);
      }
      if !IsShortHeaderCompatible(payload[offset]) {
        return QuicResult(if sawLong then MalformedFallback else NotApplicable, 0);
      }
      var expected := if key !in flows then None else PeerScid(flows[key], direction);
      if expected.None? {
        if config.requireDcidMatch || !config.allowUnknownDcid {
          return QuicResult(UnknownCidFallback, 0);
        }
        var keepPayloadBytes := Max(config.keepShortHeaderBytes, 1);
        return QuicResult(ShortHeaderMatched, U32(start + offset + Min(|payload| - offset, keepPayloadBytes)));
      }
      var required := 1 + |expected.value|;
      if !HasBytes(payload, offset, required) {
        return QuicResult(MalformedFallback, 0);
      }
      if payload[offset + 1..offset + required] != expected.value {
        return QuicResult(DcidMismatchFallback, 0);
      }
      var keepPayloadBytes := Max(config.keepShortHeaderBytes, required);
      return QuicResult(ShortHeaderMatched, U32(start + offset + Min(|payload| - offset, keepPayloadBytes)));
    }
  }
}
