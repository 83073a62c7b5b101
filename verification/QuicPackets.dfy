/** QUIC packets: variable-length integers (section 16 of RFC 9000), long headers (section 17.2) and the datagrams
    they are coalesced into (section 12.2), read and written. */
module QuicPackets {
  import opened Bytes

  const MAX_CONNECTION_ID: nat := 20

  /** Bit 0x80 of the first octet is set. */
  predicate IsLongHeader(first: byte) {
    first >= 0x80
  }

  /** Bit 0x80 is clear and bit 0x40 set. */
  predicate IsShortHeaderCompatible(first: byte) {
    0x40 <= first < 0x80
  }

  // ------------------------------------------ reading ------------------------------------------

  function VarintLength(first: byte): nat {
    match first / 0x40
    case 0 => 1
    case 1 => 2
    case 2 => 4
    case _ => 8
  }

  /** `value` continued, most significant octet first, by the octets of `data` in [from, end). */
  function Append(data: bytes, from: nat, end: nat, value: nat): nat
    requires from <= end <= |data|
    decreases end - from
  {
    if from == end then value else Append(data, from + 1, end, value * 0x100 + data[from])
  }

  /** The value of the integer at `offset` and the offset after it. */
  datatype IntRead = NoInt | Int(value: nat, next: nat)

  function Varint(data: bytes, offset: nat): IntRead {
    if !HasBytes(data, offset, 1) then NoInt
    else
      var length := VarintLength(data[offset]);
      if !HasBytes(data, offset, length) then NoInt
      else Int(Append(data, offset + 1, offset + length, data[offset] % 0x40), offset + length)
  }

  method ReadVarint(data: bytes, offset: nat) returns (result: IntRead)
    ensures result == Varint(data, offset)
  {
    if !HasBytes(data, offset, 1) {
      return NoInt;
    }
    var length := VarintLength(data[offset]);
    if !HasBytes(data, offset, length) {
      return NoInt;
    }
    var value: nat := data[offset] % 0x40;
    var index := 1;
    while index < length
      invariant 1 <= index <= length
      invariant Append(data, offset + index, offset + length, value)
             == Append(data, offset + 1, offset + length, data[offset] % 0x40)
    {
      value := value * 0x100 + data[offset + index];
      index := index + 1;
    }
    return Int(value, offset + length);
  }

  /** A connection ID and the offset after it. */
  datatype IdRead = NoId | Id(id: bytes, next: nat)

  function ConnectionIdAt(data: bytes, offset: nat): IdRead {
    if !HasBytes(data, offset, 1) then NoId
    else
      var length := data[offset];
      if length > MAX_CONNECTION_ID || !HasBytes(data, offset + 1, length) then NoId
      else Id(data[offset + 1..offset + 1 + length], offset + 1 + length)
  }

  /** The offset after a length-prefixed field. */
  function SkipCounted(data: bytes, offset: nat): (next: Option<nat>)
    ensures next.Some? ==> offset < next.value <= |data|
  {
    match Varint(data, offset)
    case NoInt => None
    case Int(length, start) =>
      if length > |data| || !HasBytes(data, start, length) then None else Some(start + length)
  }

  datatype LongHeader = LongHeader(size: nat, packetType: byte, version: u32, dcid: bytes, scid: bytes)

  const INITIAL: byte := 0
  const RETRY: byte := 3

  function PacketType(first: byte): byte {
    first / 0x10 % 4
  }

  /** The part of a long header all types share, and the offset after it. */
  datatype Invariant = Invariant(packetType: byte, version: u32, dcid: bytes, scid: bytes, next: nat)

  function InvariantAt(payload: bytes, start: nat): (header: Option<Invariant>)
    ensures header.Some? ==> start + 7 <= header.value.next <= |payload| && IsLongHeader(payload[start])
  {
    if !HasBytes(payload, start, 7) || !IsLongHeader(payload[start]) || ReadBe32(payload, start + 1) == 0 then None
    else
      match ConnectionIdAt(payload, start + 5)
      case NoId => None
      case Id(dcid, afterDcid) =>
        match ConnectionIdAt(payload, afterDcid)
        case NoId => None
        case Id(scid, afterScid) =>
          Some(Invariant(PacketType(payload[start]), ReadBe32(payload, start + 1), dcid, scid, afterScid))
  }

  /** Where a packet ends whose type-specific part starts at `offset`: an Initial packet has a token before its length,
      and a Retry packet extends to the end of the datagram. */
  function PacketEnd(payload: bytes, packetType: byte, offset: nat): (end: Option<nat>)
    ensures end.Some? && offset <= |payload| ==> offset <= end.value <= |payload|
  {
    if packetType == RETRY then Some(|payload|)
    else if packetType == INITIAL then
      match SkipCounted(payload, offset)
      case None => None
      case Some(afterToken) => SkipCounted(payload, afterToken)
    else
      SkipCounted(payload, offset)
  }

  /** The long header at `start`; every successful parse consumes at least 7 bytes of the payload. */
  function LongHeaderAt(payload: bytes, start: nat): (header: Option<LongHeader>)
    ensures header.Some? ==> 7 <= header.value.size <= |payload| - start && IsLongHeader(payload[start])
  {
    match InvariantAt(payload, start)
    case None => None
    case Some(h) =>
      match PacketEnd(payload, h.packetType, h.next)
      case None => None
      case Some(end) => Some(LongHeader(end - start, h.packetType, h.version, h.dcid, h.scid))
  }

  method ParseLongHeader(payload: bytes, start: nat) returns (header: Option<LongHeader>)
    ensures header == LongHeaderAt(payload, start)
  {
    header := None;
    if !HasBytes(payload, start, 7) {
      return;
    }
    var first := payload[start];
    if !IsLongHeader(first) {
      return;
    }
    var packetType, version := PacketType(first), ReadBe32(payload, start + 1);
    if version == 0 {
      return;
    }
    var dcid := ConnectionIdAt(payload, start + 5);
    if dcid.NoId? {
      return;
    }
    var scid := ConnectionIdAt(payload, dcid.next);
    if scid.NoId? {
      return;
    }
    var offset := scid.next;
    if packetType == INITIAL {
      var token := ReadVarint(payload, offset);
      if token.NoInt? || token.value > |payload| || !HasBytes(payload, token.next, token.value) {
        return;
      }
      offset := token.next + token.value;
    } else if packetType == RETRY {
      return Some(LongHeader(|payload| - start, packetType, version, dcid.id, scid.id));
    }
    var length := ReadVarint(payload, offset);
    if length.NoInt? {
      return;
    }
    if length.value > |payload| || !HasBytes(payload, length.next, length.value) {
      return;
    }
    return Some(LongHeader(length.next + length.value - start, packetType, version, dcid.id, scid.id));
  }

  /** The long-header packets at the front of a datagram, where they end, and whether one could not be parsed. */
  datatype Coalesced = Coalesced(headers: seq<LongHeader>, end: nat, malformed: bool)

  function LongHeaders(payload: bytes, offset: nat): (parsed: Coalesced)
    requires offset <= |payload|
    ensures offset <= parsed.end <= |payload|
    decreases |payload| - offset
  {
    if offset == |payload| || !IsLongHeader(payload[offset]) then Coalesced([], offset, false)
    else
      match LongHeaderAt(payload, offset)
      case None => Coalesced([], offset, true)
      case Some(header) =>
        var rest := LongHeaders(payload, offset + header.size);
        Coalesced([header] + rest.headers, rest.end, rest.malformed)
  }

  /** A parse without fault stops at the end of the datagram or at a packet with a short header, and moves only by
      parsing headers. */
  lemma {:induction false} StopsAtShortHeader(payload: bytes, offset: nat, parsed: Coalesced)
    requires offset <= |payload| && parsed == LongHeaders(payload, offset)
    ensures |parsed.headers| == 0 <==> parsed.end == offset
    ensures parsed.malformed || parsed.end == |payload| || !IsLongHeader(payload[parsed.end])
    decreases |payload| - offset
  {
    hide LongHeaderAt;
    if offset < |payload| && IsLongHeader(payload[offset]) {
      match LongHeaderAt(payload, offset)
      case None =>
      case Some(header) =>
        StopsAtShortHeader(payload, offset + header.size, LongHeaders(payload, offset + header.size));
    }
  }

  // ------------------------------------------ writing ------------------------------------------

  /** The four encodings of an integer: in 1, 2, 4 or 8 octets. */
  datatype Form = Octets1 | Octets2 | Octets4 | Octets8
  {
    function Mark(): byte {
      match this
      case Octets1 => 0x00
      case Octets2 => 0x40
      case Octets4 => 0x80
      case Octets8 => 0xC0
    }

    /** The weight of the first octet. */
    function Weight(): nat {
      match this
      case Octets1 => 1
      case Octets2 => 0x100
      case Octets4 => 0x100_0000
      case Octets8 => 0x100_0000_0000_0000
    }

    function Tail(): nat {
      match this
      case Octets1 => 0
      case Octets2 => 1
      case Octets4 => 3
      case Octets8 => 7
    }

    predicate Fits(value: nat) {
      value < 0x40 * Weight()
    }
  }

  function ToBigEndian(value: nat, count: nat): (octets: bytes)
    ensures |octets| == count
  {
    if count == 0 then [] else ToBigEndian(value / 0x100, count - 1) + [value % 0x100]
  }

  function EncodeVarint(value: nat, form: Form): bytes
    requires form.Fits(value)
  {
    FirstOctet(value, form);
    [form.Mark() + value / form.Weight()] + ToBigEndian(value % form.Weight(), form.Tail())
  }

  lemma FirstOctet(value: nat, form: Form)
    requires form.Fits(value)
    ensures 0 <= value / form.Weight() < 0x40
    ensures value / form.Weight() * form.Weight() + value % form.Weight() == value
    ensures value % form.Weight() < form.Weight()
  {
    match form
    case Octets1 =>
    case Octets2 =>
    case Octets4 =>
    case Octets8 =>
  }

  function Pow256(n: nat): nat {
    if n == 0 then 1 else 0x100 * Pow256(n - 1)
  }

  /** Appending the octets of a number below 256^count to another weighs the latter by 256^count. */
  lemma {:induction false} AppendUndoes(data: bytes, offset: nat, head: nat, value: nat, count: nat)
    requires value < Pow256(count) && Holds(data, offset, ToBigEndian(value, count))
    ensures Append(data, offset, offset + count, head) == head * Pow256(count) + value
    decreases count
  {
    if count > 0 {
      var init := ToBigEndian(value / 0x100, count - 1);
      HoldsSplit(data, offset, init, [value % 0x100]);
      AppendUndoes(data, offset, head, value / 0x100, count - 1);
      AppendLast(data, offset, offset + count, head);
      assert [value % 0x100][0] == data[offset + count - 1];
      assert head * Pow256(count) == 0x100 * (head * Pow256(count - 1));
    }
  }

  lemma {:induction false} AppendLast(data: bytes, from: nat, end: nat, value: nat)
    requires from < end <= |data|
    ensures Append(data, from, end, value) == Append(data, from, end - 1, value) * 0x100 + data[end - 1]
    decreases end - from
  {
    if from + 1 < end {
      AppendLast(data, from + 1, end, value * 0x100 + data[from]);
    }
  }

  lemma {:induction false} AppendBound(data: bytes, from: nat, end: nat, value: nat)
    requires from <= end <= |data|
    ensures Append(data, from, end, value) < (value + 1) * Pow256(end - from)
    decreases end - from
  {
    if from < end {
      AppendBound(data, from + 1, end, value * 0x100 + data[from]);
      ScaleBound(value, data[from], Pow256(end - from - 1));
    }
  }

  lemma ScaleBound(value: nat, octet: byte, weight: nat)
    ensures (value * 0x100 + octet + 1) * weight <= (value + 1) * (0x100 * weight)
  {
    var gap: nat := 0xFF - octet;
    assert (value + 1) * (0x100 * weight) == (value * 0x100 + octet + 1) * weight + gap * weight;
  }

  lemma WeightIsPow(form: Form)
    ensures Pow256(form.Tail()) == form.Weight()
  {
    assert Pow256(1) == 0x100 && Pow256(2) == 0x1_0000 && Pow256(3) == 0x100_0000;
    assert Pow256(4) == 0x1_0000_0000 && Pow256(5) == 0x100_0000_0000;
    assert Pow256(6) == 0x1_0000_0000_0000 && Pow256(7) == 0x100_0000_0000_0000;
  }

  /** Reading undoes every encoding of every value it fits. */
  lemma VarintUndoes(data: bytes, offset: nat, value: nat, form: Form)
    requires form.Fits(value) && Holds(data, offset, EncodeVarint(value, form))
    ensures Varint(data, offset) == Int(value, offset + 1 + form.Tail())
  {
    FirstOctet(value, form);
    WeightIsPow(form);
    var head := value / form.Weight();
    HoldsSplit(data, offset, [form.Mark() + head], ToBigEndian(value % form.Weight(), form.Tail()));
    assert [form.Mark() + head][0] == data[offset];
    AppendUndoes(data, offset + 1, head, value % form.Weight(), form.Tail());
  }

  /** A value read is below 2^62, so the source's 64-bit accumulator never wraps. */
  lemma VarintRange(data: bytes, offset: nat)
    requires Varint(data, offset).Int?
    ensures Varint(data, offset).value < 0x4000_0000_0000_0000
  {
    var length := VarintLength(data[offset]);
    AppendBound(data, offset + 1, offset + length, data[offset] % 0x40);
    WeightIsPow(Octets1);
    WeightIsPow(Octets2);
    WeightIsPow(Octets4);
    WeightIsPow(Octets8);
    var weight := Pow256(length - 1);
    assert weight in {1, 0x100, 0x100_0000, 0x100_0000_0000_0000};
    assert (data[offset] % 0x40 + 1) * weight <= 0x40 * weight;
  }

  /** `code` is one of the encodings of `value`. */
  ghost predicate Spells(code: bytes, value: nat) {
    exists form: Form | form.Fits(value) :: code == EncodeVarint(value, form)
  }

  /** A long-header packet: its fixed bit, its type and the low bits of its first octet, of which the recorder reads
      the type alone. `token` is that of an Initial packet; `body` is what follows the header. Their lengths can be
      encoded in any form that fits. The types and the limits are those of section 17.2 of RFC 9000. */
  datatype Packet = Packet(fixed: bool, packetType: byte, low: byte, version: u32, dcid: bytes, scid: bytes,
                           tokenLength: bytes, token: bytes, bodyLength: bytes, body: bytes)
  {
    ghost predicate Valid() {
      && packetType < 4 && low < 16 && version != 0 && |dcid| <= 20 && |scid| <= 20
      && (IsInitial() ==> Spells(tokenLength, |token|))
      && (!IsRetry() ==> Spells(bodyLength, |body|))
    }

    predicate IsInitial() {
      packetType == 0
    }

    predicate IsRetry() {
      packetType == 3
    }

    /** The form bit, the fixed bit, two bits of type, and four more. */
    function First(): byte {
      0x80 + (if fixed then 0x40 else 0) + packetType % 4 * 0x10 + low % 0x10
    }

    function Prefix(): (data: bytes)
      ensures |data| == 7 + |dcid| + |scid|
    {
      ([First()] + Be32(version)) + ([|dcid| % 0x100] + dcid) + ([|scid| % 0x100] + scid)
    }

    function Suffix(): bytes {
      if IsRetry() then body
      else if IsInitial() then (tokenLength + token) + (bodyLength + body)
      else bodyLength + body
    }

    function Encode(): bytes
    {
      Prefix() + Suffix()
    }

    /** What the recorder must learn from this packet. */
    function Header(): LongHeader
    {
      LongHeader(|Encode()|, packetType, version, dcid, scid)
    }
  }

  lemma FirstTells(p: Packet)
    requires p.Valid()
    ensures IsLongHeader(p.First()) && PacketType(p.First()) == p.packetType
  {
  }

  lemma ConnectionIdUndoes(data: bytes, offset: nat, id: bytes)
    requires |id| <= MAX_CONNECTION_ID && Holds(data, offset, [|id|] + id)
    ensures ConnectionIdAt(data, offset) == Id(id, offset + 1 + |id|)
  {
    HoldsSplit(data, offset, [|id|], id);
    assert [|id|][0] == data[offset] && data[offset + 1..offset + 1 + |id|] == id;
  }

  lemma SkipUndoes(data: bytes, offset: nat, code: bytes, content: bytes)
    requires Spells(code, |content|) && Holds(data, offset, code + content)
    ensures SkipCounted(data, offset) == Some(offset + |code + content|)
  {
    HoldsSplit(data, offset, code, content);
    var form: Form :| form.Fits(|content|) && code == EncodeVarint(|content|, form);
    VarintUndoes(data, offset, |content|, form);
  }

  lemma PrefixReads(p: Packet, payload: bytes, offset: nat)
    requires p.Valid() && Holds(payload, offset, p.Prefix())
    ensures HasBytes(payload, offset, 7) && payload[offset] == p.First() && ReadBe32(payload, offset + 1) == p.version
    ensures ConnectionIdAt(payload, offset + 5) == Id(p.dcid, offset + 6 + |p.dcid|)
    ensures ConnectionIdAt(payload, offset + 6 + |p.dcid|) == Id(p.scid, offset + |p.Prefix()|)
  {
    hide Packet.First;
    var head, dcid, scid := [p.First()] + Be32(p.version), [|p.dcid|] + p.dcid, [|p.scid|] + p.scid;
    HoldsSplit(payload, offset, head + dcid, scid);
    HoldsSplit(payload, offset, head, dcid);
    HoldsSplit(payload, offset, [p.First()], Be32(p.version));
    assert [p.First()][0] == payload[offset];
    ReadBe32Undoes(payload, offset + 1, p.version);
    ConnectionIdUndoes(payload, offset + 5, p.dcid);
    ConnectionIdUndoes(payload, offset + 6 + |p.dcid|, p.scid);
  }

  lemma PacketEndUndoes(p: Packet, payload: bytes, offset: nat, end: Option<nat>)
    requires p.Valid() && Holds(payload, offset, p.Suffix())
    requires p.IsRetry() ==> offset + |p.Suffix()| == |payload|
    requires end == PacketEnd(payload, p.packetType, offset)
    ensures end == Some(offset + |p.Suffix()|)
  {
    if p.IsInitial() {
      HoldsSplit(payload, offset, p.tokenLength + p.token, p.bodyLength + p.body);
      SkipUndoes(payload, offset, p.tokenLength, p.token);
      SkipUndoes(payload, offset + |p.tokenLength + p.token|, p.bodyLength, p.body);
    } else if !p.IsRetry() {
      SkipUndoes(payload, offset, p.bodyLength, p.body);
    }
  }

  lemma InvariantUndoes(p: Packet, payload: bytes, offset: nat, header: Option<Invariant>)
    requires p.Valid() && Holds(payload, offset, p.Prefix()) && header == InvariantAt(payload, offset)
    ensures header == Some(Invariant(p.packetType, p.version, p.dcid, p.scid, offset + |p.Prefix()|))
  {
    hide Packet.First, IsLongHeader, PacketType;
    PrefixReads(p, payload, offset);
    FirstTells(p);
  }

  lemma HeaderFromParts(payload: bytes, offset: nat, inv: Option<Invariant>, end: Option<nat>,
                        header: Option<LongHeader>)
    requires inv == InvariantAt(payload, offset) && inv.Some?
    requires end == PacketEnd(payload, inv.value.packetType, inv.value.next)
    requires end.Some? && header == LongHeaderAt(payload, offset)
    ensures header == Some(LongHeader(end.value - offset, inv.value.packetType, inv.value.version,
                                      inv.value.dcid, inv.value.scid))
  {
  }

  /** Parsing undoes serialising; a Retry packet extends to the end of the datagram. */
  lemma LongHeaderUndoes(p: Packet, payload: bytes, offset: nat, header: Option<LongHeader>)
    requires p.Valid() && Holds(payload, offset, p.Encode())
    requires p.IsRetry() ==> offset + |p.Encode()| == |payload|
    requires header == LongHeaderAt(payload, offset)
    ensures header == Some(p.Header())
  {
    HoldsSplit(payload, offset, p.Prefix(), p.Suffix());
    var inv := InvariantAt(payload, offset);
    InvariantUndoes(p, payload, offset, inv);
    var end := PacketEnd(payload, inv.value.packetType, inv.value.next);
    PacketEndUndoes(p, payload, inv.value.next, end);
    HeaderFromParts(payload, offset, inv, end, header);
  }

  function EncodeAll(packets: seq<Packet>): bytes {
    if packets == [] then [] else packets[0].Encode() + EncodeAll(packets[1..])
  }

  /** Long-header packets, a Retry only as the very last thing, and then nothing or what starts no long header. */
  ghost predicate ValidDatagram(packets: seq<Packet>, tail: bytes) {
    && (forall p | p in packets :: p.Valid())
    && (forall i | 0 <= i < |packets| && packets[i].IsRetry() :: i == |packets| - 1 && tail == [])
    && (tail != [] ==> tail[0] < 0x80)
  }

  lemma {:induction false} EncodeAllAt(packets: seq<Packet>, i: nat)
    requires i < |packets|
    ensures EncodeAll(packets) == EncodeAll(packets[..i]) + (packets[i].Encode() + EncodeAll(packets[i + 1..]))
    ensures |EncodeAll(packets[..i + 1])| == |EncodeAll(packets[..i])| + |packets[i].Encode()|
  {
    if i > 0 {
      var rest := packets[1..];
      EncodeAllAt(rest, i - 1);
      assert packets[..i][1..] == rest[..i - 1] && packets[..i + 1][1..] == rest[..i];
      assert packets[i] == rest[i - 1] && packets[i + 1..] == rest[i..];
      Associative(packets[0].Encode(), EncodeAll(rest[..i - 1]), packets[i].Encode() + EncodeAll(packets[i + 1..]));
    } else {
      assert packets[..1][1..] == [] && packets[..0] == [];
    }
  }

  lemma HoldsMiddle(a: bytes, b: bytes, c: bytes)
    ensures Holds(a + (b + c), |a|, b)
  {
    assert Holds(a + (b + c), |a|, b + c);
    HoldsSplit(a + (b + c), |a|, b, c);
  }

  lemma HoldsAppend(a: bytes, offset: nat, b: bytes, tail: bytes)
    requires Holds(a, offset, b)
    ensures Holds(a + tail, offset, b)
  {
  }

  /** Each packet of the datagram parses where it lies. */
  lemma PacketParses(packets: seq<Packet>, tail: bytes, payload: bytes, i: nat, start: nat)
    requires ValidDatagram(packets, tail) && i < |packets|
    requires payload == EncodeAll(packets) + tail && start == |EncodeAll(packets[..i])|
    ensures start <= |payload| && LongHeaderAt(payload, start) == Some(packets[i].Header())
    ensures start + packets[i].Header().size == |EncodeAll(packets[..i + 1])| <= |EncodeAll(packets)|
  {
    var p := packets[i];
    assert p in packets;
    EncodeAllAt(packets, i);
    HoldsMiddle(EncodeAll(packets[..i]), p.Encode(), EncodeAll(packets[i + 1..]));
    HoldsAppend(EncodeAll(packets), start, p.Encode(), tail);
    assert p.IsRetry() ==> packets[i + 1..] == [];
    LongHeaderUndoes(p, payload, start, LongHeaderAt(payload, start));
  }

  /** Headers that parse one after another, up to the end of the payload or a short header, are what the loop finds. */
  lemma {:induction false} ChainIsLongHeaders(headers: seq<LongHeader>, starts: seq<nat>, payload: bytes, i: nat,
      parsed: Coalesced)
    requires |starts| == |headers| + 1 && i <= |headers|
    requires forall j | 0 <= j < |headers| ::
               starts[j] <= |payload| && LongHeaderAt(payload, starts[j]) == Some(headers[j]) &&
                   starts[j + 1] == starts[j] + headers[j].size
    requires || starts[|headers|] == |payload|
             || (starts[|headers|] < |payload| && !IsLongHeader(payload[starts[|headers|]]))
    requires starts[i] <= |payload| && parsed == LongHeaders(payload, starts[i])
    ensures parsed == Coalesced(headers[i..], starts[|headers|], false)
    decreases |headers| - i
  {
    if i < |headers| {
      var next := LongHeaders(payload, starts[i + 1]);
      OneMore(payload, starts[i], LongHeaderAt(payload, starts[i]), headers[i], starts[i + 1], parsed, next);
      ChainIsLongHeaders(headers, starts, payload, i + 1, next);
    }
  }

  /** The loop finds exactly the packets a datagram was coalesced from, and stops where they end. */
  lemma CoalescedUndoes(packets: seq<Packet>, tail: bytes)
    requires ValidDatagram(packets, tail)
    ensures LongHeaders(EncodeAll(packets) + tail, 0)
         == Coalesced(seq(|packets|, i requires 0 <= i < |packets| => packets[i].Header()), |EncodeAll(packets)|, false)
  {
    var payload, n := EncodeAll(packets) + tail, |packets|;
    var headers := seq(n, i requires 0 <= i < n => packets[i].Header());
    var starts := seq(n + 1, i requires 0 <= i <= n => |EncodeAll(packets[..i])|);
    forall j | 0 <= j < n
      ensures starts[j] <= |payload| && LongHeaderAt(payload, starts[j]) == Some(headers[j]) &&
              starts[j + 1] == starts[j] + headers[j].size
    {
      PacketParses(packets, tail, payload, j, starts[j]);
    }
    assert packets[..n] == packets;
    assert tail != [] ==> payload[|EncodeAll(packets)|] == tail[0];
    ChainIsLongHeaders(headers, starts, payload, 0, LongHeaders(payload, 0));
    assert headers[0..] == headers;
  }

  lemma OneMore(payload: bytes, offset: nat, header: Option<LongHeader>, h: LongHeader, end: nat, parsed: Coalesced,
      next: Coalesced)
    requires header == LongHeaderAt(payload, offset) && header == Some(h)
    requires offset <= end == offset + h.size <= |payload|
    requires parsed == LongHeaders(payload, offset) && next == LongHeaders(payload, end)
    ensures parsed == Coalesced([h] + next.headers, next.end, next.malformed)
  {
    hide LongHeaderAt;
  }
}
