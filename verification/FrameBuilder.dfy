/** Frames built from their parts, and the round trip: decoding a built frame returns the parts.
    The layouts are those of IEEE 802.1Q tags, section 3.1 of RFC 791, section 3 of RFC 8200,
    section 3.1 of RFC 9293 and RFC 768; the numbers of EtherTypes, address families, protocols and
    IPv6 extension headers are written out here, not taken from the decoder. */
module FrameBuilder {
  import opened Bytes
  import opened PacketDecode
  import opened DecodeExtent

  // --------------------------------------------- link layer ---------------------------------------------

  datatype VlanTag = VlanTag(provider: bool, control: u16)

  /** How an IP datagram is framed: under two MAC addresses and a stack of VLAN tags, or under a DLT_NULL family. */
  datatype Framing = OnEthernet(addresses: bytes, tags: seq<VlanTag>) | OnNull(family: u32)
  {
    function Link(): LinkType {
      if OnNull? then Null else Ethernet
    }

    function HeaderLength(): nat {
      if OnNull? then 4 else 14 + 4 * |tags|
    }

    /** A DLT_NULL family must not be the other version's: 2 is that of IPv4, and 23 that of IPv6. */
    predicate Valid(version: IpVersion) {
      && version != NoIp
      && match this
         case OnEthernet(addresses, _) => |addresses| == 12
         case OnNull(family) => family != (if version == Ipv4 then 23 else 2)
    }

    function Fields(version: IpVersion): LinkFields {
      LinkFields(EtherType(version), if OnNull? then 0 else |tags| % 0x100, HeaderLength())
    }
  }

  function EtherType(version: IpVersion): u16 {
    if version == Ipv4 then 0x0800 else 0x86DD
  }

  function TagType(tag: VlanTag): u16 {
    if tag.provider then 0x88A8 else 0x8100
  }

  function TagBytes(tags: seq<VlanTag>, ethertype: u16): (data: bytes)
    ensures |data| == 2 + 4 * |tags|
  {
    if tags == [] then Be16(ethertype)
    else Be16(TagType(tags[0])) + Be16(tags[0].control) + TagBytes(tags[1..], ethertype)
  }

  function LinkBytes(framing: Framing, version: IpVersion): (data: bytes)
    requires framing.Valid(version)
    ensures |data| == framing.HeaderLength()
  {
    match framing
    case OnEthernet(addresses, tags) => addresses + TagBytes(tags, EtherType(version))
    case OnNull(family) => Le32(family)
  }

  function Frame(framing: Framing, version: IpVersion, datagram: bytes): bytes
    requires framing.Valid(version)
  {
    LinkBytes(framing, version) + datagram
  }

  lemma CountWraps(count: byte, more: nat)
    ensures ((count + 1) % 0x100 + more) % 0x100 == (count + more + 1) % 0x100
  {
  }

  /** The first tag of a stack, and where the rest of the stack lies. */
  lemma FirstTag(tags: seq<VlanTag>, ethertype: u16, packet: bytes, offset: nat)
    requires tags != [] && offset >= 2 && Holds(packet, offset - 2, TagBytes(tags, ethertype))
    ensures HasBytes(packet, offset, 4) && ReadBe16(packet, offset - 2) == TagType(tags[0])
    ensures Holds(packet, offset + 2, TagBytes(tags[1..], ethertype))
  {
    var head, rest := Be16(TagType(tags[0])) + Be16(tags[0].control), TagBytes(tags[1..], ethertype);
    HoldsSplit(packet, offset - 2, head, rest);
    HoldsSplit(packet, offset - 2, Be16(TagType(tags[0])), Be16(tags[0].control));
    ReadBe16Undoes(packet, offset - 2, TagType(tags[0]));
  }

  lemma {:induction false} PopsEveryTag(tags: seq<VlanTag>, ethertype: u16, link: LinkFields, packet: bytes,
                                        offset: nat)
    requires !IsVlanEthertype(ethertype) && offset >= 2
    requires Holds(packet, offset - 2, TagBytes(tags, ethertype))
    requires link.ethertype == ReadBe16(packet, offset - 2)
    ensures PopVlans(link, packet, offset)
         == LinkRead(LinkFields(ethertype, (link.vlanTagCount + |tags|) % 0x100, link.headerLength + 4 * |tags|),
                     offset + 4 * |tags|)
    decreases |tags|
  {
    if tags == [] {
      ReadBe16Undoes(packet, offset - 2, ethertype);
    } else {
      hide ReadBe16, Holds, TagBytes;
      FirstTag(tags, ethertype, packet, offset);
      CountWraps(link.vlanTagCount, |tags| - 1);
      var next := LinkFields(ReadBe16(packet, offset + 2), (link.vlanTagCount + 1) % 0x100, link.headerLength + 4);
      PopsEveryTag(tags[1..], ethertype, next, packet, offset + 4);
    }
  }

  lemma EthernetLink(addresses: bytes, tags: seq<VlanTag>, ethertype: u16, datagram: bytes)
    requires |addresses| == 12 && !IsVlanEthertype(ethertype)
    ensures ReadLink(addresses + TagBytes(tags, ethertype) + datagram, Ethernet)
         == LinkRead(LinkFields(ethertype, |tags| % 0x100, 14 + 4 * |tags|), 14 + 4 * |tags|)
  {
    hide ReadBe16;
    var data := TagBytes(tags, ethertype);
    var packet := addresses + data + datagram;
    assert packet[12..12 + |data|] == data;
    PopsEveryTag(tags, ethertype, LinkFields(ReadBe16(packet, 12), 0, 14), packet, 14);
  }

  /** A frame of any other EtherType decodes without failure and without layers above its link header. */
  lemma OtherFrameDecodes(addresses: bytes, tags: seq<VlanTag>, ethertype: u16, content: bytes)
    requires |addresses| == 12 && ethertype !in {0x0800, 0x86DD, 0x8100, 0x88A8}
    ensures Decode(addresses + TagBytes(tags, ethertype) + content, Ethernet) ==
            Decoded(true, NoFailure, LinkFields(ethertype, |tags| % 0x100, 14 + 4 * |tags|),
                    NetworkFields(NoIp, 0, 0, 0, Zeros(16), Zeros(16), 0),
                    TransportFields(NoTransport, 0, 0, 0, 0, 0, 0, 0, 0))
  {
    hide TagBytes, PopVlans;
    EthernetLink(addresses, tags, ethertype, content);
  }

  /** A packet shorter than its link header is refused for that, and nothing else is reported of it. */
  lemma TooShortDecodes(packet: bytes, link: LinkType)
    requires |packet| < if link == Null then 4 else 14
    ensures Decode(packet, link) ==
            Decoded(false, if link == Null then TruncatedNullHeader else TruncatedEthernetHeader, LinkFields(0, 0, 0),
                    NetworkFields(NoIp, 0, 0, 0, Zeros(16), Zeros(16), 0),
                    TransportFields(NoTransport, 0, 0, 0, 0, 0, 0, 0, 0))
  {
  }

  /** The decoder finds the datagram of every frame behind exactly the link header it was given. */
  lemma FrameLink(framing: Framing, version: IpVersion, datagram: bytes)
    requires framing.Valid(version) && ReadIp(version, datagram, 0).Read?
    ensures ReadLink(Frame(framing, version, datagram), framing.Link())
         == LinkRead(framing.Fields(version), framing.HeaderLength())
  {
    match framing
    case OnEthernet(addresses, tags) =>
      hide ReadLink, TagBytes, ReadIp;
      EthernetLink(addresses, tags, EtherType(version), datagram);
    case OnNull(family) =>
      var packet := Frame(framing, version, datagram);
      assert packet[0..4] == Le32(family);
      ReadLe32Undoes(packet, 0, family);
      assert packet[4] == datagram[0];
  }

  /** Decoding a framed datagram is reading the datagram by itself, then adding the link header. */
  lemma FrameDecodes(framing: Framing, version: IpVersion, datagram: bytes)
    requires framing.Valid(version)
    requires ReadIp(version, datagram, 0).Read? && ReadTransport(datagram, ReadIp(version, datagram, 0).value).Read?
    ensures var m := framing.HeaderLength();
            var ip := ReadIp(version, datagram, 0).value;
            && Decode(Frame(framing, version, datagram), framing.Link())
               == Decoded(true, NoFailure, framing.Fields(version), ip.fields.(headerOffset := m),
                          MoveTransport(ReadTransport(datagram, ip).value, m))
            && IpEnd(Frame(framing, version, datagram), framing.Link()) == m + ip.end
            && ip.fields.version == version && ip.end <= |datagram|
  {
    var packet, m := Frame(framing, version, datagram), framing.HeaderLength();
    var ip := ReadIp(version, datagram, 0).value;
    FrameLink(framing, version, datagram);
    IpShape(version, datagram, 0);
    TransportShape(datagram, ip);
    var blank := Linked(framing.Fields(version), framing.Link());
    DatagramMoves(version, datagram, 0, packet, m, EMPTY_DECODE, blank);
    Assembled(EMPTY_DECODE, datagram, ip);
    if version == Ipv4 { Ipv4Moves(datagram, 0, packet, m); } else { Ipv6Moves(datagram, 0, packet, m); }
  }

  // ------------------------------------------- transport layer ------------------------------------------

  /** `tail` is the window, checksum and urgent pointer. */
  datatype TcpParts = TcpParts(srcPort: u16, dstPort: u16, seq32: u32, ack: u32, reserved: byte, flags: byte,
                               tail: bytes, options: bytes)
  {
    predicate Valid() {
      reserved < 16 && |tail| == 6 && |options| % 4 == 0 && |options| <= 40
    }
  }

  datatype UdpParts = UdpParts(srcPort: u16, dstPort: u16, checksum: u16)

  function TcpBytes(parts: TcpParts, payload: bytes): bytes
    requires parts.Valid()
  {
    Be16(parts.srcPort) + Be16(parts.dstPort) + Be32(parts.seq32) + Be32(parts.ack) +
    [(5 + |parts.options| / 4) * 0x10 + parts.reserved, parts.flags] + parts.tail + parts.options + payload
  }

  function UdpBytes(parts: UdpParts, payload: bytes): bytes
    requires |payload| + 8 < 0x1_0000
  {
    Be16(parts.srcPort) + Be16(parts.dstPort) + Be16(8 + |payload|) + Be16(parts.checksum) + payload
  }

  lemma TcpReads(parts: TcpParts, payload: bytes)
    requires parts.Valid()
    ensures var data := TcpBytes(parts, payload);
            var header := 20 + |parts.options|;
            ReadTcp(data, 0, |data|) ==
            Read(TransportFields(Tcp, 0, header, header, |payload|,
                                 parts.srcPort, parts.dstPort, parts.seq32, parts.flags))
  {
    hide ReadBe16, ReadBe32;
    var data := TcpBytes(parts, payload);
    assert data[0..2] == Be16(parts.srcPort) && data[2..4] == Be16(parts.dstPort) && data[4..8] == Be32(parts.seq32);
    ReadBe16Undoes(data, 0, parts.srcPort);
    ReadBe16Undoes(data, 2, parts.dstPort);
    ReadBe32Undoes(data, 4, parts.seq32);
    assert data[12] == (5 + |parts.options| / 4) * 0x10 + parts.reserved && data[13] == parts.flags;
  }

  /** `slack` are octets of the datagram past the UDP length. */
  lemma UdpReads(parts: UdpParts, payload: bytes, slack: bytes)
    requires |payload| + 8 < 0x1_0000
    ensures var data := UdpBytes(parts, payload) + slack;
            ReadUdp(data, 0, |data|) ==
            Read(TransportFields(Udp, 0, 8, 8, |payload|, parts.srcPort, parts.dstPort, 0, 0))
  {
    hide ReadBe16;
    var data := UdpBytes(parts, payload) + slack;
    assert data[0..2] == Be16(parts.srcPort) && data[2..4] == Be16(parts.dstPort) && data[4..6] == Be16(8 + |payload|);
    ReadBe16Undoes(data, 0, parts.srcPort);
    ReadBe16Undoes(data, 2, parts.dstPort);
    ReadBe16Undoes(data, 4, 8 + |payload|);
  }

  /** What an IP datagram carries: a TCP segment, a UDP datagram, or what the decoder leaves unread. */
  datatype Body =
    | TcpBody(tcp: TcpParts, payload: bytes)
    | UdpBody(udp: UdpParts, payload: bytes, slack: bytes)
    | RawBody(protocol: byte, content: bytes)
  {
    predicate Valid() {
      match this
      case TcpBody(tcp, _) => tcp.Valid()
      case UdpBody(_, payload, _) => |payload| + 8 < 0x1_0000
      case RawBody(_, _) => true
    }

    function Protocol(): byte {
      match this
      case TcpBody(_, _) => 6
      case UdpBody(_, _, _) => 17
      case RawBody(protocol, _) => protocol
    }

    function Encode(): bytes
      requires Valid()
    {
      match this
      case TcpBody(tcp, payload) => TcpBytes(tcp, payload)
      case UdpBody(udp, payload, slack) => UdpBytes(udp, payload) + slack
      case RawBody(_, content) => content
    }

    /** What the decoder must report for this body when it starts at `offset`. */
    function Fields(offset: nat): TransportFields {
      match this
      case TcpBody(tcp, payload) =>
        var header := 20 + |tcp.options|;
        TransportFields(Tcp, offset, header, offset + header, |payload|, tcp.srcPort, tcp.dstPort, tcp.seq32, tcp.flags)
      case UdpBody(udp, payload, _) =>
        TransportFields(Udp, offset, 8, offset + 8, |payload|, udp.srcPort, udp.dstPort, 0, 0)
      case RawBody(_, _) => NO_TRANSPORT
    }
  }

  // -------------------------------------------- network layer -------------------------------------------

  /** The flags of an IPv4 header and its fragment offset, in units of eight octets. */
  datatype Fragmentation = Fragmentation(reserved: bool, dontFragment: bool, moreFragments: bool, offset: nat)
  {
    predicate Valid() {
      offset < 0x2000
    }

    /** The datagram is a fragment: not the last one of a larger datagram, or not the first. */
    predicate Fragmented() {
      moreFragments || offset != 0
    }

    function Field(): u16
      requires Valid()
    {
      (if reserved then 0x8000 else 0) + (if dontFragment then 0x4000 else 0) + (if moreFragments then 0x2000 else 0) +
      offset
    }
  }

  lemma FieldTells(f: Fragmentation)
    requires f.Valid()
    ensures IsFragment(f.Field()) <==> f.Fragmented()
  {
  }

  /** `head` is the version, traffic class and flow label. */
  datatype IpParts =
    | Ipv4Parts(service: byte, identification: u16, fragmentation: Fragmentation, ttl: byte, checksum: u16,
                src: bytes, dst: bytes, options: bytes)
    | Ipv6Parts(head: bytes, hopLimit: byte, src: bytes, dst: bytes)
  {
    predicate Valid() {
      match this
      case Ipv4Parts(_, _, fragmentation, _, _, src, dst, options) =>
        fragmentation.Valid() && |src| == |dst| == 4 && |options| % 4 == 0 && |options| <= 40
      case Ipv6Parts(head, _, src, dst) => |head| == 4 && head[0] / 0x10 == 6 && |src| == |dst| == 16
    }

    predicate Fragmented() {
      Ipv4Parts? && fragmentation.Fragmented()
    }

    /** The body is one the decoder takes in such a datagram: a fragment is left unread, and so is a protocol other
        than TCP and UDP, unless it is an IPv6 extension header, which is refused. */
    predicate Takes(body: Body) {
      match body
      case RawBody(protocol, _) =>
        && (Fragmented() || protocol !in {6, 17})
        && (Ipv6Parts? ==> protocol !in {0, 43, 44, 51, 60, 135, 139, 140})
      case _ => !Fragmented()
    }

    function Version(): IpVersion {
      if Ipv4Parts? then Ipv4 else Ipv6
    }

    function HeaderLength(): nat {
      if Ipv4Parts? then 20 + |options| else 40
    }

    predicate Fits(body: bytes) {
      (if Ipv4Parts? then HeaderLength() + |body| else |body|) < 0x1_0000
    }

    function Encode(protocol: byte, body: bytes): bytes
      requires Valid() && Fits(body)
    {
      match this
      case Ipv4Parts(service, identification, fragmentation, ttl, checksum, src, dst, options) =>
        [0x45 + |options| / 4, service] + Be16(20 + |options| + |body|) + Be16(identification) +
        Be16(fragmentation.Field()) + [ttl, protocol] + Be16(checksum) + src + dst + options + body
      case Ipv6Parts(head, hopLimit, src, dst) =>
        head + Be16(|body|) + [protocol, hopLimit] + src + dst + body
    }

    /** Addresses are reported in 16 octets, zero-padded. */
    function Fields(protocol: byte, offset: nat): NetworkFields
      requires Valid()
    {
      NetworkFields(Version(), protocol, offset, HeaderLength(),
                    src + Zeros(16 - |src|), dst + Zeros(16 - |dst|), |src|)
    }
  }

  lemma Ipv4Octets(parts: IpParts, protocol: byte, body: bytes)
    requires parts.Ipv4Parts? && parts.Valid() && parts.Fits(body)
    ensures var data := parts.Encode(protocol, body);
            && |data| == parts.HeaderLength() + |body| && data[parts.HeaderLength()..] == body
            && data[0] == 0x45 + |parts.options| / 4 && data[9] == protocol
            && data[2..4] == Be16(parts.HeaderLength() + |body|) && data[6..8] == Be16(parts.fragmentation.Field())
            && data[12..16] == parts.src && data[16..20] == parts.dst
  {
  }

  lemma Ipv4Reads(parts: IpParts, protocol: byte, body: bytes)
    requires parts.Ipv4Parts? && parts.Valid() && parts.Fits(body)
    ensures var data := parts.Encode(protocol, body);
            |data| == parts.HeaderLength() + |body| && data[parts.HeaderLength()..] == body &&
            ReadIpv4(data, 0) == Read(IpHeader(parts.Fields(protocol, 0), |data|, parts.Fragmented()))
  {
    hide IpParts.Encode, ReadBe16, IsFragment, Fragmentation.Field;
    var data := parts.Encode(protocol, body);
    Ipv4Octets(parts, protocol, body);
    ReadBe16Undoes(data, 2, parts.HeaderLength() + |body|);
    ReadBe16Undoes(data, 6, parts.fragmentation.Field());
    FieldTells(parts.fragmentation);
  }

  lemma Ipv6Reads(parts: IpParts, protocol: byte, body: bytes)
    requires parts.Ipv6Parts? && parts.Valid() && parts.Fits(body)
    ensures var data := parts.Encode(protocol, body);
            |data| == parts.HeaderLength() + |body| && data[parts.HeaderLength()..] == body &&
            ReadIpv6(data, 0) == Read(IpHeader(parts.Fields(protocol, 0), |data|, false))
  {
    var data := parts.Encode(protocol, body);
    assert data[4..6] == Be16(|body|);
    ReadBe16Undoes(data, 4, |body|);
    assert data[0] == parts.head[0] && data[6] == protocol;
    assert data[8..24] == parts.src && data[24..40] == parts.dst;
    assert parts.src + Zeros(0) == parts.src && parts.dst + Zeros(0) == parts.dst;
  }

  lemma HeaderReads(parts: IpParts, protocol: byte, body: bytes)
    requires parts.Valid() && parts.Fits(body)
    ensures var data := parts.Encode(protocol, body);
            && |data| == parts.HeaderLength() + |body| && SameFrom(body, 0, data, parts.HeaderLength(), |body|)
            && ReadIp(parts.Version(), data, 0) == Read(IpHeader(parts.Fields(protocol, 0), |data|, parts.Fragmented()))
  {
    var data, n := parts.Encode(protocol, body), parts.HeaderLength();
    if parts.Ipv4Parts? { Ipv4Reads(parts, protocol, body); } else { Ipv6Reads(parts, protocol, body); }
    forall i | 0 <= i < |body| ensures body[i] == data[i + n] {
      assert body[i] == data[n..][i];
    }
  }

  lemma BodyReads(body: Body, data: bytes, n: nat, parts: IpParts, ip: IpHeader)
    requires body.Valid() && parts.Takes(body) && SameFrom(body.Encode(), 0, data, n, |body.Encode()|)
    requires ip.fields.headerOffset == 0 && ip.fields.headerLength == n && ip.end == n + |body.Encode()|
    requires ip.fields.version == parts.Version() && ip.fields.protocol == body.Protocol() &&
             ip.fragment == parts.Fragmented()
    ensures ReadTransport(data, ip) == Read(body.Fields(n))
  {
    hide ReadTcp, ReadUdp, TcpBytes, UdpBytes;
    var segment := body.Encode();
    match body
    case TcpBody(tcp, payload) =>
      TcpReads(tcp, payload);
      TcpMoves(segment, 0, data, n, |segment|, 0);
    case UdpBody(udp, payload, slack) =>
      UdpReads(udp, payload, slack);
      UdpMoves(segment, 0, data, n, |segment|, 0);
    case RawBody(_, _) =>
  }

  /** A datagram reads back as its parts. */
  lemma DatagramReads(parts: IpParts, body: Body)
    requires parts.Valid() && body.Valid() && parts.Takes(body) && parts.Fits(body.Encode())
    ensures var data := parts.Encode(body.Protocol(), body.Encode());
            var ip := IpHeader(parts.Fields(body.Protocol(), 0), |data|, parts.Fragmented());
            && ReadIp(parts.Version(), data, 0) == Read(ip)
            && ReadTransport(data, ip) == Read(body.Fields(parts.HeaderLength()))
  {
    hide ReadIp, ReadTransport;
    var data := parts.Encode(body.Protocol(), body.Encode());
    HeaderReads(parts, body.Protocol(), body.Encode());
    BodyReads(body, data, parts.HeaderLength(), parts, IpHeader(parts.Fields(body.Protocol(), 0), |data|,
        parts.Fragmented()));
  }

  /** Decoding the built frame returns exactly what it was built from. */
  lemma FrameRoundTrip(framing: Framing, parts: IpParts, body: Body)
    requires parts.Valid() && body.Valid() && parts.Takes(body) && parts.Fits(body.Encode())
    requires framing.Valid(parts.Version())
    ensures var m := framing.HeaderLength();
            var packet := Frame(framing, parts.Version(), parts.Encode(body.Protocol(), body.Encode()));
            && Decode(packet, framing.Link()) ==
               Decoded(true, NoFailure, framing.Fields(parts.Version()), parts.Fields(body.Protocol(), m),
                       body.Fields(m + parts.HeaderLength()))
            && IpEnd(packet, framing.Link()) == |packet|
  {
    hide Frame, ReadIp, ReadTransport, IpEnd, Decode;
    DatagramReads(parts, body);
    FrameDecodes(framing, parts.Version(), parts.Encode(body.Protocol(), body.Encode()));
    FrameSize(framing, parts.Version(), parts.Encode(body.Protocol(), body.Encode()));
  }

  lemma FrameSize(framing: Framing, version: IpVersion, datagram: bytes)
    requires framing.Valid(version)
    ensures |Frame(framing, version, datagram)| == framing.HeaderLength() + |datagram|
  {
  }
}
