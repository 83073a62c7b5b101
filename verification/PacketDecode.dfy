/** The packet decoder: Ethernet with a VLAN stack or DLT_NULL, then IPv4 or IPv6, then TCP or UDP. */
module PacketDecode {
  import opened Bytes

  datatype LinkType = Null | Ethernet
  datatype IpVersion = NoIp | Ipv4 | Ipv6
  datatype Transport = NoTransport | Tcp | Udp

  datatype Failure =
    | NoFailure
    | TruncatedNullHeader
    | UnsupportedNullFamily
    | TruncatedEthernetHeader
    | TruncatedVlanTag
    | TruncatedIpv4Header
    | InvalidIpv4Ihl
    | InvalidIpv4TotalLength
    | TruncatedIpv4Packet
    | TruncatedIpv6Header
    | TruncatedIpv6Packet
    | UnsupportedIpv6ExtensionHeaders
    | TruncatedTcpHeader
    | InvalidTcpDataOffset
    | TruncatedUdpHeader
    | InvalidUdpLength
    | TruncatedUdpPayload

  datatype LinkFields = LinkFields(ethertype: u16, vlanTagCount: byte, headerLength: nat)

  datatype NetworkFields = NetworkFields(
    version: IpVersion,
    protocol: byte,
    headerOffset: nat,
    headerLength: nat,
    srcAddress: bytes,
    dstAddress: bytes,
    addressLength: byte)

  datatype TransportFields = TransportFields(
    protocol: Transport,
    headerOffset: nat,
    headerLength: nat,
    payloadOffset: nat,
    payloadLength: nat,
    srcPort: u16,
    dstPort: u16,
    tcpSeq: u32,
    tcpFlags: byte)

  /** The decode result, its fields grouped by layer. */
  datatype Decoded = Decoded(
    success: bool,
    failure: Failure,
    link: LinkFields,
    network: NetworkFields,
    transport: TransportFields)
  {
    predicate IsNonIp() {
      success && network.version == NoIp
    }

    function Fail(reason: Failure): Decoded {
      this.(success := false, failure := reason)
    }
  }

  const ETHERTYPE_VLAN: u16 := 0x8100
  const ETHERTYPE_PROVIDER_BRIDGE: u16 := 0x88A8
  const ETHERTYPE_IPV4: u16 := 0x0800
  const ETHERTYPE_IPV6: u16 := 0x86DD
  const WINDOWS_AF_INET: u32 := 2
  const WINDOWS_AF_INET6: u32 := 23
  const PROTOCOL_TCP: byte := 6
  const PROTOCOL_UDP: byte := 17
  const ADDRESS_SIZE: nat := 16

  function Zeros(count: nat): (zeros: bytes)
    ensures |zeros| == count
  {
    seq(count, _ => 0)
  }

  const NO_LINK := LinkFields(0, 0, 0)
  const NO_NETWORK := NetworkFields(NoIp, 0, 0, 0, Zeros(ADDRESS_SIZE), Zeros(ADDRESS_SIZE), 0)
  const NO_TRANSPORT := TransportFields(NoTransport, 0, 0, 0, 0, 0, 0, 0, 0)
  const EMPTY_DECODE := Decoded(false, NoFailure, NO_LINK, NO_NETWORK, NO_TRANSPORT)

  predicate IsVlanEthertype(ethertype: u16) {
    ethertype == ETHERTYPE_VLAN || ethertype == ETHERTYPE_PROVIDER_BRIDGE
  }

  /** Hop-by-hop, routing, fragment, authentication, destination options, mobility, HIP, Shim6. */
  predicate IsUnsupportedIpv6Extension(nextHeader: byte) {
    nextHeader in {0, 43, 44, 51, 60, 135, 139, 140}
  }

  /** An address as the decoder stores it: 16 octets, the unused ones zero. */
  function CopyAddress(packet: bytes, offset: nat, length: nat): bytes
    requires HasBytes(packet, offset, length) && length <= ADDRESS_SIZE
  {
    packet[offset..offset + length] + Zeros(ADDRESS_SIZE - length)
  }

  // ---------------------------------------------------------------------------------------------
  // What a decode means, layer by layer: a header is either refused for a reason or read.
  // ---------------------------------------------------------------------------------------------

  datatype Outcome<+T> = Refused(reason: Failure) | Read(value: T)

  function ReadTcp(packet: bytes, offset: nat, end: nat): Outcome<TransportFields> {
    if !HasBytes(packet, offset, 20) || offset + 20 > end then
      Refused(TruncatedTcpHeader)
    else
      var headerLength := packet[offset + 12] / 0x10 * 4;
      if headerLength < 20 then
        Refused(InvalidTcpDataOffset)
      else if !HasBytes(packet, offset, headerLength) || offset + headerLength > end then
        Refused(TruncatedTcpHeader)
      else
        Read(TransportFields(Tcp, offset, headerLength, offset + headerLength, end - (offset + headerLength),
                             ReadBe16(packet, offset), ReadBe16(packet, offset + 2),
                             ReadBe32(packet, offset + 4), packet[offset + 13]))
  }

  function ReadUdp(packet: bytes, offset: nat, end: nat): Outcome<TransportFields> {
    if !HasBytes(packet, offset, 8) || offset + 8 > end then
      Refused(TruncatedUdpHeader)
    else
      var length := ReadBe16(packet, offset + 4);
      if length < 8 then
        Refused(InvalidUdpLength)
      else if offset + length > end then
        Refused(TruncatedUdpPayload)
      else
        Read(TransportFields(Udp, offset, 8, offset + 8, length - 8,
                             ReadBe16(packet, offset), ReadBe16(packet, offset + 2), 0, 0))
  }

  /** An IP header: its fields, where its datagram ends, and whether it is an IPv4 fragment. */
  datatype IpHeader = IpHeader(fields: NetworkFields, end: nat, fragment: bool)

  function ReadIpv4(packet: bytes, offset: nat): Outcome<IpHeader> {
    if !HasBytes(packet, offset, 20) then
      Refused(TruncatedIpv4Header)
    else
      var headerLength := packet[offset] % 0x10 * 4;
      var totalLength := ReadBe16(packet, offset + 2);
      if packet[offset] / 0x10 != 4 || headerLength < 20 then Refused(InvalidIpv4Ihl)
      else if !HasBytes(packet, offset, headerLength) then Refused(TruncatedIpv4Header)
      else if totalLength < headerLength then Refused(InvalidIpv4TotalLength)
      else if !HasBytes(packet, offset, totalLength) then Refused(TruncatedIpv4Packet)
      else
        Read(IpHeader(
               NetworkFields(Ipv4, packet[offset + 9], offset, headerLength,
                             CopyAddress(packet, offset + 12, 4), CopyAddress(packet, offset + 16, 4), 4),
               offset + totalLength,
               IsFragment(ReadBe16(packet, offset + 6))))
  }

  /** More fragments follow, or the fragment offset is not zero. */
  predicate IsFragment(field: u16) {
    field / 0x2000 % 2 != 0 || field % 0x2000 != 0
  }

  function ReadIpv6(packet: bytes, offset: nat): Outcome<IpHeader> {
    if !HasBytes(packet, offset, 40) || packet[offset] / 0x10 != 6 then
      Refused(TruncatedIpv6Header)
    else
      var totalLength := 40 + ReadBe16(packet, offset + 4) as int;
      if !HasBytes(packet, offset, totalLength) then
        Refused(TruncatedIpv6Packet)
      else
        Read(IpHeader(
               NetworkFields(Ipv6, packet[offset + 6], offset, 40,
                             CopyAddress(packet, offset + 8, 16), CopyAddress(packet, offset + 24, 16), 16),
               offset + totalLength,
               false))
  }

  function ReadIp(version: IpVersion, packet: bytes, offset: nat): Outcome<IpHeader>
    requires version != NoIp
  {
    if version == Ipv4 then ReadIpv4(packet, offset) else ReadIpv6(packet, offset)
  }

  /** What follows the IP header; a fragment or an unknown protocol is left unread. */
  function ReadTransport(packet: bytes, ip: IpHeader): Outcome<TransportFields> {
    var start := ip.fields.headerOffset + ip.fields.headerLength;
    if ip.fields.version == Ipv6 && IsUnsupportedIpv6Extension(ip.fields.protocol) then
      Refused(UnsupportedIpv6ExtensionHeaders)
    else if ip.fragment then Read(NO_TRANSPORT)
    else if ip.fields.protocol == PROTOCOL_TCP then ReadTcp(packet, start, ip.end)
    else if ip.fields.protocol == PROTOCOL_UDP then ReadUdp(packet, start, ip.end)
    else Read(NO_TRANSPORT)
  }

  function WithTransport(result: Decoded, outcome: Outcome<TransportFields>): Decoded {
    match outcome
    case Refused(reason) => result.Fail(reason)
    case Read(fields) => result.(transport := fields)
  }

  function WithIp(result: Decoded, packet: bytes, outcome: Outcome<IpHeader>): Decoded {
    match outcome
    case Refused(reason) => result.Fail(reason)
    case Read(ip) => WithTransport(result.(success := true, network := ip.fields), ReadTransport(packet, ip))
  }

  /** The IP version an EtherType announces. */
  function EthertypeVersion(ethertype: u16): IpVersion {
    if ethertype == ETHERTYPE_IPV4 then Ipv4 else if ethertype == ETHERTYPE_IPV6 then Ipv6 else NoIp
  }

  /** The link layer: read up to the network header at `offset`, or refused with what was read. */
  datatype LinkLayer = LinkRefused(reason: Failure, fields: LinkFields) | LinkRead(fields: LinkFields, offset: nat)

  /** Pops VLAN tags while the EtherType announces one; the tag count is an 8-bit counter. */
  function PopVlans(link: LinkFields, packet: bytes, offset: nat): LinkLayer
    decreases |packet| - offset
  {
    if !IsVlanEthertype(link.ethertype) then LinkRead(link, offset)
    else if !HasBytes(packet, offset, 4) then LinkRefused(TruncatedVlanTag, link)
    else PopVlans(LinkFields(ReadBe16(packet, offset + 2), (link.vlanTagCount + 1) % 0x100, link.headerLength + 4),
                  packet, offset + 4)
  }

  function ReadEthernet(packet: bytes): LinkLayer {
    if !HasBytes(packet, 0, 14) then LinkRefused(TruncatedEthernetHeader, NO_LINK)
    else PopVlans(LinkFields(ReadBe16(packet, 12), 0, 14), packet, 14)
  }

  function FamilyVersion(family: u32): IpVersion {
    if family == WINDOWS_AF_INET then Ipv4 else if family == WINDOWS_AF_INET6 then Ipv6 else NoIp
  }

  function NibbleVersion(packet: bytes): IpVersion {
    if !HasBytes(packet, 4, 1) then NoIp
    else if packet[4] / 0x10 == 4 then Ipv4
    else if packet[4] / 0x10 == 6 then Ipv6
    else NoIp
  }

  function VersionEthertype(version: IpVersion): u16 {
    match version
    case Ipv4 => ETHERTYPE_IPV4
    case Ipv6 => ETHERTYPE_IPV6
    case NoIp => 0
  }

  /** DLT_NULL: the address family and the first nibble of the datagram must not disagree, and one must be known. */
  function ReadNull(packet: bytes): LinkLayer {
    if !HasBytes(packet, 0, 4) then
      LinkRefused(TruncatedNullHeader, NO_LINK)
    else
      var family := FamilyVersion(ReadLe32(packet, 0));
      var nibble := NibbleVersion(packet);
      if family == NoIp && nibble == NoIp then
        LinkRefused(UnsupportedNullFamily, LinkFields(0, 0, 4))
      else if family != NoIp && nibble != NoIp && family != nibble then
        LinkRefused(UnsupportedNullFamily, LinkFields(VersionEthertype(family), 0, 4))
      else
        LinkRead(LinkFields(VersionEthertype(if family != NoIp then family else nibble), 0, 4), 4)
  }

  function ReadLink(packet: bytes, link: LinkType): LinkLayer {
    if link == Null then ReadNull(packet) else ReadEthernet(packet)
  }

  /** A decode before its network layer; DLT_NULL has by then noted where that layer starts. */
  function Linked(fields: LinkFields, link: LinkType): Decoded {
    EMPTY_DECODE.(success := true, link := fields,
                  network := if link == Null then NO_NETWORK.(headerOffset := 4) else NO_NETWORK)
  }

  /** What `DecodePacket` computes. */
  function Decode(packet: bytes, link: LinkType): Decoded {
    match ReadLink(packet, link)
    case LinkRefused(reason, fields) =>
      if fields == NO_LINK then EMPTY_DECODE.Fail(reason) else Linked(fields, link).Fail(reason)
    case LinkRead(fields, offset) =>
      var version := EthertypeVersion(fields.ethertype);
      if version == NoIp then Linked(fields, link)
      else WithIp(Linked(fields, link), packet, ReadIp(version, packet, offset))
  }

  // ---------------------------------------------------------------------------------------------
  // The decoder itself: it fills one result field by field.
  // ---------------------------------------------------------------------------------------------

  method DecodeTcp(start: Decoded, packet: bytes, offset: nat, end: nat) returns (result: Decoded)
    requires start.transport == NO_TRANSPORT
    ensures result == WithTransport(start, ReadTcp(packet, offset, end))
  {
    result := start;
    if !HasBytes(packet, offset, 20) || offset + 20 > end {
      result := result.(failure := TruncatedTcpHeader, success := false);
      return;
    }
    var headerLength: nat := packet[offset + 12] / 0x10 * 4;
    if headerLength < 20 {
      result := result.(failure := InvalidTcpDataOffset, success := false);
      return;
    }
    if !HasBytes(packet, offset, headerLength) || offset + headerLength > end {
      result := result.(failure := TruncatedTcpHeader, success := false);
      return;
    }
    var fields := result.transport;
    fields := fields.(protocol := Tcp, headerOffset := offset, headerLength := headerLength);
    fields := fields.(payloadOffset := offset + headerLength);
    fields := fields.(payloadLength := end - fields.payloadOffset);
    fields := fields.(srcPort := ReadBe16(packet, offset), dstPort := ReadBe16(packet, offset + 2));
    fields := fields.(tcpSeq := ReadBe32(packet, offset + 4), tcpFlags := packet[offset + 13]);
    result := result.(transport := fields);
  }

  method DecodeUdp(start: Decoded, packet: bytes, offset: nat, end: nat) returns (result: Decoded)
    requires start.transport == NO_TRANSPORT
    ensures result == WithTransport(start, ReadUdp(packet, offset, end))
  {
    result := start;
    if !HasBytes(packet, offset, 8) || offset + 8 > end {
      result := result.(failure := TruncatedUdpHeader, success := false);
      return;
    }
    var length := ReadBe16(packet, offset + 4);
    if length < 8 {
      result := result.(failure := InvalidUdpLength, success := false);
      return;
    }
    if offset + length > end {
      result := result.(failure := TruncatedUdpPayload, success := false);
      return;
    }
    var fields := result.transport;
    fields := fields.(protocol := Udp, headerOffset := offset, headerLength := 8);
    fields := fields.(payloadOffset := offset + 8, payloadLength := length - 8);
    fields := fields.(srcPort := ReadBe16(packet, offset), dstPort := ReadBe16(packet, offset + 2));
    result := result.(transport := fields);
  }

  method DecodeIpv4(start: Decoded, packet: bytes, offset: nat) returns (result: Decoded)
    requires start.transport == NO_TRANSPORT
    ensures result == WithIp(start, packet, ReadIpv4(packet, offset))
  {
    result := start;
    if !HasBytes(packet, offset, 20) {
      result := result.(failure := TruncatedIpv4Header, success := false);
      return;
    }
    var headerLength: nat := packet[offset] % 0x10 * 4;
    if packet[offset] / 0x10 != 4 || headerLength < 20 {
      result := result.(failure := InvalidIpv4Ihl, success := false);
      return;
    }
    if !HasBytes(packet, offset, headerLength) {
      result := result.(failure := TruncatedIpv4Header, success := false);
      return;
    }
    var totalLength := ReadBe16(packet, offset + 2);
    if totalLength < headerLength {
      result := result.(failure := InvalidIpv4TotalLength, success := false);
      return;
    }
    if !HasBytes(packet, offset, totalLength) {
      result := result.(failure := TruncatedIpv4Packet, success := false);
      return;
    }
    result := result.(success := true,
                      network := NetworkFields(Ipv4, packet[offset + 9], offset, headerLength,
                                               CopyAddress(packet, offset + 12, 4),
                                               CopyAddress(packet, offset + 16, 4), 4));
    var flagsFragment := ReadBe16(packet, offset + 6);
    var moreFragments, fragmentOffset := flagsFragment / 0x2000 % 2 != 0, flagsFragment % 0x2000;
    if moreFragments || fragmentOffset != 0 {
      return;
    }
    if result.network.protocol == PROTOCOL_TCP {
      result := DecodeTcp(result, packet, offset + headerLength, offset + totalLength);
    } else if result.network.protocol == PROTOCOL_UDP {
      result := DecodeUdp(result, packet, offset + headerLength, offset + totalLength);
    }
  }

  method DecodeIpv6(start: Decoded, packet: bytes, offset: nat) returns (result: Decoded)
    requires start.transport == NO_TRANSPORT
    ensures result == WithIp(start, packet, ReadIpv6(packet, offset))
  {
    result := start;
    if !HasBytes(packet, offset, 40) {
      result := result.(failure := TruncatedIpv6Header, success := false);
      return;
    }
    if packet[offset] / 0x10 != 6 {
      result := result.(failure := TruncatedIpv6Header, success := false);
      return;
    }
    var totalLength: nat := 40 + ReadBe16(packet, offset + 4) as int;
    if !HasBytes(packet, offset, totalLength) {
      result := result.(failure := TruncatedIpv6Packet, success := false);
      return;
    }
    result := result.(success := true,
                      network := NetworkFields(Ipv6, packet[offset + 6], offset, 40,
                                               CopyAddress(packet, offset + 8, 16),
                                               CopyAddress(packet, offset + 24, 16), 16));
    if IsUnsupportedIpv6Extension(result.network.protocol) {
      result := result.(failure := UnsupportedIpv6ExtensionHeaders, success := false);
      return;
    }
    if result.network.protocol == PROTOCOL_TCP {
      result := DecodeTcp(result, packet, offset + 40, offset + totalLength);
    } else if result.network.protocol == PROTOCOL_UDP {
      result := DecodeUdp(result, packet, offset + 40, offset + totalLength);
    }
  }

  method DecodeNull(packet: bytes) returns (result: Decoded)
    ensures result == Decode(packet, Null)
  {
    result := EMPTY_DECODE;
    if !HasBytes(packet, 0, 4) {
      result := result.(failure := TruncatedNullHeader);
      return;
    }
    result := result.(success := true, link := result.link.(headerLength := 4));
    result := result.(network := result.network.(headerOffset := 4));
    var number := ReadLe32(packet, 0);
    var family := NoIp;
    if number == WINDOWS_AF_INET {
      family := Ipv4;
      result := result.(link := result.link.(ethertype := ETHERTYPE_IPV4));
    } else if number == WINDOWS_AF_INET6 {
      family := Ipv6;
      result := result.(link := result.link.(ethertype := ETHERTYPE_IPV6));
    }
    var nibble := NoIp;
    if HasBytes(packet, 4, 1) {
      if packet[4] / 0x10 == 4 {
        nibble := Ipv4;
      } else if packet[4] / 0x10 == 6 {
        nibble := Ipv6;
      }
    }
    if family != NoIp && nibble != NoIp && family != nibble {
      result := result.(success := false, failure := UnsupportedNullFamily);
      return;
    }
    var version := if family != NoIp then family else nibble;
    if version == Ipv4 {
      result := result.(link := result.link.(ethertype := ETHERTYPE_IPV4));
      result := DecodeIpv4(result, packet, 4);
      return;
    }
    if version == Ipv6 {
      result := result.(link := result.link.(ethertype := ETHERTYPE_IPV6));
      result := DecodeIpv6(result, packet, 4);
      return;
    }
    result := result.(success := false, failure := UnsupportedNullFamily);
  }

  method DecodePacket(packet: bytes, link: LinkType) returns (result: Decoded)
    ensures result == Decode(packet, link)
  {
    result := EMPTY_DECODE;
    if link == Null {
      result := DecodeNull(packet);
      return;
    }
    if !HasBytes(packet, 0, 14) {
      result := result.(failure := TruncatedEthernetHeader);
      return;
    }
    result := result.(success := true, link := LinkFields(ReadBe16(packet, 12), 0, 14));
    var offset: nat := 14;
    while IsVlanEthertype(result.link.ethertype)
      invariant result == Linked(result.link, Ethernet) && result.link.headerLength == offset
      invariant PopVlans(result.link, packet, offset) == ReadEthernet(packet)
      decreases |packet| - offset
    {
      if !HasBytes(packet, offset, 4) {
        result := result.(success := false, failure := TruncatedVlanTag);
        return;
      }
      result := result.(link := result.link.(vlanTagCount := (result.link.vlanTagCount + 1) % 0x100));
      result := result.(link := result.link.(ethertype := ReadBe16(packet, offset + 2)));
      offset := offset + 4;
      result := result.(link := result.link.(headerLength := result.link.headerLength + 4));
    }
    if result.link.ethertype == ETHERTYPE_IPV4 {
      result := DecodeIpv4(result, packet, offset);
      return;
    }
    if result.link.ethertype == ETHERTYPE_IPV6 {
      result := DecodeIpv6(result, packet, offset);
      return;
    }
  }
}
