/** What part of a packet a decode depends on: exactly the link header and the IP datagram. */
module DecodeExtent {
  import opened Bytes
  import opened PacketDecode

  /** Decoded as IP and without failure. */
  predicate IpDecoded(d: Decoded) {
    d.failure == NoFailure && d.network.version != NoIp
  }

  /** The IP header behind a successful IP decode. */
  function HeaderOf(packet: bytes, link: LinkType): IpHeader
    requires IpDecoded(Decode(packet, link))
  {
    var read := ReadLink(packet, link);
    ReadIp(EthertypeVersion(read.fields.ethertype), packet, read.offset).value
  }

  /** Where the IP datagram of a successful decode ends. */
  function IpEnd(packet: bytes, link: LinkType): nat
    requires IpDecoded(Decode(packet, link))
  {
    HeaderOf(packet, link).end
  }

  /** `count` octets of `p` from `n` on are those of `q` from `m` on. */
  predicate SameFrom(p: bytes, n: nat, q: bytes, m: nat, count: nat) {
    HasBytes(p, n, count) && HasBytes(q, m, count) && forall i | n <= i < n + count :: p[i] == q[i - n + m]
  }

  /** The same transport header `delta` octets further on. */
  function MoveTransport(t: TransportFields, delta: int): TransportFields
    requires t.protocol != NoTransport ==> t.headerOffset + delta >= 0 && t.payloadOffset + delta >= 0
  {
    if t.protocol == NoTransport then t
    else t.(headerOffset := t.headerOffset + delta, payloadOffset := t.payloadOffset + delta)
  }

  function MoveIp(ip: IpHeader, delta: int): IpHeader
    requires ip.fields.headerOffset + delta >= 0 && ip.end + delta >= 0
  {
    ip.(fields := ip.fields.(headerOffset := ip.fields.headerOffset + delta), end := ip.end + delta)
  }

  lemma AddressMoves(p: bytes, n: nat, q: bytes, m: nat, count: nat, offset: nat, length: nat)
    requires SameFrom(p, n, q, m, count) && offset + length <= count && length <= ADDRESS_SIZE
    ensures CopyAddress(p, n + offset, length) == CopyAddress(q, m + offset, length)
  {
    assert p[n + offset..n + offset + length] == q[m + offset..m + offset + length];
  }

  lemma Ipv4Moves(p: bytes, n: nat, q: bytes, m: nat)
    requires ReadIpv4(p, n).Read? && SameFrom(p, n, q, m, ReadIpv4(p, n).value.end - n)
    ensures ReadIpv4(q, m) == Read(MoveIp(ReadIpv4(p, n).value, m - n))
  {
    var count := ReadIpv4(p, n).value.end - n;
    AddressMoves(p, n, q, m, count, 12, 4);
    AddressMoves(p, n, q, m, count, 16, 4);
  }

  lemma Ipv6Moves(p: bytes, n: nat, q: bytes, m: nat)
    requires ReadIpv6(p, n).Read? && SameFrom(p, n, q, m, ReadIpv6(p, n).value.end - n)
    ensures ReadIpv6(q, m) == Read(MoveIp(ReadIpv6(p, n).value, m - n))
  {
    var count := ReadIpv6(p, n).value.end - n;
    AddressMoves(p, n, q, m, count, 8, 16);
    AddressMoves(p, n, q, m, count, 24, 16);
  }

  lemma TcpMoves(p: bytes, n: nat, q: bytes, m: nat, count: nat, offset: nat)
    requires SameFrom(p, n, q, m, count) && n <= offset && ReadTcp(p, offset, n + count).Read?
    ensures ReadTcp(q, offset - n + m, m + count) == Read(MoveTransport(ReadTcp(p, offset, n + count).value, m - n))
  {
  }

  lemma UdpMoves(p: bytes, n: nat, q: bytes, m: nat, count: nat, offset: nat)
    requires SameFrom(p, n, q, m, count) && n <= offset && ReadUdp(p, offset, n + count).Read?
    ensures ReadUdp(q, offset - n + m, m + count) == Read(MoveTransport(ReadUdp(p, offset, n + count).value, m - n))
  {
  }

  lemma TransportMoves(p: bytes, ip: IpHeader, q: bytes, m: nat)
    requires ip.fields.headerOffset <= ip.end
    requires SameFrom(p, ip.fields.headerOffset, q, m, ip.end - ip.fields.headerOffset)
    requires ReadTransport(p, ip).Read?
    ensures var delta := m - ip.fields.headerOffset;
            ReadTransport(q, MoveIp(ip, delta)) == Read(MoveTransport(ReadTransport(p, ip).value, delta))
  {
    var n, count := ip.fields.headerOffset, ip.end - ip.fields.headerOffset;
    var start := n + ip.fields.headerLength;
    if ip.fields.protocol == PROTOCOL_TCP && !ip.fragment {
      TcpMoves(p, n, q, m, count, start);
    } else if ip.fields.protocol == PROTOCOL_UDP && !ip.fragment {
      UdpMoves(p, n, q, m, count, start);
    }
  }

  lemma IpShape(version: IpVersion, packet: bytes, offset: nat)
    requires version != NoIp && ReadIp(version, packet, offset).Read?
    ensures var ip := ReadIp(version, packet, offset).value;
            && ip.fields.version == version && ip.fields.headerOffset == offset
            && 20 <= ip.fields.headerLength && offset + ip.fields.headerLength <= ip.end <= |packet|
  {
  }

  /** The IP decoder reads nothing outside the datagram, whose place in the packet does not matter. */
  lemma DatagramMoves(version: IpVersion, p: bytes, n: nat, q: bytes, m: nat, r: Decoded, s: Decoded)
    requires version != NoIp && ReadIp(version, p, n).Read? && ReadTransport(p, ReadIp(version, p, n).value).Read?
    requires SameFrom(p, n, q, m, ReadIp(version, p, n).value.end - n)
    requires r.transport == NO_TRANSPORT == s.transport && r.failure == NoFailure == s.failure
    ensures var d := WithIp(r, p, ReadIp(version, p, n));
            && d.network.headerOffset == n
            && (d.transport.protocol != NoTransport ==> d.transport.payloadOffset >= d.transport.headerOffset >= n)
            && WithIp(s, q, ReadIp(version, q, m))
            == Decoded(true, NoFailure, s.link, d.network.(headerOffset := m), MoveTransport(d.transport, m - n))
  {
    hide ReadIpv4, ReadIpv6, ReadTransport;
    IpShape(version, p, n);
    if version == Ipv4 { Ipv4Moves(p, n, q, m); } else { Ipv6Moves(p, n, q, m); }
    var ip := ReadIp(version, p, n).value;
    TransportMoves(p, ip, q, m);
    TransportShape(p, ip);
    assert ReadIp(version, q, m) == Read(MoveIp(ip, m - n));
    Assembled(r, p, ip);
    Assembled(s, q, MoveIp(ip, m - n));
  }

  lemma Assembled(r: Decoded, packet: bytes, ip: IpHeader)
    requires r.failure == NoFailure && ReadTransport(packet, ip).Read?
    ensures WithIp(r, packet, Read(ip)) == Decoded(true, NoFailure, r.link, ip.fields, ReadTransport(packet, ip).value)
  {
  }

  /** A datagram that lost its last octets is refused. */
  lemma ShortDatagramFails(version: IpVersion, p: bytes, offset: nat, cut: nat)
    requires version != NoIp && ReadIp(version, p, offset).Read? && cut < ReadIp(version, p, offset).value.end <= |p|
    ensures ReadIp(version, p[..cut], offset).Refused?
  {
  }

  lemma PopVlansShape(link: LinkFields, packet: bytes, offset: nat)
    requires link.headerLength == offset <= |packet|
    ensures var read := PopVlans(link, packet, offset);
            if read.LinkRead? then read.fields.headerLength == read.offset && offset <= read.offset <= |packet|
            else read.reason == TruncatedVlanTag && read.fields.headerLength >= offset
    decreases |packet| - offset
  {
  }

  /** Popping tags reads nothing past the last tag, and refuses a packet that ends before it. */
  lemma PopVlansLocal(link: LinkFields, p: bytes, offset: nat, q: bytes)
    requires offset <= |p| && offset <= |q| && link.headerLength == offset
    requires var read := PopVlans(link, p, offset);
             read.LinkRead? && read.offset <= |p| && forall i | 0 <= i < read.offset && i < |q| :: p[i] == q[i]
    ensures var read := PopVlans(link, p, offset);
            if read.offset <= |q| then PopVlans(link, q, offset) == read else PopVlans(link, q, offset).LinkRefused?
    decreases |p| - offset
  {
    PopVlansShape(link, p, offset);
    if IsVlanEthertype(link.ethertype) {
      var next := LinkFields(ReadBe16(p, offset + 2), (link.vlanTagCount + 1) % 0x100, link.headerLength + 4);
      PopVlansShape(next, p, offset + 4);
      if HasBytes(q, offset, 4) {
        PopVlansLocal(next, p, offset + 4, q);
      }
    }
  }

  /** The layers of a successful IP decode: contiguous headers, and a payload, all inside the datagram. */
  lemma Layout(packet: bytes, link: LinkType)
    requires IpDecoded(Decode(packet, link))
    ensures var d := Decode(packet, link);
            && d.success && d.link.headerLength == d.network.headerOffset
            && ReadLink(packet, link) == LinkRead(d.link, d.network.headerOffset)
            && HeaderOf(packet, link).fields == d.network
            && 20 <= d.network.headerLength
            && d.network.headerOffset + d.network.headerLength <= IpEnd(packet, link) <= |packet|
            && (d.transport.protocol == NoTransport ==> d.transport == NO_TRANSPORT)
            && (d.transport.protocol != NoTransport ==>
                  && d.transport.headerOffset == d.network.headerOffset + d.network.headerLength
                  && d.transport.payloadOffset == d.transport.headerOffset + d.transport.headerLength
                  && d.transport.payloadOffset + d.transport.payloadLength <= IpEnd(packet, link)
                  && (d.transport.protocol == Tcp ==>
                        d.transport.payloadOffset + d.transport.payloadLength == IpEnd(packet, link)))
  {
    LinkShape(packet, link);
    var read := ReadLink(packet, link);
    IpShape(EthertypeVersion(read.fields.ethertype), packet, read.offset);
    TransportShape(packet, HeaderOf(packet, link));
  }

  lemma LinkShape(packet: bytes, link: LinkType)
    requires ReadLink(packet, link).LinkRead?
    ensures var read := ReadLink(packet, link);
            read.fields.headerLength == read.offset <= |packet| && (if link == Null then read.offset ==
                4 else read.offset >= 14)
  {
    if link == Ethernet {
      PopVlansShape(LinkFields(ReadBe16(packet, 12), 0, 14), packet, 14);
    }
  }

  lemma TransportShape(packet: bytes, ip: IpHeader)
    requires ReadTransport(packet, ip).Read?
    ensures var t := ReadTransport(packet, ip).value;
            && (t.protocol == NoTransport ==> t == NO_TRANSPORT)
            && (t.protocol != NoTransport ==>
                  && t.headerOffset == ip.fields.headerOffset + ip.fields.headerLength
                  && t.payloadOffset == t.headerOffset + t.headerLength
                  && t.payloadOffset + t.payloadLength <= ip.end
                  && (t.protocol == Tcp ==> t.payloadOffset + t.payloadLength == ip.end))
  {
  }

  /** No proper prefix of the datagram decodes. */
  lemma ShorterPrefixFails(packet: bytes, link: LinkType, cut: nat)
    requires IpDecoded(Decode(packet, link)) && cut < IpEnd(packet, link)
    ensures cut < |packet| && Decode(packet[..cut], link).failure != NoFailure
  {
    Layout(packet, link);
    LinkShape(packet, link);
    var read, short := ReadLink(packet, link), packet[..cut];
    var version := EthertypeVersion(read.fields.ethertype);
    ShortDatagramFails(version, packet, read.offset, cut);
    if link == Ethernet && cut >= 14 {
      PopVlansLocal(LinkFields(ReadBe16(packet, 12), 0, 14), packet, 14, short);
      PopVlansShape(LinkFields(ReadBe16(packet, 12), 0, 14), short, 14);
    } else if link == Null && cut >= 4 {
      assert ReadLe32(short, 0) == ReadLe32(packet, 0);
    }
  }

  lemma SameLink(packet: bytes, link: LinkType, other: bytes)
    requires IpDecoded(Decode(packet, link))
    requires IpEnd(packet, link) <= |other| && IpEnd(packet, link) <= |packet|
    requires forall i | 0 <= i < IpEnd(packet, link) :: packet[i] == other[i]
    ensures ReadLink(other, link) == ReadLink(packet, link)
  {
    Layout(packet, link);
    LinkShape(packet, link);
    if link == Ethernet {
      PopVlansLocal(LinkFields(ReadBe16(packet, 12), 0, 14), packet, 14, other);
    }
  }

  /** Octets past the datagram are never looked at: dropping them or adding others changes nothing. */
  lemma TrailingBytesIgnored(packet: bytes, link: LinkType, other: bytes)
    requires IpDecoded(Decode(packet, link)) && IpEnd(packet, link) <= |other|
    requires IpEnd(packet, link) <= |packet| && other[..IpEnd(packet, link)] == packet[..IpEnd(packet, link)]
    ensures Decode(other, link) == Decode(packet, link)
  {
    var end := IpEnd(packet, link);
    forall i | 0 <= i < end ensures packet[i] == other[i] {
      assert packet[..end][i] == other[..end][i];
    }
    Layout(packet, link);
    SameLink(packet, link, other);
    var read := ReadLink(packet, link);
    var r := Linked(read.fields, link);
    DatagramMoves(EthertypeVersion(read.fields.ethertype), packet, read.offset, other, read.offset, r, r);
  }

  /** A decode succeeds exactly when it gives no failure, and reports a transport header only under an IP header. */
  lemma SuccessMeans(packet: bytes, link: LinkType)
    ensures var d := Decode(packet, link);
            && (d.success <==> d.failure == NoFailure)
            && (d.transport.protocol != NoTransport ==> d.success && d.network.version != NoIp)
  {
    var read := ReadLink(packet, link);
    if link == Ethernet && HasBytes(packet, 0, 14) {
      PopVlansShape(LinkFields(ReadBe16(packet, 12), 0, 14), packet, 14);
    }
    if read.LinkRead? && EthertypeVersion(read.fields.ethertype) != NoIp {
      var version := EthertypeVersion(read.fields.ethertype);
      if ReadIp(version, packet, read.offset).Read? {
        IpShape(version, packet, read.offset);
      }
    }
  }
}
