/** What decodes is what the builder builds: every packet that decodes as IP starts with a built frame. */
module DecodedFrames {
  import opened Bytes
  import opened PacketDecode
  import opened DecodeExtent
  import opened FrameBuilder

  // --------------------------------------------- link layer ---------------------------------------------

  /** The VLAN tags the decoder pops. */
  function TagsAt(packet: bytes, offset: nat, ethertype: u16): seq<VlanTag>
    decreases |packet| - offset
  {
    if IsVlanEthertype(ethertype) && HasBytes(packet, offset, 4) then
      [VlanTag(ethertype == 0x88A8, ReadBe16(packet, offset))]
      + TagsAt(packet, offset + 4, ReadBe16(packet, offset + 2))
    else []
  }

  lemma {:induction false} TagsRebuilt(packet: bytes, offset: nat, link: LinkFields)
    requires 2 <= offset <= |packet| && link.ethertype == ReadBe16(packet, offset - 2)
    requires PopVlans(link, packet, offset).LinkRead?
    ensures var tags, read := TagsAt(packet, offset, link.ethertype), PopVlans(link, packet, offset);
            read.offset == offset + 4 * |tags| && Holds(packet, offset - 2, TagBytes(tags, read.fields.ethertype))
    decreases |packet| - offset
  {
    hide ReadBe16, Holds;
    Be16Undoes(packet, offset - 2);
    if IsVlanEthertype(link.ethertype) {
      var next := LinkFields(ReadBe16(packet, offset + 2), (link.vlanTagCount + 1) % 0x100, link.headerLength + 4);
      var rest := TagsAt(packet, offset + 4, next.ethertype);
      var tag := VlanTag(link.ethertype == 0x88A8, ReadBe16(packet, offset));
      TagsRebuilt(packet, offset + 4, next);
      Be16Undoes(packet, offset);
      HoldsJoin(packet, offset - 2, Be16(TagType(tag)), Be16(tag.control));
      HoldsJoin(packet, offset - 2, Be16(TagType(tag)) + Be16(tag.control), TagBytes(rest, PopVlans(next, packet,
          offset + 4).fields.ethertype));
      assert TagsAt(packet, offset, link.ethertype) == [tag] + rest;
    }
  }

  lemma LinkRebuilt(packet: bytes, link: LinkType) returns (framing: Framing)
    requires ReadLink(packet, link).LinkRead? && EthertypeVersion(ReadLink(packet, link).fields.ethertype) != NoIp
    ensures var read := ReadLink(packet, link);
            var version := EthertypeVersion(read.fields.ethertype);
            && framing.Link() == link && framing.Valid(version) && framing.HeaderLength() == read.offset
            && Holds(packet, 0, LinkBytes(framing, version))
  {
    hide ReadBe16, ReadLe32, Holds;
    if link == Null {
      framing := OnNull(ReadLe32(packet, 0));
      Le32Undoes(packet, 0);
    } else {
      var ethertype := ReadBe16(packet, 12);
      framing := OnEthernet(packet[..12], TagsAt(packet, 14, ethertype));
      TagsRebuilt(packet, 14, LinkFields(ethertype, 0, 14));
      SliceHolds(packet, 0, packet[..12]);
      HoldsJoin(packet, 0, packet[..12], TagBytes(framing.tags, ReadLink(packet, link).fields.ethertype));
    }
  }

  // ------------------------------------------- transport layer ------------------------------------------

  lemma PortsAndNumbers(packet: bytes, offset: nat)
    requires HasBytes(packet, offset, 12)
    ensures Holds(packet, offset, Be16(ReadBe16(packet, offset)) + Be16(ReadBe16(packet, offset + 2)) +
                                  Be32(ReadBe32(packet, offset + 4)) + Be32(ReadBe32(packet, offset + 8)))
  {
    hide ReadBe16, ReadBe32, Holds;
    var ports := Be16(ReadBe16(packet, offset)) + Be16(ReadBe16(packet, offset + 2));
    Be16Undoes(packet, offset);
    Be16Undoes(packet, offset + 2);
    Be32Undoes(packet, offset + 4);
    Be32Undoes(packet, offset + 8);
    HoldsJoin(packet, offset, Be16(ReadBe16(packet, offset)), Be16(ReadBe16(packet, offset + 2)));
    HoldsJoin(packet, offset, ports, Be32(ReadBe32(packet, offset + 4)));
    HoldsJoin(packet, offset, ports + Be32(ReadBe32(packet, offset + 4)), Be32(ReadBe32(packet, offset + 8)));
  }

  lemma TcpRebuilt(packet: bytes, offset: nat, end: nat) returns (parts: TcpParts, payload: bytes)
    requires ReadTcp(packet, offset, end).Read? && end <= |packet|
    ensures parts.Valid() && Holds(packet, offset, TcpBytes(parts, payload))
    ensures |TcpBytes(parts, payload)| == end - offset
  {
    hide ReadBe16, ReadBe32, Holds;
    var header := packet[offset + 12] / 0x10 * 4;
    parts := TcpParts(ReadBe16(packet, offset), ReadBe16(packet, offset + 2),
                      ReadBe32(packet, offset + 4), ReadBe32(packet, offset + 8),
                      packet[offset + 12] % 0x10, packet[offset + 13],
                      packet[offset + 14..offset + 20], packet[offset + 20..offset + header]);
    payload := packet[offset + header..end];
    var numbers := Be16(parts.srcPort) + Be16(parts.dstPort) + Be32(parts.seq32) + Be32(parts.ack);
    var bits: bytes := [(5 + |parts.options| / 4) * 0x10 + parts.reserved, parts.flags];
    PortsAndNumbers(packet, offset);
    SliceHolds(packet, offset + 12, bits);
    SliceHolds(packet, offset + 14, parts.tail);
    SliceHolds(packet, offset + 20, parts.options);
    SliceHolds(packet, offset + header, payload);
    HoldsJoin(packet, offset, numbers, bits);
    HoldsJoin(packet, offset, numbers + bits, parts.tail);
    HoldsJoin(packet, offset, numbers + bits + parts.tail, parts.options);
    HoldsJoin(packet, offset, numbers + bits + parts.tail + parts.options, payload);
  }

  lemma UdpRebuilt(packet: bytes, offset: nat, end: nat) returns (parts: UdpParts, payload: bytes, slack: bytes)
    requires ReadUdp(packet, offset, end).Read? && end <= |packet|
    ensures |payload| + 8 < 0x1_0000
    ensures var data := UdpBytes(parts, payload) + slack; Holds(packet, offset, data) && |data| == end - offset
  {
    hide ReadBe16, Holds;
    var length := ReadBe16(packet, offset + 4);
    parts := UdpParts(ReadBe16(packet, offset), ReadBe16(packet, offset + 2), ReadBe16(packet, offset + 6));
    payload, slack := packet[offset + 8..offset + length], packet[offset + length..end];
    var ports := Be16(parts.srcPort) + Be16(parts.dstPort);
    Be16Undoes(packet, offset);
    Be16Undoes(packet, offset + 2);
    Be16Undoes(packet, offset + 4);
    Be16Undoes(packet, offset + 6);
    SliceHolds(packet, offset + 8, payload);
    SliceHolds(packet, offset + length, slack);
    HoldsJoin(packet, offset, Be16(parts.srcPort), Be16(parts.dstPort));
    HoldsJoin(packet, offset, ports, Be16(8 + |payload|));
    HoldsJoin(packet, offset, ports + Be16(8 + |payload|), Be16(parts.checksum));
    HoldsJoin(packet, offset, ports + Be16(8 + |payload|) + Be16(parts.checksum), payload);
    HoldsJoin(packet, offset, UdpBytes(parts, payload), slack);
  }

  /** The body of an IP datagram, as the decoder takes it. */
  lemma BodyRebuilt(packet: bytes, ip: IpHeader) returns (body: Body)
    requires ReadTransport(packet, ip).Read? && ip.fields.headerOffset + ip.fields.headerLength <= ip.end <= |packet|
    ensures var start := ip.fields.headerOffset + ip.fields.headerLength;
            body.Valid() && body.Protocol() == ip.fields.protocol
            && Holds(packet, start, body.Encode()) && |body.Encode()| == ip.end - start
    ensures match body
            case RawBody(protocol, _) =>
              && (ip.fragment || protocol !in {6, 17})
              && (ip.fields.version == Ipv6 ==> protocol !in {0, 43, 44, 51, 60, 135, 139, 140})
            case _ => !ip.fragment
  {
    hide ReadTcp, ReadUdp, Holds, TcpBytes, UdpBytes;
    var start := ip.fields.headerOffset + ip.fields.headerLength;
    if !ip.fragment && ip.fields.protocol == PROTOCOL_TCP {
      var tcp, payload := TcpRebuilt(packet, start, ip.end);
      body := TcpBody(tcp, payload);
    } else if !ip.fragment && ip.fields.protocol == PROTOCOL_UDP {
      var udp, payload, slack := UdpRebuilt(packet, start, ip.end);
      body := UdpBody(udp, payload, slack);
    } else {
      body := RawBody(ip.fields.protocol, packet[start..ip.end]);
      SliceHolds(packet, start, packet[start..ip.end]);
    }
  }

  // -------------------------------------------- network layer -------------------------------------------

  /** `parts` are those of the IP header read, and around `body` they spell the datagram. */
  predicate Spells(packet: bytes, ip: IpHeader, parts: IpParts, body: bytes) {
    && parts.Valid() && parts.Version() == ip.fields.version && parts.Fragmented() == ip.fragment && parts.Fits(body)
    && Holds(packet, ip.fields.headerOffset, parts.Encode(ip.fields.protocol, body))
    && |parts.Encode(ip.fields.protocol, body)| == ip.end - ip.fields.headerOffset
  }

  lemma Ipv4Head(packet: bytes, o: nat, first: bytes, second: bytes)
    requires HasBytes(packet, o, 12) && first == packet[o..o + 2] && second == packet[o + 8..o + 10]
    ensures Holds(packet, o, first + Be16(ReadBe16(packet, o + 2)) + Be16(ReadBe16(packet, o + 4)) +
            Be16(ReadBe16(packet, o + 6)) +
                             second + Be16(ReadBe16(packet, o + 10)))
  {
    hide ReadBe16, Holds;
    var length, identification := Be16(ReadBe16(packet, o + 2)), Be16(ReadBe16(packet, o + 4));
    var toField := first + length + identification + Be16(ReadBe16(packet, o + 6));
    SliceHolds(packet, o, first);
    SliceHolds(packet, o + 8, second);
    Be16Undoes(packet, o + 2);
    Be16Undoes(packet, o + 4);
    Be16Undoes(packet, o + 6);
    Be16Undoes(packet, o + 10);
    HoldsJoin(packet, o, first, length);
    HoldsJoin(packet, o, first + length, identification);
    HoldsJoin(packet, o, first + length + identification, Be16(ReadBe16(packet, o + 6)));
    HoldsJoin(packet, o, toField, second);
    HoldsJoin(packet, o, toField + second, Be16(ReadBe16(packet, o + 10)));
  }

  lemma FragmentationOf(field: u16) returns (f: Fragmentation)
    ensures f.Valid() && f.Field() == field && (f.Fragmented() <==> IsFragment(field))
  {
    f := Fragmentation(field / 0x8000 == 1, field / 0x4000 % 2 == 1, field / 0x2000 % 2 == 1, field % 0x2000);
    assert field == field / 0x8000 * 0x8000 + field / 0x4000 % 2 * 0x4000 + field / 0x2000 % 2 * 0x2000 +
                    field % 0x2000;
    FieldTells(f);
  }

  lemma Ipv4Rebuilt(packet: bytes, o: nat, ip: IpHeader, body: bytes) returns (parts: IpParts)
    requires ReadIpv4(packet, o) == Read(ip)
    requires ip.end == o + ip.fields.headerLength + |body| && Holds(packet, o + ip.fields.headerLength, body)
    ensures Spells(packet, ip, parts, body)
  {
    hide ReadBe16, Holds, IsFragment, Fragmentation.Field, Fragmentation.Fragmented;
    var header := ip.fields.headerLength;
    var field := ReadBe16(packet, o + 6);
    var fragmentation := FragmentationOf(field);
    parts := Ipv4Parts(packet[o + 1], ReadBe16(packet, o + 4), fragmentation, packet[o + 8], ReadBe16(packet, o + 10),
                       packet[o + 12..o + 16], packet[o + 16..o + 20], packet[o + 20..o + header]);
    var first: bytes := [0x45 + |parts.options| / 4, parts.service];
    var second: bytes := [parts.ttl, ip.fields.protocol];
    var head := first + Be16(20 + |parts.options| + |body|) + Be16(parts.identification) + Be16(field) +
                second + Be16(parts.checksum);
    Ipv4Head(packet, o, first, second);
    SliceHolds(packet, o + 12, parts.src);
    SliceHolds(packet, o + 16, parts.dst);
    SliceHolds(packet, o + 20, parts.options);
    HoldsJoin(packet, o, head, parts.src);
    HoldsJoin(packet, o, head + parts.src, parts.dst);
    HoldsJoin(packet, o, head + parts.src + parts.dst, parts.options);
    HoldsJoin(packet, o, head + parts.src + parts.dst + parts.options, body);
  }

  lemma Ipv6Rebuilt(packet: bytes, o: nat, ip: IpHeader, body: bytes) returns (parts: IpParts)
    requires ReadIpv6(packet, o) == Read(ip)
    requires ip.end == o + ip.fields.headerLength + |body| && Holds(packet, o + ip.fields.headerLength, body)
    ensures Spells(packet, ip, parts, body)
  {
    hide ReadBe16, Holds;
    parts := Ipv6Parts(packet[o..o + 4], packet[o + 7], packet[o + 8..o + 24], packet[o + 24..o + 40]);
    var middle: bytes := [ip.fields.protocol, parts.hopLimit];
    var toMiddle := parts.head + Be16(|body|) + middle;
    SliceHolds(packet, o, parts.head);
    Be16Undoes(packet, o + 4);
    SliceHolds(packet, o + 6, middle);
    SliceHolds(packet, o + 8, parts.src);
    SliceHolds(packet, o + 24, parts.dst);
    HoldsJoin(packet, o, parts.head, Be16(|body|));
    HoldsJoin(packet, o, parts.head + Be16(|body|), middle);
    HoldsJoin(packet, o, toMiddle, parts.src);
    HoldsJoin(packet, o, toMiddle + parts.src, parts.dst);
    HoldsJoin(packet, o, toMiddle + parts.src + parts.dst, body);
  }

  // ------------------------------------------- the whole frame ------------------------------------------

  /** The packet is built from these pieces. */
  predicate Built(packet: bytes, link: LinkType, framing: Framing, parts: IpParts, body: Body) {
    && framing.Link() == link && framing.Valid(parts.Version())
    && parts.Valid() && body.Valid() && parts.Takes(body) && parts.Fits(body.Encode())
    && packet == Frame(framing, parts.Version(), parts.Encode(body.Protocol(), body.Encode()))
  }

  lemma LayersRead(packet: bytes, link: LinkType)
    requires IpDecoded(Decode(packet, link))
    ensures var read := ReadLink(packet, link);
            && read.LinkRead? && EthertypeVersion(read.fields.ethertype) != NoIp
            && ReadIp(EthertypeVersion(read.fields.ethertype), packet, read.offset).Read?
            && ReadTransport(packet, ReadIp(EthertypeVersion(read.fields.ethertype), packet, read.offset).value).Read?
  {
    hide ReadIpv4, ReadIpv6, PopVlans, ReadNull;
  }

  /** Every packet that decodes as IP is, up to the end of its datagram, a built frame. */
  lemma DecodedIsBuilt(packet: bytes, link: LinkType) returns (framing: Framing, parts: IpParts, body: Body)
    requires IpDecoded(Decode(packet, link))
    ensures IpEnd(packet, link) <= |packet| && Built(packet[..IpEnd(packet, link)], link, framing, parts, body)
  {
    hide Holds, LinkBytes, IpParts.Encode, Body.Encode, ReadTransport, ReadIpv4, ReadIpv6;
    LayersRead(packet, link);
    var read := ReadLink(packet, link);
    var version := EthertypeVersion(read.fields.ethertype);
    framing := LinkRebuilt(packet, link);
    IpShape(version, packet, read.offset);
    var ip := ReadIp(version, packet, read.offset).value;
    body := BodyRebuilt(packet, ip);
    if version == Ipv4 {
      parts := Ipv4Rebuilt(packet, read.offset, ip, body.Encode());
    } else {
      parts := Ipv6Rebuilt(packet, read.offset, ip, body.Encode());
    }
    var datagram := parts.Encode(ip.fields.protocol, body.Encode());
    HoldsJoin(packet, 0, LinkBytes(framing, version), datagram);
    HoldsAll(packet, LinkBytes(framing, version) + datagram);
  }

  /** A packet that starts with a built frame decodes to what the frame was built from, and its datagram ends where
      the frame does. */
  lemma BuiltDecodes(packet: bytes, link: LinkType, n: nat, framing: Framing, parts: IpParts, body: Body)
    requires n <= |packet| && Built(packet[..n], link, framing, parts, body)
    ensures Decode(packet, link) ==
            Decoded(true, NoFailure, framing.Fields(parts.Version()),
                    parts.Fields(body.Protocol(), framing.HeaderLength()),
                    body.Fields(framing.HeaderLength() + parts.HeaderLength()))
    ensures IpDecoded(Decode(packet, link)) && IpEnd(packet, link) == n
  {
    hide Decode, Frame, IpEnd, Body.Encode, IpParts.Encode;
    FrameRoundTrip(framing, parts, body);
    TrailingBytesIgnored(packet[..n], link, packet);
    ShorterIsSame(packet, link, n);
  }

  lemma ShorterIsSame(packet: bytes, link: LinkType, n: nat)
    requires n <= |packet| && IpDecoded(Decode(packet, link)) && IpDecoded(Decode(packet[..n], link))
    requires IpEnd(packet[..n], link) == n
    ensures IpEnd(packet, link) == n
  {
    hide Decode, IpEnd;
    Layout(packet, link);
    if n < IpEnd(packet, link) {
      ShorterPrefixFails(packet, link, n);
    } else if IpEnd(packet, link) < n {
      var cut: nat := IpEnd(packet, link);
      ShorterPrefixFails(packet[..n], link, cut);
      assert packet[..n][..cut] == packet[..cut];
      TrailingBytesIgnored(packet, link, packet[..cut]);
    }
  }

  /** A packet decodes as IP if and only if it starts with a frame built from valid parts. */
  lemma DecodesIffBuilt(packet: bytes, link: LinkType)
    ensures IpDecoded(Decode(packet, link)) <==>
            exists n: nat, framing, parts, body :: n <= |packet| && Built(packet[..n], link, framing, parts, body)
  {
    hide Decode, IpEnd, Built;
    if IpDecoded(Decode(packet, link)) {
      var framing, parts, body := DecodedIsBuilt(packet, link);
      var n: nat := IpEnd(packet, link);
      assert Built(packet[..n], link, framing, parts, body);
    }
    forall n: nat, framing, parts, body | n <= |packet| && Built(packet[..n], link, framing, parts, body)
      ensures IpDecoded(Decode(packet, link))
    {
      BuiltDecodes(packet, link, n, framing, parts, body);
    }
  }
}
