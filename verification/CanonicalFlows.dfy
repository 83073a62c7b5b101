/** Flow keys do not depend on the direction of a packet, and separate exactly the pairs of endpoints. */
module CanonicalFlows {
  import opened Bytes
  import opened PacketDecode
  import opened QuicConstrictor

  // ------------------------------- the order of endpoints is total -------------------------------

  lemma {:induction false} OctetsAntisymmetric(l: bytes, r: bytes)
    ensures CompareOctets(l, r) == -CompareOctets(r, l) && -1 <= CompareOctets(l, r) <= 1
    ensures CompareOctets(l, r) == 0 <==> l == r
  {
    if l != [] && r != [] && l[0] == r[0] {
      OctetsAntisymmetric(l[1..], r[1..]);
      assert l == [l[0]] + l[1..] && r == [r[0]] + r[1..];
    }
  }

  lemma {:induction false} OctetsTransitive(a: bytes, b: bytes, c: bytes)
    requires CompareOctets(a, b) <= 0 && CompareOctets(b, c) <= 0
    ensures CompareOctets(a, c) <= 0
    ensures CompareOctets(a, b) < 0 || CompareOctets(b, c) < 0 ==> CompareOctets(a, c) < 0
  {
    if a != [] && b != [] && c != [] && a[0] == b[0] == c[0] {
      OctetsTransitive(a[1..], b[1..], c[1..]);
    }
  }

  /** Compare is antisymmetric, and zero only between equal endpoints. */
  lemma CompareAntisymmetric(a: Endpoint, b: Endpoint)
    requires Padded(a) && Padded(b)
    ensures Compare(a, b) == -Compare(b, a)
    ensures Compare(a, b) == 0 <==> a == b
  {
    var l, r := a.address[..a.addressLength], b.address[..b.addressLength];
    OctetsAntisymmetric(l, r);
    if l == r {
      assert a.addressLength == |l| == |r| == b.addressLength;
      forall i | 0 <= i < ADDRESS_SIZE ensures a.address[i] == b.address[i] {
        if i < a.addressLength {
          assert l[i] == r[i];
        }
      }
      assert a.address == b.address;
    }
  }

  lemma CompareTransitive(a: Endpoint, b: Endpoint, c: Endpoint)
    requires Padded(a) && Padded(b) && Padded(c)
    requires Compare(a, b) <= 0 && Compare(b, c) <= 0
    ensures Compare(a, c) <= 0
  {
    var x, y, z := a.address[..a.addressLength], b.address[..b.addressLength], c.address[..c.addressLength];
    OctetsAntisymmetric(x, y);
    OctetsAntisymmetric(y, z);
    OctetsTransitive(x, y, z);
  }

  // ---------------------------------------- flow keys ----------------------------------------

  lemma CopiedAddressIsPadded(packet: bytes, offset: nat, length: byte, port: u16)
    requires length <= ADDRESS_SIZE && HasBytes(packet, offset, length)
    ensures Padded(Endpoint(CopyAddress(packet, offset, length), length, port))
  {
  }

  lemma HeaderIsPadded(version: IpVersion, packet: bytes, offset: nat, port: u16)
    requires version != NoIp && ReadIp(version, packet, offset).Read?
    ensures var f := ReadIp(version, packet, offset).value.fields;
            && Padded(Endpoint(f.srcAddress, f.addressLength, port))
            && Padded(Endpoint(f.dstAddress, f.addressLength, port))
  {
    if version == Ipv4 {
      CopiedAddressIsPadded(packet, offset + 12, 4, port);
      CopiedAddressIsPadded(packet, offset + 16, 4, port);
    } else {
      CopiedAddressIsPadded(packet, offset + 8, 16, port);
      CopiedAddressIsPadded(packet, offset + 24, 16, port);
    }
  }

  /** Every decode result, of whatever packet, carries zero-padded addresses. */
  lemma DecodedIsPadded(packet: bytes, link: LinkType)
    ensures PaddedAddresses(Decode(packet, link))
  {
    var d, read := Decode(packet, link), ReadLink(packet, link);
    if read.LinkRead? && EthertypeVersion(read.fields.ethertype) != NoIp {
      var version := EthertypeVersion(read.fields.ethertype);
      if ReadIp(version, packet, read.offset).Read? {
        HeaderIsPadded(version, packet, read.offset, d.transport.srcPort);
        HeaderIsPadded(version, packet, read.offset, d.transport.dstPort);
      }
    }
  }

  function Opposite(direction: FlowDirection): FlowDirection {
    if direction == AToB then BToA else AToB
  }

  /** The two packets have the same source and the same destination, address and port. */
  predicate SameWay(e: Decoded, d: Decoded) {
    && e.network.addressLength == d.network.addressLength
    && e.network.srcAddress == d.network.srcAddress && e.network.dstAddress == d.network.dstAddress
    && e.transport.srcPort == d.transport.srcPort && e.transport.dstPort == d.transport.dstPort
  }

  /** `e` could answer `d`: source and destination are exchanged. */
  predicate Answers(e: Decoded, d: Decoded) {
    && e.network.addressLength == d.network.addressLength
    && e.network.srcAddress == d.network.dstAddress && e.network.dstAddress == d.network.srcAddress
    && e.transport.srcPort == d.transport.dstPort && e.transport.dstPort == d.transport.srcPort
  }

  /** The packets are between the same two endpoints. */
  predicate SameEndpoints(e: Decoded, d: Decoded) {
    SameWay(e, d) || Answers(e, d)
  }

  /** A packet and its answer belong to the same flow, in opposite directions unless both endpoints are the same. */
  lemma AnswerSameFlow(d: Decoded, e: Decoded)
    requires PaddedAddresses(d) && Answers(e, d) && e.network.version == d.network.version
    ensures CanonicalFlow(e).0 == CanonicalFlow(d).0
    ensures CanonicalFlow(e).1 ==
            if d.network.srcAddress == d.network.dstAddress && d.transport.srcPort == d.transport.dstPort
            then CanonicalFlow(d).1 else Opposite(CanonicalFlow(d).1)
  {
    CompareAntisymmetric(SourceOf(d), DestinationOf(d));
  }

  /** Two packets share a flow exactly when their IP versions and their unordered endpoint pairs agree, and then a
      direction exactly when they go the same way. */
  lemma SameFlowIffSamePair(d: Decoded, e: Decoded)
    requires PaddedAddresses(d) && PaddedAddresses(e)
    ensures CanonicalFlow(d).0 == CanonicalFlow(e).0 <==>
            d.network.version == e.network.version && SameEndpoints(e, d)
    ensures CanonicalFlow(d).0 == CanonicalFlow(e).0 ==> (CanonicalFlow(d).1 == CanonicalFlow(e).1 <==> SameWay(e, d))
  {
    CompareAntisymmetric(SourceOf(d), DestinationOf(d));
    CompareAntisymmetric(SourceOf(e), DestinationOf(e));
  }
}
