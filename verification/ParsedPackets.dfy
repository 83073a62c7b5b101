/** What parses is what was written: every long header the recorder accepts is that of a serialised packet, and a
    payload is taken as QUIC exactly when it is a datagram coalesced from such packets. */
module ParsedPackets {
  import opened Bytes
  import opened PolicyConfig
  import opened QuicPackets
  import Quic = QuicConstrictor

  /** The octets from `from` to `end` spell their own value. */
  lemma {:induction false} OctetsSpell(data: bytes, from: nat, end: nat)
    requires from <= end <= |data|
    ensures Append(data, from, end, 0) < Pow256(end - from)
    ensures Holds(data, from, ToBigEndian(Append(data, from, end, 0), end - from))
    decreases end - from
  {
    if from < end {
      var init := Append(data, from, end - 1, 0);
      OctetsSpell(data, from, end - 1);
      AppendLast(data, from, end, 0);
      assert Append(data, from, end, 0) / 0x100 == init;
      SliceHolds(data, end - 1, [data[end - 1]]);
      HoldsJoin(data, from, ToBigEndian(init, end - 1 - from), [data[end - 1]]);
    }
  }

  function FormOf(first: byte): Form {
    match first / 0x40
    case 0 => Octets1
    case 1 => Octets2
    case 2 => Octets4
    case _ => Octets8
  }

  lemma HeadAndRest(form: Form, head: nat, rest: nat)
    requires head < 0x40 && rest < form.Weight()
    ensures form.Fits(head * form.Weight() + rest)
    ensures (head * form.Weight() + rest) / form.Weight() == head
    ensures (head * form.Weight() + rest) % form.Weight() == rest
  {
    match form
    case Octets1 =>
    case Octets2 =>
    case Octets4 =>
    case Octets8 =>
  }

  /** Every integer read is one of the encodings of its value. */
  lemma VarintIsSpelled(data: bytes, offset: nat, read: IntRead)
    requires read == Varint(data, offset) && read.Int?
    ensures offset < read.next <= |data| && Spells(data[offset..read.next], read.value)
  {
    hide Append, ToBigEndian, Holds;
    var first := data[offset];
    var form, head := FormOf(first), first % 0x40;
    var rest := Append(data, offset + 1, read.next, 0);
    OctetsSpell(data, offset + 1, read.next);
    WeightIsPow(form);
    AppendUndoes(data, offset + 1, head, rest, form.Tail());
    HeadAndRest(form, head, rest);
    SliceHolds(data, offset, [first]);
    HoldsJoin(data, offset, [first], ToBigEndian(rest, form.Tail()));
    HoldsIsSlice(data, offset, EncodeVarint(read.value, form));
  }

  lemma CountedIsSpelled(data: bytes, offset: nat, next: Option<nat>) returns (code: bytes, content: bytes)
    requires next == SkipCounted(data, offset) && next.Some?
    ensures Spells(code, |content|) && Holds(data, offset, code + content) && next == Some(offset + |code + content|)
  {
    hide Varint, Spells;
    var read := Varint(data, offset);
    VarintIsSpelled(data, offset, read);
    code, content := data[offset..read.next], data[read.next..next.value];
    SliceHolds(data, offset, code + content);
  }

  lemma IdIsThere(data: bytes, offset: nat, read: IdRead)
    requires read == ConnectionIdAt(data, offset) && read.Id?
    ensures |read.id| <= MAX_CONNECTION_ID && Holds(data, offset, [|read.id|] + read.id) &&
            read.next == offset + 1 + |read.id|
  {
    SliceHolds(data, offset, [|read.id|] + read.id);
  }

  lemma InvariantIsThere(payload: bytes, start: nat, read: Option<Invariant>)
    requires read == InvariantAt(payload, start) && read.Some?
    ensures var h := read.value;
            && IsLongHeader(payload[start]) && h.packetType == PacketType(payload[start]) && h.version != 0
            && |h.dcid| <= MAX_CONNECTION_ID && |h.scid| <= MAX_CONNECTION_ID
            && h.next == start + 7 + |h.dcid| + |h.scid|
            && Holds(payload, start, ([payload[start]] + Be32(h.version)) + ([|h.dcid| % 0x100] + h.dcid) +
                ([|h.scid| % 0x100] + h.scid))
  {
    hide ReadBe32, Holds, ConnectionIdAt;
    var h, first := read.value, [payload[start]];
    var dcid := ConnectionIdAt(payload, start + 5);
    SliceHolds(payload, start, first);
    Be32Undoes(payload, start + 1);
    HoldsJoin(payload, start, first, Be32(h.version));
    IdIsThere(payload, start + 5, dcid);
    HoldsJoin(payload, start, first + Be32(h.version), [|h.dcid| % 0x100] + h.dcid);
    IdIsThere(payload, dcid.next, ConnectionIdAt(payload, dcid.next));
    HoldsJoin(payload, start, (first + Be32(h.version)) + ([|h.dcid| % 0x100] + h.dcid), [|h.scid| % 0x100] + h.scid);
  }

  /** The rest of a packet after its invariant part. */
  lemma SuffixIsThere(payload: bytes, packetType: byte, offset: nat, end: Option<nat>)
    returns (tokenLength: bytes, token: bytes, bodyLength: bytes, body: bytes)
    requires offset <= |payload| && end == PacketEnd(payload, packetType, offset) && end.Some?
    ensures packetType == INITIAL ==> Spells(tokenLength, |token|)
    ensures packetType != RETRY ==> Spells(bodyLength, |body|)
    ensures packetType == RETRY ==> end == Some(|payload|)
    ensures var suffix := if packetType == RETRY then body
                          else if packetType == INITIAL then (tokenLength + token) + (bodyLength + body)
                          else bodyLength + body;
            Holds(payload, offset, suffix) && end == Some(offset + |suffix|)
  {
    hide Spells, SkipCounted, Holds;
    tokenLength, token, bodyLength, body := [], [], [], [];
    if packetType == RETRY {
      body := payload[offset..];
      SliceHolds(payload, offset, body);
    } else if packetType == INITIAL {
      var next := SkipCounted(payload, offset);
      tokenLength, token := CountedIsSpelled(payload, offset, next);
      bodyLength, body := CountedIsSpelled(payload, next.value, end);
      HoldsJoin(payload, offset, tokenLength + token, bodyLength + body);
    } else {
      bodyLength, body := CountedIsSpelled(payload, offset, end);
    }
  }

  lemma FirstSplits(first: byte, p: Packet)
    requires IsLongHeader(first)
    requires p.fixed == (first / 0x40 % 2 == 1) && p.packetType == first / 0x10 % 4 && p.low == first % 0x10
    ensures p.First() == first && PacketType(first) == p.packetType
  {
  }

  /** Every long header accepted is that of a serialised packet, which lies where it was found. */
  lemma HeaderIsWritten(payload: bytes, start: nat, header: Option<LongHeader>) returns (p: Packet)
    requires header == LongHeaderAt(payload, start) && header.Some?
    ensures p.Valid() && header == Some(p.Header()) && Holds(payload, start, p.Encode())
    ensures p.IsRetry() ==> start + |p.Encode()| == |payload|
  {
    hide InvariantAt, PacketEnd, Holds, Spells, IsLongHeader, PacketType, Packet.First;
    var read := InvariantAt(payload, start);
    InvariantIsThere(payload, start, read);
    var h := read.value;
    var end := PacketEnd(payload, h.packetType, h.next);
    var tokenLength, token, bodyLength, body := SuffixIsThere(payload, h.packetType, h.next, end);
    var first := payload[start];
    p := Packet(first / 0x40 % 2 == 1, first / 0x10 % 4, first % 0x10, h.version, h.dcid, h.scid,
                tokenLength, token, bodyLength, body);
    FirstSplits(first, p);
    HoldsJoin(payload, start, p.Prefix(), p.Suffix());
  }

  /** What parses without fault from `offset` on is coalesced from packets. */
  lemma {:induction false} FaultlessIsCoalesced(payload: bytes, offset: nat, parsed: Coalesced)
    returns (packets: seq<Packet>, tail: bytes)
    requires offset <= |payload| && parsed == LongHeaders(payload, offset) && !parsed.malformed
    ensures ValidDatagram(packets, tail) && payload[offset..] == EncodeAll(packets) + tail
    decreases |payload| - offset
  {
    hide LongHeaderAt, Packet.Encode, Packet.Valid;
    if offset == |payload| || !IsLongHeader(payload[offset]) {
      packets, tail := [], payload[offset..];
    } else {
      var header := LongHeaderAt(payload, offset);
      var p := HeaderIsWritten(payload, offset, header);
      var next := offset + header.value.size;
      var rest;
      rest, tail := FaultlessIsCoalesced(payload, next, LongHeaders(payload, next));
      packets := [p] + rest;
      assert packets[1..] == rest;
      HoldsIsSlice(payload, offset, p.Encode());
      assert payload[offset..] == payload[offset..next] + payload[next..];
      Associative(p.Encode(), EncodeAll(rest), tail);
      RetryIsLast(p, rest, tail);
    }
  }

  lemma NothingIsEmpty(packets: seq<Packet>, tail: bytes)
    ensures EncodeAll(packets) + tail == [] ==> packets == [] && tail == []
  {
    assert packets != [] ==> |packets[0].Encode()| >= 7;
  }

  lemma RetryIsLast(p: Packet, rest: seq<Packet>, tail: bytes)
    requires p.Valid() && ValidDatagram(rest, tail)
    requires p.IsRetry() ==> EncodeAll(rest) + tail == []
    ensures ValidDatagram([p] + rest, tail)
  {
    NothingIsEmpty(rest, tail);
    forall i | 0 <= i < |rest| + 1 && ([p] + rest)[i].IsRetry() ensures i == |rest| && tail == [] {
      if i > 0 {
        assert ([p] + rest)[i] == rest[i - 1];
      }
    }
  }

  /** No long header of a UDP payload fails to parse if and only if the payload is serialised long-header packets,
      followed by nothing or by something that starts no long header. */
  lemma FaultlessIffCoalesced(payload: bytes)
    ensures !LongHeaders(payload, 0).malformed <==>
            exists packets, tail :: ValidDatagram(packets, tail) && payload == EncodeAll(packets) + tail
  {
    hide LongHeaders, ValidDatagram, EncodeAll;
    if !LongHeaders(payload, 0).malformed {
      var packets, tail := FaultlessIsCoalesced(payload, 0, LongHeaders(payload, 0));
      assert payload[0..] == payload;
    }
    forall packets, tail | ValidDatagram(packets, tail) && payload == EncodeAll(packets) + tail
      ensures !LongHeaders(payload, 0).malformed
    {
      CoalescedUndoes(packets, tail);
    }
  }

  /** A datagram as section 12.2 of RFC 9000 allows it: what follows the long-header packets, if anything, is a packet
      with a short header, its form bit clear and its fixed bit set. */
  ghost predicate QuicDatagram(packets: seq<Packet>, tail: bytes) {
    ValidDatagram(packets, tail) && (tail != [] ==> tail[0] / 0x40 == 1)
  }

  lemma ShapeOfDatagram(packets: seq<Packet>, tail: bytes, peer: Option<bytes>, config: QuicOptions, parsed: Coalesced)
    requires ValidDatagram(packets, tail) && EncodeAll(packets) + tail != []
    requires parsed == LongHeaders(EncodeAll(packets) + tail, 0)
    ensures Quic.ShapeAt(peer, EncodeAll(packets) + tail, parsed, config)
              !in {Quic.KeepAll(Quic.MalformedFallback), Quic.KeepAll(Quic.NotApplicable)}
            <==> QuicDatagram(packets, tail) && (tail == [] || peer.None? || |tail| >= 1 + |peer.value|)
  {
    hide LongHeaders, EncodeAll, ValidDatagram;
    CoalescedUndoes(packets, tail);
    assert EncodeAll(packets) == [] <==> packets == [] by {
      NothingIsEmpty(packets, []);
      assert EncodeAll(packets) + [] == EncodeAll(packets);
      NoPackets();
    }
    assert tail != [] ==> (EncodeAll(packets) + tail)[|EncodeAll(packets)|] == tail[0];
  }

  lemma NoPackets()
    ensures EncodeAll([]) == []
  {
  }

  /** A UDP payload is taken as QUIC, neither malformed nor not applicable, if and only if it is a datagram as section
      12.2 of RFC 9000 allows it, and one long enough for the ID its short header must carry, if one was announced. */
  lemma TakenIffDatagram(payload: bytes, peer: Option<bytes>, config: QuicOptions)
    requires payload != []
    ensures Quic.ShapeAt(peer, payload, LongHeaders(payload, 0), config)
              !in {Quic.KeepAll(Quic.MalformedFallback), Quic.KeepAll(Quic.NotApplicable)}
            <==> exists packets, tail ::
              && QuicDatagram(packets, tail) && payload == EncodeAll(packets) + tail
              && (tail == [] || peer.None? || |tail| >= 1 + |peer.value|)
  {
    hide LongHeaders, EncodeAll, ValidDatagram, Quic.ShapeAt;
    var parsed := LongHeaders(payload, 0);
    if parsed.malformed {
      MalformedIsNotTaken(payload, peer, config, parsed);
    } else {
      var packets, tail := FaultlessIsCoalesced(payload, 0, parsed);
      assert payload == payload[0..] == EncodeAll(packets) + tail;
      ShapeOfDatagram(packets, tail, peer, config, parsed);
    }
    forall packets, tail | QuicDatagram(packets, tail) && payload == EncodeAll(packets) + tail
                           && (tail == [] || peer.None? || |tail| >= 1 + |peer.value|)
      ensures Quic.ShapeAt(peer, payload, parsed, config)
                !in {Quic.KeepAll(Quic.MalformedFallback), Quic.KeepAll(Quic.NotApplicable)}
    {
      ShapeOfDatagram(packets, tail, peer, config, parsed);
    }
  }

  lemma MalformedIsNotTaken(payload: bytes, peer: Option<bytes>, config: QuicOptions, parsed: Coalesced)
    requires parsed.end <= |payload| && parsed.malformed
    ensures Quic.ShapeAt(peer, payload, parsed, config) == Quic.KeepAll(Quic.MalformedFallback)
  {
  }
}
