/** Reading the feed's output back: what it holds of the input, record by record and byte by byte. */
module FeedRoundTrip {
  import opened Bytes
  import opened PacketDecode
  import opened PolicyConfig
  import opened LiveCapturePolicy
  import Policy = LiveCapturePolicy
  import opened PolicyRuns
  import opened PcapReader
  import opened PcapFiles
  import opened PcapWriter
  import opened OfflinePacketFeed

  // ------------------------------------------- time stamps -------------------------------------------

  lemma DivideTwice(n: nat, a: nat, b: nat)
    requires a > 0 && b > 0 && a * b == 1000
    ensures n / a / b == n / 1000
  {
    var x, q := n % a, n / a;
    var y, r := q % b, q / b;
    assert n == a * q + x && q == b * r + y;
    assert a * q == a * (b * r) + a * y == 1000 * r + a * y by {
      assert a * (b * r) == (a * b) * r;
    }
    assert a * y <= a * (b - 1) == 1000 - a;
    assert n == 1000 * r + (a * y + x) && 0 <= a * y + x < 1000;
  }

  lemma AwayFromZero(gap: int, k: nat)
    ensures gap >= 1 ==> gap * k >= k
    ensures gap <= -1 ==> gap * k <= -(k as int)
  {
  }

  lemma DivideBack(n: nat, k: nat)
    requires k > 0
    ensures n * k / k == n
  {
    var gap := n - n * k / k;
    assert gap * k == n * k % k;
    AwayFromZero(gap, k);
  }

  /** The microseconds of a record's time stamp; a nanosecond fraction is truncated. */
  function MicrosOf(r: PacketRecord, precision: Precision): nat {
    r.tsSec * 1_000_000 + if precision == Nanosecond then r.tsFraction / 1000 else r.tsFraction
  }

  /** Ticks made of nanoseconds, or of microseconds, are whole microseconds again. */
  lemma ThroughTicks(n: nat, tickNanos: nat)
    requires ValidTick(tickNanos)
    ensures Micros(n / tickNanos, tickNanos) == n / 1000
    ensures Micros(n * (1000 / tickNanos), tickNanos) == n
  {
    var perMicro := 1000 / tickNanos;
    assert perMicro * tickNanos == 1000;
    DivideTwice(n, tickNanos, perMicro);
    DivideBack(n, perMicro);
  }

  lemma PartsOf(micros: nat)
    ensures SecondsPart(micros) == micros / 1_000_000 % TWO_32 && MicrosPart(micros) == micros % 1_000_000
  {
  }

  /** Whatever resolution the clock has, a time stamp goes through it to the microsecond. */
  lemma TimeKept(r: PacketRecord, precision: Precision, tickNanos: nat)
    requires ValidTick(tickNanos)
    ensures var micros := Micros(r.Timestamp(precision, tickNanos), tickNanos);
            && micros == MicrosOf(r, precision)
            && SecondsPart(micros) == MicrosOf(r, precision) / 1_000_000 % TWO_32
            && MicrosPart(micros) == MicrosOf(r, precision) % 1_000_000
  {
    hide Micros, SecondsPart, MicrosPart;
    if precision == Nanosecond {
      ThroughTicks(r.tsSec * 1_000_000_000 + r.tsFraction, tickNanos);
    } else {
      ThroughTicks(r.tsSec * 1_000_000 + r.tsFraction, tickNanos);
    }
    PartsOf(MicrosOf(r, precision));
  }

  // ------------------------------------------- what is written -------------------------------------------

  /** The record the writer makes of the first `length` bytes of a packet. */
  function WrittenRecord(packet: CapturedPacket, length: u32, tickNanos: nat): (r: FileRecord)
    requires ValidTick(tickNanos) && length <= packet.SafeCapturedLen()
    ensures r.Valid()
  {
    var micros := Micros(packet.timestamp, tickNanos);
    FileRecord(SecondsPart(micros), MicrosPart(micros), Max(packet.originalLen, length), packet.data[..length])
  }

  lemma PacketBytesAreRecord(packet: CapturedPacket, length: u32, tickNanos: nat)
    requires ValidTick(tickNanos) && length <= packet.SafeCapturedLen()
    ensures var r := WrittenRecord(packet, length, tickNanos);
            PacketBytes(packet, length, tickNanos) == RecordHeader(Little, r) + r.data
  {
  }

  /** The packets of the records. */
  function Packets(records: seq<PacketRecord>, precision: Precision, tickNanos: nat): seq<CapturedPacket>
    requires ValidTick(tickNanos)
  {
    if records == [] then []
    else [Captured(records[0], precision, tickNanos)] + Packets(records[1..], precision, tickNanos)
  }

  /** The records the feed writes for the records it reads. */
  function Written(config: Config, h: GlobalHeader, tickNanos: nat, s: Policy.State,
      records: seq<PacketRecord>): (rs: seq<FileRecord>)
    requires ValidTick(tickNanos)
    ensures ValidRecords(rs)
    decreases |records|
  {
    if records == [] then []
    else
      var packet := Captured(records[0], h.precision, tickNanos);
      OutputFits(config, s, packet);
      var (next, decision) := Decide(config, s, packet);
      [WrittenRecord(packet, decision.outputLen, tickNanos)] + Written(config, h, tickNanos, next, records[1..])
  }

  /** Record by record: the bytes kept of its data, its original length, and its time to the microsecond. */
  predicate KeptOf(w: FileRecord, r: PacketRecord, precision: Precision, length: nat) {
    && length <= |r.data| && w.data == r.data[..length] && w.originalLength == r.originalLength
    && w.tsSec == MicrosOf(r, precision) / 1_000_000 % TWO_32 && w.tsFraction == MicrosOf(r, precision) % 1_000_000
  }

  /** A record as the reader lists it. */
  predicate Listed(r: PacketRecord) {
    |r.data| == r.capturedLength <= r.originalLength
  }

  /** The policy was shown exactly the record: its bytes as an Ethernet frame, and its lengths. */
  predicate Shown(packet: CapturedPacket, decision: Decision, r: PacketRecord) {
    && packet.data == r.data && packet.capturedLen == r.capturedLength && packet.originalLen == r.originalLength
    && packet.link == Ethernet && decision.decode == Decode(r.data, Ethernet)
  }

  lemma RecordIsShown(config: Config, s: Policy.State, r: PacketRecord, precision: Precision, tickNanos: nat)
    requires ValidTick(tickNanos) && Listed(r)
    ensures var packet := Captured(r, precision, tickNanos);
            Shown(packet, Decide(config, s, packet).1, r)
  {
    hide Decode, Judge, Classify;
    var packet := Captured(r, precision, tickNanos);
    assert packet.View() == r.data;
  }

  lemma WrittenIsKept(config: Config, s: Policy.State, r: PacketRecord, precision: Precision, tickNanos: nat)
    requires ValidTick(tickNanos) && Listed(r)
    ensures var packet := Captured(r, precision, tickNanos);
            var length := Decide(config, s, packet).1.outputLen;
            && length <= packet.SafeCapturedLen()
            && KeptOf(WrittenRecord(packet, length, tickNanos), r, precision, length)
  {
    hide Decide, Micros, SecondsPart, MicrosPart, MicrosOf;
    OutputFits(config, s, Captured(r, precision, tickNanos));
    TimeKept(r, precision, tickNanos);
  }

  /** As many records are written as are read, each the kept part of its own, after a decision on exactly it. */
  lemma {:induction false} WrittenPointwise(config: Config, h: GlobalHeader, tickNanos: nat, s: Policy.State,
      records: seq<PacketRecord>)
    requires ValidTick(tickNanos) && forall i | 0 <= i < |records| :: Listed(records[i])
    ensures var written := Written(config, h, tickNanos, s, records);
            var packets := Packets(records, h.precision, tickNanos);
            var decisions := Decisions(config, s, packets);
            && |written| == |records| == |decisions| == |packets|
            && forall i | 0 <= i < |records| ::
                 && Shown(packets[i], decisions[i], records[i])
                 && KeptOf(written[i], records[i], h.precision, decisions[i].outputLen)
    decreases |records|
  {
    hide Decide, KeptOf, Shown, Captured, WrittenRecord;
    if records != [] {
      var packet := Captured(records[0], h.precision, tickNanos);
      RecordIsShown(config, s, records[0], h.precision, tickNanos);
      WrittenIsKept(config, s, records[0], h.precision, tickNanos);
      WrittenPointwise(config, h, tickNanos, Decide(config, s, packet).0, records[1..]);
      var rest := Packets(records[1..], h.precision, tickNanos);
      assert ([packet] + rest)[1..] == rest;
    }
  }

  // ------------------------------------------- bytes and counts -------------------------------------------

  function TotalCaptured(records: seq<PacketRecord>): nat {
    if records == [] then 0 else records[0].capturedLength + TotalCaptured(records[1..])
  }

  function TotalData(rs: seq<FileRecord>): nat {
    if rs == [] then 0 else |rs[0].data| + TotalData(rs[1..])
  }

  lemma {:induction false} SizeIsData(rs: seq<FileRecord>)
    ensures SizeOf(rs) == PACKET_HEADER_SIZE * |rs| + TotalData(rs)
  {
    if rs != [] {
      SizeIsData(rs[1..]);
    }
  }

  /** One record fed: the bytes written are its header and data, and they are counted. */
  lemma FeedsOne(config: Config, h: GlobalHeader, tickNanos: nat, p: Progress, r: PacketRecord)
    requires ValidTick(tickNanos) && Listed(r)
    ensures var packet := Captured(r, h.precision, tickNanos);
            var (next, decision) := Decide(config, p.memory, packet);
            var q := FeedOne(config, h, tickNanos, p, r);
            && decision.outputLen <= packet.SafeCapturedLen() && q.memory == next
            && var w := WrittenRecord(packet, decision.outputLen, tickNanos);
               && q.output == p.output + (if p.output == [] then GlobalHeaderBytes(h.snaplen, Ethernet) else [])
                                + (RecordHeader(Little, w) + w.data)
               && q.stats.bytesSaved == p.stats.bytesSaved
               && q.stats.bytesInput == p.stats.bytesInput + r.capturedLength
               && q.stats.bytesOutput == p.stats.bytesOutput + |w.data|
               && |w.data| <= r.capturedLength
               && q.stats.packetsTotal == p.stats.packetsTotal + 1
               && q.stats.packetsWritten == p.stats.packetsWritten + 1
  {
    hide Decide, PacketBytes, RecordHeader, GlobalHeaderBytes, WrittenRecord;
    var packet := Captured(r, h.precision, tickNanos);
    OutputFits(config, p.memory, packet);
    PacketBytesAreRecord(packet, Decide(config, p.memory, packet).1.outputLen, tickNanos);
    WrittenIsKept(config, p.memory, r, h.precision, tickNanos);
  }

  /** A run of the feed appends the global header, unless it is there, and the written records; and it counts packets
      and bytes exactly. */
  lemma {:induction false} FeedWrites(config: Config, h: GlobalHeader, tickNanos: nat, p: Progress,
      records: seq<PacketRecord>)
    requires ValidTick(tickNanos) && forall i | 0 <= i < |records| :: Listed(records[i])
    ensures var end := Feed(config, h, tickNanos, p, records);
            var written := Written(config, h, tickNanos, p.memory, records);
            && end.output == p.output + (if p.output == [] && records != [] then GlobalHeaderBytes(h.snaplen,
                Ethernet) else [])
                               + RecordsBytes(Little, written)
            && end.stats.packetsTotal == p.stats.packetsTotal + |records|
            && end.stats.packetsWritten == p.stats.packetsWritten + |records|
            && end.stats.bytesSaved == p.stats.bytesSaved
            && end.stats.bytesInput == p.stats.bytesInput + TotalCaptured(records)
            && end.stats.bytesOutput == p.stats.bytesOutput + TotalData(written)
            && TotalData(written) <= TotalCaptured(records)
    decreases |records|
  {
    hide Decide, FeedOne, RecordHeader, GlobalHeaderBytes, WrittenRecord, Captured;
    if records != [] {
      var q := FeedOne(config, h, tickNanos, p, records[0]);
      FeedsOne(config, h, tickNanos, p, records[0]);
      FeedWrites(config, h, tickNanos, q, records[1..]);
    }
  }

  // ------------------------------------------- the round trip -------------------------------------------

  /** The global header of every output: little-endian microseconds, with the input's snaplen. */
  function OutputHeader(snaplen: u32): GlobalHeader {
    GlobalHeader([0xD4, 0xC3, 0xB2, 0xA1], Little, Microsecond, 2, 4, 0, 0, snaplen, 1)
  }

  lemma OutputHeaderIsWritten(snaplen: u32)
    ensures GlobalHeaderBytes(snaplen, Ethernet) == HeaderBytes(OutputHeader(snaplen))
    ensures GlobalHeaderBytes(snaplen, Null) == HeaderBytes(OutputHeader(snaplen).(linkType := 0))
    ensures |GlobalHeaderBytes(snaplen, Ethernet)| == GLOBAL_HEADER_SIZE
  {
    assert Le32(MICROSECOND_MAGIC) == [0xD4, 0xC3, 0xB2, 0xA1];
    HeaderIsWhole(OutputHeader(snaplen));
  }

  lemma {:induction false} PlacementAt(rs: seq<FileRecord>, offset: nat, index: nat)
    requires ValidRecords(rs)
    ensures |Placement(rs, offset, index)| == |rs|
    ensures forall i | 0 <= i < |rs| ::
              Listed(Placement(rs, offset, index)[i]) && Content(Placement(rs, offset, index)[i]) == rs[i]
              && Placement(rs, offset, index)[i].index == index + i
    decreases |rs|
  {
    if rs != [] {
      PlacementAt(rs[1..], offset + rs[0].Size(), index + 1);
    }
  }

  lemma InputIsListed(file: bytes, e: Endianness, records: seq<PacketRecord>)
    requires |file| >= GLOBAL_HEADER_SIZE && records == ReadAll(file, e, GLOBAL_HEADER_SIZE, 0).records
    ensures forall i | 0 <= i < |records| :: Listed(records[i])
  {
    hide ReadAll, RecordsBytes, Listed, Content;
    ListedIsThere(file, e, GLOBAL_HEADER_SIZE, 0, ReadAll(file, e, GLOBAL_HEADER_SIZE, 0));
    PlacementAt(Contents(records), GLOBAL_HEADER_SIZE, 0);
  }

  /** A file of a supported header and records reads back as them. */
  lemma FileReadsBack(h: GlobalHeader, rs: seq<FileRecord>, file: bytes)
    requires Supported(h) && ValidRecords(rs) && file == HeaderBytes(h) + RecordsBytes(h.endianness, rs)
    ensures Opened(file) == JustOpened(file, h)
    ensures |file| == GLOBAL_HEADER_SIZE + SizeOf(rs)
    ensures ReadAll(file, h.endianness, GLOBAL_HEADER_SIZE, 0) == Listing(Placement(rs, GLOBAL_HEADER_SIZE, 0),
            NoError, NoTail)
  {
    hide HeaderBytes, RecordsBytes, Get32, Get16, ReadAll;
    HeaderIsWhole(h);
    assert Holds(file, 0, HeaderBytes(h));
    HeaderOpens(h, file);
    assert file[GLOBAL_HEADER_SIZE..] == RecordsBytes(h.endianness, rs);
    RecordsRead(file, GLOBAL_HEADER_SIZE, h.endianness, rs, 0);
  }

  /** The feed ended at `end` on `records`, and its output, read back, is the input cut as the policy decided: the same
      number of records in the same order, each with the first `outputLen` bytes of its data, its original length, and
      its time truncated to microseconds, its seconds modulo 2^32. The output's size and the counted bytes agree. */
  predicate ReadsBack(end: Progress, config: Config, h: GlobalHeader, tickNanos: nat, records: seq<PacketRecord>)
    requires ValidTick(tickNanos)
  {
    && Opened(end.output) == JustOpened(end.output, OutputHeader(h.snaplen))
    && |end.output| == GLOBAL_HEADER_SIZE + PACKET_HEADER_SIZE * |records| + end.stats.bytesOutput
    && end.stats.packetsTotal == end.stats.packetsWritten == |records|
    && end.stats.bytesOutput <= end.stats.bytesInput == TotalCaptured(records)
    && var back := ReadAll(end.output, Little, GLOBAL_HEADER_SIZE, 0);
       var packets := Packets(records, h.precision, tickNanos);
       var decisions := Decisions(config, EMPTY, packets);
       && back.error == NoError && |back.records| == |records| == |decisions| == |packets|
       && forall i | 0 <= i < |records| ::
            && Shown(packets[i], decisions[i], records[i])
            && back.records[i].index == i
            && KeptOf(Content(back.records[i]), records[i], h.precision, decisions[i].outputLen)
  }

  lemma OutputOf(config: Config, tickNanos: nat, h: GlobalHeader, records: seq<PacketRecord>, end: Progress)
    requires ValidTick(tickNanos) && end == Feed(config, h, tickNanos, START, records)
    requires records != [] && h.snaplen != 0 && forall i | 0 <= i < |records| :: Listed(records[i])
    ensures ReadsBack(end, config, h, tickNanos, records)
  {
    hide ReadAll, Decide, Decisions, FeedOne, Feed, Packets, Written, KeptOf, Shown;
    hide RecordsBytes, HeaderBytes, GlobalHeaderBytes;
    var written := Written(config, h, tickNanos, EMPTY, records);
    FeedWrites(config, h, tickNanos, START, records);
    WrittenPointwise(config, h, tickNanos, EMPTY, records);
    OutputHeaderIsWritten(h.snaplen);
    assert end.output == HeaderBytes(OutputHeader(h.snaplen)) + RecordsBytes(Little, written);
    FileReadsBack(OutputHeader(h.snaplen), written, end.output);
    PlacementAt(written, GLOBAL_HEADER_SIZE, 0);
    SizeIsData(written);
  }

  /** End to end: of every input that opens and has a record, the output reads back as the input cut as decided. */
  lemma OutputReadsBack(input: bytes, config: Config, tickNanos: nat)
    requires ValidTick(tickNanos)
    ensures Opened(input).isOpen ==>
              var h := Opened(input).header;
              var records := ReadAll(input, h.endianness, GLOBAL_HEADER_SIZE, 0).records;
              records != [] ==> ReadsBack(Feed(config, h, tickNanos, START, records), config, h, tickNanos, records)
  {
    hide ReadAll, Feed, ReadsBack, HeaderAt;
    if Opened(input).isOpen {
      var h := Opened(input).header;
      var records := ReadAll(input, h.endianness, GLOBAL_HEADER_SIZE, 0).records;
      InputIsListed(input, h.endianness, records);
      if records != [] {
        OutputOf(config, tickNanos, h, records, Feed(config, h, tickNanos, START, records));
      }
    }
  }

  /** The bytes counted in are the captured bytes of the records. Of an input that reads without fault each is counted
      once more, as written or as saved; of another, the fault is reported and no byte is counted as saved. */
  lemma BytesAddUp(input: bytes, config: Config, tickNanos: nat)
    requires ValidTick(tickNanos)
    ensures Opened(input).isOpen ==>
              var h := Opened(input).header;
              var listing := ReadAll(input, h.endianness, GLOBAL_HEADER_SIZE, 0);
              var result := Finished(Feed(config, h, tickNanos, START, listing.records).stats, listing.error);
              && result.error == listing.error && result.stats.bytesInput == TotalCaptured(listing.records)
              && (listing.error == NoError ==>
                    && result.stats.bytesInput == result.stats.bytesOutput + result.stats.bytesSaved
                    && result.stats.bytesSaved >= 0)
              && (listing.error != NoError ==> result.stats.bytesSaved == 0)
  {
    hide ReadAll, Feed, HeaderAt;
    if Opened(input).isOpen {
      var h := Opened(input).header;
      var records := ReadAll(input, h.endianness, GLOBAL_HEADER_SIZE, 0).records;
      InputIsListed(input, h.endianness, records);
      FeedWrites(config, h, tickNanos, START, records);
    }
  }

  /** An input without records gives an empty output, not even a global header; any other input gives one. */
  lemma EmptyOutputIff(config: Config, h: GlobalHeader, tickNanos: nat, records: seq<PacketRecord>)
    requires ValidTick(tickNanos) && forall i | 0 <= i < |records| :: Listed(records[i])
    ensures Feed(config, h, tickNanos, START, records).output == [] <==> records == []
  {
    hide Decide, FeedOne, RecordsBytes, GlobalHeaderBytes, Written;
    FeedWrites(config, h, tickNanos, START, records);
    OutputHeaderIsWritten(h.snaplen);
  }

  // ------------------------------------------- the counters -------------------------------------------

  function CountOf(decisions: seq<Decision>, reasons: set<Reason>): nat {
    if decisions == [] then 0 else (if decisions[0].reason in reasons then 1 else 0) + CountOf(decisions[1..], reasons)
  }

  lemma CountsOne(config: Config, h: GlobalHeader, tickNanos: nat, p: Progress, r: PacketRecord)
    requires ValidTick(tickNanos)
    ensures var (next, decision) := Decide(config, p.memory, Captured(r, h.precision, tickNanos));
            var q := FeedOne(config, h, tickNanos, p, r);
            q.memory == next && q.stats == Counted(p.stats, r.capturedLength, decision)
  {
    hide Decide, PacketBytes, GlobalHeaderBytes, Counted;
  }

  lemma DecisionsCons(config: Config, h: GlobalHeader, tickNanos: nat, s: Policy.State, records: seq<PacketRecord>)
    requires ValidTick(tickNanos) && records != []
    ensures var (next, decision) := Decide(config, s, Captured(records[0], h.precision, tickNanos));
            Decisions(config, s, Packets(records, h.precision, tickNanos))
            == [decision] + Decisions(config, next, Packets(records[1..], h.precision, tickNanos))
  {
    hide Decide, Captured;
    var packet, rest := Captured(records[0], h.precision, tickNanos), Packets(records[1..], h.precision, tickNanos);
    assert ([packet] + rest)[1..] == rest;
  }

  /** The counters of `after` are those of `before` and the decisions that have their reasons. */
  predicate Counts(before: Stats, after: Stats, decisions: seq<Decision>) {
    && after.tlsAppdataConstricted == before.tlsAppdataConstricted + CountOf(decisions, {TlsApplicationDataConstricted})
    && after.tlsFallback == before.tlsFallback + CountOf(decisions, {TlsMalformedFallback, TlsNoRecordFallback})
    && after.quicLongHeader == before.quicLongHeader + CountOf(decisions, {QuicLongHeader})
    && after.quicShortMatched == before.quicShortMatched + CountOf(decisions, {QuicShortHeaderMatched})
    && after.quicShortConstricted == before.quicShortConstricted + CountOf(decisions, {QuicShortHeaderConstricted})
    && after.quicFallback == before.quicFallback + CountOf(decisions,
         {QuicShortHeaderUnknownCidFallback, QuicShortHeaderDcidMismatchFallback, QuicMalformedFallback})
  }

  lemma CountsCons(before: Stats, captured: u32, first: Decision, after: Stats, rest: seq<Decision>)
    requires Counts(Counted(before, captured, first), after, rest)
    ensures Counts(before, after, [first] + rest)
  {
    assert ([first] + rest)[1..] == rest;
  }

  /** Every counter counts the decisions with its reasons. */
  lemma {:induction false} CountersCount(config: Config, h: GlobalHeader, tickNanos: nat, p: Progress,
      records: seq<PacketRecord>)
    requires ValidTick(tickNanos)
    ensures Counts(p.stats, Feed(config, h, tickNanos, p, records).stats,
                   Decisions(config, p.memory, Packets(records, h.precision, tickNanos)))
    decreases |records|
  {
    if records != [] {
      hide Decide, FeedOne, Captured, Packets, Decisions, Counts, Counted;
      var (next, decision) := Decide(config, p.memory, Captured(records[0], h.precision, tickNanos));
      var q := FeedOne(config, h, tickNanos, p, records[0]);
      CountsOne(config, h, tickNanos, p, records[0]);
      DecisionsCons(config, h, tickNanos, p.memory, records);
      CountersCount(config, h, tickNanos, q, records[1..]);
      CountsCons(p.stats, records[0].capturedLength, decision, Feed(config, h, tickNanos, q, records[1..]).stats,
                 Decisions(config, next, Packets(records[1..], h.precision, tickNanos)));
    }
  }

  /** From the start of a file each counter is the number of decisions with its reasons. */
  lemma FeedCounts(config: Config, h: GlobalHeader, tickNanos: nat, records: seq<PacketRecord>)
    requires ValidTick(tickNanos)
    ensures var stats := Feed(config, h, tickNanos, START, records).stats;
            var decisions := Decisions(config, EMPTY, Packets(records, h.precision, tickNanos));
            && stats.tlsAppdataConstricted == CountOf(decisions, {TlsApplicationDataConstricted})
            && stats.tlsFallback == CountOf(decisions, {TlsMalformedFallback, TlsNoRecordFallback})
            && stats.quicLongHeader == CountOf(decisions, {QuicLongHeader})
            && stats.quicShortMatched == CountOf(decisions, {QuicShortHeaderMatched})
            && stats.quicShortConstricted == CountOf(decisions, {QuicShortHeaderConstricted})
            && stats.quicFallback == CountOf(decisions,
                 {QuicShortHeaderUnknownCidFallback, QuicShortHeaderDcidMismatchFallback, QuicMalformedFallback})
  {
    hide Feed, Decisions, Packets, CountOf;
    CountersCount(config, h, tickNanos, START, records);
  }

  lemma SavesOne(config: Config, h: GlobalHeader, tickNanos: nat, p: Progress, r: PacketRecord)
    requires ValidTick(tickNanos) && Listed(r)
    ensures var q := FeedOne(config, h, tickNanos, p, r);
            var more := q.stats.tlsAppdataConstricted + q.stats.quicShortConstricted
                      - p.stats.tlsAppdataConstricted - p.stats.quicShortConstricted;
            && 0 <= more <= 1
            && (q.stats.bytesInput - q.stats.bytesOutput) - (p.stats.bytesInput - p.stats.bytesOutput)
               >= (if more == 1 then config.minSavedBytes else 0)
  {
    hide Decide, PacketBytes, GlobalHeaderBytes;
    LengthGuarantee(config, p.memory, Captured(r, h.precision, tickNanos));
  }

  /** Every constricted packet saves at least the configured number of bytes. */
  lemma {:induction false} SavingsAddUp(config: Config, h: GlobalHeader, tickNanos: nat, p: Progress,
      records: seq<PacketRecord>)
    requires ValidTick(tickNanos) && forall i | 0 <= i < |records| :: Listed(records[i])
    ensures var end := Feed(config, h, tickNanos, p, records).stats;
            var constricted := end.tlsAppdataConstricted + end.quicShortConstricted
                             - p.stats.tlsAppdataConstricted - p.stats.quicShortConstricted;
            && constricted >= 0
            && (end.bytesInput - end.bytesOutput) - (p.stats.bytesInput - p.stats.bytesOutput)
               >= config.minSavedBytes * constricted
    decreases |records|
  {
    hide FeedOne;
    if records != [] {
      var q := FeedOne(config, h, tickNanos, p, records[0]);
      SavesOne(config, h, tickNanos, p, records[0]);
      SavingsAddUp(config, h, tickNanos, q, records[1..]);
    }
  }
}
