/** The offline feed: reads a PCAP file, lets the policy judge every packet, and writes what is to be kept. */
module OfflinePacketFeed {
  import opened Bytes
  import opened PacketDecode
  import opened PolicyConfig
  import opened LiveCapturePolicy
  import Policy = LiveCapturePolicy
  import opened PolicyRuns
  import opened PcapReader
  import Reader = PcapReader
  import opened PcapFiles
  import opened PcapWriter
  import Writer = PcapWriter

  datatype Stats = Stats(
    packetsTotal: nat,
    packetsWritten: nat,
    bytesInput: nat,
    bytesOutput: nat,
    bytesSaved: int,
    tlsAppdataConstricted: nat,
    tlsFallback: nat,
    quicLongHeader: nat,
    quicShortMatched: nat,
    quicShortConstricted: nat,
    quicFallback: nat)

  const NO_STATS := Stats(0, 0, 0, 0, 0, 0, 0, 0, 0, 0, 0)

  function AccumulateDecision(stats: Stats, reason: Reason): Stats {
    match reason
    case TlsApplicationDataConstricted => stats.(tlsAppdataConstricted := stats.tlsAppdataConstricted + 1)
    case TlsMalformedFallback => stats.(tlsFallback := stats.tlsFallback + 1)
    case TlsNoRecordFallback => stats.(tlsFallback := stats.tlsFallback + 1)
    case QuicLongHeader => stats.(quicLongHeader := stats.quicLongHeader + 1)
    case QuicShortHeaderMatched => stats.(quicShortMatched := stats.quicShortMatched + 1)
    case QuicShortHeaderConstricted => stats.(quicShortConstricted := stats.quicShortConstricted + 1)
    case QuicShortHeaderUnknownCidFallback => stats.(quicFallback := stats.quicFallback + 1)
    case QuicShortHeaderDcidMismatchFallback => stats.(quicFallback := stats.quicFallback + 1)
    case QuicMalformedFallback => stats.(quicFallback := stats.quicFallback + 1)
    case _ => stats
  }

  datatype Result = Result(stats: Stats, error: Error)

  /** The packet the policy is shown for a record. */
  function Captured(r: PacketRecord, precision: Precision, tickNanos: nat): CapturedPacket
    requires ValidTick(tickNanos)
  {
    CapturedPacket(r.data, r.capturedLength, r.originalLength, r.Timestamp(precision, tickNanos), Ethernet)
  }

  // --------------------------------------- what the feed computes ---------------------------------------

  /** How far the feed has come: what the policy remembers, what is written, and what is counted. */
  datatype Progress = Progress(memory: Policy.State, output: bytes, stats: Stats)

  const START := Progress(EMPTY, [], NO_STATS)

  function Counted(stats: Stats, captured: u32, decision: Decision): Stats {
    AccumulateDecision(stats.(packetsTotal := stats.packetsTotal + 1, packetsWritten := stats.packetsWritten + 1,
                              bytesInput := stats.bytesInput + captured,
                              bytesOutput := stats.bytesOutput + decision.outputLen),
                       decision.reason)
  }

  /** The global header comes with the first packet. */
  function FeedOne(config: Config, h: GlobalHeader, tickNanos: nat, p: Progress, r: PacketRecord): Progress
    requires ValidTick(tickNanos)
  {
    var packet := Captured(r, h.precision, tickNanos);
    var (next, decision) := Decide(config, p.memory, packet);
    OutputFits(config, p.memory, packet);
    Progress(next,
             p.output + (if p.output == [] then GlobalHeaderBytes(h.snaplen, Ethernet) else [])
               + PacketBytes(packet, decision.outputLen, tickNanos),
             Counted(p.stats, r.capturedLength, decision))
  }

  function Feed(config: Config, h: GlobalHeader, tickNanos: nat, p: Progress, records: seq<PacketRecord>): Progress
    requires ValidTick(tickNanos)
    decreases |records|
  {
    if records == [] then p
    else Feed(config, h, tickNanos, FeedOne(config, h, tickNanos, p, records[0]), records[1..])
  }

  /** The result once the reader has no more records: the saved bytes are only counted when it ended without fault. */
  function Finished(stats: Stats, error: Error): Result {
    if error != NoError then Result(stats, error)
    else Result(stats.(bytesSaved := stats.bytesInput - stats.bytesOutput), NoError)
  }

  // ------------------------------------------------ the loop ------------------------------------------------

  /** What a reader that is open will still list. */
  function Rest(s: ReaderState): Listing
    requires s.offset <= |s.file|
  {
    if s.error != NoError then Listing([], s.error, s.tail) else ReadAll(s.file, s.header.endianness, s.offset, s.index)
  }

  /** What it will still list, `next` being its last answer. */
  function Pending(next: Next, s: ReaderState): Listing
    requires s.offset <= |s.file|
  {
    if next.NextRecord? then Rest(s).(records := [next.record] + Rest(s).records) else Rest(s)
  }

  lemma StepLists(s: ReaderState)
    requires s.isOpen && s.offset <= |s.file|
    ensures var (after, next) := Step(s);
            && after.offset <= |after.file| && after.isOpen && after.file == s.file && after.header == s.header
            && Rest(s) == Pending(next, after)
            && (next == NoRecord ==> Rest(after).records == [] && Rest(after).error == after.error)
            && (next == NoRecord ==> after.offset == s.offset) && (next != NoRecord ==> after.offset > s.offset)
  {
    hide Get32, ReadAll;
    if s.error == NoError {
      var reading := ReadingAt(s.file, s.header.endianness, s.offset, s.index);
      ReadAllUnfolds(s.file, s.header.endianness, s.offset, s.index, reading);
      NothingOrMore(s.file, s.header.endianness, s.offset, s.index);
    }
  }

  lemma NothingOrMore(file: bytes, e: Endianness, offset: nat, index: nat)
    requires offset <= |file|
    ensures ReadingAt(file, e, offset, index).Fault? ==> ReadingAt(file, e, offset, index).error != NoError
  {
    hide Get32;
  }

  /** One turn of the loop: judge, write, count. */
  method FeedRecord(policy: Policy.LiveCapturePolicy, writer: Writer.PcapWriter, r: PacketRecord, h: GlobalHeader,
      stats: Stats)
    returns (counted: Stats)
    requires policy.Valid() && writer.Valid() && writer.snaplen == h.snaplen && writer.link == Ethernet
    requires writer.globalHeaderWritten <==> writer.output != []
    modifies policy.tls, policy.quic, writer
    ensures policy.Valid() && (writer.globalHeaderWritten <==> writer.output != [])
    ensures Progress(policy.Memory(), writer.output, counted)
         == FeedOne(policy.config, h, writer.tickNanos, old(Progress(policy.Memory(), writer.output, stats)), r)
  {
    hide Decide, PacketBytes, GlobalHeaderBytes;
    var packet := Captured(r, h.precision, writer.tickNanos);
    OutputFits(policy.config, policy.Memory(), packet);
    var decision := policy.Evaluate(packet);
    var ok := writer.WritePacket(packet, decision.outputLen);
    PacketBytesSize(packet, decision.outputLen, writer.tickNanos);
    counted := stats.(packetsTotal := stats.packetsTotal + 1, packetsWritten := stats.packetsWritten + 1);
    counted := counted.(bytesInput := counted.bytesInput + r.capturedLength);
    counted := counted.(bytesOutput := counted.bytesOutput + decision.outputLen);
    counted := AccumulateDecision(counted, decision.reason);
  }

  lemma PacketBytesSize(packet: CapturedPacket, length: u32, tickNanos: nat)
    requires ValidTick(tickNanos) && length <= packet.SafeCapturedLen()
    ensures |PacketBytes(packet, length, tickNanos)| == PACKET_HEADER_SIZE + length
  {
  }

  /** Feeds a file; there is no output when it cannot be opened. */
  method Run(input: bytes, config: Config, tickNanos: nat) returns (result: Result, output: Option<bytes>)
    requires ValidTick(tickNanos)
    ensures var s := Opened(input);
            if !s.isOpen then result == Result(NO_STATS, s.error) && output == None
            else
              var listing := ReadAll(input, s.header.endianness, GLOBAL_HEADER_SIZE, 0);
              var end := Feed(config, s.header, tickNanos, START, listing.records);
              result == Finished(end.stats, listing.error) && output == Some(end.output)
    ensures output.Some? && result.error == NoError ==>
              result.stats.bytesInput == result.stats.bytesOutput + result.stats.bytesSaved
  {
    hide FeedOne, ReadAll, Step, Counted, HeaderAt;
    var reader := new Reader.PcapReader();
    var ok := reader.Open(input);
    if !ok {
      return Result(NO_STATS, reader.error), None;
    }
    var h := reader.header;
    var snaplen := if h.snaplen != 0 then h.snaplen
                   else Min(config.capture.defaultSnaplen, config.capture.maxCaptureLen);
    var writer := new Writer.PcapWriter(snaplen, Ethernet, tickNanos);
    var policy := new Policy.LiveCapturePolicy(config);
    var stats := NO_STATS;
    ghost var all := Rest(reader.Contents());
    StepLists(reader.Contents());
    var next := reader.ReadNext();
    while next.NextRecord?
      invariant reader.Valid() && reader.isOpen && reader.file == input && reader.header == h
      invariant policy.Valid() && policy.config == config && fresh(policy.tls) && fresh(policy.quic)
      invariant writer.globalHeaderWritten <==> writer.output != []
      invariant Pending(next, reader.Contents()).error == all.error
      invariant Feed(config, h, tickNanos, Progress(policy.Memory(), writer.output, stats), Pending(next,
                reader.Contents()).records)
             == Feed(config, h, tickNanos, START, all.records)
      invariant next == NoRecord ==> Pending(next, reader.Contents()).records == [] && reader.error == all.error
      decreases |input| - reader.nextInputOffset + (if next.NextRecord? then 1 else 0)
    {
      stats := FeedRecord(policy, writer, next.record, h, stats);
      StepLists(reader.Contents());
      next := reader.ReadNext();
    }
    result := Finished(stats, reader.error);
    output := Some(writer.output);
  }
}
