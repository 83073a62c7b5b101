# A verified model of the recorder's decision engine

The recorder shortens the encrypted payload of TLS and QUIC packets while it captures traffic, and writes what is left
as a classic PCAP file. This project models the part of it that decides: which bytes of a packet can go, what has to be
remembered to know that, and what the written file then still says about the input.

| file | what it holds |
|---|---|
| `Bytes.dfy` | octets, fixed-width integers, big- and little-endian reads and writes |
| `PacketDecode.dfy` | the decoder: Ethernet with VLAN tags or DLT_NULL, IPv4 or IPv6, TCP or UDP |
| `DecodeExtent.dfy` | which octets of a packet a decode depends on |
| `FrameBuilder.dfy`, `DecodedFrames.dfy` | frames built from their parts; decoding them; and the converse |
| `TlsRecords.dfy` | the flat parse of TLS records, and streams of records |
| `TlsConstrictor.dfy` | the record tracker, a class whose record loop refines the flat parse |
| `TlsRuns.dfy` | the tracker over whole runs |
| `TlsStreams.dfy`, `TlsCuts.dfy` | the tracker and its cuts against the flat parse of a segmented stream |
| `QuicPackets.dfy`, `ParsedPackets.dfy` | QUIC integers, long headers and coalesced datagrams, read and written |
| `QuicConstrictor.dfy` | canonical flows and the table of announced connection IDs, a class with the loop over coalesced packets |
| `CanonicalFlows.dfy`, `QuicRuns.dfy` | flow keys as unordered pairs; learned IDs as history |
| `PolicyConfig.dfy`, `LiveCapturePolicy.dfy` | the settings, and the policy class that composes decoder and constrictors |
| `PolicyRuns.dfy`, `PolicyHistory.dfy` | what every decision and every run of the policy guarantees |
| `FlowIndependence.dfy`, `FramingIrrelevance.dfy` | runs compared: a flow by itself, and other link headers |
| `PcapReader.dfy`, `PcapFiles.dfy` | the file reader, and files whole, cut short, or arbitrary |
| `PcapWriter.dfy`, `OfflinePacketFeed.dfy` | the file writer, and the loop that drives reader, policy and writer |
| `FeedRoundTrip.dfy` | what reading the feed's output back gives |

Objects that the source updates in place are classes here; every method of theirs is proved to compute a function of
the old state, and the theorems are lemmas about these functions. The TLS record loop, the loop over coalesced packets,
the variable-length integer loop, the VLAN loop, the endpoint comparison and the feed's loop are loops.

Integers are unbounded; truncation to 32 bits (`U32`), the 8-bit VLAN counter, and sequence numbers and seconds modulo
2^32 are written out. The resolution of the system clock is a parameter (`tickNanos`, any divisor of 1000 nanoseconds).

Three points on which the code is easily misread, each with the exact condition:

- A TLS cut is placed in the last application-data record of a segment, so a record of another type after it is dropped
  too. While a direction is in step with its stream, `CutInStream` says in terms of the stream when and where a segment
  is cut, and `DroppedBytes` exactly when all dropped bytes, and the first of them, are application data; `AlertIsDropped`
  gives a run in which an alert is lost. Out of step, a cut can drop bytes of any record: `HandshakeIsCut` gives a stream
  of handshake records that is cut after a split header. `OnlyApplicationDataDropped` is about the headers that the
  segment itself seems to hold, in step or not.
- For segments in order, a record header split between segments and a carried application-data record that ends inside a
  segment are the two ways, and the only two, to lose the record boundaries (`AgreesIffCutsAreClean`,
  `SplitHeaderLosesPlace`, `EndedCarryLosesPlace`).
- The feed writes the global header with the first packet, so an input without packets gives an empty output
  (`EmptyOutputIff`).

## Model

| member | source | states |
|---|---|---|
| PacketDecode.DecodeTcp | src/decode/PacketDecode.cpp:76-114 | the result filled in step by step is the one the declarative reading of a TCP header gives: the error for a short header or a bad data offset, else ports, sequence number, flags and the payload up to the end of the datagram |
| PacketDecode.DecodeUdp | src/decode/PacketDecode.cpp:116-146 | the same for UDP: the errors for a short header, a length below 8 or past the datagram, else the payload of that length |
| PacketDecode.DecodeIpv4 | src/decode/PacketDecode.cpp:148-208 | the same for IPv4 with options: header and total length checks in order, padded addresses, fragments left unread |
| PacketDecode.DecodeIpv6 | src/decode/PacketDecode.cpp:210-256 | the same for IPv6: a known extension header is a failure that keeps the addresses |
| PacketDecode.DecodeNull | src/decode/PacketDecode.cpp:258-313 | the same for DLT_NULL: address family and first nibble must not disagree, and one must be known |
| PacketDecode.DecodePacket | src/decode/PacketDecode.cpp:358-401 | the whole decoder, its VLAN loop included, computes the layered reading of the packet |
| DecodeExtent.Layout | src/decode/PacketDecode.cpp:76-256 | in an IP decode the headers are contiguous, the payload follows them, and all lie inside the datagram; a TCP payload ends with it |
| DecodeExtent.ShorterPrefixFails | src/decode/PacketDecode.cpp:148-256 | no proper prefix of a decoded datagram's frame decodes |
| DecodeExtent.TrailingBytesIgnored | src/decode/PacketDecode.cpp:148-256 | octets after the datagram, dropped or added, change nothing in the result |
| DecodeExtent.DatagramMoves | src/decode/PacketDecode.cpp:148-256 | a datagram decodes the same wherever it lies, with its offsets moved |
| DecodeExtent.SuccessMeans | src/decode/PacketDecode.cpp:76-401 | a decode succeeds if and only if it reports no failure, and reports a transport header only under an IP header |
| FrameBuilder.PopsEveryTag | src/decode/PacketDecode.cpp:376-388 | a stack of any number of VLAN tags is popped to the EtherType behind it, the count modulo 256 |
| FrameBuilder.FieldTells | src/decode/PacketDecode.cpp:194-199 | an IPv4 flags field is taken for a fragment's if and only if more fragments follow or the offset is not zero, the other flags being free |
| FrameBuilder.OtherFrameDecodes | src/decode/PacketDecode.cpp:367-400 | a frame of any other EtherType decodes without failure to its EtherType and VLAN count alone |
| FrameBuilder.TooShortDecodes | src/decode/PacketDecode.cpp:260-370 | a packet shorter than its link header is refused for that, and nothing is reported |
| FrameBuilder.FrameDecodes | src/decode/PacketDecode.cpp:258-401 | decoding a framed datagram is reading the datagram by itself, moved by the link header, for every framing |
| FrameBuilder.FrameRoundTrip | src/decode/PacketDecode.cpp:66-256 | decoding a frame built from link header, IP header with options, flags and fragment offset, and TCP, UDP or other body returns exactly those parts; all numbers of the formats are written out in the builder |
| DecodedFrames.DecodedIsBuilt | src/decode/PacketDecode.cpp:66-401 | every packet that decodes as IP is, up to the end of its datagram, a built frame, whose parts are found |
| DecodedFrames.BuiltDecodes | src/decode/PacketDecode.cpp:66-401 | a packet that starts with a built frame decodes to its parts, and its datagram ends where the frame does |
| DecodedFrames.DecodesIffBuilt | src/decode/PacketDecode.cpp:358-401 | the decoder accepts exactly the packets that start with a built frame |
| TlsRecords.ScanShape | src/policy/TlsConstrictor.cpp:188-247 | the records a scan accepts follow one another from its start; only the last can pass the end of the payload, by the bytes still missing; else they end with the payload or where no header is |
| TlsRecords.ScanFollowsStream | src/policy/TlsConstrictor.cpp:38-54 | scanning a prefix of a written record stream ends exactly where the prefix does: on a boundary, in a record of the right type with the right bytes missing, or in a header |
| TlsRecords.CleanScanIffStream | src/policy/TlsConstrictor.cpp:38-54 | a payload scans as whole records if and only if it is a stream of records written out |
| TlsRecords.LastApplicationDataIsLast | src/policy/TlsConstrictor.cpp:238-247 | the record to be cut is of application data, and none after it is |
| TlsRecords.SplitAt | src/policy/TlsConstrictor.cpp:159-186 | what follows a position in a stream is the rest of its record and then the records after it |
| TlsConstrictor.LoopIsScan | src/policy/TlsConstrictor.cpp:188-247 | the record loop, header by header, ends with the state, the confirmations and the cut that the flat parse of the payload determines |
| TlsConstrictor.TrackKeepsValid | src/policy/TlsConstrictor.cpp:119-261 | a step keeps every direction valid: synchronised implies confirmed; a carried record implies synchronised, 1 to 65535 bytes missing, a known type, and constrictible exactly for application data; the rest is cleared |
| TlsConstrictor.SameKeyIff | src/policy/TlsConstrictor.cpp:64-72 | two packets are of one direction if and only if both addresses, their length and both ports agree |
| TlsConstrictor.ReverseKeyIff | src/policy/TlsConstrictor.cpp:110-117 | they are of reverse directions if and only if source and destination are exchanged |
| TlsConstrictor.SynOrRstMeans | src/policy/TlsConstrictor.cpp:119-122 | the flags reset a connection if and only if the SYN or the RST bit is set |
| TlsConstrictor.TlsConstrictor.constructor | src/policy/TlsConstrictor.hpp:47-59 | a new tracker knows no direction |
| TlsConstrictor.TlsConstrictor.Accept | src/policy/TlsConstrictor.cpp:209-213 | accepting a header synchronises; a handshake confirms this direction and its reverse |
| TlsConstrictor.TlsConstrictor.TakeRecords | src/policy/TlsConstrictor.cpp:188-247 | the loop, with early exits, computes the recursive record loop |
| TlsConstrictor.TlsConstrictor.ResumeRecord | src/policy/TlsConstrictor.cpp:159-186 | the carried record absorbs the payload, or ends with it, or inside it; the last resets the direction when it is application data |
| TlsConstrictor.TlsConstrictor.EvaluateRecords | src/policy/TlsConstrictor.cpp:188-283 | refusal, or the new entry and the verdict of the flat parse |
| TlsConstrictor.TlsConstrictor.EvaluatePayload | src/policy/TlsConstrictor.cpp:134-283 | resynchronisation, carried record, reset and records together make the step on the segment |
| TlsConstrictor.TlsConstrictor.Judge | src/policy/TlsConstrictor.cpp:263-282 | a cut exactly when synchronised, certain, no middle of a carried record, and a candidate shorter than the payload |
| TlsConstrictor.TlsConstrictor.Evaluate | src/policy/TlsConstrictor.cpp:97-283 | the table and the result after any call are those of the declarative step, and validity is kept |
| TlsRuns.ReachableIsValid | src/policy/TlsConstrictor.cpp:97-283 | every table reachable by any run of segments is valid |
| TlsRuns.OutcomesOfValid | src/policy/TlsConstrictor.cpp:188-279 | from a valid table, no record is reported exactly when the first header is refused, and a direction that starts over stays confirmed |
| TlsRuns.ConfirmedIsHistory | src/policy/TlsConstrictor.cpp:119-122 | after any run a direction is confirmed if and only if a handshake header was accepted in its connection in or since the last SYN or RST |
| TlsRuns.ConfirmedTogether | src/policy/TlsConstrictor.cpp:209-213 | the two directions of a connection are always confirmed together |
| TlsRuns.CutNeedsHandshake | src/policy/TlsConstrictor.cpp:273-282 | no segment is cut in a connection without such a handshake |
| TlsRuns.CutPlacement | src/policy/TlsConstrictor.cpp:152-282 | a cut keeps the configured part of an exactly completed carried record, or everything before the last accepted application-data record and the configured part of it; any other outcome keeps all; accepted records tile the payload |
| TlsRuns.CompletionIsCut | src/policy/TlsConstrictor.cpp:168-176 | an exactly completed application-data record is cut if and only if that shortens it |
| TlsRuns.RecordIsCut | src/policy/TlsConstrictor.cpp:220-282 | a last application-data record in a segment parsed without doubt is cut if and only if that shortens the payload |
| TlsRuns.OnlyApplicationDataDropped | src/policy/TlsConstrictor.cpp:238-247 | by the record headers found in the segment itself, a cut inside a record drops only application data if and only if the last of them is of application data; whether they are headers of the stream is the subject of `TlsCuts.DroppedBytes` |
| TlsRuns.AlertIsDropped | src/policy/TlsConstrictor.cpp:238-247 | a concrete run in which an alert is dropped, under every configuration |
| TlsStreams.SegmentFollows | src/policy/TlsConstrictor.cpp:146-249 | after an in-sequence segment the tracker still agrees with the flat parse of the stream if and only if the cut is clean |
| TlsStreams.OthersLeaveAlone | src/policy/TlsConstrictor.cpp:110-134 | a segment of another connection leaves a direction as it is |
| TlsStreams.ReverseOnlyConfirms | src/policy/TlsConstrictor.cpp:209-213 | a segment of the reverse direction can at most confirm a direction |
| TlsStreams.AgreesIffCutsAreClean | src/policy/TlsConstrictor.cpp:124-261 | for any segmentation in order and any interleaving, empty segments included, the tracker agrees with the flat parse after every segment (carried record, its type, bytes missing, expected sequence number) if and only if no cut splits a header and no carried application-data record ends inside a segment |
| TlsStreams.SplitHeaderLosesPlace | src/policy/TlsConstrictor.cpp:191-201 | a concrete segment that splits a header, after which the tracker does not agree |
| TlsStreams.EndedCarryLosesPlace | src/policy/TlsConstrictor.cpp:177-185 | a concrete run that splits no header, but in which a carried application-data record ends inside a segment: the tracker agrees before that segment and not after |
| TlsCuts.LastDataAt | src/policy/TlsConstrictor.cpp:238-247 | the last application-data record of a stream before a position, byte by byte: its bytes are application data, and none after it and before the position is |
| TlsCuts.ScanFindsLastData | src/policy/TlsConstrictor.cpp:188-247 | the last application-data header found in a payload that carries a stream, no header being split, is that of the stream's last application-data record |
| TlsCuts.CutInStream | src/policy/TlsConstrictor.cpp:152-282 | a segment of a direction in step with its stream is cut if and only if no header is split and the configured part of the last application-data record, carried in and ending with the segment or begun in it, ends before the segment does; and it is cut there |
| TlsCuts.DroppedBytes | src/policy/TlsConstrictor.cpp:238-282 | of a segment in step, the dropped bytes are all application data if and only if the last record that reaches into the segment is; the first dropped byte is, unless the configured part is the whole record |
| TlsCuts.RunCutsInStream | src/policy/TlsConstrictor.cpp:97-283 | over a whole run with clean cuts, whatever is interleaved, every segment of the direction is cut exactly when and where the stream says |
| TlsCuts.HandshakeIsCut | src/policy/TlsConstrictor.cpp:188-247 | a stream of handshake records only, in order, of which handshake bytes are cut after a split header, by as much as the configuration allows |
| QuicPackets.ReadVarint | src/policy/QuicConstrictor.cpp:138-157 | the loop reads the integer as the recursion over its octets does, or fails where there are too few |
| QuicPackets.VarintUndoes | src/policy/QuicConstrictor.cpp:138-157 | reading undoes each of the four encodings of every value it fits |
| QuicPackets.VarintRange | src/policy/QuicConstrictor.cpp:151-154 | values read are below 2^62, so the 64-bit accumulator never wraps |
| QuicPackets.LongHeaderAt | src/policy/QuicConstrictor.cpp:159-210 | a parsed header has the long form and takes at least 7 bytes, all inside the payload, so the loop over packets ends |
| QuicPackets.ParseLongHeader | src/policy/QuicConstrictor.cpp:159-210 | the parser with its early exits computes the declarative reading of a long header |
| QuicPackets.LongHeaderUndoes | src/policy/QuicConstrictor.cpp:159-210 | parsing undoes serialising, for every packet type, with any encoding of token and body length |
| QuicPackets.StopsAtShortHeader | src/policy/QuicConstrictor.cpp:273-290 | a faultless parse stops at the end of the payload or before a short header, and moves only by parsing |
| QuicPackets.CoalescedUndoes | src/policy/QuicConstrictor.cpp:271-290 | the loop finds exactly the packets a datagram was coalesced from, with their IDs, and stops where they end |
| ParsedPackets.VarintIsSpelled | src/policy/QuicConstrictor.cpp:138-157 | every integer read is one of the encodings of its value |
| ParsedPackets.HeaderIsWritten | src/policy/QuicConstrictor.cpp:159-210 | every long header accepted is that of a serialised packet that lies there |
| ParsedPackets.FaultlessIffCoalesced | src/policy/QuicConstrictor.cpp:271-290 | no long header of a payload fails to parse if and only if the payload is serialised long-header packets followed by nothing or by what starts no long header |
| ParsedPackets.TakenIffDatagram | src/policy/QuicConstrictor.cpp:271-346 | a payload is reported neither malformed nor not applicable if and only if it is a datagram as section 12.2 of RFC 9000 allows it, its short packet long enough for the ID announced |
| QuicConstrictor.CompareEndpoints | src/policy/QuicConstrictor.cpp:49-77 | the loop computes the lexicographic order of address octets, then length, then port |
| QuicConstrictor.MakeCanonicalFlow | src/policy/QuicConstrictor.cpp:89-113 | the smaller endpoint comes first, and the direction says which is the source |
| QuicConstrictor.AbsorbLearns | src/policy/QuicConstrictor.cpp:273-290 | learning header by header stores what the list of parsed headers, taken together, teaches |
| QuicConstrictor.QuicConstrictor.TakeHeaders | src/policy/QuicConstrictor.cpp:271-290 | the loop with its table updates computes the recursive one, also when it stops at a fault |
| QuicConstrictor.QuicConstrictor.ParseAndLearn | src/policy/QuicConstrictor.cpp:271-290 | the table learns exactly the parsed headers, and the offset is where they end |
| QuicConstrictor.QuicConstrictor.JudgeShort | src/policy/QuicConstrictor.cpp:292-346 | the outcome after the long headers, branch by branch, with the bytes to keep |
| QuicConstrictor.QuicConstrictor.EvaluatePayload | src/policy/QuicConstrictor.cpp:270-346 | table and result for a payload of a known flow |
| QuicConstrictor.QuicConstrictor.Evaluate | src/policy/QuicConstrictor.cpp:249-347 | table and result after any call |
| CanonicalFlows.CompareAntisymmetric | src/policy/QuicConstrictor.cpp:49-77 | the order of zero-padded endpoints is antisymmetric and total, and ties only equal endpoints |
| CanonicalFlows.CompareTransitive | src/policy/QuicConstrictor.cpp:49-77 | it is transitive |
| CanonicalFlows.DecodedIsPadded | src/decode/PacketDecode.cpp:66-74 | every decode result carries zero-padded addresses |
| CanonicalFlows.AnswerSameFlow | src/policy/QuicConstrictor.cpp:79-113 | a packet with the addresses and ports of another exchanged has the same flow and the opposite direction, unless both endpoints are the same |
| CanonicalFlows.SameFlowIffSamePair | src/policy/QuicConstrictor.cpp:79-113 | two packets share a flow if and only if IP version and unordered pair of address and port agree, and then a direction if and only if they go the same way |
| QuicRuns.LearnedIsHistory | src/policy/QuicConstrictor.cpp:281-289 | after any run the ID stored for a side is the last non-empty one it announced, in a long header that parsed |
| QuicRuns.ShortHeaderMatch | src/policy/QuicConstrictor.cpp:305-346 | after any run, the result is a match if and only if a short header follows well-formed long headers and carries after its first byte the ID its destination announced last, or none was announced and the settings let that pass; the output length then covers the long packets, that byte and the ID |
| QuicRuns.JudgedLocally | src/policy/QuicConstrictor.cpp:270-311 | a datagram is judged by its own flow's entry and changes no other |
| LiveCapturePolicy.LiveCapturePolicy.constructor | src/policy/LiveCapturePolicy.cpp:77-78 | a new policy remembers nothing |
| LiveCapturePolicy.LiveCapturePolicy.ApplyTls | src/policy/LiveCapturePolicy.cpp:133-147 | how a TLS result becomes a length and a reason, the savings threshold included |
| LiveCapturePolicy.LiveCapturePolicy.ApplyQuic | src/policy/LiveCapturePolicy.cpp:157-171 | the same for a QUIC result |
| LiveCapturePolicy.LiveCapturePolicy.Evaluate | src/policy/LiveCapturePolicy.cpp:80-181 | decision and memory after any call are those of the composed decision function |
| PolicyRuns.LengthGuarantee | src/policy/LiveCapturePolicy.cpp:80-181 | for every packet and memory the output fits the captured, original, snaplen and maximum lengths; it is below their least exactly for the two constricted reasons, of which one means TCP and the other UDP, which save at least the threshold and keep the link, network and transport headers whole |
| PolicyRuns.OutputFits | src/writer/PcapWriter.cpp:49-53 | the policy never asks the writer for more bytes than there are |
| PolicyRuns.ReasonTellsKind | src/policy/LiveCapturePolicy.cpp:80-119 | whatever is remembered, the reason tells the kind of packet: contradictory lengths or a failed decode; not IP; no transport; TCP or UDP with the constrictor off or neither port configured; and one of the TLS or QUIC reasons if and only if the constrictor is on and the source or the destination port is configured |
| PolicyRuns.StepKeepsMore | src/policy/LiveCapturePolicy.cpp:21-34 | larger keep sizes and threshold change no memory and never shorten the output of a packet |
| PolicyRuns.MonotoneKeeping | src/policy/LiveCapturePolicy.cpp:122-172 | the same over every run, packet by packet |
| PolicyRuns.SavedIsFixedPoint | src/policy/LiveCapturePolicy.cpp:80-181 | a packet saved with less than its whole datagram is left alone when judged again, in any state and under any other settings with the same limits |
| PolicyHistory.MemoryIsHistory | src/policy/LiveCapturePolicy.cpp:123-172 | after any run each constrictor remembers exactly what the segments or datagrams passed to it left behind |
| PolicyHistory.ConstrictedNeedsHandshake | src/policy/LiveCapturePolicy.cpp:133-142 | the policy never cuts TLS data on a connection without an accepted handshake since its last SYN or RST |
| PolicyHistory.ConstrictedMatchesId | src/policy/LiveCapturePolicy.cpp:157-164 | the policy cuts a QUIC packet only where its short header carries the ID its destination announced last in the run, or, if the settings let that pass, none was; the output covers all headers, the long packets and the ID |
| PolicyHistory.TlsConstrictedIff | src/policy/LiveCapturePolicy.cpp:123-142 | a packet is constricted as TLS if and only if it is sound TCP on a configured port, its segment is cut, and the cut saves at least the threshold; the output then ends where the cut is |
| PolicyHistory.ConstrictedAsStream | src/policy/LiveCapturePolicy.cpp:123-142 | a packet of a direction in step with its stream of records is constricted if and only if the stream says so and enough is saved |
| PolicyHistory.QuicConstrictedIff | src/policy/LiveCapturePolicy.cpp:150-164 | a packet is constricted as QUIC if and only if it is sound UDP on a configured port, the IDs announced in the run let its short header be cut, and enough is saved; the output is then exactly the configured or needed part |
| FlowIndependence.TrackedLocally | src/policy/TlsConstrictor.cpp:110-134 | a segment is tracked by the states of its own two directions alone |
| FlowIndependence.KeysTell | src/policy/LiveCapturePolicy.cpp:123-172 | the keys of both constrictors tell connections and flows apart exactly as addresses and ports do |
| FlowIndependence.DecidedAlone | src/policy/LiveCapturePolicy.cpp:123-172 | from memories that agree on a flow, a run decides about the flow's packets as if they came alone |
| FlowIndependence.FlowIndependent | src/policy/LiveCapturePolicy.cpp:123-172 | in any interleaving the decisions on the packets between two endpoints, addresses and ports, of one TCP connection or UDP flow are those of a fresh policy given only them |
| FramingIrrelevance.FramedIsBare | src/decode/PacketDecode.cpp:258-313 | a framed datagram is judged as the datagram by itself, its link header kept on top |
| FramingIrrelevance.FramingIrrelevant | src/policy/LiveCapturePolicy.cpp:80-181 | runs over the same datagrams under different link headers give the same memory and reasons, and lengths that differ by the headers |
| PcapReader.PcapReader.Open | src/offline/PcapReader.cpp:124-211 | opening any byte sequence gives the state of the declarative reading of its header, or the first fault in the order the source checks |
| PcapReader.PcapReader.ReadNext | src/offline/PcapReader.cpp:213-307 | each call is the step of the declarative reader: a record, the end, or a sticky fault with its tail |
| PcapReader.StopsForGood | src/offline/PcapReader.cpp:213-220 | once no record is returned, none is ever again, and nothing changes |
| PcapFiles.Get32Undoes | src/offline/PcapReader.cpp:33-45 | reading undoes writing in either byte order |
| PcapFiles.Put32Undoes | src/offline/PcapReader.cpp:33-45 | writing undoes reading in either byte order |
| PcapFiles.HeaderOpens | src/offline/PcapReader.cpp:156-210 | a file that starts with any supported header is opened with that header |
| PcapFiles.MagicTells | src/offline/PcapReader.cpp:47-75 | byte order and precision are recognised if and only if the file starts with the magic number of that precision in that byte order |
| PcapFiles.OpensIffSupported | src/offline/PcapReader.cpp:124-211 | a file is opened if and only if it starts with a header of version 2.4 with a known magic number, a snaplen, and the link type of Ethernet |
| PcapFiles.CutHeaderIsReported | src/offline/PcapReader.cpp:149-154 | a file is reported as cut in its global header if and only if it is shorter than one, and nothing is then taken from it |
| PcapFiles.PcapNgIsReported | src/offline/PcapReader.cpp:156-160 | a file is reported as pcapng if and only if it starts like a pcapng section |
| PcapFiles.FitCount | src/offline/PcapReader.cpp:226-275 | the number of records that fit whole into a cut file: they fit, and the next does not |
| PcapFiles.TruncationExact | src/offline/PcapReader.cpp:213-307 | a well-formed file cut at any byte after its header gives exactly the records that fit whole; it ends cleanly if and only if the cut is on a boundary, else the tail says what is left and missing |
| PcapFiles.ListedIsThere | src/offline/PcapReader.cpp:213-307 | of any file, the records listed stand in it one after another, and they are listed without fault if and only if they are all of it |
| PcapFiles.CleanIffWritten | src/offline/PcapReader.cpp:213-307 | a file reads without fault if and only if it is some sequence of records written out |
| PcapWriter.PcapWriter.WriteLe16 | src/writer/PcapWriter.cpp:72-78 | two octets are appended, least significant first |
| PcapWriter.PcapWriter.WriteLe32 | src/writer/PcapWriter.cpp:80-88 | four octets are appended, least significant first |
| PcapWriter.PcapWriter.WriteGlobalHeader | src/writer/PcapWriter.cpp:29-43 | the header is appended the first time, and nothing after that |
| PcapWriter.PcapWriter.WritePacket | src/writer/PcapWriter.cpp:49-70 | fails, writing nothing, exactly when more bytes are asked for than there are; else appends the header if due, the record header and the bytes |
| PcapWriter.PcapWriter.WriteWholePacket | src/writer/PcapWriter.cpp:45-47 | writing all captured bytes never fails |
| PcapWriter.TruncatesTowardZero | src/writer/PcapWriter.cpp:57-61 | time stamps of either sign are truncated toward zero |
| OfflinePacketFeed.FeedRecord | src/offline/OfflinePacketFeed.cpp:73-89 | one turn of the loop judges, writes and counts one record; the writer never refuses the policy's length |
| OfflinePacketFeed.Run | src/offline/OfflinePacketFeed.cpp:47-101 | the loop over reader, policy and writer computes the fold over all records of the file, and ends with the reader's fault if there is one |
| FeedRoundTrip.TimeKept | src/writer/PcapWriter.cpp:57-61 | a time stamp goes through the clock, whatever its resolution, truncated to microseconds, its seconds modulo 2^32 |
| FeedRoundTrip.RecordIsShown | src/offline/OfflinePacketFeed.cpp:73-82 | the packet judged has the bytes and lengths of the record, and is decoded as Ethernet |
| FeedRoundTrip.WrittenPointwise | src/offline/OfflinePacketFeed.cpp:72-84 | as many records are written as are read, each the kept part of its own, after the policy was shown exactly that record as an Ethernet frame |
| FeedRoundTrip.FeedWrites | src/offline/OfflinePacketFeed.cpp:72-90 | the output grows by the header, unless it is there, and the written records; packets and bytes are counted exactly |
| FeedRoundTrip.OutputReadsBack | src/offline/OfflinePacketFeed.cpp:47-101 | reading the output back gives the same number of records in order, each with the first output-length bytes, its original length and its time to the microsecond, under the input's snaplen, the lengths being those decided on exactly these records; the size is 24 + 16 n + output bytes, and no more bytes go out than come in |
| FeedRoundTrip.BytesAddUp | src/offline/OfflinePacketFeed.cpp:85-100 | the bytes counted in are the captured bytes; of an input that reads without fault they are the bytes written plus the bytes saved, which are not negative; of another, the fault is reported and no saving |
| FeedRoundTrip.EmptyOutputIff | src/writer/PcapWriter.cpp:55-55 | the output is empty if and only if there are no records |
| FeedRoundTrip.CountersCount | src/offline/OfflinePacketFeed.cpp:17-43 | every counter counts the decisions with its reasons |
| FeedRoundTrip.FeedCounts | src/offline/OfflinePacketFeed.cpp:17-43 | over a file each counter is the number of decisions with its reasons |
| FeedRoundTrip.SavingsAddUp | src/offline/OfflinePacketFeed.cpp:85-100 | the bytes saved are at least the threshold for every constricted packet |

## Left out

- Live capture, its summary and the interface list (`src/capture`): foreign calls, clocks and formatting; their accounting is the feed's.
- The configuration loader (`src/config/ConfigLoader.cpp`): text handling; the settings are arbitrary values here.
- Texts of errors and reasons: an error is a value with the numbers its message gives.
- Files and streams: the input is a byte sequence and the output a growing one; reading stops only at the end of the input and writing does not fail. So the reader's branches for an offset past the end and for a read that comes up short after the size checks cannot be reached, and are not modelled, nor is the feed's catching of a writer exception, which `FeedRecord` shows is never thrown.
- Hash functions and hash tables: the tables are mathematical maps, without memory use or eviction. The source's reference to a table entry is a copy that is written back or erased before each return.
- The TLS disposition `UncertainFallback`: the policy treats it as malformed, and nothing produces it.
- Layout of the decode result: its fields are grouped by layer. The flow endpoints of QUIC are taken from it.
- `ifindex` and direction of a captured packet: nothing modelled reads them.
- Statistics counters are unbounded; the source's are 64-bit. Kernel statistics belong to live capture.
- The order of assignments where it cannot be observed: opening a file sets the open flag at the end, not first and back again on a fault; `Evaluate` of both constrictors, `ReadNext` and the feed's loop body are split into several methods.
- TLS stream and bulk policies, decryption, QUIC migration and pcapng: the source has none of them.
