# Verified model of libcap_utils

libcap_utils reads, filters, merges and decodes packet traces. This project models its stateful core
in Dafny and proves what each part promises, over every input and every run. `dafny verify
dfyconfig.toml` checks all of it.

A trace is a sequence of records: a 36-byte `cap_header` whose last field is the number of payload
bytes that follow (`Records`). `CaptureFormat` and `FrameFormat` write records and measurement frames out field
by field, apart from the code that reads them, and show that what is written so is what readers deliver. Around
these formats the project has five parts.

**The buffered reader** (`Stream`, `Selection`, `Records`). A byte buffer is compacted and refilled by a
callback that hands over pieces of any size, stalls or fails. The reader is a class with the buffer as an
array; reading until the end is proved to deliver exactly the records a filter selects from a one-shot
parse of the whole stream, for every chunking and every stateful filter.

**Measurement frames** (`Frames`, `Reception`, `Ethernet`, `FrameRing`, `FrameBuffer`, `FrameRun`). Frames from
a socket are validated, sequence-checked and put into a ring of slots. The ring is proved a FIFO: what was
delivered, followed by what still waits, is what was accepted, and the packet counters agree with it; from the
socket's events to the packets a reader gets, nothing is lost. `Reception` says what a socket's events amount to
and `FrameRing` holds the ring as a value with its invariant; `Ethernet` and `FrameBuffer` are the classes that
update these in place, and `FrameRun` runs them to the end.

**Connection ids** (`Connections`, `Buckets`, `ConnectionTable`). 256 growable lists of entries that are
appended and marked, never removed, refine a plain map from undirected address-and-port pairs to an id.
`Connections` is the map, `Buckets` the refinement on values, `ConnectionTable` the classes.

**Filters and merging** (`PicoTime`, `FilterBits`, `Filter`, `FrameRanges`, `FilterLatch`, `FilterMeaning`,
`FilterPack`, `TraceMerge`, `MergeOrder`, `MergeEnds`, `TraceSort`, `MergeThenSort`). Sixteen tests behind a bit
mask, frame ranges of which only the first is tested, an inter-arrival latch, transmission of filters, the merge
of several traces and the tombstone selection sort. `FilterMeaning` gives the verdict on every packet of every
run in terms of the packets and of what was configured.

**Decoders** (`Decoders`, `HeaderWalk`, `HeaderStack`, `HeaderCapture`, `Ipv6Chains`, `DnsNames`,
`DnsReference`, `DnsExpansion`, `DnsDecoder`, `TcpOptions`). The header walk over all decoders, proved
to recover every stack of headers laid out as the protocols prescribe unless one is of a kind the
decoder misreads; decompression of domain names against section 4.1.4 of RFC 1035; and the walk over TCP
options in the format of section 3.1 of RFC 9293. Decoders may read past the captured bytes; memory is
therefore a total function of the position, and it is proved when results depend on what lies there.

The pattern throughout: code that updates state in place is a class or a method over arrays, tied by its
`ensures` to functions on values, and the theorems are lemmas about those functions. No lemma leans on automatic
induction, hence `{:induction false}`.

## Where the code and its documentation disagree

The model follows the code; the members named state each of these.

- The manual promises a sorted merge of sorted inputs (man/capmerge.1:8-10). Only the ends of files can
  break it: `MergedFileSorted` gives the exact condition on the inputs, which two inputs always meet;
  `UnsortedForEvery` shows that no larger number does. `SortAfterMerge` states that `--sort` repairs it.
- A frame range whose last frame is given as 0 is open, not empty: `FormMeans`. Frame ranges lose frames: adjacent ones the frame they meet on (`AdjacentLoses`), and in general exactly the
  frames that `LostExactly` names; `FaithfulIff` is the exact condition for a list of any shape.
- A sent filter arrives without its times, id, either-way port, inter-arrival limit and frame ranges: `Arrives`,
  `PortIsLost`, `TimesAreLost`, `IdAndLimitAreLost`. The bit of the ranges arrives without them, so an AND filter
  then accepts nothing: `RangesAreLost`.
- Domain names: a name, or the target of a pointer, that starts with the terminating zero byte is misread.
  `NameExpansion` gives the exact condition.
- The length byte of an IPv6 options header is converted as if it had two bytes. `PayloadIff` gives the exact
  condition for agreement with section 4.3 of RFC 8200, `LengthMisread` a packet that fails it.
- The payload length of IPv6 is read in the wrong byte order, which can hide what a TCP header carries
  (`TcpInIpv6Misread`).
- The routing field of GRE (RFC 1701) is not skipped: `GreFinds`. Nor is the sequence number of GTP version 2
  (section 5 of 3GPP TS 29.274), so that piggybacked messages are looked for in the wrong place: `Gtp2Continues`.
- Three decoders guess by a byte that may lie behind the capture: `CaptureDecides`.
- `timepico_add` leaves a sum of exactly one second of picoseconds uncarried (`AddExact`); subtraction
  still undoes it (`SubUndoesAdd`).
- `stream_peek` refuses an empty record where `stream_read` delivers it (`Stream.Reader.Peek`), and with a filter
  asks about the same record again and again (`Stream.Reader.PeekMatching`).
- TCP and UDP packets of one 4-tuple share an id (`SameConnection`).
- Duplicates on a loopback interface are recognised and delivered all the same (`Ethernet.Receiver.AdvanceSequence`).
- A frame announcing 2^31 packets or more passes the size check when it holds only headers; reading it
  leaves the received bytes (`FrameRing.HeadStatus`, outcome `Wild`).

## Model

| member | source | states |
|---|---|---|
| `Records.ParseFlatten` | caputils/capture.h:47-60 | the one-shot parse inverts concatenation of records, whatever incomplete bytes trail them |
| `Records.ParseWellFormed` | caputils/capture.h:47-60 | every parsed record is complete, carries its own length and fits the buffer |
| `Records.ParsePrefix` | caputils/capture.h:47-60 | the parse loses nothing: its records are a prefix of the bytes, and no readable record follows them |
| `CaptureFormat.StoredIsRecord` | caputils/capture.h:47-60 | interface, measurement point, seconds, picoseconds and lengths written little-endian in order make 36 bytes, behind which the reader finds the payload |
| `CaptureFormat.ParseStored` | caputils/capture.h:47-60 | every list of packets written so is parsed into those packets |
| `CaptureFormat.ReadFile` | src/stream.c:410-516 | reading such a file without a filter delivers the packets written, each as it was and in order, whatever the pieces it is handed over in |
| `Selection.SeekSelect` | src/stream.c:430-491 | one search for the next accepted record peels exactly one element off the selection from the one-shot parse |
| `Stream.Reader.Callback` | src/stream.c:398-399 | any behaviour of the fill callback: it stores a beginning of the remaining source, or stalls or fails and stores nothing |
| `Stream.Reader.FillBuffer` | src/stream.c:360-408 | the unread bytes stay the same through compaction and refill; success makes progress on the source or finds a whole record buffered; end only when closed, drained or full |
| `Stream.Reader.Compact` | src/stream.c:389-396 | sliding to the front keeps the buffered bytes |
| `Stream.Reader.Prepare` | src/stream.c:434-475 | a record is handed on only when it is whole in the buffer; each retry used up source bytes or a callback event |
| `Stream.Reader.Read` | src/stream.c:410-495 | returns the first accepted record of the unread bytes, with the filter state and the number of records read; end only when the rest holds no record; terminates |
| `Stream.Reader.Peek` | src/stream.c:518-561 | without a filter: leaves the unread bytes alone; unless interrupted or closed it succeeds exactly when they start with a non-empty record that fits the buffer, points at it, and reports an empty one as invalid; a file never interrupts it |
| `Stream.Reader.PeekMatching` | src/stream.c:518-561 | with a filter: the record stays in place and the filter is asked about it until its first yes, its state changing each time; for every number of tries, no yes among them leaves the call undecided |
| `Stream.ReadAll` | src/stream.c:410-516 | over any chunking and any filter, delivered records followed by the selection from what is left are the selection from the one-shot parse of the stream; without faults it runs to the end |
| `Frames.SendheaderBytes` | src/stream.c:691-707 | where the announced records end, 0 if one is empty |
| `Frames.VerdictIgnoresGarbage` | src/stream.c:691-722 | the size check reads past the frame, yet its verdict is the same whatever is there |
| `Frames.ExtentIsChain` | src/stream.c:691-722 | the computed length equals the received one exactly when that many non-empty records fill the frame to its end |
| `Frames.AcceptedFrameIsConsumed` | src/stream.c:691-722 | a countable frame passes the check iff its records fill it; walking them consumes exactly the received bytes |
| `Frames.OverlongFrame` | src/stream.c:691-707 | a frame announcing 2^31 packets or more passes the check iff it consists of its 30 bytes of headers |
| `FrameFormat.FieldsRead` | caputils/send.h:39-44 | number, packet count, flush flag and version of a frame built from its fields are read as written; supported are versions 0.0 to 0.7 |
| `FrameFormat.BuiltFrame` | src/stream.c:691-722 | a frame built from its header fields and non-empty packets passes the size check and holds exactly these packets |
| `Ethernet.MatchAddress` | src/stream_ethernet.c:59-78 | the first matching address, and -1 exactly when type or all addresses differ |
| `Ethernet.Receiver.AdvanceSequence` | src/stream.c:103-132 | accepts exactly an unset or expected number or a loopback duplicate, and then expects the number after it |
| `Ethernet.Receiver.Admit` | src/stream_ethernet.c:124-154 | packet count, version check, sequence and flush of a well-sized frame have the effect on the line that the reference gives it; the counter is the total of accepted and refused frames |
| `Ethernet.Receiver.Handle` | src/stream_ethernet.c:84-156 | one round of the receive loop: continues exactly on a datagram to be ignored, and otherwise reports what the event amounts to |
| `Ethernet.Receiver.ReadFrame` | src/stream_ethernet.c:80-159 | events are used up to the first that is not to be ignored, or to the end of the script if all are; what has been accepted, refused and counted is always what all events used up amount to; on arrival the content is the frame accepted |
| `Reception.AllSequenced` | src/stream.c:103-132 | over every run of events every address has heard numbers that follow each other and expects the next |
| `Reception.AcceptedInSequence` | src/stream.c:103-132 | over every run of events, of two accepted frames of one address with none of it between them, the second carries the number after the first, except after the wrap or for a loopback duplicate |
| `Reception.AcceptedAmong` | src/stream_ethernet.c:107-140 | nothing but admissible frames is accepted, and every admissible frame of a supported version is |
| `Reception.AcceptedAre` | src/stream_ethernet.c:107-140 | if all admissible frames are of a supported version, they are the ones accepted, each once and in order |
| `Reception.AbortedIff` | src/stream.c:103-132 | over every run of events, by the numbers alone: the line is broken off iff on some address a number of the frames that count may not follow the one before it, and otherwise exactly these frames are accepted |
| `Reception.AllHeeded` | src/stream_ethernet.c:124-140 | of supported versions all frames count |
| `FrameRing.PlacedByArrival` | src/stream_buffer.c:50-58 | with room left, receiving at the write position disturbs no queued frame |
| `FrameRing.PlacedByDelivery` | src/stream_buffer.c:94-105 | the head is at the read position, the next one behind it; equal positions mean full or, after the last frame, empty |
| `FrameRing.HeadStatus` | src/stream_buffer.c:82-90 | the frame at the head has no packets left iff it announced none, and no whole packet at the pointer iff it announced 2^31 or more |
| `FrameRing.ArriveConsistent` | src/stream_buffer.c:50-74 | arrival of a well-sized frame keeps the ring invariant with the frame appended to what was accepted |
| `FrameRing.TakenWithinConsistent` | src/stream_buffer.c:88-92 | taking a packet inside a frame keeps the invariant and shrinks what waits |
| `FrameRing.TakenAcrossConsistent` | src/stream_buffer.c:94-105 | taking the last packet of a frame moves to the next frame or leaves an empty ring, and keeps the invariant |
| `FrameBuffer.Ring.Pull` | src/stream_buffer.c:50-58 | receives into a free slot: the queue grows at its end or stays, the ring stays valid, and what was heard is what the events used up amount to |
| `FrameBuffer.Ring.TopUp` | src/stream_buffer.c:64-80 | after it there is a frame to read unless the result says the ring is empty or the sequence is bad |
| `FrameBuffer.Ring.Fetch` | src/stream_buffer.c:60-110 | delivers the next packet in order, still in its slot on return, or explains why not |
| `FrameBuffer.Ring.Read` | src/stream_buffer.c:60-118 | everything taken is delivered in order with the filter's state threaded through; only the last of it is accepted, and it is intact in its slot; every call uses up events or packets |
| `FrameBuffer.Conservation` | src/stream_buffer.c:60-118 | after any run: delivered, rest of the current frame and queued frames are together what was accepted; recv = read + waiting + refused; no read pointer iff empty |
| `FrameRun.ReadAll` | src/stream_buffer.c:60-118 | reading to the end of the script selects from the packets taken, and stops before it only on a frame that is out of turn, empty or overlong |
| `FrameRun.ReceiveAll` | src/stream_ethernet.c:80-163 | from the events of a socket to the packets, for every script, number of slots and filter: the end is reached iff on every address the numbers in the script follow each other and no frame is empty or overlong, and then exactly the selected packets of the frames of the script have been delivered, in order |
| `FrameRun.UnproblematicLine` | src/stream_ethernet.c:80-159 | that condition on the script holds iff nothing is out of turn and no accepted frame is empty or overlong |
| `FrameFormat.Transfer` | src/stream_ethernet.c:80-163 | messages written in the frame format come out as the packets they were made of, in order, for every number of slots, iff the numbers sent to each address follow each other |
| `Connections.FlowIsUndirected` | src/packet/connection_id.c:61-77 | two 4-tuples denote the same flow iff they are equal or reversed |
| `Connections.RunSound` | src/packet/connection_id.c:163-181 | over every packet sequence ids are used for one flow at a time, and 0 is given exactly to untracked packets |
| `Connections.SameConnection` | src/packet/connection_id.c:102-161 | both directions and both transports share an id until a new request, whose id is fresh; different flows differ |
| `Connections.IdPersistsIff` | src/packet/connection_id.c:102-161 | over every run all packets of a known flow, in either direction and among any other traffic, carry its id iff none of them asks for a new connection |
| `Connections.SameIdIff` | src/packet/connection_id.c:102-161 | over every run two packets carry the same id iff they are of one flow and no packet of it after the first, up to and including the second, requests a connection with another sequence number than the packet that last opened the flow |
| `Connections.NumberedByOpening` | src/packet/connection_id.c:115-160 | over every run a packet that opens a connection gets the number of connections opened so far, from 1 on |
| `Buckets.SelectIsUndirected` | src/packet/connection_id.c:98-100 | both directions select the same one of 256 buckets |
| `Buckets.TrackStep` | src/packet/connection_id.c:102-161 | given what the search found, the bucket step returns the map's id and keeps the refinement |
| `Buckets.LiveEntriesAgree` | src/packet/connection_id.c:121-129 | live entries of one flow are in one bucket and carry equal id and sequence number |
| `ConnectionTable.SList.Alloc` | src/slist.c:33-42 | growing keeps the contents |
| `ConnectionTable.SList.Put` | src/slist.c:77-92 | appends one element, doubling a full list |
| `ConnectionTable.SList.Find` | src/slist.c:68-75 | the first equal element, or none exactly if there is none |
| `ConnectionTable.SList.Enter` | src/packet/connection_id.c:114-131 | two linked entries appended, then the old pair marked, equals closing the old pair first |
| `ConnectionTable.Table.Register` | src/packet/connection_id.c:114-160 | a new connection steps the map and keeps the table's refinement of it |
| `ConnectionTable.Table.ConnectionId` | src/packet/connection_id.c:163-181 | the id and the new map are those of the plain map |
| `ConnectionTable.TrackAll` | src/packet/connection_id.c:134-181 | over every packet sequence the table gives the ids of the plain map |
| `PicoTime.TimeCmpOrders` | src/picotime.c:61-78 | a total order, which on normalised times is the order of sec*10^12+psec |
| `PicoTime.SubFields` | src/picotime.c:149-171 | the wrapping steps amount to one borrow or carry of whole seconds |
| `PicoTime.SubExact` | src/picotime.c:149-171 | exact modulo 2^32 seconds; exact and normalised on normalised times with x >= y |
| `PicoTime.TimePicoAdd` | src/picotime.c:173-185 | the carrying loop leaves between 0 and 10^12 picoseconds, with all whole seconds but possibly the last carried |
| `PicoTime.AddExact` | src/picotime.c:173-185 | value kept modulo 2^32 seconds; normalised unless the picoseconds add up to exactly 10^12 |
| `PicoTime.SubUndoesAdd` | src/picotime.c:149-185 | subtracting what was added gives the original, also across the uncarried boundary |
| `FilterBits.WordCompared` | src/filter.c:192-232 | the assembled word equals the index iff exactly the indexed tests passed, and is positive iff some test passed |
| `FilterBits.RepeatsIndex` | src/filter.c:192-232 | for tests that look at their own bit the word repeats the index iff all indexed conditions hold |
| `FilterBits.MaskValues` | caputils/filter.h:52-96 | the flag of each test |
| `Filter.AndMeaning` | src/filter.c:103-232 | AND mode accepts iff every enabled test holds, no unknown bit is set and no frame range takes part uninvited |
| `Filter.OrMeaning` | src/filter.c:103-232 | OR mode accepts iff an enabled test or a frame range holds |
| `Filter.CoreMeaning` | src/filter.c:192-232 | with ranges only where their bit is set: all enabled tests (AND), at least one (OR) |
| `Filter.EmptyFilterAccepts` | src/filter.c:245-262 | over every run a filter without tests passes on exactly what its BPF program accepts, whatever its ranges, times and counters |
| `Filter.FilterObject.Match` | src/filter.c:234-263 | verdict and new counter, reference time and range list are those of the step function on the old state |
| `Filter.FrameNumbers` | src/filter.c:249-257 | over every run the k-th packet meets counter k and the list pruned k-1 times |
| `Filter.FrameTest` | src/filter.c:173-190 | the frame test of the packet after any run is acceptance of its number by the range list |
| `Filter.OnlyTest` | src/filter.c:192-232 | a filter with one test accepts exactly what that test holds of |
| `FrameRanges.ListAtExact` | src/filter.c:249-254 | which range is at the head at frame k, from s_0 = 1 and s_{i+1} = max(s_i, upper_i + 1) + 1 |
| `FrameRanges.AcceptsExact` | src/filter.c:173-190 | frame k is accepted iff the range at the head at k contains it |
| `FrameRanges.AcceptsOnlyUnion` | src/filter.c:173-190 | no frame outside the ranges is accepted, for any list |
| `FrameRanges.AdjacentLoses` | src/filter.c:249-254 | of two adjacent ranges the first frame of the second is lost |
| `FrameRanges.UnionIff` | src/createfilter.c:333-379 | the case of ascending ranges: the union of them is accepted iff no two are adjacent |
| `FrameRanges.LostExactly` | src/filter.c:249-254 | for a list of any shape: accepted are the frames of its ranges except those tested in vain, before the range at the head begins, on finding it spent, or after the last |
| `FrameRanges.FaithfulIff` | src/createfilter.c:333-379 | a list of any shape accepts exactly the union of its ranges iff no range meets such a frame, a condition on the ends of the ranges |
| `FrameRanges.FormMeans` | src/createfilter.c:327-379 | a single frame, a closed and a half-open range select the frames the manual promises iff their last frame is not given as 0 |
| `FilterLatch.LateMeans` | src/filter.c:159-171 | on normalised times the test fails exactly when more than the limit has gone by since the reference time |
| `FilterLatch.LateStays` | src/filter.c:159-171 | later timestamps stay too late |
| `FilterLatch.LateRejects` | src/filter.c:234-263 | a late packet is rejected and leaves the reference time alone |
| `FilterLatch.Latch` | src/filter.c:159-171 | over every run of an AND filter with the inter-arrival test and ordered timestamps: once a packet fails it, that and every later packet is rejected |
| `FilterLatch.LatchIff` | src/filter.c:159-171 | for every AND filter with the test, whatever the timestamps, other tests and BPF verdicts: the test fails at every packet of a run iff all are late by the reference time it starts with, and then all are rejected |
| `FilterLatch.ReferenceTime` | src/filter.c:239-260 | after every run the reference time is that of the last packet accepted, or of the first if none was |
| `FilterLatch.InterArrival` | src/filter.c:159-171 | with that test alone, over every run of normalised times: the first packet is in time, and a later one iff it comes no more than the limit after the last accepted one |
| `FilterLatch.AcceptedUntilGap` | caputils/filter.h:151 | and with ordered times the packets accepted are those before the first gap longer than the limit |
| `FilterMeaning.MaskedCompares` | src/filter.c:103-149 | with a mask of n leading ones a masked comparison is one of the first n bits, the configured rest being zero |
| `FilterMeaning.PrefixDivides` | src/filter.c:103-149 | the same by division by a power of two |
| `FilterMeaning.CommonMasks` | src/createfilter.c:450-457 | an initialised filter compares no bits, a port without a mask is compared whole, a network of 24 bits by its first three bytes |
| `FilterMeaning.FlagMeans` | caputils/filter.h:75-96 | a test is enabled iff the digit of the index at its flag is one |
| `FilterMeaning.TestMeets` | src/filter.c:103-190 | what each of the sixteen tests asks of a packet, by prefixes of addresses, ports, type and tag, the name of the interface, the id, and times in picoseconds |
| `FilterMeaning.RunMeans` | src/filter.c:192-263 | the verdict on every packet of every run: accepted iff the BPF program agrees and all that is asked for is met (AND) or something is (OR), frames counted from 1 and times measured from the last accepted packet |
| `FilterPack.Arrives` | src/filter.c:359-451 | a packed and unpacked filter is the filter without times, id, either-way port, inter-arrival limit and frame ranges |
| `FilterPack.LegacyArrives` | src/filter.c:400-451 | the same for filters marked as of any version; of version 0 and 1 they arrive as AND filters, the addresses of version 0 from their text |
| `FilterPack.RoundTrip` | src/filter.c:359-451 | with only the ten original tests the received filter gives the same verdicts on every run |
| `FilterPack.RangesAreLost` | src/filter.c:448-450 | an AND filter with frame ranges rejects every packet of every run after transmission, since their bit arrives without them |
| `FilterPack.FrameTestIsLost` | src/filter.c:448-450 | after transmission the frame test holds of no packet of any run |
| `FilterPack.PortIsLost` | src/filter.c:400-451 | the either-way port test survives iff port and mask are zero |
| `FilterPack.TimesAreLost` | src/filter.c:359-451 | the start and end tests survive iff their times are zero |
| `FilterPack.IdAndLimitAreLost` | src/filter.c:359-451 | the id test survives iff the id is empty, the inter-arrival test iff its limit is zero |
| `TraceMerge.PassKeeps` | tools/capmerge.c:150-170 | a pass gets no head wrong and adds no record; if it closed no stream, every slot it visited has a head |
| `TraceMerge.HeadOnFile` | src/stream.c:531-547 | a stream of the merge has a head exactly if its unread bytes start with a non-empty record that fits the buffer, which is when peeking at a file succeeds |
| `TraceMerge.StoredFile` | caputils/capture.h:47-60 | packets written in the capture format are a file of the merge |
| `TraceMerge.NormalDated` | tools/capmerge.c:172-180 | normalised times lie below the sentinel |
| `TraceMerge.RoundShrinks` | tools/capmerge.c:147-197 | every round closes a stream or writes a record |
| `TraceMerge.PeekAll` | tools/capmerge.c:150-170 | the in-place pass computes the pass on values, skipped slots included |
| `TraceMerge.FindOldest` | tools/capmerge.c:172-180 | the first of the oldest heads seen this round |
| `TraceMerge.Oldest` | tools/capmerge.c:172-180 | a minimum of the peeked heads below the sentinel, none exactly when there is none |
| `TraceMerge.MergeRound` | tools/capmerge.c:147-197 | streams and written record after one round are those of the round on values |
| `TraceMerge.Merge` | tools/capmerge.c:144-197 | the loop terminates and writes the emissions of the run, cut to their length on the wire |
| `MergeOrder.MergeConserves` | tools/capmerge.c:144-197 | of every input exactly its usable records are written, each once and in order |
| `MergeOrder.WrittenExactly` | tools/capmerge.c:187-192 | each emission is written in its place with its time and length, and of its payload the first min(caplen, len) bytes |
| `MergeOrder.UnsafeRound` | tools/capmerge.c:161-165 | one round that writes past an older record of a skipped stream makes the output unsorted |
| `MergeOrder.TwoInputsSafe` | tools/capmerge.c:144-197 | with at most two inputs no round does |
| `MergeEnds.EndSafeOne` | tools/capmerge.c:161-165 | when one file has ended the next round is safe iff that file is the last, or there are two, or the last one holds no record older than all others |
| `MergeEnds.EndSafeIff` | tools/capmerge.c:161-180 | with any files ended, the round writes past no older record iff no file passed over is older than all those looked at |
| `MergeEnds.LeftWithin` | tools/capmerge.c:172-188 | while no file ends, writing the first of the oldest heads changes neither which file ends first nor what is left of the others then |
| `MergeEnds.LeftAtEnd` | tools/capmerge.c:172-188 | writing the last record of a file leaves of each other file exactly the records after it in time and slot |
| `MergeEnds.EndsSafeIff` | tools/capmerge.c:144-197 | every round is safe iff every end of a file is |
| `MergeEnds.MergedFileSorted` | man/capmerge.1:8-10 | for every number of sorted inputs the merged file is sorted iff every end of a file is safe, a condition evaluated from one end to the next; with at most two inputs it is always sorted |
| `MergeEnds.FirstEndUnsafe` | tools/capmerge.c:161-165 | the condition fails when the first of three or more files is a single oldest record and the last starts before all others |
| `MergeEnds.UnsortedForEvery` | man/capmerge.1:21-25 | for every k >= 3 some k sorted inputs come out unsorted |
| `MergeThenSort.MergePermutes` | tools/capmerge.c:144-197 | every record is written as often as all inputs together deliver it |
| `MergeThenSort.MergeWhole` | tools/capmerge.c:144-197 | if no record holds more than its length on the wire, every usable record of every input is written as it was and as often |
| `MergeThenSort.SortAfterMerge` | man/capmerge.1:21-25 | merging any number of inputs and then sorting writes every delivered record with a length, as often as it was delivered, sorted by time and in the order of the merged file for equal times |
| `TraceSort.StableSortSorts` | tools/capmerge.c:214-254 | the reference result is a sorted permutation |
| `TraceSort.OrderUnique` | tools/capmerge.c:230-240 | an order by time and then position is determined by its positions |
| `TraceSort.OrderIsStableSort` | tools/capmerge.c:219-254 | writing all selectable records in that order is the reference result |
| `TraceSort.SortsWholeTrace` | tools/capmerge.c:214-254 | when all records can be selected the result is a sorted permutation of the trace in which records of the same age keep their order |
| `TraceSort.NormalSelectable` | tools/capmerge.c:219-236 | every record with a length and a normalised time can be selected |
| `TraceSort.SortsNormalTrace` | tools/capmerge.c:214-254 | so a trace of such records is written whole, sorted and stable |
| `TraceSort.FindOldest` | tools/capmerge.c:230-240 | the scan finds the next position in output order, or none exactly when all are written |
| `TraceSort.Sort` | tools/capmerge.c:214-254 | the in-place tombstone sort writes the stable sort of the selectable records and terminates on their number |
| `Ipv6Chains.Ipv6TotalHeaderSize` | src/protocols/ipv6.c:51-86 | the loop over options headers terminates inside the capture; with zero lengths it finds payload and protocol where section 4.3 of RFC 8200 puts them, and otherwise nothing unless the options could run to 2056 bytes |
| `Ipv6Chains.PayloadIff` | src/protocols/ipv6.c:51-86 | agreement with RFC 8200: without options iff the header was captured or fewer than 40 bytes were; with options if all lengths are zero, and, unless the options could run to 2056 bytes, iff all lengths are zero or they are cut off |
| `Ipv6Chains.SingleOptionIff` | src/protocols/ipv6.c:51-86 | with a single options header the same for packets of any length |
| `Ipv6Chains.LengthMisread` | src/protocols/ipv6.c:74 | a packet with sixteen bytes of options whose payload is not found |
| `Ipv6Chains.LongCoincidence` | src/protocols/ipv6.c:74 | in longer packets two wrong lengths can make up for each other |
| `Decoders.NextAdvances` | src/protocol.c:43-66 | every decoder names a registered protocol and moves on by four bytes unless the next header is a last one |
| `HeaderWalk.WalkStep` | src/packet.c:222-285 | every step keeps the header inside the packet, advances, runs a callback only on a fully captured header, and meets no pointer or registration abort |
| `HeaderWalk.HeaderChunk.NextPayload` | src/packet.c:222-262 | the fields after the call are those of the step on values |
| `HeaderWalk.HeaderChunk.HeaderWalk` | src/packet.c:272-285 | likewise, starting at the Ethernet header, and the state stays sound |
| `HeaderWalk.Headers` | src/packet.c:272-285 | the number of headers is within the budget of a quarter of the remaining bytes |
| `HeaderWalk.HeadersSound` | src/packet.c:58-75 | the whole walk: at most caplen/4 + 2 headers, all inside the packet, each followed only if captured in full and left behind |
| `HeaderWalk.WalkPacket` | src/packet.c:222-285 | the loop terminates on every packet and stops normally iff no header met leads to an unsupported GTP header |
| `HeaderStack.TablesInvert` | src/protocols/ethernet.c:27-54 | the decoders' protocol tables are inverse to the assigned Ethernet types and IP numbers, and everything else is data |
| `HeaderStack.GreFinds` | src/protocols/gre.c:55-66 | a GRE header in the format of RFC 1701 is followed to its end iff its routing bit is clear |
| `HeaderStack.TcpInIpv4` | src/protocols/tcp.c:144-165 | what TCP carries inside IPv4 is never missed |
| `HeaderStack.TcpInIpv6Misread` | src/protocols/ipv6.c:104 | inside IPv6 it can be: a stated length of 5120 is read as 20 |
| `HeaderStack.OptionsMisread` | src/protocols/ipv6.c:66-83 | IPv6 options of eight bytes each are not misread; longer ones are, unless they could run to 2056 bytes |
| `HeaderStack.Gtp2Continues` | src/protocols/gtp.c:177-238 | after every GTP version 2 header the decoder continues four bytes before its end, at the sequence number, with a piggybacked message or data |
| `HeaderStack.GtpKinds` | src/protocols/gtp.c:88-104 | the first bytes of the GTP headers the decoder does not abort on |
| `HeaderStack.DecoderFinds` | src/packet.c:222-262 | for Ethernet, VLAN, MPLS, pseudowire, GRE, IPv4, IPv6, UDP, TCP and GTP headers (GTP', version 1 and 2) in their standard's format, the callback finds the announced protocol, or data where none is announced, right behind the header unless the header is misread, and then nothing, or something else or elsewhere |
| `HeaderStack.StackRecovered` | src/packet.c:222-285 | for every stack of such headers, however deep, and every capture, the walk meets exactly its headers, in order and at their places, before anything else, iff none is misread; if the last layer carries no other, these are all it meets |
| `HeaderCapture.CaptureDecides` | src/packet.c:222-285 | two memories that agree on the capture give the same headers iff after every header met the byte behind the capture is not looked at or means the same in both |
| `DnsNames.CopyLabelWrites` | src/protocols/dns.c:148-161 | what a label leaves in the buffer: the text and dot that fit, then NUL, or "..." when text is cut |
| `DnsNames.NameKeeps` | src/protocols/dns.c:163-210 | for every message, malformed or cyclic, only the room and the three bytes after it are written |
| `DnsNames.LabelsAdvance` | src/protocols/dns.c:163-210 | a returned position lies after where reading started and at most one past the end |
| `DnsReference.DepthIrrelevant` | src/protocols/dns.c:175-201 | a well-formed name does not depend on the number of pointers allowed |
| `DnsReference.PointersDistinct` | src/protocols/dns.c:178-195 | a well-formed name goes through no pointer twice |
| `DnsReference.PositionRight` | src/protocols/dns.c:163-210 | the position returned is that after the name's first pointer or terminating zero |
| `DnsReference.TextRight` | src/protocols/dns.c:148-210 | the buffer shows the labels, each up to a NUL it may hold, joined by dots: all of them or the beginning that fits |
| `DnsReference.ExtraDot` | src/protocols/dns.c:171-207 | a pointer to a zero byte puts one dot too many after the text |
| `DnsReference.DotForRoot` | src/protocols/dns.c:169-207 | a name starting with a zero byte is read as an empty label, and the position is never the right one |
| `DnsReference.SpelledWhole` | src/protocols/dns.c:148-152 | the text spells out the labels in full iff no label holds a NUL |
| `DnsExpansion.RefusedName` | src/protocols/dns.c:178-195 | every name, cyclic ones included, with a pointer that is null, repeated or the 33rd shows the labels before it and "[malformed].", and the position is right |
| `DnsExpansion.NameExpansion` | src/protocols/dns.c:212-232 | for every well-formed name and every buffer: if all pointers are followed, which is when there are at most 32 and none is null, text and position are right iff neither the name nor a pointer's target starts with a zero byte; if one is refused, as above; the text spells out all labels iff none holds a NUL, and of a text too long its beginning is shown |
| `DnsExpansion.MarkReads` | src/protocols/dns.c:184-185 | the mark as text |
| `DnsDecoder.CopyLabelInto` | src/protocols/dns.c:148-161 | the writes into the buffer are those of the function on values, all inside it |
| `DnsDecoder.Visit` | src/protocols/dns.c:178-195 | refuses exactly null, repeated and 33rd pointers, and records any other in the first free slot |
| `DnsDecoder.Expand` | src/protocols/dns.c:163-210 | computes the name on values; the visited table only grows, without repetition, to 32 entries at most; terminates on cyclic names |
| `DnsDecoder.Follow` | src/protocols/dns.c:175-199 | the pointer branch: one recorded pointer per nested call |
| `DnsDecoder.Decode` | src/protocols/dns.c:221-232 | dns_name on a whole buffer, or on none |
| `TcpOptions.PrintOptions` | src/protocols/tcp.c:73-142 | the loop terminates and prints the options found by the walk on values, with the reason it stopped |
| `TcpOptions.ShorterCapture` | src/protocols/tcp.c:73-95 | with less captured, a beginning of the same kinds is printed, whatever lies behind either capture |
| `TcpOptions.OptionRead` | src/protocols/tcp.c:62-71 | a well-formed option is read with its size and value, and is short iff it ends behind the capture |
| `TcpOptions.ReadBack` | src/protocols/tcp.c:62-142 | of well-formed options exactly those captured whole are printed, in order and with values; the walk finishes unless one is cut off |
| `TcpOptions.HeaderReadBack` | src/protocols/tcp.c:73-142 | options laid out from byte 20 of the header to byte 4*doff, or to an end-of-list option before it, are printed as far as captured whole |

## Left out

- Sockets, files, select, signals and PF_RING: the fill callback and the socket are finite scripts of events that cover every behaviour; an exhausted script hands over the rest, or nothing.
- src/stream_udp.c, src/stream_file.c, src/stream_tcp.c and src/stream_pfring.c as sources of bytes: only their contract towards the buffer is used.
- Stream.Reader.PeekMatching: the number of questions to the filter is bounded by a parameter; the C loop has no bound, so it runs for ever exactly when no bound is enough.
- Frames: fields are read as on a little-endian host; file headers and comments before the first record are not modelled.
- Ethernet.Receiver.Admit: the receive counter and the other statistics are unbounded, without 64-bit wrap-around.
- Ethernet.Receiver.ReadFrame: the C code aborts the process where this reports a number out of turn; what a supervisor does then is not modelled.
- FrameBuffer.Ring.Read: a slot is a sequence of received bytes, so bytes of earlier, longer frames behind it are not modelled; reading there is the outcome `Wild`.
- ConnectionTable.SList.Enter: states are positions in the list; the C code keeps pointers to them across a `realloc`, which the model does not reproduce.
- Buckets.SelectIsUndirected: which bucket a connection goes to is not characterised further, since no id depends on it.
- ConnectionTable.Table.ConnectionId: locating the IPv4 and transport header is taken as given, and the counter does not wrap.
- Filter.FilterObject.Match: addresses, tags and ports are taken as located, the BPF program is a given verdict, the frame counter does not overflow, and a filter with tests must have a known mode, since filter_core aborts otherwise.
- FrameRanges.FormMeans: splitting the text of ranges at commas and reading numbers are not modelled, only what is built from each form.
- FilterMeaning.RunMeans: masks that are not prefixes are left to `Filter.AndMeaning` and `Filter.OrMeaning`.
- FilterPack.Arrives: byte order conversion is a pair of inverse constructors, and the ASCII copies of addresses are the values they are printed from.
- PicoTime.SubFields: the C code computes the carry in double precision; here it is exact integer arithmetic modulo 2^64 and 2^32.
- TraceMerge.Merge: inputs are files, so peeking never stalls; timestamps must lie below the sentinel, without which the loop never ends; write errors end the program and are not modelled.
- TraceSort.Sort: the buffer is an array of records, not of bytes; an empty trace, for which the C code reads behind its buffer, is excluded.
- HeaderStack.StackRecovered: extension headers of IPv6 other than hop-by-hop options count as data, and GTP version 1 headers with extension headers, on which the decoder aborts, do not carry a layer.
- DnsExpansion.NameExpansion: that a misread name shows needs one spare byte of room, without which the extra dot is cut off.
- Ipv6Chains.PayloadIff: for options that could run to 2056 bytes only one direction is stated, since two wrong lengths can then make up for each other (`LongCoincidence`); `StackRecovered` has both directions for every capture.
- HeaderWalk.WalkPacket: starts at the Ethernet header; starting from another layer is not modelled.
- Payload size functions (src/packet.c:77-160): straight-line arithmetic that would only add easy members.
- Printing and dumping of decoded headers, name tables, strptime and getopt handling, src/address.c, src/marc.c, src/marc_dstat.c and the other tools.
