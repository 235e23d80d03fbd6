# A verified model of four networking programs

The repository holds the solutions of a networking course: an Ethernet frame counter
(`assignment2`), an ICMPv6 traceroute on a raw socket library (`assignment3`), and a chat
client that exchanges netstrings over two TCP connections (`assignment4`). This project
models their logic and proves what it guarantees.

Code that changes state is modelled as code that changes state: arrays filled and shifted in
place, a linked list of heap nodes that are allocated, relinked and freed, objects with
mutable fields, loops with their invariants. Each such method is proved against a function
or a predicate on values, and the properties are lemmas about those.

| Part | Modules | Main results |
| --- | --- | --- |
| ICMPv6 checksum | `OnesComplement`, `Checksum`, `ErrorDetection` | The little-endian word sum stores the octets of the standard's big-endian checksum, which is the one number below 65535 that brings the plain sum of addresses, length, 58 and payload to a multiple of 65535. Clear-recompute-compare accepts what the receiver's rule of RFC 1071 accepts, less one value of the field. One replaced word goes unnoticed exactly for equal words and the two zeros; permutations always do. |
| Frame counter | `TypeInfoList`, `FrameStatistics`, `RawFrames`, `EthernetCounter` | The printed rows are the unique sorted group-by of the frames received, stated on the octets of the reads; every node allocated is freed once and not touched afterwards; nothing counted is lost. |
| Traceroute | `RawRead`, `HeaderWalk`, `Responses`, `Tracing`, `Traceroute` | The shared timeout is conserved up to the rounding of each read and bounds the reads of an attempt. The header walk ends if and only if it ends within one header more than the packet has octets. An attempt succeeds exactly on genuine Echo Replies and on packets that lead the walk backwards. However a run ends, its output, its end, its waits and its probes are fixed by what the writes return and the kernel delivers; it throws, goes on for ever, or prints an address if and only if a wait it makes delivers a packet of the kind that is spelled out. |
| Hex dump | `HexDump` | The text stays in its buffer, has a closed-form length, and every octet can be read back from the buffer in its place. |
| Netstrings | `Decimal`, `CStrings`, `Netstring`, `Reception` | A batch decoded in place, with source and destination the same buffer, gives back the messages that were encoded, laid out as consecutive C strings at known offsets. |
| Chat client | `Handshake`, `Delivery`, `Batching`, `Completion`, `Lossless`, `AsciiClient`, `Transcript` | The client on its one buffer, cursor and counter is the session on decoded batches. Safety of every run, with the exact condition on the messages consumed; in a completed run each message was taken as it was meant if and only if the server made three batch boundaries; with them the client completes exactly for cooperating servers, and no run leaves a message out. For every cooperating server what the client writes is given text by text. |

Inputs from the outside are parameters: what each read delivers, how long each wait takes
and what the clock says, the result of each write. Arithmetic is unbounded unless the
program's width matters; there it is written out (16-bit words, 32-bit counters, the wrap of
the unsigned timeout, signed Java bytes).

## Findings

Where the code does not do what its documentation or the standards promise, the model
follows the code, and the exact extent is a lemma.

- `assignment4.c:172` announces a 0 byte behind each message, but the count passed to the
  write is the length of the netstring: `Netstring.SendMessage`.
- The data token is copied from the start of the receive buffer, not from the cursor
  (`assignment4.c:395`), and the first read on the data channel overwrites control messages
  not yet consumed (`assignment4.c:369-370`). `Batching.InOrderIff` gives the condition under
  which neither does harm, `Batching.WrongTokenReturned` a run that completes and returns the
  wrong token.
- Behind extension headers the length passed to the checksum is too long for the buffer, and
  the program ends with an exception: `Responses.ExtensionHeadersThrow`, and
  `Tracing.RunThrowsIff` for the run.
- The header walk may never end. It ends if and only if it does so within one header more
  than the packet has octets, a test on the packet alone: `HeaderWalk.HaltsIff`. A header
  whose length octet is 255 is one way to make it stand still: `HeaderWalk.WalkMayStandStill`.
  `Tracing.RunEndlessIff` says what this means for the run.
- A length octet that reads as negative may lead the walk back into the IPv6 header, and what
  it finds there may pass for a reply. `Responses.AnswersIff` says which packets are answered,
  `Responses.BackwardPacketAnswered` gives packets that are answered and hold no Echo Reply.
- The code tests of the Time Exceeded and Destination Unreachable handlers are always true,
  so the traceroute only ever reports Echo Replies; and it does not look at their sequence
  number: `Responses.AnswersIff`.
- A wait that finds data after its budget has run out leaves the caller with a timeout that
  is not smaller than before: `RawRead.TimeoutShrinksIff`.
- A message that starts with `E` passes every check of the chat client. When the message goes
  out, the server has repeated the token if and only if neither the second control message
  nor the second data message starts with `E`: `Handshake.TokenEchoedBeforeMessage`, and
  `Delivery.TokenRepeatedIff` in terms of what the server sends. `Completion.SentUnrepeated`
  is a run in which the message goes out and no token was repeated.
- The size test of `writeNet` lets messages of exactly 4090 and 4091 characters through, which
  do not fit the buffer: `Netstring.TestPassesUnfitIff`.
- `readNet` accepts texts that are no netstrings, for instance with a sign in the length and
  no comma behind the payload: `Netstring.NoNetstringAccepted`; exactly which, says
  `Netstring.AcceptedIsNetstringIff`.

## Model

| member | source | states |
|---|---|---|
| `OnesComplement.OnesSumIsCanonicalTotal` | assignment3/deps/libraw/src/checksum.c:34-49 | Deferring all carries gives the end-around-carry sum of RFC 1071: one's-complement addition word by word equals the canonical residue of the plain total |
| `OnesComplement.CanonicalUnique` | assignment3/deps/libraw/src/checksum.c:47-49 | The folded value is the only word congruent to the sum modulo 65535 that is zero for the sum zero only |
| `OnesComplement.CanonicalCongruent` | assignment3/deps/libraw/src/checksum.c:47-51 | Two positive sums fold to the same word exactly if they are congruent modulo 65535 |
| `OnesComplement.CarryFold` | assignment3/deps/libraw/src/checksum.c:47-49 | The carry loop terminates on every sum with its canonical residue |
| `OnesComplement.FoldRoundsBound` | assignment3/deps/libraw/src/checksum.c:47-49 | No round for a 16-bit sum, at most two below 2^32, at most three below 2^47 |
| `OnesComplement.TotalOfPermutation` | assignment3/deps/libraw/src/checksum.c:39-41 | The total of a sequence of words depends on their multiset only |
| `Checksum.HostSumIsSwappedSum` | assignment3/deps/libraw/src/checksum.c:34-49 | Byte-order independence (RFC 1071, section 2(B)): the folded sum of little-endian loads, an odd last octet included, is the byte-swapped big-endian one's-complement sum |
| `Checksum.BuildPseudoHeader` | assignment3/deps/libraw/src/checksum.c:26-32 | The filled buffer is the pseudo-header of RFC 8200, section 8.1: octets 0 to 15 and 16 to 31 are the addresses, 32 to 35 read as the length, and 0, 0, 0, 58 follow |
| `Checksum.SumPayload` | assignment3/deps/libraw/src/checksum.c:39-45 | The loop and the odd tail add the little-endian total of the first `len` octets, for every length including zero |
| `Checksum.Icmp6Checksum` | assignment3/deps/libraw/src/checksum.c:18-52 | For every header and every payload below 2^32 octets, the returned value laid down in little-endian memory is the RFC 4443 checksum in network order: a number below 65535 that together with the plain sum of addresses, length, 58 and payload is a multiple of 65535 |
| `Checksum.ChecksumIff` | assignment3/deps/libraw/src/checksum.c:26-51 | There is only one such number |
| `Checksum.SumsToAllOnesIff` | assignment3/deps/libraw/src/checksum.c:26-49 | The receiver's rule holds exactly if the plain sum with the field in place is a multiple of 65535 |
| `Checksum.CarryRounds` | assignment3/deps/libraw/src/checksum.c:47-49 | At most two carry rounds for payloads of up to 2048 octets, at most three for any |
| `Checksum.ChecksumIsNotAllOnes` | assignment3/deps/libraw/src/checksum.c:32-51 | The next-header value alone makes the sum positive, so 0xFFFF is never returned |
| `Checksum.JavaChecksum` | assignment3/src/GRNVS_RAW.java:84-105 | The Java entry point rejects exactly the arguments its checks name, null among them, and otherwise returns the two checksum octets in network order |
| `ErrorDetection.WordReplacementUndetectedIff` | assignment3/deps/libraw/src/checksum.c:39-51 | Replacing one aligned payload word, or the odd last octet, keeps the checksum exactly if the word is the same or one zero replaces the other |
| `ErrorDetection.OctetChangeDetected` | assignment3/deps/libraw/src/checksum.c:39-51 | Every change of one octet, hence every bit flip, changes the checksum |
| `ErrorDetection.AddressChangeDetected` | assignment3/deps/libraw/src/checksum.c:29-51 | Every change of one octet of either address changes the checksum |
| `ErrorDetection.PermutationUndetected` | assignment3/deps/libraw/src/checksum.c:39-51 | Any rearrangement of the aligned words keeps the checksum |
| `ErrorDetection.RecomputeAcceptsIff` | assignment3/src/Assignment3.java:183-194 | Clearing the field, recomputing and comparing accepts exactly if the sum with the field in place is all ones and the field is not 0xFFFF |
| `ErrorDetection.FilledInIsAccepted` | assignment3/src/Assignment3.java:95-97 | A message whose field was filled with its checksum is accepted by both rules |
| `HexDump.DumpLengthClosed` | assignment3/deps/libraw/src/hexdump.c:13-25 | The length of the dump of n octets is 3n + 2⌊(n−1)/8⌋ + 11⌈n/16⌉ − 1 |
| `HexDump.DumpHasClosedLength` | assignment3/deps/libraw/src/hexdump.c:13-25 | The text has that length whatever the octets are |
| `HexDump.DumpInjective` | assignment3/deps/libraw/src/hexdump.c:13-25 | Equal dumps come from equal octets |
| `HexDump.DumpHasNoNul` | assignment3/deps/libraw/src/hexdump.c:13-31 | The text holds no NUL, so as a C string it is complete |
| `HexDump.DumpOfPrefix` | assignment3/deps/libraw/src/hexdump.c:13-28 | The dump of the first octets is a prefix of the full dump |
| `HexDump.Formatter.HexDump2` | assignment3/deps/libraw/src/hexdump.c:6-32 | Writing in place stays inside the 65536-character buffer and leaves the NUL-terminated dump of the octets up to the cut-off, in which each octet, each label and each gap can be read at its place; an empty input leaves the old text |
| `HexDump.DumpShows` | assignment3/deps/libraw/src/hexdump.c:13-25 | Octet i stands at 3i + 2⌊i/8⌋ + 11⌊i/16⌋ + 10 as two digits that read as its value, with a space behind; the label of its line reads as i between ">> " and ":  " |
| `HexDump.ShownIs` | assignment3/deps/libraw/src/hexdump.c:27-28 | 16626 octets are shown, and no more |
| `HexDump.ShownFits` | assignment3/deps/libraw/src/hexdump.c:27-28 | The early break always comes in time |
| `HexDump.TruncatedIff` | assignment3/deps/libraw/src/hexdump.c:27-28 | Octets are left out exactly if the closed length of all but the last leaves less than 64 characters |
| `HexDump.EqualDumpsShowEqualOctets` | assignment3/deps/libraw/src/hexdump.c:6-32 | Equal texts show equal octets, cut off or not |
| `TypeInfoList.Heap.NewInfo` | assignment2/src/assignment2.c:26-36 | Allocation gives a new live node with zero counters |
| `TypeInfoList.Heap.Free` | assignment2/src/assignment2.c:77-89 | Only a live node can be freed, which ends its life |
| `TypeInfoList.GetInfoByType` | assignment2/src/assignment2.c:38-44 | The first node of the type, or null if there is none; only live nodes are read |
| `TypeInfoList.InsertInfo` | assignment2/src/assignment2.c:55-67 | Insertion appends and keeps the list acyclic and every row |
| `TypeInfoList.UnlinkedIsList` | assignment2/src/assignment2.c:74-91 | Linking past one node leaves the list of the other nodes in their order |
| `TypeInfoList.RemoveByType` | assignment2/src/assignment2.c:69-92 | Removal unlinks and frees exactly the first node of the type; without one nothing changes |
| `TypeInfoList.Min` | assignment2/src/assignment2.c:94-105 | The first node of least type |
| `FrameStatistics.SummaryUnique` | assignment2/src/assignment2.c:211-217 | There is only one sorted group-by of a sequence of frames |
| `FrameStatistics.TableCorrect` | assignment2/src/assignment2.c:187-198 | After every frame there is one row for each type that occurred, with its exact frame count and its byte count modulo 2^32 |
| `FrameStatistics.TableConserves` | assignment2/src/assignment2.c:190-205 | After every frame the frame counters add up to the frames seen and the byte counters to the byte total modulo 2^32 |
| `FrameStatistics.OwnAndMulticastDisjoint` | assignment2/src/assignment2.c:199-204 | With a unicast address of its own, own and multicast frames together never exceed the frames seen |
| `EthernetCounter.MacsEqual` | assignment2/src/assignment2.c:119-126 | The loop decides equality of the two addresses |
| `RawFrames.SeenFrames` | assignment2/src/assignment2.c:115-135 | The loop sees as many frames as it takes reads; the destination is octets 0 to 5 and the type 256 times octet 12 plus octet 13, each from the latest read long enough |
| `RawFrames.WholeHeader` | assignment2/src/assignment2.c:115-135 | A read of 14 octets or more is looked at alone |
| `RawFrames.StopExists` | assignment2/src/assignment2.c:168-180 | There is a place where the loop stops: at the number of frames asked for, at the first empty read, or at the end of the reads |
| `RawFrames.StopUnique` | assignment2/src/assignment2.c:168-180 | The loop stops at one place only |
| `RawFrames.SummaryReports` | assignment2/src/assignment2.c:187-217 | A summary has one row for each type that the reads carry, with the number of these reads and their octets modulo 2^32 |
| `EthernetCounter.RecordFrame` | assignment2/src/assignment2.c:187-198 | Lookup, count or insert change the list as the table says, and allocate only for a new type |
| `EthernetCounter.ReceiveFrames` | assignment2/src/assignment2.c:168-208 | The receive loop ends after the given number of frames or the first timeout, with the table of the frames seen and exact counters, also where a short frame leaves octets of an earlier one in the buffer |
| `EthernetCounter.LeastRowMoves` | assignment2/src/assignment2.c:212-216 | Moving a least row from the table to the output keeps the output sorted and below the table, and loses no row |
| `EthernetCounter.Drain` | assignment2/src/assignment2.c:212-217 | The drain loop terminates, prints every row once in strictly increasing order, and frees every node of the list |
| `EthernetCounter.SortedTableIsSummary` | assignment2/src/assignment2.c:187-217 | The table of the frames in increasing order is their summary |
| `EthernetCounter.Assignment2` | assignment2/src/assignment2.c:139-219 | The whole program: the rows printed are the summary of the frames seen; in terms of the reads, the rows, the number sent to this host, the number whose first octet is odd, and the octets modulo 2^32; and all memory is given back |
| `RawRead.Timespec.Sub` | assignment3/deps/libraw/src/timespec.h:25-33 | Subtraction keeps values normalised and total nanoseconds exact |
| `RawRead.Timespec.MSet` | assignment3/deps/libraw/src/timespec.h:47-51 | Setting from milliseconds is exact and normalised |
| `RawRead.MillisRoundTrip` | assignment3/deps/libraw/src/raw.c:177-194 | Setting a timeout and converting it back loses nothing |
| `RawRead.MillisLeftExact` | assignment3/deps/libraw/src/raw.c:194 | Without an overrun the stored timeout is the time left rounded down, and strictly less if any time passed |
| `RawRead.TimeoutShrinksIff` | assignment3/deps/libraw/src/raw.c:193-194 | The unsigned timeout shrinks exactly if the wait stayed within its budget |
| `RawRead.GrnvsRead` | assignment3/deps/libraw/src/raw.c:157-219 | Over all waits of one read, interrupted ones included, the time that passed is taken from the timeout, in unsigned arithmetic that wraps after an overrun; it ends at zero on a timeout, and a zero timeout reads nothing |
| `RawRead.PunctualRead` | assignment3/deps/libraw/src/raw.c:183-211 | If waits that find data keep their budget and no signal ends a wait, a read that delivers data leaves less than it was given, and nothing below zero |
| `RawRead.TimeoutConserved` | assignment3/deps/libraw/src/raw.c:174-219 | k reads on one timeout: initial − elapsed − k < final ≤ initial − elapsed in milliseconds; where every wait takes time, each read uses up at least one |
| `RawRead.ReadsBounded` | assignment3/deps/libraw/src/raw.c:174-219 | Where every wait takes time, a timeout of M milliseconds admits at most M reads that deliver data |
| `RawRead.ReadCaused` | assignment3/deps/libraw/src/raw.c:183-218 | However a read ends, with data, a timeout or an exit, one of the waits it makes is the cause |
| `RawRead.CauseEndsRead` | assignment3/deps/libraw/src/raw.c:183-218 | A wait that is a cause for an end, among those a read makes, ends it so |
| `HeaderWalk.Walk` | assignment3/src/Assignment3.java:152-158 | For every packet the loop ends where the walk does, or with the exception of an index outside the packet, or finds that the walk never ends |
| `HeaderWalk.HaltsIff` | assignment3/src/Assignment3.java:152-158 | The walk ends, after however many headers, if and only if it ends within one header more than the packet has octets |
| `HeaderWalk.EndsWithinTheRest` | assignment3/src/Assignment3.java:155-158 | A walk that ends does so within as many headers as there are positions besides those from which it lasts longer, in particular those it has visited |
| `HeaderWalk.MovesForwardHalts` | assignment3/src/Assignment3.java:152-158 | Without negative length octets the walk terminates, at the first header or behind the IPv6 header |
| `HeaderWalk.WalkMayStandStill` | assignment3/src/Assignment3.java:155-157 | The length octet 255 makes the walk loop for ever |
| `HeaderWalk.WalkFindsMessage` | assignment3/src/Assignment3.java:152-160 | On the encoding of any chain of extension headers with lengths up to 127 the walk finds the ICMPv6 message at 40 + Σ(8 + 8·length) |
| `HeaderWalk.WalkFindsMessageBehind` | assignment3/src/Assignment3.java:152-160 | The same with the kinds 0, 43 and 60, sizes of 8 + 8·length octets and the type 58 in numbers, and the message found is the one behind the chain |
| `HeaderWalk.OneHeader` | assignment3/src/Assignment3.java:153-158 | A single header of kind 0, 43 or 60 with length octet L is 8L + 8 octets long if L is below 128, and 8L − 2040 otherwise |
| `HeaderWalk.NoHeader` | assignment3/src/Assignment3.java:153-155 | With any other kind the message is taken to begin at octet 40 |
| `Responses.CheckIcmpProperties` | assignment3/src/Assignment3.java:183-194 | Returns the comparison or the exception of the specification and leaves the field cleared in the buffer |
| `Responses.ChecksumMatchesIff` | assignment3/src/Assignment3.java:183-194 | Directly behind the IPv6 header the check is the receiver's rule of RFC 1071, except for the field 0xFFFF |
| `Responses.ChecksumThrowsBehindExtensions` | assignment3/src/Assignment3.java:189 | At any position behind 40 the checksum call throws |
| `Responses.HandleIcmpTimeEx` | assignment3/src/Assignment3.java:196-204 | Never accepts |
| `Responses.HandleIcmpDestUnreach` | assignment3/src/Assignment3.java:206-214 | Never accepts |
| `Responses.HandleIcmpEchoRep` | assignment3/src/Assignment3.java:216-230 | Accepts code 0 with the program's identifier; short packets throw where the code reads past the end |
| `Responses.CheckMessage` | assignment3/src/Assignment3.java:135-181 | Judges every packet as specified, exceptions and walks without end included |
| `Responses.AnswersIff` | assignment3/src/Assignment3.java:135-230 | A packet ends an attempt if and only if it is an Echo Reply to this host and identifier, directly behind the IPv6 header, that the receiver's rule accepts and whose field is not 0xFFFF, or a walk led backwards finds octets inside the IPv6 header that pass for one; the latter never without a negative length octet |
| `Responses.AnswersOctets` | assignment3/src/Assignment3.java:135-230 | The packets without extension headers that are answered, octet by octet, with the sum that has to be a multiple of 65535 |
| `Responses.BackwardPacketAnswered` | assignment3/src/Assignment3.java:155-189 | For every source address a packet that is answered though it holds no Echo Reply |
| `Responses.MisreadAt` | assignment3/src/Assignment3.java:155-160 | What a packet led backwards passes off as a message begins at octet 8, 16, 24 or 32 |
| `Responses.ThrowsIff` | assignment3/src/Assignment3.java:135-230 | A packet throws if and only if it is cut short, its header walk leaves it, or its message has no room for the checksum or, with a matching checksum, is an Echo Reply cut short |
| `Responses.MessageThrowsIff` | assignment3/src/Assignment3.java:183-230 | Which messages throw, and which of them because of the arguments of the checksum rather than an index |
| `Responses.ForwardExtensionsThrow` | assignment3/src/Assignment3.java:152-189 | A packet to this host with an extension header and no negative length octet on the walk throws or is ignored, and throws if the walk finds an ICMPv6 message |
| `Responses.ExtensionHeadersThrow` | assignment3/src/Assignment3.java:152-189 | Behind at least one extension header every ICMPv6 message to this host ends the program with an exception |
| `Traceroute.ProbesNumbered` | assignment3/src/Assignment3.java:62-129 | The probe of hop h, attempt a stands at position (h−1)·attempts + a−1, with that number modulo 65536 and hop limit h |
| `Traceroute.ProbesCounted` | assignment3/src/Assignment3.java:62-129 | As many probes as attempts times hops started, plus those of a hop under way |
| `Traceroute.ProbeFields` | assignment3/src/Assignment3.java:67-97 | Length, hop limit h mod 256, addresses, checksum and sequence number of a probe, octet by octet |
| `Traceroute.ProbeOctets` | assignment3/src/Assignment3.java:67-97 | All 48 octets of a probe in numbers, and the one value of its checksum field |
| `Traceroute.EchoOfProbeAnswered` | assignment3/src/Assignment3.java:135-230 | The Echo Reply a host makes of a probe is answered with the host's address |
| `Traceroute.ProbeAt` | assignment3/src/Assignment3.java:62-129 | Probe number i, from 0, has hop limit i / attempts + 1 modulo 256 and sequence number i modulo 65536 |
| `Traceroute.MillisecondsAre` | assignment3/src/Assignment3.java:60-85 | The timeout is 1000 times the seconds given, modulo 2^32, and exactly that up to 4294967 seconds |
| `Traceroute.SequenceNumbersDistinct` | assignment3/src/Assignment3.java:86 | Up to 65536 probes, those of a hop under way included, all sequence numbers differ |
| `Traceroute.ProbeIsAccepted` | assignment3/src/Assignment3.java:67-97 | Every probe passes the receiver's rule and the program's own check |
| `Traceroute.Tracer.BuildProbe` | assignment3/src/Assignment3.java:67-97 | From the reused header and payload arrays the packet built is the probe of the next sequence number |
| `Traceroute.Tracer.AwaitReply` | assignment3/src/Assignment3.java:108-125 | The read loop ends after at most M + 1 reads on a timeout of M milliseconds, with the first reply, a star, an exit, an exception, or a header walk without end |
| `Traceroute.Tracer.Attempt` | assignment3/src/Assignment3.java:65-125 | One attempt sends one probe exactly if the write succeeds, and ends as the write and the reads decide: exit on a failed write, else the end of the wait for the reply with a fresh timeout |
| `Traceroute.Tracer.Hop` | assignment3/src/Assignment3.java:64-128 | The cells printed, the end, the waits and the number of probes are those of the trace of the hop: all attempts are made, also after a reply, until one does not end normally |
| `Traceroute.Tracer.Run` | assignment3/src/Assignment3.java:35-132 | However the program ends, the rows printed (an unfinished one included), its end, its waits and the number of probes are those of the trace of the run, with 1000 milliseconds for each second of the timeout, and the probes sent are those of the numbering |
| `Tracing.RunShape` | assignment3/src/Assignment3.java:62-129 | All rows but the last are whole and without an address; a run that completes before the hop limit has an address in its last row; the probes sent are one for each cell, and at most one more if the run breaks off |
| `Tracing.FirstWait` | assignment3/src/Assignment3.java:85-110 | The first wait of every attempt whose write succeeds has all of the timeout, 1000000 nanoseconds for each millisecond |
| `Tracing.RunExits` | assignment3/src/Assignment3.java:100-106 | Every write that sent a probe succeeded, and a run that breaks off before the probe of its last attempt exits because the next write failed |
| `Tracing.RunShowsIff` | assignment3/src/Assignment3.java:62-129 | A run prints an address or a star, throws, goes on for ever, or exits after a probe if and only if a wait it makes brings that about: a packet judged so, silence, or an error of the kernel |
| `Tracing.RunThrowsIff` | assignment3/src/Assignment3.java:62-129 | A run ends with an exception if and only if a wait it makes delivers a packet that throws |
| `Tracing.RunEndlessIff` | assignment3/src/Assignment3.java:155-158 | A run goes on for ever if and only if a wait it makes delivers a packet to this host on which the header walk never ends |
| `Tracing.PrintedHostReplied` | assignment3/src/Assignment3.java:109-125 | An address is printed if and only if a wait that the run makes delivers a genuine reply from it, or a packet that the header walk misreads as one |
| `Decimal.CountDigits` | assignment4/src/assignment4.c:83-91 | The number of digits counted is the length of the decimal print, for every number |
| `Decimal.AtolOfPrint` | assignment4/src/assignment4.c:137-140 | Parsing a printed number gives it back |
| `Decimal.PrintOfValue` | assignment4/src/assignment4.c:131-140 | Digits without a leading zero are the print of their value |
| `Decimal.PrintReads` | assignment4/src/assignment4.c:104 | A printed number consists of the codes 48 to 57, reads as the number, and has no zero in front |
| `CStrings.StrCpyDown` | assignment4/src/assignment4.c:201 | Copying a string to the front of its own buffer leaves that string there |
| `Netstring.GuardOrderIrrelevant` | assignment4/src/assignment4.c:102 | Whether the digits of the length or of the buffer size are counted makes no difference |
| `Netstring.FitsIff` | assignment4/src/assignment4.c:102-112 | A netstring and its terminator fit the buffer exactly for messages below 4090 characters |
| `Netstring.WriteNet` | assignment4/src/assignment4.c:98-113 | The buffer holds exactly the netstring, padded with NUL, and the result is one less than its length; messages from 4092 characters on become "0:" |
| `Netstring.EncodeCharacters` | assignment4/src/assignment4.c:104-106 | A netstring is the length in decimal, a colon, the message and a comma |
| `Netstring.TestPassesUnfitIff` | assignment4/src/assignment4.c:102-112 | A message passes the size test without fitting the buffer if and only if it has 4090 or 4091 characters |
| `Netstring.SendMessage` | assignment4/src/assignment4.c:170-173 | The octets written are exactly the netstring |
| `Netstring.ParseOfEncode` | assignment4/src/assignment4.c:119-165 | Parsing the netstring of a non-empty message followed by anything gives message and rest back |
| `Netstring.AcceptedIsNetstringIff` | assignment4/src/assignment4.c:121-164 | What the parser accepts is a netstring exactly if the length is plain digits and a comma ends the payload |
| `Netstring.ComplaintIff` | assignment4/src/assignment4.c:121-157 | The complaint is about a leading zero if and only if a colon comes before any comma and the text starts with 0, and about the format if and only if no colon does, or the text starts otherwise and has no comma |
| `Reception.ReadNet` | assignment4/src/assignment4.c:119-165 | With source and destination in one buffer, the message ends up at the front and what follows it is untouched; otherwise the complaint of the format checks |
| `Reception.DecodeOfEncodeAll` | assignment4/src/assignment4.c:98-205 | The batch round trip: decoding the concatenated netstrings of messages that fit gives the messages |
| `Reception.OffsetStep` | assignment4/src/assignment4.c:197-199 | The offset of a message is the sum of the sizes of those before it, terminators included |
| `Reception.MessageAt` | assignment4/src/assignment4.c:191-199 | Each message is the C string at its offset, and the last one is repeated behind the layout |
| `Reception.LaidUnique` | assignment4/src/assignment4.c:191-204 | The buffer and the number returned determine the messages |
| `Reception.LaidStep` | assignment4/src/assignment4.c:197-199 | Printing a message twice behind a layout extends the layout and keeps the rest |
| `Reception.RecvMessage` | assignment4/src/assignment4.c:180-205 | Every batch the loop can handle is decoded in place into the laid-out messages with their number returned, or ends with the complaint about its first malformed netstring |
| `Handshake.TokenEchoedBeforeMessage` | assignment4/src/assignment4.c:296-421 | In every run, however it ends, the data channel is sent the nickname and the message and nothing else; when the message goes out, the data channel has repeated the token given on the control channel if and only if neither of these two messages starts with E |
| `Handshake.CompletionMeans` | assignment4/src/assignment4.c:395-421 | The client completes only after returning the data token it kept; the server had reported the length of the message, and acknowledged, if and only if what was consumed in their place does not start with E |
| `Delivery.AdvanceFaithful` | assignment4/src/assignment4.c:231-241 | The cursor denotes the first message not consumed, also after it moves on |
| `Delivery.ConsumesInSequence` | assignment4/src/assignment4.c:296-421 | In every run, against every server, the messages consumed on a channel are messages sent there, none twice and in the order sent; a kept data token comes from the message whose number is recorded |
| `Delivery.TokenRepeatedIff` | assignment4/src/assignment4.c:296-390 | When the message goes out, the second data message repeats the token of the second control message if and only if neither of them starts with E |
| `Batching.BatchingHarmless` | assignment4/src/assignment4.c:296-421 | With batch boundaries after the control token, before the data token and after it, the client does exactly what it does when every message arrives alone |
| `Batching.InOrderIff` | assignment4/src/assignment4.c:369-421 | In a completed run the data token is that of the third data message if and only if a batch ends before it; the length is read from the control channel if and only if a batch ends after it, and is then the third control message if and only if a batch ends after the second |
| `Batching.DataTokenReturned` | assignment4/src/assignment4.c:392-416 | With these boundaries the token returned on the control channel is the one the server sent in its third data message |
| `Batching.WrongTokenReturned` | assignment4/src/assignment4.c:392-416 | A concrete run that completes and returns the wrong token, because echo and data token share a batch |
| `Completion.CompletesIff` | assignment4/src/assignment4.c:296-421 | With these boundaries the client reaches the final close if and only if the messages of both channels are the ones it expects |
| `Completion.MessageSentIff` | assignment4/src/assignment4.c:296-390 | With these boundaries the message goes out if and only if the first two messages of both channels are the ones expected |
| `Completion.SentUnrepeated` | assignment4/src/assignment4.c:207-212 | A run that sends the message without the token having been repeated |
| `Lossless.NothingLost` | assignment4/src/assignment4.c:231-241 | With these boundaries every run, however it ends, consumes the messages of each channel from the first one on, leaving none out |
| `AsciiClient.Client.Refill` | assignment4/src/assignment4.c:180-205 | A read over the buffer leaves cursor and counter at the first message of the new batch; a failed read leaves an empty buffer |
| `AsciiClient.Client.CheckMessage` | assignment4/src/assignment4.c:207-229 | Passes exactly the expected text and texts that start with E |
| `AsciiClient.Client.NextMessage` | assignment4/src/assignment4.c:231-241 | Counter and cursor move on to the next message, or back to the start of the buffer after the last |
| `AsciiClient.Client.KeepToken` | assignment4/src/assignment4.c:310-395 | The token kept is the C string two characters behind the message, whichever message lies there |
| `AsciiClient.Client.RunSession` | assignment4/src/assignment4.c:296-421 | The run on buffer, cursor and counter is the session on the decoded batches: same outcome, same events, same octets written |
| `AsciiClient.Assignment4` | assignment4/src/assignment4.c:262-421 | Whether the client completes, and every octet it writes on each channel, as the session on the decoded reads determines them |
| `AsciiClient.BatchesOfReads` | assignment4/src/assignment4.c:180-205 | What a server writes in groups that fit is decoded into those groups |
| `Transcript.SessionTranscript` | assignment4/src/assignment4.c:296-421 | Against a server with the three boundaries that sends "S GRNVS V:1.0", "S " and a token, "S " and the length, "S ACK" and "T GRNVS V:1.0", "T " and the token, "T " and another token, the client completes and sends exactly "C GRNVS V:1.0", "C " and the nickname, "C " and the port, "C " and the second token, and "D " and the nickname, "D " and the message |
| `Transcript.Converse` | assignment4/src/assignment4.c:262-421 | The same for the program on its buffers, in the octets read and written |
| `Transcript.OneByOneServes` | assignment4/src/assignment4.c:296-421 | A server that sends one netstring at a time is such a server, for all tokens of up to 2045 characters |
| `Transcript.CompletesForIff` | assignment4/src/assignment4.c:207-421 | With the three boundaries the client completes if and only if each message is the text the protocol calls for, or starts with E |
| `Transcript.FirstMessage` | assignment4/src/assignment4.c:98-113 | The first message of every conversation goes out as the characters 13:C GRNVS V:1.0, |

## Left out

- RawRead.GrnvsRead: requires that the clock does not run backwards and has advanced when a wait is interrupted, without which the loop need not end, and that a negative time to wait is an error of `pselect`. Where a signal ends a wait before any `read`, the loop condition looks at a length that was never set, and the model stops there (`Unset`).
- HeaderWalk.Walk: where the program's loop never ends, the loop of the model counts its turns and ends with a result that says so; no other effect of the endless loop is modelled.
- Netstring.WriteNet: does not model what becomes of messages of 4090 and 4091 characters, which overrun the buffer.
- Netstring.AcceptedIsNetstringIff: is about texts with the whole payload present; the refill loop of `readNet` (`assignment4.c:142-149`) is not modelled, nor a format complaint about a text that starts with E or is the expected text itself, which goes unreported.
- CStrings.StrCpyDown: copies in ascending order. C leaves `strcpy` and `strncpy` between overlapping regions undefined, so the results about decoding in place (`Reception.ReadNet`, `Reception.RecvMessage` and what rests on them) are about libraries that copy this way.
- Reception.RecvMessage: requires that each message has room for its copy, and that a read leaves room for its terminator.
- AsciiClient.Client.RunSession: requires arguments whose messages fit the send buffer; the report to the server when a check fails is an event without the octets it writes, because it is printed through the receive buffer from the cursor on. The buffers for outgoing texts and the token are values.
- Traceroute.Tracer.Run: requires a punctual kernel (every wait takes time, waits that find data keep their budget, and no signal ends a wait), since after an overrun the timeout may grow and the read loop need not end, and less than the largest Java int as attempts and hop limit, with which the loops never end. Addresses are compared as octets, not as printed text; the printed lines are the recorded cells.
- EthernetCounter.Assignment2: the interface address is a parameter; `malloc` always succeeds; the rows are values rather than formatted text.
- Socket setup, `ioctl`, address lookup, `grnvs_open`, `grnvs_write` and `grnvs_close`, and most of the JNI glue: foreign calls without logic of their own.
- The data rates of `assignment2`, which are floating-point arithmetic on elapsed time.
- Argument parsing, help texts and error messages on the console.
- The CRC of libraw's `crc.c`, whose bits the kernel checks.
- The Collatz program of `assignment1`, whose termination is an open problem.
- The copy of libraw in `assignment2`, which is the same code.
