# swxtch-perf-rio in Dafny

A model of the multicast performance tool: the consumer's sequence accounting and receive ring, the
reports taken while packets arrive, the producer's send schedule and its delay controller, the three
composed, and the string, address and buffer-size routines around them.

| module | what it models |
|---|---|
| `Basics`, `MachineWords`, `ModularIndex` | unsigned 32- and 64-bit words; indices around rings and tables |
| `GroupAccounting` | the counters of one multicast group after any stream of packets |
| `Demultiplexing` | the map of groups, and totals over it |
| `ReceiveRing` | class `RioConsumer`: posted receives, completions and what gets booked where |
| `Snapshots` | `GetMcTotals` and `ReportWorker` against a running receive thread |
| `ProducerSchedule` | class `RioProducer`: shared packet buffers, numbering, batches |
| `EndToEnd` | producer, lossy channel and consumer together |
| `SpinControl` | class `SpinWorker`: the tuning of the send delay |
| `SafeStrings` | `strncpy_s`, `strnlen_s`, `strnterminate_s` over one flat memory |
| `SplitJoin`, `Decimal`, `CommaSeparated` | splitting, joining, printing, comma insertion in place |
| `Ipv4`, `Ipv4Range`, `MulticastCheck` | byte order, ranges, the multicast address check |
| `BufferLayout` | 32-bit allocation sizes and the descriptors laid out in the buffers |

Assumptions: sends and receives complete in the order they were posted; the network side writes the
address of every packet it delivers, whatever its size; the host is little-endian; at least one
multicast group is configured. The network takes the payload of a send from its buffer at any moment
between the posting and the dequeuing of its completion, so a packet may go out with another number
than it was posted with. Which packets arrive, when they are delivered relative to the loop and how many
completions a batch has are free.

What the code does differently from its documentation or from what one would expect; the model follows
the code:

- The address slot is chosen by a running index and the data slot by the completed request. One packet
  of an unexpected size sets the two apart for good: from then on a packet is booked under the group of
  the packet before it (`ReceiveRing.OneOddPacketShiftsGroups`; for every run, `StatsOfEveryRun`).
- That index is a 32-bit counter and the ring has 1500000 slots, which does not divide 2^32. Each time
  the index wraps around, the bookings of as many packets as the ring has slots read the address slots of
  other packets; then the order is restored (`ReceiveRing.BookingReads`, `ReceiveRing.SlotReadIsOwn`;
  for every run, `StatsOfEveryRun`).
- A packet numbered 2^64 - 1 resets the expected number to 0 (`GroupAccounting.ExpectedRestarts`).
- A batch of completions whose size is not a multiple of the number of groups makes the producer rewrite
  packets still in flight (`ProducerSchedule.StableIff`), and the next batch repeats a number to the first
  group (`ProducerSchedule.GaplessIff`). The consumer can then count packets out of order that are not
  (`EndToEnd.AccountedIff`, `EndToEnd.OneCompletionReorders`).
- A range of addresses is documented as from <= till; the check compares the stored, byte-swapped words
  (`Ipv4Range.CheckMeansAscending`, `Ipv4Range.AscendingRangeRejected`).
- `strnlen_s` is documented to access dmax characters at most; it reads one more exactly if they are all
  non-null (`SafeStrings.StrnlenS`, `SafeStrings.ReadsOneTooMany`).

Where an index goes around a ring or a table, the proofs use `Rem` and `Row`, which are remainder and
quotient unrolled by whole turns (`ModularIndex.RemIsMod`, `ModularIndex.RowIsQuotient`), and
`Table(m, r, g)`, which says that m is r * g (`ModularIndex.ProductIsTable`).

## Model

| member | source | states |
|---|---|---|
| GroupAccounting.RunClosedForm | swxtch-perf-rio/RioConsumer.cpp:163-187 | for every stream: drops are the walk "expected - first - received" minus its minimum so far, the expected number is the maximum + 1, out-of-order counts the packets that are no strict running maximum |
| GroupAccounting.ExpectedFollowsMaximum | swxtch-perf-rio/RioConsumer.cpp:169-178 | with 64-bit wrap-around, expected is maximum + 1 if and only if 2^64 - 1 was not received |
| GroupAccounting.ExpectedRestarts | swxtch-perf-rio/RioConsumer.cpp:169-178 | after a packet numbered 2^64 - 1, expected is 0, and then the maximum + 1 of the packets behind it |
| GroupAccounting.DropsAgainstTruth | swxtch-perf-rio/RioConsumer.cpp:169-185 | the exact error of the drop counter against the set of numbers never received, and its bounds on both sides, for every stream |
| GroupAccounting.DropsExact | swxtch-perf-rio/RioConsumer.cpp:169-185 | no duplicates and nothing below the first packet: drops are the number of missing packets |
| GroupAccounting.InOrderStream | swxtch-perf-rio/RioConsumer.cpp:163-187 | lossy but ordered stream: nothing out of order, packets + drops is the span |
| GroupAccounting.OrderInsensitive | swxtch-perf-rio/RioConsumer.cpp:169-186 | permuted duplicate-free deliveries starting with their minimum leave equal counters, out-of-order apart |
| GroupAccounting.OutOfOrderDependsOnOrder | swxtch-perf-rio/RioConsumer.cpp:179-184 | two such deliveries that differ in the out-of-order counter |
| Demultiplexing.EachGroupAlone | swxtch-perf-rio/RioConsumer.cpp:166-187 | an interleaved stream leaves each group the counters of its own packets run alone |
| Demultiplexing.ReplayKeys | swxtch-perf-rio/RioConsumer.cpp:166-167 | the map holds the configured groups and those booked, no others |
| Demultiplexing.Conservation | swxtch-perf-rio/RioConsumer.cpp:245-254 | packets over all groups add up to the packets booked, bytes to 100 times that |
| Demultiplexing.TotalsUpdated | swxtch-perf-rio/RioConsumer.cpp:245-254 | a change of one entry changes each of the four sums by exactly that |
| ReceiveRing.RioConsumer.constructor | swxtch-perf-rio/RioConsumer.cpp:4-20 | a session starts with zeroed groups and all receives posted |
| ReceiveRing.RioConsumer.InitGroupStats | swxtch-perf-rio/RioSession.cpp:212-217 | exactly the configured groups, each with zero counters |
| ReceiveRing.RioConsumer.PostFirstRecvs | swxtch-perf-rio/RioConsumer.cpp:77-92 | receive i is posted with data and address descriptor i |
| ReceiveRing.RioConsumer.GroupStatsUpdate | swxtch-perf-rio/RioConsumer.cpp:163-187 | the update of one entry of the map, all others unchanged |
| ReceiveRing.RioConsumer.HandleCompletion | swxtch-perf-rio/RioConsumer.cpp:128-148 | one pass of the loop: booked and posted again, or retired |
| ReceiveRing.RioConsumer.Start | swxtch-perf-rio/RioConsumer.cpp:109-150 | any schedule of deliveries and passes ends in its outcome and keeps the invariant |
| ReceiveRing.PassesHandle | swxtch-perf-rio/RioConsumer.cpp:128-148 | from every valid state k passes handle the k oldest results, or all there are, each counted by its size |
| ReceiveRing.DeliverTurn | swxtch-perf-rio/RioConsumer.cpp:87-88 | a packet arrives exactly if a posted receive is waiting for it; nothing else changes, and nothing at all otherwise |
| ReceiveRing.AllCanBeHandled | swxtch-perf-rio/RioConsumer.cpp:109-150 | for any packets with fewer of another size than receives, a run in which all of them arrive and are handled |
| ReceiveRing.Exhausted | swxtch-perf-rio/RioConsumer.cpp:128-148 | once as many other-sized packets as receives were handled, no schedule changes anything any more |
| ReceiveRing.HandlingValid | swxtch-perf-rio/RioConsumer.cpp:128-148 | every pass of the loop keeps the ring invariant |
| ReceiveRing.DeliveredValid | swxtch-perf-rio/RioConsumer.cpp:87-88 | a packet landing in the oldest posted receive keeps it, overwriting no slot still needed |
| ReceiveRing.LiveReceives | swxtch-perf-rio/RioConsumer.cpp:77-92 | reachable states: live receives + other packets = N, 32-bit total, data descriptors distinct, the address descriptor of every posting, before and after wrap-arounds; until then (or if N divides 2^32) consecutive up to mcAddrDescrIndex - 1 |
| ReceiveRing.SlotReadIsOwn | swxtch-perf-rio/RioConsumer.cpp:131-144 | every reachable state: the slot read is the completed packet's own exactly while no other-sized packet was handled; within N packets after a wrap-around, exactly if 2^32 + others is whole turns |
| ReceiveRing.BookingReads | swxtch-perf-rio/RioConsumer.cpp:133-144 | whatever has arrived by then, booking i reads the address of arrival i if and only if it is not among the first N after a wrap-around, or N divides 2^32 |
| ReceiveRing.StatsOfEveryRun | swxtch-perf-rio/RioConsumer.cpp:128-148 | every run, wrap-arounds included: the map is the replay of bookings that take each number from its own packet and each group from the last packet that landed in the slot read; that is the i-th packet of any size exactly if booking i is undisturbed |
| ReceiveRing.GroupsOfEveryRun | swxtch-perf-rio/RioConsumer.cpp:166-167 | the map holds the configured groups and those booked, no others |
| ReceiveRing.RunConserves | swxtch-perf-rio/RioConsumer.cpp:245-254 | every run: packets over the groups add up to packetCounter, bytes to 100 times that |
| ReceiveRing.GroupsKeptApart | swxtch-perf-rio/RioConsumer.cpp:128-148 | until the index wraps (ever, if N divides 2^32), without other-sized packets each group has the counters of its own packets |
| ReceiveRing.OneOddPacketShiftsGroups | swxtch-perf-rio/RioConsumer.cpp:133-146 | after one other-sized packet all later ones are booked one group late |
| ReceiveRing.IndexSurvivesWrap | swxtch-perf-rio/RioConsumer.cpp:133-144 | the 32-bit index keeps its slot through the wrap-around if and only if the ring size divides 2^32; 1500000 does not |
| Snapshots.PacketOpsAreUpdate | swxtch-perf-rio/RioConsumer.cpp:169-186 | the atomic operations of one packet, uninterrupted, are one update |
| Snapshots.CountersGrow | swxtch-perf-rio/RioConsumer.cpp:169-186 | packets, bytes and out-of-order never decrease along the thread's atomic operations |
| Snapshots.TotalsGrow | swxtch-perf-rio/RioConsumer.cpp:245-254 | nor do their true sums over the groups |
| Snapshots.GetMcTotals | swxtch-perf-rio/RioConsumer.cpp:245-254 | with updates between any two loads, the totals are the wrapped sums of what was loaded; packets, bytes and out-of-order lie between the true sums at scan start and scan end; drops are exact if no drop counter changes meanwhile |
| Snapshots.LoadedDropsWithin | swxtch-perf-rio/RioConsumer.cpp:249-250 | the drops, which can fall too, lie between the sums of any bounds the single counters keep during the scan |
| Snapshots.ReportWorker | swxtch-perf-rio/RioConsumer.cpp:273-283 | the totals printed are such snapshots; every line is the growth between two of them in order, modulo 2^64, no difference underflowing; the lines add up to the last snapshot, clamped drops to at least its drops |
| ProducerSchedule.RioProducer.FillPackets | swxtch-perf-rio/RioProducer.cpp:66-79 | descriptor G*i+j points at packet i, packet i carries number i, the next number is R |
| ProducerSchedule.RioProducer.PostFirstSend | swxtch-perf-rio/RioProducer.cpp:58-99 | the state after the first sends |
| ProducerSchedule.RioProducer.GroupStatsUpdate | swxtch-perf-rio/RioProducer.cpp:206-215 | the recorded number is the previous packet count |
| ProducerSchedule.RioProducer.SendAgain | swxtch-perf-rio/RioProducer.cpp:131-149 | one result of a batch: header rewritten, sent to the group of its place in the batch, counters advanced |
| ProducerSchedule.RioProducer.SendBatch | swxtch-perf-rio/RioProducer.cpp:130-150 | a batch of any size |
| ProducerSchedule.RioProducer.Start | swxtch-perf-rio/RioProducer.cpp:116-151 | any sequence of batches, keeping the schedule's invariant |
| ProducerSchedule.EveryPairOnce | swxtch-perf-rio/RioProducer.cpp:81-97 | every (packet, group) pair is sent exactly once |
| ProducerSchedule.InitialValid | swxtch-perf-rio/RioProducer.cpp:58-99 | the first sends establish the schedule's invariant |
| ProducerSchedule.ResendValid | swxtch-perf-rio/RioProducer.cpp:130-150 | every resend keeps it, in batches of any sizes |
| ProducerSchedule.OdometerReads | swxtch-perf-rio/RioProducer.cpp:130-150 | sequenceNumber = R + resends div G, groupCounter = resends mod G |
| ProducerSchedule.InFlightIntact | swxtch-perf-rio/RioProducer.cpp:66-79 | at any point of a batch, all payloads in flight are intact if and only if the last resend is in an earlier row than the first send in flight |
| ProducerSchedule.IntactBetweenBatches | swxtch-perf-rio/RioProducer.cpp:130-150 | between batches: if and only if the number of resends is a multiple of G |
| ProducerSchedule.IntactWithinAlignedBatch | swxtch-perf-rio/RioProducer.cpp:130-150 | a batch ending on a multiple of G never disturbs a payload |
| ProducerSchedule.StableIff | swxtch-perf-rio/RioProducer.cpp:130-150 | over a whole run, all payloads in flight are intact at every moment, in the middle of batches too, if and only if every batch size is a multiple of G |
| ProducerSchedule.AllAsPosted | swxtch-perf-rio/RioProducer.cpp:130-150 | then every packet goes out with the number it was posted with |
| ProducerSchedule.DequeuedAsPosted | swxtch-perf-rio/RioProducer.cpp:130-150 | if every batch starts on a multiple of G, every packet dequeued by the end of the run went out as posted |
| ProducerSchedule.Overtaken | swxtch-perf-rio/RioProducer.cpp:130-150 | after the first batch that is no multiple, with two packets or more, a packet can go out with a later number than the next one of its group |
| ProducerSchedule.Repeated | swxtch-perf-rio/RioProducer.cpp:130-150 | with one packet, a batch that starts off a multiple sends group 0 the same number twice |
| ProducerSchedule.MisalignedRepeats | swxtch-perf-rio/RioProducer.cpp:136-148 | a batch starting off a multiple of G repeats a number to group 0 |
| ProducerSchedule.GaplessIff | swxtch-perf-rio/RioProducer.cpp:130-150 | every group is posted 0, 1, 2, ... if and only if every batch starts on a multiple of G |
| ProducerSchedule.RecordedIsLastSent | swxtch-perf-rio/RioProducer.cpp:206-215 | then the recorded number is the last one posted, and packets and bytes are those posted |
| ProducerSchedule.EveryRun | swxtch-perf-rio/RioProducer.cpp:101-151 | for all batch sizes, from the first send on: all counters, the packets and bytes of each group, payload stability between batches and at all moments, gapless postings and recorded numbers, each with its exact condition |
| EndToEnd.ArrivalsIncrease | swxtch-perf-rio/RioProducer.cpp:130-150 | what any order-keeping channel lets through of an aligned run, numbered as transmitted, is strictly increasing per group |
| EndToEnd.SpanAccounted | swxtch-perf-rio/RioConsumer.cpp:163-187 | the counters of such a stream: out-of-order 0, packets + drops = last - first + 1 |
| EndToEnd.AccountedIff | swxtch-perf-rio/RioProducer.cpp:116-151 | this holds for every channel and every moment of transmission if and only if G divides every batch size (with one packet only, every one but the last) |
| EndToEnd.OneCompletionReorders | swxtch-perf-rio/RioProducer.cpp:130-150 | two packets, two groups, one completion sent again: the consumer counts a packet out of order though none was reordered |
| EndToEnd.NothingUnaccounted | swxtch-perf-rio/RioConsumer.cpp:128-148 | the same counters for the producer's run, a lossy channel and any run of the receive ring |
| EndToEnd.SomeRunAccounts | swxtch-perf-rio/RioConsumer.cpp:109-150 | and there is such a run of the ring for everything a channel lets through |
| SpinControl.RateGuard | swxtch-perf-rio/args.cpp:163-164 | the guard, in unsigned 64-bit arithmetic, accepts rates of 1 and more with at most 10^6 packets over all groups |
| SpinControl.TickMoves | swxtch-perf-rio/RioProducer.cpp:180-201 | delay 100 or at least 1000; never shorter on a fast tick, never longer on a slow one, unchanged in the dead band; leaves 100 exactly on a tick 90 thresholds too fast |
| SpinControl.TickAmount | swxtch-perf-rio/RioProducer.cpp:182-201 | from 1000 on, a fast tick adds ten for every whole threshold and a slow one takes ten off for each, or goes to 100 exactly if that leads below 1000 |
| SpinControl.TickLeavesMinimum | swxtch-perf-rio/RioProducer.cpp:182-193 | the same amount when a fast tick leaves 100 |
| SpinControl.SetPoints | swxtch-perf-rio/RioProducer.cpp:160-161 | threshold the larger of 1 and a two-thousandth of the packets, first delay 10^9 over the rate, a tenth expected in each tick |
| SpinControl.EveryRun | swxtch-perf-rio/RioProducer.cpp:157-204 | the delay's form after any ticks from any accepted rate, and its 64-bit range |
| SpinControl.SlowTicksReachMinimum | swxtch-perf-rio/RioProducer.cpp:194-201 | consecutive slow ticks reach 100 within (s - 1000) / 10 + 1 of them |
| SpinControl.FastTicksLengthen | swxtch-perf-rio/RioProducer.cpp:182-193 | k consecutive fast ticks from 1000 on add at least 10 k |
| SpinControl.SpinWorker.Tune | swxtch-perf-rio/RioProducer.cpp:178-202 | the tuning step on the stored fields |
| SafeStrings.HandleError | swxtch-perf-rio/StringUtils.cpp:59-67 | zeroes the destination and nothing else |
| SafeStrings.StrncpyS | swxtch-perf-rio/StringUtils.cpp:91-169 | all argument errors; overlap if and only if d <= L and d < dmax; success if and only if L < min(dmax, d); what is in memory afterwards |
| SafeStrings.CopyUpToSource | swxtch-perf-rio/StringUtils.cpp:125-144 | the loop for a destination below the source |
| SafeStrings.CopyUpToDest | swxtch-perf-rio/StringUtils.cpp:145-168 | the loop for a destination at or above the source |
| SafeStrings.StrnlenS | swxtch-perf-rio/StringUtils.cpp:186-206 | the number of characters before a null, at most dmax; one cell more is read, which stays within dmax if and only if there is a null among the first dmax |
| SafeStrings.ReadsOneTooMany | swxtch-perf-rio/StringUtils.cpp:186-206 | dmax 2 and two characters without a null: three cells are read |
| SafeStrings.StrnterminateS | swxtch-perf-rio/StringUtils.cpp:222-247 | cut to dmax - 1 characters and terminated, nothing else changed |
| SafeStrings.CopiedIsTerminated | swxtch-perf-rio/StringUtils.cpp:186-247 | after a successful copy both return its length and terminating changes nothing |
| SplitJoin.SplitAt | swxtch-perf-rio/StringUtils.cpp:19-32 | the split at a string |
| SplitJoin.JoinOfSplit | swxtch-perf-rio/StringUtils.cpp:19-32 | joining the pieces gives the string back |
| SplitJoin.PiecesAreFree | swxtch-perf-rio/StringUtils.cpp:25-30 | no piece contains the delimiter |
| SplitJoin.SplitOfJoin | swxtch-perf-rio/StringUtils.hpp:153-172 | splitting a join gives the parts back if and only if each part but the last first meets the delimiter at its end and the last has none |
| SplitJoin.SplitAtChar | swxtch-perf-rio/StringUtils.cpp:9-17 | the split at a character is that at the one-character string without a final empty piece |
| SplitJoin.LinesRebuild | swxtch-perf-rio/StringUtils.cpp:9-17 | no piece contains the character, and joined they are the text but for one at its end |
| SplitJoin.JoinTo | swxtch-perf-rio/StringUtils.hpp:154-172 | join with all its parameters |
| CommaSeparated.InsertCommas | swxtch-perf-rio/StringUtils.hpp:223-238 | the in-place constructor turns any digits into their three-digit grouping, touches nothing behind it and reads no cell it has overwritten |
| CommaSeparated.SpreadDigits | swxtch-perf-rio/StringUtils.hpp:231-236 | the log of the cells read and written has no read of a cell written before; the loop ends when no comma is due |
| CommaSeparated.GroupedShape | swxtch-perf-rio/StringUtils.hpp:227-236 | length + (length - 1) / 3 characters, no leading comma |
| CommaSeparated.GroupedCommas | swxtch-perf-rio/StringUtils.hpp:227-236 | from the right, every fourth character and no other is a comma |
| CommaSeparated.GroupedKeepsDigits | swxtch-perf-rio/StringUtils.hpp:227-236 | without its commas the grouping is the digits |
| CommaSeparated.Format | swxtch-perf-rio/StringUtils.hpp:219-238 | the constructor for every 64-bit value, in its 64 characters |
| CommaSeparated.FormatReadsBack | swxtch-perf-rio/StringUtils.hpp:219-238 | what is printed reads back as the value |
| Ipv4.SwapTwice | swxtch-perf-rio/NetworkUtils.hpp:64-78 | network and host order are inverse |
| Ipv4Range.AcceptedIff | swxtch-perf-rio/Range.hpp:59-66 | the range check accepts equal ends and those ascending in the last octet in which they differ |
| Ipv4Range.CheckMeansAscending | swxtch-perf-rio/Range.hpp:59-66 | exactly when the check means "ascending"; always when the first three octets are shared |
| Ipv4Range.AscendingRangeRejected | swxtch-perf-rio/Range.hpp:59-66 | an ascending range that is rejected |
| Ipv4Range.ParseDestinations | swxtch-perf-rio/args.cpp:30-36 | the iteration ends for every range, after (till - from + 1) mod 2^32 addresses, the k-th being from + k mod 2^32 |
| Ipv4Range.CompleteIp | swxtch-perf-rio/Range.hpp:110-117 | the loop over the dots |
| Ipv4Range.CompletionFillsOctets | swxtch-perf-rio/Range.hpp:105-117 | an incomplete till takes the leading octets it lacks from the front of from, going around if from has too few |
| Ipv4Range.MakeIpv4Range | swxtch-perf-rio/Range.hpp:86-121 | parsing of one or two parts, all others rejected |
| Ipv4Range.RangeOfText | swxtch-perf-rio/Range.hpp:86-101 | every text by its parts between dashes: one or two denote the range of their addresses if these pass the check, none or more than two nothing |
| Ipv4Range.RangeOfSingle | swxtch-perf-rio/Range.hpp:92-94 | a single four-octet address is a range of one, and nothing if it is no address; what other numbers of octets give |
| Ipv4Range.RangeOfDotted | swxtch-perf-rio/Range.hpp:86-121 | "from-till" denotes the range from the first address to the completed second one, for any numbers of octets |
| MulticastCheck.ReadTokens | swxtch-perf-rio/args.cpp:121-126 | the erasing loop reads back the octets that were printed |
| MulticastCheck.Assemble | swxtch-perf-rio/args.cpp:132-141 | the shifting loop rebuilds the host-order value or rejects an octet |
| MulticastCheck.IsValidMulticastIp | swxtch-perf-rio/args.cpp:113-148 | true if and only if every address lies in the bounds |
| MulticastCheck.BoundsAreClassD | swxtch-perf-rio/args.hpp:23-24 | the bounds are 224.0.0.0 to 239.255.255.255 without the first (section 4 of RFC 1112) |
| BufferLayout.RoundUpBounds | swxtch-perf-rio/Utilities.hpp:229-237 | rounding up gives the least multiple not below the value |
| BufferLayout.Capacity | swxtch-perf-rio/RioSession.cpp:95-101 | the wrapped, rounded and capped size holds the true one if and only if that fits in 32 bits after rounding |
| BufferLayout.AllocateBufferSpace | swxtch-perf-rio/RioSession.cpp:78-119 | the exact size allocated, a 32-bit multiple of the granularity; as many messages as fit, all of them under the same condition |
| BufferLayout.AllocateAndRegisterBuffer | swxtch-perf-rio/RioSession.cpp:131-144 | returns under exactly that condition, with room for every message |
| BufferLayout.FillDescriptors | swxtch-perf-rio/RioProducer.cpp:66-79 | every descriptor the setup loops build is in bounds, those of packet i at offset i * size |
| BufferLayout.SetUp | swxtch-perf-rio/RioConsumer.cpp:60-92 | allocation and setup together: every descriptor at its slot, in bounds, different slots disjoint |
| BufferLayout.SlotsDisjoint | swxtch-perf-rio/RioConsumer.cpp:80-86 | slots of different packets do not overlap |

## Left out

- Sockets, RIO and completion-port calls, memory allocation, adapter lookup, process exit and the
  control-C handler: foreign calls. What remains of them is the order of completions.
- Requests that complete out of order: the model assumes the order of posting.
- Time stamps, clocks, sleeping and spinning: the packet counts seen by a tuning step are inputs.
- Printing of tables and rows, SI units, percentages, durations and rates: floating point and output.
- Command-line parsing; the other tests of Check: one comparison each.
- The conversion of text to an address (inet_pton) is a parameter of the range parser; printing and
  reading of decimal numbers are modelled for what the program prints itself, without signs or blanks.
- Insertion of unknown groups into the map while a report scans it: the scanned groups are fixed.
- Snapshots.CountersGrow: assumes that no group's packets, bytes or out-of-order packets reach 2^64, which
  takes 2^64 received bytes; drops and sums over the groups may wrap.
- SpinControl.EveryRun: does not model overflow of the signed 64-bit delay beyond 2 * 10^8 ticks.
- ReceiveRing.GroupsKeptApart: stated up to the wrap-around of a ring whose size does not divide 2^32,
  because it does not hold beyond: bookings then read other packets' slots (ReceiveRing.BookingReads).
- EndToEnd.NothingUnaccounted: stated up to that wrap-around for the same reason.
- SplitJoin.SplitAt: an empty delimiter is excluded, because the loop would not advance.
- trim, port ranges, case-insensitive comparison and the masks of an address.
