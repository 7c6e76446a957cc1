/**
 Producer, channel and consumer composed: the producer's run, a network that takes each payload from
 its buffer while the send is in flight, loses any packets and keeps the order of the others, and the
 receive ring.
 */
module EndToEnd {
  import opened ModularIndex
  import opened MachineWords
  import opened GroupAccounting
  import opened Demultiplexing
  import ReceiveRing
  import Producer = ProducerSchedule

  /** The postings a lossy, order-keeping channel lets through. */
  ghost predicate Selection(kept: seq<nat>, count: nat) {
    && (forall i :: 0 <= i < |kept| ==> kept[i] < count)
    && (forall i, j :: 0 <= i < j < |kept| ==> kept[i] < kept[j])
  }

  /** The packets let through, each with a number that its buffer held while the send was in flight. */
  ghost predicate Carried(plan: Producer.Plan, kept: seq<nat>, numbers: seq<uint64>)
    requires plan.Valid()
  {
    && |numbers| == |kept| && EXPECTED_DATA_SIZE * |kept| < TWO64
    && Selection(kept, |Producer.SendsOf(plan)|)
    && forall i :: 0 <= i < |kept| ==> Producer.Transmitted(plan, kept[i], numbers[i])
  }

  /** What arrives: the group a packet was posted to and the number it was transmitted with. */
  function Arrived(sends: seq<Event>, kept: seq<nat>, numbers: seq<uint64>): seq<Event>
    requires |numbers| == |kept| && forall i :: 0 <= i < |kept| ==> kept[i] < |sends|
  {
    seq(|kept|, i requires 0 <= i < |kept| => Event(sends[kept[i]].group, numbers[i]))
  }

  function AsPackets(events: seq<Event>): (r: seq<ReceiveRing.Packet>)
    ensures |r| == |events|
  {
    seq(|events|, i requires 0 <= i < |events| =>
      ReceiveRing.Packet(events[i].group, EXPECTED_DATA_SIZE, events[i].seqNo))
  }

  /** The stream of one group. */
  ghost function Stream(plan: Producer.Plan, kept: seq<nat>, numbers: seq<uint64>, j: uint32): seq<uint64>
    requires plan.Valid() && Carried(plan, kept, numbers)
  {
    Substream(Arrived(Producer.SendsOf(plan), kept, numbers), j)
  }

  /** The consumer's counters are those of a stream that lost packets, no more: nothing out of order,
      and packets plus drops is the span from the first number received to the last. */
  ghost predicate Accounts(counters: McGroupStats, h: seq<uint64>) {
    counters.outOfOrder == 0 && (h != [] ==> counters.packets + counters.rxDropped == Span(h))
  }

  ghost predicate EveryChannelAccounted(plan: Producer.Plan)
    requires plan.Valid()
  {
    forall kept: seq<nat>, numbers: seq<uint64>, j: uint32 {:trigger Stream(plan, kept, numbers, j)} ::
      Carried(plan, kept, numbers) ==> Accounts(Run(Stream(plan, kept, numbers, j)), Stream(plan, kept, numbers, j))
  }

  /** The number of groups divides every batch; or there is one packet buffer only and it divides all
      batches but the last. */
  ghost predicate Aligned(plan: Producer.Plan)
    requires plan.Valid()
  {
    || Producer.AlignedSizes(plan.batches, plan.g)
    || (plan.r == 1 && Producer.AlignedBatches(plan.batches, plan.g))
  }

  // ----- Aligned batches

  lemma AlignedGroups(plan: Producer.Plan)
    requires plan.Valid() && Aligned(plan)
    ensures Producer.AlignedBatches(plan.batches, plan.g)
    ensures Producer.Aligned(Producer.SendsOf(plan), plan.g)
  {
    if Producer.AlignedSizes(plan.batches, plan.g) {
      Producer.AlignedSizesStart(plan.batches, plan.g);
    }
    Producer.AlignedStartsOfBatches(plan.batches, plan.g);
    Producer.AllAligned(Producer.Run(plan));
  }

  /** A packet with a later one to the same group posted behind it went out as posted. */
  lemma AsPosted(plan: Producer.Plan, s: nat, v: nat)
    requires plan.Valid() && Aligned(plan) && Producer.Transmitted(plan, s, v)
    requires s + plan.g < |Producer.SendsOf(plan)|
    ensures v == Row(s, plan.g)
  {
    if Producer.AlignedSizes(plan.batches, plan.g) {
      Producer.AllAsPosted(plan, s, v);
    } else {
      OneRow(plan.m, plan.g);
      Producer.DequeuedAsPosted(plan, s, v);
    }
  }

  lemma OneRow(m: nat, g: nat)
    requires Table(m, 1, g)
    ensures m == g
  {
    assert m >= g && Row(m - g, g) == 0;
    assert Rem(m - g, g) == m - g;
  }

  /** Numbers of one group arrive in increasing order. */
  lemma NumbersIncrease(plan: Producer.Plan, s: nat, v: nat, t: nat, w: nat)
    requires plan.Valid() && Aligned(plan) && s < t
    requires Producer.Transmitted(plan, s, v) && Producer.Transmitted(plan, t, w)
    requires Rem(s, plan.g) == Rem(t, plan.g)
    ensures v < w < TWO64 - 1
  {
    var last := plan.m + Producer.Total(plan.batches) - 1;
    LaterInColumn(s, t, plan.g);
    Producer.TransmittedRange(plan, t, w, last);
    AsPosted(plan, s, v);
  }

  ghost predicate Occurs(events: seq<Event>, j: uint32, v: uint64) {
    exists a :: 0 <= a < |events| && events[a] == Event(j, v)
  }

  lemma {:induction false} SubstreamIncreases(events: seq<Event>, j: uint32)
    requires forall a, b :: 0 <= a < b < |events| && events[a].group == events[b].group == j ==>
               events[a].seqNo < events[b].seqNo
    ensures StrictlyIncreasing(Substream(events, j))
    ensures forall i :: 0 <= i < |Substream(events, j)| ==> Occurs(events, j, Substream(events, j)[i])
  {
    if events != [] {
      var n := |events| - 1;
      var before := events[..n];
      assert forall a :: 0 <= a < n ==> before[a] == events[a];
      SubstreamIncreases(before, j);
    }
  }

  /** Whatever the channel loses of an aligned run, each group's numbers arrive in increasing order. */
  lemma ArrivalsIncrease(plan: Producer.Plan, kept: seq<nat>, numbers: seq<uint64>, j: uint32)
    requires plan.Valid() && Aligned(plan) && Carried(plan, kept, numbers)
    ensures StrictlyIncreasing(Stream(plan, kept, numbers, j)) && Bounded(Stream(plan, kept, numbers, j))
  {
    var sends := Producer.SendsOf(plan);
    var events := Arrived(sends, kept, numbers);
    AlignedGroups(plan);
    forall a, b | 0 <= a < b < |events| && events[a].group == events[b].group == j
      ensures events[a].seqNo < events[b].seqNo
    {
      assert sends[kept[a]].group == Rem(kept[a], plan.g) && sends[kept[b]].group == Rem(kept[b], plan.g);
      NumbersIncrease(plan, kept[a], numbers[a], kept[b], numbers[b]);
    }
    SubstreamIncreases(events, j);
    forall a | 0 <= a < |events| ensures events[a].seqNo < TWO64 - 1 {
      Producer.TransmittedRange(plan, kept[a], numbers[a], plan.m + Producer.Total(plan.batches) - 1);
    }
  }

  lemma SpanAccounted(plan: Producer.Plan, kept: seq<nat>, numbers: seq<uint64>, j: uint32)
    requires plan.Valid() && Aligned(plan) && Carried(plan, kept, numbers)
    ensures Accounts(Run(Stream(plan, kept, numbers, j)), Stream(plan, kept, numbers, j))
  {
    ArrivalsIncrease(plan, kept, numbers, j);
    if Stream(plan, kept, numbers, j) != [] {
      InOrderStream(Stream(plan, kept, numbers, j));
    }
  }

  // ----- Batches that are not

  lemma NotIncreasing(x: uint64, y: uint64)
    requires y <= x < TWO64 - 1
    ensures Run([x, y]).outOfOrder == 1
  {
    assert [x, y][..1] == [x] && [x][..0] == [];
    assert Run([x]) == Update(ZERO_STATS, EXPECTED_DATA_SIZE, x);
  }

  lemma TwoArrivals(a: Event, b: Event)
    requires a.group == b.group
    ensures Substream([a, b], a.group) == [a.seqNo, b.seqNo]
  {
    assert [a, b][..1] == [a] && [a][..0] == [];
    assert Substream([a], a.group) == [a.seqNo];
  }

  /** Two packets of a group that go out with numbers that do not increase. */
  lemma PairOutOfOrder(plan: Producer.Plan, s: nat, v: uint64, t: nat, w: uint64)
    requires plan.Valid() && s < t < |Producer.SendsOf(plan)| && w <= v < TWO64 - 1
    requires Producer.Transmitted(plan, s, v) && Producer.Transmitted(plan, t, w)
    requires Producer.SendsOf(plan)[s].group == Producer.SendsOf(plan)[t].group
    ensures Carried(plan, [s, t], [v, w])
    ensures Run(Stream(plan, [s, t], [v, w], Producer.SendsOf(plan)[s].group)).outOfOrder == 1
  {
    hide Producer.SendsOf, Producer.Transmitted, Producer.Plan.Valid, Substream, Run;
    var sends := Producer.SendsOf(plan);
    assert Arrived(sends, [s, t], [v, w]) == [Event(sends[s].group, v), Event(sends[t].group, w)];
    TwoArrivals(Event(sends[s].group, v), Event(sends[t].group, w));
    NotIncreasing(v, w);
  }

  /** A packet posted to group Rem(e, g) goes out with number x, and the next one to it with y. */
  lemma MisalignedSizeReorders(plan: Producer.Plan, k: nat, e: nat, next: nat, x: nat, y: nat)
    requires plan.Valid() && 2 <= plan.r && k < |plan.batches|
    requires plan.batches[k] % plan.g != 0 && Producer.AlignedSizes(plan.batches[..k], plan.g)
    requires e == Producer.Total(plan.batches[..k]) + plan.batches[k] && next == e + plan.g
    requires x == Row(e, plan.g) + plan.r && y == Row(e, plan.g) + 1
    ensures y < x < TWO64 - 1
    ensures Carried(plan, [e, next], [x, y])
    ensures Run(Stream(plan, [e, next], [x, y], Rem(e, plan.g))).outOfOrder == 1
  {
    hide Producer.SendsOf, Producer.Transmitted, Producer.Total, Producer.AlignedSizes, Row, Rem, Table, Carried, Stream;
    Producer.Overtaken(plan, k, e);
    Producer.TransmittedRange(plan, e, x, plan.m + Producer.Total(plan.batches) - 1);
    PairOutOfOrder(plan, e, x, next, y);
  }

  lemma MisalignedStartRepeats(plan: Producer.Plan, k: nat)
    requires plan.Valid() && plan.r == 1 && k < |plan.batches| && 0 < plan.batches[k] <= plan.m
    requires Producer.AlignedBatches(plan.batches[..k], plan.g)
    requires Producer.Total(plan.batches[..k]) % plan.g != 0
    ensures !EveryChannelAccounted(plan)
  {
    hide Producer.SendsOf, Producer.Transmitted, Producer.Total, Producer.AlignedBatches, Row, Rem, Table, Carried, Stream;
    var d := Producer.Total(plan.batches[..k]);
    var a, b := d + plan.g - Rem(d, plan.g), plan.m + d;
    Producer.Repeated(plan, k, d, a);
    var v := Row(d, plan.g) + 1;
    Producer.TransmittedRange(plan, b, v, plan.m + Producer.Total(plan.batches) - 1);
    PairOutOfOrder(plan, a, v, b, v);
    assert !Accounts(Run(Stream(plan, [a, b], [v, v], 0)), Stream(plan, [a, b], [v, v], 0));
  }

  lemma FirstMisalignedStart(batches: seq<nat>, g: nat, n: nat) returns (k: nat)
    requires 0 < g && n < |batches| && batches[n] > 0 && Producer.Total(batches[..n]) % g != 0
    ensures k <= n && batches[k] > 0 && Producer.Total(batches[..k]) % g != 0
    ensures Producer.AlignedBatches(batches[..k], g)
  {
    if i {:trigger batches[i]} :| 0 <= i < n && batches[i] > 0 && Producer.Total(batches[..i]) % g != 0 {
      k := FirstMisalignedStart(batches, g, i);
    } else {
      k := n;
      assert forall i :: 0 <= i < n ==> batches[..n][i] == batches[i] && batches[..n][..i] == batches[..i];
    }
  }

  lemma OneBufferUnaccounted(plan: Producer.Plan)
    requires plan.Valid() && plan.r == 1 && !Producer.AlignedBatches(plan.batches, plan.g)
    requires forall k :: 0 <= k < |plan.batches| ==> plan.batches[k] <= plan.m
    ensures !EveryChannelAccounted(plan)
  {
    var n :| 0 <= n < |plan.batches| && plan.batches[n] > 0 && Producer.Total(plan.batches[..n]) % plan.g != 0;
    hide Producer.Total, Producer.Plan.Valid, Producer.AlignedBatches, EveryChannelAccounted;
    var k := FirstMisalignedStart(plan.batches, plan.g, n);
    MisalignedStartRepeats(plan, k);
  }

  lemma MoreBuffersUnaccounted(plan: Producer.Plan)
    requires plan.Valid() && 2 <= plan.r && !Producer.AlignedSizes(plan.batches, plan.g)
    ensures !EveryChannelAccounted(plan)
  {
    hide Producer.Total, Producer.SendsOf, Table, Carried, Stream, Run, Row, Rem;
    var n :| 0 <= n < |plan.batches| && plan.batches[n] % plan.g != 0;
    var k := Producer.FirstMisalignedSize(plan.batches, plan.g, n);
    var e := Producer.Total(plan.batches[..k]) + plan.batches[k];
    var next, x, y, j := e + plan.g, Row(e, plan.g) + plan.r, Row(e, plan.g) + 1, Rem(e, plan.g);
    MisalignedSizeReorders(plan, k, e, next, x, y);
    assert !Accounts(Run(Stream(plan, [e, next], [x, y], j)), Stream(plan, [e, next], [x, y], j));
  }

  /** Whatever a channel loses, the consumer accounts for exactly, for every channel if and only if the
      number of groups divides every batch (with a single packet buffer, every batch but the last).
      No more completions are dequeued at a time than there are sends. */
  lemma AccountedIff(plan: Producer.Plan)
    requires plan.Valid() && forall k :: 0 <= k < |plan.batches| ==> plan.batches[k] <= plan.m
    ensures EveryChannelAccounted(plan) <==> Aligned(plan)
  {
    hide Producer.AlignedSizes, Producer.AlignedBatches, Accounts, Carried, Stream;
    if Aligned(plan) {
      forall kept: seq<nat>, numbers: seq<uint64>, j: uint32 | Carried(plan, kept, numbers)
        ensures Accounts(Run(Stream(plan, kept, numbers, j)), Stream(plan, kept, numbers, j))
      {
        SpanAccounted(plan, kept, numbers, j);
      }
    } else if plan.r == 1 {
      OneBufferUnaccounted(plan);
    } else {
      MoreBuffersUnaccounted(plan);
    }
  }

  lemma SmallestPlan(plan: Producer.Plan)
    requires plan == Producer.Plan(2, 2, 4, map[], [1])
    ensures plan.Valid() && Producer.AlignedBatches(plan.batches, plan.g)
    ensures plan.batches[..0] == [] && Producer.Total([]) == 0 && 1 % plan.g != 0
    ensures Rem(1, plan.g) == 1 && Row(1, plan.g) == 0
  {
    Producer.TotalSnoc([], 1);
    assert [] + [1] == [1];
  }

  /** Two packet buffers, two groups and a single completion sent again: every batch starts on a
      multiple, and yet the consumer can see a packet out of order. */
  lemma OneCompletionReorders(plan: Producer.Plan)
    requires plan == Producer.Plan(2, 2, 4, map[], [1])
    ensures plan.Valid() && Producer.AlignedBatches(plan.batches, plan.g)
    ensures Carried(plan, [1, 3], [2, 1]) && Run(Stream(plan, [1, 3], [2, 1], 1)).outOfOrder == 1
  {
    SmallestPlan(plan);
    hide Producer.Total, Producer.Plan.Valid, Producer.AlignedBatches, Producer.SendsOf, Row, Rem, Carried, Stream, Run;
    MisalignedSizeReorders(plan, 0, 1, 3, 2, 1);
  }

  // ----- Through the receive ring

  lemma PacketsAsEvents(events: seq<Event>)
    ensures ReceiveRing.OwnEvents(AsPackets(events)) == events
    ensures forall i :: 0 <= i < |events| ==> AsPackets(events)[i].bytes == EXPECTED_DATA_SIZE
  {
    ReceiveRing.AllMatching(AsPackets(events));
  }

  /** A ring that has handled all arrivals books each group its own stream. */
  lemma RingSeesArrivals(ring: ReceiveRing.Ring, events: seq<Event>, j: uint32)
    requires ReceiveRing.Reachable(ring) && ring.arrivals == AsPackets(events) && ring.results == []
    requires ReceiveRing.IndexFaithful(ring.packetCounter, ring.n)
    ensures Lookup(ring.groupStats, j) == Run(Substream(events, j))
  {
    hide ReceiveRing.Reachable, ReceiveRing.Ring.Valid, AsPackets, ReceiveRing.OwnEvents, Substream, Run;
    PacketsAsEvents(events);
    ReceiveRing.AllHandled(ring);
    ReceiveRing.GroupsKeptApart(ring, j);
  }

  /** A producer, a channel that loses any packets, and any run of the receive ring that has handled
      what arrived: if the batches are aligned the consumer's counters account for every group. */
  lemma NothingUnaccounted(plan: Producer.Plan, kept: seq<nat>, numbers: seq<uint64>, ring: ReceiveRing.Ring, j: uint32)
    requires plan.Valid() && Aligned(plan) && Carried(plan, kept, numbers)
    requires ReceiveRing.Reachable(ring) && ring.results == []
    requires ring.arrivals == AsPackets(Arrived(Producer.SendsOf(plan), kept, numbers))
    requires ReceiveRing.IndexFaithful(ring.packetCounter, ring.n)
    ensures Accounts(Lookup(ring.groupStats, j), Stream(plan, kept, numbers, j))
  {
    hide ReceiveRing.Reachable, ReceiveRing.Ring.Valid, Accounts, AsPackets, Substream, Run, Producer.Plan.Valid, Producer.SendsOf, Aligned;
    SpanAccounted(plan, kept, numbers, j);
    RingSeesArrivals(ring, Arrived(Producer.SendsOf(plan), kept, numbers), j);
  }

  /** Whatever the channel lets through of an aligned run, there is a run of the receive ring that
      handles it all and accounts for every group. */
  lemma SomeRunAccounts(plan: Producer.Plan, kept: seq<nat>, numbers: seq<uint64>, start: ReceiveRing.Ring, j: uint32)
    requires plan.Valid() && Aligned(plan) && Carried(plan, kept, numbers)
    requires ReceiveRing.IsInitial(start) && ReceiveRing.IndexFaithful(|kept|, start.n)
    ensures var packets := AsPackets(Arrived(Producer.SendsOf(plan), kept, numbers));
            var ring := ReceiveRing.Outcome(start, ReceiveRing.OneByOne(packets));
            && ReceiveRing.Reachable(ring) && ring.arrivals == packets && ring.results == []
            && Accounts(Lookup(ring.groupStats, j), Stream(plan, kept, numbers, j))
  {
    hide ReceiveRing.Reachable, ReceiveRing.Ring.Valid, ReceiveRing.Outcome, ReceiveRing.OneByOne, Accounts,
         AsPackets, ReceiveRing.IndexFaithful, Producer.Plan.Valid, Producer.SendsOf, Aligned;
    var packets := AsPackets(Arrived(Producer.SendsOf(plan), kept, numbers));
    PacketsAsEvents(Arrived(Producer.SendsOf(plan), kept, numbers));
    ReceiveRing.AllMatching(packets);
    ReceiveRing.AllCanBeHandled(start, packets);
    NothingUnaccounted(plan, kept, numbers, ReceiveRing.Outcome(start, ReceiveRing.OneByOne(packets)), j);
  }
}
