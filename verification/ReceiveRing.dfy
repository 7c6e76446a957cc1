/**
 The receive side: a ring of posted receives whose data descriptors are recycled by request
 context while the address descriptors are recycled by a running index.

 Requests complete in the order they were posted. Slot i of payload stands for the bytes of data
 descriptor i, slot i of address for those of address descriptor i (BufferLayout shows that the
 slots of different descriptors do not overlap).
 */
module ReceiveRing {
  import opened Basics
  import opened ModularIndex
  import opened MachineWords
  import opened GroupAccounting
  import opened Demultiplexing

  const MAX_PENDING_RECVS: nat := 1500000

  /** A datagram on the wire: its multicast group, its size and the Seq field of its header. */
  datatype Packet = Packet(group: uint32, bytes: nat, seqNo: uint64)

  /** A posted receive: the data descriptor, which is also its context, and the address descriptor. */
  datatype Request = Request(data: nat, addr: nat)

  /** What may happen next: the network delivers a packet, or the loop handles one completion. */
  datatype Turn = Deliver(packet: Packet) | Handle

  function Matching(a: seq<Packet>): (r: seq<Packet>)
    ensures |r| <= |a|
    ensures forall i :: 0 <= i < |r| ==> r[i].bytes == EXPECTED_DATA_SIZE
  {
    if a == [] then []
    else
      var before := Matching(a[..|a| - 1]);
      var last := a[|a| - 1];
      if last.bytes == EXPECTED_DATA_SIZE then before + [last] else before
  }

  /** How the arrivals are booked: the number is that of the i-th packet of the expected size, the
      group is that of the i-th packet of any size. */
  function Booked(a: seq<Packet>): seq<Event> {
    seq(|Matching(a)|, i requires 0 <= i < |Matching(a)| => Event(a[i].group, Matching(a)[i].seqNo))
  }

  /** How they should be booked. */
  function OwnEvents(a: seq<Packet>): seq<Event> {
    seq(|Matching(a)|, i requires 0 <= i < |Matching(a)| => Event(Matching(a)[i].group, Matching(a)[i].seqNo))
  }

  function FirstRequests(count: nat): seq<Request> {
    seq(count, i requires 0 <= i < count => Request(i, i))
  }

  /** The 32-bit running index still falls on the slot of the unbounded one. */
  ghost predicate IndexFaithful(reposts: nat, n: nat)
    requires n > 0
  {
    reposts <= TWO32 || TWO32 % n == 0
  }

  lemma MultipleOfMultiple(q: int, t: int, c: int, n: int)
    requires t == c * n
    ensures q * t == (q * c) * n
  {
  }

  lemma IndexSlot(k: nat, n: nat)
    requires n > 0 && (k < TWO32 || TWO32 % n == 0)
    ensures Wrap32(k) % n == k % n
  {
    if TWO32 % n == 0 {
      Euclid(TWO32, n);
      RemIsMod(k, TWO32);
      MultipleOfMultiple(k / 0x1_0000_0000, TWO32, TWO32 / n, n);
      AddMultiple(Wrap32(k), (k / 0x1_0000_0000) * (TWO32 / n), n);
    }
  }

  /** The index survives its own wrap-around exactly when the ring size divides 2^32, which the
      configured size does not. */
  lemma IndexSurvivesWrap(n: nat)
    requires n > 0
    ensures (forall k: nat :: Wrap32(k) % n == k % n) <==> TWO32 % n == 0
    ensures TWO32 % MAX_PENDING_RECVS != 0
  {
    if TWO32 % n == 0 {
      forall k: nat ensures Wrap32(k) % n == k % n {
        IndexSlot(k, n);
      }
    } else {
      assert Wrap32(TWO32) % n != TWO32 % n by {
        DivModUnique(0, 0, n);
      }
    }
  }

  // ----- Which slot a receive gets, and whose address is read

  /** The address slot read for booking i, and given to the receive posted with it. */
  function SlotRead(i: nat, n: nat): (slot: nat)
    requires n > 0
    ensures slot < n && slot <= i
  {
    RemAtMost(i, 0x1_0000_0000);
    RemAtMost(Wrap32(i), n);
    Rem(Wrap32(i), n)
  }

  /** The address slot of posting p: the first n use the slots in turn, the others the running index. */
  function SlotOf(p: nat, n: nat): (slot: nat)
    requires n > 0
    ensures slot < n
  {
    if p < n then p else SlotRead(p - n, n)
  }

  /** Of the first a postings, the last one that uses the slot. */
  function LastInto(slot: nat, a: nat, n: nat): (p: nat)
    requires slot < n && slot < a
    ensures p < a && SlotOf(p, n) == slot
    ensures forall q {:trigger SlotOf(q, n)} :: p < q < a ==> SlotOf(q, n) != slot
  {
    if SlotOf(a - 1, n) == slot then a - 1 else LastInto(slot, a - 1, n)
  }

  /** Booking i falls behind the first n packets after a wrap-around of the index, or the wrap-around
      does no harm. */
  predicate Undisturbed(i: nat, n: nat)
    requires n > 0
  {
    i < TWO32 || Wrap32(i) >= n || Rem(TWO32, n) == 0
  }

  /** The slot of posting p in terms of the index of booking p. */
  lemma SlotUndisturbed(p: nat, n: nat)
    requires 0 < n <= TWO32
    ensures p < TWO32 ==> SlotOf(p, n) == Rem(p, n)
    ensures TWO32 <= p && n <= Wrap32(p) ==> SlotOf(p, n) == SlotRead(p, n)
    ensures TWO32 <= p && Wrap32(p) < n ==> (SlotOf(p, n) == SlotRead(p, n) <==> Rem(TWO32, n) == 0)
  {
    hide Rem, SlotOf;
    if TWO32 <= p {
      SlotAcross(p, 0, n);
    } else {
      SlotBefore(p, n);
    }
  }

  lemma SlotBefore(p: nat, n: nat)
    requires 0 < n && p < TWO32 + n
    ensures SlotOf(p, n) == Rem(p, n)
  {
  }

  /** A slot given out others bookings before the index wrapped, or after. */
  lemma SlotAcross(k: nat, others: nat, n: nat)
    requires others < n <= TWO32 <= k
    ensures SlotOf(k + others, n) == SlotRead(k + others - n, n)
    ensures n <= Wrap32(k) + others ==> SlotOf(k + others, n) == Rem(Wrap32(k) + others, n)
    ensures Wrap32(k) + others < n ==>
              (SlotOf(k + others, n) == SlotRead(k, n) <==> Rem(TWO32 + others, n) == 0)
  {
    if n <= Wrap32(k) + others {
      RemMoves(k, others - n, 0x1_0000_0000);
    } else {
      RemMoves(k - TWO32, TWO32 + others - n, 0x1_0000_0000);
      RemUnmoved(Wrap32(k), TWO32 + others, n);
    }
  }

  /** The posting whose slot booking i reads is posting i exactly if the booking is undisturbed. */
  lemma BookingReads(i: nat, a: nat, n: nat)
    requires 0 < n <= TWO32 && i < a <= n + i
    ensures LastInto(SlotRead(i, n), a, n) == i <==> Undisturbed(i, n)
  {
    SlotUndisturbed(i, n);
    SlotReadFaithful(i, n);
    if Undisturbed(i, n) {
      var p := LastInto(SlotRead(i, n), a, n);
      if p > i {
        OtherSlots(i, p, n);
      }
    }
  }

  lemma SlotReadFaithful(i: nat, n: nat)
    requires 0 < n <= TWO32
    ensures i < TWO32 ==> SlotRead(i, n) == Rem(i, n)
    ensures Rem(TWO32, n) == 0 ==> SlotRead(i, n) == Rem(i, n)
  {
    if Rem(TWO32, n) == 0 {
      RemOfRem(i, TWO32, n);
    }
  }

  /** The receives that may be posted behind an undisturbed one use other slots. */
  lemma OtherSlots(i: nat, p: nat, n: nat)
    requires 0 < n <= TWO32 && i < p < n + i && Undisturbed(i, n)
    ensures SlotOf(p, n) != SlotRead(i, n)
  {
    SlotReadFaithful(i, n);
    if p < n {
      assert Rem(i, n) == i;
    } else if i < TWO32 || Rem(TWO32, n) == 0 {
      SlotReadFaithful(p - n, n);
      RemsDiffer(i, p, n);
    } else {
      RemMoves(i, p - n - i, TWO32);
      RemsDiffer(Wrap32(p - n), Wrap32(i), n);
    }
  }

  // ----- The data slots, on values

  ghost predicate DataDistinct(live: seq<Request>, n: nat) {
    && (forall j :: 0 <= j < |live| ==> live[j].data < n)
    && (forall i, j :: 0 <= i < j < |live| ==> live[i].data != live[j].data)
  }

  /** Every completed receive still holds the packet that arrived in it. */
  ghost predicate PayloadRing(h: nat, live: seq<Request>, results: seq<nat>, arrivals: seq<Packet>,
                              payload: seq<uint64>)
    requires |arrivals| == h + |results| && |results| <= |live|
  {
    forall j :: 0 <= j < |results| ==>
      && live[j].data < |payload|
      && payload[live[j].data] == arrivals[h + j].seqNo
      && results[j] == arrivals[h + j].bytes
  }

  lemma PayloadDeliver(h: nat, live: seq<Request>, results: seq<nat>, arrivals: seq<Packet>,
                       payload: seq<uint64>, p: Packet)
    requires |arrivals| == h + |results| && |results| < |live|
    requires DataDistinct(live, |payload|) && PayloadRing(h, live, results, arrivals, payload)
    ensures PayloadRing(h, live, results + [p.bytes], arrivals + [p], payload[live[|results|].data := p.seqNo])
  {
  }

  lemma PayloadHandled(h: nat, live: seq<Request>, results: seq<nat>, arrivals: seq<Packet>,
                       payload: seq<uint64>, more: seq<Request>)
    requires |arrivals| == h + |results| && 0 < |results| <= |live|
    requires PayloadRing(h, live, results, arrivals, payload)
    ensures PayloadRing(h + 1, live[1..] + more, results[1..], arrivals, payload)
  {
    forall j | 0 <= j < |results| - 1
      ensures results[1..][j] == results[j + 1] && (live[1..] + more)[j] == live[j + 1]
    {
    }
  }

  lemma DataRotated(live: seq<Request>, n: nat, slot: nat)
    requires live != [] && DataDistinct(live, n)
    ensures DataDistinct(live[1..], n) && DataDistinct(live[1..] + [Request(live[0].data, slot)], n)
  {
  }

  // ----- What has been booked, on values

  /** The bookings carry the numbers of the handled packets of the expected size, and the map is
      what those bookings make of the initial one. */
  ghost predicate Books(initial: StatsMap, events: seq<Event>, handled: seq<Packet>, stats: StatsMap) {
    && |Matching(handled)| == |events|
    && (forall i :: 0 <= i < |events| ==> events[i].seqNo == Matching(handled)[i].seqNo)
    && stats == Replay(initial, events)
  }

  lemma BooksHandled(initial: StatsMap, events: seq<Event>, handled: seq<Packet>, stats: StatsMap,
                     p: Packet, group: uint32)
    requires Books(initial, events, handled, stats)
    ensures if p.bytes == EXPECTED_DATA_SIZE then
              var e := Event(group, p.seqNo);
              Books(initial, events + [e], handled + [p], Record(stats, e))
            else
              Books(initial, events, handled + [p], stats)
  {
    var e := Event(group, p.seqNo);
    assert (handled + [p])[..|handled|] == handled;
    assert (events + [e])[..|events|] == events;
  }

  // ----- The discipline of the address slots, on values

  /** The group booking i takes if a packets have arrived by then. */
  function GroupRead(arrivals: seq<Packet>, a: nat, i: nat, n: nat): uint32
    requires n > 0 && i < a <= |arrivals|
  {
    arrivals[LastInto(SlotRead(i, n), a, n)].group
  }

  /** After h handled completions: the j-th live request is posting h + j, each slot holds the address
      of the last packet it received, and booking i took what its slot held when seen[i] packets had
      arrived, the i-th posted receive being among those free by then. */
  ghost predicate AddressRing(n: nat, h: nat, live: seq<Request>, arrivals: seq<Packet>,
                              events: seq<Event>, seen: seq<nat>, address: seq<uint32>)
    requires n > 0 && |address| == n
  {
    && (forall j {:trigger live[j]} :: 0 <= j < |live| ==> live[j].addr == SlotOf(h + j, n))
    && (forall x {:trigger address[x]} :: 0 <= x < n && x < |arrivals| ==>
          address[x] == arrivals[LastInto(x, |arrivals|, n)].group)
    && SeenBy(n, arrivals, events, seen)
  }

  ghost predicate SeenBy(n: nat, arrivals: seq<Packet>, events: seq<Event>, seen: seq<nat>)
    requires n > 0
  {
    && |seen| == |events|
    && (forall i {:trigger seen[i]} :: 0 <= i < |seen| ==>
          i < seen[i] <= |arrivals| && seen[i] <= n + i && events[i].group == GroupRead(arrivals, seen[i], i, n))
  }

  lemma AddressDeliver(n: nat, h: nat, live: seq<Request>, arrivals: seq<Packet>, events: seq<Event>,
                       seen: seq<nat>, address: seq<uint32>, p: Packet)
    requires n > 0 && |address| == n && h <= |arrivals| < h + |live|
    requires AddressRing(n, h, live, arrivals, events, seen, address)
    ensures live[|arrivals| - h].addr < n
    ensures AddressRing(n, h, live, arrivals + [p], events, seen, address[live[|arrivals| - h].addr := p.group])
  {
    var m := |arrivals|;
    var slot := live[m - h].addr;
    assert slot == SlotOf(h + (m - h), n);
    var address', arrivals' := address[slot := p.group], arrivals + [p];
    forall x | 0 <= x < n && x < |arrivals'| ensures address'[x] == arrivals'[LastInto(x, m + 1, n)].group {
      if x != slot && x < m {
        assert address[x] == arrivals[LastInto(x, m, n)].group;
      }
    }
  }

  lemma AddressRepost(n: nat, h: nat, live: seq<Request>, arrivals: seq<Packet>, events: seq<Event>,
                      seen: seq<nat>, address: seq<uint32>, data: nat, seqNo: uint64)
    requires n > 0 && |address| == n && |events| <= h < |arrivals| <= h + |live| == |events| + n
    requires live != [] && AddressRing(n, h, live, arrivals, events, seen, address)
    ensures var slot := SlotRead(|events|, n);
            AddressRing(n, h + 1, live[1..] + [Request(data, slot)], arrivals,
                        events + [Event(address[slot], seqNo)], seen + [|arrivals|], address)
  {
    var k := |events|;
    var live' := live[1..] + [Request(data, SlotRead(k, n))];
    forall j | 0 <= j < |live'| ensures live'[j].addr == SlotOf(h + 1 + j, n) {
      if j < |live| - 1 {
        assert live'[j] == live[j + 1];
      } else {
        assert h + 1 + j == k + n;
      }
    }
    assert SeenBy(n, arrivals, events + [Event(address[SlotRead(k, n)], seqNo)], seen + [|arrivals|]);
  }

  lemma AddressRetire(n: nat, h: nat, live: seq<Request>, arrivals: seq<Packet>, events: seq<Event>,
                      seen: seq<nat>, address: seq<uint32>)
    requires n > 0 && |address| == n && live != []
    requires AddressRing(n, h, live, arrivals, events, seen, address)
    ensures AddressRing(n, h + 1, live[1..], arrivals, events, seen, address)
  {
    forall j | 0 <= j < |live| - 1 ensures live[1..][j].addr == SlotOf(h + 1 + j, n) {
      assert live[1..][j] == live[j + 1];
    }
  }

  // ----- The whole receiver, as a value

  /** The receiver's fields and memory, with the history it has seen. The live receives are those
      posted and not yet handled, oldest first; results holds the sizes of the completed ones,
      which come first. */
  datatype Ring = Ring(n: uint32, payload: seq<uint64>, address: seq<uint32>,
                       live: seq<Request>, results: seq<nat>, groupStats: StatsMap,
                       totalPkts: nat, packetCounter: nat, otherPacketCounter: nat, mcAddrDescrIndex: nat,
                       initial: StatsMap, arrivals: seq<Packet>, events: seq<Event>, seen: seq<nat>)
  {
    function Handled(): nat {
      packetCounter + otherPacketCounter
    }

    predicate InBounds() {
      && n > 0 && |payload| == n && |address| == n && |results| <= |live|
      && (forall j :: 0 <= j < |live| ==> live[j].data < n && live[j].addr < n)
    }

    /** The counters: every receive is live or was retired by a packet of another size. */
    ghost predicate Counted() {
      && packetCounter == |events|
      && mcAddrDescrIndex == Wrap32(packetCounter)
      && totalPkts == Wrap32(Handled())
      && |arrivals| == Handled() + |results|
      && |live| + otherPacketCounter == n
    }

    ghost predicate DataKept()
      requires InBounds() && Counted()
    {
      DataDistinct(live, n) && PayloadRing(Handled(), live, results, arrivals, payload)
    }

    ghost predicate Booked()
      requires Counted()
    {
      AllZero(initial) && Books(initial, events, arrivals[..Handled()], groupStats)
    }

    ghost predicate AddressesKept()
      requires InBounds() && Counted()
    {
      AddressRing(n, Handled(), live, arrivals, events, seen, address)
    }

    ghost predicate Valid() {
      InBounds() && Counted() && DataKept() && Booked() && AddressesKept()
    }
  }

  function Initial(groups: set<uint32>, payload: seq<uint64>, address: seq<uint32>): (r: Ring)
    requires |payload| == |address| < TWO32
    ensures r.groupStats == map g | g in groups :: ZERO_STATS
  {
    var zeroed := map g | g in groups :: ZERO_STATS;
    Ring(|payload|, payload, address, FirstRequests(|payload|), [], zeroed, 0, 0, 0, 0, zeroed, [], [], [])
  }

  /** The network side: the oldest waiting receive takes the packet and completes. */
  function Delivered(r: Ring, p: Packet): Ring
    requires r.InBounds() && |r.results| < |r.live|
  {
    var request := r.live[|r.results|];
    r.(payload := r.payload[request.data := p.seqNo], address := r.address[request.addr := p.group],
       results := r.results + [p.bytes], arrivals := r.arrivals + [p])
  }

  /** A packet of the expected size: booked under the address in the next slot, then posted again. */
  function Reposted(r: Ring): Ring
    requires r.InBounds() && r.results != []
  {
    var nextAddr := Rem(r.mcAddrDescrIndex, r.n);
    var e := Event(r.address[nextAddr], r.payload[r.live[0].data]);
    r.(live := r.live[1..] + [Request(r.live[0].data, nextAddr)],
       results := r.results[1..],
       totalPkts := Wrap32(r.totalPkts + 1),
       packetCounter := r.packetCounter + 1,
       groupStats := Record(r.groupStats, e),
       mcAddrDescrIndex := Wrap32(r.mcAddrDescrIndex + 1),
       events := r.events + [e],
       seen := r.seen + [|r.arrivals|])
  }

  /** A packet of any other size: counted, its receive not posted again. */
  function Retired(r: Ring): Ring
    requires r.InBounds() && r.results != []
  {
    r.(live := r.live[1..],
       results := r.results[1..],
       totalPkts := Wrap32(r.totalPkts + 1),
       otherPacketCounter := r.otherPacketCounter + 1)
  }

  /** One pass of the completion loop. */
  function Handling(r: Ring): Ring
    requires r.InBounds() && r.results != []
  {
    if r.results[0] == EXPECTED_DATA_SIZE then Reposted(r) else Retired(r)
  }

  lemma InitialValid(groups: set<uint32>, payload: seq<uint64>, address: seq<uint32>)
    requires 0 < |payload| == |address| < TWO32
    ensures Initial(groups, payload, address).Valid()
  {
  }

  lemma DeliveredValid(r: Ring, p: Packet)
    requires r.Valid() && |r.results| < |r.live|
    ensures Delivered(r, p).Valid()
  {
    var h, r' := r.Handled(), Delivered(r, p);
    assert r'.DataKept() by {
      PayloadDeliver(h, r.live, r.results, r.arrivals, r.payload, p);
    }
    assert r'.Booked() by {
      assert r'.arrivals[..h] == r.arrivals[..h];
    }
    assert r'.AddressesKept() by {
      AddressDeliver(r.n, h, r.live, r.arrivals, r.events, r.seen, r.address, p);
    }
  }

  lemma HandlingBooked(r: Ring)
    requires r.InBounds() && r.Counted() && r.DataKept() && r.Booked() && r.results != []
    requires Handling(r).Counted()
    ensures Handling(r).Booked()
  {
    var h := r.Handled();
    assert r.arrivals[..h + 1] == r.arrivals[..h] + [r.arrivals[h]];
    BooksHandled(r.initial, r.events, r.arrivals[..h], r.groupStats, r.arrivals[h],
                 r.address[Rem(r.mcAddrDescrIndex, r.n)]);
  }

  lemma HandlingInBounds(r: Ring)
    requires r.InBounds() && r.results != []
    ensures Handling(r).InBounds()
  {
  }

  lemma HandlingCounted(r: Ring)
    requires r.InBounds() && r.Counted() && r.results != []
    ensures Handling(r).Counted()
  {
    CountedOnce(r.packetCounter);
    CountedOnce(r.Handled());
  }

  lemma HandlingData(r: Ring)
    requires r.InBounds() && r.Counted() && r.DataKept() && r.results != []
    requires Handling(r).InBounds() && Handling(r).Counted()
    ensures Handling(r).DataKept()
  {
    var nextAddr := Rem(r.mcAddrDescrIndex, r.n);
    DataRotated(r.live, r.n, nextAddr);
    var more := if r.results[0] == EXPECTED_DATA_SIZE then [Request(r.live[0].data, nextAddr)] else [];
    PayloadHandled(r.Handled(), r.live, r.results, r.arrivals, r.payload, more);
    assert Handling(r).live == r.live[1..] + more;
  }

  lemma HandlingAddresses(r: Ring)
    requires r.InBounds() && r.Counted() && r.AddressesKept() && r.results != []
    requires Handling(r).InBounds() && Handling(r).Counted()
    ensures Handling(r).AddressesKept()
  {
    hide Rem, Wrap32, SlotOf, LastInto, GroupRead, SeenBy;
    var h := r.Handled();
    if r.results[0] == EXPECTED_DATA_SIZE {
      var data := r.live[0].data;
      AddressRepost(r.n, h, r.live, r.arrivals, r.events, r.seen, r.address, data, r.payload[data]);
    } else {
      AddressRetire(r.n, h, r.live, r.arrivals, r.events, r.seen, r.address);
    }
  }

  lemma HandlingValid(r: Ring)
    requires r.Valid() && r.results != []
    ensures Handling(r).Valid()
  {
    HandlingInBounds(r);
    HandlingCounted(r);
    HandlingData(r);
    HandlingBooked(r);
    HandlingAddresses(r);
  }

  // ----- Every run

  /** A packet that finds no posted receive is lost; an empty completion queue makes a pass idle. */
  function Step(r: Ring, turn: Turn): Ring
    requires r.InBounds()
  {
    match turn
    case Deliver(p) => if |r.results| == |r.live| then r else Delivered(r, p)
    case Handle => if r.results == [] then r else Handling(r)
  }

  lemma StepValid(r: Ring, turn: Turn)
    requires r.Valid()
    ensures Step(r, turn).Valid()
  {
    match turn
    case Deliver(p) =>
      if |r.results| != |r.live| {
        DeliveredValid(r, p);
      }
    case Handle =>
      if r.results != [] {
        HandlingValid(r);
      }
  }

  ghost function Outcome(r: Ring, schedule: seq<Turn>): (r': Ring)
    requires r.Valid()
    ensures r'.Valid()
    decreases |schedule|
  {
    if schedule == [] then r
    else
      var n := |schedule| - 1;
      var before := Outcome(r, schedule[..n]);
      StepValid(before, schedule[n]);
      Step(before, schedule[n])
  }

  /** What any interleaving of deliveries and passes can make of a fresh receiver. */
  ghost predicate Reachable(r: Ring)
    ensures Reachable(r) ==> r.Valid()
  {
    exists start: Ring, schedule: seq<Turn> :: IsInitial(start) && r == Outcome(start, schedule)
  }

  ghost predicate IsInitial(r: Ring)
    ensures IsInitial(r) ==> r.Valid()
  {
    && 0 < |r.payload| == |r.address| < TWO32
    && r == Initial(r.initial.Keys, r.payload, r.address)
    && (InitialValid(r.initial.Keys, r.payload, r.address); true)
  }

  // ----- Progress

  /** How many of the completed receives hold a packet of the expected size. */
  function CountMatching(results: seq<nat>): (c: nat)
    ensures c <= |results|
  {
    if results == [] then 0
    else CountMatching(results[1..]) + if results[0] == EXPECTED_DATA_SIZE then 1 else 0
  }

  function Handles(k: nat): seq<Turn> {
    seq(k, _ => Handle)
  }

  /** A pass with something to do takes the oldest result and counts it. */
  lemma HandleTurn(r: Ring)
    requires r.InBounds() && r.results != []
    ensures var r' := Step(r, Handle);
            && r'.results == r.results[1..] && r'.arrivals == r.arrivals && r'.n == r.n
            && r'.packetCounter == r.packetCounter + (if r.results[0] == EXPECTED_DATA_SIZE then 1 else 0)
            && r'.otherPacketCounter == r.otherPacketCounter + (if r.results[0] == EXPECTED_DATA_SIZE then 0 else 1)
  {
  }

  /** A packet arrives if a posted receive is waiting for it, and is lost otherwise. */
  lemma DeliverTurn(r: Ring, p: Packet)
    requires r.InBounds()
    ensures var r' := Step(r, Deliver(p));
            if |r.results| < |r.live| then
              && r'.arrivals == r.arrivals + [p] && r'.results == r.results + [p.bytes] && r'.live == r.live
              && r'.packetCounter == r.packetCounter && r'.otherPacketCounter == r.otherPacketCounter
              && r'.groupStats == r.groupStats && r'.totalPkts == r.totalPkts && r'.n == r.n
            else
              r' == r
  {
  }

  lemma CountNext(results: seq<nat>, k: nat)
    requires k < |results|
    ensures CountMatching(results[..k + 1]) ==
            CountMatching(results[..k]) + if results[k] == EXPECTED_DATA_SIZE then 1 else 0
  {
    if k == 0 {
      assert results[..1][1..] == [];
    } else {
      assert results[..k + 1][1..] == results[1..][..k] && results[..k][1..] == results[1..][..k - 1];
      CountNext(results[1..], k - 1);
    }
  }

  lemma OutcomeNext(r: Ring, schedule: seq<Turn>, turn: Turn)
    requires r.Valid()
    ensures Outcome(r, schedule + [turn]) == Step(Outcome(r, schedule), turn)
  {
    assert (schedule + [turn])[..|schedule|] == schedule;
  }

  /** From every valid state, k passes handle the k oldest results, or all there are, and count each of
      them by its size. */
  lemma {:induction false} PassesHandle(r: Ring, k: nat)
    requires r.Valid()
    ensures var m, r' := Min(k, |r.results|), Outcome(r, Handles(k));
            && r'.results == r.results[m..] && r'.Handled() == r.Handled() + m && r'.arrivals == r.arrivals
            && r'.packetCounter == r.packetCounter + CountMatching(r.results[..m])
            && r'.otherPacketCounter == r.otherPacketCounter + (m - CountMatching(r.results[..m]))
  {
    hide Outcome, Step, Ring.Valid, CountMatching;
    if k == 0 {
      NoPass(r);
    } else {
      PassesHandle(r, k - 1);
      assert Handles(k) == Handles(k - 1) + [Handle];
      OutcomeNext(r, Handles(k - 1), Handle);
      OnePassMore(r, Outcome(r, Handles(k - 1)), Min(k - 1, |r.results|));
    }
  }

  lemma NoPass(r: Ring)
    requires r.Valid()
    ensures Outcome(r, Handles(0)) == r && CountMatching(r.results[..0]) == 0
  {
  }

  lemma OnePassMore(r: Ring, before: Ring, m: nat)
    requires before.Valid() && m <= |r.results| && before.results == r.results[m..]
    ensures m == |r.results| ==> Step(before, Handle) == before
    ensures m < |r.results| ==>
              var r' := Step(before, Handle);
              && r'.results == r.results[m + 1..] && r'.arrivals == before.arrivals
              && r'.Handled() == before.Handled() + 1
              && r'.packetCounter - before.packetCounter
                 == CountMatching(r.results[..m + 1]) - CountMatching(r.results[..m])
  {
    if m < |r.results| {
      HandleTurn(before);
      CountNext(r.results, m);
    }
  }

  /** Each packet delivered and handled before the next. */
  function OneByOne(packets: seq<Packet>): seq<Turn> {
    if packets == [] then []
    else OneByOne(packets[..|packets| - 1]) + [Deliver(packets[|packets| - 1])] + [Handle]
  }

  /** Any packets, among them fewer of another size than there are receives, can all arrive and be
      handled. */
  lemma {:induction false} AllCanBeHandled(start: Ring, packets: seq<Packet>)
    requires IsInitial(start) && |packets| - |Matching(packets)| < start.n
    ensures var r := Outcome(start, OneByOne(packets));
            && Reachable(r) && r.n == start.n && r.arrivals == packets && r.results == []
            && r.packetCounter == |Matching(packets)|
  {
    hide Outcome, Reachable, IsInitial, Ring.Valid;
    ReachedBy(start, OneByOne(packets));
    if packets == [] {
      NothingYet(start);
    } else {
      var before, p := packets[..|packets| - 1], packets[|packets| - 1];
      AllCanBeHandled(start, before);
      var schedule := OneByOne(before);
      OutcomeNext(start, schedule, Deliver(p));
      OutcomeNext(start, schedule + [Deliver(p)], Handle);
      AllHandled(Outcome(start, schedule));
      DeliveredAndHandled(Outcome(start, schedule), p);
      assert packets == before + [p];
    }
  }

  lemma ReachedBy(start: Ring, schedule: seq<Turn>)
    requires IsInitial(start)
    ensures Reachable(Outcome(start, schedule))
  {
  }

  lemma NothingYet(start: Ring)
    requires IsInitial(start)
    ensures Outcome(start, []) == start && start.arrivals == [] && start.results == [] && start.packetCounter == 0
  {
  }

  lemma DeliveredAndHandled(r: Ring, p: Packet)
    requires r.Valid() && r.results == [] && r.otherPacketCounter < r.n
    ensures Step(r, Deliver(p)).InBounds()
    ensures var r' := Step(Step(r, Deliver(p)), Handle);
            && r'.arrivals == r.arrivals + [p] && r'.results == [] && r'.n == r.n
            && r'.packetCounter == r.packetCounter + (if p.bytes == EXPECTED_DATA_SIZE then 1 else 0)
  {
    DeliverTurn(r, p);
    HandleTurn(Step(r, Deliver(p)));
  }

  /** Once as many packets of another size have been handled as there are receives, nothing happens
      any more. */
  lemma {:induction false} Exhausted(r: Ring, schedule: seq<Turn>)
    requires r.Valid() && r.otherPacketCounter == r.n
    ensures Outcome(r, schedule) == r
    decreases |schedule|
  {
    if schedule != [] {
      Exhausted(r, schedule[..|schedule| - 1]);
    }
  }

  // ----- Every reachable state

  /** In every reachable state the live receives use distinct data descriptors, and their address
      descriptors are those of the last postings: consecutive around the ring, the newest one being
      mcAddrDescrIndex - 1, as long as the index has not wrapped or the wrap-around does no harm. */
  lemma LiveReceives(r: Ring)
    requires Reachable(r)
    ensures |r.live| == r.n - r.otherPacketCounter
    ensures r.totalPkts == (r.packetCounter + r.otherPacketCounter) % 0x1_0000_0000
    ensures forall i, j :: 0 <= i < j < |r.live| ==> r.live[i].data != r.live[j].data
    ensures forall j :: 0 <= j < |r.live| ==> r.live[j].addr == SlotOf(r.Handled() + j, r.n)
    ensures IndexFaithful(r.packetCounter, r.n) ==>
              forall j :: 0 <= j < |r.live| ==>
                r.live[j].addr == (r.packetCounter + r.n - (|r.live| - j)) % r.n
  {
    hide Reachable, SlotOf, IndexFaithful;
    Counts(r);
    Slots(r);
    if IndexFaithful(r.packetCounter, r.n) {
      LiveSlots(r);
    }
  }

  lemma Counts(r: Ring)
    requires r.Counted()
    ensures |r.live| == r.n - r.otherPacketCounter
    ensures r.totalPkts == (r.packetCounter + r.otherPacketCounter) % 0x1_0000_0000
  {
    RemIsMod(r.Handled(), 0x1_0000_0000);
  }

  lemma Slots(r: Ring)
    requires r.InBounds() && r.Counted() && r.DataKept() && r.AddressesKept()
    ensures forall i, j :: 0 <= i < j < |r.live| ==> r.live[i].data != r.live[j].data
    ensures forall j :: 0 <= j < |r.live| ==> r.live[j].addr == SlotOf(r.Handled() + j, r.n)
  {
  }

  lemma LiveSlots(r: Ring)
    requires r.InBounds() && r.Counted() && r.AddressesKept() && IndexFaithful(r.packetCounter, r.n)
    ensures forall j :: 0 <= j < |r.live| ==>
              r.live[j].addr == (r.packetCounter + r.n - (|r.live| - j)) % r.n
  {
    forall j | 0 <= j < |r.live|
      ensures r.live[j].addr == (r.packetCounter + r.n - (|r.live| - j)) % r.n
    {
      assert r.packetCounter + r.n - (|r.live| - j) == r.Handled() + j;
      SlotFaithful(r.Handled() + j, r.n);
      RemIsMod(r.Handled() + j, r.n);
    }
  }

  lemma SlotFaithful(p: nat, n: nat)
    requires n > 0 && IndexFaithful(if p < n then 0 else p - n + 1, n)
    ensures SlotOf(p, n) == Rem(p, n)
  {
    if n <= p && TWO32 % n == 0 {
      RemIsMod(TWO32, n);
      RemOfRem(p - n, TWO32, n);
    }
  }

  /** The slot read is the completed packet's own exactly while no packet of another size has been
      handled; within the first n packets after a wrap-around of the index, exactly if the wrap-around
      and those packets together make whole turns. */
  lemma SlotReadIsOwn(r: Ring)
    requires Reachable(r) && r.results != []
    ensures r.live[0].addr == SlotOf(r.packetCounter + r.otherPacketCounter, r.n)
    ensures r.mcAddrDescrIndex % r.n == r.live[0].addr <==>
            if r.packetCounter < TWO32 || r.n <= r.mcAddrDescrIndex + r.otherPacketCounter then
              r.otherPacketCounter == 0
            else
              (TWO32 + r.otherPacketCounter) % r.n == 0
  {
    hide Rem, SlotOf, SlotRead, Wrap32, Ring.DataKept, Ring.Booked;
    OwnSlot(r);
    SlotInOperators(r.mcAddrDescrIndex, TWO32 + r.otherPacketCounter, r.n);
  }

  lemma SlotInOperators(a: nat, b: nat, n: nat)
    requires n > 0
    ensures a % n == Rem(a, n) && b % n == Rem(b, n)
  {
    RemIsMod(a, n);
    RemIsMod(b, n);
  }

  lemma OwnSlot(r: Ring)
    requires r.InBounds() && r.Counted() && r.AddressesKept() && r.results != []
    ensures r.live[0].addr == SlotOf(r.packetCounter + r.otherPacketCounter, r.n)
    ensures Rem(r.mcAddrDescrIndex, r.n) == r.live[0].addr <==>
            if r.packetCounter < TWO32 || r.n <= r.mcAddrDescrIndex + r.otherPacketCounter then
              r.otherPacketCounter == 0
            else
              Rem(TWO32 + r.otherPacketCounter, r.n) == 0
  {
    assert r.live[0].addr == SlotOf(r.Handled() + 0, r.n);
    SlotBehind(r.packetCounter, r.otherPacketCounter, r.n);
  }

  lemma SlotBehind(k: nat, others: nat, n: nat)
    requires others < n <= TWO32
    ensures SlotRead(k, n) == SlotOf(k + others, n) <==>
            if k < TWO32 || n <= Wrap32(k) + others then others == 0 else Rem(TWO32 + others, n) == 0
  {
    if k < TWO32 {
      if others > 0 {
        RemsDiffer(k, k + others, n);
      }
    } else {
      SlotAcross(k, others, n);
      if others > 0 {
        RemsDiffer(Wrap32(k), Wrap32(k) + others, n);
      }
    }
  }

  /** The bookings made of the packets handled: the numbers of those of the expected size, each with
      the group that its slot held when seen[i] packets had arrived. */
  ghost function BookedAsRead(handled: seq<Packet>, arrivals: seq<Packet>, seen: seq<nat>, n: nat): seq<Event>
    requires n > 0 && |seen| == |Matching(handled)|
    requires forall i :: 0 <= i < |seen| ==> i < seen[i] <= |arrivals|
  {
    seq(|seen|, i requires 0 <= i < |seen| => Event(GroupRead(arrivals, seen[i], i, n), Matching(handled)[i].seqNo))
  }

  /** What every run leaves in the map, before and after any wrap-around of the index. Undisturbed, the
      i-th packet of the expected size is booked under its own number and the group of the i-th packet
      handled; disturbed, booking i reads the slot of another packet. */
  lemma StatsOfEveryRun(r: Ring)
    requires Reachable(r)
    ensures AllZero(r.initial) && |r.seen| == |Matching(r.arrivals[..r.Handled()])|
    ensures forall i :: 0 <= i < |r.seen| ==> i < r.seen[i] <= |r.arrivals|
    ensures r.groupStats ==
            Replay(r.initial, BookedAsRead(r.arrivals[..r.Handled()], r.arrivals, r.seen, r.n))
    ensures forall i :: 0 <= i < |r.seen| ==>
              (LastInto(SlotRead(i, r.n), r.seen[i], r.n) == i <==> Undisturbed(i, r.n))
    ensures IndexFaithful(r.packetCounter, r.n) ==>
              r.groupStats == Replay(r.initial, Booked(r.arrivals[..r.Handled()]))
  {
    AsRead(r);
    forall i | 0 <= i < |r.seen|
      ensures LastInto(SlotRead(i, r.n), r.seen[i], r.n) == i <==> Undisturbed(i, r.n)
    {
      BookingReads(i, r.seen[i], r.n);
    }
    if IndexFaithful(r.packetCounter, r.n) {
      AsBooked(r);
    }
  }

  lemma AsRead(r: Ring)
    requires r.InBounds() && r.Counted() && r.Booked() && r.AddressesKept()
    ensures |r.seen| == |Matching(r.arrivals[..r.Handled()])|
    ensures forall i :: 0 <= i < |r.seen| ==> i < r.seen[i] <= |r.arrivals|
    ensures r.events == BookedAsRead(r.arrivals[..r.Handled()], r.arrivals, r.seen, r.n)
  {
  }

  lemma AsBooked(r: Ring)
    requires r.InBounds() && r.Counted() && r.Booked() && r.AddressesKept()
    requires IndexFaithful(r.packetCounter, r.n)
    ensures r.events == Booked(r.arrivals[..r.Handled()])
  {
    RemIsMod(TWO32, r.n);
    forall i | 0 <= i < |r.events| ensures r.events[i].group == r.arrivals[i].group {
      BookingReads(i, r.seen[i], r.n);
    }
  }

  /** The map holds the configured groups and those a packet was booked under, and no others. */
  lemma GroupsOfEveryRun(r: Ring, group: uint32)
    requires Reachable(r)
    ensures group in r.groupStats <==> group in r.initial || exists i :: 0 <= i < |r.events| && r.events[i].group == group
  {
    ReplayKeys(r.initial, r.events, group);
    SubstreamEmpty(r.events, group);
  }

  /** Over any listing of the map's keys the group counters add up to the packets booked. */
  lemma RunConserves(r: Ring, keys: seq<uint32>)
    requires Reachable(r) && Distinct(keys) && r.groupStats.Keys == set g | g in keys
    requires EXPECTED_DATA_SIZE * r.packetCounter < TWO64
    ensures Totals(keys, r.groupStats).packets == r.packetCounter
    ensures Totals(keys, r.groupStats).bytes == EXPECTED_DATA_SIZE * r.packetCounter
  {
    Conservation(keys, r.initial, r.events);
  }

  lemma {:induction false} AllMatching(a: seq<Packet>)
    requires forall i :: 0 <= i < |a| ==> a[i].bytes == EXPECTED_DATA_SIZE
    ensures Matching(a) == a
  {
    if a != [] {
      AllMatching(a[..|a| - 1]);
    }
  }

  lemma AllHandled(r: Ring)
    requires Reachable(r) && r.results == []
    ensures r.Handled() == |r.arrivals| && r.arrivals[..r.Handled()] == r.arrivals
  {
  }

  /** As long as every packet has the expected size, each group's counters are those of its own
      packets run alone. */
  lemma GroupsKeptApart(r: Ring, group: uint32)
    requires Reachable(r) && IndexFaithful(r.packetCounter, r.n)
    requires forall i :: 0 <= i < r.Handled() <= |r.arrivals| ==> r.arrivals[i].bytes == EXPECTED_DATA_SIZE
    ensures r.Handled() <= |r.arrivals|
    ensures Lookup(r.groupStats, group) == Run(Substream(OwnEvents(r.arrivals[..r.Handled()]), group))
  {
    StatsOfEveryRun(r);
    var handled := r.arrivals[..r.Handled()];
    AllMatching(handled);
    assert Booked(handled) == OwnEvents(handled);
    EachGroupAlone(r.initial, OwnEvents(handled), group);
  }

  /** One packet of another size, and from then on packets are booked under the group of the packet
      before them. */
  lemma OneOddPacketShiftsGroups(a: seq<Packet>, odd: Packet, b: seq<Packet>)
    requires forall i :: 0 <= i < |a| ==> a[i].bytes == EXPECTED_DATA_SIZE
    requires forall i :: 0 <= i < |b| ==> b[i].bytes == EXPECTED_DATA_SIZE
    requires odd.bytes != EXPECTED_DATA_SIZE
    ensures Booked(a + [odd] + b) == OwnEvents(a)
              + seq(|b|, i requires 0 <= i < |b| => Event(([odd] + b)[i].group, b[i].seqNo))
  {
    AllMatching(a);
    MatchingAround(a, odd, b);
  }

  lemma {:induction false} MatchingAround(a: seq<Packet>, odd: Packet, b: seq<Packet>)
    requires forall i :: 0 <= i < |a| ==> a[i].bytes == EXPECTED_DATA_SIZE
    requires forall i :: 0 <= i < |b| ==> b[i].bytes == EXPECTED_DATA_SIZE
    requires odd.bytes != EXPECTED_DATA_SIZE
    ensures Matching(a + [odd] + b) == a + b
  {
    var all := a + [odd] + b;
    AllMatching(a);
    if b == [] {
      assert all[..|all| - 1] == a;
    } else {
      var b' := b[..|b| - 1];
      assert all[..|all| - 1] == a + [odd] + b';
      MatchingAround(a, odd, b');
      assert a + b' + [b[|b| - 1]] == a + b;
    }
  }

  // ----- The receiver itself

  class RioConsumer {
    const n: uint32
    const payload: array<uint64>
    const address: array<uint32>
    var live: seq<Request>
    var results: seq<nat>
    var groupStats: StatsMap
    var totalPkts: nat
    var packetCounter: nat
    var otherPacketCounter: nat
    var mcAddrDescrIndex: nat
    ghost var initial: StatsMap
    ghost var arrivals: seq<Packet>
    ghost var events: seq<Event>
    ghost var seen: seq<nat>

    ghost function View(): Ring
      reads this, payload, address
    {
      Ring(n, payload[..], address[..], live, results, groupStats, totalPkts, packetCounter,
           otherPacketCounter, mcAddrDescrIndex, initial, arrivals, events, seen)
    }

    ghost predicate Valid()
      reads this, payload, address
    {
      payload as object != address as object && View().Valid()
    }

    /** A session over the given groups, with all its receives posted. */
    constructor (groups: seq<uint32>, maxOutstandingReceive: uint32)
      requires maxOutstandingReceive > 0
      ensures Valid() && fresh(payload) && fresh(address)
      ensures View() == Initial((set g | g in groups), payload[..], address[..])
      ensures n == maxOutstandingReceive && groupStats == map g | g in groups :: ZERO_STATS
    {
      hide Ring.Counted, Ring.DataKept, Ring.Booked, Ring.AddressesKept;
      n := maxOutstandingReceive;
      payload := new uint64[maxOutstandingReceive];
      address := new uint32[maxOutstandingReceive];
      live, results, totalPkts := [], [], 0;
      packetCounter, otherPacketCounter, mcAddrDescrIndex := 0, 0, 0;
      arrivals, events, seen := [], [], [];
      groupStats, initial := map[], map[];
      new;
      InitGroupStats(groups);
      initial := groupStats;
      PostFirstRecvs(n);
      assert View() == Initial((set g | g in groups), payload[..], address[..]);
      InitialValid((set g | g in groups), payload[..], address[..]);
    }

    method InitGroupStats(groups: seq<uint32>)
      requires groupStats == map[]
      modifies this`groupStats
      ensures groupStats == map g | g in groups :: ZERO_STATS
    {
      for i := 0 to |groups|
        invariant groupStats == map g | g in groups[..i] :: ZERO_STATS
      {
        if groups[i] !in groupStats {
          groupStats := groupStats[groups[i] := ZERO_STATS];
        }
        assert groups[..i + 1] == groups[..i] + [groups[i]];
      }
      assert groups[..|groups|] == groups;
    }

    method PostFirstRecvs(totalMessages: nat)
      requires live == []
      modifies this`live
      ensures live == FirstRequests(totalMessages)
    {
      for i := 0 to totalMessages
        invariant live == FirstRequests(i)
      {
        live := live + [Request(i, i)];
      }
    }

    /** The network side: the oldest waiting receive takes the packet and completes. */
    method Receive(p: Packet)
      requires payload as object != address as object && View().InBounds() && |results| < |live|
      modifies this`results, this`arrivals, payload, address
      ensures View() == Delivered(old(View()), p)
    {
      var request := live[|results|];
      payload[request.data] := p.seqNo;
      address[request.addr] := p.group;
      results := results + [p.bytes];
      arrivals := arrivals + [p];
    }

    /** One packet booked under the group stored in the address slot. */
    method GroupStatsUpdate(mcGroup: uint32, pktSize: nat, seqNo: uint64)
      modifies this`groupStats
      ensures groupStats ==
              old(groupStats)[mcGroup := Update(Lookup(old(groupStats), mcGroup), pktSize, seqNo)]
    {
      if mcGroup !in groupStats {
        groupStats := groupStats[mcGroup := ZERO_STATS];
      }
      var gmc := groupStats[mcGroup];
      if seqNo == gmc.expectedSequence {
        gmc := gmc.(expectedSequence := Wrap(gmc.expectedSequence + 1));
        gmc := gmc.(sequence := seqNo);
      } else if seqNo > gmc.expectedSequence {
        if gmc.packets != 0 {
          gmc := gmc.(rxDropped := Wrap(gmc.rxDropped + (seqNo - gmc.expectedSequence)));
        }
        gmc := gmc.(expectedSequence := Wrap(seqNo + 1));
        gmc := gmc.(sequence := seqNo);
      } else {
        if gmc.rxDropped > 0 {
          gmc := gmc.(rxDropped := gmc.rxDropped - 1);
        }
        gmc := gmc.(outOfOrder := Wrap(gmc.outOfOrder + 1));
      }
      gmc := gmc.(packets := Wrap(gmc.packets + 1));
      gmc := gmc.(bytes := Wrap(gmc.bytes + pktSize));
      groupStats := groupStats[mcGroup := gmc];
    }

    /** One pass of the completion loop. */
    method HandleCompletion()
      requires View().InBounds() && results != []
      modifies this`live, this`results, this`groupStats, this`totalPkts, this`packetCounter,
               this`otherPacketCounter, this`mcAddrDescrIndex, this`events, this`seen
      ensures View() == Handling(old(View()))
    {
      hide Rem, Wrap32, Wrap, Update;
      var context, bytes := live[0].data, results[0];
      live, results := live[1..], results[1..];
      totalPkts := Wrap32(totalPkts + 1);
      if bytes == EXPECTED_DATA_SIZE {
        packetCounter := packetCounter + 1;
        var nextAddr := mcAddrDescrIndex % n;
        RemIsMod(mcAddrDescrIndex, n);
        var group, seqNo := address[nextAddr], payload[context];
        GroupStatsUpdate(group, EXPECTED_DATA_SIZE, seqNo);
        live := live + [Request(context, nextAddr)];
        mcAddrDescrIndex := Wrap32(mcAddrDescrIndex + 1);
        events, seen := events + [Event(group, seqNo)], seen + [|arrivals|];
      } else {
        otherPacketCounter := otherPacketCounter + 1;
      }
    }

    /** The receive loop against any behaviour of the network: a batch of results is that many
        Handle turns, with deliveries falling anywhere between them. */
    method Start(schedule: seq<Turn>)
      requires Valid()
      modifies this, payload, address
      ensures Valid() && View() == Outcome(old(View()), schedule)
    {
      hide Ring.Counted, Ring.DataKept, Ring.Booked, Ring.AddressesKept;
      for i := 0 to |schedule|
        invariant Valid() && View() == Outcome(old(View()), schedule[..i])
      {
        assert schedule[..i + 1][..i] == schedule[..i];
        StepValid(View(), schedule[i]);
        match schedule[i] {
          case Deliver(p) => if |results| < |live| { Receive(p); }
          case Handle => if results != [] { HandleCompletion(); }
        }
      }
      assert schedule[..|schedule|] == schedule;
    }
  }
}
