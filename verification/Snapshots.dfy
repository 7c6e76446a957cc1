/**
 Reports taken while packets arrive: GetMcTotals loads the counters one at a time while the
 receive thread keeps updating them atomically, and ReportWorker subtracts successive snapshots.
 The set of groups is fixed, and no group's packets, bytes or out-of-order packets reach 2^64; the
 drops and all sums over the groups may wrap.
 */
module Snapshots {
  import opened Basics
  import opened MachineWords
  import opened GroupAccounting
  import opened Demultiplexing

  /** The single atomic operations GroupStatsUpdate is made of. */
  datatype AtomicOp =
    | IncrementPackets
    | AddBytes(amount: nat)
    | StoreSequence(value: uint64)
    | StoreExpected(value: uint64)
    | IncrementOutOfOrder
    | AddDrops(amount: nat)
    | DecrementDrops

  function Apply(gmc: McGroupStats, op: AtomicOp): McGroupStats {
    match op
    case IncrementPackets => gmc.(packets := Wrap(gmc.packets + 1))
    case AddBytes(amount) => gmc.(bytes := Wrap(gmc.bytes + amount))
    case StoreSequence(v) => gmc.(sequence := v)
    case StoreExpected(v) => gmc.(expectedSequence := v)
    case IncrementOutOfOrder => gmc.(outOfOrder := Wrap(gmc.outOfOrder + 1))
    case AddDrops(amount) => gmc.(rxDropped := Wrap(gmc.rxDropped + amount))
    case DecrementDrops => gmc.(rxDropped := Wrap(gmc.rxDropped - 1))
  }

  /** How one packet is classified, in the order the receive thread performs the operations. */
  function ClassifyOps(gmc: McGroupStats, seqNo: uint64): seq<AtomicOp> {
    if seqNo == gmc.expectedSequence then
      [StoreExpected(Wrap(gmc.expectedSequence + 1)), StoreSequence(seqNo)]
    else if seqNo > gmc.expectedSequence then
      (if gmc.packets != 0 then [AddDrops(seqNo - gmc.expectedSequence)] else [])
      + [StoreExpected(Wrap(seqNo + 1)), StoreSequence(seqNo)]
    else
      (if gmc.rxDropped > 0 then [DecrementDrops] else []) + [IncrementOutOfOrder]
  }

  function Perform(gmc: McGroupStats, ops: seq<AtomicOp>): McGroupStats
    decreases |ops|
  {
    if ops == [] then gmc else Perform(Apply(gmc, ops[0]), ops[1..])
  }

  lemma {:induction false} PerformConcat(gmc: McGroupStats, xs: seq<AtomicOp>, ys: seq<AtomicOp>)
    ensures Perform(gmc, xs + ys) == Perform(Perform(gmc, xs), ys)
    decreases |xs|
  {
    if xs == [] {
      assert xs + ys == ys;
    } else {
      assert (xs + ys)[1..] == xs[1..] + ys;
      PerformConcat(Apply(gmc, xs[0]), xs[1..], ys);
    }
  }

  lemma PerformFew(gmc: McGroupStats, a: AtomicOp, b: AtomicOp)
    ensures Perform(gmc, [a]) == Apply(gmc, a)
    ensures Perform(gmc, [a, b]) == Apply(Apply(gmc, a), b)
  {
    assert Perform(gmc, [a, b]) == Perform(Apply(gmc, a), [b]);
    assert Perform(Apply(gmc, a), [b]) == Perform(Apply(Apply(gmc, a), b), []);
    assert Perform(gmc, [a]) == Perform(Apply(gmc, a), []);
  }

  /** Performed without interruption, the operations of one packet are one Update. */
  lemma PacketOpsAreUpdate(gmc: McGroupStats, pktSize: nat, seqNo: uint64)
    ensures Perform(gmc, ClassifyOps(gmc, seqNo) + [IncrementPackets, AddBytes(pktSize)])
         == Update(gmc, pktSize, seqNo)
  {
    var classify := ClassifyOps(gmc, seqNo);
    PerformConcat(gmc, classify, [IncrementPackets, AddBytes(pktSize)]);
    PerformFew(Perform(gmc, classify), IncrementPackets, AddBytes(pktSize));
    if seqNo >= gmc.expectedSequence {
      var add := AddDrops(seqNo - gmc.expectedSequence);
      var next, store := StoreExpected(Wrap(seqNo + 1)), StoreSequence(seqNo);
      PerformFew(gmc, add, store);
      PerformConcat(gmc, [add], [next, store]);
      PerformFew(Apply(gmc, add), next, store);
      PerformFew(gmc, next, store);
      assert [] + [next, store] == [next, store];
    } else {
      PerformFew(gmc, DecrementDrops, IncrementOutOfOrder);
      PerformFew(gmc, IncrementOutOfOrder, IncrementOutOfOrder);
      assert [DecrementDrops] + [IncrementOutOfOrder] == [DecrementDrops, IncrementOutOfOrder];
      assert [] + [IncrementOutOfOrder] == [IncrementOutOfOrder];
    }
  }

  // ----- The shared counters over time

  ghost predicate WriterStep(s: StatsMap, s': StatsMap) {
    exists g: uint32, op: AtomicOp ::
      g in s && NoOverflow(s[g], op) && s' == s[g := Apply(s[g], op)]
  }

  predicate NoOverflow(gmc: McGroupStats, op: AtomicOp) {
    match op
    case IncrementPackets => gmc.packets + 1 < TWO64
    case AddBytes(amount) => gmc.bytes + amount < TWO64
    case IncrementOutOfOrder => gmc.outOfOrder + 1 < TWO64
    case _ => true
  }

  /** The successive values of the shared map, one atomic operation apart. */
  ghost predicate Trace(trace: seq<StatsMap>) {
    trace != [] && forall t :: 0 < t < |trace| ==> WriterStep(trace[t - 1], trace[t])
  }

  /** The counters that never decrease. */
  predicate NotLater(a: McGroupStats, b: McGroupStats) {
    a.packets <= b.packets && a.bytes <= b.bytes && a.outOfOrder <= b.outOfOrder
  }

  lemma {:induction false} CountersGrow(trace: seq<StatsMap>, t: nat, u: nat, g: uint32)
    requires Trace(trace) && t <= u < |trace|
    ensures NotLater(Lookup(trace[t], g), Lookup(trace[u], g))
    decreases u - t
  {
    if t < u {
      CountersGrow(trace, t, u - 1, g);
      assert WriterStep(trace[u - 1], trace[u]);
    }
  }

  predicate AtMost(a: TotalStats, b: TotalStats) {
    a.packets <= b.packets && a.bytes <= b.bytes && a.outOfOrder <= b.outOfOrder
  }

  lemma {:induction false} TotalsGrow(trace: seq<StatsMap>, t: nat, u: nat, keys: seq<uint32>)
    requires Trace(trace) && t <= u < |trace|
    ensures AtMost(Totals(keys, trace[t]), Totals(keys, trace[u]))
  {
    if keys != [] {
      TotalsGrow(trace, t, u, keys[..|keys| - 1]);
      CountersGrow(trace, t, u, keys[|keys| - 1]);
    }
  }

  /** One scan: the times of its individual loads, and the moments it started and ended. */
  datatype Scan = Scan(times: seq<nat>, from: nat, till: nat)

  /** Four loads per group, in the order they happen. */
  ghost predicate LoadTimes(scan: Scan, keys: seq<uint32>, length: nat) {
    && |scan.times| == 4 * |keys| && scan.from <= scan.till < length
    && (forall i :: 0 <= i < |scan.times| ==> scan.from <= scan.times[i] <= scan.till)
    && (forall i, j :: 0 <= i < j < |scan.times| ==> scan.times[i] <= scan.times[j])
  }

  /** The snapshot lies between the true sums at the start and at the end of its scan. */
  ghost predicate Brackets(trace: seq<StatsMap>, keys: seq<uint32>, scan: Scan, stats: TotalStats) {
    && scan.from < |trace| && scan.till < |trace|
    && AtMost(Totals(keys, trace[scan.from]), stats)
    && AtMost(stats, Totals(keys, trace[scan.till]))
  }

  /** No drop counter changes while the scan runs. */
  ghost predicate DropsStill(trace: seq<StatsMap>, keys: seq<uint32>, scan: Scan)
    requires LoadTimes(scan, keys, |trace|)
  {
    forall t, i {:trigger Lookup(trace[t], keys[i])} :: scan.from <= t <= scan.till && 0 <= i < |keys| ==>
      Lookup(trace[t], keys[i]).rxDropped == Lookup(trace[scan.from], keys[i]).rxDropped
  }

  /** The sums as they come out in 64 bits. */
  function Wrapped(t: TotalStats): TotalStats {
    TotalStats(Wrap(t.packets), Wrap(t.bytes), Wrap(t.outOfOrder), Wrap(t.drops))
  }

  predicate Fits(t: TotalStats) {
    t.packets < TWO64 && t.bytes < TWO64 && t.outOfOrder < TWO64
  }

  /** The true sums at the end of the scan fit in 64 bits. */
  predicate FitsAtEnd(trace: seq<StatsMap>, keys: seq<uint32>, scan: Scan) {
    scan.till < |trace| && Fits(Totals(keys, trace[scan.till]))
  }

  /** Then nothing is wrapped. */
  lemma FittingBrackets(trace: seq<StatsMap>, keys: seq<uint32>, scan: Scan, sums: TotalStats)
    requires Brackets(trace, keys, scan, sums) && FitsAtEnd(trace, keys, scan)
    ensures Brackets(trace, keys, scan, Wrapped(sums)) && Fits(sums)
  {
    hide Totals;
  }

  function Plus(t: TotalStats, packets: nat, bytes: nat, outOfOrder: nat, drops: nat): TotalStats {
    TotalStats(t.packets + packets, t.bytes + bytes, t.outOfOrder + outOfOrder, t.drops + drops)
  }

  lemma NothingBefore()
    ensures Wrapped(TotalStats(0, 0, 0, 0)) == TotalStats(0, 0, 0, 0)
    ensures forall now :: AtMost(TotalStats(0, 0, 0, 0), now)
  {
  }

  lemma WrappedPlus(t: TotalStats, packets: nat, bytes: nat, outOfOrder: nat, drops: nat)
    ensures Wrapped(Plus(Wrapped(t), packets, bytes, outOfOrder, drops)) ==
            Wrapped(Plus(t, packets, bytes, outOfOrder, drops))
  {
    WrapSum(t.packets, packets);
    WrapSum(t.bytes, bytes);
    WrapSum(t.outOfOrder, outOfOrder);
    WrapSum(t.drops, drops);
  }

  /** The true sum of what a scan loads for the first k groups. */
  ghost function LoadedTo(trace: seq<StatsMap>, keys: seq<uint32>, scan: Scan, k: nat): TotalStats
    requires LoadTimes(scan, keys, |trace|) && k <= |keys|
  {
    if k == 0 then TotalStats(0, 0, 0, 0)
    else
      var key, at := keys[k - 1], 4 * (k - 1);
      Plus(LoadedTo(trace, keys, scan, k - 1),
           Lookup(trace[scan.times[at]], key).packets, Lookup(trace[scan.times[at + 1]], key).bytes,
           Lookup(trace[scan.times[at + 2]], key).outOfOrder, Lookup(trace[scan.times[at + 3]], key).rxDropped)
  }

  ghost function Loaded(trace: seq<StatsMap>, keys: seq<uint32>, scan: Scan): TotalStats
    requires LoadTimes(scan, keys, |trace|)
  {
    LoadedTo(trace, keys, scan, |keys|)
  }

  lemma {:induction false} LoadedToBrackets(trace: seq<StatsMap>, keys: seq<uint32>, scan: Scan, k: nat)
    requires Trace(trace) && LoadTimes(scan, keys, |trace|) && k <= |keys|
    ensures AtMost(Totals(keys[..k], trace[scan.from]), LoadedTo(trace, keys, scan, k))
    ensures AtMost(LoadedTo(trace, keys, scan, k), Totals(keys[..k], trace[scan.till]))
  {
    hide LoadTimes, Trace, Lookup, Totals, Plus, AtMost, NotLater;
    LoadTime(scan, keys, |trace|);
    if k == 0 {
      NoTotals(keys, trace[scan.from], trace[scan.till]);
    } else {
      LoadedToBrackets(trace, keys, scan, k - 1);
      var key, at := keys[k - 1], 4 * (k - 1);
      TotalsNext(keys, k - 1, trace[scan.from]);
      TotalsNext(keys, k - 1, trace[scan.till]);
      GrowthAround(trace, scan.from, scan.times[at], scan.till, key);
      GrowthAround(trace, scan.from, scan.times[at + 1], scan.till, key);
      GrowthAround(trace, scan.from, scan.times[at + 2], scan.till, key);
      PlusBetween(Totals(keys[..k - 1], trace[scan.from]), LoadedTo(trace, keys, scan, k - 1),
                  Totals(keys[..k - 1], trace[scan.till]), Lookup(trace[scan.from], key),
                  Lookup(trace[scan.times[at]], key), Lookup(trace[scan.times[at + 1]], key),
                  Lookup(trace[scan.times[at + 2]], key), Lookup(trace[scan.till], key),
                  Lookup(trace[scan.times[at + 3]], key).rxDropped);
    }
  }

  lemma NoTotals(keys: seq<uint32>, m: StatsMap, m': StatsMap)
    ensures Totals(keys[..0], m) == Totals(keys[..0], m') == TotalStats(0, 0, 0, 0)
    ensures AtMost(TotalStats(0, 0, 0, 0), TotalStats(0, 0, 0, 0))
  {
  }

  function PlusGroup(t: TotalStats, g: McGroupStats): TotalStats {
    Plus(t, g.packets, g.bytes, g.outOfOrder, g.rxDropped)
  }

  lemma TotalsNext(keys: seq<uint32>, k: nat, m: StatsMap)
    requires k < |keys|
    ensures Totals(keys[..k + 1], m) == PlusGroup(Totals(keys[..k], m), Lookup(m, keys[k]))
  {
    assert keys[..k + 1][..k] == keys[..k];
  }

  /** Three counters of a group, loaded one after the other. */
  lemma PlusBetween(a: TotalStats, t: TotalStats, b: TotalStats, first: McGroupStats, p: McGroupStats,
                    q: McGroupStats, o: McGroupStats, last: McGroupStats, drops: nat)
    requires AtMost(a, t) && AtMost(t, b)
    requires NotLater(first, p) && NotLater(first, q) && NotLater(first, o)
    requires NotLater(p, last) && NotLater(q, last) && NotLater(o, last)
    ensures AtMost(PlusGroup(a, first), Plus(t, p.packets, q.bytes, o.outOfOrder, drops))
    ensures AtMost(Plus(t, p.packets, q.bytes, o.outOfOrder, drops), PlusGroup(b, last))
  {
  }

  lemma LoadTime(scan: Scan, keys: seq<uint32>, length: nat)
    requires LoadTimes(scan, keys, length)
    ensures |scan.times| == 4 * |keys| && scan.from <= scan.till < length
    ensures forall i :: 0 <= i < |scan.times| ==> scan.from <= scan.times[i] <= scan.till
  {
  }

  lemma GrowthAround(trace: seq<StatsMap>, from: nat, t: nat, till: nat, key: uint32)
    requires Trace(trace) && from <= t <= till < |trace|
    ensures NotLater(Lookup(trace[from], key), Lookup(trace[t], key))
    ensures NotLater(Lookup(trace[t], key), Lookup(trace[till], key))
  {
    CountersGrow(trace, from, t, key);
    CountersGrow(trace, t, till, key);
  }

  /** What a scan sums up lies between the true sums at its start and at its end. */
  lemma LoadedBrackets(trace: seq<StatsMap>, keys: seq<uint32>, scan: Scan)
    requires Trace(trace) && LoadTimes(scan, keys, |trace|)
    ensures Brackets(trace, keys, scan, Loaded(trace, keys, scan))
  {
    LoadedToBrackets(trace, keys, scan, |keys|);
    assert keys[..|keys|] == keys;
  }

  function Sum(xs: seq<nat>): nat {
    if xs == [] then 0 else Sum(xs[..|xs| - 1]) + xs[|xs| - 1]
  }

  /** The drop counter of each group stays between its two bounds while the scan runs. */
  ghost predicate DropsWithin(trace: seq<StatsMap>, keys: seq<uint32>, scan: Scan, low: seq<nat>, high: seq<nat>)
    requires LoadTimes(scan, keys, |trace|) && |low| == |high| == |keys|
  {
    forall t, i {:trigger Lookup(trace[t], keys[i])} :: scan.from <= t <= scan.till && 0 <= i < |keys| ==>
      low[i] <= Lookup(trace[t], keys[i]).rxDropped <= high[i]
  }

  /** The drops, which may fall as well, lie between the sums of any bounds of the single counters. */
  lemma {:induction false} LoadedDropsWithin(trace: seq<StatsMap>, keys: seq<uint32>, scan: Scan, low: seq<nat>,
                                             high: seq<nat>, k: nat)
    requires LoadTimes(scan, keys, |trace|) && |low| == |high| == |keys|
    requires DropsWithin(trace, keys, scan, low, high) && k <= |keys|
    ensures Sum(low[..k]) <= LoadedTo(trace, keys, scan, k).drops <= Sum(high[..k])
  {
    if k > 0 {
      LoadedDropsWithin(trace, keys, scan, low, high, k - 1);
      hide LoadTimes;
      LoadTime(scan, keys, |trace|);
      assert low[..k][..k - 1] == low[..k - 1] && high[..k][..k - 1] == high[..k - 1];
      assert Lookup(trace[scan.times[4 * (k - 1) + 3]], keys[k - 1]).rxDropped <= high[k - 1];
    }
  }

  /** They are exact if no drop counter changes meanwhile. */
  lemma {:induction false} LoadedDropsStill(trace: seq<StatsMap>, keys: seq<uint32>, scan: Scan, k: nat)
    requires LoadTimes(scan, keys, |trace|) && DropsStill(trace, keys, scan) && k <= |keys|
    ensures LoadedTo(trace, keys, scan, k).drops == Totals(keys[..k], trace[scan.from]).drops
  {
    if k > 0 {
      LoadedDropsStill(trace, keys, scan, k - 1);
      assert keys[..k][..k - 1] == keys[..k - 1];
      var t := scan.times[4 * (k - 1) + 3];
      assert Lookup(trace[t], keys[k - 1]).rxDropped == Lookup(trace[scan.from], keys[k - 1]).rxDropped;
    }
  }

  /** A snapshot is the wrapped sum of what was loaded, and what is known of that sum. */
  ghost predicate Snapshot(trace: seq<StatsMap>, keys: seq<uint32>, scan: Scan, stats: TotalStats)
    requires LoadTimes(scan, keys, |trace|)
  {
    && stats == Wrapped(Loaded(trace, keys, scan))
    && Brackets(trace, keys, scan, Loaded(trace, keys, scan))
    && (FitsAtEnd(trace, keys, scan) ==> Brackets(trace, keys, scan, stats))
    && (DropsStill(trace, keys, scan) ==> stats.drops == Wrap(Totals(keys, trace[scan.from]).drops))
  }

  lemma LoadedIsSnapshot(trace: seq<StatsMap>, keys: seq<uint32>, scan: Scan)
    requires Trace(trace) && LoadTimes(scan, keys, |trace|)
    ensures Snapshot(trace, keys, scan, Wrapped(Loaded(trace, keys, scan)))
  {
    hide Wrap;
    LoadedBrackets(trace, keys, scan);
    if FitsAtEnd(trace, keys, scan) {
      FittingBrackets(trace, keys, scan, Loaded(trace, keys, scan));
    }
    if DropsStill(trace, keys, scan) {
      LoadedDropsStill(trace, keys, scan, |keys|);
      assert keys[..|keys|] == keys;
    }
  }

  /** A scan of all groups with the receive thread at work between any two loads. */
  method GetMcTotals(trace: seq<StatsMap>, keys: seq<uint32>, scan: Scan) returns (partialStats: TotalStats)
    requires Trace(trace) && LoadTimes(scan, keys, |trace|)
    ensures Snapshot(trace, keys, scan, partialStats)
  {
    hide Wrapped, Wrap, Snapshot, Plus;
    NothingBefore();
    partialStats := TotalStats(0, 0, 0, 0);
    for i := 0 to |keys|
      invariant partialStats == Wrapped(LoadedTo(trace, keys, scan, i))
    {
      var key, at := keys[i], 4 * i;
      var p, b := Lookup(trace[scan.times[at]], key).packets, Lookup(trace[scan.times[at + 1]], key).bytes;
      var o, d := Lookup(trace[scan.times[at + 2]], key).outOfOrder, Lookup(trace[scan.times[at + 3]], key).rxDropped;
      WrappedPlus(LoadedTo(trace, keys, scan, i), p, b, o, d);
      partialStats := Wrapped(Plus(partialStats, p, b, o, d));
    }
    LoadedIsSnapshot(trace, keys, scan);
  }

  // ----- Reports

  /** One printed line: the growth since the line before. */
  datatype Row = Row(packets: int, bytes: int, dropped: int, outOfOrder: int)

  function SumRows(rows: seq<Row>): Row {
    if rows == [] then Row(0, 0, 0, 0)
    else
      var s, last := SumRows(rows[..|rows| - 1]), rows[|rows| - 1];
      Row(s.packets + last.packets, s.bytes + last.bytes, s.dropped + last.dropped, s.outOfOrder + last.outOfOrder)
  }

  function Before(snapshots: seq<TotalStats>, i: nat): TotalStats
    requires i <= |snapshots|
  {
    if i == 0 then TotalStats(0, 0, 0, 0) else snapshots[i - 1]
  }

  /** A line prints the growth of the true sums, modulo 2^64; a fall of the drops counts as none. */
  ghost predicate PrintsGrowth(row: Row, prev: TotalStats, now: TotalStats) {
    && AtMost(prev, now)
    && row.packets == Wrap(now.packets - prev.packets) && row.bytes == Wrap(now.bytes - prev.bytes)
    && row.outOfOrder == Wrap(now.outOfOrder - prev.outOfOrder)
    && row.dropped == Wrap(now.drops) - Min(Wrap(prev.drops), Wrap(now.drops))
  }

  /** The differences as the program takes them. */
  function Line(now: TotalStats, prev: TotalStats): Row {
    Row(Wrap(now.packets - prev.packets), Wrap(now.bytes - prev.bytes),
        Wrap(now.drops - Min(prev.drops, now.drops)), Wrap(now.outOfOrder - prev.outOfOrder))
  }

  lemma WrapDifference(a: int, b: int)
    ensures Wrap(Wrap(a) - Wrap(b)) == Wrap(a - b)
  {
    var w: int := Wrap(b);
    WrapSum(a, -w);
    WrapSum(a, b);
  }

  lemma LinePrintsGrowth(now: TotalStats, prev: TotalStats)
    requires AtMost(prev, now)
    ensures PrintsGrowth(Line(Wrapped(now), Wrapped(prev)), prev, now)
  {
    WrapDifference(now.packets, prev.packets);
    WrapDifference(now.bytes, prev.bytes);
    WrapDifference(now.outOfOrder, prev.outOfOrder);
  }

  /** What lines add up to: modulo 2^64 the last sums, and just these where they fit. */
  ghost predicate AddsUp(sum: Row, last: TotalStats) {
    && Wrap(sum.packets) == Wrap(last.packets) && (last.packets < TWO64 ==> sum.packets == last.packets)
    && Wrap(sum.bytes) == Wrap(last.bytes) && (last.bytes < TWO64 ==> sum.bytes == last.bytes)
    && Wrap(sum.outOfOrder) == Wrap(last.outOfOrder) && (last.outOfOrder < TWO64 ==> sum.outOfOrder == last.outOfOrder)
    && sum.dropped >= Wrap(last.drops)
  }

  lemma {:induction false} RowsTelescope(rows: seq<Row>, sums: seq<TotalStats>, k: nat)
    requires k <= |rows| == |sums|
    requires forall i :: 0 <= i < |rows| ==> PrintsGrowth(rows[i], Before(sums, i), sums[i])
    ensures AddsUp(SumRows(rows[..k]), Before(sums, k))
  {
    hide PrintsGrowth, AddsUp;
    NothingAddsUp();
    if k > 0 {
      assert rows[..k][..k - 1] == rows[..k - 1];
      RowsTelescope(rows, sums, k - 1);
      AddsUpNext(SumRows(rows[..k - 1]), rows[k - 1], Before(sums, k - 1), sums[k - 1]);
    }
  }

  ghost predicate SumsTo(rows: seq<Row>, stats: TotalStats) {
    var sum := SumRows(rows);
    sum.packets == stats.packets && sum.bytes == stats.bytes && sum.outOfOrder == stats.outOfOrder
  }

  lemma AddsUpFitting(rows: seq<Row>, last: TotalStats)
    requires AddsUp(SumRows(rows), last)
    ensures Fits(last) ==> SumsTo(rows, Wrapped(last))
    ensures SumRows(rows).dropped >= Wrapped(last).drops
  {
  }

  lemma NothingAddsUp()
    ensures AddsUp(Row(0, 0, 0, 0), TotalStats(0, 0, 0, 0))
  {
  }

  lemma AddsUpNext(sum: Row, row: Row, prev: TotalStats, now: TotalStats)
    requires AddsUp(sum, prev) && PrintsGrowth(row, prev, now)
    ensures AddsUp(Row(sum.packets + row.packets, sum.bytes + row.bytes, sum.dropped + row.dropped,
                       sum.outOfOrder + row.outOfOrder), now)
  {
    OneSum(sum.packets, prev.packets, now.packets);
    OneSum(sum.bytes, prev.bytes, now.bytes);
    OneSum(sum.outOfOrder, prev.outOfOrder, now.outOfOrder);
  }

  lemma OneSum(sum: int, prev: nat, now: nat)
    requires Wrap(sum) == Wrap(prev) && (prev < TWO64 ==> sum == prev) && prev <= now
    ensures Wrap(sum + Wrap(now - prev)) == Wrap(now)
    ensures now < TWO64 ==> sum + Wrap(now - prev) == now
  {
    WrapSum(now - prev, sum);
    WrapSum(sum, now - prev);
    WrapSum(prev, now - prev);
  }

  lemma IsWrapped(trace: seq<StatsMap>, keys: seq<uint32>, scan: Scan, stats: TotalStats)
    requires LoadTimes(scan, keys, |trace|) && Snapshot(trace, keys, scan, stats)
    ensures stats == Wrapped(Loaded(trace, keys, scan))
  {
  }

  lemma LoadedFits(trace: seq<StatsMap>, keys: seq<uint32>, scan: Scan)
    requires Trace(trace) && LoadTimes(scan, keys, |trace|) && FitsAtEnd(trace, keys, scan)
    ensures Fits(Loaded(trace, keys, scan))
  {
    LoadedBrackets(trace, keys, scan);
    FittingBrackets(trace, keys, scan, Loaded(trace, keys, scan));
  }

  /** Sums of scans that do not overlap are in order. */
  lemma ScansInOrder(trace: seq<StatsMap>, keys: seq<uint32>, a: Scan, b: Scan)
    requires Trace(trace) && LoadTimes(a, keys, |trace|) && LoadTimes(b, keys, |trace|) && a.till <= b.from
    ensures AtMost(Loaded(trace, keys, a), Loaded(trace, keys, b))
  {
    LoadedBrackets(trace, keys, a);
    LoadedBrackets(trace, keys, b);
    TotalsGrow(trace, a.till, b.from, keys);
  }

  /** Over any sequence of non-overlapping scans the totals printed are snapshots, and every line is the
      growth between two of the true sums loaded, no difference underflowing; the lines add up to the
      last sums, and the clamped drop differences to at least the last drops. */
  method ReportWorker(trace: seq<StatsMap>, keys: seq<uint32>, scans: seq<Scan>)
    returns (rows: seq<Row>, totals: seq<TotalStats>, ghost sums: seq<TotalStats>)
    requires Trace(trace)
    requires forall i :: 0 <= i < |scans| ==> LoadTimes(scans[i], keys, |trace|)
    requires forall i, j :: 0 <= i < j < |scans| ==> scans[i].till <= scans[j].from
    ensures |rows| == |totals| == |sums| == |scans|
    ensures forall i :: 0 <= i < |scans| ==>
              && Snapshot(trace, keys, scans[i], totals[i]) && sums[i] == Loaded(trace, keys, scans[i])
              && PrintsGrowth(rows[i], Before(sums, i), sums[i])
    ensures AddsUp(SumRows(rows), Before(sums, |sums|))
    ensures scans != [] && FitsAtEnd(trace, keys, scans[|scans| - 1]) ==> SumsTo(rows, totals[|scans| - 1])
    ensures SumRows(rows).dropped >= Before(totals, |totals|).drops
  {
    hide Trace, LoadTimes, Snapshot, Loaded, AtMost, Wrapped, Line, PrintsGrowth, AddsUp, SumRows, SumsTo, FitsAtEnd;
    NothingBefore();
    rows, totals, sums := [], [], [];
    var prevStats := TotalStats(0, 0, 0, 0);
    for i := 0 to |scans|
      invariant |rows| == |totals| == |sums| == i
      invariant prevStats == Wrapped(Before(sums, i)) == Before(totals, i)
      invariant forall k :: 0 <= k < i ==>
                  && Snapshot(trace, keys, scans[k], totals[k]) && sums[k] == Loaded(trace, keys, scans[k])
                  && PrintsGrowth(rows[k], Before(sums, k), sums[k])
    {
      var statsNow := GetMcTotals(trace, keys, scans[i]);
      ghost var now := Loaded(trace, keys, scans[i]);
      IsWrapped(trace, keys, scans[i], statsNow);
      if i > 0 {
        ScansInOrder(trace, keys, scans[i - 1], scans[i]);
      }
      LinePrintsGrowth(now, Before(sums, i));
      rows, totals, sums := rows + [Line(statsNow, prevStats)], totals + [statsNow], sums + [now];
      prevStats := statsNow;
    }
    assert rows[..|rows|] == rows;
    RowsTelescope(rows, sums, |rows|);
    AddsUpFitting(rows, Before(sums, |sums|));
    if scans != [] && FitsAtEnd(trace, keys, scans[|scans| - 1]) {
      LoadedFits(trace, keys, scans[|scans| - 1]);
    }
  }
}
