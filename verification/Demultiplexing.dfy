/**
 The per-group map of counters: an interleaved stream of packets of many groups, run through
 one map, and the totals taken over the map.
 */
module Demultiplexing {
  import opened MachineWords
  import opened GroupAccounting

  /** One call of GroupStatsUpdate: the group it books a packet under and the packet's number. */
  datatype Event = Event(group: uint32, seqNo: uint64)

  type StatsMap = map<uint32, McGroupStats>

  datatype TotalStats = TotalStats(packets: nat, bytes: nat, outOfOrder: nat, drops: nat)

  /** Indexing the map creates a zeroed entry for an unknown group. */
  function Lookup(m: StatsMap, group: uint32): McGroupStats {
    if group in m then m[group] else ZERO_STATS
  }

  function Record(m: StatsMap, e: Event): StatsMap {
    m[e.group := Update(Lookup(m, e.group), EXPECTED_DATA_SIZE, e.seqNo)]
  }

  function Replay(m: StatsMap, events: seq<Event>): StatsMap {
    if events == [] then m
    else Record(Replay(m, events[..|events| - 1]), events[|events| - 1])
  }

  /** The numbers one group receives, in order. */
  function Substream(events: seq<Event>, group: uint32): (r: seq<uint64>)
    ensures |r| <= |events|
  {
    if events == [] then []
    else
      var before := Substream(events[..|events| - 1], group);
      var last := events[|events| - 1];
      if last.group == group then before + [last.seqNo] else before
  }

  ghost predicate AllZero(m: StatsMap) {
    forall g :: g in m ==> m[g] == ZERO_STATS
  }

  /** Each group ends with the counters of its own packets run alone; no other group interferes. */
  lemma {:induction false} EachGroupAlone(m: StatsMap, events: seq<Event>, group: uint32)
    requires AllZero(m)
    ensures Lookup(Replay(m, events), group) == Run(Substream(events, group))
  {
    if events != [] {
      var n := |events| - 1;
      EachGroupAlone(m, events[..n], group);
      var before := Substream(events[..n], group);
      if events[n].group == group {
        assert Substream(events, group)[..|before|] == before;
      }
    }
  }

  /** The map holds exactly the groups it started with and those a packet was booked under. */
  lemma {:induction false} ReplayKeys(m: StatsMap, events: seq<Event>, group: uint32)
    ensures group in Replay(m, events) <==> group in m || Substream(events, group) != []
  {
    if events != [] {
      ReplayKeys(m, events[..|events| - 1], group);
    }
  }

  lemma {:induction false} SubstreamEmpty(events: seq<Event>, group: uint32)
    ensures Substream(events, group) == [] <==> forall i :: 0 <= i < |events| ==> events[i].group != group
  {
    if events != [] {
      SubstreamEmpty(events[..|events| - 1], group);
    }
  }

  // ----- Totals over the map

  /** The four sums GetMcTotals takes, over the given keys. */
  function Totals(keys: seq<uint32>, m: StatsMap): TotalStats {
    if keys == [] then TotalStats(0, 0, 0, 0)
    else
      var t := Totals(keys[..|keys| - 1], m);
      var value := Lookup(m, keys[|keys| - 1]);
      TotalStats(t.packets + value.packets, t.bytes + value.bytes,
                 t.outOfOrder + value.outOfOrder, t.drops + value.rxDropped)
  }

  ghost predicate Distinct(keys: seq<uint32>) {
    forall i, j :: 0 <= i < j < |keys| ==> keys[i] != keys[j]
  }

  lemma {:induction false} TotalsUnaffected(keys: seq<uint32>, m: StatsMap, g: uint32, v: McGroupStats)
    requires g !in keys
    ensures Totals(keys, m[g := v]) == Totals(keys, m)
  {
    if keys != [] {
      TotalsUnaffected(keys[..|keys| - 1], m, g, v);
    }
  }

  lemma {:induction false} TotalsUpdated(keys: seq<uint32>, m: StatsMap, g: uint32, v: McGroupStats)
    requires Distinct(keys) && g in keys
    ensures Totals(keys, m[g := v]).packets == Totals(keys, m).packets - Lookup(m, g).packets + v.packets
    ensures Totals(keys, m[g := v]).bytes == Totals(keys, m).bytes - Lookup(m, g).bytes + v.bytes
    ensures Totals(keys, m[g := v]).outOfOrder
         == Totals(keys, m).outOfOrder - Lookup(m, g).outOfOrder + v.outOfOrder
    ensures Totals(keys, m[g := v]).drops == Totals(keys, m).drops - Lookup(m, g).rxDropped + v.rxDropped
  {
    var n := |keys| - 1;
    if keys[n] == g {
      TotalsUnaffected(keys[..n], m, g, v);
    } else {
      TotalsUpdated(keys[..n], m, g, v);
    }
  }

  lemma {:induction false} TotalsOfZero(keys: seq<uint32>, m: StatsMap)
    requires AllZero(m)
    ensures Totals(keys, m) == TotalStats(0, 0, 0, 0)
  {
    if keys != [] {
      TotalsOfZero(keys[..|keys| - 1], m);
    }
  }

  lemma UpdateCounts(g: McGroupStats, seqNo: uint64)
    requires g.packets + 1 < TWO64 && g.bytes + EXPECTED_DATA_SIZE < TWO64
    ensures Update(g, EXPECTED_DATA_SIZE, seqNo).packets == g.packets + 1
    ensures Update(g, EXPECTED_DATA_SIZE, seqNo).bytes == g.bytes + EXPECTED_DATA_SIZE
  {
  }

  lemma {:induction false} RunCounts(h: seq<uint64>)
    requires EXPECTED_DATA_SIZE * |h| < TWO64
    ensures Run(h).packets == |h| && Run(h).bytes == EXPECTED_DATA_SIZE * |h|
  {
    if h != [] {
      var p := h[..|h| - 1];
      RunCounts(p);
      UpdateCounts(Run(p), h[|h| - 1]);
    }
  }

  /** Conservation: no packet is lost or counted twice by the split into groups, whatever the
      sequence numbers. */
  lemma {:induction false} Conservation(keys: seq<uint32>, m: StatsMap, events: seq<Event>)
    requires AllZero(m) && Distinct(keys) && forall g :: g in Replay(m, events) ==> g in keys
    requires EXPECTED_DATA_SIZE * |events| < TWO64
    ensures Totals(keys, Replay(m, events)).packets == |events|
    ensures Totals(keys, Replay(m, events)).bytes == EXPECTED_DATA_SIZE * |events|
  {
    if events == [] {
      TotalsOfZero(keys, m);
    } else {
      var n := |events| - 1;
      Conservation(keys, m, events[..n]);
      ConservationStep(keys, m, events[..n], events[n]);
    }
  }

  lemma ConservationStep(keys: seq<uint32>, m: StatsMap, p: seq<Event>, e: Event)
    requires AllZero(m) && Distinct(keys) && e.group in keys
    requires EXPECTED_DATA_SIZE * (|p| + 1) < TWO64
    ensures Totals(keys, Record(Replay(m, p), e)).packets == Totals(keys, Replay(m, p)).packets + 1
    ensures Totals(keys, Record(Replay(m, p), e)).bytes == Totals(keys, Replay(m, p)).bytes + EXPECTED_DATA_SIZE
  {
    var mp := Replay(m, p);
    var gmc := Lookup(mp, e.group);
    assert gmc.packets + 1 < TWO64 && gmc.bytes + EXPECTED_DATA_SIZE < TWO64 by {
      EachGroupAlone(m, p, e.group);
      RunCounts(Substream(p, e.group));
    }
    RecordCounts(keys, mp, e);
  }

  lemma RecordCounts(keys: seq<uint32>, m: StatsMap, e: Event)
    requires Distinct(keys) && e.group in keys
    requires Lookup(m, e.group).packets + 1 < TWO64
    requires Lookup(m, e.group).bytes + EXPECTED_DATA_SIZE < TWO64
    ensures Totals(keys, Record(m, e)).packets == Totals(keys, m).packets + 1
    ensures Totals(keys, Record(m, e)).bytes == Totals(keys, m).bytes + EXPECTED_DATA_SIZE
  {
    var gmc := Lookup(m, e.group);
    UpdateCounts(gmc, e.seqNo);
    TotalsUpdated(keys, m, e.group, Update(gmc, EXPECTED_DATA_SIZE, e.seqNo));
  }
}
