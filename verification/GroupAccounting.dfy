/**
 Sequence accounting for one multicast group: what the counters of McGroupStats_t hold
 after an arbitrary stream of packets, with gaps, reordering and duplicates.
 */
module GroupAccounting {
  import opened MachineWords

  const EXPECTED_DATA_SIZE: nat := 100

  datatype McGroupStats = McGroupStats(packets: uint64, bytes: uint64, sequence: uint64,
                                       expectedSequence: uint64, outOfOrder: uint64, rxDropped: uint64)

  const ZERO_STATS := McGroupStats(0, 0, 0, 0, 0, 0)

  /** The effect of one received packet on its group, in 64-bit arithmetic. */
  function Update(gmc: McGroupStats, pktSize: nat, seqNo: uint64): McGroupStats {
    var counted :=
      if seqNo == gmc.expectedSequence then
        gmc.(expectedSequence := Wrap(gmc.expectedSequence + 1), sequence := seqNo)
      else if seqNo > gmc.expectedSequence then
        gmc.(expectedSequence := Wrap(seqNo + 1), sequence := seqNo,
             rxDropped := if gmc.packets != 0
                          then Wrap(gmc.rxDropped + (seqNo - gmc.expectedSequence))
                          else gmc.rxDropped)
      else
        gmc.(outOfOrder := Wrap(gmc.outOfOrder + 1),
             rxDropped := if gmc.rxDropped > 0 then gmc.rxDropped - 1 else gmc.rxDropped);
    counted.(packets := Wrap(gmc.packets + 1), bytes := Wrap(gmc.bytes + pktSize))
  }

  /** The counters after a whole stream of packets of one group. */
  function Run(h: seq<uint64>): McGroupStats {
    if h == [] then ZERO_STATS
    else Update(Run(h[..|h| - 1]), EXPECTED_DATA_SIZE, h[|h| - 1])
  }

  // ----- Reference definitions, independent of the update rule

  function Max(h: seq<uint64>): uint64
    requires h != []
  {
    var last := h[|h| - 1];
    if |h| == 1 then last
    else
      var rest := Max(h[..|h| - 1]);
      if rest < last then last else rest
  }

  /** What is missing between the first packet and the highest one if each packet filled a hole. */
  function Walk(h: seq<uint64>): int
    requires h != []
  {
    Max(h) + 1 - h[0] - |h|
  }

  /** The lowest point the walk has visited within the first k packets. */
  function MinWalkTo(h: seq<uint64>, k: nat): int
    requires 1 <= k <= |h|
  {
    var here := Walk(h[..k]);
    if k == 1 then here
    else
      var before := MinWalkTo(h, k - 1);
      if here < before then here else before
  }

  function MinWalk(h: seq<uint64>): int
    requires h != []
  {
    MinWalkTo(h, |h|)
  }

  ghost predicate IsLate(h: seq<uint64>, i: nat)
    requires i < |h|
  {
    exists j :: 0 <= j < i && h[j] >= h[i]
  }

  /** Positions of the packets that are not strict running maxima. */
  ghost function Late(h: seq<uint64>): set<nat> {
    set i | 0 <= i < |h| && IsLate(h, i)
  }

  /** Sequence numbers between the first and the highest packet that never arrived. */
  ghost function Missing(h: seq<uint64>): set<int>
    requires h != []
  {
    set v | h[0] <= v <= Max(h) && v !in h
  }

  /** The distinct sequence numbers received, those below the first packet aside. */
  ghost function Kept(h: seq<uint64>): set<int>
    requires h != []
  {
    set v | h[0] <= v <= Max(h) && v in h
  }

  /** How many packets were duplicates or lay below the first packet. */
  ghost function Extra(h: seq<uint64>): int
    requires h != []
  {
    |h| - |Kept(h)|
  }

  /** No counter can wrap: sequence numbers stay below 2^64 - 1 and the byte count fits. */
  ghost predicate Bounded(h: seq<uint64>) {
    (forall i :: 0 <= i < |h| ==> h[i] < TWO64 - 1) && EXPECTED_DATA_SIZE * |h| < TWO64
  }

  ghost predicate NoDuplicates(h: seq<uint64>) {
    forall i, j :: 0 <= i < j < |h| ==> h[i] != h[j]
  }

  ghost predicate StartsWithMinimum(h: seq<uint64>) {
    h != [] && forall i :: 0 <= i < |h| ==> h[0] <= h[i]
  }

  ghost predicate StrictlyIncreasing(h: seq<uint64>) {
    forall i, j :: 0 <= i < j < |h| ==> h[i] < h[j]
  }

  // ----- The counters in closed form

  ghost function ClosedForm(h: seq<uint64>): McGroupStats
    requires h != [] && Bounded(h)
  {
    LateBound(h);
    DropBounds(h);
    MaxIsMaximum(h);
    McGroupStats(|h|, EXPECTED_DATA_SIZE * |h|, Max(h), Max(h) + 1, |Late(h)|, Walk(h) - MinWalk(h))
  }

  lemma {:induction false} MaxIsMaximum(h: seq<uint64>)
    requires h != []
    ensures Max(h) in h && forall i :: 0 <= i < |h| ==> h[i] <= Max(h)
  {
    var n := |h| - 1;
    if n > 0 {
      var p := h[..n];
      MaxIsMaximum(p);
      forall i | 0 <= i < |h| ensures h[i] <= Max(h) {
        if i < n { assert p[i] == h[i]; }
      }
    }
  }

  lemma {:induction false} MinWalkIsMinimum(h: seq<uint64>, n: nat)
    requires 1 <= n <= |h|
    ensures forall k :: 1 <= k <= n ==> MinWalkTo(h, n) <= Walk(h[..k])
    ensures exists k :: 1 <= k <= n && MinWalkTo(h, n) == Walk(h[..k])
  {
    if n > 1 {
      MinWalkIsMinimum(h, n - 1);
    }
  }

  lemma {:induction false} MinWalkPrefix(h: seq<uint64>, x: uint64, k: nat)
    requires 1 <= k <= |h|
    ensures MinWalkTo(h + [x], k) == MinWalkTo(h, k)
  {
    assert (h + [x])[..k] == h[..k];
    if k > 1 {
      MinWalkPrefix(h, x, k - 1);
    }
  }

  lemma LateBound(h: seq<uint64>)
    ensures |Late(h)| <= |h|
  {
    SubsetSize(Late(h), Interval(0, |h|));
  }

  /** The walk never falls faster than one per packet, so the reflected walk stays in range. */
  lemma DropBounds(h: seq<uint64>)
    requires h != []
    ensures 0 <= Walk(h) - MinWalk(h) <= Max(h) - h[0]
    ensures MinWalk(h) <= 0
  {
    MinWalkIsMinimum(h, |h|);
    var k :| 1 <= k <= |h| && MinWalk(h) == Walk(h[..k]);
    WalkFloor(h, k);
    WalkFloor(h, 1);
    assert MinWalk(h) <= Walk(h[..1]) && MinWalk(h) <= Walk(h[..|h|]);
    assert h[..|h|] == h;
  }

  lemma WalkFloor(h: seq<uint64>, k: nat)
    requires 1 <= k <= |h|
    ensures Walk(h[..k]) >= 1 - k
    ensures k == 1 ==> Walk(h[..k]) == 0
  {
    var p := h[..k];
    MaxIsMaximum(p);
    assert p[0] == h[0] <= Max(p);
  }

  lemma MaxSnoc(h: seq<uint64>, x: uint64)
    requires h != []
    ensures Max(h + [x]) == if Max(h) < x then x else Max(h)
  {
    assert (h + [x])[..|h|] == h;
  }

  lemma LateSnoc(h: seq<uint64>, x: uint64)
    requires h != []
    ensures Late(h + [x]) == Late(h) + (if x <= Max(h) then {|h|} else {})
  {
    var hx := h + [x];
    forall i | 0 <= i < |h| ensures IsLate(hx, i) <==> IsLate(h, i) {
      LatePrefix(h, x, i);
    }
    MaxIsMaximum(h);
    if x <= Max(h) {
      var j :| 0 <= j < |h| && h[j] == Max(h);
      assert hx[j] >= hx[|h|];
    }
    assert IsLate(hx, |h|) <==> x <= Max(h);
  }

  lemma LatePrefix(h: seq<uint64>, x: uint64, i: nat)
    requires i < |h|
    ensures IsLate(h + [x], i) <==> IsLate(h, i)
  {
    var hx := h + [x];
    assert hx[i] == h[i];
    assert forall j :: 0 <= j < i ==> hx[j] == h[j];
  }

  lemma LateSnocSize(h: seq<uint64>, x: uint64)
    requires h != []
    ensures |Late(h + [x])| == |Late(h)| + if x <= Max(h) then 1 else 0
    ensures |Late(h)| <= |h|
  {
    LateSnoc(h, x);
    LateBound(h);
    assert |h| !in Late(h);
  }

  lemma ClosedFormSnoc(h: seq<uint64>, x: uint64)
    requires h != [] && Bounded(h + [x])
    ensures Bounded(h)
    ensures Update(ClosedForm(h), EXPECTED_DATA_SIZE, x) == ClosedForm(h + [x])
  {
    var hx := h + [x];
    forall i | 0 <= i < |h| ensures h[i] < TWO64 - 1 { assert hx[i] == h[i]; }
    assert hx[|h|] == x;
    WalkSnoc(h, x);
    DropBounds(h);
    LateSnocSize(h, x);
    MaxIsMaximum(h);
    UpdateReflects(ClosedForm(h), x, |h|, Max(h), Walk(h), MinWalk(h), |Late(h)|);
  }

  /** One update moves the walk one step and reflects the drop counter at its minimum. */
  lemma UpdateReflects(g: McGroupStats, x: uint64, n: nat, top: nat, walk: int, low: int, late: nat)
    requires 0 < n && EXPECTED_DATA_SIZE * (n + 1) < TWO64 && x < TWO64 - 1 && top < TWO64 - 1
    requires late <= n && 0 <= walk - low <= top
    requires g == McGroupStats(n, EXPECTED_DATA_SIZE * n, top, top + 1, late, walk - low)
    ensures var top' := if top < x then x else top;
            var walk' := walk + (top' - top) - 1;
            var low' := if walk' < low then walk' else low;
            0 <= walk' - low' < TWO64 &&
            Update(g, EXPECTED_DATA_SIZE, x) ==
            McGroupStats(n + 1, EXPECTED_DATA_SIZE * (n + 1), top', top' + 1,
                         if x <= top then late + 1 else late, walk' - low')
  {
  }

  lemma WalkSnoc(h: seq<uint64>, x: uint64)
    requires h != []
    ensures Max(h + [x]) == if Max(h) < x then x else Max(h)
    ensures Walk(h + [x]) == Max(h + [x]) - h[0] - |h|
    ensures MinWalk(h + [x]) == if Walk(h + [x]) < MinWalk(h) then Walk(h + [x]) else MinWalk(h)
  {
    var hx := h + [x];
    MaxSnoc(h, x);
    assert Walk(hx) == Max(hx) - h[0] - |h| by { assert hx[0] == h[0] && |hx| == |h| + 1; }
    assert MinWalk(hx) == if Walk(hx) < MinWalk(h) then Walk(hx) else MinWalk(h) by {
      MinWalkPrefix(h, x, |h|);
      assert hx[..|hx|] == hx;
    }
  }

  /** For every stream the drop counter is the walk reflected at zero, the expected number is one
      past the maximum, and the out-of-order counter counts the packets that are not running maxima. */
  lemma {:induction false} RunClosedForm(h: seq<uint64>)
    requires h != [] && Bounded(h)
    ensures Run(h) == ClosedForm(h)
  {
    var n := |h| - 1;
    assert h == h[..n] + [h[n]];
    if n == 0 {
      assert h[..0] == [];
      assert Run(h[..0]) == ZERO_STATS;
      assert h[..1] == h;
      assert Late(h) == {};
    } else {
      ClosedFormSnoc(h[..n], h[n]);
      RunClosedForm(h[..n]);
    }
  }

  /** The expected number follows the maximum exactly as long as no packet carries 2^64 - 1. */
  lemma ExpectedFollowsMaximum(h: seq<uint64>)
    requires h != [] && EXPECTED_DATA_SIZE * |h| < TWO64
    ensures Run(h).expectedSequence == Max(h) + 1 <==> TWO64 - 1 !in h
  {
    MaxIsMaximum(h);
    if TWO64 - 1 in h {
      assert Max(h) == TWO64 - 1;
    } else {
      RunClosedForm(h);
    }
  }

  lemma UpdateExpects(g: McGroupStats, pktSize: nat, x: uint64)
    ensures Update(g, pktSize, x).expectedSequence ==
            if x < g.expectedSequence then g.expectedSequence else if x == TWO64 - 1 then 0 else x + 1
  {
  }

  lemma ExpectedNext(h: seq<uint64>, x: uint64)
    ensures var e := Run(h).expectedSequence;
            Run(h + [x]).expectedSequence == if x < e then e else if x == TWO64 - 1 then 0 else x + 1
  {
    assert (h + [x])[..|h|] == h;
    hide Update;
    UpdateExpects(Run(h), EXPECTED_DATA_SIZE, x);
  }

  /** A packet numbered 2^64 - 1 sets the expected number to 0, and from then on it follows the maximum
      of the packets behind it. */
  lemma {:induction false} ExpectedRestarts(before: seq<uint64>, behind: seq<uint64>)
    requires TWO64 - 1 !in behind
    ensures Run(before + [TWO64 - 1] + behind).expectedSequence == if behind == [] then 0 else Max(behind) + 1
  {
    hide Run, Max;
    if behind == [] {
      ExpectedNext(before, TWO64 - 1);
      assert before + [TWO64 - 1] + [] == before + [TWO64 - 1];
    } else {
      var n, x := |behind| - 1, behind[|behind| - 1];
      ExpectedRestarts(before, behind[..n]);
      ExpectedNext(before + [TWO64 - 1] + behind[..n], x);
      assert before + [TWO64 - 1] + behind == before + [TWO64 - 1] + behind[..n] + [x];
      NextMaximum(behind);
    }
  }

  lemma NextMaximum(h: seq<uint64>)
    requires h != []
    ensures var p, x := h[..|h| - 1], h[|h| - 1];
            Max(h) == if p != [] && x < Max(p) then Max(p) else x
  {
  }

  // ----- The drop counter against the truth

  ghost function Interval(lo: int, hi: int): (r: set<int>)
    ensures forall v :: v in r <==> lo <= v < hi
    ensures |r| == if lo < hi then hi - lo else 0
    decreases hi - lo
  {
    if lo < hi then Interval(lo, hi - 1) + {hi - 1} else {}
  }

  lemma SubsetSize(a: set<int>, b: set<int>)
    requires a <= b
    ensures |a| <= |b|
  {
    assert b == a + (b - a);
  }

  /** Missing numbers are the walk plus the packets that filled no hole. */
  lemma MissingSize(h: seq<uint64>)
    requires h != []
    ensures |Missing(h)| == Walk(h) + Extra(h)
  {
    MaxIsMaximum(h);
    assert Missing(h) + Kept(h) == Interval(h[0], Max(h) + 1);
    assert Missing(h) * Kept(h) == {};
  }

  lemma KeptSnoc(p: seq<uint64>, x: uint64)
    requires p != []
    ensures Kept(p + [x]) == if p[0] <= x then Kept(p) + {x as int} else Kept(p)
  {
    MaxSnoc(p, x);
    MaxIsMaximum(p);
    forall v | p[0] <= v ensures v in Kept(p + [x]) <==> v in Kept(p) || v == x {
      assert v in p + [x] <==> v in p || v == x;
      if v in p { var i :| 0 <= i < |p| && p[i] == v; assert v <= Max(p); }
    }
  }

  lemma ExtraGrows(h: seq<uint64>, k: nat)
    requires 1 <= k <= |h|
    ensures Extra(h[..k]) <= Extra(h)
    decreases |h| - k
  {
    if k == |h| {
      assert h[..k] == h;
    } else {
      var p, q := h[..k], h[..k + 1];
      assert q == p + [h[k]];
      KeptSnoc(p, h[k]);
      SubsetSize(Kept(q), Kept(p) + {h[k]});
      ExtraGrows(h, k + 1);
    }
  }

  /** The error of the drop counter, exactly: it falls short of the truth by the packets that
      filled no hole, except for those that arrived while the walk was reaching a new low. */
  lemma DropsAgainstTruth(h: seq<uint64>)
    requires h != [] && Bounded(h)
    ensures Run(h).rxDropped == |Missing(h)| - (Extra(h) + MinWalk(h))
    ensures Max(h) + 1 - h[0] - |h| <= Run(h).rxDropped <= |Missing(h)|
    ensures Run(h).rxDropped == |Missing(h)| <==> MinWalk(h) == -Extra(h)
  {
    RunClosedForm(h);
    MissingSize(h);
    DropBounds(h);
    MinWalkIsMinimum(h, |h|);
    var k :| 1 <= k <= |h| && MinWalk(h) == Walk(h[..k]);
    MissingSize(h[..k]);
    ExtraGrows(h, k);
  }

  lemma {:induction false} KeptAll(h: seq<uint64>)
    requires StartsWithMinimum(h) && NoDuplicates(h)
    ensures |Kept(h)| == |h|
  {
    var n := |h| - 1;
    if n == 0 {
      assert Max(h) == h[0];
      forall v ensures v in Kept(h) <==> v == h[0] { assert v in h <==> v == h[0]; }
      assert Kept(h) == {h[0] as int};
    } else {
      var p := h[..n];
      assert forall i :: 0 <= i < n ==> p[i] == h[i];
      KeptAll(p);
      assert h[n] !in p && p[0] <= h[n];
      assert h == p + [h[n]];
      KeptSnoc(p, h[n]);
    }
  }

  /** Without duplicates and with nothing below the first packet the counter is exact. */
  lemma DropsExact(h: seq<uint64>)
    requires Bounded(h) && StartsWithMinimum(h) && NoDuplicates(h)
    ensures Run(h).rxDropped == |Missing(h)| == Max(h) + 1 - h[0] - |h|
  {
    KeptAll(h);
    DropsAgainstTruth(h);
    MissingSize(h);
  }

  /** How many numbers lie between the first and the last packet, both included. */
  function Span(h: seq<uint64>): int
    requires h != []
  {
    h[|h| - 1] as int - h[0] as int + 1
  }

  /** An in-order lossy stream: nothing is out of order and received plus dropped is the span. */
  lemma InOrderStream(h: seq<uint64>)
    requires h != [] && Bounded(h) && StrictlyIncreasing(h)
    ensures Run(h).outOfOrder == 0
    ensures Run(h).packets + Run(h).rxDropped == Span(h)
  {
    RunClosedForm(h);
    DropsExact(h);
    assert Late(h) == {};
    MaxIsMaximum(h);
  }

  // ----- Order insensitivity

  lemma SameMaximum(a: seq<uint64>, b: seq<uint64>)
    requires a != [] && b != [] && multiset(a) == multiset(b)
    ensures Max(a) == Max(b)
  {
    MaxIsMaximum(a);
    MaxIsMaximum(b);
    assert Max(a) in multiset(a) && Max(b) in multiset(b);
    assert Max(a) in b && Max(b) in a;
  }

  /** Two duplicate-free deliveries of the same packets that both start with the lowest one leave
      the same counters, out-of-order apart. */
  lemma OrderInsensitive(a: seq<uint64>, b: seq<uint64>)
    requires Bounded(a) && multiset(a) == multiset(b)
    requires NoDuplicates(a) && StartsWithMinimum(a) && StartsWithMinimum(b)
    ensures Run(a).(outOfOrder := 0) == Run(b).(outOfOrder := 0)
  {
    assert |a| == |multiset(a)| == |multiset(b)| == |b|;
    SameMembers(a, b);
    SameMaximum(a, b);
    assert Kept(a) == Kept(b);
    KeptAll(a);
    RunClosedForm(a);
    RunClosedForm(b);
    DropsAgainstTruth(a);
    DropsAgainstTruth(b);
    MissingSize(a);
    MissingSize(b);
  }

  lemma SameMembers(a: seq<uint64>, b: seq<uint64>)
    requires multiset(a) == multiset(b)
    ensures forall v :: v in a <==> v in b
    ensures forall i :: 0 <= i < |b| ==> b[i] in a
    ensures StartsWithMinimum(a) && StartsWithMinimum(b) ==> a[0] == b[0]
  {
    forall v ensures v in a <==> v in b {
      assert v in multiset(a) <==> v in multiset(b);
    }
    forall i | 0 <= i < |b| ensures b[i] in a {}
    forall i | 0 <= i < |a| ensures a[i] in b {}
  }

  /** The out-of-order counter does depend on the order. */
  lemma OutOfOrderDependsOnOrder()
    ensures multiset([0, 1, 2]) == multiset([0, 2, 1])
    ensures Run([0, 1, 2]).outOfOrder != Run([0, 2, 1]).outOfOrder
  {
    var a: seq<uint64>, b: seq<uint64> := [0, 1, 2], [0, 2, 1];
    InOrderStream(a);
    RunClosedForm(b);
    assert b[1] >= b[2] && IsLate(b, 2) && 2 in Late(b);
  }
}
