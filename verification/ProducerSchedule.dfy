/**
 The send side: PacketRate packet buffers shared by PacketRate * groups send descriptors, kept in
 flight forever. Sends complete in the order they were posted; each batch of completions is sent
 again with a new sequence number written into the shared buffers.

 Postings are numbered from 0. With g groups, posting s belongs to row Row(s, g), one row per
 sequence number. At least one group is configured.
 */
module ProducerSchedule {
  import opened ModularIndex
  import opened MachineWords
  import opened GroupAccounting
  import opened Demultiplexing

  ghost predicate Buffered(header: seq<uint64>, v: nat)
    requires header != []
  {
    header[Rem(v, |header|)] == v
  }

  /** Of the rows up to last, the buffers hold the numbers of as many as there are buffers. */
  ghost predicate Window(header: seq<uint64>, last: nat)
    requires header != []
  {
    forall v: nat {:trigger Buffered(header, v)} :: v <= last < v + |header| ==> Buffered(header, v)
  }

  lemma WindowMoves(header: seq<uint64>, last: nat, row: uint64)
    requires header != [] && Window(header, last) && last <= row <= last + 1
    ensures Window(header[Rem(row, |header|) := row], row)
  {
    var header' := header[Rem(row, |header|) := row];
    forall v: nat | v <= row < v + |header| ensures Buffered(header', v) {
      if v < row {
        RemsDiffer(v, row, |header|);
        assert Buffered(header, v);
      }
    }
  }

  /** The first sends go to the groups in turn. */
  ghost predicate FirstRound(sends: seq<Event>, g: nat)
    requires 0 < g
  {
    forall s {:trigger sends[s]} :: 0 <= s < |sends| ==> sends[s].group == Rem(s, g)
  }

  /** Resend q, in a batch begun at resend starts[q], goes to the group of its place in the batch. */
  ghost predicate Placed(starts: seq<nat>, resends: seq<Event>, g: nat)
    requires 0 < g && |resends| == |starts|
  {
    forall q {:trigger resends[q]} :: 0 <= q < |starts| ==>
      && starts[q] <= q && resends[q].group == Rem(q - starts[q], g)
      && (starts[q] == q || (q > 0 && starts[q] == starts[q - 1]))
  }

  lemma PlacedNext(starts: seq<nat>, resends: seq<Event>, g: nat, i: nat, e: Event)
    requires 0 < g && |resends| == |starts| && Placed(starts, resends, g)
    requires i <= |starts| && e.group == Rem(i, g)
    requires i == 0 || starts[|starts| - 1] == |starts| - i
    ensures Placed(starts + [|starts| - i], resends + [e], g)
  {
    var starts', resends' := starts + [|starts| - i], resends + [e];
    forall q | 0 <= q < |starts'|
      ensures starts'[q] <= q && resends'[q].group == Rem(q - starts'[q], g)
      ensures starts'[q] == q || (q > 0 && starts'[q] == starts'[q - 1])
    {
      if q < |starts| {
        assert resends'[q] == resends[q];
      }
    }
  }

  /** The counters of a group: packets and bytes of its sends so far, the recorded number one behind,
      the receiver's counters never touched. */
  ghost predicate CountsOf(stats: StatsMap, sends: seq<Event>, j: uint32) {
    var n, gmc := |Substream(sends, j)|, Lookup(stats, j);
    && gmc.packets == n && gmc.bytes == Wrap(EXPECTED_DATA_SIZE * n)
    && gmc.sequence == (if n > 0 then n - 1 else 0)
    && gmc.expectedSequence == 0 && gmc.outOfOrder == 0 && gmc.rxDropped == 0
  }

  /** The producer's GroupStatsUpdate. */
  function RecordSend(m: StatsMap, group: uint32, pktSize: nat): StatsMap {
    var gmc := Lookup(m, group);
    m[group := gmc.(sequence := gmc.packets, packets := Wrap(gmc.packets + 1), bytes := Wrap(gmc.bytes + pktSize))]
  }

  lemma RecordSendCounts(stats: StatsMap, sends: seq<Event>, e: Event, j: uint32)
    requires CountsOf(stats, sends, j) && |sends| + 1 < TWO64
    ensures CountsOf(RecordSend(stats, e.group, EXPECTED_DATA_SIZE), sends + [e], j)
  {
    assert (sends + [e])[..|sends|] == sends;
    WrapSum(EXPECTED_DATA_SIZE * |Substream(sends, j)|, EXPECTED_DATA_SIZE);
  }

  /** The producer's fields and memory, with the history of its sends.
      r packet buffers, g groups, m descriptors, which make r rows of g (ProductIsTable: m is r * g);
      bufferOf[c] is the buffer of descriptor c.
      queue holds the contexts of the sends not yet handled, oldest first. sends and contexts list
      all postings so far; starts[q] is the number of resends before the batch of resend q. */
  datatype Sender = Sender(r: nat, g: uint32, m: nat, bufferOf: seq<nat>, header: seq<uint64>, queue: seq<nat>,
                           sequenceNumber: uint64, groupCounter: nat, totalPkts: uint32, groupStats: StatsMap,
                           sends: seq<Event>, contexts: seq<nat>, starts: seq<nat>)
  {
    predicate InBounds() {
      && 0 < r && 0 < g && |header| == r && |bufferOf| == m
      && (forall c :: 0 <= c < |queue| ==> queue[c] < m)
      && (forall c :: 0 <= c < m ==> bufferOf[c] < r)
      && groupCounter < g
    }

    ghost predicate Sized() {
      0 < r && 0 < g && 0 < m && |sends| == |contexts| == m + |starts| < TWO64
    }

    /** Sequence number and group counter count the sends like an odometer with g digits. */
    ghost predicate Odometer()
      requires Sized()
    {
      sequenceNumber == Row(|sends|, g) && groupCounter == Rem(|sends|, g)
    }

    ghost predicate Totalled() {
      totalPkts == Wrap32(|sends|)
    }

    /** Descriptors are used in turn; sends complete in the order they were posted. */
    ghost predicate InTurn()
      requires Sized()
    {
      && Table(m, r, g)
      && |bufferOf| == m && (forall c {:trigger bufferOf[c]} :: 0 <= c < m ==> bufferOf[c] == Row(c, g))
      && (forall s {:trigger contexts[s]} :: 0 <= s < |contexts| ==> contexts[s] == Rem(s, m))
      && queue == contexts[|starts|..]
    }

    /** Every posting carries the number of its row. */
    ghost predicate Numbered()
      requires Sized()
    {
      forall s {:trigger sends[s]} :: 0 <= s < |sends| ==> sends[s].seqNo == Row(s, g)
    }

    /** The buffers hold the numbers of the last r rows begun. */
    ghost predicate HeadersKept()
      requires Sized()
    {
      |header| == r && Window(header, Row(|sends| - 1, g))
    }

    /** The first m sends go to the groups in turn; a resend goes to the group of its place in its batch. */
    ghost predicate Addressed()
      requires Sized()
    {
      FirstRound(sends[..m], g) && Placed(starts, sends[m..], g)
    }

    /** Where and with which number each posting was made, and what the buffers hold. */
    ghost predicate Scheduled()
      ensures Scheduled() ==> Sized()
    {
      InBounds() && Sized() && InTurn() && Numbered() && HeadersKept()
    }

    ghost predicate Recorded() {
      forall j: uint32 :: CountsOf(groupStats, sends, j)
    }

    ghost predicate Valid() {
      && InBounds() && Sized() && Odometer() && Totalled()
      && InTurn() && Numbered() && HeadersKept() && Addressed() && Recorded()
    }
  }

  /** The completion loop's body for result i of a batch. */
  function Resend(p: Sender, i: nat): Sender
    requires p.InBounds() && p.queue != [] && i <= |p.starts|
  {
    var c := p.queue[0];
    var group := Rem(i, p.g);
    var last := p.groupCounter + 1 == p.g;
    p.(header := p.header[p.bufferOf[c] := p.sequenceNumber],
       queue := p.queue[1..] + [c],
       groupStats := RecordSend(p.groupStats, group, EXPECTED_DATA_SIZE),
       totalPkts := Wrap32(p.totalPkts + 1),
       groupCounter := if last then 0 else p.groupCounter + 1,
       sequenceNumber := if last then Wrap(p.sequenceNumber + 1) else p.sequenceNumber,
       sends := p.sends + [Event(group, p.sequenceNumber)],
       contexts := p.contexts + [c],
       starts := p.starts + [|p.starts| - i])
  }

  lemma ResendSized(p: Sender, i: nat)
    requires p.InBounds() && p.Sized() && p.Odometer() && i <= |p.starts| && p.queue != []
    requires |p.sends| + 1 < TWO64
    ensures Resend(p, i).InBounds() && Resend(p, i).Sized() && Resend(p, i).Odometer()
  {
    NextCell(|p.sends|, p.g);
  }

  lemma ResendTotalled(p: Sender, i: nat)
    requires p.InBounds() && p.Totalled() && i <= |p.starts| && p.queue != []
    ensures Resend(p, i).Totalled()
  {
    CountedOnce(|p.sends|);
  }

  lemma OldestContext(p: Sender)
    requires p.Sized() && p.Odometer() && p.InTurn()
    ensures |p.queue| == p.m && p.queue[0] == Rem(|p.sends|, p.m)
    ensures p.bufferOf[p.queue[0]] == Rem(p.sequenceNumber, p.r)
  {
    assert p.queue[0] == p.contexts[|p.starts|];
    RowAroundTable(|p.sends|, p.m, p.r, p.g);
  }

  lemma ResendInTurn(p: Sender, i: nat)
    requires p.InBounds() && p.Sized() && p.Odometer() && p.InTurn() && i <= |p.starts| && p.queue != []
    requires Resend(p, i).Sized()
    ensures Resend(p, i).InTurn()
  {
    OldestContext(p);
    var c := p.queue[0];
    assert (p.contexts + [c])[|p.starts| + 1..] == p.contexts[|p.starts|..][1..] + [c];
  }

  lemma ResendHeaders(p: Sender, i: nat)
    requires p.InBounds() && p.Sized() && p.Odometer() && p.InTurn() && p.HeadersKept()
    requires i <= |p.starts| && p.queue != [] && Resend(p, i).Sized()
    ensures Resend(p, i).HeadersKept()
  {
    OldestContext(p);
    NextCell(|p.sends| - 1, p.g);
    WindowMoves(p.header, Row(|p.sends| - 1, p.g), p.sequenceNumber);
  }

  lemma SplitSnoc(sends: seq<Event>, e: Event, m: nat)
    requires m <= |sends|
    ensures (sends + [e])[m..] == sends[m..] + [e] && (sends + [e])[..m] == sends[..m]
  {
  }

  lemma ResendAddressed(p: Sender, i: nat)
    requires p.InBounds() && p.Sized() && p.Addressed() && i <= |p.starts| && p.queue != []
    requires i == 0 || p.starts[|p.starts| - 1] == |p.starts| - i
    requires Resend(p, i).Sized()
    ensures Resend(p, i).Addressed()
  {
    var e := Event(Rem(i, p.g), p.sequenceNumber);
    SplitSnoc(p.sends, e, p.m);
    PlacedNext(p.starts, p.sends[p.m..], p.g, i, e);
  }

  lemma ResendRecorded(p: Sender, i: nat)
    requires p.InBounds() && p.Recorded() && i <= |p.starts| && p.queue != [] && |p.sends| + 1 < TWO64
    ensures Resend(p, i).Recorded()
  {
    forall j: uint32 ensures CountsOf(Resend(p, i).groupStats, Resend(p, i).sends, j) {
      RecordSendCounts(p.groupStats, p.sends, Event(Rem(i, p.g), p.sequenceNumber), j);
    }
  }

  /** Every resend keeps the schedule, whatever the batch it belongs to. */
  lemma ResendValid(p: Sender, i: nat)
    requires p.Valid() && i <= |p.starts| && |p.sends| + 1 < TWO64
    requires i == 0 || p.starts[|p.starts| - 1] == |p.starts| - i
    ensures p.queue != [] && Resend(p, i).Valid()
  {
    OldestContext(p);
    ResendSized(p, i);
    assert Resend(p, i).Totalled() by { ResendTotalled(p, i); }
    assert Resend(p, i).InTurn() by { ResendInTurn(p, i); }
    assert Resend(p, i).HeadersKept() by { ResendHeaders(p, i); }
    assert Resend(p, i).Addressed() by { ResendAddressed(p, i); }
    assert Resend(p, i).Recorded() by { ResendRecorded(p, i); }
  }

  /** The sends of PostFirstSend. */
  function FirstSends(g: uint32, m: nat): seq<Event>
    requires 0 < g && m < TWO64
  {
    seq(m, s requires 0 <= s < m => Event(Rem(s, g), Row(s, g)))
  }

  function Upto(n: nat): seq<nat> {
    seq(n, i requires 0 <= i < n => i)
  }

  function RecordAll(stats: StatsMap, sends: seq<Event>): StatsMap {
    if sends == [] then stats
    else RecordSend(RecordAll(stats, sends[..|sends| - 1]), sends[|sends| - 1].group, EXPECTED_DATA_SIZE)
  }

  function FirstBuffers(g: nat, m: nat): seq<nat>
    requires 0 < g
  {
    seq(m, c requires 0 <= c < m => Row(c, g))
  }

  function FirstHeaders(r: nat): seq<uint64>
    requires r <= TWO64
  {
    seq(r, i requires 0 <= i < r => i)
  }

  /** The producer once PostFirstSend is done. */
  function Initial(r: nat, g: uint32, m: nat, stats: StatsMap): Sender
    requires 0 < g && Table(m, r, g) && m < TWO64
  {
    Sender(r, g, m, FirstBuffers(g, m), FirstHeaders(r), Upto(m), r, 0, Wrap32(m),
           RecordAll(stats, FirstSends(g, m)), FirstSends(g, m), Upto(m), [])
  }

  lemma {:induction false} RecordAllCounts(stats: StatsMap, sends: seq<Event>, j: uint32)
    requires AllZero(stats) && |sends| < TWO64
    ensures CountsOf(RecordAll(stats, sends), sends, j)
  {
    if sends != [] {
      var n := |sends| - 1;
      RecordAllCounts(stats, sends[..n], j);
      RecordSendCounts(RecordAll(stats, sends[..n]), sends[..n], sends[n], j);
      assert sends[..n] + [sends[n]] == sends;
    }
  }

  lemma InitialValid(r: nat, g: uint32, m: nat, stats: StatsMap)
    requires 0 < r && 0 < g && Table(m, r, g) && m < TWO64 && AllZero(stats)
    ensures Initial(r, g, m, stats).Valid()
  {
    var p := Initial(r, g, m, stats);
    InitialRows(r, g, m);
    InitialHeaders(r, g, m, p.header);
    assert p.sends[..m] == p.sends && p.sends[m..] == [];
    assert p.contexts[0..] == p.contexts;
    forall j: uint32 ensures CountsOf(p.groupStats, p.sends, j) {
      RecordAllCounts(stats, p.sends, j);
    }
  }

  lemma InitialRows(r: nat, g: nat, m: nat)
    requires 0 < r && 0 < g && Table(m, r, g)
    ensures 0 < m && r <= m && Row(m, g) == r && Rem(m, g) == 0
    ensures forall c :: 0 <= c < m ==> Row(c, g) < r
  {
    forall c | 0 <= c < m ensures Row(c, g) < r {
      RowBelow(c, m, r, g);
    }
  }

  lemma InitialHeaders(r: nat, g: nat, m: nat, header: seq<uint64>)
    requires 0 < r && 0 < g && Table(m, r, g) && m > 0 && |header| == r
    requires forall i :: 0 <= i < r ==> header[i] == i
    ensures Window(header, Row(m - 1, g))
  {
    RowBelow(m - 1, m, r, g);
    forall v: nat | v <= Row(m - 1, g) < v + r ensures Buffered(header, v) {}
  }

  // ----- Batches

  ghost function Resent(p: Sender, i: nat): (p': Sender)
    requires p.Valid() && i <= |p.starts| && |p.sends| + 1 < TWO64
    requires i == 0 || p.starts[|p.starts| - 1] == |p.starts| - i
    ensures p.queue != [] && p' == Resend(p, i) && p'.Valid()
  {
    ResendValid(p, i);
    Resend(p, i)
  }

  function Repeat(start: nat, n: nat): (r: seq<nat>)
    ensures |r| == n && forall i :: 0 <= i < n ==> r[i] == start
  {
    seq(n, _ => start)
  }

  /** One batch of n completions, sent again in order. */
  ghost function Batch(p: Sender, n: nat): (p': Sender)
    requires p.Valid() && |p.sends| + n < TWO64
    ensures p'.Valid() && |p'.sends| == |p.sends| + n && p'.starts == p.starts + Repeat(|p.starts|, n)
    ensures p'.r == p.r && p'.g == p.g && p'.m == p.m
    decreases n
  {
    if n == 0 then p else Resent(Batch(p, n - 1), n - 1)
  }

  function Total(batches: seq<nat>): nat {
    if batches == [] then 0 else Total(batches[..|batches| - 1]) + batches[|batches| - 1]
  }

  lemma {:induction false} TotalGrows(batches: seq<nat>, k: nat)
    requires k <= |batches|
    ensures Total(batches[..k]) <= Total(batches)
    decreases |batches|
  {
    if k == |batches| {
      assert batches[..k] == batches;
    } else {
      var p := batches[..|batches| - 1];
      assert batches[..k] == p[..k];
      TotalGrows(p, k);
    }
  }

  /** For each resend, the number of resends before its batch. */
  function StartsOf(batches: seq<nat>): (r: seq<nat>)
    ensures |r| == Total(batches)
  {
    if batches == [] then []
    else
      var before := batches[..|batches| - 1];
      StartsOf(before) + Repeat(Total(before), batches[|batches| - 1])
  }

  ghost function Batches(p: Sender, batches: seq<nat>): (p': Sender)
    requires p.Valid() && |p.sends| + Total(batches) < TWO64
    ensures p'.Valid() && |p'.sends| == |p.sends| + Total(batches)
    ensures p.starts == [] ==> p'.starts == StartsOf(batches)
    ensures p'.r == p.r && p'.g == p.g && p'.m == p.m
  {
    if batches == [] then p
    else Batch(Batches(p, batches[..|batches| - 1]), batches[|batches| - 1])
  }

  /** The two counters are the quotient and the remainder of the number of resends. */
  lemma OdometerReads(p: Sender)
    requires p.Sized() && p.Odometer() && Table(p.m, p.r, p.g)
    ensures p.sequenceNumber == p.r + |p.starts| / p.g
    ensures p.groupCounter == |p.starts| % p.g
  {
    RemIsMod(|p.starts|, p.g);
    RowIsQuotient(|p.starts|, p.g);
    SkipRows(|p.starts|, p.m, p.r, p.g);
  }

  ghost predicate SentOnce(sends: seq<Event>, m: nat, e: Event)
    requires m <= |sends|
  {
    && (exists s :: 0 <= s < m && sends[s] == e)
    && (forall s, t :: 0 <= s < t < m && sends[s] == e ==> sends[t] != e)
  }

  /** PostFirstSend sends every packet to every group, exactly once. */
  lemma EveryPairOnce(p: Sender, packet: uint64, group: uint32)
    requires p.Sized() && p.Numbered() && FirstRound(p.sends[..p.m], p.g) && Table(p.m, p.r, p.g)
    requires packet < p.r && group < p.g
    ensures SentOnce(p.sends, p.m, Event(group, packet))
  {
    forall s | 0 <= s < p.m ensures p.sends[s] == Event(Rem(s, p.g), Row(s, p.g)) {
      assert p.sends[..p.m][s] == p.sends[s];
    }
    var s := CellExists(packet, group, p.m, p.r, p.g);
    assert p.sends[s] == Event(group, packet);
    forall s, t | 0 <= s < t < p.m && p.sends[s] == Event(group, packet)
      ensures p.sends[t] != Event(group, packet)
    {
      CellUnique(s, t, p.g);
    }
  }

  // ----- Payload stability

  /** The number in the buffer of posting s: the one that goes out if the buffer is read now. */
  ghost function NumberNow(p: Sender, s: nat): uint64
    requires p.Scheduled() && s < |p.sends|
  {
    p.header[p.bufferOf[p.contexts[s]]]
  }

  /** The buffer of posting s still holds the number the posting was made with. */
  ghost predicate Intact(p: Sender, s: nat)
    requires p.Scheduled() && s < |p.sends|
  {
    NumberNow(p, s) == p.sends[s].seqNo
  }

  /** The last row up to last that uses the same buffer as v. */
  function LatestSharing(v: nat, r: nat, last: nat): (w: nat)
    requires 0 < r && v <= last
    ensures v <= w <= last < w + r && Rem(w, r) == Rem(v, r)
    decreases last - v
  {
    if last < v + r then v else LatestSharing(v + r, r, last)
  }

  lemma WindowHolds(header: seq<uint64>, last: nat, row: nat)
    requires header != [] && Window(header, last) && row <= last
    ensures header[Rem(row, |header|)] == row <==> last < row + |header|
  {
    assert Buffered(header, LatestSharing(row, |header|, last));
  }

  lemma BufferOfPosting(p: Sender, s: nat)
    requires p.Sized() && p.InTurn() && s < |p.sends|
    ensures p.bufferOf[p.contexts[s]] == Rem(Row(s, p.g), p.r)
  {
    RowAroundTable(s, p.m, p.r, p.g);
  }

  lemma IntactIff(p: Sender, s: nat)
    requires p.Scheduled() && s < |p.sends|
    ensures Intact(p, s) <==> Row(|p.sends| - 1, p.g) < Row(s, p.g) + p.r
  {
    BufferOfPosting(p, s);
    RowsMonotone(s, |p.sends| - 1, p.g);
    WindowHolds(p.header, Row(|p.sends| - 1, p.g), Row(s, p.g));
  }

  ghost predicate AllIntactFrom(p: Sender, first: nat)
    requires p.Scheduled()
  {
    forall s :: first <= s < |p.sends| ==> Intact(p, s)
  }

  /** With dequeued completions handed out so far, |starts| of them sent again, the sends still in
      flight are the postings from number dequeued on. Their payloads are all intact exactly if the
      last resend belongs to an earlier row than the first send in flight. */
  lemma InFlightIntact(p: Sender, dequeued: nat)
    requires p.Scheduled()
    requires |p.starts| <= dequeued < |p.sends|
    ensures AllIntactFrom(p, dequeued)
       <==> |p.starts| == 0 || Row(|p.starts| - 1, p.g) < Row(dequeued, p.g)
  {
    RowsOfPostings(p, dequeued);
    forall s | dequeued <= s < |p.sends|
      ensures Intact(p, s) <==> Row(|p.sends| - 1, p.g) < Row(s, p.g) + p.r
      ensures Row(dequeued, p.g) <= Row(s, p.g)
    {
      IntactIff(p, s);
      RowsMonotone(dequeued, s, p.g);
    }
    assert Intact(p, dequeued) <==> Row(|p.sends| - 1, p.g) < Row(dequeued, p.g) + p.r;
  }

  lemma RowsOfPostings(p: Sender, dequeued: nat)
    requires p.Sized() && Table(p.m, p.r, p.g)
    ensures |p.starts| > 0 ==> Row(|p.sends| - 1, p.g) == Row(|p.starts| - 1, p.g) + p.r
    ensures |p.starts| == 0 ==> Row(|p.sends| - 1, p.g) < Row(dequeued, p.g) + p.r
  {
    if |p.starts| > 0 {
      SkipRows(|p.starts| - 1, p.m, p.r, p.g);
    } else {
      RowBelow(p.m - 1, p.m, p.r, p.g);
    }
  }

  /** Between batches the payloads in flight are intact exactly if the number of resends is a
      multiple of the number of groups. */
  lemma IntactBetweenBatches(p: Sender)
    requires p.Scheduled()
    ensures AllIntactFrom(p, |p.starts|) <==> |p.starts| % p.g == 0
  {
    RemIsMod(|p.starts|, p.g);
    InFlightIntact(p, |p.starts|);
    RowStartsAt(|p.starts|, |p.starts|, p.g);
  }

  /** Within a batch that ends on a multiple of the number of groups they are intact throughout. */
  lemma IntactWithinAlignedBatch(p: Sender, dequeued: nat)
    requires p.Scheduled()
    requires |p.starts| <= dequeued < |p.sends| && dequeued % p.g == 0
    ensures AllIntactFrom(p, dequeued)
  {
    RemIsMod(dequeued, p.g);
    InFlightIntact(p, dequeued);
    RowStartsAt(|p.starts|, dequeued, p.g);
  }

  lemma RowStartsAt(q: nat, d: nat, g: nat)
    requires 0 < g && q <= d
    ensures Rem(d, g) == 0 ==> q == 0 || Row(q - 1, g) < Row(d, g)
    ensures q == d ==> ((q == 0 || Row(q - 1, g) < Row(d, g)) <==> Rem(d, g) == 0)
  {
    if q > 0 {
      RowStart(d, g);
      RowsMonotone(q - 1, d - 1, g);
    }
  }

  // ----- The stream of each group

  /** The numbers 0, 1, 2, ... without gap or repetition. */
  ghost predicate Gapless(h: seq<uint64>) {
    forall i :: 0 <= i < |h| ==> h[i] == i
  }

  /** Posting s goes to group Rem(s, g) with the number of its row. */
  ghost predicate Aligned(sends: seq<Event>, g: nat)
    requires 0 < g
  {
    forall s {:trigger sends[s]} :: 0 <= s < |sends| ==> sends[s].group == Rem(s, g) && sends[s].seqNo == Row(s, g)
  }

  lemma {:induction false} AlignedStream(sends: seq<Event>, g: nat, j: uint32)
    requires j < g && Aligned(sends, g)
    ensures |Substream(sends, j)| == Row(|sends|, g) + if j < Rem(|sends|, g) then 1 else 0
    ensures Gapless(Substream(sends, j))
  {
    if sends != [] {
      var n := |sends| - 1;
      AlignedStream(sends[..n], g, j);
      NextCell(n, g);
    }
  }

  lemma {:induction false} SubstreamPrefix(sends: seq<Event>, k: nat, j: uint32)
    requires k <= |sends|
    ensures Substream(sends[..k], j) <= Substream(sends, j)
    decreases |sends|
  {
    if k == |sends| {
      assert sends[..k] == sends;
    } else {
      var p := sends[..|sends| - 1];
      assert sends[..k] == p[..k];
      SubstreamPrefix(p, k, j);
    }
  }

  lemma {:induction false} RemDifference(q: nat, start: nat, g: nat)
    requires 0 < g && start <= q && Rem(start, g) == 0
    ensures Rem(q - start, g) == Rem(q, g)
  {
    if g <= start {
      RemDifference(q - g, start - g, g);
    }
  }

  ghost predicate AlignedStarts(starts: seq<nat>, g: nat)
    requires 0 < g
  {
    forall q :: 0 <= q < |starts| ==> Rem(starts[q], g) == 0
  }

  /** As long as batches start on multiples of the number of groups, all is aligned. */
  lemma AlignedUntil(p: Sender, q: nat)
    requires p.Sized() && p.Numbered() && p.Addressed() && Table(p.m, p.r, p.g) && q <= |p.starts|
    requires AlignedStarts(p.starts[..q], p.g)
    ensures Aligned(p.sends[..p.m + q], p.g)
  {
    forall s | 0 <= s < p.m + q ensures p.sends[s].group == Rem(s, p.g) {
      if s < p.m {
        assert p.sends[..p.m][s] == p.sends[s];
      } else {
        assert p.starts[..q][s - p.m] == p.starts[s - p.m];
        ResendGroup(p, s - p.m);
      }
    }
  }

  lemma ResendGroup(p: Sender, k: nat)
    requires p.Sized() && p.Addressed() && Table(p.m, p.r, p.g)
    requires k < |p.starts| && Rem(p.starts[k], p.g) == 0
    ensures p.sends[p.m + k].group == Rem(p.m + k, p.g)
  {
    assert p.sends[p.m..][k] == p.sends[p.m + k];
    RemDifference(k, p.starts[k], p.g);
    SkipRows(k, p.m, p.r, p.g);
  }

  /** A batch that starts off a multiple sends group 0 a number it has already been sent. */
  lemma MisalignedRepeats(p: Sender, b: nat)
    requires p.Sized() && p.Numbered() && p.Addressed() && Table(p.m, p.r, p.g)
    requires b < |p.starts| && p.starts[b] == b && Rem(b, p.g) != 0
    requires AlignedStarts(p.starts[..b], p.g)
    ensures !Gapless(Substream(p.sends, 0))
  {
    AlignedUntil(p, b);
    RestartsAtGroupZero(p, b);
    RepeatedNumber(p.sends, p.m + b, p.g);
  }

  lemma RestartsAtGroupZero(p: Sender, b: nat)
    requires p.Sized() && p.Numbered() && p.Addressed() && Table(p.m, p.r, p.g)
    requires b < |p.starts| && p.starts[b] == b
    ensures p.sends[p.m + b] == Event(0, Row(p.m + b, p.g))
    ensures Rem(p.m + b, p.g) == Rem(b, p.g)
  {
    assert p.sends[p.m..][b] == p.sends[p.m + b];
    SkipRows(b, p.m, p.r, p.g);
  }

  lemma RepeatedNumber(sends: seq<Event>, k: nat, g: nat)
    requires 0 < g && k < |sends| < TWO64 && Aligned(sends[..k], g)
    requires Rem(k, g) != 0 && sends[k] == Event(0, Row(k, g))
    ensures !Gapless(Substream(sends, 0))
  {
    var before, until := sends[..k], sends[..k + 1];
    AlignedStream(before, g, 0);
    assert until[..k] == before;
    var n := |Substream(before, 0)|;
    assert Substream(until, 0)[n] == n - 1;
    SubstreamPrefix(sends, k + 1, 0);
    assert Substream(sends, 0)[n] == n - 1;
  }

  lemma FirstMisaligned(starts: seq<nat>, g: nat, q: nat) returns (b: nat)
    requires 0 < g && q < |starts| && Rem(starts[q], g) != 0
    ensures b <= q && Rem(starts[b], g) != 0 && AlignedStarts(starts[..b], g)
  {
    if k :| 0 <= k < q && Rem(starts[k], g) != 0 {
      b := FirstMisaligned(starts, g, k);
    } else {
      b := q;
    }
  }

  ghost predicate EveryStreamGapless(p: Sender) {
    forall j: uint32 :: j < p.g ==> Gapless(Substream(p.sends, j))
  }

  /** Every group is posted 0, 1, 2, ... exactly if every batch starts on a multiple of the number of
      groups. */
  lemma GaplessIff(p: Sender)
    requires p.Sized() && p.Numbered() && p.Addressed() && Table(p.m, p.r, p.g)
    ensures EveryStreamGapless(p) <==> AlignedStarts(p.starts, p.g)
  {
    if AlignedStarts(p.starts, p.g) {
      AllAligned(p);
      forall j: uint32 | j < p.g ensures Gapless(Substream(p.sends, j)) {
        AlignedStream(p.sends, p.g, j);
      }
    } else {
      var k :| 0 <= k < |p.starts| && Rem(p.starts[k], p.g) != 0;
      var b := FirstMisaligned(p.starts, p.g, k);
      assert p.sends[p.m..][b] == p.sends[p.m + b];
      assert b > 0 ==> p.starts[..b][b - 1] == p.starts[b - 1];
      MisalignedRepeats(p, b);
    }
  }

  /** Then the number recorded for a group is the last one posted to it. */
  lemma RecordedIsLastSent(p: Sender, j: uint32)
    requires p.Recorded() && Gapless(Substream(p.sends, j)) && Substream(p.sends, j) != []
    ensures Lookup(p.groupStats, j).packets == |Substream(p.sends, j)|
    ensures Lookup(p.groupStats, j).bytes == Wrap(EXPECTED_DATA_SIZE * |Substream(p.sends, j)|)
    ensures Lookup(p.groupStats, j).sequence == Substream(p.sends, j)[|Substream(p.sends, j)| - 1]
  {
    assert CountsOf(p.groupStats, p.sends, j);
  }

  // ----- Every run

  /** The producer's configuration, its groups' counters at the start and the sizes of its batches. */
  datatype Plan = Plan(r: nat, g: uint32, m: nat, stats: StatsMap, batches: seq<nat>) {
    ghost predicate Valid() {
      0 < r && 0 < g && Table(m, r, g) && m + Total(batches) < TWO64 && AllZero(stats)
    }
  }

  /** The producer after PostFirstSend and the batches of the plan. */
  ghost function Run(plan: Plan): (p: Sender)
    requires plan.Valid()
    ensures p.Valid() && p.r == plan.r && p.g == plan.g && p.m == plan.m && p.starts == StartsOf(plan.batches)
    ensures p.Scheduled() && |p.sends| == plan.m + Total(plan.batches)
  {
    InitialValid(plan.r, plan.g, plan.m, plan.stats);
    Batches(Initial(plan.r, plan.g, plan.m, plan.stats), plan.batches)
  }

  /** Every batch is a multiple of the number of groups. */
  ghost predicate AlignedSizes(batches: seq<nat>, g: nat)
    requires 0 < g
  {
    forall k :: 0 <= k < |batches| ==> batches[k] % g == 0
  }

  /** Every batch that sends anything starts on a multiple of the number of groups: the last one may
      have any size. */
  ghost predicate AlignedBatches(batches: seq<nat>, g: nat)
    requires 0 < g
  {
    forall k {:trigger batches[k]} :: 0 <= k < |batches| && batches[k] > 0 ==> Total(batches[..k]) % g == 0
  }

  lemma {:induction false} AlignedStartsOfBatches(batches: seq<nat>, g: nat)
    requires 0 < g
    ensures AlignedStarts(StartsOf(batches), g) <==> AlignedBatches(batches, g)
  {
    if batches != [] {
      var n := |batches| - 1;
      var before := batches[..n];
      AlignedStartsOfBatches(before, g);
      forall k | 0 <= k < n ensures before[k] == batches[k] && before[..k] == batches[..k] {}
      assert AlignedBatches(batches, g) <==>
        AlignedBatches(before, g) && (batches[n] == 0 || Total(before) % g == 0);
      RemIsMod(Total(before), g);
      AlignedAppend(StartsOf(before), Total(before), batches[n], g);
    }
  }

  lemma AlignedAppend(starts: seq<nat>, start: nat, n: nat, g: nat)
    requires 0 < g
    ensures AlignedStarts(starts + Repeat(start, n), g)
       <==> AlignedStarts(starts, g) && (n == 0 || Rem(start, g) == 0)
  {
    var all := starts + Repeat(start, n);
    assert forall q :: 0 <= q < |starts| ==> all[q] == starts[q];
    if n > 0 {
      assert all[|starts|] == start;
    }
  }

  lemma {:induction false} RemSum(a: nat, b: nat, g: nat)
    requires 0 < g && Rem(a, g) == 0
    ensures Rem(a + b, g) == Rem(b, g)
  {
    if g <= a {
      RemSum(a - g, b, g);
    }
  }

  lemma TotalNext(batches: seq<nat>, k: nat)
    requires k < |batches|
    ensures Total(batches[..k + 1]) == Total(batches[..k]) + batches[k]
  {
    assert batches[..k + 1][..k] == batches[..k];
  }

  lemma TotalSnoc(batches: seq<nat>, n: nat)
    ensures Total(batches + [n]) == Total(batches) + n
  {
    assert (batches + [n])[..|batches|] == batches;
  }

  /** Batches that are multiples themselves end on multiples. */
  lemma {:induction false} AlignedTotal(batches: seq<nat>, g: nat, k: nat)
    requires 0 < g && k <= |batches| && AlignedSizes(batches[..k], g)
    ensures Rem(Total(batches[..k]), g) == 0
  {
    if k > 0 {
      assert forall i :: 0 <= i < k - 1 ==> batches[..k][i] == batches[..k - 1][i];
      AlignedTotal(batches, g, k - 1);
      TotalNext(batches, k - 1);
      assert batches[..k][k - 1] == batches[k - 1];
      RemIsMod(batches[k - 1], g);
      RemSum(Total(batches[..k - 1]), batches[k - 1], g);
    }
  }

  lemma AlignedSizesStart(batches: seq<nat>, g: nat)
    requires 0 < g && AlignedSizes(batches, g)
    ensures AlignedBatches(batches, g)
  {
    forall k | 0 <= k < |batches| ensures Total(batches[..k]) % g == 0 {
      AlignedTotal(batches, g, k);
      RemIsMod(Total(batches[..k]), g);
    }
  }

  /** A moment of a run: whole batches sent again, and some results of the next one. */
  datatype Moment = Moment(batch: nat, resent: nat)

  predicate Occurs(batches: seq<nat>, t: Moment) {
    t.batch <= |batches| && t.resent <= if t.batch < |batches| then batches[t.batch] else 0
  }

  /** The completions certainly dequeued: once a batch has begun to be sent again, all of it. */
  function Dequeued(batches: seq<nat>, t: Moment): nat
    requires Occurs(batches, t)
  {
    Total(batches[..if t.resent == 0 then t.batch else t.batch + 1])
  }

  lemma MomentTotals(batches: seq<nat>, t: Moment)
    requires Occurs(batches, t)
    ensures Total(batches[..t.batch] + [t.resent]) == Total(batches[..t.batch]) + t.resent
    ensures Total(batches[..t.batch]) + t.resent <= Dequeued(batches, t) <= Total(batches)
    ensures t.batch < |batches| && t.resent == batches[t.batch] ==>
              Dequeued(batches, t) == Total(batches[..t.batch]) + t.resent
  {
    hide Total;
    TotalSnoc(batches[..t.batch], t.resent);
    TotalGrows(batches, t.batch);
    if t.resent > 0 {
      TotalNext(batches, t.batch);
      TotalGrows(batches, t.batch + 1);
    }
  }

  /** The producer at a moment of the run. */
  ghost function At(plan: Plan, t: Moment): (p: Sender)
    requires plan.Valid() && Occurs(plan.batches, t)
    ensures p.Scheduled() && p.r == plan.r && p.g == plan.g && p.m == plan.m
    ensures |p.starts| == Total(plan.batches[..t.batch]) + t.resent <= Dequeued(plan.batches, t)
    ensures |p.sends| == plan.m + |p.starts|
  {
    MomentTotals(plan.batches, t);
    Run(plan.(batches := plan.batches[..t.batch] + [t.resent]))
  }

  /** Every payload that may still be transmitted is the one that was posted. */
  ghost predicate StableAt(plan: Plan, t: Moment)
    requires plan.Valid() && Occurs(plan.batches, t)
  {
    AllIntactFrom(At(plan, t), Dequeued(plan.batches, t))
  }

  ghost predicate Stable(plan: Plan)
    requires plan.Valid()
  {
    forall t: Moment :: Occurs(plan.batches, t) ==> StableAt(plan, t)
  }

  lemma StableWhere(plan: Plan, t: Moment)
    requires plan.Valid() && Occurs(plan.batches, t) && Dequeued(plan.batches, t) % plan.g == 0
    ensures StableAt(plan, t)
  {
    hide Sender.Scheduled;
    var p, dequeued := At(plan, t), Dequeued(plan.batches, t);
    if dequeued < |p.sends| {
      IntactWithinAlignedBatch(p, dequeued);
    }
  }

  lemma FirstMisalignedSize(batches: seq<nat>, g: nat, n: nat) returns (k: nat)
    requires 0 < g && n < |batches| && batches[n] % g != 0
    ensures k <= n && batches[k] % g != 0 && AlignedSizes(batches[..k], g)
  {
    if i :| 0 <= i < n && batches[i] % g != 0 {
      k := FirstMisalignedSize(batches, g, i);
    } else {
      k := n;
    }
  }

  /** The end of the first batch that is no multiple. */
  lemma MisalignedEnd(batches: seq<nat>, g: nat, k: nat)
    requires 0 < g && k < |batches| && batches[k] % g != 0 && AlignedSizes(batches[..k], g)
    ensures Occurs(batches, Moment(k, batches[k])) && batches[k] > 0
    ensures Dequeued(batches, Moment(k, batches[k])) == Total(batches[..k]) + batches[k] <= Total(batches)
    ensures (Total(batches[..k]) + batches[k]) % g != 0
    ensures Rem(Total(batches[..k]) + batches[k], g) != 0
    ensures AlignedBatches(batches[..k + 1], g)
  {
    MomentTotals(batches, Moment(k, batches[k]));
    RemIsMod(0, g);
    RemIsMod(batches[k], g);
    AlignedTotal(batches, g, k);
    RemSum(Total(batches[..k]), batches[k], g);
    RemIsMod(Total(batches[..k]) + batches[k], g);
    AlignedUpTo(batches, g, k);
  }

  lemma AlignedUpTo(batches: seq<nat>, g: nat, k: nat)
    requires 0 < g && k < |batches| && AlignedSizes(batches[..k], g)
    ensures AlignedBatches(batches[..k + 1], g)
  {
    hide Total;
    forall i {:trigger batches[..k + 1][i]} | 0 <= i < k + 1 ensures Total(batches[..k + 1][..i]) % g == 0 {
      assert batches[..k + 1][..i] == batches[..i];
      assert forall j :: 0 <= j < i ==> batches[..k][j] == batches[..i][j];
      AlignedTotal(batches, g, i);
      RemIsMod(Total(batches[..i]), g);
    }
  }

  /** At every moment of the run, in the middle of batches too, the payloads in flight are intact
      exactly if every batch is a multiple of the number of groups. */
  lemma StableIff(plan: Plan)
    requires plan.Valid()
    ensures Stable(plan) <==> AlignedSizes(plan.batches, plan.g)
  {
    if AlignedSizes(plan.batches, plan.g) {
      forall t: Moment | Occurs(plan.batches, t) ensures StableAt(plan, t) {
        AlignedDequeued(plan.batches, plan.g, t);
        StableWhere(plan, t);
      }
    } else {
      MisalignedUnstable(plan);
    }
  }

  lemma AlignedDequeued(batches: seq<nat>, g: nat, t: Moment)
    requires 0 < g && AlignedSizes(batches, g) && Occurs(batches, t)
    ensures Dequeued(batches, t) % g == 0
  {
    AlignedTotal(batches, g, if t.resent == 0 then t.batch else t.batch + 1);
    RemIsMod(Dequeued(batches, t), g);
  }

  lemma MisalignedUnstable(plan: Plan)
    requires plan.Valid() && !AlignedSizes(plan.batches, plan.g)
    ensures !Stable(plan)
  {
    var n :| 0 <= n < |plan.batches| && plan.batches[n] % plan.g != 0;
    var k := FirstMisalignedSize(plan.batches, plan.g, n);
    var t := Moment(k, plan.batches[k]);
    MisalignedEnd(plan.batches, plan.g, k);
    UnstableAt(plan, t);
  }

  /** A moment right after a batch that ended off a multiple. */
  lemma UnstableAt(plan: Plan, t: Moment)
    requires plan.Valid() && Occurs(plan.batches, t) && Dequeued(plan.batches, t) % plan.g != 0
    requires Dequeued(plan.batches, t) == Total(plan.batches[..t.batch]) + t.resent
    ensures !StableAt(plan, t)
  {
    hide Sender.Scheduled, Total, Dequeued, AllIntactFrom, Table;
    IntactBetweenBatches(At(plan, t));
  }

  /** Then the number recorded for each group is the last one posted to it. */
  ghost predicate RecordsLast(p: Sender) {
    forall j: uint32 :: j < p.g ==>
      && Substream(p.sends, j) != []
      && Lookup(p.groupStats, j).packets == |Substream(p.sends, j)|
      && Lookup(p.groupStats, j).bytes == Wrap(EXPECTED_DATA_SIZE * |Substream(p.sends, j)|)
      && Lookup(p.groupStats, j).sequence == Substream(p.sends, j)[|Substream(p.sends, j)| - 1]
  }

  lemma AlignedRecords(p: Sender)
    requires p.Sized() && p.Numbered() && p.Addressed() && Table(p.m, p.r, p.g) && p.Recorded()
    requires 0 < p.r && AlignedStarts(p.starts, p.g)
    ensures RecordsLast(p)
  {
    AllAligned(p);
    forall j: uint32 | j < p.g
      ensures Substream(p.sends, j) != [] && Gapless(Substream(p.sends, j))
    {
      AlignedStream(p.sends, p.g, j);
      InitialRows(p.r, p.g, p.m);
      RowsMonotone(p.m, |p.sends|, p.g);
    }
    forall j: uint32 | j < p.g
      ensures Lookup(p.groupStats, j).packets == |Substream(p.sends, j)|
      ensures Lookup(p.groupStats, j).bytes == Wrap(EXPECTED_DATA_SIZE * |Substream(p.sends, j)|)
      ensures Lookup(p.groupStats, j).sequence == Substream(p.sends, j)[|Substream(p.sends, j)| - 1]
    {
      RecordedIsLastSent(p, j);
    }
  }

  /** In every run the two counters divide the number of resends by the number of groups; the payloads
      in flight are intact, between batches exactly on a multiple of it and at all moments exactly if
      every batch is one; and every group has been posted 0, 1, 2, ... exactly if every batch started
      on one, and then the recorded numbers are the last ones posted. */
  lemma EveryRun(plan: Plan)
    requires plan.Valid()
    ensures var p, resends := Run(plan), Total(plan.batches);
            && p.sequenceNumber == plan.r + resends / plan.g && p.groupCounter == resends % plan.g
            && (AllIntactFrom(p, resends) <==> resends % plan.g == 0)
            && (Stable(plan) <==> AlignedSizes(plan.batches, plan.g))
            && (EveryStreamGapless(p) <==> AlignedBatches(plan.batches, plan.g))
            && (AlignedBatches(plan.batches, plan.g) ==> RecordsLast(p))
            && p.Recorded() && p.totalPkts == (plan.m + resends) % 0x1_0000_0000
  {
    hide Row, Rem, Wrap32, CountsOf, RecordsLast, AlignedBatches, AlignedSizes, EveryStreamGapless, AllIntactFrom;
    StateOfRun(Run(plan), plan.batches);
    StableIff(plan);
  }

  // ----- On the wire

  /** The network takes the payload of posting s from its buffer at some moment after the posting and
      before its completion is dequeued. (A buffer is rewritten just before its new posting; the moment
      after that posting shows the same buffers.) */
  ghost predicate Transmitted(plan: Plan, s: nat, v: nat)
    requires plan.Valid()
  {
    exists t: Moment :: Occurs(plan.batches, t) && TransmittedAt(plan, t, s, v)
  }

  ghost predicate TransmittedAt(plan: Plan, t: Moment, s: nat, v: nat)
    requires plan.Valid() && Occurs(plan.batches, t)
  {
    Dequeued(plan.batches, t) <= s < |At(plan, t).sends| && NumberNow(At(plan, t), s) == v
  }

  /** A buffer holds a number that shares it, at least the one posted. */
  lemma NumberInBuffer(p: Sender, s: nat)
    requires p.Scheduled() && s < |p.sends|
    ensures Row(s, p.g) <= Row(|p.sends| - 1, p.g)
    ensures NumberNow(p, s) == LatestSharing(Row(s, p.g), p.r, Row(|p.sends| - 1, p.g))
  {
    BufferOfPosting(p, s);
    RowsMonotone(s, |p.sends| - 1, p.g);
    assert Buffered(p.header, LatestSharing(Row(s, p.g), p.r, Row(|p.sends| - 1, p.g)));
  }

  lemma TransmittedThen(plan: Plan, t: Moment, s: nat, v: nat, last: nat)
    requires plan.Valid() && Occurs(plan.batches, t) && TransmittedAt(plan, t, s, v)
    requires last == plan.m + Total(plan.batches) - 1
    ensures s <= last && Row(s, plan.g) <= v <= Row(last, plan.g)
  {
    hide Sender.Scheduled, Sender.Valid, NumberNow, Total, Row, Rem, Table;
    var p := At(plan, t);
    NumberInBuffer(p, s);
    MomentTotals(plan.batches, t);
    RowsMonotone(|p.sends| - 1, last, plan.g);
  }

  /** A number transmitted is at least the one posted, and no later one than any posted. */
  lemma TransmittedRange(plan: Plan, s: nat, v: nat, last: nat)
    requires plan.Valid() && Transmitted(plan, s, v)
    requires last == plan.m + Total(plan.batches) - 1
    ensures s <= last && Row(s, plan.g) <= v <= Row(last, plan.g)
  {
    var t: Moment :| Occurs(plan.batches, t) && TransmittedAt(plan, t, s, v);
    TransmittedThen(plan, t, s, v, last);
  }

  lemma TransmittedIntact(plan: Plan, t: Moment, s: nat, v: nat)
    requires plan.Valid() && Occurs(plan.batches, t) && TransmittedAt(plan, t, s, v)
    requires Dequeued(plan.batches, t) % plan.g == 0
    ensures v == Row(s, plan.g)
  {
    hide Sender.Scheduled;
    StableWhere(plan, t);
    assert Intact(At(plan, t), s);
  }

  /** Between batches that send anything, and after them all. */
  lemma {:induction false} AlignedBefore(batches: seq<nat>, g: nat, k: nat)
    requires 0 < g && k <= |batches| && AlignedBatches(batches, g) && Total(batches[..k]) < Total(batches)
    ensures Total(batches[..k]) % g == 0
    decreases |batches| - k
  {
    assert batches[..|batches|] == batches;
    if k < |batches| && batches[k] == 0 {
      TotalNext(batches, k);
      AlignedBefore(batches, g, k + 1);
    }
  }

  /** If every batch starts on a multiple, a posting that has been dequeued went out as posted. */
  lemma DequeuedAsPosted(plan: Plan, s: nat, v: nat)
    requires plan.Valid() && AlignedBatches(plan.batches, plan.g)
    requires Transmitted(plan, s, v) && s < Total(plan.batches)
    ensures v == Row(s, plan.g)
  {
    hide Sender.Scheduled, Sender.Valid, NumberNow, Total, Row, Rem, AlignedBatches;
    var t: Moment :| Occurs(plan.batches, t) && TransmittedAt(plan, t, s, v);
    AlignedBefore(plan.batches, plan.g, if t.resent == 0 then t.batch else t.batch + 1);
    TransmittedIntact(plan, t, s, v);
  }

  /** If every batch is a multiple, all go out as posted. */
  lemma AllAsPosted(plan: Plan, s: nat, v: nat)
    requires plan.Valid() && AlignedSizes(plan.batches, plan.g) && Transmitted(plan, s, v)
    ensures v == Row(s, plan.g)
  {
    var t: Moment :| Occurs(plan.batches, t) && TransmittedAt(plan, t, s, v);
    AlignedDequeued(plan.batches, plan.g, t);
    TransmittedIntact(plan, t, s, v);
  }

  /** All sends of a run, in order. */
  ghost function SendsOf(plan: Plan): (sends: seq<Event>)
    requires plan.Valid()
    ensures |sends| == plan.m + Total(plan.batches)
  {
    Run(plan).sends
  }

  lemma {:induction false} StartsPrefix(batches: seq<nat>, k: nat)
    requires k <= |batches|
    ensures StartsOf(batches[..k]) <= StartsOf(batches)
    decreases |batches|
  {
    if k == |batches| {
      assert batches[..k] == batches;
    } else {
      assert batches[..|batches| - 1][..k] == batches[..k];
      StartsPrefix(batches[..|batches| - 1], k);
    }
  }

  lemma BatchStart(batches: seq<nat>, k: nat)
    requires k < |batches| && batches[k] > 0
    ensures Total(batches[..k]) < |StartsOf(batches)| && StartsOf(batches)[Total(batches[..k])] == Total(batches[..k])
  {
    assert batches[..k + 1][..k] == batches[..k];
    StartsPrefix(batches, k + 1);
  }

  /** As far as batches start on multiples, postings go to the groups in turn. */
  lemma AlignedSends(plan: Plan, k: nat)
    requires plan.Valid() && k <= |plan.batches| && AlignedBatches(plan.batches[..k], plan.g)
    ensures Total(plan.batches[..k]) <= Total(plan.batches)
    ensures Aligned(SendsOf(plan)[..plan.m + Total(plan.batches[..k])], plan.g)
  {
    hide Total, Row, Rem;
    StartsPrefix(plan.batches, k);
    AlignedStartsOfBatches(plan.batches[..k], plan.g);
    AlignedUntil(Run(plan), Total(plan.batches[..k]));
  }

  // ----- What goes wrong after a batch that is no multiple

  /** Off a multiple the row of the last resend has not ended. */
  lemma RowsOff(e: nat, m: nat, r: nat, g: nat)
    requires 0 < e && 0 < g && Rem(e, g) != 0 && Table(m, r, g)
    ensures Row(m + e - 1, g) == Row(e, g) + r && Row(e + g, g) == Row(e, g) + 1
    ensures 2 <= r ==> g < m
  {
    RowStart(e, g);
    RowsMonotone(e - 1, e, g);
    SkipRows(e - 1, m, r, g);
    RowBelow(g, m, r, g);
  }

  lemma NumbersAfter(p: Sender, e: nat)
    requires p.Scheduled() && 2 <= p.r && 0 < e == |p.starts| && Rem(e, p.g) != 0
    ensures e + p.g < |p.sends|
    ensures NumberNow(p, e) == Row(e, p.g) + p.r && NumberNow(p, e + p.g) == Row(e, p.g) + 1
  {
    hide Row, Rem, Table;
    RowsOff(e, p.m, p.r, p.g);
    NumberInBuffer(p, e);
    NumberInBuffer(p, e + p.g);
  }

  /** The postings around the end of the first batch that is no multiple go to the groups in turn. */
  lemma GroupsAround(plan: Plan, k: nat, e: nat, s: nat)
    requires plan.Valid() && k < |plan.batches| && AlignedBatches(plan.batches[..k + 1], plan.g)
    requires e == Total(plan.batches[..k]) + plan.batches[k] && s < plan.m + e
    ensures s < |SendsOf(plan)| && SendsOf(plan)[s].group == Rem(s, plan.g)
  {
    hide Sender.Scheduled, Sender.Valid, Total;
    TotalNext(plan.batches, k);
    AlignedSends(plan, k + 1);
    assert SendsOf(plan)[..plan.m + e][s] == SendsOf(plan)[s];
  }

  /** With two packet buffers or more, a packet in flight can go out with the number of a later one
      and overtake the next of its group. */
  lemma Overtaken(plan: Plan, k: nat, e: nat)
    requires plan.Valid() && 2 <= plan.r
    requires k < |plan.batches| && plan.batches[k] % plan.g != 0 && AlignedSizes(plan.batches[..k], plan.g)
    requires e == Total(plan.batches[..k]) + plan.batches[k]
    ensures e + plan.g < |SendsOf(plan)|
    ensures SendsOf(plan)[e].group == SendsOf(plan)[e + plan.g].group == Rem(e, plan.g)
    ensures Transmitted(plan, e, Row(e, plan.g) + plan.r) && Transmitted(plan, e + plan.g, Row(e, plan.g) + 1)
  {
    hide Sender.Scheduled, Sender.Valid, NumberNow, Total, Row, Rem, Table, SendsOf, AlignedSizes, AlignedBatches;
    var t := Moment(k, plan.batches[k]);
    MisalignedEnd(plan.batches, plan.g, k);
    NumbersAfter(At(plan, t), e);
    assert TransmittedAt(plan, t, e, Row(e, plan.g) + plan.r);
    assert TransmittedAt(plan, t, e + plan.g, Row(e, plan.g) + 1);
    NextColumn(e, plan.g);
    GroupsAround(plan, k, e, e);
    GroupsAround(plan, k, e, e + plan.g);
  }

  lemma NextColumn(e: nat, g: nat)
    requires 0 < g
    ensures Rem(e + g, g) == Rem(e, g)
  {
  }

  lemma NumbersBetween(p: Sender, d: nat, a: nat)
    requires p.Scheduled()
    requires p.r == 1 && d == |p.starts| && Rem(d, p.g) != 0 && a == d + p.g - Rem(d, p.g)
    ensures a < |p.sends| && NumberNow(p, a) == Row(d, p.g) + 1
  {
    NextRow(d, p.g);
    RowStart(d, p.g);
    RowsMonotone(d - 1, d, p.g);
    SkipRows(d - 1, p.m, p.r, p.g);
    NumberInBuffer(p, a);
  }

  lemma NumbersThen(p: Sender, d: nat)
    requires p.Scheduled()
    requires p.r == 1 && d + 1 == |p.starts|
    ensures NumberNow(p, p.m + d) == Row(d, p.g) + 1
  {
    SkipRows(d, p.m, p.r, p.g);
    NumberInBuffer(p, p.m + d);
  }

  /** With a single packet buffer, a batch begun off a multiple sends group 0 the same number twice. */
  lemma Repeated(plan: Plan, k: nat, d: nat, a: nat)
    requires plan.Valid() && plan.r == 1
    requires k < |plan.batches| && 0 < plan.batches[k] <= plan.m && AlignedBatches(plan.batches[..k], plan.g)
    requires d == Total(plan.batches[..k]) && d % plan.g != 0 && a == d + plan.g - Rem(d, plan.g)
    ensures a < plan.m + d < |SendsOf(plan)|
    ensures SendsOf(plan)[a].group == SendsOf(plan)[plan.m + d].group == 0
    ensures Transmitted(plan, a, Row(d, plan.g) + 1) && Transmitted(plan, plan.m + d, Row(d, plan.g) + 1)
  {
    hide Sender.Scheduled, Sender.Valid, NumberNow, Total, Row, Rem, Table, AlignedBatches;
    var before, after := Moment(k, 0), Moment(k, 1);
    TotalNext(plan.batches, k);
    RemIsMod(d, plan.g);
    NumbersBetween(At(plan, before), d, a);
    assert TransmittedAt(plan, before, a, Row(d, plan.g) + 1);
    NumbersThen(At(plan, after), d);
    assert TransmittedAt(plan, after, plan.m + d, Row(d, plan.g) + 1);
    RepeatedGroups(plan, k, d, a);
  }

  lemma RepeatedGroups(plan: Plan, k: nat, d: nat, a: nat)
    requires plan.Valid() && k < |plan.batches| && 0 < plan.batches[k] && AlignedBatches(plan.batches[..k], plan.g)
    requires d == Total(plan.batches[..k]) && a == d + plan.g - Rem(d, plan.g) && a < plan.m + d
    ensures plan.m + d < |SendsOf(plan)|
    ensures SendsOf(plan)[a].group == SendsOf(plan)[plan.m + d].group == 0
  {
    hide Sender.Scheduled, Sender.Valid, Total, Row, Rem, Table, AlignedBatches;
    AlignedSends(plan, k);
    assert SendsOf(plan)[..plan.m + d][a] == SendsOf(plan)[a];
    NextRow(d, plan.g);
    BatchStart(plan.batches, k);
    BatchBeginsAtGroupZero(plan, d);
  }

  lemma BatchBeginsAtGroupZero(plan: Plan, d: nat)
    requires plan.Valid() && d < |StartsOf(plan.batches)| && StartsOf(plan.batches)[d] == d
    ensures plan.m + d < |SendsOf(plan)| && SendsOf(plan)[plan.m + d].group == 0
  {
    RestartsAtGroupZero(Run(plan), d);
  }

  lemma AllAligned(p: Sender)
    requires p.Sized() && p.Numbered() && p.Addressed() && Table(p.m, p.r, p.g)
    requires AlignedStarts(p.starts, p.g)
    ensures Aligned(p.sends, p.g)
  {
    assert p.starts[..|p.starts|] == p.starts && p.sends[..p.m + |p.starts|] == p.sends;
    AlignedUntil(p, |p.starts|);
  }

  lemma StateOfRun(p: Sender, batches: seq<nat>)
    requires p.Scheduled() && p.Odometer() && p.Addressed() && p.Recorded() && p.Totalled()
    requires p.starts == StartsOf(batches)
    ensures p.sequenceNumber == p.r + Total(batches) / p.g
    ensures p.groupCounter == Total(batches) % p.g
    ensures p.totalPkts == |p.sends| % 0x1_0000_0000
    ensures AllIntactFrom(p, Total(batches)) <==> Total(batches) % p.g == 0
    ensures EveryStreamGapless(p) <==> AlignedBatches(batches, p.g)
    ensures AlignedBatches(batches, p.g) ==> RecordsLast(p)
  {
    OdometerReads(p);
    RemIsMod(|p.sends|, 0x1_0000_0000);
    IntactBetweenBatches(p);
    GaplessIff(p);
    AlignedStartsOfBatches(batches, p.g);
    if AlignedBatches(batches, p.g) {
      AlignedRecords(p);
    }
  }

  // ----- The producer itself

  class RioProducer {
    const packetRate: nat
    const numberOfMcGroups: uint32
    const bufferOf: array<nat>
    const header: array<uint64>
    var queue: seq<nat>
    var sequenceNumber: uint64
    var groupCounter: nat
    var totalPkts: uint32
    var groupStats: StatsMap
    ghost var sends: seq<Event>
    ghost var contexts: seq<nat>
    ghost var starts: seq<nat>

    ghost function View(): Sender
      reads this, bufferOf, header
    {
      Sender(packetRate, numberOfMcGroups, bufferOf.Length, bufferOf[..], header[..], queue, sequenceNumber,
             groupCounter, totalPkts, groupStats, sends, contexts, starts)
    }

    ghost predicate Valid()
      reads this, bufferOf, header
    {
      bufferOf as object != header as object && View().Valid()
    }

    /** A producer with all its descriptors allocated and nothing sent yet. */
    constructor (rate: nat, groups: uint32, stats: StatsMap)
      requires 0 < rate && 0 < groups && rate * groups < TWO64
      ensures packetRate == rate && numberOfMcGroups == groups && groupStats == stats
      ensures bufferOf.Length == rate * groups && header.Length == rate
      ensures Table(bufferOf.Length, rate, groups)
      ensures fresh(bufferOf) && fresh(header) && bufferOf as object != header as object
      ensures queue == [] && totalPkts == 0 && sends == [] && contexts == [] && starts == []
    {
      ProductIsTable(rate, groups, rate * groups);
      packetRate, numberOfMcGroups := rate, groups;
      bufferOf := new nat[rate * groups];
      header := new uint64[rate];
      queue, sequenceNumber, groupCounter, totalPkts, groupStats := [], 0, 0, 0, stats;
      sends, contexts, starts := [], [], [];
    }

    /** Points the descriptors of one packet at its buffer and writes the packet's header. */
    method FillPacket(i: nat, ghost base: nat)
      requires base == i * numberOfMcGroups && i < header.Length && 0 < numberOfMcGroups
      requires base + numberOfMcGroups <= bufferOf.Length
      requires i < TWO64 && bufferOf as object != header as object
      modifies bufferOf, header
      ensures forall c :: base <= c < base + numberOfMcGroups ==> bufferOf[c] == i
      ensures forall c :: 0 <= c < base ==> bufferOf[c] == old(bufferOf[c])
      ensures header[..] == old(header[..])[i := i]
    {
      for j := 0 to numberOfMcGroups
        invariant forall c :: base <= c < base + j ==> bufferOf[c] == i
        invariant forall c :: 0 <= c < base ==> bufferOf[c] == old(bufferOf[c])
        invariant header[..] == old(header[..])
      {
        assert (numberOfMcGroups * i) + j == base + j;
        bufferOf[(numberOfMcGroups * i) + j] := i;
      }
      header[i] := i;
    }

    method FillPackets()
      requires 0 < packetRate == header.Length && 0 < numberOfMcGroups
      requires Table(bufferOf.Length, packetRate, numberOfMcGroups) && bufferOf.Length < TWO64
      requires bufferOf as object != header as object
      modifies bufferOf, header, this`sequenceNumber
      ensures forall c :: 0 <= c < bufferOf.Length ==> bufferOf[c] == Row(c, numberOfMcGroups)
      ensures forall i :: 0 <= i < packetRate ==> header[i] == i
      ensures sequenceNumber == packetRate
    {
      ghost var base: nat := 0;
      sequenceNumber := 0;
      for i := 0 to packetRate
        invariant sequenceNumber == i && base == i * numberOfMcGroups <= bufferOf.Length
        invariant forall c :: 0 <= c < base ==> bufferOf[c] == Row(c, numberOfMcGroups)
        invariant forall k :: 0 <= k < i ==> header[k] == k
      {
        RowsInTable(i, base);
        OneRowLess(i + 1, numberOfMcGroups);
        FillPacket(i, base);
        base := base + numberOfMcGroups;
        sequenceNumber := sequenceNumber + 1;
      }
      RowBelow(base, bufferOf.Length, packetRate, numberOfMcGroups);
      ProductIsTable(packetRate, numberOfMcGroups, base);
    }

    lemma RowsInTable(i: nat, base: nat)
      requires Table(bufferOf.Length, packetRate, numberOfMcGroups) && i < packetRate
      requires base == i * numberOfMcGroups
      ensures base + numberOfMcGroups <= bufferOf.Length
      ensures forall c :: base <= c < base + numberOfMcGroups ==> Row(c, numberOfMcGroups) == i
    {
      var g := numberOfMcGroups;
      ProductIsTable(i, g, base);
      forall c | base <= c < base + g ensures Row(c, g) == i {
        SkipRows(c - base, base, i, g);
      }
      RowBelow(base + g - 1, bufferOf.Length, packetRate, g);
    }

    /** One send: the packet buffer of the descriptor goes to the group as it is now. */
    method Post(context: nat, group: uint32)
      requires context < bufferOf.Length && bufferOf[context] < header.Length && groupCounter < numberOfMcGroups
      modifies this`queue, this`groupCounter, this`totalPkts, this`groupStats, this`sends, this`contexts
      ensures queue == old(queue) + [context] && contexts == old(contexts) + [context]
      ensures sends == old(sends) + [Event(group, header[bufferOf[context]])]
      ensures groupStats == RecordSend(old(groupStats), group, EXPECTED_DATA_SIZE)
      ensures totalPkts == Wrap32(old(totalPkts) + 1)
      ensures groupCounter == if old(groupCounter) + 1 == numberOfMcGroups then 0 else old(groupCounter) + 1
    {
      queue, contexts := queue + [context], contexts + [context];
      sends := sends + [Event(group, header[bufferOf[context]])];
      GroupStatsUpdate(group, EXPECTED_DATA_SIZE);
      totalPkts := Wrap32(totalPkts + 1);
      groupCounter := groupCounter + 1;
      if groupCounter == numberOfMcGroups {
        groupCounter := 0;
      }
    }

    /** Sends every descriptor in turn. */
    method PostDescriptors(ghost stats: StatsMap)
      requires 0 < numberOfMcGroups && bufferOf.Length < TWO64 && groupStats == stats
      requires forall c :: 0 <= c < bufferOf.Length ==> bufferOf[c] == Row(c, numberOfMcGroups) < header.Length
      requires forall k :: 0 <= k < header.Length ==> header[k] == k
      requires queue == [] && sends == [] && contexts == [] && totalPkts == 0 && groupCounter == 0
      modifies this`queue, this`groupCounter, this`totalPkts, this`groupStats, this`sends, this`contexts
      ensures queue == contexts == Upto(bufferOf.Length)
      ensures sends == FirstSends(numberOfMcGroups, bufferOf.Length)
      ensures groupStats == RecordAll(stats, sends)
      ensures totalPkts == Wrap32(bufferOf.Length) && groupCounter == Rem(bufferOf.Length, numberOfMcGroups)
    {
      hide RecordSend, Table, Wrap;
      var g: nat, m := numberOfMcGroups, bufferOf.Length;
      ghost var planned := FirstSends(numberOfMcGroups, m);
      for i := 0 to m
        invariant queue == contexts == Upto(i)
        invariant sends == planned[..i] && groupStats == RecordAll(stats, sends)
        invariant totalPkts == Wrap32(i) && groupCounter == Rem(i, g)
      {
        NextCell(i, g);
        CountedOnce(i);
        RemIsMod(i, g);
        ghost var before := sends;
        Post(i, i % g);
        assert sends[..i] == before;
      }
      assert planned[..m] == planned;
    }

    /** Sends every packet to every group, in turn. */
    method PostFirstSend(ghost stats: StatsMap)
      requires 0 < packetRate == header.Length && 0 < numberOfMcGroups
      requires Table(bufferOf.Length, packetRate, numberOfMcGroups) && bufferOf.Length < TWO64
      requires bufferOf as object != header as object
      requires queue == [] && sends == [] && contexts == [] && starts == [] && totalPkts == 0
      requires AllZero(stats) && groupStats == stats
      modifies this, bufferOf, header
      ensures View() == Initial(packetRate, numberOfMcGroups, bufferOf.Length, stats)
    {
      FillPackets();
      groupCounter := 0;
      InitialRows(packetRate, numberOfMcGroups, bufferOf.Length);
      PostDescriptors(stats);
      assert bufferOf[..] == FirstBuffers(numberOfMcGroups, bufferOf.Length);
      assert header[..] == FirstHeaders(packetRate);
    }

    method GroupStatsUpdate(mcGroup: uint32, pktSize: nat)
      modifies this`groupStats
      ensures groupStats == RecordSend(old(groupStats), mcGroup, pktSize)
    {
      if mcGroup !in groupStats {
        groupStats := groupStats[mcGroup := ZERO_STATS];
      }
      var gmc := groupStats[mcGroup];
      gmc := gmc.(sequence := gmc.packets);
      gmc := gmc.(packets := Wrap(gmc.packets + 1));
      gmc := gmc.(bytes := Wrap(gmc.bytes + pktSize));
      groupStats := groupStats[mcGroup := gmc];
    }

    /** Handles result i of a batch: the shared packet gets the next number and is sent again. */
    method SendAgain(i: nat)
      requires bufferOf as object != header as object
      requires View().InBounds() && queue != [] && i <= |starts|
      modifies this`queue, this`sequenceNumber, this`groupCounter, this`totalPkts, this`groupStats,
               this`sends, this`contexts, this`starts, header
      ensures View() == Resend(old(View()), i)
    {
      RemIsMod(i, numberOfMcGroups);
      var context := queue[0];
      header[bufferOf[context]] := sequenceNumber;
      queue := queue[1..];
      starts := starts + [|starts| - i];
      Post(context, i % numberOfMcGroups);
      if groupCounter == 0 {
        sequenceNumber := Wrap(sequenceNumber + 1);
      }
    }

    /** One dequeued batch of completions. */
    method SendBatch(numResults: nat)
      requires Valid() && |sends| + numResults < TWO64
      modifies this, header
      ensures Valid() && View() == Batch(old(View()), numResults)
    {
      ghost var before := View();
      for i := 0 to numResults
        invariant bufferOf as object != header as object && View() == Batch(before, i)
      {
        ghost var resent := Resent(View(), i);
        SendAgain(i);
      }
    }

    /** The send loop, for any sizes of the batches. */
    method Start(batches: seq<nat>)
      requires Valid() && |sends| + Total(batches) < TWO64
      modifies this, header
      ensures Valid() && View() == Batches(old(View()), batches)
    {
      ghost var before := View();
      for i := 0 to |batches|
        invariant |before.sends| + Total(batches[..i]) < TWO64
        invariant bufferOf as object != header as object && View() == Batches(before, batches[..i])
      {
        assert batches[..i + 1][..i] == batches[..i];
        TotalGrows(batches, i + 1);
        SendBatch(batches[i]);
      }
      assert batches[..|batches|] == batches;
    }
  }
}
