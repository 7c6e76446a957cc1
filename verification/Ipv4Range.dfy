/** Ranges of IPv4 addresses: the check, the iteration and the parsing of "from-till". */
module Ipv4Range {
  import opened ModularIndex
  import opened MachineWords
  import opened Ipv4
  import opened SplitJoin

  datatype Error = InvalidArgument
  datatype Result<T> = Ok(value: T) | Err(error: Error)

  datatype Range = Range(from: Ipv4Addr, till: Ipv4Addr)

  /** The constructor with its checkRange. */
  function Checked(from: Ipv4Addr, till: Ipv4Addr): Result<Range> {
    if from.Greater(till) then Err(InvalidArgument) else Ok(Range(from, till))
  }

  // ----- What the check accepts

  /** The first and the last octet, in writing order, in which two addresses differ; 4 if none. */
  function FirstDifference(a: uint32, b: uint32): nat {
    if Octet(a, 0) != Octet(b, 0) then 0
    else if Octet(a, 1) != Octet(b, 1) then 1
    else if Octet(a, 2) != Octet(b, 2) then 2
    else if Octet(a, 3) != Octet(b, 3) then 3 else 4
  }

  function LastDifference(a: uint32, b: uint32): nat {
    if Octet(a, 3) != Octet(b, 3) then 3
    else if Octet(a, 2) != Octet(b, 2) then 2
    else if Octet(a, 1) != Octet(b, 1) then 1
    else if Octet(a, 0) != Octet(b, 0) then 0 else 4
  }

  lemma LexicographicOrder(a: nat, b: nat, c: nat, d: nat, a': nat, b': nat, c': nat, d': nat)
    requires IsOctet(a) && IsOctet(b) && IsOctet(c) && IsOctet(d)
    requires IsOctet(a') && IsOctet(b') && IsOctet(c') && IsOctet(d')
    ensures FromOctets(a, b, c, d) < FromOctets(a', b', c', d') <==>
            if a != a' then a < a' else if b != b' then b < b' else if c != c' then c < c' else d < d'
  {
  }

  /** The check accepts a range exactly if its ends are equal or ascend in the last octet in which
      they differ. */
  lemma AcceptedIff(from: Ipv4Addr, till: Ipv4Addr)
    ensures var f, t := from.HostOrder(), till.HostOrder();
            var last := LastDifference(f, t);
            Checked(from, till).Ok? <==> last == 4 || Octet(f, last) < Octet(t, last)
    ensures Checked(from, till).Ok? ==> Checked(from, till).value == Range(from, till)
    ensures from == till ==> Checked(from, till).Ok?
  {
    var f, t := from.HostOrder(), till.HostOrder();
    SwapTwice(from.ipBe);
    SwapTwice(till.ipBe);
    LexicographicOrder(Octet(t, 3), Octet(t, 2), Octet(t, 1), Octet(t, 0),
                       Octet(f, 3), Octet(f, 2), Octet(f, 1), Octet(f, 0));
  }

  lemma AscendingIff(f: uint32, t: uint32)
    ensures f <= t <==> FirstDifference(f, t) == 4 || Octet(f, FirstDifference(f, t)) < Octet(t, FirstDifference(f, t))
  {
    OctetsComplete(f);
    OctetsComplete(t);
    LexicographicOrder(Octet(t, 0), Octet(t, 1), Octet(t, 2), Octet(t, 3),
                       Octet(f, 0), Octet(f, 1), Octet(f, 2), Octet(f, 3));
  }

  /** The check means "ascending" exactly if the ends compare alike in the first and in the last octet
      in which they differ; in particular when they share the first three. */
  lemma CheckMeansAscending(from: Ipv4Addr, till: Ipv4Addr)
    ensures var f, t := from.HostOrder(), till.HostOrder();
            var first, last := FirstDifference(f, t), LastDifference(f, t);
            && ((Checked(from, till).Ok? <==> f <= t) <==>
                  first == 4 || (Octet(f, first) < Octet(t, first) <==> Octet(f, last) < Octet(t, last)))
            && (first >= 3 ==> (Checked(from, till).Ok? <==> f <= t))
  {
    AcceptedIff(from, till);
    AscendingIff(from.HostOrder(), till.HostOrder());
  }

  /** 239.0.0.255 - 239.0.1.0 ascends and is rejected. */
  lemma AscendingRangeRejected()
    ensures FromOctets(239, 0, 0, 255) < FromOctets(239, 0, 1, 0) < TWO32
    ensures Checked(OfHost(FromOctets(239, 0, 0, 255)), OfHost(FromOctets(239, 0, 1, 0))).Err?
  {
    OctetsOf(239, 0, 0, 255);
    OctetsOf(239, 0, 1, 0);
    AcceptedIff(OfHost(FromOctets(239, 0, 0, 255)), OfHost(FromOctets(239, 0, 1, 0)));
  }

  // ----- Iteration

  /** How far b is ahead of a around the address space. */
  function Ahead(a: uint32, b: uint32): uint32 {
    if a <= b then b - a else b - a + 0x1_0000_0000
  }

  function Advance(a: uint32, k: uint32): uint32 {
    if a + k < 0x1_0000_0000 then a + k else a + k - 0x1_0000_0000
  }

  lemma AheadIsDifference(a: uint32, till: Ipv4Addr)
    ensures Ahead(a, till.Next().HostOrder()) == (till.HostOrder() - a + 1) % 0x1_0000_0000
  {
    hide ByteSwap;
    var h := till.HostOrder();
    assert h + 1 < TWO32 ==> till.Next().HostOrder() == h + 1;
    assert h + 1 == TWO32 ==> till.Next().HostOrder() == 0;
  }

  /** The loop over a range, which only tests for inequality with the end. It ends for every pair of
      addresses, after (till - from + 1) mod 2^32 of them, counted up from the first in host order;
      a full circle is therefore empty. */
  method ParseDestinations(range: Range) returns (ipVec: seq<Ipv4Addr>)
    ensures |ipVec| == (range.till.HostOrder() - range.from.HostOrder() + 1) % 0x1_0000_0000
    ensures forall k :: 0 <= k < |ipVec| ==>
              ipVec[k].HostOrder() == (range.from.HostOrder() + k) % 0x1_0000_0000
  {
    hide ByteSwap;
    ipVec := [];
    var current, end := range.from, range.till.Next();
    ghost var first, limit := range.from.HostOrder(), end.HostOrder();
    HostOrderDistinguishes(current, end);
    AheadIsDifference(first, range.till);
    while current != end
      invariant |ipVec| <= Ahead(first, limit)
      invariant current.HostOrder() == Advance(first, |ipVec|)
      invariant current == end <==> |ipVec| == Ahead(first, limit)
      invariant forall k :: 0 <= k < |ipVec| ==> ipVec[k].HostOrder() == Advance(first, k)
      decreases Ahead(first, limit) - |ipVec|
    {
      ipVec := ipVec + [current];
      current := current.Next();
      HostOrderDistinguishes(current, end);
    }
  }

  // ----- Parsing

  function Dots(s: string): nat {
    if s == "" then 0 else Dots(s[1..]) + if s[0] == '.' then 1 else 0
  }

  /** The position behind the n-th dot; searching past the last dot starts again at the front. */
  function BehindDots(s: string, n: nat): (r: nat)
    ensures r <= |s|
  {
    if n == 0 then 0 else Find(s, ".", BehindDots(s, n - 1)) + 1
  }

  function Completed(from: string, till: string): string {
    from[..BehindDots(from, if Dots(till) <= 3 then 3 - Dots(till) else 0)] + till
  }

  method CompleteIp(from: string, till: string) returns (r: string)
    ensures r == Completed(from, till)
  {
    var pos := 0;
    var dots := 0;
    while dots < 3 - Dots(till)
      invariant 0 <= dots && (dots <= 3 - Dots(till) || dots == 0)
      invariant 0 <= pos == BehindDots(from, dots) <= |from|
    {
      pos := Find(from, ".", pos);
      pos := pos + 1;
      dots := dots + 1;
    }
    r := from[..pos] + till;
  }

  ghost predicate DotFree(parts: seq<string>) {
    forall k :: 0 <= k < |parts| ==> '.' !in parts[k]
  }

  lemma {:induction false} DotsConcat(a: string, b: string)
    ensures Dots(a + b) == Dots(a) + Dots(b)
  {
    if a == "" {
      assert a + b == b;
    } else {
      assert (a + b)[1..] == a[1..] + b;
      DotsConcat(a[1..], b);
    }
  }

  lemma {:induction false} NoDots(s: string)
    requires '.' !in s
    ensures Dots(s) == 0
  {
    if s != "" {
      NoDots(s[1..]);
    }
  }

  lemma {:induction false} DotsOfJoin(parts: seq<string>)
    requires parts != [] && DotFree(parts)
    ensures Dots(Join(parts, ".")) == |parts| - 1
  {
    NoDots(parts[0]);
    if |parts| > 1 {
      DotsOfJoin(parts[1..]);
      DotsConcat(parts[0] + ".", Join(parts[1..], "."));
      DotsConcat(parts[0], ".");
    }
  }

  /** The first n parts, each followed by a dot. */
  function Front(parts: seq<string>, n: nat): string
    requires n <= |parts|
  {
    if n == 0 then "" else Front(parts, n - 1) + (parts[n - 1] + ".")
  }

  lemma {:induction false} JoinFront(parts: seq<string>, n: nat)
    requires n < |parts|
    ensures Join(parts, ".") == Front(parts, n) + Join(parts[n..], ".")
  {
    if n == 0 {
      assert parts[0..] == parts;
    } else {
      JoinFront(parts, n - 1);
      assert parts[n - 1..][1..] == parts[n..];
      JoinCons(parts[n - 1], parts[n..], ".");
      assert parts[n - 1..] == [parts[n - 1]] + parts[n..];
    }
  }

  /** Each dot is one part further on; after the last one the search starts again at the front. */
  lemma {:induction false} BehindFront(parts: seq<string>, n: nat)
    requires parts != [] && DotFree(parts)
    ensures BehindDots(Join(parts, "."), n) == |Front(parts, Rem(n, |parts|))|
  {
    hide Join, Front;
    if n == 0 {
      FrontOfNone(parts);
    } else {
      var k := Rem(n - 1, |parts|);
      BehindFront(parts, n - 1);
      NextCell(n - 1, |parts|);
      JoinFront(parts, k);
      FrontOfNone(parts);
      if k + 1 < |parts| {
        NextDot(Front(parts, k), parts[k..]);
        FrontNext(parts, k);
      } else {
        assert parts[k..] == [parts[k]];
        JoinOne(parts[k]);
        LastDot(Front(parts, k), parts[k]);
      }
    }
  }

  lemma FrontOfNone(parts: seq<string>)
    ensures Front(parts, 0) == ""
  {
  }

  lemma FrontNext(parts: seq<string>, k: nat)
    requires k < |parts|
    ensures |Front(parts, k + 1)| == |Front(parts, k)| + |parts[k]| + 1
  {
  }

  lemma JoinOne(part: string)
    ensures Join([part], ".") == part
  {
  }

  lemma LastDot(front: string, part: string)
    requires '.' !in part
    ensures Find(front + part, ".", |front|) == -1
  {
    NotFound(part, '.', 0);
    assert (front + part)[|front|..] == part;
    FindShifted(front + part, ".", |front|, 0);
  }

  lemma NextDot(front: string, parts: seq<string>)
    requires |parts| > 1 && '.' !in parts[0]
    ensures Find(front + Join(parts, "."), ".", |front|) == |front| + |parts[0]|
  {
    var s := front + Join(parts, ".");
    FirstAt(parts[0], '.', Join(parts[1..], "."));
    assert s[|front|..] == Join(parts, ".");
    FindShifted(s, ".", |front|, 0);
  }

  lemma {:induction false} FrontJoin(parts: seq<string>, n: nat, tail: seq<string>)
    requires n <= |parts| && tail != []
    ensures Front(parts, n) + Join(tail, ".") == Join(parts[..n] + tail, ".")
  {
    if n == 0 {
      assert parts[..0] + tail == tail;
    } else {
      var tail' := [parts[n - 1]] + tail;
      JoinCons(parts[n - 1], tail, ".");
      FrontJoin(parts, n - 1, tail');
      assert parts[..n] + tail == parts[..n - 1] + tail';
      Concat3(Front(parts, n - 1), parts[n - 1] + ".", Join(tail, "."));
    }
  }

  lemma Concat3(a: string, b: string, c: string)
    ensures a + (b + c) == a + b + c
  {
  }

  /** How many of the leading octets of from an end of so many octets lacks. */
  function Lacking(octets: nat): nat {
    if octets <= 4 then 4 - octets else 0
  }

  /** An incomplete till takes the octets it lacks from the front of from, going around if from has too
      few. */
  lemma CompletionFillsOctets(from: seq<string>, till: seq<string>)
    requires from != [] && till != [] && DotFree(from) && DotFree(till)
    ensures Completed(Join(from, "."), Join(till, ".")) == Join(from[..Lacking(|till|) % |from|] + till, ".")
  {
    var n := Rem(Lacking(|till|), |from|);
    RemIsMod(Lacking(|till|), |from|);
    DotsOfJoin(till);
    BehindFront(from, Lacking(|till|));
    JoinFront(from, n);
    FrontJoin(from, n, till);
  }

  /** MakeIpv4Range; the conversion of a string to an address is a parameter, as it is of MakeRange. */
  method MakeIpv4Range(range: string, fromString: string -> Result<Ipv4Addr>) returns (r: Result<Range>)
    ensures r == RangeOfParts(DropFinalEmpty(Split(range, "-")), fromString)
  {
    var parts := SplitAtChar(range, '-');
    if |parts| == 1 {
      parts := parts + [parts[0]];
    } else if |parts| != 2 {
      return Err(InvalidArgument);
    }
    var till := CompleteIp(parts[0], parts[1]);
    var first, last := fromString(parts[0]), fromString(till);
    if first.Err? || last.Err? {
      return Err(InvalidArgument);
    }
    r := Checked(first.value, last.value);
  }

  function RangeOfParts(parts: seq<string>, fromString: string -> Result<Ipv4Addr>): Result<Range> {
    if |parts| == 1 || |parts| == 2 then
      var first, last := fromString(parts[0]), fromString(Completed(parts[0], parts[|parts| - 1]));
      if first.Err? || last.Err? then Err(InvalidArgument) else Checked(first.value, last.value)
    else
      Err(InvalidArgument)
  }

  ghost predicate DashFree(parts: seq<string>) {
    forall k :: 0 <= k < |parts| ==> '-' !in parts[k]
  }

  lemma PartsOfText(parts: seq<string>)
    requires parts != [] && DashFree(parts)
    ensures DropFinalEmpty(Split(Join(parts, "-"), "-")) ==
            if parts[|parts| - 1] == "" then parts[..|parts| - 1] else parts
  {
    NotFound(parts[|parts| - 1], '-', 0);
    forall k | 0 <= k < |parts| - 1 ensures Find(parts[k] + "-", "-", 0) == |parts[k]| {
      FirstAt(parts[k], '-', "");
      assert parts[k] + ['-'] + "" == parts[k] + "-";
    }
    SplitOfJoin(parts, "-");
  }

  /** Two ends denote a range exactly if both are addresses and pass the check. */
  ghost predicate Denotes(r: Result<Range>, first: Result<Ipv4Addr>, last: Result<Ipv4Addr>) {
    if first.Ok? && last.Ok? && !(first.value.ipBe > last.value.ipBe)
    then r == Ok(Range(first.value, last.value))
    else r == Err(InvalidArgument)
  }

  lemma PartsDenote(parts: seq<string>, fromString: string -> Result<Ipv4Addr>)
    ensures |parts| == 0 || |parts| > 2 ==> RangeOfParts(parts, fromString) == Err(InvalidArgument)
    ensures 1 <= |parts| <= 2 ==>
              Denotes(RangeOfParts(parts, fromString), fromString(parts[0]),
                      fromString(Completed(parts[0], parts[|parts| - 1])))
  {
    hide Completed;
  }

  /** Every text, by its parts between dashes; an empty one at the end does not count. One or two parts
      denote the range between the first and the completed last one; none, or more than two, nothing. */
  lemma RangeOfText(parts: seq<string>, fromString: string -> Result<Ipv4Addr>)
    requires parts != [] && DashFree(parts)
    ensures var r := RangeOfParts(DropFinalEmpty(Split(Join(parts, "-"), "-")), fromString);
            var n := if parts[|parts| - 1] == "" then |parts| - 1 else |parts|;
            && (n == 0 || n > 2 ==> r == Err(InvalidArgument))
            && (n == 1 ==> Denotes(r, fromString(parts[0]), fromString(Completed(parts[0], parts[0]))))
            && (n == 2 ==> Denotes(r, fromString(parts[0]), fromString(Completed(parts[0], parts[1]))))
  {
    hide *;
    var n := if parts[|parts| - 1] == "" then |parts| - 1 else |parts|;
    PartsOfText(parts);
    PartsDenote(parts[..n], fromString);
    assert n == |parts| ==> parts[..n] == parts;
  }

  lemma DashedPair(f: string, t: string)
    ensures Join([f, t], "-") == f + "-" + t && Join([f], "-") == f
  {
    JoinCons(f, [t], "-");
    assert [f] + [t] == [f, t];
    assert Join([t], "-") == t;
  }

  lemma PairDenotes(f: string, t: string, end: string, fromString: string -> Result<Ipv4Addr>)
    requires '-' !in f && '-' !in t && t != "" && end == Completed(f, t)
    ensures Denotes(RangeOfParts(DropFinalEmpty(Split(f + "-" + t, "-")), fromString), fromString(f), fromString(end))
  {
    hide Completed, Join, Split, DropFinalEmpty, RangeOfParts, Denotes;
    DashedPair(f, t);
    RangeOfText([f, t], fromString);
  }

  lemma SingleDenotes(s: string, end: string, fromString: string -> Result<Ipv4Addr>)
    requires '-' !in s && s != "" && end == Completed(s, s)
    ensures Denotes(RangeOfParts(DropFinalEmpty(Split(s, "-")), fromString), fromString(s), fromString(end))
  {
    hide Completed, Join, Split, DropFinalEmpty, RangeOfParts, Denotes;
    DashedPair(s, s);
    RangeOfText([s], fromString);
  }

  /** "from-till" denotes the range from the first address to the completed second one. */
  lemma RangeOfDotted(from: seq<string>, till: seq<string>, fromString: string -> Result<Ipv4Addr>)
    requires from != [] && till != [] && DotFree(from) && DotFree(till)
    requires '-' !in Join(from, ".") && '-' !in Join(till, ".") && Join(till, ".") != ""
    ensures Denotes(RangeOfParts(DropFinalEmpty(Split(Join(from, ".") + "-" + Join(till, "."), "-")), fromString),
                    fromString(Join(from, ".")),
                    fromString(Join(from[..Lacking(|till|) % |from|] + till, ".")))
  {
    hide *;
    CompletionFillsOctets(from, till);
    PairDenotes(Join(from, "."), Join(till, "."), Completed(Join(from, "."), Join(till, ".")), fromString);
  }

  lemma JoinTwice(from: seq<string>)
    requires from != []
    ensures Join(from[..0] + from, ".") == Join(from, ".")
    ensures Join(from[..1] + from, ".") == from[0] + "." + Join(from, ".")
  {
    JoinCons(from[0], from, ".");
    assert from[..1] + from == [from[0]] + from;
    assert from[..0] + from == from;
  }

  lemma LackingOf(octets: nat)
    requires octets > 0
    ensures Lacking(octets) % octets == if octets == 3 then 1 else 0
  {
  }

  /** Three octets are completed by their first one, any other number by none. */
  lemma CompletesItself(from: seq<string>)
    requires from != [] && DotFree(from)
    ensures var s := Join(from, ".");
            Completed(s, s) == if |from| == 3 then from[0] + "." + s else s
  {
    hide *;
    CompletionFillsOctets(from, from);
    LackingOf(|from|);
    JoinTwice(from);
  }

  lemma SameEnds(r: Result<Range>, a: Result<Ipv4Addr>)
    requires Denotes(r, a, a)
    ensures r == if a.Ok? then Ok(Range(a.value, a.value)) else Err(InvalidArgument)
  {
  }

  /** A single address of four octets is a range of one. */
  lemma RangeOfSingle(from: seq<string>, fromString: string -> Result<Ipv4Addr>)
    requires from != [] && DotFree(from) && '-' !in Join(from, ".") && Join(from, ".") != ""
    ensures var s := Join(from, ".");
            var r := RangeOfParts(DropFinalEmpty(Split(s, "-")), fromString);
            && Denotes(r, fromString(s), fromString(if |from| == 3 then from[0] + "." + s else s))
            && (|from| != 3 ==>
                  r == if fromString(s).Ok? then Ok(Range(fromString(s).value, fromString(s).value))
                       else Err(InvalidArgument))
  {
    hide *;
    var s := Join(from, ".");
    CompletesItself(from);
    SingleDenotes(s, Completed(s, s), fromString);
    if |from| != 3 {
      SameEnds(RangeOfParts(DropFinalEmpty(Split(s, "-")), fromString), fromString(s));
    }
  }
}
