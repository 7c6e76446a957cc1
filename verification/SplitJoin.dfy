/** Splitting a string at a delimiter, by string and by character, and joining pieces again. */
module SplitJoin {
  import opened Basics

  predicate OccursAt(s: string, d: string, i: nat) {
    i + |d| <= |s| && forall j :: 0 <= j < |d| ==> s[i + j] == d[j]
  }

  /** std::string::find: the first occurrence at or after pos, -1 if there is none (FindIsFirst). */
  function Find(s: string, d: string, pos: nat): (r: int)
    ensures -1 <= r && (r >= 0 ==> pos <= r && r + |d| <= |s|)
    decreases |s| - pos
  {
    if pos + |d| > |s| then -1
    else if OccursAt(s, d, pos) then pos
    else Find(s, d, pos + 1)
  }

  lemma {:induction false} FindIsFirst(s: string, d: string, pos: nat)
    ensures Find(s, d, pos) < 0 ==> forall i :: pos <= i ==> !OccursAt(s, d, i)
    ensures Find(s, d, pos) >= 0 ==>
              OccursAt(s, d, Find(s, d, pos)) && forall i :: pos <= i < Find(s, d, pos) ==> !OccursAt(s, d, i)
    decreases |s| - pos
  {
    if pos + |d| <= |s| && !OccursAt(s, d, pos) {
      FindIsFirst(s, d, pos + 1);
    }
  }

  /** The pieces of s from pos on. */
  function Split(s: string, d: string, pos: nat := 0): (r: seq<string>)
    requires d != "" && pos <= |s|
    ensures r != []
    decreases |s| - pos
  {
    var end := Find(s, d, pos);
    if end < 0 then [s[pos..]] else [s[pos..end]] + Split(s, d, end + |d|)
  }

  function Join(parts: seq<string>, d: string): string {
    if parts == [] then ""
    else if |parts| == 1 then parts[0]
    else parts[0] + d + Join(parts[1..], d)
  }

  lemma SliceOfSlice(s: string, a: nat, b: nat, i: nat, k: nat)
    requires i <= k && a + k <= b <= |s|
    ensures s[a..b][i..k] == s[a + i..a + k]
  {
    var u, v := s[a..b][i..k], s[a + i..a + k];
    forall x | 0 <= x < k - i ensures u[x] == v[x] {}
    assert |u| == |v| == k - i;
  }

  lemma Cut(s: string, a: nat, b: nat, c: nat)
    requires a <= b <= c <= |s|
    ensures s[a..] == s[a..b] + s[b..c] + s[c..]
  {
  }

  lemma {:induction false} FindShifted(s: string, d: string, pos: nat, k: nat)
    requires pos + k <= |s|
    ensures Find(s, d, pos + k) == if Find(s[pos..], d, k) < 0 then -1 else pos + Find(s[pos..], d, k)
    decreases |s| - k
  {
    if pos + k + |d| <= |s| {
      assert OccursAt(s[pos..], d, k) <==> OccursAt(s, d, pos + k);
      if k < |s[pos..]| {
        FindShifted(s, d, pos, k + 1);
      }
    }
  }

  /** Splitting from a position on is splitting the rest of the string. */
  lemma {:induction false} SplitShifted(s: string, d: string, pos: nat, k: nat)
    requires d != "" && pos + k <= |s|
    ensures Split(s, d, pos + k) == Split(s[pos..], d, k)
    decreases |s| - k
  {
    hide Find, OccursAt;
    var rest := s[pos..];
    assert rest == s[pos..|s|];
    FindShifted(s, d, pos, k);
    var end := Find(rest, d, k);
    if end < 0 {
      SliceOfSlice(s, pos, |s|, k, |rest|);
      assert rest[k..] == s[pos + k..];
    } else {
      var next := end + |d|;
      SliceOfSlice(s, pos, |s|, k, end);
      SplitShifted(s, d, pos, next);
      assert Split(rest, d, k) == [rest[k..end]] + Split(rest, d, next);
      assert Split(s, d, pos + k) == [s[pos + k..pos + end]] + Split(s, d, pos + next);
    }
  }

  lemma Associate(a: seq<string>, b: string, c: seq<string>)
    ensures a + ([b] + c) == a + [b] + c
  {
  }

  /** The split at a string. */
  method SplitAt(s: string, delimiter: string) returns (res: seq<string>)
    requires delimiter != ""
    ensures res == Split(s, delimiter)
  {
    hide OccursAt;
    var posStart := 0;
    var posEnd := Find(s, delimiter, posStart);
    res := [];
    while posEnd >= 0
      invariant 0 <= posStart <= |s| && posEnd == Find(s, delimiter, posStart)
      invariant res + Split(s, delimiter, posStart) == Split(s, delimiter)
      decreases |s| - posStart
    {
      var token := s[posStart..posEnd];
      Associate(res, token, Split(s, delimiter, posEnd + |delimiter|));
      posStart := posEnd + |delimiter|;
      res := res + [token];
      posEnd := Find(s, delimiter, posStart);
    }
    res := res + [s[posStart..]];
  }

  lemma JoinCons(first: string, rest: seq<string>, d: string)
    requires rest != []
    ensures Join([first] + rest, d) == first + d + Join(rest, d)
  {
    assert ([first] + rest)[1..] == rest;
  }

  /** Joining the pieces with the delimiter gives the string back. */
  lemma {:induction false} JoinOfSplit(s: string, d: string, pos: nat)
    requires d != "" && pos <= |s|
    ensures Join(Split(s, d, pos), d) == s[pos..]
    decreases |s| - pos
  {
    var end := Find(s, d, pos);
    if end >= 0 {
      var rest := Split(s, d, end + |d|);
      JoinOfSplit(s, d, end + |d|);
      JoinCons(s[pos..end], rest, d);
      assert s[end..end + |d|] == d by { FindIsFirst(s, d, pos); }
      Cut(s, pos, end, end + |d|);
    }
  }

  predicate Contains(s: string, d: string) {
    Find(s, d, 0) >= 0
  }

  /** No piece contains the delimiter. */
  lemma {:induction false} PiecesAreFree(s: string, d: string, pos: nat, k: nat)
    requires d != "" && pos <= |s| && k < |Split(s, d, pos)|
    ensures !Contains(Split(s, d, pos)[k], d)
    decreases |s| - pos
  {
    var end := Find(s, d, pos);
    if end < 0 {
      FindShifted(s, d, pos, 0);
    } else if k == 0 {
      FirstPieceIsFree(s, d, pos);
    } else {
      PiecesAreFree(s, d, end + |d|, k - 1);
    }
  }

  lemma FirstPieceIsFree(s: string, d: string, pos: nat)
    requires d != "" && Find(s, d, pos) >= 0
    ensures !Contains(s[pos..Find(s, d, pos)], d)
  {
    var p := s[pos..Find(s, d, pos)];
    FindIsFirst(s, d, pos);
    FindIsFirst(p, d, 0);
    var j := Find(p, d, 0);
    assert j >= 0 ==> OccursAt(s, d, pos + j);
  }

  /** Each part but the last meets the delimiter first at its own end, and the last has none. */
  ghost predicate Separable(parts: seq<string>, d: string)
    requires parts != []
  {
    && (forall k :: 0 <= k < |parts| - 1 ==> Find(parts[k] + d, d, 0) == |parts[k]|)
    && !Contains(parts[|parts| - 1], d)
  }

  /** What follows a delimiter does not change where the delimiter is first met. */
  lemma FindAcross(p: string, d: string, rest: string)
    requires d != ""
    ensures 0 <= Find(p + d, d, 0) == Find(p + d + rest, d, 0) <= |p|
  {
    var s, t := p + d, p + d + rest;
    FindIsFirst(s, d, 0);
    FindIsFirst(t, d, 0);
    assert OccursAt(s, d, |p|);
    assert t[..|s|] == s;
    forall i: nat | i <= |p| ensures OccursAt(s, d, i) <==> OccursAt(t, d, i) {
      assert OccursAt(t[..|s|], d, i) <==> OccursAt(t, d, i);
    }
  }

  lemma FirstAt(p: string, c: char, rest: string)
    requires c !in p
    ensures Find(p + [c] + rest, [c], 0) == |p|
  {
    var s := p + [c] + rest;
    FindIsFirst(s, [c], 0);
    assert s[|p| + 0] == c;
    assert OccursAt(s, [c], |p|);
    var i := Find(s, [c], 0);
    assert s[i + 0] == [c][0];
  }

  lemma {:induction false} NotFound(s: string, c: char, pos: nat)
    requires c !in s
    ensures Find(s, [c], pos) < 0
    decreases |s| - pos
  {
    if pos < |s| {
      assert s[pos + 0] != [c][0];
      NotFound(s, c, pos + 1);
    }
  }

  /** Splitting a join gives the parts back exactly if they are separable. */
  lemma {:induction false} SplitOfJoin(parts: seq<string>, d: string)
    requires d != "" && parts != []
    ensures Split(Join(parts, d), d) == parts <==> Separable(parts, d)
    decreases |parts|
  {
    if |parts| > 1 {
      SplitAcross(parts[0], d, Join(parts[1..], d));
      SplitOfJoin(parts[1..], d);
      SeparableTail(parts, d);
      assert parts == [parts[0]] + parts[1..];
    }
  }

  lemma SplitAcross(p: string, d: string, rest: string)
    requires d != ""
    ensures if Find(p + d, d, 0) == |p| then Split(p + d + rest, d) == [p] + Split(rest, d)
            else Split(p + d + rest, d)[0] != p
  {
    hide Find, OccursAt;
    var s := p + d + rest;
    FindAcross(p, d, rest);
    if Find(s, d, 0) == |p| {
      assert s[0..|p|] == p && s[|p| + |d|..] == rest;
      SplitShifted(s, d, |p| + |d|, 0);
    }
  }

  lemma SeparableTail(parts: seq<string>, d: string)
    requires |parts| > 1
    ensures Separable(parts, d) <==> Find(parts[0] + d, d, 0) == |parts[0]| && Separable(parts[1..], d)
  {
    forall k | 0 <= k < |parts| - 1 ensures parts[1..][k] == parts[k + 1] {}
    if Find(parts[0] + d, d, 0) == |parts[0]| && Separable(parts[1..], d) {
      forall k | 0 <= k < |parts| - 1 ensures Find(parts[k] + d, d, 0) == |parts[k]| {
        if k > 0 { assert parts[k] == parts[1..][k - 1]; }
      }
    }
  }

  // ----- The split at a character

  /** What repeated std::getline yields from pos on: nothing more once all characters are read. */
  function Lines(s: string, delim: char, pos: nat): seq<string>
    requires pos <= |s|
    decreases |s| - pos
  {
    var end := Find(s, [delim], pos);
    if pos == |s| then []
    else if end < 0 then [s[pos..]]
    else [s[pos..end]] + Lines(s, delim, end + 1)
  }

  /** The split at a character is the split at the one-character string without a final empty piece. */
  lemma {:induction false} LinesAreSplit(s: string, delim: char, pos: nat)
    requires pos <= |s|
    ensures Lines(s, delim, pos) == DropFinalEmpty(Split(s, [delim], pos))
    decreases |s| - pos
  {
    hide Find, OccursAt;
    var end := Find(s, [delim], pos);
    if end >= 0 {
      var rest := Split(s, [delim], end + 1);
      assert Split(s, [delim], pos) == [s[pos..end]] + rest;
      LinesAreSplit(s, delim, end + 1);
      DropFinalEmptyTail(s[pos..end], rest);
    } else {
      assert Split(s, [delim], pos) == [s[pos..]];
      assert s[pos..] == "" <==> pos == |s|;
    }
  }

  method SplitAtChar(s: string, delim: char) returns (result: seq<string>)
    ensures result == DropFinalEmpty(Split(s, [delim]))
  {
    result := [];
    var pos := 0;
    while pos < |s|
      invariant 0 <= pos <= |s|
      invariant result + Lines(s, delim, pos) == Lines(s, delim, 0)
      decreases |s| - pos
    {
      var end := Find(s, [delim], pos);
      if end < 0 {
        result := result + [s[pos..]];
        pos := |s|;
      } else {
        Associate(result, s[pos..end], Lines(s, delim, end + 1));
        result := result + [s[pos..end]];
        pos := end + 1;
      }
    }
    LinesAreSplit(s, delim, 0);
  }

  lemma DropFinalEmptyTail(first: string, rest: seq<string>)
    requires rest != []
    ensures DropFinalEmpty([first] + rest) == [first] + DropFinalEmpty(rest)
  {
    assert ([first] + rest)[|rest|] == rest[|rest| - 1];
  }

  function DropFinalEmpty(parts: seq<string>): seq<string>
    requires parts != []
  {
    if parts[|parts| - 1] == "" then parts[..|parts| - 1] else parts
  }

  lemma {:induction false} JoinSnocLast(parts: seq<string>, d: string)
    requires |parts| > 1
    ensures Join(parts, d) == Join(parts[..|parts| - 1], d) + (d + parts[|parts| - 1])
  {
    assert parts == parts[..|parts| - 1] + [parts[|parts| - 1]];
    JoinSnoc(parts[..|parts| - 1], parts[|parts| - 1], d);
  }

  /** The lines of a text: there are none in an empty one; none contains the delimiter; and joined they
      are the text, but for a delimiter at its end. */
  lemma LinesRebuild(s: string, delim: char)
    ensures var lines := DropFinalEmpty(Split(s, [delim]));
            && (lines == [] <==> s == "")
            && (forall k :: 0 <= k < |lines| ==> delim !in lines[k])
            && s == Join(lines, [delim]) + if s != "" && s[|s| - 1] == delim then [delim] else ""
  {
    var parts, d := Split(s, [delim]), [delim];
    JoinOfSplit(s, d, 0);
    assert s[0..] == s;
    forall k | 0 <= k < |parts| ensures delim !in parts[k] {
      PiecesAreFree(s, d, 0, k);
      FindIsFirst(parts[k], d, 0);
      assert forall i :: 0 <= i < |parts[k]| && parts[k][i] == delim ==> OccursAt(parts[k], d, i);
    }
    LastPiece(s, parts, delim);
  }

  lemma EndOfText(front: string, last: string, delim: char)
    requires delim !in last
    ensures var s := front + ([delim] + last);
            && s != "" && (s[|s| - 1] == delim <==> last == "")
            && (last == "" ==> s == front + [delim])
    ensures last != "" ==> last[|last| - 1] != delim
  {
    if last != "" {
      assert last[|last| - 1] in last;
    }
  }

  lemma LastPiece(s: string, parts: seq<string>, delim: char)
    requires parts != [] && s == Join(parts, [delim]) && delim !in parts[|parts| - 1]
    ensures var lines := DropFinalEmpty(parts);
            && (lines == [] <==> s == "")
            && s == Join(lines, [delim]) + if s != "" && s[|s| - 1] == delim then [delim] else ""
  {
    var n, last := |parts| - 1, parts[|parts| - 1];
    EndOfText(Join(parts[..n], [delim]), last, delim);
    assert s + "" == s;
    if n > 0 {
      JoinSnocLast(parts, [delim]);
      hide Join;
      assert DropFinalEmpty(parts) == if last == "" then parts[..n] else parts;
    }
  }

  // ----- Joining with parameters

  /** A default-constructed view for empty prints start and end instead. */
  datatype JoinParams = JoinParams(sep: string, start: string, end: string, before: string, after: string,
                                   empty: Option<string>)

  function Wrapped(items: seq<string>, p: JoinParams): (r: seq<string>)
    ensures |r| == |items|
  {
    seq(|items|, i requires 0 <= i < |items| => p.before + items[i] + p.after)
  }

  method JoinTo(os0: string, items: seq<string>, p: JoinParams) returns (os: string)
    ensures os == os0 + if items == [] && p.empty.Some? then p.empty.value
                        else p.start + Join(Wrapped(items, p), p.sep) + p.end
    ensures items == [] ==> os == os0 + if p.empty.Some? then p.empty.value else p.start + p.end
  {
    os := os0;
    if items == [] {
      if p.empty.Some? {
        os := os + p.empty.value;
      } else {
        os := os + p.start + p.end;
      }
    } else {
      hide Join, Wrapped;
      os := os + p.start;
      os := os + p.before + items[0] + p.after;
      ghost var parts := Wrapped(items, p);
      JoinFirst(items, p);
      Glue(os0, p.start, p.before, items[0], p.after);
      for i := 1 to |items|
        invariant os == os0 + p.start + Join(parts[..i], p.sep)
      {
        JoinNext(items, p, i);
        Associate3(os0 + p.start, Join(parts[..i], p.sep), p.sep + (p.before + items[i] + p.after));
        Glue(os, p.sep, p.before, items[i], p.after);
        os := os + p.sep + p.before + items[i] + p.after;
      }
      assert parts[..|items|] == parts;
      os := os + p.end;
      Associate4(os0, p.start, Join(parts, p.sep), p.end);
    }
  }

  lemma JoinFirst(items: seq<string>, p: JoinParams)
    requires items != []
    ensures Join(Wrapped(items, p)[..1], p.sep) == p.before + items[0] + p.after
  {
  }

  lemma JoinNext(items: seq<string>, p: JoinParams, i: nat)
    requires 0 < i < |items|
    ensures var parts := Wrapped(items, p);
            Join(parts[..i + 1], p.sep) == Join(parts[..i], p.sep) + (p.sep + (p.before + items[i] + p.after))
  {
    var parts := Wrapped(items, p);
    assert parts[..i + 1] == parts[..i] + [parts[i]];
    JoinSnoc(parts[..i], parts[i], p.sep);
  }

  lemma Associate3(a: string, b: string, c: string)
    ensures a + b + c == a + (b + c)
  {
  }

  lemma Associate4(a: string, b: string, c: string, d: string)
    ensures a + b + c + d == a + (b + c + d)
  {
  }

  lemma Glue(a: string, b: string, c: string, d: string, e: string)
    ensures a + b + c + d + e == a + (b + (c + d + e))
  {
  }

  lemma {:induction false} JoinSnoc(parts: seq<string>, last: string, d: string)
    requires parts != []
    ensures Join(parts + [last], d) == Join(parts, d) + (d + last)
  {
    if |parts| > 1 {
      assert (parts + [last])[1..] == parts[1..] + [last];
      JoinSnoc(parts[1..], last, d);
    }
  }
}
