/** A number printed with a comma between each group of three digits, inserted in place from the end. */
module CommaSeparated {
  import opened Basics
  import opened Decimal

  /** Groups of three digits from the right, separated by commas. */
  function Grouped(s: string): string {
    if |s| <= 3 then s else Grouped(s[..|s| - 3]) + "," + s[|s| - 3..]
  }

  function WithoutCommas(s: string): string {
    if s == "" then ""
    else WithoutCommas(s[..|s| - 1]) + if s[|s| - 1] == ',' then "" else [s[|s| - 1]]
  }

  lemma {:induction false} WithoutCommasConcat(a: string, b: string)
    ensures WithoutCommas(a + b) == WithoutCommas(a) + WithoutCommas(b)
  {
    if b == "" {
      assert a + b == a;
    } else {
      var n := |b| - 1;
      assert (a + b)[..|a + b| - 1] == a + b[..n];
      WithoutCommasConcat(a, b[..n]);
    }
  }

  lemma {:induction false} NoCommas(s: string)
    requires ',' !in s
    ensures WithoutCommas(s) == s
  {
    if s != "" {
      NoCommas(s[..|s| - 1]);
      assert s == s[..|s| - 1] + [s[|s| - 1]];
    }
  }

  /** Grouping adds one comma for every three digits beyond the first ones, never a leading one. */
  lemma {:induction false} GroupedShape(s: string)
    requires ',' !in s && s != ""
    ensures |Grouped(s)| == |s| + (|s| - 1) / 3
    ensures Grouped(s)[0] != ','
  {
    if |s| > 3 {
      GroupedShape(s[..|s| - 3]);
    }
  }

  /** From the right, every fourth character is a comma. */
  lemma {:induction false} GroupedCommas(s: string, i: nat)
    requires ',' !in s && i < |Grouped(s)|
    ensures Grouped(s)[i] == ',' <==> (|Grouped(s)| - i) % 4 == 0
  {
    if |s| > 3 {
      var head := Grouped(s[..|s| - 3]);
      if i < |head| {
        GroupedCommas(s[..|s| - 3], i);
      } else if i > |head| {
        assert Grouped(s)[i] == s[|s| - (|Grouped(s)| - i)];
      }
    }
  }

  /** Taking the commas out again gives the digits back. */
  lemma {:induction false} GroupedKeepsDigits(s: string)
    requires ',' !in s
    ensures WithoutCommas(Grouped(s)) == s
  {
    if |s| <= 3 {
      NoCommas(s);
    } else {
      var head, last := s[..|s| - 3], s[|s| - 3..];
      GroupedKeepsDigits(head);
      NoCommas(last);
      CommaVanishes(Grouped(head), last);
      assert s == head + last;
    }
  }

  lemma CommaVanishes(a: string, b: string)
    ensures WithoutCommas(a + "," + b) == WithoutCommas(a) + WithoutCommas(b)
  {
    WithoutCommasConcat(a + ",", b);
    assert (a + ",")[..|a|] == a;
  }

  function CommaAfter(following: nat): string {
    if following > 0 && following % 3 == 0 then "," else ""
  }

  /** The same grouping digit by digit: a comma stands where the digits that follow fill groups. */
  function Spelled(s: string): string {
    if s == "" then "" else [s[0]] + (CommaAfter(|s| - 1) + Spelled(s[1..]))
  }

  lemma {:induction false} SpelledLength(s: string)
    requires s != ""
    ensures |Spelled(s)| == |s| + (|s| - 1) / 3
  {
    if |s| > 1 {
      SpelledLength(s[1..]);
    }
  }

  lemma Associate(a: string, b: string, c: string)
    ensures a + (b + c) == a + b + c
  {
  }

  lemma SpelledThree(s: string)
    requires |s| == 3
    ensures Spelled(s) == s
  {
    assert Spelled(s[1..][1..]) == [s[2]];
    assert Spelled(s[1..]) == [s[1]] + ("" + [s[2]]);
  }

  lemma {:induction false} SpelledConcat(a: string, b: string)
    requires a != "" && |b| == 3
    ensures Spelled(a + b) == Spelled(a) + ("," + b)
  {
    assert (a + b)[1..] == a[1..] + b;
    if |a| == 1 {
      SpelledThree(b);
      assert a[1..] + b == b;
    } else {
      var comma, rest := CommaAfter(|a| - 1), Spelled(a[1..]);
      SpelledConcat(a[1..], b);
      Associate(comma, rest, "," + b);
      Associate([a[0]], comma + rest, "," + b);
    }
  }

  lemma {:induction false} SpelledIsGrouped(s: string)
    ensures Spelled(s) == Grouped(s)
  {
    if |s| > 3 {
      var head, last := s[..|s| - 3], s[|s| - 3..];
      assert s == head + last;
      SpelledConcat(head, last);
      SpelledIsGrouped(head);
    } else {
      SpelledShort(s);
    }
  }

  lemma SpelledShort(s: string)
    requires |s| <= 3
    ensures Spelled(s) == s
  {
    if |s| == 3 {
      SpelledThree(s);
    } else if |s| == 2 {
      assert Spelled(s[1..]) == [s[1]];
    }
  }

  /** What stands behind the gap once the last n digits of s were moved. */
  function Tail(s: string, n: nat): string
    requires n <= |s|
  {
    CommaAfter(n) + Spelled(s[|s| - n..])
  }

  lemma TailGrows(s: string, n: nat)
    requires n < |s|
    ensures Tail(s, n + 1) == CommaAfter(n + 1) + ([s[|s| - n - 1]] + Tail(s, n))
  {
    assert s[|s| - n - 1..][1..] == s[|s| - n..];
  }

  /** Once the digits not moved are at most three, they and the tail make the grouping. */
  lemma {:induction false} TailCompletes(s: string, n: nat)
    requires n < |s| <= n + 3 && n % 3 == 0
    ensures s[..|s| - n] + Tail(s, n) == Grouped(s)
  {
    SpelledIsGrouped(s);
    FrontSpelled(s, |s| - n);
  }

  lemma NoCommaYet(following: nat, k: nat)
    requires 1 <= k <= 2 && following >= k && (following - k) % 3 == 0
    ensures CommaAfter(following) == ""
  {
  }

  lemma {:induction false} FrontSpelled(s: string, k: nat)
    requires 1 <= k <= 3 && k <= |s| && (|s| - k) % 3 == 0
    ensures s[..k] + Tail(s, |s| - k) == Spelled(s)
  {
    if k == 1 {
      assert s[..1] == [s[0]];
    } else {
      var t, tail := s[1..], Tail(s, |s| - k);
      FrontSpelled(t, k - 1);
      NoCommaYet(|s| - 1, k - 1);
      assert Tail(t, |s| - k) == tail by { assert t[k - 1..] == s[k..]; }
      assert Spelled(s) == [s[0]] + (t[..k - 1] + tail) by { assert "" + Spelled(t) == Spelled(t); }
      assert s[..k] == [s[0]] + t[..k - 1];
      Associate([s[0]], t[..k - 1], tail);
    }
  }

  method StringLength(buf: array<char>) returns (len: nat)
    requires exists i :: 0 <= i < buf.Length && buf[i] == NUL
    ensures len < buf.Length && buf[len] == NUL && forall i :: 0 <= i < len ==> buf[i] != NUL
  {
    len := 0;
    while buf[len] != NUL
      invariant len < buf.Length && forall i :: 0 <= i < len ==> buf[i] != NUL
      decreases buf.Length - len
    {
      len := len + 1;
    }
  }

  // ----- Cells read and written

  datatype Access = Read(i: nat) | Write(i: nat)

  /** No cell is read after it was overwritten. */
  ghost predicate ReadsOriginals(log: seq<Access>) {
    forall a, b :: 0 <= a < b < |log| && log[a].Write? && log[b].Read? ==> log[a].i != log[b].i
  }

  ghost predicate WrittenAbove(log: seq<Access>, len: int) {
    forall a :: 0 <= a < |log| && log[a].Write? ==> log[a].i > len
  }

  /** One digit moved, and a comma put before it. */
  lemma ReadsOn(log: seq<Access>, from: nat, to: nat)
    requires ReadsOriginals(log) && WrittenAbove(log, from) && from < to
    ensures var moved := log + [Read(from), Write(to)];
            && ReadsOriginals(moved) && WrittenAbove(moved, from - 1)
            && ReadsOriginals(moved + [Write(to - 1)]) && WrittenAbove(moved + [Write(to - 1)], from - 1)
  {
    var all := log + [Read(from), Write(to)] + [Write(to - 1)];
    forall a, b | 0 <= a < b < |all| && all[a].Write? && all[b].Read? ensures all[a].i != all[b].i {
      if a < |log| {
        assert all[a] == log[a];
      }
    }
    assert forall a :: 0 <= a < |log| + 2 ==> (log + [Read(from), Write(to)])[a] == all[a];
  }

  /** Copies a cell. */
  method Move(buf: array<char>, to: nat, from: nat, ghost log0: seq<Access>) returns (ghost log: seq<Access>)
    requires from < buf.Length && to < buf.Length
    modifies buf
    ensures buf[..] == old(buf[..])[to := old(buf[..])[from]]
    ensures log == log0 + [Read(from), Write(to)]
  {
    buf[to] := buf[from];
    log := log0 + [Read(from), Write(to)];
  }

  method Store(buf: array<char>, i: nat, c: char, ghost log0: seq<Access>) returns (ghost log: seq<Access>)
    requires i < buf.Length
    modifies buf
    ensures buf[..] == old(buf[..])[i := c]
    ensures log == log0 + [Write(i)]
  {
    buf[i] := c;
    log := log0 + [Write(i)];
  }

  /** The buffer after n of the digits were moved: the digits not moved yet are untouched, behind a
      gap stands the finished tail. */
  ghost predicate Moved(buf: seq<char>, was: seq<char>, s: string, n: nat, len: int, nlen: int)
    requires n <= |s| && |s| + (|s| - 1) / 3 < |buf| == |was|
  {
    var end := |s| + (|s| - 1) / 3;
    && len == |s| - 1 - n && nlen == len + (|s| - 1) / 3 - n / 3 && -1 <= len <= nlen
    && buf[..len + 1] == s[..len + 1]
    && buf[nlen + 1..end] == Tail(s, n) && buf[end] == NUL
    && buf[end + 1..] == was[end + 1..]
  }

  lemma MovedAll(buf: seq<char>, was: seq<char>, s: string, n: nat, len: int)
    requires n <= |s| && 0 < |s| && |s| + (|s| - 1) / 3 < |buf| == |was| && ',' !in s
    requires n == (|s| - 1) / 3 * 3 && Moved(buf, was, s, n, len, len)
    ensures var g := Grouped(s);
            |g| < |buf| && buf[..|g|] == g && buf[|g|] == NUL && buf[|g| + 1..] == was[|g| + 1..]
  {
    hide Tail, Spelled, Grouped;
    var end := |s| + (|s| - 1) / 3;
    GroupedShape(s);
    TailCompletes(s, n);
    assert buf[..end] == buf[..len + 1] + buf[len + 1..end];
  }

  /** The body of the loop: one digit, and a comma if it fills a group. */
  method MoveDigit(buf: array<char>, len0: int, nlen0: int, n0: nat, ghost log0: seq<Access>)
    returns (len: int, nlen: int, n: nat, ghost log: seq<Access>)
    requires 0 <= len0 < nlen0 < buf.Length
    requires ReadsOriginals(log0) && WrittenAbove(log0, len0)
    modifies buf
    ensures n == n0 + 1 && len == len0 - 1
    ensures n % 3 != 0 ==> nlen == nlen0 - 1 && buf[..] == old(buf[..])[nlen0 := old(buf[..])[len0]]
    ensures n % 3 == 0 ==>
              nlen == nlen0 - 2 && buf[..] == old(buf[..])[nlen0 := old(buf[..])[len0]][nlen0 - 1 := ',']
    ensures log0 <= log && ReadsOriginals(log) && WrittenAbove(log, len)
  {
    hide ReadsOriginals, WrittenAbove;
    log := Move(buf, nlen0, len0, log0);
    len, nlen, n := len0 - 1, nlen0 - 1, n0;
    ReadsOn(log0, len0, nlen0);
    if nlen >= 0 {
      n := n + 1;
      if n % 3 == 0 {
        log := Store(buf, nlen, ',', log);
        nlen := nlen - 1;
      }
    }
  }

  /** The loop of the constructor. No cell is read after it was overwritten; the loop ends where no more
      commas are due. */
  method SpreadDigits(buf: array<char>, ghost was: seq<char>, ghost digits: string, len0: int, nlen0: int,
                      ghost log0: seq<Access>)
    returns (ghost n: nat, ghost log: seq<Access>)
    requires 0 < |digits| && |digits| + (|digits| - 1) / 3 < buf.Length == |was|
    requires Moved(buf[..], was, digits, 0, len0, nlen0)
    requires ReadsOriginals(log0) && WrittenAbove(log0, len0)
    modifies buf
    ensures n == (|digits| - 1) / 3 * 3 && Moved(buf[..], was, digits, n, |digits| - 1 - n, |digits| - 1 - n)
    ensures log0 <= log && ReadsOriginals(log)
  {
    hide Moved, ReadsOriginals, WrittenAbove;
    var len, nlen, count := len0, nlen0, 0;
    log := log0;
    while len >= 0 && nlen >= 0 && nlen != len
      decreases len
      invariant 0 <= count <= (|digits| - 1) / 3 * 3
      invariant Moved(buf[..], was, digits, count, len, nlen)
      invariant log0 <= log && ReadsOriginals(log) && WrittenAbove(log, len)
    {
      LoopGoesOn(buf[..], was, digits, count, len, nlen);
      MoveOne(buf[..], was, digits, count, len, nlen);
      len, nlen, count, log := MoveDigit(buf, len, nlen, count, log);
    }
    LoopGoesOn(buf[..], was, digits, count, len, nlen);
    n := count;
  }

  /** The loop goes on exactly while commas are due. */
  lemma LoopGoesOn(buf: seq<char>, was: seq<char>, s: string, n: nat, len: int, nlen: int)
    requires 0 < |s| && n <= (|s| - 1) / 3 * 3 && |s| + (|s| - 1) / 3 < |buf| == |was|
    requires Moved(buf, was, s, n, len, nlen)
    ensures if len >= 0 && nlen >= 0 && nlen != len then n < (|s| - 1) / 3 * 3
            else n == (|s| - 1) / 3 * 3 && nlen == len == |s| - 1 - n
  {
  }

  method InsertCommas(buf: array<char>, ghost digits: string) returns (ghost log: seq<Access>)
    requires 0 < |digits| && |digits| + (|digits| - 1) / 3 < buf.Length
    requires NUL !in digits && ',' !in digits && buf[..|digits|] == digits && buf[|digits|] == NUL
    modifies buf
    ensures |Grouped(digits)| < buf.Length
    ensures buf[..|Grouped(digits)|] == Grouped(digits) && buf[|Grouped(digits)|] == NUL
    ensures buf[|Grouped(digits)| + 1..] == old(buf[..])[|Grouped(digits)| + 1..]
    ensures ReadsOriginals(log)
  {
    hide Moved, ReadsOriginals, WrittenAbove, Grouped;
    log := [];
    FirstReads(|digits|, |digits| + (|digits| - 1) / 3);
    ghost var was, n := buf[..], 0;
    var len := StringLength(buf);
    assert forall i :: 0 <= i < |digits| ==> buf[i] == buf[..|digits|][i] == digits[i];
    var nlen := len + (len - 1) / 3;
    MovedNone(was, digits, len, nlen);
    if len >= 0 && nlen >= 0 && nlen != len {
      log := Move(buf, nlen, len, log);
      n, log := SpreadDigits(buf, was, digits, len - 1, nlen - 1, log);
    }
    MovedAll(buf[..], was, digits, n, |digits| - 1 - n);
  }

  lemma FirstReads(len: nat, nlen: nat)
    ensures ReadsOriginals([])
    ensures len < nlen ==> ReadsOriginals([] + [Read(len), Write(nlen)])
    ensures len < nlen ==> WrittenAbove([] + [Read(len), Write(nlen)], len - 1)
  {
  }

  /** The NUL moved, no digit yet. */
  lemma MovedNone(was: seq<char>, s: string, len: nat, nlen: nat)
    requires 0 < |s| && len == |s| && nlen == |s| + (|s| - 1) / 3 < |was|
    requires was[..len] == s && was[len] == NUL
    ensures Moved(was[nlen := was[len]], was, s, 0, len - 1, nlen - 1)
    ensures nlen == len ==> Moved(was, was, s, 0, len - 1, len - 1)
  {
    assert s[|s|..] == "";
  }

  lemma MoveOne(buf: seq<char>, was: seq<char>, s: string, n: nat, len: int, nlen: int)
    requires n < (|s| - 1) / 3 * 3 && |s| + (|s| - 1) / 3 < |buf| == |was|
    requires Moved(buf, was, s, n, len, nlen)
    ensures 0 <= len < nlen < |buf|
    ensures var buf' := buf[nlen := buf[len]];
            if (n + 1) % 3 == 0 then Moved(buf'[nlen - 1 := ','], was, s, n + 1, len - 1, nlen - 2)
            else Moved(buf', was, s, n + 1, len - 1, nlen - 1)
  {
    hide Tail, Spelled;
    TailGrows(s, n);
    var end := |s| + (|s| - 1) / 3;
    var buf' := buf[nlen := buf[len]];
    Shift(buf, nlen, end, buf[len]);
    assert buf[len] == buf[..len + 1][len] == s[len];
    if (n + 1) % 3 == 0 {
      Shift(buf', nlen - 1, end, ',');
    }
  }

  lemma Shift(buf: seq<char>, i: nat, end: nat, c: char)
    requires i < end < |buf|
    ensures buf[i := c][i..end] == [c] + buf[i + 1..end]
    ensures buf[i := c][end] == buf[end] && buf[i := c][end + 1..] == buf[end + 1..]
    ensures forall k :: 0 <= k <= i ==> buf[i := c][..k] == buf[..k]
  {
  }

  /** The constructor, for every 64-bit value. */
  method Format(value: nat) returns (prettyInt: array<char>)
    requires value < 0x1_0000_0000_0000_0000
    ensures prettyInt.Length == 64 && |Grouped(Print(value))| <= 26
    ensures prettyInt[..|Grouped(Print(value))|] == Grouped(Print(value))
    ensures prettyInt[|Grouped(Print(value))|] == NUL
  {
    var digits := Print(value);
    PrintLength64(value);
    PrintIsPlain(value);
    GroupedShape(digits);
    prettyInt := new char[64](i => if 0 <= i < |digits| then digits[i] else NUL);
    assert prettyInt[..|digits|] == digits;
    ghost var log := InsertCommas(prettyInt, digits);
  }

  lemma PrintIsPlain(value: nat)
    ensures ',' !in Print(value) && NUL !in Print(value)
  {
    assert AllDigits(Print(value));
  }

  /** What is printed can be read back: without its commas it is the number. */
  lemma FormatReadsBack(value: nat)
    ensures AllDigits(WithoutCommas(Grouped(Print(value))))
    ensures Parse(WithoutCommas(Grouped(Print(value)))) == value
  {
    PrintIsPlain(value);
    GroupedKeepsDigits(Print(value));
    ParsePrint(value);
  }
}
