/**
 The bounds-checked string routines over one flat memory: strncpy_s with its overlap detection,
 strnlen_s and strnterminate_s.
 */
module SafeStrings {
  import opened Basics

  const RSIZE_MAX_STR: nat := 4096
  const EOK: int := 0
  const ESNULLP: int := 400
  const ESZEROL: int := 401
  const ESLEMAX: int := 403
  const ESOVRLP: int := 404
  const ESNOSPC: int := 406

  datatype Pointer = Null | At(addr: nat)

  /** The number of characters before a NUL, within n characters and the end of memory. */
  function Length(m: seq<char>, p: nat, n: nat): (k: nat)
    requires p <= |m|
    ensures k <= n && p + k <= |m|
    ensures forall i :: p <= i < p + k ==> m[i] != NUL
    ensures k == n || p + k == |m| || m[p + k] == NUL
    decreases n
  {
    if n == 0 || p == |m| || m[p] == NUL then 0 else 1 + Length(m, p + 1, n - 1)
  }

  function Distance(a: nat, b: nat): nat {
    if a < b then b - a else a - b
  }

  /** dest[0..n) zeroed, everything else kept. */
  function Zeroed(m: seq<char>, dest: nat, n: nat): (r: seq<char>)
    requires dest + n <= |m|
    ensures |r| == |m|
    ensures forall i :: 0 <= i < |m| ==> r[i] == if dest <= i < dest + n then NUL else m[i]
  {
    m[..dest] + seq(n, _ => NUL) + m[dest + n..]
  }

  /** The first n characters of the source as it was, copied; everything else kept (WrittenIsCopy). */
  function Written(m: seq<char>, dest: nat, src: nat, n: nat): (r: seq<char>)
    requires dest + n <= |m| && src + n <= |m|
    ensures |r| == |m|
  {
    if n == 0 then m else Written(m, dest, src, n - 1)[dest + n - 1 := m[src + n - 1]]
  }

  lemma {:induction false} WrittenIsCopy(m: seq<char>, dest: nat, src: nat, n: nat)
    requires dest + n <= |m| && src + n <= |m|
    ensures Written(m, dest, src, n) == m[..dest] + m[src..src + n] + m[dest + n..]
  {
    if n == 0 {
      assert m == m[..dest] + m[src..src] + m[dest..];
    } else {
      WrittenIsCopy(m, dest, src, n - 1);
      assert m[src..src + n] == m[src..src + n - 1] + [m[src + n - 1]];
      assert m[dest + n - 1..] == [m[dest + n - 1]] + m[dest + n..];
    }
  }

  /** A copied string of n characters with its NUL. */
  function Copied(m: seq<char>, dest: nat, src: nat, n: nat): (r: seq<char>)
    requires dest + n < |m| && src + n <= |m|
    ensures |r| == |m|
  {
    Written(m, dest, src, n)[dest + n := NUL]
  }

  /** What strncpy_s reads: the source up to its NUL, or as many characters as may be copied. */
  ghost predicate Readable(m: seq<char>, src: nat, count: nat) {
    src <= |m| && (src + count <= |m| || src + Length(m, src, count) < |m|)
  }

  predicate Admissible(dest: Pointer, dmax: nat, src: Pointer, slen: nat) {
    dest.At? && 0 < dmax <= RSIZE_MAX_STR && src.At? && 0 < slen <= RSIZE_MAX_STR
  }

  method Store(mem: array<char>, p: nat, c: char)
    requires p < mem.Length
    modifies mem
    ensures mem[..] == old(mem[..])[p := c]
  {
    mem[p] := c;
  }

  lemma ZeroedNext(m: seq<char>, dest: nat, n: nat)
    requires dest + n <= |m|
    ensures Zeroed(m, dest, 0) == m
    ensures dest + n < |m| ==> Zeroed(m, dest, n)[dest + n := NUL] == Zeroed(m, dest, n + 1)
  {
  }

  method HandleError(mem: array<char>, dest: nat, dmax: nat)
    requires dest + dmax <= mem.Length
    modifies mem
    ensures mem[..] == Zeroed(old(mem[..]), dest, dmax)
  {
    hide Zeroed;
    ZeroedNext(mem[..], dest, 0);
    var origDest, origDmax := dest, dmax;
    ghost var m := mem[..];
    while origDmax > 0
      invariant 0 <= origDmax <= dmax && origDest == dest + (dmax - origDmax)
      invariant mem[..] == Zeroed(m, dest, dmax - origDmax)
    {
      ZeroedNext(m, dest, dmax - origDmax);
      Store(mem, origDest, NUL);
      origDmax := origDmax - 1;
      origDest := origDest + 1;
    }
  }

  /** A loop that is t characters in has not yet written the source cell it reads next. */
  lemma NextCharacter(m: seq<char>, dest: nat, src: nat, t: nat)
    requires dest + t < |m| && src + t < |m| && t < Distance(dest, src)
    ensures Written(m, dest, src, t)[src + t] == m[src + t]
  {
    WrittenIsCopy(m, dest, src, t);
  }

  lemma WrittenFirst(m: seq<char>, dest: nat, src: nat)
    requires dest <= |m| && src <= |m|
    ensures Written(m, dest, src, 0) == m
  {
  }

  lemma WrittenNext(m: seq<char>, dest: nat, src: nat, t: nat)
    requires dest + t < |m| && src + t < |m|
    ensures Written(m, dest, src, t)[dest + t := m[src + t]] == Written(m, dest, src, t + 1)
    ensures m[src + t] == NUL ==> Written(m, dest, src, t + 1) == Copied(m, dest, src, t)
  {
  }

  lemma CopiedAll(m: seq<char>, dest: nat, src: nat, t: nat)
    requires dest + t < |m| && src + t <= |m|
    ensures Written(m, dest, src, t)[dest + t := NUL] == Copied(m, dest, src, t)
  {
  }

  /** With admissible arguments, a source of length L and the two pointers d apart: the strings
      overlap if d <= L and d < dmax; otherwise the copy succeeds if it fits. A success writes the
      source as it was, with its NUL, and nothing else; a failure zeroes the destination. */
  method StrncpyS(mem: array<char>, dest: Pointer, dmax: nat, src: Pointer, slen: nat) returns (r: int)
    requires dest.At? && dmax <= RSIZE_MAX_STR ==> dest.addr + dmax <= mem.Length
    requires Admissible(dest, dmax, src, slen) ==> Readable(mem[..], src.addr, Min(slen, dmax))
    modifies mem
    ensures dest.Null? ==> r == -ESNULLP
    ensures dest.At? && dmax == 0 ==> r == -ESZEROL
    ensures dest.At? && dmax > RSIZE_MAX_STR ==> r == -ESLEMAX
    ensures dest.Null? || dmax == 0 || dmax > RSIZE_MAX_STR ==> mem[..] == old(mem[..])
    ensures dest.At? && 0 < dmax <= RSIZE_MAX_STR && src.Null? ==> r == -ESNULLP
    ensures dest.At? && 0 < dmax <= RSIZE_MAX_STR && src.At? && slen == 0 ==> r == -ESZEROL
    ensures dest.At? && 0 < dmax <= RSIZE_MAX_STR && src.At? && slen > RSIZE_MAX_STR ==> r == -ESLEMAX
    ensures dest.At? && 0 < dmax <= RSIZE_MAX_STR && r != EOK ==>
              mem[..] == Zeroed(old(mem[..]), dest.addr, dmax)
    ensures Admissible(dest, dmax, src, slen) ==>
              var L, d := Length(old(mem[..]), src.addr, slen), Distance(dest.addr, src.addr);
              && (r == -ESOVRLP <==> d <= L && d < dmax)
              && (r == EOK <==> L < dmax && L < d)
              && (r == -ESOVRLP || r == EOK || r == -ESNOSPC)
              && (r == EOK ==> mem[..] == Copied(old(mem[..]), dest.addr, src.addr, L))
  {
    if dest.Null? {
      return -ESNULLP;
    }
    if dmax == 0 {
      return -ESZEROL;
    }
    if dmax > RSIZE_MAX_STR {
      return -ESLEMAX;
    }
    if src.Null? {
      HandleError(mem, dest.addr, dmax);
      return -ESNULLP;
    }
    if slen == 0 {
      HandleError(mem, dest.addr, dmax);
      return -ESZEROL;
    }
    if slen > RSIZE_MAX_STR {
      HandleError(mem, dest.addr, dmax);
      return -ESLEMAX;
    }
    if dest.addr < src.addr {
      r := CopyUpToSource(mem, dest.addr, dmax, src.addr, slen);
    } else {
      r := CopyUpToDest(mem, dest.addr, dmax, src.addr, slen);
    }
  }

  ghost predicate CopyOutcome(m: seq<char>, dest: nat, dmax: nat, src: nat, slen: nat, r: int, m': seq<char>)
    requires src <= |m| && dest + dmax <= |m|
  {
    var L, d := Length(m, src, slen), Distance(dest, src);
    if d <= L && d < dmax then r == -ESOVRLP && m' == Zeroed(m, dest, dmax)
    else if L < dmax then r == EOK && m' == Copied(m, dest, src, L)
    else r == -ESNOSPC && m' == Zeroed(m, dest, dmax)
  }

  lemma ZeroedOver(m: seq<char>, dest: nat, src: nat, t: nat, dmax: nat)
    requires dest + dmax <= |m| && src + t <= |m| && t <= dmax
    ensures Zeroed(Written(m, dest, src, t), dest, dmax) == Zeroed(m, dest, dmax)
  {
    WrittenIsCopy(m, dest, src, t);
  }

  /** A loop t characters in, with characters left to copy, can read the source and either meets the
      NUL or knows the source to be longer. */
  lemma SourceCell(m: seq<char>, src: nat, slen: nat, dmax: nat, t: nat)
    requires Readable(m, src, Min(slen, dmax)) && t < slen && t < dmax && t <= Length(m, src, slen)
    ensures src + t < |m|
    ensures if m[src + t] == NUL then Length(m, src, slen) == t else Length(m, src, slen) > t
  {
    var n := Min(slen, dmax);
    if src + n > |m| {
      assert Length(m, src, n) < n;
      assert m[src + Length(m, src, n)] == NUL;
    }
  }

  /** The loop for a destination below the source: it runs into the source if it goes on too long. */
  method CopyUpToSource(mem: array<char>, dest0: nat, dmax0: nat, src0: nat, slen0: nat) returns (r: int)
    requires dest0 < src0
    requires 0 < dmax0 && 0 < slen0 && dest0 + dmax0 <= mem.Length
    requires Readable(mem[..], src0, Min(slen0, dmax0))
    modifies mem
    ensures CopyOutcome(old(mem[..]), dest0, dmax0, src0, slen0, r, mem[..])
  {
    hide Zeroed, Written, Copied;
    WrittenFirst(mem[..], dest0, src0);
    var dest, dmax, src, slen := dest0, dmax0, src0, slen0;
    var overlapBumper := src;
    ghost var m, t := mem[..], 0;
    while dmax > 0
      invariant dmax == dmax0 - t && slen == slen0 - t && dest == dest0 + t && src == src0 + t
      invariant 0 <= t <= dmax0 && t <= Length(m, src0, slen0) && t <= Distance(dest0, src0)
      invariant mem[..] == Written(m, dest0, src0, t)
    {
      if dest == overlapBumper {
        ZeroedOver(m, dest0, src0, t, dmax0);
        HandleError(mem, dest0, dmax0);
        return -ESOVRLP;
      }
      if slen == 0 {
        CopiedAll(m, dest0, src0, t);
        Store(mem, dest, NUL);
        return EOK;
      }
      SourceCell(m, src0, slen0, dmax0, t);
      NextCharacter(m, dest0, src0, t);
      WrittenNext(m, dest0, src0, t);
      Store(mem, dest, mem[src]);
      if mem[dest] == NUL {
        return EOK;
      }
      t, dmax, slen, dest, src := t + 1, dmax - 1, slen - 1, dest + 1, src + 1;
    }
    ZeroedOver(m, dest0, src0, t, dmax0);
    HandleError(mem, dest0, dmax0);
    r := -ESNOSPC;
  }

  /** The loop for a destination at or above the source, which runs into the destination. */
  method CopyUpToDest(mem: array<char>, dest0: nat, dmax0: nat, src0: nat, slen0: nat) returns (r: int)
    requires src0 <= dest0
    requires 0 < dmax0 && 0 < slen0 && dest0 + dmax0 <= mem.Length
    requires Readable(mem[..], src0, Min(slen0, dmax0))
    modifies mem
    ensures CopyOutcome(old(mem[..]), dest0, dmax0, src0, slen0, r, mem[..])
  {
    hide Zeroed, Written, Copied;
    WrittenFirst(mem[..], dest0, src0);
    var dest, dmax, src, slen := dest0, dmax0, src0, slen0;
    var overlapBumper := dest;
    ghost var m, t := mem[..], 0;
    while dmax > 0
      invariant dmax == dmax0 - t && slen == slen0 - t && dest == dest0 + t && src == src0 + t
      invariant 0 <= t <= dmax0 && t <= Length(m, src0, slen0) && t <= Distance(dest0, src0)
      invariant mem[..] == Written(m, dest0, src0, t)
    {
      if src == overlapBumper {
        ZeroedOver(m, dest0, src0, t, dmax0);
        HandleError(mem, dest0, dmax0);
        return -ESOVRLP;
      }
      if slen == 0 {
        CopiedAll(m, dest0, src0, t);
        Store(mem, dest, NUL);
        return EOK;
      }
      SourceCell(m, src0, slen0, dmax0, t);
      NextCharacter(m, dest0, src0, t);
      WrittenNext(m, dest0, src0, t);
      Store(mem, dest, mem[src]);
      if mem[dest] == NUL {
        return EOK;
      }
      t, dmax, slen, dest, src := t + 1, dmax - 1, slen - 1, dest + 1, src + 1;
    }
    ZeroedOver(m, dest0, src0, t, dmax0);
    HandleError(mem, dest0, dmax0);
    r := -ESNOSPC;
  }

  /** The length of a string, with the number of cells read to find it: one more than the length, so
      that the reads stay within the first dmax cells exactly if one of these is a NUL. */
  method StrnlenS(mem: array<char>, dest: Pointer, dmax: nat) returns (count: nat, ghost cellsRead: nat)
    requires dest.At? && 0 < dmax <= RSIZE_MAX_STR ==>
               dest.addr <= mem.Length && dest.addr + Length(mem[..], dest.addr, dmax) < mem.Length
    ensures count == if dest.At? && 0 < dmax <= RSIZE_MAX_STR then Length(mem[..], dest.addr, dmax) else 0
    ensures cellsRead == if dest.At? && 0 < dmax <= RSIZE_MAX_STR then count + 1 else 0
    ensures dest.At? && 0 < dmax <= RSIZE_MAX_STR ==>
              (cellsRead <= dmax <==> exists i :: dest.addr <= i < mem.Length && i < dest.addr + dmax && mem[i] == NUL)
  {
    if dest.Null? || dmax == 0 || dmax > RSIZE_MAX_STR {
      return 0, 0;
    }
    count := 0;
    var p, left := dest.addr, dmax;
    var c := mem[p];
    cellsRead := 1;
    while c != NUL && left > 0
      decreases left
      invariant p == dest.addr + count && left == dmax - count && cellsRead == count + 1
      invariant count <= Length(mem[..], dest.addr, dmax) && c == mem[p]
    {
      count := count + 1;
      left := left - 1;
      p := p + 1;
      c := mem[p];
      cellsRead := cellsRead + 1;
    }
  }

  /** Two characters and no NUL among them, dmax being two: a third cell is read. */
  method ReadsOneTooMany() returns (ghost cellsRead: nat, count: nat)
    ensures count == 2 && cellsRead == 3
  {
    var mem := new char[3](i => 'a');
    assert Length(mem[..], 1, 1) == 1;
    count, cellsRead := StrnlenS(mem, At(0), 2);
  }

  /** A string cut to dmax - 1 characters and terminated. */
  method StrnterminateS(mem: array<char>, dest: Pointer, dmax: nat) returns (count: nat)
    requires dest.At? && 0 < dmax <= RSIZE_MAX_STR ==> dest.addr + dmax <= mem.Length
    modifies mem
    ensures if dest.At? && 0 < dmax <= RSIZE_MAX_STR then
              count == Length(old(mem[..]), dest.addr, dmax - 1) &&
              mem[..] == old(mem[..])[dest.addr + count := NUL]
            else
              count == 0 && mem[..] == old(mem[..])
  {
    if dest.Null? || dmax == 0 || dmax > RSIZE_MAX_STR {
      return 0;
    }
    count := 0;
    var p, left := dest.addr, dmax;
    while left > 1
      invariant p == dest.addr + count && left == dmax - count >= 1
      invariant count <= Length(mem[..], dest.addr, dmax - 1) && mem[..] == old(mem[..])
    {
      if mem[p] != NUL {
        count := count + 1;
        left := left - 1;
        p := p + 1;
      } else {
        break;
      }
    }
    mem[p] := NUL;
  }

  /** After a successful copy both companions find the length copied, and terminating changes nothing. */
  lemma CopiedIsTerminated(m: seq<char>, dest: nat, dmax: nat, src: nat, slen: nat)
    requires src <= |m| && dest + dmax <= |m|
    requires Length(m, src, slen) < dmax && Length(m, src, slen) < Distance(dest, src)
    ensures var L := Length(m, src, slen);
            var after := Copied(m, dest, src, L);
            && Length(after, dest, dmax) == L
            && Length(after, dest, dmax - 1) == L
            && after[dest + L := NUL] == after
            && after[dest..dest + L] == m[src..src + L]
            && after[..dest] == m[..dest] && after[dest + L + 1..] == m[dest + L + 1..]
  {
    var L := Length(m, src, slen);
    var after := Copied(m, dest, src, L);
    WrittenIsCopy(m, dest, src, L);
    assert after[dest..dest + L] == m[src..src + L];
    forall i | dest <= i < dest + L ensures after[i] != NUL {
      assert after[i] == m[src..src + L][i - dest];
    }
    assert after[dest + L] == NUL;
  }
}
