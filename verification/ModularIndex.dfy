/** Facts about division and remainder by a variable divisor, used by the ring and row indices. */
module ModularIndex {
  lemma MulMonotone(a: int, b: int, n: nat)
    requires a <= b
    ensures a * n <= b * n
  {
  }

  lemma QuotientUnique(q: int, r: int, v: int, j: int, n: int)
    requires 0 <= r < n && 0 <= j < n
    requires q * n + r == v * n + j
    ensures q == v && r == j
  {
    if q < v {
      MulMonotone(q + 1, v, n);
    } else if v < q {
      MulMonotone(v + 1, q, n);
    }
  }

  lemma Euclid(a: int, n: int)
    requires n > 0
    ensures a == (a / n) * n + a % n && 0 <= a % n < n
  {
  }

  lemma DivModUnique(v: int, j: int, n: int)
    requires 0 <= j < n
    ensures (v * n + j) / n == v && (v * n + j) % n == j
  {
    var a := v * n + j;
    Euclid(a, n);
    QuotientUnique(a / n, a % n, v, j, n);
  }

  lemma AddMultiple(a: int, c: int, n: int)
    requires n > 0
    ensures (a + c * n) % n == a % n && (a + c * n) / n == a / n + c
  {
    Euclid(a, n);
    assert a + c * n == (a / n + c) * n + a % n;
    DivModUnique(a / n + c, a % n, n);
  }

  /** p % n, unrolled by whole turns (RemIsMod), which keeps index arguments linear. */
  function Rem(p: nat, n: nat): (r: nat)
    requires n > 0
    ensures r < n
  {
    if p < n then p else Rem(p - n, n)
  }

  lemma {:induction false} RemIsMod(p: nat, n: nat)
    requires n > 0
    ensures Rem(p, n) == p % n
  {
    if p < n {
      DivModUnique(0, p, n);
    } else {
      RemIsMod(p - n, n);
      AddMultiple(p - n, 1, n);
    }
  }

  lemma {:induction false} RemsDiffer(a: nat, b: nat, n: nat)
    requires n > 0 && a < b < a + n
    ensures Rem(a, n) != Rem(b, n)
  {
    if n <= a {
      RemsDiffer(a - n, b - n, n);
    }
  }

  lemma {:induction false} RemSuccessor(k: nat, n: nat)
    requires n > 0
    ensures Rem(Rem(k, n) + 1, n) == Rem(k + 1, n)
  {
    if n <= k {
      RemSuccessor(k - n, n);
    }
  }

  /** p / n, unrolled in the same way (RowIsQuotient). */
  function Row(p: nat, n: nat): (r: nat)
    requires n > 0
    ensures r <= p
  {
    if p < n then 0 else 1 + Row(p - n, n)
  }

  lemma {:induction false} RowIsQuotient(p: nat, n: nat)
    requires n > 0
    ensures Row(p, n) == p / n && p == Row(p, n) * n + Rem(p, n)
  {
    if p < n {
      DivModUnique(0, p, n);
    } else {
      RowIsQuotient(p - n, n);
      AddMultiple(p - n, 1, n);
    }
  }

  /** Counting up by one is an odometer step of row and remainder. */
  lemma {:induction false} NextCell(p: nat, n: nat)
    requires n > 0
    ensures Rem(p, n) + 1 < n ==> Row(p + 1, n) == Row(p, n) && Rem(p + 1, n) == Rem(p, n) + 1
    ensures Rem(p, n) + 1 == n ==> Row(p + 1, n) == Row(p, n) + 1 && Rem(p + 1, n) == 0
  {
    if n <= p {
      NextCell(p - n, n);
    }
  }

  lemma {:induction false} RowsMonotone(p: nat, q: nat, n: nat)
    requires n > 0 && p <= q
    ensures Row(p, n) <= Row(q, n)
  {
    if n <= p {
      RowsMonotone(p - n, q - n, n);
    }
  }

  /** The last cell before p is in an earlier row exactly when p starts a row. */
  lemma {:induction false} RowStart(p: nat, n: nat)
    requires n > 0 && p > 0
    ensures Row(p - 1, n) < Row(p, n) <==> Rem(p, n) == 0
  {
    NextCell(p - 1, n);
  }

  /** m cells make r full rows of n. */
  predicate Table(m: nat, r: nat, n: nat) {
    0 < n && Row(m, n) == r && Rem(m, n) == 0
  }

  lemma OneRowLess(k: nat, n: nat)
    requires k > 0
    ensures k * n == (k - 1) * n + n
  {
  }

  lemma {:induction false} ProductIsTable(r: nat, n: nat, m: nat)
    requires 0 < n && m == r * n
    ensures Table(m, r, n)
  {
    if r > 0 {
      OneRowLess(r, n);
      ProductIsTable(r - 1, n, m - n);
    }
  }

  lemma {:induction false} SkipRows(p: nat, m: nat, r: nat, n: nat)
    requires Table(m, r, n)
    ensures Row(p + m, n) == Row(p, n) + r && Rem(p + m, n) == Rem(p, n)
    decreases m
  {
    if n <= m {
      SkipRows(p, m - n, r - 1, n);
    }
  }

  lemma {:induction false} RowBelow(p: nat, m: nat, r: nat, n: nat)
    requires Table(m, r, n)
    ensures Row(p, n) < r <==> p < m
  {
    if n <= p && n <= m {
      RowBelow(p - n, m - n, r - 1, n);
    }
  }

  /** The row of an index within a table of r rows is the row number around the table. */
  lemma {:induction false} RowAroundTable(p: nat, m: nat, r: nat, n: nat)
    requires Table(m, r, n) && r > 0 && m > 0
    ensures Row(Rem(p, m), n) == Rem(Row(p, n), r)
    ensures Rem(Rem(p, m), n) == Rem(p, n)
    decreases p
  {
    RowBelow(p, m, r, n);
    if p >= m {
      RowAroundTable(p - m, m, r, n);
      SkipRows(p - m, m, r, n);
    }
  }

  /** Rows and remainders name the indices of a table, each once. */
  lemma CellExists(i: nat, j: nat, m: nat, r: nat, n: nat) returns (s: nat)
    requires j < n && i < r && Table(m, r, n)
    ensures s < m && Row(s, n) == i && Rem(s, n) == j
  {
    ProductIsTable(i, n, i * n);
    SkipRows(j, i * n, i, n);
    s := j + i * n;
    RowBelow(s, m, r, n);
  }

  lemma {:induction false} CellUnique(s: nat, t: nat, n: nat)
    requires n > 0 && s < t
    ensures Row(s, n) != Row(t, n) || Rem(s, n) != Rem(t, n)
  {
    if n <= s {
      CellUnique(s - n, t - n, n);
    }
  }

  /** A later cell of the same column is whole rows away. */
  lemma {:induction false} LaterInColumn(s: nat, t: nat, n: nat)
    requires 0 < n && s < t && Rem(s, n) == Rem(t, n)
    ensures s + n <= t && Row(s, n) < Row(t, n)
  {
    if n <= s {
      LaterInColumn(s - n, t - n, n);
    } else {
      RemAtMost(t - n, n);
    }
  }

  lemma {:induction false} RemAtMost(p: nat, n: nat)
    requires n > 0
    ensures Rem(p, n) <= p
  {
    if n <= p {
      RemAtMost(p - n, n);
    }
  }

  /** The first cell of the next row. */
  lemma {:induction false} NextRow(p: nat, n: nat)
    requires n > 0
    ensures Row(p + n - Rem(p, n), n) == Row(p, n) + 1 && Rem(p + n - Rem(p, n), n) == 0
  {
    if n <= p {
      NextRow(p - n, n);
    }
  }

  /** Moving within a turn moves the remainder. */
  lemma {:induction false} RemMoves(p: nat, d: int, n: nat)
    requires n > 0 && 0 <= p + d && 0 <= Rem(p, n) + d < n
    ensures Rem(p + d, n) == Rem(p, n) + d
  {
    if n <= p {
      RemAtMost(p - n, n);
      RemMoves(p - n, d, n);
    }
  }

  /** A distance is invisible exactly if it is whole turns. */
  lemma {:induction false} RemUnmoved(p: nat, d: nat, n: nat)
    requires n > 0
    ensures Rem(p + d, n) == Rem(p, n) <==> Rem(d, n) == 0
  {
    if n <= d {
      RemUnmoved(p, d - n, n);
    } else if d > 0 {
      RemsDiffer(p, p + d, n);
    }
  }

  /** Whole turns of a larger ring that are whole turns of a smaller one. */
  lemma {:induction false} RemOfRem(p: nat, t: nat, n: nat)
    requires t > 0 && n > 0 && Rem(t, n) == 0
    ensures Rem(Rem(p, t), n) == Rem(p, n)
  {
    if t <= p {
      RemOfRem(p - t, t, n);
      RemUnmoved(p - t, t, n);
    }
  }
}
