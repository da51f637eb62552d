/** How many pages of at most d entries n entries take. */
module Pages {
  import opened Sequences

  function CeilDiv(n: nat, d: nat): nat
    requires d >= 1
  {
    if n == 0 then 0 else 1 + CeilDiv(n - Min(d, n), d)
  }

  /** It is the quotient rounded up. */
  lemma {:induction false} CeilDivIsCeiling(n: nat, d: nat)
    requires d >= 1
    ensures (CeilDiv(n, d) - 1) * d < n || n == 0
    ensures n <= CeilDiv(n, d) * d
  {
    if n > 0 {
      CeilDivIsCeiling(n - Min(d, n), d);
      var rest := CeilDiv(n - Min(d, n), d);
      assert (1 + rest) * d == d + rest * d;
      assert rest * d == (rest - 1) * d + d;
    }
  }

  lemma {:induction false} CeilDivMonotone(a: nat, b: nat, d: nat)
    requires d >= 1 && a <= b
    ensures CeilDiv(a, d) <= CeilDiv(b, d)
  {
    if a > 0 {
      CeilDivMonotone(a - Min(d, a), b - Min(d, b), d);
    }
  }

  /** Splitting a pile in two costs at most one page more. */
  lemma {:induction false} CeilDivSplit(a: nat, b: nat, d: nat)
    requires d >= 1
    ensures CeilDiv(a, d) + CeilDiv(b, d) <= CeilDiv(a + b, d) + 1
  {
    if a <= d {
      CeilDivMonotone(b, a + b, d);
      assert CeilDiv(a, d) <= 1 + CeilDiv(0, d);
    } else {
      CeilDivSplit(a - d, b, d);
    }
  }
}
