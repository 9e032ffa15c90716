/**
 Binomial counts and the exact McNemar test.
 */
module Binomial {
  import opened Texts

  /** `comb(n, k)` by Pascal's rule. */
  function Choose(n: nat, k: nat): (c: nat)
    ensures k <= n ==> c > 0
    ensures k > n ==> c == 0
  {
    if k == 0 then 1 else if n == 0 then 0 else Choose(n - 1, k - 1) + Choose(n - 1, k)
  }

  function Pow2(n: nat): (p: nat)
    ensures p > 0
  {
    if n == 0 then 1 else 2 * Pow2(n - 1)
  }

  /** The sum of the first `upTo` entries of row n. */
  function RowSum(n: nat, upTo: nat): nat
  {
    if upTo == 0 then 0 else RowSum(n, upTo - 1) + Choose(n, upTo - 1)
  }

  lemma {:induction false} RowSumPascal(n: nat, upTo: nat)
    requires n > 0 && upTo > 0
    ensures RowSum(n, upTo) == RowSum(n - 1, upTo) + RowSum(n - 1, upTo - 1)
  {
    if upTo > 1 {
      RowSumPascal(n, upTo - 1);
    } else {
      assert RowSum(n, 0) == 0 && RowSum(n - 1, 0) == 0;
    }
  }

  lemma {:induction false} RowSumGrows(n: nat, a: nat, b: nat)
    requires a < b <= n + 1
    ensures RowSum(n, a) < RowSum(n, b)
  {
    if a < b - 1 { RowSumGrows(n, a, b - 1); }
  }

  /** A row splits into a head and the mirror image of the rest; together they make 2^n. */
  lemma {:induction false} RowSumMirror(n: nat, a: nat)
    requires a <= n + 1
    ensures RowSum(n, a) + RowSum(n, n + 1 - a) == Pow2(n)
  {
    if n == 0 {
      assert RowSum(0, 1) == RowSum(0, 0) + Choose(0, 0) == 1;
    } else if a == 0 || a == n + 1 {
      RowSumPascal(n, n + 1);
      RowSumMirror(n - 1, 0);
      assert RowSum(n - 1, n + 1) == RowSum(n - 1, n) + Choose(n - 1, n);
    } else {
      RowSumPascal(n, a);
      RowSumPascal(n, n + 1 - a);
      RowSumMirror(n - 1, a);
      RowSumMirror(n - 1, a - 1);
    }
  }

  // ---------------------------------------------------------------------
  // McNemar
  // ---------------------------------------------------------------------

  function Min(a: nat, b: nat): nat { if a < b then a else b }

  function Gap(b: nat, c: nat): nat { if b < c then c - b else b - c }

  /** `min(2 * tail / 2^n, 1)` for n discordant pairs with smaller count m. */
  function PValue(n: nat, m: nat): real
  {
    var p := 2.0 * RowSum(n, m + 1) as real / Pow2(n) as real;
    if p < 1.0 then p else 1.0
  }

  /** `mcnemar_exact`; None where it raises. */
  function McNemar(b: int, c: int): Option<real>
  {
    if b < 0 || c < 0 then None
    else if b + c == 0 then Some(1.0)
    else Some(PValue(b + c, Min(b, c)))
  }

  /** Of the 2^n ways to split n discordant pairs, those at least as lopsided as `gap` with fewer than `upTo` on one side. */
  function Lopsided(n: nat, gap: nat, upTo: nat): nat
    requires upTo <= n + 1
  {
    if upTo == 0 then 0
    else Lopsided(n, gap, upTo - 1) + if Gap(upTo - 1, n - (upTo - 1)) >= gap then Choose(n, upTo - 1) else 0
  }

  lemma {:induction false} LopsidedHead(n: nat, m: nat, upTo: nat)
    requires 2 * m <= n && upTo <= m + 1
    ensures Lopsided(n, n - 2 * m, upTo) == RowSum(n, upTo)
  {
    if upTo > 0 { LopsidedHead(n, m, upTo - 1); }
  }

  lemma {:induction false} LopsidedMiddle(n: nat, m: nat, upTo: nat)
    requires 2 * m <= n && m + 1 <= upTo <= n - m
    ensures Lopsided(n, n - 2 * m, upTo) == RowSum(n, m + 1)
  {
    if upTo > m + 1 { LopsidedMiddle(n, m, upTo - 1); } else { LopsidedHead(n, m, upTo); }
  }

  lemma {:induction false} LopsidedTail(n: nat, m: nat, upTo: nat)
    requires 2 * m < n && n - m <= upTo <= n + 1
    ensures Lopsided(n, n - 2 * m, upTo) + RowSum(n, n - m) == RowSum(n, m + 1) + RowSum(n, upTo)
  {
    if upTo > n - m { LopsidedTail(n, m, upTo - 1); } else { LopsidedMiddle(n, m, upTo); }
  }

  /** Both tails, counted one by one: twice the smaller tail, or everything when the split is even. */
  lemma LopsidedCount(n: nat, m: nat)
    requires 2 * m <= n
    ensures Lopsided(n, n - 2 * m, n + 1) == if 2 * m < n then 2 * RowSum(n, m + 1) else Pow2(n)
    ensures 2 * m == n ==> 2 * RowSum(n, m + 1) > Pow2(n)
  {
    RowSumMirror(n, m + 1);
    RowSumMirror(n, n + 1);
    if 2 * m < n {
      LopsidedTail(n, m, n + 1);
    } else {
      LopsidedAll(n, n + 1);
      RowSumGrows(n, m, m + 1);
    }
  }

  lemma {:induction false} LopsidedAll(n: nat, upTo: nat)
    requires upTo <= n + 1
    ensures Lopsided(n, 0, upTo) == RowSum(n, upTo)
  {
    if upTo > 0 { LopsidedAll(n, upTo - 1); }
  }

  lemma Ratio(a: nat, b: nat)
    requires b > 0
    ensures (a as real / b as real < 1.0) <==> a < b
    ensures a as real / b as real == 1.0 <==> a == b
    ensures a > 0 ==> a as real / b as real > 0.0
  {
    var q := a as real / b as real;
    assert q * b as real == a as real;
  }

  lemma LopsidedSome(n: nat, gap: nat, upTo: nat)
    requires 0 < upTo <= n + 1 && gap <= n
    ensures Lopsided(n, gap, upTo) > 0
  {
    assert Gap(0, n) >= gap;
    if upTo == 1 { assert Lopsided(n, gap, 0) == 0; } else { LopsidedSome(n, gap, upTo - 1); }
  }

  /**
   The exact two-sided p-value: the share of all splits of the discordant pairs
   that are at least as lopsided as the observed one. It is positive, the same
   for both argument orders, and 1 exactly when the counts differ by at most one.
   */
  lemma McNemarIsExact(b: nat, c: nat)
    ensures McNemar(b, c).Some?
    ensures McNemar(b, c).value == Lopsided(b + c, Gap(b, c), b + c + 1) as real / Pow2(b + c) as real
    ensures 0.0 < McNemar(b, c).value <= 1.0
    ensures McNemar(b, c) == McNemar(c, b)
    ensures McNemar(b, c).value == 1.0 <==> Gap(b, c) <= 1
  {
    McNemarValue(b, c);
    McNemarValue(c, b);
    assert Gap(b, c) == b + c - 2 * Min(b, c);
    PValueIsShare(b + c, Min(b, c));
  }

  /** Without discordant pairs the formula gives 1 as well. */
  lemma McNemarValue(b: nat, c: nat)
    ensures McNemar(b, c) == Some(PValue(b + c, Min(b, c)))
  {
    if b + c == 0 { assert RowSum(0, 0) == 0 && RowSum(0, 1) == 1 && Pow2(0) == 1; }
  }

  lemma PValueIsShare(n: nat, m: nat)
    requires 2 * m <= n
    ensures PValue(n, m) == Lopsided(n, n - 2 * m, n + 1) as real / Pow2(n) as real
    ensures 0.0 < PValue(n, m) <= 1.0 && (PValue(n, m) == 1.0 <==> n - 2 * m <= 1)
  {
    LopsidedIsCapped(n, m);
    TailAgainstHalf(n, m);
    CappedShare(RowSum(n, m + 1), Lopsided(n, n - 2 * m, n + 1), Pow2(n));
  }

  lemma LopsidedIsCapped(n: nat, m: nat)
    requires 2 * m <= n
    ensures var l := Lopsided(n, n - 2 * m, n + 1);
      0 < l && l == if 2 * RowSum(n, m + 1) < Pow2(n) then 2 * RowSum(n, m + 1) else Pow2(n)
  {
    LopsidedCount(n, m);
    LopsidedSome(n, n - 2 * m, n + 1);
    TailAgainstHalf(n, m);
  }

  /** Twice the smaller tail over everything, capped at 1, is the share of the lopsided splits. */
  lemma CappedShare(tail: nat, lopsided: nat, all: nat)
    requires all > 0 && 0 < lopsided && lopsided == if 2 * tail < all then 2 * tail else all
    ensures var p := 2.0 * tail as real / all as real;
      (if p < 1.0 then p else 1.0) == lopsided as real / all as real
    ensures 0.0 < lopsided as real / all as real <= 1.0
    ensures lopsided as real / all as real == 1.0 <==> 2 * tail >= all
  {
    assert 2.0 * tail as real == (2 * tail) as real;
    Ratio(2 * tail, all);
    Ratio(lopsided, all);
  }

  lemma TailAgainstHalf(n: nat, m: nat)
    requires 2 * m <= n
    ensures 2 * m + 1 == n ==> 2 * RowSum(n, m + 1) == Pow2(n)
    ensures 2 * m + 1 < n ==> 2 * RowSum(n, m + 1) < Pow2(n)
    ensures 2 * m == n ==> 2 * RowSum(n, m + 1) > Pow2(n)
  {
    RowSumMirror(n, m + 1);
    if 2 * m + 1 < n { RowSumGrows(n, m + 1, n - m); }
    if 2 * m == n { RowSumGrows(n, m, m + 1); }
  }

  /** For a fixed number of discordant pairs a wider gap has a smaller p-value. */
  lemma WiderGapSmallerP(n: nat, m: nat, k: nat)
    requires m < k && 2 * k <= n
    ensures McNemar(m, n - m).value < McNemar(k, n - k).value
  {
    McNemarIsExact(m, n - m);
    McNemarIsExact(k, n - k);
    LopsidedCount(n, m);
    LopsidedCount(n, k);
    RowSumGrows(n, m + 1, k + 1);
    TailAgainstHalf(n, m);
    SmallerShare(2 * RowSum(n, m + 1), if 2 * k < n then 2 * RowSum(n, k + 1) else Pow2(n), Pow2(n));
  }

  lemma SmallerShare(a: nat, b: nat, n: nat)
    requires a < b && n > 0
    ensures a as real / n as real < b as real / n as real
  {
    var q, r := a as real / n as real, b as real / n as real;
    assert q * n as real == a as real && r * n as real == b as real;
  }
}
