/**
 The paired sign-flip permutation test and its rank-biserial effect size, over
 exact reals. The random generator is an arbitrary source of bits.
 */
module Permutation {
  import opened Texts
  import opened Binomial

  const TOLERANCE := 0.000000000000001

  function Abs(x: real): real { if x < 0.0 then -x else x }

  // ---------------------------------------------------------------------
  // Sums that do not depend on order
  // ---------------------------------------------------------------------

  function SumOver(f: real -> real, s: seq<real>): real
  {
    if s == [] then 0.0 else SumOver(f, s[..|s| - 1]) + f(s[|s| - 1])
  }

  function Without<T>(s: seq<T>, k: nat): seq<T>
    requires k < |s|
  {
    s[..k] + s[k + 1..]
  }

  lemma {:induction false} SumRemoves(f: real -> real, s: seq<real>, k: nat)
    requires k < |s|
    ensures SumOver(f, s) == SumOver(f, Without(s, k)) + f(s[k])
    decreases |s|
  {
    var n := |s| - 1;
    if k < n {
      SumRemoves(f, s[..n], k);
      assert Without(s, k)[..n - 1] == Without(s[..n], k);
    } else {
      assert Without(s, k) == s[..n];
    }
  }

  lemma WithoutMultiset<T>(s: seq<T>, k: nat)
    requires k < |s|
    ensures multiset(s) == multiset(Without(s, k)) + multiset{s[k]}
  {
    assert s == s[..k] + [s[k]] + s[k + 1..];
  }

  lemma {:induction false} SumReorders(f: real -> real, a: seq<real>, b: seq<real>)
    requires multiset(a) == multiset(b)
    ensures SumOver(f, a) == SumOver(f, b)
  {
    if a != [] {
      var n := |a| - 1;
      var k := Find(a, b, n);
      SumRemoves(f, b, k);
      SumRemoves(f, a, n);
      SumReorders(f, Without(a, n), Without(b, k));
    } else {
      assert |b| == |multiset(b)| == 0;
    }
  }

  /** The place in b of an element of a, and what remains without it. */
  lemma Find(a: seq<real>, b: seq<real>, i: nat) returns (k: nat)
    requires multiset(a) == multiset(b) && i < |a|
    ensures k < |b| && b[k] == a[i] && multiset(Without(a, i)) == multiset(Without(b, k))
  {
    assert a[i] in multiset(a) && a[i] in multiset(b);
    k :| 0 <= k < |b| && b[k] == a[i];
    WithoutMultiset(a, i);
    WithoutMultiset(b, k);
    assert multiset(Without(a, i)) == multiset(a) - multiset{a[i]};
    assert multiset(Without(b, k)) == multiset(b) - multiset{a[i]};
  }

  function Same(): real -> real { v => v }

  function Sum(ds: seq<real>): real { SumOver(Same(), ds) }

  function Negate(ds: seq<real>): (r: seq<real>)
    ensures |r| == |ds| && forall i :: 0 <= i < |r| ==> r[i] == -ds[i]
  {
    seq(|ds|, i requires 0 <= i < |ds| => -ds[i])
  }

  lemma {:induction false} SumNegates(f: real -> real, g: real -> real, ds: seq<real>)
    requires forall v :: g(-v) == -f(v)
    ensures SumOver(g, Negate(ds)) == -SumOver(f, ds)
  {
    if ds != [] {
      var n := |ds| - 1;
      assert Negate(ds)[..n] == Negate(ds[..n]);
      SumNegates(f, g, ds[..n]);
      assert g(-ds[n]) == -f(ds[n]);
    }
  }

  // ---------------------------------------------------------------------
  // Sign assignments
  // ---------------------------------------------------------------------

  /** A total is extreme when its mean is at least the observed one, within the tolerance. */
  predicate IsExtreme(n: nat, observed: real, total: real)
    requires n > 0
  {
    Abs(total / n as real) + TOLERANCE >= observed
  }

  function ExtremeTest(n: nat, observed: real): real -> bool
    requires n > 0
  {
    total => IsExtreme(n, observed, total)
  }

  /** acc plus the differences with the given signs. */
  function SignedSum(ds: seq<real>, signs: seq<bool>, acc: real): real
    requires |signs| == |ds|
  {
    if ds == [] then acc else SignedSum(ds[1..], signs[1..], if signs[0] then acc + ds[0] else acc - ds[0])
  }

  /** How many sign assignments are extreme. */
  function Extremes(ds: seq<real>, test: real -> bool, acc: real): nat
  {
    if ds == [] then if test(acc) then 1 else 0
    else Extremes(ds[1..], test, acc + ds[0]) + Extremes(ds[1..], test, acc - ds[0])
  }

  function Prefixed(b: bool, s: set<seq<bool>>): set<seq<bool>>
  {
    set x | x in s :: [b] + x
  }

  lemma {:induction false} PrefixedSize(b: bool, s: set<seq<bool>>)
    ensures |Prefixed(b, s)| == |s|
  {
    if x :| x in s {
      var rest := s - {x};
      PrefixedSize(b, rest);
      assert Prefixed(b, s) == Prefixed(b, rest) + {[b] + x};
      assert [b] + x !in Prefixed(b, rest) by {
        forall y | y in rest ensures [b] + y != [b] + x {
          assert ([b] + y)[1..] == y && ([b] + x)[1..] == x;
        }
      }
    }
  }

  function EitherSign(a: set<seq<bool>>, b: set<seq<bool>>): set<seq<bool>>
  {
    Prefixed(true, a) + Prefixed(false, b)
  }

  lemma InPrefixed(s: seq<bool>, b: bool, rest: set<seq<bool>>)
    ensures s in Prefixed(b, rest) <==> s != [] && s[0] == b && s[1..] in rest
  {
    if s != [] { assert s == [s[0]] + s[1..]; }
    forall x | x in rest ensures ([b] + x)[0] == b && ([b] + x)[1..] == x {}
  }

  lemma EitherSize(a: set<seq<bool>>, b: set<seq<bool>>)
    ensures |EitherSign(a, b)| == |a| + |b|
  {
    PrefixedSize(true, a);
    PrefixedSize(false, b);
    forall s | s in Prefixed(true, a) ensures s !in Prefixed(false, b) {
      InPrefixed(s, true, a);
      InPrefixed(s, false, b);
    }
    assert Prefixed(true, a) !! Prefixed(false, b);
  }

  /** The extreme sign assignments themselves. */
  function ExtremeSigns(ds: seq<real>, test: real -> bool, acc: real): set<seq<bool>>
  {
    if ds == [] then (if test(acc) then {[]} else {})
    else EitherSign(ExtremeSigns(ds[1..], test, acc + ds[0]), ExtremeSigns(ds[1..], test, acc - ds[0]))
  }

  /** `Extremes` is the number of extreme sign vectors. */
  lemma {:induction false} ExtremesCounts(ds: seq<real>, test: real -> bool, acc: real)
    ensures |ExtremeSigns(ds, test, acc)| == Extremes(ds, test, acc)
  {
    if ds != [] {
      var rest, plus, minus := ds[1..], acc + ds[0], acc - ds[0];
      ExtremesCounts(rest, test, plus);
      ExtremesCounts(rest, test, minus);
      CountsAdd(ds, test, acc, Extremes(rest, test, plus), Extremes(rest, test, minus));
      assert Extremes(ds, test, acc) == Extremes(rest, test, plus) + Extremes(rest, test, minus);
    } else {
      assert ExtremeSigns(ds, test, acc) == if test(acc) then {[]} else {};
    }
  }

  lemma CountsAdd(ds: seq<real>, test: real -> bool, acc: real, kept: nat, flipped: nat)
    requires ds != []
    requires |ExtremeSigns(ds[1..], test, acc + ds[0])| == kept && |ExtremeSigns(ds[1..], test, acc - ds[0])| == flipped
    ensures |ExtremeSigns(ds, test, acc)| == kept + flipped
  {
    EitherSize(ExtremeSigns(ds[1..], test, acc + ds[0]), ExtremeSigns(ds[1..], test, acc - ds[0]));
  }

  /** The set holds exactly the sign vectors whose total is extreme. */
  lemma {:induction false} ExtremeSignsExact(ds: seq<real>, test: real -> bool, acc: real, s: seq<bool>)
    ensures s in ExtremeSigns(ds, test, acc) <==> |s| == |ds| && test(SignedSum(ds, s, acc))
  {
    if ds != [] {
      InPrefixed(s, true, ExtremeSigns(ds[1..], test, acc + ds[0]));
      InPrefixed(s, false, ExtremeSigns(ds[1..], test, acc - ds[0]));
      if s != [] {
        ExtremeSignsExact(ds[1..], test, acc + ds[0], s[1..]);
        ExtremeSignsExact(ds[1..], test, acc - ds[0], s[1..]);
      }
    }
  }

  // ---------------------------------------------------------------------
  // What the count does not depend on
  // ---------------------------------------------------------------------

  lemma {:induction false} BringToFront(ds: seq<real>, k: nat, test: real -> bool, acc: real)
    requires k < |ds|
    ensures Extremes(ds, test, acc) ==
      Extremes(Without(ds, k), test, acc + ds[k]) + Extremes(Without(ds, k), test, acc - ds[k])
    decreases k
  {
    if k == 0 {
      assert Without(ds, 0) == ds[1..];
    } else {
      var d, x, rest := ds[0], ds[k], Without(ds[1..], k - 1);
      BringToFront(ds[1..], k - 1, test, acc + d);
      BringToFront(ds[1..], k - 1, test, acc - d);
      WithoutLater(ds, k);
      ExtremesStep(d, rest, test, acc + x);
      ExtremesStep(d, rest, test, acc - x);
      Commute(acc, d, x);
    }
  }

  lemma WithoutLater(ds: seq<real>, k: nat)
    requires 0 < k < |ds|
    ensures Without(ds, k) == [ds[0]] + Without(ds[1..], k - 1)
  {}

  lemma ExtremesStep(d: real, rest: seq<real>, test: real -> bool, acc: real)
    ensures Extremes([d] + rest, test, acc) == Extremes(rest, test, acc + d) + Extremes(rest, test, acc - d)
  {
    assert ([d] + rest)[1..] == rest;
  }

  lemma Commute(a: real, x: real, y: real)
    ensures (a + x) + y == (a + y) + x && (a + x) - y == (a - y) + x
    ensures (a - x) + y == (a + y) - x && (a - x) - y == (a - y) - x
  {}

  /** Listing the pairs in another order changes nothing. */
  lemma {:induction false} ExtremesReorder(a: seq<real>, b: seq<real>, test: real -> bool, acc: real)
    requires multiset(a) == multiset(b)
    ensures Extremes(a, test, acc) == Extremes(b, test, acc)
    decreases |a|
  {
    if a == [] {
      assert |b| == |multiset(b)| == 0;
    } else {
      var k := Find(a, b, 0);
      BringToFront(b, k, test, acc);
      BringToFront(a, 0, test, acc);
      assert Without(a, 0) == a[1..];
      ExtremesReorder(a[1..], Without(b, k), test, acc + a[0]);
      ExtremesReorder(a[1..], Without(b, k), test, acc - a[0]);
    }
  }

  /** Swapping the arms flips every difference and changes nothing. */
  lemma {:induction false} ExtremesNegate(ds: seq<real>, test: real -> bool, acc: real)
    ensures Extremes(Negate(ds), test, acc) == Extremes(ds, test, acc)
  {
    if ds != [] {
      assert Negate(ds)[1..] == Negate(ds[1..]);
      ExtremesNegate(ds[1..], test, acc + ds[0]);
      ExtremesNegate(ds[1..], test, acc - ds[0]);
    }
  }

  lemma {:induction false} ExtremesAtMost(ds: seq<real>, test: real -> bool, acc: real)
    ensures Extremes(ds, test, acc) <= Pow2(|ds|)
  {
    if ds != [] {
      ExtremesAtMost(ds[1..], test, acc + ds[0]);
      ExtremesAtMost(ds[1..], test, acc - ds[0]);
    }
  }

  lemma {:induction false} SumFront(ds: seq<real>)
    requires ds != []
    ensures Sum(ds) == ds[0] + Sum(ds[1..])
  {
    SumRemoves(Same(), ds, 0);
    assert Without(ds, 0) == ds[1..];
  }

  lemma {:induction false} AllPlusAllMinus(ds: seq<real>, test: real -> bool, acc: real)
    ensures test(acc + Sum(ds)) ==> Extremes(ds, test, acc) >= 1
    ensures test(acc - Sum(ds)) ==> Extremes(ds, test, acc) >= 1
  {
    if ds != [] {
      SumFront(ds);
      AllPlusAllMinus(ds[1..], test, acc + ds[0]);
      AllPlusAllMinus(ds[1..], test, acc - ds[0]);
    } else {
      assert Sum(ds) == 0.0;
    }
  }

  function Observed(ds: seq<real>): real
    requires ds != []
  {
    Abs(Sum(ds) / |ds| as real)
  }

  /** The exact p-value. */
  function ExactP(ds: seq<real>): real
    requires ds != []
  {
    Extremes(ds, ExtremeTest(|ds|, Observed(ds)), 0.0) as real / Pow2(|ds|) as real
  }

  lemma MinusOver(x: real, n: nat)
    requires n > 0
    ensures (-x) / n as real == -(x / n as real)
  {
    var q, r := x / n as real, (-x) / n as real;
    assert q * n as real == x && r * n as real == -x;
    assert (q + r) * n as real == 0.0;
  }

  lemma {:induction false} Quotients(a: nat, c: nat, b: nat)
    requires b > 0 && a <= c <= b
    ensures a as real / b as real <= c as real / b as real <= 1.0
  {
    if a < c { SmallerShare(a, c, b); }
    Ratio(c, b);
  }

  /** With at least one pair p lies between 2/2^n and 1: all signs kept and all signs flipped both count. */
  lemma ExactPBounds(ds: seq<real>)
    requires ds != []
    ensures 2.0 / Pow2(|ds|) as real <= ExactP(ds) <= 1.0
  {
    var n, d := |ds|, ds[0];
    var test := ExtremeTest(n, Observed(ds));
    SumFront(ds);
    MinusOver(Sum(ds), n);
    AllPlusAllMinus(ds[1..], test, 0.0 + d);
    AllPlusAllMinus(ds[1..], test, 0.0 - d);
    assert 0.0 + d + Sum(ds[1..]) == Sum(ds) && 0.0 - d - Sum(ds[1..]) == -Sum(ds);
    ExtremesAtMost(ds, test, 0.0);
    Quotients(2, Extremes(ds, test, 0.0), Pow2(n));
  }

  lemma ObservedKept(ds: seq<real>, es: seq<real>)
    requires ds != [] && |es| == |ds| && (Sum(es) == Sum(ds) || Sum(es) == -Sum(ds))
    ensures Observed(es) == Observed(ds)
  {
    MinusOver(Sum(ds), |ds|);
  }

  lemma ExactPReorder(ds: seq<real>, es: seq<real>)
    requires ds != [] && multiset(ds) == multiset(es)
    ensures es != [] && ExactP(es) == ExactP(ds)
  {
    assert |ds| == |multiset(ds)| == |es|;
    SumReorders(Same(), ds, es);
    ObservedKept(ds, es);
    ExtremesReorder(ds, es, ExtremeTest(|ds|, Observed(ds)), 0.0);
  }

  lemma ExactPSwapsArms(ds: seq<real>)
    requires ds != []
    ensures ExactP(Negate(ds)) == ExactP(ds)
  {
    SumNegates(Same(), Same(), ds);
    ObservedKept(ds, Negate(ds));
    ExtremesNegate(ds, ExtremeTest(|ds|, Observed(ds)), 0.0);
  }

  // ---------------------------------------------------------------------
  // The mask loop
  // ---------------------------------------------------------------------

  /** `mask & (1 << index)` */
  predicate Bit(mask: nat, index: nat)
  {
    if index == 0 then mask % 2 == 1 else Bit(mask / 2, index - 1)
  }

  function Signs(mask: nat, n: nat): (signs: seq<bool>)
    ensures |signs| == n
  {
    if n == 0 then [] else [mask % 2 == 1] + Signs(mask / 2, n - 1)
  }

  lemma {:induction false} SignsAreBits(mask: nat, n: nat, i: nat)
    requires i < n
    ensures Signs(mask, n)[i] == Bit(mask, i)
  {
    if i > 0 { SignsAreBits(mask / 2, n - 1, i - 1); }
  }

  function One(b: bool): nat { if b then 1 else 0 }

  /** How many of the first `hi` masks are extreme. */
  function ExtremeMasks(ds: seq<real>, test: real -> bool, acc: real, hi: nat): nat
  {
    if hi == 0 then 0
    else ExtremeMasks(ds, test, acc, hi - 1) + One(test(SignedSum(ds, Signs(hi - 1, |ds|), acc)))
  }

  lemma SignsDouble(half: nat, n: nat)
    requires n > 0
    ensures Signs(2 * half, n)[0] == false && Signs(2 * half, n)[1..] == Signs(half, n - 1)
    ensures Signs(2 * half + 1, n)[0] == true && Signs(2 * half + 1, n)[1..] == Signs(half, n - 1)
  {
    assert (2 * half) / 2 == half && (2 * half + 1) / 2 == half;
  }

  /** Odd masks keep the first difference, even masks flip it. */
  lemma {:induction false} MasksSplit(ds: seq<real>, test: real -> bool, acc: real, half: nat)
    requires ds != []
    ensures ExtremeMasks(ds, test, acc, 2 * half) ==
      ExtremeMasks(ds[1..], test, acc + ds[0], half) + ExtremeMasks(ds[1..], test, acc - ds[0], half)
  {
    if half > 0 {
      var h := half - 1;
      MasksSplit(ds, test, acc, h);
      MasksPair(ds, test, acc, h, 2 * h);
      OneMore(ds[1..], test, acc + ds[0], h);
      OneMore(ds[1..], test, acc - ds[0], h);
    }
  }

  lemma OneMore(ds: seq<real>, test: real -> bool, acc: real, h: nat)
    ensures ExtremeMasks(ds, test, acc, h + 1) ==
      ExtremeMasks(ds, test, acc, h) + One(test(SignedSum(ds, Signs(h, |ds|), acc)))
  {}

  /** An even mask and the odd one after it are one mask of the rest, with either sign in front. */
  lemma MasksPair(ds: seq<real>, test: real -> bool, acc: real, h: nat, even: nat)
    requires ds != [] && even == 2 * h
    ensures ExtremeMasks(ds, test, acc, even + 2) == ExtremeMasks(ds, test, acc, even)
      + One(test(SignedSum(ds[1..], Signs(h, |ds[1..]|), acc - ds[0])))
      + One(test(SignedSum(ds[1..], Signs(h, |ds[1..]|), acc + ds[0])))
  {
    TotalsDouble(ds, acc, h);
    TwoMore(ds, test, acc, even);
  }

  lemma TotalsDouble(ds: seq<real>, acc: real, h: nat)
    requires ds != []
    ensures SignedSum(ds, Signs(2 * h, |ds|), acc) == SignedSum(ds[1..], Signs(h, |ds| - 1), acc - ds[0])
    ensures SignedSum(ds, Signs(2 * h + 1, |ds|), acc) == SignedSum(ds[1..], Signs(h, |ds| - 1), acc + ds[0])
  {
    SignsDouble(h, |ds|);
  }

  lemma TwoMore(ds: seq<real>, test: real -> bool, acc: real, even: nat)
    ensures ExtremeMasks(ds, test, acc, even + 2) == ExtremeMasks(ds, test, acc, even)
      + One(test(SignedSum(ds, Signs(even, |ds|), acc)))
      + One(test(SignedSum(ds, Signs(even + 1, |ds|), acc)))
  {
    assert ExtremeMasks(ds, test, acc, even + 2) == ExtremeMasks(ds, test, acc, even + 1)
      + One(test(SignedSum(ds, Signs(even + 1, |ds|), acc)));
  }

  lemma OneMask(ds: seq<real>, test: real -> bool, acc: real)
    requires ds == []
    ensures ExtremeMasks(ds, test, acc, 1) == One(test(acc))
  {
    assert ExtremeMasks(ds, test, acc, 0) == 0;
  }

  /** All masks together are all sign assignments. */
  lemma {:induction false} MasksAreSigns(ds: seq<real>, test: real -> bool, acc: real)
    ensures ExtremeMasks(ds, test, acc, Pow2(|ds|)) == Extremes(ds, test, acc)
  {
    if ds == [] {
      OneMask(ds, test, acc);
    } else {
      var half := Pow2(|ds| - 1);
      assert Pow2(|ds|) == 2 * half;
      MasksSplit(ds, test, acc, half);
      MasksAreSigns(ds[1..], test, acc + ds[0]);
      MasksAreSigns(ds[1..], test, acc - ds[0]);
    }
  }

  lemma {:induction false} SignedSumMore(ds: seq<real>, signs: seq<bool>, acc: real, i: nat)
    requires |signs| == |ds| && i < |ds|
    ensures SignedSum(ds[..i + 1], signs[..i + 1], acc) ==
      SignedSum(ds[..i], signs[..i], acc) + if signs[i] then ds[i] else -ds[i]
  {
    if i > 0 {
      SignedSumMore(ds[1..], signs[1..], if signs[0] then acc + ds[0] else acc - ds[0], i - 1);
      assert ds[..i + 1][1..] == ds[1..][..i] && signs[..i + 1][1..] == signs[1..][..i];
      assert ds[..i][1..] == ds[1..][..i - 1] && signs[..i][1..] == signs[1..][..i - 1];
    }
  }

  /** The inner sum: each difference with the sign its bit gives it. */
  method MaskTotal(ds: seq<real>, mask: nat) returns (total: real)
    ensures total == SignedSum(ds, Signs(mask, |ds|), 0.0)
  {
    total := 0.0;
    ghost var signs := Signs(mask, |ds|);
    for index := 0 to |ds|
      invariant total == SignedSum(ds[..index], signs[..index], 0.0)
    {
      SignsAreBits(mask, |ds|, index);
      SignedSumMore(ds, signs, 0.0, index);
      total := total + if Bit(mask, index) then ds[index] else -ds[index];
    }
    TakeAll(ds);
    TakeAll(signs);
  }

  method CountMasks(ds: seq<real>, observed: real) returns (extreme: nat)
    requires ds != []
    ensures extreme == Extremes(ds, ExtremeTest(|ds|, observed), 0.0)
  {
    extreme := 0;
    var all := Pow2(|ds|);
    for mask := 0 to all
      invariant extreme == ExtremeMasks(ds, ExtremeTest(|ds|, observed), 0.0, mask)
    {
      var total := MaskTotal(ds, mask);
      if IsExtreme(|ds|, observed, total) { extreme := extreme + 1; }
    }
    MasksAreSigns(ds, ExtremeTest(|ds|, observed), 0.0);
  }

  // ---------------------------------------------------------------------
  // The Monte Carlo branch
  // ---------------------------------------------------------------------

  /** The signs of one draw: `rng.getrandbits(1)` for each difference in turn. */
  function Drawn(bits: (nat, nat) -> bool, draw: nat, n: nat): seq<bool>
  {
    seq(n, index requires 0 <= index < n => bits(draw, index))
  }

  function ExtremeDraws(ds: seq<real>, observed: real, bits: (nat, nat) -> bool, draws: nat): (count: nat)
    requires ds != []
    ensures count <= draws
  {
    if draws == 0 then 0
    else
      var total := SignedSum(ds, Drawn(bits, draws - 1, |ds|), 0.0);
      ExtremeDraws(ds, observed, bits, draws - 1) + One(IsExtreme(|ds|, observed, total))
  }

  method DrawTotal(ds: seq<real>, bits: (nat, nat) -> bool, draw: nat) returns (total: real)
    ensures total == SignedSum(ds, Drawn(bits, draw, |ds|), 0.0)
  {
    total := 0.0;
    ghost var signs := Drawn(bits, draw, |ds|);
    for index := 0 to |ds|
      invariant total == SignedSum(ds[..index], signs[..index], 0.0)
    {
      SignedSumMore(ds, signs, 0.0, index);
      total := total + if bits(draw, index) then ds[index] else -ds[index];
    }
    TakeAll(ds);
    TakeAll(signs);
  }

  method CountDraws(ds: seq<real>, observed: real, bits: (nat, nat) -> bool, resamples: nat) returns (extreme: nat)
    requires ds != []
    ensures extreme == ExtremeDraws(ds, observed, bits, resamples)
  {
    extreme := 0;
    for draw := 0 to resamples
      invariant extreme == ExtremeDraws(ds, observed, bits, draw)
    {
      var total := DrawTotal(ds, bits, draw);
      if IsExtreme(|ds|, observed, total) { extreme := extreme + 1; }
    }
  }

  /** With the plus-one correction the estimate is positive and at most 1. */
  function MonteCarloP(ds: seq<real>, bits: (nat, nat) -> bool, resamples: nat): (p: real)
    requires ds != []
    ensures 0.0 < p <= 1.0
  {
    var extreme := ExtremeDraws(ds, Observed(ds), bits, resamples);
    Ratio(extreme + 1, resamples + 1);
    (extreme + 1) as real / (resamples + 1) as real
  }

  // ---------------------------------------------------------------------
  // Rank-biserial effect size
  // ---------------------------------------------------------------------

  function Smaller(x: real): real -> real { v => if Abs(v) < x then 1.0 else 0.0 }

  function Equal(x: real): real -> real { v => if Abs(v) == x then 1.0 else 0.0 }

  /** The average rank of magnitude x among vs: ties share the middle of their ranks. */
  function MidRank(vs: seq<real>, x: real): real
  {
    SumOver(Smaller(x), vs) + (SumOver(Equal(x), vs) + 1.0) / 2.0
  }

  function SignedRank(vs: seq<real>): real -> real
  {
    v => if v > 0.0 then MidRank(vs, Abs(v)) else -MidRank(vs, Abs(v))
  }

  /** The sum of the signed ranks, without sorting. */
  function SignedRankSum(vs: seq<real>): real { SumOver(SignedRank(vs), vs) }

  /** 1 + 2 + ... + m */
  function Triangle(m: nat): real { if m == 0 then 0.0 else Triangle(m - 1) + m as real }

  lemma {:induction false} TriangleForm(m: nat)
    ensures Triangle(m) == m as real * (m + 1) as real / 2.0
  {
    if m > 0 {
      TriangleForm(m - 1);
      var x := m as real;
      assert (m - 1) as real == x - 1.0 && (m + 1) as real == x + 1.0;
      assert (x - 1.0) * x == x * x - x && x * (x + 1.0) == x * x + x;
    }
  }

  /** A run of ranks from index + 1 to end is as many times their average. */
  lemma {:induction false} TriangleRun(index: nat, end: nat)
    requires index <= end
    ensures Triangle(end) == Triangle(index) + (end - index) as real * (((index + 1) + end) as real / 2.0)
  {
    TriangleForm(index);
    TriangleForm(end);
    var i, e := index as real, end as real;
    assert (end - index) as real == e - i && ((index + 1) + end) as real == i + 1.0 + e;
    assert (e - i) * (i + 1.0 + e) == e * (e + 1.0) - i * (i + 1.0) by {
      assert (e - i) * (i + 1.0 + e) == e * (i + 1.0 + e) - i * (i + 1.0 + e);
    }
  }

  ghost predicate SortedBySize(vs: seq<real>)
  {
    forall i, j :: 0 <= i < j < |vs| ==> Abs(vs[i]) <= Abs(vs[j])
  }

  /** [index, end) is exactly the group of one magnitude. */
  ghost predicate IsGroup(vs: seq<real>, index: nat, end: nat)
  {
    && index < end <= |vs|
    && (forall i :: index <= i < end ==> Abs(vs[i]) == Abs(vs[index]))
    && (forall i :: 0 <= i < index ==> Abs(vs[i]) < Abs(vs[index]))
    && (forall i :: end <= i < |vs| ==> Abs(vs[i]) > Abs(vs[index]))
  }

  lemma {:induction false} GroupCounts(vs: seq<real>, index: nat, end: nat, n: nat)
    requires IsGroup(vs, index, end) && n <= |vs|
    ensures SumOver(Smaller(Abs(vs[index])), vs[..n]) == (if n <= index then n else index) as real
    ensures SumOver(Equal(Abs(vs[index])), vs[..n]) ==
      (if n <= index then 0 else if n <= end then n - index else end - index) as real
  {
    if n > 0 {
      GroupCounts(vs, index, end, n - 1);
      assert vs[..n][..n - 1] == vs[..n - 1];
    }
  }

  /** Inside a group the average rank is the middle rank of its magnitude. */
  lemma GroupRank(vs: seq<real>, index: nat, end: nat)
    requires IsGroup(vs, index, end)
    ensures MidRank(vs, Abs(vs[index])) == ((index + 1) + end) as real / 2.0
  {
    GroupCounts(vs, index, end, |vs|);
    TakeAll(vs);
  }

  function Repeated(k: nat, x: real): real { if k == 0 then 0.0 else Repeated(k - 1, x) + x }

  lemma {:induction false} RepeatedForm(k: nat, x: real)
    ensures Repeated(k, x) == k as real * x
  {
    if k > 0 {
      RepeatedForm(k - 1, x);
      assert k as real == (k - 1) as real + 1.0;
      var j := (k - 1) as real;
      assert (j + 1.0) * x == j * x + x;
    }
  }

  lemma SumStep(f: real -> real, s: seq<real>, i: nat)
    requires i < |s|
    ensures SumOver(f, s[..i + 1]) == SumOver(f, s[..i]) + f(s[i])
  {
    assert s[..i + 1][..i] == s[..i];
  }

  /** Adds one average rank for each of vs[index..end], signed and unsigned. */
  method AddRanks(vs: seq<real>, ghost f: real -> real, index: nat, end: nat, average: real, signed: real, total: real)
    returns (signed': real, total': real)
    requires index < end <= |vs| && average >= 0.0 && signed == SumOver(f, vs[..index]) && Abs(signed) <= total
    requires forall i :: index <= i < end ==> f(vs[i]) == if vs[i] > 0.0 then average else -average
    ensures signed' == SumOver(f, vs[..end]) && total' == total + Repeated(end - index, average)
    ensures Abs(signed') <= total'
  {
    signed', total' := signed, total;
    for i := index to end
      invariant signed' == SumOver(f, vs[..i])
      invariant total' == total + Repeated(i - index, average)
      invariant Abs(signed') <= total'
    {
      SumStep(f, vs, i);
      signed' := signed' + if vs[i] > 0.0 then average else -average;
      total' := total' + average;
    }
  }

  lemma GroupRanks(vs: seq<real>, index: nat, end: nat, average: real)
    requires IsGroup(vs, index, end) && average == ((index + 1) + end) as real / 2.0
    ensures forall i :: index <= i < end ==> SignedRank(vs)(vs[i]) == if vs[i] > 0.0 then average else -average
  {
    GroupRank(vs, index, end);
    forall i | index <= i < end ensures SignedRank(vs)(vs[i]) == if vs[i] > 0.0 then average else -average {
      assert Abs(vs[i]) == Abs(vs[index]);
    }
  }

  lemma GroupTotal(index: nat, end: nat, average: real)
    requires index <= end && average == ((index + 1) + end) as real / 2.0
    ensures Triangle(end) == Triangle(index) + Repeated(end - index, average)
  {
    TriangleRun(index, end);
    RepeatedForm(end - index, average);
  }

  /** One tie group: its members share the average of its ranks. */
  method RankGroup(vs: seq<real>, index: nat, end: nat, signed: real, total: real) returns (signed': real, total': real)
    requires IsGroup(vs, index, end) && signed == SumOver(SignedRank(vs), vs[..index]) && total == Triangle(index)
    requires Abs(signed) <= total
    ensures signed' == SumOver(SignedRank(vs), vs[..end]) && total' == Triangle(end)
    ensures Abs(signed') <= total'
  {
    var average := ((index + 1) + end) as real / 2.0;
    GroupRanks(vs, index, end, average);
    GroupTotal(index, end, average);
    signed', total' := AddRanks(vs, SignedRank(vs), index, end, average, signed, total);
  }

  /** The tie loop over values sorted by magnitude. */
  method RankSums(vs: seq<real>) returns (signed: real, total: real)
    requires SortedBySize(vs)
    ensures signed == SignedRankSum(vs) && total == Triangle(|vs|)
    ensures Abs(signed) <= total
  {
    signed, total := 0.0, 0.0;
    var index := 0;
    while index < |vs|
      invariant index <= |vs| && signed == SumOver(SignedRank(vs), vs[..index]) && total == Triangle(index)
      invariant Abs(signed) <= total
      invariant 0 < index < |vs| ==> Abs(vs[index - 1]) < Abs(vs[index])
    {
      var end := index + 1;
      while end < |vs| && Abs(vs[end]) == Abs(vs[index])
        invariant index < end <= |vs|
        invariant forall i :: index <= i < end ==> Abs(vs[i]) == Abs(vs[index])
      {
        end := end + 1;
      }
      GroupFound(vs, index, end);
      signed, total := RankGroup(vs, index, end, signed, total);
      index := end;
    }
    TakeAll(vs);
  }

  lemma GroupFound(vs: seq<real>, index: nat, end: nat)
    requires SortedBySize(vs) && index < end <= |vs|
    requires forall i :: index <= i < end ==> Abs(vs[i]) == Abs(vs[index])
    requires 0 < index ==> Abs(vs[index - 1]) < Abs(vs[index])
    requires end < |vs| ==> Abs(vs[end]) != Abs(vs[index])
    ensures IsGroup(vs, index, end)
    ensures end < |vs| ==> Abs(vs[end - 1]) < Abs(vs[end])
  {
    forall i | 0 <= i < index ensures Abs(vs[i]) < Abs(vs[index]) {
      assert i < index - 1 ==> Abs(vs[i]) <= Abs(vs[index - 1]);
    }
    forall i | end <= i < |vs| ensures Abs(vs[i]) > Abs(vs[index]) {
      assert end < i ==> Abs(vs[end]) <= Abs(vs[i]);
    }
  }

  function InsertBySize(v: real, s: seq<real>): (r: seq<real>)
    ensures multiset(r) == multiset(s) + multiset{v}
  {
    if s == [] || Abs(s[|s| - 1]) <= Abs(v) then s + [v]
    else
      assert s == s[..|s| - 1] + [s[|s| - 1]];
      InsertBySize(v, s[..|s| - 1]) + [s[|s| - 1]]
  }

  /** `sorted(nonzero, key=abs)`, stable. */
  function SortBySize(vs: seq<real>): (r: seq<real>)
    ensures multiset(r) == multiset(vs)
  {
    if vs == [] then [] else
      assert vs == vs[..|vs| - 1] + [vs[|vs| - 1]];
      InsertBySize(vs[|vs| - 1], SortBySize(vs[..|vs| - 1]))
  }

  lemma {:induction false} InsertKeepsSize(v: real, s: seq<real>)
    requires SortedBySize(s)
    ensures SortedBySize(InsertBySize(v, s))
  {
    if s != [] && Abs(s[|s| - 1]) > Abs(v) {
      var init, last := s[..|s| - 1], s[|s| - 1];
      InsertKeepsSize(v, init);
      var r := InsertBySize(v, init);
      forall x | x in r ensures Abs(x) <= Abs(last) {
        assert x in multiset(r) && x in multiset(init) + multiset{v};
        if x != v {
          assert x in init;
          var i :| 0 <= i < |init| && init[i] == x;
        }
      }
    }
  }

  lemma {:induction false} SortSorts(vs: seq<real>)
    ensures SortedBySize(SortBySize(vs))
  {
    if vs != [] {
      SortSorts(vs[..|vs| - 1]);
      InsertKeepsSize(vs[|vs| - 1], SortBySize(vs[..|vs| - 1]));
    }
  }

  lemma {:induction false} SumSame(f: real -> real, g: real -> real, s: seq<real>)
    requires forall v :: f(v) == g(v)
    ensures SumOver(f, s) == SumOver(g, s)
  {
    if s != [] { SumSame(f, g, s[..|s| - 1]); }
  }

  /** The signed rank sum does not depend on the order of its values. */
  lemma SignedRankSumReorders(a: seq<real>, b: seq<real>)
    requires multiset(a) == multiset(b)
    ensures SignedRankSum(a) == SignedRankSum(b)
  {
    forall v ensures SignedRank(a)(v) == SignedRank(b)(v) {
      SumReorders(Smaller(Abs(v)), a, b);
      SumReorders(Equal(Abs(v)), a, b);
    }
    SumSame(SignedRank(a), SignedRank(b), a);
    SumReorders(SignedRank(b), a, b);
  }

  function NonZero(ds: seq<real>): (vs: seq<real>)
    ensures forall i :: 0 <= i < |vs| ==> vs[i] != 0.0
  {
    if ds == [] then []
    else NonZero(ds[..|ds| - 1]) + if ds[|ds| - 1] != 0.0 then [ds[|ds| - 1]] else []
  }

  /** The effect size: signed rank sum over total rank sum of the nonzero differences. */
  function RankBiserial(ds: seq<real>): real
  {
    var vs := NonZero(ds);
    if vs == [] then 0.0 else
      TrianglePositive(|vs|);
      Quotient(SignedRankSum(vs), Triangle(|vs|))
  }

  function Quotient(x: real, y: real): real
    requires y != 0.0
  {
    x / y
  }

  lemma {:induction false} TrianglePositive(m: nat)
    ensures m > 0 ==> Triangle(m) > 0.0
    ensures Triangle(m) >= 0.0
  {
    if m > 0 { TrianglePositive(m - 1); }
  }

  method EffectSize(ds: seq<real>) returns (r: real)
    ensures r == RankBiserial(ds) && -1.0 <= r <= 1.0
  {
    var nonzero := NonZero(ds);
    if nonzero == [] { return 0.0; }
    var ordered := SortBySize(nonzero);
    SortSorts(nonzero);
    assert |ordered| == |multiset(ordered)| == |nonzero|;
    var signed, total := RankSums(ordered);
    SignedRankSumReorders(ordered, nonzero);
    TrianglePositive(|nonzero|);
    WithinOne(signed, total);
    r := signed / total;
  }

  lemma PositiveProduct(a: real, b: real)
    ensures a > 0.0 && b > 0.0 ==> a * b > 0.0
  {}

  lemma WithinOne(x: real, y: real)
    requires y > 0.0 && Abs(x) <= y
    ensures -1.0 <= x / y <= 1.0
  {
    var q := x / y;
    assert q * y == x;
    var above, below := q - 1.0, -1.0 - q;
    assert above * y == q * y - y && below * y == -y - q * y;
    PositiveProduct(above, y);
    PositiveProduct(below, y);
  }

  lemma {:induction false} NonZeroNegates(ds: seq<real>)
    ensures NonZero(Negate(ds)) == Negate(NonZero(ds))
  {
    if ds != [] {
      var n := |ds| - 1;
      assert Negate(ds)[..n] == Negate(ds[..n]);
      NonZeroNegates(ds[..n]);
    }
  }

  lemma {:induction false} SizesKept(f: real -> real, vs: seq<real>)
    requires forall v :: f(-v) == f(v)
    ensures SumOver(f, Negate(vs)) == SumOver(f, vs)
  {
    if vs != [] {
      var n := |vs| - 1;
      assert Negate(vs)[..n] == Negate(vs[..n]);
      SizesKept(f, vs[..n]);
      assert f(-vs[n]) == f(vs[n]);
    }
  }

  /** Swapping the arms negates the effect size. */
  lemma RankBiserialNegates(ds: seq<real>)
    ensures RankBiserial(Negate(ds)) == -RankBiserial(ds)
  {
    NonZeroNegates(ds);
    var vs := NonZero(ds);
    if vs != [] {
      NonZeroSumNegates(vs);
      TrianglePositive(|vs|);
      MinusQuotient(SignedRankSum(vs), SignedRankSum(Negate(vs)), Triangle(|vs|));
    }
  }

  lemma MinusQuotient(x: real, z: real, y: real)
    requires y > 0.0 && z == -x
    ensures Quotient(z, y) == -Quotient(x, y)
  {
    var q, r := x / y, z / y;
    assert q * y == x && r * y == z;
    assert (q + r) * y == 0.0;
  }

  lemma NonZeroSumNegates(vs: seq<real>)
    requires forall i :: 0 <= i < |vs| ==> vs[i] != 0.0
    ensures SignedRankSum(Negate(vs)) == -SignedRankSum(vs)
  {
    var ws := Negate(vs);
    forall i | 0 <= i < |vs| ensures SignedRank(ws)(-vs[i]) == -SignedRank(vs)(vs[i]) {
      RankFlips(vs, ws, vs[i]);
    }
    SignsFlip(SignedRank(vs), SignedRank(ws), vs);
  }

  lemma RankFlips(vs: seq<real>, ws: seq<real>, v: real)
    requires ws == Negate(vs) && v != 0.0
    ensures SignedRank(ws)(-v) == -SignedRank(vs)(v)
  {
    SizesKept(Smaller(Abs(v)), vs);
    SizesKept(Equal(Abs(v)), vs);
    assert MidRank(ws, Abs(v)) == MidRank(vs, Abs(v)) && Abs(-v) == Abs(v);
  }

  lemma {:induction false} SignsFlip(f: real -> real, g: real -> real, vs: seq<real>)
    requires forall i :: 0 <= i < |vs| ==> g(-vs[i]) == -f(vs[i])
    ensures SumOver(g, Negate(vs)) == -SumOver(f, vs)
  {
    if vs != [] {
      var n := |vs| - 1;
      assert Negate(vs)[..n] == Negate(vs[..n]);
      SignsFlip(f, g, vs[..n]);
    }
  }

  // ---------------------------------------------------------------------
  // The whole test
  // ---------------------------------------------------------------------

  datatype Estimates = Estimates(mean: real, pValue: real, rankBiserial: real, exact: bool)

  function Differences(champion: seq<real>, challenger: seq<real>): (ds: seq<real>)
    requires |champion| == |challenger|
    ensures |ds| == |champion|
  {
    seq(|champion|, i requires 0 <= i < |champion| => challenger[i] - champion[i])
  }

  /** `paired_permutation`; None where it raises. */
  method PairedPermutation(champion: seq<real>, challenger: seq<real>, resamples: int, exactLimit: int,
                           bits: (nat, nat) -> bool) returns (r: Option<Estimates>)
    ensures r.None? <==> |champion| != |challenger| || champion == [] || resamples <= 0 || exactLimit < 0
    ensures r.Some? ==>
      var ds := Differences(champion, challenger);
      && r.value.exact == (|ds| <= exactLimit)
      && r.value.mean == Sum(ds) / |ds| as real
      && r.value.pValue == (if |ds| <= exactLimit then ExactP(ds) else MonteCarloP(ds, bits, resamples))
      && r.value.rankBiserial == RankBiserial(ds) && -1.0 <= r.value.rankBiserial <= 1.0
  {
    if |champion| != |challenger| || champion == [] || resamples <= 0 || exactLimit < 0 { return None; }
    var ds := Differences(champion, challenger);
    var observed := Observed(ds);
    var p: real;
    if |ds| <= exactLimit {
      var extreme := CountMasks(ds, observed);
      p := extreme as real / Pow2(|ds|) as real;
    } else {
      var extreme := CountDraws(ds, observed, bits, resamples);
      p := (extreme + 1) as real / (resamples + 1) as real;
    }
    var effect := EffectSize(ds);
    return Some(Estimates(Sum(ds) / |ds| as real, p, effect, |ds| <= exactLimit));
  }

  /** Exchanging champion and challenger flips every difference. */
  lemma SwappedArms(champion: seq<real>, challenger: seq<real>)
    requires |champion| == |challenger| && champion != []
    ensures var ds, es := Differences(champion, challenger), Differences(challenger, champion);
      ExactP(es) == ExactP(ds) && RankBiserial(es) == -RankBiserial(ds) && Sum(es) == -Sum(ds)
  {
    assert Differences(challenger, champion) == Negate(Differences(champion, challenger));
    AllNegate(Differences(champion, challenger));
  }

  lemma SumSwapsArms(ds: seq<real>)
    ensures Sum(Negate(ds)) == -Sum(ds)
  {
    SumNegates(Same(), Same(), ds);
  }

  lemma AllNegate(ds: seq<real>)
    requires ds != []
    ensures ExactP(Negate(ds)) == ExactP(ds) && RankBiserial(Negate(ds)) == -RankBiserial(ds) && Sum(Negate(ds)) == -Sum(ds)
  {
    ExactPSwapsArms(ds);
    RankBiserialNegates(ds);
    SumSwapsArms(ds);
  }
}
