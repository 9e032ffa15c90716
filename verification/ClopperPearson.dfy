/**
 The exact upper bound for a rare event rate: bisection on the binomial tail,
 over exact reals.
 */
module ClopperPearson {
  import opened Texts
  import opened Binomial

  function Pow(x: real, n: nat): real
  {
    if n == 0 then 1.0 else x * Pow(x, n - 1)
  }

  /** P(X = k) for X binomial over n trials with rate p. */
  function Term(n: nat, k: nat, p: real): real
  {
    if k > n then 0.0 else Choose(n, k) as real * Pow(p, k) * Pow(1.0 - p, n - k)
  }

  function SumTo(f: nat -> real, k: nat): real
  {
    if k == 0 then f(0) else SumTo(f, k - 1) + f(k)
  }

  function TermsOf(n: nat, p: real): nat -> real
  {
    (k: nat) => Term(n, k, p)
  }

  /** P(X <= k) */
  function Tail(n: nat, k: nat, p: real): real
  {
    SumTo(TermsOf(n, p), k)
  }

  // ---------------------------------------------------------------------
  // The tail falls as the rate rises
  // ---------------------------------------------------------------------

  lemma {:induction false} PowPositive(x: real, n: nat)
    ensures x >= 0.0 ==> Pow(x, n) >= 0.0
    ensures x > 0.0 ==> Pow(x, n) > 0.0
    ensures n > 0 ==> Pow(0.0, n) == 0.0
    ensures Pow(1.0, n) == 1.0
  {
    if n > 0 { PowPositive(x, n - 1); }
  }

  lemma Times(a: real, b: real)
    ensures a >= 0.0 && b >= 0.0 ==> a * b >= 0.0
    ensures a > 0.0 && b > 0.0 ==> a * b > 0.0
  {}

  lemma Product(a: real, b: real, c: real)
    requires a >= 0.0 && b >= 0.0 && c >= 0.0
    ensures a * b * c >= 0.0
    ensures a > 0.0 && b > 0.0 && c > 0.0 ==> a * b * c > 0.0
  {
    Times(a, b);
    var d := a * b;
    Times(d, c);
  }

  lemma TermPositive(n: nat, k: nat, p: real)
    requires 0.0 <= p <= 1.0
    ensures Term(n, k, p) >= 0.0
    ensures k <= n && 0.0 < p < 1.0 ==> Term(n, k, p) > 0.0
  {
    PowPositive(p, k);
    if k <= n {
      var c, x, y := Choose(n, k) as real, Pow(p, k), Pow(1.0 - p, n - k);
      PowPositive(1.0 - p, n - k);
      Product(c, x, y);
      assert Term(n, k, p) == c * x * y;
    }
  }

  /** Factor out one trial: a * (u * x) * y with the factors moved. */
  lemma MoveFactor(a: real, u: real, x: real, y: real)
    ensures a * (u * x) * y == u * (a * x * y)
    ensures a * x * (u * y) == u * (a * x * y)
  {}

  /** What is expected when the last trial succeeds with rate p: b then, a otherwise. */
  function Blend(p: real, a: real, b: real): real
  {
    (1.0 - p) * a + p * b
  }

  lemma BlendAdds(p: real, a: real, b: real, c: real, d: real)
    ensures Blend(p, a, b) + Blend(p, c, d) == Blend(p, a + c, b + d)
  {
    assert (1.0 - p) * (a + c) == (1.0 - p) * a + (1.0 - p) * c;
    assert p * (b + d) == p * b + p * d;
  }

  lemma BlendGrows(p: real, a: real, b: real, a': real, b': real)
    requires 0.0 <= p <= 1.0 && a >= a' && b >= b'
    ensures Blend(p, a, b) >= Blend(p, a', b')
  {
    var q, u, v := 1.0 - p, a - a', b - b';
    Times(q, u);
    Times(p, v);
    assert (1.0 - p) * u == (1.0 - p) * a - (1.0 - p) * a' && p * v == p * b - p * b';
  }

  lemma BlendForm(p: real, a: real, b: real)
    ensures Blend(p, a, b) == a - p * (a - b)
  {
    assert p * (a - b) == p * a - p * b;
  }

  lemma MoreWeight(p: real, r: real, u: real)
    requires p <= r && u >= 0.0
    ensures p * u <= r * u
    ensures p < r && u > 0.0 ==> p * u < r * u
  {
    var w := r - p;
    assert w * u == r * u - p * u;
    Times(w, u);
    if p < r && u > 0.0 { assert w * u > 0.0; }
  }

  lemma BlendShifts(p: real, r: real, a: real, b: real)
    requires p <= r && a >= b
    ensures Blend(p, a, b) >= Blend(r, a, b)
    ensures p < r && a > b ==> Blend(p, a, b) > Blend(r, a, b)
  {
    BlendForm(p, a, b);
    BlendForm(r, a, b);
    MoreWeight(p, r, a - b);
  }

  /** More weight on the smaller of two smaller values lowers the blend. */
  lemma BlendFalls(p: real, r: real, a: real, b: real, a': real, b': real)
    requires 0.0 <= p <= r <= 1.0 && a >= a' && b >= b' && a' >= b'
    ensures Blend(p, a, b) >= Blend(r, a', b')
    ensures p < r && a' > b' ==> Blend(p, a, b) > Blend(r, a', b')
  {
    BlendGrows(p, a, b, a', b');
    BlendShifts(p, r, a', b');
  }

  function Before(f: nat -> real, k: nat): real { if k == 0 then 0.0 else f(k - 1) }

  function SumBefore(f: nat -> real, k: nat): real { if k == 0 then 0.0 else SumTo(f, k - 1) }

  ghost predicate SplitsAt(p: real, f: nat -> real, g: nat -> real, k: nat)
  {
    f(k) == Blend(p, g(k), Before(g, k))
  }

  /** Sums split over the last trial if their terms do. */
  lemma {:induction false} SumSplits(p: real, f: nat -> real, g: nat -> real, k: nat)
    requires forall i: nat :: SplitsAt(p, f, g, i)
    ensures SumTo(f, k) == Blend(p, SumTo(g, k), SumBefore(g, k))
  {
    assert SplitsAt(p, f, g, k);
    if k > 0 {
      SumSplits(p, f, g, k - 1);
      BlendAdds(p, SumTo(g, k - 1), SumBefore(g, k - 1), g(k), g(k - 1));
    }
  }

  /** The n-th trial succeeds or fails. */
  lemma TermStep(n: nat, k: nat, p: real)
    requires n > 0
    ensures SplitsAt(p, TermsOf(n, p), TermsOf(n - 1, p), k)
  {
    if k == 0 {
      BottomTerm(n, p);
    } else if k < n {
      MiddleTerm(n, k, p);
    } else if k == n {
      TopTerm(n, p);
    }
  }

  lemma BottomTerm(n: nat, p: real)
    requires n > 0
    ensures Term(n, 0, p) == (1.0 - p) * Term(n - 1, 0, p)
  {
    assert Term(n, 0, p) == Pow(1.0 - p, n) && Term(n - 1, 0, p) == Pow(1.0 - p, n - 1);
  }

  lemma TopTerm(n: nat, p: real)
    requires n > 0
    ensures Term(n, n, p) == p * Term(n - 1, n - 1, p)
  {
    TopIsOne(n);
    TopIsOne(n - 1);
    assert Term(n, n, p) == Pow(p, n) && Term(n - 1, n - 1, p) == Pow(p, n - 1);
  }

  lemma MiddleTerm(n: nat, k: nat, p: real)
    requires 0 < k < n
    ensures Term(n, k, p) == Blend(p, Term(n - 1, k, p), Term(n - 1, k - 1, p))
  {
    var q := 1.0 - p;
    var a, b := Choose(n - 1, k - 1) as real, Choose(n - 1, k) as real;
    var x, y := Pow(p, k - 1), Pow(q, n - 1 - k);
    Pascal(p, q, a, b, x, y);
  }

  lemma Pascal(p: real, q: real, a: real, b: real, x: real, y: real)
    ensures (a + b) * (p * x) * (q * y) == q * (b * (p * x) * y) + p * (a * x * (q * y))
  {
    var u, v := p * x, q * y;
    assert (a + b) * u * v == a * u * v + b * u * v;
    MoveFactor(a, p, x, v);
    MoveFactor(b, q, u, y);
  }

  lemma {:induction false} TopIsOne(n: nat)
    ensures Choose(n, n) == 1
  {
    if n > 0 { TopIsOne(n - 1); }
  }

  lemma TailStep(n: nat, k: nat, p: real)
    requires n > 0
    ensures Tail(n, k, p) == Blend(p, Tail(n - 1, k, p), SumBefore(TermsOf(n - 1, p), k))
  {
    var f, g := TermsOf(n, p), TermsOf(n - 1, p);
    forall i: nat ensures SplitsAt(p, f, g, i) { TermStep(n, i, p); }
    SumSplits(p, f, g, k);
  }

  /** The tail with one more outcome counted is no smaller. */
  lemma TailMore(n: nat, k: nat, p: real)
    requires 0.0 <= p <= 1.0
    ensures Tail(n, k, p) >= SumBefore(TermsOf(n, p), k)
    ensures k <= n && 0.0 < p < 1.0 ==> Tail(n, k, p) > SumBefore(TermsOf(n, p), k)
  {
    TermPositive(n, k, p);
    assert TermsOf(n, p)(k) == Term(n, k, p);
  }

  lemma {:induction false} TailFalls(n: nat, k: nat, p: real, r: real)
    requires 0.0 <= p <= r <= 1.0
    ensures Tail(n, k, p) >= Tail(n, k, r)
    ensures SumBefore(TermsOf(n, p), k) >= SumBefore(TermsOf(n, r), k)
    decreases n, k
  {
    if k > 0 { TailFalls(n, k - 1, p, r); }
    if n == 0 {
      NoTrials(k, p);
      NoTrials(k, r);
    } else {
      TailFalls(n - 1, k, p, r);
      StepFalls(n, k, p, r);
    }
  }

  lemma StepFalls(n: nat, k: nat, p: real, r: real)
    requires 0.0 <= p <= r <= 1.0 && n > 0
    requires Tail(n - 1, k, p) >= Tail(n - 1, k, r)
    requires SumBefore(TermsOf(n - 1, p), k) >= SumBefore(TermsOf(n - 1, r), k)
    ensures Tail(n, k, p) >= Tail(n, k, r)
    ensures p < r < 1.0 && k < n ==> Tail(n, k, p) > Tail(n, k, r)
  {
    TailStep(n, k, p);
    TailStep(n, k, r);
    TailMore(n - 1, k, r);
    var a, b := Tail(n - 1, k, p), SumBefore(TermsOf(n - 1, p), k);
    var a', b' := Tail(n - 1, k, r), SumBefore(TermsOf(n - 1, r), k);
    BlendFalls(p, r, a, b, a', b');
  }

  lemma {:induction false} NoTrials(k: nat, p: real)
    ensures Tail(0, k, p) == 1.0
  {
    assert TermsOf(0, p)(k) == Term(0, k, p);
    if k > 0 { NoTrials(k - 1, p); }
  }

  /** Strictly, as long as not every outcome is counted. */
  lemma TailFallsStrictly(n: nat, k: nat, p: real, r: real)
    requires 0.0 <= p < r <= 1.0 && k < n
    ensures Tail(n, k, p) > Tail(n, k, r)
  {
    var middle := if r < 1.0 then r else (p + 1.0) / 2.0;
    TailFalls(n - 1, k, p, middle);
    StepFalls(n, k, p, middle);
    TailFalls(n, k, middle, r);
  }

  /** At rate 0 the tail is 1; at rate 1 it is 0 unless every outcome is counted. */
  lemma {:induction false} TailAtEnds(n: nat, k: nat)
    ensures Tail(n, k, 0.0) == 1.0
    ensures Tail(n, k, 1.0) == if k < n then 0.0 else 1.0
    decreases n, k
  {
    if n == 0 {
      NoTrials(k, 0.0);
      NoTrials(k, 1.0);
    } else {
      TailStep(n, k, 0.0);
      TailStep(n, k, 1.0);
      TailAtEnds(n - 1, k);
      if k > 0 { TailAtEnds(n - 1, k - 1); }
    }
  }

  lemma {:induction false} FullTail(n: nat, k: nat, p: real)
    requires k >= n
    ensures Tail(n, k, p) == 1.0
    decreases n
  {
    if n == 0 {
      NoTrials(k, p);
    } else {
      TailStep(n, k, p);
      FullTail(n - 1, k, p);
      FullTail(n - 1, k - 1, p);
    }
  }

  // ---------------------------------------------------------------------
  // Bisection
  // ---------------------------------------------------------------------

  const ROUNDS := 200

  /** The interval after i halvings. */
  function Half(i: nat): (h: real)
    ensures h > 0.0
  {
    if i == 0 then 1.0 else Half(i - 1) / 2.0
  }

  ghost predicate Above(n: nat, k: nat, mass: real, p: real) { Tail(n, k, p) > mass }

  /** `bound` separates the rates whose tail exceeds the mass from the others, up to `slack`. */
  ghost predicate Separates(n: nat, k: nat, mass: real, bound: real, slack: real)
  {
    && (forall p :: 0.0 <= p <= bound - slack ==> Above(n, k, mass, p))
    && (forall p :: bound + slack <= p <= 1.0 ==> !Above(n, k, mass, p))
  }

  /** root is the n-th root of x that a power function gives. */
  ghost predicate IsRoot(root: real, n: nat, x: real) { root >= 0.0 && Pow(root, n) == x }

  /** The tail equals the mass at x and at no other rate. */
  ghost predicate OnlyCrossing(n: nat, k: nat, mass: real, x: real)
  {
    Tail(n, k, x) == mass && forall y :: 0.0 <= y <= 1.0 && Tail(n, k, y) == mass ==> y == x
  }

  lemma TailOfNone(n: nat, p: real)
    ensures Tail(n, 0, p) == Pow(1.0 - p, n)
  {
    assert TermsOf(n, p)(0) == Term(n, 0, p);
    assert Choose(n, 0) == 1 && Pow(p, 0) == 1.0;
  }

  lemma {:induction false} PowOfLarge(x: real, n: nat)
    requires x >= 1.0
    ensures Pow(x, n) >= 1.0
  {
    if n > 0 {
      PowOfLarge(x, n - 1);
      Times(x - 1.0, Pow(x, n - 1));
    }
  }

  /** Without events, one minus the root is the exact bound. */
  lemma RootIsCrossing(n: nat, mass: real, root: real)
    requires n > 0 && 0.0 < mass < 1.0 && IsRoot(root, n, mass)
    ensures 0.0 < 1.0 - root < 1.0 && OnlyCrossing(n, 0, mass, 1.0 - root)
  {
    if root >= 1.0 { PowOfLarge(root, n); }
    PowPositive(root, n);
    var x := 1.0 - root;
    TailOfNone(n, x);
    forall y | 0.0 <= y <= 1.0 && Tail(n, 0, y) == mass ensures y == x {
      if y < x { TailFallsStrictly(n, 0, y, x); }
      if x < y { TailFallsStrictly(n, 0, x, y); }
    }
  }

  /**
   `rare_event_upper_bound`; None where it raises. The zero-event closed form
   needs the trials-th root of the tail mass, which is handed in.
   */
  method RareEventUpperBound(events: int, trials: int, confidence: real, root: real) returns (upper: Option<real>)
    ensures upper.None? <==> trials <= 0 || events < 0 || events > trials || confidence <= 0.0 || confidence >= 1.0
    ensures upper.Some? && events == 0 && IsRoot(root, trials, 1.0 - confidence) ==>
      0.0 < upper.value < 1.0 && OnlyCrossing(trials, 0, 1.0 - confidence, upper.value)
    ensures upper.Some? && 0 < events < trials ==>
      0.0 <= upper.value <= 1.0 && Separates(trials, events, 1.0 - confidence, upper.value, Half(ROUNDS + 1))
    ensures upper.Some? && 0 < events == trials ==> upper.value == 1.0 - Half(ROUNDS + 1)
  {
    if trials <= 0 || !(0 <= events <= trials) { return None; }
    if !(0.0 < confidence < 1.0) { return None; }
    var mass := 1.0 - confidence;
    if events == 0 {
      if IsRoot(root, trials, mass) { RootIsCrossing(trials, mass, root); }
      return Some(1.0 - root);
    }
    var low, high := 0.0, 1.0;
    TailAtEnds(trials, events);
    for i := 0 to ROUNDS
      invariant 0.0 <= low && high <= 1.0 && high - low == Half(i)
      invariant Tail(trials, events, low) > mass
      invariant events < trials ==> Tail(trials, events, high) <= mass
      invariant events == trials ==> high == 1.0
    {
      var mid := (low + high) / 2.0;
      if events == trials { FullTail(trials, events, mid); }
      if Tail(trials, events, mid) > mass { low := mid; } else { high := mid; }
    }
    upper := Some((low + high) / 2.0);
    if events < trials { Bracket(trials, events, mass, low, high, upper.value, Half(ROUNDS + 1)); }
  }

  /** A bracket whose ends are on either side separates everything outside it. */
  lemma Bracket(n: nat, k: nat, mass: real, low: real, high: real, bound: real, slack: real)
    requires 0.0 <= low <= high <= 1.0 && low == bound - slack && high == bound + slack
    requires Tail(n, k, low) > mass && Tail(n, k, high) <= mass
    ensures Separates(n, k, mass, bound, slack)
  {
    forall p | 0.0 <= p <= bound - slack ensures Above(n, k, mass, p) { TailFalls(n, k, p, low); }
    forall p | bound + slack <= p <= 1.0 ensures !Above(n, k, mass, p) { TailFalls(n, k, high, p); }
  }

  /** The rate whose tail equals the mass, if there is one, is unique and within the slack of the bound. */
  lemma NearCrossing(n: nat, k: nat, mass: real, bound: real, slack: real, x: real)
    requires k < n && slack > 0.0 && 0.0 <= bound <= 1.0 && Separates(n, k, mass, bound, slack)
    requires 0.0 <= x <= 1.0 && Tail(n, k, x) == mass
    ensures bound - slack < x <= bound + slack
    ensures forall y :: 0.0 <= y <= 1.0 && Tail(n, k, y) == mass ==> y == x
  {
    assert !Above(n, k, mass, x);
    if x > bound + slack {
      assert !Above(n, k, mass, bound + slack);
      TailFallsStrictly(n, k, bound + slack, x);
    }
    forall y | 0.0 <= y <= 1.0 && Tail(n, k, y) == mass ensures y == x {
      if y < x { TailFallsStrictly(n, k, y, x); }
      if x < y { TailFallsStrictly(n, k, x, y); }
    }
  }
}
