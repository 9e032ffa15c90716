/**
 Holm's step-down adjustment of p-values, and the inference status that reads it.
 */
module Holm {
  import opened Texts

  // ---------------------------------------------------------------------
  // The adjustment without ranks
  // ---------------------------------------------------------------------

  /** The indices whose p-value is at least y. */
  function NotBelow(ps: seq<real>, y: real): set<nat>
  {
    set l: nat | l < |ps| && ps[l] >= y
  }

  function Least1(x: real): real { if x < 1.0 then x else 1.0 }

  function Most(x: real, y: real): real { if x < y then y else x }

  /** `min(1.0, count * p)` */
  function Share(count: nat, y: real): real { Least1(count as real * y) }

  /** A p-value times the number of p-values not below it, at most 1. */
  function Step(ps: seq<real>, y: real): real
  {
    Share(|NotBelow(ps, y)|, y)
  }

  /** The largest step among the first n p-values that are at most x. */
  function Largest(ps: seq<real>, x: real, n: nat): real
    requires n <= |ps|
  {
    if n == 0 then 0.0
    else if ps[n - 1] <= x then Most(Largest(ps, x, n - 1), Step(ps, ps[n - 1]))
    else Largest(ps, x, n - 1)
  }

  /** The adjusted p-value as a function of the p-value: no rank, no order, no index. */
  function Adjusted(ps: seq<real>, x: real): real { Largest(ps, x, |ps|) }

  lemma {:induction false} LargestIsBound(ps: seq<real>, x: real, n: nat, j: nat)
    requires j < n <= |ps| && ps[j] <= x
    ensures Step(ps, ps[j]) <= Largest(ps, x, n)
  {
    if j < n - 1 { LargestIsBound(ps, x, n - 1, j); }
  }

  lemma {:induction false} LargestAtMost(ps: seq<real>, x: real, n: nat, bound: real)
    requires n <= |ps| && bound >= 0.0
    requires forall j :: 0 <= j < n && ps[j] <= x ==> Step(ps, ps[j]) <= bound
    ensures Largest(ps, x, n) <= bound
  {
    if n > 0 { LargestAtMost(ps, x, n - 1, bound); }
  }

  lemma {:induction false} LargestNonNegative(ps: seq<real>, x: real, n: nat)
    requires n <= |ps|
    ensures Largest(ps, x, n) >= 0.0
  {
    if n > 0 { LargestNonNegative(ps, x, n - 1); }
  }

  lemma AdjustedIsBound(ps: seq<real>, x: real, j: nat)
    requires j < |ps| && ps[j] <= x
    ensures Step(ps, ps[j]) <= Adjusted(ps, x)
  {
    LargestIsBound(ps, x, |ps|, j);
  }

  /** Adjusted values are ordered like the p-values; equal p-values share one. */
  lemma AdjustedIsMonotone(ps: seq<real>, x: real, y: real)
    requires x <= y
    ensures 0.0 <= Adjusted(ps, x) <= Adjusted(ps, y)
  {
    LargestNonNegative(ps, x, |ps|);
    LargestNonNegative(ps, y, |ps|);
    forall j | 0 <= j < |ps| && ps[j] <= x ensures Step(ps, ps[j]) <= Adjusted(ps, y) {
      AdjustedIsBound(ps, y, j);
    }
    LargestAtMost(ps, x, |ps|, Adjusted(ps, y));
  }

  function Below(n: nat): (s: set<nat>)
    ensures forall l: nat :: l in s <==> l < n
  {
    if n == 0 then {} else Below(n - 1) + {n - 1}
  }

  lemma {:induction false} BelowSize(n: nat)
    ensures |Below(n)| == n
  {
    if n > 0 { BelowSize(n - 1); }
  }

  lemma CountNotBelow(ps: seq<real>, i: nat)
    requires i < |ps|
    ensures 1 <= |NotBelow(ps, ps[i])| <= |ps|
  {
    SubsetSmaller({i}, NotBelow(ps, ps[i]));
    SubsetSmaller(NotBelow(ps, ps[i]), Below(|ps|));
    BelowSize(|ps|);
  }

  lemma ShareGrows(a: nat, b: nat, x: real, y: real)
    requires a <= b && 0.0 <= x <= y
    ensures Share(a, x) <= Share(b, y)
  {
    ProductGrows(a as real, b as real, x);
    ProductGrows(x, y, b as real);
    var u, v, w := a as real * x, b as real * x, b as real * y;
    assert u <= v <= w;
  }

  lemma ProductGrows(u: real, v: real, w: real)
    requires u <= v && 0.0 <= w
    ensures u * w <= v * w && w * u <= w * v
  {
    var d := v - u;
    assert d * w >= 0.0;
    assert d * w == v * w - u * w;
  }

  lemma StepWithinBound(ps: seq<real>, i: nat, j: nat)
    requires i < |ps| && j < |ps| && 0.0 <= ps[j] <= ps[i]
    ensures Step(ps, ps[j]) <= Share(|ps|, ps[i])
  {
    CountNotBelow(ps, j);
    ShareGrows(|NotBelow(ps, ps[j])|, |ps|, ps[j], ps[i]);
  }

  /** Between the p-value and m times it, never above 1. */
  lemma AdjustedWithinBounds(ps: seq<real>, i: nat)
    requires i < |ps| && forall j :: 0 <= j < |ps| ==> 0.0 <= ps[j] <= 1.0
    ensures ps[i] <= Adjusted(ps, ps[i]) <= Share(|ps|, ps[i])
  {
    CountNotBelow(ps, i);
    ShareGrows(1, |NotBelow(ps, ps[i])|, ps[i], ps[i]);
    AdjustedIsBound(ps, ps[i], i);
    var bound := Share(|ps|, ps[i]);
    forall j: nat | j < |ps| && ps[j] <= ps[i] ensures Step(ps, ps[j]) <= bound { StepWithinBound(ps, i, j); }
    ShareGrows(0, |ps|, ps[i], ps[i]);
    LargestAtMost(ps, ps[i], |ps|, bound);
  }

  // ---------------------------------------------------------------------
  // Permutations
  // ---------------------------------------------------------------------

  /** qs lists the p-values of ps in another order: qs[i] is ps[moved[i]]. */
  ghost predicate Rearranges(ps: seq<real>, qs: seq<real>, moved: seq<nat>)
  {
    && |qs| == |ps| == |moved| && Distinct(moved) && SetOf(moved) == Below(|ps|)
    && forall i :: 0 <= i < |qs| ==> moved[i] < |ps| && qs[i] == ps[moved[i]]
  }

  lemma {:induction false} ImageSize(s: set<nat>, moved: seq<nat>)
    requires Distinct(moved) && forall l :: l in s ==> l < |moved|
    ensures |set l | l in s :: moved[l]| == |s|
  {
    if x :| x in s {
      var rest := s - {x};
      ImageSize(rest, moved);
      assert (set l | l in s :: moved[l]) == (set l | l in rest :: moved[l]) + {moved[x]};
      assert moved[x] !in (set l | l in rest :: moved[l]);
    }
  }

  lemma SameCount(ps: seq<real>, qs: seq<real>, moved: seq<nat>, y: real)
    requires Rearranges(ps, qs, moved)
    ensures |NotBelow(qs, y)| == |NotBelow(ps, y)|
  {
    var s := NotBelow(qs, y);
    ImageSize(s, moved);
    forall l | l in NotBelow(ps, y) ensures exists i :: i in s && moved[i] == l {
      assert l in SetOf(moved);
      var i :| 0 <= i < |moved| && moved[i] == l;
    }
    assert (set l | l in s :: moved[l]) == NotBelow(ps, y);
  }

  lemma StepKept(ps: seq<real>, qs: seq<real>, moved: seq<nat>, x: real, j: nat)
    requires Rearranges(ps, qs, moved) && j < |qs| && qs[j] <= x
    ensures Step(qs, qs[j]) <= Adjusted(ps, x)
  {
    SameCount(ps, qs, moved, qs[j]);
    AdjustedIsBound(ps, x, moved[j]);
  }

  lemma StepFound(ps: seq<real>, qs: seq<real>, moved: seq<nat>, x: real, j: nat)
    requires Rearranges(ps, qs, moved) && j < |ps| && ps[j] <= x
    ensures Step(ps, ps[j]) <= Adjusted(qs, x)
  {
    assert j in SetOf(moved);
    var i :| 0 <= i < |moved| && moved[i] == j;
    SameCount(ps, qs, moved, ps[j]);
    AdjustedIsBound(qs, x, i);
  }

  /** Listing the metrics in another order does not change any metric's adjusted value. */
  lemma AdjustedIgnoresOrder(ps: seq<real>, qs: seq<real>, moved: seq<nat>, x: real)
    requires Rearranges(ps, qs, moved)
    ensures Adjusted(qs, x) == Adjusted(ps, x)
  {
    var a, b := Adjusted(ps, x), Adjusted(qs, x);
    AdjustedIsMonotone(ps, x, x);
    AdjustedIsMonotone(qs, x, x);
    forall j: nat | j < |qs| && qs[j] <= x ensures Step(qs, qs[j]) <= a { StepKept(ps, qs, moved, x, j); }
    LargestAtMost(qs, x, |qs|, a);
    forall j: nat | j < |ps| && ps[j] <= x ensures Step(ps, ps[j]) <= b { StepFound(ps, qs, moved, x, j); }
    LargestAtMost(ps, x, |ps|, b);
  }

  // ---------------------------------------------------------------------
  // Family-wise control
  // ---------------------------------------------------------------------

  lemma {:induction false} SmallestOf(ps: seq<real>, nulls: set<nat>) returns (j: nat)
    requires nulls != {} && forall l :: l in nulls ==> l < |ps|
    ensures j in nulls && forall l :: l in nulls ==> ps[j] <= ps[l]
    decreases |nulls|
  {
    j :| j in nulls;
    var rest := nulls - {j};
    if rest != {} {
      var k := SmallestOf(ps, rest);
      if ps[k] < ps[j] { j := k; }
    }
  }

  /**
   The deterministic core of family-wise control: for any set of metrics (think of
   those with no true effect), if one of them is adjusted to alpha or less, then
   one of them has a raw p-value of at most alpha divided by their number.
   */
  lemma FamilywiseCore(ps: seq<real>, nulls: set<nat>, i: nat, alpha: real)
    requires (forall l :: l in nulls ==> l < |ps|) && (forall l :: 0 <= l < |ps| ==> 0.0 <= ps[l])
    requires i in nulls && Adjusted(ps, ps[i]) <= alpha < 1.0
    ensures exists j :: j in nulls && ps[j] * |nulls| as real <= alpha
  {
    var j := SmallestOf(ps, nulls);
    AdjustedIsBound(ps, ps[i], j);
    SubsetSmaller(nulls, NotBelow(ps, ps[j]));
    ShareGrows(|nulls|, |NotBelow(ps, ps[j])|, ps[j], ps[j]);
    assert |nulls| as real * ps[j] == ps[j] * |nulls| as real;
  }

  // ---------------------------------------------------------------------
  // The loop
  // ---------------------------------------------------------------------

  /** `key=lambda index: (p_values[index], index)` */
  predicate KeyBefore(ps: seq<real>, a: nat, b: nat)
    requires a < |ps| && b < |ps|
  {
    ps[a] < ps[b] || (ps[a] == ps[b] && a < b)
  }

  predicate InRange(ps: seq<real>, o: seq<nat>)
  {
    forall t :: 0 <= t < |o| ==> o[t] < |ps|
  }

  ghost predicate Ordered(ps: seq<real>, o: seq<nat>)
  {
    && InRange(ps, o)
    && forall s, t :: 0 <= s < t < |o| ==> KeyBefore(ps, o[s], o[t])
  }

  function InsertIndex(ps: seq<real>, i: nat, o: seq<nat>): (r: seq<nat>)
    requires i < |ps| && InRange(ps, o)
    ensures |r| == |o| + 1 && InRange(ps, r) && forall x :: x in r <==> x == i || x in o
  {
    if o == [] || KeyBefore(ps, i, o[0]) then [i] + o else [o[0]] + InsertIndex(ps, i, o[1..])
  }

  lemma KeyBeforeTransitive(ps: seq<real>, a: nat, b: nat, c: nat)
    requires a < |ps| && b < |ps| && c < |ps| && KeyBefore(ps, a, b) && KeyBefore(ps, b, c)
    ensures KeyBefore(ps, a, c)
  {}

  lemma OrderedCons(ps: seq<real>, x: nat, o: seq<nat>)
    requires x < |ps| && Ordered(ps, o) && forall y :: y in o ==> y < |ps| && KeyBefore(ps, x, y)
    ensures Ordered(ps, [x] + o)
  {
    var r := [x] + o;
    forall s, t | 0 <= s < t < |r| ensures KeyBefore(ps, r[s], r[t]) {
      assert r[t] == o[t - 1] && o[t - 1] in o;
    }
  }

  lemma {:induction false} InsertKeepsOrder(ps: seq<real>, i: nat, o: seq<nat>)
    requires i < |ps| && Ordered(ps, o) && i !in o
    ensures Ordered(ps, InsertIndex(ps, i, o))
  {
    if o == [] || KeyBefore(ps, i, o[0]) {
      forall y | y in o ensures KeyBefore(ps, i, y) {
        var t :| 0 <= t < |o| && o[t] == y;
        if t > 0 { KeyBeforeTransitive(ps, i, o[0], o[t]); }
      }
      OrderedCons(ps, i, o);
    } else {
      InsertKeepsOrder(ps, i, o[1..]);
      forall y | y in InsertIndex(ps, i, o[1..]) ensures KeyBefore(ps, o[0], y) {
        if y != i {
          var t :| 0 <= t < |o[1..]| && o[1..][t] == y;
          assert KeyBefore(ps, o[0], o[t + 1]);
        }
      }
      OrderedCons(ps, o[0], InsertIndex(ps, i, o[1..]));
    }
  }

  /** `sorted(range(n), key=...)` */
  function SortedIndices(ps: seq<real>, n: nat): (r: seq<nat>)
    requires n <= |ps|
    ensures |r| == n && InRange(ps, r) && forall x: nat :: x in r <==> x < n
  {
    if n == 0 then [] else InsertIndex(ps, n - 1, SortedIndices(ps, n - 1))
  }

  lemma {:induction false} SortedIndicesOrdered(ps: seq<real>, n: nat)
    requires n <= |ps|
    ensures Ordered(ps, SortedIndices(ps, n))
  {
    if n > 0 {
      SortedIndicesOrdered(ps, n - 1);
      InsertKeepsOrder(ps, n - 1, SortedIndices(ps, n - 1));
    }
  }

  ghost predicate IsSortedOrder(ps: seq<real>, o: seq<nat>)
  {
    Ordered(ps, o) && SetOf(o) == Below(|ps|) && |o| == |ps|
  }

  lemma OrderedIsDistinct(ps: seq<real>, o: seq<nat>)
    requires Ordered(ps, o)
    ensures Distinct(o)
  {
    forall s, t | 0 <= s < t < |o| ensures o[s] != o[t] { assert KeyBefore(ps, o[s], o[t]); }
  }

  lemma OrderedIsSorted(ps: seq<real>, o: seq<nat>)
    requires Ordered(ps, o)
    ensures forall s, t :: 0 <= s <= t < |o| ==> ps[o[s]] <= ps[o[t]]
  {
    forall s, t | 0 <= s <= t < |o| ensures ps[o[s]] <= ps[o[t]] {
      assert s < t ==> KeyBefore(ps, o[s], o[t]);
    }
  }

  /** From rank r on there are m - r p-values not below; no more if the rank before is smaller. */
  lemma CountFromRank(ps: seq<real>, o: seq<nat>, r: nat)
    requires IsSortedOrder(ps, o) && r < |o|
    ensures |NotBelow(ps, ps[o[r]])| >= |ps| - r
    ensures (r == 0 || ps[o[r - 1]] < ps[o[r]]) ==> |NotBelow(ps, ps[o[r]])| == |ps| - r
  {
    var tail, all := o[r..], NotBelow(ps, ps[o[r]]);
    OrderedIsDistinct(ps, o);
    DistinctSize(tail);
    TailNotBelow(ps, o, r);
    SubsetSmaller(SetOf(tail), all);
    if r == 0 || ps[o[r - 1]] < ps[o[r]] {
      NotBelowInTail(ps, o, r);
      assert all == SetOf(tail);
    }
  }

  lemma TailNotBelow(ps: seq<real>, o: seq<nat>, r: nat)
    requires IsSortedOrder(ps, o) && r < |o|
    ensures SetOf(o[r..]) <= NotBelow(ps, ps[o[r]])
  {
    OrderedIsSorted(ps, o);
    var tail := o[r..];
    forall l | l in SetOf(tail) ensures l in NotBelow(ps, ps[o[r]]) {
      var t :| 0 <= t < |tail| && tail[t] == l;
      assert l == o[r + t];
    }
  }

  lemma NotBelowInTail(ps: seq<real>, o: seq<nat>, r: nat)
    requires IsSortedOrder(ps, o) && r < |o| && (r == 0 || ps[o[r - 1]] < ps[o[r]])
    ensures NotBelow(ps, ps[o[r]]) <= SetOf(o[r..])
  {
    OrderedIsSorted(ps, o);
    var tail := o[r..];
    forall l | l in NotBelow(ps, ps[o[r]]) ensures l in SetOf(tail) {
      assert l in SetOf(o);
      var t :| 0 <= t < |o| && o[t] == l;
      assert tail[t - r] == l;
    }
  }

  function Running(ps: seq<real>, o: seq<nat>, r: nat): real
    requires Ordered(ps, o) && r <= |o|
  {
    if r == 0 then 0.0 else Adjusted(ps, ps[o[r - 1]])
  }

  /** A p-value tied with the one before adds nothing to the running maximum. */
  lemma TiedStep(ps: seq<real>, o: seq<nat>, r: nat)
    requires IsSortedOrder(ps, o) && 0 < r < |o| && ps[o[r - 1]] == ps[o[r]] >= 0.0
    ensures Share(|ps| - r, ps[o[r]]) <= Adjusted(ps, ps[o[r]])
  {
    var x := ps[o[r]];
    CountFromRank(ps, o, r);
    AdjustedIsBound(ps, x, o[r]);
    ShareGrows(|ps| - r, |NotBelow(ps, x)|, x, x);
  }

  /** A larger p-value than the one before adds exactly its own step. */
  lemma FreshStep(ps: seq<real>, o: seq<nat>, r: nat)
    requires IsSortedOrder(ps, o) && r < |o| && (r == 0 || ps[o[r - 1]] < ps[o[r]])
    ensures Adjusted(ps, ps[o[r]]) == Most(Running(ps, o, r), Share(|ps| - r, ps[o[r]]))
  {
    var x, before := ps[o[r]], Running(ps, o, r);
    CountFromRank(ps, o, r);
    AdjustedIsBound(ps, x, o[r]);
    if r > 0 { AdjustedIsMonotone(ps, ps[o[r - 1]], x); } else { AdjustedIsMonotone(ps, x, x); }
    var bound := Most(before, Step(ps, x));
    forall j: nat | j < |ps| && ps[j] <= x ensures Step(ps, ps[j]) <= bound { EarlierStep(ps, o, r, j); }
    LargestAtMost(ps, x, |ps|, bound);
  }

  /** The running maximum at rank r is the adjusted value of the p-value at that rank. */
  lemma RunningStep(ps: seq<real>, o: seq<nat>, r: nat)
    requires IsSortedOrder(ps, o) && r < |o| && forall l :: 0 <= l < |ps| ==> 0.0 <= ps[l]
    ensures Running(ps, o, r + 1) == Most(Running(ps, o, r), Share(|ps| - r, ps[o[r]]))
  {
    OrderedIsSorted(ps, o);
    if r > 0 && ps[o[r - 1]] == ps[o[r]] { TiedStep(ps, o, r); } else { FreshStep(ps, o, r); }
  }

  lemma EarlierStep(ps: seq<real>, o: seq<nat>, r: nat, j: nat)
    requires IsSortedOrder(ps, o) && r < |o| && j < |ps| && ps[j] <= ps[o[r]]
    ensures ps[j] == ps[o[r]] || (r > 0 && Step(ps, ps[j]) <= Running(ps, o, r))
  {
    if ps[j] < ps[o[r]] {
      assert j in SetOf(o);
      var t :| 0 <= t < |o| && o[t] == j;
      OrderedIsSorted(ps, o);
      AdjustedIsBound(ps, ps[o[r - 1]], j);
    }
  }

  /** `_holm_adjust` */
  method HolmAdjust(ps: seq<real>) returns (adjusted: array<real>)
    requires forall l :: 0 <= l < |ps| ==> 0.0 <= ps[l]
    ensures adjusted.Length == |ps| && forall i :: 0 <= i < |ps| ==> adjusted[i] == Adjusted(ps, ps[i])
  {
    var order := SortedIndices(ps, |ps|);
    SortedIndicesOrdered(ps, |ps|);
    OrderedIsDistinct(ps, order);
    assert SetOf(order) == Below(|ps|);
    adjusted := new real[|ps|](_ => 0.0);
    var running := 0.0;
    for rank := 0 to |order|
      invariant running == Running(ps, order, rank)
      invariant forall t :: 0 <= t < rank ==> adjusted[order[t]] == Adjusted(ps, ps[order[t]])
    {
      RunningStep(ps, order, rank);
      running := Most(running, Share(|ps| - rank, ps[order[rank]]));
      adjusted[order[rank]] := running;
    }
    forall i | 0 <= i < |ps| ensures adjusted[i] == Adjusted(ps, ps[i]) {
      assert i in order;
      var t :| 0 <= t < |order| && order[t] == i;
    }
  }

  // ---------------------------------------------------------------------
  // The inference status
  // ---------------------------------------------------------------------

  datatype Role = Primary(rope: real) | Guardrail(margin: real)
  datatype Status = InsufficientPairs | Noninferior | ImprovementSupported | RegressionSupported | Inconclusive

  /** The status of one metric, from its confidence interval and adjusted p-value. */
  function InferenceStatus(role: Role, pairs: nat, minimum: nat, low: real, high: real, adjusted: real, rate: real): Status
  {
    if pairs < minimum then InsufficientPairs
    else match role
      case Guardrail(margin) =>
        if low >= -margin then Noninferior else if high < -margin then RegressionSupported else Inconclusive
      case Primary(rope) =>
        if low > rope && adjusted <= rate then ImprovementSupported
        else if high < -rope && adjusted <= rate then RegressionSupported
        else Inconclusive
  }

  /**
   A claim about a primary metric that belongs to a set of true nulls needs one
   raw p-value in that set of at most the error rate divided by the set's size.
   */
  lemma ClaimNeedsSmallP(ps: seq<real>, nulls: set<nat>, i: nat, rope: real, pairs: nat, minimum: nat, low: real, high: real, rate: real)
    requires (forall l :: l in nulls ==> l < |ps|) && (forall l :: 0 <= l < |ps| ==> 0.0 <= ps[l])
    requires i in nulls && rate < 1.0
    requires var status := InferenceStatus(Primary(rope), pairs, minimum, low, high, Adjusted(ps, ps[i]), rate);
      status == ImprovementSupported || status == RegressionSupported
    ensures exists j :: j in nulls && ps[j] * |nulls| as real <= rate
  {
    FamilywiseCore(ps, nulls, i, rate);
  }
}
