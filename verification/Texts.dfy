/**
 Text as the kernel sees it: sequences of Unicode code points (surrogates
 included), ordered as Python orders `str`, and the sorted listing of a finite
 set of texts that `sorted(...)` gives.
 */
module Texts {

  type Code = c: int | 0 <= c <= 0x10FFFF
  type Text = seq<Code>

  datatype Option<+T> = None | Some(value: T)

  /** `a <= b` in code-point order. */
  predicate Leq(a: Text, b: Text)
  {
    a == [] || (b != [] && (a[0] < b[0] || (a[0] == b[0] && Leq(a[1..], b[1..]))))
  }

  predicate Less(a: Text, b: Text)
  {
    a != b && Leq(a, b)
  }

  lemma {:induction false} LeqTotal(a: Text, b: Text)
    ensures Leq(a, b) || Leq(b, a)
    ensures Leq(a, a)
  {
    if a != [] {
      LeqTotal(a[1..], if b == [] then [] else b[1..]);
    }
  }

  lemma {:induction false} LeqAntisymmetric(a: Text, b: Text)
    requires Leq(a, b) && Leq(b, a)
    ensures a == b
  {
    if a != [] {
      LeqAntisymmetric(a[1..], b[1..]);
      assert a == [a[0]] + a[1..] && b == [b[0]] + b[1..];
    }
  }

  lemma {:induction false} LeqTransitive(a: Text, b: Text, c: Text)
    requires Leq(a, b) && Leq(b, c)
    ensures Leq(a, c)
  {
    if a != [] && a[0] == b[0] == c[0] {
      LeqTransitive(a[1..], b[1..], c[1..]);
    }
  }

  predicate IsLeast(x: Text, s: set<Text>)
  {
    x in s && forall y :: y in s ==> Leq(x, y)
  }

  lemma {:induction false} LeastExists(s: set<Text>)
    requires s != {}
    ensures exists x :: IsLeast(x, s)
  {
    var y :| y in s;
    LeqTotal(y, y);
    if s == {y} {
      assert IsLeast(y, s);
    } else {
      var rest := s - {y};
      LeastExists(rest);
      var x :| IsLeast(x, rest);
      LeqTotal(x, y);
      var z := if Leq(x, y) then x else y;
      forall w | w in s ensures Leq(z, w) {
        if w != y && z == y { LeqTransitive(y, x, w); }
      }
      assert IsLeast(z, s);
    }
  }

  lemma LeastUnique(s: set<Text>)
    ensures forall x, y :: IsLeast(x, s) && IsLeast(y, s) ==> x == y
  {
    forall x, y | IsLeast(x, s) && IsLeast(y, s) ensures x == y {
      LeqAntisymmetric(x, y);
    }
  }

  /** The smallest member: what `min` returns and `heappop` removes. */
  function Least(s: set<Text>): (x: Text)
    requires s != {}
    ensures IsLeast(x, s)
  {
    LeastExists(s);
    LeastUnique(s);
    var x :| x in s && IsLeast(x, s);
    x
  }

  /** `sorted(s)` for a set of distinct texts. */
  function Sorted(s: set<Text>): (r: seq<Text>)
    ensures |r| == |s|
    ensures forall x :: x in r <==> x in s
    ensures forall i, j :: 0 <= i < j < |r| ==> Less(r[i], r[j])
  {
    if s == {} then []
    else
      var x := Least(s);
      var rest := Sorted(s - {x});
      assert |s - {x}| == |s| - 1;
      [x] + rest
  }

  /** Any strictly increasing listing of a set is the sorted one. */
  lemma {:induction false} SortedUnique(r: seq<Text>, s: set<Text>)
    requires forall x :: x in r <==> x in s
    requires forall i, j :: 0 <= i < j < |r| ==> Less(r[i], r[j])
    ensures r == Sorted(s)
  {
    if r == [] {
      assert forall x :: x !in s;
    } else {
      var x, rest, others := r[0], r[1..], s - {r[0]};
      FirstIsLeast(r, s);
      RestIsListing(r, rest, s, others);
      SortedUnique(rest, others);
      SortedHead(s, x);
      assert r == [x] + rest;
    }
  }

  lemma SortedHead(s: set<Text>, x: Text)
    requires s != {} && x == Least(s)
    ensures Sorted(s) == [x] + Sorted(s - {x})
  {}

  lemma FirstIsLeast(r: seq<Text>, s: set<Text>)
    requires r != [] && forall x :: x in r <==> x in s
    requires forall i, j :: 0 <= i < j < |r| ==> Less(r[i], r[j])
    ensures s != {} && r[0] == Least(s)
  {
    assert r[0] in r;
    var x := Least(s);
    assert x in r;
    var k :| 0 <= k < |r| && r[k] == x;
    if k > 0 {
      assert Less(r[0], r[k]);
      LeqAntisymmetric(r[0], x);
    }
  }

  lemma RestIsListing(r: seq<Text>, rest: seq<Text>, s: set<Text>, others: set<Text>)
    requires r != [] && rest == r[1..] && others == s - {r[0]}
    requires forall x :: x in r <==> x in s
    requires forall i, j :: 0 <= i < j < |r| ==> Less(r[i], r[j])
    ensures forall y :: y in rest <==> y in others
    ensures forall i, j :: 0 <= i < j < |rest| ==> Less(rest[i], rest[j])
  {
    forall y ensures y in rest <==> y in others { RestMember(r, y); }
  }

  lemma RestMember(r: seq<Text>, y: Text)
    requires r != [] && forall i, j :: 0 <= i < j < |r| ==> Less(r[i], r[j])
    ensures y in r[1..] <==> y in r && y != r[0]
  {
    var rest := r[1..];
    if y in r && y != r[0] {
      var i :| 0 <= i < |r| && r[i] == y;
      assert rest[i - 1] == y;
    }
    if y in rest {
      var i :| 0 <= i < |rest| && rest[i] == y;
      assert y == r[i + 1] && y in r;
      assert Less(r[0], r[i + 1]);
    }
  }

  lemma TakeStep<T>(s: seq<T>, i: nat)
    requires i < |s|
    ensures s[..i + 1] == s[..i] + [s[i]]
    ensures s[..i + 1][..i] == s[..i]
  {}

  lemma TakeAll<T>(s: seq<T>)
    ensures s[..|s|] == s
  {}

  // ---------------------------------------------------------------------
  // Lists without repetition
  // ---------------------------------------------------------------------

  predicate Distinct<T(==)>(s: seq<T>)
  {
    forall i, j :: 0 <= i < j < |s| ==> s[i] != s[j]
  }

  function SetOf<T(!new)>(s: seq<T>): (r: set<T>)
    ensures forall x :: x in r <==> x in s
  {
    set x | x in s
  }

  lemma SetOfStep<T(!new)>(s: seq<T>, i: nat)
    requires i < |s|
    ensures SetOf(s[..i + 1]) == SetOf(s[..i]) + {s[i]}
  {
    TakeStep(s, i);
  }

  lemma DistinctPrefix<T>(s: seq<T>, i: nat)
    requires Distinct(s) && i < |s|
    ensures s[i] !in s[..i]
  {}

  lemma {:induction false} DistinctSize<T(!new)>(s: seq<T>)
    requires Distinct(s)
    ensures |SetOf(s)| == |s|
  {
    if s != [] {
      var n := |s| - 1;
      assert s == s[..n] + [s[n]];
      DistinctSize(s[..n]);
      assert SetOf(s) == SetOf(s[..n]) + {s[n]};
      DistinctPrefix(s, n);
    }
  }

  lemma {:induction false} SubsetSmaller<T>(a: set<T>, b: set<T>)
    requires a <= b
    ensures |a| <= |b|
  {
    if x :| x in a { SubsetSmaller(a - {x}, b - {x}); }
  }

  lemma SubsetFull<T>(a: set<T>, b: set<T>)
    requires a <= b && |a| == |b|
    ensures a == b
  {
    if b - a != {} {
      var x :| x in b - a;
      SubsetSmaller(a, b - {x});
    }
  }

  /** A list longer than the set it draws from repeats an element. */
  lemma SomeRepeat<T(!new)>(s: seq<T>, all: set<T>) returns (i: nat, j: nat)
    requires |s| > |all| && forall x :: x in s ==> x in all
    ensures i < j < |s| && s[i] == s[j]
  {
    if Distinct(s) {
      DistinctSize(s);
      SubsetSmaller(SetOf(s), all);
    }
    i, j :| 0 <= i < j < |s| && s[i] == s[j];
  }
}
