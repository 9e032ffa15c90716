/**
 The dependency order that receipts must carry. Kahn's loop with a min-heap
 fails exactly on cycles; otherwise it returns the one order in which
 dependencies come first and which is smallest, name by name.
 */
module DependencyOrder {
  import opened Texts

  /** Each member's `depends_on` list. Repeated, own and unknown names can occur in it. */
  type Dependencies = map<Text, seq<Text>>

  datatype Ordering = Ordered(order: seq<Text>) | Cyclic | UnknownName

  ghost predicate AllMembers(deps: Dependencies, s: seq<Text>)
  {
    forall d :: d in s ==> d in deps
  }

  ghost predicate Known(deps: Dependencies)
  {
    forall n :: n in deps ==> AllMembers(deps, deps[n])
  }

  /** Every member once, each after all it depends on. */
  ghost predicate IsOrder(deps: Dependencies, o: seq<Text>)
  {
    && Distinct(o) && SetOf(o) == deps.Keys
    && forall i :: 0 <= i < |o| ==> forall d :: d in deps[o[i]] ==> d in o[..i]
  }

  /** a is smaller than b at the first place where they differ. */
  ghost predicate Precedes(a: seq<Text>, b: seq<Text>)
  {
    exists i :: 0 <= i < |a| && i < |b| && a[..i] == b[..i] && Less(a[i], b[i])
  }

  ghost predicate IsLeastOrder(deps: Dependencies, o: seq<Text>)
  {
    IsOrder(deps, o) && forall p :: IsOrder(deps, p) ==> p == o || Precedes(o, p)
  }

  /** Each name depends on the next. */
  ghost predicate IsWalk(deps: Dependencies, p: seq<Text>)
  {
    p != [] && (|p| > 1 ==> p[0] in deps && p[1] in deps[p[0]] && IsWalk(deps, p[1..]))
  }

  ghost predicate IsCycle(deps: Dependencies, p: seq<Text>)
  {
    |p| > 1 && p[0] == p[|p| - 1] && IsWalk(deps, p)
  }

  ghost predicate HasCycle(deps: Dependencies) { exists p :: IsCycle(deps, p) }

  // ---------------------------------------------------------------------
  // What the loop maintains
  // ---------------------------------------------------------------------

  /** How many entries of a dependency list are not done yet. */
  function Left(s: seq<Text>, done: set<Text>): nat
  {
    if s == [] then 0 else Left(s[..|s| - 1], done) + if s[|s| - 1] in done then 0 else 1
  }

  function Count(s: seq<Text>, x: Text): nat
  {
    if s == [] then 0 else Count(s[..|s| - 1], x) + if s[|s| - 1] == x then 1 else 0
  }

  lemma {:induction false} LeftZero(s: seq<Text>, done: set<Text>)
    ensures Left(s, done) == 0 <==> forall d :: d in s ==> d in done
  {
    if s != [] {
      LeftZero(s[..|s| - 1], done);
      assert s == s[..|s| - 1] + [s[|s| - 1]];
    }
  }

  lemma {:induction false} LeftNone(s: seq<Text>)
    ensures Left(s, {}) == |s|
  {
    if s != [] { LeftNone(s[..|s| - 1]); }
  }

  lemma {:induction false} LeftLess(s: seq<Text>, done: set<Text>, x: Text)
    requires x !in done
    ensures Left(s, done) == Left(s, done + {x}) + Count(s, x)
  {
    if s != [] { LeftLess(s[..|s| - 1], done, x); }
  }

  lemma CountMore(s: seq<Text>, y: Text)
    ensures forall x :: Count(s + [y], x) == Count(s, x) + if x == y then 1 else 0
  {
    assert (s + [y])[..|s|] == s;
  }

  lemma {:induction false} CountIsMultiplicity(s: seq<Text>, x: Text)
    ensures Count(s, x) == multiset(s)[x]
  {
    if s != [] {
      CountIsMultiplicity(s[..|s| - 1], x);
      assert s == s[..|s| - 1] + [s[|s| - 1]];
    }
  }

  lemma {:induction false} CountPrefix(s: seq<Text>, i: nat)
    requires i < |s|
    ensures Count(s[..i], s[i]) < Count(s, s[i])
    decreases |s|
  {
    var t := s[..|s| - 1];
    if i < |t| {
      CountPrefix(t, i);
      assert t[..i] == s[..i];
    }
  }

  /** The members that can come next. */
  ghost function Ready(deps: Dependencies, done: set<Text>): set<Text>
  {
    set n | n in deps && n !in done && forall d :: d in deps[n] ==> d in done
  }

  /** Each name is the least one ready when it was taken. */
  ghost predicate Greedy(deps: Dependencies, o: seq<Text>)
  {
    forall i :: 0 <= i < |o| ==> IsLeast(o[i], Ready(deps, SetOf(o[..i])))
  }

  lemma GreedyMore(deps: Dependencies, o: seq<Text>, x: Text)
    requires Greedy(deps, o) && IsLeast(x, Ready(deps, SetOf(o)))
    ensures Greedy(deps, o + [x]) && SetOf(o + [x]) == SetOf(o) + {x}
  {
    var p := o + [x];
    forall i | 0 <= i < |p| ensures IsLeast(p[i], Ready(deps, SetOf(p[..i]))) {
      if i < |o| { assert p[..i] == o[..i]; } else { assert p[..i] == o; }
    }
  }

  /** Taken names are members, taken once, after their dependencies. */
  lemma GreedyIsPartialOrder(deps: Dependencies, o: seq<Text>)
    requires Greedy(deps, o)
    ensures Distinct(o) && SetOf(o) <= deps.Keys
    ensures forall i :: 0 <= i < |o| ==> forall d :: d in deps[o[i]] ==> d in o[..i]
  {
    forall i | 0 <= i < |o|
      ensures o[i] in deps && o[i] !in o[..i] && forall d :: d in deps[o[i]] ==> d in o[..i]
    {
      assert o[i] in Ready(deps, SetOf(o[..i]));
    }
    forall i, j | 0 <= i < j < |o| ensures o[i] != o[j] {
      assert o[..j][i] == o[i] && o[i] in o[..j];
    }
  }

  /** A complete greedy order is valid and precedes every other valid order. */
  lemma GreedyIsLeast(deps: Dependencies, o: seq<Text>)
    requires Greedy(deps, o) && |o| == |deps|
    ensures IsLeastOrder(deps, o)
  {
    GreedyIsPartialOrder(deps, o);
    DistinctSize(o);
    SubsetFull(SetOf(o), deps.Keys);
    forall p | IsOrder(deps, p) ensures p == o || Precedes(o, p) {
      DistinctSize(p);
      if p != o { FirstDifference(deps, o, p, 0); }
    }
  }

  /** At the first difference the other order takes something that was ready too. */
  lemma {:induction false} FirstDifference(deps: Dependencies, o: seq<Text>, p: seq<Text>, i: nat)
    requires Greedy(deps, o) && IsOrder(deps, p) && |o| == |p| && i < |o| && o[..i] == p[..i] && o != p
    ensures Precedes(o, p)
    decreases |o| - i
  {
    TakeAll(o);
    TakeAll(p);
    if o[i] == p[i] {
      assert o[..i + 1] == o[..i] + [o[i]] && p[..i + 1] == p[..i] + [p[i]];
      FirstDifference(deps, o, p, i + 1);
    } else {
      DistinctPrefix(p, i);
      assert p[i] in SetOf(p);
      assert p[i] in Ready(deps, SetOf(o[..i]));
      assert IsLeast(o[i], Ready(deps, SetOf(o[..i])));
      assert Less(o[i], p[i]);
    }
  }

  // ---------------------------------------------------------------------
  // Nothing ready, something left: a cycle
  // ---------------------------------------------------------------------

  /** From a set in which everyone depends on a member, a walk of any length. */
  lemma {:induction false} LongWalk(deps: Dependencies, rest: set<Text>, n: Text, steps: nat) returns (p: seq<Text>)
    requires n in rest && rest <= deps.Keys
    requires forall x :: x in rest ==> SetOf(deps[x]) * rest != {}
    ensures |p| == steps + 1 && p[0] == n && IsWalk(deps, p) && forall x :: x in p ==> x in rest
    decreases steps
  {
    p := [n];
    if steps > 0 {
      var d :| d in SetOf(deps[n]) * rest;
      var tail := LongWalk(deps, rest, d, steps - 1);
      p := [n] + tail;
      assert p[1..] == tail;
    }
  }

  lemma {:induction false} WalkTake(deps: Dependencies, p: seq<Text>, j: nat)
    requires IsWalk(deps, p) && 0 < j <= |p|
    ensures IsWalk(deps, p[..j])
  {
    if j > 1 {
      WalkTake(deps, p[1..], j - 1);
      assert p[..j][1..] == p[1..][..j - 1];
    }
  }

  lemma {:induction false} WalkDrop(deps: Dependencies, p: seq<Text>, i: nat)
    requires IsWalk(deps, p) && i < |p|
    ensures IsWalk(deps, p[i..])
  {
    if i == 0 {
      assert p[i..] == p;
    } else {
      WalkDrop(deps, p[1..], i - 1);
      assert p[i..] == p[1..][i - 1..];
    }
  }

  lemma RepeatIsCycle(deps: Dependencies, p: seq<Text>, i: nat, j: nat)
    requires IsWalk(deps, p) && i < j < |p| && p[i] == p[j]
    ensures HasCycle(deps)
  {
    WalkTake(deps, p, j + 1);
    WalkDrop(deps, p[..j + 1], i);
    var q := p[..j + 1][i..];
    assert q[0] == p[i] && q[|q| - 1] == p[j];
    assert IsCycle(deps, q);
  }

  lemma StuckMeansCycle(deps: Dependencies, done: set<Text>)
    requires Known(deps) && Ready(deps, done) == {} && deps.Keys - done != {}
    ensures HasCycle(deps)
  {
    var rest := deps.Keys - done;
    forall x | x in rest ensures SetOf(deps[x]) * rest != {} {
      assert x !in Ready(deps, done);
      var d :| d in deps[x] && d !in done;
      assert d in SetOf(deps[x]) * rest;
    }
    var n :| n in rest;
    var p := LongWalk(deps, rest, n, |rest|);
    var i, j := SomeRepeat(p, rest);
    RepeatIsCycle(deps, p, i, j);
  }

  /** Along dependencies positions in a valid order go down. */
  lemma {:induction false} WalkGoesDown(deps: Dependencies, o: seq<Text>, p: seq<Text>, j: nat)
    requires IsOrder(deps, o) && IsWalk(deps, p) && |p| > 1 && j < |o| && o[j] == p[0]
    ensures p[|p| - 1] in o[..j]
    decreases |p|
  {
    assert p[1] in o[..j];
    var m :| 0 <= m < j && o[m] == p[1];
    if |p| > 2 { WalkGoesDown(deps, o, p[1..], m); }
  }

  lemma CycleMeansNoOrder(deps: Dependencies, o: seq<Text>)
    requires HasCycle(deps)
    ensures !IsOrder(deps, o)
  {
    if IsOrder(deps, o) {
      var p :| IsCycle(deps, p);
      assert p[0] in SetOf(o);
      var j :| 0 <= j < |o| && o[j] == p[0];
      DistinctPrefix(o, j);
      WalkGoesDown(deps, o, p, j);
    }
  }

  lemma EqualBelow(a: seq<Text>, b: seq<Text>, i: nat)
    requires i <= |a| && i <= |b| && a[..i] == b[..i]
    ensures forall x :: 0 <= x < i ==> a[x] == b[x]
  {
    forall x | 0 <= x < i ensures a[x] == b[x] {
      assert a[x] == a[..i][x] && b[x] == b[..i][x];
    }
  }

  lemma SameDifference(a: seq<Text>, b: seq<Text>, i: nat, j: nat)
    requires i < |a| && i < |b| && a[..i] == b[..i] && a[i] != b[i]
    requires j < |a| && j < |b| && a[..j] == b[..j] && a[j] != b[j]
    ensures i == j
  {
    EqualBelow(a, b, i);
    EqualBelow(a, b, j);
  }

  lemma PrecedesAsymmetric(a: seq<Text>, b: seq<Text>)
    ensures !(Precedes(a, b) && Precedes(b, a))
  {
    if Precedes(a, b) && Precedes(b, a) {
      var i: nat :| i < |a| && i < |b| && a[..i] == b[..i] && Less(a[i], b[i]);
      var j: nat :| j < |a| && j < |b| && b[..j] == a[..j] && Less(b[j], a[j]);
      SameDifference(a, b, i, j);
      LeqAntisymmetric(a[i], b[i]);
    }
  }

  /** The least order is unique, whatever order the members are listed in. */
  lemma LeastOrderUnique(deps: Dependencies, o: seq<Text>, p: seq<Text>)
    requires IsLeastOrder(deps, o) && IsLeastOrder(deps, p)
    ensures o == p
  {
    PrecedesAsymmetric(o, p);
  }

  // ---------------------------------------------------------------------
  // The loop
  // ---------------------------------------------------------------------

  /** `sorted(...)` of a list that may repeat names. */
  function SortNames(s: seq<Text>): (r: seq<Text>)
    ensures multiset(r) == multiset(s)
  {
    if s == [] then [] else
      assert s == [s[0]] + s[1..];
      InsertName(s[0], SortNames(s[1..]))
  }

  function InsertName(x: Text, s: seq<Text>): (r: seq<Text>)
    ensures multiset(r) == multiset(s) + multiset{x}
  {
    if s == [] || Leq(x, s[0]) then [x] + s
    else
      assert s == [s[0]] + s[1..];
      [s[0]] + InsertName(x, s[1..])
  }

  ghost predicate IsListing(deps: Dependencies, names: seq<Text>)
  {
    Distinct(names) && SetOf(names) == deps.Keys
  }

  /** `children` after the first rows: who depends on whom, as often as it says so. */
  ghost predicate ChildrenOf(deps: Dependencies, rows: seq<Text>, children: Dependencies)
  {
    && children.Keys == deps.Keys
    && forall d, n :: d in deps ==> Count(children[d], n) == if n in rows && n in deps then Count(deps[n], d) else 0
  }

  /** The same in the middle of a row. */
  ghost predicate RowPart(deps: Dependencies, children: Dependencies, more: Dependencies, name: Text, part: seq<Text>)
    requires children.Keys == deps.Keys
  {
    && more.Keys == deps.Keys
    && forall d, n :: d in deps ==>
         Count(more[d], n) == Count(children[d], n) + if n == name then Count(part, d) else 0
  }

  lemma RowStep(deps: Dependencies, children: Dependencies, more: Dependencies, name: Text, part: seq<Text>, x: Text)
    requires children.Keys == deps.Keys && RowPart(deps, children, more, name, part) && x in deps
    ensures RowPart(deps, children, more[x := more[x] + [name]], name, part + [x])
  {
    CountMore(more[x], name);
    CountMore(part, x);
  }

  lemma RowDone(deps: Dependencies, rows: seq<Text>, children: Dependencies, more: Dependencies, name: Text)
    requires ChildrenOf(deps, rows, children) && name in deps && name !in rows
    requires RowPart(deps, children, more, name, deps[name])
    ensures ChildrenOf(deps, rows + [name], more)
  {
    forall d, n | d in deps
      ensures Count(more[d], n) == if n in rows + [name] && n in deps then Count(deps[n], d) else 0
    {
      RowCount(deps, rows, children, more, name, d, n);
    }
  }

  lemma RowCount(deps: Dependencies, rows: seq<Text>, children: Dependencies, more: Dependencies, name: Text, d: Text, n: Text)
    requires ChildrenOf(deps, rows, children) && name in deps && name !in rows && d in deps
    requires RowPart(deps, children, more, name, deps[name])
    ensures d in more && Count(more[d], n) == if n in rows + [name] && n in deps then Count(deps[n], d) else 0
  {
    assert Count(more[d], n) == Count(children[d], n) + if n == name then Count(deps[name], d) else 0;
    assert n in rows + [name] <==> n in rows || n == name;
  }

  method ListChildren(deps: Dependencies, names: seq<Text>) returns (ok: bool, children: Dependencies)
    requires IsListing(deps, names)
    ensures ok <==> Known(deps)
    ensures ok ==> ChildrenOf(deps, names, children)
  {
    children := map n | n in deps :: [];
    for i := 0 to |names|
      invariant RowsKnown(deps, names[..i]) && ChildrenOf(deps, names[..i], children)
    {
      var name := names[i];
      assert name in SetOf(names);
      DistinctPrefix(names, i);
      TakeStep(names, i);
      ok, children := AddRow(deps, names[..i], name, children);
      if !ok { return; }
      MoreKnown(deps, names[..i], name);
    }
    TakeAll(names);
    AllKnown(deps, names);
    ok := true;
  }

  ghost predicate RowsKnown(deps: Dependencies, rows: seq<Text>)
  {
    forall n :: n in rows ==> n in deps && AllMembers(deps, deps[n])
  }

  lemma MoreKnown(deps: Dependencies, rows: seq<Text>, name: Text)
    requires RowsKnown(deps, rows) && name in deps && AllMembers(deps, deps[name])
    ensures RowsKnown(deps, rows + [name])
  {}

  lemma AllKnown(deps: Dependencies, names: seq<Text>)
    requires IsListing(deps, names) && RowsKnown(deps, names)
    ensures Known(deps)
  {
    forall n | n in deps ensures AllMembers(deps, deps[n]) {
      assert n in SetOf(names);
    }
  }

  method AddRow(deps: Dependencies, ghost rows: seq<Text>, name: Text, children: Dependencies)
    returns (ok: bool, more: Dependencies)
    requires name in deps && name !in rows && ChildrenOf(deps, rows, children)
    ensures ok <==> AllMembers(deps, deps[name])
    ensures ok ==> ChildrenOf(deps, rows + [name], more)
  {
    more := children;
    var row := deps[name];
    assert RowPart(deps, children, more, name, row[..0]);
    for j := 0 to |row|
      invariant AllMembers(deps, row[..j])
      invariant RowPart(deps, children, more, name, row[..j])
    {
      if row[j] !in deps { return false, more; }
      TakeStep(row, j);
      RowStep(deps, children, more, name, row[..j], row[j]);
      more := more[row[j] := more[row[j]] + [name]];
    }
    TakeAll(row);
    RowDone(deps, rows, children, more, name);
    ok := true;
  }

  /** The loop's state between two pops. */
  ghost predicate Settled(deps: Dependencies, done: set<Text>, indegree: map<Text, int>, ready: set<Text>)
  {
    && indegree.Keys == deps.Keys
    && (forall n :: n in deps ==> indegree[n] == Left(deps[n], done))
    && (forall n :: n in ready <==> n in deps && n !in done && indegree[n] == 0)
  }

  lemma SettledReady(deps: Dependencies, done: set<Text>, indegree: map<Text, int>, ready: set<Text>)
    requires Settled(deps, done, indegree, ready)
    ensures ready == Ready(deps, done)
  {
    forall n | n in deps ensures indegree[n] == 0 <==> forall d :: d in deps[n] ==> d in done {
      LeftZero(deps[n], done);
    }
  }

  /** In the middle of the children of a popped name; done includes that name. */
  ghost predicate Releasing(deps: Dependencies, done: set<Text>, was: map<Text, int>, kids: seq<Text>,
                            indegree: map<Text, int>, ready: set<Text>)
    requires was.Keys == deps.Keys
  {
    && indegree.Keys == deps.Keys
    && (forall n :: n in deps ==> indegree[n] == was[n] - Count(kids, n))
    && (forall n :: n in ready <==> n in deps && n !in done && indegree[n] == 0)
  }

  lemma ReleaseStep(deps: Dependencies, done: set<Text>, was: map<Text, int>, kids: seq<Text>,
                    indegree: map<Text, int>, ready: set<Text>, child: Text)
    requires was.Keys == deps.Keys && Releasing(deps, done, was, kids, indegree, ready)
    requires child in deps && child !in done && indegree[child] > 0
    ensures var less := indegree[child := indegree[child] - 1];
      Releasing(deps, done, was, kids + [child], less, if less[child] == 0 then ready + {child} else ready)
  {
    CountMore(kids, child);
  }

  /** Popping a name: each of its children loses one dependency, as often as it is listed. */
  method Release(deps: Dependencies, name: Text, kids: seq<Text>, ghost done: set<Text>,
                 indegree: map<Text, int>, ready: set<Text>)
    returns (indegree': map<Text, int>, ready': set<Text>)
    requires Settled(deps, done, indegree, ready) && name in ready
    requires forall n :: n in deps ==> Count(kids, n) == Count(deps[n], name)
    requires forall n :: n in kids ==> n in deps
    requires forall n :: n in done ==> n in deps && Left(deps[n], done) == 0
    ensures Settled(deps, done + {name}, indegree', ready')
  {
    forall n | n in deps ensures Left(deps[n], done) == Left(deps[n], done + {name}) + Count(kids, n) {
      LeftLess(deps[n], done, name);
    }
    ghost var now := done + {name};
    indegree', ready' := indegree, ready - {name};
    for i := 0 to |kids|
      invariant Releasing(deps, now, indegree, kids[..i], indegree', ready')
    {
      var child := kids[i];
      TakeStep(kids, i);
      CountPrefix(kids, i);
      assert child in deps && indegree[child] == Left(deps[child], now) + Count(kids, child);
      ReleaseStep(deps, now, indegree, kids[..i], indegree', ready', child);
      indegree' := indegree'[child := indegree'[child] - 1];
      if indegree'[child] == 0 { ready' := ready' + {child}; }
    }
    TakeAll(kids);
  }

  /** The whole state of the loop: names taken so far, counts, and the heap. */
  ghost predicate Popping(deps: Dependencies, names: seq<Text>, children: Dependencies, order: seq<Text>,
                          indegree: map<Text, int>, ready: set<Text>)
  {
    IsListing(deps, names) && ChildrenOf(deps, names, children) && Greedy(deps, order) && Settled(deps, SetOf(order), indegree, ready)
  }

  /** At the start nothing is taken and the heap holds what depends on nothing. */
  method StartPopping(deps: Dependencies, ghost names: seq<Text>, ghost children: Dependencies)
    returns (indegree: map<Text, int>, ready: set<Text>)
    requires IsListing(deps, names) && ChildrenOf(deps, names, children)
    ensures Popping(deps, names, children, [], indegree, ready)
  {
    indegree := map n | n in deps :: |deps[n]|;
    ready := set n | n in deps && indegree[n] == 0;
    forall n | n in deps ensures indegree[n] == Left(deps[n], {}) { LeftNone(deps[n]); }
    assert SetOf<Text>([]) == {};
  }

  /** One turn of the loop: the least ready name is taken and its children are released. */
  method PopLeast(deps: Dependencies, ghost names: seq<Text>, children: Dependencies, order: seq<Text>,
                  indegree: map<Text, int>, ready: set<Text>)
    returns (order': seq<Text>, indegree': map<Text, int>, ready': set<Text>)
    requires Popping(deps, names, children, order, indegree, ready) && ready != {}
    ensures Popping(deps, names, children, order', indegree', ready')
    ensures order' == order + [Least(ready)] && |order'| <= |deps|
  {
    var name := Least(ready);
    Advance(deps, names, children, order, indegree, ready);
    indegree', ready' := Release(deps, name, SortNames(children[name]), SetOf(order), indegree, ready);
    order' := order + [name];
    TakenAreMembers(deps, order');
  }

  lemma TakenAreMembers(deps: Dependencies, order: seq<Text>)
    requires Greedy(deps, order)
    ensures |order| <= |deps|
  {
    GreedyIsPartialOrder(deps, order);
    DistinctSize(order);
    SubsetSmaller(SetOf(order), deps.Keys);
  }

  /**
   `_topological_order`. The answer depends on the dependencies alone, not on the
   order in which the mapping lists its members.
   */
  method TopologicalOrder(deps: Dependencies, names: seq<Text>) returns (r: Ordering)
    requires IsListing(deps, names)
    ensures r.UnknownName? <==> !Known(deps)
    ensures r.Cyclic? <==> Known(deps) && HasCycle(deps)
    ensures r.Ordered? ==> IsLeastOrder(deps, r.order)
  {
    var known, children := ListChildren(deps, names);
    if !known { return UnknownName; }
    var indegree, ready := StartPopping(deps, names, children);
    var order: seq<Text> := [];
    while ready != {}
      invariant Popping(deps, names, children, order, indegree, ready)
      decreases |deps| - |order|
    {
      order, indegree, ready := PopLeast(deps, names, children, order, indegree, ready);
    }
    SettledReady(deps, SetOf(order), indegree, ready);
    Finished(deps, order);
    return if |order| != |deps| then Cyclic else Ordered(order);
  }

  lemma Advance(deps: Dependencies, names: seq<Text>, children: Dependencies, order: seq<Text>,
                indegree: map<Text, int>, ready: set<Text>)
    requires IsListing(deps, names) && ChildrenOf(deps, names, children)
    requires Greedy(deps, order) && Settled(deps, SetOf(order), indegree, ready) && ready != {}
    ensures Least(ready) in deps && Least(ready) !in SetOf(order)
    ensures Greedy(deps, order + [Least(ready)]) && SetOf(order + [Least(ready)]) == SetOf(order) + {Least(ready)}
    ensures var kids := SortNames(children[Least(ready)]);
      && (forall n :: n in kids ==> n in deps)
      && forall n :: n in deps ==> Count(kids, n) == Count(deps[n], Least(ready))
    ensures forall n :: n in SetOf(order) ==> n in deps && Left(deps[n], SetOf(order)) == 0
  {
    SettledReady(deps, SetOf(order), indegree, ready);
    GreedyMore(deps, order, Least(ready));
    DoneIsZero(deps, order);
    KidsOf(deps, names, children, Least(ready));
  }

  /** As many names taken as there are members means all of them. */
  lemma TakenAll(deps: Dependencies, order: seq<Text>)
    requires Distinct(order) && SetOf(order) <= deps.Keys
    ensures |order| == |deps| <==> deps.Keys - SetOf(order) == {}
  {
    DistinctSize(order);
    if deps.Keys - SetOf(order) == {} {
      forall n | n in deps.Keys ensures n in SetOf(order) {
        assert n !in deps.Keys - SetOf(order);
      }
      assert deps.Keys == SetOf(order);
    } else if |order| == |deps| {
      SubsetFull(SetOf(order), deps.Keys);
    }
  }

  /** With nothing ready, the loop has taken everything or has met a cycle. */
  lemma Finished(deps: Dependencies, order: seq<Text>)
    requires Known(deps) && Greedy(deps, order) && Ready(deps, SetOf(order)) == {}
    ensures |order| != |deps| <==> HasCycle(deps)
    ensures |order| == |deps| ==> IsLeastOrder(deps, order)
  {
    GreedyIsPartialOrder(deps, order);
    TakenAll(deps, order);
    if |order| != |deps| {
      StuckMeansCycle(deps, SetOf(order));
    } else {
      GreedyIsLeast(deps, order);
      if HasCycle(deps) { CycleMeansNoOrder(deps, order); }
    }
  }

  lemma DoneIsZero(deps: Dependencies, order: seq<Text>)
    requires Greedy(deps, order)
    ensures forall n :: n in SetOf(order) ==> n in deps && Left(deps[n], SetOf(order)) == 0
  {
    GreedyIsPartialOrder(deps, order);
    forall n | n in SetOf(order) ensures n in deps && Left(deps[n], SetOf(order)) == 0 {
      var i :| 0 <= i < |order| && order[i] == n;
      LeftZero(deps[n], SetOf(order));
      assert forall d :: d in deps[order[i]] ==> d in order[..i];
    }
  }

  lemma KidsOf(deps: Dependencies, names: seq<Text>, children: Dependencies, name: Text)
    requires IsListing(deps, names) && ChildrenOf(deps, names, children) && name in deps
    ensures forall n :: n in SortNames(children[name]) ==> n in deps
    ensures forall n :: n in deps ==> Count(SortNames(children[name]), n) == Count(deps[n], name)
  {
    var kids := SortNames(children[name]);
    forall n ensures (n in kids ==> n in deps) && (n in deps ==> Count(kids, n) == Count(deps[n], name)) {
      SortedCount(children[name], n);
      KidCount(deps, names, children, name, n);
    }
  }

  lemma KidCount(deps: Dependencies, names: seq<Text>, children: Dependencies, name: Text, n: Text)
    requires IsListing(deps, names) && ChildrenOf(deps, names, children) && name in deps
    ensures Count(children[name], n) == if n in deps then Count(deps[n], name) else 0
  {
    assert n in SetOf(names) <==> n in deps.Keys;
  }

  lemma SortedCount(s: seq<Text>, n: Text)
    ensures Count(SortNames(s), n) == Count(s, n) && (n in SortNames(s) ==> Count(s, n) > 0)
  {
    CountIsMultiplicity(SortNames(s), n);
    CountIsMultiplicity(s, n);
    assert n in SortNames(s) ==> n in multiset(SortNames(s));
  }

  // ---------------------------------------------------------------------
  // Receipts and bundles
  // ---------------------------------------------------------------------

  datatype Row = Row(name: Text, dependsOn: seq<Text>)

  function NamesOf(rows: seq<Row>): (names: seq<Text>)
    ensures |names| == |rows| && forall i :: 0 <= i < |rows| ==> names[i] == rows[i].name
  {
    seq(|rows|, i requires 0 <= i < |rows| => rows[i].name)
  }

  function MembersOf(rows: seq<Row>): (deps: Dependencies)
    ensures deps.Keys == SetOf(NamesOf(rows))
  {
    if rows == [] then map[]
    else
      var last := rows[|rows| - 1];
      assert forall x :: x in NamesOf(rows) <==> x in NamesOf(rows[..|rows| - 1]) || x == last.name by {
        var few := rows[..|rows| - 1];
        assert NamesOf(rows) == NamesOf(few) + [last.name];
      }
      MembersOf(rows[..|rows| - 1])[last.name := last.dependsOn]
  }

  /** The ordering part of a closure receipt's check: it accepts one order only. */
  method ReceiptAccepts(rows: seq<Row>, claimed: seq<Text>) returns (ok: bool)
    ensures ok <==> Distinct(NamesOf(rows)) && IsLeastOrder(MembersOf(rows), claimed)
  {
    var names := NamesOf(rows);
    if !Distinct(names) || SetOf(names) != SetOf(claimed) { return false; }
    var members := MembersOf(rows);
    var expected := TopologicalOrder(members, names);
    ok := expected == Ordered(claimed);
    OnlyThisOrder(members, expected, claimed);
  }

  lemma OnlyThisOrder(deps: Dependencies, r: Ordering, claimed: seq<Text>)
    requires r.UnknownName? <==> !Known(deps)
    requires r.Cyclic? <==> Known(deps) && HasCycle(deps)
    requires r.Ordered? ==> IsLeastOrder(deps, r.order)
    ensures r == Ordered(claimed) <==> IsLeastOrder(deps, claimed)
  {
    if IsLeastOrder(deps, claimed) {
      OrderMeansKnown(deps, claimed);
      if HasCycle(deps) { CycleMeansNoOrder(deps, claimed); }
      if r.Ordered? { LeastOrderUnique(deps, r.order, claimed); }
    }
  }

  lemma OrderMeansKnown(deps: Dependencies, o: seq<Text>)
    requires IsOrder(deps, o)
    ensures Known(deps)
  {
    forall n | n in deps ensures AllMembers(deps, deps[n]) {
      assert n in SetOf(o);
      var i :| 0 <= i < |o| && o[i] == n;
      forall d | d in deps[n] ensures d in deps {
        assert d in o[..i] && d in SetOf(o);
      }
    }
  }

  /** A valid order exists exactly when every name is known and nothing is cyclic. */
  lemma OrderExists(deps: Dependencies)
    ensures (exists o :: IsLeastOrder(deps, o)) <==> Known(deps) && !HasCycle(deps)
  {
    if o :| IsLeastOrder(deps, o) {
      OrderMeansKnown(deps, o);
      if HasCycle(deps) { CycleMeansNoOrder(deps, o); }
    }
    if Known(deps) && !HasCycle(deps) {
      var o := GreedyFrom(deps, []);
      Finished(deps, o);
    }
  }

  /** Take the least ready name until none is ready. */
  lemma {:induction false} GreedyFrom(deps: Dependencies, start: seq<Text>) returns (o: seq<Text>)
    requires Greedy(deps, start)
    ensures Greedy(deps, o) && Ready(deps, SetOf(o)) == {}
    decreases deps.Keys - SetOf(start)
  {
    o := start;
    if Ready(deps, SetOf(start)) != {} {
      var x := Least(Ready(deps, SetOf(start)));
      GreedyMore(deps, start, x);
      o := GreedyFrom(deps, start + [x]);
    }
  }

  datatype Fault = Repeats | DependsOnItself | HasUnknown

  /** The first thing wrong with one member's list, in the order it is tested. */
  function RowFault(deps: Dependencies, name: Text): Option<Fault>
    requires name in deps
  {
    if |SetOf(deps[name])| != |deps[name]| then Some(Repeats)
    else if name in deps[name] then Some(DependsOnItself)
    else if exists d :: d in deps[name] && d !in deps then Some(HasUnknown)
    else None
  }

  datatype CheckedOrdering = Checked(order: seq<Text>) | Faulty(name: Text, fault: Fault) | CyclicGraph

  ghost predicate Faultless(deps: Dependencies)
  {
    forall n :: n in deps ==> RowFault(deps, n).None?
  }

  ghost predicate FirstFault(deps: Dependencies, names: seq<Text>, i: int)
    requires IsListing(deps, names)
  {
    && 0 <= i < |names|
    && (forall j :: 0 <= j < |names| ==> names[j] in SetOf(names))
    && RowFault(deps, names[i]).Some?
    && forall j :: 0 <= j < i ==> RowFault(deps, names[j]).None?
  }

  /** The skill bundle's variant, which first refuses faulty lists, in listing order. */
  method CheckedOrder(deps: Dependencies, names: seq<Text>) returns (r: CheckedOrdering)
    requires IsListing(deps, names)
    ensures r.Faulty? <==> !Faultless(deps)
    ensures r.Faulty? ==> exists i :: FirstFault(deps, names, i) && names[i] == r.name && RowFault(deps, r.name) == Some(r.fault)
    ensures r.CyclicGraph? <==> Faultless(deps) && HasCycle(deps)
    ensures r.Checked? ==> IsLeastOrder(deps, r.order)
  {
    assert forall n :: n in deps <==> n in SetOf(names);
    for i := 0 to |names|
      invariant forall j :: 0 <= j < i ==> RowFault(deps, names[j]).None?
    {
      assert names[i] in SetOf(names);
      var fault := RowFault(deps, names[i]);
      if fault.Some? {
        assert FirstFault(deps, names, i);
        return Faulty(names[i], fault.value);
      }
    }
    forall n | n in deps ensures RowFault(deps, n).None? {
      assert n in SetOf(names);
    }
    FaultlessKnown(deps);
    var plain := TopologicalOrder(deps, names);
    return if plain.Cyclic? then CyclicGraph else Checked(plain.order);
  }

  const ENTRYPOINT: Text := [0x53, 0x4B, 0x49, 0x4C, 0x4C, 0x2E, 0x6D, 0x64]

  /** The ordering part of a bundle's check: distinct names, the entry point among them, and one order only. */
  method BundleAccepts(rows: seq<Row>, claimed: seq<Text>) returns (ok: bool)
    ensures ok <==>
      && Distinct(NamesOf(rows)) && ENTRYPOINT in NamesOf(rows)
      && Faultless(MembersOf(rows)) && IsLeastOrder(MembersOf(rows), claimed)
  {
    var names := NamesOf(rows);
    if !Distinct(names) || ENTRYPOINT !in names { return false; }
    var members := MembersOf(rows);
    var expected := CheckedOrder(members, names);
    ok := expected == Checked(claimed);
    OnlyThisChecked(members, expected, claimed);
  }

  lemma OnlyThisChecked(deps: Dependencies, r: CheckedOrdering, claimed: seq<Text>)
    requires r.Faulty? <==> !Faultless(deps)
    requires r.CyclicGraph? <==> Faultless(deps) && HasCycle(deps)
    requires r.Checked? ==> IsLeastOrder(deps, r.order)
    ensures r == Checked(claimed) <==> Faultless(deps) && IsLeastOrder(deps, claimed)
  {
    if Faultless(deps) && IsLeastOrder(deps, claimed) {
      if HasCycle(deps) { CycleMeansNoOrder(deps, claimed); }
      if r.Checked? { LeastOrderUnique(deps, r.order, claimed); }
    }
  }

  /** With distinct names the mapping holds each row's own list. */
  lemma {:induction false} MembersAreRows(rows: seq<Row>, i: nat)
    requires Distinct(NamesOf(rows)) && i < |rows|
    ensures rows[i].name in MembersOf(rows) && MembersOf(rows)[rows[i].name] == rows[i].dependsOn
  {
    var few, last := rows[..|rows| - 1], rows[|rows| - 1];
    if i < |few| {
      assert NamesOf(rows) == NamesOf(few) + [last.name];
      assert NamesOf(rows)[i] != NamesOf(rows)[|few|];
      MembersAreRows(few, i);
    }
  }

  lemma FaultlessKnown(deps: Dependencies)
    requires Faultless(deps)
    ensures Known(deps)
  {
    forall n | n in deps ensures AllMembers(deps, deps[n]) {
      assert RowFault(deps, n).None?;
    }
  }
}
