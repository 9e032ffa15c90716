/**
 Cycles of `supersedes` edges. Each node has at most one outgoing edge; the
 search reports every cycle once and nothing else.
 */
module LineageCycles {
  import opened Texts

  type Edges = map<Text, Text>

  /** The node k edges further along, if the chain is that long. */
  function After(edges: Edges, n: Text, k: nat): Option<Text>
  {
    if k == 0 then Some(n)
    else match After(edges, n, k - 1)
      case None => None
      case Some(m) => if m in edges then Some(edges[m]) else None
  }

  ghost predicate OnCycle(edges: Edges, n: Text)
  {
    exists k: nat :: k > 0 && After(edges, n, k) == Some(n)
  }

  lemma {:induction false} AfterAdds(edges: Edges, n: Text, j: nat, k: nat)
    requires After(edges, n, j).Some?
    ensures After(edges, n, j + k) == After(edges, After(edges, n, j).value, k)
  {
    if k > 0 { AfterAdds(edges, n, j, k - 1); }
  }

  // ---------------------------------------------------------------------
  // Paths
  // ---------------------------------------------------------------------

  /** Each node's edge leads to the next node. */
  ghost predicate IsPath(edges: Edges, p: seq<Text>)
  {
    |p| > 1 ==>
      && p[|p| - 2] in edges && edges[p[|p| - 2]] == p[|p| - 1]
      && IsPath(edges, p[..|p| - 1])
  }

  lemma {:induction false} PathStep(edges: Edges, p: seq<Text>, i: nat)
    requires IsPath(edges, p) && i + 1 < |p|
    ensures p[i] in edges && edges[p[i]] == p[i + 1]
  {
    if i + 2 < |p| { PathStep(edges, p[..|p| - 1], i); }
  }

  lemma {:induction false} PathAfter(edges: Edges, p: seq<Text>, i: nat, k: nat)
    requires IsPath(edges, p) && i + k < |p|
    ensures After(edges, p[i], k) == Some(p[i + k])
  {
    if k > 0 {
      PathAfter(edges, p, i, k - 1);
      PathStep(edges, p, i + k - 1);
    }
  }

  lemma PathMore(edges: Edges, p: seq<Text>, n: Text)
    requires IsPath(edges, p) && (p != [] ==> p[|p| - 1] in edges && edges[p[|p| - 1]] == n)
    ensures IsPath(edges, p + [n])
  {
    assert (p + [n])[..|p|] == p;
  }

  lemma {:induction false} PathDrop(edges: Edges, p: seq<Text>, j: nat)
    requires IsPath(edges, p) && j <= |p|
    ensures IsPath(edges, p[j..])
  {
    var q := p[j..];
    if |q| > 1 {
      PathDrop(edges, p[..|p| - 1], j);
      assert q[..|q| - 1] == p[..|p| - 1][j..];
    }
  }

  /** A closed path that meets each of its nodes once. */
  ghost predicate IsLoop(edges: Edges, c: seq<Text>)
  {
    |c| > 1 && c[0] == c[|c| - 1] && IsPath(edges, c) && Distinct(c[..|c| - 1])
  }

  lemma LoopReturns(edges: Edges, c: seq<Text>, n: Text)
    requires IsLoop(edges, c) && n in c
    ensures OnCycle(edges, n)
  {
    var i :| 0 <= i < |c| && c[i] == n;
    var last := |c| - 1;
    var rest := last - i;
    PathAfter(edges, c, i, rest);
    if i > 0 {
      PathAfter(edges, c, 0, i);
      AfterAdds(edges, n, rest, i);
      assert After(edges, n, rest + i) == Some(n);
    }
  }

  // ---------------------------------------------------------------------
  // Sets the edges do not leave
  // ---------------------------------------------------------------------

  ghost predicate Closed(edges: Edges, s: set<Text>)
  {
    forall n :: n in s && n in edges ==> edges[n] in s
  }

  lemma {:induction false} StaysInside(edges: Edges, s: set<Text>, n: Text, k: nat)
    requires Closed(edges, s) && (n in edges ==> edges[n] in s) && k > 0
    ensures After(edges, n, k).Some? ==> After(edges, n, k).value in s
  {
    if k > 1 {
      StaysInside(edges, s, n, k - 1);
    } else {
      assert After(edges, n, 0) == Some(n);
    }
  }

  /** What enters a closed set it is not in does not come back. */
  lemma NoReturn(edges: Edges, s: set<Text>, n: Text)
    requires Closed(edges, s) && n !in s && (n in edges ==> edges[n] in s)
    ensures !OnCycle(edges, n)
  {
    if OnCycle(edges, n) {
      var k: nat :| k > 0 && After(edges, n, k) == Some(n);
      StaysInside(edges, s, n, k);
    }
  }

  /** Where a walk stops: at a node without an edge, or at one already met. */
  ghost predicate Stops(edges: Edges, met: set<Text>, path: seq<Text>, next: Option<Text>)
  {
    && path != []
    && (path[|path| - 1] in edges <==> next.Some?)
    && (next.Some? ==> edges[path[|path| - 1]] == next.value && (next.value in met || next.value in path))
  }

  /** A stopped walk's tail, with everything met before, is closed. */
  lemma TailClosed(edges: Edges, met: set<Text>, path: seq<Text>, next: Option<Text>, i: nat)
    requires Closed(edges, met) && IsPath(edges, path) && Stops(edges, met, path, next) && i <= |path|
    requires next.Some? && i < |path| ==> next.value in met || next.value in path[i..]
    ensures Closed(edges, met + SetOf(path[i..]))
  {
    var s := met + SetOf(path[i..]);
    forall n | n in s && n in edges ensures edges[n] in s {
      if n !in met {
        var x :| 0 <= x < |path[i..]| && path[i..][x] == n;
        if i + x + 1 < |path| {
          PathStep(edges, path, i + x);
          assert path[i..][x + 1] == path[i + x + 1];
        }
      }
    }
  }

  /** Path nodes ahead of the point where the walk runs into itself are on no cycle. */
  lemma HeadIsFree(edges: Edges, met: set<Text>, path: seq<Text>, next: Option<Text>, i: nat)
    requires Closed(edges, met) && IsPath(edges, path) && Stops(edges, met, path, next) && Distinct(path)
    requires (forall x :: x in path ==> x !in met) && i < |path|
    requires next.Some? ==> next.value in met || next.value in path[i + 1..]
    ensures !OnCycle(edges, path[i])
  {
    var s := met + SetOf(path[i + 1..]);
    TailClosed(edges, met, path, next, i + 1);
    assert path[i] !in path[i + 1..];
    if i + 1 < |path| {
      PathStep(edges, path, i);
      assert path[i + 1..][0] == path[i + 1];
    }
    NoReturn(edges, s, path[i]);
  }

  // ---------------------------------------------------------------------
  // The search
  // ---------------------------------------------------------------------

  ghost predicate InSome(cycles: seq<seq<Text>>, n: Text)
  {
    exists i :: 0 <= i < |cycles| && n in cycles[i]
  }

  ghost predicate Disjoint(cycles: seq<seq<Text>>)
  {
    forall i, j, n :: 0 <= i < j < |cycles| && n in cycles[i] ==> n !in cycles[j]
  }

  /** Everything met is settled: reported if and only if it lies on a cycle. */
  ghost predicate Settled(edges: Edges, met: set<Text>, cycles: seq<seq<Text>>)
  {
    && Closed(edges, met)
    && (forall i :: 0 <= i < |cycles| ==> IsLoop(edges, cycles[i]))
    && (forall n :: InSome(cycles, n) ==> n in met)
    && (forall n :: n in met && OnCycle(edges, n) ==> InSome(cycles, n))
    && Disjoint(cycles)
  }

  lemma FreeWalkSettles(edges: Edges, met: set<Text>, cycles: seq<seq<Text>>, path: seq<Text>, next: Option<Text>)
    requires Settled(edges, met, cycles) && IsPath(edges, path) && Stops(edges, met, path, next) && Distinct(path)
    requires (forall x :: x in path ==> x !in met) && (next.Some? ==> next.value in met)
    ensures Settled(edges, met + SetOf(path), cycles)
  {
    assert path[0..] == path;
    TailClosed(edges, met, path, next, 0);
    forall n | n in path ensures !OnCycle(edges, n) {
      var i :| 0 <= i < |path| && path[i] == n;
      HeadIsFree(edges, met, path, next, i);
    }
  }

  lemma LoopFromPath(edges: Edges, path: seq<Text>, j: nat)
    requires IsPath(edges, path) && Distinct(path) && j < |path|
    requires path[|path| - 1] in edges && edges[path[|path| - 1]] == path[j]
    ensures IsLoop(edges, path[j..] + [path[j]])
  {
    PathDrop(edges, path, j);
    PathMore(edges, path[j..], path[j]);
    var c := path[j..] + [path[j]];
    assert c[..|c| - 1] == path[j..];
  }

  lemma LoopWalkSettles(edges: Edges, met: set<Text>, cycles: seq<seq<Text>>, path: seq<Text>, j: nat)
    requires Settled(edges, met, cycles) && IsPath(edges, path) && Distinct(path) && j < |path|
    requires path[|path| - 1] in edges && edges[path[|path| - 1]] == path[j]
    requires forall x :: x in path ==> x !in met
    ensures Settled(edges, met + SetOf(path), cycles + [path[j..] + [path[j]]])
  {
    var c := path[j..] + [path[j]];
    LoopFromPath(edges, path, j);
    assert path[0..] == path;
    TailClosed(edges, met, path, Some(path[j]), 0);
    OneMoreCycle(cycles, c);
    forall n | n in path && OnCycle(edges, n) ensures n in c {
      OnLoop(edges, met, path, j, n);
    }
    assert forall n :: n in c ==> n in path;
  }

  /** What is on one more cycle, and that it stays apart from the others. */
  lemma OneMoreCycle(cycles: seq<seq<Text>>, c: seq<Text>)
    ensures forall n :: InSome(cycles + [c], n) <==> InSome(cycles, n) || n in c
    ensures Disjoint(cycles) && (forall n :: n in c ==> !InSome(cycles, n)) ==> Disjoint(cycles + [c])
  {
    var more := cycles + [c];
    forall n ensures InSome(more, n) <==> InSome(cycles, n) || n in c {
      if InSome(cycles, n) {
        var i :| 0 <= i < |cycles| && n in cycles[i];
        assert n in more[i];
      }
      if n in c { assert n in more[|cycles|]; }
    }
  }

  /** A path node on a cycle is on the loop the path ends in. */
  lemma OnLoop(edges: Edges, met: set<Text>, path: seq<Text>, j: nat, n: Text)
    requires Closed(edges, met) && IsPath(edges, path) && Distinct(path) && j < |path|
    requires path[|path| - 1] in edges && edges[path[|path| - 1]] == path[j]
    requires (forall x :: x in path ==> x !in met) && n in path && OnCycle(edges, n)
    ensures n in path[j..] + [path[j]]
  {
    var i :| 0 <= i < |path| && path[i] == n;
    if i < j {
      assert path[i + 1..][j - i - 1] == path[j];
      HeadIsFree(edges, met, path, Some(path[j]), i);
    } else {
      assert path[j..][i - j] == n;
    }
  }

  /** `path.index(node)` */
  function IndexIn(p: seq<Text>, n: Text): (i: nat)
    requires n in p
    ensures i < |p| && p[i] == n
  {
    if p[0] == n then 0 else 1 + IndexIn(p[1..], n)
  }

  datatype Mark = OnPath | Done

  ghost predicate Marked(marks: map<Text, Mark>, met: set<Text>, path: seq<Text>)
  {
    && marks.Keys == met + SetOf(path)
    && (forall n :: n in met ==> marks[n] == Done)
    && (forall n :: n in path ==> n !in met && marks[n] == OnPath)
  }

  ghost predicate Following(edges: Edges, start: Text, met: set<Text>, marked: map<Text, Mark>, path: seq<Text>, next: Option<Text>)
  {
    && Marked(marked, met, path) && IsPath(edges, path) && Distinct(path)
    && (path == [] ==> next == Some(start))
    && (path != [] ==> path[0] == start && (path[|path| - 1] in edges <==> next.Some?))
    && (path != [] && next.Some? ==> edges[path[|path| - 1]] == next.value)
  }

  lemma FollowStep(edges: Edges, start: Text, met: set<Text>, marked: map<Text, Mark>, path: seq<Text>, node: Text)
    requires Following(edges, start, met, marked, path, Some(node)) && node !in marked
    ensures Following(edges, start, met, marked[node := OnPath], path + [node],
                      if node in edges then Some(edges[node]) else None)
    ensures SetOf(path + [node]) == SetOf(path) + {node}
  {
    PathMore(edges, path, node);
    assert SetOf(path + [node]) == SetOf(path) + {node};
  }

  /** The nodes a walk can still meet. */
  function Ahead(edges: Edges, start: Text, path: seq<Text>): set<Text>
  {
    {start} + edges.Values - SetOf(path)
  }

  lemma NextIsAhead(edges: Edges, start: Text, met: set<Text>, marked: map<Text, Mark>, path: seq<Text>, node: Text)
    requires Following(edges, start, met, marked, path, Some(node)) && node !in marked
    ensures |Ahead(edges, start, path + [node])| < |Ahead(edges, start, path)|
  {
    FollowStep(edges, start, met, marked, path, node);
    StillFewer({start} + edges.Values, SetOf(path), node);
  }

  /** The inner loop: follow edges from an unvisited start until a node without edges or a visited one. */
  method Follow(edges: Edges, start: Text, marks: map<Text, Mark>)
    returns (marked: map<Text, Mark>, path: seq<Text>, next: Option<Text>)
    requires Marked(marks, marks.Keys, []) && start !in marks
    ensures Following(edges, start, marks.Keys, marked, path, next) && path != []
    ensures next.Some? ==> next.value in marked
  {
    marked, path, next := marks, [], Some(start);
    while next.Some? && next.value !in marked
      invariant Following(edges, start, marks.Keys, marked, path, next)
      invariant path == [] ==> marked == marks
      decreases |Ahead(edges, start, path)|
    {
      var node := next.value;
      FollowStep(edges, start, marks.Keys, marked, path, node);
      NextIsAhead(edges, start, marks.Keys, marked, path, node);
      marked := marked[node := OnPath];
      path := path + [node];
      next := if node in edges then Some(edges[node]) else None;
    }
  }

  lemma StillFewer(all: set<Text>, taken: set<Text>, n: Text)
    requires n in all && n !in taken
    ensures |all - (taken + {n})| < |all - taken|
  {
    assert all - taken == (all - (taken + {n})) + {n};
  }

  /** The visited nodes are done with, and settled. */
  ghost predicate Explored(edges: Edges, marks: map<Text, Mark>, cycles: seq<seq<Text>>)
  {
    Marked(marks, marks.Keys, []) && Settled(edges, marks.Keys, cycles)
  }

  lemma NothingExplored(edges: Edges)
    ensures Explored(edges, map[], [])
  {}

  /** One start: its walk is settled, and its cycle, if it runs into itself, is reported. */
  method Search(edges: Edges, start: Text, marks: map<Text, Mark>, cycles: seq<seq<Text>>)
    returns (settled: map<Text, Mark>, found: seq<seq<Text>>)
    requires Explored(edges, marks, cycles) && start !in marks
    ensures Explored(edges, settled, found)
    ensures start in settled && marks.Keys <= settled.Keys
  {
    var marked, path, next := Follow(edges, start, marks);
    assert start in path;
    found := cycles;
    if next.Some? && marked[next.value] == OnPath {
      var at := IndexIn(path, next.value);
      LoopWalkSettles(edges, marks.Keys, cycles, path, at);
      found := cycles + [path[at..] + [next.value]];
    } else {
      FreeWalkSettles(edges, marks.Keys, cycles, path, next);
    }
    settled := map n | n in marked :: Done;
    assert settled.Keys == marks.Keys + SetOf(path);
  }

  /** `_find_lineage_cycles` */
  method FindLineageCycles(edges: Edges) returns (cycles: seq<seq<Text>>)
    ensures forall i :: 0 <= i < |cycles| ==> IsLoop(edges, cycles[i])
    ensures forall n :: OnCycle(edges, n) <==> InSome(cycles, n)
    ensures Disjoint(cycles)
  {
    cycles := [];
    var marks: map<Text, Mark> := map[];
    var starts := Sorted(edges.Keys);
    NothingExplored(edges);
    for i := 0 to |starts|
      invariant Explored(edges, marks, cycles)
      invariant SetOf(starts[..i]) <= marks.Keys
    {
      SetOfStep(starts, i);
      if starts[i] !in marks { marks, cycles := Search(edges, starts[i], marks, cycles); }
    }
    TakeAll(starts);
    AllReported(edges, marks.Keys, cycles);
  }

  lemma AllReported(edges: Edges, met: set<Text>, cycles: seq<seq<Text>>)
    requires Settled(edges, met, cycles) && edges.Keys <= met
    ensures forall n :: OnCycle(edges, n) <==> InSome(cycles, n)
    ensures Disjoint(cycles) && forall i :: 0 <= i < |cycles| ==> IsLoop(edges, cycles[i])
  {
    forall n ensures OnCycle(edges, n) <==> InSome(cycles, n) {
      if InSome(cycles, n) {
        var i :| 0 <= i < |cycles| && n in cycles[i];
        LoopReturns(edges, cycles[i], n);
      }
      if OnCycle(edges, n) {
        var k: nat :| k > 0 && After(edges, n, k) == Some(n);
        FirstEdge(edges, n, k);
      }
    }
  }

  lemma {:induction false} FirstEdge(edges: Edges, n: Text, k: nat)
    requires k > 0 && After(edges, n, k).Some?
    ensures n in edges && After(edges, n, 1) == Some(edges[n])
  {
    assert After(edges, n, 0) == Some(n);
    if k > 1 { FirstEdge(edges, n, k - 1); }
  }
}
