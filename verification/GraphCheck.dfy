/**
 `check_record_graph` as it runs: loops that collect violations. It finds none
 exactly when the record set is sound.
 */
module GraphCheck {
  import opened Texts
  import opened Graph
  import L = LineageCycles

  datatype Kind =
    | DuplicateId | DanglingReference | CrossTypeReference | SelfReference | PinMismatch | OneWayLink
    | LineageScopeMismatch | DuplicateReference | CaseIncomplete | UnauthorizedExport

  /** What is wrong where: the record, its field, the package member concerned, and the id named there. */
  datatype Violation =
    | Violation(kind: Kind, family: Text, id: Text, field: Text, member: Text, target: Text)
    | LineageCycle(path: seq<Text>)

  const F_SUPERSEDES := Ascii("supersedes")

  /** Members in `sorted` order. */
  method InOrder(s: set<Text>) returns (r: seq<Text>)
    ensures SetOf(r) == s && Distinct(r)
  {
    r := Sorted(s);
  }

  // ---------------------------------------------------------------------
  // Ids
  // ---------------------------------------------------------------------

  function OwnersOf(records: Records, id: Text): set<Text>
  {
    set f | f in records && id in records[f]
  }

  lemma ManyOwners(records: Records, id: Text)
    ensures |OwnersOf(records, id)| > 1 <==>
      exists f, g :: f in records && g in records && f != g && id in records[f] && id in records[g]
  {
    var owners := OwnersOf(records, id);
    if |owners| > 1 {
      var f :| f in owners;
      assert |owners - {f}| > 0;
      var g :| g in owners - {f};
    }
    if f, g :| f in records && g in records && f != g && id in records[f] && id in records[g] {
      SubsetSmaller({f, g}, owners);
    }
  }

  ghost predicate IdFault(records: Records, v: Violation)
  {
    v.Violation? && v == Violation(DuplicateId, [], v.id, [], [], []) && |OwnersOf(records, v.id)| > 1
  }

  /** One violation for each id that exists in two families. */
  method CheckIds(records: Records) returns (vs: seq<Violation>)
    ensures forall v :: v in vs <==> IdFault(records, v)
    ensures vs == [] <==> UniqueIds(records)
  {
    vs := [];
    var all := set f, id | f in records && id in records[f] :: id;
    var ids := InOrder(all);
    for i := 0 to |ids|
      invariant forall v :: v in vs <==> IdFault(records, v) && v.id in ids[..i]
      invariant vs == [] <==> forall id :: id in ids[..i] ==> |OwnersOf(records, id)| <= 1
    {
      TakeStep(ids, i);
      if |OwnersOf(records, ids[i])| > 1 { vs := vs + [Violation(DuplicateId, [], ids[i], [], [], [])]; }
    }
    TakeAll(ids);
    assert forall id :: id in SetOf(ids) <==> id in all;
    forall id ensures |OwnersOf(records, id)| > 1 ==> id in all { ManyOwners(records, id); }
    UniqueByOwners(records);
  }

  lemma UniqueByOwners(records: Records)
    ensures UniqueIds(records) <==> forall id :: |OwnersOf(records, id)| <= 1
  {
    forall id ensures |OwnersOf(records, id)| > 1 <==>
      exists f, g :: f in records && g in records && f != g && id in records[f] && id in records[g]
    {
      ManyOwners(records, id);
    }
    if !UniqueIds(records) {
      var f, g, id :| f in records && g in records && f != g && id in records[f] && id in records[g];
      assert |OwnersOf(records, id)| > 1;
    }
  }

  // ---------------------------------------------------------------------
  // References and lineage of one record
  // ---------------------------------------------------------------------

  /** `_classify_reference`: None when the target exists where it should. */
  method Classify(records: Records, expected: Text, target: Text) returns (problem: Option<Kind>)
    ensures problem.None? <==> target in Of(records, expected)
    ensures problem == Some(DanglingReference) <==> OwnersOf(records, target) == {}
    ensures problem.None? || problem == Some(DanglingReference) || problem == Some(CrossTypeReference)
  {
    if target in Of(records, expected) {
      assert expected in OwnersOf(records, target);
      return None;
    }
    return Some(if OwnersOf(records, target) != {} then CrossTypeReference else DanglingReference);
  }

  /** What is wrong with one reference, if anything. */
  function RefFault(records: Records, c: Reference, r: Ref): Option<Kind>
  {
    if r.target !in Of(records, c.target) then
      Some(if OwnersOf(records, r.target) != {} then CrossTypeReference else DanglingReference)
    else if r.pin.Some? && r.pin.value != Of(records, c.target)[r.target].sha then Some(PinMismatch)
    else None
  }

  /** How often a field names an id. */
  function Occurrences(refs: seq<Ref>, target: Text): nat
  {
    if refs == [] then 0
    else Occurrences(refs[..|refs| - 1], target) + if refs[|refs| - 1].target == target then 1 else 0
  }

  lemma {:induction false} Occurs(refs: seq<Ref>, target: Text)
    ensures Occurrences(refs, target) > 0 <==> exists i :: 0 <= i < |refs| && refs[i].target == target
  {
    if refs != [] {
      var few := refs[..|refs| - 1];
      Occurs(few, target);
      assert forall i :: 0 <= i < |few| ==> few[i] == refs[i];
    }
  }

  lemma {:induction false} OccursTwice(refs: seq<Ref>, target: Text)
    ensures Occurrences(refs, target) > 1 <==>
      exists i, j :: 0 <= i < j < |refs| && refs[i].target == target && refs[j].target == target
  {
    if refs != [] {
      var n := |refs| - 1;
      var few := refs[..n];
      assert forall i :: 0 <= i < n ==> few[i] == refs[i];
      OccursTwice(few, target);
      Occurs(few, target);
    }
  }

  /** v is a violation of this record's field. */
  ghost predicate FieldFault(records: Records, c: Reference, f: Text, id: Text, n: Node, v: Violation)
  {
    v.Violation? && v == Violation(v.kind, f, id, c.field, [], v.target) &&
    var refs := RefsOf(n, c.field);
    || (v.kind == DuplicateReference && !c.shape.AnObject? && Occurrences(refs, v.target) > 1)
    || exists i :: 0 <= i < |refs| && refs[i].target == v.target && RefFault(records, c, refs[i]) == Some(v.kind)
  }

  /** Ids named more than once, each reported once. */
  method CheckRepeats(c: Reference, f: Text, id: Text, refs: seq<Ref>) returns (vs: seq<Violation>)
    ensures forall v :: v in vs <==>
      v.Violation? && v == Violation(DuplicateReference, f, id, c.field, [], v.target) && Occurrences(refs, v.target) > 1
  {
    vs := [];
    var all := set i | 0 <= i < |refs| :: refs[i].target;
    var tids := InOrder(all);
    for i := 0 to |tids|
      invariant forall v :: v in vs <==>
        && v.Violation? && v == Violation(DuplicateReference, f, id, c.field, [], v.target)
        && Occurrences(refs, v.target) > 1 && v.target in tids[..i]
    {
      TakeStep(tids, i);
      if Occurrences(refs, tids[i]) > 1 { vs := vs + [Violation(DuplicateReference, f, id, c.field, [], tids[i])]; }
    }
    TakeAll(tids);
    forall t | Occurrences(refs, t) > 1 ensures t in tids {
      Occurs(refs, t);
      assert t in SetOf(tids);
    }
  }

  method CheckRefs(records: Records, c: Reference, f: Text, id: Text, refs: seq<Ref>) returns (vs: seq<Violation>)
    ensures forall v :: v in vs <==>
      && v.Violation? && v == Violation(v.kind, f, id, c.field, [], v.target)
      && exists i :: 0 <= i < |refs| && refs[i].target == v.target && RefFault(records, c, refs[i]) == Some(v.kind)
  {
    vs := [];
    for i := 0 to |refs|
      invariant forall v :: v in vs <==>
        && v.Violation? && v == Violation(v.kind, f, id, c.field, [], v.target)
        && exists a :: 0 <= a < i && refs[a].target == v.target && RefFault(records, c, refs[a]) == Some(v.kind)
    {
      var problem := Classify(records, c.target, refs[i].target);
      if problem.None? && refs[i].pin.Some? && refs[i].pin.value != Of(records, c.target)[refs[i].target].sha {
        problem := Some(PinMismatch);
      }
      assert problem == RefFault(records, c, refs[i]);
      if problem.Some? { vs := vs + [Violation(problem.value, f, id, c.field, [], refs[i].target)]; }
    }
  }

  method CheckField(records: Records, c: Reference, f: Text, id: Text, n: Node) returns (vs: seq<Violation>)
    ensures forall v :: v in vs <==> FieldFault(records, c, f, id, n, v)
    ensures vs == [] <==> FieldOk(records, c, n)
  {
    var refs := RefsOf(n, c.field);
    var repeats := [];
    if !c.shape.AnObject? { repeats := CheckRepeats(c, f, id, refs); }
    var wrong := CheckRefs(records, c, f, id, refs);
    vs := repeats + wrong;
    FieldFaults(records, c, f, id, n);
    EmptyIffNone(vs);
  }

  lemma EmptyIffNone(vs: seq<Violation>)
    ensures vs == [] <==> forall v :: v !in vs
  {
    if vs != [] { assert vs[0] in vs; }
  }

  lemma FieldFaults(records: Records, c: Reference, f: Text, id: Text, n: Node)
    ensures (forall v :: !FieldFault(records, c, f, id, n, v)) <==> FieldOk(records, c, n)
  {
    var refs := RefsOf(n, c.field);
    forall i | 0 <= i < |refs| && !RefOk(records, c, refs[i]) ensures exists v :: FieldFault(records, c, f, id, n, v) {
      assert RefFault(records, c, refs[i]).Some?;
      assert FieldFault(records, c, f, id, n, Violation(RefFault(records, c, refs[i]).value, f, id, c.field, [], refs[i].target));
    }
    forall i, j | !c.shape.AnObject? && 0 <= i < j < |refs| && refs[i].target == refs[j].target
      ensures exists v :: FieldFault(records, c, f, id, n, v)
    {
      OccursTwice(refs, refs[i].target);
      assert FieldFault(records, c, f, id, n, Violation(DuplicateReference, f, id, c.field, [], refs[i].target));
    }
    forall v | FieldOk(records, c, n) ensures !FieldFault(records, c, f, id, n, v) {
      if v.Violation? { OccursTwice(refs, v.target); }
    }
  }

  /** What is wrong with a record's `supersedes`, if anything. */
  function LineageFault(records: Records, scope: Scope, f: Text, id: Text, t: Text): Option<Kind>
    requires f in records && id in records[f]
  {
    if t == id then Some(SelfReference)
    else if t !in records[f] then Some(if OwnersOf(records, t) != {} then CrossTypeReference else DanglingReference)
    else if scope.SameAnchor? && TargetOf(records[f][id], scope.field) != TargetOf(records[f][t], scope.field) then
      Some(LineageScopeMismatch)
    else None
  }

  /** The record's `supersedes` becomes an edge: its scope may still be wrong. */
  predicate HasEdge(scope: Option<Scope>, family: Family, id: Text)
    requires id in family
  {
    scope.Some? && family[id].supersedes.Some? && family[id].supersedes.value != id && family[id].supersedes.value in family
  }

  /** The edges once a record has been visited. */
  function WithEdge(edges: L.Edges, scope: Option<Scope>, family: Family, id: Text): L.Edges
    requires id in family
  {
    if HasEdge(scope, family, id) then edges[id := family[id].supersedes.value] else edges
  }

  ghost predicate SupersedesFault(records: Records, scope: Option<Scope>, f: Text, id: Text, v: Violation)
    requires f in records && id in records[f]
  {
    && scope.Some? && records[f][id].supersedes.Some? && v.Violation?
    && v == Violation(v.kind, f, id, F_SUPERSEDES, [], records[f][id].supersedes.value)
    && LineageFault(records, scope.value, f, id, records[f][id].supersedes.value) == Some(v.kind)
  }

  method CheckSupersedes(records: Records, scope: Option<Scope>, f: Text, id: Text, edges: L.Edges)
    returns (vs: seq<Violation>, more: L.Edges)
    requires f in records && id in records[f]
    ensures forall v :: v in vs <==> SupersedesFault(records, scope, f, id, v)
    ensures vs == [] <==> SupersedesOk(scope, records[f], id)
    ensures more == WithEdge(edges, scope, records[f], id)
  {
    vs, more := [], edges;
    var n := records[f][id];
    if scope.None? || n.supersedes.None? { return; }
    var t := n.supersedes.value;
    if t == id { return [Violation(SelfReference, f, id, F_SUPERSEDES, [], t)], edges; }
    var problem := Classify(records, f, t);
    if problem.Some? { return [Violation(problem.value, f, id, F_SUPERSEDES, [], t)], edges; }
    more := edges[id := t];
    if scope.value.SameAnchor? && TargetOf(n, scope.value.field) != TargetOf(records[f][t], scope.value.field) {
      vs := [Violation(LineageScopeMismatch, f, id, F_SUPERSEDES, [], t)];
    }
  }

  ghost predicate RecordFault(records: Records, c: Contract, f: Text, id: Text, v: Violation)
    requires f in records && id in records[f]
  {
    || SupersedesFault(records, c.supersedes, f, id, v)
    || exists i :: 0 <= i < |c.references| && FieldFault(records, c.references[i], f, id, records[f][id], v)
  }

  method CheckRecord(records: Records, c: Contract, f: Text, id: Text, edges: L.Edges)
    returns (vs: seq<Violation>, more: L.Edges)
    requires f in records && id in records[f]
    ensures forall v :: v in vs <==> RecordFault(records, c, f, id, v)
    ensures vs == [] <==> RecordOk(records, c, records[f], id)
    ensures more == WithEdge(edges, c.supersedes, records[f], id)
  {
    vs, more := CheckSupersedes(records, c.supersedes, f, id, edges);
    for i := 0 to |c.references|
      invariant forall v :: v in vs <==>
        || SupersedesFault(records, c.supersedes, f, id, v)
        || exists j :: 0 <= j < i && FieldFault(records, c.references[j], f, id, records[f][id], v)
      invariant vs == [] <==>
        SupersedesOk(c.supersedes, records[f], id) && forall j :: 0 <= j < i ==> FieldOk(records, c.references[j], records[f][id])
    {
      var found := CheckField(records, c.references[i], f, id, records[f][id]);
      vs := vs + found;
    }
  }

  // ---------------------------------------------------------------------
  // Families
  // ---------------------------------------------------------------------

  /** The edges of a family's first records. */
  function Partial(scope: Option<Scope>, family: Family, ids: set<Text>): L.Edges
  {
    map id | id in family && id in ids && HasEdge(scope, family, id) :: family[id].supersedes.value
  }

  lemma PartialMore(scope: Option<Scope>, family: Family, ids: set<Text>, id: Text, edges: L.Edges)
    requires id in family
    ensures edges + Partial(scope, family, ids + {id}) == WithEdge(edges + Partial(scope, family, ids), scope, family, id)
  {}

  /** The edges that a family contributes to the lineage. */
  function EdgesOf(g: Registry, records: Records, f: Text): L.Edges
  {
    if f in g then Partial(g[f].supersedes, Of(records, f), Of(records, f).Keys) else map[]
  }

  ghost predicate FamilyFault(g: Registry, records: Records, f: Text, v: Violation)
    requires f in records
  {
    f in g && v.Violation? && v.id in records[f] && RecordFault(records, g[f], f, v.id, v)
  }

  method CheckFamily(g: Registry, records: Records, f: Text, edges: L.Edges) returns (vs: seq<Violation>, more: L.Edges)
    requires f in records
    ensures forall v :: v in vs <==> FamilyFault(g, records, f, v)
    ensures vs == [] <==> FamilyOk(g, records, f)
    ensures more == edges + EdgesOf(g, records, f)
  {
    vs, more := [], edges;
    if f !in g { return; }
    var scope, family := g[f].supersedes, records[f];
    var ids := InOrder(family.Keys);
    for i := 0 to |ids|
      invariant forall id :: id in SetOf(ids[..i]) ==> id in family
      invariant forall v :: v in vs <==>
        v.Violation? && v.id in SetOf(ids[..i]) && RecordFault(records, g[f], f, v.id, v)
      invariant vs == [] <==> forall id :: id in SetOf(ids[..i]) ==> RecordOk(records, g[f], family, id)
      invariant more == edges + Partial(scope, family, SetOf(ids[..i]))
    {
      assert ids[i] in SetOf(ids);
      SetOfStep(ids, i);
      PartialMore(scope, family, SetOf(ids[..i]), ids[i], edges);
      var found;
      found, more := CheckRecord(records, g[f], f, ids[i], more);
      vs := vs + found;
    }
    TakeAll(ids);
  }

  /** All families' edges in one map, in this order. */
  ghost function AllEdges(g: Registry, records: Records, fs: seq<Text>): L.Edges
  {
    if fs == [] then map[] else AllEdges(g, records, fs[..|fs| - 1]) + EdgesOf(g, records, fs[|fs| - 1])
  }

  ghost predicate FamiliesFault(g: Registry, records: Records, v: Violation)
  {
    v.Violation? && v.family in records && FamilyFault(g, records, v.family, v)
  }

  /** vs is what is wrong with these families. */
  ghost predicate FamiliesChecked(g: Registry, records: Records, done: set<Text>, vs: seq<Violation>)
  {
    && done <= records.Keys
    && (forall v :: v in vs <==> v.Violation? && v.family in done && FamilyFault(g, records, v.family, v))
    && (vs == [] <==> forall f :: f in done ==> FamilyOk(g, records, f))
  }

  lemma OneMoreFamily(g: Registry, records: Records, done: set<Text>, vs: seq<Violation>, f: Text, found: seq<Violation>)
    requires FamiliesChecked(g, records, done, vs) && f in records
    requires forall v :: v in found <==> FamilyFault(g, records, f, v)
    requires found == [] <==> FamilyOk(g, records, f)
    ensures FamiliesChecked(g, records, done + {f}, vs + found)
  {
    forall v: Violation
      ensures v in vs + found <==> v.Violation? && v.family in done + {f} && FamilyFault(g, records, v.family, v)
    {
      if v in found { assert v.family == f; }
    }
  }

  method CheckFamilies(g: Registry, records: Records, families: seq<Text>) returns (vs: seq<Violation>, edges: L.Edges)
    requires SetOf(families) == records.Keys
    ensures forall v :: v in vs <==> FamiliesFault(g, records, v)
    ensures vs == [] <==> forall f :: f in records ==> FamilyOk(g, records, f)
    ensures edges == AllEdges(g, records, families)
  {
    vs, edges := [], map[];
    NoFamilyYet(g, records);
    for i := 0 to |families|
      invariant FamiliesChecked(g, records, SetOf(families[..i]), vs)
      invariant edges == AllEdges(g, records, families[..i])
    {
      assert families[i] in SetOf(families);
      SetOfStep(families, i);
      TakeStep(families, i);
      var found;
      found, edges := CheckFamily(g, records, families[i], edges);
      OneMoreFamily(g, records, SetOf(families[..i]), vs, families[i], found);
      vs := vs + found;
    }
    TakeAll(families);
    AllFamilies(g, records, vs);
  }

  lemma NoFamilyYet(g: Registry, records: Records)
    ensures FamiliesChecked(g, records, SetOf([]), [])
  {}

  lemma AllFamilies(g: Registry, records: Records, vs: seq<Violation>)
    requires FamiliesChecked(g, records, records.Keys, vs)
    ensures forall v :: v in vs <==> FamiliesFault(g, records, v)
    ensures vs == [] <==> forall f :: f in records ==> FamilyOk(g, records, f)
  {}

  // ---------------------------------------------------------------------
  // Merged edges walk like each family's own
  // ---------------------------------------------------------------------

  ghost function Merged(g: Registry, records: Records, fs: seq<Text>): L.Edges
  {
    if fs == [] then map[] else Merged(g, records, fs[..|fs| - 1]) + LineageOf(g, records, fs[|fs| - 1])
  }

  /** When families have no fault, every `supersedes` is an edge. */
  lemma {:induction false} AllEdgesMerged(g: Registry, records: Records, fs: seq<Text>)
    requires (forall f :: f in records ==> FamilyOk(g, records, f)) && forall f :: f in fs ==> f in records
    ensures AllEdges(g, records, fs) == Merged(g, records, fs)
  {
    if fs != [] {
      var f, few := fs[|fs| - 1], fs[..|fs| - 1];
      AllEdgesMerged(g, records, few);
      assert f in fs;
      SoundEdges(g, records, f);
    }
  }

  lemma SoundEdges(g: Registry, records: Records, f: Text)
    requires f in records && FamilyOk(g, records, f)
    ensures EdgesOf(g, records, f) == LineageOf(g, records, f)
  {
    if f in g {
      forall id | id in records[f] ensures HasEdge(g[f].supersedes, records[f], id) <==>
        g[f].supersedes.Some? && records[f][id].supersedes.Some?
      {
        assert RecordOk(records, g[f], records[f], id);
      }
    }
  }

  lemma {:induction false} MergedAgrees(g: Registry, records: Records, fs: seq<Text>, f: Text, id: Text)
    requires UniqueIds(records) && f in records && id in records[f] && forall x :: x in fs ==> x in records
    ensures id in Merged(g, records, fs) <==> f in fs && id in LineageOf(g, records, f)
    ensures id in Merged(g, records, fs) ==> Merged(g, records, fs)[id] == LineageOf(g, records, f)[id]
  {
    if fs != [] {
      var last, init := fs[|fs| - 1], fs[..|fs| - 1];
      assert fs == init + [last];
      MergedAgrees(g, records, init, f, id);
      if last != f { assert id !in records[last]; }
    }
  }

  lemma {:induction false} MergedKeys(g: Registry, records: Records, fs: seq<Text>, id: Text)
    requires id in Merged(g, records, fs) && forall x :: x in fs ==> x in records
    ensures exists f :: f in fs && id in records[f]
  {
    var last, init := fs[|fs| - 1], fs[..|fs| - 1];
    assert fs == init + [last];
    if id !in LineageOf(g, records, last) {
      MergedKeys(g, records, init, id);
    }
  }

  /** From a record, the merged edges lead where its family's edges lead. */
  lemma {:induction false} MergedAfter(g: Registry, records: Records, fs: seq<Text>, f: Text, id: Text, k: nat)
    requires UniqueIds(records) && (forall x :: x in records ==> FamilyOk(g, records, x))
    requires SetOf(fs) == records.Keys && f in records && id in records[f]
    ensures var a := L.After(LineageOf(g, records, f), id, k);
      L.After(Merged(g, records, fs), id, k) == a && (a.Some? ==> a.value in records[f])
  {
    if k > 0 {
      MergedAfter(g, records, fs, f, id, k - 1);
      var a := L.After(LineageOf(g, records, f), id, k - 1);
      if a.Some? {
        assert f in SetOf(fs);
        MergedAgrees(g, records, fs, f, a.value);
        if f in g { assert FamilyOk(g, records, f) && RecordOk(records, g[f], records[f], a.value); }
      }
    }
  }

  lemma MergedCycles(g: Registry, records: Records, fs: seq<Text>)
    requires UniqueIds(records) && (forall x :: x in records ==> FamilyOk(g, records, x)) && SetOf(fs) == records.Keys
    ensures Acyclic(g, records) <==> forall id :: !L.OnCycle(Merged(g, records, fs), id)
  {
    var edges := Merged(g, records, fs);
    if f, id :| f in records && id in records[f] && L.OnCycle(LineageOf(g, records, f), id) {
      SameCycle(g, records, fs, f, id);
    } else if id :| L.OnCycle(edges, id) {
      var f := OwnerOfCycle(g, records, fs, id);
      SameCycle(g, records, fs, f, id);
    }
  }

  lemma SameCycle(g: Registry, records: Records, fs: seq<Text>, f: Text, id: Text)
    requires UniqueIds(records) && (forall x :: x in records ==> FamilyOk(g, records, x)) && SetOf(fs) == records.Keys
    requires f in records && id in records[f]
    ensures L.OnCycle(Merged(g, records, fs), id) <==> L.OnCycle(LineageOf(g, records, f), id)
  {
    forall k: nat ensures L.After(Merged(g, records, fs), id, k) == L.After(LineageOf(g, records, f), id, k) {
      MergedAfter(g, records, fs, f, id, k);
    }
  }

  lemma OwnerOfCycle(g: Registry, records: Records, fs: seq<Text>, id: Text) returns (f: Text)
    requires SetOf(fs) == records.Keys && L.OnCycle(Merged(g, records, fs), id)
    ensures f in records && id in records[f]
  {
    var k: nat :| k > 0 && L.After(Merged(g, records, fs), id, k) == Some(id);
    L.FirstEdge(Merged(g, records, fs), id, k);
    assert forall x :: x in SetOf(fs) <==> x in records;
    MergedKeys(g, records, fs, id);
    f :| f in fs && id in records[f];
  }

  // ---------------------------------------------------------------------
  // Two-way links
  // ---------------------------------------------------------------------

  /** x lists y and y does not list it back. */
  ghost predicate OneWay(a: Family, aField: Text, b: Family, bField: Text, f: Text, v: Violation)
  {
    && v.Violation? && v == Violation(OneWayLink, f, v.id, aField, [], v.target)
    && v.id in a && v.target in b && v.target in Targets(a[v.id], aField) && v.id !in Targets(b[v.target], bField)
  }

  method CheckListedBack(a: Family, aField: Text, b: Family, bField: Text, f: Text) returns (vs: seq<Violation>)
    ensures forall v :: v in vs <==> OneWay(a, aField, b, bField, f, v)
    ensures vs == [] <==> ListedBack(a, aField, b, bField)
  {
    vs := [];
    var xs := InOrder(a.Keys);
    for i := 0 to |xs|
      invariant forall x :: x in SetOf(xs[..i]) ==> x in a
      invariant forall v :: v in vs <==> OneWay(a, aField, b, bField, f, v) && v.id in SetOf(xs[..i])
      invariant vs == [] <==> forall x :: x in SetOf(xs[..i]) ==> AllBack(x, a[x], aField, b, bField)
    {
      assert xs[i] in SetOf(xs);
      SetOfStep(xs, i);
      var found := CheckOneSide(xs[i], a[xs[i]], aField, b, bField, f);
      vs := vs + found;
    }
    TakeAll(xs);
    assert ListedBack(a, aField, b, bField) <==> forall x :: x in a ==> AllBack(x, a[x], aField, b, bField);
  }

  ghost predicate AllBack(x: Text, n: Node, aField: Text, b: Family, bField: Text)
  {
    forall y :: y in b && y in Targets(n, aField) ==> x in Targets(b[y], bField)
  }

  method CheckOneSide(x: Text, n: Node, aField: Text, b: Family, bField: Text, f: Text) returns (vs: seq<Violation>)
    ensures forall v :: v in vs <==>
      && v.Violation? && v == Violation(OneWayLink, f, x, aField, [], v.target)
      && v.target in b && v.target in Targets(n, aField) && x !in Targets(b[v.target], bField)
    ensures vs == [] <==> AllBack(x, n, aField, b, bField)
  {
    vs := [];
    var ys := InOrder(Targets(n, aField));
    for i := 0 to |ys|
      invariant forall v :: v in vs <==>
        && v.Violation? && v == Violation(OneWayLink, f, x, aField, [], v.target)
        && v.target in b && v.target in SetOf(ys[..i]) && x !in Targets(b[v.target], bField)
      invariant vs == [] <==> forall y :: y in SetOf(ys[..i]) && y in b ==> x in Targets(b[y], bField)
    {
      SetOfStep(ys, i);
      if ys[i] in b && x !in Targets(b[ys[i]], bField) {
        vs := vs + [Violation(OneWayLink, f, x, aField, [], ys[i])];
      }
    }
    TakeAll(ys);
  }

  /** The two-way pairs of the registry name each other. */
  ghost predicate PairsSymmetric(g: Registry)
  {
    forall f, i :: f in g && 0 <= i < |g[f].references| && g[f].references[i].twoWayWith.Some? ==>
      HasBack(g, f, g[f].references[i])
  }

  ghost predicate HasBack(g: Registry, f: Text, c: Reference)
    requires c.twoWayWith.Some?
  {
    c.target in g && exists j :: 0 <= j < |g[c.target].references| && IsBack(f, c, g[c.target].references[j])
  }

  ghost predicate IsBack(f: Text, c: Reference, back: Reference)
    requires c.twoWayWith.Some?
  {
    back.field == c.twoWayWith.value && back.target == f && back.twoWayWith == Some(c.field)
  }

  /** The pair is left to its other side: `(family, field) > reverse_side`. */
  predicate FromOtherSide(f: Text, c: Reference)
    requires c.twoWayWith.Some?
  {
    Less(c.target, f) || (c.target == f && Less(c.twoWayWith.value, c.field))
  }

  lemma OneSideSuffices(g: Registry, records: Records, f: Text, i: nat)
    requires PairsSymmetric(g) && f in g && i < |g[f].references|
    requires forall x, j :: x in g && 0 <= j < |g[x].references| ==> SideOk(records, x, g[x].references[j])
    ensures PairOk(records, f, g[f].references[i])
  {
    var c := g[f].references[i];
    assert SideOk(records, f, c);
    if c.twoWayWith.Some? && FromOtherSide(f, c) {
      assert HasBack(g, f, c);
      var j :| 0 <= j < |g[c.target].references| && IsBack(f, c, g[c.target].references[j]);
      var back := g[c.target].references[j];
      assert SideOk(records, c.target, back);
      BackIsChecked(f, c, back);
      assert PairOk(records, c.target, back);
    }
  }

  ghost predicate SideOk(records: Records, f: Text, c: Reference)
  {
    c.twoWayWith.Some? && !FromOtherSide(f, c) ==> PairOk(records, f, c)
  }

  /** A one-way link of this reference, whichever side lists. */
  ghost predicate SideFault(records: Records, f: Text, c: Reference, v: Violation)
  {
    c.twoWayWith.Some? && !FromOtherSide(f, c) &&
    (OneWay(Of(records, f), c.field, Of(records, c.target), c.twoWayWith.value, f, v)
     || OneWay(Of(records, c.target), c.twoWayWith.value, Of(records, f), c.field, c.target, v))
  }

  method CheckSide(records: Records, f: Text, c: Reference) returns (vs: seq<Violation>)
    ensures forall v :: v in vs <==> SideFault(records, f, c, v)
    ensures vs == [] <==> SideOk(records, f, c)
  {
    if c.twoWayWith.None? || FromOtherSide(f, c) { return []; }
    var a, b := Of(records, f), Of(records, c.target);
    var forth := CheckListedBack(a, c.field, b, c.twoWayWith.value, f);
    var back := CheckListedBack(b, c.twoWayWith.value, a, c.field, c.target);
    vs := forth + back;
  }

  ghost predicate SidesOk(records: Records, f: Text, cs: seq<Reference>)
  {
    forall j :: 0 <= j < |cs| ==> SideOk(records, f, cs[j])
  }

  ghost predicate SidesFault(records: Records, f: Text, cs: seq<Reference>, v: Violation)
  {
    exists j :: 0 <= j < |cs| && SideFault(records, f, cs[j], v)
  }

  method CheckSides(records: Records, f: Text, cs: seq<Reference>) returns (vs: seq<Violation>)
    ensures forall v :: v in vs <==> SidesFault(records, f, cs, v)
    ensures vs == [] <==> SidesOk(records, f, cs)
  {
    vs := [];
    for i := 0 to |cs|
      invariant forall v :: v in vs <==> exists j :: 0 <= j < i && SideFault(records, f, cs[j], v)
      invariant vs == [] <==> forall j :: 0 <= j < i ==> SideOk(records, f, cs[j])
    {
      var found := CheckSide(records, f, cs[i]);
      vs := vs + found;
    }
  }

  /** A one-way link of some registered two-way reference, reported at the side that lists. */
  ghost predicate LinkFault(g: Registry, records: Records, v: Violation)
  {
    exists f, j :: f in g && 0 <= j < |g[f].references| && Forth(records, f, g[f].references[j], v)
  }

  ghost predicate Forth(records: Records, f: Text, c: Reference, v: Violation)
  {
    c.twoWayWith.Some? && OneWay(Of(records, f), c.field, Of(records, c.target), c.twoWayWith.value, f, v)
  }

  /** Two-way links, each checked from one side only: every one-way link is found all the same. */
  method CheckPairs(g: Registry, records: Records) returns (vs: seq<Violation>)
    requires PairsSymmetric(g)
    ensures forall v :: v in vs <==> LinkFault(g, records, v)
    ensures vs == [] <==> PairsOk(g, records)
  {
    vs := [];
    var families := InOrder(g.Keys);
    NoSidesYet(g, records);
    for i := 0 to |families|
      invariant SidesChecked(g, records, SetOf(families[..i]), vs)
    {
      assert families[i] in SetOf(families);
      SetOfStep(families, i);
      var found := CheckSides(records, families[i], g[families[i]].references);
      MoreSides(g, records, SetOf(families[..i]), vs, families[i], found);
      vs := vs + found;
    }
    TakeAll(families);
    SidesArePairs(g, records);
    AllSides(g, records, vs);
  }

  /** vs is what is wrong with the sides of these families. */
  ghost predicate SidesChecked(g: Registry, records: Records, done: set<Text>, vs: seq<Violation>)
  {
    && done <= g.Keys
    && (forall v :: v in vs <==> exists f :: f in done && SidesFault(records, f, g[f].references, v))
    && (vs == [] <==> forall f :: f in done ==> SidesOk(records, f, g[f].references))
  }

  lemma NoSidesYet(g: Registry, records: Records)
    ensures SidesChecked(g, records, SetOf([]), [])
  {}

  lemma MoreSides(g: Registry, records: Records, done: set<Text>, vs: seq<Violation>, f: Text, found: seq<Violation>)
    requires SidesChecked(g, records, done, vs) && f in g
    requires forall v :: v in found <==> SidesFault(records, f, g[f].references, v)
    requires found == [] <==> SidesOk(records, f, g[f].references)
    ensures SidesChecked(g, records, done + {f}, vs + found)
  {
    forall v ensures v in vs + found <==> exists x :: x in done + {f} && SidesFault(records, x, g[x].references, v) {
      if v in vs { var x :| x in done && SidesFault(records, x, g[x].references, v); }
    }
  }

  lemma AllSides(g: Registry, records: Records, vs: seq<Violation>)
    requires PairsSymmetric(g) && SidesChecked(g, records, g.Keys, vs)
    ensures forall v :: v in vs <==> LinkFault(g, records, v)
    ensures vs == [] <==> forall f :: f in g ==> SidesOk(records, f, g[f].references)
  {
    forall v ensures v in vs <==> LinkFault(g, records, v) { SidesAreLinks(g, records, v); }
  }

  lemma SidesAreLinks(g: Registry, records: Records, v: Violation)
    requires PairsSymmetric(g)
    ensures (exists f :: f in g && SidesFault(records, f, g[f].references, v)) <==> LinkFault(g, records, v)
  {
    if f :| f in g && SidesFault(records, f, g[f].references, v) {
      var j :| 0 <= j < |g[f].references| && SideFault(records, f, g[f].references[j], v);
      SideIsLink(g, records, f, j, v);
    }
    if f, j :| f in g && 0 <= j < |g[f].references| && Forth(records, f, g[f].references[j], v) {
      var x := LinkIsSide(g, records, f, j, v);
    }
  }

  lemma SideIsLink(g: Registry, records: Records, f: Text, j: nat, v: Violation)
    requires PairsSymmetric(g) && f in g && j < |g[f].references| && SideFault(records, f, g[f].references[j], v)
    ensures LinkFault(g, records, v)
  {
    var c := g[f].references[j];
    if !Forth(records, f, c, v) {
      assert HasBack(g, f, c);
      var i :| 0 <= i < |g[c.target].references| && IsBack(f, c, g[c.target].references[i]);
      assert Forth(records, c.target, g[c.target].references[i], v);
    }
  }

  lemma LinkIsSide(g: Registry, records: Records, f: Text, j: nat, v: Violation) returns (x: Text)
    requires PairsSymmetric(g) && f in g && j < |g[f].references| && Forth(records, f, g[f].references[j], v)
    ensures x in g && SidesFault(records, x, g[x].references, v)
  {
    var c := g[f].references[j];
    if FromOtherSide(f, c) {
      assert HasBack(g, f, c);
      var i :| 0 <= i < |g[c.target].references| && IsBack(f, c, g[c.target].references[i]);
      BackIsChecked(f, c, g[c.target].references[i]);
      assert SideFault(records, c.target, g[c.target].references[i], v);
      x := c.target;
    } else {
      assert SideFault(records, f, c, v);
      x := f;
    }
  }

  /** Of a pair's two sides, one is checked. */
  lemma BackIsChecked(f: Text, c: Reference, back: Reference)
    requires c.twoWayWith.Some? && FromOtherSide(f, c) && IsBack(f, c, back)
    ensures !FromOtherSide(c.target, back)
  {
    if FromOtherSide(c.target, back) {
      if c.target == f { LeqAntisymmetric(c.field, back.field); } else { LeqAntisymmetric(c.target, f); }
    }
  }

  lemma SidesArePairs(g: Registry, records: Records)
    requires PairsSymmetric(g)
    ensures PairsOk(g, records) <==> forall f :: f in g ==> SidesOk(records, f, g[f].references)
  {
    if forall f :: f in g ==> SidesOk(records, f, g[f].references) {
      forall x, j | x in g && 0 <= j < |g[x].references| ensures SideOk(records, x, g[x].references[j]) {
        assert SidesOk(records, x, g[x].references);
      }
      forall f, i | f in g && 0 <= i < |g[f].references| ensures PairOk(records, f, g[f].references[i]) {
        OneSideSuffices(g, records, f, i);
      }
    }
    if PairsOk(g, records) {
      forall f | f in g ensures SidesOk(records, f, g[f].references) {
        forall j | 0 <= j < |g[f].references| ensures SideOk(records, f, g[f].references[j]) {
          assert PairOk(records, f, g[f].references[j]);
        }
      }
    }
  }

  // ---------------------------------------------------------------------
  // Case closure and export receipts
  // ---------------------------------------------------------------------

  function CaseViolation(cid: Text, field: Text, member: Text, target: Text): Violation
  {
    Violation(CaseIncomplete, CASE, cid, field, member, target)
  }

  /** Where the anchor chain of a member analysis leaves the package. */
  predicate AnalysisFault(records: Records, n: Node, aid: Text, field: Text, target: Text)
  {
    aid in Of(records, ANALYSIS) &&
    var oid := TargetOf(Of(records, ANALYSIS)[aid], F_OBSERVATION);
    || (field == F_OBSERVATIONS && target == oid && oid !in Targets(n, F_OBSERVATIONS))
    || (oid in Of(records, OBSERVATION) &&
        var rid := TargetOf(Of(records, OBSERVATION)[oid], F_RUN);
        || (field == F_RUNS && target == rid && rid !in Targets(n, F_RUNS))
        || (rid in Of(records, RUN) && field == F_TASK && target == TargetOf(Of(records, RUN)[rid], F_TASK) != TargetOf(n, F_TASK)))
  }

  /** Rule 1 for one member analysis. */
  method CheckAnalysis(records: Records, n: Node, cid: Text, aid: Text) returns (vs: seq<Violation>)
    ensures forall v :: v in vs <==>
      v.Violation? && v == CaseViolation(cid, v.field, aid, v.target) && AnalysisFault(records, n, aid, v.field, v.target)
    ensures vs == [] <==> AnalysisInside(records, n, aid)
  {
    vs := [];
    if aid !in Of(records, ANALYSIS) { return; }
    var oid := TargetOf(Of(records, ANALYSIS)[aid], F_OBSERVATION);
    if oid !in Targets(n, F_OBSERVATIONS) { vs := vs + [CaseViolation(cid, F_OBSERVATIONS, aid, oid)]; }
    if oid !in Of(records, OBSERVATION) { return; }
    var rid := TargetOf(Of(records, OBSERVATION)[oid], F_RUN);
    if rid !in Targets(n, F_RUNS) { vs := vs + [CaseViolation(cid, F_RUNS, aid, rid)]; }
    if rid !in Of(records, RUN) { return; }
    var tid := TargetOf(Of(records, RUN)[rid], F_TASK);
    if tid != TargetOf(n, F_TASK) { vs := vs + [CaseViolation(cid, F_TASK, aid, tid)]; }
  }

  /** A member record names something that is no member. */
  predicate ListFault(family: Family, field: Text, ids: set<Text>, members: set<Text>, cid: Text, v: Violation)
  {
    && v.Violation? && v == CaseViolation(cid, field, v.member, v.target)
    && v.member in ids && v.member in family && v.target in Targets(family[v.member], field) && v.target !in members
  }

  /** Rules 2 and 3: the lists of member records stay among the members. */
  method CheckLists(family: Family, field: Text, ids: set<Text>, members: set<Text>, cid: Text) returns (vs: seq<Violation>)
    ensures forall v :: v in vs <==> ListFault(family, field, ids, members, cid, v)
    ensures vs == [] <==> forall x :: x in ids ==> ListsInside(family, field, x, members)
  {
    vs := [];
    var xs := InOrder(ids);
    for i := 0 to |xs|
      invariant forall v :: v in vs <==> ListFault(family, field, ids, members, cid, v) && v.member in SetOf(xs[..i])
      invariant vs == [] <==> forall x :: x in SetOf(xs[..i]) ==> ListsInside(family, field, x, members)
    {
      assert xs[i] in SetOf(xs);
      SetOfStep(xs, i);
      if xs[i] in family {
        var outside := CheckTargets(RefsOf(family[xs[i]], field), members, cid, field, xs[i]);
        TargetsInside(family[xs[i]], field, members);
        vs := vs + outside;
      }
    }
    TakeAll(xs);
  }

  lemma TargetsInside(n: Node, field: Text, members: set<Text>)
    ensures Targets(n, field) <= members <==>
      forall i :: 0 <= i < |RefsOf(n, field)| ==> RefsOf(n, field)[i].target in members
    ensures forall t :: t in Targets(n, field) <==> exists i :: 0 <= i < |RefsOf(n, field)| && RefsOf(n, field)[i].target == t
  {
    forall i | 0 <= i < |RefsOf(n, field)| ensures RefsOf(n, field)[i].target in Targets(n, field) {}
  }

  method CheckTargets(refs: seq<Ref>, members: set<Text>, cid: Text, field: Text, member: Text) returns (vs: seq<Violation>)
    ensures forall v :: v in vs <==>
      && v.Violation? && v == CaseViolation(cid, field, member, v.target)
      && v.target !in members && exists i :: 0 <= i < |refs| && refs[i].target == v.target
    ensures vs == [] <==> forall i :: 0 <= i < |refs| ==> refs[i].target in members
  {
    vs := [];
    for i := 0 to |refs|
      invariant forall v :: v in vs <==>
        && v.Violation? && v == CaseViolation(cid, field, member, v.target)
        && v.target !in members && exists j :: 0 <= j < i && refs[j].target == v.target
      invariant vs == [] <==> forall j :: 0 <= j < i ==> refs[j].target in members
    {
      if refs[i].target !in members { vs := vs + [CaseViolation(cid, field, member, refs[i].target)]; }
    }
  }

  predicate AnchorFault(records: Records, n: Node, cid: Text, v: Violation)
  {
    && v.Violation? && v == CaseViolation(cid, v.field, v.member, v.target)
    && v.member in Targets(n, F_ANALYSES) && AnalysisFault(records, n, v.member, v.field, v.target)
  }

  /** The three closure rules for one case package. */
  predicate CaseFault(records: Records, n: Node, cid: Text, v: Violation)
  {
    || AnchorFault(records, n, cid, v)
    || ListFault(Of(records, CLAIM), F_SUPPORT, Targets(n, F_CLAIMS), Targets(n, F_EVIDENCE), cid, v)
    || ListFault(Of(records, EVIDENCE), F_CLAIM_IDS, Targets(n, F_EVIDENCE), Targets(n, F_CLAIMS), cid, v)
  }

  method CheckAnchors(records: Records, n: Node, cid: Text) returns (vs: seq<Violation>)
    ensures forall v :: v in vs <==> AnchorFault(records, n, cid, v)
    ensures vs == [] <==> forall aid :: aid in Targets(n, F_ANALYSES) ==> AnalysisInside(records, n, aid)
  {
    vs := [];
    var aids := InOrder(Targets(n, F_ANALYSES));
    for i := 0 to |aids|
      invariant forall v :: v in vs <==> AnchorFault(records, n, cid, v) && v.member in SetOf(aids[..i])
      invariant vs == [] <==> forall aid :: aid in SetOf(aids[..i]) ==> AnalysisInside(records, n, aid)
    {
      assert aids[i] in SetOf(aids);
      SetOfStep(aids, i);
      var found := CheckAnalysis(records, n, cid, aids[i]);
      vs := vs + found;
    }
    TakeAll(aids);
  }

  method CheckCase(records: Records, n: Node, cid: Text) returns (vs: seq<Violation>)
    ensures forall v :: v in vs <==> CaseFault(records, n, cid, v)
    ensures vs == [] <==> CaseOk(records, n)
  {
    var claims, evidence := Targets(n, F_CLAIMS), Targets(n, F_EVIDENCE);
    var one := CheckAnchors(records, n, cid);
    var two := CheckLists(Of(records, CLAIM), F_SUPPORT, claims, evidence, cid);
    var three := CheckLists(Of(records, EVIDENCE), F_CLAIM_IDS, evidence, claims, cid);
    vs := one + two + three;
  }

  predicate CasesFault(records: Records, v: Violation)
  {
    v.Violation? && v.id in Of(records, CASE) && CaseFault(records, Of(records, CASE)[v.id], v.id, v)
  }

  /** `_check_case_closure` */
  method CheckCases(records: Records) returns (vs: seq<Violation>)
    ensures forall v :: v in vs <==> CasesFault(records, v)
    ensures vs == [] <==> CasesOk(records)
  {
    vs := [];
    var cases := Of(records, CASE);
    var cids := InOrder(cases.Keys);
    for i := 0 to |cids|
      invariant forall cid :: cid in SetOf(cids[..i]) ==> cid in cases
      invariant forall v :: v in vs <==> CasesFault(records, v) && v.id in SetOf(cids[..i])
      invariant vs == [] <==> forall cid :: cid in SetOf(cids[..i]) ==> CaseOk(records, cases[cid])
    {
      assert cids[i] in SetOf(cids);
      SetOfStep(cids, i);
      var found := CheckCase(records, cases[cids[i]], cids[i]);
      vs := vs + found;
    }
    TakeAll(cids);
  }

  function ReceiptViolation(rid: Text): Violation
  {
    Violation(UnauthorizedExport, EXPORT_RECEIPT, rid, [], [], [])
  }

  /** The violation of a receipt that its decision does not allow. */
  predicate ReceiptFault(records: Records, v: Violation)
  {
    && v.Violation? && v == ReceiptViolation(v.id)
    && v.id in Of(records, EXPORT_RECEIPT) && !ReceiptOk(records, Of(records, EXPORT_RECEIPT)[v.id])
  }

  /** The violations among the first receipts. */
  ghost predicate ReceiptViolations(records: Records, rids: seq<Text>, vs: seq<Violation>)
  {
    Distinct(vs) && forall v :: v in vs <==> ReceiptFault(records, v) && v.id in rids
  }

  lemma NextReceipt(records: Records, rids: seq<Text>, rid: Text, vs: seq<Violation>)
    requires ReceiptViolations(records, rids, vs) && rid !in rids && rid in Of(records, EXPORT_RECEIPT)
    ensures ReceiptViolations(records, rids + [rid],
      if ReceiptOk(records, Of(records, EXPORT_RECEIPT)[rid]) then vs else vs + [ReceiptViolation(rid)])
  {
    var own := ReceiptViolation(rid);
    assert own !in vs;
    assert forall v: Violation :: v.Violation? && v == ReceiptViolation(v.id) && v.id == rid ==> v == own;
  }

  /** `_check_export_authorization`: one violation for each offending receipt, and no other. */
  method CheckReceipts(records: Records) returns (vs: seq<Violation>)
    ensures Distinct(vs)
    ensures forall v :: v in vs <==> ReceiptFault(records, v)
    ensures vs == [] <==> ReceiptsOk(records)
  {
    vs := [];
    var receipts := Of(records, EXPORT_RECEIPT);
    var rids := Sorted(receipts.Keys);
    for i := 0 to |rids|
      invariant ReceiptViolations(records, rids[..i], vs)
    {
      assert rids[i] in rids && rids[i] !in rids[..i];
      TakeStep(rids, i);
      NextReceipt(records, rids[..i], rids[i], vs);
      if !ReceiptOk(records, receipts[rids[i]]) { vs := vs + [ReceiptViolation(rids[i])]; }
    }
    TakeAll(rids);
    NoReceiptFault(records);
    EmptyIffNone(vs);
  }

  lemma NoReceiptFault(records: Records)
    ensures (forall v :: !ReceiptFault(records, v)) <==> ReceiptsOk(records)
  {
    forall rid | rid in Of(records, EXPORT_RECEIPT) && !ReceiptOk(records, Of(records, EXPORT_RECEIPT)[rid])
      ensures exists v :: ReceiptFault(records, v)
    {
      assert ReceiptFault(records, ReceiptViolation(rid));
    }
  }

  // ---------------------------------------------------------------------
  // All checks
  // ---------------------------------------------------------------------

  method CycleViolations(cycles: seq<seq<Text>>) returns (vs: seq<Violation>)
    ensures |vs| == |cycles| && forall i :: 0 <= i < |vs| ==> vs[i] == LineageCycle(cycles[i])
  {
    vs := [];
    for i := 0 to |cycles|
      invariant |vs| == i && forall j :: 0 <= j < i ==> vs[j] == LineageCycle(cycles[j])
    {
      vs := vs + [LineageCycle(cycles[i])];
    }
  }

  /** What is wrong with the record set, cycles apart. */
  ghost predicate Fault(g: Registry, records: Records, v: Violation)
  {
    || IdFault(records, v) || FamiliesFault(g, records, v) || LinkFault(g, records, v)
    || CasesFault(records, v) || ReceiptFault(records, v)
  }

  /** The reported cycles are loops of these edges, apart from each other, and go through every node on a cycle. */
  ghost predicate ReportsCycles(edges: L.Edges, vs: seq<Violation>)
  {
    && (forall v :: v in vs && v.LineageCycle? ==> L.IsLoop(edges, v.path))
    && (forall n :: L.OnCycle(edges, n) <==> exists v: Violation :: v in vs && v.LineageCycle? && n in v.path)
  }

  /**
   `check_record_graph`: every fault is reported and nothing else; the reported
   cycles are those of the accepted `supersedes` edges; and nothing is reported
   if and only if the record set is sound.
   */
  method CheckRecordGraph(g: Registry, records: Records) returns (vs: seq<Violation>)
    requires PairsSymmetric(g)
    ensures forall v: Violation :: v.Violation? ==> (v in vs <==> Fault(g, records, v))
    ensures ReportsCycles(AllEdges(g, records, Sorted(records.Keys)), vs)
    ensures vs == [] <==> Sound(g, records)
  {
    var ids := CheckIds(records);
    var listing := Sorted(records.Keys);
    assert SetOf(listing) == records.Keys;
    var families, edges := CheckFamilies(g, records, listing);
    var pairs := CheckPairs(g, records);
    var cases := CheckCases(records);
    var receipts := CheckReceipts(records);
    var found := L.FindLineageCycles(edges);
    var cycles := CycleViolations(found);
    var faults := ids + families + pairs + cases + receipts;
    vs := faults + cycles;
    AllFaults(g, records, ids, families, pairs, cases, receipts);
    CyclesReported(edges, found, faults, cycles);
    FaultsThenCycles(faults, cycles);
    NoneFound(edges, found);
    NothingIsSound(g, records, ids, families, pairs, cases, receipts, listing, edges);
  }

  lemma FaultsThenCycles(faults: seq<Violation>, cycles: seq<Violation>)
    requires forall v :: v in cycles ==> v.LineageCycle?
    ensures forall v: Violation :: v.Violation? ==> (v in faults + cycles <==> v in faults)
  {}

  /** No findings anywhere is soundness. */
  lemma NothingIsSound(g: Registry, records: Records, ids: seq<Violation>, families: seq<Violation>, pairs: seq<Violation>,
                       cases: seq<Violation>, receipts: seq<Violation>, fs: seq<Text>, edges: L.Edges)
    requires ids == [] <==> UniqueIds(records)
    requires families == [] <==> forall f :: f in records ==> FamilyOk(g, records, f)
    requires (pairs == [] <==> PairsOk(g, records)) && (cases == [] <==> CasesOk(records)) && (receipts == [] <==> ReceiptsOk(records))
    requires SetOf(fs) == records.Keys && edges == AllEdges(g, records, fs)
    ensures ids + families + pairs + cases + receipts == [] && (forall n :: !L.OnCycle(edges, n)) <==> Sound(g, records)
  {
    if ids == [] && families == [] { CyclesOfSound(g, records, fs, edges); }
  }

  lemma AllFaults(g: Registry, records: Records, ids: seq<Violation>, families: seq<Violation>, pairs: seq<Violation>,
                  cases: seq<Violation>, receipts: seq<Violation>)
    requires forall v :: v in ids <==> IdFault(records, v)
    requires forall v :: v in families <==> FamiliesFault(g, records, v)
    requires forall v :: v in pairs <==> LinkFault(g, records, v)
    requires forall v :: v in cases <==> CasesFault(records, v)
    requires forall v :: v in receipts <==> ReceiptFault(records, v)
    ensures forall v :: v in ids + families + pairs + cases + receipts <==> Fault(g, records, v)
    ensures forall v :: v in ids + families + pairs + cases + receipts ==> v.Violation?
  {}

  lemma CyclesReported(edges: L.Edges, found: seq<seq<Text>>, faults: seq<Violation>, cycles: seq<Violation>)
    requires forall i :: 0 <= i < |found| ==> L.IsLoop(edges, found[i])
    requires forall n :: L.OnCycle(edges, n) <==> L.InSome(found, n)
    requires forall v :: v in faults ==> v.Violation?
    requires |cycles| == |found| && forall i :: 0 <= i < |cycles| ==> cycles[i] == LineageCycle(found[i])
    ensures ReportsCycles(edges, faults + cycles)
  {
    var vs := faults + cycles;
    forall v | v in vs && v.LineageCycle? ensures L.IsLoop(edges, v.path) {
      var i :| 0 <= i < |cycles| && cycles[i] == v;
    }
    forall n ensures L.InSome(found, n) <==> exists v: Violation :: v in vs && v.LineageCycle? && n in v.path {
      if L.InSome(found, n) {
        var i :| 0 <= i < |found| && n in found[i];
        assert cycles[i] in vs && cycles[i].path == found[i];
      }
      if v: Violation :| v in vs && v.LineageCycle? && n in v.path {
        var i :| 0 <= i < |cycles| && cycles[i] == v;
        assert n in found[i];
      }
    }
  }

  /** Without faults in families and ids, the accepted edges have the families' own cycles. */
  lemma CyclesOfSound(g: Registry, records: Records, fs: seq<Text>, edges: L.Edges)
    requires UniqueIds(records) && (forall f :: f in records ==> FamilyOk(g, records, f))
    requires SetOf(fs) == records.Keys && edges == AllEdges(g, records, fs)
    ensures Acyclic(g, records) <==> forall n :: !L.OnCycle(edges, n)
  {
    forall f | f in fs ensures f in records { assert f in SetOf(fs); }
    AllEdgesMerged(g, records, fs);
    MergedCycles(g, records, fs);
  }

  lemma NoneFound(edges: L.Edges, found: seq<seq<Text>>)
    requires forall i :: 0 <= i < |found| ==> L.IsLoop(edges, found[i])
    requires forall n :: L.OnCycle(edges, n) <==> L.InSome(found, n)
    ensures found == [] <==> forall n :: !L.OnCycle(edges, n)
  {
    if found != [] {
      assert L.IsLoop(edges, found[0]) && found[0][0] in found[0];
      assert L.InSome(found, found[0][0]);
    }
  }
}
