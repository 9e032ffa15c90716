/**
 Cross-record checks over a record set: what a store without violations is, and
 what that gives over whole chains, link components and case packages.
 */
module Graph {
  import opened Texts
  import L = LineageCycles

  // ---------------------------------------------------------------------
  // Records and the family registry
  // ---------------------------------------------------------------------

  datatype Ref = Ref(target: Text, pin: Option<Text>)

  /** A record as the graph sees it: hash, `supersedes`, the references its fields name, its scalar fields. */
  datatype Node = Node(sha: Text, supersedes: Option<Text>, refs: map<Text, seq<Ref>>, scalars: map<Text, Text>)

  type Family = map<Text, Node>
  type Records = map<Text, Family>

  datatype Shape = AnObject | ObjectArray | ScalarArray
  datatype Reference = Reference(field: Text, shape: Shape, target: Text, twoWayWith: Option<Text>)
  datatype Scope = WholeFamily | SameAnchor(field: Text)
  datatype Contract = Contract(supersedes: Option<Scope>, references: seq<Reference>)
  type Registry = map<Text, Contract>

  function Ascii(s: string): Text
  {
    seq(|s|, i requires 0 <= i < |s| => s[i] as int)
  }

  const CLAIM := Ascii("research-claim/v1")
  const EVIDENCE := Ascii("research-evidence/v1")
  const RUN := Ascii("research-run/v1")
  const OBSERVATION := Ascii("research-failure-observation/v1")
  const ANALYSIS := Ascii("research-failure-analysis/v1")
  const CASE := Ascii("research-case-package/v1")
  const TASK := Ascii("research-task/v1")
  const EXPORT_DECISION := Ascii("export-decision/v1")
  const EXPORT_RECEIPT := Ascii("export-receipt/v1")

  const F_SUPPORT := Ascii("supporting_evidence")
  const F_CLAIM_IDS := Ascii("claim_ids")
  const F_TASK := Ascii("task")
  const F_RUN := Ascii("run")
  const F_RUNS := Ascii("runs")
  const F_CLAIMS := Ascii("claims")
  const F_EVIDENCE := Ascii("evidence")
  const F_OBSERVATION := Ascii("observation")
  const F_OBSERVATIONS := Ascii("observations")
  const F_ANALYSES := Ascii("analyses")
  const F_DECISION := Ascii("decision")
  const F_OUTCOME := Ascii("outcome")
  const F_MODE := Ascii("export_mode")
  const DENY := Ascii("deny")

  /** `records.get(family, {})` */
  function Of(records: Records, family: Text): Family
  {
    if family in records then records[family] else map[]
  }

  function RefsOf(n: Node, field: Text): seq<Ref>
  {
    if field in n.refs then n.refs[field] else []
  }

  function Scalar(n: Node, field: Text): Text
  {
    if field in n.scalars then n.scalars[field] else []
  }

  function Targets(n: Node, field: Text): set<Text>
  {
    set i | 0 <= i < |RefsOf(n, field)| :: RefsOf(n, field)[i].target
  }

  /** The id a single-object field names; schema validation put it there. */
  function TargetOf(n: Node, field: Text): Text
  {
    if RefsOf(n, field) == [] then [] else RefsOf(n, field)[0].target
  }

  // ---------------------------------------------------------------------
  // No violations
  // ---------------------------------------------------------------------

  ghost predicate UniqueIds(records: Records)
  {
    forall f, g, id :: f in records && g in records && f != g && id in records[f] ==> id !in records[g]
  }

  predicate SupersedesOk(scope: Option<Scope>, family: Family, id: Text)
    requires id in family
  {
    scope.Some? && family[id].supersedes.Some? ==>
      var t := family[id].supersedes.value;
      && t != id && t in family
      && (scope.value.SameAnchor? ==>
           TargetOf(family[id], scope.value.field) == TargetOf(family[t], scope.value.field))
  }

  predicate RefOk(records: Records, c: Reference, r: Ref)
  {
    && r.target in Of(records, c.target)
    && (r.pin.Some? ==> r.pin.value == Of(records, c.target)[r.target].sha)
  }

  ghost predicate FieldOk(records: Records, c: Reference, n: Node)
  {
    var refs := RefsOf(n, c.field);
    && (!c.shape.AnObject? ==> forall i, j :: 0 <= i < j < |refs| ==> refs[i].target != refs[j].target)
    && forall i :: 0 <= i < |refs| ==> RefOk(records, c, refs[i])
  }

  ghost predicate RecordOk(records: Records, c: Contract, family: Family, id: Text)
    requires id in family
  {
    && SupersedesOk(c.supersedes, family, id)
    && forall i :: 0 <= i < |c.references| ==> FieldOk(records, c.references[i], family[id])
  }

  ghost predicate FamilyOk(g: Registry, records: Records, f: Text)
    requires f in records
  {
    f in g ==> forall id :: id in records[f] ==> RecordOk(records, g[f], records[f], id)
  }

  /** Whoever lists is listed back. */
  ghost predicate ListedBack(a: Family, aField: Text, b: Family, bField: Text)
  {
    forall x, y :: x in a && y in b && y in Targets(a[x], aField) ==> x in Targets(b[y], bField)
  }

  ghost predicate PairOk(records: Records, f: Text, c: Reference)
  {
    c.twoWayWith.Some? ==>
      && ListedBack(Of(records, f), c.field, Of(records, c.target), c.twoWayWith.value)
      && ListedBack(Of(records, c.target), c.twoWayWith.value, Of(records, f), c.field)
  }

  ghost predicate PairsOk(g: Registry, records: Records)
  {
    forall f, i :: f in g && 0 <= i < |g[f].references| ==> PairOk(records, f, g[f].references[i])
  }

  /** Rule 1 for one member analysis; absent records are skipped, their references dangle. */
  predicate AnalysisInside(records: Records, n: Node, aid: Text)
  {
    aid in Of(records, ANALYSIS) ==>
      var oid := TargetOf(Of(records, ANALYSIS)[aid], F_OBSERVATION);
      && oid in Targets(n, F_OBSERVATIONS)
      && (oid in Of(records, OBSERVATION) ==>
           var rid := TargetOf(Of(records, OBSERVATION)[oid], F_RUN);
           && rid in Targets(n, F_RUNS)
           && (rid in Of(records, RUN) ==> TargetOf(Of(records, RUN)[rid], F_TASK) == TargetOf(n, F_TASK)))
  }

  /** Rules 2 and 3: what a member lists across the claim/evidence link is a member. */
  predicate ListsInside(family: Family, field: Text, id: Text, members: set<Text>)
  {
    id in family ==> Targets(family[id], field) <= members
  }

  ghost predicate CaseOk(records: Records, n: Node)
  {
    && (forall aid :: aid in Targets(n, F_ANALYSES) ==> AnalysisInside(records, n, aid))
    && (forall x :: x in Targets(n, F_CLAIMS) ==> ListsInside(Of(records, CLAIM), F_SUPPORT, x, Targets(n, F_EVIDENCE)))
    && (forall x :: x in Targets(n, F_EVIDENCE) ==> ListsInside(Of(records, EVIDENCE), F_CLAIM_IDS, x, Targets(n, F_CLAIMS)))
  }

  ghost predicate CasesOk(records: Records)
  {
    forall cid :: cid in Of(records, CASE) ==> CaseOk(records, Of(records, CASE)[cid])
  }

  predicate ReceiptOk(records: Records, n: Node)
  {
    TargetOf(n, F_DECISION) in Of(records, EXPORT_DECISION) ==>
      var d := Of(records, EXPORT_DECISION)[TargetOf(n, F_DECISION)];
      Scalar(d, F_OUTCOME) != DENY && Scalar(n, F_MODE) == Scalar(d, F_MODE)
  }

  ghost predicate ReceiptsOk(records: Records)
  {
    forall rid :: rid in Of(records, EXPORT_RECEIPT) ==> ReceiptOk(records, Of(records, EXPORT_RECEIPT)[rid])
  }

  /** The `supersedes` edges within one family. */
  function LineageOf(g: Registry, records: Records, f: Text): L.Edges
  {
    if f in g && g[f].supersedes.Some? then
      var all := Of(records, f);
      map id | id in all && all[id].supersedes.Some? :: all[id].supersedes.value
    else map[]
  }

  ghost predicate Acyclic(g: Registry, records: Records)
  {
    forall f, id :: f in records && id in records[f] ==> !L.OnCycle(LineageOf(g, records, f), id)
  }

  /** What `check_record_graph` finding nothing means. */
  ghost predicate Sound(g: Registry, records: Records)
  {
    && UniqueIds(records)
    && (forall f :: f in records ==> FamilyOk(g, records, f))
    && PairsOk(g, records) && CasesOk(records) && ReceiptsOk(records)
    && Acyclic(g, records)
  }

  // ---------------------------------------------------------------------
  // Lineage chains end
  // ---------------------------------------------------------------------

  /** In a sound store an ancestor is a record of the same family. */
  lemma {:induction false} AncestorsInFamily(g: Registry, records: Records, f: Text, id: Text, k: nat)
    requires Sound(g, records) && f in records && id in records[f]
    ensures var up := L.After(LineageOf(g, records, f), id, k); up.Some? ==> up.value in records[f]
  {
    if k > 0 {
      AncestorsInFamily(g, records, f, id, k - 1);
      var a := L.After(LineageOf(g, records, f), id, k - 1);
      if a.Some? && f in g {
        assert FamilyOk(g, records, f);
        assert RecordOk(records, g[f], records[f], a.value);
      }
    }
  }

  lemma {:induction false} EarlierExists(edges: L.Edges, id: Text, j: nat, k: nat)
    requires j <= k && L.After(edges, id, k).Some?
    ensures L.After(edges, id, j).Some?
  {
    if j < k { EarlierExists(edges, id, j, k - 1); }
  }

  /** The first n nodes of a chain. */
  lemma {:induction false} Trail(edges: L.Edges, id: Text, n: nat) returns (t: seq<Text>)
    requires n > 0 ==> L.After(edges, id, n - 1).Some?
    ensures |t| == n && forall i :: 0 <= i < n ==> L.After(edges, id, i) == Some(t[i])
    decreases n
  {
    t := [];
    if n > 0 {
      if n > 1 { EarlierExists(edges, id, n - 2, n - 1); }
      t := Trail(edges, id, n - 1);
      t := t + [L.After(edges, id, n - 1).value];
    }
  }

  /** A chain longer than the set it stays in meets a node twice. */
  lemma LongChainReturns(edges: L.Edges, id: Text, all: set<Text>)
    requires L.After(edges, id, |all|).Some?
    requires forall k: nat :: L.After(edges, id, k).Some? ==> L.After(edges, id, k).value in all
    ensures exists x :: x in all && L.OnCycle(edges, x)
  {
    var t := Trail(edges, id, |all| + 1);
    forall x | x in t ensures x in all {
      var i :| 0 <= i < |t| && t[i] == x;
      assert L.After(edges, id, i) == Some(x);
    }
    var i, j := SomeRepeat(t, all);
    L.AfterAdds(edges, id, i, j - i);
    assert t[i] in t && L.OnCycle(edges, t[i]);
  }

  lemma ChainIsShort(g: Registry, records: Records, f: Text, id: Text)
    requires Sound(g, records) && f in records && id in records[f]
    ensures L.After(LineageOf(g, records, f), id, |records[f]|).None?
  {
    var edges, all := LineageOf(g, records, f), records[f].Keys;
    if L.After(edges, id, |records[f]|).Some? {
      forall k: nat | L.After(edges, id, k).Some? ensures L.After(edges, id, k).value in all {
        AncestorsInFamily(g, records, f, id, k);
      }
      LongChainReturns(edges, id, all);
    }
  }

  lemma {:induction false} LastOfChain(edges: L.Edges, id: Text, n: nat) returns (k: nat)
    requires L.After(edges, id, n).None?
    ensures k < n && L.After(edges, id, k).Some? && L.After(edges, id, k).value !in edges
    decreases n
  {
    if L.After(edges, id, n - 1).None? { k := LastOfChain(edges, id, n - 1); } else { k := n - 1; }
  }

  ghost predicate EndsAt(family: Family, root: Option<Text>)
  {
    root.Some? && root.value in family && family[root.value].supersedes.None?
  }

  /**
   In a store without violations every `supersedes` chain ends at a record that
   supersedes nothing, after fewer steps than its family has records.
   */
  lemma ChainsEnd(g: Registry, records: Records, f: Text, id: Text)
    requires Sound(g, records) && f in records && id in records[f]
    requires f in g && g[f].supersedes.Some?
    ensures exists k: nat :: k < |records[f]| && EndsAt(records[f], L.After(LineageOf(g, records, f), id, k))
  {
    ChainIsShort(g, records, f, id);
    var k := LastOfChain(LineageOf(g, records, f), id, |records[f]|);
    AncestorsInFamily(g, records, f, id, k);
  }

  /** On an anchor-scoped chain all records name the same anchor. */
  lemma {:induction false} ChainSharesAnchor(g: Registry, records: Records, f: Text, id: Text, k: nat)
    requires Sound(g, records) && f in records && id in records[f]
    requires f in g && g[f].supersedes.Some? && g[f].supersedes.value.SameAnchor?
    ensures var a := L.After(LineageOf(g, records, f), id, k); var field := g[f].supersedes.value.field;
      a.Some? ==> a.value in records[f] && TargetOf(records[f][a.value], field) == TargetOf(records[f][id], field)
  {
    AncestorsInFamily(g, records, f, id, k);
    if k > 0 {
      ChainSharesAnchor(g, records, f, id, k - 1);
      var b := L.After(LineageOf(g, records, f), id, k - 1);
      if b.Some? {
        assert FamilyOk(g, records, f);
        assert RecordOk(records, g[f], records[f], b.value);
      }
    }
  }

  // ---------------------------------------------------------------------
  // Case packages
  // ---------------------------------------------------------------------

  predicate HasReference(g: Registry, f: Text, c: Reference)
  {
    f in g && exists i :: 0 <= i < |g[f].references| && g[f].references[i] == c
  }

  /** The claim/evidence pair as registered: the only two-way link. */
  ghost predicate LinksRegistered(g: Registry)
  {
    && HasReference(g, CLAIM, Reference(F_SUPPORT, ObjectArray, EVIDENCE, Some(F_CLAIM_IDS)))
    && HasReference(g, EVIDENCE, Reference(F_CLAIM_IDS, ScalarArray, CLAIM, Some(F_SUPPORT)))
  }

  datatype Member = AClaim(id: Text) | AnEvidence(id: Text)

  /** x is a record that lists y across the link. */
  ghost predicate Lists(records: Records, x: Member, y: Member)
  {
    match x
    case AClaim(a) => y.AnEvidence? && a in Of(records, CLAIM) && y.id in Targets(Of(records, CLAIM)[a], F_SUPPORT)
    case AnEvidence(b) => y.AClaim? && b in Of(records, EVIDENCE) && y.id in Targets(Of(records, EVIDENCE)[b], F_CLAIM_IDS)
  }

  /** A path in the link graph, taken in either direction. */
  ghost predicate IsLinkPath(records: Records, p: seq<Member>)
  {
    && p != []
    && (|p| > 1 ==> (Lists(records, p[0], p[1]) || Lists(records, p[1], p[0])) && IsLinkPath(records, p[1..]))
  }

  predicate InCase(n: Node, x: Member)
  {
    match x
    case AClaim(id) => id in Targets(n, F_CLAIMS)
    case AnEvidence(id) => id in Targets(n, F_EVIDENCE)
  }

  lemma RegisteredRefOk(g: Registry, records: Records, f: Text, c: Reference, id: Text, target: Text)
    requires Sound(g, records) && HasReference(g, f, c) && id in Of(records, f)
    requires target in Targets(Of(records, f)[id], c.field)
    ensures target in Of(records, c.target)
  {
    assert FamilyOk(g, records, f);
    assert RecordOk(records, g[f], records[f], id);
    var i :| 0 <= i < |g[f].references| && g[f].references[i] == c;
    assert FieldOk(records, g[f].references[i], records[f][id]);
    var j :| 0 <= j < |RefsOf(records[f][id], c.field)| && RefsOf(records[f][id], c.field)[j].target == target;
    assert RefOk(records, c, RefsOf(records[f][id], c.field)[j]);
  }

  /** Links are symmetric in a sound store. */
  lemma ListsBack(g: Registry, records: Records, x: Member, y: Member)
    requires Sound(g, records) && LinksRegistered(g) && Lists(records, x, y)
    ensures Lists(records, y, x)
  {
    if x.AClaim? {
      var c := Reference(F_SUPPORT, ObjectArray, EVIDENCE, Some(F_CLAIM_IDS));
      RegisteredRefOk(g, records, CLAIM, c, x.id, y.id);
      PairRegistered(g, records, CLAIM, c);
    } else {
      var c := Reference(F_CLAIM_IDS, ScalarArray, CLAIM, Some(F_SUPPORT));
      RegisteredRefOk(g, records, EVIDENCE, c, x.id, y.id);
      PairRegistered(g, records, EVIDENCE, c);
    }
  }

  lemma PairRegistered(g: Registry, records: Records, f: Text, c: Reference)
    requires PairsOk(g, records) && HasReference(g, f, c)
    ensures PairOk(records, f, c)
  {
    var i :| 0 <= i < |g[f].references| && g[f].references[i] == c;
    assert PairOk(records, f, g[f].references[i]);
  }

  lemma NeighbourInside(g: Registry, records: Records, cid: Text, x: Member, y: Member)
    requires Sound(g, records) && LinksRegistered(g) && cid in Of(records, CASE)
    requires Lists(records, x, y) || Lists(records, y, x)
    ensures InCase(Of(records, CASE)[cid], x) ==> InCase(Of(records, CASE)[cid], y)
  {
    if Lists(records, y, x) { ListsBack(g, records, y, x); }
    var n := Of(records, CASE)[cid];
    assert CaseOk(records, n);
    if InCase(n, x) {
      if x.AClaim? {
        assert ListsInside(Of(records, CLAIM), F_SUPPORT, x.id, Targets(n, F_EVIDENCE));
      } else {
        assert ListsInside(Of(records, EVIDENCE), F_CLAIM_IDS, x.id, Targets(n, F_CLAIMS));
      }
    }
  }

  /**
   The claims and evidence of a case are whole connected components of the link
   graph: along any path, one end is in the package if and only if the other is.
   */
  lemma {:induction false} CaseHoldsWholeComponents(g: Registry, records: Records, cid: Text, p: seq<Member>)
    requires Sound(g, records) && LinksRegistered(g) && cid in Of(records, CASE) && IsLinkPath(records, p)
    ensures var n := Of(records, CASE)[cid]; InCase(n, p[0]) <==> InCase(n, p[|p| - 1])
  {
    if |p| > 1 {
      NeighbourInside(g, records, cid, p[0], p[1]);
      NeighbourInside(g, records, cid, p[1], p[0]);
      CaseHoldsWholeComponents(g, records, cid, p[1..]);
    }
  }

  /** The references of the anchor chain as registered. */
  ghost predicate ChainRegistered(g: Registry)
  {
    && HasReference(g, CASE, Reference(F_ANALYSES, ObjectArray, ANALYSIS, None))
    && HasReference(g, ANALYSIS, Reference(F_OBSERVATION, AnObject, OBSERVATION, None))
    && HasReference(g, OBSERVATION, Reference(F_RUN, AnObject, RUN, None))
    && HasReference(g, RUN, Reference(F_TASK, AnObject, TASK, None))
  }

  /** Schema validation: a single-object field of a registered family names one record. */
  ghost predicate Shaped(g: Registry, records: Records)
  {
    forall f, i, id :: f in g && f in records && 0 <= i < |g[f].references| && id in records[f] ==>
      g[f].references[i].shape.AnObject? ==> |RefsOf(records[f][id], g[f].references[i].field)| == 1
  }

  lemma ObjectTarget(g: Registry, records: Records, f: Text, c: Reference, id: Text)
    requires Sound(g, records) && Shaped(g, records) && HasReference(g, f, c) && c.shape.AnObject? && id in Of(records, f)
    ensures TargetOf(Of(records, f)[id], c.field) in Of(records, c.target)
  {
    var i :| 0 <= i < |g[f].references| && g[f].references[i] == c;
    assert |RefsOf(records[f][id], g[f].references[i].field)| == 1;
    var t := RefsOf(records[f][id], c.field)[0].target;
    assert t in Targets(records[f][id], c.field);
    RegisteredRefOk(g, records, f, c, id, t);
  }

  /**
   A member analysis is in the store with its whole anchor chain, and the chain's
   observation, run and task are those of the package.
   */
  lemma MemberAnalysisIsPackaged(g: Registry, records: Records, cid: Text, aid: Text)
    requires Sound(g, records) && Shaped(g, records) && ChainRegistered(g)
    requires cid in Of(records, CASE) && aid in Targets(Of(records, CASE)[cid], F_ANALYSES)
    ensures var n := Of(records, CASE)[cid];
      && aid in Of(records, ANALYSIS)
      && var oid := TargetOf(Of(records, ANALYSIS)[aid], F_OBSERVATION);
      && oid in Targets(n, F_OBSERVATIONS) && oid in Of(records, OBSERVATION)
      && var rid := TargetOf(Of(records, OBSERVATION)[oid], F_RUN);
      && rid in Targets(n, F_RUNS) && rid in Of(records, RUN)
      && TargetOf(Of(records, RUN)[rid], F_TASK) == TargetOf(n, F_TASK) && TargetOf(n, F_TASK) in Of(records, TASK)
  {
    var n := Of(records, CASE)[cid];
    assert CaseOk(records, n) && AnalysisInside(records, n, aid);
    RegisteredRefOk(g, records, CASE, Reference(F_ANALYSES, ObjectArray, ANALYSIS, None), cid, aid);
    ObjectTarget(g, records, ANALYSIS, Reference(F_OBSERVATION, AnObject, OBSERVATION, None), aid);
    var oid := TargetOf(Of(records, ANALYSIS)[aid], F_OBSERVATION);
    ObjectTarget(g, records, OBSERVATION, Reference(F_RUN, AnObject, RUN, None), oid);
    var rid := TargetOf(Of(records, OBSERVATION)[oid], F_RUN);
    ObjectTarget(g, records, RUN, Reference(F_TASK, AnObject, TASK, None), rid);
  }

  // ---------------------------------------------------------------------
  // What closure does not follow
  // ---------------------------------------------------------------------

  /** No member analysis that is in the store anchors this observation. */
  ghost predicate Unanchored(records: Records, n: Node, oid: Text)
  {
    forall aid :: aid in Targets(n, F_ANALYSES) && aid in Of(records, ANALYSIS) ==>
      TargetOf(Of(records, ANALYSIS)[aid], F_OBSERVATION) != oid
  }

  /**
   Closure does not look at a member observation that no member analysis anchors:
   whatever that observation says about its run, the case passes or fails alike.
   */
  lemma UnanchoredObservationIgnored(records: Records, n: Node, oid: Text, other: Node)
    requires OBSERVATION in records && Unanchored(records, n, oid)
    ensures CaseOk(records, n) <==> CaseOk(records[OBSERVATION := records[OBSERVATION][oid := other]], n)
  {
    var changed := records[OBSERVATION := records[OBSERVATION][oid := other]];
    FamilyNames();
    assert Of(changed, ANALYSIS) == Of(records, ANALYSIS) && Of(changed, RUN) == Of(records, RUN);
    assert Of(changed, CLAIM) == Of(records, CLAIM) && Of(changed, EVIDENCE) == Of(records, EVIDENCE);
    forall aid | aid in Targets(n, F_ANALYSES) ensures AnalysisInside(records, n, aid) <==> AnalysisInside(changed, n, aid) {
      if aid in Of(records, ANALYSIS) {
        var o := TargetOf(Of(records, ANALYSIS)[aid], F_OBSERVATION);
        assert o != oid;
        assert o in Of(records, OBSERVATION) <==> o in Of(changed, OBSERVATION);
      }
    }
  }

  /** The families closure reads are different families. */
  lemma FamilyNames()
    ensures OBSERVATION != ANALYSIS && OBSERVATION != RUN && OBSERVATION != CLAIM && OBSERVATION != EVIDENCE
  {
    assert |OBSERVATION| == 31 && |ANALYSIS| == 28 && |RUN| == 15 && |CLAIM| == 17 && |EVIDENCE| == 20;
  }
}
