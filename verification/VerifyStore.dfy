/**
 `verify_record_graph`: reconciliation and the cross-record checks in one
 report, and what a report without violations says about the disk.
 */
module VerifyStore {
  import opened Texts
  import opened Manifest
  import opened Store
  import P = Publication
  import G = Graph
  import GC = GraphCheck

  datatype Finding = OnDisk(problem: Problem) | AcrossRecords(violation: GC.Violation)

  /** The records as the graph sees them; reading references out of a record's data is handed in. */
  function NodesOf(nodeOf: Record -> G.Node, catalog: Catalog): G.Records
  {
    map f | f in catalog :: NodesIn(nodeOf, catalog[f])
  }

  function NodesIn(nodeOf: Record -> G.Node, family: map<Text, Record>): G.Family
  {
    map id | id in family :: nodeOf(family[id])
  }

  /** The record graph of the files on a disk. */
  ghost function GraphOn(k: Kernel, nodeOf: Record -> G.Node, files: map<Text, Text>): G.Records
    requires OwnKeys(k, Readable(k, files))
  {
    NodesOf(nodeOf, CatalogOf(k, Readable(k, files)))
  }

  /** Nothing is wrong with the disk: a clean store, or a root in which nothing was written yet. */
  ghost predicate Intact(k: Kernel, d: Disk) { HasShape(k, d, None) || Bare(d) }

  function Findings(problems: seq<Problem>, vs: seq<GC.Violation>): (r: seq<Finding>)
    ensures |r| == |problems| + |vs|
    ensures forall p :: p in problems <==> OnDisk(p) in r
    ensures forall v :: v in vs <==> AcrossRecords(v) in r
  {
    var a := seq(|problems|, i requires 0 <= i < |problems| => OnDisk(problems[i]));
    var b := seq(|vs|, i requires 0 <= i < |vs| => AcrossRecords(vs[i]));
    assert forall i :: 0 <= i < |problems| ==> (a + b)[i] == OnDisk(problems[i]);
    assert forall i :: 0 <= i < |vs| ==> (a + b)[|a| + i] == AcrossRecords(vs[i]);
    a + b
  }

  /**
   The report is free of violations if and only if the disk is intact and the
   records in its files form a sound graph.
   */
  method VerifyRecordGraph(k: Kernel, g: G.Registry, nodeOf: Record -> G.Node, d: Disk) returns (report: seq<Finding>)
    requires DiskOk(d) && GC.PairsSymmetric(g)
    ensures report == [] <==>
      Intact(k, d) && OwnKeys(k, Readable(k, d.files)) && G.Sound(g, GraphOn(k, nodeOf, d.files))
  {
    var problems, catalog, entries := ReconcileStore(k, d);
    var violations := GC.CheckRecordGraph(g, NodesOf(nodeOf, catalog));
    report := Findings(problems, violations);
  }

  // ---------------------------------------------------------------------
  // The graph's records are the manifest's
  // ---------------------------------------------------------------------

  /** The catalog has this record under its family and id, and e is its entry. */
  predicate Cataloged(k: Kernel, catalog: Catalog, f: Text, id: Text, e: Entry)
  {
    && f in catalog && id in catalog[f] && Identity(k, catalog[f][id]).Some?
    && e == EntryOf(k, catalog[f][id]) && (e.family, e.id) == (f, id)
  }

  lemma EntryIsCataloged(k: Kernel, disk: map<Text, Record>, rel: Text)
    requires OwnKeys(k, disk) && rel in disk
    ensures var e := EntryOf(k, disk[rel]); Cataloged(k, CatalogOf(k, disk), e.family, e.id, e)
  {
    FamilyHolds(k, disk, rel);
    CatalogKeys(k, disk);
  }

  lemma CatalogedRecord(k: Kernel, disk: map<Text, Record>, f: Text, id: Text) returns (rel: Text)
    requires OwnKeys(k, disk) && f in CatalogOf(k, disk) && id in CatalogOf(k, disk)[f]
    ensures rel in disk && KeyOf(k, disk[rel]) == (f, id) && CatalogOf(k, disk)[f][id] == disk[rel]
  {
    CatalogKeys(k, disk);
    rel := FamilyFrom(k, disk, f, id);
  }

  lemma FilesHaveOwnKeys(k: Kernel, files: map<Text, Text>)
    requires AllUsable(k, files) && DistinctIds(k, files)
    ensures OwnKeys(k, Readable(k, files)) && Readable(k, files).Keys == files.Keys
  {
    var disk := Readable(k, files);
    forall a, b | a in disk && b in disk ensures !Clash(k, disk, a, b) {
      assert !SameIds(k, files, a, b);
    }
  }

  lemma ReadableRecord(k: Kernel, files: map<Text, Text>, rel: Text)
    requires rel in files && RecordAt(k, rel, files[rel]).Some?
    ensures rel in Readable(k, files) && Readable(k, files)[rel] == RecordAt(k, rel, files[rel]).value
  {}

  lemma ListedIsCataloged(k: Kernel, d: Disk, es: seq<Entry>, e: Entry)
    requires P.KernelOk(k) && StoreIs(k, d, es, None) && OwnKeys(k, Readable(k, d.files)) && e in es
    ensures Cataloged(k, CatalogOf(k, Readable(k, d.files)), e.family, e.id, e)
  {
    P.EntriesMatchFiles(k, d, es, None);
    ReadableRecord(k, d.files, e.path);
    EntryIsCataloged(k, Readable(k, d.files), e.path);
  }

  lemma CatalogedIsListed(k: Kernel, d: Disk, es: seq<Entry>, f: Text, id: Text) returns (e: Entry)
    requires P.KernelOk(k) && StoreIs(k, d, es, None) && OwnKeys(k, Readable(k, d.files))
    requires f in CatalogOf(k, Readable(k, d.files)) && id in CatalogOf(k, Readable(k, d.files))[f]
    ensures e in es && Cataloged(k, CatalogOf(k, Readable(k, d.files)), f, id, e)
  {
    var disk := Readable(k, d.files);
    var rel := CatalogedRecord(k, disk, f, id);
    P.EntriesMatchFiles(k, d, es, None);
    e :| e in es && e.path == rel;
    ReadableRecord(k, d.files, rel);
    EntryIsCataloged(k, disk, rel);
  }

  /**
   In a clean store the records checked against each other are those the manifest
   lists, each entry giving the family, id, hash and path of its record.
   */
  lemma GraphIsManifest(k: Kernel, d: Disk, es: seq<Entry>)
    requires P.KernelOk(k) && StoreIs(k, d, es, None)
    ensures OwnKeys(k, Readable(k, d.files))
    ensures var catalog := CatalogOf(k, Readable(k, d.files));
      && (forall e :: e in es ==> Cataloged(k, catalog, e.family, e.id, e))
      && forall f, id :: f in catalog && id in catalog[f] ==> exists e :: e in es && Cataloged(k, catalog, f, id, e)
  {
    FilesHaveOwnKeys(k, d.files);
    var catalog := CatalogOf(k, Readable(k, d.files));
    forall e | e in es ensures Cataloged(k, catalog, e.family, e.id, e) {
      ListedIsCataloged(k, d, es, e);
    }
    forall f, id | f in catalog && id in catalog[f] ensures exists e :: e in es && Cataloged(k, catalog, f, id, e) {
      var e := CatalogedIsListed(k, d, es, f, id);
    }
  }
}
