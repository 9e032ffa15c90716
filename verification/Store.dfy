/**
 The record store on disk and its reconciliation: what a clean store is, what a
 store with one unregistered record is, and the proof that `reconcile_store`
 tells exactly these two shapes apart from everything else.
 */
module Store {
  import opened Texts
  import opened Manifest
  import J = Json
  import S = StrictJson
  import C = Canonical
  import R = RoundTrip
  import P = ParserTheorems

  // ---------------------------------------------------------------------
  // Records
  // ---------------------------------------------------------------------

  const K_SCHEMA: Text := [0x73, 0x63, 0x68, 0x65, 0x6D, 0x61]

  /** A validated record; its canonical text and hash are functions of its data. */
  datatype Record = Record(family: Text, data: J.Json)

  /** `load_record`: strict parsing, schema dispatch, validation; None where the source raises. */
  ghost function LoadedRecord(k: Kernel, t: Text): Option<Record>
  {
    match S.Load(t)
    case Err(_) => None
    case Ok(v) =>
      if K_SCHEMA in v.members && v.members[K_SCHEMA].Str? && k.valid(v.members[K_SCHEMA].s, v) then
        Some(Record(v.members[K_SCHEMA].s, v))
      else None
  }

  method LoadRecord(k: Kernel, t: Text) returns (r: Option<Record>)
    ensures r == LoadedRecord(k, t)
  {
    var data := S.LoadStrictJson(t);
    if data.Err? { return None; }
    var m := data.value.members;
    if K_SCHEMA !in m || !m[K_SCHEMA].Str? { return None; }
    if !k.valid(m[K_SCHEMA].s, data.value) { return None; }
    return Some(Record(m[K_SCHEMA].s, data.value));
  }

  function Canon(r: Record): Text { C.Dump(r.data) }

  function Sha(k: Kernel, r: Record): Text { k.hash(Canon(r)) }

  function Rel(k: Kernel, r: Record): Text { RelPath(r.family, Sha(k, r)) }

  /** `identity_of` */
  function Identity(k: Kernel, r: Record): Option<Text>
  {
    if r.family in k.idField && r.data.Obj? && k.idField[r.family] in r.data.members &&
       r.data.members[k.idField[r.family]].Str? then
      Some(r.data.members[k.idField[r.family]].s)
    else None
  }

  /** `entry_for_record` */
  function EntryOf(k: Kernel, r: Record): Entry
    requires Identity(k, r).Some?
  {
    Entry(r.family, Identity(k, r).value, Sha(k, r), Rel(k, r))
  }

  // ---------------------------------------------------------------------
  // The disk
  // ---------------------------------------------------------------------

  /** What a store root shows: whether it exists, its manifest, whether records/ exists, and the files below it. */
  datatype Disk = Disk(root: bool, manifest: Option<Text>, records: bool, files: map<Text, Text>)

  /** Nothing without a root, no record files without records/. */
  ghost predicate DiskOk(d: Disk)
  {
    && (!d.root ==> d.manifest.None? && !d.records)
    && (!d.records ==> d.files == map[])
  }

  /** The file lies at the record's own path. */
  predicate HasOwnPath(k: Kernel, rel: Text, r: Record)
  {
    IsFamily(r.family) && IsDigest(k, Sha(k, r)) && rel == Rel(k, r)
  }

  /** The record a file holds, if everything about the file is as it should be. */
  ghost function RecordAt(k: Kernel, rel: Text, bytes: Text): Option<Record>
  {
    match LoadedRecord(k, bytes)
    case None => None
    case Some(r) =>
      if HasOwnPath(k, rel, r) && bytes == Canon(r) && Identity(k, r).Some? then Some(r) else None
  }

  ghost predicate AllUsable(k: Kernel, files: map<Text, Text>)
  {
    forall rel :: rel in files ==> RecordAt(k, rel, files[rel]).Some?
  }

  function KeyOf(k: Kernel, r: Record): (Text, Text)
    requires Identity(k, r).Some?
  {
    (r.family, Identity(k, r).value)
  }

  /** The (family, id) of a usable file. */
  ghost function KeyAt(k: Kernel, files: map<Text, Text>, rel: Text): (Text, Text)
    requires rel in files && RecordAt(k, rel, files[rel]).Some?
  {
    KeyOf(k, RecordAt(k, rel, files[rel]).value)
  }

  ghost predicate DistinctIds(k: Kernel, files: map<Text, Text>)
    requires AllUsable(k, files)
  {
    forall a, b {:trigger SameIds(k, files, a, b)} :: a in files && b in files ==> !SameIds(k, files, a, b)
  }

  /** Two files hold records with the same (family, id). */
  ghost predicate SameIds(k: Kernel, files: map<Text, Text>, a: Text, b: Text)
    requires AllUsable(k, files) && a in files && b in files
  {
    a != b && KeyAt(k, files, a) == KeyAt(k, files, b)
  }

  /** Every entry is backed by a file whose record has the entry's family and id. */
  ghost predicate EntriesBacked(k: Kernel, files: map<Text, Text>, es: seq<Entry>)
    requires AllUsable(k, files)
  {
    forall e :: e in es ==> e.path in files && KeyAt(k, files, e.path) == (e.family, e.id)
  }

  function PathsOf(es: seq<Entry>): (ps: set<Text>)
  {
    set e | e in es :: e.path
  }

  /** Files and entries correspond one to one, except for the orphan. */
  ghost predicate FilesMatch(k: Kernel, files: map<Text, Text>, es: seq<Entry>, orphan: Option<Text>)
  {
    && AllUsable(k, files) && DistinctIds(k, files) && EntriesBacked(k, files, es)
    && files.Keys - PathsOf(es) == (if orphan.Some? then {orphan.value} else {})
  }

  /** The manifest is the deterministic text of es, and the files match it up to the orphan. */
  ghost predicate StoreIs(k: Kernel, d: Disk, es: seq<Entry>, orphan: Option<Text>)
  {
    && d.root && d.manifest.Some?
    && ManifestLists(k, d.manifest.value, es) && d.manifest.value == ManifestText(es)
    && FilesMatch(k, d.files, es, orphan)
  }

  ghost predicate HasShape(k: Kernel, d: Disk, orphan: Option<Text>)
  {
    exists es :: StoreIs(k, d, es, orphan)
  }

  // ---------------------------------------------------------------------
  // Reconciliation
  // ---------------------------------------------------------------------

  datatype Problem =
    | RootMissing
    | ManifestMalformed
    | ManifestMissing
    | UnusableRecord(rel: Text)
    | DuplicateRecord(rel: Text)
    | MissingRecord(path: Text)
    | IdentityMismatch(path: Text)
    | ExtraRecord(rel: Text)
    | NotDeterministic

  ghost predicate NoExtra(ps: seq<Problem>)
  {
    forall i :: 0 <= i < |ps| ==> !ps[i].ExtraRecord?
  }

  /** The checks on the parts of the path come to this: the path is the record's own. */
  lemma PathChecks(k: Kernel, rel: Text, r: Record)
    ensures HasOwnPath(k, rel, r) <==>
      HasRecordParts(k, rel) && r.family == DirectoryFamily(k, rel) && Sha(k, r) == NamedDigest(k, rel)
  {
    if HasRecordParts(k, rel) { PartsAreRelPath(k, rel); }
    if HasOwnPath(k, rel, r) { RelPathParts(k, r.family, Sha(k, r)); }
  }

  /**
   `_load_disk_record` followed by `identity_of`; None where a problem is
   reported. The path is taken apart before the file is read.
   */
  method LoadDiskRecord(k: Kernel, rel: Text, bytes: Text) returns (r: Option<Record>)
    ensures r == RecordAt(k, rel, bytes)
  {
    ghost var held := LoadedRecord(k, bytes);
    if held.Some? { PathChecks(k, rel, held.value); }
    var parts := Parts(rel);
    if |parts| != 4 || parts[0] != RECORDS_DIR || parts[1] == [] || parts[2] == [] { return None; }
    var name := parts[3];
    if !IsRecordFileName(k, name) { return None; }
    var family := parts[1] + [SLASH] + parts[2];
    var loaded := LoadRecord(k, bytes);
    if loaded.None? { return None; }
    var record := loaded.value;
    if record.family != family { return None; }
    if Sha(k, record) != name[..|name| - 5] { return None; }
    if bytes != Canon(record) { return None; }
    if Identity(k, record).None? { return None; }
    return loaded;
  }

  /** The records found, each under its own path, with a (family, id) of its own. */
  ghost predicate OwnKeys(k: Kernel, disk: map<Text, Record>)
  {
    && (forall rel :: rel in disk ==> Identity(k, disk[rel]).Some?)
    && (forall a, b {:trigger Clash(k, disk, a, b)} :: a in disk && b in disk ==> !Clash(k, disk, a, b))
  }

  /** Two paths hold records with the same (family, id). */
  ghost predicate Clash(k: Kernel, disk: map<Text, Record>, a: Text, b: Text)
    requires a in disk && b in disk && Identity(k, disk[a]).Some? && Identity(k, disk[b]).Some?
  {
    a != b && KeyOf(k, disk[a]) == KeyOf(k, disk[b])
  }

  type Catalog = map<Text, map<Text, Record>>

  /** The catalog as a function of the records found: family, then id. */
  ghost function CatalogOf(k: Kernel, disk: map<Text, Record>): Catalog
    requires OwnKeys(k, disk)
  {
    map f | f in FamiliesOf(disk) :: FamilyOf(k, disk, f)
  }

  function FamiliesOf(disk: map<Text, Record>): set<Text>
  {
    set rel | rel in disk :: disk[rel].family
  }

  ghost function FamilyOf(k: Kernel, disk: map<Text, Record>, f: Text): map<Text, Record>
    requires OwnKeys(k, disk)
  {
    OwnKeysDiffer(k, disk);
    map rel | rel in disk && disk[rel].family == f :: Identity(k, disk[rel]).value := disk[rel]
  }

  lemma OwnKeysDiffer(k: Kernel, disk: map<Text, Record>)
    requires OwnKeys(k, disk)
    ensures forall a, b :: a in disk && b in disk && KeyOf(k, disk[a]) == KeyOf(k, disk[b]) ==> a == b
  {
    forall a, b | a in disk && b in disk && KeyOf(k, disk[a]) == KeyOf(k, disk[b]) ensures a == b {
      assert !Clash(k, disk, a, b);
    }
  }

  /** `records.setdefault(family, {})[id] = record` */
  function Filed(k: Kernel, catalog: Catalog, r: Record): Catalog
    requires Identity(k, r).Some?
  {
    var family := if r.family in catalog then catalog[r.family] else map[];
    catalog[r.family := family[Identity(k, r).value := r]]
  }

  lemma FamilyHolds(k: Kernel, disk: map<Text, Record>, rel: Text)
    requires OwnKeys(k, disk) && rel in disk
    ensures var family := FamilyOf(k, disk, disk[rel].family); var id := Identity(k, disk[rel]).value;
      id in family && family[id] == disk[rel]
  {
    OwnKeysDiffer(k, disk);
  }

  lemma FamilyFrom(k: Kernel, disk: map<Text, Record>, f: Text, id: Text) returns (rel: Text)
    requires OwnKeys(k, disk) && id in FamilyOf(k, disk, f)
    ensures rel in disk && KeyOf(k, disk[rel]) == (f, id) && FamilyOf(k, disk, f)[id] == disk[rel]
  {
    OwnKeysDiffer(k, disk);
    rel :| rel in disk && disk[rel].family == f && Identity(k, disk[rel]).value == id;
  }

  /** One member of a family once another record is there. */
  lemma FamilyStep(k: Kernel, disk: map<Text, Record>, more: map<Text, Record>, rel: Text, f: Text, id: Text)
    requires OwnKeys(k, disk) && OwnKeys(k, more) && rel !in disk && rel in more && more == disk[rel := more[rel]]
    ensures (f, id) == KeyOf(k, more[rel]) ==> id in FamilyOf(k, more, f) && FamilyOf(k, more, f)[id] == more[rel]
    ensures (f, id) != KeyOf(k, more[rel]) ==>
      && (id in FamilyOf(k, more, f) <==> id in FamilyOf(k, disk, f))
      && (id in FamilyOf(k, disk, f) ==> FamilyOf(k, more, f)[id] == FamilyOf(k, disk, f)[id])
  {
    FamilyHolds(k, more, rel);
    OwnKeysDiffer(k, more);
    if id in FamilyOf(k, disk, f) {
      var a := FamilyFrom(k, disk, f, id);
      assert a in more && more[a] == disk[a];
      FamilyHolds(k, more, a);
    } else if id in FamilyOf(k, more, f) {
      var a := FamilyFrom(k, more, f, id);
      if a != rel { FamilyHolds(k, disk, a); }
    }
  }

  lemma FamilyMore(k: Kernel, disk: map<Text, Record>, more: map<Text, Record>, rel: Text, f: Text)
    requires OwnKeys(k, disk) && OwnKeys(k, more) && rel !in disk && rel in more && more == disk[rel := more[rel]]
    ensures FamilyOf(k, more, f) ==
      if f == more[rel].family then FamilyOf(k, disk, f)[Identity(k, more[rel]).value := more[rel]] else FamilyOf(k, disk, f)
  {
    var x, y, own := FamilyOf(k, more, f), FamilyOf(k, disk, f), KeyOf(k, more[rel]);
    forall id ensures Agrees(x, y, id, own, (f, id), more[rel]) {
      FamilyStep(k, disk, more, rel, f, id);
    }
    if f == more[rel].family { MapUpdated(x, y, own, more[rel]); } else { MapSame(x, y, own, f, more[rel]); }
  }

  predicate Agrees(x: map<Text, Record>, y: map<Text, Record>, id: Text, own: (Text, Text), key: (Text, Text), r: Record)
  {
    if key == own then id in x && x[id] == r else (id in x <==> id in y) && (id in y ==> x[id] == y[id])
  }

  lemma MapUpdated(x: map<Text, Record>, y: map<Text, Record>, own: (Text, Text), r: Record)
    requires forall id :: Agrees(x, y, id, own, (own.0, id), r)
    ensures x == y[own.1 := r]
  {
    forall id ensures id in x <==> id in y[own.1 := r] { assert Agrees(x, y, id, own, (own.0, id), r); }
    forall id | id in x ensures x[id] == y[own.1 := r][id] { assert Agrees(x, y, id, own, (own.0, id), r); }
  }

  lemma MapSame(x: map<Text, Record>, y: map<Text, Record>, own: (Text, Text), f: Text, r: Record)
    requires f != own.0 && forall id :: Agrees(x, y, id, own, (f, id), r)
    ensures x == y
  {
    forall id ensures id in x <==> id in y { assert Agrees(x, y, id, own, (f, id), r); }
    forall id | id in x ensures x[id] == y[id] { assert Agrees(x, y, id, own, (f, id), r); }
  }

  lemma EmptyFamily(k: Kernel, disk: map<Text, Record>, f: Text)
    requires OwnKeys(k, disk) && f !in FamiliesOf(disk)
    ensures FamilyOf(k, disk, f) == map[]
  {
    forall id ensures id !in FamilyOf(k, disk, f) {
      if id in FamilyOf(k, disk, f) { var a := FamilyFrom(k, disk, f, id); }
    }
  }

  /** Filing a record is what finding it adds to the catalog. */
  lemma CatalogMore(k: Kernel, disk: map<Text, Record>, more: map<Text, Record>, rel: Text)
    requires OwnKeys(k, disk) && OwnKeys(k, more) && rel !in disk && rel in more && more == disk[rel := more[rel]]
    ensures CatalogOf(k, more) == Filed(k, CatalogOf(k, disk), more[rel])
  {
    var r, x, y := more[rel], CatalogOf(k, more), CatalogOf(k, disk);
    FamiliesMore(disk, rel, r);
    CatalogKeys(k, disk);
    CatalogKeys(k, more);
    forall f | f in x ensures CatalogAgrees(x, y, f, KeyOf(k, r), r) {
      CatalogStep(k, disk, more, rel, f);
    }
    CatalogUpdated(k, x, y, r);
  }

  lemma CatalogStep(k: Kernel, disk: map<Text, Record>, more: map<Text, Record>, rel: Text, f: Text)
    requires OwnKeys(k, disk) && OwnKeys(k, more) && rel !in disk && rel in more && more == disk[rel := more[rel]]
    requires f in CatalogOf(k, more)
    ensures CatalogAgrees(CatalogOf(k, more), CatalogOf(k, disk), f, KeyOf(k, more[rel]), more[rel])
  {
    FamiliesMore(disk, rel, more[rel]);
    FamilyMore(k, disk, more, rel, f);
    if f !in FamiliesOf(disk) { EmptyFamily(k, disk, f); }
  }

  lemma CatalogKeys(k: Kernel, disk: map<Text, Record>)
    requires OwnKeys(k, disk)
    ensures CatalogOf(k, disk).Keys == FamiliesOf(disk)
    ensures forall f :: f in CatalogOf(k, disk) ==> CatalogOf(k, disk)[f] == FamilyOf(k, disk, f)
  {}

  predicate CatalogAgrees(x: Catalog, y: Catalog, f: Text, own: (Text, Text), r: Record)
  {
    && f in x
    && if f == own.0 then x[f] == (if f in y then y[f] else map[])[own.1 := r] else f in y && x[f] == y[f]
  }

  lemma CatalogUpdated(k: Kernel, x: Catalog, y: Catalog, r: Record)
    requires Identity(k, r).Some? && x.Keys == y.Keys + {r.family}
    requires forall f :: f in x ==> CatalogAgrees(x, y, f, KeyOf(k, r), r)
    ensures x == Filed(k, y, r)
  {
    var z := Filed(k, y, r);
    forall f | f in x ensures f in z && x[f] == z[f] { assert CatalogAgrees(x, y, f, KeyOf(k, r), r); }
    assert z.Keys == y.Keys + {r.family};
  }

  lemma FamiliesMore(disk: map<Text, Record>, rel: Text, r: Record)
    requires rel !in disk
    ensures FamiliesOf(disk[rel := r]) == FamiliesOf(disk) + {r.family}
  {
    var more := disk[rel := r];
    assert rel in more && more[rel] == r;
    forall f | f in FamiliesOf(disk) ensures f in FamiliesOf(more) {
      var a :| a in disk && disk[a].family == f;
      assert a in more && more[a] == disk[a];
    }
  }

  /** What the scan has found among the files listed so far. */
  ghost predicate Scanned(k: Kernel, files: map<Text, Text>, rels: seq<Text>, disk: map<Text, Record>, problems: seq<Problem>)
  {
    && (forall rel :: rel in disk ==> rel in files && rel in rels && RecordAt(k, rel, files[rel]) == Some(disk[rel]))
    && OwnKeys(k, disk)
    && (problems == [] ==> forall rel :: rel in rels ==> rel in disk)
    && (problems != [] ==> !(AllUsable(k, files) && DistinctIds(k, files)))
    && NoExtra(problems)
  }

  ghost predicate SeenExactly(k: Kernel, disk: map<Text, Record>, seen: set<(Text, Text)>)
    requires forall rel :: rel in disk ==> Identity(k, disk[rel]).Some?
  {
    forall x :: x in seen <==> exists rel :: rel in disk && x == KeyOf(k, disk[rel])
  }

  lemma ScannedProblem(k: Kernel, files: map<Text, Text>, rels: seq<Text>, disk: map<Text, Record>, problems: seq<Problem>, rel: Text, p: Problem)
    requires Scanned(k, files, rels, disk, problems) && !p.ExtraRecord?
    requires !(AllUsable(k, files) && DistinctIds(k, files))
    ensures Scanned(k, files, rels + [rel], disk, problems + [p])
  {}

  lemma ScannedRecord(k: Kernel, files: map<Text, Text>, rels: seq<Text>, disk: map<Text, Record>, problems: seq<Problem>, rel: Text, r: Record)
    requires Scanned(k, files, rels, disk, problems) && rel in files && RecordAt(k, rel, files[rel]) == Some(r)
    requires forall a :: a in disk ==> a != rel && KeyOf(k, disk[a]) != KeyOf(k, r)
    ensures Scanned(k, files, rels + [rel], disk[rel := r], problems)
  {
    NewOwnKey(k, disk, rel, r);
    var more := disk[rel := r];
    forall a | a in more
      ensures a in files && a in rels + [rel] && RecordAt(k, a, files[a]) == Some(more[a])
    {
      if a != rel { assert a in disk && a in rels; }
    }
  }

  lemma NewOwnKey(k: Kernel, disk: map<Text, Record>, rel: Text, r: Record)
    requires OwnKeys(k, disk) && Identity(k, r).Some?
    requires forall a :: a in disk ==> a != rel && KeyOf(k, disk[a]) != KeyOf(k, r)
    ensures OwnKeys(k, disk[rel := r])
  {
    var more := disk[rel := r];
    forall a, b | a in more && b in more ensures !Clash(k, more, a, b) {
      if a != rel && b != rel { assert !Clash(k, disk, a, b); }
    }
  }

  lemma DuplicateShows(k: Kernel, files: map<Text, Text>, a: Text, b: Text)
    requires a in files && b in files && a != b
    requires RecordAt(k, a, files[a]).Some? && RecordAt(k, b, files[b]).Some?
    requires KeyOf(k, RecordAt(k, a, files[a]).value) == KeyOf(k, RecordAt(k, b, files[b]).value)
    ensures !(AllUsable(k, files) && DistinctIds(k, files))
  {
    if AllUsable(k, files) { assert SameIds(k, files, a, b); }
  }

  /** Everything the scan loop keeps: findings, ids seen, and the catalog of the records found. */
  ghost predicate Scanning(k: Kernel, files: map<Text, Text>, rels: seq<Text>, disk: map<Text, Record>, problems: seq<Problem>,
                           seen: set<(Text, Text)>, catalog: Catalog)
  {
    Scanned(k, files, rels, disk, problems) && SeenExactly(k, disk, seen) && catalog == CatalogOf(k, disk)
  }

  lemma NothingScanned(k: Kernel, files: map<Text, Text>)
    ensures Scanning(k, files, [], map[], [], {}, map[])
  {}

  lemma UnusableFound(k: Kernel, files: map<Text, Text>, rels: seq<Text>, disk: map<Text, Record>, problems: seq<Problem>,
                      seen: set<(Text, Text)>, catalog: Catalog, rel: Text)
    requires Scanning(k, files, rels, disk, problems, seen, catalog)
    requires rel in files && RecordAt(k, rel, files[rel]).None?
    ensures Scanning(k, files, rels + [rel], disk, problems + [UnusableRecord(rel)], seen, catalog)
  {
    ScannedProblem(k, files, rels, disk, problems, rel, UnusableRecord(rel));
  }

  lemma DuplicateFound(k: Kernel, files: map<Text, Text>, rels: seq<Text>, disk: map<Text, Record>, problems: seq<Problem>,
                       seen: set<(Text, Text)>, catalog: Catalog, rel: Text, r: Record)
    requires Scanning(k, files, rels, disk, problems, seen, catalog) && rel in files && rel !in rels
    requires RecordAt(k, rel, files[rel]) == Some(r) && KeyOf(k, r) in seen
    ensures Scanning(k, files, rels + [rel], disk, problems + [DuplicateRecord(rel)], seen, catalog)
  {
    var other :| other in disk && KeyOf(k, r) == KeyOf(k, disk[other]);
    DuplicateShows(k, files, rel, other);
    ScannedProblem(k, files, rels, disk, problems, rel, DuplicateRecord(rel));
  }

  lemma RecordFound(k: Kernel, files: map<Text, Text>, rels: seq<Text>, disk: map<Text, Record>, problems: seq<Problem>,
                    seen: set<(Text, Text)>, catalog: Catalog, rel: Text, r: Record)
    requires Scanning(k, files, rels, disk, problems, seen, catalog) && rel in files && rel !in rels
    requires RecordAt(k, rel, files[rel]) == Some(r) && KeyOf(k, r) !in seen
    ensures Scanning(k, files, rels + [rel], disk[rel := r], problems, seen + {KeyOf(k, r)}, Filed(k, catalog, r))
  {
    ScannedRecord(k, files, rels, disk, problems, rel, r);
    SeenMore(k, disk, seen, rel, r);
    CatalogMore(k, disk, disk[rel := r], rel);
  }

  /** The scan of the record files in path order, with the ids seen so far. */
  method ScanRecords(k: Kernel, files: map<Text, Text>)
    returns (disk: map<Text, Record>, problems: seq<Problem>, catalog: Catalog)
    ensures Scanned(k, files, Sorted(files.Keys), disk, problems)
    ensures catalog == CatalogOf(k, disk)
  {
    disk, problems, catalog := map[], [], map[];
    var rels := Sorted(files.Keys);
    var seen: set<(Text, Text)> := {};
    NothingScanned(k, files);
    for i := 0 to |rels|
      invariant Scanning(k, files, rels[..i], disk, problems, seen, catalog)
    {
      TakeStep(rels, i);
      assert rels[i] in rels && rels[i] !in rels[..i];
      disk, problems, seen, catalog := ScanOne(k, files, rels[..i], rels[i], disk, problems, seen, catalog);
    }
    TakeAll(rels);
  }

  method ScanOne(k: Kernel, files: map<Text, Text>, ghost rels: seq<Text>, rel: Text,
                 disk: map<Text, Record>, problems: seq<Problem>, seen: set<(Text, Text)>, catalog: Catalog)
    returns (disk': map<Text, Record>, problems': seq<Problem>, seen': set<(Text, Text)>, catalog': Catalog)
    requires Scanning(k, files, rels, disk, problems, seen, catalog)
    requires rel in files && rel !in rels
    ensures Scanning(k, files, rels + [rel], disk', problems', seen', catalog')
  {
    var record := LoadDiskRecord(k, rel, files[rel]);
    disk', problems', seen', catalog' := disk, problems, seen, catalog;
    if record.None? {
      UnusableFound(k, files, rels, disk, problems, seen, catalog, rel);
      problems' := problems + [UnusableRecord(rel)];
    } else if KeyOf(k, record.value) in seen {
      DuplicateFound(k, files, rels, disk, problems, seen, catalog, rel, record.value);
      problems' := problems + [DuplicateRecord(rel)];
    } else {
      RecordFound(k, files, rels, disk, problems, seen, catalog, rel, record.value);
      seen' := seen + {KeyOf(k, record.value)};
      catalog' := Filed(k, catalog, record.value);
      disk' := disk[rel := record.value];
    }
  }

  lemma SeenMore(k: Kernel, disk: map<Text, Record>, seen: set<(Text, Text)>, rel: Text, r: Record)
    requires (forall a :: a in disk ==> Identity(k, disk[a]).Some?) && Identity(k, r).Some?
    requires SeenExactly(k, disk, seen) && rel !in disk
    ensures SeenExactly(k, disk[rel := r], seen + {KeyOf(k, r)})
  {
    var more := disk[rel := r];
    forall x | x in seen ensures exists a :: a in more && x == KeyOf(k, more[a]) {
      var a :| a in disk && x == KeyOf(k, disk[a]);
      assert a in more && more[a] == disk[a];
    }
    assert rel in more && KeyOf(k, more[rel]) == KeyOf(k, r);
  }

  /** An entry agrees with what the scan found under its path. */
  predicate EntryFits(k: Kernel, files: map<Text, Text>, disk: map<Text, Record>, e: Entry)
    requires forall rel :: rel in disk ==> Identity(k, disk[rel]).Some?
  {
    if e.path in disk then KeyOf(k, disk[e.path]) == (e.family, e.id) else e.path in files
  }

  ghost predicate AllFit(k: Kernel, files: map<Text, Text>, disk: map<Text, Record>, es: seq<Entry>)
    requires forall rel :: rel in disk ==> Identity(k, disk[rel]).Some?
  {
    forall i :: 0 <= i < |es| ==> EntryFits(k, files, disk, es[i])
  }

  /** The entry loop: entries without a file, and entries whose record says otherwise. */
  method CheckEntries(k: Kernel, files: map<Text, Text>, disk: map<Text, Record>, es: seq<Entry>)
    returns (problems: seq<Problem>)
    requires forall rel :: rel in disk ==> Identity(k, disk[rel]).Some?
    ensures NoExtra(problems)
    ensures problems == [] <==> AllFit(k, files, disk, es)
  {
    problems := [];
    for i := 0 to |es|
      invariant NoExtra(problems)
      invariant problems == [] <==> forall j :: 0 <= j < i ==> EntryFits(k, files, disk, es[j])
    {
      var e := es[i];
      if e.path !in disk {
        if e.path !in files { problems := problems + [MissingRecord(e.path)]; }
      } else if KeyOf(k, disk[e.path]) != (e.family, e.id) {
        problems := problems + [IdentityMismatch(e.path)];
      }
    }
  }

  ghost predicate ExtrasAmong(rels: seq<Text>, paths: set<Text>, found: seq<Text>)
  {
    && (forall x :: x in found <==> x in rels && x !in paths)
    && (forall a, b :: 0 <= a < b < |found| ==> Less(found[a], found[b]))
  }

  lemma NextExtra(rels: seq<Text>, paths: set<Text>, found: seq<Text>, rel: Text)
    requires ExtrasAmong(rels, paths, found) && forall x :: x in rels ==> Less(x, rel)
    ensures ExtrasAmong(rels + [rel], paths, if rel in paths then found else found + [rel])
  {
    forall a | 0 <= a < |found| ensures Less(found[a], rel) {
      assert found[a] in found;
    }
  }

  /** The last loop: records on disk that no entry names, in path order. */
  method FindExtras(disk: map<Text, Record>, paths: set<Text>) returns (found: seq<Text>)
    ensures found == Sorted(disk.Keys - paths)
  {
    found := [];
    var rels := Sorted(disk.Keys);
    for i := 0 to |rels|
      invariant ExtrasAmong(rels[..i], paths, found)
    {
      TakeStep(rels, i);
      NextExtra(rels[..i], paths, found, rels[i]);
      if rels[i] !in paths { found := found + [rels[i]]; }
    }
    TakeAll(rels);
    SortedUnique(found, disk.Keys - paths);
  }

  function ExtraProblems(found: seq<Text>): (ps: seq<Problem>)
    ensures |ps| == |found| && forall i :: 0 <= i < |ps| ==> ps[i] == ExtraRecord(found[i])
  {
    seq(|found|, i requires 0 <= i < |found| => ExtraRecord(found[i]))
  }

  lemma NoExtraAlone(ps: seq<Problem>)
    requires NoExtra(ps)
    ensures forall rel :: ps != [ExtraRecord(rel)]
  {
    forall rel ensures ps != [ExtraRecord(rel)] {
      assert |ps| == 1 ==> !ps[0].ExtraRecord?;
      assert [ExtraRecord(rel)][0].ExtraRecord?;
    }
  }

  /** The joint findings are just the extras exactly when the other parts are empty. */
  lemma OnlyExtras(a: seq<Problem>, b: seq<Problem>, found: seq<Text>, c: seq<Problem>)
    requires NoExtra(a) && NoExtra(b) && NoExtra(c)
    ensures a + b + ExtraProblems(found) + c == [] <==> a == [] && b == [] && found == [] && c == []
    ensures forall rel :: a + b + ExtraProblems(found) + c == [ExtraRecord(rel)] <==>
      a == [] && b == [] && c == [] && found == [rel]
  {
    var all := a + b + ExtraProblems(found) + c;
    forall rel ensures all == [ExtraRecord(rel)] <==> a == [] && b == [] && c == [] && found == [rel] {
      if a != [] { assert !all[0].ExtraRecord?; }
      if b != [] { assert !all[|a|].ExtraRecord?; }
      if c != [] { assert !all[|a| + |b| + |found|].ExtraRecord?; }
      assert [ExtraRecord(rel)][0] == ExtraRecord(rel);
      if a == [] && b == [] && c == [] {
        assert all == ExtraProblems(found);
        if found == [rel] { assert all == [ExtraRecord(rel)]; }
        if |found| == 1 { assert all[0] == ExtraRecord(found[0]); }
      }
    }
  }

  lemma SingletonSorted(s: set<Text>, rel: Text)
    ensures Sorted(s) == [rel] <==> s == {rel}
    ensures Sorted(s) == [] <==> s == {}
  {
    if Sorted(s) == [rel] {
      assert forall x :: x in s <==> x in [rel];
    }
    if s == {rel} { SortedUnique([rel], s); }
  }

  /** What the parts of the comparison with a readable manifest have found. */
  ghost predicate Compared(k: Kernel, d: Disk, es: seq<Entry>, disk: map<Text, Record>,
                           unusable: seq<Problem>, unfit: seq<Problem>, found: seq<Text>, stale: seq<Problem>)
  {
    && d.root && d.manifest.Some? && ManifestLists(k, d.manifest.value, es)
    && Scanned(k, d.files, Sorted(d.files.Keys), disk, unusable)
    && OwnKeys(k, disk) && NoExtra(unfit) && (unfit == [] <==> AllFit(k, d.files, disk, es))
    && found == Sorted(disk.Keys - PathsOf(es))
    && stale == if ManifestText(es) != d.manifest.value then [NotDeterministic] else []
  }

  /** The part of reconciliation that has a readable manifest: entries against the scan, and the text itself. */
  method CompareEntries(k: Kernel, d: Disk, es: seq<Entry>, disk: map<Text, Record>, unusable: seq<Problem>)
    returns (problems: seq<Problem>)
    requires d.root && d.manifest.Some? && ManifestLists(k, d.manifest.value, es)
    requires Scanned(k, d.files, Sorted(d.files.Keys), disk, unusable)
    ensures problems == [] <==> HasShape(k, d, None)
    ensures problems == [] ==> unusable == []
    ensures forall rel :: problems == [ExtraRecord(rel)] <==> HasShape(k, d, Some(rel))
  {
    var unfit := CheckEntries(k, d.files, disk, es);
    var found := FindExtras(disk, PathsOf(es));
    var stale := if ManifestText(es) != d.manifest.value then [NotDeterministic] else [];
    problems := unusable + unfit + ExtraProblems(found) + stale;
    Verdict(k, d, es, disk, unusable, unfit, found, stale, None);
    forall rel ensures problems == [ExtraRecord(rel)] <==> HasShape(k, d, Some(rel)) {
      Verdict(k, d, es, disk, unusable, unfit, found, stale, Some(rel));
    }
  }

  /** The records of the files that hold one. */
  ghost function Readable(k: Kernel, files: map<Text, Text>): map<Text, Record>
  {
    map rel | rel in files && RecordAt(k, rel, files[rel]).Some? :: RecordAt(k, rel, files[rel]).value
  }

  /** A root in which nothing has been written yet. */
  predicate Bare(d: Disk) { d.root && d.manifest.None? && !d.records }

  /** `reconcile_store`: all findings, the records found, and the manifest's entries when it can be read. */
  method ReconcileStore(k: Kernel, d: Disk)
    returns (problems: seq<Problem>, catalog: Catalog, entries: Option<seq<Entry>>)
    requires DiskOk(d)
    ensures problems == [] <==> HasShape(k, d, None) || Bare(d)
    ensures problems == [] ==> OwnKeys(k, Readable(k, d.files)) && catalog == CatalogOf(k, Readable(k, d.files))
    ensures forall rel :: problems == [ExtraRecord(rel)] <==> HasShape(k, d, Some(rel))
    ensures entries.Some? ==> d.manifest.Some? && ManifestLists(k, d.manifest.value, entries.value)
    ensures entries.None? ==> d.manifest.None? || forall es :: !ManifestLists(k, d.manifest.value, es)
  {
    entries := None;
    problems := [];
    if !d.root {
      problems := [RootMissing];
    } else if d.manifest.Some? {
      entries := ParseManifest(k, d.manifest.value);
      if entries.None? { problems := [ManifestMalformed]; }
    } else if d.records {
      problems := [ManifestMissing];
    }
    var disk, unusable;
    disk, unusable, catalog := ScanRecords(k, d.files);
    if unusable == [] { ScanFindsAll(k, d.files, disk); }
    if entries.Some? {
      problems := CompareEntries(k, d, entries.value, disk, unusable);
    } else {
      if Bare(d) { NothingUnusable(k, d.files, disk, unusable); }
      problems := problems + unusable;
      NoExtraAlone(problems);
      Unlisted(k, d);
    }
  }

  lemma NothingUnusable(k: Kernel, files: map<Text, Text>, disk: map<Text, Record>, unusable: seq<Problem>)
    requires files == map[] && Scanned(k, files, Sorted(files.Keys), disk, unusable)
    ensures unusable == []
  {
    assert AllUsable(k, files) && DistinctIds(k, files);
  }

  lemma Unlisted(k: Kernel, d: Disk)
    requires d.manifest.None? || forall es :: !ManifestLists(k, d.manifest.value, es)
    ensures forall orphan :: !HasShape(k, d, orphan)
  {}

  /** The findings decide the shape of the store. */
  lemma Verdict(k: Kernel, d: Disk, es: seq<Entry>, disk: map<Text, Record>, unusable: seq<Problem>,
                unfit: seq<Problem>, found: seq<Text>, stale: seq<Problem>, orphan: Option<Text>)
    requires Compared(k, d, es, disk, unusable, unfit, found, stale)
    ensures var all := unusable + unfit + ExtraProblems(found) + stale;
      && (HasShape(k, d, orphan) <==> all == if orphan.Some? then [ExtraRecord(orphan.value)] else [])
      && (all == [] ==> unusable == [])
  {
    ShapeVerdict(k, d, es, disk, unusable, unfit, found, stale, orphan);
    assert NoExtra(unusable) && NoExtra(unfit);
    StaleNoExtra(stale);
    FindingsTell(unusable, unfit, found, stale, orphan);
  }

  lemma StaleNoExtra(stale: seq<Problem>)
    requires stale == [] || stale == [NotDeterministic]
    ensures NoExtra(stale)
  {}

  lemma FindingsTell(a: seq<Problem>, b: seq<Problem>, found: seq<Text>, c: seq<Problem>, orphan: Option<Text>)
    requires NoExtra(a) && NoExtra(b) && NoExtra(c)
    ensures var all := a + b + ExtraProblems(found) + c;
      && (all == [] ==> a == [])
      && ((a == [] && b == [] && c == [] && found == (if orphan.Some? then [orphan.value] else [])) <==>
          all == if orphan.Some? then [ExtraRecord(orphan.value)] else [])
  {
    OnlyExtras(a, b, found, c);
  }

  lemma ShapeVerdict(k: Kernel, d: Disk, es: seq<Entry>, disk: map<Text, Record>, unusable: seq<Problem>,
                     unfit: seq<Problem>, found: seq<Text>, stale: seq<Problem>, orphan: Option<Text>)
    requires Compared(k, d, es, disk, unusable, unfit, found, stale)
    ensures HasShape(k, d, orphan) <==>
      unusable == [] && unfit == [] && stale == [] && found == (if orphan.Some? then [orphan.value] else [])
  {
    ShapeUnique(k, d, es, orphan);
    FilesVerdict(k, d.files, es, disk, unusable, unfit, orphan);
    SingletonSorted(disk.Keys - PathsOf(es), if orphan.Some? then orphan.value else []);
  }

  lemma ShapeUnique(k: Kernel, d: Disk, es: seq<Entry>, orphan: Option<Text>)
    requires d.root && d.manifest.Some? && ManifestLists(k, d.manifest.value, es)
    ensures HasShape(k, d, orphan) <==> d.manifest.value == ManifestText(es) && FilesMatch(k, d.files, es, orphan)
  {
    if HasShape(k, d, orphan) {
      var fs :| StoreIs(k, d, fs, orphan);
      ManifestListsUnique(k, d.manifest.value, fs, es);
    } else {
      assert !StoreIs(k, d, es, orphan);
    }
  }

  lemma FilesVerdict(k: Kernel, files: map<Text, Text>, es: seq<Entry>, disk: map<Text, Record>,
                     unusable: seq<Problem>, unfit: seq<Problem>, orphan: Option<Text>)
    requires Scanned(k, files, Sorted(files.Keys), disk, unusable)
    requires unfit == [] <==> AllFit(k, files, disk, es)
    ensures FilesMatch(k, files, es, orphan) <==>
      unusable == [] && unfit == [] && disk.Keys - PathsOf(es) == if orphan.Some? then {orphan.value} else {}
  {
    if unusable == [] {
      ScanHoldsAll(k, files, disk);
      HeldVerdict(k, files, es, disk, orphan);
    } else {
      MatchNeedsScan(k, files, es, disk, unusable, orphan);
    }
  }

  lemma HeldVerdict(k: Kernel, files: map<Text, Text>, es: seq<Entry>, disk: map<Text, Record>, orphan: Option<Text>)
    requires HoldsAll(k, files, disk) && OwnKeys(k, disk)
    ensures FilesMatch(k, files, es, orphan) <==>
      AllFit(k, files, disk, es) && disk.Keys - PathsOf(es) == if orphan.Some? then {orphan.value} else {}
  {
    HeldKeys(k, files, disk);
    HeldDistinct(k, files, disk);
    BackedIff(k, files, disk, es);
    MatchIff(k, files, es, disk, orphan);
  }

  lemma MatchIff(k: Kernel, files: map<Text, Text>, es: seq<Entry>, disk: map<Text, Record>, orphan: Option<Text>)
    requires disk.Keys == files.Keys && AllUsable(k, files) && DistinctIds(k, files)
    ensures FilesMatch(k, files, es, orphan) <==>
      EntriesBacked(k, files, es) && disk.Keys - PathsOf(es) == if orphan.Some? then {orphan.value} else {}
  {}

  lemma MatchNeedsScan(k: Kernel, files: map<Text, Text>, es: seq<Entry>, disk: map<Text, Record>,
                       unusable: seq<Problem>, orphan: Option<Text>)
    requires Scanned(k, files, Sorted(files.Keys), disk, unusable) && unusable != []
    ensures !FilesMatch(k, files, es, orphan)
  {}

  /** disk holds every file's record. */
  ghost predicate HoldsAll(k: Kernel, files: map<Text, Text>, disk: map<Text, Record>)
  {
    && (forall rel :: rel in disk <==> rel in files)
    && forall rel :: rel in files ==> HoldsOne(k, files, disk, rel)
  }

  ghost predicate HoldsOne(k: Kernel, files: map<Text, Text>, disk: map<Text, Record>, rel: Text)
    requires rel in files
  {
    rel in disk && RecordAt(k, rel, files[rel]) == Some(disk[rel])
  }

  lemma ScanHoldsAll(k: Kernel, files: map<Text, Text>, disk: map<Text, Record>)
    requires Scanned(k, files, Sorted(files.Keys), disk, [])
    ensures HoldsAll(k, files, disk)
  {
    var rels := Sorted(files.Keys);
    forall rel | rel in files ensures HoldsOne(k, files, disk, rel) {
      assert rel in rels;
    }
  }

  lemma HeldKeys(k: Kernel, files: map<Text, Text>, disk: map<Text, Record>)
    requires HoldsAll(k, files, disk)
    ensures AllUsable(k, files)
    ensures forall rel :: rel in files ==> rel in disk && Identity(k, disk[rel]).Some? && KeyAt(k, files, rel) == KeyOf(k, disk[rel])
  {
    forall rel | rel in files ensures RecordAt(k, rel, files[rel]).Some? { assert HoldsOne(k, files, disk, rel); }
    forall rel | rel in files ensures rel in disk && RecordAt(k, rel, files[rel]).value == disk[rel] {
      assert HoldsOne(k, files, disk, rel);
    }
  }

  lemma HeldDistinct(k: Kernel, files: map<Text, Text>, disk: map<Text, Record>)
    requires HoldsAll(k, files, disk) && OwnKeys(k, disk)
    ensures AllUsable(k, files) && DistinctIds(k, files)
  {
    HeldKeys(k, files, disk);
    forall a, b | a in files && b in files ensures !SameIds(k, files, a, b) {
      assert !Clash(k, disk, a, b);
    }
  }

  lemma ScanFindsAll(k: Kernel, files: map<Text, Text>, disk: map<Text, Record>)
    requires Scanned(k, files, Sorted(files.Keys), disk, [])
    ensures disk == Readable(k, files)
  {
    ScanHoldsAll(k, files, disk);
    HeldIsReadable(k, files, disk);
  }

  lemma HeldIsReadable(k: Kernel, files: map<Text, Text>, disk: map<Text, Record>)
    requires HoldsAll(k, files, disk)
    ensures disk == Readable(k, files)
  {
    forall rel | rel in files ensures rel in disk && RecordAt(k, rel, files[rel]) == Some(disk[rel]) {
      assert HoldsOne(k, files, disk, rel);
    }
  }

  lemma BackedIff(k: Kernel, files: map<Text, Text>, disk: map<Text, Record>, es: seq<Entry>)
    requires AllUsable(k, files) && disk.Keys == files.Keys
    requires forall rel :: rel in files ==> Identity(k, disk[rel]).Some? && KeyAt(k, files, rel) == KeyOf(k, disk[rel])
    ensures EntriesBacked(k, files, es) <==> AllFit(k, files, disk, es)
  {
    if AllFit(k, files, disk, es) {
      forall e | e in es ensures e.path in files && KeyAt(k, files, e.path) == (e.family, e.id) {
        var i :| 0 <= i < |es| && es[i] == e;
        assert EntryFits(k, files, disk, es[i]);
      }
    }
  }
}
