/**
 Publishing as a locked step protocol that can fail or crash between any two
 effects on disk. Over every run of any number of publishers and verifiers the
 disk has one of four shapes, entries and bytes only ever grow, and a publisher's
 reconciled entries are still the disk's when it writes.
 */
module Publication {
  import opened Texts
  import opened Manifest
  import opened Store
  import J = Json
  import S = StrictJson
  import C = Canonical
  import R = RoundTrip
  import P = ParserTheorems

  /**
   What the proofs assume of the outside: the hash is injective digest text, the
   registered families have two-part names with safe record paths, and schema
   validation does not tell equal JSON values apart.
   */
  ghost predicate KernelOk(k: Kernel)
  {
    && (forall a, b :: k.hash(a) == k.hash(b) ==> a == b)
    && (forall t :: IsDigest(k, k.hash(t)))
    && (forall f :: f in k.idField ==> IsFamily(f))
    && (forall f, s :: f in k.idField && IsDigest(k, s) ==> k.safe(RelPath(f, s)))
    && (forall f, a, b :: k.valid(f, a) && J.Acceptable(a) && J.Acceptable(b) && J.JsonEqual(a, b) ==> k.valid(f, b))
  }

  /** r came out of `load_record` on some source and has a logical id. */
  ghost predicate Publishable(k: Kernel, r: Record)
  {
    (exists source :: LoadedRecord(k, source) == Some(r)) && Identity(k, r).Some?
  }

  // ---------------------------------------------------------------------
  // A published record reads back as itself
  // ---------------------------------------------------------------------

  lemma PublishableData(k: Kernel, r: Record)
    requires Publishable(k, r)
    ensures r.data.Obj? && J.Acceptable(r.data)
    ensures K_SCHEMA in r.data.members && r.data.members[K_SCHEMA] == J.Str(r.family) && k.valid(r.family, r.data)
    ensures S.Load(Canon(r)) == S.Ok(J.Normalize(r.data)) && J.JsonEqual(r.data, J.Normalize(r.data))
    ensures J.Acceptable(J.Normalize(r.data)) && C.Dump(J.Normalize(r.data)) == Canon(r)
  {
    var source :| LoadedRecord(k, source) == Some(r);
    P.LoadedIsAcceptable(source, r.data);
    R.LoadOfDump(r.data);
    R.NormalizeAcceptable(r.data);
    R.DumpNormalize(r.data);
    J.EqualIsEquivalence(J.Normalize(r.data), r.data, r.data);
  }

  /** Strings are kept by normalization. */
  lemma NormalMember(v: J.Json, key: Text)
    requires v.Obj? && key in v.members && v.members[key].Str?
    ensures J.Normalize(v).Obj? && key in J.Normalize(v).members && J.Normalize(v).members[key] == v.members[key]
  {}

  /** The stored form of a record: its data as read back from its canonical text. */
  function Stored(r: Record): Record { Record(r.family, J.Normalize(r.data)) }

  lemma StoredRecord(k: Kernel, r: Record)
    requires KernelOk(k) && Publishable(k, r)
    ensures RecordAt(k, Rel(k, r), Canon(r)) == Some(Stored(r))
    ensures Identity(k, Stored(r)) == Identity(k, r) && KeyOf(k, Stored(r)) == KeyOf(k, r)
  {
    StoredLoads(k, r);
    NormalMember(r.data, k.idField[r.family]);
    SameDump(k, r);
  }

  lemma StoredLoads(k: Kernel, r: Record)
    requires KernelOk(k) && Publishable(k, r)
    ensures LoadedRecord(k, Canon(r)) == Some(Stored(r)) && IsFamily(r.family)
  {
    PublishableData(k, r);
    NormalMember(r.data, K_SCHEMA);
    assert k.valid(r.family, J.Normalize(r.data));
  }

  lemma SameDump(k: Kernel, r: Record)
    requires Publishable(k, r)
    ensures Canon(Stored(r)) == Canon(r) && Sha(k, Stored(r)) == Sha(k, r) && Rel(k, Stored(r)) == Rel(k, r)
  {
    PublishableData(k, r);
  }

  lemma CleanMember(v: J.Json, key: Text)
    requires J.Acceptable(v) && v.Obj? && key in v.members && v.members[key].Str?
    ensures J.IsClean(v.members[key].s)
  {
    assert J.Walks(v.members[key], 1, J.CleanNode);
  }

  lemma EntryIsGood(k: Kernel, r: Record)
    requires KernelOk(k) && Publishable(k, r)
    ensures GoodEntry(k, EntryOf(k, r))
  {
    PublishableData(k, r);
    CleanMember(r.data, K_SCHEMA);
    CleanMember(r.data, k.idField[r.family]);
    assert IsDigest(k, Sha(k, r));
    PathIsClean(r.family, Sha(k, r));
  }

  lemma PathIsClean(f: Text, s: Text)
    requires J.IsClean(f) && IsHexText(s)
    ensures J.IsClean(s) && J.IsClean(RelPath(f, s))
  {
    assert J.IsClean(s);
    R.CleanConcat(RECORDS_PREFIX, f);
    R.CleanConcat(RECORDS_PREFIX + f, [SLASH]);
    R.CleanConcat(RECORDS_PREFIX + f + [SLASH], s);
    R.CleanConcat(RECORDS_PREFIX + f + [SLASH] + s, JSON_SUFFIX);
  }

  /** A usable file at a record's path holds exactly that record's canonical bytes. */
  lemma SamePathSameBytes(k: Kernel, r: Record, bytes: Text)
    requires KernelOk(k) && Publishable(k, r) && RecordAt(k, Rel(k, r), bytes).Some?
    ensures bytes == Canon(r) && KeyOf(k, RecordAt(k, Rel(k, r), bytes).value) == KeyOf(k, r)
  {
    var r0 := RecordAt(k, Rel(k, r), bytes).value;
    RelPathInjective(r0.family, Sha(k, r0), r.family, Sha(k, r));
    assert k.hash(Canon(r0)) == k.hash(Canon(r));
    StoredRecord(k, r);
  }

  // ---------------------------------------------------------------------
  // The decision made under the lock
  // ---------------------------------------------------------------------

  datatype Decision = Refuse | Conflict | Replay | Go(entries: seq<Entry>)

  ghost predicate Registered(k: Kernel, es: seq<Entry>, r: Record)
    requires Identity(k, r).Some?
  {
    exists e :: e in es && (e.family, e.id) == KeyOf(k, r)
  }

  /** What the manifest lists; nothing when there is none or it cannot be read. */
  ghost function EntriesIn(k: Kernel, manifest: Option<Text>): seq<Entry>
  {
    if manifest.Some? && exists es :: ManifestLists(k, manifest.value, es) then
      var es :| ManifestLists(k, manifest.value, es);
      es
    else []
  }

  lemma EntriesAre(k: Kernel, t: Text, es: seq<Entry>)
    requires ManifestLists(k, t, es)
    ensures EntriesIn(k, Some(t)) == es
  {
    ManifestListsUnique(k, t, EntriesIn(k, Some(t)), es);
  }

  /** With these entries listed: a new (family, id) goes ahead, a taken one is a replay or a conflict. */
  ghost function DecideOn(k: Kernel, es: seq<Entry>, r: Record): Decision
    requires Identity(k, r).Some?
  {
    if !Registered(k, es, r) then Go(es)
    else if exists e: Entry :: e in es && (e.family, e.id) == KeyOf(k, r) && e.sha == Sha(k, r) then Replay
    else Conflict
  }

  ghost function Decide(k: Kernel, d: Disk, r: Record): Decision
    requires Identity(k, r).Some?
  {
    if !d.root then Go([])
    else if HasShape(k, d, None) || HasShape(k, d, Some(Rel(k, r))) then DecideOn(k, EntriesIn(k, d.manifest), r)
    else Refuse
  }

  // ---------------------------------------------------------------------
  // Shapes of the disk
  // ---------------------------------------------------------------------

  ghost predicate Absent(d: Disk) { d == Disk(false, None, false, map[]) }

  /** What a first publish leaves when it stops early: no manifest, at most one complete record. */
  ghost predicate Residue(k: Kernel, d: Disk)
  {
    d.root && d.manifest.None? && AllUsable(k, d.files) && |d.files| <= 1
  }

  ghost predicate Clean(k: Kernel, d: Disk) { HasShape(k, d, None) }

  /** A clean store but for one complete record file that the manifest does not list. */
  ghost predicate Orphaned(k: Kernel, d: Disk) { exists rel :: HasShape(k, d, Some(rel)) }

  ghost predicate Good(k: Kernel, d: Disk)
  {
    DiskOk(d) && (Absent(d) || Residue(k, d) || Clean(k, d) || Orphaned(k, d))
  }

  /** The orphan is a complete record whose (family, id) no entry has. */
  lemma OrphanIsUnregistered(k: Kernel, d: Disk, es: seq<Entry>, rel: Text)
    requires StoreIs(k, d, es, Some(rel))
    ensures rel in d.files && RecordAt(k, rel, d.files[rel]).Some?
    ensures !Registered(k, es, RecordAt(k, rel, d.files[rel]).value)
  {
    OrphanKey(k, d.files, es, rel);
  }

  lemma OrphanKey(k: Kernel, files: map<Text, Text>, es: seq<Entry>, rel: Text)
    requires FilesMatch(k, files, es, Some(rel))
    ensures rel in files && rel !in PathsOf(es)
    ensures forall e :: e in es ==> (e.family, e.id) != KeyAt(k, files, rel)
  {
    assert rel in files.Keys - PathsOf(es);
    forall e | e in es ensures (e.family, e.id) != KeyAt(k, files, rel) {
      assert e.path in PathsOf(es);
      assert !SameIds(k, files, e.path, rel);
    }
  }

  /** The four shapes exclude each other, and a store has at most one orphan. */
  lemma ShapesExclusive(k: Kernel, d: Disk, a: Option<Text>, b: Option<Text>)
    requires HasShape(k, d, a) && HasShape(k, d, b)
    ensures a == b && !Absent(d) && !Residue(k, d)
  {
    var es :| StoreIs(k, d, es, a);
    var fs :| StoreIs(k, d, fs, b);
    ManifestListsUnique(k, d.manifest.value, es, fs);
    var extra := d.files.Keys - PathsOf(es);
    if a.Some? { assert a.value in extra; }
    if b.Some? { assert b.value in extra; }
  }

  // ---------------------------------------------------------------------
  // Effects
  // ---------------------------------------------------------------------

  /**
   The disk after n of a publish's four effects: create the root, create
   records/, link the record file, replace the manifest.
   */
  function Effects(k: Kernel, d: Disk, r: Record, es: seq<Entry>, n: nat): Disk
    requires Identity(k, r).Some?
  {
    Disk(
      d.root || n >= 1,
      if n >= 4 then Some(ManifestText(es + [EntryOf(k, r)])) else d.manifest,
      d.records || n >= 2,
      if n >= 3 then d.files[Rel(k, r) := Canon(r)] else d.files)
  }

  /** The publish may go ahead on d with the entries es. */
  ghost predicate Proceeds(k: Kernel, d: Disk, r: Record, es: seq<Entry>)
  {
    KernelOk(k) && Publishable(k, r) && Good(k, d) && Decide(k, d, r) == Go(es)
  }

  /** What going ahead means: an absent root, a clean store without the record, or its own orphan. */
  lemma ProceedCases(k: Kernel, d: Disk, r: Record, es: seq<Entry>)
    requires Proceeds(k, d, r, es)
    ensures !d.root ==> Absent(d) && es == []
    ensures d.root ==> StoreIs(k, d, es, None) || StoreIs(k, d, es, Some(Rel(k, r)))
    ensures d.root ==> !Registered(k, es, r)
    ensures StoreIs(k, d, es, None) ==> Rel(k, r) !in d.files
    ensures Rel(k, r) in d.files ==> d.files[Rel(k, r)] == Canon(r)
  {
    if d.root {
      GoIsShaped(k, d, r, es);
      OwnPath(k, d, r, es);
    }
  }

  lemma GoMeans(k: Kernel, d: Disk, r: Record, es: seq<Entry>)
    requires Identity(k, r).Some? && d.root && Decide(k, d, r) == Go(es)
    ensures HasShape(k, d, None) || HasShape(k, d, Some(Rel(k, r)))
    ensures d.manifest.Some? && ManifestLists(k, d.manifest.value, es) && !Registered(k, es, r)
  {
    var fs := EntriesIn(k, d.manifest);
    assert DecideOn(k, fs, r) == Go(es);
    GoListed(k, fs, r, es);
    ShapeLists(k, d, if HasShape(k, d, None) then None else Some(Rel(k, r)));
  }

  lemma ShapeLists(k: Kernel, d: Disk, orphan: Option<Text>)
    requires HasShape(k, d, orphan)
    ensures d.manifest.Some? && ManifestLists(k, d.manifest.value, EntriesIn(k, d.manifest))
  {
    var es :| StoreIs(k, d, es, orphan);
    EntriesAre(k, d.manifest.value, es);
  }

  lemma GoListed(k: Kernel, es: seq<Entry>, r: Record, fs: seq<Entry>)
    requires Identity(k, r).Some? && DecideOn(k, es, r) == Go(fs)
    ensures fs == es && !Registered(k, es, r)
  {}

  lemma GoIsShaped(k: Kernel, d: Disk, r: Record, es: seq<Entry>)
    requires Identity(k, r).Some? && d.root && Decide(k, d, r) == Go(es)
    ensures StoreIs(k, d, es, None) || StoreIs(k, d, es, Some(Rel(k, r)))
    ensures !Registered(k, es, r)
  {
    GoMeans(k, d, r, es);
    ShapeFound(k, d, es, if HasShape(k, d, None) then None else Some(Rel(k, r)));
  }

  /** The entries of a shaped store are those its manifest lists. */
  lemma ShapeFound(k: Kernel, d: Disk, es: seq<Entry>, orphan: Option<Text>)
    requires HasShape(k, d, orphan) && d.manifest.Some? && ManifestLists(k, d.manifest.value, es)
    ensures StoreIs(k, d, es, orphan)
  {
    var fs :| StoreIs(k, d, fs, orphan);
    SameListed(k, d, fs, es, orphan);
  }

  lemma SameListed(k: Kernel, d: Disk, fs: seq<Entry>, es: seq<Entry>, orphan: Option<Text>)
    requires StoreIs(k, d, fs, orphan) && ManifestLists(k, d.manifest.value, es)
    ensures fs == es
  {
    ManifestListsUnique(k, d.manifest.value, fs, es);
  }

  lemma OwnPath(k: Kernel, d: Disk, r: Record, es: seq<Entry>)
    requires KernelOk(k) && Publishable(k, r) && !Registered(k, es, r)
    requires StoreIs(k, d, es, None) || StoreIs(k, d, es, Some(Rel(k, r)))
    ensures StoreIs(k, d, es, None) ==> Rel(k, r) !in d.files
    ensures Rel(k, r) in d.files ==> d.files[Rel(k, r)] == Canon(r)
  {
    if Rel(k, r) in d.files { OwnFile(k, d.files, es, r); }
  }

  lemma OwnFile(k: Kernel, files: map<Text, Text>, es: seq<Entry>, r: Record)
    requires KernelOk(k) && Publishable(k, r) && !Registered(k, es, r) && Rel(k, r) in files
    requires AllUsable(k, files) && EntriesBacked(k, files, es)
    ensures files[Rel(k, r)] == Canon(r) && files.Keys - PathsOf(es) != {}
  {
    SamePathSameBytes(k, r, files[Rel(k, r)]);
    NotWithoutOrphan(k, files, es, r);
  }

  lemma NotWithoutOrphan(k: Kernel, files: map<Text, Text>, es: seq<Entry>, r: Record)
    requires AllUsable(k, files) && EntriesBacked(k, files, es) && Identity(k, r).Some? && !Registered(k, es, r)
    requires Rel(k, r) in files && KeyAt(k, files, Rel(k, r)) == KeyOf(k, r)
    ensures files.Keys - PathsOf(es) != {}
  {
    PathNotListed(k, files, es, r);
    assert Rel(k, r) in files.Keys - PathsOf(es);
  }

  lemma PathNotListed(k: Kernel, files: map<Text, Text>, es: seq<Entry>, r: Record)
    requires AllUsable(k, files) && EntriesBacked(k, files, es) && Identity(k, r).Some? && !Registered(k, es, r)
    requires Rel(k, r) in files && KeyAt(k, files, Rel(k, r)) == KeyOf(k, r)
    ensures Rel(k, r) !in PathsOf(es)
  {
    forall e | e in es ensures e.path != Rel(k, r) {
      assert KeyAt(k, files, e.path) == (e.family, e.id) != KeyOf(k, r);
    }
  }

  // ---------------------------------------------------------------------
  // Every prefix of a publish's effects leaves a good disk
  // ---------------------------------------------------------------------

  /** Entries read from a manifest are entries the store could have written. */
  lemma ListedEntriesGood(k: Kernel, t: Text, es: seq<Entry>)
    requires ManifestLists(k, t, es)
    ensures forall e :: e in es ==> GoodEntry(k, e)
  {
    var v := S.Load(t).value;
    P.LoadedIsAcceptable(t, v);
    var arr := v.members[K_RECORDS];
    assert J.Walks(arr, 1, J.CleanNode);
    forall i | 0 <= i < |es| ensures GoodEntry(k, es[i]) {
      ReadEntryGood(k, arr.items[i], es[i]);
    }
  }

  lemma ReadEntryGood(k: Kernel, item: J.Json, e: Entry)
    requires J.Walks(item, 2, J.CleanNode) && ReadEntry(k, item) == Some(e)
    ensures GoodEntry(k, e)
  {
    forall key | key in item.members ensures J.Walks(item.members[key], 3, J.CleanNode) {}
  }

  /** With no orphan, every file's key is the key of some entry. */
  lemma KeysListed(k: Kernel, files: map<Text, Text>, es: seq<Entry>, r: Record)
    requires Identity(k, r).Some? && FilesMatch(k, files, es, None) && !Registered(k, es, r)
    ensures forall a :: a in files ==> a in PathsOf(es) && KeyAt(k, files, a) != KeyOf(k, r)
  {
    forall a | a in files ensures a in PathsOf(es) && KeyAt(k, files, a) != KeyOf(k, r) {
      assert a !in files.Keys - PathsOf(es);
      var e :| e in es && e.path == a;
      assert KeyAt(k, files, a) == (e.family, e.id);
    }
  }

  /** One more usable file leaves the others' keys as they were. */
  lemma OneMoreUsable(k: Kernel, files: map<Text, Text>, more: map<Text, Text>, rel: Text)
    requires AllUsable(k, files) && rel !in files && rel in more && more == files[rel := more[rel]]
    requires RecordAt(k, rel, more[rel]).Some?
    ensures AllUsable(k, more) && forall a :: a in files ==> a in more && KeyAt(k, more, a) == KeyAt(k, files, a)
  {
    forall a | a in more ensures RecordAt(k, a, more[a]).Some? {
      if a != rel { assert a in files && more[a] == files[a]; }
    }
    forall a | a in files ensures a in more && more[a] == files[a] {}
  }

  /** One more usable file with a key of its own keeps ids distinct. */
  lemma OneMoreDistinct(k: Kernel, files: map<Text, Text>, more: map<Text, Text>, rel: Text)
    requires AllUsable(k, files) && DistinctIds(k, files) && rel !in files && rel in more && more == files[rel := more[rel]]
    requires AllUsable(k, more) && forall a :: a in files ==> a in more && KeyAt(k, more, a) == KeyAt(k, files, a)
    requires forall a :: a in files ==> KeyAt(k, files, a) != KeyAt(k, more, rel)
    ensures DistinctIds(k, more)
  {
    forall a, b | a in more && b in more ensures !SameIds(k, more, a, b) {
      if a == rel && b != rel {
        assert KeyAt(k, more, b) == KeyAt(k, files, b) != KeyAt(k, more, rel);
      } else if a != rel && b == rel {
        assert KeyAt(k, more, a) == KeyAt(k, files, a) != KeyAt(k, more, rel);
      } else if a != rel {
        assert !SameIds(k, files, a, b);
      }
    }
  }

  /** A usable file with a key of its own beside a matching set of files is the orphan. */
  lemma OneMoreIsOrphan(k: Kernel, files: map<Text, Text>, more: map<Text, Text>, es: seq<Entry>, rel: Text)
    requires FilesMatch(k, files, es, None) && rel !in files && rel in more && more == files[rel := more[rel]]
    requires RecordAt(k, rel, more[rel]).Some?
    requires forall a :: a in files ==> KeyAt(k, files, a) != KeyOf(k, RecordAt(k, rel, more[rel]).value)
    ensures FilesMatch(k, more, es, Some(rel))
  {
    OneMoreUsable(k, files, more, rel);
    OneMoreMatches(k, files, more, es, rel);
  }

  lemma OneMoreMatches(k: Kernel, files: map<Text, Text>, more: map<Text, Text>, es: seq<Entry>, rel: Text)
    requires FilesMatch(k, files, es, None) && rel !in files && rel in more && more == files[rel := more[rel]]
    requires AllUsable(k, more) && forall a :: a in files ==> a in more && KeyAt(k, more, a) == KeyAt(k, files, a)
    requires forall a :: a in files ==> KeyAt(k, files, a) != KeyAt(k, more, rel)
    ensures FilesMatch(k, more, es, Some(rel))
  {
    OneMoreDistinct(k, files, more, rel);
    MoreBacked(k, files, more, es);
    OneMorePath(files, more, PathsOf(es), rel);
  }

  lemma MoreBacked(k: Kernel, files: map<Text, Text>, more: map<Text, Text>, es: seq<Entry>)
    requires AllUsable(k, files) && AllUsable(k, more) && EntriesBacked(k, files, es)
    requires forall a :: a in files ==> a in more && KeyAt(k, more, a) == KeyAt(k, files, a)
    ensures EntriesBacked(k, more, es)
    ensures forall p :: p in PathsOf(es) ==> p in files
  {
    forall e | e in es ensures e.path in more && KeyAt(k, more, e.path) == (e.family, e.id) {
      assert e.path in files;
    }
  }

  lemma OneMorePath(files: map<Text, Text>, more: map<Text, Text>, paths: set<Text>, rel: Text)
    requires files.Keys - paths == {} && rel !in files && more.Keys == files.Keys + {rel}
    requires forall p :: p in paths ==> p in files
    ensures more.Keys - paths == {rel}
  {
    forall a | a in files ensures a in paths { assert a !in files.Keys - paths; }
  }

  /** Linking a new record next to a matching set of files makes it the orphan. */
  lemma LinkMakesOrphan(k: Kernel, files: map<Text, Text>, es: seq<Entry>, r: Record)
    requires KernelOk(k) && Publishable(k, r) && FilesMatch(k, files, es, None)
    requires Rel(k, r) !in files && !Registered(k, es, r)
    ensures FilesMatch(k, files[Rel(k, r) := Canon(r)], es, Some(Rel(k, r)))
  {
    StoredRecord(k, r);
    KeysListed(k, files, es, r);
    OneMoreIsOrphan(k, files, files[Rel(k, r) := Canon(r)], es, Rel(k, r));
  }

  /** Listing the orphan with its own key completes the match. */
  lemma ListedOrphan(k: Kernel, files: map<Text, Text>, es: seq<Entry>, fs: seq<Entry>, added: Entry)
    requires FilesMatch(k, files, es, Some(added.path)) && added.path in files
    requires KeyAt(k, files, added.path) == (added.family, added.id)
    requires forall e :: e in fs <==> e in es || e == added
    ensures FilesMatch(k, files, fs, None)
  {
    assert EntriesBacked(k, files, fs);
    forall x | x in files.Keys ensures x in PathsOf(fs) {
      if x == added.path {
        assert added in fs;
      } else {
        assert x !in files.Keys - PathsOf(es);
        var e :| e in es && e.path == x;
        assert e in fs;
      }
    }
    assert files.Keys - PathsOf(fs) == {};
  }

  lemma RegisterOrphan(k: Kernel, files: map<Text, Text>, es: seq<Entry>, fs: seq<Entry>, r: Record)
    requires KernelOk(k) && Publishable(k, r) && FilesMatch(k, files, es, Some(Rel(k, r)))
    requires forall e :: e in fs <==> e in es || e == EntryOf(k, r)
    ensures Rel(k, r) in files && files[Rel(k, r)] == Canon(r) && FilesMatch(k, files, fs, None)
  {
    var rel := Rel(k, r);
    assert rel in files.Keys - PathsOf(es);
    SamePathSameBytes(k, r, files[rel]);
    ListedOrphan(k, files, es, fs, EntryOf(k, r));
  }

  /** The new entry has a new key and a new path. */
  lemma NewEntryDistinct(k: Kernel, files: map<Text, Text>, es: seq<Entry>, r: Record)
    requires Identity(k, r).Some? && DistinctKeys(es) && DistinctPaths(es) && !Registered(k, es, r)
    requires Rel(k, r) !in PathsOf(es)
    ensures DistinctKeys(es + [EntryOf(k, r)]) && DistinctPaths(es + [EntryOf(k, r)])
  {
    var e, more := EntryOf(k, r), es + [EntryOf(k, r)];
    forall i, j | 0 <= i < j < |more| ensures !SameKey(more[i], more[j]) && more[i].path != more[j].path {
      assert more[i] == es[i] && es[i] in es && es[i].path in PathsOf(es);
      if j == |es| { assert (es[i].family, es[i].id) != KeyOf(k, r); }
    }
  }

  /** The manifest written for the old entries and the new one is the text of its own sorted list. */
  lemma NewManifest(k: Kernel, es: seq<Entry>, r: Record)
    requires KernelOk(k) && Publishable(k, r) && (forall e :: e in es ==> GoodEntry(k, e))
    requires DistinctKeys(es + [EntryOf(k, r)]) && DistinctPaths(es + [EntryOf(k, r)])
    ensures var more := es + [EntryOf(k, r)];
      && ManifestLists(k, ManifestText(more), SortEntries(more))
      && ManifestText(more) == ManifestText(SortEntries(more))
      && forall e :: e in SortEntries(more) <==> e in es || e == EntryOf(k, r)
  {
    var more := es + [EntryOf(k, r)];
    EntryIsGood(k, r);
    WrittenManifestLists(k, more);
    SortSorted(more);
    SortedDistinct(more);
    ManifestDependsOnSet(more, SortEntries(more));
    assert forall e :: e in more <==> e in es || e == EntryOf(k, r);
  }

  /** After the link the record is the store's orphan; after the manifest the store is clean. */
  lemma FullPublish(k: Kernel, d: Disk, r: Record, es: seq<Entry>)
    requires Proceeds(k, d, r, es)
    ensures FilesMatch(k, Effects(k, d, r, es, 3).files, es, Some(Rel(k, r)))
    ensures StoreIs(k, Effects(k, d, r, es, 4), SortEntries(es + [EntryOf(k, r)]), None)
    ensures forall e :: e in SortEntries(es + [EntryOf(k, r)]) <==> e in es || e == EntryOf(k, r)
  {
    ProceedCases(k, d, r, es);
    var files := d.files[Rel(k, r) := Canon(r)];
    if d.root {
      ListedEntriesGood(k, d.manifest.value, es);
      if StoreIs(k, d, es, None) { LinkMakesOrphan(k, d.files, es, r); } else { OrphanFiles(k, d, es, r); }
    } else {
      assert FilesMatch(k, d.files, es, None);
      LinkMakesOrphan(k, d.files, es, r);
    }
    assert Rel(k, r) in files.Keys - PathsOf(es);
    NewEntryDistinct(k, files, es, r);
    NewManifest(k, es, r);
    RegisterOrphan(k, files, es, SortEntries(es + [EntryOf(k, r)]), r);
  }

  lemma OrphanFiles(k: Kernel, d: Disk, es: seq<Entry>, r: Record)
    requires Proceeds(k, d, r, es) && StoreIs(k, d, es, Some(Rel(k, r)))
    ensures d.files[Rel(k, r) := Canon(r)] == d.files
  {
    assert Rel(k, r) in d.files.Keys - PathsOf(es);
    SamePathSameBytes(k, r, d.files[Rel(k, r)]);
  }

  /** A store keeps its shape when only records/ may have appeared. */
  lemma SameShape(k: Kernel, d: Disk, e: Disk, es: seq<Entry>, orphan: Option<Text>)
    requires StoreIs(k, d, es, orphan) && e.root && e.manifest == d.manifest && e.files == d.files
    ensures StoreIs(k, e, es, orphan) && HasShape(k, e, orphan)
  {
    assert StoreIs(k, e, es, orphan);
  }

  lemma LinkedShape(k: Kernel, d: Disk, e: Disk, r: Record, es: seq<Entry>)
    requires d.manifest.Some? && ManifestLists(k, d.manifest.value, es) && d.manifest.value == ManifestText(es)
    requires e.root && e.manifest == d.manifest && FilesMatch(k, e.files, es, Some(Rel(k, r)))
    ensures StoreIs(k, e, es, Some(Rel(k, r))) && HasShape(k, e, Some(Rel(k, r)))
  {
    assert StoreIs(k, e, es, Some(Rel(k, r)));
  }

  lemma RootedEffects(k: Kernel, d: Disk, r: Record, es: seq<Entry>, n: nat)
    requires Proceeds(k, d, r, es) && d.root && n < 4
    ensures Good(k, Effects(k, d, r, es, n))
  {
    ProceedCases(k, d, r, es);
    var e := Effects(k, d, r, es, n);
    if n >= 3 {
      FullPublish(k, d, r, es);
      assert e.files == Effects(k, d, r, es, 3).files;
      LinkedShape(k, d, e, r, es);
    } else {
      SameShape(k, d, e, es, if StoreIs(k, d, es, None) then None else Some(Rel(k, r)));
    }
  }

  lemma FirstEffects(k: Kernel, d: Disk, r: Record, es: seq<Entry>, n: nat)
    requires Proceeds(k, d, r, es) && !d.root && n < 4
    ensures Good(k, Effects(k, d, r, es, n))
  {
    ProceedCases(k, d, r, es);
    FullPublish(k, d, r, es);
    var e := Effects(k, d, r, es, n);
    if n >= 3 { assert e.files == map[Rel(k, r) := Canon(r)] && e.files == Effects(k, d, r, es, 3).files; }
    assert n > 0 ==> Residue(k, e);
  }

  /** Wherever a publish stops, the disk has one of the four shapes. */
  lemma EffectsGood(k: Kernel, d: Disk, r: Record, es: seq<Entry>, n: nat)
    requires Proceeds(k, d, r, es)
    ensures Good(k, Effects(k, d, r, es, n))
    ensures n >= 4 ==> Clean(k, Effects(k, d, r, es, n))
  {
    if n >= 4 {
      FullPublish(k, d, r, es);
      assert Effects(k, d, r, es, n) == Effects(k, d, r, es, 4);
      assert HasShape(k, Effects(k, d, r, es, n), None);
    } else if d.root {
      RootedEffects(k, d, r, es, n);
    } else {
      FirstEffects(k, d, r, es, n);
    }
  }

  // ---------------------------------------------------------------------
  // What a publish promises its caller
  // ---------------------------------------------------------------------

  /**
   On a clean store: publishing adds exactly one entry and one file, unless the
   (family, id) is taken; then the same content is a replay and other content is
   refused.
   */
  lemma PublishOnClean(k: Kernel, d: Disk, r: Record, es: seq<Entry>)
    requires KernelOk(k) && Publishable(k, r) && DiskOk(d) && StoreIs(k, d, es, None)
    ensures Decide(k, d, r) ==
      if EntryOf(k, r) in es then Replay else if Registered(k, es, r) then Conflict else Go(es)
    ensures EntryOf(k, r) in es ==> Rel(k, r) in d.files && d.files[Rel(k, r)] == Canon(r)
    ensures !Registered(k, es, r) ==>
      && StoreIs(k, Effects(k, d, r, es, 4), SortEntries(es + [EntryOf(k, r)]), None)
      && Rel(k, r) !in d.files && Effects(k, d, r, es, 4).files == d.files[Rel(k, r) := Canon(r)]
  {
    assert HasShape(k, d, None);
    DecideOnShape(k, d, r, es, None);
    if EntryOf(k, r) in es { SamePathSameBytes(k, r, d.files[Rel(k, r)]); }
    if !Registered(k, es, r) { NewOnClean(k, d, r, es); }
  }

  lemma NewOnClean(k: Kernel, d: Disk, r: Record, es: seq<Entry>)
    requires Proceeds(k, d, r, es) && StoreIs(k, d, es, None)
    ensures StoreIs(k, Effects(k, d, r, es, 4), SortEntries(es + [EntryOf(k, r)]), None)
    ensures Rel(k, r) !in d.files && Effects(k, d, r, es, 4).files == d.files[Rel(k, r) := Canon(r)]
  {
    FullPublish(k, d, r, es);
    ProceedCases(k, d, r, es);
  }

  lemma DecideOnShape(k: Kernel, d: Disk, r: Record, es: seq<Entry>, orphan: Option<Text>)
    requires KernelOk(k) && Publishable(k, r)
    requires StoreIs(k, d, es, orphan) && (orphan == None || orphan == Some(Rel(k, r)))
    ensures Decide(k, d, r) ==
      if EntryOf(k, r) in es then Replay else if Registered(k, es, r) then Conflict else Go(es)
  {
    assert HasShape(k, d, orphan);
    EntriesAre(k, d.manifest.value, es);
    ListedEntriesGood(k, d.manifest.value, es);
    if EntryOf(k, r) in es { assert Registered(k, es, r); }
    forall e: Entry | e in es && (e.family, e.id) == KeyOf(k, r) && e.sha == Sha(k, r) ensures e == EntryOf(k, r) {
      assert GoodEntry(k, e);
    }
  }

  /**
   Adoption: after a crash between link and manifest, publishing the orphan's own
   record again goes ahead, rewrites no file, and ends in a clean store.
   */
  lemma OwnOrphanIsAdopted(k: Kernel, d: Disk, r: Record, es: seq<Entry>)
    requires KernelOk(k) && Publishable(k, r) && DiskOk(d) && StoreIs(k, d, es, Some(Rel(k, r)))
    ensures Decide(k, d, r) == Go(es)
    ensures Effects(k, d, r, es, 4).files == d.files
    ensures StoreIs(k, Effects(k, d, r, es, 4), SortEntries(es + [EntryOf(k, r)]), None)
  {
    OrphanIsUnregistered(k, d, es, Rel(k, r));
    SamePathSameBytes(k, r, d.files[Rel(k, r)]);
    DecideOnShape(k, d, r, es, Some(Rel(k, r)));
    assert HasShape(k, d, Some(Rel(k, r)));
    assert Proceeds(k, d, r, es);
    FullPublish(k, d, r, es);
    OrphanFiles(k, d, es, r);
  }

  /** While another record's orphan is present every publish is refused, even an exact replay. */
  lemma OtherOrphanBlocks(k: Kernel, d: Disk, r: Record, rel: Text)
    requires Identity(k, r).Some? && HasShape(k, d, Some(rel)) && rel != Rel(k, r)
    ensures Decide(k, d, r) == Refuse
  {
    if HasShape(k, d, None) { ShapesExclusive(k, d, None, Some(rel)); }
    if HasShape(k, d, Some(Rel(k, r))) { ShapesExclusive(k, d, Some(Rel(k, r)), Some(rel)); }
  }

  /** A root without a manifest refuses every publish, the empty root included. */
  lemma ResidueBlocks(k: Kernel, d: Disk, r: Record)
    requires Identity(k, r).Some? && d.root && d.manifest.None?
    ensures Decide(k, d, r) == Refuse
  {}

  // ---------------------------------------------------------------------
  // Entries and files correspond
  // ---------------------------------------------------------------------

  lemma EntryOfItsFile(k: Kernel, files: map<Text, Text>, es: seq<Entry>, e: Entry)
    requires KernelOk(k) && AllUsable(k, files) && EntriesBacked(k, files, es) && e in es && GoodEntry(k, e)
    ensures e.path in files && e == EntryOf(k, RecordAt(k, e.path, files[e.path]).value)
  {
    var r := RecordAt(k, e.path, files[e.path]).value;
    RelPathInjective(e.family, e.sha, r.family, Sha(k, r));
    assert KeyAt(k, files, e.path) == (e.family, e.id);
  }

  /**
   In a store with at most one orphan, entries and record files other than the
   orphan correspond one to one, each entry being exactly that of the record its
   file holds: family, id, hash and path.
   */
  lemma EntriesMatchFiles(k: Kernel, d: Disk, es: seq<Entry>, orphan: Option<Text>)
    requires KernelOk(k) && StoreIs(k, d, es, orphan)
    ensures forall e :: e in es ==> e.path in d.files && e == EntryOf(k, RecordAt(k, e.path, d.files[e.path]).value)
    ensures DistinctPaths(es)
    ensures forall rel :: rel in d.files && Some(rel) != orphan ==> exists e :: e in es && e.path == rel
  {
    ListedEntriesGood(k, d.manifest.value, es);
    EntriesHaveFiles(k, d.files, es);
    FilesHaveEntries(k, d.files, es, orphan);
  }

  lemma EntriesHaveFiles(k: Kernel, files: map<Text, Text>, es: seq<Entry>)
    requires KernelOk(k) && AllUsable(k, files) && EntriesBacked(k, files, es) && forall e :: e in es ==> GoodEntry(k, e)
    ensures forall e :: e in es ==> e.path in files && e == EntryOf(k, RecordAt(k, e.path, files[e.path]).value)
  {
    forall e | e in es ensures e.path in files && e == EntryOf(k, RecordAt(k, e.path, files[e.path]).value) {
      EntryOfItsFile(k, files, es, e);
    }
  }

  lemma FilesHaveEntries(k: Kernel, files: map<Text, Text>, es: seq<Entry>, orphan: Option<Text>)
    requires FilesMatch(k, files, es, orphan)
    ensures forall rel :: rel in files && Some(rel) != orphan ==> exists e :: e in es && e.path == rel
  {
    forall rel | rel in files && Some(rel) != orphan ensures exists e :: e in es && e.path == rel {
      assert rel !in files.Keys - PathsOf(es);
    }
  }

  // ---------------------------------------------------------------------
  // The store is a function of its set of records
  // ---------------------------------------------------------------------

  lemma SameFilesSameEntries(k: Kernel, files: map<Text, Text>, es: seq<Entry>, fs: seq<Entry>)
    requires KernelOk(k) && FilesMatch(k, files, es, None) && FilesMatch(k, files, fs, None)
    requires (forall e :: e in es ==> GoodEntry(k, e)) && (forall e :: e in fs ==> GoodEntry(k, e))
    ensures forall e :: e in es ==> e in fs
  {
    forall e | e in es ensures e in fs {
      assert e.path in files && e.path !in files.Keys - PathsOf(fs);
      var f :| f in fs && f.path == e.path;
      assert GoodEntry(k, e) && GoodEntry(k, f);
      assert (e.family, e.id) == (f.family, f.id);
      RelPathInjective(e.family, e.sha, f.family, f.sha);
    }
  }

  lemma UsableBytes(k: Kernel, rel: Text, a: Text, b: Text)
    requires KernelOk(k) && RecordAt(k, rel, a).Some? && RecordAt(k, rel, b).Some?
    ensures a == b
  {
    var r, s := RecordAt(k, rel, a).value, RecordAt(k, rel, b).value;
    RelPathInjective(r.family, Sha(k, r), s.family, Sha(k, s));
  }

  /**
   Two clean stores that hold records at the same paths are byte for byte the
   same, whatever the order in which the records were published.
   */
  lemma CleanStoreDetermined(k: Kernel, d: Disk, e: Disk)
    requires KernelOk(k) && Clean(k, d) && Clean(k, e) && d.files.Keys == e.files.Keys
    ensures d.files == e.files && d.manifest == e.manifest
  {
    var es :| StoreIs(k, d, es, None);
    var fs :| StoreIs(k, e, fs, None);
    SameFilesSameBytes(k, d.files, e.files);
    SameFilesSameManifest(k, d, e, es, fs);
  }

  lemma SameFilesSameBytes(k: Kernel, a: map<Text, Text>, b: map<Text, Text>)
    requires KernelOk(k) && AllUsable(k, a) && AllUsable(k, b) && a.Keys == b.Keys
    ensures a == b
  {
    forall rel | rel in a ensures a[rel] == b[rel] {
      UsableBytes(k, rel, a[rel], b[rel]);
    }
  }

  lemma SameFilesSameManifest(k: Kernel, d: Disk, e: Disk, es: seq<Entry>, fs: seq<Entry>)
    requires KernelOk(k) && StoreIs(k, d, es, None) && StoreIs(k, e, fs, None) && d.files == e.files
    ensures d.manifest == e.manifest
  {
    ListedEntriesGood(k, d.manifest.value, es);
    ListedEntriesGood(k, e.manifest.value, fs);
    SameFilesSameEntries(k, d.files, es, fs);
    SameFilesSameEntries(k, d.files, fs, es);
    ManifestDependsOnSet(es, fs);
  }
}
