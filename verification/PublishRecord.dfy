/**
 `publish_record` as it runs, on one store root whose nodes it changes in place.
 Any effect may fail; `budget` says how many succeed before that.
 */
module PublishRecord {
  import opened Texts
  import opened Manifest
  import opened Store
  import opened Publication

  datatype Receipt = Receipt(family: Text, id: Text, sha: Text, path: Text, alreadyPresent: bool, manifestSha: Text)

  datatype Outcome =
    | Published(receipt: Receipt)
    | NotARecord
    | NotClean
    | IdTaken
    | Failed

  function ReceiptFor(k: Kernel, r: Record, alreadyPresent: bool, manifest: Text): Receipt
    requires Identity(k, r).Some?
  {
    Receipt(r.family, Identity(k, r).value, Sha(k, r), Rel(k, r), alreadyPresent, k.hash(manifest))
  }

  /** The entry with this (family, id), if any. */
  method FindEntry(es: seq<Entry>, key: (Text, Text)) returns (found: Option<Entry>)
    ensures found.Some? ==> found.value in es && (found.value.family, found.value.id) == key
    ensures found.None? ==> forall e :: e in es ==> (e.family, e.id) != key
  {
    found := None;
    for i := 0 to |es|
      invariant found.Some? ==> found.value in es && (found.value.family, found.value.id) == key
      invariant found.None? ==> forall j :: 0 <= j < i ==> (es[j].family, es[j].id) != key
    {
      if (es[i].family, es[i].id) == key { found := Some(es[i]); }
    }
  }

  lemma DistinctEntries(k: Kernel, t: Text, es: seq<Entry>, a: Entry, b: Entry)
    requires ManifestLists(k, t, es) && a in es && b in es && SameKey(a, b)
    ensures a == b
  {
    forall i, j | 0 <= i < |es| && 0 <= j < |es| && SameKey(es[i], es[j]) ensures i == j {
      assert SameKey(es[j], es[i]);
    }
  }

  /** The index lookup settles the decision. */
  lemma LookupDecides(k: Kernel, d: Disk, r: Record, es: seq<Entry>, orphan: Option<Text>, found: Option<Entry>)
    requires Identity(k, r).Some?
    requires StoreIs(k, d, es, orphan) && (orphan == None || orphan == Some(Rel(k, r)))
    requires found.Some? ==> found.value in es && (found.value.family, found.value.id) == KeyOf(k, r)
    requires found.None? ==> forall e :: e in es ==> (e.family, e.id) != KeyOf(k, r)
    ensures Decide(k, d, r) ==
      if found.None? then Go(es) else if found.value.sha == Sha(k, r) then Replay else Conflict
  {
    assert HasShape(k, d, orphan);
    EntriesAre(k, d.manifest.value, es);
    forall e: Entry | found.Some? && e in es && (e.family, e.id) == KeyOf(k, r) ensures e == found.value {
      DistinctEntries(k, d.manifest.value, es, e, found.value);
    }
  }

  class StoreRoot {
    var root: bool
    var manifest: Option<Text>
    var records: bool
    var files: map<Text, Text>

    /** A store root that does not exist yet. */
    constructor ()
      ensures Absent(Snapshot())
    {
      root, manifest, records, files := false, None, false, map[];
    }

    function Snapshot(): Disk
      reads this
    {
      Disk(root, manifest, records, files)
    }

    /** `create_record_file`: directories first, then a link that never overwrites. */
    method CreateRecordFile(k: Kernel, r: Record, budget: nat) returns (ok: bool)
      requires Identity(k, r).Some?
      modifies this`root, this`records, this`files
      ensures ok <==> budget >= 3 && (Rel(k, r) in old(files) ==> old(files)[Rel(k, r)] == Canon(r))
      ensures root == (old(root) || budget >= 1) && records == (old(records) || budget >= 2)
      ensures files == if ok then old(files)[Rel(k, r) := Canon(r)] else old(files)
    {
      if budget < 1 { return false; }
      root := true;
      if budget < 2 { return false; }
      records := true;
      if budget < 3 { return false; }
      if Rel(k, r) in files { return files[Rel(k, r)] == Canon(r); }
      files := files[Rel(k, r) := Canon(r)];
      return true;
    }

    /**
     Publishes one record. An accepted source publishes exactly when the decision
     made on the disk allows it; wherever the effects stop, the disk is the prefix
     of them that was made; and the receipt names the manifest then on disk.
     */
    method Publish(k: Kernel, source: Text, budget: nat) returns (outcome: Outcome)
      requires KernelOk(k) && DiskOk(Snapshot())
      modifies this
      ensures match LoadedRecord(k, source)
        case None => outcome == NotARecord && Snapshot() == old(Snapshot())
        case Some(r) =>
          if Identity(k, r).None? then outcome == NotARecord && Snapshot() == old(Snapshot())
          else match Decide(k, old(Snapshot()), r)
            case Refuse => outcome == NotClean && Snapshot() == old(Snapshot())
            case Conflict => outcome == IdTaken && Snapshot() == old(Snapshot())
            case Replay =>
              && Snapshot() == old(Snapshot()) && manifest.Some?
              && outcome == Published(ReceiptFor(k, r, true, manifest.value))
            case Go(es) =>
              && Snapshot() == Effects(k, old(Snapshot()), r, es, if budget < 4 then budget else 4)
              && if budget < 4 then outcome == Failed
                 else manifest.Some? && outcome == Published(ReceiptFor(k, r, false, manifest.value))
    {
      var loaded := LoadRecord(k, source);
      if loaded.None? || Identity(k, loaded.value).None? { return NotARecord; }
      var r := loaded.value;
      var entries: seq<Entry> := [];
      if root {
        var problems, catalog, listed := ReconcileStore(k, Snapshot());
        if (problems != [] && problems != [ExtraRecord(Rel(k, r))]) || listed.None? {
          RefusedHere(k, Snapshot(), r, problems, listed);
          return NotClean;
        }
        entries := listed.value;
        ghost var orphan := if problems == [] then None else Some(Rel(k, r));
        ShapeFound(k, Snapshot(), entries, orphan);
        var existing := FindEntry(entries, KeyOf(k, r));
        LookupDecides(k, Snapshot(), r, entries, orphan, existing);
        if existing.Some? {
          if existing.value.sha != Sha(k, r) { return IdTaken; }
          return Published(ReceiptFor(k, r, true, manifest.value));
        }
      }
      assert Publishable(k, r);
      GoCanLink(k, Snapshot(), r, entries);
      outcome := WriteOut(k, r, entries, budget);
    }

    /** The two writes of a publish that goes ahead and whose name is free or its own. */
    method WriteOut(k: Kernel, r: Record, entries: seq<Entry>, budget: nat) returns (outcome: Outcome)
      requires Identity(k, r).Some? && (Rel(k, r) in files ==> files[Rel(k, r)] == Canon(r))
      modifies this
      ensures Snapshot() == Effects(k, old(Snapshot()), r, entries, if budget < 4 then budget else 4)
      ensures budget < 4 ==> outcome == Failed
      ensures budget >= 4 ==> manifest.Some? && outcome == Published(ReceiptFor(k, r, false, manifest.value))
    {
      var linked := CreateRecordFile(k, r, budget);
      if !linked || budget < 4 { return Failed; }
      manifest := Some(ManifestText(entries + [EntryOf(k, r)]));
      return Published(ReceiptFor(k, r, false, manifest.value));
    }
  }

  lemma GoCanLink(k: Kernel, d: Disk, r: Record, es: seq<Entry>)
    requires KernelOk(k) && Publishable(k, r) && DiskOk(d) && Decide(k, d, r) == Go(es)
    ensures Rel(k, r) in d.files ==> d.files[Rel(k, r)] == Canon(r)
  {
    if d.root {
      GoIsShaped(k, d, r, es);
      OwnPath(k, d, r, es);
    }
  }

  lemma RefusedHere(k: Kernel, d: Disk, r: Record, problems: seq<Problem>, listed: Option<seq<Entry>>)
    requires Identity(k, r).Some? && d.root
    requires problems == [] <==> HasShape(k, d, None) || Bare(d)
    requires forall rel :: problems == [ExtraRecord(rel)] <==> HasShape(k, d, Some(rel))
    requires listed.None? ==> d.manifest.None? || forall es :: !ManifestLists(k, d.manifest.value, es)
    requires (problems != [] && problems != [ExtraRecord(Rel(k, r))]) || listed.None?
    ensures Decide(k, d, r) == Refuse
  {
    if listed.None? { Unlisted(k, d); }
  }
}
