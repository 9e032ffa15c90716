/**
 Publishers and verifiers of one store root, interleaved in any way the root's
 lock allows, each able to fail between any two effects, and the whole process
 able to crash at any moment. What holds in every state of every such run.
 */
module PublishRuns {
  import opened Texts
  import opened Manifest
  import opened Store
  import opened Publication

  /**
   A publisher that goes ahead carries the entries it reconciled, how many of its
   four effects it has made, and, for the proof, the disk it reconciled.
   */
  datatype Thread =
    | Idle
    | Entered(record: Record)
    | Working(record: Record, entries: seq<Entry>, made: nat, start: Disk)
    | Verifying

  datatype System = System(disk: Disk, holder: Option<nat>, threads: seq<Thread>)

  // ---------------------------------------------------------------------
  // Effects and steps
  // ---------------------------------------------------------------------

  /** Linking never overwrites: a taken name is adopted if its bytes agree and an error otherwise. */
  ghost predicate CanLink(k: Kernel, d: Disk, r: Record)
  {
    Rel(k, r) in d.files ==> d.files[Rel(k, r)] == Canon(r)
  }

  /** One effect on the disk as it is now: mkdir root, mkdir records/, link, replace. */
  function Effect(k: Kernel, d: Disk, r: Record, es: seq<Entry>, n: nat): Disk
    requires Identity(k, r).Some?
  {
    match n
    case 0 => d.(root := true)
    case 1 => d.(records := true)
    case 2 => if Rel(k, r) in d.files then d else d.(files := d.files[Rel(k, r) := Canon(r)])
    case _ => d.(manifest := Some(ManifestText(es + [EntryOf(k, r)])))
  }

  ghost predicate Acquire(k: Kernel, s: System, t: System, i: nat)
  {
    && i < |s.threads| && s.threads[i].Idle? && s.holder == None
    && exists x: Thread :: (x.Verifying? || (x.Entered? && Publishable(k, x.record)))
         && t == System(s.disk, Some(i), s.threads[i := x])
  }

  /** Leaving the lock: normal return, a refusal, or an error raised at any point. */
  ghost predicate Release(s: System, t: System, i: nat)
  {
    i < |s.threads| && s.holder == Some(i) && t == System(s.disk, None, s.threads[i := Idle])
  }

  ghost predicate Reconcile(k: Kernel, s: System, t: System, i: nat)
  {
    && i < |s.threads| && s.threads[i].Entered?
    && var r := s.threads[i].record;
      && Identity(k, r).Some? && Decide(k, s.disk, r).Go?
      && t == s.(threads := s.threads[i := Working(r, Decide(k, s.disk, r).entries, 0, s.disk)])
  }

  ghost predicate Work(k: Kernel, s: System, t: System, i: nat)
  {
    && i < |s.threads| && s.threads[i].Working?
    && var w := s.threads[i];
      && w.made < 4 && Identity(k, w.record).Some? && (w.made == 2 ==> CanLink(k, s.disk, w.record))
      && t.disk == Effect(k, s.disk, w.record, w.entries, w.made)
      && t.holder == s.holder && t.threads == s.threads[i := w.(made := w.made + 1)]
  }

  ghost predicate StepOf(k: Kernel, s: System, t: System, i: nat)
  {
    Acquire(k, s, t, i) || Release(s, t, i) || Reconcile(k, s, t, i) || Work(k, s, t, i)
  }

  predicate AllIdle(threads: seq<Thread>)
  {
    forall i :: 0 <= i < |threads| ==> threads[i].Idle?
  }

  /** The process dies: locks and threads are gone, the disk stays. */
  ghost predicate Crash(s: System, t: System)
  {
    t.disk == s.disk && t.holder == None && |t.threads| == |s.threads| && AllIdle(t.threads)
  }

  ghost predicate Step(k: Kernel, s: System, t: System)
  {
    Crash(s, t) || exists i: nat :: StepOf(k, s, t, i)
  }

  ghost predicate Start(s: System)
  {
    Absent(s.disk) && s.holder == None && AllIdle(s.threads)
  }

  ghost predicate StepAt(k: Kernel, ss: seq<System>, i: nat)
    requires i < |ss| - 1
  {
    Step(k, ss[i], ss[i + 1])
  }

  ghost predicate Run(k: Kernel, ss: seq<System>)
  {
    && KernelOk(k) && |ss| > 0 && Start(ss[0])
    && forall i :: 0 <= i < |ss| - 1 ==> StepAt(k, ss, i)
  }

  lemma RunStep(k: Kernel, ss: seq<System>, i: nat)
    requires Run(k, ss) && 0 < i < |ss|
    ensures Step(k, ss[i - 1], ss[i])
  {
    assert StepAt(k, ss, i - 1);
  }

  // ---------------------------------------------------------------------
  // The invariant
  // ---------------------------------------------------------------------

  ghost predicate ThreadOk(k: Kernel, d: Disk, x: Thread)
  {
    match x
    case Idle => false
    case Verifying => true
    case Entered(r) => Publishable(k, r)
    case Working(r, es, n, start) => n <= 4 && Proceeds(k, start, r, es) && d == Effects(k, start, r, es, n)
  }

  /** At most the lock's holder is inside, and a working holder owns every change since it reconciled. */
  ghost predicate Inv(k: Kernel, s: System)
  {
    && Good(k, s.disk)
    && (s.holder.None? ==> AllIdle(s.threads))
    && (s.holder.Some? ==>
         && s.holder.value < |s.threads| && ThreadOk(k, s.disk, s.threads[s.holder.value])
         && forall j :: 0 <= j < |s.threads| && j != s.holder.value ==> s.threads[j].Idle?)
  }

  /** A link that adopts an existing file is the same as one that writes it. */
  lemma AdoptIsWrite(files: map<Text, Text>, rel: Text, bytes: Text)
    requires rel in files ==> files[rel] == bytes
    ensures (if rel in files then files else files[rel := bytes]) == files[rel := bytes]
  {}

  lemma EffectStep(k: Kernel, start: Disk, r: Record, es: seq<Entry>, n: nat)
    requires Identity(k, r).Some? && CanLink(k, start, r) && n < 4
    ensures Effect(k, Effects(k, start, r, es, n), r, es, n) == Effects(k, start, r, es, n + 1)
    ensures Effects(k, start, r, es, n).files == if n < 3 then start.files else start.files[Rel(k, r) := Canon(r)]
  {
    if n == 2 { LinkStep(k, start, r, es); }
  }

  lemma LinkStep(k: Kernel, start: Disk, r: Record, es: seq<Entry>)
    requires Identity(k, r).Some? && CanLink(k, start, r)
    ensures Effect(k, Effects(k, start, r, es, 2), r, es, 2) == Effects(k, start, r, es, 3)
  {
    AdoptIsWrite(start.files, Rel(k, r), Canon(r));
  }

  /** A publisher's next effect on the current disk is the next effect on the disk it reconciled. */
  lemma NextEffect(k: Kernel, start: Disk, r: Record, es: seq<Entry>, n: nat)
    requires Proceeds(k, start, r, es) && n < 4
    ensures Effect(k, Effects(k, start, r, es, n), r, es, n) == Effects(k, start, r, es, n + 1)
    ensures n == 2 ==> CanLink(k, Effects(k, start, r, es, n), r)
  {
    ProceedCases(k, start, r, es);
    EffectStep(k, start, r, es, n);
  }

  lemma WorkKeeps(k: Kernel, s: System, t: System, i: nat)
    requires KernelOk(k) && Inv(k, s) && Work(k, s, t, i)
    ensures Inv(k, t)
  {
    var w := s.threads[i];
    NextEffect(k, w.start, w.record, w.entries, w.made);
    EffectsGood(k, w.start, w.record, w.entries, w.made + 1);
  }

  lemma ReconcileKeeps(k: Kernel, s: System, t: System, i: nat)
    requires KernelOk(k) && Inv(k, s) && Reconcile(k, s, t, i)
    ensures Inv(k, t)
  {
    var x := t.threads[i];
    assert Proceeds(k, s.disk, x.record, x.entries);
    assert Effects(k, s.disk, x.record, x.entries, 0) == s.disk;
  }

  lemma StepKeeps(k: Kernel, s: System, t: System)
    requires KernelOk(k) && Inv(k, s) && Step(k, s, t)
    ensures Inv(k, t)
  {
    if !Crash(s, t) {
      var i: nat :| StepOf(k, s, t, i);
      if Reconcile(k, s, t, i) { ReconcileKeeps(k, s, t, i); }
      else if Work(k, s, t, i) { WorkKeeps(k, s, t, i); }
    }
  }

  /**
   Crash safety: in every state of every run the disk is an absent root, the
   residue of a first publish, a clean store, or a clean store plus one complete
   orphan.
   */
  lemma {:induction false} RunsAreSafe(k: Kernel, ss: seq<System>, i: nat)
    requires Run(k, ss) && i < |ss|
    ensures Inv(k, ss[i])
  {
    if i > 0 {
      RunsAreSafe(k, ss, i - 1);
      RunStep(k, ss, i);
      StepKeeps(k, ss[i - 1], ss[i]);
    }
  }

  // ---------------------------------------------------------------------
  // No lost update, no torn view
  // ---------------------------------------------------------------------

  ghost predicate Listed(k: Kernel, d: Disk, e: Entry) { e in EntriesIn(k, d.manifest) }

  /** A publisher that goes ahead has the entries on disk, and they stay there until its last effect. */
  lemma StillCurrent(k: Kernel, start: Disk, r: Record, es: seq<Entry>, n: nat)
    requires Proceeds(k, start, r, es) && n < 4
    ensures EntriesIn(k, Effects(k, start, r, es, n).manifest) == es
  {
    ProceedCases(k, start, r, es);
    if start.root { EntriesAre(k, start.manifest.value, es); }
  }

  /** After its last effect the store is clean and lists those entries and the publisher's own. */
  lemma Replaced(k: Kernel, start: Disk, r: Record, es: seq<Entry>)
    requires Proceeds(k, start, r, es)
    ensures var d := Effects(k, start, r, es, 4);
      Clean(k, d) && forall e :: Listed(k, d, e) <==> e in es || e == EntryOf(k, r)
  {
    FullPublish(k, start, r, es);
    var d, sorted := Effects(k, start, r, es, 4), SortEntries(es + [EntryOf(k, r)]);
    assert StoreIs(k, d, sorted, None);
    EntriesAre(k, d.manifest.value, sorted);
  }

  /**
   Serialization: until a publisher has replaced the manifest, its reconciled
   entries are exactly the disk's; its next effect is never refused; when it has
   made all effects the store is clean and lists its entry; and nobody else is
   inside.
   */
  lemma NoLostUpdate(k: Kernel, ss: seq<System>, i: nat, p: nat)
    requires Run(k, ss) && i < |ss| && p < |ss[i].threads| && ss[i].threads[p].Working?
    ensures var w := ss[i].threads[p];
      && (w.made < 4 ==> w.entries == EntriesIn(k, ss[i].disk.manifest))
      && (w.made == 2 ==> CanLink(k, ss[i].disk, w.record))
      && Identity(k, w.record).Some?
      && (w.made == 4 ==> Clean(k, ss[i].disk) && Listed(k, ss[i].disk, EntryOf(k, w.record)))
      && forall j :: 0 <= j < |ss[i].threads| && j != p ==> ss[i].threads[j].Idle?
  {
    RunsAreSafe(k, ss, i);
    var w := ss[i].threads[p];
    ProceedCases(k, w.start, w.record, w.entries);
    if w.made < 4 {
      NextEffect(k, w.start, w.record, w.entries, w.made);
      StillCurrent(k, w.start, w.record, w.entries, w.made);
    } else {
      Replaced(k, w.start, w.record, w.entries);
    }
  }

  /** A verifier never runs beside a publisher, so it never sees a publish half done by a live thread. */
  lemma VerifierSeesSettledStore(k: Kernel, ss: seq<System>, i: nat, v: nat)
    requires Run(k, ss) && i < |ss| && v < |ss[i].threads| && ss[i].threads[v].Verifying?
    ensures Good(k, ss[i].disk)
    ensures forall j :: 0 <= j < |ss[i].threads| && j != v ==> ss[i].threads[j].Idle?
  {
    RunsAreSafe(k, ss, i);
  }

  // ---------------------------------------------------------------------
  // Append only
  // ---------------------------------------------------------------------

  ghost predicate BytesKept(d: Disk, d': Disk)
  {
    forall rel :: rel in d.files ==> rel in d'.files && d'.files[rel] == d.files[rel]
  }

  ghost predicate EntriesKept(k: Kernel, d: Disk, d': Disk)
  {
    forall e :: Listed(k, d, e) ==> Listed(k, d', e)
  }

  /** Only grows: files keep their bytes, entries stay listed. */
  ghost predicate Grows(k: Kernel, d: Disk, d': Disk)
  {
    BytesKept(d, d') && EntriesKept(k, d, d')
  }

  lemma ReplaceGrows(k: Kernel, start: Disk, r: Record, es: seq<Entry>)
    requires Proceeds(k, start, r, es)
    ensures EntriesKept(k, Effects(k, start, r, es, 3), Effects(k, start, r, es, 4))
  {
    StillCurrent(k, start, r, es, 3);
    Replaced(k, start, r, es);
  }

  lemma EarlyGrows(k: Kernel, d: Disk, r: Record, es: seq<Entry>, n: nat)
    requires Identity(k, r).Some? && n < 3
    ensures Effect(k, d, r, es, n).manifest == d.manifest && BytesKept(d, Effect(k, d, r, es, n))
  {}

  lemma EffectGrows(k: Kernel, start: Disk, r: Record, es: seq<Entry>, n: nat)
    requires Proceeds(k, start, r, es) && n < 4
    ensures Grows(k, Effects(k, start, r, es, n), Effect(k, Effects(k, start, r, es, n), r, es, n))
  {
    NextEffect(k, start, r, es, n);
    if n == 3 {
      ReplaceGrows(k, start, r, es);
    } else {
      EarlyGrows(k, Effects(k, start, r, es, n), r, es, n);
    }
  }

  lemma StepGrows(k: Kernel, s: System, t: System)
    requires KernelOk(k) && Inv(k, s) && Step(k, s, t)
    ensures Grows(k, s.disk, t.disk)
  {
    if i: nat :| Work(k, s, t, i) {
      var w := s.threads[i];
      EffectGrows(k, w.start, w.record, w.entries, w.made);
    } else {
      assert t.disk == s.disk;
    }
  }

  /** Append-only over whole runs: what is published stays published with the same bytes. */
  lemma {:induction false} RunsAppendOnly(k: Kernel, ss: seq<System>, i: nat, j: nat)
    requires Run(k, ss) && i <= j < |ss|
    ensures Grows(k, ss[i].disk, ss[j].disk)
  {
    if i < j {
      RunsAppendOnly(k, ss, i, j - 1);
      RunsAreSafe(k, ss, j - 1);
      RunStep(k, ss, j);
      StepGrows(k, ss[j - 1], ss[j]);
    }
  }

  // ---------------------------------------------------------------------
  // Residue is final
  // ---------------------------------------------------------------------

  predicate NoneWorking(threads: seq<Thread>)
  {
    forall i :: 0 <= i < |threads| ==> !threads[i].Working?
  }

  /** The residue of a first publish, with nobody still at work on it. */
  ghost predicate Stranded(k: Kernel, s: System) { Residue(k, s.disk) && NoneWorking(s.threads) }

  lemma StrandedStep(k: Kernel, s: System, t: System)
    requires s.disk.root && s.disk.manifest.None? && NoneWorking(s.threads) && Step(k, s, t)
    ensures NoneWorking(t.threads) && t.disk == s.disk
  {
    if !Crash(s, t) {
      var i: nat :| StepOf(k, s, t, i);
      if Reconcile(k, s, t, i) { ResidueBlocks(k, s.disk, s.threads[i].record); }
    }
  }

  lemma {:induction false} StrandedStays(k: Kernel, ss: seq<System>, i: nat, j: nat)
    requires Run(k, ss) && i <= j < |ss|
    requires ss[i].disk.root && ss[i].disk.manifest.None? && NoneWorking(ss[i].threads)
    ensures NoneWorking(ss[j].threads) && ss[j].disk == ss[i].disk
  {
    if i < j {
      StrandedStays(k, ss, i, j - 1);
      RunStep(k, ss, j);
      StrandedStep(k, ss[j - 1], ss[j]);
    }
  }

  /** Once a first publish has stopped early, no later run of publishes changes the disk. */
  lemma ResidueIsFinal(k: Kernel, ss: seq<System>, i: nat, j: nat)
    requires Run(k, ss) && i <= j < |ss| && Stranded(k, ss[i])
    ensures Stranded(k, ss[j]) && ss[j].disk == ss[i].disk
  {
    StrandedStays(k, ss, i, j);
  }

  // ---------------------------------------------------------------------
  // The manifest is the set of completed publishes
  // ---------------------------------------------------------------------

  /** Publisher p has made all its effects, with e for its record. */
  ghost predicate Completes(k: Kernel, s: System, p: nat, e: Entry)
  {
    && p < |s.threads| && s.threads[p].Working? && s.threads[p].made == 4
    && Identity(k, s.threads[p].record).Some? && e == EntryOf(k, s.threads[p].record)
  }

  /** Publisher p finds that its record, with entry e, is published already. */
  ghost predicate Replays(k: Kernel, s: System, p: nat, e: Entry)
  {
    && p < |s.threads| && s.threads[p].Entered? && Identity(k, s.threads[p].record).Some?
    && Decide(k, s.disk, s.threads[p].record).Replay? && e == EntryOf(k, s.threads[p].record)
  }

  /** The two ways in which a publisher reports e as published. */
  ghost predicate Publishes(k: Kernel, s: System, p: nat, e: Entry)
  {
    Completes(k, s, p, e) || Replays(k, s, p, e)
  }

  /** Some publish of e was complete by state i. */
  ghost predicate PublishedBy(k: Kernel, ss: seq<System>, i: nat, e: Entry)
  {
    exists h: nat, p: nat :: h <= i && h < |ss| && Publishes(k, ss[h], p, e)
  }

  /** Some publisher had made all its effects for e by state i. */
  ghost predicate CompletedBy(k: Kernel, ss: seq<System>, i: nat, e: Entry)
  {
    exists h: nat, p: nat :: h <= i && h < |ss| && Completes(k, ss[h], p, e)
  }

  lemma CompletedIsPublished(k: Kernel, ss: seq<System>, i: nat, e: Entry)
    requires CompletedBy(k, ss, i, e)
    ensures PublishedBy(k, ss, i, e)
  {
    var h: nat, p: nat :| h <= i && h < |ss| && Completes(k, ss[h], p, e);
    assert Publishes(k, ss[h], p, e);
  }

  lemma NowPublished(k: Kernel, ss: seq<System>, i: nat, p: nat, e: Entry)
    requires i < |ss| && Completes(k, ss[i], p, e)
    ensures PublishedBy(k, ss, i, e)
  {
    assert Publishes(k, ss[i], p, e);
  }

  lemma StillPublished(k: Kernel, ss: seq<System>, i: nat, j: nat, e: Entry)
    requires i <= j && PublishedBy(k, ss, i, e)
    ensures PublishedBy(k, ss, j, e)
  {
    var h: nat, p: nat :| h <= i && h < |ss| && Publishes(k, ss[h], p, e);
    assert h <= j;
  }

  lemma ReplayIsListed(k: Kernel, d: Disk, r: Record)
    requires Identity(k, r).Some? && Decide(k, d, r).Replay?
    ensures Listed(k, d, EntryOf(k, r))
  {
    ShapeLists(k, d, if HasShape(k, d, None) then None else Some(Rel(k, r)));
    ListedEntriesGood(k, d.manifest.value, EntriesIn(k, d.manifest));
    ReplayFinds(k, EntriesIn(k, d.manifest), r);
  }

  lemma ReplayFinds(k: Kernel, es: seq<Entry>, r: Record)
    requires Identity(k, r).Some? && DecideOn(k, es, r).Replay? && forall e :: e in es ==> GoodEntry(k, e)
    ensures EntryOf(k, r) in es
  {
    var e: Entry :| e in es && (e.family, e.id) == KeyOf(k, r) && e.sha == Sha(k, r);
    assert GoodEntry(k, e);
  }

  /** A complete publish is listed at once. */
  lemma PublishIsListed(k: Kernel, ss: seq<System>, i: nat, p: nat, e: Entry)
    requires Run(k, ss) && i < |ss| && Publishes(k, ss[i], p, e)
    ensures Listed(k, ss[i].disk, e)
  {
    if Completes(k, ss[i], p, e) {
      NoLostUpdate(k, ss, i, p);
    } else {
      ReplayIsListed(k, ss[i].disk, ss[i].threads[p].record);
    }
  }

  /** A complete publish is listed in every later state. */
  lemma PublishStaysListed(k: Kernel, ss: seq<System>, h: nat, i: nat, p: nat, e: Entry)
    requires Run(k, ss) && h <= i < |ss| && Publishes(k, ss[h], p, e)
    ensures Listed(k, ss[i].disk, e)
  {
    PublishIsListed(k, ss, h, p, e);
    RunsAppendOnly(k, ss, h, i);
  }

  /** A publisher's effect is the next one on the disk it reconciled. */
  lemma WorkStates(k: Kernel, s: System, t: System, i: nat)
    requires KernelOk(k) && Inv(k, s) && Work(k, s, t, i)
    ensures var w := s.threads[i];
      && Proceeds(k, w.start, w.record, w.entries)
      && s.disk == Effects(k, w.start, w.record, w.entries, w.made)
      && t.disk == Effects(k, w.start, w.record, w.entries, w.made + 1)
    ensures s.threads[i].made == 3 ==> Completes(k, t, i, EntryOf(k, s.threads[i].record))
  {
    var w := s.threads[i];
    NextEffect(k, w.start, w.record, w.entries, w.made);
  }

  lemma EffectLists(k: Kernel, start: Disk, r: Record, es: seq<Entry>, n: nat, e: Entry)
    requires Proceeds(k, start, r, es) && n < 4
    ensures var d, d' := Effects(k, start, r, es, n), Effects(k, start, r, es, n + 1);
      if n < 3 then d'.manifest == d.manifest else Listed(k, d', e) ==> Listed(k, d, e) || e == EntryOf(k, r)
  {
    if n == 3 {
      StillCurrent(k, start, r, es, 3);
      Replaced(k, start, r, es);
    }
  }

  /** Only a publisher's effect changes the disk. */
  lemma StepWorks(k: Kernel, s: System, t: System) returns (i: nat)
    requires Step(k, s, t)
    ensures t.disk == s.disk || Work(k, s, t, i)
  {
    i := 0;
    if t.disk != s.disk { i :| StepOf(k, s, t, i); }
  }

  /** One step makes an entry listed, or changes the manifest at all, only by completing a publish. */
  lemma StepLists(k: Kernel, s: System, t: System, e: Entry) returns (p: nat, own: Entry)
    requires KernelOk(k) && Inv(k, s) && Step(k, s, t)
    ensures t.disk.manifest == s.disk.manifest || Completes(k, t, p, own)
    ensures Listed(k, t.disk, e) ==> Listed(k, s.disk, e) || e == own
  {
    p := StepWorks(k, s, t);
    own := e;
    if t.disk != s.disk {
      var w := s.threads[p];
      WorkStates(k, s, t, p);
      EffectLists(k, w.start, w.record, w.entries, w.made, e);
      own := EntryOf(k, w.record);
    }
  }

  lemma RunLists(k: Kernel, ss: seq<System>, i: nat, e: Entry) returns (p: nat, own: Entry)
    requires Run(k, ss) && 0 < i < |ss|
    ensures ss[i].disk.manifest == ss[i - 1].disk.manifest || Completes(k, ss[i], p, own)
    ensures Listed(k, ss[i].disk, e) ==> Listed(k, ss[i - 1].disk, e) || e == own
  {
    RunsAreSafe(k, ss, i - 1);
    RunStep(k, ss, i);
    p, own := StepLists(k, ss[i - 1], ss[i], e);
  }

  /** What each state of a run lists. */
  lemma Listings(k: Kernel, ss: seq<System>) returns (lists: seq<seq<Entry>>)
    ensures |lists| == |ss|
    ensures forall j :: 0 <= j < |lists| ==> lists[j] == EntriesIn(k, ss[j].disk.manifest)
  {
    lists := seq(|ss|, j requires 0 <= j < |ss| => EntriesIn(k, ss[j].disk.manifest));
  }

  /** Where the unbroken stretch of lists with e that reaches up to i starts. */
  lemma {:induction false} StartOfStretch(lists: seq<seq<Entry>>, i: nat, e: Entry) returns (h: nat)
    requires i < |lists| && e in lists[i]
    ensures h <= i && e in lists[h] && (h == 0 || e !in lists[h - 1])
  {
    h := i;
    if i > 0 && e in lists[i - 1] { h := StartOfStretch(lists, i - 1, e); }
  }

  /** A listed entry was published by someone in the run: when its listing starts, its publisher has made all effects. */
  lemma ListedWasPublished(k: Kernel, ss: seq<System>, i: nat, e: Entry)
    requires Run(k, ss) && i < |ss| && Listed(k, ss[i].disk, e)
    ensures CompletedBy(k, ss, i, e)
  {
    var lists := Listings(k, ss);
    var h := StartOfStretch(lists, i, e);
    var p := FirstListed(k, ss, h, e);
  }

  lemma FirstListed(k: Kernel, ss: seq<System>, h: nat, e: Entry) returns (p: nat)
    requires Run(k, ss) && h < |ss| && Listed(k, ss[h].disk, e) && (h == 0 || !Listed(k, ss[h - 1].disk, e))
    ensures Completes(k, ss[h], p, e)
  {
    if h == 0 {
      NothingListed(k, ss[0].disk, e);
    } else {
      var own;
      p, own := RunLists(k, ss, h, e);
    }
  }

  lemma NothingListed(k: Kernel, d: Disk, e: Entry)
    requires Absent(d)
    ensures !Listed(k, d, e)
  {}

  /** A manifest is there only when some publish was completed. */
  lemma {:induction false} ManifestWasPublished(k: Kernel, ss: seq<System>, i: nat) returns (e: Entry)
    requires Run(k, ss) && i < |ss|
    ensures ss[i].disk.manifest == None || PublishedBy(k, ss, i, e)
  {
    if i > 0 {
      e := ManifestWasPublished(k, ss, i - 1);
      var p, own := RunLists(k, ss, i, e);
      if Completes(k, ss[i], p, own) {
        e := own;
        NowPublished(k, ss, i, p, e);
      } else if PublishedBy(k, ss, i - 1, e) {
        StillPublished(k, ss, i - 1, i, e);
      }
    } else {
      e := Entry([], [], [], []);
    }
  }

  /** In every state of every run the manifest lists exactly what was published up to then. */
  lemma ManifestIsWhatWasPublished(k: Kernel, ss: seq<System>, i: nat)
    requires Run(k, ss) && i < |ss|
    ensures forall e :: Listed(k, ss[i].disk, e) <==> PublishedBy(k, ss, i, e)
    ensures ss[i].disk.manifest.Some? <==> exists e :: PublishedBy(k, ss, i, e)
  {
    forall e ensures Listed(k, ss[i].disk, e) <==> PublishedBy(k, ss, i, e) {
      if Listed(k, ss[i].disk, e) {
        ListedWasPublished(k, ss, i, e);
        CompletedIsPublished(k, ss, i, e);
      }
      if PublishedBy(k, ss, i, e) {
        var h: nat, p: nat :| h <= i && h < |ss| && Publishes(k, ss[h], p, e);
        PublishStaysListed(k, ss, h, i, p, e);
      }
    }
    var e := ManifestWasPublished(k, ss, i);
  }

  // ---------------------------------------------------------------------
  // Order independence
  // ---------------------------------------------------------------------

  /** In a good disk the manifest is the text of the entries it lists. */
  lemma GoodManifest(k: Kernel, d: Disk)
    requires Good(k, d) && d.manifest.Some?
    ensures var es := EntriesIn(k, d.manifest);
      d.manifest.value == ManifestText(es) && DistinctKeys(es) && (Clean(k, d) ==> StoreIs(k, d, es, None))
  {
    var orphan: Option<Text> := None;
    if !Clean(k, d) {
      var rel :| HasShape(k, d, Some(rel));
      orphan := Some(rel);
    }
    var es :| StoreIs(k, d, es, orphan);
    EntriesAre(k, d.manifest.value, es);
  }

  lemma SameListedSameManifest(k: Kernel, d: Disk, d': Disk)
    requires Good(k, d) && Good(k, d') && d.manifest.Some? && d'.manifest.Some?
    requires forall e :: Listed(k, d, e) <==> Listed(k, d', e)
    ensures d.manifest == d'.manifest
  {
    var es, fs := EntriesIn(k, d.manifest), EntriesIn(k, d'.manifest);
    GoodManifest(k, d);
    GoodManifest(k, d');
    assert forall e :: e in es <==> Listed(k, d, e);
    assert forall e :: e in fs <==> Listed(k, d', e);
    ManifestDependsOnSet(es, fs);
  }

  lemma SameListedSamePaths(k: Kernel, d: Disk, d': Disk)
    requires KernelOk(k) && Good(k, d) && Good(k, d') && Clean(k, d) && Clean(k, d')
    requires forall e :: Listed(k, d, e) <==> Listed(k, d', e)
    ensures d.files.Keys == d'.files.Keys
  {
    var es, fs := EntriesIn(k, d.manifest), EntriesIn(k, d'.manifest);
    GoodManifest(k, d);
    GoodManifest(k, d');
    assert forall e :: e in es <==> Listed(k, d, e);
    assert forall e :: e in fs <==> Listed(k, d', e);
    SamePaths(es, fs);
    CleanPaths(k, d, es);
    CleanPaths(k, d', fs);
  }

  lemma SamePaths(es: seq<Entry>, fs: seq<Entry>)
    requires forall e :: e in es <==> e in fs
    ensures PathsOf(es) == PathsOf(fs)
  {}

  lemma CleanPaths(k: Kernel, d: Disk, es: seq<Entry>)
    requires KernelOk(k) && StoreIs(k, d, es, None)
    ensures d.files.Keys == PathsOf(es)
  {
    EntriesMatchFiles(k, d, es, None);
  }

  /**
   Two runs in which the same records have been published so far have the same
   manifest, byte for byte, whatever the order, the interleaving and the crashes;
   and where both are clean they have the same files.
   */
  lemma RunsConverge(k: Kernel, ss: seq<System>, ts: seq<System>, i: nat, j: nat)
    requires Run(k, ss) && Run(k, ts) && i < |ss| && j < |ts|
    requires forall e :: PublishedBy(k, ss, i, e) <==> PublishedBy(k, ts, j, e)
    ensures ss[i].disk.manifest == ts[j].disk.manifest
    ensures Clean(k, ss[i].disk) && Clean(k, ts[j].disk) ==> ss[i].disk.files == ts[j].disk.files
  {
    RunsAreSafe(k, ss, i);
    RunsAreSafe(k, ts, j);
    ManifestIsWhatWasPublished(k, ss, i);
    ManifestIsWhatWasPublished(k, ts, j);
    var d, d' := ss[i].disk, ts[j].disk;
    if d.manifest.Some? { SameListedSameManifest(k, d, d'); }
    if Clean(k, d) && Clean(k, d') {
      SameListedSamePaths(k, d, d');
      CleanStoreDetermined(k, d, d');
    }
  }
}
