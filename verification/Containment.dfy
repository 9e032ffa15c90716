/**
 Bounded capture of a child process: two pipe readers, a stdin writer and a
 supervisor, interleaved in any way. Each step is what one of them does between
 two points at which another can act; reads, writes, closes and cleanup can end
 either way.
 */
module Containment {
  import opened Texts

  // ---------------------------------------------------------------------
  // Facts about a run
  // ---------------------------------------------------------------------

  datatype Execution = NotApplicable | Completed | Timeout | LaunchFailed | CleanupFailed | ExecutorFailed
  datatype Cleanup = NoCleanup | NotRequired | NotStarted | Verified | Unverified | Failed

  /** `_STATUS_PAIRS` */
  predicate StatusPair(e: Execution, c: Cleanup)
  {
    match e
    case NotApplicable => c == NoCleanup
    case Completed => c == NotRequired || c == Verified || c == Failed
    case Timeout => c == Verified
    case LaunchFailed => c == NotStarted
    case CleanupFailed => c == Failed
    case ExecutorFailed => c == Unverified || c == Verified
  }

  /** `process_facts_are_valid` */
  predicate FactsValid(e: Execution, c: Cleanup, verified: bool)
  {
    StatusPair(e, c) && verified == (c in {NoCleanup, NotRequired, NotStarted, Verified})
  }

  type Bytes = seq<bv8>

  datatype Cause =
    | StdoutLimit | StdoutRead | StdoutClose | StderrLimit | StderrRead | StderrClose
    | StdinWrite | TimedOut | PipeCleanup

  datatype Result = Result(stdout: Bytes, stderr: Bytes, started: bool, execution: Execution, cleanup: Cleanup,
                           verified: bool, failure: Option<Cause>)

  // ---------------------------------------------------------------------
  // The state
  // ---------------------------------------------------------------------

  /** What a pipe delivers until it ends, and how much of it may be kept. */
  datatype Pipe = Pipe(stream: Bytes, limit: nat, onLimit: Cause, onRead: Cause, onClose: Cause)

  datatype DrainPhase =
    | Reading
    | Holding(chunk: Bytes)
    | Rejecting(code: Cause, closed: bool)
    | Signalling(closed: bool)
    | Closing
    | Drained

  /** A pipe reader: bytes taken from the pipe so far, and the shared buffer. */
  datatype Drain = Drain(taken: nat, buffer: Bytes, phase: DrainPhase)

  datatype FeedPhase = Writing | FeedRejecting | FeedSignalling | FeedClosing | Fed

  datatype Supervisor =
    | Watching
    | TimingOut
    | TimeoutSignal
    | Cleaning
    | Joining(cleanup: Cleanup, verified: bool)
    | PipesLeft
    | PipesSignal
    | Reporting(cleanup: Cleanup, verified: bool)
    | Finished(result: Result)

  datatype World = World(out: Drain, err: Drain, feed: FeedPhase, causes: seq<Cause>, failed: bool, exited: bool, boss: Supervisor)

  const CHUNK := 65536

  /** How many bytes the reader asks for: room left plus one probe byte. */
  function Asked(p: Pipe, d: Drain): int
  {
    if CHUNK < p.limit + 1 - |d.buffer| then CHUNK else p.limit + 1 - |d.buffer|
  }

  // ---------------------------------------------------------------------
  // Steps
  // ---------------------------------------------------------------------

  /** `reject` under the lock: only the first cause is recorded. */
  function Record(causes: seq<Cause>, code: Cause): seq<Cause>
  {
    if causes == [] then [code] else causes
  }

  predicate ReadStep(p: Pipe, d: Drain, e: Drain)
  {
    d.phase == Reading && e.buffer == d.buffer &&
    ((d.taken == |p.stream| && e.taken == d.taken && e.phase == Closing)
     || (e.taken == d.taken && e.phase == Rejecting(p.onRead, false))
     || (d.taken < e.taken <= |p.stream| && e.taken - d.taken <= Asked(p, d)
         && e.phase == Holding(p.stream[d.taken..e.taken])))
  }

  function Kept(p: Pipe, d: Drain, chunk: Bytes): Bytes
  {
    var remaining := p.limit - |d.buffer|;
    if 0 <= remaining <= |chunk| then chunk[..remaining] else chunk
  }

  predicate KeepStep(p: Pipe, d: Drain, e: Drain)
  {
    d.phase.Holding? &&
    var chunk := d.phase.chunk;
    e == Drain(d.taken, d.buffer + Kept(p, d, chunk),
               if |chunk| > p.limit - |d.buffer| then Rejecting(p.onLimit, false) else Reading)
  }

  predicate CloseStep(p: Pipe, d: Drain, e: Drain)
  {
    d.phase == Closing && (e == d.(phase := Drained) || e == d.(phase := Rejecting(p.onClose, true)))
  }

  predicate Quiet(p: Pipe, d: Drain, e: Drain) { ReadStep(p, d, e) || KeepStep(p, d, e) || CloseStep(p, d, e) }

  /** A reader's step and its effect on the shared causes and event. */
  predicate DrainStep(p: Pipe, d: Drain, causes: seq<Cause>, failed: bool, e: Drain, causes': seq<Cause>, failed': bool)
  {
    || (Quiet(p, d, e) && causes' == causes && failed' == failed)
    || (d.phase.Rejecting? && e == d.(phase := Signalling(d.phase.closed))
        && causes' == Record(causes, d.phase.code) && failed' == failed)
    || (d.phase.Signalling? && e == d.(phase := if d.phase.closed then Drained else Closing)
        && causes' == causes && failed')
  }

  predicate FeedStep(f: FeedPhase, causes: seq<Cause>, failed: bool, g: FeedPhase, causes': seq<Cause>, failed': bool)
  {
    || (f == Writing && (g == FeedClosing || g == FeedRejecting) && causes' == causes && failed' == failed)
    || (f == FeedRejecting && g == FeedSignalling && causes' == Record(causes, StdinWrite) && failed' == failed)
    || (f == FeedSignalling && g == FeedClosing && causes' == causes && failed')
    || (f == FeedClosing && g == Fed && causes' == causes && failed' == failed)
  }

  predicate AllDone(w: World) { w.out.phase == Drained && w.err.phase == Drained && w.feed == Fed }

  /** What tree termination, or the check after the parent has exited, can report. */
  predicate CleanupOutcome(exited: bool, c: Cleanup, verified: bool)
  {
    (c == Verified && verified) || (c == Failed && !verified) || (exited && c == NotRequired && verified)
  }

  /** The final status from the first cause and the cleanup facts. */
  function Report(w: World, cleanup: Cleanup, verified: bool): Result
  {
    if w.causes == [] then Result(w.out.buffer, w.err.buffer, true, Completed, cleanup, verified, None)
    else
      var execution := if !verified then CleanupFailed else if w.causes[0] == TimedOut then Timeout else ExecutorFailed;
      Result(w.out.buffer, w.err.buffer, true, execution, if verified then Verified else cleanup, verified, Some(w.causes[0]))
  }

  /**
   One step of the supervisor. A worker that has done all its work may still
   count as alive for a moment, so pipes can be found left over even then.
   */
  predicate BossStep(w: World, causes': seq<Cause>, failed': bool, boss': Supervisor)
  {
    match w.boss
    case Watching =>
      causes' == w.causes && failed' == w.failed && (boss' == TimingOut || ((w.failed || w.exited) && boss' == Cleaning))
    case TimingOut => causes' == Record(w.causes, TimedOut) && failed' == w.failed && boss' == TimeoutSignal
    case TimeoutSignal => causes' == w.causes && failed' && boss' == Cleaning
    case Cleaning =>
      && causes' == w.causes && failed' == w.failed
      && boss'.Joining? && CleanupOutcome(w.exited, boss'.cleanup, boss'.verified)
    case Joining(c, v) =>
      causes' == w.causes && failed' == w.failed && (boss' == PipesLeft || (AllDone(w) && boss' == Reporting(c, v)))
    case PipesLeft => causes' == Record(w.causes, PipeCleanup) && failed' == w.failed && boss' == PipesSignal
    case PipesSignal => causes' == w.causes && failed' && boss' == Reporting(Failed, false)
    case Reporting(c, v) => causes' == w.causes && failed' == w.failed && boss' == Finished(Report(w, c, v))
    case Finished(_) => false
  }

  datatype Job = Job(out: Pipe, err: Pipe)

  predicate JobOk(j: Job) { j.out.limit >= 1 && j.err.limit >= 1 }

  predicate OutStep(j: Job, w: World, x: World)
  {
    && DrainStep(j.out, w.out, w.causes, w.failed, x.out, x.causes, x.failed)
    && x == w.(out := x.out, causes := x.causes, failed := x.failed)
  }

  predicate ErrStep(j: Job, w: World, x: World)
  {
    && DrainStep(j.err, w.err, w.causes, w.failed, x.err, x.causes, x.failed)
    && x == w.(err := x.err, causes := x.causes, failed := x.failed)
  }

  predicate InStep(w: World, x: World)
  {
    && FeedStep(w.feed, w.causes, w.failed, x.feed, x.causes, x.failed)
    && x == w.(feed := x.feed, causes := x.causes, failed := x.failed)
  }

  predicate SupervisorStep(w: World, x: World)
  {
    BossStep(w, x.causes, x.failed, x.boss) && x == w.(causes := x.causes, failed := x.failed, boss := x.boss)
  }

  /** One of the four moves, or the process exits. */
  predicate Step(j: Job, w: World, x: World)
  {
    OutStep(j, w, x) || ErrStep(j, w, x) || InStep(w, x) || SupervisorStep(w, x) || x == w.(exited := true)
  }

  const FRESH := World(Drain(0, [], Reading), Drain(0, [], Reading), Writing, [], false, false, Watching)

  ghost predicate StepAt(j: Job, ws: seq<World>, i: nat)
    requires i < |ws| - 1
  {
    Step(j, ws[i], ws[i + 1])
  }

  ghost predicate Run(j: Job, ws: seq<World>)
  {
    && JobOk(j) && |ws| > 0 && ws[0] == FRESH
    && forall i :: 0 <= i < |ws| - 1 ==> StepAt(j, ws, i)
  }

  // ---------------------------------------------------------------------
  // The invariant
  // ---------------------------------------------------------------------

  /** The buffer is a prefix within the limit; a reader that ends without a cause has kept everything. */
  ghost predicate DrainOk(p: Pipe, d: Drain, causes: seq<Cause>)
  {
    && |d.buffer| <= p.limit && d.buffer <= p.stream && d.taken <= |p.stream| && d.taken <= p.limit + 1
    && match d.phase
       case Reading => d.taken == |d.buffer|
       case Holding(chunk) => |d.buffer| < d.taken && chunk == p.stream[|d.buffer|..d.taken]
       case Rejecting(_, _) => true
       case Signalling(_) => causes != []
       case Closing => d.buffer == p.stream || causes != []
       case Drained => d.buffer == p.stream || causes != []
  }

  predicate CleanupFacts(c: Cleanup, verified: bool)
  {
    (c == Failed && !verified) || ((c == Verified || c == NotRequired) && verified)
  }

  ghost predicate ResultOk(j: Job, w: World, r: Result)
  {
    && FactsValid(r.execution, r.cleanup, r.verified) && r.started
    && r.stdout <= j.out.stream && |r.stdout| <= j.out.limit
    && r.stderr <= j.err.stream && |r.stderr| <= j.err.limit
    && (r.failure.None? <==> r.execution == Completed)
    && (r.failure.None? ==> r.stdout == j.out.stream && r.stderr == j.err.stream)
    && (r.failure.Some? ==> w.causes == [r.failure.value])
  }

  ghost predicate BossOk(j: Job, w: World)
  {
    match w.boss
    case Joining(c, v) => CleanupFacts(c, v)
    case PipesSignal => w.causes != []
    case Reporting(c, v) => CleanupFacts(c, v) && (AllDone(w) || w.causes != [])
    case Finished(r) => ResultOk(j, w, r) && (AllDone(w) || w.causes != [])
    case _ => true
  }

  ghost predicate Inv(j: Job, w: World)
  {
    && DrainOk(j.out, w.out, w.causes) && DrainOk(j.err, w.err, w.causes)
    && |w.causes| <= 1 && BossOk(j, w)
  }

  /** A reader keeps its own invariant, and never empties the causes. */
  lemma DrainKeeps(p: Pipe, d: Drain, causes: seq<Cause>, failed: bool, e: Drain, causes': seq<Cause>, failed': bool)
    requires DrainOk(p, d, causes) && DrainStep(p, d, causes, failed, e, causes', failed')
    ensures DrainOk(p, e, causes') && (causes' == causes || (causes == [] && |causes'| == 1))
  {
    if KeepStep(p, d, e) { KeepKeeps(p, d, e, causes); }
  }

  lemma KeepKeeps(p: Pipe, d: Drain, e: Drain, causes: seq<Cause>)
    requires DrainOk(p, d, causes) && KeepStep(p, d, e)
    ensures DrainOk(p, e, causes)
  {
    var kept := Kept(p, d, d.phase.chunk);
    assert kept <= d.phase.chunk;
    var n, m := |d.buffer|, |d.buffer| + |kept|;
    assert p.stream[n..d.taken][..|kept|] == p.stream[n..m];
    assert p.stream[..m] == p.stream[..n] + p.stream[n..m];
  }

  lemma MoreCauses(p: Pipe, d: Drain, causes: seq<Cause>, causes': seq<Cause>)
    requires DrainOk(p, d, causes) && (causes' == causes || causes' != [])
    ensures DrainOk(p, d, causes')
  {}

  lemma ReportOk(j: Job, w: World, c: Cleanup, v: bool)
    requires Inv(j, w) && w.boss == Reporting(c, v)
    ensures ResultOk(j, w, Report(w, c, v))
  {}

  lemma BossKeeps(j: Job, w: World, x: World)
    requires Inv(j, w) && SupervisorStep(w, x)
    ensures Inv(j, x)
  {
    MoreCauses(j.out, w.out, w.causes, x.causes);
    MoreCauses(j.err, w.err, w.causes, x.causes);
    if w.boss.Reporting? { ReportOk(j, w, w.boss.cleanup, w.boss.verified); }
  }

  /** A worker's step does not disturb what the supervisor relies on. */
  lemma WorkerKeepsBoss(j: Job, w: World, x: World)
    requires BossOk(j, w) && x.boss == w.boss && (x.causes == w.causes || (w.causes == [] && x.causes != []))
    requires AllDone(w) ==> AllDone(x)
    requires w.boss.Finished? ==> x.causes == w.causes
    ensures BossOk(j, x)
  {}

  lemma OutKeeps(j: Job, w: World, x: World)
    requires Inv(j, w) && OutStep(j, w, x)
    ensures Inv(j, x) && (x.causes == w.causes || (w.causes == [] && |x.causes| == 1))
  {
    DrainKeeps(j.out, w.out, w.causes, w.failed, x.out, x.causes, x.failed);
    MoreCauses(j.err, w.err, w.causes, x.causes);
    WorkerKeepsBoss(j, w, x);
  }

  lemma ErrKeeps(j: Job, w: World, x: World)
    requires Inv(j, w) && ErrStep(j, w, x)
    ensures Inv(j, x) && (x.causes == w.causes || (w.causes == [] && |x.causes| == 1))
  {
    DrainKeeps(j.err, w.err, w.causes, w.failed, x.err, x.causes, x.failed);
    MoreCauses(j.out, w.out, w.causes, x.causes);
    WorkerKeepsBoss(j, w, x);
  }

  lemma FeedKeeps(j: Job, w: World, x: World)
    requires Inv(j, w) && InStep(w, x)
    ensures Inv(j, x) && (x.causes == w.causes || (w.causes == [] && |x.causes| == 1))
  {
    MoreCauses(j.out, w.out, w.causes, x.causes);
    MoreCauses(j.err, w.err, w.causes, x.causes);
    WorkerKeepsBoss(j, w, x);
  }

  lemma StepKeeps(j: Job, w: World, x: World)
    requires JobOk(j) && Inv(j, w) && Step(j, w, x)
    ensures Inv(j, x) && (x.causes == w.causes || (w.causes == [] && |x.causes| == 1))
  {
    if OutStep(j, w, x) {
      OutKeeps(j, w, x);
    } else if ErrStep(j, w, x) {
      ErrKeeps(j, w, x);
    } else if InStep(w, x) {
      FeedKeeps(j, w, x);
    } else if SupervisorStep(w, x) {
      BossKeeps(j, w, x);
    }
  }

  // ---------------------------------------------------------------------
  // Over whole runs
  // ---------------------------------------------------------------------

  lemma {:induction false} RunsKeep(j: Job, ws: seq<World>, i: nat)
    requires Run(j, ws) && i < |ws|
    ensures Inv(j, ws[i])
  {
    if i > 0 {
      RunsKeep(j, ws, i - 1);
      assert StepAt(j, ws, i - 1);
      StepKeeps(j, ws[i - 1], ws[i]);
    }
  }

  /**
   In every state of every interleaving both buffers are prefixes of their streams
   within their limits, at most one byte more has been taken from a pipe than may
   be kept, and a reader about to read asks for at least one byte.
   */
  lemma CapturesAreBounded(j: Job, ws: seq<World>, i: nat)
    requires Run(j, ws) && i < |ws|
    ensures ws[i].out.buffer <= j.out.stream && |ws[i].out.buffer| <= j.out.limit && ws[i].out.taken <= j.out.limit + 1
    ensures ws[i].err.buffer <= j.err.stream && |ws[i].err.buffer| <= j.err.limit && ws[i].err.taken <= j.err.limit + 1
    ensures Asked(j.out, ws[i].out) >= 1 && Asked(j.err, ws[i].err) >= 1
  {
    RunsKeep(j, ws, i);
  }

  /** There is at most one recorded cause, and the first one recorded is kept for good. */
  lemma {:induction false} FirstCauseKept(j: Job, ws: seq<World>, i: nat, k: nat)
    requires Run(j, ws) && i <= k < |ws|
    ensures ws[i].causes <= ws[k].causes && |ws[k].causes| <= 1
  {
    RunsKeep(j, ws, k);
    if i < k {
      FirstCauseKept(j, ws, i, k - 1);
      RunCauses(j, ws, k);
    }
  }

  lemma RunCauses(j: Job, ws: seq<World>, k: nat)
    requires Run(j, ws) && 0 < k < |ws|
    ensures ws[k].causes == ws[k - 1].causes || ws[k - 1].causes == []
  {
    RunsKeep(j, ws, k - 1);
    assert StepAt(j, ws, k - 1);
    StepKeeps(j, ws[k - 1], ws[k]);
  }

  /**
   Every result that is reported has valid process facts, a captured prefix of each
   stream, and, when it names no failure, both streams whole. A failure it names
   is the first cause of the run.
   */
  lemma ReportedResult(j: Job, ws: seq<World>, i: nat)
    requires Run(j, ws) && i < |ws| && ws[i].boss.Finished?
    ensures var r := ws[i].boss.result;
      && FactsValid(r.execution, r.cleanup, r.verified)
      && r.stdout <= j.out.stream && |r.stdout| <= j.out.limit && r.stderr <= j.err.stream && |r.stderr| <= j.err.limit
      && (r.failure.None? <==> r.execution == Completed)
      && (r.failure.None? ==> r.stdout == j.out.stream && r.stderr == j.err.stream)
      && (r.failure.Some? ==> ws[i].causes == [r.failure.value])
  {
    RunsKeep(j, ws, i);
  }

  /** A stream longer than its limit never ends in a completed result. */
  lemma OverflowIsReported(j: Job, ws: seq<World>, i: nat)
    requires Run(j, ws) && i < |ws| && ws[i].boss.Finished?
    requires |j.out.stream| > j.out.limit || |j.err.stream| > j.err.limit
    ensures ws[i].boss.result.failure.Some? && ws[i].boss.result.execution != Completed
  {
    ReportedResult(j, ws, i);
  }

  // ---------------------------------------------------------------------
  // The supervisor always gets to the end
  // ---------------------------------------------------------------------

  function StepsLeft(b: Supervisor): nat
  {
    match b
    case Watching => 8
    case TimingOut => 7
    case TimeoutSignal => 6
    case Cleaning => 5
    case Joining(_, _) => 4
    case PipesLeft => 3
    case PipesSignal => 2
    case Reporting(_, _) => 1
    case Finished(_) => 0
  }

  /** Whatever the workers have done, the supervisor has a step, and it needs nothing from them for it. */
  lemma SupervisorAdvances(j: Job, w: World) returns (x: World)
    requires !w.boss.Finished?
    ensures SupervisorStep(w, x) && Step(j, w, x) && StepsLeft(x.boss) < StepsLeft(w.boss)
  {
    match w.boss {
      case Watching => x := w.(boss := TimingOut);
      case TimingOut => x := w.(causes := Record(w.causes, TimedOut), boss := TimeoutSignal);
      case TimeoutSignal => x := w.(failed := true, boss := Cleaning);
      case Cleaning => x := w.(boss := Joining(Failed, false));
      case Joining(c, v) => x := w.(boss := PipesLeft);
      case PipesLeft => x := w.(causes := Record(w.causes, PipeCleanup), boss := PipesSignal);
      case PipesSignal => x := w.(failed := true, boss := Reporting(Failed, false));
      case Reporting(c, v) => x := w.(boss := Finished(Report(w, c, v)));
    }
    assert BossStep(w, x.causes, x.failed, x.boss);
  }

  /** Every step of the supervisor brings it closer to the end, and nobody else moves it. */
  lemma NeverSetBack(j: Job, w: World, x: World)
    requires Step(j, w, x)
    ensures x.boss == w.boss || StepsLeft(x.boss) < StepsLeft(w.boss)
    ensures BossStep(w, x.causes, x.failed, x.boss) ==> StepsLeft(x.boss) < StepsLeft(w.boss)
  {}

  /** How many steps of a run moved the supervisor. */
  function SupervisorSteps(ws: seq<World>): nat
  {
    if |ws| <= 1 then 0
    else SupervisorSteps(ws[..|ws| - 1]) + if ws[|ws| - 1].boss != ws[|ws| - 2].boss then 1 else 0
  }

  /** No run has more than eight supervisor steps, and one that has eight has a reported result. */
  lemma {:induction false} SupervisorIsQuick(j: Job, ws: seq<World>)
    requires Run(j, ws)
    ensures SupervisorSteps(ws) + StepsLeft(ws[|ws| - 1].boss) <= 8
    ensures SupervisorSteps(ws) == 8 ==> ws[|ws| - 1].boss.Finished?
  {
    var n := |ws| - 1;
    if n > 0 {
      var init := ws[..n];
      RunPrefix(j, ws);
      SupervisorIsQuick(j, init);
      assert StepAt(j, ws, n - 1);
      NeverSetBack(j, ws[n - 1], ws[n]);
    }
  }

  lemma RunPrefix(j: Job, ws: seq<World>)
    requires Run(j, ws) && |ws| > 1
    ensures Run(j, ws[..|ws| - 1])
  {
    var init := ws[..|ws| - 1];
    forall i | 0 <= i < |init| - 1 ensures StepAt(j, init, i) {
      assert StepAt(j, ws, i);
    }
  }

  /** In x the workers and the process are where they were in w. */
  predicate WorkersRest(w: World, x: World)
  {
    x.out == w.out && x.err == w.err && x.feed == w.feed && x.exited == w.exited
  }

  /**
   From every reachable state the supervisor alone reaches a reported result, in at
   most eight steps: no worker moves again and the process does not exit meanwhile.
   */
  lemma {:induction false} CanAlwaysFinish(j: Job, ws: seq<World>) returns (more: seq<World>)
    requires Run(j, ws)
    ensures |more| <= StepsLeft(ws[|ws| - 1].boss) <= 8
    ensures Run(j, ws + more) && (ws + more)[|ws + more| - 1].boss.Finished?
    ensures forall i :: 0 <= i < |more| ==> WorkersRest(ws[|ws| - 1], more[i])
    decreases StepsLeft(ws[|ws| - 1].boss)
  {
    var w := ws[|ws| - 1];
    if w.boss.Finished? {
      assert ws + [] == ws;
      return [];
    }
    var x := SupervisorAdvances(j, w);
    ExtendRun(j, ws, x);
    var rest := CanAlwaysFinish(j, ws + [x]);
    more := [x] + rest;
    assert ws + more == ws + [x] + rest;
  }

  lemma ExtendRun(j: Job, ws: seq<World>, x: World)
    requires Run(j, ws) && Step(j, ws[|ws| - 1], x)
    ensures Run(j, ws + [x])
  {
    var more := ws + [x];
    forall i | 0 <= i < |more| - 1 ensures StepAt(j, more, i) {
      if i < |ws| - 1 { assert StepAt(j, ws, i); }
    }
  }
}
