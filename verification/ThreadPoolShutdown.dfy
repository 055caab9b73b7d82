/**
 Termination of `stop`: once its notify_all is past and nothing more is pushed, every step of
 every agent lowers a measure, and some step is enabled until stop has returned.  Tasks are
 assumed to finish: the step out of a running task is always available.
 */
module ThreadPoolShutdown {
  import opened Basics
  import opened ThreadPool
  import opened ThreadPoolSafety
  import opened ThreadPoolDrain

  function Sum<T>(xs: seq<T>, f: T -> nat): nat {
    if xs == [] then 0 else Sum(xs[..|xs| - 1], f) + f(xs[|xs| - 1])
  }

  lemma {:induction false} SumUpdate<T>(xs: seq<T>, i: nat, x: T, f: T -> nat)
    requires i < |xs|
    ensures Sum(xs[i := x], f) + f(xs[i]) == Sum(xs, f) + f(x)
  {
    var last := |xs| - 1;
    if i == last {
      assert xs[i := x][..last] == xs[..last];
    } else {
      assert xs[i := x][..last] == xs[..last][i := x];
      SumUpdate(xs[..last], i, x, f);
    }
  }

  // ---------------------------------------------------------------- who was told to finish

  predicate Told(w: Worker) { w.flag || w.pc.Exited? }

  ghost predicate AllTold(s: Pool) { forall w :: 0 <= w < |s.workers| ==> Told(s.workers[w]) }

  // The entries of the threads vector that no resize or stop has flagged yet.
  predicate Untold(s: Pool, i: int) {
    match s.control
    case ShrinkFlag(next, _) => i < next
    case ShrinkLock(keep) => i < keep
    case ShrinkNotify(keep) => i < keep
    case ShrinkUnlock(keep) => i < keep
    case ShrinkCut(keep) => i < keep
    case StopFlag(next) => i >= next
    case _ => !s.isStop
  }

  ghost predicate IsUntold(s: Pool, w: int) { exists i :: 0 <= i < |s.attached| && s.attached[i] == w && Untold(s, i) }

  // Every worker was told to finish, or is attached and not yet flagged.
  ghost predicate Telling(s: Pool) {
    && (s.isStop ==> !InResize(s.control))
    && forall w :: 0 <= w < |s.workers| ==> Told(s.workers[w]) || IsUntold(s, w)
  }

  // The flags of workers and the threads vector do not lose anyone.
  lemma TellingFrame(s: Pool, s': Pool)
    requires Telling(s) && |s'.workers| == |s.workers| && s'.attached == s.attached
    requires s'.control == s.control && s'.isStop == s.isStop
    requires forall w :: 0 <= w < |s.workers| ==> Told(s.workers[w]) ==> Told(s'.workers[w])
    ensures Telling(s')
  {
    forall w: nat | w < |s'.workers| ensures Told(s'.workers[w]) || IsUntold(s', w) {
      if IsUntold(s, w) {
        var i :| 0 <= i < |s.attached| && s.attached[i] == w && Untold(s, i);
        assert Untold(s', i);
      }
    }
  }

  lemma TellingByWorker(s: Pool, v: nat)
    requires Telling(s) && WorkerEnabled(s, v)
    ensures Telling(WorkerNext(s, v))
  {
    TellingFrame(s, WorkerNext(s, v));
  }

  lemma TellingByPush(s: Pool, p: nat, wake: nat)
    requires Telling(s) && PushEnabled(s, p, wake)
    ensures Telling(PushNext(s, p, wake))
  {
    TellingFrame(s, PushNext(s, p, wake));
  }

  lemma TellingByResize(s: Pool)
    requires Telling(s) && Shape(s) && ControlEnabled(s) && InResize(s.control)
    ensures Telling(ResizeNext(s))
  {
    var s' := ResizeNext(s);
    forall w: nat | w < |s'.workers| ensures Told(s'.workers[w]) || IsUntold(s', w) {
      if w == |s.workers| {
        assert s'.attached[|s.attached|] == w && Untold(s', |s.attached|);
      } else if IsUntold(s, w) {
        var i :| 0 <= i < |s.attached| && s.attached[i] == w && Untold(s, i);
        assert Told(s'.workers[w]) || (i < |s'.attached| && s'.attached[i] == w && Untold(s', i));
      }
    }
  }

  // The entry that stop has just flagged, and all the others.
  lemma UntoldByStop(s: Pool, i: nat)
    requires Steady(s) && ControlEnabled(s) && !InResize(s.control) && i < |s.attached| && Untold(s, i)
    ensures var s' := StopNext(s);
      || (s.attached[i] < |s.workers| && Told(s'.workers[s.attached[i]]))
      || (i < |s'.attached| && s'.attached[i] == s.attached[i] && Untold(s', i))
  {
  }

  lemma TellingByStop(s: Pool)
    requires Telling(s) && Steady(s) && ControlEnabled(s) && !InResize(s.control)
    ensures Telling(StopNext(s))
  {
    var s' := StopNext(s);
    forall w: nat | w < |s'.workers| ensures Told(s'.workers[w]) || IsUntold(s', w) {
      if IsUntold(s, w) {
        var i :| 0 <= i < |s.attached| && s.attached[i] == w && Untold(s, i);
        UntoldByStop(s, i);
      }
    }
  }

  lemma TellingByOther(s: Pool, e: Event)
    requires Telling(s) && Steady(s) && Enabled(s, e) && IsOther(e)
    ensures Telling(Next(s, e))
  {
    var s' := Next(s, e);
    forall w: nat | w < |s'.workers| ensures Told(s'.workers[w]) || IsUntold(s', w) {
      if IsUntold(s, w) {
        var i :| 0 <= i < |s.attached| && s.attached[i] == w && Untold(s, i);
        assert Told(s'.workers[w]) || Untold(s', i);
      }
    }
  }

  lemma TellingKept(s: Pool, e: Event)
    requires Telling(s) && Steady(s) && Enabled(s, e)
    ensures Telling(Next(s, e))
  {
    match e
    case WorkerStep(w) => TellingByWorker(s, w);
    case PushStep(p, wake) => TellingByPush(s, p, wake);
    case ControlStep => if InResize(s.control) { TellingByResize(s); } else { TellingByStop(s); }
    case _ => TellingByOther(s, e);
  }

  lemma {:induction false} RunKeepsTelling(s: Pool, run: seq<Event>)
    requires Telling(s) && Steady(s) && IsRun(s, run)
    ensures Telling(After(s, run))
    decreases |run|
  {
    if run != [] {
      TellingKept(s, run[0]);
      SteadyKept(s, run[0]);
      RunKeepsTelling(Next(s, run[0]), run[1..]);
    }
  }

  // Once stop(false) has been through the flags every worker was told to finish, whichever
  // resize may have detached it.
  lemma StopTellsAll(s: Pool)
    requires Reachable(s) && s.isStop && !s.control.StopFlag?
    ensures AllTold(s)
  {
    var run :| IsRun(Initial, run) && After(Initial, run) == s;
    RunKeepsTelling(Initial, run);
    forall w | 0 <= w < |s.workers| ensures Told(s.workers[w]) { assert Told(s.workers[w]) || IsUntold(s, w); }
  }

  lemma ToldByWorker(s: Pool, w: nat)
    requires AllTold(s) && WorkerEnabled(s, w)
    ensures AllTold(WorkerNext(s, w))
  {
    assert Told(WorkerNext(s, w).workers[w]);
  }

  lemma ToldByStop(s: Pool)
    requires AllTold(s) && ControlEnabled(s) && !InResize(s.control)
    ensures AllTold(StopNext(s))
  {
  }

  lemma ToldKept(s: Pool, e: Event)
    requires AllTold(s) && Enabled(s, e) && !InResize(s.control)
    ensures AllTold(Next(s, e))
  {
    match e
    case WorkerStep(w) => ToldByWorker(s, w);
    case ControlStep => ToldByStop(s);
    case _ =>
  }

  // ---------------------------------------------------------------- at most one more task

  // Whether a worker that was told to finish may still run a task.
  function Ahead(w: Worker): nat {
    if w.pc.CheckFlag? || w.pc.EvalDone? || w.pc.EvalFlag? || w.pc == Leave(None) || w.pc.Exited? then 0 else 1
  }

  lemma {:induction false} SumLe<T>(xs: seq<T>, ys: seq<T>, f: T -> nat)
    requires |xs| == |ys| && forall i :: 0 <= i < |xs| ==> f(xs[i]) <= f(ys[i])
    ensures Sum(xs, f) <= Sum(ys, f)
  {
    if xs != [] { SumLe(xs[..|xs| - 1], ys[..|ys| - 1], f); }
  }

  // The tasks that have run, and those that still may.
  function RunAtMost(s: Pool): nat { |s.log.ran| + Sum(s.workers, Ahead) }

  lemma AheadByWorker(s: Pool, w: nat)
    requires AllTold(s) && WorkerEnabled(s, w)
    ensures RunAtMost(WorkerNext(s, w)) <= RunAtMost(s)
  {
    SumUpdate(s.workers, w, WorkerNext(s, w).workers[w], Ahead);
    assert WorkerNext(s, w).workers == s.workers[w := WorkerNext(s, w).workers[w]];
  }

  lemma AheadFrame(s: Pool, s': Pool)
    requires s'.log.ran == s.log.ran && |s'.workers| == |s.workers|
    requires forall w :: 0 <= w < |s.workers| ==> Ahead(s'.workers[w]) <= Ahead(s.workers[w])
    ensures RunAtMost(s') <= RunAtMost(s)
  {
    SumLe(s'.workers, s.workers, Ahead);
  }

  lemma AheadByStop(s: Pool)
    requires ControlEnabled(s) && !InResize(s.control)
    ensures RunAtMost(StopNext(s)) <= RunAtMost(s)
  {
    AheadFrame(s, StopNext(s));
  }

  lemma AheadByOther(s: Pool, e: Event)
    requires Enabled(s, e) && !e.WorkerStep? && !InResize(s.control)
    ensures RunAtMost(Next(s, e)) <= RunAtMost(s)
  {
    if e.ControlStep? { AheadByStop(s); } else { AheadFrame(s, Next(s, e)); }
  }

  /** Once stop(false) has been through the flags, each worker runs at most one more task,
      whatever is pushed, popped or woken from then on. */
  lemma {:induction false} OneMoreTaskEach(s: Pool, run: seq<Event>)
    requires Reachable(s) && s.isStop && !s.control.StopFlag? && IsRun(s, run)
    ensures |After(s, run).log.ran| <= |s.log.ran| + |s.workers|
  {
    StopTellsAll(s);
    var before :| IsRun(Initial, before) && After(Initial, before) == s;
    RunKeepsTelling(Initial, before);
    RunAtMostKept(s, run);
    AheadAtMostOne(s.workers);
  }

  lemma {:induction false} AheadAtMostOne(ws: seq<Worker>)
    ensures Sum(ws, Ahead) <= |ws|
  {
    if ws != [] { AheadAtMostOne(ws[..|ws| - 1]); }
  }

  lemma {:induction false} RunAtMostKept(s: Pool, run: seq<Event>)
    requires AllTold(s) && s.isStop && !InResize(s.control) && IsRun(s, run)
    ensures RunAtMost(After(s, run)) <= RunAtMost(s)
    decreases |run|
  {
    if run != [] {
      if run[0].WorkerStep? { AheadByWorker(s, run[0].w); } else { AheadByOther(s, run[0]); }
      ToldKept(s, run[0]);
      NoResizeAgain(s, run[0]);
      RunAtMostKept(Next(s, run[0]), run[1..]);
    }
  }

  lemma NoResizeAgain(s: Pool, e: Event)
    requires s.isStop && !InResize(s.control) && Enabled(s, e)
    ensures Next(s, e).isStop && !InResize(Next(s, e).control)
  {
  }

  // ---------------------------------------------------------------- the measure

  function WorkerRank(w: Worker): nat {
    match w.pc
    case Leave(Some(_)) => 9
    case Running(_) => 8
    case CheckFlag => 7
    case TryPop => 6
    case NeedLock | Signalled => 5
    case EvalPop(_) => 4
    case EvalDone => 3
    case EvalFlag => 2
    case Leave(None) => 1
    case _ => 0
  }

  function PushRank(p: Pusher): nat {
    match p.pc
    case AwaitLock => 3
    case Notify => 2
    case Unlock => 1
    case _ => 0
  }

  function ControlRank(c: Control, n: nat): nat {
    match c
    case StopUnlock => n + 3
    case Joining(next) => if next <= n then n - next + 2 else 0
    case FinalClear => 1
    case _ => 0
  }

  function Measure(s: Pool): nat {
    6 * |s.queue| + Sum(s.workers, WorkerRank) + Sum(s.pushers, PushRank) + ControlRank(s.control, |s.attached|)
  }

  // stop has called notify_all and has not returned.
  ghost predicate PastNotify(s: Pool) {
    (s.isDone || AllTold(s)) && (s.control.StopUnlock? || s.control.Joining? || s.control.FinalClear?)
  }

  // So both stop(true) and stop(false) are past their notify_all when they join.
  lemma JoiningIsPastNotify(s: Pool)
    requires Reachable(s) && (s.control.StopUnlock? || s.control.Joining? || s.control.FinalClear?)
    ensures PastNotify(s)
  {
    ReachableSteady(s);
    if s.isStop { StopTellsAll(s); }
  }

  // A step of the shutdown: no call is begun and no task enters the queue.
  predicate Quiet(s: Pool, e: Event) {
    match e
    case WorkerStep(_) => true
    case PushStep(p, _) => p < |s.pushers| && !s.pushers[p].pc.Enqueue?
    case TakeTask => true
    case ControlStep => true
    case _ => false
  }

  // A worker's own part of the measure, when no worker is told to go back to sleep.
  lemma RankLowers(s: Pool, w: nat)
    requires WorkerEnabled(s, w) && (s.isDone || s.workers[w].flag)
    requires ObeysCommand(s.workers[w], s.isDone)
    ensures var s' := WorkerNext(s, w);
      && s'.workers == s.workers[w := s'.workers[w]] && s'.pushers == s.pushers
      && s'.control == s.control && s'.attached == s.attached
      && 6 * |s'.queue| + WorkerRank(s'.workers[w]) < 6 * |s.queue| + WorkerRank(s.workers[w])
  {
  }

  lemma WorkerLowers(s: Pool, w: nat)
    requires Inv(s) && PastNotify(s) && WorkerEnabled(s, w)
    ensures Measure(WorkerNext(s, w)) < Measure(s)
  {
    assert ObeysCommand(s.workers[w], s.isDone);
    assert AllTold(s) ==> Told(s.workers[w]);
    RankLowers(s, w);
    SumUpdate(s.workers, w, WorkerNext(s, w).workers[w], WorkerRank);
  }

  lemma PushRankLowers(s: Pool, p: nat, wake: nat)
    requires PushEnabled(s, p, wake) && !s.pushers[p].pc.Enqueue? && !AnyAsleep(s.workers)
    ensures var s' := PushNext(s, p, wake);
      && s'.pushers == s.pushers[p := s'.pushers[p]] && s'.workers == s.workers && s'.queue == s.queue
      && s'.control == s.control && s'.attached == s.attached
      && PushRank(s'.pushers[p]) < PushRank(s.pushers[p])
  {
  }

  lemma NoneAsleep(s: Pool)
    requires Commanded(s) && PastNotify(s)
    ensures !AnyAsleep(s.workers)
  {
    forall w | 0 <= w < |s.workers| ensures !s.workers[w].pc.Asleep? {
      assert ObeysCommand(s.workers[w], s.isDone);
      assert AllTold(s) ==> Told(s.workers[w]);
    }
  }

  lemma PushLowers(s: Pool, p: nat, wake: nat)
    requires Inv(s) && PastNotify(s) && PushEnabled(s, p, wake) && !s.pushers[p].pc.Enqueue?
    ensures Measure(PushNext(s, p, wake)) < Measure(s)
  {
    NoneAsleep(s);
    PushRankLowers(s, p, wake);
    SumUpdate(s.pushers, p, PushNext(s, p, wake).pushers[p], PushRank);
  }

  lemma ControlLowers(s: Pool)
    requires Inv(s) && PastNotify(s) && ControlEnabled(s)
    ensures Measure(StopNext(s)) < Measure(s)
  {
  }

  /** Every step of the shutdown lowers the measure. */
  lemma QuietStepLowers(s: Pool, e: Event)
    requires Inv(s) && PastNotify(s) && Enabled(s, e) && Quiet(s, e)
    ensures Measure(Next(s, e)) < Measure(s)
    ensures PastNotify(Next(s, e)) || Next(s, e).control.Idle?
  {
    if AllTold(s) { ToldKept(s, e); }
    match e
    case WorkerStep(w) => WorkerLowers(s, w);
    case PushStep(p, wake) => PushLowers(s, p, wake);
    case TakeTask =>
    case ControlStep => ControlLowers(s);
  }

  predicate NothingToEnqueue(s: Pool) {
    forall p :: 0 <= p < |s.pushers| ==> !s.pushers[p].pc.Enqueue?
  }

  lemma PusherCanStep(s: Pool, p: nat)
    requires Inv(s) && PastNotify(s) && NothingToEnqueue(s)
    requires p < |s.pushers| && !s.pushers[p].pc.Returned?
    requires s.mutex == Nobody || s.mutex == HeldByPusher(p)
    ensures Enabled(s, PushStep(p, 0)) && Quiet(s, PushStep(p, 0))
  {
    NoneAsleep(s);
  }

  lemma WorkerCanStep(s: Pool, w: nat) returns (e: Event)
    requires Inv(s) && PastNotify(s) && NothingToEnqueue(s)
    requires w < |s.workers| && !s.workers[w].pc.Exited?
    requires s.mutex == Nobody || s.mutex == HeldByWorker(w)
    ensures Enabled(s, e) && Quiet(s, e)
  {
    e := WorkerStep(w);
    if s.workers[w].pc.Running? && BusyPushing(s, w) {
      var p :| 0 <= p < |s.pushers| && s.pushers[p].origin == FromTask(w) && !s.pushers[p].pc.Returned?;
      PusherCanStep(s, p);
      e := PushStep(p, 0);
    }
  }

  /** The shutdown never gets stuck: until stop returns, some step is enabled. */
  lemma ShutdownNotStuck(s: Pool) returns (e: Event)
    requires Inv(s) && PastNotify(s) && NothingToEnqueue(s)
    ensures Enabled(s, e) && Quiet(s, e)
  {
    match s.mutex
    case HeldByWorker(w) => e := WorkerCanStep(s, w);
    case HeldByPusher(p) => PusherCanStep(s, p); e := PushStep(p, 0);
    case HeldByControl => e := ControlStep;
    case Nobody =>
      e := ControlStep;
      if s.control.Joining? && s.control.next < |s.attached| && !s.workers[s.attached[s.control.next]].pc.Exited? {
        e := WorkerCanStep(s, s.attached[s.control.next]);
      }
  }

  // A run of the shutdown, up to the return of stop.
  ghost predicate QuietRun(s: Pool, run: seq<Event>)
    decreases |run|
  {
    run == [] || (PastNotify(s) && Enabled(s, run[0]) && Quiet(s, run[0]) && QuietRun(Next(s, run[0]), run[1..]))
  }

  /** No run of the shutdown is longer than the measure at its start. */
  lemma {:induction false} ShutdownBounded(s: Pool, run: seq<Event>)
    requires Inv(s) && QuietRun(s, run)
    ensures |run| <= Measure(s)
    decreases |run|
  {
    if run != [] {
      QuietStepLowers(s, run[0]);
      InvKept(s, run[0]);
      ShutdownBounded(Next(s, run[0]), run[1..]);
    }
  }

  ghost predicate Stuck(s: Pool) { forall e :: !(Enabled(s, e) && Quiet(s, e)) }

  /** Hence a run of the shutdown that cannot be extended ends with stop returned. */
  lemma {:induction false} MaximalShutdownReturns(s: Pool, run: seq<Event>)
    requires Inv(s) && (PastNotify(s) || s.control.Idle?) && NothingToEnqueue(s) && QuietRun(s, run) && IsRun(s, run)
    requires Stuck(After(s, run))
    ensures After(s, run).control.Idle?
    decreases |run|
  {
    if run == [] {
      if PastNotify(s) { var _ := ShutdownNotStuck(s); }
    } else {
      QuietStepLowers(s, run[0]);
      InvKept(s, run[0]);
      QuietAddsNoPush(s, run[0]);
      MaximalShutdownReturns(Next(s, run[0]), run[1..]);
    }
  }

  lemma NoPushByPush(s: Pool, p: nat, wake: nat)
    requires NothingToEnqueue(s) && PushEnabled(s, p, wake)
    ensures NothingToEnqueue(PushNext(s, p, wake))
  {
  }

  lemma QuietAddsNoPush(s: Pool, e: Event)
    requires NothingToEnqueue(s) && Enabled(s, e) && Quiet(s, e)
    ensures NothingToEnqueue(Next(s, e))
  {
    if e.PushStep? { NoPushByPush(s, e.p, e.wake); } else { assert Next(s, e).pushers == s.pushers; }
  }
}
