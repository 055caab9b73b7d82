/**
 What `stop(true)` promises: "all the functions in the queue are run".  The promise is exact
 (it holds precisely when some worker still has a pop ahead of it, or nothing is queued, at the
 moment isDone is set), and once notify_all is past the pool shuts down in bounded time.
 */
module ThreadPoolDrain {
  import opened Basics
  import opened ThreadPool
  import opened ThreadPoolSafety

  // ---------------------------------------------------------------- supporting invariant

  // The prefix of the threads vector that no shrinking resize has flagged.
  function Kept(s: Pool): nat {
    match s.control
    case ShrinkFlag(next, _) => next
    case ShrinkLock(keep) => keep
    case ShrinkNotify(keep) => keep
    case ShrinkUnlock(keep) => keep
    case ShrinkCut(keep) => keep
    case _ => |s.attached|
  }

  ghost predicate Unflagged(s: Pool) {
    !s.isStop ==> forall i :: 0 <= i < Kept(s) && i < |s.attached| && s.attached[i] < |s.workers| ==>
      !s.workers[s.attached[i]].flag
  }

  // A worker leaves only for a reason.
  ghost predicate Purposeful(s: Pool) {
    forall w :: 0 <= w < |s.workers| && !s.workers[w].flag && !s.isDone ==>
      !s.workers[w].pc.Exited? && s.workers[w].pc != Leave(None)
  }

  // A task that is pushing another task is still being run.
  ghost predicate Busy(s: Pool) {
    forall p :: 0 <= p < |s.pushers| && s.pushers[p].origin.FromTask? && !s.pushers[p].pc.Returned? ==>
      s.pushers[p].origin.worker < |s.workers| && s.workers[s.pushers[p].origin.worker].pc.Running?
  }

  function JoinedSoFar(s: Pool): nat {
    match s.control
    case Joining(next) => next
    case FinalClear => |s.attached|
    case _ => 0
  }

  ghost predicate Joined(s: Pool) {
    forall i :: 0 <= i < JoinedSoFar(s) && i < |s.attached| && s.attached[i] < |s.workers| ==>
      s.workers[s.attached[i]].pc.Exited?
  }

  // isDone and isStop are set only by stop, and before either nothing is discarded.
  ghost predicate Phases(s: Pool) {
    && (s.isDone ==> !InResize(s.control))
    && (!s.isStop ==> !s.control.StopFlag? && !s.control.StopClear?)
    && (!s.isStop && !s.isDone ==> s.control.Idle? || InResize(s.control))
    && (!s.isStop && !s.isDone ==> s.log.discarded == multiset{})
  }

  ghost predicate Steady(s: Pool) {
    Shape(s) && Unflagged(s) && Purposeful(s) && Busy(s) && Joined(s) && Phases(s)
  }

  lemma SteadyByWorker(s: Pool, w: nat)
    requires Steady(s) && WorkerEnabled(s, w)
    ensures Steady(WorkerNext(s, w))
  {
    ShapeByWorker(s, w);
    UnflaggedByWorker(s, w);
    PurposefulByWorker(s, w);
    BusyByWorker(s, w);
    JoinedByWorker(s, w);
    PhasesByWorker(s, w);
  }

  lemma UnflaggedByWorker(s: Pool, w: nat)
    requires Unflagged(s) && WorkerEnabled(s, w)
    ensures Unflagged(WorkerNext(s, w))
  {
  }

  lemma PurposefulByWorker(s: Pool, w: nat)
    requires Purposeful(s) && WorkerEnabled(s, w)
    ensures Purposeful(WorkerNext(s, w))
  {
  }

  lemma BusyByWorker(s: Pool, w: nat)
    requires Busy(s) && WorkerEnabled(s, w)
    ensures Busy(WorkerNext(s, w))
  {
  }

  lemma JoinedByWorker(s: Pool, w: nat)
    requires Joined(s) && WorkerEnabled(s, w)
    ensures Joined(WorkerNext(s, w))
  {
  }

  lemma PhasesByWorker(s: Pool, w: nat)
    requires Phases(s) && WorkerEnabled(s, w)
    ensures Phases(WorkerNext(s, w))
  {
  }

  lemma SteadyByPush(s: Pool, p: nat, wake: nat)
    requires Steady(s) && PushEnabled(s, p, wake)
    ensures Steady(PushNext(s, p, wake))
  {
    ShapeByPush(s, p, wake);
    BusyByPush(s, p, wake);
  }

  lemma BusyByPush(s: Pool, p: nat, wake: nat)
    requires Busy(s) && PushEnabled(s, p, wake)
    ensures Busy(PushNext(s, p, wake))
  {
  }

  lemma SteadyByResize(s: Pool)
    requires Steady(s) && ControlEnabled(s) && InResize(s.control)
    ensures Steady(ResizeNext(s))
  {
    ShapeByResize(s);
    UnflaggedByResize(s);
    BusyByResize(s);
    RestByResize(s);
  }

  lemma UnflaggedByResize(s: Pool)
    requires Shape(s) && Unflagged(s) && ControlEnabled(s) && InResize(s.control)
    ensures Unflagged(ResizeNext(s))
  {
  }

  lemma BusyByResize(s: Pool)
    requires Busy(s) && ControlEnabled(s) && InResize(s.control)
    ensures Busy(ResizeNext(s))
  {
  }

  lemma RestByResize(s: Pool)
    requires Purposeful(s) && Joined(s) && Phases(s) && ControlEnabled(s) && InResize(s.control)
    ensures Purposeful(ResizeNext(s)) && Joined(ResizeNext(s)) && Phases(ResizeNext(s))
  {
  }

  lemma SteadyByStop(s: Pool)
    requires Steady(s) && ControlEnabled(s) && !InResize(s.control)
    ensures Steady(StopNext(s))
  {
    ShapeByStop(s);
    UnflaggedByStop(s);
    BusyByStop(s);
    RestByStop(s);
  }

  lemma UnflaggedByStop(s: Pool)
    requires Shape(s) && Unflagged(s) && Phases(s) && ControlEnabled(s) && !InResize(s.control)
    ensures Unflagged(StopNext(s))
  {
  }

  lemma BusyByStop(s: Pool)
    requires Busy(s) && ControlEnabled(s) && !InResize(s.control)
    ensures Busy(StopNext(s))
  {
  }

  lemma RestByStop(s: Pool)
    requires Shape(s) && Purposeful(s) && Joined(s) && Phases(s) && ControlEnabled(s) && !InResize(s.control)
    ensures Purposeful(StopNext(s)) && Joined(StopNext(s)) && Phases(StopNext(s))
  {
  }

  lemma SteadyByOther(s: Pool, e: Event)
    requires Steady(s) && Enabled(s, e) && IsOther(e)
    ensures Steady(Next(s, e))
  {
    ShapeByOther(s, e);
    BusyByOther(s, e);
  }

  lemma BusyByOther(s: Pool, e: Event)
    requires Busy(s) && Enabled(s, e) && IsOther(e)
    ensures Busy(Next(s, e))
  {
  }

  lemma SteadyKept(s: Pool, e: Event)
    requires Steady(s) && Enabled(s, e)
    ensures Steady(Next(s, e))
  {
    match e
    case WorkerStep(w) => SteadyByWorker(s, w);
    case PushStep(p, wake) => SteadyByPush(s, p, wake);
    case ControlStep => if InResize(s.control) { SteadyByResize(s); } else { SteadyByStop(s); }
    case _ => SteadyByOther(s, e);
  }

  lemma {:induction false} RunKeepsSteady(s: Pool, run: seq<Event>)
    requires Steady(s) && IsRun(s, run)
    ensures Steady(After(s, run))
    decreases |run|
  {
    if run != [] {
      SteadyKept(s, run[0]);
      RunKeepsSteady(Next(s, run[0]), run[1..]);
    }
  }

  lemma ReachableSteady(s: Pool)
    requires Reachable(s)
    ensures Steady(s)
  {
    var run :| IsRun(Initial, run) && After(Initial, run) == s;
    RunKeepsSteady(Initial, run);
  }

  // ---------------------------------------------------------------- draining

  // This worker will look at the queue at least once more before it exits.
  predicate WillPop(w: Worker) {
    !w.flag && !w.pc.EvalDone? && !w.pc.Exited? && w.pc != Leave(None)
  }

  ghost predicate SomeWillPop(s: Pool) {
    exists i :: 0 <= i < |s.attached| && s.attached[i] < |s.workers| && WillPop(s.workers[s.attached[i]])
  }

  // stop(true) has set isDone and has not returned.
  predicate Draining(s: Pool) { s.isDone && !s.isStop && !s.control.Idle? }

  ghost predicate Drains(s: Pool) { s.queue == [] || SomeWillPop(s) }

  // No task enters the queue except from a task that an attached worker is running.
  predicate NoOutsidePush(s: Pool, e: Event) {
    e.PushStep? && e.p < |s.pushers| && s.pushers[e.p].pc.Enqueue? ==>
      s.pushers[e.p].origin.FromTask? && s.pushers[e.p].origin.worker in s.attached
  }

  // A run during which stop(true) does not return and nobody outside the pool pushes.
  predicate DrainRun(s: Pool, run: seq<Event>)
    decreases |run|
  {
    run == [] ||
    (!s.control.Idle? && Enabled(s, run[0]) && NoOutsidePush(s, run[0]) && DrainRun(Next(s, run[0]), run[1..]))
  }

  lemma DrainsByWorker(s: Pool, w: nat)
    requires Drains(s) && s.isDone && WorkerEnabled(s, w)
    ensures Drains(WorkerNext(s, w))
  {
    var s' := WorkerNext(s, w);
    if SomeWillPop(s) && s'.queue != [] {
      var i :| 0 <= i < |s.attached| && s.attached[i] < |s.workers| && WillPop(s.workers[s.attached[i]]);
      assert s'.attached[i] < |s'.workers| && WillPop(s'.workers[s'.attached[i]]);
    }
  }

  lemma DrainsByPush(s: Pool, p: nat, wake: nat)
    requires Drains(s) && Steady(s) && Draining(s) && PushEnabled(s, p, wake) && NoOutsidePush(s, PushStep(p, wake))
    ensures Drains(PushNext(s, p, wake))
  {
    var s' := PushNext(s, p, wake);
    if s.pushers[p].pc.Enqueue? {
      var i :| 0 <= i < |s.attached| && s.attached[i] == s.pushers[p].origin.worker;
      assert s.workers[s.attached[i]].pc.Running? && !s.workers[s.attached[i]].flag;
      assert WillPop(s.workers[s.attached[i]]);
    }
    if SomeWillPop(s) {
      var i :| 0 <= i < |s.attached| && s.attached[i] < |s.workers| && WillPop(s.workers[s.attached[i]]);
      assert s'.attached[i] < |s'.workers| && WillPop(s'.workers[s'.attached[i]]);
    }
  }

  lemma JoinedMeansEmpty(s: Pool)
    requires Drains(s) && Steady(s) && s.control.FinalClear?
    ensures s.queue == []
  {
  }

  lemma DrainsByStop(s: Pool)
    requires Drains(s) && Steady(s) && Draining(s) && ControlEnabled(s) && !InResize(s.control)
    ensures Drains(StopNext(s)) && StopNext(s).log == s.log
  {
    var s' := StopNext(s);
    if s.control.FinalClear? {
      JoinedMeansEmpty(s);
    } else {
      assert s'.queue == s.queue;
      if SomeWillPop(s) {
        var i :| 0 <= i < |s.attached| && s.attached[i] < |s.workers| && WillPop(s.workers[s.attached[i]]);
        assert s'.attached[i] < |s'.workers| && WillPop(s'.workers[s'.attached[i]]);
      }
    }
  }

  lemma DrainsByOther(s: Pool, e: Event)
    requires Drains(s) && Draining(s) && Enabled(s, e) && IsOther(e)
    ensures Drains(Next(s, e)) && Next(s, e).log.discarded == s.log.discarded
  {
    var s' := Next(s, e);
    if SomeWillPop(s) {
      var i :| 0 <= i < |s.attached| && s.attached[i] < |s.workers| && WillPop(s.workers[s.attached[i]]);
      assert s'.attached[i] < |s'.workers| && WillPop(s'.workers[s'.attached[i]]);
    }
  }

  lemma DrainsKept(s: Pool, e: Event)
    requires Drains(s) && Steady(s) && Draining(s) && Enabled(s, e) && NoOutsidePush(s, e)
    ensures var s' := Next(s, e);
      Drains(s') && s'.isDone && !s'.isStop && s'.log.discarded == s.log.discarded
  {
    match e
    case WorkerStep(w) => DrainsByWorker(s, w);
    case PushStep(p, wake) => DrainsByPush(s, p, wake);
    case ControlStep => DrainsByStop(s);
    case _ => DrainsByOther(s, e);
  }

  /** From a state that drains, no run ends its joins with a task still queued, and
      stop(true) throws no task away. */
  lemma {:induction false} DrainRunKeeps(s: Pool, run: seq<Event>)
    requires Drains(s) && Steady(s) && s.isDone && !s.isStop && DrainRun(s, run)
    ensures IsRun(s, run)
    ensures var s' := After(s, run);
      && Steady(s') && Drains(s') && s'.log.discarded == s.log.discarded
      && (s'.control.FinalClear? ==> s'.queue == [])
    decreases |run|
  {
    if run == [] {
      if s.control.FinalClear? { JoinedMeansEmpty(s); }
    } else {
      DrainsKept(s, run[0]);
      SteadyKept(s, run[0]);
      DrainRunKeeps(Next(s, run[0]), run[1..]);
    }
  }

  // ---------------------------------------------------------------- the exact condition

  // The state stop(true) is called in, no earlier stop having been called.
  predicate BeforeStop(s: Pool) { s.control.Idle? && !s.isDone && !s.isStop }

  // No resize has shrunk the pool: every thread ever started is still attached.
  ghost predicate NeverShrunk(s: Pool) { forall w :: 0 <= w < |s.workers| ==> w in s.attached }

  // Every continuation in which stop(true) reaches its last clear_queue finds nothing to clear.
  ghost predicate AlwaysDrains(s: Pool) {
    forall run :: DrainRun(s, run) && IsRun(s, run) && After(s, run).control.FinalClear? ==> After(s, run).queue == []
  }

  // Nothing is queued, or some worker is not between its failed pop and its read of isDone.
  ghost predicate CanDrain(s: Pool) {
    s.queue == [] || exists i ::
      0 <= i < |s.attached| && s.attached[i] < |s.workers| && !s.workers[s.attached[i]].pc.EvalDone?
  }

  // The one other case: no thread is attached any more, and a detached worker holds the mutex
  // and is about to pop the only task.
  predicate LastPop(s: Pool) {
    && s.attached == [] && |s.queue| == 1
    && s.mutex.HeldByWorker? && s.mutex.w < |s.workers| && s.workers[s.mutex.w].pc.EvalPop?
  }

  lemma CanDrainMeansDrains(s: Pool)
    requires Steady(s) && BeforeStop(s) && CanDrain(s)
    ensures Drains(Next(s, CallStop(true)))
  {
    var s' := Next(s, CallStop(true));
    if s.queue != [] {
      var i :| 0 <= i < |s.attached| && s.attached[i] < |s.workers| && !s.workers[s.attached[i]].pc.EvalDone?;
      assert !s.workers[s.attached[i]].flag;
      assert WillPop(s'.workers[s'.attached[i]]);
    }
  }

  /** stop(true) runs everything when called while some attached worker is not between its
      failed pop and its read of isDone.  Earlier shrinking is allowed. */
  lemma StopDrains(s: Pool)
    requires Reachable(s) && BeforeStop(s) && CanDrain(s)
    ensures AlwaysDrains(Next(s, CallStop(true)))
  {
    ReachableSteady(s);
    CanDrainMeansDrains(s);
    var s' := Next(s, CallStop(true));
    SteadyKept(s, CallStop(true));
    forall run | DrainRun(s', run) && IsRun(s', run) && After(s', run).control.FinalClear?
      ensures After(s', run).queue == []
    {
      DrainRunKeeps(s', run);
    }
  }

  // ---- the losing run

  // One more event in front of a losing run.
  lemma Prepend(s: Pool, e: Event)
    requires !s.control.Idle? && Enabled(s, e) && NoOutsidePush(s, e)
    requires !AlwaysDrains(Next(s, e))
    ensures !AlwaysDrains(s)
  {
    var s' := Next(s, e);
    var run :| DrainRun(s', run) && IsRun(s', run) && After(s', run).control.FinalClear? && After(s', run).queue != [];
    var longer := [e] + run;
    assert longer[0] == e && longer[1..] == run;
    assert DrainRun(s, longer) && IsRun(s, longer);
  }

  ghost predicate AttachedExited(s: Pool) {
    forall i :: 0 <= i < |s.attached| && s.attached[i] < |s.workers| ==> s.workers[s.attached[i]].pc.Exited?
  }

  lemma LoseAtJoin(s: Pool)
    requires Shape(s) && s.queue != [] && AttachedExited(s) && (s.control.Joining? || s.control.FinalClear?)
    ensures !AlwaysDrains(s)
    decreases if s.control.Joining? then |s.attached| - s.control.next + 1 else 0
  {
    if s.control.FinalClear? {
      assert DrainRun(s, []) && IsRun(s, []) && After(s, []) == s;
    } else {
      LoseAtJoin(Next(s, ControlStep));
      Prepend(s, ControlStep);
    }
  }

  lemma LoseAtNotify(s: Pool)
    requires Shape(s) && s.queue != [] && AttachedExited(s) && s.control.StopNotify?
    ensures !AlwaysDrains(s)
  {
    var s' := Next(s, ControlStep);
    assert AttachedExited(s');
    LoseAtJoin(Next(s', ControlStep));
    Prepend(s', ControlStep);
    Prepend(s, ControlStep);
  }

  lemma LoseAtLock(s: Pool)
    requires Shape(s) && s.queue != [] && AttachedExited(s) && s.control.StopLock? && s.mutex == Nobody
    ensures !AlwaysDrains(s)
  {
    LoseAtNotify(Next(s, ControlStep));
    Prepend(s, ControlStep);
  }

  // How far a worker inside the mutex is from letting it go.
  function StepsToRelease(pc: Pc): nat {
    if pc.EvalPop? || pc.EvalDone? then 3 else if pc.EvalFlag? then 2 else if pc.EvalWait? then 1 else 0
  }

  // The worker lets the mutex go without taking the last task, and if it is attached it exits.
  predicate LetsGo(s: Pool, w: nat) {
    && w < |s.workers| && s.mutex == HeldByWorker(w) && HoldsMutex(s.workers[w].pc)
    && (s.workers[w].pc.EvalPop? ==> |s.queue| > 1)
    && (w in s.attached ==> s.workers[w].pc.EvalDone? || s.workers[w].pc == Leave(None))
  }

  ghost predicate OthersExited(s: Pool, w: nat) {
    forall i :: 0 <= i < |s.attached| && s.attached[i] < |s.workers| && s.attached[i] != w ==>
      s.workers[s.attached[i]].pc.Exited?
  }

  lemma LoseStep(s: Pool, w: nat)
    requires Shape(s) && s.queue != [] && s.control.StopLock? && s.isDone && LetsGo(s, w) && OthersExited(s, w)
    ensures var s' := WorkerNext(s, w);
      && Shape(s') && s'.queue != [] && s'.control.StopLock? && s'.isDone
      && (if s'.mutex == Nobody then AttachedExited(s')
          else
            && LetsGo(s', w) && OthersExited(s', w)
            && StepsToRelease(s'.workers[w].pc) < StepsToRelease(s.workers[w].pc))
  {
  }

  lemma {:induction false} LoseWithWorker(s: Pool, w: nat)
    requires Shape(s) && s.queue != [] && s.control.StopLock? && s.isDone && LetsGo(s, w) && OthersExited(s, w)
    ensures !AlwaysDrains(s)
    decreases StepsToRelease(s.workers[w].pc)
  {
    var s' := Next(s, WorkerStep(w));
    LoseStep(s, w);
    if s'.mutex == Nobody { LoseAtLock(s'); } else { LoseWithWorker(s', w); }
    Prepend(s, WorkerStep(w));
  }

  lemma {:induction false} LoseWithPusher(s: Pool, p: nat, wake: nat)
    requires Shape(s) && Exclusive(s) && s.queue != [] && s.control.StopLock? && s.attached == []
    requires p < |s.pushers| && s.mutex == HeldByPusher(p) && PushEnabled(s, p, wake)
    ensures !AlwaysDrains(s)
    decreases s.pushers[p].pc.Notify?
  {
    var s' := Next(s, PushStep(p, wake));
    if s.pushers[p].pc.Notify? {
      ExclusiveByPush(s, p, wake);
      ShapeByPush(s, p, wake);
      LoseWithPusher(s', p, 0);
    } else {
      LoseAtLock(s');
    }
    Prepend(s, PushStep(p, wake));
  }

  lemma HolderCanPush(s: Pool, p: nat) returns (wake: nat)
    requires Exclusive(s) && p < |s.pushers| && s.mutex == HeldByPusher(p)
    ensures PushEnabled(s, p, wake)
  {
    wake := 0;
    if AnyAsleep(s.workers) {
      var w :| 0 <= w < |s.workers| && s.workers[w].pc.Asleep?;
      wake := w;
    }
  }

  lemma OneMutexHolder(s: Pool, v: nat, w: nat)
    requires Exclusive(s) && v < |s.workers| && w < |s.workers|
    requires HoldsMutex(s.workers[v].pc) && HoldsMutex(s.workers[w].pc)
    ensures v == w
  {
  }

  // Every attached worker is between its failed pop and its read of isDone: so there is one.
  lemma LoseAttached(s: Pool)
    requires Inv(s) && s.queue != [] && s.control.StopLock? && s.isDone && |s.attached| > 0
    requires forall i :: 0 <= i < |s.attached| ==> s.workers[s.attached[i]].pc.EvalDone?
    ensures !AlwaysDrains(s)
  {
    var w := s.attached[0];
    forall i | 0 <= i < |s.attached| ensures s.attached[i] == w { OneMutexHolder(s, s.attached[i], w); }
    LoseWithWorker(s, w);
  }

  lemma LoseDetached(s: Pool)
    requires Inv(s) && s.queue != [] && s.control.StopLock? && s.isDone && s.attached == [] && !LastPop(s)
    ensures !AlwaysDrains(s)
  {
    match s.mutex
    case Nobody => LoseAtLock(s);
    case HeldByWorker(w) => LoseWithWorker(s, w);
    case HeldByPusher(p) =>
      var wake := HolderCanPush(s, p);
      LoseWithPusher(s, p, wake);
    case HeldByControl =>
  }

  // ---- the last pop

  // Nothing is queued, or the one task is about to be popped before stop can lock the mutex.
  predicate Emptying(s: Pool) { s.attached == [] && (s.queue == [] || (s.control.StopLock? && LastPop(s))) }

  lemma EmptyingByWorker(s: Pool, w: nat)
    requires Emptying(s) && Exclusive(s) && WorkerEnabled(s, w)
    ensures Emptying(WorkerNext(s, w))
  {
  }

  lemma EmptyingByPush(s: Pool, p: nat, wake: nat)
    requires Emptying(s) && Exclusive(s) && PushEnabled(s, p, wake) && NoOutsidePush(s, PushStep(p, wake))
    ensures Emptying(PushNext(s, p, wake))
  {
  }

  lemma EmptyingByRest(s: Pool, e: Event)
    requires Emptying(s) && Exclusive(s) && Steady(s) && Draining(s) && Enabled(s, e) && !e.WorkerStep? && !e.PushStep?
    ensures Emptying(Next(s, e))
  {
  }

  lemma {:induction false} EmptyingRun(s: Pool, run: seq<Event>)
    requires Emptying(s) && Inv(s) && Steady(s) && s.isDone && !s.isStop && DrainRun(s, run) && IsRun(s, run)
    ensures After(s, run).control.FinalClear? ==> After(s, run).queue == []
    decreases |run|
  {
    if run != [] {
      match run[0] {
        case WorkerStep(w) => EmptyingByWorker(s, w);
        case PushStep(p, wake) => EmptyingByPush(s, p, wake);
        case _ => EmptyingByRest(s, run[0]);
      }
      StaysDone(s, run[0]);
      InvKept(s, run[0]);
      SteadyKept(s, run[0]);
      EmptyingRun(Next(s, run[0]), run[1..]);
    }
  }

  lemma StaysDone(s: Pool, e: Event)
    requires Steady(s) && Draining(s) && Enabled(s, e)
    ensures Next(s, e).isDone && !Next(s, e).isStop
  {
  }

  lemma LastPopDrains(s: Pool)
    requires Reachable(s) && BeforeStop(s) && LastPop(s)
    ensures AlwaysDrains(Next(s, CallStop(true)))
  {
    ReachableInv(s);
    ReachableSteady(s);
    var s' := Next(s, CallStop(true));
    InvKept(s, CallStop(true));
    SteadyKept(s, CallStop(true));
    forall run | DrainRun(s', run) && IsRun(s', run) && After(s', run).control.FinalClear?
      ensures After(s', run).queue == []
    {
      EmptyingRun(s', run);
    }
  }

  /** Exactly when stop(true) runs everything, in every reachable pool, shrunk or not.  If every
      attached worker is between its failed pop and its read of isDone (so there is one such
      worker, or none at all) while a task is queued, some run deletes that task; otherwise,
      and in the one case of LastPop, no run does. */
  lemma StopDrainsExactly(s: Pool)
    requires Reachable(s) && BeforeStop(s)
    ensures AlwaysDrains(Next(s, CallStop(true))) <==> CanDrain(s) || LastPop(s)
  {
    if CanDrain(s) {
      StopDrains(s);
    } else if LastPop(s) {
      LastPopDrains(s);
    } else {
      ReachableInv(s);
      InvKept(s, CallStop(true));
      var s' := Next(s, CallStop(true));
      if |s.attached| > 0 { LoseAttached(s'); } else { LoseDetached(s'); }
    }
  }

  /** A condition the caller can check: with at least one worker, stop(true) runs everything
      if every push has returned or has not yet put its task in the queue.  This rests on
      the no-lost-wakeup invariant. */
  lemma ReturnedPushesDrain(s: Pool)
    requires Reachable(s) && BeforeStop(s) && NeverShrunk(s) && |s.workers| > 0
    requires forall p :: 0 <= p < |s.pushers| ==> !Pending(s.pushers[p])
    ensures AlwaysDrains(Next(s, CallStop(true)))
  {
    ReachableInv(s);
    if !CanDrain(s) {
      forall w | 0 <= w < |s.workers| ensures s.workers[w].pc.EvalDone? {
        assert w in s.attached;
      }
      assert Sleepy(s.workers[0]);
      CountZero(s.workers, Waking);
      CountZero(s.pushers, Pending);
      assert false;
    }
    StopDrains(s);
  }

  lemma {:induction false} EmptyHands(ws: seq<Worker>)
    requires forall w :: 0 <= w < |ws| ==> Hand(ws[w]) == multiset{}
    ensures InHand(ws) == multiset{}
  {
    if ws != [] { EmptyHands(ws[..|ws| - 1]); }
  }

  /** Exactly once: when the joins are over, every task ever pushed has run exactly once or
      was handed out by pop exactly once, and none was deleted. */
  lemma ExactlyOnce(s: Pool, run: seq<Event>, t: nat)
    requires Reachable(s) && BeforeStop(s) && NeverShrunk(s) && CanDrain(s)
    requires DrainRun(Next(s, CallStop(true)), run) && IsRun(Next(s, CallStop(true)), run)
    requires After(Next(s, CallStop(true)), run).control.FinalClear?
    requires t in After(Next(s, CallStop(true)), run).log.enqueued
    ensures var log := After(Next(s, CallStop(true)), run).log;
      log.ran[t] + log.taken[t] == 1 && log.discarded[t] == 0
  {
    ReachableInv(s);
    ReachableSteady(s);
    CanDrainMeansDrains(s);
    var s1 := Next(s, CallStop(true));
    SteadyKept(s, CallStop(true));
    InvKept(s, CallStop(true));
    DrainRunKeeps(s1, run);
    RunKeepsInv(s1, run);
    DrainRunKeepsThreads(s1, run);
    assert forall w :: 0 <= w < |s.workers| ==> w in s.attached;
    NothingLeft(After(s1, run), t);
  }

  lemma NothingLeft(s: Pool, t: nat)
    requires Inv(s) && Steady(s) && s.control.FinalClear? && s.queue == [] && NeverShrunk(s)
    requires s.log.discarded == multiset{} && t in s.log.enqueued
    ensures s.log.ran[t] + s.log.taken[t] == 1
  {
    forall w | 0 <= w < |s.workers| ensures Hand(s.workers[w]) == multiset{} {
      assert w in s.attached;
    }
    EmptyHands(s.workers);
    assert s.log.dequeued == s.log.enqueued;
    DistinctOnce(s.log.dequeued, t);
  }

  lemma {:induction false} DrainRunKeepsThreads(s: Pool, run: seq<Event>)
    requires Steady(s) && Drains(s) && Draining(s) && DrainRun(s, run) && IsRun(s, run)
    requires After(s, run).control.FinalClear?
    ensures After(s, run).attached == s.attached && |After(s, run).workers| == |s.workers|
    decreases |run|
  {
    if run != [] {
      var s' := Next(s, run[0]);
      SteadyKept(s, run[0]);
      DrainsKept(s, run[0]);
      assert !s'.control.Idle? by {
        assert run[1..] == [] ==> After(s', run[1..]) == s';
      }
      StepKeepsThreads(s, run[0]);
      DrainRunKeepsThreads(s', run[1..]);
    }
  }

  lemma StepKeepsThreads(s: Pool, e: Event)
    requires Steady(s) && Draining(s) && Enabled(s, e) && !Next(s, e).control.Idle?
    ensures Next(s, e).attached == s.attached && |Next(s, e).workers| == |s.workers|
  {
  }

  // ---------------------------------------------------------------- a task that is lost

  lemma {:induction false} RunSnoc(s: Pool, run: seq<Event>, e: Event)
    requires IsRun(s, run) && Enabled(After(s, run), e)
    ensures IsRun(s, run + [e]) && After(s, run + [e]) == Next(After(s, run), e)
    decreases |run|
  {
    if run == [] {
      assert (run + [e])[1..] == [];
    } else {
      assert (run + [e])[1..] == run[1..] + [e];
      RunSnoc(Next(s, run[0]), run[1..], e);
    }
  }

  lemma ReachableNext(s: Pool, e: Event)
    requires Reachable(s) && Enabled(s, e)
    ensures Reachable(Next(s, e))
  {
    var run :| IsRun(Initial, run) && After(Initial, run) == s;
    RunSnoc(Initial, run, e);
  }

  // One worker, between its failed pop and its read of isDone.
  lemma WorkerLooksOnce() returns (s: Pool)
    ensures Reachable(s) && s == Initial.(
      workers := [Worker(EvalDone, false)], attached := [0], mutex := HeldByWorker(0), nWaiting := 1)
  {
    assert IsRun(Initial, []) && After(Initial, []) == Initial;
    var s1 := Next(Initial, CallResize(1));
    ReachableNext(Initial, CallResize(1));
    var s2 := Next(s1, ControlStep);
    ReachableNext(s1, ControlStep);
    var s3 := Next(s2, ControlStep);
    ReachableNext(s2, ControlStep);
    var s4 := Next(s3, WorkerStep(0));
    ReachableNext(s3, WorkerStep(0));
    var s5 := Next(s4, WorkerStep(0));
    ReachableNext(s4, WorkerStep(0));
    s := Next(s5, WorkerStep(0));
    ReachableNext(s5, WorkerStep(0));
  }

  /** The promise of stop(true) fails for a push that races with it: here the task is in the
      queue before isDone is set, and some run deletes it without running it. */
  lemma RacingPushCanBeLost() returns (s: Pool)
    ensures Reachable(s) && BeforeStop(s) && NeverShrunk(s) && |s.workers| == 1
    ensures s.queue == [0] && |s.pushers| == 1 && Pending(s.pushers[0])
    ensures !AlwaysDrains(Next(s, CallStop(true)))
  {
    var s1 := WorkerLooksOnce();
    var s2 := Next(s1, PushBegin(Outside));
    ReachableNext(s1, PushBegin(Outside));
    s := Next(s2, PushStep(0, 0));
    ReachableNext(s2, PushStep(0, 0));
    StopDrainsExactly(s);
  }
}
