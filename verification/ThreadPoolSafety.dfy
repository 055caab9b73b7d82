/**
 What every reachable state of the thread pool satisfies: mutual exclusion, no lost wakeup,
 no forgotten stop command, and conservation of tasks.
 */
module ThreadPoolSafety {
  import opened Basics
  import opened ThreadPool

  // Steps that are neither a worker's, nor a push's, nor a continuation of resize or stop.
  predicate IsOther(e: Event) { !e.WorkerStep? && !e.PushStep? && !e.ControlStep? }

  // ---------------------------------------------------------------- the mutex

  predicate PushHolds(pc: PushPc) { pc.Notify? || pc.Unlock? }

  predicate ControlHolds(c: Control) {
    c.ShrinkNotify? || c.ShrinkUnlock? || c.StopNotify? || c.StopUnlock?
  }

  // Exactly the agents whose program counter is inside a locked region hold the mutex.
  ghost predicate Exclusive(s: Pool) {
    && (forall w :: 0 <= w < |s.workers| ==> (HoldsMutex(s.workers[w].pc) <==> s.mutex == HeldByWorker(w)))
    && (forall p :: 0 <= p < |s.pushers| ==> (PushHolds(s.pushers[p].pc) <==> s.mutex == HeldByPusher(p)))
    && (ControlHolds(s.control) <==> s.mutex == HeldByControl)
    && (s.mutex.HeldByWorker? ==> s.mutex.w < |s.workers|)
    && (s.mutex.HeldByPusher? ==> s.mutex.p < |s.pushers|)
  }

  lemma ExclusiveByHolder(s: Pool, w: nat)
    requires Exclusive(s) && WorkerEnabled(s, w) && HoldsMutex(s.workers[w].pc)
    ensures Exclusive(WorkerNext(s, w))
  {
  }

  lemma ExclusiveByWorker(s: Pool, w: nat)
    requires Exclusive(s) && WorkerEnabled(s, w)
    ensures Exclusive(WorkerNext(s, w))
  {
    if HoldsMutex(s.workers[w].pc) { ExclusiveByHolder(s, w); }
  }

  lemma ExclusiveByPush(s: Pool, p: nat, wake: nat)
    requires Exclusive(s) && PushEnabled(s, p, wake)
    ensures Exclusive(PushNext(s, p, wake))
  {
  }

  lemma ExclusiveByResize(s: Pool)
    requires Exclusive(s) && ControlEnabled(s) && InResize(s.control)
    ensures Exclusive(ResizeNext(s))
  {
  }

  lemma ExclusiveByStop(s: Pool)
    requires Exclusive(s) && ControlEnabled(s) && !InResize(s.control)
    ensures Exclusive(StopNext(s))
  {
  }

  lemma ExclusiveByOther(s: Pool, e: Event)
    requires Exclusive(s) && Enabled(s, e) && IsOther(e)
    ensures Exclusive(Next(s, e))
  {
  }

  // ---------------------------------------------------------------- the threads vector

  ghost predicate Shape(s: Pool) {
    && (forall i :: 0 <= i < |s.attached| ==> s.attached[i] < |s.workers|)
    && (forall i, j :: 0 <= i < j < |s.attached| ==> s.attached[i] != s.attached[j])
    && InRange(s.control, |s.attached|)
  }

  predicate InRange(c: Control, n: nat) {
    match c
    case Growing(target) => n <= target
    case ShrinkFlag(next, keep) => keep <= next <= n
    case ShrinkLock(keep) => keep <= n
    case ShrinkNotify(keep) => keep <= n
    case ShrinkUnlock(keep) => keep <= n
    case ShrinkCut(keep) => keep <= n
    case StopFlag(next) => next <= n
    case Joining(next) => next <= n
    case _ => true
  }

  lemma ShapeByResize(s: Pool)
    requires Shape(s) && ControlEnabled(s) && InResize(s.control)
    ensures Shape(ResizeNext(s))
  {
  }

  lemma ShapeByStop(s: Pool)
    requires Shape(s) && ControlEnabled(s) && !InResize(s.control)
    ensures Shape(StopNext(s))
  {
  }

  lemma ShapeByWorker(s: Pool, w: nat)
    requires Shape(s) && WorkerEnabled(s, w)
    ensures Shape(WorkerNext(s, w))
  {
  }

  lemma ShapeByPush(s: Pool, p: nat, wake: nat)
    requires Shape(s) && PushEnabled(s, p, wake)
    ensures Shape(PushNext(s, p, wake))
  {
  }

  lemma ShapeByOther(s: Pool, e: Event)
    requires Shape(s) && Enabled(s, e) && IsOther(e)
    ensures Shape(Next(s, e))
  {
  }

  // ---------------------------------------------------------------- no lost wakeup

  // A worker that sleeps, or that saw an empty queue and may sleep without looking again.
  predicate Sleepy(w: Worker) { w.pc.Asleep? || w.pc.EvalDone? || w.pc.EvalFlag? || w.pc.EvalWait? }

  ghost predicate AnySleepy(ws: seq<Worker>) {
    exists w :: 0 <= w < |ws| && Sleepy(ws[w])
  }

  // Each queued task is covered by a worker that was woken and has not looked yet,
  // or by a push whose notification is still to come.
  ghost predicate Covered(s: Pool) {
    AnySleepy(s.workers) ==> |s.queue| <= Count(s.workers, Waking) + Count(s.pushers, Pending)
  }

  // What a worker's step does to the counts.
  lemma WorkerCounts(s: Pool, w: nat)
    requires WorkerEnabled(s, w)
    ensures var s' := WorkerNext(s, w);
      && s'.workers == s.workers[w := s'.workers[w]] && s'.pushers == s.pushers
      && (Sleepy(s'.workers[w]) ==> s'.queue == s.queue && (s.queue == [] || Sleepy(s.workers[w])))
      && |s'.queue| <= |s.queue|
      && (Waking(s.workers[w]) && !Waking(s'.workers[w]) ==> s.queue == [] || |s'.queue| < |s.queue|)
  {
  }

  lemma CoveredByWorker(s: Pool, w: nat)
    requires Covered(s) && WorkerEnabled(s, w)
    ensures Covered(WorkerNext(s, w))
  {
    var s' := WorkerNext(s, w);
    WorkerCounts(s, w);
    CoveredFromCounts(s, s', w);
  }

  lemma CoveredFromCounts(s: Pool, s': Pool, w: nat)
    requires Covered(s) && w < |s.workers| && |s'.workers| == |s.workers|
    requires s'.workers == s.workers[w := s'.workers[w]] && s'.pushers == s.pushers
    requires Sleepy(s'.workers[w]) ==> s'.queue == s.queue && (s.queue == [] || Sleepy(s.workers[w]))
    requires |s'.queue| <= |s.queue|
    requires Waking(s.workers[w]) && !Waking(s'.workers[w]) ==> s.queue == [] || |s'.queue| < |s.queue|
    ensures Covered(s')
  {
    CountUpdate(s.workers, w, s'.workers[w], Waking);
    if AnySleepy(s'.workers) {
      var v :| 0 <= v < |s'.workers| && Sleepy(s'.workers[v]);
      assert Sleepy(s.workers[v]) || s.queue == [];
    }
  }

  lemma CoveredByPush(s: Pool, p: nat, wake: nat)
    requires Exclusive(s) && Covered(s) && PushEnabled(s, p, wake)
    ensures Covered(PushNext(s, p, wake))
  {
    var s' := PushNext(s, p, wake);
    CountUpdate(s.pushers, p, s'.pushers[p], Pending);
    if s.pushers[p].pc.Notify? {
      if AnyAsleep(s.workers) {
        CountUpdate(s.workers, wake, s'.workers[wake], Waking);
        assert Sleepy(s.workers[wake]);
      } else {
        assert forall w :: 0 <= w < |s.workers| ==> !Sleepy(s.workers[w]);
      }
    }
  }

  lemma CoveredWithWorker(s: Pool, s': Pool)
    requires Covered(s) && s'.queue == s.queue && s'.pushers == s.pushers
    requires s'.workers == s.workers + [Worker(TryPop, false)]
    ensures Covered(s')
  {
    CountAppend(s.workers, Worker(TryPop, false), Waking);
    SleepyBefore(s.workers, s'.workers);
  }

  lemma CoveredFrame(s: Pool, s': Pool)
    requires Covered(s) && |s'.queue| <= |s.queue| && s'.pushers == s.pushers && |s'.workers| == |s.workers|
    requires forall w :: 0 <= w < |s.workers| ==> Waking(s'.workers[w]) == Waking(s.workers[w])
    requires forall w :: 0 <= w < |s.workers| ==> Sleepy(s'.workers[w]) ==> Sleepy(s.workers[w])
    ensures Covered(s')
  {
    CountSame(s.workers, s'.workers, Waking);
    SleepyBefore(s.workers, s'.workers);
  }

  lemma NoneSleepy(s: Pool)
    requires Exclusive(s) && s.mutex == HeldByControl
    ensures forall w :: 0 <= w < |s.workers| ==> !Sleepy(WakeAll(s.workers)[w])
  {
  }

  lemma CoveredByResize(s: Pool)
    requires Exclusive(s) && Covered(s) && ControlEnabled(s) && InResize(s.control)
    ensures Covered(ResizeNext(s))
  {
    if s.control.ShrinkNotify? {
      NoneSleepy(s);
    } else if s.control.Growing? && |s.attached| < s.control.target {
      CoveredWithWorker(s, ResizeNext(s));
    } else {
      CoveredFrame(s, ResizeNext(s));
    }
  }

  lemma CoveredByStop(s: Pool)
    requires Exclusive(s) && Covered(s) && ControlEnabled(s) && !InResize(s.control)
    ensures Covered(StopNext(s))
  {
    if s.control.StopNotify? { NoneSleepy(s); } else { CoveredFrame(s, StopNext(s)); }
  }

  lemma SleepyBefore(ws: seq<Worker>, ws': seq<Worker>)
    requires |ws| <= |ws'|
    requires forall w :: 0 <= w < |ws'| ==> Sleepy(ws'[w]) ==> w < |ws| && Sleepy(ws[w])
    ensures AnySleepy(ws') ==> AnySleepy(ws)
  {
  }

  lemma CoveredByOther(s: Pool, e: Event)
    requires Covered(s) && Enabled(s, e) && IsOther(e)
    ensures Covered(Next(s, e))
  {
    match e
    case SpuriousWake(w) =>
      assert Sleepy(s.workers[w]);
      CountUpdate(s.workers, w, s.workers[w].(pc := Signalled), Waking);
    case PushBegin(origin) => CountAppend(s.pushers, Pusher(origin, Enqueue), Pending);
    case _ =>
  }

  // ---------------------------------------------------------------- no forgotten command

  // The control thread is bound to call notify_all later in this resize or stop.
  predicate WillNotifyAll(c: Control) {
    c.ShrinkFlag? || c.ShrinkLock? || c.ShrinkNotify? || c.StopFlag? || c.StopClear? || c.StopLock? || c.StopNotify?
  }

  predicate ObeysCommand(w: Worker, isDone: bool) {
    && (w.flag ==> !w.pc.EvalWait? && !w.pc.Asleep?)
    && (isDone ==> !w.pc.EvalFlag? && !w.pc.EvalWait? && !w.pc.Asleep?)
  }

  // A worker that was told to finish does not sleep, nor has it decided to, unless a
  // notify_all is still to come; likewise for every worker once isDone is set.
  ghost predicate Commanded(s: Pool) {
    !WillNotifyAll(s.control) ==>
      forall w :: 0 <= w < |s.workers| ==> ObeysCommand(s.workers[w], s.isDone)
  }

  lemma CommandedByWorker(s: Pool, w: nat)
    requires Commanded(s) && WorkerEnabled(s, w)
    ensures Commanded(WorkerNext(s, w))
  {
  }

  lemma CommandedByPush(s: Pool, p: nat, wake: nat)
    requires Commanded(s) && PushEnabled(s, p, wake)
    ensures Commanded(PushNext(s, p, wake))
  {
  }

  lemma CommandedByResize(s: Pool)
    requires Exclusive(s) && Commanded(s) && ControlEnabled(s) && InResize(s.control)
    ensures Commanded(ResizeNext(s))
  {
  }

  lemma CommandedByStop(s: Pool)
    requires Exclusive(s) && Commanded(s) && ControlEnabled(s) && !InResize(s.control)
    ensures Commanded(StopNext(s))
  {
  }

  lemma CommandedByOther(s: Pool, e: Event)
    requires Commanded(s) && Enabled(s, e) && IsOther(e)
    ensures Commanded(Next(s, e))
  {
  }

  // ---------------------------------------------------------------- tasks

  // The tasks that have left the queue, by where they went.
  function Gone(ws: seq<Worker>, log: Log): multiset<nat> {
    InHand(ws) + log.ran + log.taken + log.discarded
  }

  ghost predicate Entered(log: Log, pushers: seq<Pusher>) {
    && Distinct(log.enqueued)
    && (forall t :: t in log.enqueued ==> t < |pushers| && !pushers[t].pc.Enqueue?)
    && (forall t :: 0 <= t < |pushers| && !pushers[t].pc.Enqueue? ==> t in log.enqueued)
  }

  ghost predicate Conserved(s: Pool) {
    && s.log.enqueued == s.log.dequeued + s.queue
    && multiset(s.log.dequeued) == Gone(s.workers, s.log)
    && Entered(s.log, s.pushers)
  }

  lemma PoppedFirst(queue: seq<nat>, dequeued: seq<nat>)
    requires queue != []
    ensures (dequeued + [queue[0]]) + queue[1..] == dequeued + queue
    ensures multiset(dequeued + [queue[0]]) == multiset(dequeued) + multiset{queue[0]}
  {
    assert queue == [queue[0]] + queue[1..];
  }

  // Removing the head of the queue and putting it in exactly one place conserves tasks.
  lemma Moved(s: Pool, s': Pool)
    requires Conserved(s) && s.queue != []
    requires s'.queue == s.queue[1..] && s'.log.dequeued == s.log.dequeued + [s.queue[0]]
    requires s'.log.enqueued == s.log.enqueued && s'.pushers == s.pushers
    requires Gone(s'.workers, s'.log) == Gone(s.workers, s.log) + multiset{s.queue[0]}
    ensures Conserved(s')
  {
    PoppedFirst(s.queue, s.log.dequeued);
  }

  lemma HandGains(ws: seq<Worker>, i: nat, w: Worker, task: nat)
    requires i < |ws| && Hand(ws[i]) == multiset{} && Hand(w) == multiset{task}
    ensures InHand(ws[i := w]) == InHand(ws) + multiset{task}
  {
    InHandUpdate(ws, i, w);
  }

  lemma HandLoses(ws: seq<Worker>, i: nat, w: Worker, task: nat)
    requires i < |ws| && Hand(ws[i]) == multiset{task} && Hand(w) == multiset{}
    ensures InHand(ws[i := w]) + multiset{task} == InHand(ws)
  {
    InHandUpdate(ws, i, w);
  }

  lemma GoneGains(ws: seq<Worker>, ws': seq<Worker>, log: Log, log': Log, task: nat)
    requires InHand(ws') == InHand(ws) + multiset{task}
    requires log'.ran == log.ran && log'.taken == log.taken && log'.discarded == log.discarded
    ensures Gone(ws', log') == Gone(ws, log) + multiset{task}
  {
  }

  lemma GoneRan(ws: seq<Worker>, ws': seq<Worker>, log: Log, log': Log, task: nat)
    requires InHand(ws') + multiset{task} == InHand(ws)
    requires log'.ran == log.ran + multiset{task} && log'.taken == log.taken && log'.discarded == log.discarded
    ensures Gone(ws', log') == Gone(ws, log)
  {
  }

  lemma ConservedFrame(s: Pool, s': Pool)
    requires Conserved(s) && s'.log == s.log && s'.queue == s.queue
    requires Entered(s.log, s'.pushers)
    requires |s'.workers| == |s.workers|
    requires forall w :: 0 <= w < |s.workers| ==> Hand(s'.workers[w]) == Hand(s.workers[w])
    ensures Conserved(s')
  {
    InHandSame(s.workers, s'.workers);
  }

  lemma ConservedByPop(s: Pool, w: nat)
    requires Conserved(s) && WorkerEnabled(s, w) && s.queue != []
    requires s.workers[w].pc.TryPop? || s.workers[w].pc.EvalPop?
    ensures Conserved(WorkerNext(s, w))
  {
    var s' := WorkerNext(s, w);
    HandGains(s.workers, w, s'.workers[w], s.queue[0]);
    GoneGains(s.workers, s'.workers, s.log, s'.log, s.queue[0]);
    Moved(s, s');
  }

  lemma ConservedByFinish(s: Pool, w: nat)
    requires Conserved(s) && WorkerEnabled(s, w) && s.workers[w].pc.Running?
    ensures Conserved(WorkerNext(s, w))
  {
    var s' := WorkerNext(s, w);
    HandLoses(s.workers, w, s'.workers[w], s.workers[w].pc.task);
    GoneRan(s.workers, s'.workers, s.log, s'.log, s.workers[w].pc.task);
  }

  // Steps of a worker that move no task.
  predicate MovesTask(s: Pool, w: nat)
    requires w < |s.workers|
  {
    s.workers[w].pc.Running? || ((s.workers[w].pc.TryPop? || s.workers[w].pc.EvalPop?) && s.queue != [])
  }

  lemma HandKept(s: Pool, w: nat)
    requires WorkerEnabled(s, w) && !MovesTask(s, w)
    ensures var s' := WorkerNext(s, w);
      && s'.log == s.log && s'.queue == s.queue && s'.pushers == s.pushers
      && s'.workers == s.workers[w := s'.workers[w]] && Hand(s'.workers[w]) == Hand(s.workers[w])
  {
  }

  lemma ConservedByWorker(s: Pool, w: nat)
    requires Conserved(s) && WorkerEnabled(s, w)
    ensures Conserved(WorkerNext(s, w))
  {
    if !MovesTask(s, w) {
      HandKept(s, w);
      ConservedFrame(s, WorkerNext(s, w));
    } else if s.workers[w].pc.Running? {
      ConservedByFinish(s, w);
    } else {
      ConservedByPop(s, w);
    }
  }

  lemma ConservedByEnqueue(s: Pool, p: nat)
    requires Conserved(s) && PushEnabled(s, p, 0) && s.pushers[p].pc.Enqueue?
    ensures Conserved(PushNext(s, p, 0))
  {
    assert p !in s.log.enqueued;
    assert s.log.enqueued + [p] == s.log.dequeued + (s.queue + [p]);
  }

  lemma ConservedByPush(s: Pool, p: nat, wake: nat)
    requires Conserved(s) && PushEnabled(s, p, wake)
    ensures Conserved(PushNext(s, p, wake))
  {
    if s.pushers[p].pc.Enqueue? {
      ConservedByEnqueue(s, p);
    } else {
      ConservedFrame(s, PushNext(s, p, wake));
    }
  }

  lemma ConservedByGrowing(s: Pool)
    requires Conserved(s) && ControlEnabled(s) && s.control.Growing?
    ensures Conserved(ResizeNext(s))
  {
    InHandAppend(s.workers, Worker(TryPop, false));
  }

  // No task moves, enters or leaves.
  ghost predicate HandsSame(s: Pool, s': Pool) {
    && s'.log == s.log && s'.queue == s.queue && s'.pushers == s.pushers && |s'.workers| == |s.workers|
    && forall w :: 0 <= w < |s.workers| ==> Hand(s'.workers[w]) == Hand(s.workers[w])
  }

  lemma FlaggedHands(ws: seq<Worker>, v: nat)
    ensures forall w :: 0 <= w < |ws| ==> Hand(Flagged(ws, v)[w]) == Hand(ws[w])
  {
  }

  lemma WokenHands(ws: seq<Worker>)
    ensures forall w :: 0 <= w < |ws| ==> Hand(WakeAll(ws)[w]) == Hand(ws[w])
  {
  }

  lemma ShrinkKeepsHands(s: Pool)
    requires ControlEnabled(s) && InResize(s.control) && !s.control.Growing?
    ensures HandsSame(s, ResizeNext(s))
  {
    match s.control
    case ShrinkFlag(next, keep) => if next > keep { FlaggedHands(s.workers, s.attached[next - 1]); }
    case ShrinkNotify(_) => WokenHands(s.workers);
    case _ =>
  }

  lemma ConservedByResize(s: Pool)
    requires Conserved(s) && ControlEnabled(s) && InResize(s.control)
    ensures Conserved(ResizeNext(s))
  {
    if s.control.Growing? {
      ConservedByGrowing(s);
    } else {
      ShrinkKeepsHands(s);
      ConservedFrame(s, ResizeNext(s));
    }
  }

  lemma ConservedByDiscard(s: Pool)
    requires Conserved(s) && s.queue != []
    ensures Conserved(Discard(s))
  {
    assert Gone(s.workers, Discard(s).log) == Gone(s.workers, s.log) + multiset{s.queue[0]};
    Moved(s, Discard(s));
  }

  predicate Clears(s: Pool) { (s.control.StopClear? || s.control.FinalClear?) && s.queue != [] }

  lemma StopKeepsHands(s: Pool)
    requires ControlEnabled(s) && !InResize(s.control) && !Clears(s)
    ensures HandsSame(s, StopNext(s))
  {
    match s.control
    case StopFlag(next) => if next < |s.attached| { FlaggedHands(s.workers, s.attached[next]); }
    case StopNotify => WokenHands(s.workers);
    case _ =>
  }

  lemma ConservedByStop(s: Pool)
    requires Conserved(s) && ControlEnabled(s) && !InResize(s.control)
    ensures Conserved(StopNext(s))
  {
    if Clears(s) {
      ConservedByDiscard(s);
    } else {
      StopKeepsHands(s);
      ConservedFrame(s, StopNext(s));
    }
  }

  lemma ConservedByTake(s: Pool)
    requires Conserved(s) && s.queue != []
    ensures Conserved(Take(s))
  {
    assert Gone(s.workers, Take(s).log) == Gone(s.workers, s.log) + multiset{s.queue[0]};
    Moved(s, Take(s));
  }

  lemma ConservedByBegin(s: Pool, e: Event)
    requires Conserved(s) && Enabled(s, e) && e.PushBegin?
    ensures Conserved(Next(s, e))
  {
    assert Entered(s.log, Next(s, e).pushers);
  }

  lemma ConservedByOther(s: Pool, e: Event)
    requires Conserved(s) && Enabled(s, e) && IsOther(e)
    ensures Conserved(Next(s, e))
  {
    if e.TakeTask? {
      ConservedByTake(s);
    } else if e.PushBegin? {
      ConservedByBegin(s, e);
    } else {
      ConservedFrame(s, Next(s, e));
    }
  }

  // ---------------------------------------------------------------- n_idle

  ghost predicate IdleCounted(s: Pool) { s.nWaiting == Count(s.workers, Parked) }

  lemma WorkerParks(s: Pool, w: nat)
    requires WorkerEnabled(s, w)
    ensures var s' := WorkerNext(s, w);
      && s'.workers == s.workers[w := s'.workers[w]]
      && s'.nWaiting - s.nWaiting
         == (if Parked(s'.workers[w]) then 1 else 0) - (if Parked(s.workers[w]) then 1 else 0)
  {
  }

  lemma IdleByWorker(s: Pool, w: nat)
    requires IdleCounted(s) && WorkerEnabled(s, w)
    ensures IdleCounted(WorkerNext(s, w))
  {
    WorkerParks(s, w);
    CountUpdate(s.workers, w, WorkerNext(s, w).workers[w], Parked);
  }

  lemma IdleFrame(s: Pool, s': Pool)
    requires IdleCounted(s) && s'.nWaiting == s.nWaiting && |s'.workers| == |s.workers|
    requires forall w :: 0 <= w < |s.workers| ==> Parked(s'.workers[w]) == Parked(s.workers[w])
    ensures IdleCounted(s')
  {
    CountSame(s.workers, s'.workers, Parked);
  }

  lemma IdleByControl(s: Pool)
    requires IdleCounted(s) && ControlEnabled(s)
    ensures IdleCounted(Next(s, ControlStep))
  {
    if s.control.Growing? {
      CountAppend(s.workers, Worker(TryPop, false), Parked);
    } else if InResize(s.control) {
      IdleFrame(s, ResizeNext(s));
    } else {
      IdleFrame(s, StopNext(s));
    }
  }

  lemma IdleByRest(s: Pool, e: Event)
    requires IdleCounted(s) && Enabled(s, e) && !e.WorkerStep?
    ensures IdleCounted(Next(s, e))
  {
    if e.ControlStep? { IdleByControl(s); } else { IdleFrame(s, Next(s, e)); }
  }

  // ---------------------------------------------------------------- whole runs

  ghost predicate Inv(s: Pool) {
    Exclusive(s) && Shape(s) && Covered(s) && Commanded(s) && Conserved(s) && IdleCounted(s)
  }

  lemma InvByWorker(s: Pool, w: nat)
    requires Inv(s) && WorkerEnabled(s, w)
    ensures Inv(WorkerNext(s, w))
  {
    ExclusiveByWorker(s, w);
    ShapeByWorker(s, w);
    CoveredByWorker(s, w);
    CommandedByWorker(s, w);
    ConservedByWorker(s, w);
    IdleByWorker(s, w);
  }

  lemma InvByPush(s: Pool, p: nat, wake: nat)
    requires Inv(s) && PushEnabled(s, p, wake)
    ensures Inv(PushNext(s, p, wake))
  {
    ExclusiveByPush(s, p, wake);
    ShapeByPush(s, p, wake);
    CoveredByPush(s, p, wake);
    CommandedByPush(s, p, wake);
    ConservedByPush(s, p, wake);
    IdleByRest(s, PushStep(p, wake));
  }

  lemma InvByResize(s: Pool)
    requires Inv(s) && ControlEnabled(s) && InResize(s.control)
    ensures Inv(ResizeNext(s))
  {
    ExclusiveByResize(s);
    ShapeByResize(s);
    CoveredByResize(s);
    CommandedByResize(s);
    ConservedByResize(s);
    IdleByRest(s, ControlStep);
  }

  lemma InvByStop(s: Pool)
    requires Inv(s) && ControlEnabled(s) && !InResize(s.control)
    ensures Inv(StopNext(s))
  {
    ExclusiveByStop(s);
    ShapeByStop(s);
    CoveredByStop(s);
    CommandedByStop(s);
    ConservedByStop(s);
    IdleByRest(s, ControlStep);
  }

  lemma InvByOther(s: Pool, e: Event)
    requires Inv(s) && Enabled(s, e) && IsOther(e)
    ensures Inv(Next(s, e))
  {
    ExclusiveByOther(s, e);
    ShapeByOther(s, e);
    CoveredByOther(s, e);
    CommandedByOther(s, e);
    ConservedByOther(s, e);
    IdleByRest(s, e);
  }

  /** Every step of every agent keeps the invariant. */
  lemma InvKept(s: Pool, e: Event)
    requires Inv(s) && Enabled(s, e)
    ensures Inv(Next(s, e))
  {
    match e
    case WorkerStep(w) => InvByWorker(s, w);
    case PushStep(p, wake) => InvByPush(s, p, wake);
    case ControlStep => if InResize(s.control) { InvByResize(s); } else { InvByStop(s); }
    case _ => InvByOther(s, e);
  }

  lemma {:induction false} RunKeepsInv(s: Pool, run: seq<Event>)
    requires Inv(s) && IsRun(s, run)
    ensures Inv(After(s, run))
    decreases |run|
  {
    if run != [] {
      InvKept(s, run[0]);
      RunKeepsInv(Next(s, run[0]), run[1..]);
    }
  }

  ghost predicate Reachable(s: Pool) {
    exists run :: IsRun(Initial, run) && After(Initial, run) == s
  }

  lemma ReachableInv(s: Pool)
    requires Reachable(s)
    ensures Inv(s)
  {
    var run :| IsRun(Initial, run) && After(Initial, run) == s;
    RunKeepsInv(Initial, run);
  }

  /** No lost wakeup: while some worker sleeps unsignalled, the queue is no longer than the
      number of woken workers that have not looked yet plus pushes yet to notify. */
  lemma NoLostWakeup(s: Pool, w: nat)
    requires Reachable(s) && w < |s.workers| && s.workers[w].pc.Asleep?
    ensures |s.queue| <= Count(s.workers, Waking) + Count(s.pushers, Pending)
  {
    ReachableInv(s);
    assert Sleepy(s.workers[w]);
  }

  lemma {:induction false} CountZero<T>(xs: seq<T>, f: T -> bool)
    requires forall i :: 0 <= i < |xs| ==> !f(xs[i])
    ensures Count(xs, f) == 0
  {
    if xs != [] { CountZero(xs[..|xs| - 1], f); }
  }

  /** With no woken worker and no push in progress, a sleeping worker means an empty queue. */
  lemma QuietPoolIsEmpty(s: Pool, w: nat)
    requires Reachable(s) && w < |s.workers| && s.workers[w].pc.Asleep?
    requires forall v :: 0 <= v < |s.workers| ==> !Waking(s.workers[v])
    requires forall p :: 0 <= p < |s.pushers| ==> !Pending(s.pushers[p])
    ensures s.queue == []
  {
    NoLostWakeup(s, w);
    CountZero(s.workers, Waking);
    CountZero(s.pushers, Pending);
  }

  /** At most one agent is inside a region locked by the pool's mutex. */
  lemma MutualExclusion(s: Pool)
    requires Reachable(s)
    ensures forall v, w :: 0 <= v < w < |s.workers| ==> !(HoldsMutex(s.workers[v].pc) && HoldsMutex(s.workers[w].pc))
    ensures forall w, p :: 0 <= w < |s.workers| && 0 <= p < |s.pushers| ==>
      !(HoldsMutex(s.workers[w].pc) && PushHolds(s.pushers[p].pc))
    ensures forall p, q :: 0 <= p < q < |s.pushers| ==> !(PushHolds(s.pushers[p].pc) && PushHolds(s.pushers[q].pc))
    ensures ControlHolds(s.control) ==>
      && (forall w :: 0 <= w < |s.workers| ==> !HoldsMutex(s.workers[w].pc))
      && (forall p :: 0 <= p < |s.pushers| ==> !PushHolds(s.pushers[p].pc))
  {
    ReachableInv(s);
  }

  /** No worker told to finish by a flag, and no worker at all once isDone is set, is left
      asleep when the resize or stop that gave the command has passed its notify_all. */
  lemma CommandWakesSleepers(s: Pool, w: nat)
    requires Reachable(s) && w < |s.workers| && !WillNotifyAll(s.control)
    requires s.workers[w].flag || s.isDone
    ensures !s.workers[w].pc.Asleep?
  {
    ReachableInv(s);
  }

  lemma {:induction false} DistinctOnce(xs: seq<nat>, t: nat)
    requires Distinct(xs) && t in xs
    ensures multiset(xs)[t] == 1
  {
    var n := |xs| - 1;
    assert xs == xs[..n] + [xs[n]];
    if t in xs[..n] { DistinctOnce(xs[..n], t); }
  }

  /** Tasks leave the queue in the order they entered it; a task that left it is in exactly one
      place (a worker's hand, run, taken, discarded), and one that did not is in none. */
  lemma TasksConserved(s: Pool, t: nat)
    requires Reachable(s)
    ensures s.log.enqueued == s.log.dequeued + s.queue
    ensures t in s.log.enqueued <==> t < |s.pushers| && !s.pushers[t].pc.Enqueue?
    ensures Gone(s.workers, s.log)[t] == if t in s.log.dequeued then 1 else 0
  {
    ReachableInv(s);
    if t in s.log.dequeued {
      assert forall i :: 0 <= i < |s.log.dequeued| ==> s.log.enqueued[i] == s.log.dequeued[i];
      DistinctOnce(s.log.dequeued, t);
    }
  }

  /** n_idle() is the number of workers between entering and leaving the wait. */
  lemma IdleCount(s: Pool)
    requires Reachable(s)
    ensures s.nWaiting == Count(s.workers, Parked) >= 0
  {
    ReachableInv(s);
  }
}
