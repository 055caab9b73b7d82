/**
 The thread pool of `external/CTPL/ctpl_stl.h` as an interleaving step system.

 Every agent has an explicit program counter: the workers started by `set_thread`, the calls
 of `push`, and one control thread that calls `resize` and `stop` (the source asks for these to
 be called from one thread).  One step is one access to shared state: one operation on the
 task queue (which has its own lock), one read or write of an atomic flag, one lock, unlock or
 notification.  A worker asleep on the condition variable may also wake for no reason.
 Tasks are named by the index of the `push` call that made them.
 */
module ThreadPool {
  import opened Basics

  // Where a worker is in the lambda of `set_thread` (lines 216-241).
  datatype Pc =
    | TryPop                        // about to call q.pop outside the mutex
    | Running(task: nat)            // inside (*_f)(i)
    | CheckFlag                     // about to read _flag after a task
    | NeedLock                      // saw an empty queue, about to lock the mutex
    | EvalPop(woken: bool)          // holds the mutex, the predicate is about to pop
    | EvalDone                      // the predicate's pop failed, about to read isDone
    | EvalFlag                      // read isDone == false, about to read _flag
    | EvalWait                      // the predicate was false, about to sleep
    | Asleep                        // in the condition variable's wait set
    | Signalled                     // left the wait set, about to lock the mutex again
    | Leave(popped: Option<nat>)    // the predicate was true, the mutex is still held
    | Exited

  datatype Worker = Worker(pc: Pc, flag: bool)

  // Who calls push: some thread outside the pool, or a task that a worker is running.
  datatype Origin = Outside | FromTask(worker: nat)

  datatype PushPc = Enqueue | AwaitLock | Notify | Unlock | Returned

  datatype Pusher = Pusher(origin: Origin, pc: PushPc)

  datatype Holder = Nobody | HeldByWorker(w: nat) | HeldByPusher(p: nat) | HeldByControl

  // Where the control thread is in `resize` or `stop`.
  datatype Control =
    | Idle
    | Growing(target: nat)
    | ShrinkFlag(next: nat, keep: nat)
    | ShrinkLock(keep: nat) | ShrinkNotify(keep: nat) | ShrinkUnlock(keep: nat) | ShrinkCut(keep: nat)
    | StopFlag(next: nat)
    | StopClear
    | StopLock | StopNotify | StopUnlock
    | Joining(next: nat)
    | FinalClear

  datatype Pool = Pool(
    queue: seq<nat>,
    mutex: Holder,
    workers: seq<Worker>,     // every thread ever started, detached ones included
    attached: seq<nat>,       // the `threads` vector: indices into workers
    pushers: seq<Pusher>,     // every call of push ever begun
    control: Control,
    isDone: bool,
    isStop: bool,
    nWaiting: int,
    log: Log)

  // History, not part of the program.
  datatype Log = Log(
    enqueued: seq<nat>,       // tasks in the order they entered the queue
    dequeued: seq<nat>,       // tasks in the order they left it
    ran: multiset<nat>,
    taken: multiset<nat>,       // handed out by thread_pool::pop
    discarded: multiset<nat>)   // deleted by clear_queue

  datatype Event =
    | WorkerStep(w: nat)
    | SpuriousWake(w: nat)
    | PushBegin(origin: Origin)
    | PushStep(p: nat, wake: nat)   // wake: the worker that notify_one picks, if any sleeps
    | TakeTask
    | CallResize(n: nat)
    | CallStop(wait: bool)
    | ControlStep

  const Initial := Pool([], Nobody, [], [], [], Idle, false, false, 0, Log([], [], multiset{}, multiset{}, multiset{}))

  // ---------------------------------------------------------------- steps

  predicate AnyAsleep(ws: seq<Worker>) {
    exists w :: 0 <= w < |ws| && ws[w].pc.Asleep?
  }

  function WakeAll(ws: seq<Worker>): (r: seq<Worker>)
    ensures |r| == |ws|
    ensures forall w :: 0 <= w < |ws| ==>
      r[w] == if ws[w].pc.Asleep? then ws[w].(pc := Signalled) else ws[w]
  {
    seq(|ws|, w requires 0 <= w < |ws| => if ws[w].pc.Asleep? then ws[w].(pc := Signalled) else ws[w])
  }

  predicate BusyPushing(s: Pool, w: nat) {
    exists p :: 0 <= p < |s.pushers| && s.pushers[p].origin == FromTask(w) && !s.pushers[p].pc.Returned?
  }

  predicate WorkerEnabled(s: Pool, w: nat) {
    w < |s.workers| &&
    match s.workers[w].pc
    case Running(_) => !BusyPushing(s, w)
    case NeedLock | Signalled => s.mutex == Nobody
    case Asleep | Exited => false
    case _ => true
  }

  function Goto(s: Pool, w: nat, pc: Pc): Pool
    requires w < |s.workers|
  {
    s.(workers := s.workers[w := s.workers[w].(pc := pc)])
  }

  // Queue::pop on a non-empty queue, as far as queue and history go.
  function Popped(s: Pool): Pool
    requires s.queue != []
  {
    s.(queue := s.queue[1..], log := s.log.(dequeued := s.log.dequeued + [s.queue[0]]))
  }

  function WorkerNext(s: Pool, w: nat): Pool
    requires WorkerEnabled(s, w)
  {
    match s.workers[w].pc
    case TryPop =>
      if s.queue == [] then Goto(s, w, NeedLock) else Goto(Popped(s), w, Running(s.queue[0]))
    case Running(t) => Goto(s, w, CheckFlag).(log := s.log.(ran := s.log.ran + multiset{t}))
    case CheckFlag => Goto(s, w, if s.workers[w].flag then Exited else TryPop)
    case NeedLock => Goto(s, w, EvalPop(false)).(mutex := HeldByWorker(w), nWaiting := s.nWaiting + 1)
    case EvalPop(_) =>
      if s.queue == [] then Goto(s, w, EvalDone) else Goto(Popped(s), w, Leave(Some(s.queue[0])))
    case EvalDone => Goto(s, w, if s.isDone then Leave(None) else EvalFlag)
    case EvalFlag => Goto(s, w, if s.workers[w].flag then Leave(None) else EvalWait)
    case EvalWait => Goto(s, w, Asleep).(mutex := Nobody)
    case Signalled => Goto(s, w, EvalPop(true)).(mutex := HeldByWorker(w))
    case Leave(popped) =>
      Goto(s, w, if popped.Some? then Running(popped.value) else Exited)
        .(mutex := Nobody, nWaiting := s.nWaiting - 1)
  }

  predicate PushEnabled(s: Pool, p: nat, wake: nat) {
    p < |s.pushers| &&
    match s.pushers[p].pc
    case Enqueue | Unlock => true
    case AwaitLock => s.mutex == Nobody
    case Notify => AnyAsleep(s.workers) ==> wake < |s.workers| && s.workers[wake].pc.Asleep?
    case Returned => false
  }

  function PushGoto(s: Pool, p: nat, pc: PushPc): Pool
    requires p < |s.pushers|
  {
    s.(pushers := s.pushers[p := s.pushers[p].(pc := pc)])
  }

  // push (lines 172-198): the task enters the queue before the mutex is taken, and the
  // notification is sent while the mutex is held.
  function PushNext(s: Pool, p: nat, wake: nat): Pool
    requires PushEnabled(s, p, wake)
  {
    match s.pushers[p].pc
    case Enqueue => PushGoto(s, p, AwaitLock).(queue := s.queue + [p], log := s.log.(enqueued := s.log.enqueued + [p]))
    case AwaitLock => PushGoto(s, p, Notify).(mutex := HeldByPusher(p))
    case Notify =>
      var s' := PushGoto(s, p, Unlock);
      if AnyAsleep(s.workers) then Goto(s', wake, Signalled) else s'
    case Unlock => PushGoto(s, p, Returned).(mutex := Nobody)
  }

  predicate ControlEnabled(s: Pool) {
    match s.control
    case Idle => false
    case ShrinkLock(_) | StopLock => s.mutex == Nobody
    case ShrinkFlag(next, keep) => keep <= next <= |s.attached|
    case ShrinkCut(keep) => keep <= |s.attached|
    case Joining(next) =>
      next < |s.attached| && s.attached[next] < |s.workers| ==> s.workers[s.attached[next]].pc.Exited?
    case _ => true
  }

  function Flagged(ws: seq<Worker>, w: nat): (r: seq<Worker>)
    ensures |r| == |ws|
    ensures forall v :: 0 <= v < |ws| ==> r[v] == if v == w then ws[v].(flag := true) else ws[v]
  {
    if w < |ws| then ws[w := ws[w].(flag := true)] else ws
  }

  function Discard(s: Pool): Pool
    requires s.queue != []
  {
    var s' := Popped(s);
    s'.(log := s'.log.(discarded := s.log.discarded + multiset{s.queue[0]}))
  }

  // thread_pool::pop (lines 130-138) on a non-empty queue.
  function Take(s: Pool): Pool
    requires s.queue != []
  {
    var s' := Popped(s);
    s'.(log := s'.log.(taken := s.log.taken + multiset{s.queue[0]}))
  }

  // The rest of `resize` (lines 93-118), one step.
  function ResizeNext(s: Pool): Pool
    requires ControlEnabled(s) && InResize(s.control)
  {
    match s.control
    case Growing(target) =>
      if |s.attached| < target
      then s.(workers := s.workers + [Worker(TryPop, false)], attached := s.attached + [|s.workers|])
      else s.(control := Idle)
    case ShrinkFlag(next, keep) =>
      if next > keep
      then s.(workers := Flagged(s.workers, s.attached[next - 1]), control := ShrinkFlag(next - 1, keep))
      else s.(control := ShrinkLock(keep))
    case ShrinkLock(keep) => s.(control := ShrinkNotify(keep), mutex := HeldByControl)
    case ShrinkNotify(keep) => s.(control := ShrinkUnlock(keep), workers := WakeAll(s.workers))
    case ShrinkUnlock(keep) => s.(control := ShrinkCut(keep), mutex := Nobody)
    case ShrinkCut(keep) => s.(control := Idle, attached := s.attached[..keep])
  }

  // The rest of `stop` (lines 143-169), one step.
  function StopNext(s: Pool): Pool
    requires ControlEnabled(s) && !InResize(s.control)
  {
    match s.control
    case StopFlag(next) =>
      if next < |s.attached|
      then s.(workers := Flagged(s.workers, s.attached[next]), control := StopFlag(next + 1))
      else s.(control := StopClear)
    case StopClear => if s.queue == [] then s.(control := StopLock) else Discard(s)
    case StopLock => s.(control := StopNotify, mutex := HeldByControl)
    case StopNotify => s.(control := StopUnlock, workers := WakeAll(s.workers))
    case StopUnlock => s.(control := Joining(0), mutex := Nobody)
    case Joining(next) =>
      if next < |s.attached| then s.(control := Joining(next + 1)) else s.(control := FinalClear)
    case FinalClear => if s.queue == [] then s.(control := Idle, attached := []) else Discard(s)
  }

  predicate InResize(c: Control) {
    c.Growing? || c.ShrinkFlag? || c.ShrinkLock? || c.ShrinkNotify? || c.ShrinkUnlock? || c.ShrinkCut?
  }

  predicate Enabled(s: Pool, e: Event) {
    match e
    case WorkerStep(w) => WorkerEnabled(s, w)
    case SpuriousWake(w) => w < |s.workers| && s.workers[w].pc.Asleep?
    case PushBegin(origin) =>
      origin.FromTask? ==> origin.worker < |s.workers| && s.workers[origin.worker].pc.Running?
    case PushStep(p, wake) => PushEnabled(s, p, wake)
    case TakeTask => s.queue != []
    case CallResize(_) => s.control.Idle?
    case CallStop(_) => s.control.Idle?
    case ControlStep => ControlEnabled(s)
  }

  function Next(s: Pool, e: Event): Pool
    requires Enabled(s, e)
  {
    match e
    case WorkerStep(w) => WorkerNext(s, w)
    case SpuriousWake(w) => Goto(s, w, Signalled)
    case PushBegin(origin) => s.(pushers := s.pushers + [Pusher(origin, Enqueue)])
    case PushStep(p, wake) => PushNext(s, p, wake)
    case TakeTask => Take(s)
    case CallResize(n) =>
      if s.isStop || s.isDone then s
      else if |s.attached| <= n then s.(control := Growing(n))
      else s.(control := ShrinkFlag(|s.attached|, n))
    case CallStop(wait) =>
      if !wait then if s.isStop then s else s.(isStop := true, control := StopFlag(0))
      else if s.isDone || s.isStop then s else s.(isDone := true, control := StopLock)
    case ControlStep => if InResize(s.control) then ResizeNext(s) else StopNext(s)
  }

  // A run is a list of events, each enabled where it happens.
  predicate IsRun(s: Pool, run: seq<Event>)
    decreases |run|
  {
    run == [] || (Enabled(s, run[0]) && IsRun(Next(s, run[0]), run[1..]))
  }

  function After(s: Pool, run: seq<Event>): Pool
    requires IsRun(s, run)
    decreases |run|
  {
    if run == [] then s else After(Next(s, run[0]), run[1..])
  }

  // ---------------------------------------------------------------- counting

  function Count<T>(xs: seq<T>, f: T -> bool): (n: nat) {
    if xs == [] then 0 else Count(xs[..|xs| - 1], f) + (if f(xs[|xs| - 1]) then 1 else 0)
  }

  lemma {:induction false} CountUpdate<T>(xs: seq<T>, i: nat, x: T, f: T -> bool)
    requires i < |xs|
    ensures Count(xs[i := x], f) + (if f(xs[i]) then 1 else 0) == Count(xs, f) + (if f(x) then 1 else 0)
  {
    var last := |xs| - 1;
    if i == last {
      assert xs[i := x][..last] == xs[..last];
    } else {
      assert xs[i := x][..last] == xs[..last][i := x];
      CountUpdate(xs[..last], i, x, f);
    }
  }

  lemma CountAppend<T>(xs: seq<T>, x: T, f: T -> bool)
    ensures Count(xs + [x], f) == Count(xs, f) + (if f(x) then 1 else 0)
  {
    assert (xs + [x])[..|xs|] == xs;
  }

  lemma {:induction false} CountSame<T>(xs: seq<T>, ys: seq<T>, f: T -> bool)
    requires |xs| == |ys| && forall i :: 0 <= i < |xs| ==> f(xs[i]) == f(ys[i])
    ensures Count(xs, f) == Count(ys, f)
  {
    if xs != [] { CountSame(xs[..|xs| - 1], ys[..|xs| - 1], f); }
  }

  // Signalled, or woken and about to re-evaluate the predicate.
  predicate Waking(w: Worker) { w.pc.Signalled? || w.pc == EvalPop(true) }

  // The task is in the queue, notify_one has not been called yet.
  predicate Pending(p: Pusher) { p.pc.AwaitLock? || p.pc.Notify? }

  // Between ++nWaiting and --nWaiting.
  predicate Parked(w: Worker) {
    w.pc.Asleep? || w.pc.Signalled? || HoldsMutex(w.pc)
  }

  predicate HoldsMutex(pc: Pc) {
    pc.EvalPop? || pc.EvalDone? || pc.EvalFlag? || pc.EvalWait? || pc.Leave?
  }

  // The task a worker has popped and not finished.
  function Hand(w: Worker): multiset<nat> {
    match w.pc
    case Running(t) => multiset{t}
    case Leave(Some(t)) => multiset{t}
    case _ => multiset{}
  }

  function InHand(ws: seq<Worker>): multiset<nat> {
    if ws == [] then multiset{} else InHand(ws[..|ws| - 1]) + Hand(ws[|ws| - 1])
  }

  lemma MultisetSwap(a: multiset<nat>, b: multiset<nat>, c: multiset<nat>)
    ensures a + b + c == a + c + b
  {
  }

  lemma {:induction false} InHandUpdate(ws: seq<Worker>, i: nat, w: Worker)
    requires i < |ws|
    ensures InHand(ws[i := w]) + Hand(ws[i]) == InHand(ws) + Hand(w)
  {
    var last := |ws| - 1;
    var a, b := InHand(ws[..last]), InHand(ws[i := w][..last]);
    if i == last {
      assert ws[i := w][..last] == ws[..last];
      MultisetSwap(a, Hand(w), Hand(ws[i]));
    } else {
      assert ws[i := w][..last] == ws[..last][i := w];
      InHandUpdate(ws[..last], i, w);
      MultisetSwap(b, Hand(ws[last]), Hand(ws[i]));
      MultisetSwap(a, Hand(ws[last]), Hand(w));
    }
  }

  lemma InHandAppend(ws: seq<Worker>, w: Worker)
    ensures InHand(ws + [w]) == InHand(ws) + Hand(w)
  {
    assert (ws + [w])[..|ws|] == ws;
  }

  lemma {:induction false} InHandSame(xs: seq<Worker>, ys: seq<Worker>)
    requires |xs| == |ys| && forall i :: 0 <= i < |xs| ==> Hand(xs[i]) == Hand(ys[i])
    ensures InHand(xs) == InHand(ys)
  {
    if xs != [] { InHandSame(xs[..|xs| - 1], ys[..|xs| - 1]); }
  }
}
