/**
 What `stop` leaves behind (ctpl_stl.h lines 139-170), whichever way it is called and whatever
 workers and pushes do meanwhile, and that it always gets as far as the joins.
 */
module ThreadPoolStop {
  import opened Basics
  import opened ThreadPool
  import opened ThreadPoolResize
  import opened ThreadPoolSafety

  predicate InStop(c: Control) {
    c.StopFlag? || c.StopClear? || c.StopLock? || c.StopNotify? || c.StopUnlock? || c.Joining? || c.FinalClear?
  }

  // Worker w is one of the first n threads in the vector.
  ghost predicate FirstOf(attached: seq<nat>, n: nat, w: nat) {
    exists i :: 0 <= i < n && i < |attached| && attached[i] == w
  }

  // The first n threads in the vector have newly been told to finish, and no others.
  ghost predicate Told(s: Pool, t: Pool, n: nat) {
    && |t.workers| == |s.workers|
    && forall w :: 0 <= w < |s.workers| ==>
         (t.workers[w].flag <==> s.workers[w].flag || FirstOf(s.attached, n, w))
  }

  ghost predicate Joined(s: Pool, t: Pool, n: nat) {
    forall i :: 0 <= i < n && i < |s.attached| ==>
      s.attached[i] < |t.workers| && t.workers[s.attached[i]].pc.Exited?
  }

  // The pool's own two flags.
  predicate Marked(s: Pool, wait: bool, t: Pool) {
    t.isStop == (s.isStop || !wait) && t.isDone == (s.isDone || wait)
  }

  // How far a stop, called in s, has come.
  ghost predicate Stopping(s: Pool, wait: bool, t: Pool) {
    match t.control
    case StopFlag(next) => !wait && Begun(s, wait, t) && Told(s, t, next)
    case StopClear => !wait && Begun(s, wait, t) && Told(s, t, |s.attached|)
    case StopLock => Cleared(s, wait, t)
    case StopNotify => Cleared(s, wait, t)
    case StopUnlock => Cleared(s, wait, t)
    case Joining(next) => Cleared(s, wait, t) && Joined(s, t, next)
    case FinalClear => Cleared(s, wait, t) && Joined(s, t, |s.attached|)
    case Idle => Stopped(s, wait, t)
    case _ => false
  }

  ghost predicate Begun(s: Pool, wait: bool, t: Pool) {
    t.attached == s.attached && Marked(s, wait, t) && s.log.enqueued <= t.log.enqueued
  }

  // A stop that does not wait has emptied the queue of what was in it.
  ghost predicate Cleared(s: Pool, wait: bool, t: Pool) {
    && Begun(s, wait, t) && Told(s, t, if wait then 0 else |s.attached|)
    && (!wait ==> s.log.enqueued <= t.log.dequeued)
  }

  // What a finished stop has done.
  ghost predicate Stopped(s: Pool, wait: bool, t: Pool) {
    && t.attached == [] && t.queue == [] && Marked(s, wait, t)
    && Told(s, t, if wait then 0 else |s.attached|) && Joined(s, t, |s.attached|)
  }

  // ---------------------------------------------------------------- what others do meanwhile

  // A step that leaves the threads, their flags and the control thread alone.
  ghost predicate Meanwhile(t: Pool, t': Pool) {
    && SameThreads(t, t') && t'.isStop == t.isStop && t'.isDone == t.isDone
    && t.log.enqueued <= t'.log.enqueued && t.log.dequeued <= t'.log.dequeued
    && forall w :: 0 <= w < |t.workers| && t.workers[w].pc.Exited? ==> t'.workers[w].pc.Exited?
  }

  lemma WorkerMeanwhile(t: Pool, w: nat)
    requires WorkerEnabled(t, w)
    ensures Meanwhile(t, WorkerNext(t, w))
  {
    WorkerKeepsThreads(t, w);
  }

  lemma PushMeanwhile(t: Pool, p: nat, wake: nat)
    requires PushEnabled(t, p, wake)
    ensures Meanwhile(t, PushNext(t, p, wake))
  {
    PushKeepsThreads(t, p, wake);
  }

  lemma OthersMeanwhile(t: Pool, e: Event)
    requires Enabled(t, e) && InStop(t.control) && !e.ControlStep?
    ensures Meanwhile(t, Next(t, e))
  {
    match e
    case WorkerStep(w) => WorkerMeanwhile(t, w);
    case PushStep(p, wake) => PushMeanwhile(t, p, wake);
    case _ =>
  }

  lemma StoppingFrame(s: Pool, wait: bool, t: Pool, t': Pool)
    requires Stopping(s, wait, t) && InStop(t.control) && Meanwhile(t, t')
    ensures Stopping(s, wait, t')
  {
  }

  // ---------------------------------------------------------------- what stop does itself

  lemma ToldOneMore(s: Pool, wait: bool, t: Pool)
    requires Shape(s) && Stopping(s, wait, t) && t.control.StopFlag? && ControlEnabled(t)
    ensures Stopping(s, wait, StopNext(t))
  {
    var next := t.control.next;
    if next < |s.attached| {
      forall w: nat | w < |s.workers|
        ensures FirstOf(s.attached, next + 1, w) <==> FirstOf(s.attached, next, w) || s.attached[next] == w
      {
      }
    } else {
      forall w: nat ensures FirstOf(s.attached, next, w) <==> FirstOf(s.attached, |s.attached|, w) {
      }
    }
  }

  lemma ClearedOneMore(s: Pool, wait: bool, t: Pool)
    requires Conserved(t) && Stopping(s, wait, t) && t.control.StopClear?
    ensures Stopping(s, wait, StopNext(t))
  {
    if t.queue == [] { assert t.log.dequeued + t.queue == t.log.dequeued; }
  }

  lemma NotifiedOneMore(s: Pool, wait: bool, t: Pool)
    requires Stopping(s, wait, t) && ControlEnabled(t)
    requires t.control.StopLock? || t.control.StopNotify? || t.control.StopUnlock?
    ensures Stopping(s, wait, StopNext(t))
  {
  }

  lemma JoinedOneMore(s: Pool, wait: bool, t: Pool)
    requires Shape(s) && Stopping(s, wait, t) && (t.control.Joining? || t.control.FinalClear?) && ControlEnabled(t)
    ensures Stopping(s, wait, StopNext(t))
  {
  }

  lemma StoppingKept(s: Pool, wait: bool, t: Pool, e: Event)
    requires Shape(s) && Conserved(t) && Stopping(s, wait, t) && InStop(t.control) && Enabled(t, e)
    ensures Stopping(s, wait, Next(t, e))
  {
    if !e.ControlStep? {
      OthersMeanwhile(t, e);
      StoppingFrame(s, wait, t, Next(t, e));
    } else if t.control.StopFlag? {
      ToldOneMore(s, wait, t);
    } else if t.control.StopClear? {
      ClearedOneMore(s, wait, t);
    } else if t.control.Joining? || t.control.FinalClear? {
      JoinedOneMore(s, wait, t);
    } else {
      NotifiedOneMore(s, wait, t);
    }
  }

  // ---------------------------------------------------------------- whole calls

  // A run up to the return of stop.
  predicate StopRun(t: Pool, run: seq<Event>)
    decreases |run|
  {
    run == [] || (InStop(t.control) && Enabled(t, run[0]) && StopRun(Next(t, run[0]), run[1..]))
  }

  lemma {:induction false} StopRunKeeps(s: Pool, wait: bool, t: Pool, run: seq<Event>)
    requires Shape(s) && Inv(t) && Stopping(s, wait, t) && StopRun(t, run) && IsRun(t, run)
    ensures Stopping(s, wait, After(t, run))
    decreases |run|
  {
    if run != [] {
      StoppingKept(s, wait, t, run[0]);
      InvKept(t, run[0]);
      StopRunKeeps(s, wait, Next(t, run[0]), run[1..]);
    }
  }

  /** A call of stop returns at once, with nothing changed, exactly if the pool has been stopped
      before: by either kind, or for a stop that does not wait by one that did not either. */
  lemma StopIgnoredExactly(s: Pool, wait: bool)
    requires s.control.Idle?
    ensures Next(s, CallStop(wait)).control.Idle? <==> s.isStop || (wait && s.isDone)
    ensures Next(s, CallStop(wait)).control.Idle? ==> Next(s, CallStop(wait)) == s
  {
  }

  lemma StopBegins(s: Pool, wait: bool)
    requires s.control.Idle? && !s.isStop && !(wait && s.isDone)
    ensures Stopping(s, wait, Next(s, CallStop(wait)))
  {
  }

  /** Every run of any other call that returns leaves an empty queue and an empty vector, with every
      thread that was in it finished.  A stop that does not wait has told exactly these threads to
      finish, one that waits none. */
  lemma StopExactly(s: Pool, wait: bool, run: seq<Event>)
    requires Reachable(s) && s.control.Idle? && !s.isStop && !(wait && s.isDone)
    requires StopRun(Next(s, CallStop(wait)), run) && IsRun(Next(s, CallStop(wait)), run)
    requires After(Next(s, CallStop(wait)), run).control.Idle?
    ensures Stopped(s, wait, After(Next(s, CallStop(wait)), run))
  {
    ReachableInv(s);
    StopBegins(s, wait);
    InvKept(s, CallStop(wait));
    StopRunKeeps(s, wait, Next(s, CallStop(wait)), run);
  }

  /** A stop that does not wait has every task that was queued when it was called out of the queue
      before it notifies or joins anybody. */
  lemma ClearsBeforeNotify(s: Pool, run: seq<Event>)
    requires Reachable(s) && s.control.Idle? && !s.isStop
    requires StopRun(Next(s, CallStop(false)), run) && IsRun(Next(s, CallStop(false)), run)
    ensures var t := After(Next(s, CallStop(false)), run);
      t.control.StopNotify? || t.control.StopUnlock? || t.control.Joining? ==> s.log.enqueued <= t.log.dequeued
  {
    ReachableInv(s);
    StopBegins(s, false);
    InvKept(s, CallStop(false));
    StopRunKeeps(s, false, Next(s, CallStop(false)), run);
  }

  // ---------------------------------------------------------------- that it gets to the joins

  // The steps stop has to take itself before the joins.
  function UntilJoins(s: Pool): nat {
    match s.control
    case StopFlag(next) => (if next < |s.attached| then |s.attached| - next else 0) + |s.queue| + 5
    case StopClear => |s.queue| + 4
    case StopLock => 3
    case StopNotify => 2
    case StopUnlock => 1
    case _ => 0
  }

  predicate BeforeJoins(c: Control) {
    c.StopFlag? || c.StopClear? || c.StopLock? || c.StopNotify? || c.StopUnlock?
  }

  lemma StopSteps(s: Pool)
    requires Exclusive(s) && BeforeJoins(s.control) && (s.control.StopLock? ==> s.mutex == Nobody)
    ensures ControlEnabled(s)
    ensures UntilJoins(StopNext(s)) < UntilJoins(s) && UntilUnlock(StopNext(s)) <= UntilUnlock(s)
    ensures BeforeJoins(StopNext(s).control) || StopNext(s).control.Joining?
  {
  }

  lemma StopGoesOn(s: Pool) returns (e: Event)
    requires Inv(s) && BeforeJoins(s.control)
    ensures Enabled(s, e) && (BeforeJoins(Next(s, e).control) || Next(s, e).control.Joining?)
    ensures UntilJoins(Next(s, e)) + UntilUnlock(Next(s, e)) < UntilJoins(s) + UntilUnlock(s)
  {
    e := ControlStep;
    if s.control.StopLock? && s.mutex != Nobody { e := HolderSteps(s); } else { StopSteps(s); }
  }

  lemma RunCons(s: Pool, e: Event, rest: seq<Event>)
    requires InStop(s.control) && Enabled(s, e) && StopRun(Next(s, e), rest) && IsRun(Next(s, e), rest)
    ensures StopRun(s, [e] + rest) && IsRun(s, [e] + rest) && After(s, [e] + rest) == After(Next(s, e), rest)
  {
    assert ([e] + rest)[1..] == rest;
  }

  /** Wherever a stop is before the joins, it can still get there: it waits for nothing but the
      mutex, and whoever holds that can give it up, in a bounded number of steps. */
  lemma {:induction false} StopCanJoin(s: Pool) returns (run: seq<Event>)
    requires Inv(s) && (BeforeJoins(s.control) || s.control.Joining?)
    ensures StopRun(s, run) && IsRun(s, run) && After(s, run).control.Joining?
    ensures |run| <= UntilJoins(s) + UntilUnlock(s)
    decreases UntilJoins(s) + UntilUnlock(s)
  {
    run := [];
    if !s.control.Joining? {
      var e := StopGoesOn(s);
      InvKept(s, e);
      var rest := StopCanJoin(Next(s, e));
      RunCons(s, e, rest);
      run := [e] + rest;
    }
  }
}
