/**
 What `resize` promises (ctpl_stl.h lines 93-118): when it has returned the pool has exactly the
 threads asked for, the old ones first, and has told exactly the ones cut off to finish.
 */
module ThreadPoolResize {
  import opened Basics
  import opened ThreadPool
  import opened ThreadPoolSafety

  // Worker w is one of the threads that a shrinking resize cuts off from place n on.
  ghost predicate CutFrom(attached: seq<nat>, n: nat, w: nat) {
    exists i :: n <= i < |attached| && attached[i] == w
  }

  // The flags of the workers that were there, of which those attached from place n on are told to
  // finish; later workers have none.
  ghost predicate FlagsFrom(s: Pool, t: Pool, n: nat) {
    && |s.workers| <= |t.workers|
    && (forall w :: 0 <= w < |s.workers| ==>
          (t.workers[w].flag <==> s.workers[w].flag || CutFrom(s.attached, n, w)))
    && (forall w :: |s.workers| <= w < |t.workers| ==> !t.workers[w].flag)
  }

  // The old threads, and then new ones, numbered on.
  ghost predicate OldThenNew(s: Pool, t: Pool) {
    && s.attached <= t.attached && |t.workers| == |s.workers| + |t.attached| - |s.attached|
    && forall i :: |s.attached| <= i < |t.attached| ==> t.attached[i] == |s.workers| + i - |s.attached|
  }

  // How far a resize to n threads, called in s, has come.
  ghost predicate Resizing(s: Pool, n: nat, t: Pool) {
    match t.control
    case Growing(target) => target == n && |t.attached| <= n && OldThenNew(s, t) && FlagsFrom(s, t, |s.attached|)
    case ShrinkFlag(next, keep) =>
      keep == n <= next <= |s.attached| && t.attached == s.attached && |t.workers| == |s.workers|
        && FlagsFrom(s, t, next)
    case ShrinkLock(keep) => HasFlagged(s, n, t, keep)
    case ShrinkNotify(keep) => HasFlagged(s, n, t, keep)
    case ShrinkUnlock(keep) => HasFlagged(s, n, t, keep)
    case ShrinkCut(keep) => HasFlagged(s, n, t, keep)
    case Idle => Resized(s, n, t)
    case _ => false
  }

  ghost predicate HasFlagged(s: Pool, n: nat, t: Pool, keep: nat) {
    keep == n <= |s.attached| && t.attached == s.attached && |t.workers| == |s.workers| && FlagsFrom(s, t, n)
  }

  // What a finished resize has done.
  ghost predicate Resized(s: Pool, n: nat, t: Pool) {
    && |t.attached| == n
    && t.attached[..Min(n, |s.attached|)] == s.attached[..Min(n, |s.attached|)]
    && |t.workers| == |s.workers| + (if n > |s.attached| then n - |s.attached| else 0)
    && (forall i :: |s.attached| <= i < n ==> t.attached[i] == |s.workers| + i - |s.attached|)
    && FlagsFrom(s, t, Min(n, |s.attached|))
  }

  // A step that leaves the threads, their flags and the control thread alone.
  ghost predicate SameThreads(t: Pool, t': Pool) {
    && t'.attached == t.attached && t'.control == t.control && |t'.workers| == |t.workers|
    && forall w :: 0 <= w < |t.workers| ==> t'.workers[w].flag == t.workers[w].flag
  }

  lemma ResizingFrame(s: Pool, n: nat, t: Pool, t': Pool)
    requires Resizing(s, n, t) && SameThreads(t, t')
    ensures Resizing(s, n, t')
  {
  }

  lemma WorkerKeepsThreads(t: Pool, w: nat)
    requires WorkerEnabled(t, w)
    ensures SameThreads(t, WorkerNext(t, w))
  {
  }

  lemma PushKeepsThreads(t: Pool, p: nat, wake: nat)
    requires PushEnabled(t, p, wake)
    ensures SameThreads(t, PushNext(t, p, wake))
  {
  }

  lemma OthersKeepThreads(t: Pool, e: Event)
    requires Enabled(t, e) && InResize(t.control) && !e.ControlStep?
    ensures SameThreads(t, Next(t, e))
  {
    match e
    case WorkerStep(w) => WorkerKeepsThreads(t, w);
    case PushStep(p, wake) => PushKeepsThreads(t, p, wake);
    case _ =>
  }

  lemma GrowOnce(s: Pool, n: nat, t: Pool)
    requires Shape(s) && Resizing(s, n, t) && t.control.Growing? && ControlEnabled(t)
    ensures Resizing(s, n, ResizeNext(t))
  {
  }

  lemma FlagOnce(s: Pool, n: nat, t: Pool)
    requires Shape(s) && Resizing(s, n, t) && t.control.ShrinkFlag? && ControlEnabled(t)
    ensures Resizing(s, n, ResizeNext(t))
  {
    var next := t.control.next;
    if next > n {
      var t' := ResizeNext(t);
      forall w: nat | w < |s.workers|
        ensures t'.workers[w].flag <==> s.workers[w].flag || CutFrom(s.attached, next - 1, w)
      {
        assert CutFrom(s.attached, next - 1, w) <==> CutFrom(s.attached, next, w) || s.attached[next - 1] == w;
      }
    }
  }

  lemma CutOff(s: Pool, n: nat, t: Pool)
    requires Resizing(s, n, t) && InResize(t.control) && !t.control.Growing? && !t.control.ShrinkFlag?
      && ControlEnabled(t)
    ensures Resizing(s, n, ResizeNext(t))
  {
  }

  lemma ResizingKept(s: Pool, n: nat, t: Pool, e: Event)
    requires Shape(s) && Resizing(s, n, t) && InResize(t.control) && Enabled(t, e)
    ensures Resizing(s, n, Next(t, e))
  {
    if !e.ControlStep? {
      OthersKeepThreads(t, e);
      ResizingFrame(s, n, t, Next(t, e));
    } else if t.control.Growing? {
      GrowOnce(s, n, t);
    } else if t.control.ShrinkFlag? {
      FlagOnce(s, n, t);
    } else {
      CutOff(s, n, t);
    }
  }

  // A run up to the return of resize.
  predicate ResizeRun(t: Pool, run: seq<Event>)
    decreases |run|
  {
    run == [] || (InResize(t.control) && Enabled(t, run[0]) && ResizeRun(Next(t, run[0]), run[1..]))
  }

  lemma {:induction false} ResizeRunKeeps(s: Pool, n: nat, t: Pool, run: seq<Event>)
    requires Shape(s) && Resizing(s, n, t) && ResizeRun(t, run) && IsRun(t, run)
    ensures Resizing(s, n, After(t, run))
    decreases |run|
  {
    if run != [] {
      ResizingKept(s, n, t, run[0]);
      ResizeRunKeeps(s, n, Next(t, run[0]), run[1..]);
    }
  }

  lemma CallBegins(s: Pool, n: nat)
    requires s.control.Idle? && !s.isDone && !s.isStop
    ensures Resizing(s, n, Next(s, CallResize(n)))
  {
  }

  /** Every run of resize(n) that returns ends with exactly n threads in the vector: the first of
      the old ones, and then new ones without a flag.  The workers newly told to finish are exactly
      those cut off. */
  lemma ResizeExactly(s: Pool, n: nat, run: seq<Event>)
    requires Reachable(s) && s.control.Idle? && !s.isDone && !s.isStop
    requires ResizeRun(Next(s, CallResize(n)), run) && IsRun(Next(s, CallResize(n)), run)
    requires After(Next(s, CallResize(n)), run).control.Idle?
    ensures Resized(s, n, After(Next(s, CallResize(n)), run))
  {
    ReachableInv(s);
    CallBegins(s, n);
    ResizeRunKeeps(s, n, Next(s, CallResize(n)), run);
  }


  // ---------------------------------------------------------------- that it can return

  // How far a worker or a push is from giving up the mutex.
  function UntilUnlock(s: Pool): nat {
    match s.mutex
    case HeldByWorker(w) =>
      if w >= |s.workers| then 0
      else (match s.workers[w].pc
        case EvalPop(_) => 5
        case EvalDone => 4
        case EvalFlag => 3
        case EvalWait => 2
        case _ => 1)
    case HeldByPusher(p) => if p < |s.pushers| && s.pushers[p].pc.Notify? then 2 else 1
    case _ => 0
  }

  // The holder's next step.
  lemma HolderSteps(s: Pool) returns (e: Event)
    requires Exclusive(s) && (s.mutex.HeldByWorker? || s.mutex.HeldByPusher?)
    ensures Enabled(s, e) && Next(s, e).control == s.control && Next(s, e).attached == s.attached
    ensures UntilUnlock(Next(s, e)) < UntilUnlock(s)
  {
    match s.mutex
    case HeldByWorker(w) => e := WorkerStep(w);
    case HeldByPusher(p) =>
      e := PushStep(p, 0);
      if s.pushers[p].pc.Notify? && AnyAsleep(s.workers) {
        var w :| 0 <= w < |s.workers| && s.workers[w].pc.Asleep?;
        e := PushStep(p, w);
      }
  }

  // The steps resize itself has to take.
  function UntilReturn(s: Pool): nat {
    match s.control
    case Growing(target) => if target > |s.attached| then target - |s.attached| + 1 else 1
    case ShrinkFlag(next, keep) => if next > keep then next - keep + 5 else 5
    case ShrinkLock(_) => 4
    case ShrinkNotify(_) => 3
    case ShrinkUnlock(_) => 2
    case ShrinkCut(_) => 1
    case _ => 0
  }

  lemma ResizeSteps(s: Pool)
    requires Exclusive(s) && Shape(s) && InResize(s.control) && (s.control.ShrinkLock? ==> s.mutex == Nobody)
    ensures ControlEnabled(s)
    ensures UntilReturn(ResizeNext(s)) < UntilReturn(s) && UntilUnlock(ResizeNext(s)) <= UntilUnlock(s)
    ensures InResize(ResizeNext(s).control) || ResizeNext(s).control.Idle?
  {
  }

  lemma ResizeGoesOn(s: Pool) returns (e: Event)
    requires Inv(s) && InResize(s.control)
    ensures Enabled(s, e) && (InResize(Next(s, e).control) || Next(s, e).control.Idle?)
    ensures UntilReturn(Next(s, e)) + UntilUnlock(Next(s, e)) < UntilReturn(s) + UntilUnlock(s)
  {
    e := ControlStep;
    if s.control.ShrinkLock? && s.mutex != Nobody { e := HolderSteps(s); } else { ResizeSteps(s); }
  }

  lemma RunCons(s: Pool, e: Event, rest: seq<Event>)
    requires InResize(s.control) && Enabled(s, e) && ResizeRun(Next(s, e), rest) && IsRun(Next(s, e), rest)
    ensures ResizeRun(s, [e] + rest) && IsRun(s, [e] + rest)
    ensures After(s, [e] + rest) == After(Next(s, e), rest)
  {
    assert ([e] + rest)[1..] == rest;
  }

  /** Wherever a resize is, it can still return: it waits for nothing but the mutex, and whoever
      holds that can give it up, in a bounded number of steps. */
  lemma {:induction false} ResizeCanReturn(s: Pool) returns (run: seq<Event>)
    requires Inv(s) && (InResize(s.control) || s.control.Idle?)
    ensures ResizeRun(s, run) && IsRun(s, run) && After(s, run).control.Idle?
    ensures |run| <= UntilReturn(s) + UntilUnlock(s)
    decreases UntilReturn(s) + UntilUnlock(s)
  {
    run := [];
    if InResize(s.control) {
      var e := ResizeGoesOn(s);
      InvKept(s, e);
      var rest := ResizeCanReturn(Next(s, e));
      RunCons(s, e, rest);
      run := [e] + rest;
    }
  }
}
