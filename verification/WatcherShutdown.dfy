/**
 How the directory watcher shuts down: the draining loop ends with nothing left to close, and
 exactly when destroying the watcher can then free a buffer that the kernel still owns.
 */
module WatcherShutdown {
  import opened Basics
  import opened Watcher
  import opened WatcherSafety

  // ---------------------------------------------------------------- the draining loop

  // What may still come before the draining loop ends.
  function Remaining(s: System): nat {
    2 * |s.core.pending| + |s.queue| + 2 * s.stoppers + if s.phase.Draining? then 1 else 0
  }

  // Every step lowers it, whoever takes it.
  lemma DrainStepLowers(s: System, step: Step)
    requires s.phase.Draining? && Enabled(s, step)
    ensures Remaining(Next(s, step)) < Remaining(s)
    ensures Next(s, step).phase.Draining? || Next(s, step).phase.Done?
  {
  }

  // A loop that goes on has a packet to take, or waits for the kernel to finish a request on
  // a directory that is closed.
  lemma DrainNotStuck(s: System)
    requires Reachable(s) && s.phase.Draining?
    ensures
      || Enabled(s, EndDrain)
      || Enabled(s, DrainPacket)
      || exists a :: Enabled(s, Complete(a, true)) && a in s.core.watches && !s.core.watches[a].open
  {
    if HasPending(s.core) && s.queue == [] {
      ReachableInv(s);
      var a :| a in s.core.watches && s.core.watches[a].state.PendingClose?;
      assert OwnedAt(s, a);
      assert Enabled(s, Complete(a, true));
    }
  }

  // Draining lasts at most Remaining steps.
  lemma {:induction false} DrainBounded(s: System, steps: seq<Step>)
    requires s.phase.Draining? && IsRun(s, steps) && After(s, steps).phase.Draining?
    ensures |steps| + Remaining(After(s, steps)) <= Remaining(s)
    decreases |steps|
  {
    if steps != [] {
      DrainStepLowers(s, steps[0]);
      if Next(s, steps[0]).phase.Done? {
        StaysDone(Next(s, steps[0]), steps[1..]);
      }
      DrainBounded(Next(s, steps[0]), steps[1..]);
    }
  }

  lemma {:induction false} StaysDone(s: System, steps: seq<Step>)
    requires s.phase.Done? && IsRun(s, steps)
    ensures After(s, steps).phase == s.phase
    decreases |steps|
  {
    if steps != [] {
      assert Next(s, steps[0]).phase == s.phase;
      StaysDone(Next(s, steps[0]), steps[1..]);
    }
  }

  // ---------------------------------------------------------------- destroying the watcher

  // No watch listens, and after the drain none waits to be closed.
  ghost predicate Ending(s: System) {
    && (forall a :: a in s.core.watches ==> !s.core.watches[a].state.Listening?)
    && (s.phase == Done(true) ==> !HasPending(s.core))
  }

  lemma StopEnds(s: System)
    requires Enabled(s, Stop) && !s.phase.Done?
    ensures Ending(Next(s, Stop))
  {
  }

  lemma ProcessKeepsEnding(s: System, changes: bool, kernelAccepts: bool)
    requires Inv(s) && Ending(s) && Enabled(s, Process(changes, kernelAccepts))
    ensures Ending(Next(s, Process(changes, kernelAccepts)))
  {
    if s.inHand.value.Io? {
      assert OwnedAt(s, s.inHand.value.address);
      assert s.core.watches[s.inHand.value.address].state.PendingClose?;
    }
  }

  lemma EndingKept(s: System, step: Step)
    requires Inv(s) && Ending(s) && Enabled(s, step) && !step.Add?
    ensures Ending(Next(s, step))
  {
    if step.Process? {
      ProcessKeepsEnding(s, step.changes, step.kernelAccepts);
    } else {
      var c, c' := s.core, Next(s, step).core;
      assert forall a :: a in c'.watches ==>
        a in c.watches && (c'.watches[a] == c.watches[a] || c'.watches[a] == StopWatch(c.watches[a]));
    }
  }

  predicate NoAdd(steps: seq<Step>) { forall i :: 0 <= i < |steps| ==> !steps[i].Add? }

  lemma {:induction false} EndingRun(s: System, steps: seq<Step>)
    requires Inv(s) && Ending(s) && IsRun(s, steps) && NoAdd(steps)
    ensures Ending(After(s, steps)) && Inv(After(s, steps))
    decreases |steps|
  {
    if steps != [] {
      NextInv(s, steps[0]);
      EndingKept(s, steps[0]);
      EndingRun(Next(s, steps[0]), steps[1..]);
    }
  }

  // If no directory is added once stopEventLoop has been through the watches, then when the
  // event loop has ended without a failure nothing names any watch: they can all be freed.
  lemma ShutdownFreesNothingInUse(s: System, steps: seq<Step>, a: nat)
    requires Reachable(s) && Enabled(s, Stop) && !s.phase.Done?
    requires IsRun(Next(s, Stop), steps) && NoAdd(steps) && After(Next(s, Stop), steps).phase == Done(true)
    ensures References(After(Next(s, Stop), steps), a) == 0
  {
    ReachableInv(s);
    NextInv(s, Stop);
    StopEnds(s);
    EndingRun(Next(s, Stop), steps);
    UnusedExactly(After(Next(s, Stop), steps));
  }

  // ---------------------------------------------------------------- exactly when not

  predicate NamesAt(queue: seq<Packet>, i: int, a: nat) {
    0 <= i < |queue| && queue[i].Io? && queue[i].address == a
  }

  predicate Listens(s: System, a: nat) { a in s.core.watches && s.core.watches[a].state.Listening? }

  predicate Closing(s: System, a: nat) { a in s.core.watches && s.core.watches[a].state.PendingClose? }

  // The packet of one watch is queued before that of the other.
  ghost predicate Before(queue: seq<Packet>, b: nat, a: nat) {
    exists i, j :: i < j && NamesAt(queue, i, b) && NamesAt(queue, j, a)
  }

  ghost predicate Behind(s: System, a: nat) { forall b :: Closing(s, b) ==> Before(s.queue, b, a) }

  // A listening watch that the draining loop can miss: its request is not finished, or its
  // packet is queued behind that of every closing watch.
  ghost predicate Missed(s: System, a: nat) { Listens(s, a) && (a in s.core.pending || Behind(s, a)) }

  lemma {:induction false} CountOfNamed(queue: seq<Packet>, i: int, a: nat)
    requires NamesAt(queue, i, a)
    ensures CountIo(queue, a) >= 1
    ensures forall j :: j > i && NamesAt(queue, j, a) ==> CountIo(queue, a) >= 2
    decreases |queue|
  {
    if i == 0 {
      forall j | j > 0 && NamesAt(queue, j, a) ensures CountIo(queue, a) >= 2 {
        assert NamesAt(queue[1..], j - 1, a);
        CountOfNamed(queue[1..], j - 1, a);
      }
    } else {
      assert NamesAt(queue[1..], i - 1, a);
      CountOfNamed(queue[1..], i - 1, a);
      forall j | j > i && NamesAt(queue, j, a) ensures CountIo(queue, a) >= 2 { assert NamesAt(queue[1..], j - 1, a); }
    }
  }

  lemma {:induction false} NamedIfCounted(queue: seq<Packet>, a: nat) returns (i: nat)
    requires CountIo(queue, a) > 0
    ensures NamesAt(queue, i, a)
  {
    if queue[0].Io? && queue[0].address == a {
      i := 0;
    } else {
      i := NamedIfCounted(queue[1..], a);
      i := i + 1;
    }
  }

  // A packet named twice, or named while its request is unfinished, cannot be.
  lemma OnlyPlace(s: System, i: int, j: int, a: nat)
    requires Owned(s) && NamesAt(s.queue, i, a) && NamesAt(s.queue, j, a)
    ensures i == j && a !in s.core.pending
  {
    assert OwnedAt(s, a);
    CountOfNamed(s.queue, i, a);
    CountOfNamed(s.queue, j, a);
  }

  // ---- what is not missed is erased

  ghost predicate NoneMissed(s: System) { forall a :: !Missed(s, a) }

  ghost predicate NoneWaiting(s: System) { forall a :: !Waiting(s.core, a) }

  // What leads to a loop that leaves nothing in use.
  ghost predicate Safe(s: System) {
    && Inv(s) && (s.phase == Stopped(true) || s.phase.Draining? || s.phase.Done?)
    && (s.phase == Stopped(true) || s.phase.Draining? ==> NoneMissed(s))
    && (s.phase == Done(true) ==> NoneWaiting(s))
  }

  lemma StopKeepsMissed(s: System, step: Step, a: nat)
    requires Enabled(s, step) && (step.Remove? || step.Stop?) && Missed(Next(s, step), a)
    ensures Missed(s, a)
  {
    var s' := Next(s, step);
    forall b | Closing(s, b) && !(a in s.core.pending) ensures Before(s.queue, b, a) {
      assert Closing(s', b);
    }
  }

  lemma QueueKeepsMissed(s: System, step: Step, a: nat)
    requires Enabled(s, step) && (step.Post? || step.Complete?) && Missed(Next(s, step), a)
    ensures Missed(s, a)
  {
    var s' := Next(s, step);
    forall b | Closing(s, b) && !(a in s.core.pending) ensures Before(s.queue, b, a) {
      assert Closing(s', b);
      var i, j :| i < j && NamesAt(s'.queue, i, b) && NamesAt(s'.queue, j, a);
      assert NamesAt(s.queue, i, b) && NamesAt(s.queue, j, a);
    }
  }

  // A listening watch whose request is finished has its packet in the queue.
  lemma FinishedIsQueued(s: System, a: nat) returns (j: nat)
    requires Inv(s) && !s.phase.Running? && s.lost.None? && Waiting(s.core, a) && a !in s.core.pending
    ensures NamesAt(s.queue, j, a)
  {
    assert OwnedAt(s, a);
    j := NamedIfCounted(s.queue, a);
  }

  lemma DrainKeepsMissed(s: System, a: nat)
    requires Inv(s) && Enabled(s, DrainPacket) && Missed(Next(s, DrainPacket), a)
    ensures Missed(s, a)
  {
    var s' := Next(s, DrainPacket);
    if a !in s.core.pending {
      forall b | Closing(s, b) ensures Before(s.queue, b, a) {
        if Closing(s', b) {
          var i, j :| i < j && NamesAt(s'.queue, i, b) && NamesAt(s'.queue, j, a);
          assert NamesAt(s.queue, i + 1, b) && NamesAt(s.queue, j + 1, a);
        } else {
          var j := FinishedIsQueued(s, a);
          assert NamesAt(s.queue, 0, b);
          assert j != 0;
        }
      }
    }
  }

  lemma NoneWaitingAtEnd(s: System)
    requires Safe(s) && Enabled(s, EndDrain)
    ensures NoneWaiting(Next(s, EndDrain))
  {
    forall a ensures !Waiting(Next(s, EndDrain).core, a) { assert !Missed(s, a); }
  }

  lemma NoneWaitsLater(s: System, step: Step, a: nat)
    requires LoopOk(s) && s.phase.Done? && Enabled(s, step)
    ensures !Waiting(s.core, a) ==> !Waiting(Next(s, step).core, a)
  {
  }

  lemma SafeStep(s: System, step: Step)
    requires Safe(s) && Enabled(s, step)
    ensures Safe(Next(s, step))
  {
    NextInv(s, step);
    var s' := Next(s, step);
    if s.phase.Done? {
      forall a ensures !Waiting(s.core, a) ==> !Waiting(s'.core, a) { NoneWaitsLater(s, step, a); }
    } else if step.EndDrain? {
      NoneWaitingAtEnd(s);
    } else if !step.TakeFails? {
      forall a ensures !Missed(s', a) {
        if Missed(s', a) { MissedBefore(s, step, a); }
      }
    }
  }

  lemma MissedBefore(s: System, step: Step, a: nat)
    requires Safe(s) && Enabled(s, step) && !s.phase.Done? && !step.EndDrain? && !step.TakeFails?
    requires Missed(Next(s, step), a)
    ensures Missed(s, a)
  {
    match step
    case DrainPacket => DrainKeepsMissed(s, a);
    case Remove(_, _) => StopKeepsMissed(s, step, a);
    case Stop => StopKeepsMissed(s, step, a);
    case Post => QueueKeepsMissed(s, step, a);
    case Complete(_, _) => QueueKeepsMissed(s, step, a);
    case _ => SameMissed(s, step, a);
  }

  // Nothing is added any more, and taking the lock changes no watch.
  lemma SameMissed(s: System, step: Step, a: nat)
    requires LoopOk(s) && Enabled(s, step) && (step.Add? || step.BeginDrain?)
      && (s.phase == Stopped(true) || s.phase.Draining?)
    ensures Missed(Next(s, step), a) <==> Missed(s, a)
  {
    var s' := Next(s, step);
    assert s'.core == s.core && s'.queue == s.queue;
    assert forall b :: Closing(s', b) <==> Closing(s, b);
    assert Behind(s', a) <==> Behind(s, a);
  }

  lemma {:induction false} SafeRun(s: System, steps: seq<Step>)
    requires Safe(s) && IsRun(s, steps)
    ensures Safe(After(s, steps))
    decreases |steps|
  {
    if steps != [] {
      SafeStep(s, steps[0]);
      SafeRun(Next(s, steps[0]), steps[1..]);
    }
  }

  // ---- what is missed can be left listening

  lemma DrainPassesMissed(s: System, a: nat)
    requires Inv(s) && Enabled(s, DrainPacket) && Missed(s, a)
    ensures Missed(Next(s, DrainPacket), a)
  {
    var s' := Next(s, DrainPacket);
    if NamesAt(s.queue, 0, a) {
      if a in s.core.pending {
        OnlyPlace(s, 0, 0, a);
      } else {
        var b :| b in s.core.watches && s.core.watches[b].state.PendingClose?;
        assert Closing(s, b);
        var i, j :| i < j && NamesAt(s.queue, i, b) && NamesAt(s.queue, j, a);
        OnlyPlace(s, 0, j, a);
      }
    }
    if a !in s.core.pending {
      forall b | Closing(s', b) ensures Before(s'.queue, b, a) {
        assert Closing(s, b);
        var i, j :| i < j && NamesAt(s.queue, i, b) && NamesAt(s.queue, j, a);
        assert i > 0;
        assert NamesAt(s'.queue, i - 1, b) && NamesAt(s'.queue, j - 1, a);
      }
    }
  }

  // With nothing queued the kernel finishes a request of a closing watch, not of this one.
  lemma KernelPassesMissed(s: System, a: nat) returns (b: nat)
    requires Inv(s) && s.phase.Draining? && HasPending(s.core) && s.queue == [] && Missed(s, a)
    ensures Enabled(s, Complete(b, true)) && Missed(Next(s, Complete(b, true)), a)
  {
    b :| b in s.core.watches && s.core.watches[b].state.PendingClose?;
    assert OwnedAt(s, b);
    assert Closing(s, b) && !Before(s.queue, b, a);
  }

  lemma LeaveListening(s: System, a: nat) returns (steps: seq<Step>)
    requires Inv(s) && s.phase.Draining? && Missed(s, a)
    ensures IsRun(s, steps) && After(s, steps).phase == Done(true) && Listens(After(s, steps), a)
    decreases Remaining(s)
  {
    var step := EndDrain;
    steps := [];
    if HasPending(s.core) {
      if s.queue != [] {
        step := DrainPacket;
        DrainPassesMissed(s, a);
      } else {
        var b := KernelPassesMissed(s, a);
        step := Complete(b, true);
      }
      NextInv(s, step);
      DrainStepLowers(s, step);
      steps := LeaveListening(Next(s, step), a);
    }
    RunCons(s, step, steps);
    steps := [step] + steps;
  }

  // Some run ends the loop without a failure while something still names a watch.
  ghost predicate CanEndInUse(s: System) {
    exists steps, a :: IsRun(s, steps) && After(s, steps).phase == Done(true) && References(After(s, steps), a) > 0
  }

  // When the event loop has set stopped, whatever was added before: destroying the watcher is
  // safe in every run that ends its loop without a failure, exactly if no watch is missed.
  lemma DestroySafeExactly(s: System)
    requires Reachable(s) && s.phase == Stopped(true)
    ensures CanEndInUse(s) <==> exists a :: Missed(s, a)
  {
    ReachableInv(s);
    if a :| Missed(s, a) {
      var s' := Next(s, BeginDrain);
      SameMissed(s, BeginDrain, a);
      NextInv(s, BeginDrain);
      var steps := LeaveListening(s', a);
      RunCons(s, BeginDrain, steps);
      RunInv(s', steps);
      assert OwnedAt(After(s', steps), a);
      var all := [BeginDrain] + steps;
      assert References(After(s, all), a) > 0;
    } else {
      forall steps, a | IsRun(s, steps) && After(s, steps).phase == Done(true)
        ensures References(After(s, steps), a) == 0
      {
        SafeRun(s, steps);
        UnusedExactly(After(s, steps));
      }
    }
  }

  // Stop, then Add, then the stop's packet.
  const RACED := System(
    Core(map[1 := WatchInfo(7, Listening, true)], false, [], multiset{1}), [Magic], None, None, Running, 0)

  lemma RacedReachable()
    ensures Reachable(RACED)
  {
    assert IsRun(Start, []) && After(Start, []) == Start;
    assert Reachable(Start);
    ReachNext(Start, Stop);
    var s1 := Next(Start, Stop);
    assert s1 == Start.(stoppers := 1);
    ReachNext(s1, Add(1, 7, true));
    ReachNext(Next(s1, Add(1, 7, true)), Post);
    assert Next(Next(s1, Add(1, 7, true)), Post).core.watches == RACED.core.watches;
  }

  // Where a directory is added between stopEventLoop's pass over the watches and the loop's
  // setting of stopped, the loop ends with that watch listening: destroying the watcher then
  // frees a buffer that the kernel still owns.
  lemma RacingAddLeftListening()
    ensures exists s :: Reachable(s) && s.phase == Done(true) && Waiting(s.core, 1) && s.core.pending[1] == 1
  {
    RacedReachable();
    ReachNext(RACED, TakePacket);
    var s1 := RACED.(queue := [], phase := Broke(true));
    assert Next(RACED, TakePacket) == s1;
    ReachNext(s1, SetStopped);
    var s2 := s1.(core := s1.core.(stopped := true), phase := Stopped(true));
    ReachNext(s2, BeginDrain);
    var s3 := s2.(phase := Draining);
    assert !HasPending(s3.core);
    ReachNext(s3, EndDrain);
    assert Waiting(s3.core, 1) && s3.core.pending[1] == 1;
  }
}
