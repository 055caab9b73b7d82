/**
 Who owns a watch's buffer.  In every reachable state the kernel and the packets on their way
 name an address exactly as often as the watch there says it is waiting, so no step frees a
 buffer in use.
 */
module WatcherSafety {
  import opened Basics
  import opened Watcher

  // ---------------------------------------------------------------- ownership

  // The packets of the queue that name the address.
  function CountIo(queue: seq<Packet>, a: nat): nat {
    if queue == [] then 0 else Names(Some(queue[0]), a) + CountIo(queue[1..], a)
  }

  function Names(p: Option<Packet>, a: nat): nat {
    if p.Some? && p.value.Io? && p.value.address == a then 1 else 0
  }

  // Everything that names the address: unfinished requests, and packets not yet processed.
  ghost function References(s: System, a: nat): nat {
    s.core.pending[a] + CountIo(s.queue, a) + Names(s.inHand, a) + Names(s.lost, a)
  }

  predicate Waiting(c: Core, a: nat) { a in c.watches && !c.watches[a].state.Initialized? }

  ghost predicate OwnedAt(s: System, a: nat) { References(s, a) == if Waiting(s.core, a) then 1 else 0 }

  // A watch is Listening or PendingClose iff exactly one request or packet names its address;
  // nothing names any other address.
  ghost predicate Owned(s: System) { forall a :: OwnedAt(s, a) }

  // Listening watches have their directory open, closing ones have it closed.
  predicate HandleOk(w: WatchInfo) { (w.state.Listening? ==> w.open) && (w.state.PendingClose? ==> !w.open) }

  ghost predicate Handles(c: Core) { forall a :: a in c.watches ==> HandleOk(c.watches[a]) }

  predicate LoopOk(s: System) {
    && (s.inHand.Some? ==> s.phase.Running?)
    && (s.lost.Some? ==> s.phase == Broke(false) || s.phase == Stopped(false) || s.phase == Done(false))
    && (s.phase.Stopped? || s.phase.Draining? || s.phase.Done? ==> s.core.stopped)
  }

  ghost predicate Inv(s: System) { Owned(s) && Handles(s.core) && LoopOk(s) }

  lemma CountIoAppend(queue: seq<Packet>, p: Packet, a: nat)
    ensures CountIo(queue + [p], a) == CountIo(queue, a) + Names(Some(p), a)
  {
    if queue == [] {
      assert queue + [p] == [p];
    } else {
      assert (queue + [p])[1..] == queue[1..] + [p];
      CountIoAppend(queue[1..], p, a);
    }
  }

  // ---------------------------------------------------------------- one watch

  // Only the watch at a changes, and its waiting with the kernel's requests.
  lemma ListenOwned(c: Core, a: nat, kernelAccepts: bool)
    requires a in c.watches && Handles(c)
    ensures var c' := Listen(c, a, kernelAccepts);
      && Handles(c')
      && (forall b :: c'.pending[b] == c.pending[b] + if b == a && CanListen(c.watches[a], kernelAccepts) then 1 else 0)
      && (forall b :: b != a ==> (Waiting(c', b) <==> Waiting(c, b)))
      && (Waiting(c', a) <==> Waiting(c, a) || CanListen(c.watches[a], kernelAccepts))
  {
  }

  // Of the packet named by the argument: it is no longer counted, and nothing else changes.
  lemma ProcessEventOwned(c: Core, a: nat, empty: bool, changes: bool, kernelAccepts: bool)
    requires Handles(c)
    ensures var c' := ProcessEvent(c, a, empty, changes, kernelAccepts);
      && Handles(c')
      && (forall b :: b != a ==> c'.pending[b] == c.pending[b] && (Waiting(c', b) <==> Waiting(c, b)))
      && (Waiting(c, a) ==> c'.pending[a] == c.pending[a] + if Waiting(c', a) then 1 else 0)
      && c'.stopped == c.stopped
  {
    if a in c.watches {
      var w := Arrived(c.watches[a]);
      var c1 := c.(watches := c.watches[a := w]);
      assert Handles(c1);
      if !w.state.PendingClose? && !empty {
        var c2 := if changes then c1.(events := c1.events + [Changed(w.id)]) else c1;
        ListenOwned(c2, a, kernelAccepts);
      }
    }
  }

  // ---------------------------------------------------------------- steps

  lemma ProcessInv(s: System, changes: bool, kernelAccepts: bool)
    requires Inv(s) && Enabled(s, Process(changes, kernelAccepts))
    ensures Inv(Next(s, Process(changes, kernelAccepts)))
  {
    if s.inHand.value.Io? {
      var a := s.inHand.value.address;
      ProcessEventOwned(s.core, a, s.inHand.value.empty, changes, kernelAccepts);
      var s' := Next(s, Process(changes, kernelAccepts));
      assert OwnedAt(s, a);
      forall b ensures OwnedAt(s', b) { assert OwnedAt(s, b); }
    } else {
      forall b ensures OwnedAt(Next(s, Process(changes, kernelAccepts)), b) { assert OwnedAt(s, b); }
    }
  }

  lemma TakeInv(s: System, step: Step)
    requires Inv(s) && Enabled(s, step) && (step.TakePacket? || step.TakeFails?)
    ensures Inv(Next(s, step))
  {
    var s' := Next(s, step);
    forall b ensures OwnedAt(s', b) { assert OwnedAt(s, b); }
  }

  lemma DrainInv(s: System)
    requires Inv(s) && Enabled(s, DrainPacket)
    ensures Inv(Next(s, DrainPacket))
  {
    var s' := Next(s, DrainPacket);
    forall b ensures OwnedAt(s', b) { assert OwnedAt(s, b); }
  }

  lemma PlainLoopInv(s: System, step: Step)
    requires Inv(s) && Enabled(s, step) && (step.SetStopped? || step.BeginDrain? || step.EndDrain? || step.AlertAll?)
    ensures Inv(Next(s, step))
  {
    var s' := Next(s, step);
    forall b ensures OwnedAt(s', b) { assert OwnedAt(s, b); }
  }

  lemma AddInv(s: System, a: nat, id: int, kernelAccepts: bool)
    requires Inv(s) && Enabled(s, Add(a, id, kernelAccepts))
    ensures Inv(Next(s, Add(a, id, kernelAccepts)))
  {
    var s' := Next(s, Add(a, id, kernelAccepts));
    if !s.core.stopped {
      var c1 := s.core.(watches := s.core.watches[a := WatchInfo(id, Initialized, true)]);
      assert Handles(c1);
      ListenOwned(c1, a, kernelAccepts);
    }
    forall b ensures OwnedAt(s', b) { assert OwnedAt(s, b); }
  }

  lemma StopInv(s: System, step: Step)
    requires Inv(s) && Enabled(s, step) && (step.Remove? || step.Stop?)
    ensures Inv(Next(s, step))
  {
    var s' := Next(s, step);
    forall b ensures OwnedAt(s', b) { assert OwnedAt(s, b); }
  }

  lemma QueueInv(s: System, step: Step)
    requires Inv(s) && Enabled(s, step) && (step.Post? || step.Complete?)
    ensures Inv(Next(s, step))
  {
    var s' := Next(s, step);
    forall b ensures OwnedAt(s', b) {
      assert OwnedAt(s, b);
      CountIoAppend(s.queue, if step.Post? then Magic else Io(step.address, step.empty), b);
    }
  }

  lemma NextInv(s: System, step: Step)
    requires Inv(s) && Enabled(s, step)
    ensures Inv(Next(s, step))
  {
    match step
    case Process(changes, kernelAccepts) => ProcessInv(s, changes, kernelAccepts);
    case TakePacket => TakeInv(s, step);
    case TakeFails(_) => TakeInv(s, step);
    case DrainPacket => DrainInv(s);
    case Add(a, id, kernelAccepts) => AddInv(s, a, id, kernelAccepts);
    case Remove(_, _) => StopInv(s, step);
    case Stop => StopInv(s, step);
    case Post => QueueInv(s, step);
    case Complete(_, _) => QueueInv(s, step);
    case _ => PlainLoopInv(s, step);
  }

  lemma RunInv(s: System, steps: seq<Step>)
    requires Inv(s) && IsRun(s, steps)
    ensures Inv(After(s, steps))
    decreases |steps|
  {
    if steps != [] {
      NextInv(s, steps[0]);
      RunInv(Next(s, steps[0]), steps[1..]);
    }
  }

  ghost predicate Reachable(s: System) { exists steps :: IsRun(Start, steps) && After(Start, steps) == s }

  lemma ReachableInv(s: System)
    requires Reachable(s)
    ensures Inv(s)
  {
    var steps :| IsRun(Start, steps) && After(Start, steps) == s;
    assert Inv(Start) by {
      forall a ensures OwnedAt(Start, a) {}
    }
    RunInv(Start, steps);
  }

  lemma ReachNext(s: System, step: Step)
    requires Reachable(s) && Enabled(s, step)
    ensures Reachable(Next(s, step))
  {
    var steps :| IsRun(Start, steps) && After(Start, steps) == s;
    RunSnoc(Start, steps, step);
    assert After(Start, steps + [step]) == Next(s, step);
  }

  lemma {:induction false} RunSnoc(s: System, steps: seq<Step>, step: Step)
    requires IsRun(s, steps) && Enabled(After(s, steps), step)
    ensures IsRun(s, steps + [step]) && After(s, steps + [step]) == Next(After(s, steps), step)
    decreases |steps|
  {
    if steps == [] {
      assert [step][1..] == [];
    } else {
      assert (steps + [step])[1..] == steps[1..] + [step];
      RunSnoc(Next(s, steps[0]), steps[1..], step);
    }
  }

  lemma RunCons(s: System, step: Step, rest: seq<Step>)
    requires Enabled(s, step) && IsRun(Next(s, step), rest)
    ensures IsRun(s, [step] + rest) && After(s, [step] + rest) == After(Next(s, step), rest)
  {
    assert ([step] + rest)[1..] == rest;
  }

  // ---------------------------------------------------------------- what ownership means

  // In every reachable state a watch waits iff exactly one request or packet names it.
  lemma OwnershipExact(s: System, a: nat)
    requires Reachable(s)
    ensures Waiting(s.core, a) <==> References(s, a) == 1
    ensures !Waiting(s.core, a) <==> References(s, a) == 0
  {
    ReachableInv(s);
    assert OwnedAt(s, a);
  }

  // A step that frees a watch leaves nothing that names its address, so its buffer is not in
  // use and the address may be handed out again.
  lemma EraseIsSafe(s: System, step: Step, a: nat)
    requires Reachable(s) && Enabled(s, step)
    requires a in s.core.watches && a !in Next(s, step).core.watches
    ensures References(Next(s, step), a) == 0
  {
    ReachableInv(s);
    NextInv(s, step);
    assert OwnedAt(Next(s, step), a);
  }

  // A watch at a reused address never gets a packet meant for an earlier watch: whatever
  // packet is in hand belongs to a watch that is there and waiting for it.
  lemma PacketMeetsItsWatch(s: System)
    requires Reachable(s) && s.inHand.Some? && s.inHand.value.Io?
    ensures Waiting(s.core, s.inHand.value.address)
  {
    ReachableInv(s);
    assert OwnedAt(s, s.inHand.value.address);
  }

  // Nothing is in use iff no watch is waiting.
  lemma UnusedExactly(s: System)
    requires Inv(s)
    ensures (forall a :: References(s, a) == 0) <==> (forall a :: !Waiting(s.core, a))
  {
    forall a ensures References(s, a) == 0 <==> !Waiting(s.core, a) { assert OwnedAt(s, a); }
  }
}
