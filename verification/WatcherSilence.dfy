/**
 What the callbacks of the directory watcher are told: what one packet tells, which watches are
 never heard of again, and what may still be told of a removed directory.
 */
module WatcherSilence {
  import opened Basics
  import opened Watcher
  import opened WatcherSafety

  // ---------------------------------------------------------------- what a packet does

  // Of a packet in hand: its watch is there.  A closing watch is erased in silence; of another
  // a callback is told, unless there are no notifications; and only after a packet with bytes
  // is it listened to again.
  lemma PacketTells(s: System, changes: bool, kernelAccepts: bool)
    requires Reachable(s) && Enabled(s, Process(changes, kernelAccepts)) && s.inHand.value.Io?
    ensures var a, empty := s.inHand.value.address, s.inHand.value.empty;
      var c, c' := s.core, Next(s, Process(changes, kernelAccepts)).core;
      && a in c.watches
      && (c.watches[a].state.PendingClose? ==> a !in c'.watches && c'.events == c.events)
      && (c.watches[a].state.Listening? ==>
            && a in c'.watches && c'.watches[a].id == c.watches[a].id
            && (c'.watches[a].state.Listening? <==> !empty && kernelAccepts)
            && c'.events == c.events
                 + if empty then [Failed(c.watches[a].id)] else if changes then [Changed(c.watches[a].id)] else [])
      && (forall b :: b != a && b in c.watches ==> b in c'.watches && c'.watches[b] == c.watches[b])
  {
    PacketMeetsItsWatch(s);
    ReachableInv(s);
    assert HandleOk(s.core.watches[s.inHand.value.address]);
  }

  // Where listen throws nothing can follow; otherwise the loop goes on.
  lemma ThrowEndsAllExactly(s: System, changes: bool, kernelAccepts: bool)
    requires Reachable(s) && Enabled(s, Process(changes, kernelAccepts)) && s.inHand.value.Io?
    ensures var a, t := s.inHand.value.address, Next(s, Process(changes, kernelAccepts));
      && a in s.core.watches
      && ((forall step :: !Enabled(t, step)) <==>
            s.core.watches[a].state.Listening? && !s.inHand.value.empty && !kernelAccepts)
      && ((exists step :: Enabled(t, step)) ==> t.phase.Running?)
  {
    PacketMeetsItsWatch(s);
    ReachableInv(s);
    assert HandleOk(s.core.watches[s.inHand.value.address]);
    var t := Next(s, Process(changes, kernelAccepts));
    assert t.phase.Running? ==> Enabled(t, Stop);
  }

  // A loop that has ended tells no callback anything.
  lemma {:induction false} OverIsSilent(s: System, steps: seq<Step>)
    requires s.phase.Done? && IsRun(s, steps)
    ensures After(s, steps).phase == s.phase && After(s, steps).core.events == s.core.events
    decreases |steps|
  {
    if steps != [] { OverIsSilent(Next(s, steps[0]), steps[1..]); }
  }

  /** When the port has failed errorEvent is called for the id of every watch in the map, once, and
      nothing is called after that. */
  lemma AlertIsLast(s: System, steps: seq<Step>)
    requires Enabled(s, AlertAll) && IsRun(Next(s, AlertAll), steps)
    ensures var events := After(Next(s, AlertAll), steps).core.events;
      |events| == |s.core.events| + 1 && events[..|s.core.events|] == s.core.events
      && events[|s.core.events|].FailedAll?
      && forall id :: id in events[|s.core.events|].ids <==> exists a :: IsAt(s, id, a)
  {
    OverIsSilent(Next(s, AlertAll), steps);
    var ids := set a | a in s.core.watches :: s.core.watches[a].id;
    forall id ensures id in ids <==> exists a :: IsAt(s, id, a) {
      if a :| IsAt(s, id, a) { assert s.core.watches[a].id in ids; }
      if id in ids {
        var a :| a in s.core.watches && s.core.watches[a].id == id;
        assert IsAt(s, id, a);
      }
    }
  }

  // A watch that is not listened to any more, after an empty packet or a failed listen.
  predicate Deaf(s: System, a: nat, id: int) { IsAt(s, id, a) && s.core.watches[a].state.Initialized? }

  lemma DeafStep(s: System, step: Step, a: nat, id: int)
    requires Inv(s) && Deaf(s, a, id) && Enabled(s, step)
    ensures Deaf(Next(s, step), a, id)
  {
    assert OwnedAt(s, a);
    if step.Process? {
      if s.inHand.value.Io? {
        assert OwnedAt(s, s.inHand.value.address);
        EventAbout(s.core, s.inHand.value.address, s.inHand.value.empty, step.changes, step.kernelAccepts);
      }
    }
  }

  // It stays so, and in the map, for good: only a new watch hears of its directory again.
  lemma {:induction false} DeafForever(s: System, steps: seq<Step>, a: nat, id: int)
    requires Inv(s) && Deaf(s, a, id) && IsRun(s, steps)
    ensures Deaf(After(s, steps), a, id)
    decreases |steps|
  {
    if steps != [] {
      NextInv(s, steps[0]);
      DeafStep(s, steps[0], a, id);
      DeafForever(Next(s, steps[0]), steps[1..], a, id);
    }
  }

  // ---------------------------------------------------------------- silence after removal

  // No watch of that id listens.
  ghost predicate Quiet(s: System, id: int) { forall a :: IsAt(s, id, a) ==> !s.core.watches[a].state.Listening? }

  // A call of changeEvent or errorEvent with that id.  When the port has failed errorEvent is
  // called for every watch in the map.
  predicate Tells(e: Event, id: int) { e == Changed(id) || e == Failed(id) || (e.FailedAll? && id in e.ids) }

  // The same, other than for a failed port.
  predicate TellsAlone(e: Event, id: int) { e == Changed(id) || e == Failed(id) }

  predicate SaysNothingNew(c: Core, c': Core, id: int) {
    && c.events <= c'.events
    && forall i :: |c.events| <= i < |c'.events| ==> !TellsAlone(c'.events[i], id)
  }

  ghost predicate HearsOf(c: Core, c': Core, id: int) {
    exists i :: |c.events| <= i < |c'.events| && Tells(c'.events[i], id)
  }

  // An event is about the watch it came for, and none comes for one that is closing.
  lemma EventAbout(c: Core, a: nat, empty: bool, changes: bool, kernelAccepts: bool)
    requires a in c.watches
    ensures var c' := ProcessEvent(c, a, empty, changes, kernelAccepts);
      && (|| c'.events == c.events || c'.events == c.events + [Changed(c.watches[a].id)]
          || c'.events == c.events + [Failed(c.watches[a].id)])
      && (c.watches[a].state.PendingClose? ==> c'.events == c.events && a !in c'.watches)
      && (a in c'.watches ==> c'.watches[a].id == c.watches[a].id)
      && (forall b :: b in c'.watches && b != a ==> b in c.watches && c'.watches[b] == c.watches[b])
  {
  }

  lemma ProcessSilent(s: System, changes: bool, kernelAccepts: bool, id: int)
    requires Inv(s) && Quiet(s, id) && Enabled(s, Process(changes, kernelAccepts))
    ensures Quiet(ProcessNext(s, changes, kernelAccepts), id)
    ensures SaysNothingNew(s.core, ProcessNext(s, changes, kernelAccepts).core, id)
  {
    if s.inHand.value.Io? {
      var a := s.inHand.value.address;
      assert OwnedAt(s, a);
      assert Waiting(s.core, a);
      EventAbout(s.core, a, s.inHand.value.empty, changes, kernelAccepts);
      var c' := ProcessNext(s, changes, kernelAccepts).core;
      assert IsAt(s, id, a) ==> s.core.watches[a].state.PendingClose?;
      forall b | IsAt(ProcessNext(s, changes, kernelAccepts), id, b) ensures !c'.watches[b].state.Listening? {
        assert IsAt(s, id, b);
      }
    }
  }

  lemma StepSilent(s: System, step: Step, id: int)
    requires Inv(s) && Quiet(s, id) && Enabled(s, step) && (step.Add? ==> step.id != id)
    ensures Quiet(Next(s, step), id) && SaysNothingNew(s.core, Next(s, step).core, id)
  {
    if step.Process? {
      ProcessSilent(s, step.changes, step.kernelAccepts, id);
    } else if !step.Add? {
      var c, c' := s.core, Next(s, step).core;
      assert forall a :: a in c'.watches ==>
        a in c.watches && (c'.watches[a] == c.watches[a] || c'.watches[a] == StopWatch(c.watches[a]));
    }
  }

  predicate NeverAdds(steps: seq<Step>, id: int) { forall i :: 0 <= i < |steps| && steps[i].Add? ==> steps[i].id != id }

  lemma {:induction false} RunSilent(s: System, steps: seq<Step>, id: int)
    requires Inv(s) && Quiet(s, id) && IsRun(s, steps) && NeverAdds(steps, id)
    ensures Quiet(After(s, steps), id) && SaysNothingNew(s.core, After(s, steps).core, id)
    decreases |steps|
  {
    if steps != [] {
      NextInv(s, steps[0]);
      StepSilent(s, steps[0], id);
      RunSilent(Next(s, steps[0]), steps[1..], id);
    }
  }

  // Removing silences exactly if no second watch with that id is listening.
  lemma RemoveSilencesExactly(s: System, id: int, found: Option<nat>)
    requires Enabled(s, Remove(id, found))
    ensures Quiet(Next(s, Remove(id, found)), id) <==>
      forall a: nat :: IsAt(s, id, a) && found != Some(a) ==> !s.core.watches[a].state.Listening?
  {
    var s' := Next(s, Remove(id, found));
    forall a: nat ensures IsAt(s', id, a) <==> IsAt(s, id, a) {}
    forall a: nat | IsAt(s, id, a) && found != Some(a) ensures s'.core.watches[a] == s.core.watches[a] {
      assert IsAt(s', id, a);
    }
  }

  // ---- a watch that listens can be heard of

  predicate NamedAt(queue: seq<Packet>, i: int, a: nat) { 0 <= i < |queue| && queue[i] == Io(a, false) }

  predicate NoMagic(queue: seq<Packet>, n: int) { forall i :: 0 <= i < n && i < |queue| ==> !queue[i].Magic? }

  // Nothing stands between the watch and its next change: no stop packet comes before its own
  // packet, and that packet, if there is one yet, has bytes.
  ghost predicate Audible(s: System, a: nat) {
    && s.phase.Running? && a in s.core.watches && s.core.watches[a].state.Listening?
    && (|| s.inHand == Some(Io(a, false))
        || (a in s.core.pending && NoMagic(s.queue, |s.queue|))
        || exists i :: NamedAt(s.queue, i, a) && NoMagic(s.queue, i))
  }

  // Some run ends with a change of that id.
  ghost predicate CanChange(s: System, id: int) {
    exists steps :: IsRun(s, steps) && NeverAdds(steps, id) && EndsWith(s.core, After(s, steps).core, id)
  }

  predicate EndsWith(c: Core, c': Core, id: int) {
    |c'.events| > |c.events| && c'.events[|c'.events| - 1] == Changed(id)
  }

  lemma CanChangeBefore(s: System, step: Step, id: int)
    requires Enabled(s, step) && !step.Add? && |s.core.events| <= |Next(s, step).core.events|
    requires CanChange(Next(s, step), id)
    ensures CanChange(s, id)
  {
    var steps :| IsRun(Next(s, step), steps) && NeverAdds(steps, id)
      && EndsWith(Next(s, step).core, After(Next(s, step), steps).core, id);
    StepBefore(s, step, steps, id);
  }

  lemma StepBefore(s: System, step: Step, steps: seq<Step>, id: int)
    requires Enabled(s, step) && !step.Add? && |s.core.events| <= |Next(s, step).core.events|
    requires IsRun(Next(s, step), steps) && NeverAdds(steps, id)
    requires EndsWith(Next(s, step).core, After(Next(s, step), steps).core, id)
    ensures IsRun(s, [step] + steps) && NeverAdds([step] + steps, id)
    ensures EndsWith(s.core, After(s, [step] + steps).core, id)
  {
    RunCons(s, step, steps);
  }

  lemma InHandIsHeard(s: System, id: int, a: nat)
    requires IsAt(s, id, a) && s.core.watches[a].state.Listening? && s.phase.Running? && s.inHand == Some(Io(a, false))
    ensures CanChange(s, id)
  {
    var step := Process(true, true);
    EventAbout(s.core, a, false, true, true);
    assert IsRun(Next(s, step), []);
    RunCons(s, step, []);
    assert [step] + [] == [step] && NeverAdds([step], id);
    assert EndsWith(s.core, Next(s, step).core, id);
  }

  // A packet in hand can always be processed without ending the process, and touches no watch
  // but its own.
  lemma ProcessPasses(s: System, a: nat)
    requires Inv(s) && s.phase.Running? && s.inHand.Some? && Names(s.inHand, a) == 0 && a in s.core.watches
    ensures var s' := Next(s, Process(false, true));
      && Inv(s') && s'.phase.Running? && s'.inHand.None? && s'.queue == s.queue
      && a in s'.core.watches && s'.core.watches[a] == s.core.watches[a]
      && (a in s'.core.pending <==> a in s.core.pending)
      && s.core.events <= s'.core.events
  {
    NextInv(s, Process(false, true));
    if s.inHand.value.Io? {
      var b := s.inHand.value.address;
      assert OwnedAt(s, b) && Waiting(s.core, b);
      EventAbout(s.core, b, s.inHand.value.empty, false, true);
      assert HandleOk(s.core.watches[b]);
      ProcessEventOwned(s.core, b, s.inHand.value.empty, false, true);
      OthersStay(s.core, b, s.inHand.value.empty, false, true, a);
    }
  }

  lemma OthersStay(c: Core, b: nat, empty: bool, changes: bool, kernelAccepts: bool, a: nat)
    requires a != b && a in c.watches
    ensures var c' := ProcessEvent(c, b, empty, changes, kernelAccepts);
      a in c'.watches && c'.watches[a] == c.watches[a]
  {
  }

  // What is unfinished or queued is not in hand.
  lemma OnePlace(s: System, a: nat)
    requires Owned(s) && Audible(s, a) && s.inHand != Some(Io(a, false))
    ensures s.inHand.Some? && s.inHand.value.Io? ==> s.inHand.value.address != a
  {
    assert OwnedAt(s, a);
    if i :| NamedAt(s.queue, i, a) && NoMagic(s.queue, i) { CountNamed(s.queue, i, a); }
  }

  lemma {:induction false} CountNamed(queue: seq<Packet>, i: int, a: nat)
    requires NamedAt(queue, i, a)
    ensures CountIo(queue, a) >= 1
    decreases |queue|
  {
    if i > 0 {
      assert NamedAt(queue[1..], i - 1, a);
      CountNamed(queue[1..], i - 1, a);
    }
  }

  lemma QueueIsHeard(s: System, id: int, a: nat, i: nat)
    requires Inv(s) && IsAt(s, id, a) && Audible(s, a) && s.inHand != Some(Io(a, false))
    requires NamedAt(s.queue, i, a) && NoMagic(s.queue, i)
    ensures CanChange(s, id)
    decreases i, s.inHand.Some?
  {
    if s.inHand.Some? {
      OnePlace(s, a);
      ProcessPasses(s, a);
      QueueIsHeard(Next(s, Process(false, true)), id, a, i);
      CanChangeBefore(s, Process(false, true), id);
    } else {
      var s' := Next(s, TakePacket);
      NextInv(s, TakePacket);
      if i == 0 {
        InHandIsHeard(s', id, a);
      } else {
        assert NamedAt(s'.queue, i - 1, a) && NoMagic(s'.queue, i - 1);
        TakenIsOther(s, i, a);
        QueueIsHeard(s', id, a, i - 1);
      }
      CanChangeBefore(s, TakePacket, id);
    }
  }

  lemma TakenIsOther(s: System, i: nat, a: nat)
    requires Owned(s) && 0 < i && NamedAt(s.queue, i, a)
    ensures s.queue[0] != Io(a, false)
  {
    assert OwnedAt(s, a);
    assert NamedAt(s.queue[1..], i - 1, a);
    CountNamed(s.queue[1..], i - 1, a);
  }

  // And where one is, with no stop packet ahead of it, it can be heard of again.
  lemma ListeningIsHeard(s: System, id: int, a: nat)
    requires Reachable(s) && IsAt(s, id, a) && Audible(s, a)
    ensures CanChange(s, id)
  {
    ReachableInv(s);
    if s.inHand == Some(Io(a, false)) {
      InHandIsHeard(s, id, a);
    } else if i :| NamedAt(s.queue, i, a) && NoMagic(s.queue, i) {
      QueueIsHeard(s, id, a, i);
    } else {
      var s' := Next(s, Complete(a, false));
      NextInv(s, Complete(a, false));
      assert NamedAt(s'.queue, |s.queue|, a) && NoMagic(s'.queue, |s.queue|);
      assert s'.inHand == s.inHand;
      QueueIsHeard(s', id, a, |s.queue|);
      CanChangeBefore(s, Complete(a, false), id);
    }
  }

  // Two watches of directory id 7, the first of them removed.
  const TWINS := System(
    Core(map[1 := WatchInfo(7, PendingClose, false), 2 := WatchInfo(7, Listening, true)], false, [], multiset{1, 2}),
    [], None, None, Running, 0)

  // Before the first is removed.
  const BOTH := System(
    Core(map[1 := WatchInfo(7, Listening, true), 2 := WatchInfo(7, Listening, true)], false, [], multiset{1, 2}),
    [], None, None, Running, 0)

  lemma BothReachable()
    ensures Reachable(BOTH)
  {
    assert IsRun(Start, []) && After(Start, []) == Start;
    assert Reachable(Start);
    ReachNext(Start, Add(1, 7, true));
    var s1 := Next(Start, Add(1, 7, true));
    ReachNext(s1, Add(2, 7, true));
    var s2 := Next(s1, Add(2, 7, true));
    assert s2.core.watches == BOTH.core.watches && s2.core.pending == BOTH.core.pending;
  }

  lemma TwinsReachable()
    ensures Reachable(TWINS)
  {
    BothReachable();
    assert IsAt(BOTH, 7, 1);
    ReachNext(BOTH, Remove(7, Some(1)));
    assert Next(BOTH, Remove(7, Some(1))).core.watches == TWINS.core.watches;
  }

  lemma TwinStillHeard()
    ensures Reachable(TWINS) && CanChange(TWINS, 7)
  {
    TwinsReachable();
    assert TWINS.core.watches[2] == WatchInfo(7, Listening, true) && 2 in TWINS.core.pending;
    ListeningIsHeard(TWINS, 7, 2);
  }

  // ---------------------------------------------------------------- ids never reused

  // Every directory is added under an id of its own.
  predicate FreshIds(used: set<int>, steps: seq<Step>)
    decreases |steps|
  {
    steps == []
    || if steps[0].Add? then steps[0].id !in used && FreshIds(used + {steps[0].id}, steps[1..])
       else FreshIds(used, steps[1..])
  }

  ghost predicate OwnIds(s: System, used: set<int>) {
    && (forall a :: a in s.core.watches ==> s.core.watches[a].id in used)
    && (forall a, b ::
          a in s.core.watches && b in s.core.watches && s.core.watches[a].id == s.core.watches[b].id ==> a == b)
  }

  // No step changes the id of a watch, and only Add makes one.
  lemma StepKeepsIds(s: System, step: Step)
    requires Enabled(s, step)
    ensures var c, c' := s.core, Next(s, step).core;
      forall a :: a in c'.watches && !(step.Add? && a == step.address) ==>
        a in c.watches && c'.watches[a].id == c.watches[a].id
    ensures step.Add? && step.address in Next(s, step).core.watches ==>
      Next(s, step).core.watches[step.address].id == step.id
  {
  }

  lemma StepOwnIds(s: System, step: Step, used: set<int>)
    requires OwnIds(s, used) && Enabled(s, step) && (step.Add? ==> step.id !in used)
    ensures OwnIds(Next(s, step), if step.Add? then used + {step.id} else used)
  {
    StepKeepsIds(s, step);
  }

  lemma {:induction false} RunOwnIds(s: System, steps: seq<Step>, used: set<int>)
    requires OwnIds(s, used) && IsRun(s, steps) && FreshIds(used, steps)
    ensures exists used' :: OwnIds(After(s, steps), used')
    decreases |steps|
  {
    if steps == [] {
      assert OwnIds(After(s, steps), used);
    } else {
      StepOwnIds(s, steps[0], used);
      assert After(s, steps) == After(Next(s, steps[0]), steps[1..]);
      RunOwnIds(Next(s, steps[0]), steps[1..], if steps[0].Add? then used + {steps[0].id} else used);
    }
  }

  lemma OwnIdIsQuiet(before: seq<Step>, id: int, found: Option<nat>)
    requires IsRun(Start, before) && FreshIds({}, before) && Enabled(After(Start, before), Remove(id, found))
    ensures Quiet(Next(After(Start, before), Remove(id, found)), id)
    ensures Inv(Next(After(Start, before), Remove(id, found)))
  {
    var s := After(Start, before);
    assert Reachable(s);
    ReachableInv(s);
    RunOwnIds(Start, before, {});
    RemoveSilencesExactly(s, id, found);
    assert found.None? ==> forall a :: !IsAt(s, id, a);
    NextInv(s, Remove(id, found));
  }

  // For ids never reused: once removeDirectory(id) has returned, changeEvent is not called with
  // id, and errorEvent not for a packet of its own.
  lemma RemovedIsSilent(before: seq<Step>, id: int, found: Option<nat>, later: seq<Step>)
    requires IsRun(Start, before) && FreshIds({}, before) && Enabled(After(Start, before), Remove(id, found))
    requires IsRun(Next(After(Start, before), Remove(id, found)), later) && NeverAdds(later, id)
    ensures var s := After(Start, before);
      SaysNothingNew(s.core, After(Next(s, Remove(id, found)), later).core, id)
  {
    var s' := Next(After(Start, before), Remove(id, found));
    OwnIdIsQuiet(before, id, found);
    RunSilent(s', later, id);
    assert s'.core.events == After(Start, before).core.events;
  }

  // ---------------------------------------------------------------- when the port fails

  // The watch can be in the map when a failed port is announced: the port has failed, or it can
  // still fail before a packet of the watch's own is processed.
  predicate CanAlert(s: System, a: nat) {
    s.phase == Broke(false) || s.phase == Stopped(false) || (s.phase.Running? && Names(s.inHand, a) == 0)
  }

  ghost predicate CanHear(s: System, id: int) {
    exists steps :: IsRun(s, steps) && NeverAdds(steps, id) && HearsOf(s.core, After(s, steps).core, id)
  }

  lemma CanHearBefore(s: System, step: Step, id: int)
    requires Enabled(s, step) && !step.Add? && |s.core.events| <= |Next(s, step).core.events|
      && CanHear(Next(s, step), id)
    ensures CanHear(s, id)
  {
    var s' := Next(s, step);
    var steps :| IsRun(s', steps) && NeverAdds(steps, id) && HearsOf(s'.core, After(s', steps).core, id);
    RunCons(s, step, steps);
    assert NeverAdds([step] + steps, id);
    assert HearsOf(s.core, After(s, [step] + steps).core, id);
  }

  lemma AlertIsHeard(s: System, id: int, a: nat)
    requires Inv(s) && IsAt(s, id, a) && CanAlert(s, a)
    ensures CanHear(s, id)
    decreases s.inHand.Some?, if s.phase.Running? then 2 else if s.phase.Broke? then 1 else 0
  {
    var step := AlertAll;
    if s.phase == Stopped(false) {
      var s' := Next(s, AlertAll);
      RunCons(s, AlertAll, []);
      assert [AlertAll] + [] == [AlertAll] && NeverAdds([AlertAll], id);
      assert Tells(s'.core.events[|s.core.events|], id);
      assert HearsOf(s.core, After(s, [AlertAll]).core, id);
    } else {
      if s.phase.Broke? {
        step := SetStopped;
      } else if s.inHand.None? {
        step := TakeFails(false);
      } else {
        step := Process(false, true);
        ProcessPasses(s, a);
      }
      NextInv(s, step);
      AlertIsHeard(Next(s, step), id, a);
      CanHearBefore(s, step, id);
    }
  }

  // No watch of that id can be in the map when the port fails.
  ghost predicate Forgotten(s: System, id: int) { forall a :: IsAt(s, id, a) ==> !CanAlert(s, a) }

  lemma ForgottenProcess(s: System, changes: bool, kernelAccepts: bool, id: int)
    requires Inv(s) && Quiet(s, id) && Forgotten(s, id) && Enabled(s, Process(changes, kernelAccepts))
    ensures Forgotten(ProcessNext(s, changes, kernelAccepts), id)
    ensures !HearsOf(s.core, ProcessNext(s, changes, kernelAccepts).core, id)
  {
    var s' := ProcessNext(s, changes, kernelAccepts);
    if s.inHand.value.Io? {
      var a := s.inHand.value.address;
      assert OwnedAt(s, a) && Waiting(s.core, a);
      EventAbout(s.core, a, s.inHand.value.empty, changes, kernelAccepts);
      assert IsAt(s, id, a) ==> s.core.watches[a].state.PendingClose?;
      forall b: nat ensures IsAt(s', id, b) ==> !CanAlert(s', b) { assert IsAt(s, id, b) ==> !CanAlert(s, b); }
    } else {
      forall b: nat ensures IsAt(s', id, b) ==> !CanAlert(s', b) { assert IsAt(s, id, b) ==> !CanAlert(s, b); }
    }
  }

  lemma ForgottenStep(s: System, step: Step, id: int)
    requires Inv(s) && Quiet(s, id) && Forgotten(s, id) && Enabled(s, step) && (step.Add? ==> step.id != id)
    ensures Forgotten(Next(s, step), id) && !HearsOf(s.core, Next(s, step).core, id)
    ensures s.core.events <= Next(s, step).core.events
  {
    StepSilent(s, step, id);
    if step.Process? {
      ForgottenProcess(s, step.changes, step.kernelAccepts, id);
    } else {
      StepKeepsIds(s, step);
      var s' := Next(s, step);
      forall b: nat | IsAt(s', id, b) ensures !CanAlert(s', b) { assert IsAt(s, id, b) && !CanAlert(s, b); }
      if step.AlertAll? {
        assert forall b: nat :: b in s.core.watches ==> !IsAt(s, id, b);
      }
    }
  }

  lemma {:induction false} ForgottenRun(s: System, steps: seq<Step>, id: int)
    requires Inv(s) && Quiet(s, id) && Forgotten(s, id) && IsRun(s, steps) && NeverAdds(steps, id)
    ensures !HearsOf(s.core, After(s, steps).core, id) && s.core.events <= After(s, steps).core.events
    decreases |steps|
  {
    if steps != [] {
      var s' := Next(s, steps[0]);
      NextInv(s, steps[0]);
      StepSilent(s, steps[0], id);
      ForgottenStep(s, steps[0], id);
      ForgottenRun(s', steps[1..], id);
      HeardInPart(s.core, s'.core, After(s', steps[1..]).core, id);
    }
  }

  lemma HeardInPart(c: Core, c': Core, c'': Core, id: int)
    requires c.events <= c'.events <= c''.events
    ensures HearsOf(c, c'', id) ==> HearsOf(c, c', id) || HearsOf(c', c'', id)
  {
    if i :| |c.events| <= i < |c''.events| && Tells(c''.events[i], id) {
      if i < |c'.events| { assert c'.events[i] == c''.events[i]; }
    }
  }

  // For ids never reused: after removeDirectory(id) a callback can still be told of id, by a port
  // that fails, exactly if a watch of that id is in the map and can be when that is announced.
  lemma RemovedHeardExactly(before: seq<Step>, id: int, found: Option<nat>)
    requires IsRun(Start, before) && FreshIds({}, before) && Enabled(After(Start, before), Remove(id, found))
    ensures var s := Next(After(Start, before), Remove(id, found));
      CanHear(s, id) <==> exists a: nat :: IsAt(s, id, a) && CanAlert(s, a)
  {
    var s := Next(After(Start, before), Remove(id, found));
    OwnIdIsQuiet(before, id, found);
    if a: nat :| IsAt(s, id, a) && CanAlert(s, a) {
      AlertIsHeard(s, id, a);
    } else {
      forall steps | IsRun(s, steps) && NeverAdds(steps, id) ensures !HearsOf(s.core, After(s, steps).core, id) {
        ForgottenRun(s, steps, id);
      }
    }
  }

  const ALERTED := [Add(1, 7, true), Remove(7, Some(1)), TakeFails(false), SetStopped, AlertAll]

  // A port that fails after the removal: errorEvent is called with the removed id.
  lemma RemovedButAlerted()
    ensures IsRun(Start, ALERTED) && After(Start, ALERTED).core.events == [FailedAll({7})]
  {
    AddedThenRemoved();
    AlertedRun();
    RunCons(AddedOne(), ALERTED[1], ALERTED[2..]);
    RunCons(Start, ALERTED[0], ALERTED[1..]);
    assert [ALERTED[1]] + ALERTED[2..] == ALERTED[1..] && [ALERTED[0]] + ALERTED[1..] == ALERTED;
  }

  function AddedOne(): System {
    System(Core(map[1 := WatchInfo(7, Listening, true)], false, [], multiset{1}), [], None, None, Running, 0)
  }

  function RemovedOne(): System {
    System(Core(map[1 := WatchInfo(7, PendingClose, false)], false, [], multiset{1}), [], None, None, Running, 0)
  }

  lemma AddedThenRemoved()
    ensures Enabled(Start, ALERTED[0]) && Next(Start, ALERTED[0]) == AddedOne()
    ensures Enabled(AddedOne(), ALERTED[1]) && Next(AddedOne(), ALERTED[1]) == RemovedOne()
  {
    assert Next(Start, ALERTED[0]).core.watches == AddedOne().core.watches;
    assert Next(AddedOne(), ALERTED[1]).core.watches == RemovedOne().core.watches;
  }

  lemma AlertedRun()
    ensures IsRun(RemovedOne(), ALERTED[2..]) && After(RemovedOne(), ALERTED[2..]).core.events == [FailedAll({7})]
  {
    var s1 := Next(RemovedOne(), ALERTED[2]);
    var s2 := Next(s1, ALERTED[3]);
    assert s2.core.watches == map[1 := WatchInfo(7, PendingClose, false)] && s2.core.watches[1].id == 7;
    assert (set a | a in s2.core.watches :: s2.core.watches[a].id) == {7};
    RunCons(s2, ALERTED[4], []);
    RunCons(s1, ALERTED[3], [ALERTED[4]]);
    RunCons(RemovedOne(), ALERTED[2], [ALERTED[3], ALERTED[4]]);
    assert [ALERTED[2]] + [ALERTED[3], ALERTED[4]] == ALERTED[2..]
      && [ALERTED[3]] + [ALERTED[4]] == [ALERTED[3], ALERTED[4]];
    assert [ALERTED[4]] + [] == [ALERTED[4]];
  }
}
