/**
 The directory watcher of rdc_fs_watcher.cpp as a step system.  Watches are kept in a map from
 the address of their OVERLAPPED; the kernel owns that address, and the buffer beside it, from
 a successful read request until its completion packet is taken off the queue.  One thread
 takes packets; any thread may add, remove or stop.  What they do under the mutex is one step.
 */
module Watcher {
  import opened Basics

  datatype State = Initialized | Listening | PendingClose

  // open: the directory handle has not been closed.
  datatype WatchInfo = WatchInfo(id: int, state: State, open: bool)

  // What the two callbacks were told.
  datatype Event = Changed(id: int) | Failed(id: int) | FailedAll(ids: set<int>)

  // The watcher's fields, the callbacks' log, and the kernel's unfinished read requests.
  datatype Core = Core(
    watches: map<nat, WatchInfo>,
    stopped: bool,
    events: seq<Event>,
    pending: multiset<nat>)

  // ---------------------------------------------------------------- one watch

  function StopWatch(w: WatchInfo): WatchInfo {
    w.(state := if w.state.Listening? then PendingClose else w.state, open := false)
  }

  // ReadDirectoryChangesW may fail, and fails on a closed handle.
  predicate CanListen(w: WatchInfo, kernelAccepts: bool) { w.state.Initialized? && w.open && kernelAccepts }

  // listen: it throws where it does not listen, and never returns false.
  function Listen(c: Core, a: nat, kernelAccepts: bool): Core
    requires a in c.watches
  {
    if CanListen(c.watches[a], kernelAccepts) then
      c.(watches := c.watches[a := c.watches[a].(state := Listening)], pending := c.pending + multiset{a})
    else c
  }

  // ---------------------------------------------------------------- the locked regions

  function Erase(c: Core, a: nat): Core { c.(watches := c.watches - {a}) }

  // The first part of processEvent: the entry of a finished request is no longer listening.
  function Arrived(w: WatchInfo): WatchInfo { if w.state.Listening? then w.(state := Initialized) else w }

  // processEvent.  empty: no bytes were transferred; changes: the buffer holds notifications.
  function ProcessEvent(c: Core, a: nat, empty: bool, changes: bool, kernelAccepts: bool): Core {
    if a !in c.watches then c
    else
      var w := Arrived(c.watches[a]);
      var c1 := c.(watches := c.watches[a := w]);
      if w.state.PendingClose? then Erase(c1, a)
      else if empty then c1.(events := c1.events + [Failed(w.id)])
      else
        var c2 := if changes then c1.(events := c1.events + [Changed(w.id)]) else c1;
        Listen(c2, a, kernelAccepts)
  }

  // listen threw inside processEvent: the exception leaves the loop's thread and ends the process.
  predicate ProcessThrows(c: Core, a: nat, empty: bool, kernelAccepts: bool) {
    a in c.watches && !empty && !Arrived(c.watches[a]).state.PendingClose?
      && !CanListen(Arrived(c.watches[a]), kernelAccepts)
  }

  // addDirectory from the lock on, with a directory handle just opened.
  function AddDirectory(c: Core, a: nat, id: int, kernelAccepts: bool): Core {
    if a in c.watches || c.stopped then c
    else Listen(c.(watches := c.watches[a := WatchInfo(id, Initialized, true)]), a, kernelAccepts)
  }

  // removeDirectory, where the search found the entry at a.
  function StopAt(c: Core, a: nat): Core
    requires a in c.watches
  {
    c.(watches := c.watches[a := StopWatch(c.watches[a])])
  }

  // The locked part of stopEventLoop.
  function StopAll(c: Core): Core { c.(watches := map a | a in c.watches :: StopWatch(c.watches[a])) }

  ghost predicate HasPending(c: Core) { exists a :: a in c.watches && c.watches[a].state.PendingClose? }

  // ---------------------------------------------------------------- the whole system

  datatype Packet = Io(address: nat, empty: bool) | Magic

  // Where the event loop's thread is.  ok: GetQueuedCompletionStatus has not failed.
  datatype Phase = Running | Broke(ok: bool) | Stopped(ok: bool) | Draining | Done(ok: bool) | Crashed

  // queue: the completion port, first in first out.  inHand: a packet taken off it whose
  // processing has not begun.  lost: a packet taken off it by a failing call.  stoppers:
  // stopEventLoop calls that have yet to post their packet.
  datatype System = System(
    core: Core,
    queue: seq<Packet>,
    inHand: Option<Packet>,
    lost: Option<Packet>,
    phase: Phase,
    stoppers: nat)

  const Start := System(Core(map[], false, [], multiset{}), [], None, None, Running, 0)

  datatype Step =
    | TakePacket
    | TakeFails(packet: bool)
    | Process(changes: bool, kernelAccepts: bool)
    | SetStopped
    | BeginDrain
    | DrainPacket
    | EndDrain
    | AlertAll
    | Add(address: nat, id: int, kernelAccepts: bool)
    | Remove(id: int, found: Option<nat>)
    | Stop
    | Post
    | Complete(address: nat, empty: bool)

  // The mutex is held for good only by the draining loop.
  predicate LockFree(s: System) { !s.phase.Draining? && !s.phase.Crashed? }

  predicate IsAt(s: System, id: int, a: nat) { a in s.core.watches && s.core.watches[a].id == id }

  // find_if found this entry, or found that there is none.
  ghost predicate FoundBy(s: System, id: int, found: Option<nat>) {
    match found
    case Some(a) => IsAt(s, id, a)
    case None => forall a :: !IsAt(s, id, a)
  }

  ghost predicate Enabled(s: System, step: Step) {
    match step
    case TakePacket => s.phase.Running? && s.inHand.None? && s.queue != []
    case TakeFails(packet) =>
      (s.phase.Running? || (s.phase.Draining? && HasPending(s.core))) && s.inHand.None? && (packet ==> s.queue != [])
    case Process(_, _) => s.phase.Running? && s.inHand.Some?
    case SetStopped => s.phase.Broke?
    case BeginDrain => s.phase == Stopped(true)
    case DrainPacket => s.phase.Draining? && HasPending(s.core) && s.queue != []
    case EndDrain => s.phase.Draining? && !HasPending(s.core)
    case AlertAll => s.phase == Stopped(false)
    case Add(a, _, _) => LockFree(s) && a !in s.core.watches   // memory in use is not handed out again
    case Remove(id, found) => LockFree(s) && FoundBy(s, id, found)
    case Stop => LockFree(s)
    case Post => !s.phase.Crashed? && s.stoppers > 0
    case Complete(a, _) => !s.phase.Crashed? && a in s.core.pending
  }

  // The steps of the event loop's thread.
  function LoopNext(s: System, step: Step): System
    requires step.TakePacket? ==> s.queue != []
    requires step.TakeFails? && step.packet ==> s.queue != []
    requires step.Process? ==> s.inHand.Some?
    requires step.DrainPacket? ==> s.queue != []
  {
    match step
    case TakePacket =>
      if s.queue[0].Magic? then s.(queue := s.queue[1..], phase := Broke(true))
      else s.(queue := s.queue[1..], inHand := Some(s.queue[0]))
    case TakeFails(packet) =>
      var s' := if packet then s.(queue := s.queue[1..], lost := Some(s.queue[0])) else s;
      s'.(phase := if s.phase.Draining? then Done(false) else Broke(false))
    case Process(changes, kernelAccepts) => ProcessNext(s, changes, kernelAccepts)
    case SetStopped => s.(core := s.core.(stopped := true), phase := Stopped(s.phase == Broke(true)))
    case BeginDrain => s.(phase := Draining)
    case DrainPacket =>
      var s' := s.(queue := s.queue[1..]);
      if s.queue[0].Io? then s'.(core := Erase(s.core, s.queue[0].address)) else s'
    case EndDrain => s.(phase := Done(true))
    case AlertAll =>
      var ids := set a | a in s.core.watches :: s.core.watches[a].id;
      s.(core := s.core.(events := s.core.events + [FailedAll(ids)]), phase := Done(false))
    case _ => s
  }

  function ProcessNext(s: System, changes: bool, kernelAccepts: bool): System
    requires s.inHand.Some?
  {
    match s.inHand.value
    case Magic => s.(inHand := None)
    case Io(a, empty) =>
      s.(core := ProcessEvent(s.core, a, empty, changes, kernelAccepts), inHand := None,
         phase := if ProcessThrows(s.core, a, empty, kernelAccepts) then Crashed else s.phase)
  }

  // The steps of the callers and of the kernel.
  function OutsideNext(s: System, step: Step): System
    requires step.Post? ==> s.stoppers > 0
    requires step.Remove? && step.found.Some? ==> step.found.value in s.core.watches
  {
    match step
    case Add(a, id, kernelAccepts) => s.(core := AddDirectory(s.core, a, id, kernelAccepts))
    case Remove(_, found) => if found.Some? then s.(core := StopAt(s.core, found.value)) else s
    case Stop => s.(core := StopAll(s.core), stoppers := s.stoppers + 1)
    case Post => s.(queue := s.queue + [Magic], stoppers := s.stoppers - 1)
    case Complete(a, empty) =>
      s.(core := s.core.(pending := s.core.pending - multiset{a}), queue := s.queue + [Io(a, empty)])
    case _ => s
  }

  predicate Outside(step: Step) { step.Add? || step.Remove? || step.Stop? || step.Post? || step.Complete? }

  function Next(s: System, step: Step): System
    requires Enabled(s, step)
  {
    if Outside(step) then OutsideNext(s, step) else LoopNext(s, step)
  }

  // ---------------------------------------------------------------- runs

  ghost predicate IsRun(s: System, steps: seq<Step>)
    decreases |steps|
  {
    steps != [] ==> Enabled(s, steps[0]) && IsRun(Next(s, steps[0]), steps[1..])
  }

  ghost function After(s: System, steps: seq<Step>): System
    requires IsRun(s, steps)
    decreases |steps|
  {
    if steps == [] then s else After(Next(s, steps[0]), steps[1..])
  }
}
