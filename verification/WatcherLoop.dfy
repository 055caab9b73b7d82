/**
 The watcher's own methods: they change the map of watches in place and walk it with loops.
 Each does what the step functions of Watcher say.
 */
module WatcherLoop {
  import opened Basics
  import opened Watcher

  // What the draining loop does with the packets it takes.
  function Drained(c: Core, packets: seq<Packet>): Core
    decreases |packets|
  {
    if packets == [] then c
    else
      var before := Drained(c, packets[..|packets| - 1]);
      var last := packets[|packets| - 1];
      if last.Io? then Erase(before, last.address) else before
  }

  class RdcFSWatcher {
    var watchInfos: map<nat, WatchInfo>
    var stopped: bool
    var events: seq<Event>
    ghost var pending: multiset<nat>

    ghost function State(): Core
      reads this
    {
      Core(watchInfos, stopped, events, pending)
    }

    constructor ()
      ensures State() == Start.core
    {
      watchInfos, stopped, events, pending := map[], false, [], multiset{};
    }

    // WatchInfo::listen
    method ListenAt(a: nat, kernelAccepts: bool) returns (threw: bool)
      requires a in watchInfos
      modifies this
      ensures State() == Listen(old(State()), a, kernelAccepts)
      ensures threw <==> !CanListen(old(watchInfos)[a], kernelAccepts)
    {
      if !watchInfos[a].state.Initialized? { return true; }
      if !watchInfos[a].open || !kernelAccepts { return true; }
      watchInfos := watchInfos[a := watchInfos[a].(state := Listening)];
      pending := pending + multiset{a};
      return false;
    }

    // processEvent, once the entry has been found and is no longer listening.
    method Settle(a: nat, numberOfBytes: nat, changes: bool, kernelAccepts: bool) returns (threw: bool)
      requires a in watchInfos && !watchInfos[a].state.Listening?
      modifies this
      ensures State() == ProcessEvent(old(State()), a, numberOfBytes == 0, changes, kernelAccepts)
      ensures threw <==> ProcessThrows(old(State()), a, numberOfBytes == 0, kernelAccepts)
    {
      assert watchInfos == watchInfos[a := Arrived(watchInfos[a])];
      threw := false;
      if numberOfBytes == 0 {
        if watchInfos[a].state.PendingClose? {
          watchInfos := watchInfos - {a};
        } else {
          events := events + [Failed(watchInfos[a].id)];
        }
      } else if !watchInfos[a].state.PendingClose? {
        if changes {
          events := events + [Changed(watchInfos[a].id)];
        }
        threw := ListenAt(a, kernelAccepts);
      } else {
        watchInfos := watchInfos - {a};
      }
    }

    // processEvent
    method HandleEvent(a: nat, numberOfBytes: nat, changes: bool, kernelAccepts: bool) returns (threw: bool)
      modifies this
      ensures State() == ProcessEvent(old(State()), a, numberOfBytes == 0, changes, kernelAccepts)
      ensures threw <==> ProcessThrows(old(State()), a, numberOfBytes == 0, kernelAccepts)
    {
      if a !in watchInfos { return false; }
      if watchInfos[a].state.Listening? {
        watchInfos := watchInfos[a := watchInfos[a].(state := Initialized)];
      }
      ghost var arrived := Arrived(old(watchInfos)[a]);
      assert watchInfos == old(watchInfos)[a := arrived] == old(watchInfos)[a := arrived][a := Arrived(arrived)];
      threw := Settle(a, numberOfBytes, changes, kernelAccepts);
    }

    // addDirectory, from the lock on; a is where the allocator put the OVERLAPPED.
    method Insert(a: nat, id: int, kernelAccepts: bool) returns (added: bool, threw: bool)
      modifies this
      ensures State() == AddDirectory(old(State()), a, id, kernelAccepts)
      ensures added <==> a !in old(watchInfos) && !stopped && kernelAccepts
      ensures threw <==> a !in old(watchInfos) && !stopped && !kernelAccepts
    {
      added, threw := false, false;
      if a in watchInfos { return; }
      watchInfos := watchInfos[a := WatchInfo(id, Initialized, true)];
      if stopped {
        watchInfos := watchInfos - {a};
      } else {
        threw := ListenAt(a, kernelAccepts);
        added := !threw;
      }
    }

    // removeDirectory
    method StopFirst(id: int) returns (found: Option<nat>)
      modifies this`watchInfos
      ensures match found
        case Some(a) => a in old(watchInfos) && old(watchInfos)[a].id == id && State() == StopAt(old(State()), a)
        case None => State() == old(State()) && forall a :: a in watchInfos ==> watchInfos[a].id != id
    {
      var rest := watchInfos.Keys;
      while rest != {}
        invariant watchInfos == old(watchInfos) && rest <= watchInfos.Keys
        invariant forall a :: a in watchInfos && a !in rest ==> watchInfos[a].id != id
      {
        var a :| a in rest;
        if watchInfos[a].id == id {
          watchInfos := watchInfos[a := StopWatch(watchInfos[a])];
          return Some(a);
        }
        rest := rest - {a};
      }
      return None;
    }

    // The locked part of stopEventLoop.
    method StopEach()
      modifies this`watchInfos
      ensures State() == StopAll(old(State()))
    {
      var rest := watchInfos.Keys;
      while rest != {}
        invariant rest <= watchInfos.Keys == old(watchInfos).Keys
        invariant forall a :: a in watchInfos ==>
          watchInfos[a] == if a in rest then old(watchInfos)[a] else StopWatch(old(watchInfos)[a])
      {
        var a :| a in rest;
        watchInfos := watchInfos[a := StopWatch(watchInfos[a])];
        rest := rest - {a};
      }
    }

    // hasPending
    method FindPending() returns (found: bool)
      ensures found <==> HasPending(State())
    {
      var rest := watchInfos.Keys;
      while rest != {}
        invariant rest <= watchInfos.Keys
        invariant forall a :: a in watchInfos && a !in rest ==> !watchInfos[a].state.PendingClose?
      {
        var a :| a in rest;
        if watchInfos[a].state.PendingClose? { return true; }
        rest := rest - {a};
      }
      return false;
    }

    // The draining loop, on the packets it gets before the port fails or it stops asking.
    method Drain(packets: seq<Packet>) returns (taken: nat)
      modifies this`watchInfos
      ensures taken <= |packets|
      ensures State() == Drained(old(State()), packets[..taken])
      ensures HasPending(State()) ==> taken == |packets|
      ensures forall i :: 0 <= i < taken ==> HasPending(Drained(old(State()), packets[..i]))
    {
      taken := 0;
      var waiting := FindPending();
      while waiting && taken < |packets|
        invariant taken <= |packets|
        invariant State() == Drained(old(State()), packets[..taken])
        invariant waiting <==> HasPending(State())
        invariant forall i :: 0 <= i < taken ==> HasPending(Drained(old(State()), packets[..i]))
      {
        assert packets[..taken + 1][..taken] == packets[..taken];
        if packets[taken].Io? && packets[taken].address in watchInfos {
          watchInfos := watchInfos - {packets[taken].address};
        }
        taken := taken + 1;
        assert State().watches == Drained(old(State()), packets[..taken]).watches;
        waiting := FindPending();
      }
    }
  }
}
