/** The reaper thread's pass as the code runs it, with the kernel and the other threads
    acting wherever the thread does not hold the lock, and around it. */
module ReaperPass {
  import opened Text
  import opened Reaper

  /** States linked by steps of the protocol. */
  ghost predicate Linked(hubs: seq<Hub>, events: seq<Event>) {
    |hubs| == |events| + 1 && forall n :: 0 <= n < |events| ==> Next(hubs[n], events[n], hubs[n + 1])
  }

  lemma LinkedExtends(hubs: seq<Hub>, events: seq<Event>, e: Event, h: Hub)
    requires Linked(hubs, events) && Next(hubs[|events|], e, h)
    ensures Linked(hubs + [h], events + [e])
  {
    hide Next;
    var hubs', events' := hubs + [h], events + [e];
    forall n | 0 <= n < |events'| ensures Next(hubs'[n], events'[n], hubs'[n + 1]) {
      if n < |events| {
        assert Next(hubs[n], events[n], hubs[n + 1]);
      }
    }
  }

  /** A step of the kernel, a spawning thread or a handle's holder. */
  function OthersStep(h: Hub, e: Event): Option<Hub> {
    if SpawnStep(h, e).Some? then SpawnStep(h, e)
    else if EnvironmentStep(h, e).Some? then EnvironmentStep(h, e)
    else HandleStep(h, e)
  }

  /** The others neither move the reaper thread nor take the lock from it. */
  lemma OthersStayClear(h: Hub, e: Event)
    requires OthersStep(h, e).Some?
    ensures Next(h, e, OthersStep(h, e).value)
    ensures OthersStep(h, e).value.pc == h.pc && (h.lock.ReaperHolds? ==> OthersStep(h, e).value.lock.ReaperHolds?)
  {
  }

  /** The step by which the lock's holder, when it is not the reaper, comes to an end. */
  function Finish(h: Hub): Event {
    match h.lock case SpawnLocked => SpawnFail case SpawnForked(_, _) => Register case _ => SignalSend
  }

  lemma FinishFrees(h: Hub)
    requires !h.lock.Free? && !h.lock.ReaperHolds?
    ensures OthersStep(h, Finish(h)).Some? && OthersStep(h, Finish(h)).value.lock.Free?
    ensures Zombies(OthersStep(h, Finish(h)).value) == Zombies(h)
  {
    SameZombies(h, OthersStep(h, Finish(h)).value);
  }

  class Machine {
    var hub: Hub
    /** What the others do at each of their opportunities; nothing once it is used up,
        except that a holder of the lock ends up releasing it. */
    var script: seq<seq<Event>>
    ghost var hubs: seq<Hub>
    ghost var events: seq<Event>

    ghost predicate Valid()
      reads this
    {
      Linked(hubs, events) && hub == hubs[|events|] && Inv(hub)
    }

    constructor (hub: Hub, script: seq<seq<Event>>)
      requires Inv(hub)
      ensures Valid() && this.hub == hub && this.script == script && hubs == [hub]
    {
      this.hub, this.script, this.hubs, this.events := hub, script, [hub], [];
    }

    /** Takes one step of the protocol. */
    method Take(e: Event, next: Hub)
      requires Valid() && Next(hub, e, next)
      modifies this`hub, this`hubs, this`events
      ensures Valid() && hub == next && hubs == old(hubs) + [next] && events == old(events) + [e]
    {
      hide Next, Inv;
      NextKeepsInv(hub, e, next);
      LinkedExtends(hubs, events, e, next);
      hub, hubs, events := next, hubs + [next], events + [e];
    }

    /** A step of the reaper thread itself. */
    method Do(e: Event)
      requires Valid() && ReaperStep(hub, e).Some?
      modifies this`hub, this`hubs, this`events
      ensures Valid() && ReaperStep(old(hub), e) == Some(hub)
      ensures hubs == old(hubs) + [hub] && events == old(events) + [e]
    {
      Take(e, ReaperStep(hub, e).value);
    }

    /** An opportunity for the others. */
    method Others()
      requires Valid()
      modifies this
      ensures Valid() && old(hubs) <= hubs && old(events) <= events
      ensures hub.pc == old(hub.pc) && (old(hub.lock.ReaperHolds?) ==> hub.lock.ReaperHolds?)
      ensures if old(script) == [] then script == [] && hub == old(hub) else |script| < |old(script)|
    {
      hide Inv, Linked, Next;
      if script == [] {
        return;
      }
      var now := script[0];
      script := script[1..];
      var i := 0;
      while i < |now|
        invariant 0 <= i <= |now| && Valid() && old(hubs) <= hubs && old(events) <= events
        invariant hub.pc == old(hub.pc) && (old(hub.lock.ReaperHolds?) ==> hub.lock.ReaperHolds?)
        invariant |script| < |old(script)|
      {
        var next := OthersStep(hub, now[i]);
        if next.Some? {
          OthersStayClear(hub, now[i]);
          Take(now[i], next.value);
        }
        i := i + 1;
      }
    }

    /** Waits for the registry lock to be free. */
    method AwaitLock()
      requires Valid() && !hub.lock.ReaperHolds? && !hub.pc.Locked? && !hub.pc.Reaped?
      modifies this
      ensures Valid() && old(hubs) <= hubs && old(events) <= events && hub.pc == old(hub.pc) && hub.lock.Free?
      ensures |script| < |old(script)| || (script == old(script) && Zombies(hub) == Zombies(old(hub)))
    {
      hide Linked, Next, GoodTable, GoodRegistry, GoodSlots, OthersStep, Zombies;
      Others();
      while !hub.lock.Free?
        invariant Valid() && old(hubs) <= hubs && old(events) <= events && hub.pc == old(hub.pc)
        invariant |script| < |old(script)| || (script == [] && old(script) == [] && Zombies(hub) == Zombies(old(hub)))
        decreases |script|, if hub.lock.Free? then 0 else 1
      {
        if script == [] {
          FinishFrees(hub);
          OthersStayClear(hub, Finish(hub));
          Take(Finish(hub), OthersStep(hub, Finish(hub)).value);
        } else {
          Others();
        }
      }
    }

    /** The tail of both delivery paths: the entry is consumed under the lock, the
        status delivered after it is released. */
    method Settle()
      requires Valid() && hub.pc.Reaped?
      modifies this
      ensures Valid() && old(hubs) <= hubs && old(events) <= events && hub.pc == At(old(hub.pc.stage))
      ensures |script| < |old(script)| || (script == old(script) && Zombies(hub) == Zombies(old(hub)))
    {
      hide Linked, Inv, Zombies;
      Others();
      SameZombies(hub, ReaperStep(hub, Consume).value);
      Do(Consume);
      Others();
      SameZombies(hub, ReaperStep(hub, Deliver).value);
      Do(Deliver);
    }

    /** The targeted half: every polled pid is waited for under the lock. */
    method ReapReady(polled: set<Pid>)
      requires Valid() && hub.pc.Idle?
      modifies this
      ensures Valid() && old(hubs) <= hubs && old(events) <= events && hub.pc == At(Targeting({}))
    {
      hide Linked, Zombies, Inv;
      FreeForReaper(hub);
      AwaitLock();
      var todo := hub.registry.Keys * polled;
      Do(Begin(todo));
      while todo != {}
        invariant Valid() && old(hubs) <= hubs && old(events) <= events && hub.pc == At(Targeting(todo))
        decreases todo
      {
        var pid :| pid in todo;
        ReapOne(todo, pid);
        todo := todo - {pid};
      }
    }

    /** One polled pid: the wait and the entry's removal under one hold of the lock. */
    method ReapOne(todo: set<Pid>, pid: Pid)
      requires Valid() && hub.pc == At(Targeting(todo)) && pid in todo
      modifies this
      ensures Valid() && old(hubs) <= hubs && old(events) <= events && hub.pc == At(Targeting(todo - {pid}))
    {
      hide Linked, Zombies, Inv, IsZombie;
      FreeForReaper(hub);
      AwaitLock();
      Do(TargetLock(pid));
      Others();
      Do(TargetWait);
      if hub.pc.Reaped? {
        Settle();
      }
    }

    /** One round of the sweep: collect one zombie, or end because there is none, or
        because the call failed. */
    method SweepRound(fails: bool) returns (more: bool)
      requires Valid() && hub.pc == At(Sweeping)
      modifies this
      ensures Valid() && old(hubs) <= hubs && old(events) <= events
      ensures more ==>
                hub.pc == At(Sweeping)
                && (|script| < |old(script)| || (script == old(script) && |Zombies(hub)| < |Zombies(old(hub))|))
      ensures !more ==> hub.pc.Idle? && (fails || AllSettled(hub))
    {
      hide Linked, Zombies, Inv, AllSettled;
      FreeForReaper(hub);
      AwaitLock();
      ghost var before := hub;
      Do(SweepLock);
      SameZombies(before, hub);
      Others();
      if fails {
        Do(SweepError);
        return false;
      }
      ghost var h := hub;
      if Zombies(hub) == {} {
        Do(SweepEnd);
        EndSettles(h, hub);
        return false;
      }
      var pid :| pid in Zombies(hub);
      ZombieMember(hub, pid);
      OneZombieLess(hub, ReaperStep(hub, SweepWait(pid)).value, pid);
      Do(SweepWait(pid));
      Settle();
      return true;
    }

    /** One pass: the ready children, then a sweep until nothing is left to collect. When
        the sweep ends that way, no zombie is left and every registered child that has
        exited has its status delivered. `fails` marks a waitpid that errs. */
    method Pass(polled: set<Pid>, fails: nat -> bool) returns (rounds: nat)
      requires Valid() && hub.pc.Idle?
      modifies this
      ensures Valid() && old(hubs) <= hubs && old(events) <= events && hub.pc.Idle?
      ensures rounds > 0 && (fails(rounds - 1) || AllSettled(hub))
    {
      hide Linked, Inv, AllSettled;
      ReapReady(polled);
      Do(StartSweep);
      rounds := 0;
      while true
        invariant Valid() && old(hubs) <= hubs && old(events) <= events && hub.pc == At(Sweeping)
        decreases |script|, |Zombies(hub)|
      {
        var more := SweepRound(fails(rounds));
        rounds := rounds + 1;
        if !more {
          return;
        }
      }
    }
  }

  /** Nothing is left to collect, and every registered child that has exited has its
      status delivered if anyone holds its handle. */
  ghost predicate AllSettled(h: Hub) {
    && Zombies(h) == {}
    && forall i :: i in h.slots && i in h.exits ==>
          h.slots[i].settled == 1 && (h.slots[i].held ==> h.slots[i].status == Some(h.exits[i]))
  }

  lemma ZombieMember(h: Hub, pid: Pid)
    requires pid in Zombies(h)
    ensures IsZombie(h, pid)
  {
  }

  lemma FreeForReaper(h: Hub)
    requires Inv(h) && (h.pc.Idle? || h.pc.At? || h.pc.InFlight?)
    ensures !h.lock.ReaperHolds?
  {
  }

  lemma EndSettles(h: Hub, h': Hub)
    requires Inv(h) && Inv(h') && ReaperNext(h, SweepEnd, h')
    ensures AllSettled(h')
  {
    hide GoodTable, GoodRegistry, GoodControl, Registered, Flying, Gone;
    SameZombies(h, h');
    forall i | i in h'.slots && i in h'.exits ensures h'.slots[i].settled == 1 {
      CleanEndSettles(h, h', i);
    }
  }
}
