/** A run in which a signal sent through a handle reaches another child: the handle's own
    child has been collected and its pid given to a later one. */
module ReaperRecycling {
  import opened Text
  import opened Reaper

  lemma RunExtends(hubs: seq<Hub>, events: seq<Event>, e: Event, h: Hub)
    requires Run(hubs, events) && Next(hubs[|events|], e, h)
    ensures Run(hubs + [h], events + [e])
  {
    hide Next, Init;
    var hubs', events' := hubs + [h], events + [e];
    forall n | 0 <= n < |events'| ensures Next(hubs'[n], events'[n], hubs'[n + 1]) {
      if n < |events| {
        assert Next(hubs[n], events[n], hubs[n + 1]);
      }
    }
  }

  function Start(): Hub {
    Hub(map[], 0, map[], map[], map[], Free, Idle)
  }

  /** The first child, registered. */
  function Registered0(pid: Pid): Hub {
    Hub(map[pid := Process(0, true, None)], 1, map[], map[pid := 0], map[0 := Slot(pid, None, true, 0)], Free, Idle)
  }

  /** It has exited, and a pass is about to wait for any child. */
  function Exited(pid: Pid, status: Status): Hub {
    Registered0(pid).(table := map[pid := Process(0, true, Some(status))], exits := map[0 := status],
                      lock := ReaperHolds, pc := Locked(Sweeping, None))
  }

  /** Its status is delivered; the pid is free. */
  function Collected(pid: Pid, status: Status): Hub {
    Hub(map[], 1, map[0 := status], map[], map[0 := Slot(pid, Some(status), true, 1)], Free, At(Sweeping))
  }

  /** A second child under the same pid, and a signal through the first one's handle. */
  function Recycled(pid: Pid, status: Status): Hub {
    Hub(map[pid := Process(1, true, None)], 2, map[0 := status], map[pid := 1],
        map[0 := Slot(pid, Some(status), true, 1), 1 := Slot(pid, None, true, 0)], SignalLocked(0), At(Sweeping))
  }

  lemma Spawns(hubs: seq<Hub>, events: seq<Event>, pid: Pid) returns (hubs': seq<Hub>, events': seq<Event>)
    requires Run(hubs, events) && pid.number > 1 && var h := hubs[|events|]; h.lock.Free? && pid !in h.table
    ensures Run(hubs', events')
    ensures var h := hubs[|events|];
            hubs'[|events'|] == h.(table := h.table[pid := Process(h.next, true, None)], next := h.next + 1,
                                   registry := h.registry[pid := h.next],
                                   slots := h.slots[h.next := Slot(pid, None, true, 0)])
  {
    RunLength(hubs, events);
    hide Run;
    var h := hubs[|events|];
    var locked := h.(lock := SpawnLocked);
    RunExtends(hubs, events, SpawnLock, locked);
    var forked := WithFork(locked, pid);
    RunExtends(hubs + [locked], events + [SpawnLock], Fork(pid), forked);
    var done := forked.(lock := Free, registry := h.registry[pid := h.next],
                        slots := h.slots[h.next := Slot(pid, None, true, 0)]);
    RunExtends(hubs + [locked] + [forked], events + [SpawnLock] + [Fork(pid)], Register, done);
    hubs', events' := hubs + [locked] + [forked] + [done], events + [SpawnLock] + [Fork(pid)] + [Register];
  }

  lemma RunLength(hubs: seq<Hub>, events: seq<Event>)
    requires Run(hubs, events)
    ensures |hubs| == |events| + 1
  {
  }

  lemma ExitsAndIsAwaited(hubs: seq<Hub>, events: seq<Event>, pid: Pid, status: Status)
    returns (hubs': seq<Hub>, events': seq<Event>)
    requires Run(hubs, events) && hubs[|events|] == Registered0(pid)
    ensures Run(hubs', events') && hubs'[|events'|] == Exited(pid, status)
  {
    RunLength(hubs, events);
    hide Run;
    var h := Registered0(pid);
    var h1 := h.(table := map[pid := Process(0, true, Some(status))], exits := map[0 := status]);
    assert h1.table == h.table[pid := h.table[pid].(exited := Some(status))];
    RunExtends(hubs, events, Exit(pid, status), h1);
    var h2 := h1.(pc := At(Targeting({})));
    RunExtends(hubs + [h1], events + [Exit(pid, status)], Begin({}), h2);
    var h3 := h1.(pc := At(Sweeping));
    RunExtends(hubs + [h1] + [h2], events + [Exit(pid, status)] + [Begin({})], StartSweep, h3);
    var h4 := Exited(pid, status);
    RunExtends(hubs + [h1] + [h2] + [h3], events + [Exit(pid, status)] + [Begin({})] + [StartSweep], SweepLock, h4);
    hubs' := hubs + [h1] + [h2] + [h3] + [h4];
    events' := events + [Exit(pid, status)] + [Begin({})] + [StartSweep] + [SweepLock];
  }

  lemma IsCollected(hubs: seq<Hub>, events: seq<Event>, pid: Pid, status: Status)
    returns (hubs': seq<Hub>, events': seq<Event>)
    requires Run(hubs, events) && hubs[|events|] == Exited(pid, status)
    ensures Run(hubs', events') && hubs'[|events'|] == Collected(pid, status)
  {
    RunLength(hubs, events);
    hide Run;
    var h := Exited(pid, status);
    var h1 := h.(table := map[], pc := Reaped(Sweeping, pid, 0, status));
    assert h1.table == h.table - {pid};
    RunExtends(hubs, events, SweepWait(pid), h1);
    var h2 := h1.(registry := map[], lock := Free, pc := InFlight(Sweeping, status, Some(0)));
    assert h2.registry == h1.registry - {pid};
    RunExtends(hubs + [h1], events + [SweepWait(pid)], Consume, h2);
    var h3 := Collected(pid, status);
    assert h3.slots == h2.slots[0 := Slot(pid, Some(status), true, 1)];
    RunExtends(hubs + [h1] + [h2], events + [SweepWait(pid)] + [Consume], Deliver, h3);
    hubs', events' := hubs + [h1] + [h2] + [h3], events + [SweepWait(pid)] + [Consume] + [Deliver];
  }

  /** For every pid there is a run that ends with a signal being sent through the handle
      of a collected child, and reaching a later child registered under its pid. */
  lemma SignalReachesALaterChild(pid: Pid, status: Status) returns (hubs: seq<Hub>, events: seq<Event>)
    requires pid.number > 1
    ensures Run(hubs, events) && hubs[|events|].lock == SignalLocked(0)
    ensures 0 in hubs[|events|].slots && hubs[|events|].slots[0].status == Some(status)
    ensures Reaches(hubs[|events|], 0) == Some(1)
  {
    hubs, events := [Start()], [];
    assert Run(hubs, events);
    hide Run, Next;
    hubs, events := Spawns(hubs, events, pid);
    assert hubs[|events|] == Registered0(pid);
    hubs, events := ExitsAndIsAwaited(hubs, events, pid, status);
    hubs, events := IsCollected(hubs, events, pid, status);
    hubs, events := Spawns(hubs, events, pid);
    var h := hubs[|events|];
    assert h.(lock := SignalLocked(0)) == Recycled(pid, status);
    RunLength(hubs, events);
    SignalLocks(h, pid, status);
    RunExtends(hubs, events, SignalLock(0), Recycled(pid, status));
    hubs, events := hubs + [Recycled(pid, status)], events + [SignalLock(0)];
  }

  lemma SignalLocks(h: Hub, pid: Pid, status: Status)
    requires h.lock.Free? && h.(lock := SignalLocked(0)) == Recycled(pid, status)
    ensures Next(h, SignalLock(0), Recycled(pid, status))
  {
  }
}
