/** What may happen when, who changes what, and that no reachable state is stuck. */
module ReaperSteps {
  import opened Text
  import opened Reaper
  import opened ReaperPass

  // ----------------------------------------------------------- what may happen

  ghost predicate Alive(h: Hub, pid: Pid) {
    pid in h.table && h.table[pid].exited == None
  }

  ghost predicate Foreign(h: Hub, pid: Pid) {
    pid in h.table && !h.table[pid].ours
  }

  ghost predicate Unused(h: Hub, pid: Pid) {
    1 < pid.number && pid !in h.table
  }

  /** When an event may happen. The kernel starts, adopts and ends processes regardless of
      the registry; handles are dropped at any time; and whoever needs the registry, to
      spawn, to signal or to reap, waits for its lock. */
  ghost predicate May(h: Hub, e: Event) {
    match e
    case Appear(pid) => Unused(h, pid)
    case Reparent(pid) => Foreign(h, pid)
    case Exit(pid, _) => Alive(h, pid)
    case Vanish(pid) => Foreign(h, pid) && !Alive(h, pid)
    case Drop(handle) => handle in h.slots
    case SpawnLock => h.lock == Free
    case SpawnFail => h.lock == SpawnLocked
    case Fork(pid) => h.lock == SpawnLocked && Unused(h, pid)
    case PidfdFail => h.lock.SpawnForked?
    case Register => h.lock.SpawnForked?
    case SignalLock(handle) => h.lock == Free && handle in h.slots && h.slots[handle].held
    case SignalSend => h.lock.SignalLocked?
    case Begin(ready) => h.lock == Free && h.pc == Idle && forall pid :: pid in ready ==> pid in h.registry
    case TargetLock(pid) => h.lock == Free && exists ready :: h.pc == At(Targeting(ready)) && pid in ready
    case TargetWait => h.pc.Locked? && h.pc.target != None
    case StartSweep => h.pc == At(Targeting({}))
    case SweepLock => h.lock == Free && h.pc == At(Sweeping)
    case SweepWait(pid) => h.pc == Locked(Sweeping, None) && pid in h.table && h.table[pid].ours && !Alive(h, pid)
    case SweepEnd => h.pc == Locked(Sweeping, None)
                     && forall pid :: pid in h.table && h.table[pid].ours ==> Alive(h, pid)
    case SweepError => h.pc == Locked(Sweeping, None)
    case Consume => h.pc.Reaped?
    case Deliver => h.pc.InFlight?
  }

  lemma SpawnIsExact(h: Hub, e: Event)
    ensures SpawnStep(h, e).Some?
            <==> May(h, e) && (e.SpawnLock? || e.SpawnFail? || e.Fork? || e.PidfdFail? || e.Register?)
  {
  }

  lemma EnvironmentIsExact(h: Hub, e: Event)
    ensures EnvironmentStep(h, e).Some? <==> May(h, e) && (e.Appear? || e.Reparent? || e.Exit? || e.Vanish?)
  {
  }

  lemma HandleIsExact(h: Hub, e: Event)
    ensures HandleStep(h, e).Some? <==> May(h, e) && (e.Drop? || e.SignalLock? || e.SignalSend?)
  {
  }

  lemma SweepIsExact(h: Hub, e: Event)
    requires e.StartSweep? || e.SweepLock? || e.SweepWait? || e.SweepEnd? || e.SweepError?
    ensures ReaperStep(h, e).Some? <==> May(h, e)
  {
    if e.SweepEnd? && May(h, e) {
      assert forall pid :: pid in Zombies(h) ==> pid in h.table && h.table[pid].ours;
      assert Zombies(h) == {};
    }
    if e.SweepEnd? && Zombies(h) == {} {
      forall pid | pid in h.table && h.table[pid].ours ensures Alive(h, pid) {
        assert pid !in Zombies(h);
      }
    }
  }

  lemma ReaperIsExact(h: Hub, e: Event)
    ensures ReaperStep(h, e).Some?
            <==> May(h, e) && (|| e.Begin? || e.TargetLock? || e.TargetWait? || e.StartSweep? || e.SweepLock?
                               || e.SweepWait? || e.SweepEnd? || e.SweepError? || e.Consume? || e.Deliver?)
  {
    if e.StartSweep? || e.SweepLock? || e.SweepWait? || e.SweepEnd? || e.SweepError? {
      SweepIsExact(h, e);
    } else if e.TargetLock? && May(h, e) {
      var ready :| h.pc == At(Targeting(ready)) && e.pid in ready;
    }
  }

  /** An event may happen exactly then, and leads to one state. */
  lemma StepsAreExact(h: Hub, e: Event)
    ensures (exists h' :: Next(h, e, h')) <==> May(h, e)
    ensures forall a, b :: Next(h, e, a) && Next(h, e, b) ==> a == b
  {
    SpawnIsExact(h, e);
    EnvironmentIsExact(h, e);
    HandleIsExact(h, e);
    ReaperIsExact(h, e);
    hide SpawnStep, EnvironmentStep, HandleStep, ReaperStep, May;
    var next := if SpawnStep(h, e).Some? then SpawnStep(h, e)
                else if EnvironmentStep(h, e).Some? then EnvironmentStep(h, e)
                else if HandleStep(h, e).Some? then HandleStep(h, e)
                else ReaperStep(h, e);
    assert next.Some? ==> Next(h, e, next.value);
  }

  // --------------------------------------------------------- who changes what

  /** The process table: pids are taken by processes of the system and by forks, freed by
      another parent's wait or by the reaper's, which carries the status away; a process
      only ever changes by being adopted or by exiting. */
  ghost predicate TableChanges(h: Hub, e: Event, h': Hub, pid: Pid) {
    if pid !in h.table then
      if e == Appear(pid) || e == Fork(pid)
      then pid in h'.table && h'.table[pid] == Process(h.next, e == Fork(pid), None)
      else pid !in h'.table
    else if || e == Vanish(pid) || e == SweepWait(pid)
            || (e == TargetWait && h.pc.Locked? && h.pc.target == Some(pid) && IsZombie(h, pid)) then
      && pid !in h'.table && h.table[pid].exited.Some?
      && (e != Vanish(pid) ==>
            && h'.pc.Reaped? && h'.pc.pid == pid && h'.pc.incarnation == h.table[pid].incarnation
            && h'.pc.status == h.table[pid].exited.value)
    else
      && pid in h'.table
      && h'.table[pid] == (match e
                           case Reparent(q) => if q == pid then h.table[pid].(ours := true) else h.table[pid]
                           case Exit(q, s) => if q == pid then h.table[pid].(exited := Some(s)) else h.table[pid]
                           case _ => h.table[pid])
  }

  /** The slots: made by a registration, let go by their holders, and filled by a delivery
      while somebody still holds them. */
  ghost predicate SlotChanges(h: Hub, e: Event, h': Hub, i: nat) {
    if e.Register? && h.lock.SpawnForked? && h.lock.incarnation == i then
      i in h'.slots && h'.slots[i] == Slot(h.lock.pid, None, true, 0)
    else
      && (i in h'.slots <==> i in h.slots)
      && (i in h.slots ==>
            && h'.slots[i].pid == h.slots[i].pid
            && h'.slots[i].held == (h.slots[i].held && e != Drop(i))
            && h'.slots[i].status == (if e == Deliver && h.pc.InFlight? && h.pc.waiter == Some(i) && h.slots[i].held
                                      then Some(h.pc.status) else h.slots[i].status))
  }

  /** The registry: entries come with a registration, and go with the wait that collected
      their child, before its status is delivered. */
  ghost predicate RegistryChanges(h: Hub, e: Event, h': Hub, pid: Pid) {
    if e == Register && h.lock.SpawnForked? && h.lock.pid == pid then
      pid in h'.registry && h'.registry[pid] == h.lock.incarnation
    else if e == Consume && h.pc.Reaped? && h.pc.pid == pid then
      && pid !in h'.registry && h'.pc.InFlight? && h'.pc.status == h.pc.status
      && h'.pc.waiter == (if pid in h.registry then Some(h.registry[pid]) else None)
    else (pid in h'.registry <==> pid in h.registry) && (pid in h.registry ==> h'.registry[pid] == h.registry[pid])
  }

  /** The lock: taken when free, and given back before anyone else has it. */
  ghost predicate LockChanges(h: Hub, e: Event, h': Hub) {
    match e
    case SpawnLock => h'.lock == SpawnLocked
    case Fork(pid) => h'.lock == SpawnForked(pid, h.next)
    case SignalLock(handle) => h'.lock == SignalLocked(handle)
    case TargetLock(_) => h'.lock == ReaperHolds
    case SweepLock => h'.lock == ReaperHolds
    case SpawnFail => h'.lock == Free
    case PidfdFail => h'.lock == Free
    case Register => h'.lock == Free
    case SignalSend => h'.lock == Free
    case TargetWait => h'.lock == if h'.pc.Reaped? then h.lock else Free
    case SweepEnd => h'.lock == Free
    case SweepError => h'.lock == Free
    case Consume => h'.lock == Free
    case _ => h'.lock == h.lock
  }

  ghost predicate Changes(h: Hub, e: Event, h': Hub, pid: Pid, i: nat) {
    TableChanges(h, e, h', pid) && RegistryChanges(h, e, h', pid) && SlotChanges(h, e, h', i) && LockChanges(h, e, h')
  }

  lemma SpawnChanges(h: Hub, e: Event, h': Hub, pid: Pid, i: nat)
    requires SpawnNext(h, e, h')
    ensures Changes(h, e, h', pid, i)
  {
  }

  lemma EnvironmentChanges(h: Hub, e: Event, h': Hub, pid: Pid, i: nat)
    requires EnvironmentNext(h, e, h')
    ensures Changes(h, e, h', pid, i)
  {
  }

  lemma HandleChanges(h: Hub, e: Event, h': Hub, pid: Pid, i: nat)
    requires HandleNext(h, e, h')
    ensures Changes(h, e, h', pid, i)
  {
  }

  lemma ReaperChangesTable(h: Hub, e: Event, h': Hub, pid: Pid)
    requires ReaperNext(h, e, h')
    ensures TableChanges(h, e, h', pid)
  {
    if !e.TargetWait? && !e.SweepWait? {
      assert h'.table == h.table;
      hide ReaperNext;
    }
  }

  lemma ReaperChangesLock(h: Hub, e: Event, h': Hub)
    requires ReaperNext(h, e, h')
    ensures LockChanges(h, e, h')
  {
  }

  lemma ReaperChangesRegistry(h: Hub, e: Event, h': Hub, pid: Pid)
    requires ReaperNext(h, e, h')
    ensures RegistryChanges(h, e, h', pid)
  {
  }

  lemma ReaperChangesSlots(h: Hub, e: Event, h': Hub, i: nat)
    requires ReaperNext(h, e, h')
    ensures SlotChanges(h, e, h', i)
  {
  }

  /** What a step changes, and what it leaves alone. */
  lemma ChangesAreExact(h: Hub, e: Event, h': Hub)
    requires Next(h, e, h')
    ensures forall pid :: TableChanges(h, e, h', pid) && RegistryChanges(h, e, h', pid)
    ensures forall i :: SlotChanges(h, e, h', i)
    ensures LockChanges(h, e, h')
  {
    hide SpawnNext, EnvironmentNext, HandleNext, ReaperNext, TableChanges, RegistryChanges, SlotChanges, LockChanges;
    forall pid, i ensures Changes(h, e, h', pid, i) {
      if SpawnNext(h, e, h') {
        SpawnChanges(h, e, h', pid, i);
      } else if EnvironmentNext(h, e, h') {
        EnvironmentChanges(h, e, h', pid, i);
      } else if HandleNext(h, e, h') {
        HandleChanges(h, e, h', pid, i);
      } else {
        ReaperChangesTable(h, e, h', pid);
        ReaperChangesLock(h, e, h');
        ReaperChangesRegistry(h, e, h', pid);
        ReaperChangesSlots(h, e, h', i);
      }
    }
    assert Changes(h, e, h', Pid(0), 0);
    forall pid ensures TableChanges(h, e, h', pid) && RegistryChanges(h, e, h', pid) {
      assert Changes(h, e, h', pid, 0);
    }
    forall i ensures SlotChanges(h, e, h', i) {
      assert Changes(h, e, h', Pid(0), i);
    }
  }

  // ------------------------------------------------------------- never stuck

  /** A step towards the end of a pass: whoever holds the lock finishes, and otherwise the
      reaper goes on. */
  ghost function Onward(h: Hub): Event {
    if !h.lock.Free? && !h.lock.ReaperHolds? then Finish(h)
    else
      match h.pc
      case Idle => Begin({})
      case At(Targeting(ready)) =>
        if ready == {} then StartSweep else var pid :| pid in ready; TargetLock(pid)
      case Locked(Targeting(_), _) => TargetWait
      case At(Sweeping) => SweepLock
      case Locked(Sweeping, _) =>
        if Zombies(h) == {} then SweepEnd else var pid :| pid in Zombies(h); SweepWait(pid)
      case Reaped(_, _, _, _) => Consume
      case InFlight(_, _, _) => Deliver
  }

  /** How far the pass still has to go, beside the zombies it has to collect. */
  ghost function Phase(h: Hub): nat {
    match h.pc
    case Idle => 2
    case At(stage) => if stage.Targeting? then 1 else 0
    case Locked(stage, _) => if stage.Targeting? then 1 else 0
    case Reaped(stage, _, _, _) => if stage.Targeting? then 1 else 0
    case InFlight(stage, _, _) => if stage.Targeting? then 1 else 0
  }

  ghost function Todo(h: Hub): nat {
    match h.pc
    case Idle => 0
    case At(stage) => if stage.Targeting? then |stage.ready| else 0
    case Locked(stage, _) => if stage.Targeting? then |stage.ready| else 0
    case Reaped(stage, _, _, _) => if stage.Targeting? then |stage.ready| else 0
    case InFlight(stage, _, _) => if stage.Targeting? then |stage.ready| else 0
  }

  ghost function Rank(h: Hub): nat {
    match h.pc
    case Idle => 0
    case At(_) => 1
    case Locked(stage, _) => if stage.Targeting? then 2 else 0
    case InFlight(_, _, _) => 3
    case Reaped(_, _, _, _) => 4
  }

  /** A wait under the lock is for one pid in a targeted pass and for any in a sweep. */
  ghost predicate Shaped(h: Hub) {
    h.pc.Locked? ==> (h.pc.target.Some? <==> h.pc.stage.Targeting?)
  }

  lemma StepKeepsShape(h: Hub, e: Event, h': Hub)
    requires Shaped(h) && Next(h, e, h')
    ensures Shaped(h')
  {
    if !ReaperNext(h, e, h') {
      hide ReaperNext;
    } else {
      hide SpawnNext, EnvironmentNext, HandleNext;
    }
  }

  lemma {:induction false} RunIsShaped(hubs: seq<Hub>, events: seq<Event>, n: nat)
    requires Run(hubs, events) && n < |hubs|
    ensures Shaped(hubs[n])
  {
    hide Next, Shaped;
    if n == 0 {
      assert Shaped(hubs[0]) by { StartIsShaped(hubs[0]); }
    } else {
      RunIsShaped(hubs, events, n - 1);
      StepKeepsShape(hubs[n - 1], events[n - 1], hubs[n]);
    }
  }

  lemma StartIsShaped(h: Hub)
    requires Init(h)
    ensures Shaped(h)
  {
  }

  /** The lock's holder can always come to an end. */
  lemma FinishGoesOn(h: Hub) returns (h': Hub)
    requires !h.lock.Free? && !h.lock.ReaperHolds?
    ensures Next(h, Finish(h), h') && h'.lock.Free? && h'.pc == h.pc && |Zombies(h')| == |Zombies(h)|
  {
    FinishFrees(h);
    OthersStayClear(h, Finish(h));
    h' := OthersStep(h, Finish(h)).value;
  }

  /** The pass has ended, or has less to do. */
  ghost predicate Closer(h: Hub, e: Event, h': Hub) {
    || (e.SweepEnd? && h'.pc.Idle?)
    || |Zombies(h')| < |Zombies(h)|
    || (&& |Zombies(h')| == |Zombies(h)|
        && (|| Phase(h') < Phase(h)
            || (Phase(h') == Phase(h) && (Todo(h') < Todo(h) || (Todo(h') == Todo(h) && Rank(h') < Rank(h))))))
  }

  /** A wait under the lock collects a zombie or moves on. */
  lemma WaitGoesOn(h: Hub) returns (h': Hub)
    requires Shaped(h) && h.lock.ReaperHolds? && h.pc.Locked?
    ensures ReaperNext(h, Onward(h), h') && Closer(h, Onward(h), h')
  {
    hide Zombies, IsZombie;
    var e := Onward(h);
    if h.pc == Locked(Sweeping, None) && Zombies(h) != {} {
      ZombieMember(h, e.pid);
    }
    h' := ReaperStep(h, e).value;
    if h'.pc.Reaped? {
      OneZombieLess(h, h', h'.pc.pid);
    } else {
      SameZombies(h, h');
    }
  }

  lemma HoldsWhileReaping(h: Hub)
    requires Inv(h)
    ensures h.lock.ReaperHolds? <==> h.pc.Locked? || h.pc.Reaped?
  {
    hide GoodTable, GoodRegistry, GoodSlots, Gone;
  }

  lemma LockGoesOn(h: Hub) returns (h': Hub)
    requires h.lock.Free? && (h.pc.Idle? || h.pc.At?)
    ensures ReaperNext(h, Onward(h), h') && Closer(h, Onward(h), h')
  {
    hide Zombies, IsZombie;
    var e := Onward(h);
    if h.pc.At? && h.pc.stage.Targeting? && h.pc.stage.ready != {} {
      assert e == TargetLock(e.pid) && e.pid in h.pc.stage.ready;
      h' := h.(lock := ReaperHolds, pc := Locked(Targeting(h.pc.stage.ready - {e.pid}), Some(e.pid)));
      assert |h.pc.stage.ready - {e.pid}| < |h.pc.stage.ready|;
      SameZombies(h, h');
    } else {
      h' := ReaperStep(h, e).value;
      SameZombies(h, h');
    }
  }

  lemma DeliveryGoesOn(h: Hub) returns (h': Hub)
    requires (h.lock.ReaperHolds? && h.pc.Reaped?) || (h.lock.Free? && h.pc.InFlight?)
    ensures ReaperNext(h, Onward(h), h') && Closer(h, Onward(h), h')
  {
    hide Zombies, IsZombie;
    h' := ReaperStep(h, Onward(h)).value;
    SameZombies(h, h');
  }

  /** Otherwise the reaper can always go on, and comes closer to the end of its pass. */
  lemma ReaperGoesOn(h: Hub) returns (h': Hub)
    requires Shaped(h) && (if h.pc.Locked? || h.pc.Reaped? then h.lock.ReaperHolds? else h.lock.Free?)
    ensures ReaperNext(h, Onward(h), h') && Closer(h, Onward(h), h')
  {
    hide Shaped, ReaperNext, Closer, Onward;
    if h.pc.Locked? {
      h' := WaitGoesOn(h);
    } else if h.pc.Idle? || h.pc.At? {
      h' := LockGoesOn(h);
    } else {
      h' := DeliveryGoesOn(h);
    }
  }

  /** The events of a continuation in which nobody but the reaper starts anything. */
  predicate Helpful(e: Event) {
    !(|| e.Appear? || e.Reparent? || e.Exit? || e.Vanish? || e.Drop? || e.SpawnLock? || e.Fork? || e.PidfdFail?
      || e.SignalLock? || e.SweepError?)
  }

  lemma LinkedPrepends(h: Hub, e: Event, hubs: seq<Hub>, events: seq<Event>)
    requires Linked(hubs, events) && Next(h, e, hubs[0])
    ensures Linked([h] + hubs, [e] + events)
  {
    hide Next;
    var hubs', events' := [h] + hubs, [e] + events;
    forall n | 0 <= n < |events'| ensures Next(hubs'[n], events'[n], hubs'[n + 1]) {
      if n > 0 {
        assert Next(hubs[n - 1], events[n - 1], hubs[n - 1 + 1]);
      }
    }
  }

  lemma OnwardIsHelpful(h: Hub)
    ensures Helpful(Onward(h))
  {
  }

  lemma {:induction false} CanSettle(h: Hub) returns (hubs: seq<Hub>, events: seq<Event>)
    requires Inv(h) && Shaped(h)
    ensures Linked(hubs, events) && hubs[0] == h && AllSettled(hubs[|events|])
    ensures forall e :: e in events ==> Helpful(e)
    decreases |Zombies(h)|, Phase(h), Todo(h), Rank(h), if h.lock.Free? || h.lock.ReaperHolds? then 0 else 1
  {
    hide Inv, Shaped, AllSettled, Linked, ReaperNext, SpawnNext, EnvironmentNext, HandleNext, Zombies, Helpful;
    OnwardIsHelpful(h);
    HoldsWhileReaping(h);
    var e, h' := Onward(h), h;
    if h.lock.Free? || h.lock.ReaperHolds? {
      h' := ReaperGoesOn(h);
    } else {
      h' := FinishGoesOn(h);
    }
    assert Next(h, e, h');
    NextKeepsInv(h, e, h');
    StepKeepsShape(h, e, h');
    if e.SweepEnd? {
      SweepSettles(h, h');
      hubs, events := [h'], [];
      OneStateIsLinked(h');
    } else {
      hubs, events := CanSettle(h');
    }
    LinkedPrepends(h, e, hubs, events);
    hubs, events := [h] + hubs, [e] + events;
  }

  lemma OneStateIsLinked(h: Hub)
    ensures Linked([h], [])
  {
  }

  lemma SweepSettles(h: Hub, h': Hub)
    requires Inv(h) && Inv(h') && Next(h, SweepEnd, h')
    ensures AllSettled(h')
  {
    hide Inv, AllSettled;
    EndSettles(h, h');
  }

  /** No run is ever stuck: from each of its states it can go on, without anyone starting
      or ending anything else, to one where no zombie is left and every registered child
      that had exited has its status delivered. */
  lemma NeverStuck(hubs: seq<Hub>, events: seq<Event>, n: nat)
    requires Run(hubs, events) && n < |hubs|
    ensures exists more, evs ::
              && Linked(more, evs) && more[0] == hubs[n] && AllSettled(more[|evs|])
              && forall e :: e in evs ==> Helpful(e)
  {
    hide Run, Inv, Shaped, Linked, AllSettled;
    RunKeepsInv(hubs, events, n);
    RunIsShaped(hubs, events, n);
    var more, evs := CanSettle(hubs[n]);
  }
}
