/** The reaper hub as a protocol: the kernel's process table, the registry under its
    lock, the spawning and signalling threads and the one thread that reaps. */
module Reaper {
  import opened Text

  datatype Pid = Pid(number: int)

  type Status = int

  /** One life of a pid. Incarnations are numbered and never reused; `ours` says that
      this process is its parent, so that its exit is collected here. */
  datatype Process = Process(incarnation: nat, ours: bool, exited: Option<Status>)

  /** The slot a child's status is delivered into, with the handle's pid. `held` while
      some handle still exists; `settled` counts how often the reaper has dealt with it. */
  datatype Slot = Slot(pid: Pid, status: Option<Status>, held: bool, settled: nat)

  /** The registry lock, with what its holder has done so far. */
  datatype Lock =
    | Free
    | SpawnLocked
    | SpawnForked(pid: Pid, incarnation: nat)
    | SignalLocked(handle: nat)
    | ReaperHolds

  /** Where the reaper thread is. A targeted pass goes on with the ready pids left. */
  datatype Stage = Targeting(ready: set<Pid>) | Sweeping

  datatype Pc =
    | Idle
    | At(stage: Stage)
    | Locked(stage: Stage, target: Option<Pid>)
    | Reaped(stage: Stage, pid: Pid, incarnation: nat, status: Status)
    | InFlight(stage: Stage, status: Status, waiter: Option<nat>)

  /** The registry maps a pid to the slot of the child registered under it; slots are
      numbered by the incarnation they were created for. `exits` is a history variable:
      the status each incarnation exited with. */
  datatype Hub = Hub(table: map<Pid, Process>, next: nat, exits: map<nat, Status>,
                     registry: map<Pid, nat>, slots: map<nat, Slot>, lock: Lock, pc: Pc)

  datatype Event =
    // the rest of the system
    | Appear(pid: Pid)
    | Reparent(pid: Pid)
    | Exit(pid: Pid, status: Status)
    | Vanish(pid: Pid)
    // a spawning thread
    | SpawnLock
    | SpawnFail
    | Fork(pid: Pid)
    | PidfdFail
    | Register
    // holders of handles
    | Drop(handle: nat)
    | SignalLock(handle: nat)
    | SignalSend
    // the reaper thread
    | Begin(ready: set<Pid>)
    | TargetLock(pid: Pid)
    | TargetWait
    | StartSweep
    | SweepLock
    | SweepWait(pid: Pid)
    | SweepEnd
    | SweepError
    | Consume
    | Deliver

  predicate IsZombie(h: Hub, pid: Pid) {
    pid in h.table && h.table[pid].ours && h.table[pid].exited.Some?
  }

  function Zombies(h: Hub): set<Pid> {
    set pid | pid in h.table && IsZombie(h, pid)
  }

  function Unlocked(h: Hub, pc: Pc): Hub {
    h.(lock := Free, pc := pc)
  }

  /** waitpid on one pid that has exited: the process leaves the table. */
  function Reap(h: Hub, stage: Stage, pid: Pid): Hub
    requires IsZombie(h, pid)
  {
    h.(table := h.table - {pid}, pc := Reaped(stage, pid, h.table[pid].incarnation, h.table[pid].exited.value))
  }

  function WithFork(h: Hub, pid: Pid): Hub {
    h.(table := h.table[pid := Process(h.next, true, None)], next := h.next + 1, lock := SpawnForked(pid, h.next))
  }

  /** The delivery: into the slot while a handle still holds it, into the void otherwise. */
  function Delivered(h: Hub): Hub
    requires h.pc.InFlight?
  {
    var done := h.(pc := At(h.pc.stage));
    if h.pc.waiter.None? || h.pc.waiter.value !in h.slots then done
    else
      var i := h.pc.waiter.value;
      var slot := h.slots[i];
      done.(slots :=
        h.slots[i := slot.(settled := slot.settled + 1,
                           status := if slot.held then Some(h.pc.status) else slot.status)])
  }

  /** What an event leads to; None when it cannot happen now. */
  function SpawnStep(h: Hub, e: Event): Option<Hub> {
    match e
    case SpawnLock => if h.lock.Free? then Some(h.(lock := SpawnLocked)) else None
    case SpawnFail => if h.lock.SpawnLocked? then Some(h.(lock := Free)) else None
    case Fork(pid) => if h.lock.SpawnLocked? && pid.number > 1 && pid !in h.table then Some(WithFork(h, pid)) else None
    case PidfdFail => if h.lock.SpawnForked? then Some(h.(lock := Free)) else None
    case Register =>
      if h.lock.SpawnForked?
      then Some(h.(lock := Free, registry := h.registry[h.lock.pid := h.lock.incarnation],
                   slots := h.slots[h.lock.incarnation := Slot(h.lock.pid, None, true, 0)]))
      else None
    case _ => None
  }

  function EnvironmentStep(h: Hub, e: Event): Option<Hub> {
    match e
    case Appear(pid) =>
      if pid.number > 1 && pid !in h.table
      then Some(h.(table := h.table[pid := Process(h.next, false, None)], next := h.next + 1))
      else None
    case Reparent(pid) =>
      if pid in h.table && !h.table[pid].ours
      then Some(h.(table := h.table[pid := h.table[pid].(ours := true)]))
      else None
    case Exit(pid, status) =>
      if pid in h.table && h.table[pid].exited.None?
      then Some(h.(table := h.table[pid := h.table[pid].(exited := Some(status))],
                   exits := h.exits[h.table[pid].incarnation := status]))
      else None
    case Vanish(pid) =>
      if pid in h.table && !h.table[pid].ours && h.table[pid].exited.Some?
      then Some(h.(table := h.table - {pid}))
      else None
    case _ => None
  }

  function HandleStep(h: Hub, e: Event): Option<Hub> {
    match e
    case Drop(i) => if i in h.slots then Some(h.(slots := h.slots[i := h.slots[i].(held := false)])) else None
    case SignalLock(i) =>
      if h.lock.Free? && i in h.slots && h.slots[i].held then Some(h.(lock := SignalLocked(i))) else None
    case SignalSend => if h.lock.SignalLocked? then Some(h.(lock := Free)) else None
    case _ => None
  }

  function ReaperStep(h: Hub, e: Event): Option<Hub> {
    match e
    case Begin(ready) =>
      if h.pc.Idle? && h.lock.Free? && ready <= h.registry.Keys then Some(h.(pc := At(Targeting(ready)))) else None
    case TargetLock(pid) =>
      if h.pc.At? && h.pc.stage.Targeting? && pid in h.pc.stage.ready && h.lock.Free?
      then Some(h.(lock := ReaperHolds, pc := Locked(Targeting(h.pc.stage.ready - {pid}), Some(pid))))
      else None
    case TargetWait =>
      if h.pc.Locked? && h.pc.target.Some?
      then Some(if IsZombie(h, h.pc.target.value)
                then Reap(h, h.pc.stage, h.pc.target.value)
                else Unlocked(h, At(h.pc.stage)))
      else None
    case StartSweep => if h.pc == At(Targeting({})) then Some(h.(pc := At(Sweeping))) else None
    case SweepLock =>
      if h.pc == At(Sweeping) && h.lock.Free?
      then Some(h.(lock := ReaperHolds, pc := Locked(Sweeping, None)))
      else None
    case SweepWait(pid) =>
      if h.pc == Locked(Sweeping, None) && IsZombie(h, pid) then Some(Reap(h, Sweeping, pid)) else None
    case SweepEnd => if h.pc == Locked(Sweeping, None) && Zombies(h) == {} then Some(Unlocked(h, Idle)) else None
    case SweepError => if h.pc == Locked(Sweeping, None) then Some(Unlocked(h, Idle)) else None
    case Consume =>
      if h.pc.Reaped?
      then Some(Unlocked(h,
                         InFlight(h.pc.stage, h.pc.status,
                                  if h.pc.pid in h.registry then Some(h.registry[h.pc.pid]) else None))
                .(registry := h.registry - {h.pc.pid}))
      else None
    case Deliver => if h.pc.InFlight? then Some(Delivered(h)) else None
    case _ => None
  }

  predicate SpawnNext(h: Hub, e: Event, h': Hub) { SpawnStep(h, e) == Some(h') }

  predicate EnvironmentNext(h: Hub, e: Event, h': Hub) { EnvironmentStep(h, e) == Some(h') }

  predicate HandleNext(h: Hub, e: Event, h': Hub) { HandleStep(h, e) == Some(h') }

  predicate ReaperNext(h: Hub, e: Event, h': Hub) { ReaperStep(h, e) == Some(h') }

  /** One step of the system. */
  predicate Next(h: Hub, e: Event, h': Hub) {
    SpawnNext(h, e, h') || EnvironmentNext(h, e, h') || HandleNext(h, e, h') || ReaperNext(h, e, h')
  }

  predicate Init(h: Hub) {
    && h.registry == map[] && h.slots == map[] && h.exits == map[] && h.lock.Free? && h.pc.Idle?
    && (forall pid :: pid in h.table ==>
          pid.number > 1 && h.table[pid].incarnation < h.next && h.table[pid].exited.None?)
    && (forall p, q :: p in h.table && q in h.table && p != q ==> h.table[p].incarnation != h.table[q].incarnation)
  }

  // ------------------------------------------------------------ the invariant

  /** Incarnations name lives: distinct across the table, with the status they exited with. */
  ghost predicate GoodTable(h: Hub) {
    && (forall pid :: pid in h.table ==> pid.number > 1 && h.table[pid].incarnation < h.next)
    && (forall p, q :: p in h.table && q in h.table && p != q ==> h.table[p].incarnation != h.table[q].incarnation)
    && (forall pid :: pid in h.table ==>
          var i := h.table[pid].incarnation;
          if h.table[pid].exited.Some? then i in h.exits && h.exits[i] == h.table[pid].exited.value else i !in h.exits)
    && (forall i :: i in h.exits ==> i < h.next)
  }

  /** The pid has just been taken from the kernel and its entry not yet removed. */
  predicate MidReap(h: Hub, pid: Pid) {
    h.pc.Reaped? && h.pc.pid == pid
  }

  /** A registered pid is the child it was registered for, not yet reaped. */
  ghost predicate Live(h: Hub, pid: Pid)
    requires pid in h.registry
  {
    pid in h.table && h.table[pid].ours && h.table[pid].incarnation == h.registry[pid]
  }

  ghost predicate GoodRegistry(h: Hub) {
    forall pid :: pid in h.registry ==>
      var i := h.registry[pid];
      && i in h.slots && h.slots[i].pid == pid && h.slots[i].settled == 0
      && (if MidReap(h, pid) then h.pc.incarnation == i else Live(h, pid))
  }

  predicate Registered(h: Hub, i: nat) {
    i in h.slots && h.slots[i].pid in h.registry && h.registry[h.slots[i].pid] == i
  }

  predicate Flying(h: Hub, i: nat) {
    h.pc.InFlight? && h.pc.waiter == Some(i)
  }

  /** No process in the table is this incarnation any more. */
  ghost predicate Gone(h: Hub, i: nat) {
    forall pid :: pid in h.table ==> h.table[pid].incarnation != i
  }

  /** Every child ever registered is registered, in flight or settled, exactly one of
      them; a status in its slot is its own; and only a slot nobody holds can be settled
      without one. */
  ghost predicate GoodSlots(h: Hub) {
    forall i :: i in h.slots ==>
      var slot := h.slots[i];
      && i < h.next && slot.pid.number > 1 && slot.settled <= 1
      && (slot.settled == 0 <==> Registered(h, i) || Flying(h, i))
      && !(Registered(h, i) && Flying(h, i))
      && (!Registered(h, i) ==> Gone(h, i))
      && (slot.status.Some? ==> slot.settled == 1 && i in h.exits && slot.status.value == h.exits[i])
      && (slot.settled == 1 && slot.held ==> slot.status.Some?)
  }

  ghost predicate GoodControl(h: Hub) {
    && (h.lock.ReaperHolds? <==> h.pc.Locked? || h.pc.Reaped?)
    && (h.pc.Reaped? ==>
          && h.pc.incarnation < h.next && h.pc.incarnation in h.exits && h.exits[h.pc.incarnation] == h.pc.status
          && Gone(h, h.pc.incarnation)
          && (h.pc.incarnation in h.slots ==> h.pc.pid in h.registry && h.registry[h.pc.pid] == h.pc.incarnation))
    && (h.pc.InFlight? && h.pc.waiter.Some? ==>
          h.pc.waiter.value in h.slots && h.pc.waiter.value in h.exits && h.exits[h.pc.waiter.value] == h.pc.status)
    && (h.lock.SpawnForked? ==>
          && h.lock.pid in h.table && h.table[h.lock.pid].ours && h.table[h.lock.pid].incarnation == h.lock.incarnation
          && h.lock.pid !in h.registry && h.lock.incarnation !in h.slots)
    && (h.lock.SignalLocked? ==> h.lock.handle in h.slots)
  }

  ghost predicate Inv(h: Hub) {
    GoodTable(h) && GoodRegistry(h) && GoodSlots(h) && GoodControl(h)
  }

  lemma InitKeepsInv(h: Hub)
    requires Init(h)
    ensures Inv(h)
  {
  }

  /** A step that only moves the lock or the reaper thread between points where it
      carries nothing. */
  lemma MovingKeepsInv(h: Hub, h': Hub)
    requires Inv(h) && h' == h.(lock := h'.lock, pc := h'.pc) && GoodControl(h')
    requires h'.pc == h.pc || !(h.pc.Reaped? || h.pc.InFlight? || h'.pc.Reaped? || h'.pc.InFlight?)
    ensures Inv(h')
  {
    assert forall i ::
        Registered(h', i) == Registered(h, i) && Flying(h', i) == Flying(h, i) &&
        Gone(h', i) == Gone(h, i);
    assert forall pid :: MidReap(h', pid) == MidReap(h, pid);
    hide Registered, Flying, Gone, MidReap, GoodControl;
  }

  /** Slots changed without touching the registry, the table or what is in flight. */
  lemma SlotsOnlyKeepRegistry(h: Hub, h': Hub)
    requires GoodRegistry(h) && h' == h.(slots := h'.slots, pc := h'.pc) && h'.slots.Keys == h.slots.Keys
    requires !h'.pc.Reaped? && !h.pc.Reaped?
    requires forall pid :: pid in h.registry ==>
              h'.slots[h.registry[pid]].pid == h.slots[h.registry[pid]].pid
              && h'.slots[h.registry[pid]].settled == h.slots[h.registry[pid]].settled
    ensures GoodRegistry(h')
  {
  }

  lemma DropKeepsRegistry(h: Hub, i: nat, h': Hub)
    requires GoodRegistry(h) && HandleNext(h, Drop(i), h')
    ensures GoodRegistry(h')
  {
    hide Live;
    assert forall pid :: pid in h.registry ==> Live(h', pid) == Live(h, pid) by {
      forall pid | pid in h.registry ensures Live(h', pid) == Live(h, pid) {
        SameLife(h, h', pid);
      }
    }
  }

  lemma SameLife(h: Hub, h': Hub, pid: Pid)
    requires pid in h.registry && h'.registry == h.registry && h'.table == h.table
    ensures Live(h', pid) == Live(h, pid)
  {
  }

  lemma DropKeepsSlots(h: Hub, i: nat, h': Hub)
    requires GoodSlots(h) && HandleNext(h, Drop(i), h')
    ensures GoodSlots(h')
  {
    assert forall j ::
        Registered(h', j) == Registered(h, j) && Flying(h', j) == Flying(h, j) &&
        Gone(h', j) == Gone(h, j);
    hide Registered, Flying, Gone;
  }

  lemma DropKeepsInv(h: Hub, i: nat, h': Hub)
    requires Inv(h) && HandleNext(h, Drop(i), h')
    ensures Inv(h')
  {
    hide GoodRegistry, GoodSlots;
    DropKeepsRegistry(h, i, h');
    DropKeepsSlots(h, i, h');
    assert Gone(h', if h.pc.Reaped? then h.pc.incarnation else 0)
      == Gone(h, if h.pc.Reaped? then h.pc.incarnation else 0);
    hide Gone;
  }

  lemma AppearKeepsTable(h: Hub, pid: Pid, h': Hub)
    requires GoodTable(h) && EnvironmentNext(h, Appear(pid), h')
    ensures GoodTable(h')
  {
  }

  lemma ExitKeepsTable(h: Hub, pid: Pid, status: Status, h': Hub)
    requires GoodTable(h) && EnvironmentNext(h, Exit(pid, status), h')
    ensures GoodTable(h')
  {
  }

  lemma EnvironmentKeepsTable(h: Hub, e: Event, h': Hub)
    requires GoodTable(h) && EnvironmentNext(h, e, h')
    ensures GoodTable(h')
  {
    if e.Appear? {
      AppearKeepsTable(h, e.pid, h');
    } else if e.Exit? {
      ExitKeepsTable(h, e.pid, e.status, h');
    }
  }

  /** The kernel's own steps leave this process's unreaped children what they are. */
  lemma EnvironmentKeepsLife(h: Hub, e: Event, h': Hub, pid: Pid)
    requires EnvironmentNext(h, e, h') && pid in h.registry && Live(h, pid)
    ensures h'.registry == h.registry && Live(h', pid)
  {
  }

  lemma EnvironmentKeepsRegistry(h: Hub, e: Event, h': Hub)
    requires GoodRegistry(h) && EnvironmentNext(h, e, h')
    ensures GoodRegistry(h')
  {
    hide Live;
    assert h'.registry == h.registry && h'.slots == h.slots && h'.pc == h.pc;
    forall pid | pid in h.registry && Live(h, pid) ensures Live(h', pid) {
      EnvironmentKeepsLife(h, e, h', pid);
    }
    hide EnvironmentStep;
  }

  lemma EnvironmentKeepsGone(h: Hub, e: Event, h': Hub, i: nat)
    requires EnvironmentNext(h, e, h') && Gone(h, i) && i < h.next
    ensures Gone(h', i) && (i in h'.exits <==> i in h.exits) && (i in h.exits ==> h'.exits[i] == h.exits[i])
  {
  }

  lemma EnvironmentKeepsSlots(h: Hub, e: Event, h': Hub)
    requires GoodSlots(h) && EnvironmentNext(h, e, h')
    ensures GoodSlots(h')
  {
    assert h'.registry == h.registry && h'.slots == h.slots && h'.pc == h.pc && h.next <= h'.next;
    assert forall i :: Registered(h', i) == Registered(h, i) && Flying(h', i) == Flying(h, i);
    hide Registered, Flying;
    forall i | i in h.slots && !Registered(h, i)
      ensures Gone(h', i) && (i in h.exits ==> i in h'.exits && h'.exits[i] == h.exits[i])
    {
      EnvironmentKeepsGone(h, e, h', i);
    }
    hide EnvironmentStep, Gone;
  }

  lemma EnvironmentKeepsControl(h: Hub, e: Event, h': Hub)
    requires GoodControl(h) && GoodSlots(h) && EnvironmentNext(h, e, h')
    ensures GoodControl(h')
  {
    assert h'.registry == h.registry && h'.slots == h.slots && h'.pc == h.pc && h'.lock == h.lock && h.next <= h'.next;
    if h.pc.Reaped? {
      EnvironmentKeepsGone(h, e, h', h.pc.incarnation);
    }
    if h.pc.InFlight? && h.pc.waiter.Some? {
      var i := h.pc.waiter.value;
      assert Flying(h, i);
      EnvironmentKeepsGone(h, e, h', i);
    }
    hide Gone, GoodSlots;
  }

  lemma ForkKeepsTable(h: Hub, pid: Pid, h': Hub)
    requires GoodTable(h) && SpawnNext(h, Fork(pid), h')
    ensures GoodTable(h')
  {
  }

  lemma ForkKeepsRegistry(h: Hub, pid: Pid, h': Hub)
    requires GoodRegistry(h) && GoodControl(h) && SpawnNext(h, Fork(pid), h')
    ensures GoodRegistry(h') && pid !in h.registry
  {
    hide Gone;
  }

  lemma ForkKeepsSlots(h: Hub, pid: Pid, h': Hub)
    requires GoodSlots(h) && SpawnNext(h, Fork(pid), h')
    ensures GoodSlots(h') && h.next !in h.slots
  {
    assert forall i :: Registered(h', i) == Registered(h, i) && Flying(h', i) == Flying(h, i);
    assert forall i: nat :: i < h.next && Gone(h, i) ==> Gone(h', i);
    hide Registered, Flying, Gone;
  }

  lemma ForkKeepsInv(h: Hub, pid: Pid, h': Hub)
    requires Inv(h) && SpawnNext(h, Fork(pid), h')
    ensures Inv(h')
  {
    ForkKeepsTable(h, pid, h');
    ForkKeepsRegistry(h, pid, h');
    ForkKeepsSlots(h, pid, h');
    hide GoodTable, GoodRegistry, GoodSlots;
  }

  lemma RegisterKeepsRegistry(h: Hub, h': Hub)
    requires GoodRegistry(h) && GoodControl(h) && SpawnNext(h, Register, h')
    ensures GoodRegistry(h')
  {
    hide Gone;
  }

  lemma RegisterKeepsSlots(h: Hub, h': Hub)
    requires GoodSlots(h) && GoodControl(h) && GoodTable(h) && SpawnNext(h, Register, h')
    ensures GoodSlots(h')
  {
    var n := h.lock.incarnation;
    assert forall i :: Flying(h', i) == Flying(h, i);
    assert forall i :: Gone(h', i) == Gone(h, i);
    assert forall i :: i in h.slots ==> Registered(h', i) == Registered(h, i);
    assert Registered(h', n) && !Flying(h, n);
    assert n < h.next && h.lock.pid.number > 1;
    hide Registered, Flying, Gone, GoodTable, GoodControl;
  }

  lemma RegisterKeepsInv(h: Hub, h': Hub)
    requires Inv(h) && SpawnNext(h, Register, h')
    ensures Inv(h')
  {
    RegisterKeepsRegistry(h, h');
    RegisterKeepsSlots(h, h');
    assert forall i :: Gone(h', i) == Gone(h, i);
    hide GoodRegistry, GoodSlots, Gone;
  }

  lemma SpawnKeepsInv(h: Hub, e: Event, h': Hub)
    requires Inv(h) && SpawnNext(h, e, h')
    ensures Inv(h')
  {
    hide Inv, GoodTable, GoodRegistry, GoodSlots;
    if e.Fork? {
      ForkKeepsInv(h, e.pid, h');
    } else if e.Register? {
      RegisterKeepsInv(h, h');
    } else {
      assert GoodControl(h') by {
        assert GoodControl(h) by {
          HasGoodControl(h);
        }
      }
      MovingKeepsInv(h, h');
    }
  }

  lemma HasGoodControl(h: Hub)
    requires Inv(h)
    ensures GoodControl(h)
  {
  }

  lemma EnvironmentKeepsInv(h: Hub, e: Event, h': Hub)
    requires Inv(h) && EnvironmentNext(h, e, h')
    ensures Inv(h')
  {
    hide GoodTable, GoodRegistry, GoodSlots, GoodControl, EnvironmentNext;
    EnvironmentKeepsTable(h, e, h');
    EnvironmentKeepsRegistry(h, e, h');
    EnvironmentKeepsSlots(h, e, h');
    EnvironmentKeepsControl(h, e, h');
  }

  lemma HandleKeepsInv(h: Hub, e: Event, h': Hub)
    requires Inv(h) && HandleNext(h, e, h')
    ensures Inv(h')
  {
    hide Inv, GoodTable, GoodRegistry, GoodSlots;
    if e.Drop? {
      DropKeepsInv(h, e.handle, h');
    } else {
      HasGoodControl(h);
      MovingKeepsInv(h, h');
    }
  }

  lemma ReapKeepsInv(h: Hub, stage: Stage, pid: Pid)
    requires Inv(h) && h.pc.Locked? && IsZombie(h, pid)
    ensures Inv(Reap(h, stage, pid))
  {
    var h' := Reap(h, stage, pid);
    assert forall i :: Registered(h', i) == Registered(h, i) && Flying(h', i) == Flying(h, i);
    assert forall i :: Gone(h, i) ==> Gone(h', i);
    hide Flying;
  }

  lemma ConsumeKeepsRegistry(h: Hub, h': Hub)
    requires GoodRegistry(h) && ReaperNext(h, Consume, h')
    ensures GoodRegistry(h')
  {
  }

  lemma ConsumeKeepsSlots(h: Hub, h': Hub)
    requires GoodSlots(h) && GoodRegistry(h) && GoodControl(h) && ReaperNext(h, Consume, h')
    ensures GoodSlots(h')
  {
    assert forall i :: Gone(h', i) == Gone(h, i);
    hide Gone;
  }

  lemma ConsumeKeepsInv(h: Hub, h': Hub)
    requires Inv(h) && ReaperNext(h, Consume, h')
    ensures Inv(h')
  {
    ConsumeKeepsRegistry(h, h');
    ConsumeKeepsSlots(h, h');
    hide Gone, GoodSlots;
  }

  lemma DeliverKeepsSlots(h: Hub, h': Hub)
    requires GoodSlots(h) && GoodControl(h) && h.pc.InFlight? && h' == Delivered(h)
    ensures GoodSlots(h')
  {
    assert forall j :: Registered(h', j) == Registered(h, j) && Gone(h', j) == Gone(h, j);
    assert forall j: nat :: !Flying(h', j) && (Flying(h, j) <==> h.pc.waiter == Some(j));
    hide Registered, Flying, Gone;
  }

  lemma DeliverKeepsInv(h: Hub, h': Hub)
    requires Inv(h) && ReaperNext(h, Deliver, h')
    ensures Inv(h')
  {
    hide GoodSlots;
    DeliverKeepsSlots(h, h');
    hide Gone;
    if h.pc.waiter.Some? {
      assert !Registered(h, h.pc.waiter.value) by {
        FlyingIsNotRegistered(h, h.pc.waiter.value);
      }
    }
    SlotsOnlyKeepRegistry(h, h');
    hide GoodRegistry;
  }

  lemma FlyingIsNotRegistered(h: Hub, i: nat)
    requires GoodSlots(h) && Flying(h, i) && i in h.slots
    ensures !Registered(h, i)
  {
    hide Registered, Gone;
  }

  lemma ReaperKeepsInv(h: Hub, e: Event, h': Hub)
    requires Inv(h) && ReaperNext(h, e, h')
    ensures Inv(h')
  {
    hide Inv, GoodTable, GoodRegistry, GoodSlots;
    if h'.pc.Reaped? && !h.pc.Reaped? {
      ReapKeepsInv(h, h'.pc.stage, h'.pc.pid);
    } else if e.Consume? {
      ConsumeKeepsInv(h, h');
    } else if e.Deliver? {
      DeliverKeepsInv(h, h');
    } else {
      HasGoodControl(h);
      MovingKeepsInv(h, h');
    }
  }

  lemma NextKeepsInv(h: Hub, e: Event, h': Hub)
    requires Inv(h) && Next(h, e, h')
    ensures Inv(h')
  {
    hide Inv, SpawnNext, EnvironmentNext, HandleNext, ReaperNext;
    if SpawnNext(h, e, h') {
      SpawnKeepsInv(h, e, h');
    } else if EnvironmentNext(h, e, h') {
      EnvironmentKeepsInv(h, e, h');
    } else if HandleNext(h, e, h') {
      HandleKeepsInv(h, e, h');
    } else {
      ReaperKeepsInv(h, e, h');
    }
  }

  /** Every interleaving: states linked by steps, from an initial one. */
  ghost predicate Run(hubs: seq<Hub>, events: seq<Event>) {
    && |hubs| == |events| + 1 && Init(hubs[0])
    && forall n :: 0 <= n < |events| ==> Next(hubs[n], events[n], hubs[n + 1])
  }

  lemma {:induction false} RunKeepsInv(hubs: seq<Hub>, events: seq<Event>, n: nat)
    requires Run(hubs, events) && n < |hubs|
    ensures Inv(hubs[n])
  {
    hide Next, Inv, Init;
    if n == 0 {
      InitKeepsInv(hubs[0]);
    } else {
      RunKeepsInv(hubs, events, n - 1);
      NextKeepsInv(hubs[n - 1], events[n - 1], hubs[n]);
    }
  }

  // --------------------------------------------------------------- signalling

  /** The incarnation a signal reaches: whatever the kernel has under that pid when the
      registry still knows it. */
  function Reaches(h: Hub, handle: nat): Option<nat>
    requires handle in h.slots
  {
    var pid := h.slots[handle].pid;
    if pid in h.registry && pid.number > 1 && pid in h.table then Some(h.table[pid].incarnation) else None
  }

  /** In every interleaving a signal sent through a handle reaches exactly the child
      registered under the handle's pid, unreaped and this process's own, and no other
      process; it is the handle's own child exactly when that child's status has not
      been collected yet. */
  lemma SignalsReachRegisteredChildren(hubs: seq<Hub>, events: seq<Event>, n: nat)
    requires Run(hubs, events) && n < |events| && events[n].SignalSend?
    ensures var h := hubs[n];
            h.lock.SignalLocked? && h.lock.handle in h.slots
    ensures var h := hubs[n];
            var i, pid := h.lock.handle, h.slots[h.lock.handle].pid;
            && Reaches(h, i) == (if pid in h.registry then Some(h.registry[pid]) else None)
            && (Reaches(h, i).Some? ==>
                  h.table[pid].ours && Reaches(h, i).value in h.slots && h.slots[Reaches(h, i).value].settled == 0)
            && (Reaches(h, i) == Some(i) <==> h.slots[i].settled == 0 && !Flying(h, i))
  {
    RunKeepsInv(hubs, events, n);
    hide Inv, Run, Init;
    var h := hubs[n];
    assert Next(h, events[n], hubs[n + 1]) by {
      assert Run(hubs, events);
      StepOf(hubs, events, n);
    }
    SignalTarget(h);
  }

  lemma StepOf(hubs: seq<Hub>, events: seq<Event>, n: nat)
    requires Run(hubs, events) && n < |events|
    ensures Next(hubs[n], events[n], hubs[n + 1])
  {
  }

  lemma SignalTarget(h: Hub)
    requires Inv(h) && h.lock.SignalLocked?
    ensures h.lock.handle in h.slots
    ensures var i, pid := h.lock.handle, h.slots[h.lock.handle].pid;
            && Reaches(h, i) == (if pid in h.registry then Some(h.registry[pid]) else None)
            && (Reaches(h, i).Some? ==>
                  h.table[pid].ours && Reaches(h, i).value in h.slots && h.slots[Reaches(h, i).value].settled == 0)
            && (Reaches(h, i) == Some(i) <==> h.slots[i].settled == 0 && !Flying(h, i))
  {
    hide Gone;
  }

  /** The kill after a failed pidfd reaches the child just forked. */
  lemma RefusedChildIsKilled(h: Hub)
    requires Inv(h) && h.lock.SpawnForked?
    ensures h.lock.pid in h.table && h.table[h.lock.pid].incarnation == h.lock.incarnation && h.table[h.lock.pid].ours
    ensures h.lock.pid.number > 1
  {
    hide GoodRegistry, GoodSlots, Gone;
  }

  // ----------------------------------------------------------------- delivery

  /** Every child ever registered is registered, in flight or settled, and exactly one. */
  lemma OneFate(hubs: seq<Hub>, events: seq<Event>, n: nat, i: nat)
    requires Run(hubs, events) && n < |hubs| && i in hubs[n].slots
    ensures var h := hubs[n];
            && (Registered(h, i) || Flying(h, i) || h.slots[i].settled == 1)
            && !(Registered(h, i) && Flying(h, i)) && !(Registered(h, i) && h.slots[i].settled == 1)
            && !(Flying(h, i) && h.slots[i].settled == 1)
            && (h.slots[i].status.Some? ==> i in h.exits && h.slots[i].status.value == h.exits[i])
            && (h.slots[i].settled == 1 && h.slots[i].held ==> h.slots[i].status.Some?)
  {
    RunKeepsInv(hubs, events, n);
    hide Run, GoodTable, GoodRegistry, GoodControl, Registered, Flying, Gone;
  }

  /** A slot keeps its pid and its status, and is never unsettled. */
  ghost predicate Continues(h: Hub, h': Hub, i: nat)
    requires i in h.slots
  {
    && i in h'.slots && h'.slots[i].pid == h.slots[i].pid && h.slots[i].settled <= h'.slots[i].settled
    && (h.slots[i].status.Some? ==> h'.slots[i].status == h.slots[i].status)
  }

  lemma OthersKeepDelivered(h: Hub, e: Event, h': Hub, i: nat)
    requires GoodControl(h) && i in h.slots
    requires SpawnNext(h, e, h') || EnvironmentNext(h, e, h') || HandleNext(h, e, h')
    ensures Continues(h, h', i)
  {
    hide Gone;
  }

  lemma ReaperKeepsDelivered(h: Hub, e: Event, h': Hub, i: nat)
    requires GoodSlots(h) && i in h.slots && ReaperNext(h, e, h')
    ensures Continues(h, h', i)
  {
    hide Registered, Gone;
    if e.Deliver? && h.pc.InFlight? && h.pc.waiter == Some(i) {
      assert Flying(h, i);
    }
  }

  lemma NextKeepsDelivered(h: Hub, e: Event, h': Hub, i: nat)
    requires Inv(h) && Next(h, e, h') && i in h.slots
    ensures Continues(h, h', i)
  {
    hide GoodTable, GoodRegistry, GoodSlots, GoodControl, Continues, SpawnNext, EnvironmentNext, HandleNext, ReaperNext;
    if ReaperNext(h, e, h') {
      ReaperKeepsDelivered(h, e, h', i);
    } else {
      OthersKeepDelivered(h, e, h', i);
    }
  }

  /** A delivered status is final: no later step of any run changes it. */
  lemma {:induction false} DeliveredForGood(hubs: seq<Hub>, events: seq<Event>, m: nat, n: nat, i: nat)
    requires Run(hubs, events) && m <= n < |hubs| && i in hubs[m].slots && hubs[m].slots[i].status.Some?
    ensures i in hubs[n].slots && hubs[n].slots[i].status == hubs[m].slots[i].status
  {
    hide Next, Init, Inv;
    if m < n {
      DeliveredForGood(hubs, events, m, n - 1, i);
      RunKeepsInv(hubs, events, n - 1);
      NextKeepsDelivered(hubs[n - 1], events[n - 1], hubs[n], i);
    }
  }

  lemma CleanEndSettles(h: Hub, h': Hub, i: nat)
    requires Inv(h) && ReaperNext(h, SweepEnd, h') && i in h.slots && i in h.exits
    ensures h'.slots == h.slots && h.slots[i].settled == 1
  {
    hide Gone, GoodTable, GoodRegistry;
    if Registered(h, i) {
      RegisteredExitIsZombie(h, i);
    }
  }

  lemma RegisteredExitIsZombie(h: Hub, i: nat)
    requires Inv(h) && !h.pc.Reaped? && Registered(h, i) && i in h.exits
    ensures h.slots[i].pid in Zombies(h)
  {
    hide Gone, GoodSlots, GoodControl;
    assert Live(h, h.slots[i].pid);
  }

  /** A pass whose sweep ends because nothing is left to collect has collected every
      zombie there was, and the status of every registered child that had exited is in
      its slot if anyone still holds its handle. */
  lemma CleanPassSettlesEveryExit(hubs: seq<Hub>, events: seq<Event>, n: nat)
    requires Run(hubs, events) && n < |events| && events[n].SweepEnd?
    ensures var h := hubs[n + 1];
            && Zombies(h) == {}
            && forall i :: i in h.slots && i in h.exits ==>
                 h.slots[i].settled == 1 && (h.slots[i].held ==> h.slots[i].status == Some(h.exits[i]))
  {
    var h, h' := hubs[n], hubs[n + 1];
    StepOf(hubs, events, n);
    RunKeepsInv(hubs, events, n);
    RunKeepsInv(hubs, events, n + 1);
    hide Run, GoodTable, GoodRegistry, GoodControl, Registered, Flying, Gone;
    assert Zombies(h') == Zombies(h);
    forall i | i in h'.slots && i in h'.exits ensures h'.slots[i].settled == 1 {
      CleanEndSettles(h, h', i);
    }
  }

  // ------------------------------------------------------------- conservation

  /** Zombies appear when a child exits or an exited process is reparented here. */
  function Gain(h: Hub, e: Event): nat {
    if e.Exit? && e.pid in h.table && h.table[e.pid].ours then 1
    else if e.Reparent? && e.pid in h.table && h.table[e.pid].exited.Some? then 1
    else 0
  }

  /** They disappear one by one, when the reaper collects one. */
  function Loss(h: Hub, e: Event): nat {
    if e.SweepWait? || (e.TargetWait? && h.pc.Locked? && h.pc.target.Some? && IsZombie(h, h.pc.target.value)) then 1
    else 0
  }

  lemma SameZombies(h: Hub, h': Hub)
    requires h'.table == h.table
    ensures Zombies(h') == Zombies(h)
  {
  }

  lemma OneZombieLess(h: Hub, h': Hub, pid: Pid)
    requires IsZombie(h, pid) && h'.table == h.table - {pid}
    ensures |Zombies(h')| + 1 == |Zombies(h)|
  {
    assert Zombies(h') == Zombies(h) - {pid};
  }

  lemma ReaperBalance(h: Hub, e: Event, h': Hub)
    requires ReaperNext(h, e, h')
    ensures |Zombies(h')| + Loss(h, e) == |Zombies(h)|
  {
    hide Zombies;
    if Loss(h, e) == 1 {
      OneZombieLess(h, h', h'.pc.pid);
    } else {
      SameZombies(h, h');
    }
  }

  lemma OneZombieMore(h: Hub, h': Hub, pid: Pid)
    requires IsZombie(h', pid) && !IsZombie(h, pid) && h'.table.Keys == h.table.Keys
    requires forall q :: q in h.table && q != pid ==> h'.table[q] == h.table[q]
    ensures |Zombies(h')| == |Zombies(h)| + 1
  {
    assert Zombies(h') == Zombies(h) + {pid};
  }

  lemma NoZombieMore(h: Hub, h': Hub, pid: Pid)
    requires !IsZombie(h', pid) && !IsZombie(h, pid)
    requires forall q :: q != pid ==>
              ((q in h'.table <==> q in h.table) && (q in h.table ==> h'.table[q] == h.table[q]))
    ensures Zombies(h') == Zombies(h)
  {
  }

  lemma EnvironmentBalance(h: Hub, e: Event, h': Hub)
    requires EnvironmentNext(h, e, h')
    ensures |Zombies(h')| == |Zombies(h)| + Gain(h, e)
  {
    hide Zombies;
    if Gain(h, e) == 1 {
      OneZombieMore(h, h', e.pid);
    } else {
      NoZombieMore(h, h', e.pid);
    }
  }

  lemma ForkKeepsZombies(h: Hub, e: Event, h': Hub)
    requires SpawnNext(h, e, h') || HandleNext(h, e, h')
    ensures Zombies(h') == Zombies(h) && Loss(h, e) == 0 && Gain(h, e) == 0
  {
    if !e.Fork? {
      SameZombies(h, h');
    }
  }

  lemma StepBalance(h: Hub, e: Event, h': Hub)
    requires Next(h, e, h')
    ensures |Zombies(h')| + Loss(h, e) == |Zombies(h)| + Gain(h, e)
  {
    if ReaperNext(h, e, h') {
      ReaperBalance(h, e, h');
    } else if EnvironmentNext(h, e, h') {
      EnvironmentBalance(h, e, h');
    } else {
      hide ReaperNext, EnvironmentNext;
      ForkKeepsZombies(h, e, h');
    }
  }

  function Gains(hubs: seq<Hub>, events: seq<Event>, m: nat, n: nat): nat
    requires m <= n <= |events| && |hubs| == |events| + 1
  {
    if m == n then 0 else Gains(hubs, events, m, n - 1) + Gain(hubs[n - 1], events[n - 1])
  }

  function Losses(hubs: seq<Hub>, events: seq<Event>, m: nat, n: nat): nat
    requires m <= n <= |events| && |hubs| == |events| + 1
  {
    if m == n then 0 else Losses(hubs, events, m, n - 1) + Loss(hubs[n - 1], events[n - 1])
  }

  /** Over any stretch of any run the zombies left and the zombies collected are the
      zombies there were and those that appeared: a sweep collects at most as many as
      existed or exited meanwhile. */
  lemma {:induction false} ZombiesBalance(hubs: seq<Hub>, events: seq<Event>, m: nat, n: nat)
    requires Run(hubs, events) && m <= n <= |events|
    ensures |Zombies(hubs[n])| + Losses(hubs, events, m, n) == |Zombies(hubs[m])| + Gains(hubs, events, m, n)
  {
    hide Next, Gain, Loss, Zombies, Init;
    if m < n {
      ZombiesBalance(hubs, events, m, n - 1);
      StepBalance(hubs[n - 1], events[n - 1], hubs[n]);
    }
  }
}
