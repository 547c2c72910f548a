/** The maintenance reactor over an integer clock in milliseconds: the scheduler of the
    periodic tasks, the final flush, and the bounded wait for both at shutdown. */
module Maintenance {
  import opened Text

  const POLL: nat := 100
  const SYNC_TIMEOUT: nat := 60_000
  const PERSIST_BUDGET: nat := 120_000
  const PERSIST_FORCED_BUDGET: nat := 15_000

  // --------------------------------------------------------------- the drain

  /** One drain: its budgets, and at each poll whether the thread has finished and
      whether a stop request asks it to hurry. Poll k happens k polls after the start. */
  datatype Drain = Drain(budget: nat, forced: nat, finished: nat -> bool, hurry: nat -> bool)

  datatype Ended = Ended(poll: nat, joined: bool)

  function Time(poll: nat): nat {
    poll * POLL
  }

  function HardStop(d: Drain): nat {
    d.budget + SYNC_TIMEOUT
  }

  /** When the wait gives up: counted from the start, or from the moment hurry was seen. */
  function GiveUp(d: Drain, forcedAt: Option<nat>): nat {
    if forcedAt.Some? then forcedAt.value + d.forced + SYNC_TIMEOUT else HardStop(d)
  }

  function Limit(d: Drain): nat {
    d.budget + d.forced + 2 * SYNC_TIMEOUT + 2 * POLL
  }

  /** The wait is still on at this poll. */
  predicate Waiting(d: Drain, poll: nat, forcedAt: Option<nat>) {
    && Time(poll) < GiveUp(d, forcedAt) + POLL
    && (forcedAt.Some? ==> forcedAt.value < HardStop(d) + POLL)
  }

  function Seen(d: Drain, poll: nat, forcedAt: Option<nat>): Option<nat> {
    if forcedAt.None? && d.hurry(poll) then Some(Time(poll)) else forcedAt
  }

  /** The wait from one poll on; it always ends before the limit. */
  function WaitFrom(d: Drain, poll: nat, forcedAt: Option<nat>): (e: Ended)
    requires Waiting(d, poll, forcedAt)
    ensures poll <= e.poll && Time(e.poll) < Limit(d)
    decreases Limit(d) - Time(poll)
  {
    if d.finished(poll) then Ended(poll, true)
    else
      var seen := Seen(d, poll, forcedAt);
      if Time(poll) >= GiveUp(d, seen) then Ended(poll, false) else WaitFrom(d, poll + 1, seen)
  }

  /** Waits for the thread. Whenever hurry comes, and whatever the thread does, the
      wait is over before budget + forced + 2 * SYNC_TIMEOUT + 2 * POLL. */
  method DrainWith(d: Drain) returns (e: Ended)
    ensures e == WaitFrom(d, 0, None) && Time(e.poll) < Limit(d)
    ensures e.joined ==> d.finished(e.poll)
    ensures forall k :: 0 <= k < e.poll ==> !d.finished(k)
    ensures !e.joined && (forall k :: 0 <= k <= e.poll ==> !d.hurry(k)) ==> Time(e.poll) >= HardStop(d)
  {
    var poll := 0;
    var forcedAt: Option<nat> := None;
    while true
      invariant Waiting(d, poll, forcedAt) && WaitFrom(d, poll, forcedAt) == WaitFrom(d, 0, None)
      invariant forall k :: 0 <= k < poll ==> !d.finished(k)
      invariant forcedAt.Some? ==> exists k :: 0 <= k < poll && d.hurry(k)
      decreases Limit(d) - Time(poll)
    {
      if d.finished(poll) {
        return Ended(poll, true);
      }
      if d.hurry(poll) && forcedAt.None? {
        forcedAt := Some(Time(poll));
      }
      if Time(poll) >= GiveUp(d, forcedAt) {
        return Ended(poll, false);
      }
      poll := poll + 1;
    }
  }

  /** The first poll at or after an instant. */
  function FirstPoll(at: nat): (k: nat)
    ensures Time(k) >= at && (k > 0 ==> Time(k - 1) < at)
  {
    (at + POLL - 1) / POLL
  }

  lemma FirstPollIsMonotone(a: nat, b: nat)
    requires a <= b
    ensures FirstPoll(a) <= FirstPoll(b)
  {
  }

  /** The poll at which hurry is first seen, if it ever is. */
  ghost predicate FirstHurry(d: Drain, h: Option<nat>) {
    if h.Some? then d.hurry(h.value) && forall k :: 0 <= k < h.value ==> !d.hurry(k) else forall k: nat :: !d.hurry(k)
  }

  /** The first poll in a range at which the thread has finished, or the last of the range. */
  function FirstWithin(finished: nat -> bool, from: nat, last: nat): (k: nat)
    requires from <= last
    ensures from <= k <= last && (k < last ==> finished(k))
    ensures forall j :: from <= j < k ==> !finished(j)
    decreases last - from
  {
    if from == last || finished(from) then from else FirstWithin(finished, from + 1, last)
  }

  /** The poll at which the wait gives up: the first one past the full budget, or past
      the forced budget of a hurry seen by then. */
  function LastPoll(d: Drain, h: Option<nat>): nat {
    if h.Some? && h.value <= FirstPoll(HardStop(d)) then FirstPoll(Time(h.value) + d.forced + SYNC_TIMEOUT)
    else FirstPoll(HardStop(d))
  }

  function EndWithin(d: Drain, from: nat, last: nat): Ended
    requires from <= last
  {
    var k := FirstWithin(d.finished, from, last);
    Ended(k, d.finished(k))
  }

  lemma {:induction false} ForcedEnd(d: Drain, poll: nat, at: nat)
    requires Waiting(d, poll, Some(at)) && poll <= FirstPoll(at + d.forced + SYNC_TIMEOUT)
    ensures WaitFrom(d, poll, Some(at)) == EndWithin(d, poll, FirstPoll(at + d.forced + SYNC_TIMEOUT))
    decreases Limit(d) - Time(poll)
  {
    if !d.finished(poll) && Time(poll) < GiveUp(d, Some(at)) {
      ForcedEnd(d, poll + 1, at);
    }
  }

  lemma {:induction false} CalmEnd(d: Drain, poll: nat, h: Option<nat>)
    requires Waiting(d, poll, None) && poll <= FirstPoll(HardStop(d)) && FirstHurry(d, h)
    requires h.Some? ==> poll <= h.value
    ensures poll <= LastPoll(d, h) && WaitFrom(d, poll, None) == EndWithin(d, poll, LastPoll(d, h))
    decreases Limit(d) - Time(poll)
  {
    if !d.finished(poll) {
      if h == Some(poll) {
        ForcedEnd(d, poll + 1, Time(poll));
      } else if Time(poll) < HardStop(d) {
        CalmEnd(d, poll + 1, h);
      }
    }
  }

  /** When every wait ends: with the first poll that finds the thread finished, and at
      the latest with the one at which it gives up. */
  lemma WaitEnds(d: Drain, h: Option<nat>)
    requires FirstHurry(d, h)
    ensures WaitFrom(d, 0, None) == EndWithin(d, 0, LastPoll(d, h))
  {
    CalmEnd(d, 0, h);
  }

  /** The same thread with and without a hurry. */
  ghost predicate SameThread(d: Drain, calm: Drain) {
    && calm.budget == d.budget && calm.forced == d.forced && calm.finished == d.finished
    && FirstHurry(calm, None)
  }

  /** Whatever the thread does, hurrying makes the wait longer exactly when the hurry is
      seen before the full budget has run out, its own deadline falls on a later poll,
      and the thread has not finished by the poll the full budget allows. */
  lemma HurryLengthensExactly(d: Drain, calm: Drain, h: nat)
    requires SameThread(d, calm) && FirstHurry(d, Some(h))
    ensures WaitFrom(d, 0, None).poll > WaitFrom(calm, 0, None).poll
            <==> && h <= FirstPoll(HardStop(d)) < FirstPoll(Time(h) + d.forced + SYNC_TIMEOUT)
                 && forall k :: 0 <= k <= FirstPoll(HardStop(d)) ==> !d.finished(k)
  {
    WaitEnds(d, Some(h));
    WaitEnds(calm, None);
    LaterLast(d.finished, LastPoll(d, Some(h)), FirstPoll(HardStop(d)));
  }

  lemma LaterLast(finished: nat -> bool, a: nat, b: nat)
    ensures FirstWithin(finished, 0, a) > FirstWithin(finished, 0, b)
            <==> a > b && forall k :: 0 <= k <= b ==> !finished(k)
  {
    hide FirstWithin;
    var x, y := FirstWithin(finished, 0, a), FirstWithin(finished, 0, b);
    if x > y {
      assert !finished(y) && y == b;
    }
  }

  /** In particular a hurry first seen no later than budget - forced after the start
      never makes the wait longer. */
  lemma EarlyHurryNeverLengthens(d: Drain, calm: Drain, h: nat)
    requires SameThread(d, calm) && FirstHurry(d, Some(h)) && Time(h) + d.forced <= d.budget
    ensures WaitFrom(d, 0, None).poll <= WaitFrom(calm, 0, None).poll
  {
    HurryLengthensExactly(d, calm, h);
    FirstPollIsMonotone(Time(h) + d.forced + SYNC_TIMEOUT, HardStop(d));
  }

  /** A late hurry does lengthen it: with the configured budgets, one that is first
      seen at the last poll of the full budget buys a stuck thread another 75 seconds. */
  lemma LateHurryLengthens(d: Drain, calm: Drain)
    requires SameThread(d, calm) && d.budget == PERSIST_BUDGET && d.forced == PERSIST_FORCED_BUDGET
    requires FirstHurry(d, Some(1800)) && forall k: nat :: !d.finished(k)
    ensures Time(WaitFrom(calm, 0, None).poll) == 180_000 && Time(WaitFrom(d, 0, None).poll) == 255_000
  {
    WaitEnds(d, Some(1800));
    WaitEnds(calm, None);
    var last := FirstWithin(d.finished, 0, LastPoll(d, Some(1800)));
    var calmLast := FirstWithin(calm.finished, 0, LastPoll(calm, None));
    hide FirstWithin;
    assert !d.finished(last) && !d.finished(calmLast);
  }

  // --------------------------------------------------------------- the flush

  /** What a flush meets: when it starts, its budgets, when a hurry-up is noted, and how
      long each task's final invocation takes. */
  datatype Flush = Flush(start: nat, budget: nat, forced: nat, forcedAt: Option<nat>, takes: nat -> nat)

  predicate Aborted(f: Flush, now: nat) {
    now >= f.start + if f.forcedAt.Some? && now >= f.forcedAt.value then f.forced else f.budget
  }

  /** Once the abort test says yes it always will, from the start of the flush on. */
  ghost predicate AbortIsFinal(f: Flush) {
    forall s, t :: f.start <= s <= t && Aborted(f, s) ==> Aborted(f, t)
  }

  /** The abort test is final exactly unless a hurry-up falls after the full deadline
      and before a longer forced one. */
  lemma AbortFinality(f: Flush)
    ensures AbortIsFinal(f) <==> !(f.forcedAt.Some? && f.start + f.budget < f.forcedAt.value < f.start + f.forced)
  {
    if f.forcedAt.Some? && f.start + f.budget < f.forcedAt.value < f.start + f.forced {
      assert Aborted(f, f.start + f.budget) && !Aborted(f, f.forcedAt.value);
    }
  }

  /** The tasks that have a final invocation, in declaration order. */
  function Finishers(finish: seq<bool>, n: nat): (r: seq<nat>)
    requires n <= |finish|
    ensures forall i :: 0 <= i < |r| ==> r[i] < n && finish[r[i]]
    ensures forall i, j :: 0 <= i < j < |r| ==> r[i] < r[j]
  {
    if n == 0 then []
    else Finishers(finish, n - 1) + if finish[n - 1] then [n - 1] else []
  }

  /** One final invocation: which task, and when it began. */
  datatype Final = Final(task: nat, at: nat)

  function Tasks(finals: seq<Final>): seq<nat> {
    seq(|finals|, i requires 0 <= i < |finals| => finals[i].task)
  }

  /** When the task's turn comes: when the last invocation before it has ended, or the
      flush has begun. */
  function Turn(f: Flush, finals: seq<Final>, task: nat): nat {
    if finals == [] then f.start
    else
      var last := finals[|finals| - 1];
      if last.task < task then last.at + f.takes(last.task) else Turn(f, finals[..|finals| - 1], task)
  }

  lemma {:induction false} TurnsStay(f: Flush, finals: seq<Final>, more: Final, task: nat)
    requires task <= more.task
    ensures Turn(f, finals + [more], task) == Turn(f, finals, task)
  {
    assert (finals + [more])[..|finals|] == finals;
  }

  lemma TurnAfterAll(f: Flush, finals: seq<Final>, task: nat)
    requires forall k :: 0 <= k < |finals| ==> finals[k].task < task
    ensures Turn(f, finals, task) == EndOf(f, finals)
  {
  }

  /** When the last invocation has ended. */
  function EndOf(f: Flush, finals: seq<Final>): nat {
    if finals == [] then f.start
    else
      var last := finals[|finals| - 1];
      last.at + f.takes(last.task)
  }

  /** The finishers among the first n tasks are invoked exactly when their turn comes
      before the flush is aborted, in task order, each when its turn comes. */
  ghost predicate FlushedTo(finish: seq<bool>, f: Flush, finals: seq<Final>, n: nat)
    requires n <= |finish|
  {
    && (forall k :: 0 <= k < |finals| ==> finals[k].task < n && finals[k].at == Turn(f, finals, finals[k].task))
    && (forall j, k :: 0 <= j < k < |finals| ==> finals[j].task < finals[k].task)
    && forall i :: 0 <= i < n ==> (i in Tasks(finals) <==> finish[i] && !Aborted(f, Turn(f, finals, i)))
  }

  lemma SkipsOne(finish: seq<bool>, f: Flush, finals: seq<Final>, i: nat)
    requires i < |finish| && FlushedTo(finish, f, finals, i) && (!finish[i] || Aborted(f, EndOf(f, finals)))
    ensures FlushedTo(finish, f, finals, i + 1)
  {
    TurnAfterAll(f, finals, i);
    hide Turn, Aborted, EndOf;
    assert i !in Tasks(finals);
  }

  lemma FlushesOne(finish: seq<bool>, f: Flush, finals: seq<Final>, i: nat)
    requires i < |finish| && FlushedTo(finish, f, finals, i) && finish[i] && !Aborted(f, EndOf(f, finals))
    ensures FlushedTo(finish, f, finals + [Final(i, EndOf(f, finals))], i + 1)
  {
    TurnAfterAll(f, finals, i);
    var more := Final(i, EndOf(f, finals));
    forall task: nat | task <= i ensures Turn(f, finals + [more], task) == Turn(f, finals, task) {
      TurnsStay(f, finals, more, task);
    }
    TasksGrow(finals, more);
    hide Turn, Aborted, EndOf, Tasks;
  }

  lemma TasksGrow(finals: seq<Final>, more: Final)
    ensures Tasks(finals + [more]) == Tasks(finals) + [more.task]
  {
  }

  /** The budget left when the flush begins. */
  function OpeningBudget(f: Flush): nat {
    if f.forcedAt.Some? && f.forcedAt.value <= f.start then f.forced else f.budget
  }

  /** Among the first n finishers: a prefix is invoked when aborting is final, and what is
      missing is missing because the budget ran out; the first is, given a budget. */
  ghost predicate InvokedTo(finish: seq<bool>, f: Flush, finals: seq<Final>, n: nat)
    requires n <= |finish|
  {
    var all := Finishers(finish, n);
    && (AbortIsFinal(f) ==> Tasks(finals) <= all && (|finals| < |all| ==> Aborted(f, EndOf(f, finals))))
    && (OpeningBudget(f) > 0 && all != [] ==> finals != [] && finals[0] == Final(all[0], f.start))
    && f.start <= EndOf(f, finals) && |finals| <= |all|
  }

  lemma InvokesOne(finish: seq<bool>, f: Flush, finals: seq<Final>, i: nat)
    requires i < |finish| && InvokedTo(finish, f, finals, i)
    requires AbortIsFinal(f) && Tasks(finals) != Finishers(finish, i) ==> Aborted(f, EndOf(f, finals))
    ensures !finish[i] || Aborted(f, EndOf(f, finals)) ==> InvokedTo(finish, f, finals, i + 1)
    ensures finish[i] && !Aborted(f, EndOf(f, finals)) ==>
              InvokedTo(finish, f, finals + [Final(i, EndOf(f, finals))], i + 1)
  {
    TasksGrow(finals, Final(i, EndOf(f, finals)));
    hide AbortIsFinal;
  }

  /** One invocation follows the other without a gap. */
  lemma FollowOn(finish: seq<bool>, f: Flush, finals: seq<Final>, n: nat)
    requires n <= |finish| && FlushedTo(finish, f, finals, n)
    ensures finals != [] ==> finals[0].at == f.start
    ensures forall i :: 0 <= i < |finals| - 1 ==> finals[i + 1].at == finals[i].at + f.takes(finals[i].task)
  {
    forall i | 0 <= i < |finals| ensures Turn(f, finals, finals[i].task) == EndOf(f, finals[..i]) {
      TurnOfMember(f, finals, i);
    }
    hide Turn, Aborted;
  }

  lemma {:induction false} TurnOfMember(f: Flush, finals: seq<Final>, i: nat)
    requires i < |finals| && forall j, k :: 0 <= j < k < |finals| ==> finals[j].task < finals[k].task
    ensures Turn(f, finals, finals[i].task) == EndOf(f, finals[..i])
  {
    var front := finals[..|finals| - 1];
    if i < |finals| - 1 {
      TurnOfMember(f, front, i);
      assert front[..i] == finals[..i];
    } else {
      TurnAfterAll(f, front, finals[i].task);
    }
  }

  /** The final invocations: the first turn comes when the flush begins, every further
      one when the invocation before it has ended, and a finisher is invoked, at its
      turn, exactly unless the flush is aborted by then. When aborting is final they are
      a prefix of those there are, and what is missing is missing because the budget ran
      out; a budget to begin with is enough for the first. */
  method FlushTasks(finish: seq<bool>, f: Flush) returns (finals: seq<Final>, end: nat)
    ensures FlushedTo(finish, f, finals, |finish|) && end == EndOf(f, finals)
    ensures finals != [] ==> finals[0].at == f.start
    ensures forall i :: 0 <= i < |finals| - 1 ==> finals[i + 1].at == finals[i].at + f.takes(finals[i].task)
    ensures AbortIsFinal(f) ==> Tasks(finals) <= Finishers(finish, |finish|)
    ensures |finals| < |Finishers(finish, |finish|)| && AbortIsFinal(f) ==> Aborted(f, end)
    ensures OpeningBudget(f) > 0 && Finishers(finish, |finish|) != [] ==>
              finals != [] && finals[0] == Final(Finishers(finish, |finish|)[0], f.start)
  {
    NothingFlushed(finish, f);
    hide FlushedTo, InvokedTo, Aborted, AbortIsFinal, Finishers, OpeningBudget, Tasks;
    finals, end := [], f.start;
    var i := 0;
    while i < |finish|
      invariant 0 <= i <= |finish| && end == EndOf(f, finals)
      invariant FlushedTo(finish, f, finals, i) && InvokedTo(finish, f, finals, i)
    {
      FlushStep(finish, f, finals, i);
      if finish[i] {
        if !Aborted(f, end) {
          finals := finals + [Final(i, end)];
          end := end + f.takes(i);
        }
      }
      i := i + 1;
    }
    FollowOn(finish, f, finals, |finish|);
    InvokedIsPrefix(finish, f, finals);
  }

  lemma NothingFlushed(finish: seq<bool>, f: Flush)
    ensures FlushedTo(finish, f, [], 0) && InvokedTo(finish, f, [], 0)
  {
  }

  lemma FlushStep(finish: seq<bool>, f: Flush, finals: seq<Final>, i: nat)
    requires i < |finish| && FlushedTo(finish, f, finals, i) && InvokedTo(finish, f, finals, i)
    ensures var invoked := finish[i] && !Aborted(f, EndOf(f, finals));
            var next := if invoked then finals + [Final(i, EndOf(f, finals))] else finals;
            FlushedTo(finish, f, next, i + 1) && InvokedTo(finish, f, next, i + 1)
  {
    InvokedMeans(finish, f, finals, i);
    InvokesOne(finish, f, finals, i);
    hide FlushedTo, InvokedTo, Aborted, Tasks, Finishers, EndOf;
    if finish[i] && !Aborted(f, EndOf(f, finals)) {
      FlushesOne(finish, f, finals, i);
    } else {
      SkipsOne(finish, f, finals, i);
    }
  }

  lemma InvokedIsPrefix(finish: seq<bool>, f: Flush, finals: seq<Final>)
    requires InvokedTo(finish, f, finals, |finish|)
    ensures AbortIsFinal(f) ==> Tasks(finals) <= Finishers(finish, |finish|)
    ensures |finals| < |Finishers(finish, |finish|)| && AbortIsFinal(f) ==> Aborted(f, EndOf(f, finals))
    ensures OpeningBudget(f) > 0 && Finishers(finish, |finish|) != [] ==>
              finals != [] && finals[0] == Final(Finishers(finish, |finish|)[0], f.start)
  {
    hide AbortIsFinal, Aborted, Finishers, OpeningBudget, EndOf;
  }

  lemma InvokedMeans(finish: seq<bool>, f: Flush, finals: seq<Final>, n: nat)
    requires n <= |finish| && InvokedTo(finish, f, finals, n)
    ensures AbortIsFinal(f) && Tasks(finals) != Finishers(finish, n) ==> Aborted(f, EndOf(f, finals))
  {
    hide AbortIsFinal, Finishers;
  }

  // ----------------------------------------------------------- the scheduler

  datatype Task = Task(firstDelay: nat, cadence: Option<nat>, finish: bool)

  datatype Wait = Drained(budget: nat, forced: nat, forcedAt: Option<nat>) | Timeout | Closed

  /** One time a task came due: the instant it was re-armed, unless a stop had been seen
      the instant its run started, and the instant its turn was over. */
  datatype Firing = Firing(task: nat, armed: nat, started: Option<nat>, ended: nat)

  /** An instant plus a delay, unless it falls beyond what the clock can represent. */
  function Later(horizon: nat, now: nat, delay: nat): Option<nat> {
    if now + delay <= horizon then Some(now + delay) else None
  }

  function Rearmed(horizon: nat, now: nat, cadence: Option<nat>): Option<nat> {
    if cadence.None? then None else Later(horizon, now, cadence.value)
  }

  /** Re-arming instants of one task are at least its cadence apart. */
  ghost predicate Spaced(tasks: seq<Task>, log: seq<Firing>) {
    && (forall j :: 0 <= j < |log| ==> log[j].task < |tasks| && tasks[log[j].task].cadence.Some?)
    && forall j, k :: 0 <= j < k < |log| && log[j].task == log[k].task ==>
         log[j].armed + tasks[log[j].task].cadence.value <= log[k].armed
  }

  /** Nothing runs at the same time: a run starts before the next re-arming. */
  ghost predicate Sequential(log: seq<Firing>) {
    && (forall j :: 0 <= j < |log| && log[j].started.Some? ==> log[j].armed <= log[j].started.value)
    && (forall j, k :: 0 <= j < k < |log| ==>
          log[j].armed <= log[k].armed && (log[j].started.Some? ==> log[j].started.value <= log[k].armed))
  }

  predicate Stopping(stopAt: Option<nat>, now: nat) {
    stopAt.Some? && now >= stopAt.value
  }

  /** At most the run whose stop check came just before the request starts after it. */
  ghost predicate StopsAfterOne(stopAt: Option<nat>, log: seq<Firing>) {
    forall j, k :: 0 <= j < k < |log| && log[j].started.Some? && Stopping(stopAt, log[j].started.value) ==>
      log[k].started.None?
  }

  /** What is known of the log at some instant: every re-arming and start so far came
      earlier, and a task is not due again before its cadence has passed. */
  ghost predicate Kept(tasks: seq<Task>, stopAt: Option<nat>, log: seq<Firing>, due: seq<Option<nat>>, now: nat) {
    && |due| == |tasks|
    && Spaced(tasks, log) && Sequential(log) && StopsAfterOne(stopAt, log)
    && (forall j :: 0 <= j < |log| ==> log[j].armed <= now && (log[j].started.Some? ==> log[j].started.value <= now))
    && (forall i :: 0 <= i < |due| && due[i].Some? ==> tasks[i].cadence.Some?)
    && (forall j :: 0 <= j < |log| && due[log[j].task].Some? ==>
          log[j].armed + tasks[log[j].task].cadence.value <= due[log[j].task].value)
  }

  lemma LaterKeeps(tasks: seq<Task>, stopAt: Option<nat>, log: seq<Firing>, due: seq<Option<nat>>, now: nat, later: nat)
    requires Kept(tasks, stopAt, log, due, now) && now <= later
    ensures Kept(tasks, stopAt, log, due, later)
  {
  }

  /** A due task fires. */
  lemma FiringKeeps(tasks: seq<Task>, stopAt: Option<nat>, log: seq<Firing>, due: seq<Option<nat>>, horizon: nat,
                    i: nat, armed: nat, check: nat, start: nat, end: nat)
    requires Kept(tasks, stopAt, log, due, armed) && i < |tasks| && due[i].Some? && due[i].value <= armed
    requires armed <= check <= start <= end
    ensures var firing := Firing(i, armed, if Stopping(stopAt, check) then None else Some(start), end);
            Kept(tasks, stopAt, log + [firing], due[i := Rearmed(horizon, armed, tasks[i].cadence)], end)
  {
    var firing := Firing(i, armed, if Stopping(stopAt, check) then None else Some(start), end);
    var log' := log + [firing];
    forall j, k | 0 <= j < k < |log'| && log'[j].started.Some? && Stopping(stopAt, log'[j].started.value)
      ensures log'[k].started.None?
    {
      if k == |log| {
        assert log[j].started.value <= armed;
      }
    }
  }

  /** The earliest due time. */
  method Earliest(due: seq<Option<nat>>) returns (next: Option<nat>)
    ensures forall i :: 0 <= i < |due| && due[i].Some? ==> next.Some? && next.value <= due[i].value
    ensures next.Some? ==> exists i :: 0 <= i < |due| && due[i] == next
  {
    next := None;
    var i := 0;
    while i < |due|
      invariant 0 <= i <= |due|
      invariant forall k :: 0 <= k < i && due[k].Some? ==> next.Some? && next.value <= due[k].value
      invariant next.Some? ==> exists k :: 0 <= k < i && due[k] == next
    {
      if due[i].Some? && (next.None? || due[i].value < next.value) {
        next := due[i];
      }
      i := i + 1;
    }
  }

  /** The tasks due at an instant, in declaration order. */
  function DueTasks(due: seq<Option<nat>>, now: nat, n: nat): (r: seq<nat>)
    requires n <= |due|
    ensures forall i :: 0 <= i < n ==> (i in r <==> due[i].Some? && due[i].value <= now)
    ensures forall i :: i in r ==> i < n
  {
    if n == 0 then []
    else DueTasks(due, now, n - 1) + if due[n - 1].Some? && due[n - 1].value <= now then [n - 1] else []
  }

  function FiredTasks(fired: seq<Firing>): seq<nat> {
    seq(|fired|, j requires 0 <= j < |fired| => fired[j].task)
  }

  /** One pass of the scheduler: its clock readings from the given one on, what was due at
      its start, what fired, and the due times it leaves. */
  datatype Pass = Pass(now: nat, reading: nat, due: seq<Option<nat>>, fired: seq<Firing>, rearmed: seq<Option<nat>>)
  {
    /** When the j-th turn begins. */
    function Begin(j: nat): nat
      requires j <= |fired|
    {
      if j == 0 then now else fired[j - 1].ended
    }

    function End(): nat {
      Begin(|fired|)
    }

    function Readings(): nat {
      reading + 4 * |fired|
    }
  }

  /** What firing a due task amounts to, four clock readings long: it is re-armed, the
      stop request is tested, and unless there is one the task runs. */
  ghost predicate Fires(stopAt: Option<nat>, drift: nat -> nat, reading: nat, f: Firing, now: nat) {
    && f.armed == now + drift(reading)
    && var check := f.armed + drift(reading + 1);
    && var start := check + drift(reading + 2);
    && f.started == (if Stopping(stopAt, check) then None else Some(start))
    && f.ended == start + drift(reading + 3)
  }

  /** One due task: re-armed, then run unless a stop has been requested. `drift(n)` is
      how far the clock moves before its n-th reading. */
  method FireOne(tasks: seq<Task>, stopAt: Option<nat>, horizon: nat, drift: nat -> nat, reading: nat,
                 ghost log: seq<Firing>, due0: seq<Option<nat>>, i: nat, now: nat)
    returns (f: Firing, due: seq<Option<nat>>)
    requires Kept(tasks, stopAt, log, due0, now) && |due0| == |tasks| && i < |tasks| && due0[i].Some?
    requires due0[i].value <= now
    ensures f.task == i && Fires(stopAt, drift, reading, f, now)
    ensures due == due0[i := Rearmed(horizon, f.armed, tasks[i].cadence)]
    ensures Kept(tasks, stopAt, log + [f], due, f.ended)
  {
    hide Kept;
    var armed := now + drift(reading);
    var check := armed + drift(reading + 1);
    var start := check + drift(reading + 2);
    var end := start + drift(reading + 3);
    LaterKeeps(tasks, stopAt, log, due0, now, armed);
    FiringKeeps(tasks, stopAt, log, due0, horizon, i, armed, check, start, end);
    due := due0[i := Rearmed(horizon, armed, tasks[i].cadence)];
    f := Firing(i, armed, None, end);
    if !Stopping(stopAt, check) {
      f := Firing(i, armed, Some(start), end);
    }
  }

  /** A pass that has looked at the first n tasks. */
  ghost predicate FaithfulTo(tasks: seq<Task>, stopAt: Option<nat>, horizon: nat, drift: nat -> nat, p: Pass, n: nat)
    requires n <= |tasks|
  {
    FiresDue(tasks, horizon, p, n) && Timed(stopAt, drift, p)
  }

  /** The due ones among the first n tasks fire, once each and in order, and are re-armed
      from the instant they fired. */
  ghost predicate FiresDue(tasks: seq<Task>, horizon: nat, p: Pass, n: nat)
    requires n <= |tasks|
  {
    && |p.due| == |p.rearmed| == |tasks|
    && FiredTasks(p.fired) == DueTasks(p.due, p.now, n)
    && (forall i :: 0 <= i < |tasks| && i !in FiredTasks(p.fired) ==> p.rearmed[i] == p.due[i])
    && (forall j :: 0 <= j < |p.fired| ==>
          var f := p.fired[j];
          f.task < n && p.rearmed[f.task] == Rearmed(horizon, f.armed, tasks[f.task].cadence))
  }

  /** Each fires when the turn before it is over. */
  ghost predicate Timed(stopAt: Option<nat>, drift: nat -> nat, p: Pass) {
    forall j :: 0 <= j < |p.fired| ==> Fires(stopAt, drift, p.reading + 4 * j, p.fired[j], p.Begin(j))
  }

  /** Exactly the due tasks fire, in order and once each, each when the turn before it is
      over; each is re-armed from the instant it fired, and runs unless a stop had been
      requested by then. */
  ghost predicate Faithful(tasks: seq<Task>, stopAt: Option<nat>, horizon: nat, drift: nat -> nat, p: Pass) {
    FaithfulTo(tasks, stopAt, horizon, drift, p, |tasks|)
  }

  lemma FiredOne(fired: seq<Firing>, f: Firing)
    ensures FiredTasks(fired + [f]) == FiredTasks(fired) + [f.task]
  {
  }

  lemma TimedGrows(stopAt: Option<nat>, drift: nat -> nat, p: Pass, f: Firing, rearmed: seq<Option<nat>>)
    requires Timed(stopAt, drift, p) && Fires(stopAt, drift, p.Readings(), f, p.End())
    ensures Timed(stopAt, drift, p.(fired := p.fired + [f], rearmed := rearmed))
  {
    hide Fires;
    var p' := p.(fired := p.fired + [f], rearmed := rearmed);
    forall j | 0 <= j < |p'.fired| ensures Fires(stopAt, drift, p'.reading + 4 * j, p'.fired[j], p'.Begin(j)) {
      assert p'.Begin(j) == p.Begin(j);
      if j < |p.fired| {
        assert p'.fired[j] == p.fired[j];
      }
    }
  }

  lemma DueGrows(tasks: seq<Task>, horizon: nat, p: Pass, i: nat, f: Firing)
    requires i < |tasks| && FiresDue(tasks, horizon, p, i) && p.rearmed[i].Some?
    requires p.rearmed[i].value <= p.now && f.task == i
    ensures var rearmed := p.rearmed[i := Rearmed(horizon, f.armed, tasks[i].cadence)];
            FiresDue(tasks, horizon, p.(fired := p.fired + [f], rearmed := rearmed), i + 1)
  {
    FiredOne(p.fired, f);
    assert i !in FiredTasks(p.fired);
    hide FiredTasks, Rearmed;
  }

  lemma FiringIsFaithful(tasks: seq<Task>, stopAt: Option<nat>, horizon: nat, drift: nat -> nat, p: Pass, i: nat,
                         f: Firing)
    requires i < |tasks| && FaithfulTo(tasks, stopAt, horizon, drift, p, i) && |p.rearmed| == |tasks|
    requires p.rearmed[i].Some? && p.rearmed[i].value <= p.now && f.task == i
    requires Fires(stopAt, drift, p.Readings(), f, p.End())
    ensures var rearmed := p.rearmed[i := Rearmed(horizon, f.armed, tasks[i].cadence)];
            FaithfulTo(tasks, stopAt, horizon, drift, p.(fired := p.fired + [f], rearmed := rearmed), i + 1)
  {
    DueGrows(tasks, horizon, p, i, f);
    TimedGrows(stopAt, drift, p, f, p.rearmed[i := Rearmed(horizon, f.armed, tasks[i].cadence)]);
    hide FiresDue, Timed, Fires;
  }

  lemma IdleIsFaithful(tasks: seq<Task>, stopAt: Option<nat>, horizon: nat, drift: nat -> nat, p: Pass, i: nat)
    requires i < |tasks| && FaithfulTo(tasks, stopAt, horizon, drift, p, i) && |p.rearmed| == |tasks|
    requires !(p.rearmed[i].Some? && p.rearmed[i].value <= p.now)
    ensures FaithfulTo(tasks, stopAt, horizon, drift, p, i + 1)
  {
    assert i !in FiredTasks(p.fired);
    hide Timed;
  }

  /** One pass over the tasks. */
  method RunDue(tasks: seq<Task>, stopAt: Option<nat>, horizon: nat, drift: nat -> nat, reading: nat,
                ghost log: seq<Firing>, due0: seq<Option<nat>>, now: nat)
    returns (fired: seq<Firing>, due: seq<Option<nat>>, time: nat, reading': nat)
    requires Kept(tasks, stopAt, log, due0, now)
    ensures Kept(tasks, stopAt, log + fired, due, time)
    ensures var p := Pass(now, reading, due0, fired, due);
            Faithful(tasks, stopAt, horizon, drift, p) && time == p.End() && reading' == p.Readings()
  {
    hide Kept, FaithfulTo, Fires, Rearmed;
    NothingYet(tasks, stopAt, horizon, drift, reading, log, due0, now);
    fired, due, time, reading' := [], due0, now, reading;
    var i := 0;
    while i < |tasks|
      invariant 0 <= i <= |tasks| == |due|
      invariant Kept(tasks, stopAt, log + fired, due, time)
      invariant var p := Pass(now, reading, due0, fired, due);
                FaithfulTo(tasks, stopAt, horizon, drift, p, i) && time == p.End() && reading' == p.Readings()
      invariant now <= time
    {
      ghost var p := Pass(now, reading, due0, fired, due);
      if due[i].Some? && now >= due[i].value {
        var f;
        f, due := FireOne(tasks, stopAt, horizon, drift, reading', log + fired, due, i, time);
        FiringIsFaithful(tasks, stopAt, horizon, drift, p, i, f);
        FiringTakesTime(stopAt, drift, reading', f, time);
        Appended(log, fired, f);
        fired, time, reading' := fired + [f], f.ended, reading' + 4;
      } else {
        IdleIsFaithful(tasks, stopAt, horizon, drift, p, i);
      }
      i := i + 1;
    }
  }

  lemma FiringTakesTime(stopAt: Option<nat>, drift: nat -> nat, reading: nat, f: Firing, now: nat)
    requires Fires(stopAt, drift, reading, f, now)
    ensures now <= f.ended
  {
  }

  lemma NothingYet(tasks: seq<Task>, stopAt: Option<nat>, horizon: nat, drift: nat -> nat, reading: nat,
                   log: seq<Firing>, due: seq<Option<nat>>, now: nat)
    requires Kept(tasks, stopAt, log, due, now)
    ensures |due| == |tasks| && Kept(tasks, stopAt, log + [], due, now)
    ensures FaithfulTo(tasks, stopAt, horizon, drift, Pass(now, reading, due, [], due), 0)
  {
    assert log + [] == log;
  }

  lemma Appended(log: seq<Firing>, fired: seq<Firing>, f: Firing)
    ensures log + (fired + [f]) == log + fired + [f]
  {
  }

  function Log(passes: seq<Pass>): seq<Firing> {
    if passes == [] then [] else Log(passes[..|passes| - 1]) + passes[|passes| - 1].fired
  }

  /** A sleep ends at the earliest due time, or at once when that has passed; `drift` is
      the clock's own movement. */
  ghost predicate Slept(drift: nat -> nat, before: Pass, after: Pass) {
    && after.due == before.rearmed && after.reading == before.Readings() + 1
    && exists at: nat :: WakesAt(before, at) && after.now == at + drift(before.Readings())
  }

  ghost predicate WakesAt(before: Pass, at: nat) {
    && before.End() <= at
    && (at > before.End() ==> (exists i :: 0 <= i < |before.rearmed| && before.rearmed[i] == Some(at))
                              && forall i :: 0 <= i < |before.rearmed| && before.rearmed[i].Some? ==>
                                   at <= before.rearmed[i].value)
    && ((exists i :: 0 <= i < |before.rearmed| && before.rearmed[i].Some?) ==>
          exists i :: 0 <= i < |before.rearmed| && before.rearmed[i].Some? && before.rearmed[i].value <= at)
  }

  ghost predicate Linked(drift: nat -> nat, passes: seq<Pass>) {
    forall k {:trigger passes[k]} :: 0 < k < |passes| ==> Slept(drift, passes[k - 1], passes[k])
  }

  lemma LinkedGrows(drift: nat -> nat, passes: seq<Pass>, p: Pass)
    requires Linked(drift, passes) && (passes != [] ==> Slept(drift, passes[|passes| - 1], p))
    ensures Linked(drift, passes + [p])
  {
    hide Slept;
  }

  lemma LogGrows(passes: seq<Pass>, p: Pass)
    ensures Log(passes + [p]) == Log(passes) + p.fired
  {
    assert (passes + [p])[..|passes|] == passes;
  }

  /** When each task is due first. */
  function FirstDue(tasks: seq<Task>, horizon: nat, now: nat): (due: seq<Option<nat>>)
    ensures |due| == |tasks|
    ensures forall i :: 0 <= i < |tasks| ==>
              due[i] == if tasks[i].cadence.Some? then Later(horizon, now, tasks[i].firstDelay) else None
  {
    seq(|tasks|, i requires 0 <= i < |tasks| =>
      if tasks[i].cadence.Some? then Later(horizon, now, tasks[i].firstDelay) else None)
  }

  /** The loop ends with this wait: every one before it was a timeout. */
  predicate LoopEndsAt(waits: seq<Wait>, r: nat) {
    r < |waits| && !waits[r].Timeout? && forall q :: 0 <= q < r ==> waits[q].Timeout?
  }

  function Finishing(tasks: seq<Task>): (finish: seq<bool>)
    ensures |finish| == |tasks| && forall i :: 0 <= i < |tasks| ==> finish[i] == tasks[i].finish
  {
    seq(|tasks|, i requires 0 <= i < |tasks| => tasks[i].finish)
  }

  /** The flush that a drain command starts: its budget counts from that instant, and
      given one the first finisher is invoked at once. */
  ghost predicate Flushed(tasks: seq<Task>, f: Flush, finals: seq<Final>) {
    && FlushedTo(Finishing(tasks), f, finals, |tasks|)
    && var all := Finishers(Finishing(tasks), |tasks|);
       OpeningBudget(f) > 0 && all != [] ==> finals != [] && finals[0] == Final(all[0], f.start)
  }

  /** A history of passes: it starts with the clock's first reading, each pass fires
      exactly the due tasks, and the sleeps between end when the next is due. */
  ghost predicate Chain(tasks: seq<Task>, stopAt: Option<nat>, horizon: nat, drift: nat -> nat, passes: seq<Pass>) {
    && (passes != [] ==> passes[0].now == drift(0) && passes[0].reading == 1
                         && passes[0].due == FirstDue(tasks, horizon, drift(0)))
    && Linked(drift, passes)
    && forall p :: p in passes ==> Faithful(tasks, stopAt, horizon, drift, p)
  }

  /** What the next pass has to be. */
  ghost predicate Follows(tasks: seq<Task>, horizon: nat, drift: nat -> nat, passes: seq<Pass>, next: Pass) {
    if passes == []
    then next.now == drift(0) && next.reading == 1 && next.due == FirstDue(tasks, horizon, drift(0))
    else Slept(drift, passes[|passes| - 1], next)
  }

  lemma FollowsAnyway(tasks: seq<Task>, horizon: nat, drift: nat -> nat, passes: seq<Pass>, p: Pass, q: Pass)
    requires Follows(tasks, horizon, drift, passes, p) && q.now == p.now && q.reading == p.reading && q.due == p.due
    ensures Follows(tasks, horizon, drift, passes, q)
  {
    hide WakesAt;
  }

  lemma ChainGrows(tasks: seq<Task>, stopAt: Option<nat>, horizon: nat, drift: nat -> nat, passes: seq<Pass>, p: Pass)
    requires Chain(tasks, stopAt, horizon, drift, passes) && Follows(tasks, horizon, drift, passes, p)
    requires Faithful(tasks, stopAt, horizon, drift, p)
    ensures Chain(tasks, stopAt, horizon, drift, passes + [p]) && Log(passes + [p]) == Log(passes) + p.fired
  {
    hide Faithful, Slept;
    LogGrows(passes, p);
    LinkedGrows(drift, passes, p);
  }

  /** The scheduler loop, up to its drain command. Each pass fires exactly the due tasks
      and sleeps until the next is due; so re-armings of a task keep its cadence, runs
      never overlap, at most one run starts after a stop request, and every run has
      started when the final flush begins, right after the pass the command came in. */
  method Schedule(tasks: seq<Task>, stopAt: Option<nat>, horizon: nat, drift: nat -> nat, waits: seq<Wait>,
                  takes: nat -> nat)
    returns (log: seq<Firing>, flushed: Option<nat>, finals: seq<Final>, ghost passes: seq<Pass>)
    requires waits != [] && !waits[|waits| - 1].Timeout?
    ensures Spaced(tasks, log) && Sequential(log) && StopsAfterOne(stopAt, log)
    ensures log == Log(passes) && passes != [] && Chain(tasks, stopAt, horizon, drift, passes)
    ensures LoopEndsAt(waits, |passes| - 1)
    ensures var last := waits[|passes| - 1];
            if last.Drained? then
              && flushed == Some(passes[|passes| - 1].End() + drift(passes[|passes| - 1].Readings()))
              && Flushed(tasks, Flush(flushed.value, last.budget, last.forced, last.forcedAt, takes), finals)
            else flushed.None? && finals == []
    ensures flushed.Some? ==> forall j :: 0 <= j < |log| ==>
              log[j].armed <= flushed.value && (log[j].started.Some? ==> log[j].started.value <= flushed.value)
  {
    hide Faithful, Follows, Chain, Flushed, FlushedTo, Log, Kept, Spaced, Sequential, StopsAfterOne, Finishers,
      OpeningBudget, AbortIsFinal, Aborted, EndOf;
    KeptAtStart(tasks, stopAt, horizon, drift, FirstDue(tasks, horizon, drift(0)));
    var time, reading := drift(0), 1;
    var due := FirstDue(tasks, horizon, time);
    log, flushed, finals, passes := [], None, [], [];
    var round := 0;
    while round < |waits|
      invariant 0 <= round <= |waits| && Kept(tasks, stopAt, log, due, time) && |passes| == round
      invariant log == Log(passes) && Chain(tasks, stopAt, horizon, drift, passes)
      invariant Follows(tasks, horizon, drift, passes, Pass(time, reading, due, [], due))
      invariant flushed.None? && finals == [] && forall q :: 0 <= q < round ==> waits[q].Timeout?
    {
      ghost var now, readings, before := time, reading, due;
      var fired;
      fired, due, time, reading := RunDue(tasks, stopAt, horizon, drift, reading, log, due, time);
      ghost var p := Pass(now, readings, before, fired, due);
      FollowsAnyway(tasks, horizon, drift, passes, Pass(now, readings, before, [], before), p);
      ChainGrows(tasks, stopAt, horizon, drift, passes, p);
      log, passes := log + fired, passes + [p];
      var next := Earliest(due);
      match waits[round] {
        case Drained(budget, forced, forcedAt) =>
          LaterKeeps(tasks, stopAt, log, due, time, time + drift(reading));
          time := time + drift(reading);
          var f := Flush(time, budget, forced, forcedAt, takes);
          var end;
          finals, end := FlushTasks(Finishing(tasks), f);
          FlushedMeans(tasks, f, finals);
          flushed := Some(time);
          KeptMeans(tasks, stopAt, log, due, time);
          return;
        case Timeout =>
          var woken := (if next.Some? && next.value > time then next.value else time) + drift(reading);
          LaterKeeps(tasks, stopAt, log, due, time, woken);
          Sleeps(tasks, horizon, drift, passes, p, next, woken);
          time, reading := woken, reading + 1;
        case Closed =>
          KeptMeans(tasks, stopAt, log, due, time);
          return;
      }
      round := round + 1;
    }
  }

  lemma FlushedMeans(tasks: seq<Task>, f: Flush, finals: seq<Final>)
    requires FlushedTo(Finishing(tasks), f, finals, |tasks|)
    requires OpeningBudget(f) > 0 && Finishers(Finishing(tasks), |tasks|) != [] ==>
               finals != [] && finals[0] == Final(Finishers(Finishing(tasks), |tasks|)[0], f.start)
    ensures Flushed(tasks, f, finals)
  {
    hide FlushedTo, OpeningBudget, Finishers;
  }

  lemma KeptAtStart(tasks: seq<Task>, stopAt: Option<nat>, horizon: nat, drift: nat -> nat, due: seq<Option<nat>>)
    requires due == FirstDue(tasks, horizon, drift(0))
    ensures Kept(tasks, stopAt, [], due, drift(0)) && Log([]) == []
    ensures Chain(tasks, stopAt, horizon, drift, [])
    ensures Follows(tasks, horizon, drift, [], Pass(drift(0), 1, due, [], due))
  {
  }

  lemma KeptMeans(tasks: seq<Task>, stopAt: Option<nat>, log: seq<Firing>, due: seq<Option<nat>>, now: nat)
    requires Kept(tasks, stopAt, log, due, now)
    ensures Spaced(tasks, log) && Sequential(log) && StopsAfterOne(stopAt, log)
    ensures forall j :: 0 <= j < |log| ==> log[j].armed <= now && (log[j].started.Some? ==> log[j].started.value <= now)
  {
  }

  lemma Sleeps(tasks: seq<Task>, horizon: nat, drift: nat -> nat, passes: seq<Pass>, p: Pass, next: Option<nat>,
               woken: nat)
    requires passes != [] && p == passes[|passes| - 1]
    requires woken == (if next.Some? && next.value > p.End() then next.value else p.End()) + drift(p.Readings())
    requires next.Some? ==> exists i :: 0 <= i < |p.rearmed| && p.rearmed[i] == next
    requires forall i :: 0 <= i < |p.rearmed| && p.rearmed[i].Some? ==> next.Some? && next.value <= p.rearmed[i].value
    ensures Follows(tasks, horizon, drift, passes, Pass(woken, p.Readings() + 1, p.rearmed, [], p.rearmed))
  {
    assert WakesAt(p, if next.Some? && next.value > p.End() then next.value else p.End());
    hide WakesAt;
  }

  // ------------------------------------------------------------- the cadence

  /** A task's re-arming instants within a window. */
  function Within(log: seq<Firing>, task: nat, from: nat, to: nat): nat {
    if log == [] then 0
    else
      var f := log[|log| - 1];
      Within(log[..|log| - 1], task, from, to) + if f.task == task && from <= f.armed <= to then 1 else 0
  }

  lemma {:induction false} WithinIsSpread(tasks: seq<Task>, log: seq<Firing>, task: nat, from: nat, to: nat)
    requires Spaced(tasks, log) && task < |tasks| && tasks[task].cadence.Some? && from <= to
    ensures var n := Within(log, task, from, to);
            n > 0 ==> exists k :: 0 <= k < |log| && log[k].task == task && from <= log[k].armed <= to
                                  && log[k].armed >= from + (n - 1) * tasks[task].cadence.value
  {
    if log != [] {
      var last := log[|log| - 1];
      var rest := log[..|log| - 1];
      WithinIsSpread(tasks, rest, task, from, to);
      var n := Within(rest, task, from, to);
      if n > 0 {
        var k :| 0 <= k < |rest| && rest[k].task == task && from <= rest[k].armed <= to
                 && rest[k].armed >= from + (n - 1) * tasks[task].cadence.value;
        assert log[k] == rest[k];
        if last.task == task && from <= last.armed <= to {
          assert last.armed >= from + n * tasks[task].cadence.value by {
            OneMore(n, tasks[task].cadence.value);
          }
        }
      }
    }
  }

  lemma OneMore(n: nat, c: nat)
    requires n > 0
    ensures (n - 1) * c + c == n * c
  {
  }

  /** In any window of length T a task comes due at most T / cadence + 1 times. */
  lemma RunsPerWindow(tasks: seq<Task>, log: seq<Firing>, task: nat, from: nat, length: nat)
    requires Spaced(tasks, log) && task < |tasks| && tasks[task].cadence.Some? && tasks[task].cadence.value > 0
    ensures Within(log, task, from, from + length) <= length / tasks[task].cadence.value + 1
  {
    var n, c := Within(log, task, from, from + length), tasks[task].cadence.value;
    WithinIsSpread(tasks, log, task, from, from + length);
    if n > 0 {
      assert (n - 1) * c <= length;
      Divides(n - 1, c, length);
    }
  }

  lemma Divides(n: nat, c: nat, total: nat)
    requires c > 0 && n * c <= total
    ensures n <= total / c
  {
    var q := total / c;
    assert total < (q + 1) * c;
    Cancel(n, q + 1, c);
  }

  lemma Cancel(a: nat, b: nat, c: nat)
    requires a * c < b * c
    ensures a < b
  {
  }
}
