/** When the tasks of a scheduler history come due, fire and run. */
module Cadence {
  import opened Text
  import opened Maintenance

  /** The task fires in the pass. */
  predicate FiresIn(p: Pass, task: nat) {
    exists j :: 0 <= j < |p.fired| && p.fired[j].task == task
  }

  /** The due time a delay after an instant, if the clock can represent it. */
  predicate DueAfter(horizon: nat, at: nat, delay: nat, due: Option<nat>) {
    if at + delay <= horizon then due == Some(at + delay) else due == None
  }

  /** A task fires in a pass exactly when it is due by its start. */
  lemma FiresWhenDue(tasks: seq<Task>, stopAt: Option<nat>, horizon: nat, drift: nat -> nat, p: Pass, i: nat)
    requires Faithful(tasks, stopAt, horizon, drift, p) && i < |tasks|
    ensures |p.due| == |tasks| && (FiresIn(p, i) <==> p.due[i].Some? && p.due[i].value <= p.now)
  {
    hide Timed;
    var due := DueTasks(p.due, p.now, |tasks|);
    assert FiredTasks(p.fired) == due;
    if FiresIn(p, i) {
      var j :| 0 <= j < |p.fired| && p.fired[j].task == i;
      assert due[j] == i;
    }
    if i in due {
      var j :| 0 <= j < |due| && due[j] == i;
      assert p.fired[j].task == i;
    }
  }

  /** What a pass leaves: the same due time for a task that did not fire in it, and one
      cadence after its re-arming for one that did. */
  lemma LeavesDue(tasks: seq<Task>, stopAt: Option<nat>, horizon: nat, drift: nat -> nat, p: Pass, i: nat)
    requires Faithful(tasks, stopAt, horizon, drift, p) && i < |tasks|
    ensures |p.rearmed| == |p.due| == |tasks| && (!FiresIn(p, i) ==> p.rearmed[i] == p.due[i])
  {
    if i in FiredTasks(p.fired) {
      var j :| 0 <= j < |p.fired| && FiredTasks(p.fired)[j] == i;
      assert FiresIn(p, i);
    }
  }

  lemma FiredLeavesDue(tasks: seq<Task>, stopAt: Option<nat>, horizon: nat, drift: nat -> nat, p: Pass, f: Firing,
                       i: nat, cadence: nat)
    requires Faithful(tasks, stopAt, horizon, drift, p) && f in p.fired && f.task == i
    requires i < |tasks| && tasks[i].cadence == Some(cadence)
    ensures |p.rearmed| == |tasks| && DueAfter(horizon, f.armed, cadence, p.rearmed[i])
  {
    hide Timed, FiredTasks, DueTasks;
    var j :| 0 <= j < |p.fired| && p.fired[j] == f;
  }

  /** A firing runs its task exactly if no stop has been requested when it is tested. */
  lemma RunsUnlessStopped(tasks: seq<Task>, stopAt: Option<nat>, horizon: nat, drift: nat -> nat, p: Pass, j: nat)
    requires Faithful(tasks, stopAt, horizon, drift, p) && j < |p.fired|
    ensures var f, n := p.fired[j], p.reading + 4 * j;
            var check := f.armed + drift(n + 1);
            f.started == if stopAt.Some? && stopAt.value <= check then None else Some(check + drift(n + 2))
  {
    hide FiresDue, Timed;
    TimedAt(stopAt, drift, p, j);
  }

  lemma TimedAt(stopAt: Option<nat>, drift: nat -> nat, p: Pass, j: nat)
    requires Timed(stopAt, drift, p) && j < |p.fired|
    ensures Fires(stopAt, drift, p.reading + 4 * j, p.fired[j], p.Begin(j))
  {
    hide Fires;
  }

  lemma SleepKeepsDue(drift: nat -> nat, before: Pass, after: Pass)
    requires Slept(drift, before, after)
    ensures after.due == before.rearmed
  {
  }

  lemma {:induction false} DueStays(tasks: seq<Task>, stopAt: Option<nat>, horizon: nat, drift: nat -> nat,
                                    passes: seq<Pass>, k: nat, n: nat, i: nat)
    requires Chain(tasks, stopAt, horizon, drift, passes) && k < n < |passes| && i < |tasks|
    requires forall m :: k < m < n ==> !FiresIn(passes[m], i)
    ensures |passes[n].due| == |passes[k].rearmed| == |tasks| && passes[n].due[i] == passes[k].rearmed[i]
  {
    hide Faithful, FiresIn, Slept;
    LeavesDue(tasks, stopAt, horizon, drift, passes[k], i);
    SleepKeepsDue(drift, passes[n - 1], passes[n]);
    if k < n - 1 {
      DueStays(tasks, stopAt, horizon, drift, passes, k, n - 1, i);
      LeavesDue(tasks, stopAt, horizon, drift, passes[n - 1], i);
    }
  }

  lemma PassIsFaithful(tasks: seq<Task>, stopAt: Option<nat>, horizon: nat, drift: nat -> nat, passes: seq<Pass>,
                       k: nat)
    requires Chain(tasks, stopAt, horizon, drift, passes) && k < |passes|
    ensures Faithful(tasks, stopAt, horizon, drift, passes[k])
  {
    hide Faithful, Linked, FirstDue;
  }

  /** A periodic task that has fired comes due again exactly one cadence after it was
      re-armed, and fires in the first pass from then on. */
  lemma FiresAgain(tasks: seq<Task>, stopAt: Option<nat>, horizon: nat, drift: nat -> nat, passes: seq<Pass>, k: nat,
                   n: nat, f: Firing, i: nat, cadence: nat)
    requires Chain(tasks, stopAt, horizon, drift, passes) && k < n < |passes| && f in passes[k].fired && f.task == i
    requires i < |tasks| && tasks[i].cadence == Some(cadence)
    requires forall m :: k < m < n ==> !FiresIn(passes[m], i)
    ensures FiresIn(passes[n], i) <==> f.armed + cadence <= horizon && f.armed + cadence <= passes[n].now
  {
    hide Faithful, FiresIn, Chain;
    PassIsFaithful(tasks, stopAt, horizon, drift, passes, k);
    PassIsFaithful(tasks, stopAt, horizon, drift, passes, n);
    FiredLeavesDue(tasks, stopAt, horizon, drift, passes[k], f, i, cadence);
    DueStays(tasks, stopAt, horizon, drift, passes, k, n, i);
    FiresWhenDue(tasks, stopAt, horizon, drift, passes[n], i);
  }

  /** A task fires first in the first pass from its first delay on, if it is periodic. */
  lemma FiresFirst(tasks: seq<Task>, stopAt: Option<nat>, horizon: nat, drift: nat -> nat, passes: seq<Pass>, n: nat,
                   i: nat)
    requires Chain(tasks, stopAt, horizon, drift, passes) && n < |passes| && i < |tasks|
    requires forall m :: 0 <= m < n ==> !FiresIn(passes[m], i)
    ensures var due := drift(0) + tasks[i].firstDelay;
            FiresIn(passes[n], i) <==> tasks[i].cadence.Some? && due <= horizon && due <= passes[n].now
  {
    hide Faithful, FiresIn;
    FiresWhenDue(tasks, stopAt, horizon, drift, passes[n], i);
    if n > 0 {
      LeavesDue(tasks, stopAt, horizon, drift, passes[0], i);
      DueStays(tasks, stopAt, horizon, drift, passes, 0, n, i);
    }
  }
}
