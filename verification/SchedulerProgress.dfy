/** Without throttling no event that can start is left behind: no lost wakeup, no deadlock. */
module SchedulerProgress {
  import opened CStrings
  import opened Sequences
  import opened Scheduler
  import opened SchedulerSafety

  /** No pending event could be started. */
  ghost predicate Quiet(st: State, limit: int) {
    forall i | 0 <= i < |st.exec| :: !Dispatchable(st.exec, st.running, st.exec[i], limit)
  }

  ghost predicate Unthrottled(env: nat -> Slot) {
    forall k: nat :: !env(k).throttled
  }

  /** The scan stops at the event itself at the latest, so it looks only before it. */
  lemma EarlierStopsAtSelf(exec: seq<Event>, i: nat)
    requires i < |exec|
    ensures Earlier(exec, exec[i].seqnum) <= i
  {
    assert exec[i].seqnum >= exec[i].seqnum;
  }

  lemma EarlierOfPrefix(exec: seq<Event>, exec1: seq<Event>, b: nat, seqnum: nat)
    requires b < |exec| && b < |exec1| && exec[..b+1] == exec1[..b+1]
    ensures b < Earlier(exec, seqnum) <==> b < Earlier(exec1, seqnum)
  {
    assert forall j | 0 <= j <= b :: exec[j] == exec[..b+1][j] == exec1[..b+1][j] == exec1[j];
  }

  /** An event goes on waiting while the part of the exec list it scans stays the same and
      the running list only grows. */
  lemma StillWaiting(exec: seq<Event>, running: seq<Child>, exec1: seq<Event>, running1: seq<Child>, m: Event, limit: int)
    requires Earlier(exec, m.seqnum) <= |exec1|
    requires exec1[..Earlier(exec, m.seqnum)] == exec[..Earlier(exec, m.seqnum)]
    requires running <= running1
    requires !Dispatchable(exec, running, m, limit)
    ensures !Dispatchable(exec1, running1, m, limit)
  {
    hide Blocks;
    if b :| 0 <= b < Earlier(exec, m.seqnum) && Blocks(exec[b], m) {
      assert exec1[b] == exec1[..Earlier(exec, m.seqnum)][b] == exec[b];
      assert exec1[..b+1] == exec1[..Earlier(exec, m.seqnum)][..b+1] == exec[..b+1];
      EarlierOfPrefix(exec, exec1, b, m.seqnum);
    } else if b :| 0 <= b < |running| && Blocks(running[b].msg, m) {
      assert running1[b] == running[b];
    }
  }

  lemma DispatchLeavesWaiting(st: State, j: nat, i: nat, fork: Fork, limit: int)
    requires j < i < |st.exec|
    requires !Dispatchable(st.exec, st.running, st.exec[j], limit)
    ensures var r := Dispatch(st, i, fork);
      i <= |r.exec| && r.exec[j] == st.exec[j] && !Dispatchable(r.exec, r.running, r.exec[j], limit)
  {
    hide Dispatchable;
    var r := Dispatch(st, i, fork);
    var n := Earlier(st.exec, st.exec[j].seqnum);
    assert r.exec == RemoveAt(st.exec, i);
    EarlierStopsAtSelf(st.exec, j);
    assert r.exec[..n] == st.exec[..n];
    StillWaiting(st.exec, st.running, r.exec, r.running, st.exec[j], limit);
  }

  lemma {:induction false} PassLeavesNothing(st: State, limit: int, env: nat -> Slot, i: nat, k: nat)
    requires Unthrottled(env)
    requires i <= |st.exec|
    requires forall j | 0 <= j < i :: !Dispatchable(st.exec, st.running, st.exec[j], limit)
    ensures Quiet(Pass(st, limit, env, i, k), limit)
    decreases |st.exec| - i
  {
    hide Dispatchable;
    assert !env(k).throttled;
    if i >= |st.exec| {
    } else if !Dispatchable(st.exec, st.running, st.exec[i], limit) {
      PassLeavesNothing(st, limit, env, i + 1, k + 1);
    } else {
      var r := Dispatch(st, i, env(k).fork);
      forall j | 0 <= j < i
        ensures i <= |r.exec| && !Dispatchable(r.exec, r.running, r.exec[j], limit)
      {
        DispatchLeavesWaiting(st, j, i, env(k).fork, limit);
      }
      PassLeavesNothing(r, limit, env, i, k + 1);
    }
  }

  /** A pass that is not throttled leaves no startable event behind, even if forks fail. */
  lemma PassIsExhaustive(st: State, limit: int, env: nat -> Slot)
    requires Unthrottled(env)
    ensures Quiet(Pass(st, limit, env, 0, 0), limit)
  {
    PassLeavesNothing(st, limit, env, 0, 0);
  }

  /** With nothing running, the oldest pending event can start. */
  lemma OldestCanStart(st: State, limit: int)
    requires st.running == [] && st.exec != []
    ensures Dispatchable(st.exec, st.running, st.exec[0], limit)
  {
    EarlierStopsAtSelf(st.exec, 0);
  }

  // ----- No wakeup is lost -----

  ghost predicate StepUnthrottled(step: Step) {
    match step
    case RunQueue(env) => Unthrottled(env)
    case StartQueue(env) => Unthrottled(env)
    case _ => true
  }

  /** If a pending event could start, another dispatch pass is due, or execution is stopped. */
  ghost predicate Awake(st: State, limit: int) {
    st.runQ || st.stopQ || Quiet(st, limit)
  }

  lemma MoreRunningStaysQuiet(st: State, c: Child, limit: int)
    requires Quiet(st, limit)
    ensures Quiet(st.(running := st.running + [c]), limit)
  {
    hide Blocks;
    var running1 := st.running + [c];
    forall i | 0 <= i < |st.exec|
      ensures !Dispatchable(st.exec, running1, st.exec[i], limit)
    {
      if b :| 0 <= b < |st.running| && Blocks(st.running[b].msg, st.exec[i]) {
        assert running1[b] == st.running[b];
      }
    }
  }

  lemma NextStaysAwake(st: State, step: Step, limit: int)
    requires Awake(st, limit) && StepUnthrottled(step)
    ensures Awake(Next(st, step, limit), limit)
  {
    hide Dispatchable;
    match step {
      case Insert(m, fork) =>
        if Quiet(st, limit) && m.timeout != 0 && fork.Forked? {
          MoreRunningStaysQuiet(st, Child(m, fork.pid), limit);
        }
      case Reap(pid, status) =>
      case RunQueue(env) => PassIsExhaustive(st.(runQ := false), limit, env);
      case StopQueue =>
      case StartQueue(env) => PassIsExhaustive(st.(stopQ := false), limit, env);
    }
  }

  /** Over every unthrottled run, an event that could start is never forgotten. */
  lemma {:induction false} NoLostWakeup(steps: seq<Step>, limit: int)
    requires forall i | 0 <= i < |steps| :: StepUnthrottled(steps[i])
    ensures Awake(Run(steps, limit), limit)
  {
    hide Dispatchable, StepUnthrottled;
    if steps == [] {
    } else {
      NoLostWakeup(steps[..|steps|-1], limit);
      NextStaysAwake(Run(steps[..|steps|-1], limit), steps[|steps|-1], limit);
    }
  }

  /** When the daemon has nothing left to react to, pending events wait for running ones only. */
  lemma NoDeadlock(steps: seq<Step>, limit: int)
    requires forall i | 0 <= i < |steps| :: StepUnthrottled(steps[i])
    requires var st := Run(steps, limit); !st.runQ && !st.stopQ && st.running == []
    ensures Run(steps, limit).exec == []
  {
    NoLostWakeup(steps, limit);
    if Run(steps, limit).exec != [] {
      OldestCanStart(Run(steps, limit), limit);
    }
  }

  // ----- Draining -----

  /** Children exit one after the other, in any order and with any status, and the daemon
      runs its queue after each exit. */
  function Drain(st: State, limit: int, exits: nat -> (nat, int), envs: nat -> nat -> Slot, n: nat): State
    decreases n
  {
    if n == 0 || st.running == [] then st
    else
      var (p, status) := exits(n);
      var st1 := Next(st, Reap(st.running[p % |st.running|].pid, status), limit);
      Drain(Next(st1, RunQueue(envs(n)), limit), limit, exits, envs, n - 1)
  }

  function Load(st: State): nat {
    |st.exec| + |st.running|
  }

  lemma {:induction false} PassKeepsLoad(st: State, limit: int, env: nat -> Slot, i: nat, k: nat)
    ensures Load(Pass(st, limit, env, i, k)) <= Load(st)
    ensures var r := Pass(st, limit, env, i, k); r.runQ == st.runQ && r.stopQ == st.stopQ
    decreases |st.exec| - i
  {
    hide Dispatchable;
    if i >= |st.exec| || env(k).throttled {
    } else if !Dispatchable(st.exec, st.running, st.exec[i], limit) {
      PassKeepsLoad(st, limit, env, i + 1, k + 1);
    } else {
      PassKeepsLoad(Dispatch(st, i, env(k).fork), limit, env, i, k + 1);
    }
  }

  lemma FindPidFinds(running: seq<Child>, i: nat)
    requires i < |running|
    ensures FindPid(running, running[i].pid) < |running|
  {
    if i > 0 && running[0].pid != running[i].pid {
      FindPidFinds(running[1..], i - 1);
    }
  }

  /** After an exit and the pass it asks for, the daemon is settled again, with less left to do. */
  lemma DrainStep(st: State, limit: int, i: nat, status: int, env: nat -> Slot)
    requires !st.stopQ && i < |st.running| && Unthrottled(env)
    ensures var r := Next(Next(st, Reap(st.running[i].pid, status), limit), RunQueue(env), limit);
      !r.runQ && !r.stopQ && Quiet(r, limit) && Load(r) < Load(st)
  {
    hide Dispatchable, Quiet, Unthrottled;
    FindPidFinds(st.running, i);
    var st1 := Next(st, Reap(st.running[i].pid, status), limit);
    assert Load(st1) == Load(st) - 1 && st1.runQ && !st1.stopQ;
    hide Delete;
    PassIsExhaustive(st1.(runQ := false), limit, env);
    PassKeepsLoad(st1.(runQ := false), limit, env, 0, 0);
    hide Pass;
  }

  /** From a settled state, as many child exits as there are live events empty both lists:
      every event is eventually started and deleted. */
  lemma {:induction false} QueueDrains(st: State, limit: int, exits: nat -> (nat, int), envs: nat -> nat -> Slot, n: nat)
    requires !st.runQ && !st.stopQ && Quiet(st, limit)
    requires forall k: nat :: Unthrottled(envs(k))
    requires n >= Load(st)
    ensures Drain(st, limit, exits, envs, n).exec == [] && Drain(st, limit, exits, envs, n).running == []
    decreases n
  {
    hide Dispatchable, Next, Unthrottled;
    if st.running == [] {
      if st.exec != [] {
        OldestCanStart(st, limit);
      }
    } else {
      hide Quiet;
      var (p, status) := exits(n);
      var i := p % |st.running|;
      DrainStep(st, limit, i, status, envs(n));
      var st1 := Next(st, Reap(st.running[i].pid, status), limit);
      QueueDrains(Next(st1, RunQueue(envs(n)), limit), limit, exits, envs, n - 1);
    }
  }
}
