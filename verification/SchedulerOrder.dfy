/** When events for the same device, or for a device and its ancestor, run side by side. */
module SchedulerOrder {
  import opened CStrings
  import opened Sequences
  import opened Scheduler
  import opened SchedulerSafety

  /** No running child blocks one started after it. */
  ghost predicate InOrder(running: seq<Child>) {
    forall i, j | 0 <= i < j < |running| :: !Blocks(running[i].msg, running[j].msg)
  }

  ghost predicate BlockedBySome(running: seq<Child>, m: Event) {
    exists i | 0 <= i < |running| :: Blocks(running[i].msg, m)
  }

  /** An event with a timeout is started beside a running one that blocks it. */
  ghost predicate BreaksOrder(st: State, step: Step) {
    step.Insert? && step.msg.timeout != 0 && step.fork.Forked? && BlockedBySome(st.running, step.msg)
  }

  lemma InOrderAppend(running: seq<Child>, c: Child)
    ensures InOrder(running + [c]) <==> InOrder(running) && !BlockedBySome(running, c.msg)
  {
    hide Blocks;
    var more := running + [c];
    if InOrder(more) {
      assert forall i | 0 <= i < |running| :: more[i] == running[i];
      assert more[|running|] == c;
    }
  }

  lemma InOrderRemove(running: seq<Child>, i: nat)
    requires i < |running| && InOrder(running)
    ensures InOrder(RemoveAt(running, i))
  {
    hide Blocks;
  }

  lemma {:induction false} PassKeepsOrder(st: State, limit: int, env: nat -> Slot, i: nat, k: nat)
    requires InOrder(st.running)
    ensures InOrder(Pass(st, limit, env, i, k).running)
    decreases |st.exec| - i
  {
    if i >= |st.exec| || env(k).throttled {
    } else if !Dispatchable(st.exec, st.running, st.exec[i], limit) {
      hide Dispatchable, InOrder;
      PassKeepsOrder(st, limit, env, i + 1, k + 1);
    } else {
      var m := st.exec[i];
      assert !BlockedBySome(st.running, m);
      if env(k).fork.Forked? {
        InOrderAppend(st.running, Child(m, env(k).fork.pid));
      }
      hide Dispatchable, InOrder;
      PassKeepsOrder(Dispatch(st, i, env(k).fork), limit, env, i, k + 1);
    }
  }

  /** A step keeps the order exactly if it does not start an event with a timeout beside a running
      one that blocks it. */
  lemma NextKeepsOrderIff(st: State, step: Step, limit: int)
    requires InOrder(st.running)
    ensures InOrder(Next(st, step, limit).running) <==> !BreaksOrder(st, step)
  {
    hide InOrder, BlockedBySome;
    match step {
      case Insert(m, fork) =>
        if fork.Forked? {
          InOrderAppend(st.running, Child(m, fork.pid));
        }
      case Reap(pid, status) =>
        var i := FindPid(st.running, pid);
        if i < |st.running| {
          InOrderRemove(st.running, i);
        }
      case RunQueue(env) => PassKeepsOrder(st.(runQ := false), limit, env, 0, 0);
      case StopQueue =>
      case StartQueue(env) => PassKeepsOrder(st.(stopQ := false), limit, env, 0, 0);
    }
  }

  ghost predicate InOrderAfter(steps: seq<Step>, limit: int) {
    InOrder(Run(steps, limit).running)
  }

  /** A run is in order all along exactly if none of its steps starts an event with a timeout
      beside a running one that blocks it. */
  lemma {:induction false} RunIsInOrderIff(steps: seq<Step>, limit: int)
    ensures (forall n | 0 <= n <= |steps| :: InOrderAfter(steps[..n], limit)) <==>
      forall n | 0 <= n < |steps| :: !BreaksOrder(Run(steps[..n], limit), steps[n])
  {
    hide InOrderAfter, BreaksOrder, Run;
    assert steps[..|steps|] == steps;
    if steps == [] {
      assert InOrderAfter([], limit) by { NoneInOrder(limit); }
    } else {
      var last := |steps| - 1;
      var front := steps[..last];
      assert forall n | 0 <= n <= last :: front[..n] == steps[..n];
      assert forall n | 0 <= n < last :: front[n] == steps[n];
      RunIsInOrderIff(front, limit);
      if InOrderAfter(front, limit) {
        LastKeepsOrderIff(steps, limit);
      }
    }
  }

  lemma LastKeepsOrderIff(steps: seq<Step>, limit: int)
    requires steps != [] && InOrderAfter(steps[..|steps|-1], limit)
    ensures InOrderAfter(steps, limit) <==> !BreaksOrder(Run(steps[..|steps|-1], limit), steps[|steps|-1])
  {
    hide BreaksOrder, Next, InOrder;
    NextKeepsOrderIff(Run(steps[..|steps|-1], limit), steps[|steps|-1], limit);
  }

  lemma NoneInOrder(limit: int)
    ensures InOrderAfter([], limit)
  {
  }

  // ----- Inputs -----

  /** Every fork succeeds, the first one with the process number pid and each later one with the next. */
  function Forking(pid: int): nat -> Slot {
    k => Slot(false, Forked(pid + k))
  }

  function Dispatching(pid: int): Step {
    RunQueue(Forking(pid))
  }

  lemma RunMore(steps: seq<Step>, step: Step, limit: int)
    ensures Run(steps + [step], limit) == Next(Run(steps, limit), step, limit)
  {
    assert (steps + [step])[..|steps|] == steps;
  }

  /** A single pending event that nothing running blocks is started. */
  lemma StartsTheOne(st: State, m: Event, limit: int, pid: int)
    requires st.exec == [m] && !AtLimit(st.running, limit)
    requires forall i | 0 <= i < |st.running| :: !Blocks(st.running[i].msg, m)
    ensures var r := Pass(st, limit, Forking(pid), 0, 0);
      r == st.(exec := [], running := st.running + [Child(m, pid)])
  {
    hide Blocks;
    assert Earlier(st.exec, m.seqnum) == 0;
    assert Dispatchable(st.exec, st.running, m, limit);
    var r := Dispatch(st, 0, Forked(pid));
    assert Pass(r, limit, Forking(pid), 0, 1) == r;
  }

  lemma StartedAlone(a: Event, limit: int)
    requires a.timeout == 0
    ensures var st := Run([Insert(a, ForkFailed), Dispatching(1)], limit);
      st.exec == [] && st.running == [Child(a, 1)] && !st.stopQ
  {
    var s1 := Insert(a, ForkFailed);
    RunMore([], s1, limit);
    RunMore([s1], Dispatching(1), limit);
    assert [] + [s1] == [s1] && [s1] + [Dispatching(1)] == [s1, Dispatching(1)];
    StartsTheOne(Run([s1], limit).(runQ := false), a, limit, 1);
  }

  /** An event with a timeout runs beside whatever runs, related to it or not. */
  lemma UrgentRunsBesideBlocker(a: Event, b: Event, limit: int)
    requires a.timeout == 0 && b.timeout != 0
    ensures Run([Insert(a, ForkFailed), Dispatching(1), Insert(b, Forked(2))], limit).running == [Child(a, 1), Child(b, 2)]
    ensures a.devpath == b.devpath && |a.devpath| < PATH_SIZE ==> Blocks(a, b)
  {
    var steps, s := [Insert(a, ForkFailed), Dispatching(1)], Insert(b, Forked(2));
    StartedAlone(a, limit);
    RunMore(steps, s, limit);
    assert steps + [s] == [Insert(a, ForkFailed), Dispatching(1), s];
    hide Run;
  }

  lemma UnblockedRunTogether(a: Event, b: Event, limit: int)
    requires a.timeout == 0 && b.timeout == 0 && limit >= 0 && !Blocks(a, b)
    ensures Run([Insert(a, ForkFailed), Dispatching(1), Insert(b, ForkFailed), Dispatching(2)], limit).running == [Child(a, 1), Child(b, 2)]
  {
    var steps, s := [Insert(a, ForkFailed), Dispatching(1)], Insert(b, ForkFailed);
    StartedAlone(a, limit);
    RunMore(steps, s, limit);
    RunMore(steps + [s], Dispatching(2), limit);
    assert steps + [s] + [Dispatching(2)] == [Insert(a, ForkFailed), Dispatching(1), s, Dispatching(2)];
    hide Run, Blocks;
    StartsTheOne(Run(steps + [s], limit).(runQ := false), b, limit, 2);
  }

  /** Two events for one device whose path fills the buffer run side by side. */
  lemma OverlongPathsRunTogether(a: Event, b: Event, limit: int)
    requires a.timeout == 0 && b.timeout == 0 && limit >= 0
    requires b.devpathOld.None? && b.physdevpath.None?
    requires a.devpath == b.devpath && |a.devpath| >= PATH_SIZE
    ensures Run([Insert(a, ForkFailed), Dispatching(1), Insert(b, ForkFailed), Dispatching(2)], limit).running == [Child(a, 1), Child(b, 2)]
  {
    UnblockedRunTogether(a, b, limit);
  }

  // ----- Related devices -----

  /** The same device, or a device and one below it, whatever the length of their paths. */
  predicate Related(d: CString, e: CString) {
    d == e || Ancestor(d, e) || Ancestor(e, d)
  }

  /** Child i is for device d, and child j, started after it, for device e. */
  predicate Beside(running: seq<Child>, i: nat, j: nat, d: CString, e: CString, urgent: bool) {
    && i < j < |running|
    && running[i].msg.devpath == d && running[j].msg.devpath == e
    && (running[j].msg.timeout != 0) == urgent
  }

  /** In some run a child for device d runs when one for device e is started, because of its timeout or
      in turn. */
  ghost predicate RunTogether(d: CString, e: CString, urgent: bool, limit: int) {
    exists steps, i, j :: Beside(Run(steps, limit).running, i, j, d, e, urgent)
  }

  /** With a negative limit whatever is started in turn is started alone. */
  ghost predicate FirstOnly(running: seq<Child>) {
    forall j | 0 < j < |running| :: running[j].msg.timeout != 0
  }

  lemma {:induction false} PassStartsAlone(st: State, limit: int, env: nat -> Slot, i: nat, k: nat)
    requires limit < 0 && FirstOnly(st.running)
    ensures FirstOnly(Pass(st, limit, env, i, k).running)
    decreases |st.exec| - i
  {
    if i >= |st.exec| || env(k).throttled {
    } else if !Dispatchable(st.exec, st.running, st.exec[i], limit) {
      hide Dispatchable;
      PassStartsAlone(st, limit, env, i + 1, k + 1);
    } else {
      assert st.running == [];
      hide Dispatchable;
      PassStartsAlone(Dispatch(st, i, env(k).fork), limit, env, i, k + 1);
    }
  }

  lemma {:induction false} RunStartsAlone(steps: seq<Step>, limit: int)
    requires limit < 0
    ensures FirstOnly(Run(steps, limit).running)
  {
    if steps != [] {
      var st := Run(steps[..|steps|-1], limit);
      RunStartsAlone(steps[..|steps|-1], limit);
      hide Dispatchable;
      match steps[|steps|-1] {
        case Insert(m, fork) =>
        case Reap(pid, status) =>
        case RunQueue(env) => PassStartsAlone(st.(runQ := false), limit, env, 0, 0);
        case StopQueue =>
        case StartQueue(env) => PassStartsAlone(st.(stopQ := false), limit, env, 0, 0);
      }
    }
  }

  /** Events for related devices can run side by side exactly if the later one has a timeout, or both
      paths fill the buffer and the limit is not negative. */
  lemma RelatedRunTogetherIff(d: CString, e: CString, urgent: bool, limit: int)
    requires Related(d, e)
    ensures RunTogether(d, e, urgent, limit) <==> urgent || (|d| >= PATH_SIZE && |e| >= PATH_SIZE && limit >= 0)
  {
    var a, b := Event(1, "add", d, None, None, 0), Event(2, "add", e, None, None, if urgent then 1 else 0);
    if urgent {
      UrgentRunsBesideBlocker(a, b, limit);
      assert Beside(Run([Insert(a, ForkFailed), Dispatching(1), Insert(b, Forked(2))], limit).running, 0, 1, d, e, true);
    } else if |d| >= PATH_SIZE && |e| >= PATH_SIZE && limit >= 0 {
      UnblockedRunTogether(a, b, limit);
      assert Beside(Run([Insert(a, ForkFailed), Dispatching(1), Insert(b, ForkFailed), Dispatching(2)], limit).running, 0, 1, d, e, false);
    } else if RunTogether(d, e, false, limit) {
      var steps, i, j :| Beside(Run(steps, limit).running, i, j, d, e, false);
      NeverRunTogether(steps, limit, i, j);
      if limit < 0 {
        RunStartsAlone(steps, limit);
      }
      assert false;
    }
  }
}
