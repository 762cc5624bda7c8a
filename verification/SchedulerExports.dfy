/** How the daemon reports each event to the outside: as queued once, and then as finished or as
    failed once. */
module SchedulerExports {
  import opened CStrings
  import opened Sequences
  import opened Scheduler
  import opened SchedulerSafety

  /** Failed means an add event whose process returned an error, finished means anything else. */
  predicate ReportedRightly(x: Export) {
    match x
    case Queued(_) => true
    case Finished(m, status) => !(m.action == "add" && status != 0)
    case Failed(m, status) => m.action == "add" && status != 0
  }

  predicate AllReportedRightly(log: seq<Export>) {
    forall x | x in log :: ReportedRightly(x)
  }

  /** Starting, reaping and dispatching report rightly and accept nothing. */
  lemma {:induction false} PassReports(st: State, limit: int, env: nat -> Slot, i: nat, k: nat)
    requires AllReportedRightly(st.log)
    ensures AllReportedRightly(Pass(st, limit, env, i, k).log)
    ensures Accepted(Pass(st, limit, env, i, k).log) == Accepted(st.log)
    decreases |st.exec| - i
  {
    hide Dispatchable, Accepted;
    if i >= |st.exec| || env(k).throttled {
    } else if !Dispatchable(st.exec, st.running, st.exec[i], limit) {
      PassReports(st, limit, env, i + 1, k + 1);
    } else {
      StartReports(st.(exec := RemoveAt(st.exec, i)), st.exec[i], env(k).fork);
      PassReports(Start(st.(exec := RemoveAt(st.exec, i)), st.exec[i], env(k).fork), limit, env, i, k + 1);
    }
  }

  lemma DeleteReports(st: State, m: Event, status: int)
    requires AllReportedRightly(st.log)
    ensures AllReportedRightly(Delete(st, m, status).log)
    ensures Accepted(Delete(st, m, status).log) == Accepted(st.log)
  {
    hide Accepted, FailedAfterFinish;
    LogGrows(st.log, Failed(m, status));
    LogGrows(st.log, Finished(m, status));
  }

  lemma StartReports(st: State, m: Event, fork: Fork)
    requires AllReportedRightly(st.log)
    ensures AllReportedRightly(Start(st, m, fork).log)
    ensures Accepted(Start(st, m, fork).log) == Accepted(st.log)
  {
    DeleteReports(st, m, 0);
  }

  lemma NextReports(st: State, step: Step, limit: int)
    requires AllReportedRightly(st.log)
    ensures AllReportedRightly(Next(st, step, limit).log)
    ensures Accepted(Next(st, step, limit).log) == Accepted(st.log) + if step.Insert? then [step.msg] else []
  {
    hide Accepted, Delete, Pass;
    match step {
      case Insert(m, fork) =>
        LogGrows(st.log, Queued(m));
        StartReports(ExportQueued(st, m), m, fork);
      case Reap(pid, status) =>
        var i := FindPid(st.running, pid);
        if i < |st.running| {
          DeleteReports(st.(running := RemoveAt(st.running, i)), st.running[i].msg, status);
        }
      case RunQueue(env) => PassReports(st.(runQ := false), limit, env, 0, 0);
      case StopQueue =>
      case StartQueue(env) => PassReports(st.(stopQ := false), limit, env, 0, 0);
    }
  }

  /** In every run an event is exported as failed exactly if it is an add event and its process
      returned an error. */
  lemma {:induction false} FailedExactlyForFailedAdds(steps: seq<Step>, limit: int)
    ensures AllReportedRightly(Run(steps, limit).log)
  {
    if steps != [] {
      FailedExactlyForFailedAdds(steps[..|steps|-1], limit);
      NextReports(Run(steps[..|steps|-1], limit), steps[|steps|-1], limit);
    }
  }

  predicate StrictlyIncreasing(events: seq<Event>) {
    forall i, j | 0 <= i < j < |events| :: events[i].seqnum < events[j].seqnum
  }

  lemma {:induction false} AcceptedInOrder(steps: seq<Step>, limit: int)
    requires Increasing(steps, limit)
    ensures StrictlyIncreasing(Accepted(Run(steps, limit).log))
  {
    if steps != [] {
      var n := |steps| - 1;
      FrontIncreases(steps, limit);
      AcceptedInOrder(steps[..n], limit);
      FailedExactlyForFailedAdds(steps[..n], limit);
      hide Accepted, Run, AllReportedRightly;
      var st := Run(steps[..n], limit);
      NextReports(st, steps[n], limit);
      assert Run(steps, limit) == Next(st, steps[n], limit) by { RunIs(steps, limit); }
    }
  }

  lemma RunIs(steps: seq<Step>, limit: int)
    requires steps != []
    ensures Run(steps, limit) == Next(Run(steps[..|steps|-1], limit), steps[|steps|-1], limit)
  {
  }

  lemma {:induction false} OnlyOnce(events: seq<Event>, m: Event)
    requires StrictlyIncreasing(events)
    ensures multiset(events)[m] == if m in events then 1 else 0
  {
    if events != [] {
      var n := |events| - 1;
      OnlyOnce(events[..n], m);
      assert events == events[..n] + [events[n]];
    }
  }

  /** With increasing sequence numbers, an accepted event is exported as queued once and is in
      exactly one place: pending, running, or ended and so exported as finished or failed once. */
  lemma InExactlyOnePlace(steps: seq<Step>, limit: int, m: Event)
    requires Increasing(steps, limit) && m in Accepted(Run(steps, limit).log)
    ensures var st := Run(steps, limit);
      && multiset(Accepted(st.log))[m] == 1
      && multiset(st.exec)[m] + multiset(Msgs(st.running))[m] + multiset(Ended(st.log))[m] == 1
  {
    AcceptedInOrder(steps, limit);
    hide Accepted, Ended;
    OnlyOnce(Accepted(Run(steps, limit).log), m);
    NothingLostOrDuplicated(steps, limit);
    var st := Run(steps, limit);
    assert (multiset(st.exec) + multiset(Msgs(st.running)) + multiset(Ended(st.log)))[m] == 1;
  }

  // ----- Whose status is exported -----

  /** Child i is the first one with the process number. */
  predicate FirstWith(running: seq<Child>, pid: int, i: nat) {
    i < |running| && running[i].pid == pid && forall k | 0 <= k < i :: running[k].pid != pid
  }

  lemma {:induction false} FirstIsFound(running: seq<Child>, pid: int, i: nat)
    requires FirstWith(running, pid, i)
    ensures FindPid(running, pid) == i
    decreases i
  {
    if i > 0 {
      FirstIsFound(running[1..], pid, i - 1);
    }
  }

  lemma {:induction false} NoneIsFound(running: seq<Child>, pid: int)
    requires forall k | 0 <= k < |running| :: running[k].pid != pid
    ensures FindPid(running, pid) == |running|
  {
    if running != [] {
      NoneIsFound(running[1..], pid);
    }
  }

  /** What is exported of a child that exits with the status. */
  function ExitOf(m: Event, status: int): Export {
    if m.action == "add" && status != 0 then Failed(m, status) else Finished(m, status)
  }

  /** The exit of a process takes the first child with its number off the running list, exports it with
      the status it exited with, and makes a pass due. */
  lemma ReapReportsStatus(st: State, pid: int, status: int, i: nat, limit: int)
    requires FirstWith(st.running, pid, i)
    ensures var r := Next(st, Reap(pid, status), limit);
      && r.log == st.log + [ExitOf(st.running[i].msg, status)]
      && r.running == st.running[..i] + st.running[i+1..] && r.exec == st.exec
      && r.runQ && r.stopQ == st.stopQ
  {
    FirstIsFound(st.running, pid, i);
    hide FailedAfterFinish, FindPid;
  }

  /** The exit of a process that is not a child's changes nothing. */
  lemma StrangerExits(st: State, pid: int, status: int, limit: int)
    requires forall k | 0 <= k < |st.running| :: st.running[k].pid != pid
    ensures Next(st, Reap(pid, status), limit) == st
  {
    NoneIsFound(st.running, pid);
  }

  /** Why the step in the state exports x: the event is queued; its process exits with the status
      exported; or a fork for it fails, which counts as status 0. */
  ghost predicate Explains(st: State, step: Step, x: Export) {
    match step
    case Insert(m, fork) => x == Queued(m) || (m.timeout != 0 && fork.ForkFailed? && x == Finished(m, 0))
    case Reap(pid, status) => exists i: nat :: FirstWith(st.running, pid, i) && x == ExitOf(st.running[i].msg, status)
    case RunQueue(env) => ForkFails(st, env, x)
    case StopQueue => false
    case StartQueue(env) => ForkFails(st, env, x)
  }

  ghost predicate ForkFails(st: State, env: nat -> Slot, x: Export) {
    x.Finished? && x.status == 0 && x.msg in st.exec && exists k: nat :: !env(k).throttled && env(k).fork.ForkFailed?
  }

  lemma {:induction false} PassExplained(st: State, limit: int, env: nat -> Slot, i: nat, k: nat)
    ensures var r := Pass(st, limit, env, i, k);
      st.log <= r.log && forall l | |st.log| <= l < |r.log| :: ForkFails(st, env, r.log[l])
    decreases |st.exec| - i
  {
    hide Dispatchable, FailedAfterFinish;
    if i >= |st.exec| || env(k).throttled {
    } else if !Dispatchable(st.exec, st.running, st.exec[i], limit) {
      hide Start;
      PassExplained(st, limit, env, i + 1, k + 1);
    } else {
      var m, st1 := st.exec[i], Start(st.(exec := RemoveAt(st.exec, i)), st.exec[i], env(k).fork);
      assert st1.exec == RemoveAt(st.exec, i);
      assert st1.log == st.log || (env(k).fork.ForkFailed? && st1.log == st.log + [Finished(m, 0)]);
      hide Start;
      PassExplained(st1, limit, env, i, k + 1);
      var r := Pass(st, limit, env, i, k);
      forall l | |st.log| <= l < |r.log|
        ensures ForkFails(st, env, r.log[l])
      {
        if l >= |st1.log| {
          assert ForkFails(st1, env, r.log[l]);
        } else {
          assert r.log[l] == st1.log[l] == Finished(m, 0);
        }
      }
    }
  }

  lemma NextExplained(st: State, step: Step, limit: int)
    ensures var r := Next(st, step, limit);
      st.log <= r.log && forall l | |st.log| <= l < |r.log| :: Explains(st, step, r.log[l])
  {
    match step {
      case Insert(m, fork) => InsertExplained(st, m, fork, limit);
      case Reap(pid, status) => ReapExplained(st, pid, status, limit);
      case RunQueue(env) => PassExplained(st.(runQ := false), limit, env, 0, 0);
      case StopQueue =>
      case StartQueue(env) => PassExplained(st.(stopQ := false), limit, env, 0, 0);
    }
  }

  lemma InsertExplained(st: State, m: Event, fork: Fork, limit: int)
    ensures var r := InsertEvent(st, m, fork);
      st.log <= r.log && forall l | |st.log| <= l < |r.log| :: Explains(st, Insert(m, fork), r.log[l])
  {
    hide FailedAfterFinish;
  }

  lemma ReapExplained(st: State, pid: int, status: int, limit: int)
    ensures var r := Next(st, Reap(pid, status), limit);
      st.log <= r.log && forall l | |st.log| <= l < |r.log| :: Explains(st, Reap(pid, status), r.log[l])
  {
    var i := FindPid(st.running, pid);
    if i < |st.running| {
      FoundIsFirst(st.running, pid);
      hide Next, FirstWith, ExitOf;
      ReapReportsStatus(st, pid, status, i, limit);
    }
  }

  lemma {:induction false} FoundIsFirst(running: seq<Child>, pid: int)
    ensures FindPid(running, pid) < |running| ==> FirstWith(running, pid, FindPid(running, pid))
  {
    if running != [] {
      FoundIsFirst(running[1..], pid);
    }
  }

  /** Entry l of the log is due to step n of the run. */
  ghost predicate DueTo(steps: seq<Step>, limit: int, l: nat, n: nat) {
    && n < |steps| && |Run(steps[..n], limit).log| <= l < |Run(steps[..n+1], limit).log|
    && l < |Run(steps, limit).log|
    && Explains(Run(steps[..n], limit), steps[n], Run(steps, limit).log[l])
  }

  /** In every run whatever is exported is due to one of its steps: an event fails or finishes with the
      status its own process exits with, or with 0 because the fork for it fails. */
  lemma {:induction false} ExportsAreExplained(steps: seq<Step>, limit: int, l: nat)
    requires l < |Run(steps, limit).log|
    ensures exists n: nat :: DueTo(steps, limit, l, n)
  {
    if steps != [] {
      hide Explains, Next;
      var last := |steps| - 1;
      var front := steps[..last];
      NextExplained(Run(front, limit), steps[last], limit);
      assert steps[..last+1] == steps;
      if l < |Run(front, limit).log| {
        ExportsAreExplained(front, limit, l);
        var n: nat :| DueTo(front, limit, l, n);
        assert front[..n] == steps[..n] && front[..n+1] == steps[..n+1] && front[n] == steps[n];
        assert DueTo(steps, limit, l, n);
      } else {
        assert DueTo(steps, limit, l, last);
      }
    }
  }
}
