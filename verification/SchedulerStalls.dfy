/** When the queue gets stuck: events are pending, nothing runs, and nothing is left that would make
    the daemon look at the queue again. */
module SchedulerStalls {
  import opened CStrings
  import opened Scheduler
  import opened SchedulerSafety
  import opened SchedulerProgress

  predicate Stuck(st: State) {
    st.running == [] && st.exec != [] && !st.runQ && !st.stopQ
  }

  /** From iteration k of the pass on, throttling sets in after n forks that all failed. */
  predicate ThrottledAfter(env: nat -> Slot, k: nat, n: nat) {
    env(k + n).throttled && forall j | k <= j < k + n :: !env(j).throttled && env(j).fork.ForkFailed?
  }

  /** Throttling sets in before all pending events are dealt with, and before a fork succeeds. */
  ghost predicate CutShort(env: nat -> Slot, k: nat, pending: nat) {
    exists n | 0 <= n < pending :: ThrottledAfter(env, k, n)
  }

  /** A pass never takes a child off the running list. */
  lemma {:induction false} PassKeepsChildren(st: State, limit: int, env: nat -> Slot, i: nat, k: nat)
    ensures |Pass(st, limit, env, i, k).running| >= |st.running|
    decreases |st.exec| - i
  {
    hide Dispatchable;
    if i >= |st.exec| || env(k).throttled {
    } else if !Dispatchable(st.exec, st.running, st.exec[i], limit) {
      PassKeepsChildren(st, limit, env, i + 1, k + 1);
    } else {
      PassKeepsChildren(Dispatch(st, i, env(k).fork), limit, env, i, k + 1);
    }
  }

  lemma CutShortStep(env: nat -> Slot, k: nat, pending: nat)
    requires pending > 0
    ensures CutShort(env, k, pending) <==>
      env(k).throttled || (env(k).fork.ForkFailed? && CutShort(env, k + 1, pending - 1))
  {
    if env(k).throttled {
      assert ThrottledAfter(env, k, 0);
    } else {
      forall n | 0 < n < pending
        ensures ThrottledAfter(env, k, n) <==> env(k).fork.ForkFailed? && ThrottledAfter(env, k + 1, n - 1)
      {
        assert k + n == k + 1 + (n - 1);
      }
      assert !ThrottledAfter(env, k, 0) by { assert k + 0 == k; }
      if env(k).fork.ForkFailed? && CutShort(env, k + 1, pending - 1) {
        var n :| 0 <= n < pending - 1 && ThrottledAfter(env, k + 1, n);
        assert ThrottledAfter(env, k, n + 1);
      }
    }
  }

  /** With nothing running, a pass leaves events behind with nothing running exactly if it is
      throttled before all events are dealt with and before a fork succeeds. */
  lemma {:induction false} PassStallsIff(st: State, limit: int, env: nat -> Slot, k: nat)
    requires st.running == []
    ensures var r := Pass(st, limit, env, 0, k);
      r.running == [] && r.exec != [] <==> CutShort(env, k, |st.exec|)
    decreases |st.exec|
  {
    hide Dispatchable, CutShort;
    if st.exec == [] {
      assert !CutShort(env, k, 0) by { NothingToCutShort(env, k); }
    } else {
      CutShortStep(env, k, |st.exec|);
      if !env(k).throttled {
        OldestCanStart(st, limit);
        var st1 := Dispatch(st, 0, env(k).fork);
        if env(k).fork.ForkFailed? {
          PassStallsIff(st1, limit, env, k + 1);
        } else {
          PassKeepsChildren(st1, limit, env, 0, k + 1);
        }
      }
    }
  }

  lemma NothingToCutShort(env: nat -> Slot, k: nat)
    ensures !CutShort(env, k, 0)
  {
  }

  /** The step makes a pass that is cut short although nothing runs. */
  ghost predicate Stalls(st: State, step: Step) {
    && st.running == []
    && match step
       case RunQueue(env) => st.runQ && !st.stopQ && CutShort(env, 0, |st.exec|)
       case StartQueue(env) => !st.runQ && CutShort(env, 0, |st.exec|)
       case _ => false
  }

  /** The step does not touch the queue: an event with a timeout whose fork fails, a child that is
      not the daemon's, a pass that is not due. */
  predicate Idle(st: State, step: Step) {
    match step
    case Insert(m, fork) => m.timeout != 0 && fork.ForkFailed?
    case Reap(pid, _) => FindPid(st.running, pid) == |st.running|
    case RunQueue(_) => !st.runQ
    case StopQueue => false
    case StartQueue(_) => false
  }

  /** The queue is stuck after a step exactly if the step stalls it, or leaves it as it was and it
      was stuck before. */
  lemma NextStallsIff(st: State, step: Step, limit: int)
    ensures Stuck(Next(st, step, limit)) <==> Stalls(st, step) || (Stuck(st) && Idle(st, step))
  {
    hide Dispatchable, CutShort;
    match step {
      case Insert(m, fork) =>
      case Reap(pid, status) =>
      case RunQueue(env) => DuePass(st.(runQ := false), env, limit);
      case StopQueue =>
      case StartQueue(env) => DuePass(st.(stopQ := false), env, limit);
    }
  }

  lemma DuePass(st: State, env: nat -> Slot, limit: int)
    ensures var r := Pass(st, limit, env, 0, 0);
      && r.runQ == st.runQ && r.stopQ == st.stopQ
      && (r.running == [] && r.exec != [] <==> st.running == [] && CutShort(env, 0, |st.exec|))
  {
    PassKeepsLoad(st, limit, env, 0, 0);
    PassKeepsChildren(st, limit, env, 0, 0);
    if st.running == [] {
      PassStallsIff(st, limit, env, 0);
    }
  }

  /** A run ends stuck exactly if one of its steps stalls the queue and none after it touches it. */
  lemma {:induction false} RunStallsIff(steps: seq<Step>, limit: int)
    ensures Stuck(Run(steps, limit)) <==>
      exists n | 0 <= n < |steps| :: StallsAt(steps, limit, n)
  {
    hide Next, Stuck, Stalls, Idle;
    if steps == [] {
      assert !Stuck(INIT) by { InitIsNotStuck(); }
    } else {
      var last := |steps| - 1;
      var front := steps[..last];
      RunStallsIff(front, limit);
      NextStallsIff(Run(front, limit), steps[last], limit);
      forall n | 0 <= n < last
        ensures StallsAt(steps, limit, n) <==> StallsAt(front, limit, n) && Idle(Run(front, limit), steps[last])
      {
        StallsAtLonger(steps, limit, n);
      }
      assert StallsAt(steps, limit, last) <==> Stalls(Run(front, limit), steps[last]);
      if Stuck(Run(front, limit)) && Idle(Run(front, limit), steps[last]) {
        var n :| 0 <= n < last && StallsAt(front, limit, n);
        assert StallsAt(steps, limit, n);
      }
    }
  }

  lemma InitIsNotStuck()
    ensures !Stuck(INIT)
  {
  }

  /** Step n stalls the queue, and the steps after it leave it alone. */
  ghost predicate StallsAt(steps: seq<Step>, limit: int, n: nat)
    requires n < |steps|
  {
    && Stalls(Run(steps[..n], limit), steps[n])
    && forall i | n < i < |steps| :: Idle(Run(steps[..i], limit), steps[i])
  }

  lemma StallsAtLonger(steps: seq<Step>, limit: int, n: nat)
    requires n < |steps| - 1
    ensures var last := |steps| - 1;
      StallsAt(steps, limit, n) <==> StallsAt(steps[..last], limit, n) && Idle(Run(steps[..last], limit), steps[last])
  {
    hide Run, Idle, Stalls;
    var last := |steps| - 1;
    var front := steps[..last];
    assert forall i | 0 <= i < last :: front[..i] == steps[..i] && front[i] == steps[i];
  }

  const THROTTLED: nat -> Slot := k => Slot(true, ForkFailed)

  /** One event stays pending with nothing running and no pass due. */
  lemma ThrottlingCanStall(m: Event, limit: int)
    requires m.timeout == 0
    ensures var st := Run([Insert(m, ForkFailed), RunQueue(THROTTLED)], limit);
      st.exec == [m] && Stuck(st)
  {
    var s1, s2 := Insert(m, ForkFailed), RunQueue(THROTTLED);
    assert [s1, s2][..1] == [s1] && [s1][..0] == [];
    assert Run([s1], limit) == Next(INIT, s1, limit);
    assert Run([s1, s2], limit) == Next(Run([s1], limit), s2, limit);
  }
}
