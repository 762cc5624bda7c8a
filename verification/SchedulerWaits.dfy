/** What an event waits for, and what it does not wait for. */
module SchedulerWaits {
  import opened CStrings
  import opened Sequences
  import opened Scheduler
  import opened SchedulerSafety

  // ----- Paths -----

  /** An ancestor is the path up to some slash. */
  lemma AncestorIff(parent: CString, child: CString)
    ensures Ancestor(parent, child) <==> exists rest :: child == parent + "/" + rest
  {
    if Ancestor(parent, child) {
      assert child == parent + "/" + child[|parent|+1..];
    }
    forall rest: string | child == parent + "/" + rest
      ensures Ancestor(parent, child)
    {
      assert child[|parent|] == '/';
    }
  }

  /** The number that tells in which way two paths are related. */
  lemma RelationTells(a: CString, b: CString)
    ensures DevpathRelation(a, b) == 1 <==> a == b && |a| < PATH_SIZE
    ensures DevpathRelation(a, b) == 2 <==> DevpathRelation(b, a) == 3
    ensures DevpathRelation(a, b) == 2 ==> exists rest :: b == a + "/" + rest
  {
    AncestorIff(a, b);
    AncestorIff(b, a);
  }

  /** The same device, or a device and one below it, as far as one of the paths fits a buffer. */
  predicate Near(a: CString, b: CString) {
    (a == b || Ancestor(a, b) || Ancestor(b, a)) && (|a| < PATH_SIZE || |b| < PATH_SIZE)
  }

  // ----- What blocks an event -----

  /** An event waits for others about its own device or a related one, about the device it is moved
      away from, and, where it sets up a device, about the physical device below it or a related one. */
  lemma BlocksIff(e: Event, m: Event)
    ensures Blocks(e, m) <==>
      || Near(e.devpath, m.devpath)
      || m.devpathOld == Some(e.devpath)
      || (m.action == "add" && m.physdevpath.Some? && Near(e.devpath, m.physdevpath.value))
  {
    RelationIsExact(e.devpath, m.devpath);
    if m.physdevpath.Some? {
      RelationIsExact(e.devpath, m.physdevpath.value);
    }
    hide DevpathRelation, Ancestor;
  }

  /** In no run does a move that was started in turn run beside an event for the device's former name
      that was started before it. */
  lemma MoveNeverBesideFormer(steps: seq<Step>, limit: int, i: nat, j: nat)
    requires i < j < |Run(steps, limit).running| && Run(steps, limit).running[j].msg.timeout == 0
    ensures Run(steps, limit).running[j].msg.devpathOld != Some(Run(steps, limit).running[i].msg.devpath)
  {
    NeverRunTogether(steps, limit, i, j);
    BlocksIff(Run(steps, limit).running[i].msg, Run(steps, limit).running[j].msg);
    hide Run, Blocks, Near;
  }

  /** In no run is a device set up, in turn, beside an event started before it for its physical device,
      an ancestor of that or one below it. */
  lemma SetUpNeverBesidePhysical(steps: seq<Step>, limit: int, i: nat, j: nat)
    requires i < j < |Run(steps, limit).running| && Run(steps, limit).running[j].msg.timeout == 0
    ensures var a, b := Run(steps, limit).running[i].msg, Run(steps, limit).running[j].msg;
      b.action == "add" && b.physdevpath.Some? ==> !Near(a.devpath, b.physdevpath.value)
  {
    NeverRunTogether(steps, limit, i, j);
    BlocksIff(Run(steps, limit).running[i].msg, Run(steps, limit).running[j].msg);
    hide Run, Blocks, Near;
  }

  /** With increasing sequence numbers an event starts in turn only after all earlier ones it waits
      for have ended: those about related devices, ... */
  lemma WaitsForRelated(steps: seq<Step>, limit: int, a: Event, b: Event)
    requires Increasing(steps, limit)
    requires b in StartedSet(Run(steps, limit)) && b.timeout == 0
    requires a in Accepted(Run(steps, limit).log) && a.seqnum < b.seqnum && Near(a.devpath, b.devpath)
    ensures a in Ended(Run(steps, limit).log) && a !in LiveSet(Run(steps, limit).exec, Run(steps, limit).running)
  {
    BlocksIff(a, b);
    StartsOnlyAfterPredecessors(steps, limit, a, b);
  }

  /** ... about the device it is moved away from, ... */
  lemma MoveWaitsForFormer(steps: seq<Step>, limit: int, a: Event, b: Event)
    requires Increasing(steps, limit)
    requires b in StartedSet(Run(steps, limit)) && b.timeout == 0
    requires a in Accepted(Run(steps, limit).log) && a.seqnum < b.seqnum && b.devpathOld == Some(a.devpath)
    ensures a in Ended(Run(steps, limit).log) && a !in LiveSet(Run(steps, limit).exec, Run(steps, limit).running)
  {
    BlocksIff(a, b);
    StartsOnlyAfterPredecessors(steps, limit, a, b);
  }

  /** ... and about the physical device of one that is set up. */
  lemma SetUpWaitsForPhysical(steps: seq<Step>, limit: int, a: Event, b: Event)
    requires Increasing(steps, limit)
    requires b in StartedSet(Run(steps, limit)) && b.timeout == 0
    requires a in Accepted(Run(steps, limit).log) && a.seqnum < b.seqnum
    requires b.action == "add" && b.physdevpath.Some? && Near(a.devpath, b.physdevpath.value)
    ensures a in Ended(Run(steps, limit).log) && a !in LiveSet(Run(steps, limit).exec, Run(steps, limit).running)
  {
    BlocksIff(a, b);
    StartsOnlyAfterPredecessors(steps, limit, a, b);
  }

  // ----- When an event may start -----

  /** Event e is about nothing that m waits for. */
  predicate Apart(e: Event, m: Event) {
    && !Near(e.devpath, m.devpath)
    && (m.devpathOld.Some? ==> e.devpath != m.devpathOld.value)
    && (m.action == "add" && m.physdevpath.Some? ==> !Near(e.devpath, m.physdevpath.value))
  }

  lemma {:induction false} EarlierIsPosition(exec: seq<Event>, i: nat)
    requires i < |exec| && Sorted(exec)
    ensures Earlier(exec, exec[i].seqnum) == i
  {
    if i > 0 {
      EarlierIsPosition(exec[1..], i - 1);
    }
  }

  /** In every run with increasing sequence numbers, a pending event may start exactly if no event
      that is pending before it or running is about what it waits for, and at most limit + 1 children
      run, or there is no limit, or nothing runs. */
  lemma MayStartIff(steps: seq<Step>, limit: int, i: nat)
    requires Increasing(steps, limit) && i < |Run(steps, limit).exec|
    ensures var st := Run(steps, limit); var m := st.exec[i];
      Dispatchable(st.exec, st.running, m, limit) <==>
        && (forall k | 0 <= k < i :: Apart(st.exec[k], m))
        && (forall k | 0 <= k < |st.running| :: Apart(st.running[k].msg, m))
        && (limit == 0 || st.running == [] || |st.running| <= limit + 1)
  {
    SortedInRun(steps, limit);
    hide *;
    MayStartAmong(Run(steps, limit).exec, Run(steps, limit).running, i, limit);
  }

  predicate Sorted(exec: seq<Event>) {
    forall a, b | 0 <= a < b < |exec| :: exec[a].seqnum < exec[b].seqnum
  }

  lemma SortedInRun(steps: seq<Step>, limit: int)
    requires Increasing(steps, limit)
    ensures Sorted(Run(steps, limit).exec)
  {
    RunKeepsSeq(steps, limit);
  }

  lemma MayStartAmong(exec: seq<Event>, running: seq<Child>, i: nat, limit: int)
    requires i < |exec| && Sorted(exec)
    ensures Dispatchable(exec, running, exec[i], limit) <==>
      && (forall k | 0 <= k < i :: Apart(exec[k], exec[i]))
      && (forall k | 0 <= k < |running| :: Apart(running[k].msg, exec[i]))
      && (limit == 0 || running == [] || |running| <= limit + 1)
  {
    EarlierIsPosition(exec, i);
    hide Blocks, Apart, Sorted, Earlier;
    forall e: Event
      ensures Blocks(e, exec[i]) <==> !Apart(e, exec[i])
    {
      ApartIff(e, exec[i]);
    }
  }

  lemma ApartIff(e: Event, m: Event)
    ensures Blocks(e, m) <==> !Apart(e, m)
  {
    BlocksIff(e, m);
    hide Blocks, Near;
  }

  // ----- Throttling -----

  /** The state as if only the first n events were pending. */
  function FirstOf(st: State, n: nat): State
    requires n <= |st.exec|
  {
    st.(exec := st.exec[..n])
  }

  function WithMore(st: State, rest: seq<Event>): State {
    st.(exec := st.exec + rest)
  }

  /** The pass from position i on, iteration k on, is throttled when it gets to position n, not before. */
  predicate ThrottledAt(env: nat -> Slot, i: nat, k: nat, n: nat) {
    i <= n && env(k + (n - i)).throttled && forall j | k <= j < k + (n - i) :: !env(j).throttled
  }

  /** A pass that is throttled at its n-th iteration does to the first n pending events what a pass
      over these alone does, and leaves the others as they are. */
  lemma {:induction false} ThrottledPassIsPrefix(st: State, limit: int, env: nat -> Slot, i: nat, k: nat, n: nat)
    requires n <= |st.exec| && ThrottledAt(env, i, k, n)
    ensures Pass(st, limit, env, i, k) == WithMore(Pass(FirstOf(st, n), limit, env, i, k), st.exec[n..])
    decreases n - i
  {
    hide Pass, Dispatchable, Dispatch, FirstOf, WithMore;
    var front := FirstOf(st, n);
    FirstAndRest(st, n);
    if i == n {
      NothingToPass(st, limit, env, i, k);
      NothingToPass(front, limit, env, i, k);
    } else {
      DispatchableInFront(st.exec, n, st.running, i, limit);
      PassUnfolds(st, limit, env, i, k);
      PassUnfolds(front, limit, env, i, k);
      if Dispatchable(st.exec, st.running, st.exec[i], limit) {
        DispatchInFront(st, n, i, env(k).fork);
        ThrottledPassIsPrefix(Dispatch(st, i, env(k).fork), limit, env, i, k + 1, n - 1);
      } else {
        ThrottledPassIsPrefix(st, limit, env, i + 1, k + 1, n);
      }
    }
  }

  lemma FirstAndRest(st: State, n: nat)
    requires n <= |st.exec|
    ensures WithMore(FirstOf(st, n), st.exec[n..]) == st
    ensures FirstOf(st, n).exec == st.exec[..n] && FirstOf(st, n).running == st.running
    ensures forall i | 0 <= i < n :: FirstOf(st, n).exec[i] == st.exec[i]
  {
    assert st.exec[..n] + st.exec[n..] == st.exec;
  }

  lemma NothingToPass(st: State, limit: int, env: nat -> Slot, i: nat, k: nat)
    requires i >= |st.exec| || env(k).throttled
    ensures Pass(st, limit, env, i, k) == st
  {
  }

  /** Starting one of the first n events. */
  lemma DispatchInFront(st: State, n: nat, i: nat, fork: Fork)
    requires i < n <= |st.exec|
    ensures var r := Dispatch(st, i, fork);
      && |r.exec| == |st.exec| - 1 && r.exec[n-1..] == st.exec[n..]
      && FirstOf(r, n - 1) == Dispatch(FirstOf(st, n), i, fork)
  {
    var exec, exec1 := RemoveAt(st.exec, i), RemoveAt(st.exec[..n], i);
    assert st.exec[..n][i] == st.exec[i];
    assert exec[..n-1] == exec1 && exec[n-1..] == st.exec[n..];
    hide Start;
    StartElsewhere(st, exec, exec1, st.exec[i], fork);
  }

  lemma PassUnfolds(st: State, limit: int, env: nat -> Slot, i: nat, k: nat)
    requires i < |st.exec| && !env(k).throttled
    ensures Pass(st, limit, env, i, k) ==
      if Dispatchable(st.exec, st.running, st.exec[i], limit) then Pass(Dispatch(st, i, env(k).fork), limit, env, i, k + 1)
      else Pass(st, limit, env, i + 1, k + 1)
  {
    hide Dispatchable, Start;
  }

  /** Starting an event does not depend on what is pending. */
  lemma StartElsewhere(st: State, exec: seq<Event>, exec1: seq<Event>, m: Event, fork: Fork)
    ensures Start(st.(exec := exec), m, fork) == Start(st.(exec := exec1), m, fork).(exec := exec)
    ensures Start(st.(exec := exec), m, fork).exec == exec
  {
  }

  lemma {:induction false} EarlierInFront(exec: seq<Event>, front: seq<Event>, seqnum: nat, i: nat)
    requires front <= exec && i < |front| && front[i].seqnum >= seqnum
    ensures Earlier(exec, seqnum) == Earlier(front, seqnum) <= i
    decreases i
  {
    if front[0].seqnum < seqnum {
      EarlierInFront(exec[1..], front[1..], seqnum, i - 1);
    }
  }

  lemma DispatchableInFront(exec: seq<Event>, n: nat, running: seq<Child>, i: nat, limit: int)
    requires i < n <= |exec|
    ensures Dispatchable(exec, running, exec[i], limit) <==> Dispatchable(exec[..n], running, exec[i], limit)
  {
    hide Blocks;
    EarlierInFront(exec, exec[..n], exec[i].seqnum, i);
    assert forall k | 0 <= k < n :: exec[..n][k] == exec[k];
  }

  // ----- A stopped queue -----

  /** While the queue is stopped nothing is started in turn, and nothing pending is lost. */
  lemma StoppedQueueWaits(st: State, step: Step, limit: int)
    requires st.stopQ && !step.StartQueue?
    ensures var r := Next(st, step, limit);
      && r.stopQ
      && r.exec == st.exec + (if step.Insert? && step.msg.timeout == 0 then [step.msg] else [])
      && forall c | c in r.running && c.msg.timeout == 0 :: c in st.running
  {
    hide FailedAfterFinish;
  }

  /** From a stop of the queue on, until it is started again, no event is started in turn. */
  lemma {:induction false} NothingStartsWhileStopped(front: seq<Step>, tail: seq<Step>, limit: int)
    requires forall s | s in tail :: !s.StartQueue?
    ensures var st, r := Run(front, limit), Run(front + [StopQueue] + tail, limit);
      && r.stopQ && st.exec <= r.exec
      && forall c | c in r.running && c.msg.timeout == 0 :: c in st.running
  {
    hide *;
    if tail == [] {
      assert front + [StopQueue] + tail == front + [StopQueue];
      LastStep(front, StopQueue, limit);
    } else {
      var n := |tail| - 1;
      var before := front + [StopQueue] + tail[..n];
      NothingStartsWhileStopped(front, tail[..n], limit);
      assert front + [StopQueue] + tail == before + [tail[n]];
      LastStep(before, tail[n], limit);
      StoppedQueueWaits(Run(before, limit), tail[n], limit);
    }
  }

  lemma LastStep(steps: seq<Step>, step: Step, limit: int)
    ensures Run(steps + [step], limit) == Next(Run(steps, limit), step, limit)
    ensures step == StopQueue ==> Run(steps + [step], limit) == Run(steps, limit).(stopQ := true)
  {
    assert (steps + [step])[..|steps|] == steps;
  }
}
