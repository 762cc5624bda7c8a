/** Related events start in order and never run together; no event is lost or handled twice. */
module SchedulerSafety {
  import opened CStrings
  import opened Sequences
  import opened Scheduler

  // ----- Bookkeeping over the log and the lists -----

  function Msgs(running: seq<Child>): (s: seq<Event>)
    ensures |s| == |running| && forall i | 0 <= i < |s| :: s[i] == running[i].msg
  {
    seq(|running|, i requires 0 <= i < |running| => running[i].msg)
  }

  /** The accepted events, in the order they were exported as queued. */
  function Accepted(log: seq<Export>): seq<Event> {
    if log == [] then [] else
    Accepted(log[..|log|-1]) + if log[|log|-1].Queued? then [log[|log|-1].msg] else []
  }

  /** The events exported as finished or failed, in that order. */
  function Ended(log: seq<Export>): seq<Event> {
    if log == [] then [] else
    Ended(log[..|log|-1]) + if log[|log|-1].Queued? then [] else [log[|log|-1].msg]
  }

  /** The events that are pending or running. */
  ghost function Live(st: State): multiset<Event> {
    multiset(st.exec) + multiset(Msgs(st.running))
  }

  lemma LogGrows(log: seq<Export>, x: Export)
    ensures Accepted(log + [x]) == Accepted(log) + if x.Queued? then [x.msg] else []
    ensures Ended(log + [x]) == Ended(log) + if x.Queued? then [] else [x.msg]
  {
    assert (log + [x])[..|log|] == log;
  }

  lemma RemovedMultiset<T>(s: seq<T>, i: nat)
    requires i < |s|
    ensures multiset(RemoveAt(s, i)) == multiset(s) - multiset{s[i]}
    ensures multiset(s) == multiset(RemoveAt(s, i)) + multiset{s[i]}
  {
    assert s == s[..i] + [s[i]] + s[i+1..];
  }

  lemma MsgsRemove(running: seq<Child>, i: nat)
    requires i < |running|
    ensures Msgs(RemoveAt(running, i)) == RemoveAt(Msgs(running), i)
  {
  }

  lemma MsgsAppend(running: seq<Child>, c: Child)
    ensures Msgs(running + [c]) == Msgs(running) + [c.msg]
  {
  }

  // ----- Invariants of every run, whatever the events and sequence numbers -----

  /** A child whose message has no timeout was forked only when nothing before it in the
      running list blocked it. */
  ghost predicate Exclusive(running: seq<Child>) {
    forall i, j | 0 <= i < j < |running| && running[j].msg.timeout == 0 :: !Blocks(running[i].msg, running[j].msg)
  }

  /** Live, ended and the events just between two lists make up the accepted ones. */
  ghost predicate Conserved(st: State, between: multiset<Event>) {
    Live(st) + between + multiset(Ended(st.log)) == multiset(Accepted(st.log))
  }

  /** The number of children that were not started out of turn. */
  function Ordinary(running: seq<Child>): (n: nat)
    ensures n <= |running|
  {
    if running == [] then 0 else
    Ordinary(running[..|running|-1]) + if running[|running|-1].msg.timeout == 0 then 1 else 0
  }

  ghost predicate Inv(st: State, limit: int) {
    && Exclusive(st.running)
    && Conserved(st, multiset{})
    && (limit > 0 ==> Ordinary(st.running) <= limit + 2)
    && (forall i | 0 <= i < |st.exec| :: st.exec[i].timeout == 0)
  }

  lemma OrdinaryAppend(running: seq<Child>, c: Child)
    ensures Ordinary(running + [c]) == Ordinary(running) + if c.msg.timeout == 0 then 1 else 0
  {
    assert (running + [c])[..|running|] == running;
  }

  lemma {:induction false} OrdinaryRemove(running: seq<Child>, i: nat)
    requires i < |running|
    ensures Ordinary(RemoveAt(running, i)) <= Ordinary(running)
    decreases |running|
  {
    var n := |running| - 1;
    if i == n {
      assert RemoveAt(running, i) == running[..n];
    } else {
      OrdinaryRemove(running[..n], i);
      assert RemoveAt(running, i) == RemoveAt(running[..n], i) + [running[n]];
      OrdinaryAppend(RemoveAt(running[..n], i), running[n]);
    }
  }

  lemma DeleteConserves(st: State, m: Event, status: int)
    requires Conserved(st, multiset{m})
    ensures Conserved(Delete(st, m, status), multiset{})
  {
    hide Accepted, Ended;
    LogGrows(st.log, Failed(m, status));
    LogGrows(st.log, Finished(m, status));
  }

  lemma AcceptConserves(st: State, m: Event)
    requires Conserved(st, multiset{})
    ensures Conserved(ExportQueued(st, m), multiset{m})
  {
    hide Accepted, Ended;
    LogGrows(st.log, Queued(m));
  }

  lemma TakeOffExecConserves(st: State, i: nat)
    requires i < |st.exec| && Conserved(st, multiset{})
    ensures Conserved(st.(exec := RemoveAt(st.exec, i)), multiset{st.exec[i]})
  {
    hide Accepted, Ended;
    RemovedMultiset(st.exec, i);
  }

  lemma TakeOffRunningConserves(st: State, i: nat)
    requires i < |st.running| && Conserved(st, multiset{})
    ensures Conserved(st.(running := RemoveAt(st.running, i)), multiset{st.running[i].msg})
  {
    hide Accepted, Ended;
    MsgsRemove(st.running, i);
    RemovedMultiset(Msgs(st.running), i);
  }

  lemma RunConserves(st: State, m: Event, pid: int)
    requires Conserved(st, multiset{m})
    ensures Conserved(st.(running := st.running + [Child(m, pid)]), multiset{})
  {
    hide Accepted, Ended;
    MsgsAppend(st.running, Child(m, pid));
  }

  lemma StartKeeps(st: State, m: Event, fork: Fork, limit: int)
    requires Exclusive(st.running)
    requires m.timeout == 0 ==> forall i | 0 <= i < |st.running| :: !Blocks(st.running[i].msg, m)
    requires Conserved(st, multiset{m})
    requires limit > 0 ==> Ordinary(st.running) + (if m.timeout == 0 then 1 else 0) <= limit + 2
    requires forall i | 0 <= i < |st.exec| :: st.exec[i].timeout == 0
    ensures Inv(Start(st, m, fork), limit)
  {
    hide Blocks, Conserved, Ordinary;
    match fork {
      case Forked(pid) =>
        RunConserves(st, m, pid);
        OrdinaryAppend(st.running, Child(m, pid));
      case ForkFailed =>
        DeleteConserves(st, m, 0);
    }
  }

  lemma InsertKeeps(st: State, m: Event, fork: Fork, limit: int)
    requires Inv(st, limit)
    ensures Inv(InsertEvent(st, m, fork), limit)
  {
    hide Blocks, Exclusive, Ordinary, Accepted, Ended;
    var st1 := ExportQueued(st, m);
    AcceptConserves(st, m);
    if m.timeout != 0 {
      hide Conserved;
      StartKeeps(st1, m, fork, limit);
    } else {
      PutOnExecConserves(st1, m);
      hide Conserved;
    }
  }

  lemma PutOnExecConserves(st: State, m: Event)
    requires Conserved(st, multiset{m})
    ensures Conserved(st.(exec := st.exec + [m], runQ := true), multiset{})
  {
    hide Accepted, Ended;
  }

  /** One event leaves the exec list for the running list, or is deleted on a failed fork. */
  function Dispatch(st: State, i: nat, fork: Fork): State
    requires i < |st.exec|
  {
    Start(st.(exec := RemoveAt(st.exec, i)), st.exec[i], fork)
  }

  lemma DispatchKeeps(st: State, i: nat, fork: Fork, limit: int)
    requires Inv(st, limit)
    requires i < |st.exec| && Dispatchable(st.exec, st.running, st.exec[i], limit)
    ensures Inv(Dispatch(st, i, fork), limit)
  {
    hide Blocks, Exclusive, Conserved;
    TakeOffExecConserves(st, i);
    StartKeeps(st.(exec := RemoveAt(st.exec, i)), st.exec[i], fork, limit);
  }

  lemma {:induction false} PassKeeps(st: State, limit: int, env: nat -> Slot, i: nat, k: nat)
    requires Inv(st, limit)
    ensures Inv(Pass(st, limit, env, i, k), limit)
    decreases |st.exec| - i
  {
    hide Inv, Dispatchable;
    if i >= |st.exec| || env(k).throttled {
    } else if !Dispatchable(st.exec, st.running, st.exec[i], limit) {
      PassKeeps(st, limit, env, i + 1, k + 1);
    } else {
      DispatchKeeps(st, i, env(k).fork, limit);
      PassKeeps(Dispatch(st, i, env(k).fork), limit, env, i, k + 1);
    }
  }

  lemma ExclusiveRemove(running: seq<Child>, i: nat)
    requires i < |running| && Exclusive(running)
    ensures Exclusive(RemoveAt(running, i))
  {
  }

  lemma ReapKeeps(st: State, pid: int, status: int, limit: int)
    requires Inv(st, limit)
    ensures Inv(ReapChild(st, pid, status), limit)
  {
    hide Exclusive, Conserved, Ordinary;
    var i := FindPid(st.running, pid);
    if i < |st.running| {
      TakeOffRunningConserves(st, i);
      OrdinaryRemove(st.running, i);
      ExclusiveRemove(st.running, i);
      var st1 := st.(running := RemoveAt(st.running, i));
      DeleteConserves(st1, st.running[i].msg, status);
      FlagKeepsConserved(Delete(st1, st.running[i].msg, status), true, st.stopQ);
    }
  }

  lemma FlagKeepsConserved(st: State, runQ: bool, stopQ: bool)
    requires Conserved(st, multiset{})
    ensures Conserved(st.(runQ := runQ, stopQ := stopQ), multiset{})
  {
  }

  lemma NextKeeps(st: State, step: Step, limit: int)
    requires Inv(st, limit)
    ensures Inv(Next(st, step, limit), limit)
  {
    match step {
      case Insert(m, fork) => InsertKeeps(st, m, fork, limit);
      case Reap(pid, status) => ReapKeeps(st, pid, status, limit);
      case RunQueue(env) => PassKeeps(st.(runQ := false), limit, env, 0, 0);
      case StopQueue =>
      case StartQueue(env) => PassKeeps(st.(stopQ := false), limit, env, 0, 0);
    }
  }

  lemma {:induction false} RunKeeps(steps: seq<Step>, limit: int)
    ensures Inv(Run(steps, limit), limit)
  {
    if steps == [] {
    } else {
      RunKeeps(steps[..|steps|-1], limit);
      NextKeeps(Run(steps[..|steps|-1], limit), steps[|steps|-1], limit);
    }
  }

  // ----- Main results for every run -----

  /** The daemon compares device paths exactly as far as a path buffer reaches. */
  lemma RelationIsExact(a: string, b: string)
    ensures DevpathRelation(a, b) != 0 <==>
              (a == b || Ancestor(a, b) || Ancestor(b, a)) && (|a| < PATH_SIZE || |b| < PATH_SIZE)
    ensures DevpathRelation(a, b) != 0 <==> DevpathRelation(b, a) != 0
  {
  }

  /** Two events for the same device, or for a device and its ancestor, never run together,
      unless the one started later was started out of turn because it carries a timeout. */
  lemma NeverRunTogether(steps: seq<Step>, limit: int, i: nat, j: nat)
    requires i < j < |Run(steps, limit).running|
    requires Run(steps, limit).running[j].msg.timeout == 0
    ensures var a, b := Run(steps, limit).running[i].msg, Run(steps, limit).running[j].msg;
      && !Blocks(a, b)
      && (|a.devpath| < PATH_SIZE || |b.devpath| < PATH_SIZE ==>
           a.devpath != b.devpath && !Ancestor(a.devpath, b.devpath) && !Ancestor(b.devpath, a.devpath))
  {
    RunKeeps(steps, limit);
  }

  /** Every accepted event is counted once among pending, running and ended. */
  lemma NothingLostOrDuplicated(steps: seq<Step>, limit: int)
    ensures var st := Run(steps, limit);
      multiset(st.exec) + multiset(Msgs(st.running)) + multiset(Ended(st.log)) == multiset(Accepted(st.log))
  {
    RunKeeps(steps, limit);
  }

  /** With a positive limit, at most limit + 2 children run that were started in turn. */
  lemma RunningBound(steps: seq<Step>, limit: int)
    requires limit > 0
    ensures Ordinary(Run(steps, limit).running) <= limit + 2
    ensures (forall i | 0 <= i < |Run(steps, limit).running| :: Run(steps, limit).running[i].msg.timeout == 0)
              ==> |Run(steps, limit).running| <= limit + 2
  {
    RunKeeps(steps, limit);
    OrdinaryAll(Run(steps, limit).running);
  }

  lemma {:induction false} OrdinaryAll(running: seq<Child>)
    ensures (forall i | 0 <= i < |running| :: running[i].msg.timeout == 0) ==> Ordinary(running) == |running|
  {
    if running == [] {
    } else {
      OrdinaryAll(running[..|running|-1]);
    }
  }

  // ----- Runs in which sequence numbers increase -----

  /** Each accepted event has a larger sequence number than all accepted before it. */
  ghost predicate Increasing(steps: seq<Step>, limit: int) {
    forall n | 0 <= n < |steps| && steps[n].Insert? :: FreshSeqnum(Run(steps[..n], limit).log, steps[n].msg)
  }

  ghost predicate FreshSeqnum(log: seq<Export>, m: Event) {
    forall e | e in Accepted(log) :: e.seqnum < m.seqnum
  }

  /** The exec list is sorted by sequence number, and no number occurs twice on the lists. */
  ghost predicate ListsDistinct(exec: seq<Event>, running: seq<Child>) {
    && (forall i, j | 0 <= i < j < |exec| :: exec[i].seqnum < exec[j].seqnum)
    && (forall i, j | 0 <= i < j < |running| :: running[i].msg.seqnum != running[j].msg.seqnum)
    && (forall i, j | 0 <= i < |exec| && 0 <= j < |running| :: exec[i].seqnum != running[j].msg.seqnum)
  }

  /** The events that are pending or running. */
  function LiveSet(exec: seq<Event>, running: seq<Child>): set<Event> {
    (set e | e in exec) + (set c | c in running :: c.msg)
  }

  /** The events that have left the exec list or never went through it. */
  function StartedSet(st: State): set<Event> {
    (set c | c in st.running :: c.msg) + (set e | e in Ended(st.log))
  }

  /** An event that has started, other than out of turn, has no blocking predecessor left. */
  ghost predicate Ordered(live: set<Event>, started: set<Event>) {
    forall a, b | a in live && b in started && b.timeout == 0 && a.seqnum < b.seqnum :: !Blocks(a, b)
  }

  /** The queue directory lists exactly the live events. */
  ghost predicate QueueDirExact(queueDir: map<nat, CString>, live: set<Event>) {
    && (forall e | e in live :: e.seqnum in queueDir && queueDir[e.seqnum] == e.devpath)
    && (forall s | s in queueDir :: exists e :: e in live && e.seqnum == s)
  }

  function FailedAfter(failedDir: set<CString>, x: Export): set<CString> {
    match x
    case Queued(m) => failedDir - {m.devpath}
    case Finished(m, _) => FailedAfterFinish(failedDir, m)
    case Failed(m, _) => failedDir + {m.devpath}
  }

  /** The failed directory as the log alone determines it. */
  function FailedByLog(log: seq<Export>): set<CString> {
    if log == [] then {} else FailedAfter(FailedByLog(log[..|log|-1]), log[|log|-1])
  }

  /** Every accepted event is live or has ended, and no other event is. */
  ghost predicate Accounted(live: set<Event>, log: seq<Export>) {
    forall e :: e in Accepted(log) <==> e in live || e in Ended(log)
  }

  ghost predicate SeqInv(st: State) {
    var live := LiveSet(st.exec, st.running);
    && ListsDistinct(st.exec, st.running)
    && Ordered(live, StartedSet(st))
    && QueueDirExact(st.queueDir, live)
    && Accounted(live, st.log)
    && st.failedDir == FailedByLog(st.log)
  }

  lemma FailedLogGrows(log: seq<Export>, x: Export)
    ensures FailedByLog(log + [x]) == FailedAfter(FailedByLog(log), x)
  {
    assert (log + [x])[..|log|] == log;
  }

  lemma QueueDirRemove(queueDir: map<nat, CString>, live: set<Event>, m: Event)
    requires QueueDirExact(queueDir, live + {m})
    requires forall e | e in live :: e.seqnum != m.seqnum
    ensures QueueDirExact(queueDir - {m.seqnum}, live)
  {
  }

  lemma TakenOffExec(exec: seq<Event>, running: seq<Child>, i: nat)
    requires i < |exec| && ListsDistinct(exec, running)
    ensures var exec1 := RemoveAt(exec, i);
      && ListsDistinct(exec1, running)
      && LiveSet(exec, running) == LiveSet(exec1, running) + {exec[i]}
      && (forall e | e in LiveSet(exec1, running) :: e.seqnum != exec[i].seqnum)
  {
  }

  lemma TakenOffRunning(exec: seq<Event>, running: seq<Child>, i: nat)
    requires i < |running| && ListsDistinct(exec, running)
    ensures var running1 := RemoveAt(running, i);
      && ListsDistinct(exec, running1)
      && LiveSet(exec, running) == LiveSet(exec, running1) + {running[i].msg}
      && (forall e | e in LiveSet(exec, running1) :: e.seqnum != running[i].msg.seqnum)
      && (set c | c in running :: c.msg) == (set c | c in running1 :: c.msg) + {running[i].msg}
  {
  }

  lemma PutOnRunning(exec: seq<Event>, running: seq<Child>, c: Child)
    requires ListsDistinct(exec, running)
    requires forall e | e in LiveSet(exec, running) :: e.seqnum != c.msg.seqnum
    ensures ListsDistinct(exec, running + [c])
    ensures LiveSet(exec, running + [c]) == LiveSet(exec, running) + {c.msg}
    ensures (set d | d in running + [c] :: d.msg) == (set d | d in running :: d.msg) + {c.msg}
  {
  }

  lemma PutOnExec(exec: seq<Event>, running: seq<Child>, m: Event)
    requires ListsDistinct(exec, running)
    requires forall e | e in LiveSet(exec, running) :: e.seqnum < m.seqnum
    ensures ListsDistinct(exec + [m], running)
    ensures LiveSet(exec + [m], running) == LiveSet(exec, running) + {m}
  {
  }

  lemma DeleteLog(st: State, m: Event, status: int)
    ensures Accepted(Delete(st, m, status).log) == Accepted(st.log)
    ensures Ended(Delete(st, m, status).log) == Ended(st.log) + [m]
    ensures st.failedDir == FailedByLog(st.log) && m.seqnum in st.queueDir ==>
              Delete(st, m, status).failedDir == FailedByLog(Delete(st, m, status).log)
  {
    LogGrows(st.log, Failed(m, status));
    LogGrows(st.log, Finished(m, status));
    FailedLogGrows(st.log, Failed(m, status));
    FailedLogGrows(st.log, Finished(m, status));
  }

  /** Message m is off the lists but not yet accounted for as running or deleted. */
  ghost predicate InTransit(st: State, m: Event) {
    var live := LiveSet(st.exec, st.running);
    && ListsDistinct(st.exec, st.running)
    && (forall e | e in live :: e.seqnum != m.seqnum)
    && Ordered(live + {m}, StartedSet(st))
    && Ordered(live, {m})
    && QueueDirExact(st.queueDir, live + {m})
    && Accounted(live + {m}, st.log)
    && st.failedDir == FailedByLog(st.log)
  }

  lemma DeleteKeepsSeq(st: State, m: Event, status: int)
    requires InTransit(st, m)
    ensures SeqInv(Delete(st, m, status))
  {
    hide Blocks, FailedByLog, Accepted, Ended;
    var live := LiveSet(st.exec, st.running);
    DeleteLog(st, m, status);
    QueueDirRemove(st.queueDir, live, m);
    var r := Delete(st, m, status);
    assert StartedSet(r) == StartedSet(st) + {m};
  }

  lemma StartKeepsSeq(st: State, m: Event, fork: Fork)
    requires InTransit(st, m)
    ensures SeqInv(Start(st, m, fork))
  {
    hide Blocks, FailedByLog, Accepted, Ended;
    match fork {
      case ForkFailed => DeleteKeepsSeq(st, m, 0);
      case Forked(pid) =>
        PutOnRunning(st.exec, st.running, Child(m, pid));
        var r := Start(st, m, fork);
        assert StartedSet(r) == StartedSet(st) + {m};
    }
  }

  lemma AcceptKeepsSeq(st: State, m: Event)
    requires SeqInv(st) && FreshSeqnum(st.log, m)
    ensures var r, live := ExportQueued(st, m), LiveSet(st.exec, st.running);
      && (forall e | e in live :: e.seqnum < m.seqnum)
      && Ordered(live + {m}, StartedSet(r))
      && QueueDirExact(r.queueDir, live + {m})
      && Accounted(live + {m}, r.log)
      && r.failedDir == FailedByLog(r.log)
  {
  }

  lemma InsertKeepsSeq(st: State, m: Event, fork: Fork)
    requires SeqInv(st) && FreshSeqnum(st.log, m)
    ensures SeqInv(InsertEvent(st, m, fork))
  {
    hide FailedByLog, Accepted, Ended, QueueDirExact, Accounted;
    if m.timeout != 0 {
      hide Blocks;
      AcceptKeepsSeq(st, m);
      StartKeepsSeq(ExportQueued(st, m), m, fork);
    } else {
      hide Ordered, ListsDistinct;
      AcceptKeepsSeq(st, m);
      PutOnExec(st.exec, st.running, m);
      assert StartedSet(InsertEvent(st, m, fork)) == StartedSet(ExportQueued(st, m));
    }
  }

  lemma DispatchableIsUnblocked(exec: seq<Event>, running: seq<Child>, i: nat, limit: int)
    requires i < |exec| && ListsDistinct(exec, running)
    requires Dispatchable(exec, running, exec[i], limit)
    ensures Ordered(LiveSet(RemoveAt(exec, i), running), {exec[i]})
  {
  }

  lemma DispatchKeepsSeq(st: State, i: nat, fork: Fork, limit: int)
    requires SeqInv(st)
    requires i < |st.exec| && Dispatchable(st.exec, st.running, st.exec[i], limit)
    ensures SeqInv(Dispatch(st, i, fork))
  {
    DispatchableIsUnblocked(st.exec, st.running, i, limit);
    hide Blocks, FailedByLog, Accepted, Ended, Dispatchable;
    TakenOffExec(st.exec, st.running, i);
    StartKeepsSeq(st.(exec := RemoveAt(st.exec, i)), st.exec[i], fork);
  }

  lemma {:induction false} PassKeepsSeq(st: State, limit: int, env: nat -> Slot, i: nat, k: nat)
    requires SeqInv(st)
    ensures SeqInv(Pass(st, limit, env, i, k))
    decreases |st.exec| - i
  {
    hide SeqInv, Dispatchable;
    if i >= |st.exec| || env(k).throttled {
    } else if !Dispatchable(st.exec, st.running, st.exec[i], limit) {
      PassKeepsSeq(st, limit, env, i + 1, k + 1);
    } else {
      DispatchKeepsSeq(st, i, env(k).fork, limit);
      PassKeepsSeq(Dispatch(st, i, env(k).fork), limit, env, i, k + 1);
    }
  }

  lemma ReapKeepsSeq(st: State, pid: int, status: int)
    requires SeqInv(st)
    ensures SeqInv(ReapChild(st, pid, status))
  {
    var i := FindPid(st.running, pid);
    if i < |st.running| {
      hide Blocks, FailedByLog, Accepted, Ended;
      var m, st1 := st.running[i].msg, st.(running := RemoveAt(st.running, i));
      TakenOffRunning(st.exec, st.running, i);
      var live := LiveSet(st1.exec, st1.running);
      assert m in StartedSet(st);
      assert StartedSet(st1) <= StartedSet(st);
      assert live + {m} == LiveSet(st.exec, st.running);
      DeleteKeepsSeq(st1, m, status);
    }
  }

  lemma FrontIncreases(steps: seq<Step>, limit: int)
    requires steps != [] && Increasing(steps, limit)
    ensures Increasing(steps[..|steps|-1], limit)
    ensures steps[|steps|-1].Insert? ==>
              FreshSeqnum(Run(steps[..|steps|-1], limit).log, steps[|steps|-1].msg)
  {
    hide Run, FreshSeqnum;
    var n := |steps| - 1;
    forall p | 0 <= p < n && steps[..n][p].Insert?
      ensures FreshSeqnum(Run(steps[..n][..p], limit).log, steps[..n][p].msg)
    {
      assert steps[..n][..p] == steps[..p];
    }
  }

  lemma {:induction false} RunKeepsSeq(steps: seq<Step>, limit: int)
    requires Increasing(steps, limit)
    ensures SeqInv(Run(steps, limit))
  {
    if steps != [] {
      var n := |steps| - 1;
      FrontIncreases(steps, limit);
      hide SeqInv, FreshSeqnum, Increasing, Next;
      RunKeepsSeq(steps[..n], limit);
      NextKeepsSeq(Run(steps[..n], limit), steps[n], limit);
    } else {
      InitIsSeq();
    }
  }

  lemma InitIsSeq()
    ensures SeqInv(INIT)
  {
  }

  lemma NextKeepsSeq(st: State, step: Step, limit: int)
    requires SeqInv(st)
    requires step.Insert? ==> FreshSeqnum(st.log, step.msg)
    ensures SeqInv(Next(st, step, limit))
  {
    hide ListsDistinct, Ordered, QueueDirExact, Accounted, FailedByLog;
    match step {
      case Insert(m, fork) => InsertKeepsSeq(st, m, fork);
      case Reap(pid, status) => ReapKeepsSeq(st, pid, status);
      case RunQueue(env) => PassKeepsSeq(st.(runQ := false), limit, env, 0, 0);
      case StopQueue =>
      case StartQueue(env) => PassKeepsSeq(st.(stopQ := false), limit, env, 0, 0);
    }
  }

  // ----- Main results for runs with increasing sequence numbers -----

  /** Once event b has started in turn, every event before it that blocks it has been
      deleted from both lists, that is, has been exported as finished or failed. */
  lemma StartsOnlyAfterPredecessors(steps: seq<Step>, limit: int, a: Event, b: Event)
    requires Increasing(steps, limit)
    requires b in StartedSet(Run(steps, limit)) && b.timeout == 0
    requires a in Accepted(Run(steps, limit).log) && a.seqnum < b.seqnum && Blocks(a, b)
    ensures a in Ended(Run(steps, limit).log)
    ensures a !in LiveSet(Run(steps, limit).exec, Run(steps, limit).running)
  {
    hide Blocks, Accepted, Ended;
    RunKeepsSeq(steps, limit);
  }

  /** The queue directory holds one link per pending or running event and nothing else. */
  lemma QueueDirectoryTellsTheTruth(steps: seq<Step>, limit: int, s: nat)
    requires Increasing(steps, limit)
    ensures var st := Run(steps, limit);
      && (s in st.queueDir <==> exists e :: e in LiveSet(st.exec, st.running) && e.seqnum == s)
      && (forall e | e in LiveSet(st.exec, st.running) && e.seqnum == s :: st.queueDir[s] == e.devpath)
  {
    hide Ordered;
    RunKeepsSeq(steps, limit);
  }

  ghost predicate LastIsFailure(log: seq<Export>, path: CString, i: int) {
    && 0 <= i < |log| && log[i].Failed? && log[i].msg.devpath == path
    && (forall j | i < j < |log| :: log[j].msg.devpath != path)
  }

  /** Without move events, a device path is in the failed directory exactly when the last
      thing exported for it is a failure. */
  lemma FailedDirectoryTellsTheTruth(steps: seq<Step>, limit: int, path: CString)
    requires Increasing(steps, limit)
    requires forall x | x in Run(steps, limit).log :: x.msg.devpathOld.None?
    ensures var st := Run(steps, limit);
      path in st.failedDir <==>
        exists i :: LastIsFailure(st.log, path, i)
  {
    RunKeepsSeq(steps, limit);
    LastExportDecides(Run(steps, limit).log, path);
  }

  lemma {:induction false} LastExportDecides(log: seq<Export>, path: CString)
    requires forall x | x in log :: x.msg.devpathOld.None?
    ensures path in FailedByLog(log) <==>
              exists i :: LastIsFailure(log, path, i)
  {
    if log == [] {
    } else {
      var n := |log| - 1;
      var front := log[..n];
      LastExportDecides(front, path);
      assert log[n] in log;
      if log[n].msg.devpath != path {
        forall i | LastIsFailure(front, path, i)
          ensures LastIsFailure(log, path, i)
        {
          assert forall j | i <= j < n :: front[j] == log[j];
        }
        forall i | LastIsFailure(log, path, i)
          ensures LastIsFailure(front, path, i)
        {
          assert i != n;
          assert forall j | i <= j < n :: front[j] == log[j];
        }
      } else {
        assert log[n].Failed? ==> LastIsFailure(log, path, n);
      }
    }
  }

  // ----- Failures and renames -----

  /** Where a failure recorded under the path is recorded after the export, if it still is: a new or
      finished event for the path clears it, and a finished move of the path takes it along. */
  function Carried(x: Export, path: CString): Option<CString> {
    match x
    case Failed(_, _) => Some(path)
    case Queued(m) => if m.devpath == path then None else Some(path)
    case Finished(m, _) =>
      match m.devpathOld
      case Some(former) => Some(if former == path then m.devpath else path)
      case None => if m.devpath == path then None else Some(path)
  }

  /** Where the failure exported at position i is recorded at the end of the log. */
  function Traced(log: seq<Export>, i: nat): Option<CString>
    requires i < |log| && log[i].Failed?
  {
    var n := |log| - 1;
    if i == n then Some(log[n].msg.devpath)
    else
      match Traced(log[..n], i)
      case None => None
      case Some(path) => Carried(log[n], path)
  }

  ghost predicate TracedTo(log: seq<Export>, i: nat, path: CString) {
    i < |log| && log[i].Failed? && Traced(log, i) == Some(path)
  }

  /** With moves or without, a path is in the failed directory exactly when some failure, followed
      through all exports after it, is recorded under it. */
  lemma FailuresFollowRenames(steps: seq<Step>, limit: int, path: CString)
    requires Increasing(steps, limit)
    ensures var st := Run(steps, limit);
      path in st.failedDir <==> exists i: nat :: TracedTo(st.log, i, path)
  {
    RunKeepsSeq(steps, limit);
    FailuresAreTraced(Run(steps, limit).log, path);
  }

  lemma CarriedSet(failedDir: set<CString>, x: Export, path: CString)
    ensures path in FailedAfter(failedDir, x) <==>
      || (x.Failed? && x.msg.devpath == path)
      || exists p | p in failedDir :: Carried(x, p) == Some(path)
  {
    if path in FailedAfter(failedDir, x) && !(x.Failed? && x.msg.devpath == path) {
      if x.Finished? && x.msg.devpathOld.Some? && x.msg.devpathOld.value in failedDir && x.msg.devpath == path {
        assert Carried(x, x.msg.devpathOld.value) == Some(path);
      } else {
        assert path in failedDir && Carried(x, path) == Some(path);
      }
    }
  }

  lemma {:induction false} FailuresAreTraced(log: seq<Export>, path: CString)
    ensures path in FailedByLog(log) <==> exists i: nat :: TracedTo(log, i, path)
  {
    if log != [] {
      hide Carried, FailedAfter;
      var n := |log| - 1;
      var front, x := log[..n], log[n];
      CarriedSet(FailedByLog(front), x, path);
      if path in FailedByLog(log) {
        if x.Failed? && x.msg.devpath == path {
          assert TracedTo(log, n, path);
        } else {
          var p :| p in FailedByLog(front) && Carried(x, p) == Some(path);
          FailuresAreTraced(front, p);
          var i: nat :| TracedTo(front, i, p);
          assert TracedTo(log, i, path);
        }
      }
      if i: nat :| TracedTo(log, i, path) && i < n {
        var p := Traced(front, i).value;
        FailuresAreTraced(front, p);
        assert TracedTo(front, i, p);
      }
    }
  }
}
