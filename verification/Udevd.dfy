/** The daemon's own procedures on its two linked lists, each proved to compute the step of module
    Scheduler. */
module Udevd {
  import opened CStrings
  import opened Sequences
  import opened Scheduler
  import opened Lists

  method CompareDevpath(running: CString, waiting: CString) returns (r: nat)
    ensures r == DevpathRelation(running, waiting)
  {
    for i := 0 to PATH_SIZE
      invariant i <= |running| && i <= |waiting|
      invariant running[..i] == waiting[..i]
    {
      var a, b := CharAt(running, i), CharAt(waiting, i);
      if a == '\0' && b == '\0' {
        assert i == |running| == |waiting|;
        assert running == running[..i] == waiting[..i] == waiting;
        return 1;
      }
      if a == '\0' && b == '/' {
        assert waiting[..i] == running[..i] == running;
        return 2;
      }
      if a == '/' && b == '\0' {
        assert running[..i] == waiting[..i] == waiting;
        return 3;
      }
      if a != b {
        NotRelated(running, waiting, i);
        return 0;
      }
    }
    return 0;
  }

  /** A first difference that is not a path boundary rules out every relation. */
  lemma NotRelated(a: CString, b: CString, i: nat)
    requires i <= |a| && i <= |b| && a[..i] == b[..i]
    requires CharAt(a, i) != CharAt(b, i)
    requires !(CharAt(a, i) == '\0' && CharAt(b, i) == '/')
    requires !(CharAt(a, i) == '/' && CharAt(b, i) == '\0')
    ensures DevpathRelation(a, b) == 0
  {
    PrefixChar(a, b, i);
    PrefixChar(b, a, i);
  }

  lemma PrefixChar(a: string, b: string, i: nat)
    ensures a <= b && i < |a| ==> CharAt(a, i) == CharAt(b, i)
  {
  }

  method BlockCode(loopMsg: Event, msg: Event) returns (code: nat)
    ensures code != 0 <==> Blocks(loopMsg, msg)
  {
    if msg.devpathOld.Some? && loopMsg.devpath == msg.devpathOld.value {
      return 2;
    }
    var rel := CompareDevpath(loopMsg.devpath, msg.devpath);
    if rel != 0 {
      return 3;
    }
    if msg.physdevpath.Some? && msg.action == "add" {
      rel := CompareDevpath(loopMsg.devpath, msg.physdevpath.value);
      if rel != 0 {
        return 4;
      }
    }
    return 0;
  }

  // ----- What the lists hold -----

  /** A message as it stands in one of the lists, or a list's head, whose own event means nothing. */
  type Node = ListHead<Event>

  const NO_EVENT := Event(0, "", "", None, None, 0)

  function PidOf(pids: map<Node, int>, n: Node): int {
    if n in pids then pids[n] else 0
  }

  function Children(ring: seq<Node>, pids: map<Node, int>): (s: seq<Child>)
    requires |ring| > 0
    ensures |s| == |ring| - 1 && forall i | 0 <= i < |s| :: s[i] == Child(ring[i+1].data, PidOf(pids, ring[i+1]))
  {
    seq(|ring| - 1, i requires 0 <= i < |ring| - 1 => Child(ring[i+1].data, PidOf(pids, ring[i+1])))
  }

  lemma RemovedEvents(ring: seq<Node>, k: nat)
    requires 0 < k < |ring|
    ensures |RemoveAt(ring, k)| > 0 && RemoveAt(ring, k)[0] == ring[0]
    ensures Contents(RemoveAt(ring, k)) == RemoveAt(Contents(ring), k - 1)
    ensures forall x | x in RemoveAt(ring, k) :: x in ring
    ensures NoRepeats(ring) ==> ring[k] !in RemoveAt(ring, k)
  {
    RemovedNodes(ring, k);
  }

  lemma RemovedChildren(ring: seq<Node>, k: nat, pids: map<Node, int>)
    requires 0 < k < |ring|
    ensures |RemoveAt(ring, k)| > 0
    ensures Children(RemoveAt(ring, k), pids) == RemoveAt(Children(ring, pids), k - 1)
  {
    RemovedNodes(ring, k);
  }

  /** Adding before the head is adding at the end. */
  lemma AddedLast(ring: seq<Node>, n: Node, pids: map<Node, int>)
    requires |ring| > 0
    ensures Before(ring, 0) == |ring| - 1 && InsertAfter(ring, |ring| - 1, n) == ring + [n]
    ensures Contents(ring + [n]) == Contents(ring) + [n.data]
    ensures Children(ring + [n], pids) == Children(ring, pids) + [Child(n.data, PidOf(pids, n))]
  {
  }

  lemma SetPid(ring: seq<Node>, pids: map<Node, int>, pid: int)
    requires |ring| > 1 && NoRepeats(ring)
    ensures var n := |ring| - 1;
      Children(ring, pids[ring[n] := pid]) == Children(ring, pids)[..n-1] + [Child(ring[n].data, pid)]
  {
    var n := |ring| - 1;
    assert forall i | 0 < i < n :: ring[i] != ring[n];
  }

  // ----- The daemon -----

  class Daemon {
    const maxChilds: int
    const execList: Node
    const runningList: Node
    /** The process number in each message. */
    var pids: map<Node, int>
    var runExecQ: bool
    var stopExecQ: bool
    var queueDir: map<nat, CString>
    var failedDir: set<CString>
    ghost var exec: seq<Node>
    ghost var running: seq<Node>
    ghost var log: seq<Export>

    ghost predicate Valid()
      reads this, set x | x in exec + running
    {
      && Ring(exec) && Ring(running) && exec[0] == execList && running[0] == runningList
      && forall x | x in exec :: x !in running
    }

    ghost function Abs(): State
      requires |exec| > 0 && |running| > 0
      reads this
    {
      State(Contents(exec), Children(running, pids), runExecQ, stopExecQ, queueDir, failedDir, log)
    }

    constructor (maxChilds: int)
      ensures Valid() && Abs() == INIT && this.maxChilds == maxChilds
      ensures fresh(set x | x in exec + running)
    {
      this.maxChilds := maxChilds;
      var e := new ListHead(NO_EVENT);
      var r := new ListHead(NO_EVENT);
      execList, runningList := e, r;
      exec, running := [e], [r];
      pids := map[];
      runExecQ, stopExecQ := false, false;
      queueDir, failedDir := map[], {};
      log := [];
    }

    method ExportEventQueued(msg: Event)
      requires |exec| > 0 && |running| > 0
      modifies `failedDir, `queueDir, `log
      ensures Abs() == ExportQueued(old(Abs()), msg)
    {
      failedDir := failedDir - {msg.devpath};
      if msg.seqnum !in queueDir {
        queueDir := queueDir[msg.seqnum := msg.devpath];
      }
      log := log + [Queued(msg)];
    }

    method ExportEventFinished(msg: Event, exitstatus: int)
      requires |exec| > 0 && |running| > 0
      modifies `failedDir, `queueDir, `log
      ensures Abs() == old(Abs()).(
        failedDir := FailedAfterFinish(old(failedDir), msg),
        queueDir := old(queueDir) - {msg.seqnum},
        log := old(log) + [Finished(msg, exitstatus)])
    {
      if msg.devpathOld.Some? {
        if msg.devpathOld.value in failedDir {
          failedDir := failedDir - {msg.devpathOld.value} + {msg.devpath};
        }
      } else {
        failedDir := failedDir - {msg.devpath};
      }
      queueDir := queueDir - {msg.seqnum};
      log := log + [Finished(msg, exitstatus)];
    }

    method ExportEventFailed(msg: Event, exitstatus: int)
      requires |exec| > 0 && |running| > 0
      modifies `failedDir, `queueDir, `log
      ensures Abs() == old(Abs()).(
        failedDir := if msg.seqnum in old(queueDir) then old(failedDir) + {msg.devpath} else old(failedDir),
        queueDir := old(queueDir) - {msg.seqnum},
        log := old(log) + [Failed(msg, exitstatus)])
    {
      if msg.seqnum in queueDir {
        failedDir := failedDir + {msg.devpath};
        queueDir := queueDir - {msg.seqnum};
      }
      assert msg.seqnum !in old(queueDir) ==> old(queueDir) - {msg.seqnum} == old(queueDir);
      log := log + [Failed(msg, exitstatus)];
    }

    /** Export how the event ended. */
    method ExportEnd(msg: Event, exitstatus: int)
      requires |exec| > 0 && |running| > 0
      modifies `failedDir, `queueDir, `log
      ensures Abs() == Delete(old(Abs()), msg, exitstatus)
    {
      if exitstatus != 0 && msg.action == "add" {
        ExportEventFailed(msg, exitstatus);
      } else {
        ExportEventFinished(msg, exitstatus);
      }
    }

    /** Take the message off the running list and export how it ended. */
    method MsgQueueDelete(msg: Node, exitstatus: int, ghost k: nat)
      requires Valid() && 0 < k < |running| && msg == running[k]
      modifies this, set x | x in exec + running
      ensures Valid() && exec == old(exec) && running == RemoveAt(old(running), k)
      ensures runExecQ == old(runExecQ) && stopExecQ == old(stopExecQ)
      ensures Abs() == Delete(old(Abs()).(running := RemoveAt(old(Abs()).running, k - 1)), msg.data, exitstatus)
    {
      hide Contents, Children, Delete, RemoveAt;
      RemovedEvents(running, k);
      RemovedChildren(running, k, pids);
      ListDel(msg, running, k);
      running := RemoveAt(running, k);
      ExportEnd(msg.data, exitstatus);
    }

    /** Fork for the message, which stands at the end of the running list. */
    method UdevEventRun(msg: Node, fork: Fork)
      requires Valid() && |running| > 1 && msg == running[|running|-1]
      modifies this, set x | x in exec + running
      ensures Valid() && exec == old(exec)
      ensures running == if fork.Forked? then old(running) else RemoveAt(old(running), |old(running)| - 1)
      ensures var children := old(Abs()).running;
        Abs() == Start(old(Abs()).(running := children[..|children|-1]), msg.data, fork)
    {
      hide Contents, Children, Delete, RemoveAt;
      ghost var children := Children(running, pids);
      match fork {
        case ForkFailed =>
          RemoveLast(children);
          MsgQueueDelete(msg, 0, |running| - 1);
        case Forked(pid) =>
          SetPid(running, pids, pid);
          pids := pids[msg := pid];
      }
    }

    /** list_add_tail to the running list, and run. */
    method AddAndRun(msg: Node, fork: Fork)
      requires Valid() && msg !in exec && msg !in running
      modifies this, msg, set x | x in exec + running
      ensures Valid() && exec == old(exec) && forall x | x in running :: x in old(running) || x == msg
      ensures Abs() == Start(old(Abs()), msg.data, fork)
    {
      hide Contents, Children, Start, InsertAfter;
      ghost var children := Children(running, pids);
      AddedLast(running, msg, pids);
      ListAddTail(msg, runningList, running, 0);
      running := running + [msg];
      assert Abs().running[..|children|] == children;
      RemovedEvents(running, |running| - 1);
      UdevEventRun(msg, fork);
    }

    /** list_add_tail to the exec list. */
    method AddToExec(msg: Node)
      requires Valid() && msg !in exec && msg !in running
      modifies `exec, msg, set x | x in exec
      ensures Valid() && exec == old(exec) + [msg]
      ensures Abs() == old(Abs()).(exec := old(Abs()).exec + [msg.data])
    {
      hide Contents, Children, InsertAfter;
      AddedLast(exec, msg, pids);
      ListAddTail(msg, execList, exec, 0);
      exec := exec + [msg];
    }

    method MsgQueueInsert(event: Event, fork: Fork)
      requires Valid()
      modifies this, set x | x in exec + running
      ensures Valid() && fresh((set x | x in exec + running) - old(set x | x in exec + running))
      ensures Abs() == InsertEvent(old(Abs()), event, fork)
    {
      hide Contents, Children, Start, ExportQueued;
      var msg := new ListHead(event);
      ExportEventQueued(event);
      if event.timeout != 0 {
        AddAndRun(msg, fork);
      } else {
        AddToExec(msg);
        runExecQ := true;
      }
    }

    /** list_move_tail to the running list, and run. */
    method MoveAndRun(msg: Node, fork: Fork, ghost k: nat)
      requires Valid() && 0 < k < |exec| && msg == exec[k]
      modifies this, set x | x in exec + running
      ensures Valid() && exec == RemoveAt(old(exec), k)
      ensures forall x | x in running :: x in old(running) || x == msg
      ensures Abs() == Start(old(Abs()).(exec := RemoveAt(old(Abs()).exec, k - 1)), msg.data, fork)
    {
      hide Contents, Children, Start, InsertAfter, RemoveAt;
      ghost var children := Children(running, pids);
      RemovedEvents(exec, k);
      AddedLast(running, msg, pids);
      ListMoveTail(msg, runningList, exec, k, running, 0);
      exec, running := RemoveAt(exec, k), running + [msg];
      assert Abs().running[..|children|] == children;
      RemovedEvents(running, |running| - 1);
      UdevEventRun(msg, fork);
    }

    /** The scan of the waiting events with smaller numbers. */
    method ExecBusy(msg: Event) returns (busy: nat)
      requires Valid()
      ensures var es := Contents(exec);
        busy == 0 <==> forall j | 0 <= j < Earlier(es, msg.seqnum) :: !Blocks(es[j], msg)
    {
      hide Blocks;
      ghost var es, k := Contents(exec), 1;
      var loopMsg := execList.next;
      assert es[0..] == es;
      HeadIsLast(exec, k);
      while loopMsg != execList
        invariant 0 < k <= |exec| && loopMsg == At(exec, k) && (loopMsg == execList <==> k == |exec|)
        invariant Earlier(es, msg.seqnum) == k - 1 + Earlier(es[k-1..], msg.seqnum)
        invariant forall j | 0 <= j < k - 1 :: !Blocks(es[j], msg)
        decreases |exec| - k
      {
        assert es[k-1..][1..] == es[k..] && es[k-1..][0] == loopMsg.data;
        if loopMsg.data.seqnum >= msg.seqnum {
          return 0;
        }
        busy := BlockCode(loopMsg.data, msg);
        if busy != 0 {
          return;
        }
        loopMsg, k := loopMsg.next, k + 1;
        HeadIsLast(exec, k);
      }
      return 0;
    }

    /** The scan of the running events, which also counts them. */
    method RunningBusy(msg: Event, limit: int) returns (busy: nat)
      requires Valid()
      ensures var cs := Children(running, pids);
        busy == 0 <==> (forall j | 0 <= j < |cs| :: !Blocks(cs[j].msg, msg)) && !AtLimit(cs, limit)
    {
      hide Blocks;
      ghost var cs, k := Children(running, pids), 1;
      var childsCount := 0;
      var loopMsg := runningList.next;
      HeadIsLast(running, k);
      while loopMsg != runningList
        invariant 0 < k <= |running| && loopMsg == At(running, k) && (loopMsg == runningList <==> k == |running|)
        invariant limit != 0 ==> childsCount == k - 1 && (k > 1 ==> k - 2 <= limit)
        invariant forall j | 0 <= j < k - 1 :: !Blocks(cs[j].msg, msg)
        decreases |running| - k
      {
        assert cs[k-1].msg == loopMsg.data;
        if limit != 0 {
          if childsCount > limit {
            return 1;
          }
          childsCount := childsCount + 1;
        }
        busy := BlockCode(loopMsg.data, msg);
        if busy != 0 {
          return;
        }
        loopMsg, k := loopMsg.next, k + 1;
        HeadIsLast(running, k);
      }
      return 0;
    }

    method DevpathBusy(msg: Event, limit: int) returns (busy: nat)
      requires Valid()
      ensures busy == 0 <==> Dispatchable(Abs().exec, Abs().running, msg, limit)
    {
      hide Blocks, Earlier, AtLimit;
      busy := ExecBusy(msg);
      if busy == 0 {
        busy := RunningBusy(msg, limit);
      }
    }

    /** The dispatch loop walks the exec list while its entries are moved away and may be deleted; the
        next one is remembered before. */
    method MsgQueueManager(env: nat -> Slot)
      requires Valid()
      modifies this, set x | x in exec + running
      ensures Valid() && forall x | x in exec + running :: x in old(exec + running)
      ensures Abs() == Pass(old(Abs()), maxChilds, env, 0, 0)
    {
      hide Contents, Children, Start, Pass, Dispatchable, RemoveAt;
      ghost var goal := Pass(Abs(), maxChilds, env, 0, 0);
      ghost var i: nat := 0;
      var k := 0;
      var loopMsg := execList.next;
      HeadIsLast(exec, 1);
      while loopMsg != execList
        invariant Valid() && forall x | x in exec + running :: x in old(exec + running)
        invariant i + 1 <= |exec| && loopMsg == At(exec, i + 1) && (loopMsg == execList <==> i + 1 == |exec|)
        invariant goal == Pass(Abs(), maxChilds, env, i, k)
        decreases |exec| - i
      {
        PassStep(Abs(), maxChilds, env, i, k);
        if env(k).throttled {
          return;
        }
        var tmpMsg := loopMsg.next;
        var busy := DevpathBusy(loopMsg.data, maxChilds);
        if busy != 0 {
          i := i + 1;
        } else {
          RemovedEvents(exec, i + 1);
          RemovedNodes(exec, i + 1);
          MoveAndRun(loopMsg, env(k).fork, i + 1);
        }
        loopMsg, k := tmpMsg, k + 1;
        HeadIsLast(exec, i + 1);
      }
      PassStep(Abs(), maxChilds, env, i, k);
    }

    /** The first child with the pid, or once round to the head. */
    method FindChild(pid: int) returns (msg: Node, ghost k: nat)
      requires Valid()
      ensures 0 < k <= |running| && msg == At(running, k) && (msg == runningList <==> k == |running|)
      ensures FindPid(Children(running, pids), pid) == k - 1
    {
      ghost var cs := Children(running, pids);
      k := 1;
      msg := runningList.next;
      assert cs[0..] == cs;
      HeadIsLast(running, k);
      while msg != runningList
        invariant 0 < k <= |running| && msg == At(running, k) && (msg == runningList <==> k == |running|)
        invariant FindPid(cs, pid) == k - 1 + FindPid(cs[k-1..], pid)
        decreases |running| - k
      {
        assert cs[k-1..][1..] == cs[k..] && cs[k-1..][0] == cs[k-1];
        if PidOf(pids, msg) == pid {
          return;
        }
        msg, k := msg.next, k + 1;
        HeadIsLast(running, k);
      }
    }

    method UdevDone(pid: int, exitstatus: int)
      requires Valid()
      modifies this, set x | x in exec + running
      ensures Valid() && forall x | x in exec + running :: x in old(exec + running)
      ensures Abs() == ReapChild(old(Abs()), pid, exitstatus)
    {
      hide Contents, Delete, RemoveAt, FindPid;
      var msg, k := FindChild(pid);
      if msg != runningList {
        RemovedEvents(running, k);
        MsgQueueDelete(msg, exitstatus, k);
        runExecQ := true;
      }
    }

    /** The part of the main loop, and of the control-message handler, that reacts to one stimulus. */
    method MainLoopStep(step: Step)
      requires Valid()
      modifies this, set x | x in exec + running
      ensures Valid() && fresh((set x | x in exec + running) - old(set x | x in exec + running))
      ensures Abs() == Next(old(Abs()), step, maxChilds)
    {
      hide Contents, Children, Pass, ReapChild, InsertEvent;
      match step {
        case Insert(msg, fork) => MsgQueueInsert(msg, fork);
        case Reap(pid, status) => UdevDone(pid, status);
        case RunQueue(env) =>
          if runExecQ {
            runExecQ := false;
            if !stopExecQ {
              MsgQueueManager(env);
            }
          }
        case StopQueue => stopExecQ := true;
        case StartQueue(env) =>
          stopExecQ := false;
          MsgQueueManager(env);
      }
    }
  }

  lemma PassStep(st: State, limit: int, env: nat -> Slot, i: nat, k: nat)
    ensures Pass(st, limit, env, i, k) ==
      if i >= |st.exec| || env(k).throttled then st
      else if !Dispatchable(st.exec, st.running, st.exec[i], limit) then Pass(st, limit, env, i + 1, k + 1)
      else Pass(Start(st.(exec := RemoveAt(st.exec, i)), st.exec[i], env(k).fork), limit, env, i, k + 1)
  {
    hide Dispatchable, Start;
  }
}
