/** The steps of the event daemon. Events wait in the exec list, move to the running list when a child
    is forked for them, and are deleted when the child is reaped or the fork fails. */
module Scheduler {
  import opened CStrings
  import opened Sequences

  const PATH_SIZE := 512

  datatype Event = Event(
    seqnum: nat, action: CString, devpath: CString,
    devpathOld: Option<CString>, physdevpath: Option<CString>, timeout: nat)

  /** A message on the running list together with the process handling it. */
  datatype Child = Child(msg: Event, pid: int)

  /** What fork() answers. */
  datatype Fork = Forked(pid: int) | ForkFailed

  /** What one iteration of the dispatch loop meets: whether the running-process count
      throttles it, and the answer fork() gives if it gets that far. */
  datatype Slot = Slot(throttled: bool, fork: Fork)

  /** One call of export_event_state. */
  datatype Export =
    | Queued(msg: Event)
    | Finished(msg: Event, status: int)
    | Failed(msg: Event, status: int)

  /** queueDir and failedDir are the exported directories: sequence number to device path,
      and the device paths of failed events. */
  datatype State = State(
    exec: seq<Event>, running: seq<Child>, runQ: bool, stopQ: bool,
    queueDir: map<nat, CString>, failedDir: set<CString>, log: seq<Export>)

  datatype Step =
    | Insert(msg: Event, fork: Fork)
    | Reap(pid: int, status: int)
    | RunQueue(env: nat -> Slot)
    | StopQueue
    | StartQueue(env: nat -> Slot)

  const INIT := State([], [], false, false, map[], {}, [])

  // ----- Which devices an event has to wait for -----

  predicate Ancestor(parent: string, child: string) {
    |parent| < |child| && parent <= child && child[|parent|] == '/'
  }

  /** The relation of two device paths, seen only if the shorter one ends inside a path
      buffer: 1 identical, 2 parent, 3 child, 0 unrelated. */
  function DevpathRelation(running: string, waiting: string): nat {
    if running == waiting && |running| < PATH_SIZE then 1
    else if Ancestor(running, waiting) && |running| < PATH_SIZE then 2
    else if Ancestor(waiting, running) && |waiting| < PATH_SIZE then 3
    else 0
  }

  /** Event m may not start while event e is pending before it or running. */
  predicate Blocks(e: Event, m: Event) {
    || (m.devpathOld.Some? && e.devpath == m.devpathOld.value)
    || DevpathRelation(e.devpath, m.devpath) != 0
    || (m.physdevpath.Some? && m.action == "add" && DevpathRelation(e.devpath, m.physdevpath.value) != 0)
  }

  /** The events scanned before the scan meets a sequence number that is not smaller. */
  function Earlier(exec: seq<Event>, seqnum: nat): (n: nat)
    ensures n <= |exec|
    ensures forall i | 0 <= i < n :: exec[i].seqnum < seqnum
    ensures n < |exec| ==> exec[n].seqnum >= seqnum
  {
    if exec == [] || exec[0].seqnum >= seqnum then 0 else 1 + Earlier(exec[1..], seqnum)
  }

  predicate AtLimit(running: seq<Child>, limit: int) {
    limit != 0 && |running| > 0 && |running| - 1 > limit
  }

  predicate Dispatchable(exec: seq<Event>, running: seq<Child>, m: Event, limit: int) {
    && (forall i | 0 <= i < Earlier(exec, m.seqnum) :: !Blocks(exec[i], m))
    && (forall i | 0 <= i < |running| :: !Blocks(running[i].msg, m))
    && !AtLimit(running, limit)
  }

  // ----- The steps -----

  function ExportQueued(st: State, m: Event): State {
    st.(failedDir := st.failedDir - {m.devpath},
        queueDir := if m.seqnum in st.queueDir then st.queueDir else st.queueDir[m.seqnum := m.devpath],
        log := st.log + [Queued(m)])
  }

  /** The failed directory after event m has finished well: a move event takes the failed
      state of the old name along, any other event clears its own. */
  function FailedAfterFinish(failedDir: set<CString>, m: Event): set<CString> {
    match m.devpathOld
    case Some(former) => if former in failedDir then failedDir - {former} + {m.devpath} else failedDir
    case None => failedDir - {m.devpath}
  }

  function Delete(st: State, m: Event, status: int): State {
    if status != 0 && m.action == "add" then
      st.(failedDir := if m.seqnum in st.queueDir then st.failedDir + {m.devpath} else st.failedDir,
          queueDir := st.queueDir - {m.seqnum},
          log := st.log + [Failed(m, status)])
    else
      st.(failedDir := FailedAfterFinish(st.failedDir, m),
          queueDir := st.queueDir - {m.seqnum},
          log := st.log + [Finished(m, status)])
  }

  /** Fork a child for m, appending it to the running list if the fork succeeds. */
  function Start(st: State, m: Event, fork: Fork): State {
    match fork
    case Forked(pid) => st.(running := st.running + [Child(m, pid)])
    case ForkFailed => Delete(st, m, 0)
  }

  function InsertEvent(st: State, m: Event, fork: Fork): State {
    var st1 := ExportQueued(st, m);
    if m.timeout != 0 then Start(st1, m, fork)
    else st1.(exec := st1.exec + [m], runQ := true)
  }

  /** The dispatch loop from position i of the exec list on; k counts its iterations. */
  function Pass(st: State, limit: int, env: nat -> Slot, i: nat, k: nat): State
    decreases |st.exec| - i
  {
    if i >= |st.exec| || env(k).throttled then st
    else if !Dispatchable(st.exec, st.running, st.exec[i], limit) then Pass(st, limit, env, i + 1, k + 1)
    else Pass(Start(st.(exec := RemoveAt(st.exec, i)), st.exec[i], env(k).fork), limit, env, i, k + 1)
  }

  /** The first child with the given pid, or the length of the list. */
  function FindPid(running: seq<Child>, pid: int): (i: nat)
    ensures i <= |running|
    ensures i < |running| ==> running[i].pid == pid
  {
    if running == [] || running[0].pid == pid then 0 else 1 + FindPid(running[1..], pid)
  }

  function ReapChild(st: State, pid: int, status: int): State {
    var i := FindPid(st.running, pid);
    if i == |st.running| then st
    else Delete(st.(running := RemoveAt(st.running, i)), st.running[i].msg, status).(runQ := true)
  }

  function Next(st: State, step: Step, limit: int): State {
    match step
    case Insert(m, fork) => InsertEvent(st, m, fork)
    case Reap(pid, status) => ReapChild(st, pid, status)
    case RunQueue(env) =>
      if !st.runQ then st
      else if st.stopQ then st.(runQ := false)
      else Pass(st.(runQ := false), limit, env, 0, 0)
    case StopQueue => st.(stopQ := true)
    case StartQueue(env) => Pass(st.(stopQ := false), limit, env, 0, 0)
  }

  /** The state after a whole run of the main loop. */
  function Run(steps: seq<Step>, limit: int): State {
    if steps == [] then INIT
    else Next(Run(steps[..|steps|-1], limit), steps[|steps|-1], limit)
  }
}
