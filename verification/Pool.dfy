/** The ring of sixteen slots between a producer and a consumer; every get and hook is atomic. */
module Pool {
  import opened CStrings

  const GROUP_NUM := 16
  const HEADER_SIZE := 16
  const UINT := 0x1_0000_0000

  datatype Header = Header(len: nat, kind: nat, flags: nat, seqno: nat, pid: nat)

  datatype Message = Message(header: Header, payload: seq<int>)

  /** The pool, the slot each side got and has not given back, and the history: the messages
      published and those given back by the consumer, in order. */
  datatype State = State(
    nlh: seq<Message>, inn: nat, out: nat, useful: nat, space: nat, pid: nat,
    kern: Option<nat>, user: Option<nat>,
    published: seq<Message>, consumed: seq<Message>)

  datatype Step = KernGet | Fill(message: Message) | KernHook | UserGet | UserHook

  /** What the producer gets: the payload is what was left there. */
  function Prepared(m: Message, space: nat, pid: nat): Message {
    m.(header := Header(HEADER_SIZE + space, 0, 0, 0, pid))
  }

  predicate InRange(s: State) {
    |s.nlh| == GROUP_NUM && s.inn < GROUP_NUM && s.out < GROUP_NUM
    && (s.kern.Some? ==> s.kern.value < GROUP_NUM) && (s.user.Some? ==> s.user.value < GROUP_NUM)
  }

  /** How the two sides use the pool: they write into, publish and give back only what they got. */
  predicate Allowed(s: State, step: Step) {
    match step
    case KernGet => true
    case Fill(_) => s.kern.Some?
    case KernHook => s.kern.Some?
    case UserGet => true
    case UserHook => s.user.Some?
  }

  /** One atomic step. The counter is an unsigned int. */
  function Next(s: State, step: Step): (t: State)
    requires InRange(s)
    ensures InRange(t)
  {
    match step
    case KernGet =>
      if s.useful == GROUP_NUM then s.(kern := None)
      else s.(nlh := s.nlh[s.inn := Prepared(s.nlh[s.inn], s.space, s.pid)], kern := Some(s.inn))
    case Fill(m) =>
      if s.kern.None? then s else s.(nlh := s.nlh[s.kern.value := m])
    case KernHook =>
      s.(inn := (s.inn + 1) % GROUP_NUM, useful := (s.useful + 1) % UINT, kern := None,
         published := s.published + [s.nlh[s.inn]])
    case UserGet =>
      s.(user := if s.useful == 0 then None else Some(s.out))
    case UserHook =>
      s.(out := (s.out + 1) % GROUP_NUM, useful := (s.useful + UINT - 1) % UINT, user := None,
         consumed := s.consumed + [s.nlh[s.out]])
  }

  // ----- The invariant -----

  /** The slot of the k-th message that waits. */
  function Slot(out: nat, k: nat): (slot: nat)
    ensures slot < GROUP_NUM
  {
    (out + k) % GROUP_NUM
  }

  predicate RingInv(s: State) {
    s.useful <= GROUP_NUM && s.inn == Slot(s.out, s.useful)
  }

  /** What was published and not given back waits in the ring, in order. */
  predicate Waiting(s: State)
    requires InRange(s)
  {
    |s.published| == |s.consumed| + s.useful && s.consumed <= s.published
    && forall k | 0 <= k < s.useful :: s.nlh[Slot(s.out, k)] == s.published[|s.consumed| + k]
  }

  predicate Held(s: State) {
    (s.kern.Some? ==> s.kern.value == s.inn && s.useful < GROUP_NUM)
    && (s.user.Some? ==> s.user.value == s.out && s.useful > 0)
  }

  predicate Inv(s: State) {
    InRange(s) && RingInv(s) && Waiting(s) && Held(s)
  }

  predicate Init(s: State) {
    |s.nlh| == GROUP_NUM && s.inn == s.out == s.useful == 0 && s.kern.None? && s.user.None?
    && s.published == [] && s.consumed == []
  }

  lemma SlotNext(out: nat, k: nat)
    requires out < GROUP_NUM && k < GROUP_NUM
    ensures Slot(out, 0) == out
    ensures (Slot(out, k) + 1) % GROUP_NUM == Slot(out, k + 1) == Slot((out + 1) % GROUP_NUM, k)
  {
    Wrap(out + k);
    Wrap(out + k + 1);
    Wrap(out + 1);
    Wrap((out + 1) % GROUP_NUM + k);
    Wrap((out + k) % GROUP_NUM + 1);
  }

  lemma Wrap(x: nat)
    requires x < 2 * GROUP_NUM
    ensures x % GROUP_NUM == if x < GROUP_NUM then x else x - GROUP_NUM
  {
  }

  lemma SlotsDiffer(out: nat, j: nat, k: nat)
    requires out < GROUP_NUM && j < k < GROUP_NUM
    ensures Slot(out, j) != Slot(out, k)
  {
  }

  /** Writing into the next free slot leaves what waits alone. */
  lemma WriteKeeps(s: State, m: Message, kern: Option<nat>)
    requires Inv(s) && s.useful < GROUP_NUM && (kern.Some? ==> kern.value == s.inn)
    ensures Inv(s.(nlh := s.nlh[s.inn := m], kern := kern))
  {
  }

  lemma KernHookKeeps(s: State)
    requires Inv(s) && s.kern.Some?
    ensures Inv(Next(s, KernHook))
  {
    hide Slot;
    SlotNext(s.out, s.useful);
  }

  lemma UserHookKeeps(s: State)
    requires Inv(s) && s.user.Some?
    ensures Inv(Next(s, UserHook))
  {
    hide Slot;
    var t := Next(s, UserHook);
    SlotNext(s.out, s.useful - 1);
    SlotNext(s.out, 0);
    assert s.nlh[s.out] == s.published[|s.consumed|];
    forall k | 0 <= k < t.useful ensures t.nlh[Slot(t.out, k)] == t.published[|t.consumed| + k] {
      SlotNext(s.out, k);
      assert s.nlh[Slot(s.out, k + 1)] == s.published[|s.consumed| + (k + 1)];
    }
  }

  lemma StepKeeps(s: State, step: Step)
    requires Inv(s) && Allowed(s, step)
    ensures Inv(Next(s, step))
  {
    hide Slot;
    match step
    case KernGet =>
      if s.useful < GROUP_NUM {
        WriteKeeps(s, Prepared(s.nlh[s.inn], s.space, s.pid), Some(s.inn));
      }
    case Fill(m) => WriteKeeps(s, m, s.kern);
    case KernHook => KernHookKeeps(s);
    case UserGet =>
    case UserHook => UserHookKeeps(s);
  }

  /** A hook keeps the ring exactly if its side could have got a slot. */
  lemma HookKeepsRingIff(s: State)
    requires InRange(s) && RingInv(s)
    ensures RingInv(Next(s, KernHook)) <==> s.useful < GROUP_NUM
    ensures RingInv(Next(s, UserHook)) <==> s.useful > 0
  {
    hide Slot;
    if s.useful < GROUP_NUM {
      SlotNext(s.out, s.useful);
    }
    if s.useful > 0 {
      SlotNext(s.out, s.useful - 1);
    }
  }

  // ----- Runs -----

  /** Every step of the run is one its side may take. */
  predicate Obeys(s: State, steps: seq<Step>)
    requires InRange(s)
    decreases |steps|
  {
    steps == [] || (Allowed(s, steps[0]) && Obeys(Next(s, steps[0]), steps[1..]))
  }

  function Run(s: State, steps: seq<Step>): (t: State)
    requires InRange(s)
    ensures InRange(t)
    decreases |steps|
  {
    if steps == [] then s else Run(Next(s, steps[0]), steps[1..])
  }

  lemma {:induction false} RunKeeps(s: State, steps: seq<Step>)
    requires Inv(s) && Obeys(s, steps)
    ensures Inv(Run(s, steps))
    decreases |steps|
  {
    hide RingInv, Waiting, Held;
    if steps != [] {
      StepKeeps(s, steps[0]);
      RunKeeps(Next(s, steps[0]), steps[1..]);
    }
  }

  predicate IsWaiting(s: State, slot: nat) {
    exists k | 0 <= k < s.useful :: Slot(s.out, k) == slot
  }

  /** In every interleaving the ring is consistent, messages are given back in the order they were
      published, at most sixteen wait, and the producer never holds a slot that still waits. */
  lemma InEveryInterleaving(s: State, steps: seq<Step>)
    requires Init(s) && Obeys(s, steps)
    ensures var t := Run(s, steps);
      && t.inn == (t.out + t.useful) % GROUP_NUM && t.useful <= GROUP_NUM
      && t.consumed <= t.published && |t.published| - |t.consumed| == t.useful
      && (t.kern.Some? ==> !IsWaiting(t, t.kern.value) && t.kern != t.user)
      && (t.user.Some? ==> IsWaiting(t, t.user.value) && t.nlh[t.user.value] == t.published[|t.consumed|])
  {
    RunKeeps(s, steps);
    var t := Run(s, steps);
    SlotNext(t.out, 0);
    if t.kern.Some? {
      forall k | 0 <= k < t.useful ensures Slot(t.out, k) != t.inn {
        SlotsDiffer(t.out, k, t.useful);
      }
    }
    hide Slot;
    if t.user.Some? {
      assert Slot(t.out, 0) == t.user.value;
    }
  }

  /** A side gets nothing exactly if sixteen messages wait, or none. So one of them always gets a
      slot. */
  lemma GetFailsIff(s: State, steps: seq<Step>)
    requires Init(s) && Obeys(s, steps)
    ensures var t := Run(s, steps);
      && (Next(t, KernGet).kern.None? <==> |t.published| == |t.consumed| + GROUP_NUM)
      && (Next(t, UserGet).user.None? <==> t.published == t.consumed)
      && (Next(t, KernGet).kern.Some? || Next(t, UserGet).user.Some?)
  {
    RunKeeps(s, steps);
  }

  /** While the consumer holds a slot, nothing the producer does changes it. */
  lemma {:induction false} HeldSlotIsStable(s: State, steps: seq<Step>)
    requires Inv(s) && Obeys(s, steps) && s.user.Some? && UserHook !in steps
    ensures var t := Run(s, steps);
      t.user == s.user && t.nlh[s.user.value] == s.nlh[s.user.value] == s.published[|s.consumed|]
    decreases |steps|
  {
    SlotNext(s.out, 0);
    if steps != [] {
      var t := Next(s, steps[0]);
      StepKeeps(s, steps[0]);
      UserKeepsSlot(s, steps[0]);
      SlotNext(t.out, 0);
      hide Slot;
      HeldSlotIsStable(t, steps[1..]);
    }
  }

  lemma UserKeepsSlot(s: State, step: Step)
    requires Inv(s) && Allowed(s, step) && s.user.Some? && step != UserHook
    ensures Next(s, step).user == s.user && Next(s, step).consumed == s.consumed
    ensures Next(s, step).published[..|s.published|] == s.published
  {
  }

  /** The slot that the producer gets has a new header, of the length of the header and the space for data,
      with the process number and nothing else in it; data left there and the other slots stay. */
  lemma SlotIsPrepared(s: State)
    requires InRange(s) && s.useful != GROUP_NUM
    ensures var t, m := Next(s, KernGet), Next(s, KernGet).nlh[s.inn];
      && t.kern == Some(s.inn)
      && m.header.len == 16 + s.space && m.header.pid == s.pid
      && m.header.kind == 0 && m.header.flags == 0 && m.header.seqno == 0
      && m.payload == s.nlh[s.inn].payload
      && forall k | 0 <= k < 16 && k != s.inn :: t.nlh[k] == s.nlh[k]
  {
  }

  /** Either side may ask for a slot at any time, and a message goes through an empty pool. */
  lemma MessagePasses(s: State, m: Message)
    requires Init(s) && s.user.None?
    ensures Allowed(s, KernGet) && Allowed(s, UserGet)
    ensures var steps := [KernGet, Fill(m), KernHook, UserGet, UserHook];
      && Obeys(s, steps)
      && Run(s, steps).published == Run(s, steps).consumed == [m] && Run(s, steps).useful == 0
  {
    var s1 := Next(s, KernGet);
    var s2 := Next(s1, Fill(m));
    var s3 := Next(s2, KernHook);
    var s4 := Next(s3, UserGet);
    var s5 := Next(s4, UserHook);
    assert s2.nlh[0] == m && s3.published == [m] && s4.user == Some(0) && s5.consumed == [m];
    assert Allowed(s, KernGet) && Allowed(s1, Fill(m)) && Allowed(s2, KernHook) && Allowed(s3, UserGet) && Allowed(s4, UserHook);
    assert Run(s5, []) == s5 && Obeys(s5, []) && s5.published == [m] && s5.useful == 0 && Allowed(s, UserGet);
    hide Next, Allowed, Run, Obeys;
    Unroll(s, KernGet, [Fill(m), KernHook, UserGet, UserHook]);
    Unroll(s1, Fill(m), [KernHook, UserGet, UserHook]);
    Unroll(s2, KernHook, [UserGet, UserHook]);
    Unroll(s3, UserGet, [UserHook]);
    Unroll(s4, UserHook, []);
    assert [UserHook] + [] == [UserHook] && [UserGet] + [UserHook] == [UserGet, UserHook];
    assert [KernHook] + [UserGet, UserHook] == [KernHook, UserGet, UserHook];
    assert [Fill(m)] + [KernHook, UserGet, UserHook] == [Fill(m), KernHook, UserGet, UserHook];
    assert [KernGet] + [Fill(m), KernHook, UserGet, UserHook] == [KernGet, Fill(m), KernHook, UserGet, UserHook];
  }

  lemma Unroll(s: State, step: Step, rest: seq<Step>)
    requires InRange(s)
    ensures Run(s, [step] + rest) == Run(Next(s, step), rest)
    ensures Obeys(s, [step] + rest) <==> Allowed(s, step) && Obeys(Next(s, step), rest)
  {
    assert ([step] + rest)[1..] == rest;
  }

  // ----- The code -----

  class NlPool {
    const nlh: array<Message>
    var inn: nat
    var out: nat
    var useful: nat
    const space: nat
    const pid: nat
    ghost var kern: Option<nat>
    ghost var user: Option<nat>
    ghost var published: seq<Message>
    ghost var consumed: seq<Message>

    /** The state of the pool. */
    ghost function Abs(): State
      reads this, nlh
    {
      State(nlh[..], inn, out, useful, space, pid, kern, user, published, consumed)
    }

    /** malloc_pool, when memory suffices. */
    constructor (space: nat, pid: nat, blank: Message)
      ensures Init(Abs()) && fresh(nlh) && this.space == space && this.pid == pid
    {
      nlh := new Message[GROUP_NUM](_ => blank);
      inn, out, useful := 0, 0, 0;
      this.space, this.pid := space, pid;
      kern, user, published, consumed := None, None, [], [];
    }

    /** kern_get_pool: a slot with a new header, or none. */
    method KernGetPool() returns (slot: Option<nat>)
      requires InRange(Abs())
      modifies this, nlh
      ensures Abs() == Next(old(Abs()), KernGet) && slot == kern
    {
      if useful == GROUP_NUM {
        kern := None;
        return None;
      }
      nlh[inn] := Prepared(nlh[inn], space, pid);
      kern := Some(inn);
      slot := Some(inn);
    }

    /** The producer writes its message. */
    method WriteSlot(slot: nat, m: Message)
      requires InRange(Abs()) && kern == Some(slot)
      modifies nlh
      ensures Abs() == Next(old(Abs()), Fill(m))
    {
      nlh[slot] := m;
    }

    /** kern_pool_hook */
    method KernPoolHook()
      requires InRange(Abs())
      modifies this
      ensures Abs() == Next(old(Abs()), KernHook)
    {
      published := published + [nlh[inn]];
      inn := (inn + 1) % GROUP_NUM;
      useful := (useful + 1) % UINT;
      kern := None;
    }

    /** user_get_pool: the oldest message that waits, or none. */
    method UserGetPool() returns (slot: Option<nat>)
      requires InRange(Abs())
      modifies `user
      ensures Abs() == Next(old(Abs()), UserGet) && slot == user
    {
      slot := if useful == 0 then None else Some(out);
      user := slot;
    }

    /** user_pool_hook */
    method UserPoolHook()
      requires InRange(Abs())
      modifies this
      ensures Abs() == Next(old(Abs()), UserHook)
    {
      consumed := consumed + [nlh[out]];
      out := (out + 1) % GROUP_NUM;
      useful := (useful + UINT - 1) % UINT;
      user := None;
    }
  }
}
