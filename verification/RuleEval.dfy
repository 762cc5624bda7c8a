/** Applying the rules to a device: forward gotos, last rules, and keys made final. */
module RuleEval {
  import opened CStrings
  import opened NameList
  import opened RuleBuffer

  /** What matching, formatting and splitting yield when the i-th rule is reached. Each rule is
      reached at most once, so one answer per rule loses nothing. A main block device is one without kernel number. */
  datatype Env = Env(
    matches: nat -> bool, owner: nat -> string, group: nat -> string, links: nat -> seq<string>, name: nat -> string,
    mainBlock: bool)

  /** A value that may have been made final. */
  datatype Owned<T> = Owned(value: T, final: bool)

  /** A list that may have been made final, with the items whose failure is to be ignored. */
  datatype Settled = Settled(items: seq<string>, final: bool, flagged: set<string>)

  const NOTHING := Settled([], false, {})

  /** The part of struct udevice the rules set. */
  datatype Dev = Dev(
    name: string, owner: Owned<string>, group: Owned<string>, mode: Owned<nat>, symlinks: Settled, runs: Settled,
    ignoreDevice: bool, ignoreRemove: bool, linkPriority: int, partitions: nat)

  /** 0660 */
  const DEFAULT_MODE := 432

  const FRESH := Dev("", Owned("root", false), Owned("root", false), Owned(DEFAULT_MODE, false), NOTHING, NOTHING,
                    false, false, 0, 0)

  predicate Naming(op: Operation) {
    op == Assign || op == AssignFinal || op == AddOp
  }

  predicate Resets(op: Operation) {
    op == Assign || op == AssignFinal
  }

  function AddAll(names: seq<string>, more: seq<string>): seq<string> {
    if more == [] then names else Add(AddAll(names, more[..|more|-1]), more[|more|-1], false)
  }

  /** What one rule contributes to a list: its operation and its values, flagged or not. */
  datatype Contribution = Contribution(op: Operation, values: seq<string>, flag: bool)

  function LinksOf(env: Env, rule: Rule, i: nat): Contribution {
    Contribution(rule.symlink.operation, env.links(i), false)
  }

  function ProgramOf(rule: Rule): Contribution {
    Contribution(rule.run.operation, [StringAt(rule.buf, rule.run.valOff)], rule.runIgnoreError)
  }

  function Contribute(st: Settled, c: Contribution): Settled {
    if st.final then st
    else
      Settled(AddAll(if Resets(c.op) then [] else st.items, c.values), c.op == AssignFinal,
              (if Resets(c.op) then {} else st.flagged) + if c.flag then set x | x in c.values else {})
  }

  function Own<T>(o: Owned<T>, sets: bool, value: T, locks: bool): Owned<T> {
    if o.final || !sets then o else Owned(value, locks)
  }

  /** What a rule may give a device, once or for good. */
  datatype Right = OwnerRight | GroupRight | ModeRight

  predicate Sets(rule: Rule, right: Right) {
    match right
    case OwnerRight => rule.owner.operation != Unset
    case GroupRight => rule.group.operation != Unset
    case ModeRight => rule.mode != 0
  }

  predicate Locks(rule: Rule, right: Right) {
    match right
    case OwnerRight => rule.owner.operation == AssignFinal
    case GroupRight => rule.group.operation == AssignFinal
    case ModeRight => rule.modeOperation == AssignFinal
  }

  function ApplySymlinks(env: Env, rule: Rule, i: nat, symlinks: Settled): Settled {
    if !Naming(rule.symlink.operation) then symlinks
    else Contribute(symlinks, LinksOf(env, rule, i))
  }

  function ApplyRun(rule: Rule, runs: Settled): Settled {
    if rule.run.operation == Unset then runs
    else Contribute(runs, ProgramOf(rule))
  }

  /** On removal a final assignment ends the evaluation; the list is not marked as final. */
  function AddRun(rule: Rule, runs: Settled): Settled {
    ApplyRun(rule, runs).(final := runs.final)
  }

  function Apply(env: Env, rule: Rule, i: nat, dev: Dev): Dev {
    Dev(if Naming(rule.name.operation) then env.name(i) else dev.name,
        Own(dev.owner, Sets(rule, OwnerRight), env.owner(i), Locks(rule, OwnerRight)),
        Own(dev.group, Sets(rule, GroupRight), env.group(i), Locks(rule, GroupRight)),
        Own(dev.mode, Sets(rule, ModeRight), rule.mode, Locks(rule, ModeRight)),
        ApplySymlinks(env, rule, i, dev.symlinks),
        ApplyRun(rule, dev.runs),
        dev.ignoreDevice,
        dev.ignoreRemove || rule.ignoreRemove,
        if rule.linkPriority != 0 then rule.linkPriority else dev.linkPriority,
        if rule.partitions != 0 && env.mainBlock then rule.partitions else dev.partitions)
  }

  /** The outcome of a pass: the device, the rules reached and the rules applied, in order. */
  datatype Outcome = Outcome(dev: Dev, visited: seq<nat>, applied: seq<nat>)

  /** Where the evaluation goes after applying the i-th rule, if it goes on. */
  function Onward(rules: seq<Rule>, i: nat): (j: nat)
    requires i < |rules|
    ensures i < j <= |rules|
  {
    if rules[i].gotoLabel.operation == Unset then i + 1
    else FindLabel(rules, StringAt(rules[i].buf, rules[i].gotoLabel.valOff), i + 1)
  }

  /** udev_rules_get_name from the i-th rule on. */
  function EvalName(env: Env, rules: seq<Rule>, kernel: string, i: nat, out: Outcome, nameSet: bool): Outcome
    requires i <= |rules|
    decreases |rules| - i
  {
    var named := if nameSet then out else out.(dev := out.dev.(name := kernel));
    if i == |rules| then named
    else
      var rule, out1 := rules[i], out.(visited := out.visited + [i]);
      if (nameSet && Naming(rule.name.operation)) || !env.matches(i) then
        EvalName(env, rules, kernel, i + 1, out1, nameSet)
      else if rule.ignoreDevice then out1.(dev := out.dev.(ignoreDevice := true))
      else
        var out2 := out1.(dev := Apply(env, rule, i, out.dev), applied := out.applied + [i]);
        var nameSet2 := nameSet || Naming(rule.name.operation);
        if rule.lastRule then (if nameSet2 then out2 else out2.(dev := out2.dev.(name := kernel)))
        else EvalName(env, rules, kernel, Onward(rules, i), out2, nameSet2)
  }

  /** A rule that names the device or sets its permissions, which removal skips. */
  predicate NamesDevice(rule: Rule) {
    || Naming(rule.name.operation) || Naming(rule.symlink.operation)
    || rule.modeOperation != Unset || rule.owner.operation != Unset || rule.group.operation != Unset
  }

  /** udev_rules_get_run from the i-th rule on. */
  function EvalRun(env: Env, rules: seq<Rule>, i: nat, out: Outcome): Outcome
    requires i <= |rules|
    decreases |rules| - i
  {
    if i == |rules| then out
    else
      var rule, out1 := rules[i], out.(visited := out.visited + [i]);
      if NamesDevice(rule) || !env.matches(i) then EvalRun(env, rules, i + 1, out1)
      else if rule.ignoreDevice then out1.(dev := out.dev.(ignoreDevice := true))
      else
        var dev1 := out.dev.(ignoreRemove := out.dev.ignoreRemove || rule.ignoreRemove, runs := AddRun(rule, out.dev.runs));
        var out2 := out1.(dev := dev1, applied := out.applied + [i]);
        if (!out.dev.runs.final && rule.run.operation == AssignFinal) || rule.lastRule then out2
        else EvalRun(env, rules, Onward(rules, i), out2)
  }

  // ----- The procedures -----

  method AddEach(names: seq<string>, more: seq<string>) returns (r: seq<string>)
    ensures r == AddAll(names, more)
  {
    r := names;
    for k := 0 to |more|
      invariant r == AddAll(names, more[..k])
    {
      assert more[..k+1][..k] == more[..k];
      r := NameListAdd(r, more[k], false);
    }
    assert more[..|more|] == more;
  }

  method ApplySymlinkKey(env: Env, rule: Rule, i: nat, symlinks: Settled) returns (r: Settled)
    ensures r == ApplySymlinks(env, rule, i, symlinks)
  {
    r := symlinks;
    if !symlinks.final && Naming(rule.symlink.operation) {
      var links, flagged := symlinks.items, symlinks.flagged;
      if Resets(rule.symlink.operation) {
        links, flagged := [], {};
      }
      links := AddEach(links, env.links(i));
      r := Settled(links, rule.symlink.operation == AssignFinal, flagged);
    }
  }

  /** The list with the rule's program, and with the programs whose failure is ignored. */
  method AddProgram(rule: Rule, runs: Settled) returns (items: seq<string>, flagged: set<string>)
    requires !runs.final && rule.run.operation != Unset
    ensures Settled(items, rule.run.operation == AssignFinal, flagged) == ApplyRun(rule, runs)
  {
    items, flagged := runs.items, runs.flagged;
    if Resets(rule.run.operation) {
      items, flagged := [], {};
    }
    var program := StringAt(rule.buf, rule.run.valOff);
    items := AddEach(items, [program]);
    if rule.runIgnoreError {
      flagged := flagged + {program};
    }
    assert (set x | x in ProgramOf(rule).values) == {program};
  }

  method ApplyOptions(env: Env, rule: Rule, dev: Dev) returns (ignoreRemove: bool, priority: int, partitions: nat)
    ensures ignoreRemove == (dev.ignoreRemove || rule.ignoreRemove)
    ensures priority == if rule.linkPriority != 0 then rule.linkPriority else dev.linkPriority
    ensures partitions == if rule.partitions != 0 && env.mainBlock then rule.partitions else dev.partitions
  {
    ignoreRemove, priority, partitions := dev.ignoreRemove, dev.linkPriority, dev.partitions;
    if rule.ignoreRemove {
      ignoreRemove := true;
    }
    if rule.linkPriority != 0 {
      priority := rule.linkPriority;
    }
    if rule.partitions != 0 && env.mainBlock {
      partitions := rule.partitions;
    }
  }

  method ApplyRights(env: Env, rule: Rule, i: nat, dev: Dev) returns (mode: Owned<nat>, owner: Owned<string>, group: Owned<string>)
    ensures mode == Own(dev.mode, Sets(rule, ModeRight), rule.mode, Locks(rule, ModeRight))
    ensures owner == Own(dev.owner, Sets(rule, OwnerRight), env.owner(i), Locks(rule, OwnerRight))
    ensures group == Own(dev.group, Sets(rule, GroupRight), env.group(i), Locks(rule, GroupRight))
  {
    mode, owner, group := dev.mode, dev.owner, dev.group;
    if !mode.final && rule.mode != 0 {
      mode := Owned(rule.mode, rule.modeOperation == AssignFinal);
    }
    if !owner.final && rule.owner.operation != Unset {
      owner := Owned(env.owner(i), rule.owner.operation == AssignFinal);
    }
    if !group.final && rule.group.operation != Unset {
      group := Owned(env.group(i), rule.group.operation == AssignFinal);
    }
  }

  /** The assignments of one matching rule, in their order. */
  method ApplyRule(env: Env, rule: Rule, i: nat, dev: Dev) returns (r: Dev)
    ensures r == Apply(env, rule, i, dev)
  {
    hide AddAll, ApplySymlinks, Contribute, Own, Sets, Locks;
    var ignoreRemove, priority, partitions := ApplyOptions(env, rule, dev);
    var mode, owner, group := ApplyRights(env, rule, i, dev);
    var symlinks := ApplySymlinkKey(env, rule, i, dev.symlinks);
    var name := if Naming(rule.name.operation) then env.name(i) else dev.name;
    var runs := dev.runs;
    if !runs.final && rule.run.operation != Unset {
      var programs, flagged := AddProgram(rule, runs);
      runs := Settled(programs, rule.run.operation == AssignFinal, flagged);
    }
    assert runs == ApplyRun(rule, dev.runs) by { KeepRuns(rule, dev.runs); }
    r := Dev(name, owner, group, mode, symlinks, runs, dev.ignoreDevice, ignoreRemove, priority, partitions);
  }

  lemma KeepRuns(rule: Rule, runs: Settled)
    ensures runs.final || rule.run.operation == Unset ==> ApplyRun(rule, runs) == runs
  {
  }

  /** One step of the evaluation: where it goes after the i-th rule, unless it stops there. */
  lemma EvalNameStep(env: Env, rules: seq<Rule>, kernel: string, i: nat, out: Outcome, nameSet: bool)
    requires i < |rules|
    ensures var rule, out1 := rules[i], out.(visited := out.visited + [i]);
      var out2 := out1.(dev := Apply(env, rule, i, out.dev), applied := out.applied + [i]);
      EvalName(env, rules, kernel, i, out, nameSet) ==
        if (nameSet && Naming(rule.name.operation)) || !env.matches(i) then EvalName(env, rules, kernel, i + 1, out1, nameSet)
        else if rule.ignoreDevice then out1.(dev := out.dev.(ignoreDevice := true))
        else if rule.lastRule then EvalName(env, rules, kernel, |rules|, out2, nameSet || Naming(rule.name.operation))
        else EvalName(env, rules, kernel, Onward(rules, i), out2, nameSet || Naming(rule.name.operation))
  {
    hide Apply, Onward;
  }

  lemma EvalNameEnd(env: Env, rules: seq<Rule>, kernel: string, out: Outcome, nameSet: bool)
    ensures EvalName(env, rules, kernel, |rules|, out, nameSet) == if nameSet then out else out.(dev := out.dev.(name := kernel))
  {
  }

  /** After the i-th rule, move on to its goto label if it has one. */
  method FollowGoto(rules: Rules, rule: Rule, i: nat) returns (j: nat)
    requires rules.Valid() && i < |rules.added| && rule == rules.added[i] && rules.StandsAt(i + 1)
    modifies rules`current
    ensures j == Onward(rules.added, i) && rules.StandsAt(j)
  {
    hide FindLabel, StringAt, Packed, Offset;
    j := i + 1;
    if rule.gotoLabel.operation != Unset {
      var target, passed := rules.IterLabel(StringAt(rule.buf, rule.gotoLabel.valOff), j);
      j := j + passed;
    }
  }

  method GetName(rules: Rules, env: Env, kernel: string, dev0: Dev) returns (dev: Dev, ghost visited: seq<nat>, ghost applied: seq<nat>)
    requires rules.Valid()
    modifies rules`current
    ensures Outcome(dev, visited, applied) == EvalName(env, rules.added, kernel, 0, Outcome(dev0, [], []), false)
  {
    hide Apply, EvalName, Onward, Packed, Offset;
    ghost var all := rules.added;
    ghost var goal := EvalName(env, all, kernel, 0, Outcome(dev0, [], []), false);
    dev, visited, applied := dev0, [], [];
    var nameSet := false;
    var i := 0;
    rules.IterInit();
    while true
      invariant rules.Valid() && rules.added == all && i <= |all| && rules.StandsAt(i)
      invariant goal == EvalName(env, all, kernel, i, Outcome(dev, visited, applied), nameSet)
      decreases |all| - i
    {
      var next := rules.IterNext(i);
      EvalNameEnd(env, all, kernel, Outcome(dev, visited, applied), nameSet);
      if next.None? {
        break;
      }
      EvalNameStep(env, all, kernel, i, Outcome(dev, visited, applied), nameSet);
      var rule := next.value;
      visited := visited + [i];
      if (nameSet && Naming(rule.name.operation)) || !env.matches(i) {
        i := i + 1;
        continue;
      }
      if rule.ignoreDevice {
        dev := dev.(ignoreDevice := true);
        return;
      }
      dev := ApplyRule(env, rule, i, dev);
      applied := applied + [i];
      nameSet := nameSet || Naming(rule.name.operation);
      EvalNameEnd(env, all, kernel, Outcome(dev, visited, applied), nameSet);
      if rule.lastRule {
        break;
      }
      i := FollowGoto(rules, rule, i);
    }
    if !nameSet {
      dev := dev.(name := kernel);
    }
  }

  lemma EvalRunStep(env: Env, rules: seq<Rule>, i: nat, out: Outcome)
    requires i < |rules|
    ensures var rule, out1 := rules[i], out.(visited := out.visited + [i]);
      var dev1 := out.dev.(ignoreRemove := out.dev.ignoreRemove || rule.ignoreRemove, runs := AddRun(rule, out.dev.runs));
      var out2 := out1.(dev := dev1, applied := out.applied + [i]);
      EvalRun(env, rules, i, out) ==
        if NamesDevice(rule) || !env.matches(i) then EvalRun(env, rules, i + 1, out1)
        else if rule.ignoreDevice then out1.(dev := out.dev.(ignoreDevice := true))
        else if (!out.dev.runs.final && rule.run.operation == AssignFinal) || rule.lastRule then out2
        else EvalRun(env, rules, Onward(rules, i), out2)
  {
    hide ApplyRun, Onward;
  }

  lemma EvalRunEnd(env: Env, rules: seq<Rule>, out: Outcome)
    ensures EvalRun(env, rules, |rules|, out) == out
  {
  }

  method GetRun(rules: Rules, env: Env, dev0: Dev) returns (dev: Dev, ghost visited: seq<nat>, ghost applied: seq<nat>)
    requires rules.Valid()
    modifies rules`current
    ensures Outcome(dev, visited, applied) == EvalRun(env, rules.added, 0, Outcome(dev0, [], []))
  {
    hide EvalRun, Onward, Packed, Offset, AddAll;
    ghost var all := rules.added;
    ghost var goal := EvalRun(env, all, 0, Outcome(dev0, [], []));
    dev, visited, applied := dev0, [], [];
    var i := 0;
    rules.IterInit();
    while true
      invariant rules.Valid() && rules.added == all && i <= |all| && rules.StandsAt(i)
      invariant goal == EvalRun(env, all, i, Outcome(dev, visited, applied))
      decreases |all| - i
    {
      var next := rules.IterNext(i);
      if next.None? {
        EvalRunEnd(env, all, Outcome(dev, visited, applied));
        return;
      }
      EvalRunStep(env, all, i, Outcome(dev, visited, applied));
      var rule := next.value;
      visited := visited + [i];
      if NamesDevice(rule) || !env.matches(i) {
        i := i + 1;
        continue;
      }
      if rule.ignoreDevice {
        dev := dev.(ignoreDevice := true);
        return;
      }
      applied := applied + [i];
      if rule.ignoreRemove {
        dev := dev.(ignoreRemove := true);
      }
      if !dev.runs.final && rule.run.operation != Unset {
        var programs, flagged := AddProgram(rule, dev.runs);
        dev := dev.(runs := Settled(programs, dev.runs.final, flagged));
        if rule.run.operation == AssignFinal {
          return;
        }
      }
      if rule.lastRule {
        return;
      }
      i := FollowGoto(rules, rule, i);
    }
  }

  // ----- Each rule is reached at most once -----

  ghost predicate Increasing(visited: seq<nat>, bound: nat) {
    && (forall p, q | 0 <= p < q < |visited| :: visited[p] < visited[q])
    && (forall p | 0 <= p < |visited| :: visited[p] < bound)
  }

  /** Evaluation ends, and goes through the rules in order, reaching each at most once. */
  lemma {:induction false} VisitsAreIncreasing(env: Env, rules: seq<Rule>, kernel: string, i: nat, out: Outcome, nameSet: bool)
    requires i <= |rules| && Increasing(out.visited, i)
    ensures Increasing(EvalName(env, rules, kernel, i, out, nameSet).visited, |rules|)
    decreases |rules| - i
  {
    hide Apply;
    if i < |rules| {
      var rule, out1 := rules[i], out.(visited := out.visited + [i]);
      assert Increasing(out1.visited, i + 1);
      if (nameSet && Naming(rule.name.operation)) || !env.matches(i) {
        VisitsAreIncreasing(env, rules, kernel, i + 1, out1, nameSet);
      } else if !rule.ignoreDevice && !rule.lastRule {
        var out2 := out1.(dev := Apply(env, rule, i, out.dev), applied := out.applied + [i]);
        assert Increasing(out2.visited, Onward(rules, i));
        VisitsAreIncreasing(env, rules, kernel, Onward(rules, i), out2, nameSet || Naming(rule.name.operation));
      }
    }
  }

  lemma {:induction false} RunVisitsAreIncreasing(env: Env, rules: seq<Rule>, i: nat, out: Outcome)
    requires i <= |rules| && Increasing(out.visited, i)
    ensures Increasing(EvalRun(env, rules, i, out).visited, |rules|)
    decreases |rules| - i
  {
    hide ApplyRun;
    if i < |rules| {
      var rule, out1 := rules[i], out.(visited := out.visited + [i]);
      assert Increasing(out1.visited, i + 1);
      if NamesDevice(rule) || !env.matches(i) {
        RunVisitsAreIncreasing(env, rules, i + 1, out1);
      } else if !rule.ignoreDevice && !rule.lastRule && (out.dev.runs.final || rule.run.operation != AssignFinal) {
        var dev1 := out.dev.(ignoreRemove := out.dev.ignoreRemove || rule.ignoreRemove, runs := AddRun(rule, out.dev.runs));
        var out2 := out1.(dev := dev1, applied := out.applied + [i]);
        assert Increasing(out2.visited, Onward(rules, i));
        RunVisitsAreIncreasing(env, rules, Onward(rules, i), out2);
      }
    }
  }

  // ----- What the applied rules add up to -----

  predicate InRange(rules: seq<Rule>, indices: seq<nat>) {
    forall p | 0 <= p < |indices| :: indices[p] < |rules|
  }

  function ApplyAll(env: Env, rules: seq<Rule>, applied: seq<nat>, dev: Dev): Dev
    requires InRange(rules, applied)
  {
    if applied == [] then dev
    else
      var n := |applied| - 1;
      Apply(env, rules[applied[n]], applied[n], ApplyAll(env, rules, applied[..n], dev))
  }

  function Settle(cs: seq<Contribution>): Settled {
    if cs == [] then NOTHING else Contribute(Settle(cs[..|cs|-1]), cs[|cs|-1])
  }

  /** The first final assignment, or the number of contributions. */
  function LockAt(cs: seq<Contribution>): (i: nat)
    ensures i <= |cs| && (forall j | 0 <= j < i :: cs[j].op != AssignFinal)
    ensures i < |cs| ==> cs[i].op == AssignFinal
  {
    if cs == [] || cs[0].op == AssignFinal then 0 else 1 + LockAt(cs[1..])
  }

  /** Contribution p comes no later than the first final one, and no later contribution up to
      that one resets the list. */
  ghost predicate Effective(cs: seq<Contribution>, p: int) {
    && 0 <= p < |cs| && p <= LockAt(cs)
    && forall q | p < q < |cs| && q <= LockAt(cs) :: !Resets(cs[q].op)
  }

  lemma {:induction false} AddAllMembers(names: seq<string>, more: seq<string>)
    ensures forall x :: x in AddAll(names, more) <==> x in names || x in more
    ensures NoDuplicates(names) ==> NoDuplicates(AddAll(names, more))
  {
    if more != [] {
      var n := |more| - 1;
      AddAllMembers(names, more[..n]);
      AddKeepsSet(AddAll(names, more[..n]), more[n], false);
      assert more == more[..n] + [more[n]];
    }
  }

  lemma LockOfFront(cs: seq<Contribution>)
    requires cs != []
    ensures var n := |cs| - 1; LockAt(cs[..n]) < n ==> LockAt(cs) == LockAt(cs[..n])
    ensures var n := |cs| - 1; LockAt(cs[..n]) == n ==> LockAt(cs) == if cs[n].op == AssignFinal then n else n + 1
  {
    var n := |cs| - 1;
    var a, b := LockAt(cs), LockAt(cs[..n]);
    assert forall j | 0 <= j < n :: cs[..n][j] == cs[j];
    if b < n {
      assert cs[b].op == AssignFinal;
    }
    if a < n {
      assert cs[..n][a].op == AssignFinal;
    }
  }

  /** The list is made of the values of the effective contributions, each once: everything
      after the last reset, up to the first final assignment. Flagged is what one of these flags. */
  lemma SettleIsEffective(cs: seq<Contribution>)
    ensures Settle(cs).final <==> LockAt(cs) < |cs|
    ensures NoDuplicates(Settle(cs).items)
    ensures forall x :: x in Settle(cs).items <==> exists p :: Effective(cs, p) && x in cs[p].values
    ensures forall x :: x in Settle(cs).flagged <==> exists p :: Effective(cs, p) && x in cs[p].values && cs[p].flag
  {
    hide *;
    ItemsAreEffective(cs);
    FlagsAreEffective(cs);
  }

  lemma {:induction false} ItemsAreEffective(cs: seq<Contribution>)
    ensures Settle(cs).final <==> LockAt(cs) < |cs|
    ensures NoDuplicates(Settle(cs).items)
    ensures forall x :: x in Settle(cs).items <==> exists p :: Effective(cs, p) && x in cs[p].values
  {
    if cs == [] {
    } else {
      var n := |cs| - 1;
      var front := cs[..n];
      ItemsAreEffective(front);
      LockOfFront(cs);
      AddAllMembers([], cs[n].values);
      AddAllMembers(Settle(front).items, cs[n].values);
      hide AddAll, LockAt;
      EffectiveStep(cs);
      forall x
        ensures x in Settle(cs).items <==> exists p :: Effective(cs, p) && x in cs[p].values
      {
        if Settle(front).final || !Resets(cs[n].op) {
          if x in Settle(front).items {
            var p :| Effective(front, p) && x in front[p].values;
            assert Effective(cs, p);
          }
        }
        if x in cs[n].values && !Settle(front).final {
          assert Effective(cs, n);
        }
      }
    }
  }

  lemma {:induction false} FlagsAreEffective(cs: seq<Contribution>)
    ensures forall x :: x in Settle(cs).flagged <==> exists p :: Effective(cs, p) && x in cs[p].values && cs[p].flag
  {
    if cs == [] {
    } else {
      var n := |cs| - 1;
      var front := cs[..n];
      FlagsAreEffective(front);
      ItemsAreEffective(front);
      hide AddAll, LockAt;
      EffectiveStep(cs);
      forall x
        ensures x in Settle(cs).flagged <==> exists p :: Effective(cs, p) && x in cs[p].values && cs[p].flag
      {
        if Settle(front).final || !Resets(cs[n].op) {
          if x in Settle(front).flagged {
            var p :| Effective(front, p) && x in front[p].values && front[p].flag;
            assert Effective(cs, p);
          }
        }
        if x in cs[n].values && cs[n].flag && !Settle(front).final {
          assert Effective(cs, n);
        }
      }
    }
  }

  /** How the effective contributions change with the last one. */
  lemma EffectiveStep(cs: seq<Contribution>)
    requires cs != []
    ensures var n := |cs| - 1; var locked := LockAt(cs[..n]) < n;
      && (locked ==> forall p :: Effective(cs, p) <==> Effective(cs[..n], p))
      && (!locked && Resets(cs[n].op) ==> forall p :: Effective(cs, p) <==> p == n)
      && (!locked && !Resets(cs[n].op) ==> forall p :: Effective(cs, p) <==> p == n || Effective(cs[..n], p))
  {
  }

  // ----- Main results on keys -----

  function SymlinkContributions(env: Env, rules: seq<Rule>, applied: seq<nat>): seq<Contribution>
    requires InRange(rules, applied)
  {
    if applied == [] then []
    else
      var n := |applied| - 1;
      var key, before := rules[applied[n]].symlink, SymlinkContributions(env, rules, applied[..n]);
      if Naming(key.operation) then before + [LinksOf(env, rules[applied[n]], applied[n])] else before
  }

  function RunContributions(rules: seq<Rule>, applied: seq<nat>): seq<Contribution>
    requires InRange(rules, applied)
  {
    if applied == [] then []
    else
      var n := |applied| - 1;
      var rule, before := rules[applied[n]], RunContributions(rules, applied[..n]);
      if rule.run.operation == Unset then before
      else before + [ProgramOf(rule)]
  }

  /** The applied rules that set the right. */
  function Setters(rules: seq<Rule>, applied: seq<nat>, right: Right): seq<nat>
    requires InRange(rules, applied)
    ensures InRange(rules, Setters(rules, applied, right))
  {
    if applied == [] then []
    else
      var n := |applied| - 1;
      var before := Setters(rules, applied[..n], right);
      if Sets(rules[applied[n]], right) then before + [applied[n]] else before
  }

  /** The setter that decides: the first final one, else the last. */
  function Decider(rules: seq<Rule>, setters: seq<nat>, right: Right): (k: nat)
    requires setters != [] && InRange(rules, setters)
    ensures k < |rules|
  {
    if |setters| == 1 || Locks(rules[setters[0]], right) then setters[0] else Decider(rules, setters[1..], right)
  }

  /** The rule that decides about the right, if there is one. */
  function DecidedBy(rules: seq<Rule>, applied: seq<nat>, right: Right): (k: Option<nat>)
    requires InRange(rules, applied)
    ensures k.Some? ==> k.value < |rules|
  {
    var setters := Setters(rules, applied, right);
    if setters == [] then None else Some(Decider(rules, setters, right))
  }

  lemma SettleAppend(cs: seq<Contribution>, c: Contribution)
    ensures Settle(cs + [c]) == Contribute(Settle(cs), c)
  {
    assert (cs + [c])[..|cs|] == cs;
  }

  /** Symlinks and programs to run are settled by the contributions of the applied rules. */
  lemma {:induction false} ListsAreSettled(env: Env, rules: seq<Rule>, applied: seq<nat>)
    requires InRange(rules, applied)
    ensures ApplyAll(env, rules, applied, FRESH).symlinks == Settle(SymlinkContributions(env, rules, applied))
    ensures ApplyAll(env, rules, applied, FRESH).runs == Settle(RunContributions(rules, applied))
  {
    hide Contribute;
    if applied != [] {
      var n := |applied| - 1;
      var k, front := applied[n], applied[..n];
      ListsAreSettled(env, rules, front);
      var rule := rules[k];
      SettleAppend(SymlinkContributions(env, rules, front), LinksOf(env, rule, k));
      SettleAppend(RunContributions(rules, front), ProgramOf(rule));
    }
  }

  /** What the deciding rule gives, final if that rule says so. */
  function Given<T>(rules: seq<Rule>, applied: seq<nat>, right: Right, values: nat -> T, otherwise: T): Owned<T>
    requires InRange(rules, applied)
  {
    var k := DecidedBy(rules, applied, right);
    if k.None? then Owned(otherwise, false) else Owned(values(k.value), Locks(rules[k.value], right))
  }

  function Modes(rules: seq<Rule>): nat -> nat {
    (i: nat) => if i < |rules| then rules[i].mode else 0
  }

  /** Owner, group and mode are those set by the deciding rules: once made final they never change. */
  lemma {:induction false} RightsAreDecided(env: Env, rules: seq<Rule>, applied: seq<nat>)
    requires InRange(rules, applied)
    ensures var dev := ApplyAll(env, rules, applied, FRESH);
      && dev.owner == Given(rules, applied, OwnerRight, env.owner, "root")
      && dev.group == Given(rules, applied, GroupRight, env.group, "root")
      && dev.mode == Given(rules, applied, ModeRight, Modes(rules), DEFAULT_MODE)
  {
    hide ApplySymlinks, ApplyRun, DecidedBy, Locks, Sets;
    if applied == [] {
      NobodyDecides(rules, OwnerRight);
      NobodyDecides(rules, GroupRight);
      NobodyDecides(rules, ModeRight);
    } else {
      RightsAreDecided(env, rules, applied[..|applied|-1]);
      DecidedNext(rules, applied, OwnerRight);
      DecidedNext(rules, applied, GroupRight);
      DecidedNext(rules, applied, ModeRight);
    }
  }

  // ----- Who decides, rule by rule -----

  /** The first applied rule that sets the right for good decides; else the last one that sets it. */
  lemma {:induction false} DecidedAt(rules: seq<Rule>, applied: seq<nat>, right: Right, p: nat)
    requires p < |applied| && InRange(rules, applied) && Sets(rules[applied[p]], right)
    requires forall q | 0 <= q < p :: !(Sets(rules[applied[q]], right) && Locks(rules[applied[q]], right))
    requires Locks(rules[applied[p]], right) || forall q | p < q < |applied| :: !Sets(rules[applied[q]], right)
    ensures DecidedBy(rules, applied, right) == Some(applied[p])
    decreases |applied|
  {
    hide Sets, Locks, DecidedBy;
    var n := |applied| - 1;
    var front := applied[..n];
    DecidedNext(rules, applied, right);
    assert forall q | 0 <= q < n :: front[q] == applied[q];
    if p < n {
      DecidedAt(rules, front, right, p);
    } else {
      NotLocked(rules, front, right);
    }
  }

  lemma {:induction false} NotLocked(rules: seq<Rule>, applied: seq<nat>, right: Right)
    requires InRange(rules, applied)
    requires forall q | 0 <= q < |applied| :: !(Sets(rules[applied[q]], right) && Locks(rules[applied[q]], right))
    ensures var k := DecidedBy(rules, applied, right); k.Some? ==> !Locks(rules[k.value], right)
  {
    hide Sets, Locks, DecidedBy;
    if applied == [] {
      NobodyDecides(rules, right);
    } else {
      var n := |applied| - 1;
      assert forall q | 0 <= q < n :: applied[..n][q] == applied[q];
      NotLocked(rules, applied[..n], right);
      DecidedNext(rules, applied, right);
    }
  }

  /** The owner is that of the first applied rule with := for it, and cannot be set again; without one,
      that of the last applied rule with an owner. */
  lemma OwnerIs(env: Env, rules: seq<Rule>, applied: seq<nat>, p: nat)
    requires p < |applied| && InRange(rules, applied) && rules[applied[p]].owner.operation != Unset
    requires forall q | 0 <= q < p :: rules[applied[q]].owner.operation != AssignFinal
    requires rules[applied[p]].owner.operation == AssignFinal || forall q | p < q < |applied| :: rules[applied[q]].owner.operation == Unset
    ensures ApplyAll(env, rules, applied, FRESH).owner == Owned(env.owner(applied[p]), rules[applied[p]].owner.operation == AssignFinal)
  {
    DecidedAt(rules, applied, OwnerRight, p);
    RightsAreDecided(env, rules, applied);
    hide ApplyAll, DecidedBy;
  }

  /** The same for the group. */
  lemma GroupIs(env: Env, rules: seq<Rule>, applied: seq<nat>, p: nat)
    requires p < |applied| && InRange(rules, applied) && rules[applied[p]].group.operation != Unset
    requires forall q | 0 <= q < p :: rules[applied[q]].group.operation != AssignFinal
    requires rules[applied[p]].group.operation == AssignFinal || forall q | p < q < |applied| :: rules[applied[q]].group.operation == Unset
    ensures ApplyAll(env, rules, applied, FRESH).group == Owned(env.group(applied[p]), rules[applied[p]].group.operation == AssignFinal)
  {
    DecidedAt(rules, applied, GroupRight, p);
    RightsAreDecided(env, rules, applied);
    hide ApplyAll, DecidedBy;
  }

  /** The same for the mode, where a mode of 0 sets nothing and keeps nothing from being set. */
  lemma ModeIs(env: Env, rules: seq<Rule>, applied: seq<nat>, p: nat)
    requires p < |applied| && InRange(rules, applied) && rules[applied[p]].mode != 0
    requires forall q | 0 <= q < p :: rules[applied[q]].mode == 0 || rules[applied[q]].modeOperation != AssignFinal
    requires rules[applied[p]].modeOperation == AssignFinal || forall q | p < q < |applied| :: rules[applied[q]].mode == 0
    ensures ApplyAll(env, rules, applied, FRESH).mode == Owned(rules[applied[p]].mode, rules[applied[p]].modeOperation == AssignFinal)
  {
    DecidedAt(rules, applied, ModeRight, p);
    RightsAreDecided(env, rules, applied);
    hide ApplyAll, DecidedBy;
  }

  lemma NobodyDecides(rules: seq<Rule>, right: Right)
    ensures DecidedBy(rules, [], right) == None
  {
  }

  /** The last rule decides if it sets the right and none before it locked it. */
  lemma DecidedNext(rules: seq<Rule>, applied: seq<nat>, right: Right)
    requires applied != [] && InRange(rules, applied)
    ensures var n := |applied| - 1;
      var before := DecidedBy(rules, applied[..n], right);
      DecidedBy(rules, applied, right) ==
        if !Sets(rules[applied[n]], right) || (before.Some? && Locks(rules[before.value], right)) then before
        else Some(applied[n])
  {
    hide Sets, Locks;
    var n := |applied| - 1;
    var setters := Setters(rules, applied[..n], right);
    if setters != [] {
      DeciderAppend(rules, setters, applied[n], right);
    }
  }

  lemma {:induction false} DeciderAppend(rules: seq<Rule>, setters: seq<nat>, k: nat, right: Right)
    requires setters != [] && k < |rules| && InRange(rules, setters)
    ensures InRange(rules, setters + [k])
    ensures Decider(rules, setters + [k], right) ==
              if Locks(rules[Decider(rules, setters, right)], right) then Decider(rules, setters, right) else k
    decreases |setters|
  {
    hide Locks;
    assert (setters + [k])[1..] == setters[1..] + [k];
    if |setters| > 1 && !Locks(rules[setters[0]], right) {
      DeciderAppend(rules, setters[1..], k, right);
    }
  }

  /** A pass leaves the device as its applied rules make it; only the name may be replaced by
      the kernel's, and the ignore flag be set. */
  lemma {:induction false} PassIsApplication(env: Env, rules: seq<Rule>, kernel: string, i: nat, out: Outcome, nameSet: bool)
    requires i <= |rules|
    requires InRange(rules, out.applied)
    requires out.dev == ApplyAll(env, rules, out.applied, FRESH)
    ensures var r := EvalName(env, rules, kernel, i, out, nameSet);
      && InRange(rules, r.applied)
      && r.dev.(name := "", ignoreDevice := false) ==
           ApplyAll(env, rules, r.applied, FRESH).(name := "", ignoreDevice := false)
    decreases |rules| - i
  {
    hide Apply;
    if i < |rules| {
      var rule, out1 := rules[i], out.(visited := out.visited + [i]);
      if (nameSet && Naming(rule.name.operation)) || !env.matches(i) {
        PassIsApplication(env, rules, kernel, i + 1, out1, nameSet);
      } else if !rule.ignoreDevice {
        var out2 := out1.(dev := Apply(env, rule, i, out.dev), applied := out.applied + [i]);
        assert (out.applied + [i])[..|out.applied|] == out.applied;
        if !rule.lastRule {
          PassIsApplication(env, rules, kernel, Onward(rules, i), out2, nameSet || Naming(rule.name.operation));
        }
      }
    }
  }

  /** In every evaluation each rule is reached at most once, and owner, group, mode, symlinks and
      programs are what the applied rules settle: nothing after a final assignment counts. */
  lemma EvaluationIsSettled(env: Env, rules: seq<Rule>, kernel: string)
    ensures var r := EvalName(env, rules, kernel, 0, Outcome(FRESH, [], []), false);
      && Increasing(r.visited, |rules|)
      && InRange(rules, r.applied)
      && r.dev.symlinks == Settle(SymlinkContributions(env, rules, r.applied))
      && r.dev.runs == Settle(RunContributions(rules, r.applied))
      && r.dev.owner == Given(rules, r.applied, OwnerRight, env.owner, "root")
      && r.dev.group == Given(rules, r.applied, GroupRight, env.group, "root")
      && r.dev.mode == Given(rules, r.applied, ModeRight, Modes(rules), DEFAULT_MODE)
  {
    hide EvalName, SymlinkContributions, RunContributions, Given, Settle;
    var out := Outcome(FRESH, [], []);
    VisitsAreIncreasing(env, rules, kernel, 0, out, false);
    PassIsApplication(env, rules, kernel, 0, out, false);
    var r := EvalName(env, rules, kernel, 0, out, false);
    ListsAreSettled(env, rules, r.applied);
    RightsAreDecided(env, rules, r.applied);
  }

  // ----- The options -----

  /** The number is that of the last applied rule that has one, or 0. */
  ghost predicate LastGiven(rules: seq<Rule>, applied: seq<nat>, number: Rule -> int, result: int)
    requires InRange(rules, applied)
  {
    && ((forall p | 0 <= p < |applied| :: number(rules[applied[p]]) == 0) ==> result == 0)
    && forall p | 0 <= p < |applied| && number(rules[applied[p]]) != 0
          && (forall q | p < q < |applied| :: number(rules[applied[q]]) == 0) :: result == number(rules[applied[p]])
  }

  lemma LastGivenNext(rules: seq<Rule>, applied: seq<nat>, number: Rule -> int, result: int)
    requires applied != [] && InRange(rules, applied) && LastGiven(rules, applied[..|applied|-1], number, result)
    ensures var last := number(rules[applied[|applied|-1]]); LastGiven(rules, applied, number, if last != 0 then last else result)
  {
    var n := |applied| - 1;
    var front, last := applied[..n], number(rules[applied[n]]);
    assert forall p | 0 <= p < n :: front[p] == applied[p];
    if last == 0 {
      forall p | 0 <= p < |applied| && number(rules[applied[p]]) != 0
          && (forall q | p < q < |applied| :: number(rules[applied[q]]) == 0)
        ensures result == number(rules[applied[p]])
      {
        assert p < n && number(rules[front[p]]) != 0;
        assert forall q | p < q < n :: number(rules[front[q]]) == 0;
      }
    }
  }

  const PRIORITY: Rule -> int := (r: Rule) => r.linkPriority
  const PARTITIONS: Rule -> int := (r: Rule) => r.partitions

  /** Link priority and partitions are those of the last applied rule that has them, partitions only for
      a main block device; a removal is ignored if some applied rule says so. */
  lemma {:induction false} OptionsAreDecided(env: Env, rules: seq<Rule>, applied: seq<nat>)
    requires InRange(rules, applied)
    ensures var dev := ApplyAll(env, rules, applied, FRESH);
      && LastGiven(rules, applied, PRIORITY, dev.linkPriority)
      && (if env.mainBlock then LastGiven(rules, applied, PARTITIONS, dev.partitions) else dev.partitions == 0)
      && (dev.ignoreRemove <==> SomeIgnoresRemoval(rules, applied))
  {
    if applied != [] {
      var n := |applied| - 1;
      var front := applied[..n];
      OptionsAreDecided(env, rules, front);
      var before := ApplyAll(env, rules, front, FRESH);
      LastGivenNext(rules, applied, PRIORITY, before.linkPriority);
      if env.mainBlock {
        LastGivenNext(rules, applied, PARTITIONS, before.partitions);
      }
      OptionsNext(env, rules, applied);
      RemovesNext(rules, applied);
      hide *;
    }
  }

  lemma OptionsNext(env: Env, rules: seq<Rule>, applied: seq<nat>)
    requires applied != [] && InRange(rules, applied)
    ensures var before, last := ApplyAll(env, rules, applied[..|applied|-1], FRESH), rules[applied[|applied|-1]];
      var dev := ApplyAll(env, rules, applied, FRESH);
      && dev.linkPriority == (if PRIORITY(last) != 0 then PRIORITY(last) else before.linkPriority)
      && dev.partitions == (if PARTITIONS(last) != 0 && env.mainBlock then PARTITIONS(last) else before.partitions)
      && dev.ignoreRemove == (before.ignoreRemove || last.ignoreRemove)
  {
    hide ApplySymlinks, ApplyRun, Own;
  }

  ghost predicate SomeIgnoresRemoval(rules: seq<Rule>, applied: seq<nat>)
    requires InRange(rules, applied)
  {
    exists p :: 0 <= p < |applied| && rules[applied[p]].ignoreRemove
  }

  lemma RemovesNext(rules: seq<Rule>, applied: seq<nat>)
    requires applied != [] && InRange(rules, applied)
    ensures SomeIgnoresRemoval(rules, applied) <==>
      rules[applied[|applied|-1]].ignoreRemove || SomeIgnoresRemoval(rules, applied[..|applied|-1])
  {
    assert forall p | 0 <= p < |applied| - 1 :: applied[..|applied|-1][p] == applied[p];
  }

  /** What a whole evaluation leaves of the options. */
  lemma OptionsAreSettled(env: Env, rules: seq<Rule>, kernel: string)
    ensures var r := EvalName(env, rules, kernel, 0, Outcome(FRESH, [], []), false);
      && InRange(rules, r.applied)
      && LastGiven(rules, r.applied, PRIORITY, r.dev.linkPriority)
      && (if env.mainBlock then LastGiven(rules, r.applied, PARTITIONS, r.dev.partitions) else r.dev.partitions == 0)
      && (r.dev.ignoreRemove <==> SomeIgnoresRemoval(rules, r.applied))
  {
    hide EvalName, LastGiven;
    PassIsApplication(env, rules, kernel, 0, Outcome(FRESH, [], []), false);
    OptionsAreDecided(env, rules, EvalName(env, rules, kernel, 0, Outcome(FRESH, [], []), false).applied);
  }

  // ----- The name -----

  /** The applied rules that name the device. */
  function Namers(rules: seq<Rule>, applied: seq<nat>): (r: seq<nat>)
    requires InRange(rules, applied)
  {
    if applied == [] then []
    else
      var n := |applied| - 1;
      var before := Namers(rules, applied[..n]);
      if Naming(rules[applied[n]].name.operation) then before + [applied[n]] else before
  }

  /** At most one rule gets to name the device, and without one the kernel's name is taken. */
  lemma {:induction false} FirstNamerWins(env: Env, rules: seq<Rule>, kernel: string, i: nat, out: Outcome, nameSet: bool)
    requires i <= |rules| && InRange(rules, out.applied) && !out.dev.ignoreDevice
    requires |Namers(rules, out.applied)| == if nameSet then 1 else 0
    requires nameSet ==> out.dev.name == env.name(Namers(rules, out.applied)[0])
    ensures var r := EvalName(env, rules, kernel, i, out, nameSet);
      && InRange(rules, r.applied)
      && |Namers(rules, r.applied)| <= 1
      && (!r.dev.ignoreDevice ==>
            r.dev.name == if Namers(rules, r.applied) == [] then kernel else env.name(Namers(rules, r.applied)[0]))
    decreases |rules| - i
  {
    hide Own, ApplySymlinks, ApplyRun, Onward;
    if i < |rules| {
      var rule, out1 := rules[i], out.(visited := out.visited + [i]);
      var nameSet2 := nameSet || Naming(rule.name.operation);
      if (nameSet && Naming(rule.name.operation)) || !env.matches(i) {
        FirstNamerWins(env, rules, kernel, i + 1, out1, nameSet);
      } else if !rule.ignoreDevice {
        var out2 := out1.(dev := Apply(env, rule, i, out.dev), applied := out.applied + [i]);
        assert (out.applied + [i])[..|out.applied|] == out.applied;
        if !rule.lastRule {
          FirstNamerWins(env, rules, kernel, Onward(rules, i), out2, nameSet2);
        }
      }
    }
  }

  // ----- Removal -----

  /** The programs are settled by the applied rules, none of which names the device. */
  ghost predicate RunsSettled(rules: seq<Rule>, out: Outcome) {
    && InRange(rules, out.applied)
    && out.dev.runs == Settle(RunContributions(rules, out.applied)).(final := false)
    && (forall p | 0 <= p < |out.applied| :: !NamesDevice(rules[out.applied[p]]))
  }

  /** The last rule applied, and no other, made a final assignment. */
  ghost predicate FinalRunIsLast(rules: seq<Rule>, applied: seq<nat>)
    requires InRange(rules, applied)
  {
    Settle(RunContributions(rules, applied)).final ==>
      applied != [] && rules[applied[|applied|-1]].run.operation == AssignFinal
  }

  lemma RunsStaySettled(rules: seq<Rule>, i: nat, out: Outcome, out2: Outcome)
    requires i < |rules| && RunsSettled(rules, out) && !NamesDevice(rules[i])
    requires !Settle(RunContributions(rules, out.applied)).final
    requires out2.applied == out.applied + [i] && out2.dev.runs == AddRun(rules[i], out.dev.runs)
    ensures RunsSettled(rules, out2)
    ensures Settle(RunContributions(rules, out2.applied)).final <==> rules[i].run.operation == AssignFinal
  {
    hide Settle, NamesDevice, AddAll;
    assert (out.applied + [i])[..|out.applied|] == out.applied;
    var cs := RunContributions(rules, out.applied);
    if rules[i].run.operation != Unset {
      SettleAppend(cs, ProgramOf(rules[i]));
    }
    hide RunContributions;
  }

  /** On removal the programs to run are settled by the applied rules, none of which names the
      device, and a final assignment is the last rule applied. */
  lemma {:induction false} RemovalIsSettled(env: Env, rules: seq<Rule>, i: nat, out: Outcome)
    requires i <= |rules| && RunsSettled(rules, out)
    requires !Settle(RunContributions(rules, out.applied)).final
    ensures var r := EvalRun(env, rules, i, out);
      RunsSettled(rules, r) && FinalRunIsLast(rules, r.applied)
    decreases |rules| - i
  {
    hide NamesDevice, Onward, EvalRun, AddRun, Settle, RunContributions;
    EvalRunEnd(env, rules, out);
    if i < |rules| {
      EvalRunStep(env, rules, i, out);
      var rule, out1 := rules[i], out.(visited := out.visited + [i]);
      if NamesDevice(rule) || !env.matches(i) {
        RemovalIsSettled(env, rules, i + 1, out1);
      } else if !rule.ignoreDevice {
        var dev1 := out.dev.(ignoreRemove := out.dev.ignoreRemove || rule.ignoreRemove, runs := AddRun(rule, out.dev.runs));
        var out2 := out1.(dev := dev1, applied := out.applied + [i]);
        RunsStaySettled(rules, i, out, out2);
        if rule.run.operation != AssignFinal && !rule.lastRule {
          RemovalIsSettled(env, rules, Onward(rules, i), out2);
        }
      }
    }
  }
}
