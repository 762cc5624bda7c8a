/** Which rules an evaluation reaches: exactly those on the path along the gotos of applied rules. */
module RuleFlow {
  import opened CStrings
  import opened RuleBuffer
  import opened RuleEval

  /** A matching rule reached before rule v names the device. */
  ghost predicate NameTaken(env: Env, rules: seq<Rule>, visited: seq<nat>, v: nat)
    requires InRange(rules, visited)
  {
    exists p | 0 <= p < |visited| ::
      visited[p] < v && env.matches(visited[p]) && Naming(rules[visited[p]].name.operation)
  }

  /** Rule v matches, and does not name a device that has its name. */
  ghost predicate Counts(env: Env, rules: seq<Rule>, visited: seq<nat>, v: nat)
    requires InRange(rules, visited) && v < |rules|
  {
    env.matches(v) && !(Naming(rules[v].name.operation) && NameTaken(env, rules, visited, v))
  }

  /** Rule v is one that ends the evaluation. */
  ghost predicate Ends(env: Env, rules: seq<Rule>, visited: seq<nat>, v: nat)
    requires InRange(rules, visited) && v < |rules|
  {
    Counts(env, rules, visited, v) && (rules[v].ignoreDevice || rules[v].lastRule)
  }

  /** The rule after rule v. */
  ghost function After(env: Env, rules: seq<Rule>, visited: seq<nat>, v: nat): nat
    requires InRange(rules, visited) && v < |rules|
  {
    if Counts(env, rules, visited, v) then Onward(rules, v) else v + 1
  }

  /** The rules reached are a path from the first rule to rule i, no rule of it ending the
      evaluation. */
  ghost predicate PathTo(env: Env, rules: seq<Rule>, visited: seq<nat>, i: nat)
    requires InRange(rules, visited)
  {
    (visited == [] ==> i == 0)
    && (visited != [] ==> visited[0] == 0)
    && forall p | 0 <= p < |visited| ::
         !Ends(env, rules, visited, visited[p])
         && After(env, rules, visited, visited[p]) == if p + 1 < |visited| then visited[p+1] else i
  }

  /** The rules applied are those reached that count and do not ignore the device, in order. */
  ghost predicate AppliedAre(env: Env, rules: seq<Rule>, visited: seq<nat>, applied: seq<nat>)
    requires InRange(rules, visited)
  {
    Increasing(applied, |rules|)
    && forall v: nat :: v in applied <==>
         v in visited && v < |rules| && Counts(env, rules, visited, v) && !rules[v].ignoreDevice
  }

  /** The whole path: it reaches the end, or its last rule ends the evaluation. */
  ghost predicate WholePath(env: Env, rules: seq<Rule>, visited: seq<nat>)
    requires InRange(rules, visited)
  {
    PathTo(env, rules, visited, |rules|)
    || (visited != [] && Ends(env, rules, visited, visited[|visited|-1])
        && PathTo(env, rules, visited[..|visited|-1], visited[|visited|-1]))
  }

  /** What holds before rule i is looked at. */
  ghost predicate On(env: Env, rules: seq<Rule>, i: nat, out: Outcome, nameSet: bool) {
    i <= |rules| && Increasing(out.visited, i) && Increasing(out.applied, i) && InRange(rules, out.visited)
    && PathTo(env, rules, out.visited, i)
    && AppliedAre(env, rules, out.visited, out.applied)
    && (nameSet <==> NameTaken(env, rules, out.visited, i))
  }

  /** Reaching one more rule does not change what was said about the earlier ones. */
  lemma CountsOnlyBefore(env: Env, rules: seq<Rule>, visited: seq<nat>, i: nat, v: nat)
    requires i < |rules| && Increasing(visited, i) && InRange(rules, visited) && v <= i
    ensures InRange(rules, visited + [i])
    ensures Counts(env, rules, visited + [i], v) <==> Counts(env, rules, visited, v)
  {
    var more := visited + [i];
    assert forall p | 0 <= p < |visited| :: more[p] == visited[p];
    if NameTaken(env, rules, more, v) {
      var p :| 0 <= p < |more| && more[p] < v && env.matches(more[p]) && Naming(rules[more[p]].name.operation);
      assert visited[p] == more[p];
    }
  }

  lemma NameTakenNext(env: Env, rules: seq<Rule>, visited: seq<nat>, i: nat, j: nat)
    requires i < j && i < |rules| && Increasing(visited, i) && InRange(rules, visited)
    ensures InRange(rules, visited + [i])
    ensures NameTaken(env, rules, visited + [i], j) <==>
      NameTaken(env, rules, visited, i) || (env.matches(i) && Naming(rules[i].name.operation))
  {
    var more := visited + [i];
    assert forall p | 0 <= p < |visited| :: more[p] == visited[p];
    assert more[|visited|] == i;
  }

  lemma PathGoesOn(env: Env, rules: seq<Rule>, visited: seq<nat>, i: nat)
    requires i < |rules| && Increasing(visited, i) && InRange(rules, visited)
    requires PathTo(env, rules, visited, i)
    ensures InRange(rules, visited + [i])
    ensures !Ends(env, rules, visited, i) ==> PathTo(env, rules, visited + [i], After(env, rules, visited, i))
    ensures Ends(env, rules, visited, i) ==> WholePath(env, rules, visited + [i])
  {
    hide NameTaken;
    var more := visited + [i];
    CountsOnlyBefore(env, rules, visited, i, i);
    forall p | 0 <= p < |visited|
      ensures more[p] == visited[p] && (Counts(env, rules, more, more[p]) <==> Counts(env, rules, visited, visited[p]))
    {
      CountsOnlyBefore(env, rules, visited, i, visited[p]);
    }
    hide Counts;
    assert more[..|visited|] == visited;
  }

  lemma AppliedGoesOn(env: Env, rules: seq<Rule>, visited: seq<nat>, applied: seq<nat>, i: nat)
    requires i < |rules| && Increasing(visited, i) && Increasing(applied, i) && InRange(rules, visited)
    requires AppliedAre(env, rules, visited, applied)
    ensures InRange(rules, visited + [i])
    ensures var now := Counts(env, rules, visited, i) && !rules[i].ignoreDevice;
      AppliedAre(env, rules, visited + [i], if now then applied + [i] else applied)
  {
    hide NameTaken;
    var more := visited + [i];
    forall v: nat | v <= i
      ensures Counts(env, rules, more, v) <==> Counts(env, rules, visited, v)
    {
      CountsOnlyBefore(env, rules, visited, i, v);
    }
    hide Counts;
    assert forall v: nat :: v in more <==> v in visited || v == i;
    assert forall v: nat | v in visited :: v < i;
    assert forall v: nat | v in applied :: v < i;
  }

  /** From the first rule on the evaluation follows exactly the path, and applies exactly the
      rules on it that count. */
  lemma {:induction false} EvaluationFollowsPath(env: Env, rules: seq<Rule>, kernel: string, i: nat, out: Outcome, nameSet: bool)
    requires On(env, rules, i, out, nameSet)
    ensures var r := EvalName(env, rules, kernel, i, out, nameSet);
      && InRange(rules, r.visited)
      && WholePath(env, rules, r.visited)
      && AppliedAre(env, rules, r.visited, r.applied)
    decreases |rules| - i
  {
    hide Apply, NameTaken, Onward, PathTo, AppliedAre;
    if i < |rules| {
      var rule, out1 := rules[i], out.(visited := out.visited + [i]);
      PathGoesOn(env, rules, out.visited, i);
      AppliedGoesOn(env, rules, out.visited, out.applied, i);
      if (nameSet && Naming(rule.name.operation)) || !env.matches(i) {
        NameTakenNext(env, rules, out.visited, i, i + 1);
        EvaluationFollowsPath(env, rules, kernel, i + 1, out1, nameSet);
      } else if !rule.ignoreDevice && !rule.lastRule {
        var out2 := out1.(dev := Apply(env, rule, i, out.dev), applied := out.applied + [i]);
        NameTakenNext(env, rules, out.visited, i, Onward(rules, i));
        EvaluationFollowsPath(env, rules, kernel, Onward(rules, i), out2, nameSet || Naming(rule.name.operation));
      }
    }
  }

  /** The path of a whole evaluation. */
  lemma WholeEvaluation(env: Env, rules: seq<Rule>, kernel: string, dev: Dev)
    ensures var r := EvalName(env, rules, kernel, 0, Outcome(dev, [], []), false);
      && InRange(rules, r.visited)
      && WholePath(env, rules, r.visited)
      && AppliedAre(env, rules, r.visited, r.applied)
  {
    EvaluationFollowsPath(env, rules, kernel, 0, Outcome(dev, [], []), false);
  }

  /** The last rule reached counts and ignores the device. */
  ghost predicate LastIgnores(env: Env, rules: seq<Rule>, visited: seq<nat>)
    requires InRange(rules, visited)
  {
    visited != [] && Counts(env, rules, visited, visited[|visited|-1]) && rules[visited[|visited|-1]].ignoreDevice
  }

  lemma PathDoesNotIgnore(env: Env, rules: seq<Rule>, visited: seq<nat>, i: nat)
    requires InRange(rules, visited) && PathTo(env, rules, visited, i)
    ensures !LastIgnores(env, rules, visited)
  {
    hide Counts;
    if visited != [] {
      assert !Ends(env, rules, visited, visited[|visited|-1]);
    }
  }

  lemma LastIgnoresNext(env: Env, rules: seq<Rule>, visited: seq<nat>, i: nat)
    requires i < |rules| && Increasing(visited, i) && InRange(rules, visited)
    ensures InRange(rules, visited + [i])
    ensures LastIgnores(env, rules, visited + [i]) <==> Counts(env, rules, visited, i) && rules[i].ignoreDevice
  {
    CountsOnlyBefore(env, rules, visited, i, i);
    hide Counts;
  }

  /** The device is ignored exactly if the last rule reached counts and says so. */
  lemma {:induction false} IgnoredByLast(env: Env, rules: seq<Rule>, kernel: string, i: nat, out: Outcome, nameSet: bool)
    requires On(env, rules, i, out, nameSet) && !out.dev.ignoreDevice
    ensures var r := EvalName(env, rules, kernel, i, out, nameSet);
      InRange(rules, r.visited) && (r.dev.ignoreDevice <==> LastIgnores(env, rules, r.visited))
    decreases |rules| - i
  {
    hide NameTaken, Onward, AppliedAre, LastIgnores, PathTo;
    if i < |rules| {
      var rule, out1 := rules[i], out.(visited := out.visited + [i]);
      LastIgnoresNext(env, rules, out.visited, i);
      PathGoesOn(env, rules, out.visited, i);
      AppliedGoesOn(env, rules, out.visited, out.applied, i);
      if (nameSet && Naming(rule.name.operation)) || !env.matches(i) {
        NameTakenNext(env, rules, out.visited, i, i + 1);
        IgnoredByLast(env, rules, kernel, i + 1, out1, nameSet);
      } else if !rule.ignoreDevice && !rule.lastRule {
        var out2 := out1.(dev := Apply(env, rule, i, out.dev), applied := out.applied + [i]);
        NameTakenNext(env, rules, out.visited, i, Onward(rules, i));
        IgnoredByLast(env, rules, kernel, Onward(rules, i), out2, nameSet || Naming(rule.name.operation));
      }
    } else {
      PathDoesNotIgnore(env, rules, out.visited, i);
    }
  }

  lemma IgnoredIff(env: Env, rules: seq<Rule>, kernel: string)
    ensures var r := EvalName(env, rules, kernel, 0, Outcome(FRESH, [], []), false);
      InRange(rules, r.visited) && (r.dev.ignoreDevice <==> LastIgnores(env, rules, r.visited))
  {
    IgnoredByLast(env, rules, kernel, 0, Outcome(FRESH, [], []), false);
  }

  // ----- Where a rule leads -----

  /** Without a goto the next rule follows; with one, the first later rule whose compared string is the
      label, or the end if there is none. */
  lemma OnwardIff(rules: seq<Rule>, i: nat, j: nat)
    requires i < |rules|
    ensures rules[i].gotoLabel.operation == Unset ==> (Onward(rules, i) == j <==> j == i + 1)
    ensures rules[i].gotoLabel.operation != Unset ==>
      var wanted := StringAt(rules[i].buf, rules[i].gotoLabel.valOff);
      Onward(rules, i) == j <==>
        && i < j <= |rules|
        && (forall k | i < k < j :: LabelText(rules, k) != wanted)
        && (j < |rules| ==> LabelText(rules, j) == wanted)
  {
    hide LabelText, StringAt;
  }

  /** The operations that name a device. */
  lemma NamingIff(op: Operation)
    ensures Naming(op) <==> op == Assign || op == AssignFinal || op == AddOp
  {
  }

  // ----- Removal -----

  /** The rule gives the device nothing: no name, no symlink, no owner, group or mode. */
  predicate GivesNothing(rule: Rule) {
    && rule.name.operation != Assign && rule.name.operation != AssignFinal && rule.name.operation != AddOp
    && rule.symlink.operation != Assign && rule.symlink.operation != AssignFinal && rule.symlink.operation != AddOp
    && rule.owner.operation == Unset && rule.group.operation == Unset && rule.modeOperation == Unset
  }

  predicate CountsOnRemoval(env: Env, rules: seq<Rule>, v: nat)
    requires v < |rules|
  {
    env.matches(v) && GivesNothing(rules[v])
  }

  predicate EndsRemoval(env: Env, rules: seq<Rule>, v: nat)
    requires v < |rules|
  {
    CountsOnRemoval(env, rules, v) && (rules[v].ignoreDevice || rules[v].lastRule || rules[v].run.operation == AssignFinal)
  }

  function AfterOnRemoval(env: Env, rules: seq<Rule>, v: nat): nat
    requires v < |rules|
  {
    if CountsOnRemoval(env, rules, v) then Onward(rules, v) else v + 1
  }

  predicate RemovalPath(env: Env, rules: seq<Rule>, visited: seq<nat>, i: nat)
    requires InRange(rules, visited)
  {
    (visited == [] ==> i == 0)
    && (visited != [] ==> visited[0] == 0)
    && forall p | 0 <= p < |visited| ::
         && !EndsRemoval(env, rules, visited[p])
         && AfterOnRemoval(env, rules, visited[p]) == if p + 1 < |visited| then visited[p+1] else i
  }

  predicate WholeRemovalPath(env: Env, rules: seq<Rule>, visited: seq<nat>)
    requires InRange(rules, visited)
  {
    RemovalPath(env, rules, visited, |rules|)
    || (visited != [] && EndsRemoval(env, rules, visited[|visited|-1])
        && RemovalPath(env, rules, visited[..|visited|-1], visited[|visited|-1]))
  }

  ghost predicate AppliedOnRemoval(env: Env, rules: seq<Rule>, visited: seq<nat>, applied: seq<nat>)
    requires InRange(rules, visited)
  {
    Increasing(applied, |rules|)
    && forall v: nat :: v in applied <==> v in visited && v < |rules| && CountsOnRemoval(env, rules, v) && !rules[v].ignoreDevice
  }

  ghost predicate OnRemoval(env: Env, rules: seq<Rule>, i: nat, out: Outcome) {
    i <= |rules| && Increasing(out.visited, i) && Increasing(out.applied, i) && InRange(rules, out.visited)
    && RemovalPath(env, rules, out.visited, i) && AppliedOnRemoval(env, rules, out.visited, out.applied)
    && !out.dev.runs.final
  }

  lemma RemovalPathGoesOn(env: Env, rules: seq<Rule>, visited: seq<nat>, i: nat)
    requires i < |rules| && InRange(rules, visited) && RemovalPath(env, rules, visited, i)
    ensures InRange(rules, visited + [i])
    ensures if EndsRemoval(env, rules, i) then WholeRemovalPath(env, rules, visited + [i])
      else RemovalPath(env, rules, visited + [i], AfterOnRemoval(env, rules, i))
  {
    hide EndsRemoval, AfterOnRemoval, CountsOnRemoval;
    var more := visited + [i];
    assert more[..|visited|] == visited && more[|visited|] == i;
    assert visited != [] ==> more[0] == visited[0];
    if !EndsRemoval(env, rules, i) {
      forall p | 0 <= p < |more|
        ensures !EndsRemoval(env, rules, more[p])
          && AfterOnRemoval(env, rules, more[p]) == if p + 1 < |more| then more[p+1] else AfterOnRemoval(env, rules, i)
      {
        if p < |visited| {
          assert more[p] == visited[p] && !EndsRemoval(env, rules, visited[p]);
          assert AfterOnRemoval(env, rules, visited[p]) == if p + 1 < |visited| then visited[p+1] else i;
          assert more[p+1] == if p + 1 < |visited| then visited[p+1] else i;
        } else {
          assert p == |visited|;
        }
      }
    }
  }

  lemma RemovalAppliedGoesOn(env: Env, rules: seq<Rule>, visited: seq<nat>, applied: seq<nat>, i: nat)
    requires i < |rules| && Increasing(visited, i) && Increasing(applied, i) && InRange(rules, visited)
    requires AppliedOnRemoval(env, rules, visited, applied)
    ensures InRange(rules, visited + [i])
    ensures var now := CountsOnRemoval(env, rules, i) && !rules[i].ignoreDevice;
      AppliedOnRemoval(env, rules, visited + [i], if now then applied + [i] else applied)
  {
    hide CountsOnRemoval;
    var more := visited + [i];
    assert forall v: nat :: v in more <==> v in visited || v == i;
    assert forall v: nat | v in applied :: v < i;
    assert forall v: nat | v in visited :: v < i;
  }

  lemma GivesNothingIff(rule: Rule)
    ensures GivesNothing(rule) <==> !NamesDevice(rule)
  {
  }

  /** On removal, too, the rules reached are the path along the gotos of those that count, up to one that
      ends it, and those applied are the ones that count and do not ignore the device. */
  lemma {:induction false} RemovalFollowsPath(env: Env, rules: seq<Rule>, i: nat, out: Outcome)
    requires OnRemoval(env, rules, i, out)
    ensures var r := EvalRun(env, rules, i, out);
      && InRange(rules, r.visited)
      && WholeRemovalPath(env, rules, r.visited)
      && AppliedOnRemoval(env, rules, r.visited, r.applied)
    decreases |rules| - i
  {
    hide NamesDevice, Onward, RemovalPath, AppliedOnRemoval, ApplyRun, GivesNothing;
    if i < |rules| {
      var rule, out1 := rules[i], out.(visited := out.visited + [i]);
      GivesNothingIff(rule);
      RemovalPathGoesOn(env, rules, out.visited, i);
      RemovalAppliedGoesOn(env, rules, out.visited, out.applied, i);
      if NamesDevice(rule) || !env.matches(i) {
        RemovalFollowsPath(env, rules, i + 1, out1);
      } else if !rule.ignoreDevice && !rule.lastRule && rule.run.operation != AssignFinal {
        var dev1 := out.dev.(ignoreRemove := out.dev.ignoreRemove || rule.ignoreRemove, runs := AddRun(rule, out.dev.runs));
        RemovalFollowsPath(env, rules, Onward(rules, i), out1.(dev := dev1, applied := out.applied + [i]));
      }
    }
  }

  lemma WholeRemoval(env: Env, rules: seq<Rule>)
    ensures var r := EvalRun(env, rules, 0, Outcome(FRESH, [], []));
      && InRange(rules, r.visited)
      && WholeRemovalPath(env, rules, r.visited)
      && AppliedOnRemoval(env, rules, r.visited, r.applied)
  {
    RemovalFollowsPath(env, rules, 0, Outcome(FRESH, [], []));
  }
}
