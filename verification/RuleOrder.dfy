/** In which order programs and symlinks stand on their lists. */
module RuleOrder {
  import opened CStrings
  import opened NameList
  import opened RuleBuffer
  import opened RuleEval

  // ----- Adding names one after the other -----

  /** Where x stands first, or the length of the list. */
  function First(s: seq<string>, x: string): (i: nat)
    ensures i <= |s| && (i < |s| <==> x in s)
    ensures forall j | 0 <= j < i :: s[j] != x
    ensures i < |s| ==> s[i] == x
  {
    if s == [] then 0
    else if s[0] == x then 0
    else 1 + First(s[1..], x)
  }

  /** The names of the list stand in the order in which they come first in the other. */
  ghost predicate InOrderOf(names: seq<string>, s: seq<string>) {
    && (forall x :: x in names <==> x in s)
    && forall i, j | 0 <= i < j < |names| :: First(s, names[i]) < First(s, names[j])
  }

  lemma FirstOfMore(s: seq<string>, y: string, x: string)
    ensures First(s + [y], x) == if x in s then First(s, x) else if x == y then |s| else |s| + 1
  {
    var a, b := First(s + [y], x), First(s, x);
    if x in s {
      assert (s + [y])[b] == x;
      assert a <= b;
    } else if x == y {
      assert (s + [y])[|s|] == x;
    }
  }

  lemma AddInOrder(names: seq<string>, s: seq<string>, y: string)
    requires InOrderOf(names, s)
    ensures InOrderOf(Add(names, y, false), s + [y])
  {
    hide First;
    forall x
      ensures First(s + [y], x) == if x in s then First(s, x) else if x == y then |s| else |s| + 1
      ensures x in s ==> First(s, x) < |s|
    {
      FirstOfMore(s, y, x);
      FirstIn(s, x);
    }
  }

  lemma FirstIn(s: seq<string>, x: string)
    ensures x in s ==> First(s, x) < |s|
  {
  }

  /** Added one after the other, names stand in the order in which they come first. */
  lemma {:induction false} AddAllInOrder(s: seq<string>)
    ensures InOrderOf(AddAll([], s), s)
  {
    if s != [] {
      var n := |s| - 1;
      AddAllInOrder(s[..n]);
      AddInOrder(AddAll([], s[..n]), s[..n], s[n]);
      assert s[..n] + [s[n]] == s;
    }
  }

  lemma {:induction false} AddAllTwice(a: seq<string>, b: seq<string>)
    ensures AddAll(AddAll([], a), b) == AddAll([], a + b)
  {
    if b == [] {
      assert a + b == a;
    } else {
      var n := |b| - 1;
      AddAllTwice(a, b[..n]);
      assert (a + b)[..|a + b|-1] == a + b[..n];
    }
  }

  // ----- Which rules count -----

  /** What every applied rule has for the list of programs, nothing if its operation is Unset. */
  function RunKeys(rules: seq<Rule>, applied: seq<nat>): (cs: seq<Contribution>)
    requires InRange(rules, applied)
    ensures |cs| == |applied| && forall p | 0 <= p < |cs| :: cs[p] == ProgramOf(rules[applied[p]])
  {
    seq(|applied|, p requires 0 <= p < |applied| => ProgramOf(rules[applied[p]]))
  }

  /** The same for symlinks; a key that matches or is absent has nothing for the list. */
  function LinkKeys(env: Env, rules: seq<Rule>, applied: seq<nat>): (cs: seq<Contribution>)
    requires InRange(rules, applied)
    ensures |cs| == |applied|
    ensures forall p | 0 <= p < |cs| :: cs[p] == LinkKey(env, rules[applied[p]], applied[p])
  {
    seq(|applied|, p requires 0 <= p < |applied| => LinkKey(env, rules[applied[p]], applied[p]))
  }

  function LinkKey(env: Env, rule: Rule, i: nat): Contribution {
    var c := LinksOf(env, rule, i);
    if c.op == Assign || c.op == AssignFinal || c.op == AddOp then c else c.(op := Unset)
  }

  /** Key p has something for the list, no key before it is final, and no later one that is in time
      empties the list. */
  ghost predicate Counts(cs: seq<Contribution>, p: int) {
    && 0 <= p < |cs| && cs[p].op != Unset && InTime(cs, p)
    && forall q | p < q < |cs| && InTime(cs, q) :: cs[q].op != Assign && cs[q].op != AssignFinal
  }

  /** No key before position p is final. */
  ghost predicate InTime(cs: seq<Contribution>, p: int) {
    forall q | 0 <= q < p && q < |cs| :: cs[q].op != AssignFinal
  }

  /** The values of those of the first n keys that count, one after the other. */
  ghost function CountingValues(cs: seq<Contribution>, n: nat): seq<string>
    requires n <= |cs|
  {
    if n == 0 then [] else CountingValues(cs, n - 1) + if Counts(cs, n - 1) then cs[n-1].values else []
  }

  lemma {:induction false} SameCounting(cs: seq<Contribution>, ds: seq<Contribution>, n: nat)
    requires n <= |cs| && n <= |ds|
    requires forall p | 0 <= p < n :: cs[p] == ds[p] && (Counts(cs, p) <==> Counts(ds, p))
    ensures CountingValues(cs, n) == CountingValues(ds, n)
  {
    hide Counts;
    if n > 0 {
      SameCounting(cs, ds, n - 1);
    }
  }

  lemma {:induction false} NoneCounting(cs: seq<Contribution>, n: nat)
    requires n <= |cs| && forall p | 0 <= p < n :: !Counts(cs, p)
    ensures CountingValues(cs, n) == []
  {
    hide Counts;
    if n > 0 {
      NoneCounting(cs, n - 1);
    }
  }

  /** The keys that have something for the list. */
  function Given(cs: seq<Contribution>): seq<Contribution> {
    if cs == [] then []
    else
      var n := |cs| - 1;
      Given(cs[..n]) + if cs[n].op == Unset then [] else [cs[n]]
  }

  lemma CountsStep(cs: seq<Contribution>)
    requires cs != []
    ensures var n := |cs| - 1; var front, open := cs[..n], InTime(cs, n);
      && (!open || cs[n].op == Unset || !Resets(cs[n].op) ==> forall p | 0 <= p < n :: Counts(cs, p) <==> Counts(front, p))
      && (open && Resets(cs[n].op) ==> forall p | 0 <= p < n :: !Counts(cs, p))
      && (Counts(cs, n) <==> open && cs[n].op != Unset)
      && (InTime(cs, |cs|) <==> open && cs[n].op != AssignFinal) && (open <==> InTime(front, n))
  {
    var n := |cs| - 1;
    assert forall q | 0 <= q < n :: cs[..n][q] == cs[q];
    assert forall q | 0 <= q <= n :: InTime(cs, q) <==> InTime(cs[..n], q);
    hide InTime;
    if !InTime(cs, n) || cs[n].op == Unset || !Resets(cs[n].op) {
      forall p | 0 <= p < n
        ensures Counts(cs, p) <==> Counts(cs[..n], p)
      {
      }
    }
  }

  /** What a list becomes with one key more, and what counts. */
  lemma CountingNext(cs: seq<Contribution>)
    requires cs != []
    ensures var n := |cs| - 1; var before := CountingValues(cs[..n], n);
      CountingValues(cs, |cs|) ==
        if !InTime(cs, n) || cs[n].op == Unset then before
        else if Resets(cs[n].op) then cs[n].values
        else before + cs[n].values
  {
    var n := |cs| - 1;
    CountsStep(cs);
    hide Counts, InTime;
    assert CountingValues(cs, n) + [] == CountingValues(cs, n);
    if InTime(cs, n) && Resets(cs[n].op) {
      NoneCounting(cs, n);
      assert [] + cs[n].values == cs[n].values;
    } else {
      SameCounting(cs, cs[..n], n);
    }
  }

  lemma SettleNext(cs: seq<Contribution>)
    requires cs != []
    ensures var n := |cs| - 1; var before := Settle(Given(cs[..n]));
      Settle(Given(cs)) == if cs[n].op == Unset then before else Contribute(before, cs[n])
  {
    var n := |cs| - 1;
    assert Given(cs[..n]) + [] == Given(cs[..n]);
    if cs[n].op != Unset {
      SettleAppend(Given(cs[..n]), cs[n]);
    }
    hide Settle, Contribute;
  }

  lemma ContributeIs(st: Settled, c: Contribution)
    ensures st.final ==> Contribute(st, c) == st
    ensures !st.final ==>
      Contribute(st, c).items == AddAll(if Resets(c.op) then [] else st.items, c.values)
      && (Contribute(st, c).final <==> c.op == AssignFinal)
    ensures c.op == Unset ==> !Resets(c.op)
  {
  }

  lemma {:induction false} SettleCounts(cs: seq<Contribution>)
    ensures Settle(Given(cs)).items == AddAll([], CountingValues(cs, |cs|))
    ensures Settle(Given(cs)).final <==> !InTime(cs, |cs|)
  {
    if cs != [] {
      var n := |cs| - 1;
      SettleCounts(cs[..n]);
      CountsStep(cs);
      CountingNext(cs);
      SettleNext(cs);
      ContributeIs(Settle(Given(cs[..n])), cs[n]);
      AddAllTwice(CountingValues(cs[..n], n), cs[n].values);
      hide *;
    } else {
      assert Settle(Given(cs)) == NOTHING;
    }
  }

  /** A key that counts brings x and flags it. */
  ghost predicate Flags(cs: seq<Contribution>, x: string) {
    exists p :: Counts(cs, p) && x in cs[p].values && cs[p].flag
  }

  lemma FlagsNext(cs: seq<Contribution>, x: string)
    requires cs != []
    ensures var n := |cs| - 1; var before, now := Flags(cs[..n], x), x in cs[n].values && cs[n].flag;
      Flags(cs, x) <==>
        if !InTime(cs, n) || cs[n].op == Unset then before
        else if Resets(cs[n].op) then now
        else before || now
  {
    var n := |cs| - 1;
    CountsStep(cs);
    InRangeOnly(cs);
    InRangeOnly(cs[..n]);
    hide Counts, InTime;
    if Counts(cs, n) && x in cs[n].values && cs[n].flag {
      assert Flags(cs, x);
    }
    if Flags(cs, x) {
      var p :| Counts(cs, p) && x in cs[p].values && cs[p].flag;
      assert p < n ==> cs[..n][p] == cs[p];
    }
    if Flags(cs[..n], x) {
      var p :| Counts(cs[..n], p) && x in cs[..n][p].values && cs[..n][p].flag;
      assert cs[..n][p] == cs[p];
      assert Counts(cs, p) ==> Flags(cs, x);
    }
  }

  lemma InRangeOnly(cs: seq<Contribution>)
    ensures forall p | Counts(cs, p) :: 0 <= p < |cs|
  {
  }

  lemma {:induction false} SettleFlags(cs: seq<Contribution>, x: string)
    ensures x in Settle(Given(cs)).flagged <==> Flags(cs, x)
  {
    if cs != [] {
      SettleFlags(cs[..|cs|-1], x);
      FlagsNext(cs, x);
      SettleNext(cs);
      SettleCounts(cs[..|cs|-1]);
      SameInTime(cs);
      hide Counts, InTime, AddAll, Settle, Given, CountingValues, Flags;
    }
  }

  lemma SameInTime(cs: seq<Contribution>)
    requires cs != []
    ensures InTime(cs, |cs| - 1) <==> InTime(cs[..|cs|-1], |cs| - 1)
  {
  }

  lemma {:induction false} RunContributionsAreGiven(rules: seq<Rule>, applied: seq<nat>)
    requires InRange(rules, applied)
    ensures RunContributions(rules, applied) == Given(RunKeys(rules, applied))
  {
    if applied != [] {
      var n := |applied| - 1;
      RunContributionsAreGiven(rules, applied[..n]);
      assert RunKeys(rules, applied)[..n] == RunKeys(rules, applied[..n]);
    }
  }

  lemma {:induction false} LinkContributionsAreGiven(env: Env, rules: seq<Rule>, applied: seq<nat>)
    requires InRange(rules, applied)
    ensures SymlinkContributions(env, rules, applied) == Given(LinkKeys(env, rules, applied))
  {
    if applied != [] {
      var n := |applied| - 1;
      LinkContributionsAreGiven(env, rules, applied[..n]);
      assert LinkKeys(env, rules, applied)[..n] == LinkKeys(env, rules, applied[..n]);
    }
  }

  // ----- Main results -----

  /** In every evaluation programs and symlinks stand in the order in which the applied rules that
      count bring them first, and no others stand there. */
  lemma ListsAreInOrder(env: Env, rules: seq<Rule>, kernel: string)
    ensures var r := EvalName(env, rules, kernel, 0, Outcome(FRESH, [], []), false);
      && InRange(rules, r.applied)
      && InOrderOf(r.dev.runs.items, CountingValues(RunKeys(rules, r.applied), |r.applied|))
      && InOrderOf(r.dev.symlinks.items, CountingValues(LinkKeys(env, rules, r.applied), |r.applied|))
  {
    EvaluationIsSettled(env, rules, kernel);
    var r := EvalName(env, rules, kernel, 0, Outcome(FRESH, [], []), false);
    hide *;
    ProgramsSettleInOrder(rules, r.applied);
    LinkContributionsAreGiven(env, rules, r.applied);
    SettleCounts(LinkKeys(env, rules, r.applied));
    AddAllInOrder(CountingValues(LinkKeys(env, rules, r.applied), |r.applied|));
  }

  /** Errors of exactly those programs are ignored that a rule that counts brings with this option, and
      no symlink is marked. */
  lemma ErrorsIgnoredIff(env: Env, rules: seq<Rule>, kernel: string, x: string)
    ensures var r := EvalName(env, rules, kernel, 0, Outcome(FRESH, [], []), false);
      && InRange(rules, r.applied)
      && (x in r.dev.runs.flagged <==>
            exists p :: Counts(RunKeys(rules, r.applied), p)
              && x == StringAt(rules[r.applied[p]].buf, rules[r.applied[p]].run.valOff) && rules[r.applied[p]].runIgnoreError)
      && x !in r.dev.symlinks.flagged
  {
    EvaluationIsSettled(env, rules, kernel);
    var r := EvalName(env, rules, kernel, 0, Outcome(FRESH, [], []), false);
    hide *;
    ProgramFlags(rules, r.applied, x);
    NoLinkFlags(env, rules, r.applied, x);
    RunContributionsAreGiven(rules, r.applied);
    LinkContributionsAreGiven(env, rules, r.applied);
    SettleFlags(RunKeys(rules, r.applied), x);
    SettleFlags(LinkKeys(env, rules, r.applied), x);
  }

  lemma ProgramFlags(rules: seq<Rule>, applied: seq<nat>, x: string)
    requires InRange(rules, applied)
    ensures var cs := RunKeys(rules, applied);
      Flags(cs, x) <==>
        exists p :: Counts(cs, p)
          && x == StringAt(rules[applied[p]].buf, rules[applied[p]].run.valOff) && rules[applied[p]].runIgnoreError
  {
    var cs := RunKeys(rules, applied);
    InRangeOnly(cs);
    hide Counts, StringAt;
    if p :| Counts(cs, p) && x == StringAt(rules[applied[p]].buf, rules[applied[p]].run.valOff) && rules[applied[p]].runIgnoreError {
      assert cs[p].values == [x] && cs[p].flag;
    }
  }

  lemma NoLinkFlags(env: Env, rules: seq<Rule>, applied: seq<nat>, x: string)
    requires InRange(rules, applied)
    ensures !Flags(LinkKeys(env, rules, applied), x)
  {
    InRangeOnly(LinkKeys(env, rules, applied));
    hide Counts;
  }

  lemma ProgramsSettleInOrder(rules: seq<Rule>, applied: seq<nat>)
    requires InRange(rules, applied)
    ensures InOrderOf(Settle(RunContributions(rules, applied)).items, CountingValues(RunKeys(rules, applied), |applied|))
  {
    hide *;
    RunContributionsAreGiven(rules, applied);
    SettleCounts(RunKeys(rules, applied));
    AddAllInOrder(CountingValues(RunKeys(rules, applied), |applied|));
  }

  /** The same for the programs to run on removal. */
  lemma RemovalIsInOrder(env: Env, rules: seq<Rule>)
    ensures var r := EvalRun(env, rules, 0, Outcome(FRESH, [], []));
      InRange(rules, r.applied) && InOrderOf(r.dev.runs.items, CountingValues(RunKeys(rules, r.applied), |r.applied|))
  {
    var out := Outcome(FRESH, [], []);
    assert RunsSettled(rules, out);
    RemovalIsSettled(env, rules, 0, out);
    var r := EvalRun(env, rules, 0, out);
    hide EvalRun, Settle, RunContributions, InOrderOf, CountingValues, RunKeys;
    ProgramsSettleInOrder(rules, r.applied);
  }

  /** Two programs added by two rules run in the order of the rules. */
  lemma TwoProgramsInOrder(env: Env, rules: seq<Rule>, kernel: string, a: string, b: string)
    requires |rules| == 2 && env.matches(0) && env.matches(1) && a != b
    requires forall i | 0 <= i < 2 ::
      rules[i].run.operation == AddOp && rules[i].name == UNSET && rules[i].gotoLabel == UNSET && !rules[i].ignoreDevice && !rules[i].lastRule
    requires StringAt(rules[0].buf, rules[0].run.valOff) == a && StringAt(rules[1].buf, rules[1].run.valOff) == b
    ensures EvalName(env, rules, kernel, 0, Outcome(FRESH, [], []), false).dev.runs.items == [a, b]
  {
    var out := Outcome(FRESH, [], []);
    EvalNameStep(env, rules, kernel, 0, out, false);
    var out1 := Outcome(Apply(env, rules[0], 0, FRESH), [0], [0]);
    EvalNameStep(env, rules, kernel, 1, out1, false);
    EvalNameEnd(env, rules, kernel, Outcome(Apply(env, rules[1], 1, out1.dev), [0, 1], [0, 1]), false);
    assert [0] + [1] == [0, 1] && [] + [0] == [0];
    hide EvalName, StringAt, ApplySymlinks;
    assert ApplyRun(rules[0], NOTHING).items == [a] by { AddOne([], a); }
    assert ApplyRun(rules[1], Settled([a], false, ApplyRun(rules[0], NOTHING).flagged)).items == [a, b] by { AddOne([a], b); }
  }

  lemma AddOne(names: seq<string>, name: string)
    requires name !in names
    ensures AddAll(names, [name]) == names + [name]
  {
    assert [name][..0] == [];
  }
}
