/** Matching one key of a rule: its value lists patterns with bars between them. How a single
    pattern matches is left to fnmatch. */
module RuleMatch {
  import opened CStrings
  import opened RuleBuffer

  /** The part of the value from i to j stands between two bars, or a bar and an end. */
  predicate IsPart(value: string, i: nat, j: nat) {
    i <= j <= |value|
    && (forall k | i <= k < j :: value[k] != '|')
    && (i == 0 || value[i-1] == '|')
    && (j == |value| || value[j] == '|')
  }

  /** Some part of the value matches. */
  ghost predicate SomePartMatches(fnmatch: (string, string) -> bool, value: string, val: string) {
    exists i: nat, j: nat :: IsPart(value, i, j) && fnmatch(value[i..j], val)
  }

  /** A key decides against the rule exactly if it tests for a match and no part matches, or for
      no match and one does. */
  ghost predicate Decides(fnmatch: (string, string) -> bool, rule: Rule, key: Key, val: string) {
    match key.operation
    case Match => SomePartMatches(fnmatch, StringAt(rule.buf, key.valOff), val)
    case NoMatch => !SomePartMatches(fnmatch, StringAt(rule.buf, key.valOff), val)
    case _ => true
  }

  /** strchr(value + i, '|'), or the end. */
  method FindBar(value: string, i: nat) returns (j: nat)
    requires i <= |value|
    ensures i <= j <= |value| && (forall k | i <= k < j :: value[k] != '|') && (j == |value| || value[j] == '|')
  {
    j := i;
    while j < |value| && value[j] != '|'
      invariant i <= j <= |value| && forall k | i <= k < j :: value[k] != '|'
    {
      j := j + 1;
    }
  }

  /** Parts are told apart by where they start: two that overlap are the same. */
  lemma PartStarts(value: string, i: nat, j: nat, a: nat, b: nat)
    requires IsPart(value, i, j) && IsPart(value, a, b) && i <= a <= j
    ensures a == i && b == j
  {
  }

  /** match_key */
  method MatchKey(fnmatch: (string, string) -> bool, rule: Rule, key: Key, val: string) returns (r: int)
    ensures r == if Decides(fnmatch, rule, key, val) then 0 else -1
  {
    if key.operation != Match && key.operation != NoMatch {
      return 0;
    }
    var value := StringAt(rule.buf, key.valOff);
    var found := false;
    var start := 0;
    var more := true;
    while more
      invariant more ==> start <= |value| && (start == 0 || value[start-1] == '|')
      invariant more ==> !found && forall a: nat, b: nat | IsPart(value, a, b) && a < start :: !fnmatch(value[a..b], val)
      invariant !more ==> (found <==> SomePartMatches(fnmatch, value, val))
      decreases if more then |value| + 1 - start else 0
    {
      var pos := FindBar(value, start);
      assert IsPart(value, start, pos);
      found := fnmatch(value[start..pos], val);
      forall a: nat, b: nat | IsPart(value, a, b) && start <= a <= pos
        ensures a == start && b == pos
      {
        PartStarts(value, start, pos, a, b);
      }
      more := !found && pos < |value|;
      start := pos + 1;
    }
    if found && key.operation == Match {
      return 0;
    }
    if !found && key.operation == NoMatch {
      return 0;
    }
    r := -1;
  }

  // ----- What parts are -----

  lemma OnlyPart(a: string, i: nat, j: nat)
    requires '|' !in a
    ensures IsPart(a, i, j) <==> i == 0 && j == |a|
  {
  }

  lemma FirstPart(s: string, a: string, b: string, i: nat, j: nat)
    requires '|' !in a && s == a + "|" + b
    ensures IsPart(s, 0, |a|) && s[0..|a|] == a
    ensures IsPart(s, i, j) && i <= |a| ==> i == 0 && j == |a|
  {
    assert s[|a|] == '|' && forall k | 0 <= k < |a| :: s[k] == a[k] != '|';
    assert IsPart(s, 0, |a|);
    if IsPart(s, i, j) && i <= |a| {
      PartStarts(s, 0, |a|, i, j);
    }
  }

  lemma PartIff(value: string, i: nat, j: nat)
    requires i <= j <= |value|
    ensures IsPart(value, i, j) <==>
      '|' !in value[i..j] && (i == 0 || value[i-1] == '|') && (j == |value| || value[j] == '|')
  {
    if '|' !in value[i..j] {
      forall k | i <= k < j
        ensures value[k] != '|'
      {
        assert value[i..j][k - i] == value[k];
      }
    }
  }

  lemma SlicesShift(s: string, a: string, b: string, i: nat, j: nat)
    requires s == a + "|" + b && i <= j <= |b|
    ensures var n := |a| + 1;
      && |s| == n + |b| && s[n + i..n + j] == b[i..j]
      && (if i == 0 then s[n + i - 1] == '|' else s[n + i - 1] == b[i - 1])
      && (j < |b| ==> s[n + j] == b[j])
  {
  }

  lemma LaterPart(s: string, a: string, b: string, i: nat, j: nat)
    requires s == a + "|" + b && i <= j <= |b|
    ensures IsPart(b, i, j) <==> IsPart(s, |a| + 1 + i, |a| + 1 + j)
    ensures s[|a| + 1 + i..|a| + 1 + j] == b[i..j]
  {
    SlicesShift(s, a, b, i, j);
    PartIff(b, i, j);
    PartIff(s, |a| + 1 + i, |a| + 1 + j);
    hide IsPart;
  }

  lemma PartRange(value: string, i: nat, j: nat)
    requires IsPart(value, i, j)
    ensures i <= j <= |value|
  {
  }

  /** A value without bars is one pattern; bars stand between patterns of which one has to match. */
  lemma BarsSeparate(fnmatch: (string, string) -> bool, a: string, b: string, val: string)
    requires '|' !in a
    ensures SomePartMatches(fnmatch, a, val) <==> fnmatch(a, val)
    ensures SomePartMatches(fnmatch, a + "|" + b, val) <==> fnmatch(a, val) || SomePartMatches(fnmatch, b, val)
  {
    var s, n := a + "|" + b, |a| + 1;
    forall i: nat, j: nat
      ensures IsPart(a, i, j) <==> i == 0 && j == |a|
    {
      OnlyPart(a, i, j);
    }
    assert a[0..|a|] == a && IsPart(a, 0, |a|);
    FirstPart(s, a, b, 0, 0);
    if i: nat, j: nat :| IsPart(s, i, j) && fnmatch(s[i..j], val) {
      FirstPart(s, a, b, i, j);
      PartRange(s, i, j);
      if i >= n {
        LaterPart(s, a, b, i - n, j - n);
      }
    }
    if i: nat, j: nat :| IsPart(b, i, j) && fnmatch(b[i..j], val) {
      PartRange(b, i, j);
      LaterPart(s, a, b, i, j);
    }
  }

  /** A match wants the one pattern to match, a non-match wants it not to, and other keys want nothing. */
  lemma KeysMean(fnmatch: (string, string) -> bool, rule: Rule, key: Key, val: string)
    requires '|' !in StringAt(rule.buf, key.valOff)
    ensures Decides(fnmatch, rule, key, val) <==>
      && (key.operation == Match ==> fnmatch(StringAt(rule.buf, key.valOff), val))
      && (key.operation == NoMatch ==> !fnmatch(StringAt(rule.buf, key.valOff), val))
  {
    BarsSeparate(fnmatch, StringAt(rule.buf, key.valOff), "", val);
    hide SomePartMatches, StringAt;
  }
}
