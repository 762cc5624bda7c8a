/** The version order is a total preorder, and test_version's operators are its relations. */
module DebVersionOrder {
  import opened CStrings
  import opened Decimal
  import opened DebVersion

  // ----- A key whose lexicographic order is the order of version parts -----

  function Weights(text: string): (ws: seq<int>)
    ensures |ws| == |text| && forall i | 0 <= i < |ws| :: ws[i] == Weight(text[i])
  {
    seq(|text|, i requires 0 <= i < |text| => Weight(text[i]))
  }

  /** Per round: the weights of the text, a 0 for its end, the number. */
  function Key(s: string): seq<int>
    decreases |s|
  {
    if s == "" then []
    else
      Shorter(s);
      Weights(Text(s)) + [0, Number(AfterText(s))] + Key(AfterDigits(AfterText(s)))
  }

  /** Keys are read as if zeros followed for ever. */
  function At(key: seq<int>, i: nat): int {
    if i < |key| then key[i] else 0
  }

  ghost predicate SameBelow(a: seq<int>, b: seq<int>, n: nat) {
    forall i: nat | i < n :: At(a, i) == At(b, i)
  }

  ghost predicate FirstBelow(a: seq<int>, b: seq<int>, n: nat) {
    SameBelow(a, b, n) && At(a, n) < At(b, n)
  }

  ghost predicate KeyLess(a: seq<int>, b: seq<int>) {
    exists n: nat :: FirstBelow(a, b, n)
  }

  ghost predicate KeySame(a: seq<int>, b: seq<int>) {
    forall i: nat :: At(a, i) == At(b, i)
  }

  /** Key(s) with the round written out, also for the empty string. */
  function Round(s: string): seq<int> {
    Weights(Text(s)) + [0, Number(AfterText(s))] + Key(AfterDigits(AfterText(s)))
  }

  lemma RoundIsKey(s: string)
    ensures KeySame(Round(s), Key(s))
  {
  }

  /** Where two texts first differ, with 0 as the weight of their end. */
  lemma {:induction false} TextDifference(a: string, b: string) returns (n: nat)
    requires CompareText(a, b) != 0
    ensures n <= |a| && n <= |b|
    ensures forall i | 0 <= i < n :: Weight(a[i]) == Weight(b[i])
    ensures CompareText(a, b) == (if n < |a| then Weight(a[n]) else 0) - (if n < |b| then Weight(b[n]) else 0)
    decreases |a|
  {
    var wa := if a == "" then 0 else Weight(a[0]);
    var wb := if b == "" then 0 else Weight(b[0]);
    if wa != wb {
      n := 0;
    } else {
      var m := TextDifference(a[1..], b[1..]);
      n := m + 1;
      forall i | 0 <= i < n
        ensures Weight(a[i]) == Weight(b[i])
      {
        if i > 0 {
          assert a[i] == a[1..][i-1] && b[i] == b[1..][i-1];
        }
      }
    }
  }

  predicate NoNul(s: string) {
    '\0' !in s
  }

  lemma {:induction false} EqualTexts(a: string, b: string)
    requires CompareText(a, b) == 0 && NoNul(a) && NoNul(b)
    ensures Weights(a) == Weights(b)
    decreases |a|
  {
    if a == "" || b == "" {
    } else {
      EqualTexts(a[1..], b[1..]);
      assert Weights(a) == [Weight(a[0])] + Weights(a[1..]);
      assert Weights(b) == [Weight(b[0])] + Weights(b[1..]);
    }
  }

  lemma TextsDiffer(a: CString, b: CString)
    requires CompareText(Text(a), Text(b)) != 0
    ensures CompareText(Text(a), Text(b)) < 0 ==> KeyLess(Key(a), Key(b))
    ensures CompareText(Text(a), Text(b)) > 0 ==> KeyLess(Key(b), Key(a))
  {
    RoundIsKey(a);
    RoundIsKey(b);
    var n := TextDifference(Text(a), Text(b));
    RoundHead(a);
    RoundHead(b);
    hide Key, Round, CompareText, Text;
    DifferAt(Round(a), Round(b), Key(a), Key(b), n, CompareText(Text(a), Text(b)));
  }

  lemma NumbersDiffer(a: CString, b: CString)
    requires CompareText(Text(a), Text(b)) == 0 && Number(AfterText(a)) < Number(AfterText(b))
    ensures KeyLess(Key(a), Key(b))
  {
    RoundIsKey(a);
    RoundIsKey(b);
    EqualTexts(Text(a), Text(b));
    var w, x, y := Weights(Text(a)), Number(AfterText(a)), Number(AfterText(b));
    var ka, kb := Key(AfterDigits(AfterText(a))), Key(AfterDigits(AfterText(b)));
    assert Round(a) == w + [0, x] + ka;
    assert Round(b) == w + [0, y] + kb;
    hide Key, Round, Text, CompareText, Weights, AfterText, Number, AfterDigits, KeySame, KeyLess;
    DifferAfter(w, x, y, ka, kb, Round(a), Round(b), Key(a), Key(b));
  }

  lemma DifferAfter(w: seq<int>, x: int, y: int, ka1: seq<int>, kb1: seq<int>, ra: seq<int>, rb: seq<int>, ka: seq<int>, kb: seq<int>)
    requires ra == w + [0, x] + ka1 && rb == w + [0, y] + kb1
    requires KeySame(ra, ka) && KeySame(rb, kb) && x < y
    ensures KeyLess(ka, kb)
  {
    DifferAt(ra, rb, ka, kb, |w| + 1, x - y);
  }

  /** The sign of the order is decided where the keys first differ. */
  lemma {:induction false} OrderIsKeyOrder(a: CString, b: CString)
    ensures PartOrder(a, b) < 0 ==> KeyLess(Key(a), Key(b))
    ensures PartOrder(a, b) > 0 ==> KeyLess(Key(b), Key(a))
    ensures PartOrder(a, b) == 0 ==> KeySame(Key(a), Key(b))
    decreases |a| + |b|
  {
    hide Key, Text, CompareText, AfterText, AfterDigits, Number, KeyLess, KeySame;
    if a != "" || b != "" {
      if CompareText(Text(a), Text(b)) != 0 {
        TextsDiffer(a, b);
      } else if Number(AfterText(a)) != Number(AfterText(b)) {
        TextsAgree(a, b);
        if Number(AfterText(a)) < Number(AfterText(b)) {
          NumbersDiffer(a, b);
        } else {
          NumbersDiffer(b, a);
        }
      } else {
        Shorter(a);
        Shorter(b);
        var a1: CString, b1: CString := Rest(a), Rest(b);
        OrderIsKeyOrder(a1, b1);
        TextsAgree(a, b);
        RoundsAgree(a, b);
      }
    } else {
      SameKey(Key(a));
    }
  }

  lemma SameKey(k: seq<int>)
    ensures KeySame(k, k)
  {
  }

  function Rest(s: CString): CString {
    AfterDigits(AfterText(s))
  }

  lemma {:induction false} CompareTextSymmetric(a: string, b: string)
    ensures CompareText(a, b) == -CompareText(b, a)
    decreases |a|
  {
    if a != "" && b != "" {
      CompareTextSymmetric(a[1..], b[1..]);
    }
  }

  lemma TextsAgree(a: CString, b: CString)
    ensures CompareText(Text(a), Text(b)) == 0 ==> CompareText(Text(b), Text(a)) == 0
  {
    CompareTextSymmetric(Text(a), Text(b));
  }

  lemma RoundsAgree(a: CString, b: CString)
    requires CompareText(Text(a), Text(b)) == 0 && Number(AfterText(a)) == Number(AfterText(b))
    ensures KeyLess(Key(Rest(a)), Key(Rest(b))) ==> KeyLess(Key(a), Key(b))
    ensures KeyLess(Key(Rest(b)), Key(Rest(a))) ==> KeyLess(Key(b), Key(a))
    ensures KeySame(Key(Rest(a)), Key(Rest(b))) ==> KeySame(Key(a), Key(b))
  {
    RoundIsKey(a);
    RoundIsKey(b);
    EqualTexts(Text(a), Text(b));
    var w := Weights(Text(a)) + [0, Number(AfterText(a))];
    assert Round(a) == w + Key(Rest(a)) && Round(b) == w + Key(Rest(b));
    hide Key, Round, Text, CompareText, Weights, AfterText, Number, Rest, KeyLess, KeySame;
    SharedHead(w, Key(Rest(a)), Key(Rest(b)), Round(a), Round(b), Key(a), Key(b));
  }

  lemma RoundHead(s: string)
    ensures |Round(s)| > |Text(s)| && Round(s)[|Text(s)|] == 0
    ensures forall i | 0 <= i < |Text(s)| :: Round(s)[i] == Weight(Text(s)[i])
  {
  }

  lemma DifferAt(ra: seq<int>, rb: seq<int>, ka: seq<int>, kb: seq<int>, n: nat, diff: int)
    requires KeySame(ra, ka) && KeySame(rb, kb)
    requires forall i: nat | i < n :: At(ra, i) == At(rb, i)
    requires At(ra, n) - At(rb, n) == diff
    ensures diff < 0 ==> KeyLess(ka, kb)
    ensures diff > 0 ==> KeyLess(kb, ka)
  {
    if diff < 0 {
      assert FirstBelow(ka, kb, n);
    } else if diff > 0 {
      assert FirstBelow(kb, ka, n);
    }
  }

  lemma SharedHead(w: seq<int>, ka1: seq<int>, kb1: seq<int>, ra: seq<int>, rb: seq<int>, ka: seq<int>, kb: seq<int>)
    requires ra == w + ka1 && rb == w + kb1 && KeySame(ra, ka) && KeySame(rb, kb)
    ensures KeyLess(ka1, kb1) ==> KeyLess(ka, kb)
    ensures KeyLess(kb1, ka1) ==> KeyLess(kb, ka)
    ensures KeySame(ka1, kb1) ==> KeySame(ka, kb)
  {
    forall i: nat
      ensures At(ka, i) == if i < |w| then w[i] else At(ka1, i - |w|)
      ensures At(kb, i) == if i < |w| then w[i] else At(kb1, i - |w|)
    {
      assert At(ka, i) == At(ra, i) && At(kb, i) == At(rb, i);
    }
    if n: nat :| FirstBelow(ka1, kb1, n) {
      assert FirstBelow(ka, kb, n + |w|);
    }
    if n: nat :| FirstBelow(kb1, ka1, n) {
      assert FirstBelow(kb, ka, n + |w|);
    }
  }

  lemma KeyLessExcludes(a: seq<int>, b: seq<int>)
    requires KeyLess(a, b)
    ensures !KeyLess(b, a) && !KeySame(a, b)
  {
    var n: nat :| FirstBelow(a, b, n);
  }

  lemma KeyLessTransitive(a: seq<int>, b: seq<int>, c: seq<int>)
    requires KeyLess(a, b) || KeySame(a, b)
    requires KeyLess(b, c) || KeySame(b, c)
    ensures KeyLess(a, c) || KeySame(a, c)
  {
    if n: nat :| FirstBelow(a, b, n) {
      if m: nat :| FirstBelow(b, c, m) {
        assert FirstBelow(a, c, if m < n then m else n);
      } else {
        assert FirstBelow(a, c, n);
      }
    } else if m: nat :| FirstBelow(b, c, m) {
      assert FirstBelow(a, c, m);
    }
  }

  // ----- Version parts are totally preordered -----

  /** The order of parts is exactly the order of their keys. */
  lemma KeyDecides(a: CString, b: CString)
    ensures PartOrder(a, b) < 0 <==> KeyLess(Key(a), Key(b))
    ensures PartOrder(a, b) > 0 <==> KeyLess(Key(b), Key(a))
    ensures PartOrder(a, b) == 0 <==> KeySame(Key(a), Key(b))
  {
    OrderIsKeyOrder(a, b);
    hide PartOrder, Key;
    if KeyLess(Key(a), Key(b)) {
      KeyLessExcludes(Key(a), Key(b));
    }
    if KeyLess(Key(b), Key(a)) {
      KeyLessExcludes(Key(b), Key(a));
      assert !KeySame(Key(a), Key(b));
    }
  }

  lemma PartReflexive(a: CString)
    ensures PartOrder(a, a) == 0
  {
    hide Key;
    KeyDecides(a, a);
  }

  lemma PartAntisymmetric(a: CString, b: CString)
    ensures Sign(PartOrder(a, b)) == -Sign(PartOrder(b, a))
  {
    hide Key, PartOrder;
    KeyDecides(a, b);
    KeyDecides(b, a);
    assert KeySame(Key(a), Key(b)) <==> KeySame(Key(b), Key(a));
    if KeyLess(Key(a), Key(b)) {
      KeyLessExcludes(Key(a), Key(b));
    }
  }

  lemma PartTransitive(a: CString, b: CString, c: CString)
    requires PartOrder(a, b) <= 0 && PartOrder(b, c) <= 0
    ensures PartOrder(a, c) <= 0
    ensures PartOrder(a, c) == 0 ==> PartOrder(a, b) == 0 && PartOrder(b, c) == 0
  {
    hide Key, PartOrder;
    KeyDecides(a, b);
    KeyDecides(b, c);
    KeyDecides(a, c);
    KeyDecides(c, b);
    KeyDecides(b, a);
    PartAntisymmetric(a, b);
    PartAntisymmetric(b, c);
    KeyLessTransitive(Key(a), Key(b), Key(c));
    if KeySame(Key(a), Key(c)) {
      assert KeySame(Key(c), Key(a));
      KeyLessTransitive(Key(c), Key(a), Key(b));
      KeyLessTransitive(Key(b), Key(c), Key(a));
    }
  }

  // ----- Whole versions -----

  datatype Version = Version(epoch: nat, upstream: CString, revision: CString)

  function IndexOf(s: string, c: char): (i: nat)
    ensures i <= |s| && (i < |s| ==> s[i] == c) && c !in s[..i]
  {
    if s == "" || s[0] == c then 0 else 1 + IndexOf(s[1..], c)
  }

  /** One past the last occurrence of c, or 0. */
  function LastIndexOf(s: string, c: char): (i: nat)
    ensures i <= |s| && (i > 0 ==> s[i-1] == c) && c !in s[i..]
  {
    if s == "" then 0
    else if s[|s|-1] == c then |s|
    else
      assert s[LastIndexOf(s[..|s|-1], c)..] == s[..|s|-1][LastIndexOf(s[..|s|-1], c)..] + [s[|s|-1]];
      LastIndexOf(s[..|s|-1], c)
  }

  /** A version string taken apart: at its first colon and, in the rest, its last dash. */
  function Parse(s: CString): Version {
    var colon := IndexOf(s, ':');
    var epoch := if colon < |s| then ToUnsigned(Atoi(s)) else 0;
    var rest := if colon < |s| then From(s, colon + 1) else s;
    var dash := LastIndexOf(rest, '-');
    if dash == 0 then Version(epoch, rest, "") else Version(epoch, Upto(rest, dash - 1), From(rest, dash))
  }

  function VersionOrder(a: Version, b: Version): int {
    if a.epoch != b.epoch then a.epoch - b.epoch
    else if PartOrder(a.upstream, b.upstream) != 0 then PartOrder(a.upstream, b.upstream)
    else PartOrder(a.revision, b.revision)
  }

  method SplitVersion(ver: CString) returns (epoch: nat, upstream: CString, deb: Option<CString>)
    ensures Parse(ver) == Version(epoch, upstream, OrEmpty(deb))
  {
    hide Atoi, IndexOf, LastIndexOf;
    upstream, epoch, deb := ver, 0, None;
    var colon := IndexOf(ver, ':');
    if colon < |ver| {
      epoch := ToUnsigned(Atoi(ver));
      upstream := ver[colon+1..];
    }
    var dash := LastIndexOf(upstream, '-');
    if dash > 0 {
      deb := Some(upstream[dash..]);
      upstream := upstream[..dash-1];
    }
  }

  method VersionCompare(ver1: CString, ver2: CString) returns (diff: int)
    ensures Sign(diff) == Sign(VersionOrder(Parse(ver1), Parse(ver2)))
  {
    hide PartOrder, Parse;
    var epoch1, upstream1, deb1 := SplitVersion(ver1);
    var epoch2, upstream2, deb2 := SplitVersion(ver2);
    if epoch1 < epoch2 {
      return -1;
    }
    if epoch1 > epoch2 {
      return 1;
    }
    diff := VersionComparePart(Some(upstream1), Some(upstream2));
    if diff == 0 {
      diff := VersionComparePart(deb1, deb2);
    }
  }

  lemma VersionPreorder(a: Version, b: Version, c: Version)
    ensures VersionOrder(a, a) == 0
    ensures Sign(VersionOrder(a, b)) == -Sign(VersionOrder(b, a))
    ensures VersionOrder(a, b) <= 0 && VersionOrder(b, c) <= 0 ==>
              VersionOrder(a, c) <= 0 && (VersionOrder(a, c) == 0 ==> VersionOrder(a, b) == 0 && VersionOrder(b, c) == 0)
  {
    hide PartOrder;
    PartReflexive(a.upstream);
    PartReflexive(a.revision);
    PartAntisymmetric(a.upstream, b.upstream);
    PartAntisymmetric(a.revision, b.revision);
    if VersionOrder(a, b) <= 0 && VersionOrder(b, c) <= 0 && a.epoch == b.epoch == c.epoch {
      PartTransitive(a.upstream, b.upstream, c.upstream);
      if PartOrder(a.upstream, b.upstream) == 0 && PartOrder(b.upstream, c.upstream) == 0 {
        PartEquivalenceTransitive(a.upstream, b.upstream, c.upstream);
        PartTransitive(a.revision, b.revision, c.revision);
      }
    }
  }

  lemma PartEquivalenceTransitive(a: CString, b: CString, c: CString)
    requires PartOrder(a, b) == 0 && PartOrder(b, c) == 0
    ensures PartOrder(a, c) == 0
  {
    hide PartOrder;
    PartAntisymmetric(a, b);
    PartAntisymmetric(b, c);
    PartAntisymmetric(a, c);
    PartTransitive(a, b, c);
    PartTransitive(c, b, a);
  }

  // ----- The operators of a dependency -----

  datatype Operator = VerNull | VerEqual | VerLess | VerLessEqual | VerMore | VerMoreEqual | VerAny

  /** Whether a version stands in the given relation to another. */
  predicate Satisfies(version1: CString, version2: CString, operator: Operator) {
    var result := VersionOrder(Parse(version1), Parse(version2));
    match operator
    case VerAny => true
    case VerEqual => result == 0
    case VerLess => result < 0
    case VerLessEqual => result <= 0
    case VerMore => result > 0
    case VerMoreEqual => result >= 0
    case VerNull => false
  }

  method TestVersion(version1: CString, version2: CString, operator: Operator) returns (holds: bool)
    ensures holds == Satisfies(version1, version2, operator)
  {
    hide PartOrder, Parse;
    var result := VersionCompare(version1, version2);
    match operator {
      case VerAny => return true;
      case VerEqual => return result == 0;
      case VerLess => return result < 0;
      case VerLessEqual => return result <= 0;
      case VerMore => return result > 0;
      case VerMoreEqual => return result >= 0;
      case VerNull => return false;
    }
  }

  /** The operators are the five relations of one total preorder: each strict one is the
      complement of a reversed weak one, exactly one of less, equal and more holds. */
  lemma OperatorsAreConsistent(a: CString, b: CString)
    ensures Satisfies(a, a, VerEqual)
    ensures Satisfies(a, b, VerLess) <==> Satisfies(b, a, VerMore)
    ensures Satisfies(a, b, VerEqual) <==> Satisfies(b, a, VerEqual)
    ensures Satisfies(a, b, VerLessEqual) <==> Satisfies(a, b, VerLess) || Satisfies(a, b, VerEqual)
    ensures Satisfies(a, b, VerMoreEqual) <==> !Satisfies(a, b, VerLess)
    ensures Satisfies(a, b, VerLessEqual) <==> !Satisfies(b, a, VerLess)
    ensures !(Satisfies(a, b, VerLess) && Satisfies(a, b, VerMore))
  {
    hide VersionOrder, Parse;
    VersionPreorder(Parse(a), Parse(b), Parse(a));
  }

  /** Versions that count as equal cannot be told apart by any operator, and the weak
      relation is transitive. */
  lemma OperatorsRespectOrder(a: CString, b: CString, c: CString, operator: Operator)
    ensures Satisfies(a, b, VerLessEqual) && Satisfies(b, c, VerLessEqual) ==> Satisfies(a, c, VerLessEqual)
    ensures Satisfies(a, b, VerLess) && Satisfies(b, c, VerLessEqual) ==> Satisfies(a, c, VerLess)
    ensures Satisfies(a, b, VerEqual) ==> (Satisfies(a, c, operator) <==> Satisfies(b, c, operator))
  {
    hide VersionOrder, Parse;
    var x, y, z := Parse(a), Parse(b), Parse(c);
    VersionPreorder(x, y, z);
    VersionPreorder(y, x, z);
    VersionPreorder(z, x, y);
    VersionPreorder(z, y, x);
    VersionPreorder(y, z, x);
    VersionPreorder(x, z, y);
  }
}
