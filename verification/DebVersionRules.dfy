/** What the version order promises to packagers: digit runs count as numbers, and a tilde marks
    something earlier. */
module DebVersionRules {
  import opened CStrings
  import opened Decimal
  import opened DebVersion
  import opened DebVersionOrder

  lemma {:induction false} WholeSpan(s: string)
    requires AllDigits(s)
    ensures DigitSpan(s) == |s| && TextSpan(s) == 0
  {
  }

  /** Digit runs of any length, with or without leading zeros, compare as the numbers they denote. */
  lemma DigitsCompareAsNumbers(x: string, y: string)
    requires AllDigits(x) && AllDigits(y)
    ensures Sign(PartOrder(x, y)) == Sign(Value(x) - Value(y))
  {
    WholeSpan(x);
    WholeSpan(y);
    assert Digits(AfterText(x)) == x && Digits(AfterText(y)) == y;
    assert Text(x) == "" && Text(y) == "";
    assert AfterDigits(AfterText(x)) == "" && AfterDigits(AfterText(y)) == "";
  }

  /** Spans of a string that is continued by a tilde. */
  lemma {:induction false} TextSpanContinued(s: string, t: string)
    ensures TextSpan(s) < |s| ==> TextSpan(s + "~" + t) == TextSpan(s)
    ensures TextSpan(s) == |s| ==> TextSpan(s + "~" + t) > |s|
  {
    if s == "" {
      assert s + "~" + t == "~" + t;
    } else {
      assert (s + "~" + t)[1..] == s[1..] + "~" + t;
      TextSpanContinued(s[1..], t);
    }
  }

  lemma {:induction false} DigitSpanContinued(s: string, t: string)
    ensures DigitSpan(s + "~" + t) == DigitSpan(s)
  {
    if s == "" {
      assert s + "~" + t == "~" + t;
    } else {
      assert (s + "~" + t)[1..] == s[1..] + "~" + t;
      DigitSpanContinued(s[1..], t);
    }
  }

  lemma {:induction false} TextContinued(s: string, t: string)
    requires '\0' !in s && "~" <= t
    ensures CompareText(s + t, s) < 0
  {
    if s == "" {
      assert s + t == t;
    } else {
      assert (s + t)[1..] == s[1..] + t;
      TextContinued(s[1..], t);
    }
  }

  lemma {:induction false} SameText(s: string)
    ensures CompareText(s, s) == 0
  {
    if s != "" {
      SameText(s[1..]);
    }
  }

  /** A version part continued by a tilde sorts before the part itself, whatever follows. */
  lemma {:induction false} TildeSortsFirst(s: CString, t: CString)
    ensures PartOrder(s + "~" + t, s) < 0
    decreases |s|
  {
    var l := s + "~" + t;
    TextSpanContinued(s, t);
    if TextSpan(s) == |s| {
      assert Text(l) == s + l[|s|..TextSpan(l)] && l[|s|] == '~';
      TextContinued(s, l[|s|..TextSpan(l)]);
      assert Text(s) == s;
    } else {
      var n := TextSpan(s);
      assert Text(l) == Text(s);
      SameText(Text(s));
      var s1 := s[n..];
      assert l[n..] == s1 + "~" + t;
      DigitSpanContinued(s1, t);
      assert Digits(l[n..]) == Digits(s1);
      var rest := s1[DigitSpan(s1)..];
      assert AfterDigits(l[n..]) == rest + "~" + t;
      Shorter(s);
      TildeSortsFirst(rest, t);
    }
  }

  // ----- The order of single characters -----

  predicate StartsText(x: string) {
    x == "" || !IsDigit(x[0])
  }

  lemma {:induction false} TextSpanSplit(s: string, x: string)
    requires StartsText(x)
    ensures TextSpan(s) < |s| ==> TextSpan(s + x) == TextSpan(s)
    ensures TextSpan(s) == |s| ==> TextSpan(s + x) == |s| + TextSpan(x)
  {
    if s == "" {
      assert s + x == x;
    } else {
      assert (s + x)[1..] == s[1..] + x;
      TextSpanSplit(s[1..], x);
    }
  }

  lemma {:induction false} DigitSpanSplitBy(s: string, x: string)
    requires StartsText(x)
    ensures DigitSpan(s + x) == DigitSpan(s)
  {
    if s == "" {
      assert s + x == x;
    } else {
      assert (s + x)[1..] == s[1..] + x;
      DigitSpanSplitBy(s[1..], x);
    }
  }

  lemma {:induction false} CommonText(s: string, x: string, y: string)
    ensures CompareText(s + x, s + y) == CompareText(x, y)
  {
    if s == "" {
      assert s + x == x && s + y == y;
    } else {
      assert (s + x)[1..] == s[1..] + x && (s + y)[1..] == s[1..] + y;
      CommonText(s[1..], x, y);
    }
  }

  /** All of s is text: the text goes on with that of x. */
  lemma TextGoesOn(s: string, x: string)
    requires StartsText(x) && TextSpan(s) == |s|
    ensures Text(s + x) == s + Text(x) && AfterText(s + x) == AfterText(x)
  {
    TextSpanSplit(s, x);
    hide *;
    TextBy(s + x, |s| + TextSpan(x));
    TextBy(x, TextSpan(x));
    SliceBack(s, x, TextSpan(x));
  }

  lemma TextBy(s: string, n: nat)
    requires TextSpan(s) == n
    ensures n <= |s| && Text(s) == s[..n] && AfterText(s) == s[n..]
  {
  }

  /** There is a number in s: the first text and the first number are those of s. */
  lemma NumberEnds(s: string, x: string)
    requires StartsText(x) && TextSpan(s) < |s|
    ensures Text(s + x) == Text(s) && Number(AfterText(s + x)) == Number(AfterText(s))
    ensures AfterDigits(AfterText(s + x)) == AfterDigits(AfterText(s)) + x
  {
    TextEnds(s, x);
    DigitsEnd(AfterText(s), x);
    hide Text, AfterText, Digits, AfterDigits;
  }

  lemma TextEnds(s: string, x: string)
    requires StartsText(x) && TextSpan(s) < |s|
    ensures Text(s + x) == Text(s) && AfterText(s + x) == AfterText(s) + x
  {
    TextSpanSplit(s, x);
    hide *;
    TextBy(s + x, TextSpan(s));
    TextBy(s, TextSpan(s));
    SliceFront(s, x, TextSpan(s));
  }

  lemma SliceFront(s: string, x: string, n: nat)
    requires n <= |s|
    ensures (s + x)[..n] == s[..n] && (s + x)[n..] == s[n..] + x
  {
  }

  lemma SliceBack(s: string, x: string, n: nat)
    requires n <= |x|
    ensures (s + x)[..|s| + n] == s + x[..n] && (s + x)[|s| + n..] == x[n..]
  {
  }

  lemma DigitsEnd(s: string, x: string)
    requires StartsText(x)
    ensures Digits(s + x) == Digits(s) && AfterDigits(s + x) == AfterDigits(s) + x
  {
    DigitSpanSplitBy(s, x);
    hide DigitSpan;
    SliceFront(s, x, DigitSpan(s));
  }

  lemma PartUnfolds(a: string, b: string)
    ensures PartOrder(a, b) ==
      if a == "" && b == "" then 0
      else if CompareText(Text(a), Text(b)) != 0 then CompareText(Text(a), Text(b))
      else if Number(AfterText(a)) != Number(AfterText(b)) then Number(AfterText(a)) - Number(AfterText(b))
      else PartOrder(AfterDigits(AfterText(a)), AfterDigits(AfterText(b)))
  {
  }

  /** What both parts start with does not matter, unless a number goes on behind it. */
  lemma {:induction false} PrefixCancels(s: string, x: string, y: string)
    requires StartsText(x) && StartsText(y)
    ensures PartOrder(s + x, s + y) == PartOrder(x, y)
    decreases |s|
  {
    if s == "" {
      assert s + x == x && s + y == y;
    } else if TextSpan(s) == |s| {
      TextGoesOn(s, x);
      TextGoesOn(s, y);
      CommonText(s, Text(x), Text(y));
      PartUnfolds(s + x, s + y);
      PartUnfolds(x, y);
      hide *;
      NothingIsEqual();
    } else {
      NumberEnds(s, x);
      NumberEnds(s, y);
      SameText(Text(s));
      Shorter(s);
      PartUnfolds(s + x, s + y);
      hide *;
      PrefixCancels(AfterDigits(AfterText(s)), x, y);
    }
  }

  lemma NothingIsEqual()
    ensures CompareText(Text(""), Text("")) == 0 && Number(AfterText("")) == Number(AfterText(""))
    ensures AfterDigits(AfterText("")) == "" && PartOrder("", "") == 0
  {
  }

  predicate Letter(c: char) {
    'A' <= c <= 'Z' || 'a' <= c <= 'z'
  }

  /** A character of a version that is neither letter, digit nor tilde. */
  predicate Other(c: char) {
    !Letter(c) && !('0' <= c <= '9') && c != '~' && c != '\0'
  }

  /** At the first difference letters come before all other characters. */
  lemma LettersBeforeOthers(s: string, a: char, t: string, c: char, u: string)
    requires Letter(a) && Other(c)
    ensures PartOrder(s + [a] + t, s + [c] + u) < 0 < PartOrder(s + [c] + u, s + [a] + t)
  {
    Difference(s, a, t, c, u);
    Difference(s, c, u, a, t);
  }

  /** Two letters, and two other characters, come in the order of their codes. */
  lemma CodesDecide(s: string, a: char, t: string, b: char, u: string)
    requires (Letter(a) && Letter(b)) || (Other(a) && Other(b))
    requires a != b
    ensures PartOrder(s + [a] + t, s + [b] + u) < 0 <==> a < b
    ensures PartOrder(s + [a] + t, s + [b] + u) > 0 <==> a > b
  {
    Difference(s, a, t, b, u);
  }

  /** A tilde comes before any other character but a digit. */
  lemma TildeBeforeAll(s: string, t: string, c: char, u: string)
    requires Letter(c) || Other(c)
    ensures PartOrder(s + "~" + t, s + [c] + u) < 0 < PartOrder(s + [c] + u, s + "~" + t)
  {
    Difference(s, '~', t, c, u);
    Difference(s, c, u, '~', t);
  }

  /** A part comes before its continuation by a letter or another character. */
  lemma EndBeforeRest(s: string, c: char, t: string)
    requires Letter(c) || Other(c)
    ensures PartOrder(s, s + [c] + t) < 0 < PartOrder(s + [c] + t, s)
  {
    var x := [c] + t;
    assert s + "" == s && s + [c] + t == s + x;
    PrefixCancels(s, "", x);
    PrefixCancels(s, x, "");
    hide PartOrder, TextSpan;
    PartUnfolds("", x);
    PartUnfolds(x, "");
    TextStep(x);
    TextEmpty("");
    hide Text, AfterText;
  }

  /** A digit where text may stand counts as the end of the text, so it comes before letters and others. */
  lemma DigitBeforeText(s: string, d: char, t: string, c: char, u: string)
    requires forall i | 0 <= i < |s| :: !IsDigit(s[i])
    requires '0' <= d <= '9' && (Letter(c) || Other(c))
    ensures PartOrder(s + [d] + t, s + [c] + u) < 0
  {
    assert TextSpan(s) == |s|;
    var x, y := [d] + t, [c] + u;
    assert s + [d] + t == s + x && s + [c] + u == s + y;
    TextBeforeDigit(s, x);
    TextGoesOn(s, y);
    assert Text(y) != "" && Text(y)[0] == c by { TextStep(y); }
    assert Text(s + x) == s + "";
    CommonText(s, "", Text(y));
    PartUnfolds(s + x, s + y);
    hide PartOrder, Text, AfterText, TextSpan;
  }

  lemma {:induction false} TextBeforeDigit(s: string, x: string)
    requires TextSpan(s) == |s| && x != "" && IsDigit(x[0])
    ensures Text(s + x) == s
  {
    if s == "" {
      assert s + x == x;
    } else {
      assert (s + x)[1..] == s[1..] + x;
      TextBeforeDigit(s[1..], x);
    }
  }

  /** The weights at the first difference decide. */
  lemma Difference(s: string, a: char, t: string, c: char, u: string)
    requires !IsDigit(a) && !IsDigit(c) && Weight(a) != Weight(c)
    ensures PartOrder(s + [a] + t, s + [c] + u) == Weight(a) - Weight(c)
  {
    var x, y := [a] + t, [c] + u;
    assert s + [a] + t == s + x && s + [c] + u == s + y;
    PrefixCancels(s, x, y);
    hide PartOrder, TextSpan;
    PartUnfolds(x, y);
    TextStep(x);
    TextStep(y);
    hide Text, AfterText;
  }
}
