/** The Debian version order, after section 5.6.12 of the Debian Policy Manual: version
    parts are read as alternating runs of other characters and of digits. */
module DebVersion {
  import opened CStrings
  import opened Decimal

  // ----- The order the policy describes -----

  /** Letters sort before all other characters, and a tilde before everything, even the end
      of a part, which weighs 0. */
  function Weight(c: char): (w: int)
    ensures w == 0 ==> c == '\0'
  {
    if c == '~' then -1 else if IsAlpha(c) then c as int else c as int + 256
  }

  /** The length of the initial part that holds no digits. */
  function TextSpan(s: string): (n: nat)
    ensures n <= |s|
    ensures forall i | 0 <= i < n :: !IsDigit(s[i])
    ensures n < |s| ==> IsDigit(s[n])
  {
    if s == "" || IsDigit(s[0]) then 0 else 1 + TextSpan(s[1..])
  }

  function CompareText(a: string, b: string): int
    decreases |a|
  {
    var wa := if a == "" then 0 else Weight(a[0]);
    var wb := if b == "" then 0 else Weight(b[0]);
    if wa != wb then wa - wb
    else if a == "" || b == "" then 0
    else CompareText(a[1..], b[1..])
  }

  function Text(s: string): string {
    s[..TextSpan(s)]
  }

  function AfterText(s: string): string {
    s[TextSpan(s)..]
  }

  function Digits(s: string): (d: string)
    ensures AllDigits(d)
  {
    s[..DigitSpan(s)]
  }

  function AfterDigits(s: string): string {
    s[DigitSpan(s)..]
  }

  function Number(s: string): nat {
    Value(Digits(s))
  }

  lemma Shorter(s: string)
    ensures |AfterDigits(AfterText(s))| <= |s|
    ensures s != "" ==> |AfterDigits(AfterText(s))| < |s|
  {
  }

  /** Compare the texts, then the numbers, then what follows. */
  function PartOrder(a: string, b: string): int
    decreases |a| + |b|
  {
    if a == "" && b == "" then 0
    else
      var text := CompareText(Text(a), Text(b));
      if text != 0 then text
      else
        var a1, b1 := AfterText(a), AfterText(b);
        if Number(a1) != Number(b1) then Number(a1) - Number(b1)
        else PartOrder(AfterDigits(a1), AfterDigits(b1))
  }

  function Sign(x: int): int {
    if x < 0 then -1 else if x == 0 then 0 else 1
  }

  // ----- The comparison procedure -----

  function Order(x: char): int {
    if x == '~' then -1
    else if x == '\0' then 0
    else if IsDigit(x) then 0
    else if IsAlpha(x) then x as int
    else x as int + 256
  }

  /** The first difference of two digit runs of equal length, read from the left. */
  function FirstDiff(x: string, y: string): int
    requires |x| == |y|
  {
    if x == "" then 0
    else
      var n := |x| - 1;
      var before := FirstDiff(x[..n], y[..n]);
      if before != 0 then before else x[n] as int - y[n] as int
  }

  lemma {:induction false} FirstDiffDecides(x: string, y: string)
    requires |x| == |y| && AllDigits(x) && AllDigits(y)
    ensures Sign(Value(x) - Value(y)) == Sign(FirstDiff(x, y))
  {
    if x == "" {
    } else {
      FirstDiffDecides(x[..|x|-1], y[..|y|-1]);
    }
  }

  /** Without leading zeros the longer run is the larger number. */
  lemma LongerIsLarger(x: string, y: string)
    requires AllDigits(x) && AllDigits(y) && |x| > |y| && x[0] != '0'
    ensures Value(x) > Value(y)
  {
  }

  lemma {:induction false} LeadingZero(s: string)
    requires AllDigits(s)
    ensures Value(['0'] + s) == Value(s)
  {
    if s == "" {
      assert (['0'] + s)[..0] == "";
    } else {
      var n := |s| - 1;
      LeadingZero(s[..n]);
      assert (['0'] + s)[..n+1] == ['0'] + s[..n];
    }
  }

  lemma SkipZero(s: string)
    requires s != "" && s[0] == '0'
    ensures Number(s) == Number(s[1..]) && AfterDigits(s) == AfterDigits(s[1..])
  {
    assert Digits(s) == ['0'] + Digits(s[1..]);
    LeadingZero(Digits(s[1..]));
  }

  lemma TextStep(s: string)
    requires s != "" && !IsDigit(s[0])
    ensures Text(s) == [s[0]] + Text(s[1..]) && Text(s)[1..] == Text(s[1..]) && AfterText(s) == AfterText(s[1..])
  {
  }

  lemma TextEmpty(s: string)
    requires s == "" || IsDigit(s[0])
    ensures Text(s) == "" && AfterText(s) == s
  {
  }

  method SkipZeros(val: CString) returns (r: CString)
    ensures Number(r) == Number(val) && AfterDigits(r) == AfterDigits(val)
    ensures r == "" || r[0] != '0'
    ensures |r| <= |val|
  {
    r := val;
    while r != "" && r[0] == '0'
      invariant Number(r) == Number(val) && AfterDigits(r) == AfterDigits(val) && |r| <= |val|
      decreases |r|
    {
      SkipZero(r);
      r := r[1..];
    }
  }

  function HeadWeight(text: string): int {
    if text == "" then 0 else Weight(text[0])
  }

  lemma HeadOrder(s: string)
    requires s != "" ==> s[0] != '\0'
    ensures Order(CharAt(s, 0)) == HeadWeight(Text(s))
  {
    hide TextSpan;
    if s != "" && !IsDigit(s[0]) {
      TextStep(s);
    } else {
      TextEmpty(s);
    }
  }

  /** One turn of the comparison of two texts, the end of a text weighing 0. */
  lemma HeadsStep(v: string, r: string)
    requires (v != "" ==> v[0] != '\0') && (r != "" ==> r[0] != '\0')
    requires (v != "" && !IsDigit(v[0])) || (r != "" && !IsDigit(r[0]))
    ensures var vc, rc := Order(CharAt(v, 0)), Order(CharAt(r, 0));
      if vc != rc then CompareText(Text(v), Text(r)) == vc - rc
      else
        && v != "" && r != ""
        && CompareText(Text(v), Text(r)) == CompareText(Text(v[1..]), Text(r[1..]))
        && AfterText(v) == AfterText(v[1..]) && AfterText(r) == AfterText(r[1..])
  {
    HeadOrder(v);
    HeadOrder(r);
    hide *;
    CompareUnfolds(Text(v), Text(r));
    if HeadWeight(Text(v)) == HeadWeight(Text(r)) {
      SameHeads(v, r);
      TextStep(v);
      TextStep(r);
    }
  }

  lemma CompareUnfolds(a: string, b: string)
    ensures CompareText(a, b) ==
      if HeadWeight(a) != HeadWeight(b) then HeadWeight(a) - HeadWeight(b)
      else if a == "" || b == "" then 0
      else CompareText(a[1..], b[1..])
  {
  }

  /** Characters of the same weight are both there and no digits. */
  lemma SameHeads(v: string, r: string)
    requires (v != "" ==> v[0] != '\0') && (r != "" ==> r[0] != '\0')
    requires (v != "" && !IsDigit(v[0])) || (r != "" && !IsDigit(r[0]))
    requires HeadWeight(Text(v)) == HeadWeight(Text(r))
    ensures v != "" && r != "" && !IsDigit(v[0]) && !IsDigit(r[0])
  {
    HeadOrder(v);
    HeadOrder(r);
  }

  lemma HeadsEnd(v: string, r: string)
    requires !((v != "" && !IsDigit(v[0])) || (r != "" && !IsDigit(r[0])))
    ensures CompareText(Text(v), Text(r)) == 0 && v == AfterText(v) && r == AfterText(r)
  {
    TextEmpty(v);
    TextEmpty(r);
  }

  /** Compare the texts at the head of both strings: their order, or the rests if they agree. */
  method CompareHeads(val: CString, ref: CString) returns (diff: int, v: CString, r: CString)
    ensures diff == CompareText(Text(val), Text(ref))
    ensures diff == 0 ==> v == AfterText(val) && r == AfterText(ref)
  {
    hide CompareText, Text, AfterText, Order;
    v, r := val, ref;
    while (v != "" && !IsDigit(v[0])) || (r != "" && !IsDigit(r[0]))
      invariant CompareText(Text(val), Text(ref)) == CompareText(Text(v), Text(r))
      invariant AfterText(v) == AfterText(val) && AfterText(r) == AfterText(ref)
      decreases |v|
    {
      var vc, rc := Order(CharAt(v, 0)), Order(CharAt(r, 0));
      HeadsStep(v, r);
      if vc != rc {
        return vc - rc, v, r;
      }
      v, r := v[1..], r[1..];
    }
    HeadsEnd(v, r);
    diff := 0;
  }

  /** Compare two digit runs without leading zeros, of any length. */
  method CompareNumbers(val: CString, ref: CString) returns (diff: int, v: CString, r: CString)
    requires (val == "" || val[0] != '0') && (ref == "" || ref[0] != '0')
    ensures Sign(diff) == Sign(Number(val) - Number(ref))
    ensures diff == 0 ==> v == AfterDigits(val) && r == AfterDigits(ref)
  {
    v, r := val, ref;
    var firstDiff := 0;
    var n: nat := 0;
    while v != "" && IsDigit(v[0]) && r != "" && IsDigit(r[0])
      invariant n <= |val| && n <= |ref| && v == val[n..] && r == ref[n..]
      invariant AllDigits(val[..n]) && AllDigits(ref[..n])
      invariant Sign(firstDiff) == Sign(FirstDiff(val[..n], ref[..n]))
      decreases |v|
    {
      assert val[..n+1][..n] == val[..n] && ref[..n+1][..n] == ref[..n];
      if firstDiff == 0 {
        firstDiff := v[0] as int - r[0] as int;
      }
      v, r := v[1..], r[1..];
      n := n + 1;
    }
    DigitSpanSplit(val, n);
    DigitSpanSplit(ref, n);
    if v != "" && IsDigit(v[0]) {
      LongerIsLarger(Digits(val), Digits(ref));
      return 1, v, r;
    }
    if r != "" && IsDigit(r[0]) {
      LongerIsLarger(Digits(ref), Digits(val));
      return -1, v, r;
    }
    assert Digits(val) == val[..n] && Digits(ref) == ref[..n];
    FirstDiffDecides(val[..n], ref[..n]);
    diff := firstDiff;
  }

  lemma {:induction false} DigitSpanSplit(s: string, n: nat)
    requires n <= |s| && AllDigits(s[..n])
    ensures DigitSpan(s) >= n
    ensures n < |s| && IsDigit(s[n]) ==> DigitSpan(s) > n
    ensures n == |s| || !IsDigit(s[n]) ==> DigitSpan(s) == n
  {
  }

  /** A missing string counts as the empty one. */
  method VersionComparePart(val: Option<CString>, ref: Option<CString>) returns (diff: int)
    ensures Sign(diff) == Sign(PartOrder(OrEmpty(val), OrEmpty(ref)))
  {
    hide CompareText, Text, AfterText, Digits, AfterDigits, Number;
    var v, r := OrEmpty(val), OrEmpty(ref);
    while v != "" || r != ""
      invariant PartOrder(OrEmpty(val), OrEmpty(ref)) == PartOrder(v, r)
      decreases |v| + |r|
    {
      ghost var v0, r0 := v, r;
      diff, v, r := CompareHeads(v, r);
      if diff != 0 {
        return;
      }
      v := SkipZeros(v);
      r := SkipZeros(r);
      diff, v, r := CompareNumbers(v, r);
      if diff != 0 {
        return;
      }
      assert v == AfterDigits(AfterText(v0)) && r == AfterDigits(AfterText(r0));
      Shorter(v0);
      Shorter(r0);
    }
    diff := 0;
  }

  function OrEmpty(s: Option<CString>): CString {
    match s
    case None => ""
    case Some(t) => t
  }
}
