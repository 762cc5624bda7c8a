/** Decimal numbers as printf writes them and atoi and sscanf read them.
    Numbers are printed as unsigned; atoi is strtol cut down to an int, and how wide a long is stays
    open. */
module Decimal {
  import opened CStrings

  function DigitValue(c: char): (v: nat)
    requires IsDigit(c)
    ensures v < 10
  {
    c as int - '0' as int
  }

  function DigitChar(v: nat): (c: char)
    requires v < 10
    ensures IsDigit(c) && DigitValue(c) == v
  {
    ('0' as int + v) as char
  }

  predicate AllDigits(s: string) {
    forall i | 0 <= i < |s| :: IsDigit(s[i])
  }

  /** The number a digit run denotes, whatever its length. */
  function Value(s: string): nat
    requires AllDigits(s)
  {
    if s == "" then 0 else 10 * Value(s[..|s|-1]) + DigitValue(s[|s|-1])
  }

  function Print(n: nat): (s: string)
    ensures |s| > 0 && AllDigits(s)
  {
    if n < 10 then [DigitChar(n)] else Print(n / 10) + [DigitChar(n % 10)]
  }

  /** The length of the longest prefix of s that consists of digits. */
  function DigitSpan(s: string): (n: nat)
    ensures n <= |s| && AllDigits(s[..n])
    ensures n < |s| ==> !IsDigit(s[n])
  {
    if s == "" || !IsDigit(s[0]) then 0
    else
      var n := 1 + DigitSpan(s[1..]);
      assert forall i | 1 <= i < n :: s[i] == s[1..][..n-1][i-1];
      n
  }

  function SpaceSpan(s: string): (n: nat)
    ensures n <= |s|
  {
    if s == "" || !(s[0] == ' ' || '\t' <= s[0] <= '\r') then 0 else 1 + SpaceSpan(s[1..])
  }

  /** The number a string starts with, whatever its size. */
  function Integer(s: string): int {
    var t := s[SpaceSpan(s)..];
    if t != "" && t[0] == '-' then -(Value(t[1..][..DigitSpan(t[1..])]) as int)
    else
      var u := if t != "" && t[0] == '+' then t[1..] else t;
      Value(u[..DigitSpan(u)])
  }

  // ----- Machine integers -----

  type LongLimit = x: int | x == 0x7fff_ffff || x == 0x7fff_ffff_ffff_ffff witness 0x7fff_ffff

  /** The largest long: it has 32 or 64 bits, and everything below holds for both. */
  const LONG_MAX: LongLimit

  predicate WideLong() {
    LONG_MAX > 0x7fff_ffff
  }

  predicate IsInt(x: int) {
    -0x8000_0000 <= x < 0x8000_0000
  }

  /** strtol: a number that fits no long becomes the nearest one that does. */
  function Strtol(s: string): int {
    Clamp(Integer(s))
  }

  function Clamp(x: int): int {
    if x > LONG_MAX then LONG_MAX else if x < -1 - LONG_MAX then -1 - LONG_MAX else x
  }

  /** The low 32 bits, read as an int. */
  function ToInt(x: int): (i: int)
    ensures IsInt(i) && (IsInt(x) ==> i == x)
  {
    (x + 0x8000_0000) % 0x1_0000_0000 - 0x8000_0000
  }

  function ToUnsigned(x: int): (n: nat)
    ensures n < 0x1_0000_0000
  {
    x % 0x1_0000_0000
  }

  function Atoi(s: string): (i: int)
    ensures IsInt(i)
  {
    ToInt(Strtol(s))
  }

  /** An int printed as unsigned and read by atoi. */
  function ReadBack(x: int): (i: int)
    ensures IsInt(i)
  {
    ToInt(Clamp(ToUnsigned(x)))
  }

  /** An int comes back exactly if it is not negative, or a long is wider than an int. */
  lemma ReadBackIff(x: int)
    requires IsInt(x)
    ensures ReadBack(x) == x <==> x >= 0 || WideLong()
    ensures x < 0 && !WideLong() ==> ReadBack(x) == 0x7fff_ffff
  {
  }

  function Power10(k: nat): (p: nat)
    ensures p > 0
  {
    if k == 0 then 1 else 10 * Power10(k - 1)
  }

  lemma {:induction false} PrintLength(n: nat, k: nat)
    requires k > 0 && n < Power10(k)
    ensures |Print(n)| <= k
    decreases k
  {
    assert Power10(0) == 1;
    if n >= 10 {
      PrintLength(n / 10, k - 1);
    }
  }

  /** Ten digits are enough for an unsigned int. */
  lemma UnsignedLength(n: nat)
    requires n < 0x1_0000_0000
    ensures |Print(n)| <= 10
  {
    assert Power10(5) == 100000;
    assert Power10(10) == 10000000000;
    PrintLength(n, 10);
  }

  lemma {:induction false} ValueOfPrint(n: nat)
    ensures Value(Print(n)) == n
  {
    if n < 10 {
      assert Print(n)[..0] == "";
    } else {
      ValueOfPrint(n / 10);
      assert Print(n)[..|Print(n)|-1] == Print(n / 10);
    }
  }

  /** A digit run ends where the first other character stands. */
  lemma {:induction false} SpanOfDigits(digits: string, rest: string)
    requires AllDigits(digits) && (rest == "" || !IsDigit(rest[0]))
    ensures DigitSpan(digits + rest) == |digits|
  {
    if digits == "" {
      assert digits + rest == rest;
    } else {
      SpanOfDigits(digits[1..], rest);
      assert (digits + rest)[1..] == digits[1..] + rest;
    }
  }

  lemma IntegerOfPrint(n: nat)
    ensures Integer(Print(n)) == n
  {
    var s := Print(n);
    assert s[SpaceSpan(s)..] == s;
    SpanOfDigits(s, "");
    assert s + "" == s && s[..|s|] == s;
    ValueOfPrint(n);
  }

  // ----- What the numbers are -----

  /** Numbers are decimal, the first digit counting most. */
  lemma DecimalValue(s: string, c: char)
    requires AllDigits(s) && '0' <= c <= '9'
    ensures AllDigits(s + [c]) && Value(s + [c]) == 10 * Value(s) + (c as int - '0' as int) && Value("") == 0
  {
    assert (s + [c])[..|s|] == s;
  }

  /** The white space of the C locale. */
  predicate Space(c: char) {
    c == ' ' || 9 <= c as int <= 13
  }

  lemma {:induction false} SpacesAreSkipped(blanks: string, rest: string)
    requires forall i | 0 <= i < |blanks| :: Space(blanks[i])
    requires rest == "" || !Space(rest[0])
    ensures SpaceSpan(blanks + rest) == |blanks|
  {
    if blanks == "" {
      assert blanks + rest == rest;
    } else {
      assert (blanks + rest)[1..] == blanks[1..] + rest;
      SpacesAreSkipped(blanks[1..], rest);
    }
  }

  lemma SignIsRead(sign: string, digits: string, rest: string)
    requires (sign == "" || sign == "+" || sign == "-") && AllDigits(digits) && digits != ""
    requires rest == "" || !IsDigit(rest[0])
    requires SpaceSpan(sign + digits + rest) == 0
    ensures Integer(sign + digits + rest) == if sign == "-" then -(Value(digits) as int) else Value(digits)
  {
    var t, u := sign + digits + rest, digits + rest;
    assert t[0..] == t && (sign == "" ==> t == u) && (sign != "" ==> t[0] == sign[0] && t[1..] == u);
    SpanOfDigits(digits, rest);
    assert u[..|digits|] == digits;
    assert u[0] == digits[0];
    hide DigitSpan, Value, SpaceSpan;
  }

  lemma BlanksDoNotMatter(blanks: string, t: string)
    requires forall i | 0 <= i < |blanks| :: Space(blanks[i])
    requires t == "" || !Space(t[0])
    ensures Integer(blanks + t) == Integer(t) && SpaceSpan(t) == 0
  {
    SpacesAreSkipped(blanks, t);
    SpacesAreSkipped("", t);
    assert "" + t == t && (blanks + t)[|blanks|..] == t && t[0..] == t;
    hide DigitSpan, Value, SpaceSpan;
  }

  lemma FirstIsNoSpace(sign: string, digits: string, rest: string)
    requires (sign == "" || sign == "+" || sign == "-") && AllDigits(digits) && digits != ""
    ensures sign + digits + rest != "" && !Space((sign + digits + rest)[0])
  {
    if sign == "" {
      assert (sign + digits + rest)[0] == digits[0];
    } else {
      assert (sign + digits + rest)[0] == sign[0];
    }
  }

  lemma SmallIsKept(x: int)
    requires -0x8000_0000 < x < 0x8000_0000
    ensures ToInt(Clamp(x)) == x
  {
  }

  /** What atoi reads: white space, a sign or none, and digits up to the first other character. */
  lemma AtoiReads(blanks: string, sign: string, digits: string, rest: string)
    requires forall i | 0 <= i < |blanks| :: Space(blanks[i])
    requires (sign == "" || sign == "+" || sign == "-") && AllDigits(digits) && digits != "" && Value(digits) < 0x8000_0000
    requires rest == "" || !IsDigit(rest[0])
    ensures Atoi(blanks + (sign + digits + rest)) == if sign == "-" then -(Value(digits) as int) else Value(digits)
  {
    var t := sign + digits + rest;
    FirstIsNoSpace(sign, digits, rest);
    hide Integer, Clamp, ToInt, Space, SpaceSpan, Value;
    BlanksDoNotMatter(blanks, t);
    SignIsRead(sign, digits, rest);
    SmallIsKept(Integer(t));
  }

  predicate IsLong(x: int) {
    -1 - LONG_MAX <= x <= LONG_MAX
  }

  /** strtol reads the long that is nearest to the number written. */
  lemma NearestLong(s: string, y: int)
    requires IsLong(y)
    ensures IsLong(Strtol(s))
    ensures Integer(s) >= Strtol(s) ==> Integer(s) - Strtol(s) <= if Integer(s) >= y then Integer(s) - y else y - Integer(s)
    ensures Integer(s) < Strtol(s) ==> Strtol(s) - Integer(s) <= if Integer(s) >= y then Integer(s) - y else y - Integer(s)
  {
    hide Integer;
  }
}
