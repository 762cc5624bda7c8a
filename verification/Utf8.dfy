/** The decoder of UTF-8 encoded characters. Bytes are numbers; masks and shifts are quotients. */
module Utf8 {
  import opened CStrings

  type Byte = b: int | 0 <= b < 0x100

  type Bytes = s: seq<Byte> | 0 !in s

  /** The byte a C program reads at index i, the terminator included. */
  function ByteAt(s: seq<Byte>, i: nat): Byte {
    if i < |s| then s[i] else 0
  }

  // ----- The reference: section 3 of RFC 3629 -----

  /** The encoding of a character number. */
  function Encoding(u: nat): (e: seq<Byte>)
    requires u <= 0x10ffff
  {
    if u < 0x80 then [u]
    else if u < 0x800 then [0xc0 + u / 0x40, 0x80 + u % 0x40]
    else if u < 0x10000 then [0xe0 + u / 0x1000, 0x80 + u / 0x40 % 0x40, 0x80 + u % 0x40]
    else [0xf0 + u / 0x40000, 0x80 + u / 0x1000 % 0x40, 0x80 + u / 0x40 % 0x40, 0x80 + u % 0x40]
  }

  /** No surrogates, no U+FDD0..U+FDEF, none whose low sixteen bits are all ones. */
  predicate Accepted(u: nat) {
    u <= 0x10ffff && !(0xd800 <= u < 0xe000) && !(0xfdd0 <= u < 0xfdf0) && u % 0x10000 != 0xffff
  }

  /** The string starts with the encoding of u, an accepted character of more than one byte. */
  predicate StartsWith(s: seq<Byte>, u: nat) {
    0x80 <= u && Accepted(u) && Encoding(u) <= s
  }

  // ----- The decoder -----

  function EncodedExpectedLen(c: Byte): nat {
    if c < 0x80 then 1
    else if c / 0x20 == 0xc0 / 0x20 then 2
    else if c / 0x10 == 0xe0 / 0x10 then 3
    else if c / 0x08 == 0xf0 / 0x08 then 4
    else if c / 0x04 == 0xf8 / 0x04 then 5
    else if c / 0x02 == 0xfc / 0x02 then 6
    else 0
  }

  /** The bits of the first byte that belong to the character. */
  function FirstBits(c: Byte, len: nat): nat {
    match len
    case 2 => c % 0x20
    case 3 => c % 0x10
    case 4 => c % 0x08
    case 5 => c % 0x04
    case _ => c % 0x02
  }

  predicate Continues(c: Byte) {
    c / 0x40 == 0x80 / 0x40
  }

  /** The value of the first n bytes, each but the first giving six bits. */
  function Value(s: seq<Byte>, len: nat, n: nat): nat
    requires 1 <= n
  {
    if n == 1 then FirstBits(ByteAt(s, 0), len)
    else Value(s, len, n - 1) * 0x40 + ByteAt(s, n - 1) % 0x40
  }

  function EncodedToUnichar(s: seq<Byte>): int {
    var len := EncodedExpectedLen(ByteAt(s, 0));
    if len == 1 then ByteAt(s, 0)
    else if len == 0 || exists i | 1 <= i < len :: !Continues(ByteAt(s, i)) then -1
    else Value(s, len, len)
  }

  function UnicharToEncodedLen(u: int): nat {
    if u < 0x80 then 1
    else if u < 0x800 then 2
    else if u < 0x10000 then 3
    else if u < 0x200000 then 4
    else if u < 0x4000000 then 5
    else 6
  }

  predicate UnicharValidRange(u: nat) {
    u <= 0x10ffff && u / 0x800 != 0xd800 / 0x800 && !(u > 0xfdcf && u < 0xfdf0) && u % 0x10000 != 0xffff
  }

  /** The length of the valid character at the front, or -1. */
  function EncodedValidUnichar(s: seq<Byte>): int {
    var len := EncodedExpectedLen(ByteAt(s, 0));
    if len == 0 then -1
    else if len == 1 then 1
    else if exists i | 0 <= i < len :: ByteAt(s, i) < 0x80 then -1
    else if UnicharToEncodedLen(EncodedToUnichar(s)) != len then -1
    else if !UnicharValidRange(EncodedToUnichar(s)) then -1
    else len
  }

  /** A buffer with a terminated string at its front. */
  predicate Holds(buf: seq<Byte>, text: Bytes) {
    |text| < |buf| && buf[|text|] == 0 && forall k | 0 <= k < |text| :: buf[k] == text[k]
  }

  /** utf8_encoded_to_unichar */
  method DecodeUnichar(buf: seq<Byte>, ghost text: Bytes) returns (unichar: int)
    requires Holds(buf, text)
    ensures unichar == EncodedToUnichar(text)
  {
    var len := EncodedExpectedLen(buf[0]);
    if len == 1 {
      return buf[0];
    }
    if len == 0 {
      return -1;
    }
    unichar := FirstBits(buf[0], len);
    var i := 1;
    while i < len
      invariant 1 <= i <= len && i <= |text| && unichar == Value(text, len, i)
      invariant forall k | 1 <= k < i :: Continues(ByteAt(text, k))
    {
      assert buf[i] == ByteAt(text, i);
      if !Continues(buf[i]) {
        return -1;
      }
      unichar := unichar * 0x40 + buf[i] % 0x40;
      i := i + 1;
    }
  }

  /** utf8_encoded_valid_unichar: no byte after the terminator is read. */
  method ValidateUnichar(buf: seq<Byte>, ghost text: Bytes) returns (r: int)
    requires Holds(buf, text)
    ensures r == EncodedValidUnichar(text)
  {
    var len := EncodedExpectedLen(buf[0]);
    if len == 0 {
      return -1;
    }
    if len == 1 {
      return 1;
    }
    for i := 0 to len
      invariant i <= |text| && forall k | 0 <= k < i :: ByteAt(text, k) >= 0x80
    {
      assert buf[i] == ByteAt(text, i);
      if buf[i] < 0x80 {
        return -1;
      }
    }
    var unichar := DecodeUnichar(buf, text);
    if UnicharToEncodedLen(unichar) != len {
      return -1;
    }
    if !UnicharValidRange(unichar) {
      return -1;
    }
    r := len;
  }

  // ----- What the decoder accepts -----

  lemma ValueOf2(s: seq<Byte>)
    ensures Value(s, 2, 2) == ByteAt(s, 0) % 0x20 * 0x40 + ByteAt(s, 1) % 0x40
  {
    assert Value(s, 2, 1) == ByteAt(s, 0) % 0x20;
  }

  lemma ValueOf3(s: seq<Byte>)
    ensures Value(s, 3, 3) == (ByteAt(s, 0) % 0x10 * 0x40 + ByteAt(s, 1) % 0x40) * 0x40 + ByteAt(s, 2) % 0x40
  {
    assert Value(s, 3, 1) == ByteAt(s, 0) % 0x10;
    assert Value(s, 3, 2) == Value(s, 3, 1) * 0x40 + ByteAt(s, 1) % 0x40;
  }

  lemma ValueOf4(s: seq<Byte>)
    ensures Value(s, 4, 4) == ((ByteAt(s, 0) % 0x08 * 0x40 + ByteAt(s, 1) % 0x40) * 0x40
                               + ByteAt(s, 2) % 0x40) * 0x40 + ByteAt(s, 3) % 0x40
  {
    assert Value(s, 4, 1) == ByteAt(s, 0) % 0x08;
    assert Value(s, 4, 2) == Value(s, 4, 1) * 0x40 + ByteAt(s, 1) % 0x40;
    assert Value(s, 4, 3) == Value(s, 4, 2) * 0x40 + ByteAt(s, 2) % 0x40;
  }

  /** Six bits in a continuation byte. */
  lemma SixBits(x: nat)
    ensures var b := 0x80 + x % 0x40; b < 0xc0 && Continues(b) && b % 0x40 == x % 0x40
  {
  }

  /** A character number as digits to the base 0x40. */
  lemma Digits(u: nat)
    ensures u == u / 0x40 * 0x40 + u % 0x40
    ensures u / 0x40 == u / 0x1000 * 0x40 + u / 0x40 % 0x40
    ensures u / 0x1000 == u / 0x40000 * 0x40 + u / 0x1000 % 0x40
  {
  }

  predicate WellFormed(e: seq<Byte>, u: nat) {
    |e| == UnicharToEncodedLen(u) == EncodedExpectedLen(ByteAt(e, 0)) && 2 <= |e| <= 4
    && (forall i | 0 <= i < |e| :: e[i] >= 0x80) && (forall i | 1 <= i < |e| :: Continues(e[i]))
    && Value(e, |e|, |e|) == u
  }

  lemma EncodingsAreWellFormed(u: nat)
    requires 0x80 <= u <= 0x10ffff
    ensures WellFormed(Encoding(u), u)
  {
    hide Value;
    var e := Encoding(u);
    Digits(u);
    SixBits(u);
    SixBits(u / 0x40);
    SixBits(u / 0x1000);
    hide Continues;
    if u < 0x800 {
      ValueOf2(e);
    } else if u < 0x10000 {
      ValueOf3(e);
    } else {
      ValueOf4(e);
    }
  }

  lemma {:induction false} ValueOfPrefix(e: seq<Byte>, s: seq<Byte>, len: nat, n: nat)
    requires e <= s && 1 <= n <= |e|
    ensures Value(e, len, n) == Value(s, len, n)
    decreases n
  {
    assert ByteAt(e, n - 1) == ByteAt(s, n - 1);
    if n > 1 {
      ValueOfPrefix(e, s, len, n - 1);
    }
  }

  /** Every encoding of an accepted character is recognised, whatever follows it. */
  lemma EncodingsAreAccepted(s: seq<Byte>, u: nat)
    requires StartsWith(s, u)
    ensures EncodedValidUnichar(s) == |Encoding(u)| > 1 && EncodedToUnichar(s) == u
  {
    hide Value, Encoding, EncodedExpectedLen, UnicharToEncodedLen;
    var e := Encoding(u);
    EncodingsAreWellFormed(u);
    ValueOfPrefix(e, s, |e|, |e|);
    assert forall i | 0 <= i < |e| :: ByteAt(s, i) == e[i];
  }

  /** The bits of a continuation byte. */
  lemma ContinuationBits(b: Byte)
    requires Continues(b)
    ensures b == 0x80 + b % 0x40
  {
  }

  lemma FirstByte(b: Byte)
    ensures var len := EncodedExpectedLen(b);
      && (len == 2 ==> b == 0xc0 + b % 0x20) && (len == 3 ==> b == 0xe0 + b % 0x10)
      && (len == 4 ==> b == 0xf0 + b % 0x08)
  {
  }

  lemma DigitsBack(a: nat, b: nat, c: nat, d: nat)
    requires b < 0x40 && c < 0x40 && d < 0x40
    ensures var u := ((a * 0x40 + b) * 0x40 + c) * 0x40 + d;
      u % 0x40 == d && u / 0x40 % 0x40 == c && u / 0x1000 % 0x40 == b && u / 0x40000 == a
  {
  }

  /** What is recognised as more than one byte has the shape of an encoding. */
  lemma RecognisedShape(s: seq<Byte>)
    requires EncodedValidUnichar(s) > 1
    ensures var len, u := EncodedValidUnichar(s), EncodedToUnichar(s);
      && len == EncodedExpectedLen(ByteAt(s, 0)) == UnicharToEncodedLen(u) && 2 <= len <= 4 && len <= |s|
      && u == Value(s, len, len) && Accepted(u) && u >= 0x80
      && Continues(ByteAt(s, 1)) && (len > 2 ==> Continues(ByteAt(s, 2))) && (len > 3 ==> Continues(ByteAt(s, 3)))
  {
  }

  lemma Recognised2(a: Byte, b: Byte)
    requires EncodedExpectedLen(a) == 2 && Continues(b)
    ensures var u := a % 0x20 * 0x40 + b % 0x40;
      u < 0x80 || Encoding(u) == [a, b]
  {
  }

  lemma Recognised3(a: Byte, b: Byte, c: Byte)
    requires EncodedExpectedLen(a) == 3 && Continues(b) && Continues(c)
    ensures var u := (a % 0x10 * 0x40 + b % 0x40) * 0x40 + c % 0x40;
      u < 0x800 || Encoding(u) == [a, b, c]
  {
    FirstByte(a);
    ContinuationBits(b);
    ContinuationBits(c);
    hide EncodedExpectedLen, Continues;
    DigitsBack(0, a % 0x10, b % 0x40, c % 0x40);
  }

  lemma Recognised4(a: Byte, b: Byte, c: Byte, d: Byte)
    requires EncodedExpectedLen(a) == 4 && Continues(b) && Continues(c) && Continues(d)
    ensures var u := ((a % 0x08 * 0x40 + b % 0x40) * 0x40 + c % 0x40) * 0x40 + d % 0x40;
      u < 0x10000 || u > 0x10ffff || Encoding(u) == [a, b, c, d]
  {
    FirstByte(a);
    ContinuationBits(b);
    ContinuationBits(c);
    ContinuationBits(d);
    hide EncodedExpectedLen, Continues;
    DigitsBack(a % 0x08, b % 0x40, c % 0x40, d % 0x40);
  }

  lemma UnicharLengths(u: int)
    ensures var len := UnicharToEncodedLen(u);
      (len == 2 ==> u >= 0x80) && (len == 3 ==> u >= 0x800) && (len == 4 ==> u >= 0x10000)
  {
  }

  predicate Prefixed(s: seq<Byte>, len: nat)
    requires len >= 1
  {
    var u := Value(s, len, len);
    len <= |s| && u <= 0x10ffff && Encoding(u) == s[..len]
  }

  lemma Prefixed2(s: seq<Byte>)
    requires |s| >= 2 && EncodedExpectedLen(s[0]) == 2 && Continues(s[1])
    requires 0x80 <= Value(s, 2, 2) <= 0x10ffff
    ensures Prefixed(s, 2)
  {
    hide Encoding, Value, EncodedExpectedLen, Continues;
    ValueOf2(s);
    Recognised2(s[0], s[1]);
    assert [s[0], s[1]] == s[..2];
  }

  lemma Prefixed3(s: seq<Byte>)
    requires |s| >= 3 && EncodedExpectedLen(s[0]) == 3 && Continues(s[1]) && Continues(s[2])
    requires 0x800 <= Value(s, 3, 3) <= 0x10ffff
    ensures Prefixed(s, 3)
  {
    hide Encoding, Value, EncodedExpectedLen, Continues;
    ValueOf3(s);
    Recognised3(s[0], s[1], s[2]);
    assert [s[0], s[1], s[2]] == s[..3];
  }

  lemma Prefixed4(s: seq<Byte>)
    requires |s| >= 4 && EncodedExpectedLen(s[0]) == 4 && Continues(s[1]) && Continues(s[2]) && Continues(s[3])
    requires 0x10000 <= Value(s, 4, 4) <= 0x10ffff
    ensures Prefixed(s, 4)
  {
    hide Encoding, Value, EncodedExpectedLen, Continues;
    ValueOf4(s);
    Recognised4(s[0], s[1], s[2], s[3]);
    assert [s[0], s[1], s[2], s[3]] == s[..4];
  }

  /** What is recognised as more than one byte is such an encoding. */
  lemma AcceptedAreEncodings(s: seq<Byte>)
    requires EncodedValidUnichar(s) > 1
    ensures EncodedToUnichar(s) >= 0 && StartsWith(s, EncodedToUnichar(s))
    ensures |Encoding(EncodedToUnichar(s))| == EncodedValidUnichar(s) <= |s|
  {
    RecognisedShape(s);
    var len, u := EncodedValidUnichar(s), EncodedToUnichar(s);
    UnicharLengths(u);
    hide EncodedValidUnichar, EncodedToUnichar, EncodedExpectedLen, Value, Encoding, Continues, Accepted, UnicharToEncodedLen;
    if len == 2 {
      Prefixed2(s);
    } else if len == 3 {
      Prefixed3(s);
    } else {
      Prefixed4(s);
    }
  }

  /** The multibyte characters accepted are exactly the encodings of the numbers that are permitted. */
  lemma AcceptedTokens(s: seq<Byte>, n: nat)
    requires n > 1
    ensures EncodedValidUnichar(s) == n <==> exists u: nat :: StartsWith(s, u) && |Encoding(u)| == n
  {
    if EncodedValidUnichar(s) == n {
      AcceptedAreEncodings(s);
    }
    forall u: nat | StartsWith(s, u) ensures EncodedValidUnichar(s) == |Encoding(u)| {
      EncodingsAreAccepted(s, u);
    }
  }

  /** Permitted are the numbers from 80 to 10FFFF in hexadecimal, other than the surrogates D800 to DFFF,
      FDD0 to FDEF, and those that end in FFFF. */
  lemma PermittedIff(u: nat)
    ensures StartsWith(Utf8Text(u), u) <==>
      0x80 <= u <= 0x10ffff && (u < 0xd800 || u > 0xdfff) && (u < 0xfdd0 || u > 0xfdef)
      && u != 0xffff && u % 65536 != 65535
  {
    hide Encoding;
  }

  function Utf8Text(u: nat): seq<Byte> {
    if u <= 0x10ffff then Encoding(u) else []
  }

  /** How many bytes the first byte announces: as many as it has leading ones, or one without any. */
  predicate Announces(c: Byte, n: nat) {
    || (n == 1 && c < 0x80) || (n == 2 && 0xc0 <= c < 0xe0) || (n == 3 && 0xe0 <= c < 0xf0)
    || (n == 4 && 0xf0 <= c < 0xf8) || (n == 5 && 0xf8 <= c < 0xfc) || (n == 6 && 0xfc <= c < 0xfe)
  }

  /** Decoding gives -1 exactly if the first byte announces nothing, or one of the bytes that it announces
      is not a continuation, and never another negative number. */
  lemma DecodingFailsIff(s: seq<Byte>)
    ensures EncodedToUnichar(s) == -1 <==>
      !(exists n | 1 <= n <= 6 :: Announces(ByteAt(s, 0), n) && forall i | 1 <= i < n :: 0x80 <= ByteAt(s, i) < 0xc0)
    ensures EncodedToUnichar(s) >= -1
    ensures EncodedValidUnichar(s) == -1 || 1 <= EncodedValidUnichar(s) <= 4
  {
    var len := EncodedExpectedLen(ByteAt(s, 0));
    forall n: nat | 1 <= n <= 6
      ensures Announces(ByteAt(s, 0), n) <==> len == n
    {
    }
    forall i: nat
      ensures Continues(ByteAt(s, i)) <==> 0x80 <= ByteAt(s, i) < 0xc0
    {
    }
    hide EncodedExpectedLen, Continues, Value;
    if 1 <= len <= 6 {
      assert Announces(ByteAt(s, 0), len);
    }
    if EncodedValidUnichar(s) > 1 {
      UnicharLengths(EncodedToUnichar(s));
    }
  }

  /** The first byte of a long form. */
  lemma FirstOfLong(a: nat)
    ensures a < 4 ==> EncodedExpectedLen(0xf8 + a) == 5 && FirstBits(0xf8 + a, 5) == a
    ensures a < 2 ==> EncodedExpectedLen(0xfc + a) == 6 && FirstBits(0xfc + a, 6) == a
  {
  }

  /** What the n-th byte of a long form gives. */
  lemma ValueStep(s: seq<Byte>, len: nat, n: nat, b: nat)
    requires 1 < n <= |s| && b < 0x40 && s[n-1] == 0x80 + b
    ensures Value(s, len, n) == Value(s, len, n - 1) * 0x40 + b && Continues(s[n-1])
  {
  }

  /** Sequences of five and six bytes, which no permitted character has, are decoded in the same way: the
      last bits of the first byte, and six bits of every other. */
  lemma LongForms(a: nat, b: nat, c: nat, d: nat, e: nat, f: nat)
    requires b < 0x40 && c < 0x40 && d < 0x40 && e < 0x40 && f < 0x40
    ensures a < 4 ==>
      EncodedToUnichar([0xf8 + a, 0x80 + b, 0x80 + c, 0x80 + d, 0x80 + e])
      == (((a * 0x40 + b) * 0x40 + c) * 0x40 + d) * 0x40 + e
    ensures a < 2 ==>
      EncodedToUnichar([0xfc + a, 0x80 + b, 0x80 + c, 0x80 + d, 0x80 + e, 0x80 + f])
      == ((((a * 0x40 + b) * 0x40 + c) * 0x40 + d) * 0x40 + e) * 0x40 + f
  {
    FirstOfLong(a);
    hide EncodedExpectedLen, FirstBits;
    if a < 4 {
      var s: seq<Byte> := [0xf8 + a, 0x80 + b, 0x80 + c, 0x80 + d, 0x80 + e];
      assert EncodedExpectedLen(s[0]) == 5 && Value(s, 5, 1) == a;
      hide Value, Continues;
      ValueStep(s, 5, 2, b);
      ValueStep(s, 5, 3, c);
      ValueStep(s, 5, 4, d);
      ValueStep(s, 5, 5, e);
    }
    if a < 2 {
      var s: seq<Byte> := [0xfc + a, 0x80 + b, 0x80 + c, 0x80 + d, 0x80 + e, 0x80 + f];
      assert EncodedExpectedLen(s[0]) == 6 && Value(s, 6, 1) == a;
      hide Value, Continues;
      ValueStep(s, 6, 2, b);
      ValueStep(s, 6, 3, c);
      ValueStep(s, 6, 4, d);
      ValueStep(s, 6, 5, e);
      ValueStep(s, 6, 6, f);
    }
  }
}
