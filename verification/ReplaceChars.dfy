/** replace_chars: device names keep whitelisted bytes, plain ASCII letters and digits, hex escapes
    and valid UTF-8; everything else is overwritten in place. */
module ReplaceChars {
  import opened CStrings
  import opened Utf8

  const SPACE: Byte := 0x20
  const UNDERSCORE: Byte := 0x5f
  const BACKSLASH: Byte := 0x5c
  const LETTER_X: Byte := 0x78

  /** A whitelist, or NULL. */
  type White = Option<seq<Byte>>

  predicate InWhite(white: White, c: Byte) {
    white.Some? && c in white.value
  }

  predicate IsAlnum(c: Byte) {
    0x30 <= c <= 0x39 || 0x41 <= c <= 0x5a || 0x61 <= c <= 0x7a
  }

  predicate IsSpace(c: Byte) {
    0x09 <= c <= 0x0d || c == SPACE
  }

  // ----- The reference: allowed tokens -----

  predicate IsCharacter(t: seq<Byte>, u: nat) {
    0x80 <= u && Accepted(u) && t == Encoding(u)
  }

  /** A whitelisted byte, a letter or digit, the start of a hex escape, or an accepted character. */
  ghost predicate AllowedToken(white: White, t: seq<Byte>) {
    (|t| == 1 && (InWhite(white, t[0]) || IsAlnum(t[0])))
    || t == [BACKSLASH, LETTER_X]
    || exists u: nat :: IsCharacter(t, u)
  }

  /** A string made of allowed tokens. */
  ghost predicate Clean(white: White, s: seq<Byte>)
    decreases |s|
  {
    s == [] || exists n | 0 < n <= |s| :: AllowedToken(white, s[..n]) && Clean(white, s[n..])
  }

  // ----- The function computed -----

  /** The length of the token at the front, or 0 if the first byte has to be replaced. */
  function TokenLength(white: White, s: seq<Byte>): (n: nat)
    requires s != [] && 0 !in s
    ensures n <= |s|
  {
    if InWhite(white, s[0]) then 1
    else if IsAlnum(s[0]) then 1
    else if s[0] == BACKSLASH && ByteAt(s, 1) == LETTER_X then 2
    else if EncodedValidUnichar(s) > 1 then
      AcceptedAreEncodings(s);
      EncodedValidUnichar(s)
    else 0
  }

  function Substitute(white: White, c: Byte): Byte {
    if IsSpace(c) && InWhite(white, SPACE) then SPACE else UNDERSCORE
  }

  function Rest(s: Bytes, i: nat): Bytes
    requires i <= |s|
  {
    s[i..]
  }

  function Append(t: Bytes, s: Bytes): Bytes {
    t + s
  }

  function Replaced(white: White, s: Bytes): (r: Bytes)
    ensures |r| == |s|
    decreases |s|
  {
    if s == [] then []
    else
      var n := TokenLength(white, s);
      if n > 0 then Append(s[..n], Replaced(white, Rest(s, n)))
      else Append([Substitute(white, s[0])], Replaced(white, Rest(s, 1)))
  }

  function Count(white: White, s: Bytes): nat
    decreases |s|
  {
    if s == [] then 0
    else
      var n := TokenLength(white, s);
      if n > 0 then Count(white, Rest(s, n)) else 1 + Count(white, Rest(s, 1))
  }

  // ----- The loop -----

  /** How many bytes the loop skips at the front of the string. */
  method SkipToken(buf: seq<Byte>, white: White, ghost text: Bytes) returns (n: nat)
    requires Holds(buf, text) && text != []
    ensures n == TokenLength(white, text)
  {
    assert buf[0] == text[0] && buf[1] == ByteAt(text, 1);
    if InWhite(white, buf[0]) {
      return 1;
    }
    if 0x30 <= buf[0] <= 0x39 || 0x41 <= buf[0] <= 0x5a || 0x61 <= buf[0] <= 0x7a {
      return 1;
    }
    if buf[0] == BACKSLASH && buf[1] == LETTER_X {
      return 2;
    }
    var len := ValidateUnichar(buf, text);
    n := if len > 1 then len else 0;
  }

  /** The bytes before i are final, those from i on are still as they were. */
  predicate Replacing(buf: seq<Byte>, text: Bytes, white: White, i: nat, replaced: nat) {
    i <= |text| < |buf| && Holds(buf[i..], Rest(text, i))
    && buf[..i] + Replaced(white, Rest(text, i)) == Replaced(white, text)
    && replaced + Count(white, Rest(text, i)) == Count(white, text)
  }

  lemma ReplacingStarts(buf: seq<Byte>, text: Bytes, white: White)
    requires Holds(buf, text)
    ensures Replacing(buf, text, white, 0, 0)
  {
    assert Rest(text, 0) == text && buf[0..] == buf && buf[..0] == [];
  }

  lemma ReplacingAt(buf: seq<Byte>, text: Bytes, white: White, i: nat, replaced: nat)
    requires Replacing(buf, text, white, i, replaced)
    ensures i <= |text| < |buf| && Holds(buf[i..], Rest(text, i))
    ensures (buf[i] == 0 <==> i == |text|)
    ensures i < |text| ==> buf[i] == text[i] && Rest(text, i) != []
    ensures i == |text| ==> buf[..i] == Replaced(white, text) && replaced == Count(white, text)
  {
    assert buf[i..][0] == buf[i];
  }

  lemma TakeMore(buf: seq<Byte>, rest: Bytes, i: nat, n: nat)
    requires i <= |buf| && n <= |rest| && Holds(buf[i..], rest)
    ensures i + n < |buf| && buf[..i+n] == buf[..i] + rest[..n] && Holds(buf[i+n..], Rest(rest, n))
  {
    assert buf[i..][..n] == rest[..n];
    assert buf[i..][n..] == buf[i+n..];
  }

  lemma Regroup(a: seq<Byte>, b: Bytes, c: Bytes)
    ensures a + Append(b, c) == a + b + c
  {
  }

  lemma KeepToken(buf: seq<Byte>, text: Bytes, white: White, i: nat, replaced: nat)
    requires Replacing(buf, text, white, i, replaced) && i < |text|
    requires TokenLength(white, Rest(text, i)) > 0
    ensures Replacing(buf, text, white, i + TokenLength(white, Rest(text, i)), replaced)
  {
    hide TokenLength, Holds, Append;
    var rest, n := Rest(text, i), TokenLength(white, Rest(text, i));
    assert Rest(rest, n) == Rest(text, i + n);
    TakeMore(buf, rest, i, n);
    Regroup(buf[..i], rest[..n], Replaced(white, Rest(rest, n)));
  }

  lemma PutOne(buf: seq<Byte>, rest: Bytes, i: nat, c: Byte)
    requires i < |buf| && rest != [] && Holds(buf[i..], rest) && c != 0
    ensures buf[i := c][..i+1] == buf[..i] + [c] && Holds(buf[i := c][i+1..], Rest(rest, 1))
  {
    assert buf[i := c][i+1..] == buf[i..][1..];
  }

  lemma ReplaceByte(buf: seq<Byte>, text: Bytes, white: White, i: nat, replaced: nat)
    requires Replacing(buf, text, white, i, replaced) && i < |text|
    requires TokenLength(white, Rest(text, i)) == 0
    ensures Replacing(buf[i := Substitute(white, text[i])], text, white, i + 1, replaced + 1)
  {
    hide TokenLength, Holds, Append;
    var c, rest := Substitute(white, text[i]), Rest(text, i);
    hide Substitute;
    assert Rest(rest, 1) == Rest(text, i + 1);
    PutOne(buf, rest, i, c);
    Regroup(buf[..i], [c], Replaced(white, Rest(rest, 1)));
  }

  /** The array is at turn i of the loop. */
  predicate InTurn(str: array<Byte>, text: Bytes, white: White, i: nat, replaced: nat)
    reads str
  {
    Replacing(str[..], text, white, i, replaced)
  }

  method SkipAt(str: array<Byte>, i: nat, white: White, ghost text: Bytes, ghost replaced: nat) returns (n: nat)
    requires InTurn(str, text, white, i, replaced) && i < |text|
    ensures n == TokenLength(white, Rest(text, i))
  {
    ReplacingAt(str[..], text, white, i, replaced);
    assert str[..][i..] == str[i..];
    n := SkipToken(str[i..], white, Rest(text, i));
  }

  method WriteByte(str: array<Byte>, i: nat, white: White, ghost text: Bytes, ghost replaced: nat)
    requires InTurn(str, text, white, i, replaced) && i < |text| && TokenLength(white, Rest(text, i)) == 0
    modifies str
    ensures InTurn(str, text, white, i + 1, replaced + 1)
  {
    ghost var buf := str[..];
    ReplacingAt(buf, text, white, i, replaced);
    ReplaceByte(buf, text, white, i, replaced);
    hide TokenLength, Replaced, Holds, Replacing, Substitute;
    str[i] := Substitute(white, str[i]);
    assert str[..] == buf[i := Substitute(white, text[i])];
  }

  /** One turn of the loop: skip a token, or write one byte. */
  method Turn(str: array<Byte>, i: nat, white: White, ghost text: Bytes, replaced: nat)
    returns (next: nat, count: nat)
    requires InTurn(str, text, white, i, replaced) && i < |text|
    modifies str
    ensures InTurn(str, text, white, next, count) && i < next <= |text| < str.Length
    ensures str[next] == 0 <==> next == |text|
  {
    hide *;
    var n := SkipAt(str, i, white, text, replaced);
    if n > 0 {
      KeepTurn(str, text, white, i, replaced);
      next, count := i + n, replaced;
    } else {
      WriteByte(str, i, white, text, replaced);
      next, count := i + 1, replaced + 1;
    }
    TurnAt(str, text, white, next, count);
  }

  /** replace_chars, in place. A caller without a whitelist may not pass white space, as the source
      would look for a space in the list. */
  method ReplaceInPlace(str: array<Byte>, white: White, ghost text: Bytes) returns (replaced: nat)
    requires Holds(str[..], text)
    requires white.None? ==> forall c | c in text :: !IsSpace(c)
    modifies str
    ensures Holds(str[..], Replaced(white, text)) && replaced == Count(white, text)
  {
    ReplacingStarts(str[..], text, white);
    var i := 0;
    replaced := 0;
    assert InTurn(str, text, white, i, replaced);
    hide *;
    TurnAt(str, text, white, i, replaced);
    while str[i] != 0
      invariant i <= |text| < str.Length && InTurn(str, text, white, i, replaced)
      invariant str[i] == 0 <==> i == |text|
      decreases |text| - i
    {
      i, replaced := Turn(str, i, white, text, replaced);
    }
    ReplacingEnds(str, text, white, replaced);
  }

  lemma TurnAt(str: array<Byte>, text: Bytes, white: White, i: nat, replaced: nat)
    requires InTurn(str, text, white, i, replaced)
    ensures i <= |text| < str.Length && (str[i] == 0 <==> i == |text|)
  {
    ReplacingAt(str[..], text, white, i, replaced);
  }

  lemma KeepTurn(str: array<Byte>, text: Bytes, white: White, i: nat, replaced: nat)
    requires InTurn(str, text, white, i, replaced) && i < |text| && TokenLength(white, Rest(text, i)) > 0
    ensures InTurn(str, text, white, i + TokenLength(white, Rest(text, i)), replaced)
  {
    KeepToken(str[..], text, white, i, replaced);
  }

  lemma ReplacingEnds(str: array<Byte>, text: Bytes, white: White, replaced: nat)
    requires InTurn(str, text, white, |text|, replaced)
    ensures Holds(str[..], Replaced(white, text)) && replaced == Count(white, text)
  {
    ReplacingAt(str[..], text, white, |text|, replaced);
    assert forall k | 0 <= k < |text| :: str[..][k] == str[..][..|text|][k];
  }

  // ----- What is left -----

  /** What a token is does not depend on what follows it. */
  lemma TokenIsLocal(white: White, s: Bytes, rest: Bytes)
    requires s != [] && TokenLength(white, s) > 0
    ensures var n := TokenLength(white, s);
      TokenLength(white, s[..n] + rest) == n
  {
    var n := TokenLength(white, s);
    var t := s[..n] + rest;
    assert t[0] == s[0];
    if InWhite(white, s[0]) || IsAlnum(s[0]) {
    } else if s[0] == BACKSLASH && ByteAt(s, 1) == LETTER_X {
      assert t[1] == s[..n][1] == s[1];
    } else {
      AcceptedAreEncodings(s);
      var u := EncodedToUnichar(s);
      assert Encoding(u) == s[..n];
      EncodingsAreAccepted(t, u);
      EncodingsAreWellFormed(u);
    }
  }

  /** A token is an allowed one. */
  lemma TokenIsAllowed(white: White, s: Bytes)
    requires s != [] && TokenLength(white, s) > 0
    ensures AllowedToken(white, s[..TokenLength(white, s)])
  {
    var n := TokenLength(white, s);
    if InWhite(white, s[0]) || IsAlnum(s[0]) {
    } else if s[0] == BACKSLASH && ByteAt(s, 1) == LETTER_X {
      assert s[..2] == [BACKSLASH, LETTER_X];
    } else {
      AcceptedAreEncodings(s);
      assert IsCharacter(s[..n], EncodedToUnichar(s));
    }
  }

  /** Only allowed tokens are left, for every whitelist with an underscore. */
  lemma {:induction false} OnlyAllowedTokensAreLeft(white: White, s: Bytes)
    requires InWhite(white, UNDERSCORE)
    ensures Clean(white, Replaced(white, s))
    decreases |s|
  {
    hide TokenLength, AllowedToken;
    if s != [] {
      var n := TokenLength(white, s);
      var r := Replaced(white, s);
      if n > 0 {
        OnlyAllowedTokensAreLeft(white, s[n..]);
        TokenIsAllowed(white, s);
        assert r[..n] == s[..n] && r[n..] == Replaced(white, s[n..]);
      } else {
        OnlyAllowedTokensAreLeft(white, s[1..]);
        assert r[..1] == [Substitute(white, s[0])] && r[1..] == Replaced(white, s[1..]);
        SubstituteIsAllowed(white, s[0]);
      }
    }
  }

  lemma SubstituteIsAllowed(white: White, c: Byte)
    requires InWhite(white, UNDERSCORE)
    ensures AllowedToken(white, [Substitute(white, c)])
  {
  }

  /** A second run changes nothing, for every whitelist. It counts nothing either, exactly if the
      list has an underscore or none was written. */
  lemma {:induction false} SecondRunChangesNothing(white: White, s: Bytes)
    ensures Replaced(white, Replaced(white, s)) == Replaced(white, s)
    ensures Count(white, Replaced(white, s)) == 0 <==> InWhite(white, UNDERSCORE) || UNDERSCORE !in Replaced(white, s)
    decreases |s|
  {
    if s != [] {
      var n := TokenLength(white, s);
      var r := Replaced(white, s);
      if n > 0 {
        var rest := Replaced(white, s[n..]);
        SecondRunChangesNothing(white, s[n..]);
        TokenIsLocal(white, s, rest);
        TokenHasUnderscore(white, s);
        hide TokenLength;
        assert r[..n] == s[..n] && r[n..] == rest;
        assert UNDERSCORE in r <==> UNDERSCORE in s[..n] || UNDERSCORE in rest;
      } else {
        var rest := Replaced(white, s[1..]);
        SecondRunChangesNothing(white, s[1..]);
        SubstituteAgain(white, s[0], rest);
        hide TokenLength, Substitute;
        assert r[0] == Substitute(white, s[0]) && r[..1] == [r[0]] && r[1..] == rest;
      }
    }
  }

  lemma TokenHasUnderscore(white: White, s: Bytes)
    requires s != [] && TokenLength(white, s) > 0
    ensures InWhite(white, UNDERSCORE) || UNDERSCORE !in s[..TokenLength(white, s)]
  {
    if EncodedValidUnichar(s) > 1 {
      AcceptedAreEncodings(s);
      EncodingsAreWellFormed(EncodedToUnichar(s));
    }
  }

  /** A byte written is kept by the next run, or is an underscore that is written again. */
  lemma SubstituteAgain(white: White, c: Byte, rest: Bytes)
    ensures var b := Substitute(white, c);
      && (b != UNDERSCORE || InWhite(white, UNDERSCORE) ==> TokenLength(white, [b] + rest) == 1)
      && (b == UNDERSCORE && !InWhite(white, UNDERSCORE) ==>
            TokenLength(white, [b] + rest) == 0 && Substitute(white, b) == b)
  {
  }

  /** A byte is kept, or replaced: white space by a space if the list has one, anything else by an
      underscore. */
  lemma {:induction false} BytesChangeOnlySo(white: White, s: Bytes, i: nat)
    requires i < |s|
    ensures var r, blank := Replaced(white, s), 9 <= s[i] <= 13 || s[i] == 32;
      r[i] == s[i] || r[i] == if blank && white.Some? && 32 in white.value then 32 else 95
    decreases |s|
  {
    var n := TokenLength(white, s);
    hide TokenLength;
    if n > 0 {
      if n <= i {
        BytesChangeOnlySo(white, Rest(s, n), i - n);
      }
    } else if i > 0 {
      BytesChangeOnlySo(white, Rest(s, 1), i - 1);
    }
  }

  /** At how many places two strings differ. */
  function Differences(s: seq<Byte>, t: seq<Byte>): nat
    requires |s| == |t|
  {
    if s == [] then 0 else (if s[0] != t[0] then 1 else 0) + Differences(s[1..], t[1..])
  }

  lemma {:induction false} DifferencesBehind(a: seq<Byte>, s: seq<Byte>, t: seq<Byte>)
    requires |s| == |t|
    ensures Differences(a + s, a + t) == Differences(s, t)
  {
    if a == [] {
      assert a + s == s && a + t == t;
    } else {
      assert (a + s)[1..] == a[1..] + s && (a + t)[1..] == a[1..] + t;
      DifferencesBehind(a[1..], s, t);
    }
  }

  /** The number returned is that of the bytes replaced: where the string has neither underscores nor
      spaces, of the places at which the result differs from it. */
  lemma {:induction false} CountIsOfChanges(white: White, s: Bytes)
    requires 95 !in s && 32 !in s
    ensures Count(white, s) == Differences(s, Replaced(white, s))
    decreases |s|
  {
    if s != [] {
      var n := TokenLength(white, s);
      hide TokenLength;
      if n > 0 {
        CountIsOfChanges(white, Rest(s, n));
        assert s == s[..n] + Rest(s, n);
        DifferencesBehind(s[..n], Rest(s, n), Replaced(white, Rest(s, n)));
      } else {
        CountIsOfChanges(white, Rest(s, 1));
        assert Replaced(white, s)[1..] == Replaced(white, Rest(s, 1));
        assert s[0] in s;
      }
    }
  }

  /** What is allowed: a byte of the list, an ASCII letter or digit, a backslash with an x, or a character
      of more than one byte. */
  lemma TokensAre(white: White, t: seq<Byte>)
    ensures AllowedToken(white, t) <==>
      || (|t| == 1 && white.Some? && t[0] in white.value)
      || (|t| == 1 && ('0' as int <= t[0] <= '9' as int || 'A' as int <= t[0] <= 'Z' as int || 'a' as int <= t[0] <= 'z' as int))
      || (|t| == 2 && t[0] == '\\' as int && t[1] == 'x' as int)
      || exists u: nat :: 0x80 <= u && Accepted(u) && t == Encoding(u)
  {
    hide Encoding;
    if exists u: nat :: 0x80 <= u && Accepted(u) && t == Encoding(u) {
      var u: nat :| 0x80 <= u && Accepted(u) && t == Encoding(u);
      assert IsCharacter(t, u);
    }
  }

  // ----- What is left alone -----

  predicate AllInWhite(white: White, t: seq<Byte>) {
    forall k | 0 <= k < |t| :: InWhite(white, t[k])
  }

  /** A list with the first byte of a character has the others too. */
  ghost predicate WholeCharacters(white: White) {
    forall u: nat | 0x80 <= u && Accepted(u) :: InWhite(white, Encoding(u)[0]) ==> AllInWhite(white, Encoding(u))
  }

  lemma {:induction false} NothingCountedNothingChanged(white: White, s: Bytes)
    requires Count(white, s) == 0
    ensures Replaced(white, s) == s && Clean(white, s)
    decreases |s|
  {
    hide TokenLength, AllowedToken;
    if s != [] {
      var n := TokenLength(white, s);
      NothingCountedNothingChanged(white, Rest(s, n));
      TokenIsAllowed(white, s);
      assert s[..n] + s[n..] == s;
    }
  }

  lemma {:induction false} ListedBytesAreSkipped(white: White, s: Bytes, n: nat)
    requires n <= |s| && AllInWhite(white, s[..n])
    ensures Count(white, s) == Count(white, Rest(s, n))
    decreases |s|
  {
    if n > 0 {
      var rest := Rest(s, 1);
      assert s[..n][0] == s[0];
      assert rest[..n-1] == s[..n][1..];
      ListedBytesAreSkipped(white, rest, n - 1);
      assert Rest(rest, n - 1) == Rest(s, n);
    }
  }

  /** A hex escape is skipped, byte by byte if the list has the backslash. */
  lemma EscapeIsSkipped(white: White, s: Bytes)
    requires [BACKSLASH, LETTER_X] <= s
    ensures Count(white, s) == Count(white, Rest(s, 2))
  {
    assert s[0] == BACKSLASH && s[1] == LETTER_X;
    var rest := Rest(s, 1);
    assert rest[0] == LETTER_X && Rest(rest, 1) == Rest(s, 2);
    assert TokenLength(white, rest) == 1;
  }

  /** An allowed token at the front is skipped. */
  lemma AllowedTokenIsSkipped(white: White, s: Bytes, n: nat)
    requires WholeCharacters(white) && 0 < n <= |s| && AllowedToken(white, s[..n])
    ensures Count(white, s) == Count(white, Rest(s, n))
  {
    var t := s[..n];
    assert t[0] == s[0];
    if u: nat :| IsCharacter(t, u) {
      EncodingsAreAccepted(s, u);
      EncodingsAreWellFormed(u);
      if InWhite(white, s[0]) {
        ListedBytesAreSkipped(white, s, n);
      }
    } else if t == [BACKSLASH, LETTER_X] {
      EscapeIsSkipped(white, s);
    }
  }

  lemma {:induction false} CleanCountsNothing(white: White, s: Bytes)
    requires WholeCharacters(white) && Clean(white, s)
    ensures Count(white, s) == 0
    decreases |s|
  {
    hide TokenLength, AllowedToken, WholeCharacters;
    if s != [] {
      var n :| 0 < n <= |s| && AllowedToken(white, s[..n]) && Clean(white, s[n..]);
      AllowedTokenIsSkipped(white, s, n);
      CleanCountsNothing(white, Rest(s, n));
    }
  }

  /** With such a list nothing is replaced exactly if the string is made of allowed tokens. */
  lemma CleanStringsAreKept(white: White, s: Bytes)
    requires WholeCharacters(white)
    ensures Count(white, s) == 0 <==> Clean(white, s)
    ensures Clean(white, s) ==> Replaced(white, s) == s
  {
    if Clean(white, s) {
      CleanCountsNothing(white, s);
    }
    if Count(white, s) == 0 {
      NothingCountedNothingChanged(white, s);
    }
  }

  /** Bytes that can only continue a character are kept exactly if the list has them. */
  lemma {:induction false} ContinuationsAreCounted(white: White, s: Bytes)
    requires forall k | 0 <= k < |s| :: Continues(s[k])
    ensures Count(white, s) == 0 <==> AllInWhite(white, s)
    decreases |s|
  {
    if s != [] {
      assert Continues(s[0]) && EncodedExpectedLen(s[0]) == 0;
      var rest := Rest(s, 1);
      assert forall k | 0 <= k < |rest| :: rest[k] == s[k + 1];
      ContinuationsAreCounted(white, rest);
      if AllInWhite(white, rest) && InWhite(white, s[0]) {
        assert forall k | 0 < k < |s| :: s[k] == rest[k - 1];
      }
    }
  }

  /** A character whose first byte is in the list without the others is torn apart. */
  lemma SplitCharacterIsCounted(white: White, u: nat)
    requires 0x80 <= u && Accepted(u)
    requires InWhite(white, Encoding(u)[0]) && !AllInWhite(white, Encoding(u))
    ensures 0 !in Encoding(u) && Clean(white, Encoding(u)) && Count(white, Encoding(u)) > 0
  {
    EncodingsAreWellFormed(u);
    var e: Bytes := Encoding(u);
    assert IsCharacter(e[..|e|], u) && e[|e|..] == [];
    hide Encoding, Accepted;
    var k :| 0 <= k < |e| && !InWhite(white, e[k]);
    var rest := Rest(e, 1);
    assert forall j | 0 <= j < |rest| :: rest[j] == e[j + 1];
    assert rest[k-1] == e[k];
    ContinuationsAreCounted(white, rest);
  }

  /** Every string made of allowed tokens is left alone exactly if the list has whole characters. */
  lemma CleanStringsAreKeptIff(white: White)
    ensures (forall s: Bytes :: Clean(white, s) ==> Count(white, s) == 0) <==> WholeCharacters(white)
  {
    if WholeCharacters(white) {
      forall s: Bytes | Clean(white, s)
        ensures Count(white, s) == 0
      {
        CleanCountsNothing(white, s);
      }
    } else {
      var u: nat :| 0x80 <= u && Accepted(u) && InWhite(white, Encoding(u)[0]) && !AllInWhite(white, Encoding(u));
      SplitCharacterIsCounted(white, u);
    }
  }

  /** All lists of the program are of ASCII characters. */
  lemma AsciiListsHaveWholeCharacters(white: White)
    requires white.Some? ==> forall c | c in white.value :: c < 0x80
    ensures WholeCharacters(white)
  {
    forall u: nat | 0x80 <= u && Accepted(u)
      ensures !InWhite(white, Encoding(u)[0])
    {
      EncodingsAreWellFormed(u);
    }
  }
}
