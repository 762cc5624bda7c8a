/** Relative link targets and their resolution, and the encoding of a path into one file name. */
module Paths {
  import opened CStrings

  // ----- Building a relative target -----

  /** The length of the longest common prefix. */
  function Common(a: string, b: string): (n: nat)
    ensures n <= |a| && n <= |b| && a[..n] == b[..n]
    ensures n < |a| && n < |b| ==> a[n] != b[n]
  {
    if a == "" || b == "" || a[0] != b[0] then 0
    else
      var n := 1 + Common(a[1..], b[1..]);
      assert a[..n] == [a[0]] + a[1..][..n-1] && b[..n] == [b[0]] + b[1..][..n-1];
      n
  }

  /** One past the last slash, or 0. */
  function Tail(s: string): (n: nat)
    ensures n <= |s| && (n > 0 ==> s[n-1] == '/') && forall i | n <= i < |s| :: s[i] != '/'
  {
    if s == "" then 0 else if s[|s|-1] == '/' then |s| else Tail(s[..|s|-1])
  }

  function Slashes(s: string): nat {
    if s == "" then 0 else (if s[0] == '/' then 1 else 0) + Slashes(s[1..])
  }

  function Ups(n: nat): string {
    if n == 0 then "" else "../" + Ups(n - 1)
  }

  /** The part of the node's path below the deepest directory it shares with the link. */
  function Below(node: CString, slink: CString): string {
    node[Tail(node[..Common(node, slink)])..]
  }

  function Target(node: CString, slink: CString): string {
    Ups(Slashes(slink[Common(node, slink)..])) + Below(node, slink)
  }

  method RelativeTarget(node: CString, slink: CString) returns (target: string)
    ensures target == Target(node, slink)
  {
    hide Tail, Slashes, Ups, Common;
    var i, tail := 0, 0;
    TailStep(node, 0);
    while CharAt(node, i) != '\0' && CharAt(node, i) == CharAt(slink, i)
      invariant i <= |node| && i <= |slink| && node[..i] == slink[..i]
      invariant tail == Tail(node[..i])
      decreases |node| - i
    {
      TailStep(node, i);
      if node[i] == '/' {
        tail := i + 1;
      }
      i := i + 1;
    }
    CommonIs(node, slink, i);
    target := "";
    ghost var n := 0;
    UpsAppend(0);
    while CharAt(slink, i) != '\0'
      invariant Common(node, slink) <= i <= |slink| && target == Ups(n)
      invariant n + Slashes(slink[i..]) == Slashes(slink[Common(node, slink)..])
      decreases |slink| - i
    {
      SlashStep(slink, i);
      if slink[i] == '/' {
        UpsAppend(n);
        target := target + "../";
        n := n + 1;
      }
      i := i + 1;
    }
    SlashStep(slink, i);
    target := target + node[tail..];
  }

  lemma TailStep(s: string, i: nat)
    requires i <= |s|
    ensures Tail(s[..0]) == 0
    ensures i < |s| ==> Tail(s[..i+1]) == if s[i] == '/' then i + 1 else Tail(s[..i])
  {
  }

  lemma SlashStep(s: string, i: nat)
    requires i <= |s|
    ensures i < |s| ==> Slashes(s[i..]) == (if s[i] == '/' then 1 else 0) + Slashes(s[i+1..])
    ensures i == |s| ==> Slashes(s[i..]) == 0
  {
  }

  lemma {:induction false} UpsAppend(n: nat)
    ensures Ups(n) + "../" == Ups(n + 1) && Ups(0) == ""
  {
    if n > 0 {
      UpsAppend(n - 1);
      assert Ups(n) + "../" == "../" + (Ups(n - 1) + "../");
    } else {
      assert Ups(1) == "../" + Ups(0);
    }
  }

  lemma {:induction false} CommonIs(a: CString, b: CString, i: nat)
    requires i <= |a| && i <= |b| && a[..i] == b[..i]
    requires CharAt(a, i) == '\0' || CharAt(a, i) != CharAt(b, i)
    ensures Common(a, b) == i
  {
  }

  // ----- Resolving a relative target -----

  /** How many times the target starts with a step up. */
  function Backs(target: string): (n: nat)
    ensures 3 * n <= |target|
  {
    if "../" <= target then 1 + Backs(target[3..]) else 0
  }

  /** Cut the path at its last slash, n times. */
  function Strip(path: string, n: nat): Option<string> {
    if n == 0 then Some(path)
    else if Tail(path) == 0 then None
    else Strip(path[..Tail(path)-1], n - 1)
  }

  function Resolve(path: string, target: string): Option<string> {
    var back := Backs(target);
    Join(Strip(path, back + 1), target[3 * back..])
  }

  function Join(dir: Option<string>, name: string): Option<string> {
    if dir.None? then None else Some(dir.value + "/" + name)
  }

  method ResolveLink(path: string, target: string) returns (r: Option<string>)
    ensures r == Resolve(path, target)
  {
    var back := 0;
    while "../" <= target[3 * back..]
      invariant 3 * back <= |target| && Backs(target) == back + Backs(target[3 * back..])
      decreases |target| - 3 * back
    {
      assert target[3 * back..][3..] == target[3 * (back + 1)..];
      back := back + 1;
    }
    var devpath := path;
    for i := 0 to back + 1
      invariant Strip(path, back + 1) == Strip(devpath, back + 1 - i)
    {
      var pos := Tail(devpath);
      if pos == 0 {
        return None;
      }
      devpath := devpath[..pos-1];
    }
    r := Some(devpath + "/" + target[3 * back..]);
  }

  // ----- Resolution undoes construction -----

  lemma {:induction false} TailAppend(dir: string, rest: string)
    ensures Tail(dir + "/" + rest) == |dir| + 1 + Tail(rest)
  {
    var s := dir + "/" + rest;
    if rest != "" {
      var cut := rest[..|rest|-1];
      assert s[..|s|-1] == dir + "/" + cut;
      TailAppend(dir, cut);
    }
  }

  lemma {:induction false} SlashesSplit(a: string, b: string)
    ensures Slashes(a + b) == Slashes(a) + Slashes(b)
  {
    if a == "" {
      assert a + b == b;
    } else {
      assert (a + b)[1..] == a[1..] + b;
      SlashesSplit(a[1..], b);
    }
  }

  lemma {:induction false} NoSlashes(s: string)
    ensures Slashes(s) == 0 <==> Tail(s) == 0
    ensures Tail(s) > 0 ==> Slashes(s[..Tail(s)-1]) == Slashes(s) - 1
  {
    if s != "" {
      var n := |s| - 1;
      NoSlashes(s[..n]);
      assert s == s[..n] + [s[n]];
      SlashesSplit(s[..n], [s[n]]);
      if s[n] != '/' && Tail(s) > 0 {
        assert s[..n][..Tail(s)-1] == s[..Tail(s)-1];
      }
    }
  }

  /** Stripping once more than the slashes of the rest leaves the directory. */
  lemma {:induction false} StripToDir(dir: string, rest: string)
    ensures Strip(dir + "/" + rest, Slashes(rest) + 1) == Some(dir)
    decreases |rest|
  {
    var s := dir + "/" + rest;
    TailAppend(dir, rest);
    NoSlashes(rest);
    if Slashes(rest) == 0 {
      assert s[..Tail(s)-1] == dir;
    } else {
      var cut := rest[..Tail(rest)-1];
      assert s[..Tail(s)-1] == dir + "/" + cut;
      StripToDir(dir, cut);
    }
  }

  lemma {:induction false} BacksOfUps(n: nat, rest: string)
    ensures Backs(Ups(n) + rest) == n + Backs(rest)
    ensures |Ups(n)| == 3 * n
  {
    if n == 0 {
      assert Ups(0) + rest == rest;
    } else {
      BacksOfUps(n - 1, rest);
      assert Ups(n) + rest == "../" + (Ups(n - 1) + rest);
    }
  }

  lemma {:induction false} StripShortens(path: string, n: nat)
    ensures Strip(path, n).Some? ==> |Strip(path, n).value| + n <= |path|
    decreases n
  {
    if n > 0 && Tail(path) > 0 {
      StripShortens(path[..Tail(path)-1], n - 1);
    }
  }

  lemma {:induction false} StripTwice(path: string, m: nat, n: nat, mid: string)
    requires Strip(path, m) == Some(mid)
    ensures Strip(path, m + n) == Strip(mid, n)
    decreases m
  {
    if m > 0 {
      StripTwice(path[..Tail(path)-1], m - 1, n, mid);
    }
  }

  /** How the two paths divide at the deepest directory they share. */
  lemma SharedDirectory(node: CString, slink: CString) returns (dir: string, rest: string)
    requires node != "" && slink != "" && node[0] == '/' && slink[0] == '/'
    ensures node == dir + "/" + Below(node, slink)
    ensures slink == dir + "/" + rest && Slashes(rest) == Slashes(slink[Common(node, slink)..])
  {
    var c := Common(node, slink);
    var tail := Tail(node[..c]);
    assert node[..c][0] == '/';
    dir, rest := node[..tail-1], slink[tail..];
    assert node[tail-1] == '/' && node == dir + "/" + node[tail..];
    assert slink[..tail] == slink[..c][..tail] == node[..c][..tail] == node[..tail];
    assert node[..tail] == dir + "/";
    assert slink == slink[..tail] + rest;
    assert rest == slink[tail..c] + slink[c..];
    SlashesSplit(slink[tail..c], slink[c..]);
    var mid := slink[tail..c];
    assert forall i | 0 <= i < |mid| :: mid[i] == slink[..c][tail + i] == node[..c][tail + i];
    assert Tail(mid) == 0;
    NoSlashes(mid);
  }

  lemma DropPrefix(a: string, b: string, k: nat)
    requires k <= |b|
    ensures (a + b)[|a| + k..] == b[k..]
  {
  }

  lemma Resolved(path: string, target: string, n: nat, below: string)
    requires target == Ups(n) + below
    ensures var back := n + Backs(below);
      3 * Backs(below) <= |below| &&
      Resolve(path, target) == Join(Strip(path, back + 1), below[3 * Backs(below)..])
  {
    hide Strip, Join, Ups, Backs;
    BacksOfUps(n, below);
    DropPrefix(Ups(n), below, 3 * Backs(below));
  }

  /** For all absolute paths, resolving the relative target from the link's own path gives the
      node back, exactly if the node's path does not go up right below the shared directory. */
  lemma ResolveUndoesTarget(node: CString, slink: CString)
    requires node != "" && slink != "" && node[0] == '/' && slink[0] == '/'
    ensures Resolve(slink, Target(node, slink)) == Some(node) <==> !("../" <= Below(node, slink))
  {
    hide Strip, Resolve, Below, Common, Tail, Ups;
    var dir, rest := SharedDirectory(node, slink);
    var below, n := Below(node, slink), Slashes(rest);
    hide Slashes;
    StripToDir(dir, rest);
    Resolved(slink, Target(node, slink), n, below);
    if "../" <= below {
      StripTwice(slink, n + 1, Backs(below), dir);
      StripShortens(dir, Backs(below));
    } else {
      assert below[0..] == below;
    }
  }

  lemma SharedDev()
    ensures Common("/dev/../a", "/dev/b") == 5 && Below("/dev/../a", "/dev/b") == "../a"
  {
    var node, slink := "/dev/../a", "/dev/b";
    assert node[..5] == slink[..5];
    CommonIs(node, slink, 5);
    TailAppend("/dev", "");
    assert node[..5] == "/dev" + "/" + "";
    hide Common;
    assert Tail("") == 0;
  }

  lemma StripDev()
    ensures Strip("/dev/b", 2) == Some("")
  {
    StripToDir("", "dev/b");
    assert "" + "/" + "dev/b" == "/dev/b";
    SlashesSplit("dev", "/b");
    assert "dev" + "/b" == "dev/b";
    hide Strip;
    NoSlash("dev");
    assert "/b"[1..] == "b";
    NoSlash("b");
    assert Slashes("/b") == 1;
  }

  lemma {:induction false} NoSlash(s: string)
    requires '/' !in s
    ensures Slashes(s) == 0
  {
    if s != "" {
      NoSlash(s[1..]);
    }
  }

  lemma BacksOfUp()
    ensures Backs("../a") == 1 && "../a"[3..] == "a"
  {
    assert "../a"[3..] == "a";
    assert !("../" <= "a");
    assert "../" <= "../a";
  }

  lemma TargetOfUp()
    ensures Target("/dev/../a", "/dev/b") == Ups(0) + "../a"
  {
    SharedDev();
    NoSlash("b");
    assert "/dev/b"[5..] == "b";
    hide Common, Below, Slashes, Ups;
  }

  /** A node path that goes up right below the shared directory is not given back. */
  lemma NodeThatGoesUp()
    ensures Below("/dev/../a", "/dev/b") == "../a"
    ensures Resolve("/dev/b", Target("/dev/../a", "/dev/b")) == Some("/a")
  {
    assert "" + "/" + "a" == "/a" && Join(Some(""), "a") == Some("" + "/" + "a");
    hide *;
    SharedDev();
    StripDev();
    BacksOfUp();
    TargetOfUp();
    Resolved("/dev/b", Target("/dev/../a", "/dev/b"), 0, "../a");
  }

  /** A component of two dots starts after the slash at i. */
  predicate UpAt(path: string, i: nat) {
    i + 4 <= |path| && path[i..i+4] == "/../"
  }

  /** In particular it does so for every node path without a component of two dots. */
  lemma ResolveUndoesTargetOfPlain(node: CString, slink: CString)
    requires node != "" && slink != "" && node[0] == '/' && slink[0] == '/'
    requires forall i: nat :: !UpAt(node, i)
    ensures Resolve(slink, Target(node, slink)) == Some(node)
  {
    var dir, _ := SharedDirectory(node, slink);
    ResolveUndoesTarget(node, slink);
    UpBelow(dir, Below(node, slink));
    assert !UpAt(node, |dir|);
  }

  lemma UpBelow(dir: string, below: string)
    ensures "../" <= below ==> UpAt(dir + "/" + below, |dir|)
  {
  }

  // ----- Encoding a path into a file name -----

  function EncodeChar(c: char): string {
    if c == '/' then "\\x2f" else if c == '\\' then "\\x5c" else [c]
  }

  function Encode(s: string): string {
    if s == "" then "" else EncodeChar(s[0]) + Encode(s[1..])
  }

  function Decode(t: string): string {
    if t == "" then ""
    else if "\\x2f" <= t then "/" + Decode(t[4..])
    else if "\\x5c" <= t then "\\" + Decode(t[4..])
    else [t[0]] + Decode(t[1..])
  }

  /** The characters before the terminator. */
  function Contents(buf: seq<char>): CString {
    if buf == [] || buf[0] == '\0' then "" else [buf[0]] + Contents(buf[1..])
  }

  lemma {:induction false} ContentsIs(buf: seq<char>, n: nat)
    requires n < |buf| && buf[n] == '\0' && forall i | 0 <= i < n :: buf[i] != '\0'
    ensures Contents(buf) == buf[..n]
  {
    if n > 0 {
      ContentsIs(buf[1..], n - 1);
      assert buf[..n] == [buf[0]] + buf[1..][..n-1];
    } else {
      assert buf[..0] == "";
    }
  }

  lemma {:induction false} ContentsEnds(buf: seq<char>)
    requires '\0' in buf
    ensures var n := |Contents(buf)|; n < |buf| && buf[n] == '\0' && buf[..n] == Contents(buf)
  {
    if buf[0] != '\0' {
      ContentsEnds(buf[1..]);
      var n := |Contents(buf)|;
      assert buf[..n] == [buf[0]] + buf[1..][..n-1];
    }
  }

  lemma EncodeStep(t: string, text: string, i: nat)
    requires i < |text|
    ensures t + EncodeChar(text[i]) + Encode(text[i+1..]) == t + Encode(text[i..])
  {
    assert text[i..][1..] == text[i+1..];
  }

  /** path_encode: the encoded length; the buffer holds the encoded string, or as much of it
      as fits, without a terminator. */
  method PathEncode(s: array<char>) returns (j: nat)
    requires '\0' in s[..]
    modifies s
    ensures var e := Encode(old(Contents(s[..])));
      && j == |e|
      && (j < s.Length ==> s[..j] == e && forall k | j <= k < s.Length :: s[k] == '\0')
      && (j >= s.Length ==> s[..] == e[..s.Length])
  {
    ghost var text := Contents(s[..]);
    ContentsEnds(s[..]);
    hide Encode, Contents;
    assert text[0..] == text;
    var t := "";
    var i := 0;
    while s[i] != '\0'
      invariant i <= |text| < s.Length && t + Encode(text[i..]) == Encode(text)
      invariant forall k | 0 <= k < |text| :: s[k] == text[k]
      invariant s[|text|] == '\0'
      decreases |text| - i
    {
      EncodeStep(t, text, i);
      if s[i] == '/' {
        t := t + "\\x2f";
      } else if s[i] == '\\' {
        t := t + "\\x5c";
      } else {
        t := t + [s[i]];
      }
      i := i + 1;
    }
    EncodeEnd(t, text[i..]);
    j := |t|;
    StrNCpy(s, t);
  }

  lemma EncodeEnd(t: string, rest: string)
    ensures rest == "" ==> t + Encode(rest) == t
  {
  }

  /** strncpy: copy, and fill up with terminators. */
  method StrNCpy(s: array<char>, t: string)
    modifies s
    ensures |t| < s.Length ==> s[..|t|] == t && forall k | |t| <= k < s.Length :: s[k] == '\0'
    ensures |t| >= s.Length ==> s[..] == t[..s.Length]
  {
    for k := 0 to s.Length
      invariant forall m | 0 <= m < k :: s[m] == if m < |t| then t[m] else '\0'
    {
      s[k] := if k < |t| then t[k] else '\0';
    }
  }

  /** How far decoding in place has come: the first j characters are done, those from i on are
      still to be read. */
  predicate Decoding(buf: seq<char>, text: CString, i: nat, j: nat) {
    j <= i <= |text| < |buf| && buf[|text|] == '\0'
    && (forall k | i <= k < |text| :: buf[k] == text[k])
    && buf[..j] + Decode(text[i..]) == Decode(text)
  }

  /** The array is at a turn of the loop. */
  predicate InTurn(s: array<char>, text: CString, i: nat, j: nat)
    reads s
  {
    Decoding(s[..], text, i, j)
  }

  /** What the loop reads at i: the character to write, and how many are read. */
  method ReadOne(s: array<char>, i: nat, ghost j: nat, ghost text: CString) returns (c: char, w: nat)
    requires InTurn(s, text, i, j) && i < |text|
    ensures 1 <= w && i + w <= |text| && [c] + Decode(text[i+w..]) == Decode(text[i..])
  {
    DecodingAt(s[..], text, i, j);
    DecodeStep(s[..], text, i, j);
    hide *;
    c, w := s[i], 1;
    if FourAt(s[..], i, "\\x2f") {
      c, w := '/', 4;
    } else if FourAt(s[..], i, "\\x5c") {
      c, w := '\\', 4;
    }
  }

  method WriteOne(s: array<char>, ghost i: nat, j: nat, c: char, ghost w: nat, ghost text: CString)
    requires InTurn(s, text, i, j) && 1 <= w && i + w <= |text| && j < s.Length
    requires [c] + Decode(text[i+w..]) == Decode(text[i..])
    modifies s
    ensures InTurn(s, text, i + w, j + 1)
  {
    DecodeWrite(s[..], text, i, j, c, w);
    hide Decoding, Decode;
    ghost var buf := s[..];
    s[j] := c;
    assert s[..] == buf[j := c];
  }

  method Turn(s: array<char>, i: nat, j: nat, ghost text: CString) returns (next: nat)
    requires InTurn(s, text, i, j) && i < |text|
    modifies s
    ensures InTurn(s, text, next, j + 1) && i < next <= |text|
  {
    TurnAt(s, text, i, j);
    hide *;
    var c, w := ReadOne(s, i, j, text);
    WriteOne(s, i, j, c, w, text);
    next := i + w;
  }

  lemma TurnAt(s: array<char>, text: CString, i: nat, j: nat)
    requires InTurn(s, text, i, j)
    ensures j <= i <= |text| < s.Length && (s[i] == '\0' <==> i == |text|)
    ensures i == |text| ==> s[..j] == Decode(text)
  {
    DecodingAt(s[..], text, i, j);
    assert s[..][..j] == s[..j];
  }

  /** path_decode, in place: what is written never overtakes what is read. */
  method PathDecode(s: array<char>) returns (j: nat)
    requires '\0' in s[..]
    modifies s
    ensures j < s.Length && s[..j] == Decode(old(Contents(s[..]))) && s[j] == '\0'
  {
    ghost var text := Contents(s[..]);
    DecodingStarts(s[..]);
    var i := 0;
    j := 0;
    assert InTurn(s, text, i, j);
    hide *;
    TurnAt(s, text, i, j);
    while s[i] != '\0'
      invariant j <= i <= |text| < s.Length && InTurn(s, text, i, j)
      invariant s[i] == '\0' <==> i == |text|
      decreases |text| - i
    {
      i := Turn(s, i, j, text);
      j := j + 1;
      TurnAt(s, text, i, j);
    }
    TurnAt(s, text, i, j);
    s[j] := '\0';
  }

  lemma DecodingStarts(buf: seq<char>)
    requires '\0' in buf
    ensures |Contents(buf)| < |buf| && Decoding(buf, Contents(buf), 0, 0)
  {
  }

  /** The reader meets the terminator exactly at the end of the text, and then all is decoded. */
  lemma DecodingAt(buf: seq<char>, text: CString, i: nat, j: nat)
    requires i <= |text| < |buf| && Decoding(buf, text, i, j)
    ensures j <= i && (buf[i] == '\0' <==> i == |text|)
    ensures i < |text| ==> buf[i] == text[i]
    ensures i == |text| ==> buf[..j] == Decode(text)
  {
  }

  lemma DecodeWrite(buf: seq<char>, text: CString, i: nat, j: nat, c: char, w: nat)
    requires Decoding(buf, text, i, j) && 1 <= w && i + w <= |text|
    requires [c] + Decode(text[i+w..]) == Decode(text[i..])
    ensures Decoding(buf[j := c], text, i + w, j + 1)
  {
    hide Decode;
    assert buf[j := c][..j+1] == buf[..j] + [c];
    assert buf[..j] + [c] + Decode(text[i+w..]) == buf[..j] + ([c] + Decode(text[i+w..]));
  }

  /** What the reader does at i is one step of Decode. */
  lemma DecodeStep(buf: seq<char>, text: CString, i: nat, j: nat)
    requires i < |text| < |buf| && Decoding(buf, text, i, j)
    ensures FourAt(buf, i, "\\x2f") ==> i + 4 <= |text| && ['/'] + Decode(text[i+4..]) == Decode(text[i..])
    ensures FourAt(buf, i, "\\x5c") ==> i + 4 <= |text| && ['\\'] + Decode(text[i+4..]) == Decode(text[i..])
    ensures !FourAt(buf, i, "\\x2f") && !FourAt(buf, i, "\\x5c") ==>
      [buf[i]] + Decode(text[i+1..]) == Decode(text[i..])
  {
    SameFour(buf, text, i, "\\x2f");
    SameFour(buf, text, i, "\\x5c");
    var rest := text[i..];
    assert rest[1..] == text[i+1..];
    if |rest| >= 4 {
      assert rest[4..] == text[i+4..];
      Apart(rest);
    }
  }

  lemma Apart(t: string)
    ensures !("\\x2f" <= t && "\\x5c" <= t)
  {
    assert "\\x2f"[2] != "\\x5c"[2];
  }

  /** memcmp(&s[i], four, 4) == 0 */
  predicate FourAt(buf: seq<char>, i: nat, four: string) {
    i + 4 <= |buf| && buf[i..i+4] == four
  }

  /** Four characters of the buffer, none of them the terminator, are four of the text. */
  lemma SameFour(buf: seq<char>, text: CString, i: nat, four: CString)
    requires i <= |text| < |buf| && buf[|text|] == '\0' && |four| == 4
    requires forall k | i <= k < |text| :: buf[k] == text[k]
    ensures FourAt(buf, i, four) <==> four <= text[i..]
  {
  }

  // ----- The encoding -----

  /** Decoding undoes encoding, for every string. */
  lemma {:induction false} DecodeEncode(s: string)
    ensures Decode(Encode(s)) == s
  {
    if s != "" {
      DecodeEncode(s[1..]);
      DecodeChar(s[0], Encode(s[1..]));
    }
  }

  lemma DecodeChar(c: char, e: string)
    ensures Decode(EncodeChar(c) + e) == [c] + Decode(e)
  {
    var t := EncodeChar(c) + e;
    assert t[|EncodeChar(c)|..] == e;
    if c == '/' {
      assert t[..4] == "\\x2f";
    } else if c == '\\' {
      assert t[..4] == "\\x5c";
      Apart(t);
    } else {
      assert t[0] != '\\';
    }
  }

  /** An encoded path is a single component. */
  lemma {:induction false} EncodedHasNoSlash(s: string)
    ensures '/' !in Encode(s)
    ensures '\0' !in s ==> '\0' !in Encode(s)
  {
    if s != "" {
      EncodedHasNoSlash(s[1..]);
    }
  }

  /** Different paths get different names. */
  lemma EncodeIsInjective(a: string, b: string)
    ensures Encode(a) == Encode(b) <==> a == b
  {
    DecodeEncode(a);
    DecodeEncode(b);
  }

  /** A path that fits is found again in its buffer after being encoded and decoded in place. */
  method EncodeThenDecode(s: array<char>)
    requires '\0' in s[..] && |Encode(Contents(s[..]))| < s.Length
    modifies s
    ensures Contents(s[..]) == old(Contents(s[..]))
  {
    ghost var text := Contents(s[..]);
    EncodedHasNoSlash(text);
    DecodeEncode(text);
    var j := PathEncode(s);
    assert s[..][j] == '\0';
    assert forall k | 0 <= k < j :: s[..][k] == s[..j][k];
    ContentsIs(s[..], j);
    assert s[..][..j] == s[..j];
    j := PathDecode(s);
    assert forall k | 0 <= k < j :: s[..][k] == s[..j][k];
    ContentsIs(s[..], j);
    assert s[..][..j] == s[..j];
  }

  /** A slash and a backslash are written as escapes, everything else as it is. */
  lemma {:induction false} EncodeParts(a: string, b: string, c: char)
    ensures Encode(a + b) == Encode(a) + Encode(b)
    ensures Encode("/") == "\\x2f" && Encode("\\") == "\\x5c" && Encode("") == ""
    ensures c != '/' && c != '\\' ==> Encode([c]) == [c]
  {
    if a == "" {
      assert a + b == b;
    } else {
      assert (a + b)[1..] == a[1..] + b;
      EncodeParts(a[1..], b, c);
    }
    OneEncoded('/');
    OneEncoded('\\');
    OneEncoded(c);
  }

  lemma OneEncoded(c: char)
    ensures Encode([c]) == EncodeChar(c) && Encode("") == ""
  {
    assert [c][1..] == "" && EncodeChar(c) + "" == EncodeChar(c);
  }

  /** A string without these two escapes is decoded to itself. */
  lemma {:induction false} DecodeKeepsOthers(t: string)
    requires forall i: nat :: !FourAt(t, i, "\\x2f") && !FourAt(t, i, "\\x5c")
    ensures Decode(t) == t
  {
    if t != "" {
      NotInFront(t, "\\x2f");
      NotInFront(t, "\\x5c");
      forall i: nat
        ensures !FourAt(t[1..], i, "\\x2f") && !FourAt(t[1..], i, "\\x5c")
      {
        FourInRest(t, i, "\\x2f");
        FourInRest(t, i, "\\x5c");
      }
      hide FourAt;
      DecodeKeepsOthers(t[1..]);
    }
  }

  lemma NotInFront(t: string, four: string)
    requires |four| == 4 && !FourAt(t, 0, four)
    ensures !(four <= t)
  {
    if |t| >= 4 {
      assert t[0..0+4] == t[..4];
    }
  }

  lemma FourInRest(t: string, i: nat, four: string)
    requires t != ""
    ensures FourAt(t[1..], i, four) ==> FourAt(t, i + 1, four)
  {
    if i + 4 <= |t[1..]| {
      assert t[1..][i..i+4] == t[i+1..i+1+4];
    }
  }

  // ----- What resolving means -----

  lemma {:induction false} TailIs(dir: string, name: string)
    requires '/' !in name
    ensures Tail(dir + "/" + name) == |dir| + 1
  {
    var s := dir + "/" + name;
    if name != "" {
      assert s[..|s|-1] == dir + "/" + name[..|name|-1];
      TailIs(dir, name[..|name|-1]);
    }
  }

  /** A target without a step up is looked for in the directory of the link. */
  lemma ResolveHere(dir: string, name: string, target: string)
    requires '/' !in name && !("../" <= target)
    ensures Resolve(dir + "/" + name, target) == Some(dir + "/" + target)
  {
    var path := dir + "/" + name;
    TailIs(dir, name);
    assert path[..|dir|] == dir && target[0..] == target;
    assert Strip(path, 1) == Strip(dir, 0);
  }

  /** A step up is a target of a link one directory higher. */
  lemma ResolveUp(dir: string, sub: string, name: string, target: string)
    requires '/' !in sub && '/' !in name
    ensures Resolve(dir + "/" + sub + "/" + name, "../" + target) == Resolve(dir + "/" + name, target)
  {
    var path, path1, up := dir + "/" + sub + "/" + name, dir + "/" + name, "../" + target;
    assert path == (dir + "/" + sub) + "/" + name;
    TailIs(dir + "/" + sub, name);
    TailIs(dir, sub);
    TailIs(dir, name);
    assert path[..|dir + "/" + sub|] == dir + "/" + sub && (dir + "/" + sub)[..|dir|] == dir && path1[..|dir|] == dir;
    assert up[3..] == target && Backs(up) == 1 + Backs(target);
    var n := Backs(target);
    assert up[3 * (n + 1)..] == target[3 * n..];
    assert Strip(path, n + 2) == Strip(dir + "/" + sub, n + 1) == Strip(dir, n) == Strip(path1, n + 1);
  }

  /** The target goes up once for every directory between the link and the directory it shares with the
      node, and down from there to the node. */
  lemma TargetIs(dir: CString, below: CString, rest: CString)
    requires below != "" && rest != "" && below[0] != rest[0]
    ensures Target(dir + "/" + below, dir + "/" + rest) == Ups(Slashes(rest)) + below
  {
    var node, slink: CString := dir + "/" + below, dir + "/" + rest;
    var n := |dir| + 1;
    assert node[..n] == dir + "/" == slink[..n] && node[n] == below[0] && slink[n] == rest[0];
    CommonIs(node, slink, n);
    TailIs(dir, "");
    assert dir + "/" + "" == dir + "/";
    assert node[n..] == below && slink[n..] == rest;
    hide Common, Tail;
  }
}
