/** How the device database stores a device: as a bare link or as a file of tagged lines,
    and how it reads the file back. */
module Records {
  import opened CStrings
  import opened Decimal
  import opened NameList

  const PATH_SIZE := 512
  const NAME_SIZE := 256

  datatype Devt = Devt(major: nat, minor: nat)

  /** The part of struct udevice that concerns the database. */
  datatype Device = Device(
    name: string, symlinks: seq<string>, devt: Devt, priority: int,
    partitions: int, ignoreRemove: bool, env: seq<string>)

  const BLANK := Device("", [], Devt(0, 0), 0, 0, false, [])

  datatype DbFile = NameLink(target: string) | Text(content: string)

  // ----- Writing -----

  predicate NothingInteresting(u: Device) {
    u.symlinks == [] && u.env == [] && u.partitions == 0 && !u.ignoreRemove
  }

  function Tagged(tag: char, values: seq<string>): (lines: seq<string>)
    ensures |lines| == |values| && forall i | 0 <= i < |lines| :: lines[i] == [tag, ':'] + values[i]
  {
    seq(|values|, i requires 0 <= i < |values| => [tag, ':'] + values[i])
  }

  function NumberLine(tag: char, value: nat): seq<string> {
    if value == 0 then [] else [[tag, ':'] + Print(value)]
  }

  function Lines(u: Device): seq<string> {
    ["N:" + u.name]
    + Tagged('S', u.symlinks)
    + ["M:" + Print(u.devt.major) + ":" + Print(u.devt.minor)]
    + NumberLine('L', ToUnsigned(u.priority))
    + NumberLine('A', ToUnsigned(u.partitions))
    + NumberLine('R', if u.ignoreRemove then 1 else 0)
    + Tagged('E', u.env)
  }

  function Join(lines: seq<string>): string {
    if lines == [] then "" else lines[0] + "\n" + Join(lines[1..])
  }

  function Save(u: Device): DbFile {
    if NothingInteresting(u) then NameLink(u.name) else Text(Join(Lines(u)))
  }

  // ----- Reading -----

  /** The end of the line that starts at cur: the next newline that no backslash escapes. */
  function LineEnd(buf: string, cur: nat, escape: bool): (e: nat)
    requires cur <= |buf|
    ensures cur <= e <= |buf|
    decreases |buf| - cur
  {
    if cur == |buf| || (!escape && buf[cur] == '\n') then cur
    else LineEnd(buf, cur + 1, buf[cur] == '\\')
  }

  method BufGetLine(buf: string, cur: nat) returns (count: nat)
    requires cur <= |buf|
    ensures cur + count == LineEnd(buf, cur, false)
  {
    var escape := false;
    var at := cur;
    while at < |buf|
      invariant cur <= at <= |buf|
      invariant LineEnd(buf, cur, false) == LineEnd(buf, at, escape)
    {
      if !escape && buf[at] == '\n' {
        break;
      }
      escape := buf[at] == '\\';
      at := at + 1;
    }
    count := at - cur;
  }

  /** The value of a tagged line, cut to the size of the buffer it is copied to. */
  function Field(line: string): string {
    var count := if |line| > PATH_SIZE then PATH_SIZE else |line|;
    if count < 2 then "" else line[2..count]
  }

  /** sscanf of two unsigned numbers with a colon between them. */
  function ParseDevt(s: string): Option<Devt> {
    var a := DigitSpan(s);
    if a == 0 || a == |s| || s[a] != ':' then None
    else
      var t := s[a+1..];
      var b := DigitSpan(t);
      if b == 0 then None else Some(Devt(Value(s[..a]), Value(t[..b])))
  }

  function ParseLine(u: Device, line: string): Device {
    if line == "" then u
    else
      var field := Field(line);
      match line[0]
      case 'N' => u.(name := field)
      case 'M' => (match ParseDevt(field) case Some(devt) => u.(devt := devt) case None => u)
      case 'S' => u.(symlinks := Add(u.symlinks, field, false))
      case 'L' => u.(priority := Atoi(field))
      case 'A' => u.(partitions := Atoi(field))
      case 'R' => u.(ignoreRemove := Atoi(field) != 0)
      case 'E' => u.(env := Add(u.env, field, false))
      case _ => u
  }

  /** Parse the lines of buf from position cur on. */
  function ParseFrom(u: Device, buf: string, cur: nat): Device
    decreases |buf| - cur
  {
    if cur >= |buf| then u
    else
      var e := LineEnd(buf, cur, false);
      ParseFrom(ParseLine(u, buf[cur..e]), buf, e + 1)
  }

  function Load(file: DbFile): Option<Device> {
    match file
    case NameLink(target) => if target == "" then None else Some(BLANK.(name := target))
    case Text(content) =>
      var u := ParseFrom(BLANK, content, 0);
      if u.name == "" then None else Some(u)
  }

  method ParseRecordLine(u: Device, line: string) returns (r: Device)
    ensures r == ParseLine(u, line)
  {
    r := u;
    if line == "" {
      return;
    }
    var field := Field(line);
    match line[0] {
      case 'N' => r := u.(name := field);
      case 'M' =>
        var devt := ParseDevt(field);
        if devt.Some? {
          r := u.(devt := devt.value);
        }
      case 'S' =>
        var links := NameListAdd(u.symlinks, field, false);
        r := u.(symlinks := links);
      case 'L' => r := u.(priority := Atoi(field));
      case 'A' => r := u.(partitions := Atoi(field));
      case 'R' => r := u.(ignoreRemove := Atoi(field) != 0);
      case 'E' =>
        var env := NameListAdd(u.env, field, false);
        r := u.(env := env);
      case _ =>
    }
  }

  method ParseBuffer(content: string) returns (u: Device)
    ensures u == ParseFrom(BLANK, content, 0)
  {
    u := BLANK;
    var cur := 0;
    while cur < |content|
      invariant ParseFrom(BLANK, content, 0) == ParseFrom(u, content, cur)
      decreases |content| - cur
    {
      var count := BufGetLine(content, cur);
      u := ParseRecordLine(u, content[cur..cur+count]);
      cur := cur + count + 1;
    }
  }

  // ----- The line splitter -----

  /** A line the splitter gives back whole: no newline inside, no backslash at the end. */
  predicate Clean(line: string) {
    '\n' !in line && (line != "" ==> line[|line|-1] != '\\')
  }

  /** The splitter stops at exactly the first newline that is not escaped. */
  lemma {:induction false} LineEndIsFirstBreak(buf: string, cur: nat, escape: bool)
    requires cur <= |buf|
    ensures var e := LineEnd(buf, cur, escape);
      && (e < |buf| ==> Breaks(buf, cur, escape, e))
      && (forall k | cur <= k < e :: !Breaks(buf, cur, escape, k))
    decreases |buf| - cur
  {
    if cur == |buf| || (!escape && buf[cur] == '\n') {
    } else {
      LineEndIsFirstBreak(buf, cur + 1, buf[cur] == '\\');
      var e := LineEnd(buf, cur, escape);
      forall k | cur < k <= e && k < |buf|
        ensures Breaks(buf, cur, escape, k) <==> Breaks(buf, cur + 1, buf[cur] == '\\', k)
      {
      }
    }
  }

  /** Position k holds a newline that the character before it in the line does not escape. */
  predicate Breaks(buf: string, cur: nat, escape: bool, k: nat)
    requires cur <= k < |buf|
  {
    buf[k] == '\n' && !(if k == cur then escape else buf[k-1] == '\\')
  }

  lemma CleanLineEnd(pre: string, line: string, rest: string)
    requires Clean(line)
    ensures LineEnd(pre + line + "\n" + rest, |pre|, false) == |pre| + |line|
  {
    var buf := pre + line + "\n" + rest;
    LineEndIsFirstBreak(buf, |pre|, false);
    var e := LineEnd(buf, |pre|, false);
    var n := |pre| + |line|;
    assert forall k | |pre| <= k < n :: buf[k] == line[k - |pre|];
    assert Breaks(buf, |pre|, false, n);
  }

  function ParseLines(u: Device, lines: seq<string>): Device
    decreases |lines|
  {
    if lines == [] then u else ParseLines(ParseLine(u, lines[0]), lines[1..])
  }

  /** Splitting undoes joining, for any clean lines. */
  lemma {:induction false} ParseJoin(u: Device, pre: string, lines: seq<string>)
    requires forall i | 0 <= i < |lines| :: Clean(lines[i])
    ensures ParseFrom(u, pre + Join(lines), |pre|) == ParseLines(u, lines)
    decreases |lines|
  {
    hide ParseLine, LineEnd;
    if lines == [] {
    } else {
      var line, rest := lines[0], Join(lines[1..]);
      var buf := pre + Join(lines);
      assert buf == pre + line + "\n" + rest;
      CleanLineEnd(pre, line, rest);
      assert buf[|pre|..|pre|+|line|] == line;
      var pre1 := pre + line + "\n";
      assert buf == pre1 + rest;
      ParseJoin(ParseLine(u, line), pre1, lines[1..]);
    }
  }

  lemma {:induction false} ParseLinesAppend(u: Device, a: seq<string>, b: seq<string>)
    ensures ParseLines(u, a + b) == ParseLines(ParseLines(u, a), b)
    decreases |a|
  {
    hide ParseLine;
    if a == [] {
      assert a + b == b;
    } else {
      ParseLinesAppend(ParseLine(u, a[0]), a[1..], b);
      assert (a + b)[1..] == a[1..] + b;
    }
  }

  // ----- The round trip -----

  /** A string a tagged line carries unharmed. */
  predicate Storable(s: string) {
    Clean(s) && |s| + 2 <= PATH_SIZE
  }

  /** What the buffers hold that a record is read into, and what a line can carry. */
  ghost predicate WellFormed(u: Device) {
    && u.name != "" && (if NothingInteresting(u) then |u.name| < NAME_SIZE else Storable(u.name))
    && (forall i | 0 <= i < |u.symlinks| :: Storable(u.symlinks[i]))
    && (forall i | 0 <= i < |u.env| :: Storable(u.env[i]))
    && NoDuplicates(u.symlinks) && NoDuplicates(u.env)
    && IsInt(u.priority) && IsInt(u.partitions)
    && u.devt.major < 0x1_0000_0000 && u.devt.minor < 0x1_0000_0000
  }

  lemma FieldOf(tag: char, value: string)
    requires |value| + 2 <= PATH_SIZE
    ensures Field([tag, ':'] + value) == value
  {
  }

  lemma {:induction false} ParseSymlinks(u: Device, links: seq<string>)
    requires NoDuplicates(u.symlinks + links)
    requires forall i | 0 <= i < |links| :: Storable(links[i])
    ensures ParseLines(u, Tagged('S', links)) == u.(symlinks := u.symlinks + links)
    decreases |links|
  {
    if links == [] {
      assert u.symlinks + links == u.symlinks;
    } else {
      FieldOf('S', links[0]);
      forall i | 0 <= i < |u.symlinks|
        ensures u.symlinks[i] != links[0]
      {
        assert (u.symlinks + links)[i] != (u.symlinks + links)[|u.symlinks|];
      }
      var u1 := u.(symlinks := u.symlinks + [links[0]]);
      assert u1.symlinks + links[1..] == u.symlinks + links;
      ParseSymlinks(u1, links[1..]);
      assert Tagged('S', links)[1..] == Tagged('S', links[1..]);
    }
  }

  lemma {:induction false} ParseEnv(u: Device, env: seq<string>)
    requires NoDuplicates(u.env + env)
    requires forall i | 0 <= i < |env| :: Storable(env[i])
    ensures ParseLines(u, Tagged('E', env)) == u.(env := u.env + env)
    decreases |env|
  {
    if env == [] {
      assert u.env + env == u.env;
    } else {
      FieldOf('E', env[0]);
      forall i | 0 <= i < |u.env|
        ensures u.env[i] != env[0]
      {
        assert (u.env + env)[i] != (u.env + env)[|u.env|];
      }
      var u1 := u.(env := u.env + [env[0]]);
      assert u1.env + env[1..] == u.env + env;
      ParseEnv(u1, env[1..]);
      assert Tagged('E', env)[1..] == Tagged('E', env[1..]);
    }
  }

  lemma ParseDevtOfPrint(devt: Devt)
    ensures ParseDevt(Print(devt.major) + ":" + Print(devt.minor)) == Some(devt)
  {
    var a, b := Print(devt.major), Print(devt.minor);
    var s := a + ":" + b;
    assert s == a + (":" + b);
    SpanOfDigits(a, ":" + b);
    assert s[..|a|] == a && s[|a|+1..] == b;
    SpanOfDigits(b, "");
    assert b + "" == b && b[..|b|] == b;
    ValueOfPrint(devt.major);
    ValueOfPrint(devt.minor);
  }

  lemma DigitsAreClean(s: string, prefix: string)
    requires AllDigits(s) && s != "" && '\n' !in prefix
    ensures Clean(prefix + s)
  {
  }

  ghost predicate AllClean(lines: seq<string>) {
    forall i | 0 <= i < |lines| :: Clean(lines[i])
  }

  lemma TaggedAreClean(tag: char, values: seq<string>)
    requires tag != '\n' && forall i | 0 <= i < |values| :: Clean(values[i])
    ensures AllClean(Tagged(tag, values))
  {
  }

  lemma NumberIsClean(tag: char, value: nat)
    requires tag != '\n'
    ensures AllClean(NumberLine(tag, value))
  {
    DigitsAreClean(Print(value), [tag, ':']);
    hide Clean, Print;
  }

  lemma NameAndDevtAreClean(u: Device)
    requires Clean(u.name)
    ensures Clean("N:" + u.name) && Clean("M:" + Print(u.devt.major) + ":" + Print(u.devt.minor))
  {
    DigitsAreClean(Print(u.devt.minor), "M:" + Print(u.devt.major) + ":");
  }

  lemma LinesAreClean(u: Device)
    requires WellFormed(u) && !NothingInteresting(u)
    ensures AllClean(Lines(u))
  {
    NameAndDevtAreClean(u);
    TaggedAreClean('S', u.symlinks);
    NumberIsClean('L', ToUnsigned(u.priority));
    NumberIsClean('A', ToUnsigned(u.partitions));
    NumberIsClean('R', if u.ignoreRemove then 1 else 0);
    TaggedAreClean('E', u.env);
    hide Clean, Print, Tagged, NumberLine, ToUnsigned, NothingInteresting, Storable;
  }

  lemma ParseOne(u: Device, line: string)
    ensures ParseLines(u, [line]) == ParseLine(u, line)
  {
    hide ParseLine;
  }

  lemma ParseNone(u: Device)
    ensures ParseLines(u, []) == u
  {
  }

  lemma ParseNumberLine(u: Device, tag: char, value: nat)
    requires value < 0x1_0000_0000 && (tag == 'L' || tag == 'A' || tag == 'R')
    requires value == 0 ==> (tag == 'L' ==> u.priority == 0) && (tag == 'A' ==> u.partitions == 0) && (tag == 'R' ==> !u.ignoreRemove)
    ensures var i := ToInt(Clamp(value));
      ParseLines(u, NumberLine(tag, value)) ==
        if tag == 'L' then u.(priority := i)
        else if tag == 'A' then u.(partitions := i)
        else u.(ignoreRemove := i != 0)
  {
    if value == 0 {
      ParseNone(u);
    } else {
      IntegerOfPrint(value);
      UnsignedLength(value);
      hide Integer, Field, Print, ParseLines, ToInt, Clamp;
      FieldOf(tag, Print(value));
      ParseOne(u, [tag, ':'] + Print(value));
    }
  }

  function NameLines(u: Device): seq<string> {
    ["N:" + u.name] + Tagged('S', u.symlinks)
  }

  lemma ParseNameLines(u: Device)
    requires Storable(u.name) && NoDuplicates(u.symlinks)
    requires forall i | 0 <= i < |u.symlinks| :: Storable(u.symlinks[i])
    ensures ParseLines(BLANK, NameLines(u)) == BLANK.(name := u.name, symlinks := u.symlinks)
  {
    var u1 := BLANK.(name := u.name);
    ParseOne(BLANK, "N:" + u.name);
    assert ParseLines(BLANK, ["N:" + u.name]) == u1 by {
      FieldOf('N', u.name);
      assert "N:" + u.name == ['N', ':'] + u.name;
    }
    assert u1.symlinks + u.symlinks == u.symlinks;
    ParseSymlinks(u1, u.symlinks);
    ParseLinesAppend(BLANK, ["N:" + u.name], Tagged('S', u.symlinks));
  }

  function DevtLine(devt: Devt): string {
    "M:" + Print(devt.major) + ":" + Print(devt.minor)
  }

  lemma ParseDevtLine(u: Device, devt: Devt)
    requires devt.major < 0x1_0000_0000 && devt.minor < 0x1_0000_0000
    ensures ParseLines(u, [DevtLine(devt)]) == u.(devt := devt)
  {
    var t := Print(devt.major) + ":" + Print(devt.minor);
    assert DevtLine(devt) == ['M', ':'] + t;
    UnsignedLength(devt.major);
    UnsignedLength(devt.minor);
    FieldOf('M', t);
    ParseDevtOfPrint(devt);
    ParseOne(u, DevtLine(devt));
  }

  function NumberLines(u: Device): seq<string> {
    NumberLine('L', ToUnsigned(u.priority))
    + NumberLine('A', ToUnsigned(u.partitions))
    + NumberLine('R', if u.ignoreRemove then 1 else 0)
  }

  lemma ParseNumberLines(u: Device, v: Device)
    requires IsInt(u.priority) && IsInt(u.partitions)
    requires v.priority == 0 && v.partitions == 0 && !v.ignoreRemove
    ensures ParseLines(v, NumberLines(u)) ==
      v.(priority := ReadBack(u.priority), partitions := ReadBack(u.partitions), ignoreRemove := u.ignoreRemove)
  {
    var l, a := NumberLine('L', ToUnsigned(u.priority)), NumberLine('A', ToUnsigned(u.partitions));
    var r := NumberLine('R', if u.ignoreRemove then 1 else 0);
    var v1 := v.(priority := ReadBack(u.priority));
    var v2 := v1.(partitions := ReadBack(u.partitions));
    ParseNumberLine(v, 'L', ToUnsigned(u.priority));
    ParseNumberLine(v1, 'A', ToUnsigned(u.partitions));
    ParseNumberLine(v2, 'R', if u.ignoreRemove then 1 else 0);
    hide NumberLine, ParseLines;
    ParseLinesAppend(v, l, a);
    ParseLinesAppend(v, l + a, r);
  }

  /** The device with its numbers as atoi reads them. */
  function Reread(u: Device): Device {
    u.(priority := ReadBack(u.priority), partitions := ReadBack(u.partitions))
  }

  lemma ParseOwnLines(u: Device)
    requires WellFormed(u) && !NothingInteresting(u)
    ensures ParseLines(BLANK, Lines(u)) == Reread(u)
  {
    var n, m, k, e := NameLines(u), [DevtLine(u.devt)], NumberLines(u), Tagged('E', u.env);
    assert Lines(u) == n + m + k + e;
    hide NothingInteresting, Storable;
    var u1 := BLANK.(name := u.name, symlinks := u.symlinks);
    var u2 := u1.(devt := u.devt);
    var u3 := Reread(u).(env := []);
    ParseNameLines(u);
    ParseDevtLine(u1, u.devt);
    ParseNumberLines(u, u2);
    assert u3.env + u.env == u.env;
    ParseEnv(u3, u.env);
    hide ParseLines, Lines, NameLines, DevtLine, NumberLines, ReadBack, Reread;
    ParseLinesAppend(BLANK, n, m);
    ParseLinesAppend(BLANK, n + m, k);
    ParseLinesAppend(BLANK, n + m + k, e);
  }

  /** What is read back: from a link the bare name; from a file the whole device, its numbers as
      atoi reads them. */
  lemma LoadOfSave(u: Device)
    requires WellFormed(u)
    ensures Load(Save(u)) ==
      Some(if NothingInteresting(u) then BLANK.(name := u.name) else Reread(u))
  {
    if !NothingInteresting(u) {
      LinesAreClean(u);
      ParseJoin(BLANK, "", Lines(u));
      assert "" + Join(Lines(u)) == Join(Lines(u));
      ParseOwnLines(u);
    }
  }

  /** A device survives being stored exactly when it goes to a file with numbers that are not
      negative or read into a wide long, or when it has nothing but a name. */
  lemma SurvivesStorage(u: Device)
    requires WellFormed(u)
    ensures Load(Save(u)) == Some(u) <==>
      if u.symlinks == [] && u.partitions == 0 && u.env == [] && !u.ignoreRemove then u.devt == Devt(0, 0) && u.priority == 0
      else (u.priority >= 0 && u.partitions >= 0) || WideLong()
  {
    LoadOfSave(u);
    ReadBackIff(u.priority);
    ReadBackIff(u.partitions);
  }

  /** A device 8:0 without links is stored as a bare link and loses its number. */
  lemma NumberIsLost() returns (u: Device)
    ensures WellFormed(u) && u.devt == Devt(8, 0)
    ensures Load(Save(u)) == Some(u.(devt := Devt(0, 0))) != Some(u)
  {
    u := Device("sda", [], Devt(8, 0), 0, 0, false, []);
    LoadOfSave(u);
  }

  /** A device-mapper node of priority -100 that claims a link: where a long has 32 bits it is read
      back with the highest priority there is. */
  lemma NegativePriorityIsLost() returns (u: Device)
    ensures WellFormed(u) && u.priority == -100
    ensures !WideLong() ==> Load(Save(u)) == Some(u.(priority := 0x7fff_ffff))
  {
    u := Device("dm-0", ["disk/by-uuid/1"], Devt(254, 0), -100, 0, false, []);
    LoadOfSave(u);
    ReadBackIff(u.priority);
  }

  /** The lines of a record as they stand in its file. */
  lemma RecordAsWritten(name: string, link: string, env: string)
    ensures var u := Device(name, [link], Devt(8, 10), 5, 2, true, [env]);
      && Lines(u) == ["N:" + name] + ["S:" + link] + ["M:8:10"] + ["L:5"] + ["A:2"] + ["R:1"] + ["E:" + env]
      && Save(u) == Text(Join(Lines(u)))
  {
    var u := Device(name, [link], Devt(8, 10), 5, 2, true, [env]);
    assert Save(u) == Text(Join(Lines(u)));
    hide *;
    TagIs('S', link, "S:");
    TagIs('E', env, "E:");
    NumbersAsWritten();
    LinesFrom(u, "N:" + name, ["S:" + link], "M:8:10", ["L:5"], ["A:2"], ["R:1"], ["E:" + env]);
  }

  lemma NameAsWritten(name: string, devt: Devt, priority: int)
    ensures Save(Device(name, [], devt, priority, 0, false, [])) == NameLink(name)
  {
  }

  lemma NumbersAsWritten()
    ensures NumberLine('L', 5) == ["L:5"] && NumberLine('A', 2) == ["A:2"] && NumberLine('R', 1) == ["R:1"]
    ensures "M:" + Print(8) + ":" + Print(10) == "M:8:10" && ToUnsigned(5) == 5 && ToUnsigned(2) == 2
  {
    SmallNumbers();
    hide Print;
    assert ['L', ':'] + "5" == "L:5" && ['A', ':'] + "2" == "A:2" && ['R', ':'] + "1" == "R:1";
  }

  lemma LinesFrom(u: Device, n: string, s: seq<string>, m: string, l: seq<string>, a: seq<string>, r: seq<string>, e: seq<string>)
    requires n == "N:" + u.name && s == Tagged('S', u.symlinks) && m == "M:" + Print(u.devt.major) + ":" + Print(u.devt.minor)
    requires l == NumberLine('L', ToUnsigned(u.priority)) && a == NumberLine('A', ToUnsigned(u.partitions))
    requires r == NumberLine('R', if u.ignoreRemove then 1 else 0) && e == Tagged('E', u.env)
    ensures Lines(u) == [n] + s + [m] + l + a + r + e
  {
    hide Tagged, NumberLine, Print;
  }

  /** The lines of a file stand one behind the other, each ended by a newline. */
  lemma {:induction false} LinesAsWritten(lines: seq<string>, line: string)
    ensures Join(lines + [line]) == Join(lines) + line + "\n" && Join([]) == ""
  {
    if lines == [] {
      assert [] + [line] == [line] && [line][1..] == [];
    } else {
      LinesAsWritten(lines[1..], line);
      assert (lines + [line])[1..] == lines[1..] + [line];
    }
  }

  lemma SmallNumbers()
    ensures Print(1) == "1" && Print(2) == "2" && Print(5) == "5" && Print(8) == "8" && Print(10) == "10"
  {
    assert Print(10) == Print(1) + [DigitChar(0)];
  }

  lemma TagIs(tag: char, value: string, tag2: string)
    requires tag2 == [tag, ':']
    ensures Tagged(tag, [value]) == [tag2 + value]
  {
  }
}
