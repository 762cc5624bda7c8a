/** Reading the text of a control file: its fields one after the other, and what they are for. */
module ControlText {
  import opened CStrings
  import opened Dependencies

  // ----- One field -----

  /** What is read as the next field: name, value, and where the one after it starts; or text without
      a name. PastEnd is reading on behind the terminator, as happens after a field without value
      at the end. */
  datatype FieldRead = Named(next: nat, name: CString, value: CString) | Unnamed(next: nat) | PastEnd

  predicate Blank(c: char) {
    c == ' ' || c == '\t' || c == '\n'
  }

  /** A field ends at the terminator, or at a newline that is not followed by a space. */
  predicate Ends(s: CString, o: nat) {
    o >= |s| || (s[o] == '\n' && CharAt(s, o + 1) != ' ')
  }

  function Part(s: CString, i: nat, j: nat): CString
    requires i <= j <= |s|
  {
    Upto(From(s, i), j - i)
  }

  /** The scan at offset o: the name found so far starts at nameStart and ends at nameEnd, which is 0
      before a colon is met; the value starts at valueStart. */
  function Scan(s: CString, o: nat, nameStart: nat, nameEnd: nat, valueStart: nat): (r: FieldRead)
    requires nameEnd <= o
    ensures r.PastEnd? || r.next > o
    decreases |s| + 2 - o
  {
    if o > |s| then PastEnd
    else if Ends(s, o) then
      if nameEnd == nameStart then Unnamed(o + 1)
      else if nameEnd > nameStart && o > valueStart then Named(o + 1, Part(s, nameStart, nameEnd), Part(s, valueStart, o))
      else Scan(s, o + 2, o + 1, 0, o + 1)
    else if s[o] == ':' && nameEnd == 0 then Scan(s, o + 1, nameStart, o, o + 1)
    else if Blank(s[o]) then
      Scan(s, o + 1, if nameStart == o then o + 1 else nameStart, nameEnd, if valueStart == o then o + 1 else valueStart)
    else Scan(s, o + 1, nameStart, nameEnd, valueStart)
  }

  function ReadField(s: CString): FieldRead {
    Scan(s, 0, 0, 0, 0)
  }

  /** read_package_field */
  method ReadPackageField(s: CString) returns (r: FieldRead)
    ensures r == ReadField(s)
  {
    var o, nameStart, nameEnd, valueStart := 0, 0, 0, 0;
    while o <= |s|
      invariant nameEnd <= o
      invariant ReadField(s) == Scan(s, o, nameStart, nameEnd, valueStart)
      decreases |s| + 2 - o
    {
      var c := CharAt(s, o);
      if o == |s| || (c == '\n' && CharAt(s, o + 1) != ' ') {
        var nameLength, valueLength := nameEnd - nameStart, o - valueStart;
        if nameLength == 0 {
          return Unnamed(o + 1);
        }
        if nameLength > 0 && valueLength > 0 {
          return Named(o + 1, Part(s, nameStart, nameEnd), Part(s, valueStart, o));
        }
        nameStart, nameEnd, valueStart := o + 1, 0, o + 1;
        o := o + 2;
        continue;
      }
      if c == ':' {
        if nameEnd == 0 {
          nameEnd, valueStart := o, o + 1;
        }
      } else if Blank(c) {
        if nameStart == o {
          nameStart := nameStart + 1;
        }
        if valueStart == o {
          valueStart := valueStart + 1;
        }
      }
      o := o + 1;
    }
    r := PastEnd;
  }

  // ----- Writing and reading one field -----

  predicate NameText(name: CString) {
    name != "" && forall i | 0 <= i < |name| :: name[i] != ':' && !Blank(name[i])
  }

  /** A value starts with something, and its newlines are followed by spaces. */
  predicate ValueText(value: CString) {
    && value != "" && !Blank(value[0]) && value[|value|-1] != '\n'
    && forall i | 0 <= i < |value| - 1 && value[i] == '\n' :: value[i+1] == ' '
  }

  function FieldText(name: CString, value: CString): CString {
    name + ": " + value + "\n"
  }

  lemma {:induction false} ScanName(s: CString, name: CString, k: nat)
    requires NameText(name) && k <= |name| < |s| && s[..|name|] == name
    ensures ReadField(s) == Scan(s, k, 0, 0, 0)
    decreases k
  {
    if k > 0 {
      ScanName(s, name, k - 1);
      assert s[k-1] == name[k-1];
    }
  }

  lemma {:induction false} ScanValue(s: CString, n: nat, b: nat, value: CString, k: nat)
    requires 0 < n < b && ValueText(value) && k <= |value|
    requires b + |value| <= |s| && s[b..b+|value|] == value
    ensures Scan(s, b, 0, n, b) == Scan(s, b + k, 0, n, b)
    decreases k
  {
    if k > 0 {
      ScanValue(s, n, b, value, k - 1);
      assert s[b+k-1] == value[k-1];
      if k < |value| {
        assert s[b+k] == value[k];
      }
    }
  }

  /** A written field is read back, whatever follows that does not start with a space. */
  lemma FieldIsRead(name: CString, value: CString, rest: CString)
    requires NameText(name) && ValueText(value) && CharAt(rest, 0) != ' '
    ensures ReadField(FieldText(name, value) + rest) == Named(|FieldText(name, value)|, name, value)
  {
    var s: CString := FieldText(name, value) + rest;
    var n, b := |name|, |name| + 2;
    assert s[..n] == name && s[n] == ':' && s[n+1] == ' ' && s[b..b+|value|] == value && s[b+|value|] == '\n';
    assert CharAt(s, b + |value| + 1) == CharAt(rest, 0);
    ScanName(s, name, n);
    ScanValue(s, n, b, value, |value|);
    assert Part(s, 0, n) == name && Part(s, b, b + |value|) == value;
  }

  // ----- All fields -----

  /** The fields from an offset on, each with its name and value. */
  function Fields(s: CString, start: nat): Option<seq<(CString, CString)>>
    decreases if start < |s| then |s| - start else 0
  {
    if start >= |s| then Some([])
    else
      match ReadField(From(s, start))
      case PastEnd => None
      case Unnamed(next) => Fields(s, start + next)
      case Named(next, name, value) =>
        match Fields(s, start + next)
        case None => None
        case Some(more) => Some([(name, value)] + more)
  }

  function FieldsText(fields: seq<(CString, CString)>): CString {
    if fields == [] then "" else Joined(FieldText(fields[0].0, fields[0].1), FieldsText(fields[1..]))
  }

  function Joined(a: CString, b: CString): CString {
    a + b
  }

  predicate Writable(fields: seq<(CString, CString)>) {
    forall i | 0 <= i < |fields| :: NameText(fields[i].0) && ValueText(fields[i].1)
  }

  lemma FieldsTextStart(fields: seq<(CString, CString)>)
    requires Writable(fields)
    ensures CharAt(FieldsText(fields), 0) != ' '
  {
    if fields != [] {
      assert FieldsText(fields)[0] == fields[0].0[0];
    }
  }

  lemma FieldsStep(s: CString, start: nat, name: CString, value: CString, rest: CString)
    requires NameText(name) && ValueText(value) && CharAt(rest, 0) != ' '
    requires start <= |s| && From(s, start) == Joined(FieldText(name, value), rest)
    ensures var more := Fields(s, start + |FieldText(name, value)|);
      Fields(s, start) == if more.None? then None else Some([(name, value)] + more.value)
  {
    FieldIsRead(name, value, rest);
    hide ReadField, NameText, ValueText;
  }

  lemma JoinedTwice(s: CString, pre: CString, field: CString, rest: CString)
    requires s == Joined(pre, Joined(field, rest))
    ensures |pre| <= |s| && From(s, |pre|) == Joined(field, rest)
    ensures s == Joined(Joined(pre, field), rest) && |Joined(pre, field)| == |pre| + |field|
  {
  }

  lemma NothingMore(s: CString, pre: CString)
    requires s == Joined(pre, "")
    ensures Fields(s, |pre|) == Some([])
  {
  }

  lemma FieldsTextSplit(fields: seq<(CString, CString)>)
    requires Writable(fields) && fields != []
    ensures Writable(fields[1..]) && NameText(fields[0].0) && ValueText(fields[0].1)
    ensures FieldsText(fields) == Joined(FieldText(fields[0].0, fields[0].1), FieldsText(fields[1..]))
    ensures CharAt(FieldsText(fields[1..]), 0) != ' '
    ensures [(fields[0].0, fields[0].1)] + fields[1..] == fields
  {
    FieldsTextStart(fields[1..]);
  }

  lemma FieldsGoOn(s: CString, pre: CString, fields: seq<(CString, CString)>)
    requires Writable(fields) && fields != [] && s == Joined(pre, FieldsText(fields))
    ensures Writable(fields[1..])
    ensures var pre1 := Joined(pre, FieldText(fields[0].0, fields[0].1));
      && s == Joined(pre1, FieldsText(fields[1..]))
      && (Fields(s, |pre1|) == Some(fields[1..]) ==> Fields(s, |pre|) == Some(fields))
  {
    hide *;
    FieldsTextSplit(fields);
    var field, rest := FieldText(fields[0].0, fields[0].1), FieldsText(fields[1..]);
    JoinedTwice(s, pre, field, rest);
    FieldsStep(s, |pre|, fields[0].0, fields[0].1, rest);
  }

  /** Written fields are read back. */
  lemma {:induction false} FieldsAreRead(s: CString, pre: CString, fields: seq<(CString, CString)>)
    requires Writable(fields) && s == Joined(pre, FieldsText(fields))
    ensures Fields(s, |pre|) == Some(fields)
    decreases |fields|
  {
    if fields == [] {
      NothingMore(s, pre);
    } else {
      FieldsGoOn(s, pre, fields);
      hide *;
      FieldsAreRead(s, Joined(pre, FieldText(fields[0].0, fields[0].1)), fields[1..]);
    }
  }

  // ----- What the fields are for -----

  /** A control file: name, version, and the dependency fields in their order, each with its kind. */
  datatype Control = Control(name: CString, version: CString, texts: seq<(nat, CString)>)

  const UNKNOWN: CString := "unknown"

  function KindName(kind: nat): CString
    requires FieldKind(kind)
  {
    if kind == EDGE_PRE_DEPENDS then "Pre-Depends"
    else if kind == EDGE_DEPENDS then "Depends"
    else if kind == EDGE_REPLACES then "Replaces"
    else if kind == EDGE_PROVIDES then "Provides"
    else if kind == EDGE_CONFLICTS then "Conflicts"
    else if kind == EDGE_SUGGESTS then "Suggests"
    else if kind == EDGE_RECOMMENDS then "Recommends"
    else "Enhances"
  }

  /** The kind of edge a field is for, if it is for edges. */
  function KindOf(name: CString): (kind: Option<nat>)
    ensures kind.Some? ==> FieldKind(kind.value)
  {
    if name == "Pre-Depends" then Some(EDGE_PRE_DEPENDS)
    else if name == "Depends" then Some(EDGE_DEPENDS)
    else if name == "Replaces" then Some(EDGE_REPLACES)
    else if name == "Provides" then Some(EDGE_PROVIDES)
    else if name == "Conflicts" then Some(EDGE_CONFLICTS)
    else if name == "Suggests" then Some(EDGE_SUGGESTS)
    else if name == "Recommends" then Some(EDGE_RECOMMENDS)
    else if name == "Enhances" then Some(EDGE_ENHANCES)
    else None
  }

  /** A package as far as its fields have been read; no name before its field is met. */
  datatype Draft = Draft(name: Option<CString>, version: CString, texts: seq<(nat, CString)>)

  const BLANK_DRAFT := Draft(None, UNKNOWN, [])

  function Enter(d: Draft, name: CString, value: CString): Draft {
    if name == "Package" then d.(name := Some(value))
    else if name == "Version" then d.(version := value)
    else
      match KindOf(name)
      case Some(kind) => d.(texts := d.texts + [(kind, value)])
      case None => d
  }

  function EnterAll(fields: seq<(CString, CString)>): Draft {
    if fields == [] then BLANK_DRAFT
    else
      var n := |fields| - 1;
      Enter(EnterAll(fields[..n]), fields[n].0, fields[n].1)
  }

  /** None for a text that is read on behind its end, or has no name for the package. */
  function ParseControl(text: CString): Option<Control> {
    match Fields(text, 0)
    case None => None
    case Some(fields) =>
      var d := EnterAll(fields);
      if d.name.None? then None else Some(Control(d.name.value, d.version, d.texts))
  }

  // ----- Writing and reading a control file -----

  predicate KindsOk(texts: seq<(nat, CString)>) {
    forall i | 0 <= i < |texts| :: FieldKind(texts[i].0)
  }

  function TextFields(texts: seq<(nat, CString)>): seq<(CString, CString)>
    requires KindsOk(texts)
  {
    if texts == [] then []
    else
      var n := |texts| - 1;
      TextFields(texts[..n]) + [(KindName(texts[n].0), texts[n].1)]
  }

  function ControlFields(c: Control): seq<(CString, CString)>
    requires KindsOk(c.texts)
  {
    [("Package", c.name), ("Version", c.version)] + TextFields(c.texts)
  }

  function PrintControl(c: Control): CString
    requires KindsOk(c.texts)
  {
    FieldsText(ControlFields(c))
  }

  predicate ControlWritable(c: Control) {
    && KindsOk(c.texts) && ValueText(c.name) && ValueText(c.version)
    && forall i | 0 <= i < |c.texts| :: ValueText(c.texts[i].1)
  }

  lemma KindIsNamed(kind: nat)
    requires FieldKind(kind)
    ensures NameText(KindName(kind)) && KindOf(KindName(kind)) == Some(kind)
    ensures KindName(kind) != "Package" && KindName(kind) != "Version"
  {
    hide NameText;
    NamesAreNames(kind);
  }

  lemma NamesAreNames(kind: nat)
    requires FieldKind(kind)
    ensures NameText(KindName(kind))
  {
  }

  lemma {:induction false} TextsAreEntered(head: seq<(CString, CString)>, texts: seq<(nat, CString)>)
    requires KindsOk(texts) && EnterAll(head).texts == []
    ensures EnterAll(head + TextFields(texts)) == EnterAll(head).(texts := texts)
  {
    if texts == [] {
      assert head + [] == head;
    } else {
      var n := |texts| - 1;
      TextsAreEntered(head, texts[..n]);
      KindIsNamed(texts[n].0);
      var front, last := head + TextFields(texts[..n]), (KindName(texts[n].0), texts[n].1);
      assert head + TextFields(texts) == front + [last];
      assert (front + [last])[..|front|] == front;
      assert texts[..n] + [(texts[n].0, texts[n].1)] == texts;
      hide KindName, KindOf, TextFields;
    }
  }

  lemma {:induction false} TextsAreWritable(texts: seq<(nat, CString)>)
    requires KindsOk(texts) && forall i | 0 <= i < |texts| :: ValueText(texts[i].1)
    ensures Writable(TextFields(texts))
  {
    if texts != [] {
      var n := |texts| - 1;
      TextsAreWritable(texts[..n]);
      KindIsNamed(texts[n].0);
      hide KindName, NameText, ValueText;
    }
  }

  lemma HeadIsEntered(name: CString, version: CString)
    ensures EnterAll([("Package", name), ("Version", version)]) == Draft(Some(name), version, [])
  {
    var head: seq<(CString, CString)> := [("Package", name), ("Version", version)];
    var nothing: seq<(CString, CString)> := [];
    assert head[..1][..0] == nothing && EnterAll(nothing) == BLANK_DRAFT;
    assert EnterAll(head[..1]) == Draft(Some(name), UNKNOWN, []);
  }

  lemma HeadIsWritable(name: CString, version: CString)
    requires ValueText(name) && ValueText(version)
    ensures Writable([("Package", name), ("Version", version)])
  {
    hide ValueText;
  }

  lemma ControlIsEntered(c: Control)
    requires ControlWritable(c)
    ensures Writable(ControlFields(c)) && EnterAll(ControlFields(c)) == Draft(Some(c.name), c.version, c.texts)
  {
    TextsAreWritable(c.texts);
    HeadIsWritable(c.name, c.version);
    HeadIsEntered(c.name, c.version);
    TextsAreEntered([("Package", c.name), ("Version", c.version)], c.texts);
    hide NameText, ValueText, EnterAll, TextFields;
  }

  lemma EnteredIsParsed(text: CString, fields: seq<(CString, CString)>, c: Control)
    requires Fields(text, 0) == Some(fields) && EnterAll(fields) == Draft(Some(c.name), c.version, c.texts)
    ensures ParseControl(text) == Some(c)
  {
    hide Fields, EnterAll;
  }

  lemma AllThereIs(s: CString)
    ensures s == Joined("", s)
  {
  }

  /** A written control file is read back: name, version, and all dependency fields in their order. */
  lemma ControlRoundTrip(c: Control)
    requires ControlWritable(c)
    ensures ParseControl(PrintControl(c)) == Some(c)
  {
    ControlIsEntered(c);
    var text, fields := PrintControl(c), ControlFields(c);
    assert text == FieldsText(fields);
    hide *;
    AllThereIs(text);
    FieldsAreRead(text, "", fields);
    EnteredIsParsed(text, fields, c);
  }
}
