/** Reading the text of a dependency field into edges, and writing it.
    A field is a list of groups between commas, a group a list of alternatives between bars, an
    alternative a name with or without a constraint in brackets. Tokens are cut by strtok_r as the
    source cuts them, so empty ones disappear. */
module DependencyText {
  import opened CStrings
  import opened DebVersionOrder
  import opened Dependencies

  // ----- The C string searches -----

  /** strspn: the length of the prefix made of characters of the set. */
  function Span(s: string, chars: set<char>): (n: nat)
    ensures n <= |s| && (forall i | 0 <= i < n :: s[i] in chars) && (n < |s| ==> s[n] !in chars)
  {
    if s == "" || s[0] !in chars then 0 else 1 + Span(s[1..], chars)
  }

  /** strcspn: the length of the prefix without characters of the set. */
  function CSpan(s: string, chars: set<char>): (n: nat)
    ensures n <= |s| && (forall i | 0 <= i < n :: s[i] !in chars) && (n < |s| ==> s[n] in chars)
  {
    if s == "" || s[0] in chars then 0 else 1 + CSpan(s[1..], chars)
  }

  lemma {:induction false} SpanOf(a: string, b: string, chars: set<char>)
    requires forall i | 0 <= i < |a| :: a[i] in chars
    requires b == "" || b[0] !in chars
    ensures Span(a + b, chars) == |a|
    decreases |a|
  {
    if a == "" {
      assert a + b == b;
    } else {
      assert (a + b)[1..] == a[1..] + b;
      SpanOf(a[1..], b, chars);
    }
  }

  lemma {:induction false} CSpanOf(a: string, b: string, chars: set<char>)
    requires forall i | 0 <= i < |a| :: a[i] !in chars
    requires b == "" || b[0] in chars
    ensures CSpan(a + b, chars) == |a|
    decreases |a|
  {
    if a == "" {
      assert a + b == b;
    } else {
      assert (a + b)[1..] == a[1..] + b;
      CSpanOf(a[1..], b, chars);
    }
  }

  /** What is left after the characters of the set at the start. */
  function Skip(s: CString, chars: set<char>): CString {
    s[Span(s, chars)..]
  }

  /** What comes before the first character of the set. */
  function Take(s: CString, chars: set<char>): CString {
    s[..CSpan(s, chars)]
  }

  /** The first character of the set and what follows. */
  function Drop(s: CString, chars: set<char>): CString {
    s[CSpan(s, chars)..]
  }

  /** The tokens strtok_r returns one after the other. */
  function Tokens(s: CString, delim: char): seq<CString>
    decreases |s|
  {
    var t := Skip(s, {delim});
    if t == "" then [] else [Take(t, {delim})] + Tokens(Drop(t, {delim}), delim)
  }

  method StrTok(s: CString, delim: char) returns (token: Option<CString>, rest: CString)
    ensures token.None? ==> Tokens(s, delim) == []
    ensures token.Some? ==> Tokens(s, delim) == [token.value] + Tokens(rest, delim) && |rest| < |s|
  {
    hide Tokens, Take, Drop;
    var i := 0;
    while i < |s| && s[i] == delim
      invariant i <= |s| && Span(s, {delim}) == i + Span(s[i..], {delim})
    {
      assert s[i..][1..] == s[i+1..];
      i := i + 1;
    }
    var t: CString := s[i..];
    TokensStep(s, t, delim);
    if t == "" {
      return None, "";
    }
    token, rest := Some(Take(t, {delim})), Drop(t, {delim});
  }

  lemma TokensStep(s: CString, t: CString, delim: char)
    requires Span(s, {delim}) <= |s| && t == s[Span(s, {delim})..]
    ensures t == "" ==> Tokens(s, delim) == []
    ensures t != "" ==>
      Tokens(s, delim) == [Take(t, {delim})] + Tokens(Drop(t, {delim}), delim) && |Drop(t, {delim})| < |s|
  {
    hide Span;
    assert t == Skip(s, {delim});
  }

  // ----- Reading one alternative -----

  /** The operator written as a run of the characters less, equal and greater. A single less
      or greater is taken for the doubled one. */
  function OperatorOf(ops: string): Option<Operator> {
    if ops == "=" then Some(VerEqual)
    else if ops == "<<" || ops == "<" then Some(VerLess)
    else if ops == "<=" then Some(VerLessEqual)
    else if ops == ">>" || ops == ">" then Some(VerMore)
    else if ops == ">=" then Some(VerMoreEqual)
    else None
  }

  const OPS := {'<', '=', '>'}

  /** Operator and version of the constraint that starts at the bracket; None where the
      operator is illegal or missing. */
  function ParseConstraint(text: CString): Option<(Operator, CString)> {
    var version := Skip(text, {' ', '('});
    var operator := OperatorOf(version[..Span(version, OPS)]);
    if operator.None? then None
    else Some((operator.value, Take(Skip(Skip(version, OPS), {' '}), {' ', ')'})))
  }

  function ParseAlternative(token: CString): Option<Alternative> {
    var field2 := Skip(token, {' '});
    var name := Take(field2, {' ', '('});
    var text := Drop(field2, {'('});
    if text == "" then Some(Alternative(VerAny, name, "ANY"))
    else
      match ParseConstraint(text)
      case None => None
      case Some(c) => Some(Alternative(c.0, name, c.1))
  }

  function ParseAlternatives(tokens: seq<CString>): Option<seq<Alternative>> {
    if tokens == [] then Some([])
    else
      var a, rest := ParseAlternative(tokens[0]), ParseAlternatives(tokens[1..]);
      if a.None? || rest.None? then None else Some([a.value] + rest.value)
  }

  /** One comma group; None also where there is nothing between the commas to point at. */
  function ParseGroup(token: CString): Option<Group> {
    var field := Skip(token, {' '});
    var tokens := Tokens(field, '|');
    var alternatives := ParseAlternatives(tokens);
    if tokens == [] || alternatives.None? then None
    else Some(Group(field, field != tokens[0], alternatives.value))
  }

  function ParseGroups(tokens: seq<CString>): Option<seq<Group>> {
    if tokens == [] then Some([])
    else
      var g, rest := ParseGroup(tokens[0]), ParseGroups(tokens[1..]);
      if g.None? || rest.None? then None else Some([g.value] + rest.value)
  }

  function ParseLine(line: CString): Option<seq<Group>> {
    if Tokens(line, ',') == [] then None else ParseGroups(Tokens(line, ','))
  }

  lemma {:induction false} ParseAlternativesAppend(a: seq<CString>, b: seq<CString>)
    ensures ParseAlternatives(a + b).Some? <==> ParseAlternatives(a).Some? && ParseAlternatives(b).Some?
    ensures ParseAlternatives(a + b).Some? ==>
              ParseAlternatives(a + b).value == ParseAlternatives(a).value + ParseAlternatives(b).value
    decreases |a|
  {
    hide ParseAlternative;
    if a == [] {
      assert a + b == b;
    } else {
      assert (a + b)[1..] == a[1..] + b;
      ParseAlternativesAppend(a[1..], b);
    }
  }

  lemma {:induction false} ParseGroupsAppend(a: seq<CString>, b: seq<CString>)
    ensures ParseGroups(a + b).Some? <==> ParseGroups(a).Some? && ParseGroups(b).Some?
    ensures ParseGroups(a + b).Some? ==> ParseGroups(a + b).value == ParseGroups(a).value + ParseGroups(b).value
    decreases |a|
  {
    hide ParseGroup;
    if a == [] {
      assert a + b == b;
    } else {
      assert (a + b)[1..] == a[1..] + b;
      ParseGroupsAppend(a[1..], b);
    }
  }

  lemma {:induction false} GroupsEdgesAppend(kind: nat, a: seq<Group>, b: seq<Group>)
    ensures GroupsEdges(kind, a + b) == GroupsEdges(kind, a) + GroupsEdges(kind, b)
    decreases |a|
  {
    hide GroupEdges;
    if a == [] {
      assert a + b == b;
    } else {
      assert (a + b)[1..] == a[1..] + b;
      GroupsEdgesAppend(kind, a[1..], b);
    }
  }

  // ----- The procedure -----

  lemma ParseOneAlternative(token: CString)
    ensures ParseAlternatives([token]) ==
              if ParseAlternative(token).None? then None else Some([ParseAlternative(token).value])
  {
    hide ParseAlternative;
    var rest := [token][1..];
    assert rest == [];
    if ParseAlternative(token).Some? {
      assert [ParseAlternative(token).value] + [] == [ParseAlternative(token).value];
    }
  }

  /** The edges of one comma group whose text stands in field: first the OR edge, whose count
      grows with every alternative, then the alternatives. */
  method AddAlternatives(field: CString, kind: nat, edges: seq<Edge>) returns (ok: bool, r: seq<Edge>)
    requires FieldKind(kind)
    ensures ok <==> Tokens(field, '|') != [] && ParseAlternatives(Tokens(field, '|')).Some?
    ensures ok ==>
              r == edges + GroupEdges(kind, Group(field, field != Tokens(field, '|')[0], ParseAlternatives(Tokens(field, '|')).value))
  {
    hide ParseAlternative, ParseAlternatives, Tokens;
    ghost var tokens := Tokens(field, '|');
    var field2, rest := StrTok(field, '|');
    if field2.None? {
      return false, edges;
    }
    var barred := IsDependency(kind) && field != field2.value;
    r := edges;
    if barred {
      r := r + [Edge(kind + 1, VerNull, field, "", 0)];
    }
    ghost var seen: seq<CString> := [];
    ghost var done: seq<Alternative> := [];
    assert ParseAlternatives(seen) == Some(done) by { NoAlternatives(); }
    while field2.Some?
      invariant tokens == seen + (if field2.Some? then [field2.value] + Tokens(rest, '|') else [])
      invariant ParseAlternatives(seen) == Some(done)
      invariant r == edges + (if barred then [Edge(kind + 1, VerNull, field, "", |done|)] else []) + EdgesOf(kind, done)
      decreases field2.Some?, |rest|
    {
      ParseOneAlternative(field2.value);
      ParseAlternativesAppend(seen, [field2.value]);
      ParseAlternativesAppend(seen + [field2.value], Tokens(rest, '|'));
      assert tokens == seen + [field2.value] + Tokens(rest, '|');
      var a := ParseAlternative(field2.value);
      if a.None? {
        return false, r;
      }
      if barred {
        r := r[|edges| := r[|edges|].(alternatives := r[|edges|].alternatives + 1)];
      }
      r := r + [EdgeOf(kind, a.value)];
      done, seen := done + [a.value], seen + [field2.value];
      field2, rest := StrTok(rest, '|');
    }
    assert tokens == seen;
    ok := true;
  }

  lemma NoAlternatives()
    ensures ParseAlternatives([]) == Some([])
  {
  }

  method AddSplitDependencies(line: CString, kind: nat) returns (ok: bool, edges: seq<Edge>)
    requires FieldKind(kind)
    ensures ok <==> ParseLine(line).Some?
    ensures ok ==> edges == GroupsEdges(kind, ParseLine(line).value)
  {
    hide ParseAlternative, ParseAlternatives, Tokens, GroupEdges;
    edges := [];
    ghost var tokens := Tokens(line, ',');
    var token, rest := StrTok(line, ',');
    if token.None? {
      return false, edges;
    }
    ghost var seen: seq<CString> := [];
    ghost var done: seq<Group> := [];
    while token.Some?
      invariant tokens == seen + (if token.Some? then [token.value] + Tokens(rest, ',') else [])
      invariant tokens != [] && ParseGroups(seen) == Some(done)
      invariant edges == GroupsEdges(kind, done)
      decreases token.Some?, |rest|
    {
      ParseOneGroup(token.value);
      ParseGroupsAppend(seen, [token.value]);
      ParseGroupsAppend(seen + [token.value], Tokens(rest, ','));
      assert tokens == seen + [token.value] + Tokens(rest, ',');
      var field := Skip(token.value, {' '});
      var good, r := AddAlternatives(field, kind, edges);
      if !good {
        return false, edges;
      }
      ghost var g := ParseGroup(token.value).value;
      GroupsEdgesAppend(kind, done, [g]);
      assert GroupsEdges(kind, [g]) == GroupEdges(kind, g) by { OneGroupEdges(kind, g); }
      edges := r;
      done, seen := done + [g], seen + [token.value];
      token, rest := StrTok(rest, ',');
    }
    assert tokens == seen;
    ok := true;
  }

  lemma ParseOneGroup(token: CString)
    ensures ParseGroups([token]) == if ParseGroup(token).None? then None else Some([ParseGroup(token).value])
  {
    hide ParseGroup;
    var rest := [token][1..];
    assert rest == [];
    if ParseGroup(token).Some? {
      assert [ParseGroup(token).value] + [] == [ParseGroup(token).value];
    }
  }

  lemma OneGroupEdges(kind: nat, g: Group)
    ensures GroupsEdges(kind, [g]) == GroupEdges(kind, g)
  {
    hide GroupEdges;
    assert [g][1..] == [];
  }

  // ----- Writing, and the round trip -----

  function OperatorText(operator: Operator): string {
    match operator
    case VerEqual => "="
    case VerLess => "<<"
    case VerLessEqual => "<="
    case VerMore => ">>"
    case VerMoreEqual => ">="
    case _ => ""
  }

  /** The space, the bracketed operator and version. */
  function PrintConstraint(a: Alternative): CString {
    if a.operator == VerAny then "" else " (" + OperatorText(a.operator) + " " + a.version + ")"
  }

  /** name, or name (operator version). */
  function Print(a: Alternative): CString {
    a.name + PrintConstraint(a)
  }

  function Delimited(tokens: seq<CString>, delim: char): CString
    requires delim != '\0'
  {
    if tokens == [] then "" else if |tokens| == 1 then tokens[0] else tokens[0] + [delim] + Delimited(tokens[1..], delim)
  }

  function Padded(texts: seq<CString>, after: CString): (r: seq<CString>)
    ensures |r| == |texts|
    ensures forall i | 0 <= i < |r| ::
              r[i] == (if i == 0 then "" else " ") + texts[i] + (if i == |texts| - 1 then "" else after)
  {
    seq(|texts|, i requires 0 <= i < |texts| => (if i == 0 then "" else " ") + texts[i] + (if i == |texts| - 1 then "" else after))
  }

  function Texts(alternatives: seq<Alternative>): (r: seq<CString>)
    ensures |r| == |alternatives| && forall i | 0 <= i < |r| :: r[i] == Print(alternatives[i])
  {
    seq(|alternatives|, i requires 0 <= i < |alternatives| => Print(alternatives[i]))
  }

  /** Alternatives with " | " between them. */
  function PrintGroup(alternatives: seq<Alternative>): CString {
    Delimited(Padded(Texts(alternatives), " "), '|')
  }

  function GroupTexts(groups: seq<seq<Alternative>>): (r: seq<CString>)
    ensures |r| == |groups| && forall i | 0 <= i < |r| :: r[i] == PrintGroup(groups[i])
  {
    seq(|groups|, i requires 0 <= i < |groups| => PrintGroup(groups[i]))
  }

  /** Groups with ", " between them. */
  function PrintLine(groups: seq<seq<Alternative>>): CString {
    Delimited(Padded(GroupTexts(groups), ""), ',')
  }

  predicate Plain(s: CString) {
    s != "" && forall i | 0 <= i < |s| :: s[i] !in {' ', ',', '|', '(', ')'}
  }

  predicate AlternativeOk(a: Alternative) {
    && Plain(a.name) && a.operator != VerNull
    && (if a.operator == VerAny then a.version == "ANY" else Plain(a.version))
  }

  lemma SkipTake(a: CString, b: CString, chars: set<char>)
    requires b == "" || b[0] !in chars
    ensures (forall i | 0 <= i < |a| :: a[i] in chars) ==> Skip(a + b, chars) == b && (a + b)[..Span(a + b, chars)] == a
  {
    if forall i | 0 <= i < |a| :: a[i] in chars {
      SpanOf(a, b, chars);
      assert (a + b)[|a|..] == b && (a + b)[..|a|] == a;
    }
  }

  lemma TakeDrop(a: CString, b: CString, chars: set<char>)
    requires forall i | 0 <= i < |a| :: a[i] !in chars
    requires b == "" || b[0] in chars
    ensures Take(a + b, chars) == a && Drop(a + b, chars) == b
  {
    CSpanOf(a, b, chars);
    assert (a + b)[|a|..] == b && (a + b)[..|a|] == a;
  }

  lemma OperatorIsRead(operator: Operator)
    requires operator != VerAny && operator != VerNull
    ensures OperatorOf(OperatorText(operator)) == Some(operator)
    ensures forall i | 0 <= i < |OperatorText(operator)| :: OperatorText(operator)[i] in OPS
    ensures OperatorText(operator) != "" && OperatorText(operator)[0] !in {' ', '('} && '\0' !in OperatorText(operator)
  {
  }

  /** The text of a constraint, cut behind the bracket, the operator, the blank and the version. */
  lemma ConstraintParts(operator: Operator, v: CString, trail: CString) returns (text1: CString, text2: CString, text3: CString, text4: CString)
    requires operator != VerAny && operator != VerNull
    ensures text1 == OperatorText(operator) + text2 && text2 == " " + text3 && text3 == v + text4 && text4 == ")" + trail
    ensures "(" + OperatorText(operator) + " " + v + ")" + trail == "(" + text1
  {
    OperatorIsRead(operator);
    hide OperatorText;
    text4 := ")" + trail;
    text3 := v + text4;
    text2 := " " + text3;
    text1 := OperatorText(operator) + text2;
  }

  lemma ReadOperator(text: CString, op: CString, text1: CString, text2: CString)
    requires text == "(" + text1 && text1 == op + text2 && text2 != "" && text2[0] == ' '
    requires op != "" && op[0] !in {' ', '('} && forall i | 0 <= i < |op| :: op[i] in OPS
    ensures Skip(text, {' ', '('}) == text1 && text1[..Span(text1, OPS)] == op && Skip(text1, OPS) == text2
  {
    hide Skip, Span;
    SkipTake("(", text1, {' ', '('});
    SkipTake(op, text2, OPS);
  }

  lemma ReadVersion(text2: CString, text3: CString, v: CString, text4: CString)
    requires text2 == " " + text3 && text3 == v + text4 && text4 != "" && text4[0] == ')' && Plain(v)
    ensures Take(Skip(text2, {' '}), {' ', ')'}) == v
  {
    hide Skip, Take, Drop;
    SkipTake(" ", text3, {' '});
    TakeDrop(v, text4, {' ', ')'});
  }

  /** A constraint is read back from its text. */
  lemma ReadConstraint(operator: Operator, v: CString, trail: CString, text: CString)
    requires operator != VerAny && operator != VerNull && Plain(v)
    requires text == "(" + OperatorText(operator) + " " + v + ")" + trail
    ensures ParseConstraint(text) == Some((operator, v))
  {
    OperatorIsRead(operator);
    hide Skip, Take, Span, OperatorText, OperatorOf, Plain;
    var text1, text2, text3, text4 := ConstraintParts(operator, v, trail);
    ReadOperator(text, OperatorText(operator), text1, text2);
    ReadVersion(text2, text3, v, text4);
  }

  lemma ReadName(lead: CString, name: CString, rest: CString)
    requires Plain(name) && (lead == "" || lead == " ") && (rest == "" || rest[0] == ' ')
    ensures Skip(lead + (name + rest), {' '}) == name + rest
    ensures Take(name + rest, {' ', '('}) == name
  {
    hide Span, CSpan, Skip, Take, Drop;
    assert (name + rest)[0] == name[0];
    SkipTake(lead, name + rest, {' '});
    TakeDrop(name, rest, {' ', '('});
  }

  lemma ReadBare(lead: CString, name: CString, trail: CString)
    requires Plain(name) && (lead == "" || lead == " ") && (trail == "" || trail == " ")
    ensures ParseAlternative(lead + (name + trail)) == Some(Alternative(VerAny, name, "ANY"))
  {
    ReadName(lead, name, trail);
    hide Span, CSpan, Skip, Take, Drop;
    TakeDrop(name + trail, "", {'('});
    assert (name + trail) + "" == name + trail;
  }

  lemma ReadBracketed(lead: CString, name: CString, text: CString, c: (Operator, CString))
    requires Plain(name) && (lead == "" || lead == " ")
    requires text != "" && text[0] == '(' && ParseConstraint(text) == Some(c)
    ensures ParseAlternative(lead + (name + (" " + text))) == Some(Alternative(c.0, name, c.1))
  {
    hide ParseConstraint, Span, CSpan, Skip, Take, Drop;
    ReadName(lead, name, " " + text);
    BracketAfterName(name, text);
  }

  lemma BracketAfterName(name: CString, text: CString)
    requires Plain(name) && text != "" && text[0] == '('
    ensures Drop(name + (" " + text), {'('}) == text
  {
    hide Span, CSpan, Skip, Take, Drop;
    assert name + (" " + text) == (name + " ") + text;
    TakeDrop(name + " ", text, {'('});
  }

  predicate Blanks(s: string) {
    forall i | 0 <= i < |s| :: s[i] == ' '
  }

  /** Blanks behind the bracket, the operator and the version do not matter, nor what follows these. */
  lemma BlanksInConstraint(text: CString, b1: CString, op: CString, b2: CString, v: CString, t1: CString, t2: CString, t3: CString, t4: CString)
    requires text == "(" + b1 + t1 && t1 == op + t2 && t2 == b2 + t3 && t3 == v + t4
    requires Blanks(b1) && Blanks(b2) && OperatorOf(op).Some? && Plain(v) && v[0] !in OPS
    requires t4 == "" || t4[0] == ' ' || t4[0] == ')'
    ensures ParseConstraint(text) == Some((OperatorOf(op).value, v))
  {
    OperatorIsPlain(op);
    VersionFollows(b2, v, t2, t3, t4);
    hide Skip, Take, Span, OperatorOf, Plain;
    BlanksBeforeOperator(text, b1, op, t1, t2);
    BlanksBeforeVersion(b2, v, t2, t3, t4);
  }

  lemma VersionFollows(b2: CString, v: CString, t2: CString, t3: CString, t4: CString)
    requires t2 == b2 + t3 && t3 == v + t4 && Blanks(b2) && Plain(v) && v[0] !in OPS
    ensures t2 != "" && t2[0] !in OPS && t3 != "" && t3[0] != ' '
  {
    assert t3[0] == v[0];
    if b2 != "" {
      assert t2[0] == b2[0];
    }
  }

  lemma BlanksBeforeOperator(text: CString, b1: CString, op: CString, t1: CString, t2: CString)
    requires text == "(" + b1 + t1 && t1 == op + t2 && Blanks(b1) && t2 != "" && t2[0] !in OPS
    requires op != "" && op[0] !in {' ', '('} && forall i | 0 <= i < |op| :: op[i] in OPS
    ensures Skip(text, {' ', '('}) == t1 && t1[..Span(t1, OPS)] == op && Skip(t1, OPS) == t2
  {
    assert t1[0] == op[0];
    hide Skip, Span;
    SkipTake("(" + b1, t1, {' ', '('});
    SkipTake(op, t2, OPS);
  }

  lemma BlanksBeforeVersion(b2: CString, v: CString, t2: CString, t3: CString, t4: CString)
    requires t2 == b2 + t3 && t3 == v + t4 && Blanks(b2) && Plain(v) && t3 != "" && t3[0] != ' '
    requires t4 == "" || t4[0] == ' ' || t4[0] == ')'
    ensures Take(Skip(t2, {' '}), {' ', ')'}) == v
  {
    hide Skip, Take, Drop;
    SkipTake(b2, t3, {' '});
    TakeDrop(v, t4, {' ', ')'});
  }

  lemma OperatorIsPlain(op: string)
    requires OperatorOf(op).Some?
    ensures op != "" && op[0] !in {' ', '('} && forall i | 0 <= i < |op| :: op[i] in OPS
  {
  }

  /** Blanks before the name and between name and bracket do not matter either. */
  lemma BlanksInAlternative(token: CString, b1: CString, name: CString, b2: CString, text: CString, t1: CString, t2: CString)
    requires token == b1 + t1 && t1 == name + t2 && t2 == b2 + text
    requires Blanks(b1) && Blanks(b2) && Plain(name) && text != "" && text[0] == '(' && ParseConstraint(text).Some?
    ensures var c := ParseConstraint(text).value; ParseAlternative(token) == Some(Alternative(c.0, name, c.1))
  {
    BlankOrBracket(b2, text, t2);
    hide ParseConstraint, Skip, Take, Drop, Span, CSpan, Plain, Blanks;
    BlanksBeforeName(token, b1, name, t1, t2);
    BracketFollows(name, b2, text, t1, t2);
  }

  lemma BlankOrBracket(b2: CString, text: CString, t2: CString)
    requires t2 == b2 + text && Blanks(b2) && text != "" && text[0] == '('
    ensures t2 != "" && (t2[0] == ' ' || t2[0] == '(')
  {
  }

  lemma BlanksBeforeName(token: CString, b1: CString, name: CString, t1: CString, t2: CString)
    requires token == b1 + t1 && t1 == name + t2 && Blanks(b1) && Plain(name)
    requires t2 == "" || t2[0] == ' ' || t2[0] == '('
    ensures Skip(token, {' '}) == t1 && Take(t1, {' ', '('}) == name
  {
    assert t1[0] == name[0];
    hide Skip, Take, Drop;
    SkipTake(b1, t1, {' '});
    TakeDrop(name, t2, {' ', '('});
  }

  lemma BracketFollows(name: CString, b2: CString, text: CString, t1: CString, t2: CString)
    requires t1 == name + t2 && t2 == b2 + text && Blanks(b2) && Plain(name) && text != "" && text[0] == '('
    ensures Drop(t1, {'('}) == text
  {
    assert t1 == (name + b2) + text;
    NoBracket(name, b2);
    hide Drop, Take, Plain, Blanks;
    TakeDrop(name + b2, text, {'('});
  }

  lemma NoBracket(name: CString, b2: CString)
    requires Plain(name) && Blanks(b2)
    ensures forall i | 0 <= i < |name + b2| :: (name + b2)[i] != '('
  {
  }

  /** A name alone stands for any version, blanks around it or not. */
  lemma BlanksAroundName(token: CString, b1: CString, name: CString, b2: CString, t1: CString)
    requires token == b1 + t1 && t1 == name + b2 && Blanks(b1) && Blanks(b2) && Plain(name)
    ensures ParseAlternative(token) == Some(Alternative(VerAny, name, "ANY"))
  {
    assert t1 + "" == t1;
    NoBracket(name, b2);
    hide Skip, Take, Drop, Span, CSpan, Plain;
    BlanksBeforeName(token, b1, name, t1, b2);
    TakeDrop(t1, "", {'('});
  }

  /** The constraint from its bracket on. */
  function Bracketed(a: Alternative, trail: CString): CString {
    "(" + OperatorText(a.operator) + " " + a.version + ")" + trail
  }

  lemma PrintShape(lead: CString, a: Alternative, trail: CString)
    ensures a.operator == VerAny ==> lead + Print(a) + trail == lead + (a.name + trail)
    ensures a.operator != VerAny ==> lead + Print(a) + trail == lead + (a.name + (" " + Bracketed(a, trail)))
  {
    hide OperatorText;
  }

  /** An alternative is read back from its text, with blanks around it or not. */
  lemma ReadAlternative(lead: CString, a: Alternative, trail: CString)
    requires AlternativeOk(a) && (lead == "" || lead == " ") && (trail == "" || trail == " ")
    ensures ParseAlternative(lead + Print(a) + trail) == Some(a)
  {
    hide ParseAlternative, Plain, Print, ParseConstraint;
    PrintShape(lead, a, trail);
    if a.operator == VerAny {
      ReadBare(lead, a.name, trail);
    } else {
      ReadConstraint(a.operator, a.version, trail, Bracketed(a, trail));
      ReadBracketed(lead, a.name, Bracketed(a, trail), (a.operator, a.version));
    }
  }

  // ----- Tokens -----

  predicate NonEmptyWithout(s: CString, delim: char) {
    s != "" && forall i | 0 <= i < |s| :: s[i] != delim
  }

  lemma TokenHead(x: CString, rest: CString, delim: char)
    requires NonEmptyWithout(x, delim) && (rest == "" || rest[0] == delim)
    ensures Tokens(x + rest, delim) == [x] + Tokens(rest, delim)
  {
    hide Span, CSpan, Skip, Take, Drop;
    assert (x + rest)[0] == x[0];
    SkipTake("", x + rest, {delim});
    assert "" + (x + rest) == x + rest;
    TakeDrop(x, rest, {delim});
  }

  lemma TokensSkipDelimiter(s: CString, delim: char)
    requires delim != '\0'
    ensures Tokens([delim] + s, delim) == Tokens(s, delim)
  {
    assert ([delim] + s)[1..] == s;
    assert Skip([delim] + s, {delim}) == Skip(s, {delim});
  }

  lemma NoTokens(delim: char)
    ensures Tokens("", delim) == []
  {
  }

  /** Cutting at the delimiter undoes joining with it. */
  lemma {:induction false} TokensOfDelimited(tokens: seq<CString>, delim: char)
    requires delim != '\0' && forall i | 0 <= i < |tokens| :: NonEmptyWithout(tokens[i], delim)
    ensures Tokens(Delimited(tokens, delim), delim) == tokens
    decreases |tokens|
  {
    NoTokens(delim);
    hide Tokens, Skip, Take, Drop, Span, CSpan;
    if tokens == [] {
    } else if |tokens| == 1 {
      TokenHead(tokens[0], "", delim);
      assert tokens[0] + "" == tokens[0];
      assert tokens == [tokens[0]] && [tokens[0]] + [] == tokens;
    } else {
      var rest := Delimited(tokens[1..], delim);
      TokensOfDelimited(tokens[1..], delim);
      TokensSkipDelimiter(rest, delim);
      TokenHead(tokens[0], [delim] + rest, delim);
      assert Delimited(tokens, delim) == tokens[0] + ([delim] + rest);
      assert tokens == [tokens[0]] + tokens[1..];
    }
  }

  lemma {:induction false} DelimitedAvoids(tokens: seq<CString>, delim: char, c: char)
    requires delim != '\0' && delim != c && |tokens| > 0 && tokens[0] != ""
    requires forall i | 0 <= i < |tokens| :: NonEmptyWithout(tokens[i], c)
    ensures NonEmptyWithout(Delimited(tokens, delim), c)
    ensures Delimited(tokens, delim)[0] == tokens[0][0]
    ensures |tokens| > 1 ==> |Delimited(tokens, delim)| > |tokens[0]|
    decreases |tokens|
  {
    if |tokens| > 1 {
      DelimitedAvoids(tokens[1..], delim, c);
    }
  }

  // ----- The round trip -----

  lemma PrintAvoids(a: Alternative, c: char)
    requires AlternativeOk(a) && (c == ',' || c == '|')
    ensures NonEmptyWithout(Print(a), c) && Print(a)[0] == a.name[0] != ' '
  {
  }

  lemma {:induction false} ReadAlternatives(alternatives: seq<Alternative>, k: nat)
    requires k <= |alternatives| && forall i | 0 <= i < |alternatives| :: AlternativeOk(alternatives[i])
    ensures ParseAlternatives(Padded(Texts(alternatives), " ")[k..]) == Some(alternatives[k..])
    decreases |alternatives| - k
  {
    hide ParseAlternative, AlternativeOk, Print;
    var tokens := Padded(Texts(alternatives), " ");
    if k < |alternatives| {
      ReadAlternatives(alternatives, k + 1);
      assert tokens[k..][1..] == tokens[k+1..] && tokens[k..][0] == tokens[k];
      ReadAlternative(if k == 0 then "" else " ", alternatives[k], if k == |alternatives| - 1 then "" else " ");
      assert alternatives[k..] == [alternatives[k]] + alternatives[k+1..];
    } else {
      NoAlternatives();
      assert tokens[k..] == [] && alternatives[k..] == [];
    }
  }

  /** The group a list of alternatives makes. */
  function GroupOf(alternatives: seq<Alternative>): Group {
    Group(PrintGroup(alternatives), |alternatives| > 1, alternatives)
  }

  function GroupsOf(groups: seq<seq<Alternative>>): (r: seq<Group>)
    ensures |r| == |groups| && forall i | 0 <= i < |r| :: r[i] == GroupOf(groups[i])
  {
    seq(|groups|, i requires 0 <= i < |groups| => GroupOf(groups[i]))
  }

  ghost predicate AlternativesOk(alternatives: seq<Alternative>) {
    |alternatives| > 0 && forall i | 0 <= i < |alternatives| :: AlternativeOk(alternatives[i])
  }

  lemma GroupTokens(alternatives: seq<Alternative>, c: char)
    requires AlternativesOk(alternatives) && (c == ',' || c == '|')
    ensures forall i | 0 <= i < |alternatives| :: NonEmptyWithout(Padded(Texts(alternatives), " ")[i], c)
    ensures Padded(Texts(alternatives), " ")[0][0] != ' '
  {
    hide Print, AlternativeOk;
    forall i | 0 <= i < |alternatives|
      ensures NonEmptyWithout(Padded(Texts(alternatives), " ")[i], c)
    {
      PrintAvoids(alternatives[i], c);
    }
    PrintAvoids(alternatives[0], c);
  }

  /** How a group's text is cut at its bars, and its alternatives read back. */
  lemma GroupText(alternatives: seq<Alternative>)
    requires AlternativesOk(alternatives)
    ensures var field, tokens := PrintGroup(alternatives), Padded(Texts(alternatives), " ");
      && Tokens(field, '|') == tokens && ParseAlternatives(tokens) == Some(alternatives)
      && field != "" && field[0] != ' '
      && tokens != [] && (field != tokens[0] <==> |alternatives| > 1)
  {
    var tokens := Padded(Texts(alternatives), " ");
    GroupTokens(alternatives, '|');
    GroupTokens(alternatives, ',');
    hide Tokens, ParseAlternatives, Padded, Texts, Print, AlternativeOk;
    DelimitedAvoids(tokens, '|', ',');
    TokensOfDelimited(tokens, '|');
    ReadAlternatives(alternatives, 0);
    assert tokens[0..] == tokens && alternatives[0..] == alternatives;
  }

  lemma ReadGroup(token: CString, lead: CString, alternatives: seq<Alternative>)
    requires AlternativesOk(alternatives) && (lead == "" || lead == " ")
    requires token == lead + PrintGroup(alternatives)
    ensures ParseGroup(token) == Some(GroupOf(alternatives))
  {
    GroupText(alternatives);
    hide ParseAlternatives, Tokens, Skip, Padded, PrintGroup, AlternativesOk, ParseGroup;
    SkipLead(token, lead, PrintGroup(alternatives));
    GroupIs(token, PrintGroup(alternatives));
  }

  lemma SkipLead(token: CString, lead: CString, field: CString)
    requires token == lead + field && (lead == "" || lead == " ") && field != "" && field[0] != ' '
    ensures Skip(token, {' '}) == field
  {
    hide Skip;
    SkipTake(lead, field, {' '});
  }

  /** A group by the part of its text behind the blanks. */
  lemma GroupIs(token: CString, field: CString)
    requires Skip(token, {' '}) == field
    ensures var tokens := Tokens(field, '|');
      tokens != [] && ParseAlternatives(tokens).Some? ==>
        ParseGroup(token) == Some(Group(field, field != tokens[0], ParseAlternatives(tokens).value))
  {
    hide Skip, Tokens, ParseAlternatives;
  }

  lemma ParseGroupsStep(tokens: seq<CString>, k: nat, g: Group, rest: seq<Group>)
    requires k < |tokens| && ParseGroup(tokens[k]) == Some(g) && ParseGroups(tokens[k+1..]) == Some(rest)
    ensures ParseGroups(tokens[k..]) == Some([g] + rest)
  {
    hide ParseGroup;
    assert tokens[k..][1..] == tokens[k+1..] && tokens[k..][0] == tokens[k];
  }

  lemma {:induction false} ReadGroups(groups: seq<seq<Alternative>>, k: nat)
    requires k <= |groups| && forall i | 0 <= i < |groups| :: AlternativesOk(groups[i])
    ensures ParseGroups(Padded(GroupTexts(groups), "")[k..]) ==
              Some(GroupsOf(groups)[k..])
    decreases |groups| - k
  {
    hide ParseGroup, AlternativesOk, PrintGroup, GroupOf, GroupTexts, Padded, GroupsOf;
    var tokens, all := Padded(GroupTexts(groups), ""), GroupsOf(groups);
    if k < |groups| {
      ReadGroups(groups, k + 1);
      var lead := if k == 0 then "" else " ";
      assert tokens[k] == lead + PrintGroup(groups[k]);
      ReadGroup(tokens[k], lead, groups[k]);
      ParseGroupsStep(tokens, k, all[k], all[k+1..]);
      assert all[k..] == [all[k]] + all[k+1..];
    } else {
      assert tokens[k..] == [] && all[k..] == [];
    }
  }

  /** A well-formed dependency field is read back from its text, group by group. */
  lemma FieldRoundTrip(groups: seq<seq<Alternative>>)
    requires |groups| > 0 && forall i | 0 <= i < |groups| :: AlternativesOk(groups[i])
    ensures ParseLine(PrintLine(groups)) == Some(GroupsOf(groups))
    ensures forall i | 0 <= i < |groups| :: GroupOk(GroupsOf(groups)[i])
  {
    hide ParseGroups, Tokens, PrintGroup;
    var tokens := Padded(GroupTexts(groups), "");
    forall i | 0 <= i < |groups|
      ensures NonEmptyWithout(tokens[i], ',')
    {
      GroupTextAvoidsComma(groups[i]);
    }
    TokensOfDelimited(tokens, ',');
    ReadGroups(groups, 0);
    assert tokens[0..] == tokens && GroupsOf(groups)[0..] == GroupsOf(groups);
  }

  lemma GroupTextAvoidsComma(alternatives: seq<Alternative>)
    requires AlternativesOk(alternatives)
    ensures NonEmptyWithout(PrintGroup(alternatives), ',')
  {
    GroupTokens(alternatives, ',');
    DelimitedAvoids(Padded(Texts(alternatives), " "), '|', ',');
  }

  // ----- Any text that is accepted -----

  lemma FirstTokenIsWhole(s: CString, delim: char)
    requires Tokens(s, delim) != [] && Tokens(s, delim)[0] == s
    ensures |Tokens(s, delim)| == 1
  {
    NoTokens(delim);
    var t := Skip(s, {delim});
    assert |Take(t, {delim})| == |s| && t == s;
    assert Drop(t, {delim}) == "";
  }

  /** Whatever text is accepted, a group with two alternatives gets its OR edge. */
  lemma {:induction false} ParsedGroupsOk(tokens: seq<CString>)
    requires ParseGroups(tokens).Some?
    ensures forall g | g in ParseGroups(tokens).value :: GroupOk(g)
    decreases |tokens|
  {
    if tokens != [] {
      ParsedGroupsOk(tokens[1..]);
      ParsedGroupOk(tokens[0]);
      hide ParseGroup;
    }
  }

  lemma {:induction false} ParseAlternativesLength(tokens: seq<CString>)
    requires ParseAlternatives(tokens).Some?
    ensures |ParseAlternatives(tokens).value| == |tokens|
    decreases |tokens|
  {
    hide ParseAlternative;
    if tokens != [] {
      ParseAlternativesLength(tokens[1..]);
    }
  }

  lemma ParsedGroupOk(token: CString)
    requires ParseGroup(token).Some?
    ensures GroupOk(ParseGroup(token).value)
  {
    hide ParseAlternatives, Tokens;
    var field := Skip(token, {' '});
    var tokens := Tokens(field, '|');
    ParseAlternativesLength(tokens);
    if field == tokens[0] {
      FirstTokenIsWhole(field, '|');
    }
  }

  lemma OneField(sat: Edge -> bool, f: Field)
    requires FieldKind(f.kind) && forall g | g in f.groups :: GroupOk(g)
    ensures FieldsOk([f]) && FieldsEdges([f]) == GroupsEdges(f.kind, f.groups)
    ensures FieldsSatisfied(sat, [f]) <==> GroupsSatisfied(sat, f.kind, f.groups)
  {
    hide GroupsEdges, GroupOk, FieldKind, GroupsSatisfied;
    assert [f][1..] == [] && [f][0] == f;
    assert FieldsEdges([]) == [];
  }

  /** For every text the procedure accepts, the walk over the edges it builds accepts exactly
      if each comma group of a dependency field has a satisfied alternative. */
  lemma AcceptedTextIsDecided(sat: Edge -> bool, kind: nat, line: CString)
    requires FieldKind(kind) && ParseLine(line).Some?
    ensures var groups := ParseLine(line).value;
      Walk(sat, GroupsEdges(kind, groups), 0, 0, None) == Accepted <==> GroupsSatisfied(sat, kind, groups)
  {
    var f := Field(kind, ParseLine(line).value);
    ParsedGroupsOk(Tokens(line, ','));
    hide *;
    OneField(sat, f);
    WalkDecidesFields(sat, [f]);
  }
}
