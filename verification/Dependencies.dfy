/** Package dependencies: their flattening into one list of edges per package, and the check
    that walks that list with a counter of alternatives. */
module Dependencies {
  import opened CStrings
  import opened HashProbe
  import opened NameTable
  import opened DebVersionOrder

  const EDGE_PRE_DEPENDS := 1
  const EDGE_OR_PRE_DEPENDS := 2
  const EDGE_DEPENDS := 3
  const EDGE_OR_DEPENDS := 4
  const EDGE_REPLACES := 5
  const EDGE_PROVIDES := 7
  const EDGE_CONFLICTS := 9
  const EDGE_SUGGESTS := 11
  const EDGE_RECOMMENDS := 13
  const EDGE_ENHANCES := 15

  /** An OR edge keeps the number of its alternatives where other edges keep a version. */
  datatype Edge = Edge(kind: nat, operator: Operator, name: CString, version: CString, alternatives: nat)

  datatype Package = Package(name: CString, version: CString, edges: seq<Edge>)

  datatype Status = Status(want: CString, flag: CString, state: CString)

  type Packages = seq<Option<Package>>

  // ----- Building the edge list -----

  datatype Alternative = Alternative(operator: Operator, name: CString, version: CString)

  /** One comma group: its text, and the alternatives between its bars. */
  datatype Group = Group(text: CString, barred: bool, alternatives: seq<Alternative>)

  /** One dependency field of a control file. */
  datatype Field = Field(kind: nat, groups: seq<Group>)

  predicate IsDependency(kind: nat) {
    kind == EDGE_DEPENDS || kind == EDGE_PRE_DEPENDS
  }

  predicate FieldKind(kind: nat) {
    IsDependency(kind) || kind == EDGE_REPLACES || kind == EDGE_PROVIDES || kind == EDGE_CONFLICTS
    || kind == EDGE_SUGGESTS || kind == EDGE_RECOMMENDS || kind == EDGE_ENHANCES
  }

  function EdgeOf(kind: nat, a: Alternative): Edge {
    Edge(kind, a.operator, a.name, a.version, 0)
  }

  function EdgesOf(kind: nat, alternatives: seq<Alternative>): (es: seq<Edge>)
    ensures |es| == |alternatives| && forall i | 0 <= i < |es| :: es[i] == EdgeOf(kind, alternatives[i])
  {
    seq(|alternatives|, i requires 0 <= i < |alternatives| => EdgeOf(kind, alternatives[i]))
  }

  function GroupEdges(kind: nat, g: Group): seq<Edge> {
    (if IsDependency(kind) && g.barred then [Edge(kind + 1, VerNull, g.text, "", |g.alternatives|)] else [])
    + EdgesOf(kind, g.alternatives)
  }

  function GroupsEdges(kind: nat, groups: seq<Group>): seq<Edge> {
    if groups == [] then [] else GroupEdges(kind, groups[0]) + GroupsEdges(kind, groups[1..])
  }

  function FieldsEdges(fields: seq<Field>): seq<Edge> {
    if fields == [] then [] else GroupsEdges(fields[0].kind, fields[0].groups) + FieldsEdges(fields[1..])
  }

  /** A group has an alternative, and a bar if it has two. */
  predicate GroupOk(g: Group) {
    |g.alternatives| > 0 && (|g.alternatives| > 1 ==> g.barred)
  }

  ghost predicate FieldsOk(fields: seq<Field>) {
    forall i | 0 <= i < |fields| :: FieldKind(fields[i].kind) && forall g | g in fields[i].groups :: GroupOk(g)
  }

  // ----- Walking the edge list -----

  datatype Verdict = Accepted | Unsatisfied(edge: nat) | Corrupt

  /** The walk from edge j on, with alts alternatives of the group headed by an OR edge of
      kind root still to be looked at. */
  function Walk(sat: Edge -> bool, edges: seq<Edge>, j: nat, alts: nat, root: Option<nat>): Verdict
    decreases |edges| - j
  {
    if j >= |edges| then Accepted
    else
      var e := edges[j];
      if e.kind == EDGE_OR_PRE_DEPENDS || e.kind == EDGE_OR_DEPENDS then
        Walk(sat, edges, j + 1, e.alternatives, Some(e.kind))
      else
        var alts1 := if alts == 0 then 1 else alts;
        var root1 := if alts == 0 then None else root;
        if !IsDependency(e.kind) then Walk(sat, edges, j + 1, alts1, root1)
        else if root1.Some? && e.kind + 1 != root1.value then Corrupt
        else if sat(e) then Walk(sat, edges, j + alts1, 0, root1)
        else if alts1 == 1 then Unsatisfied(j)
        else Walk(sat, edges, j + 1, alts1 - 1, root1)
  }

  /** Some alternative of the group is satisfied. */
  ghost predicate GroupSatisfied(sat: Edge -> bool, kind: nat, g: Group) {
    exists a | a in g.alternatives :: sat(EdgeOf(kind, a))
  }

  ghost predicate GroupsSatisfied(sat: Edge -> bool, kind: nat, groups: seq<Group>) {
    IsDependency(kind) ==> forall g | g in groups :: GroupSatisfied(sat, kind, g)
  }

  ghost predicate FieldsSatisfied(sat: Edge -> bool, fields: seq<Field>) {
    forall f | f in fields :: GroupsSatisfied(sat, f.kind, f.groups)
  }

  /** Between groups no alternative is pending, or one that belongs to no OR edge. */
  predicate Idle(alts: nat, root: Option<nat>) {
    alts == 0 || (alts == 1 && root.None?)
  }

  /** The edges es stand in the list from position j on. */
  ghost predicate Block(edges: seq<Edge>, j: nat, es: seq<Edge>) {
    j + |es| <= |edges| && forall i | 0 <= i < |es| :: edges[j + i] == es[i]
  }

  lemma SplitBlock(edges: seq<Edge>, j: nat, a: seq<Edge>, b: seq<Edge>)
    requires Block(edges, j, a + b)
    ensures Block(edges, j, a) && Block(edges, j + |a|, b)
  {
    forall i | 0 <= i < |a|
      ensures edges[j + i] == a[i]
    {
      assert (a + b)[i] == a[i];
    }
    forall i | 0 <= i < |b|
      ensures edges[j + |a| + i] == b[i]
    {
      assert (a + b)[|a| + i] == b[i];
    }
  }

  lemma StepInGroup(sat: Edge -> bool, edges: seq<Edge>, j: nat, n: nat, kind: nat)
    requires j < |edges| && n > 0 && IsDependency(kind) && edges[j].kind == kind
    ensures Walk(sat, edges, j, n, Some(kind + 1)) ==
              if sat(edges[j]) then Walk(sat, edges, j + n, 0, Some(kind + 1))
              else if n == 1 then Unsatisfied(j)
              else Walk(sat, edges, j + 1, n - 1, Some(kind + 1))
  {
  }

  /** What the walk does on the alternatives of one OR edge, from the k-th on. */
  lemma {:induction false} WalkAlternatives(sat: Edge -> bool, edges: seq<Edge>, j: nat, kind: nat, alternatives: seq<Alternative>, k: nat)
    requires IsDependency(kind) && k < |alternatives| && Block(edges, j, EdgesOf(kind, alternatives))
    ensures if exists i :: k <= i < |alternatives| && sat(EdgeOf(kind, alternatives[i]))
      then Walk(sat, edges, j + k, |alternatives| - k, Some(kind + 1)) == Walk(sat, edges, j + |alternatives|, 0, Some(kind + 1))
      else Walk(sat, edges, j + k, |alternatives| - k, Some(kind + 1)).Unsatisfied?
    decreases |alternatives| - k
  {
    assert edges[j + k] == EdgesOf(kind, alternatives)[k] == EdgeOf(kind, alternatives[k]);
    StepInGroup(sat, edges, j + k, |alternatives| - k, kind);
    hide Walk;
    if !sat(EdgeOf(kind, alternatives[k])) && k + 1 < |alternatives| {
      WalkAlternatives(sat, edges, j, kind, alternatives, k + 1);
    }
  }

  /** The walk does not care which of the idle states it starts in. */
  lemma IdleStatesAgree(sat: Edge -> bool, edges: seq<Edge>, j: nat, alts: nat, root: Option<nat>)
    requires Idle(alts, root)
    ensures Walk(sat, edges, j, alts, root) == Walk(sat, edges, j, 0, None)
  {
  }

  lemma {:induction false} WalkPlain(sat: Edge -> bool, edges: seq<Edge>, j: nat, kind: nat, alternatives: seq<Alternative>, k: nat)
    requires FieldKind(kind) && !IsDependency(kind)
    requires k <= |alternatives| && Block(edges, j, EdgesOf(kind, alternatives))
    ensures Walk(sat, edges, j + k, 0, None) == Walk(sat, edges, j + |alternatives|, 0, None)
    decreases |alternatives| - k
  {
    if k < |alternatives| {
      assert edges[j + k] == EdgesOf(kind, alternatives)[k] == EdgeOf(kind, alternatives[k]);
      IdleStatesAgree(sat, edges, j + k + 1, 1, None);
      WalkPlain(sat, edges, j, kind, alternatives, k + 1);
    }
  }

  lemma WalkBarred(sat: Edge -> bool, edges: seq<Edge>, j: nat, kind: nat, g: Group)
    requires IsDependency(kind) && GroupOk(g) && g.barred && Block(edges, j, GroupEdges(kind, g))
    ensures if GroupSatisfied(sat, kind, g)
      then Walk(sat, edges, j, 0, None) == Walk(sat, edges, j + |GroupEdges(kind, g)|, 0, None)
      else Walk(sat, edges, j, 0, None).Unsatisfied?
  {
    var head := Edge(kind + 1, VerNull, g.text, "", |g.alternatives|);
    SplitBlock(edges, j, [head], EdgesOf(kind, g.alternatives));
    assert edges[j + 0] == [head][0];
    assert Walk(sat, edges, j, 0, None) == Walk(sat, edges, j + 1, |g.alternatives|, Some(kind + 1));
    hide Walk;
    WalkAlternatives(sat, edges, j + 1, kind, g.alternatives, 0);
    IdleStatesAgree(sat, edges, j + 1 + |g.alternatives|, 0, Some(kind + 1));
  }

  lemma WalkSingle(sat: Edge -> bool, edges: seq<Edge>, j: nat, kind: nat, g: Group)
    requires IsDependency(kind) && GroupOk(g) && !g.barred && Block(edges, j, GroupEdges(kind, g))
    ensures if GroupSatisfied(sat, kind, g)
      then Walk(sat, edges, j, 0, None) == Walk(sat, edges, j + |GroupEdges(kind, g)|, 0, None)
      else Walk(sat, edges, j, 0, None).Unsatisfied?
  {
    assert edges[j + 0] == GroupEdges(kind, g)[0] == EdgeOf(kind, g.alternatives[0]);
  }

  /** A dependency group is passed exactly if one of its alternatives is satisfied. */
  lemma WalkGroup(sat: Edge -> bool, edges: seq<Edge>, j: nat, kind: nat, g: Group)
    requires FieldKind(kind) && GroupOk(g) && Block(edges, j, GroupEdges(kind, g))
    ensures if IsDependency(kind) && !GroupSatisfied(sat, kind, g)
      then Walk(sat, edges, j, 0, None).Unsatisfied?
      else Walk(sat, edges, j, 0, None) == Walk(sat, edges, j + |GroupEdges(kind, g)|, 0, None)
  {
    hide Walk, GroupSatisfied, Block;
    if !IsDependency(kind) {
      assert GroupEdges(kind, g) == EdgesOf(kind, g.alternatives);
      WalkPlain(sat, edges, j, kind, g.alternatives, 0);
    } else if g.barred {
      WalkBarred(sat, edges, j, kind, g);
    } else {
      WalkSingle(sat, edges, j, kind, g);
    }
  }

  lemma {:induction false} WalkGroups(sat: Edge -> bool, edges: seq<Edge>, j: nat, kind: nat, groups: seq<Group>)
    requires FieldKind(kind) && (forall g | g in groups :: GroupOk(g)) && Block(edges, j, GroupsEdges(kind, groups))
    ensures if !GroupsSatisfied(sat, kind, groups)
      then Walk(sat, edges, j, 0, None).Unsatisfied?
      else Walk(sat, edges, j, 0, None) == Walk(sat, edges, j + |GroupsEdges(kind, groups)|, 0, None)
    decreases |groups|
  {
    if groups == [] {
    } else {
      hide Walk, GroupEdges, GroupSatisfied, Block, FieldKind, IsDependency, GroupOk;
      var g, rest := groups[0], groups[1..];
      var here, tail := GroupEdges(kind, g), GroupsEdges(kind, rest);
      assert groups == [g] + rest;
      SplitBlock(edges, j, here, tail);
      WalkGroup(sat, edges, j, kind, g);
      if !IsDependency(kind) || GroupSatisfied(sat, kind, g) {
        WalkGroups(sat, edges, j + |here|, kind, rest);
      }
    }
  }

  lemma FieldsSatisfiedStep(sat: Edge -> bool, f: Field, rest: seq<Field>)
    ensures FieldsSatisfied(sat, [f] + rest) <==> GroupsSatisfied(sat, f.kind, f.groups) && FieldsSatisfied(sat, rest)
  {
    hide GroupsSatisfied;
    assert f in [f] + rest;
  }

  lemma NothingLeft(sat: Edge -> bool, edges: seq<Edge>, j: nat)
    requires j == |edges|
    ensures Walk(sat, edges, j, 0, None) == Accepted && FieldsSatisfied(sat, [])
  {
  }

  lemma {:induction false} WalkFields(sat: Edge -> bool, edges: seq<Edge>, j: nat, fields: seq<Field>)
    requires FieldsOk(fields) && Block(edges, j, FieldsEdges(fields)) && j + |FieldsEdges(fields)| == |edges|
    ensures if FieldsSatisfied(sat, fields) then Walk(sat, edges, j, 0, None) == Accepted
      else Walk(sat, edges, j, 0, None).Unsatisfied?
    decreases |fields|
  {
    hide GroupsEdges, GroupsSatisfied, FieldsSatisfied, GroupOk, FieldKind, Block;
    if fields == [] {
      NothingLeft(sat, edges, j);
    } else {
      var f, rest := fields[0], fields[1..];
      var here, tail := GroupsEdges(f.kind, f.groups), FieldsEdges(rest);
      assert fields == [f] + rest && FieldsEdges(fields) == here + tail;
      assert FieldsOk(rest) && f == fields[0];
      hide Walk, FieldsEdges;
      SplitBlock(edges, j, here, tail);
      FieldsSatisfiedStep(sat, f, rest);
      WalkGroups(sat, edges, j, f.kind, f.groups);
      if GroupsSatisfied(sat, f.kind, f.groups) {
        WalkFields(sat, edges, j + |here|, rest);
      }
    }
  }

  /** The walk over a list built from control fields accepts exactly if every comma group of
      every dependency field has a satisfied alternative, and never calls the list corrupt. */
  lemma WalkDecidesFields(sat: Edge -> bool, fields: seq<Field>)
    requires FieldsOk(fields)
    ensures Walk(sat, FieldsEdges(fields), 0, 0, None) == Accepted <==> FieldsSatisfied(sat, fields)
    ensures Walk(sat, FieldsEdges(fields), 0, 0, None) != Corrupt
  {
    WalkFields(sat, FieldsEdges(fields), 0, fields);
  }
}
