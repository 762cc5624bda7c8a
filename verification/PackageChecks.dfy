/** From the texts of control fields to the verdict.
    Packages are filled from their fields, stored in the table one after the other, and checked. What
    is proved about one field, one store and one list of edges is put together here. */
module PackageChecks {
  import opened CStrings
  import opened HashProbe
  import opened NameTable
  import opened DebVersionOrder
  import opened Dependencies
  import opened DependencyText
  import opened ControlText
  import opened PackageTable
  import opened PackageConflicts

  // ----- One package -----

  predicate Readable(texts: seq<(nat, CString)>) {
    forall i | 0 <= i < |texts| :: FieldKind(texts[i].0) && ParseLine(texts[i].1).Some?
  }

  function FieldsOf(texts: seq<(nat, CString)>): seq<Field>
    requires Readable(texts)
  {
    if texts == [] then []
    else
      var n := |texts| - 1;
      FieldsOf(texts[..n]) + [Field(texts[n].0, ParseLine(texts[n].1).value)]
  }

  function PackageOf(c: Control): Package
    requires Readable(c.texts)
  {
    Package(c.name, c.version, FieldsEdges(FieldsOf(c.texts)))
  }

  lemma {:induction false} FieldsEdgesAppend(fields: seq<Field>, f: Field)
    ensures FieldsEdges(fields + [f]) == FieldsEdges(fields) + GroupsEdges(f.kind, f.groups)
  {
    hide GroupsEdges;
    if fields == [] {
      assert [f][1..] == [] && [] + [f] == [f];
    } else {
      FieldsEdgesAppend(fields[1..], f);
      assert (fields + [f])[1..] == fields[1..] + [f];
    }
  }

  lemma {:induction false} FieldsOfOk(texts: seq<(nat, CString)>)
    requires Readable(texts)
    ensures FieldsOk(FieldsOf(texts))
  {
    hide ParseLine, ParseGroups, FieldKind, GroupOk;
    if texts != [] {
      var n := |texts| - 1;
      FieldsOfOk(texts[..n]);
      ParsedLineOk(texts[n].1);
      assert FieldKind(texts[n].0);
    }
  }

  lemma ParsedLineOk(line: CString)
    requires ParseLine(line).Some?
    ensures forall g | g in ParseLine(line).value :: GroupOk(g)
  {
    hide GroupOk, Tokens;
    ParsedGroupsOk(Tokens(line, ','));
  }

  lemma NothingRead()
    ensures Readable([]) && FieldsEdges(FieldsOf([])) == []
  {
  }

  /** One text more: readable if it is, with its edges behind the others. */
  lemma TextEntered(texts: seq<(nat, CString)>, kind: nat, text: CString)
    requires Readable(texts) && FieldKind(kind)
    ensures Readable(texts + [(kind, text)]) <==> ParseLine(text).Some?
    ensures ParseLine(text).Some? ==>
      FieldsEdges(FieldsOf(texts + [(kind, text)])) == FieldsEdges(FieldsOf(texts)) + GroupsEdges(kind, ParseLine(text).value)
  {
    hide ParseLine, GroupsEdges, FieldsEdges, FieldKind;
    var more := texts + [(kind, text)];
    assert more[..|texts|] == texts && more[|texts|] == (kind, text);
    if ParseLine(text).Some? {
      FieldsEdgesAppend(FieldsOf(texts), Field(kind, ParseLine(text).value));
    } else {
      assert !Readable(more);
    }
  }

  /** What the fields read so far make of the package. */
  ghost predicate Filled(d: Draft, name: Option<CString>, version: CString, edges: seq<Edge>) {
    Readable(d.texts) && name == d.name && version == d.version && edges == FieldsEdges(FieldsOf(d.texts))
  }

  /** The switch over the name of the field; not ok if a dependency field cannot be read. */
  method EnterField(ghost d: Draft, name: Option<CString>, version: CString, edges: seq<Edge>, field: CString, value: CString)
    returns (ok: bool, name1: Option<CString>, version1: CString, edges1: seq<Edge>)
    requires Filled(d, name, version, edges)
    ensures ok <==> Readable(Enter(d, field, value).texts)
    ensures ok ==> Filled(Enter(d, field, value), name1, version1, edges1)
  {
    hide Readable, FieldsOf, KindOf, ParseLine, GroupsEdges, FieldsEdges, FieldKind;
    ok, name1, version1, edges1 := true, name, version, edges;
    if field == "Package" {
      name1 := Some(value);
    } else if field == "Version" {
      version1 := value;
    } else {
      var kind := KindOf(field);
      if kind.Some? {
        var more;
        TextEntered(d.texts, kind.value, value);
        ok, more := AddSplitDependencies(value, kind.value);
        edges1 := edges + more;
      }
    }
  }

  function PackageOfText(text: CString): Option<Package> {
    match ParseControl(text)
    case None => None
    case Some(c) => if Readable(c.texts) then Some(PackageOf(c)) else None
  }

  /** What is read after some fields: more of them, or nothing. */
  function Behind(done: seq<(CString, CString)>, more: Option<seq<(CString, CString)>>): Option<seq<(CString, CString)>> {
    match more
    case None => None
    case Some(fields) => Some(done + fields)
  }

  lemma FieldsTurn(text: CString, start: nat, done: seq<(CString, CString)>)
    requires start < |text|
    ensures var r := ReadField(From(text, start));
      && (r.PastEnd? ==> Fields(text, start).None?)
      && (r.Unnamed? ==> Fields(text, start) == Fields(text, start + r.next))
      && (r.Named? ==> Behind(done, Fields(text, start)) == Behind(done + [(r.name, r.value)], Fields(text, start + r.next)))
      && (!r.PastEnd? ==> r.next > 0)
  {
    hide Scan, From;
    var r := ReadField(From(text, start));
    if r.Named? && Fields(text, start + r.next).Some? {
      var more := Fields(text, start + r.next).value;
      assert done + ([(r.name, r.value)] + more) == done + [(r.name, r.value)] + more;
    }
  }

  lemma {:induction false} EnteredTextsStay(done: seq<(CString, CString)>, more: seq<(CString, CString)>)
    ensures EnterAll(done).texts <= EnterAll(done + more).texts
  {
    if more == [] {
      assert done + more == done;
    } else {
      var n := |more| - 1;
      EnteredTextsStay(done, more[..n]);
      assert (done + more)[..|done + more|-1] == done + more[..n];
      hide KindOf;
    }
  }

  lemma UnreadableStays(texts: seq<(nat, CString)>, more: seq<(nat, CString)>)
    requires !Readable(texts) && texts <= more
    ensures !Readable(more)
  {
    hide ParseLine, FieldKind;
    var i :| 0 <= i < |texts| && !(FieldKind(texts[i].0) && ParseLine(texts[i].1).Some?);
    assert more[i] == texts[i];
  }

  lemma UnreadableText(text: CString, start: nat, done: seq<(CString, CString)>)
    requires Fields(text, 0) == Behind(done, Fields(text, start)) && !Readable(EnterAll(done).texts)
    ensures PackageOfText(text) == None
  {
    hide Fields, EnterAll, Readable;
    if Fields(text, start).Some? {
      EnteredTextsStay(done, Fields(text, start).value);
      UnreadableStays(EnterAll(done).texts, EnterAll(done + Fields(text, start).value).texts);
    }
  }

  lemma {:induction false} EnteredLast(done: seq<(CString, CString)>, field: CString, value: CString)
    ensures EnterAll(done + [(field, value)]) == Enter(EnterAll(done), field, value)
  {
    assert (done + [(field, value)])[..|done|] == done;
  }

  lemma StartOfFields(text: CString)
    ensures Filled(EnterAll([]), None, UNKNOWN, []) && Fields(text, 0) == Behind([], Fields(text, 0))
  {
    NothingRead();
    hide Fields;
    if Fields(text, 0).Some? {
      assert [] + Fields(text, 0).value == Fields(text, 0).value;
    }
  }

  lemma EndOfFields(text: CString, start: nat, done: seq<(CString, CString)>, name: Option<CString>, version: CString, edges: seq<Edge>)
    requires start >= |text| && Fields(text, 0) == Behind(done, Fields(text, start)) && Filled(EnterAll(done), name, version, edges)
    ensures PackageOfText(text) == if name.None? then None else Some(Package(name.value, version, edges))
  {
    assert Fields(text, start) == Some([]) && done + [] == done;
    hide Fields, EnterAll, Readable, FieldsEdges, FieldsOf;
  }

  /** fill_package_struct: no package if a field cannot be read, or there is no name. */
  method FillPackage(text: CString) returns (pkg: Option<Package>)
    ensures pkg == PackageOfText(text)
  {
    hide *;
    var start, edges: seq<Edge> := 0, [];
    var name: Option<CString>, version := None, UNKNOWN;
    ghost var done: seq<(CString, CString)> := [];
    StartOfFields(text);
    while start < |text|
      invariant Fields(text, 0) == Behind(done, Fields(text, start))
      invariant Filled(EnterAll(done), name, version, edges)
      decreases |text| - start
    {
      FieldsTurn(text, start, done);
      var r := ReadPackageField(From(text, start));
      match r {
        case PastEnd =>
          PastEndHasNoPackage(text, start, done);
          return None;
        case Unnamed(next) =>
          start := start + next;
        case Named(next, field, value) =>
          var ok;
          ok, name, version, edges := EnterField(EnterAll(done), name, version, edges, field, value);
          EnteredLast(done, field, value);
          done := done + [(field, value)];
          start := start + next;
          if !ok {
            UnreadableText(text, start, done);
            return None;
          }
      }
    }
    EndOfFields(text, start, done, name, version, edges);
    return if name.None? then None else Some(Package(name.value, version, edges));
  }

  lemma PastEndHasNoPackage(text: CString, start: nat, done: seq<(CString, CString)>)
    requires Fields(text, 0) == Behind(done, Fields(text, start)) && Fields(text, start).None?
    ensures PackageOfText(text) == None
  {
    hide Fields;
  }

  // ----- The table -----

  /** The table after a control file has been read: a package without a version is not stored. */
  function Stored(t: Packages, hash: string -> nat, p: nat, pkg: Package): Packages
    requires p >= 2 && |t| == p + 1
  {
    if pkg.version == UNKNOWN then t
    else t[FindPackage(t, hash, p, pkg.name, pkg.version, VerEqual) := Some(pkg)]
  }

  function Empty(p: nat): (t: Packages)
    ensures |t| == p + 1 && forall a | 0 <= a <= p :: t[a].None?
  {
    seq(p + 1, _ => None)
  }

  predicate AllReadable(controls: seq<Control>) {
    forall i | 0 <= i < |controls| :: Readable(controls[i].texts)
  }

  function Table(hash: string -> nat, p: nat, controls: seq<Control>): (t: Packages)
    requires p >= 2 && AllReadable(controls)
    ensures |t| == p + 1
  {
    if controls == [] then Empty(p)
    else
      var n := |controls| - 1;
      Stored(Table(hash, p, controls[..n]), hash, p, PackageOf(controls[n]))
  }

  /** Every stored package is that of some control file. */
  ghost predicate FromControls(t: Packages, p: nat, controls: seq<Control>)
    requires |t| > p && AllReadable(controls)
  {
    forall a | 0 <= a < p && t[a].Some? :: exists i :: 0 <= i < |controls| && t[a].value == PackageOf(controls[i])
  }

  lemma StoredIsOk(t: Packages, hash: string -> nat, p: nat, pkg: Package, n: nat)
    requires TableOk(t, hash, p) && |Occupied(t, p)| <= n && n + 1 < p
    ensures TableOk(Stored(t, hash, p, pkg), hash, p)
    ensures |Occupied(Stored(t, hash, p, pkg), p)| <= n + 1
  {
    var t1 := Stored(t, hash, p, pkg);
    if pkg.version != UNKNOWN {
      StoreKeepsPaths(t, hash, p, pkg, pkg.version, VerEqual);
      var id := FindPackage(t, hash, p, pkg.name, pkg.version, VerEqual);
      hide AllOnPath, FindPackage;
      assert Occupied(t1, p) <= Occupied(t, p) + {id};
      SubsetSize(Occupied(t1, p), Occupied(t, p) + {id});
      var free := FreeSlot(t1, p);
    }
  }

  lemma EmptyIsOk(hash: string -> nat, p: nat)
    requires Prime(p)
    ensures TableOk(Empty(p), hash, p) && Occupied(Empty(p), p) == {}
  {
    assert Empty(p)[0].None?;
  }

  /** Every table made by fewer stores than it has slots keeps all its packages reachable. */
  lemma {:induction false} TableIsOk(hash: string -> nat, p: nat, controls: seq<Control>)
    requires Prime(p) && AllReadable(controls) && |controls| < p
    ensures var t := Table(hash, p, controls);
      TableOk(t, hash, p) && |Occupied(t, p)| <= |controls| && FromControls(t, p, controls)
  {
    hide TableOk, Prime, Occupied;
    if controls == [] {
      EmptyIsOk(hash, p);
    } else {
      var n := |controls| - 1;
      var t := Table(hash, p, controls[..n]);
      TableIsOk(hash, p, controls[..n]);
      StoredIsOk(t, hash, p, PackageOf(controls[n]), n);
      StoredFromControls(t, hash, p, controls);
    }
  }

  lemma StoredFromControls(t: Packages, hash: string -> nat, p: nat, controls: seq<Control>)
    requires p >= 2 && |t| == p + 1 && controls != [] && AllReadable(controls)
    requires FromControls(t, p, controls[..|controls|-1])
    ensures FromControls(Stored(t, hash, p, PackageOf(controls[|controls|-1])), p, controls)
  {
    hide FindPackage, PackageOf, Readable;
    var n := |controls| - 1;
    var t1 := Stored(t, hash, p, PackageOf(controls[n]));
    forall a | 0 <= a < p && t1[a].Some?
      ensures exists i :: 0 <= i < |controls| && t1[a].value == PackageOf(controls[i])
    {
      if t1[a] == t[a] {
        var i :| 0 <= i < n && t[a].value == PackageOf(controls[..n][i]);
        assert controls[i] == controls[..n][i];
      } else {
        assert t1[a].value == PackageOf(controls[n]);
      }
    }
  }

  function SlotOf(t: Packages, hash: string -> nat, p: nat, pkg: Package): nat
    requires p >= 2 && |t| >= p
  {
    FindPackage(t, hash, p, pkg.name, pkg.version, VerEqual)
  }

  /** The end of fill_package_struct: replace what the search ends at, and give the slot. */
  method StorePackage(t: array<Option<Package>>, hash: string -> nat, p: nat, pkg: Package) returns (num: Option<nat>)
    requires t.Length == p + 1 && TableOk(t[..], hash, p)
    modifies t
    ensures t[..] == Stored(old(t[..]), hash, p, pkg)
    ensures num == if pkg.version == UNKNOWN then None else Some(SlotOf(old(t[..]), hash, p, pkg))
  {
    hide Satisfies, Locate;
    if pkg.version == UNKNOWN {
      return None;
    }
    StoreKeepsPaths(t[..], hash, p, pkg, pkg.version, VerEqual);
    hide TableOk, AllOnPath, FindPackage;
    TableIsPrime(t[..], hash, p);
    var id := SearchPackageHashtable(t, hash, p, pkg.name, pkg.version, VerEqual);
    t[id] := Some(pkg);
    num := Some(id);
  }

  // ----- The packages to be processed -----

  /** The slots of the packages of all control files but the first ones, which are those of packages
      known before. */
  function Debs(hash: string -> nat, p: nat, controls: seq<Control>, first: nat): seq<nat>
    requires p >= 2 && AllReadable(controls)
  {
    if |controls| <= first then []
    else
      var n := |controls| - 1;
      var pkg := PackageOf(controls[n]);
      Debs(hash, p, controls[..n], first)
      + if pkg.version == UNKNOWN then [] else [SlotOf(Table(hash, p, controls[..n]), hash, p, pkg)]
  }

  /** The name is that of a package to be processed. */
  ghost predicate DebName(controls: seq<Control>, first: nat, name: CString) {
    exists i | first <= i < |controls| :: controls[i].version != UNKNOWN && controls[i].name == name
  }

  ghost predicate DebsAt(t: Packages, p: nat, debs: seq<nat>, controls: seq<Control>, first: nat) {
    AllStored(t, p, debs) && forall k | 0 <= k < |debs| :: DebName(controls, first, t[debs[k]].value.name)
  }

  /** Packages to be processed stay in their slots, or are replaced by others of the same name. */
  lemma {:induction false} DebsAreStored(hash: string -> nat, p: nat, controls: seq<Control>, first: nat)
    requires Prime(p) && AllReadable(controls) && |controls| < p
    ensures p >= 2 && DebsAt(Table(hash, p, controls), p, Debs(hash, p, controls, first), controls, first)
  {
    PrimeIsLarge(p);
    if |controls| > first {
      hide Prime, TableOk, DebsAt, PackageOf, Stored, SlotOf;
      var n := |controls| - 1;
      TableIsOk(hash, p, controls[..n]);
      DebsAreStored(hash, p, controls[..n], first);
      DebStored(Table(hash, p, controls[..n]), hash, p, Debs(hash, p, controls[..n], first), controls, first);
    }
  }

  /** Storing a package keeps every slot filled, and under the name it had. */
  lemma StoredKeepsNames(t: Packages, hash: string -> nat, p: nat, pkg: Package)
    requires TableOk(t, hash, p)
    ensures p >= 2 && |t| == p + 1
    ensures var t1, id := Stored(t, hash, p, pkg), SlotOf(t, hash, p, pkg);
      && |t1| == p + 1
      && (forall a | 0 <= a < p && t[a].Some? :: t1[a].Some? && t1[a].value.name == t[a].value.name)
      && (pkg.version != UNKNOWN ==> id < p && t1[id] == Some(pkg))
  {
    TableIsPrime(t, hash, p);
    StoreKeepsPaths(t, hash, p, pkg, pkg.version, VerEqual);
    hide TableOk, AllOnPath, FindPackage;
  }

  lemma NewDeb(controls: seq<Control>, first: nat)
    requires |controls| > first && Readable(controls[|controls|-1].texts)
    ensures var pkg := PackageOf(controls[|controls|-1]); pkg.version != UNKNOWN ==> DebName(controls, first, pkg.name)
  {
    hide Readable, FieldsEdges, FieldsOf;
    var c := controls[|controls|-1];
    assert PackageOf(c).name == c.name && PackageOf(c).version == c.version;
  }

  lemma DebsSurvive(t: Packages, t1: Packages, p: nat, debs: seq<nat>, more: seq<nat>, controls: seq<Control>, first: nat)
    requires controls != [] && DebsAt(t, p, debs, controls[..|controls|-1], first) && |t1| == |t|
    requires forall a | 0 <= a < p && t[a].Some? :: t1[a].Some? && t1[a].value.name == t[a].value.name
    requires DebsAt(t1, p, more, controls, first)
    ensures DebsAt(t1, p, debs + more, controls, first)
  {
    hide DebName;
    forall k | 0 <= k < |debs + more|
      ensures (debs + more)[k] < p && t1[(debs + more)[k]].Some? && DebName(controls, first, t1[(debs + more)[k]].value.name)
    {
      if k < |debs| {
        DebNameStays(controls, first, t[debs[k]].value.name);
      } else {
        assert (debs + more)[k] == more[k - |debs|];
      }
    }
  }

  lemma NewDebAt(t: Packages, p: nat, id: nat, pkg: Package, controls: seq<Control>, first: nat)
    requires id < p < |t| && t[id] == Some(pkg) && DebName(controls, first, pkg.name)
    ensures DebsAt(t, p, [id], controls, first)
  {
    hide DebName;
  }

  lemma NoDebs(t: Packages, p: nat, controls: seq<Control>, first: nat)
    requires |t| > p
    ensures DebsAt(t, p, [], controls, first)
  {
  }

  lemma DebStored(t: Packages, hash: string -> nat, p: nat, debs: seq<nat>, controls: seq<Control>, first: nat)
    requires TableOk(t, hash, p) && |controls| > first && Readable(controls[|controls|-1].texts)
    requires DebsAt(t, p, debs, controls[..|controls|-1], first)
    ensures p >= 2 && |t| == p + 1
    ensures var pkg := PackageOf(controls[|controls|-1]);
      DebsAt(Stored(t, hash, p, pkg), p, debs + if pkg.version == UNKNOWN then [] else [SlotOf(t, hash, p, pkg)], controls, first)
  {
    hide *;
    var pkg := PackageOf(controls[|controls|-1]);
    StoredKeepsNames(t, hash, p, pkg);
    NewDeb(controls, first);
    var t1, id := Stored(t, hash, p, pkg), SlotOf(t, hash, p, pkg);
    if pkg.version == UNKNOWN {
      NoDebs(t1, p, controls, first);
      DebsSurvive(t, t1, p, debs, [], controls, first);
    } else {
      NewDebAt(t1, p, id, pkg, controls, first);
      DebsSurvive(t, t1, p, debs, [id], controls, first);
    }
  }

  lemma DebNameStays(controls: seq<Control>, first: nat, name: CString)
    requires controls != [] && DebName(controls[..|controls|-1], first, name)
    ensures DebName(controls, first, name)
  {
    var i :| first <= i < |controls| - 1 && controls[..|controls|-1][i].version != UNKNOWN && controls[..|controls|-1][i].name == name;
    assert controls[i] == controls[..|controls|-1][i];
  }

  // ----- The verdict -----

  ghost predicate InTable(t: Packages, p: nat, pkg: Package)
    requires |t| > p
  {
    exists a: nat :: a < p && t[a] == Some(pkg)
  }

  /** Every stored package that is to be installed has each comma group of each of its dependency
      texts satisfied. */
  ghost predicate TextsSatisfied(t: Packages, sat: Edge -> bool, status: map<CString, Status>, p: nat, controls: seq<Control>)
    requires |t| > p && AllReadable(controls)
  {
    forall i | 0 <= i < |controls| && InTable(t, p, PackageOf(controls[i])) && ToBeInstalled(status, PackageOf(controls[i])) ::
      FieldsSatisfied(sat, FieldsOf(controls[i].texts))
  }

  /** The fields that the package in slot a was filled from. */
  ghost function Source(t: Packages, p: nat, controls: seq<Control>, a: nat): (i: nat)
    requires |t| > p && AllReadable(controls) && FromControls(t, p, controls) && a < p && t[a].Some?
    ensures i < |controls| && t[a].value == PackageOf(controls[i])
  {
    var i: nat :| i < |controls| && t[a].value == PackageOf(controls[i]);
    i
  }

  ghost function SourceFields(t: Packages, p: nat, controls: seq<Control>): map<nat, seq<Field>>
    requires |t| > p && AllReadable(controls) && FromControls(t, p, controls)
  {
    map a: nat | a < p && t[a].Some? :: FieldsOf(controls[Source(t, p, controls, a)].texts)
  }

  /** Control files that fill the same package want the same. */
  lemma SamePackageSameFields(sat: Edge -> bool, c: Control, d: Control)
    requires Readable(c.texts) && Readable(d.texts) && PackageOf(c) == PackageOf(d)
    ensures FieldsSatisfied(sat, FieldsOf(c.texts)) <==> FieldsSatisfied(sat, FieldsOf(d.texts))
  {
    FieldsOfOk(c.texts);
    FieldsOfOk(d.texts);
    hide FieldsSatisfied, FieldsOf, FieldsOk, FieldsEdges, Walk;
    WalkDecidesFields(sat, FieldsOf(c.texts));
    WalkDecidesFields(sat, FieldsOf(d.texts));
  }

  /** What the fields kept for a slot want is what any control file of its package wants. */
  lemma SlotDecides(t: Packages, sat: Edge -> bool, p: nat, controls: seq<Control>, a: nat, i: nat)
    requires |t| > p && AllReadable(controls) && FromControls(t, p, controls) && a < p && i < |controls|
    requires t[a] == Some(PackageOf(controls[i]))
    ensures a in SourceFields(t, p, controls)
    ensures FieldsSatisfied(sat, SourceFields(t, p, controls)[a]) <==> FieldsSatisfied(sat, FieldsOf(controls[i].texts))
  {
    hide FieldsSatisfied, FieldsOf, FromControls, PackageOf;
    SamePackageSameFields(sat, controls[i], controls[Source(t, p, controls, a)]);
  }

  lemma SourcesDecide(t: Packages, sat: Edge -> bool, status: map<CString, Status>, p: nat, controls: seq<Control>)
    requires |t| > p && AllReadable(controls) && FromControls(t, p, controls)
    ensures TextsSatisfied(t, sat, status, p, controls) <==> AllSatisfied(t, p, status, SourceFields(t, p, controls), sat)
  {
    hide FieldsSatisfied, FieldsOf, Readable, ToBeInstalled, FromControls, PackageOf;
    var fields := SourceFields(t, p, controls);
    assert forall a: nat | a < p && t[a].Some? :: a in fields;
    hide SourceFields;
    if TextsSatisfied(t, sat, status, p, controls) {
      forall a: nat | a < p && t[a].Some? && ToBeInstalled(status, t[a].value)
        ensures FieldsSatisfied(sat, fields[a])
      {
        var i := Source(t, p, controls, a);
        assert InTable(t, p, PackageOf(controls[i]));
        SlotDecides(t, sat, p, controls, a, i);
      }
    }
    if AllSatisfied(t, p, status, fields, sat) {
      hide AllReadable;
      forall i | 0 <= i < |controls| && InTable(t, p, PackageOf(controls[i])) && ToBeInstalled(status, PackageOf(controls[i]))
        ensures FieldsSatisfied(sat, FieldsOf(controls[i].texts))
      {
        var a: nat :| a < p && t[a] == Some(PackageOf(controls[i]));
        SlotDecides(t, sat, p, controls, a, i);
      }
    }
  }

  lemma SourcesFit(t: Packages, p: nat, controls: seq<Control>)
    requires |t| > p && AllReadable(controls) && FromControls(t, p, controls)
    ensures FieldsFit(t, p, SourceFields(t, p, controls))
  {
    hide FromControls, FieldsOk, FieldsEdges, FieldsOf;
    forall a: nat | a < p && t[a].Some?
      ensures var fields := SourceFields(t, p, controls); a in fields && FieldsOk(fields[a]) && t[a].value.edges == FieldsEdges(fields[a])
    {
      FieldsOfOk(controls[Source(t, p, controls, a)].texts);
    }
  }

  // ----- From texts -----

  predicate Legible(texts: seq<CString>) {
    forall i | 0 <= i < |texts| :: PackageOfText(texts[i]).Some?
  }

  function Controls(texts: seq<CString>): (controls: seq<Control>)
    requires Legible(texts)
    ensures |controls| == |texts| && AllReadable(controls)
    ensures forall i | 0 <= i < |texts| :: ParseControl(texts[i]) == Some(controls[i]) && PackageOfText(texts[i]) == Some(PackageOf(controls[i]))
  {
    seq(|texts|, i requires 0 <= i < |texts| => ParseControl(texts[i]).value)
  }

  /** Read all control files and store their packages. */
  method ReadControls(t: array<Option<Package>>, hash: string -> nat, p: nat, texts: seq<CString>, first: nat)
    returns (ok: bool, debs: seq<nat>)
    requires Prime(p) && p >= 2 && |texts| < p && t.Length == p + 1 && t[..] == Empty(p)
    modifies t
    ensures ok <==> Legible(texts)
    ensures ok ==> t[..] == Table(hash, p, Controls(texts)) && debs == Debs(hash, p, Controls(texts), first)
  {
    hide *;
    debs := [];
    StartOfControls(hash, p, texts, first);
    for n := 0 to |texts|
      invariant Legible(texts[..n]) && t[..] == Table(hash, p, Controls(texts[..n])) && debs == Debs(hash, p, Controls(texts[..n]), first)
    {
      var pkg := FillPackage(texts[n]);
      LegibleTurn(texts, n);
      if pkg.None? {
        return false, [];
      }
      ControlsTurn(hash, p, texts, n, first);
      var num := StorePackage(t, hash, p, pkg.value);
      if n >= first && num.Some? {
        debs := debs + [num.value];
      }
    }
    assert texts[..|texts|] == texts;
    ok := true;
  }

  lemma StartOfControls(hash: string -> nat, p: nat, texts: seq<CString>, first: nat)
    requires p >= 2
    ensures Legible(texts[..0]) && Table(hash, p, Controls(texts[..0])) == Empty(p) && Debs(hash, p, Controls(texts[..0]), first) == []
  {
  }

  lemma LegibleTurn(texts: seq<CString>, n: nat)
    requires n < |texts| && Legible(texts[..n])
    ensures Legible(texts[..n+1]) <==> PackageOfText(texts[n]).Some?
    ensures PackageOfText(texts[n]).None? ==> !Legible(texts)
  {
    hide PackageOfText;
    assert texts[..n+1][n] == texts[n] && forall i | 0 <= i < n :: texts[..n+1][i] == texts[..n][i];
  }

  lemma ControlsOfMore(texts: seq<CString>, n: nat)
    requires n < |texts| && Legible(texts[..n]) && Legible(texts[..n+1])
    ensures Controls(texts[..n+1])[..n] == Controls(texts[..n])
    ensures PackageOfText(texts[n]) == Some(PackageOf(Controls(texts[..n+1])[n]))
  {
    hide PackageOfText, ParseControl, PackageOf;
    assert texts[..n+1][n] == texts[n];
    forall i | 0 <= i < n
      ensures Controls(texts[..n+1])[i] == Controls(texts[..n])[i]
    {
      assert texts[..n+1][i] == texts[..n][i];
    }
  }

  /** One control file more. */
  lemma TableOfMore(hash: string -> nat, p: nat, controls: seq<Control>, first: nat)
    requires p >= 2 && controls != [] && AllReadable(controls)
    ensures var n := |controls| - 1;
      var t, pkg := Table(hash, p, controls[..n]), PackageOf(controls[n]);
      && Table(hash, p, controls) == Stored(t, hash, p, pkg)
      && Debs(hash, p, controls, first) ==
           Debs(hash, p, controls[..n], first) + if n < first || pkg.version == UNKNOWN then [] else [SlotOf(t, hash, p, pkg)]
  {
    hide Stored, SlotOf, PackageOf;
  }

  lemma ControlsTurn(hash: string -> nat, p: nat, texts: seq<CString>, n: nat, first: nat)
    requires Prime(p) && p >= 2 && n < |texts| < p && Legible(texts[..n]) && Legible(texts[..n+1])
    ensures PackageOfText(texts[n]).Some?
    ensures var t, pkg := Table(hash, p, Controls(texts[..n])), PackageOfText(texts[n]).value;
      && TableOk(t, hash, p)
      && Table(hash, p, Controls(texts[..n+1])) == Stored(t, hash, p, pkg)
      && Debs(hash, p, Controls(texts[..n+1]), first) ==
           Debs(hash, p, Controls(texts[..n]), first)
           + if n < first || pkg.version == UNKNOWN then [] else [SlotOf(t, hash, p, pkg)]
  {
    hide *;
    TableIsOk(hash, p, Controls(texts[..n]));
    ControlsOfMore(texts, n);
    TableOfMore(hash, p, Controls(texts[..n+1]), first);
  }

  /** What the program relies on: a status for every package to be processed, and room in the table
      for the names they provide. */
  ghost predicate Prepared(hash: string -> nat, p: nat, controls: seq<Control>, first: nat, status: map<CString, Status>)
    requires p >= 2 && AllReadable(controls)
  {
    var t, debs := Table(hash, p, controls), Debs(hash, p, controls, first);
    && (forall name | DebName(controls, first, name) :: name in status)
    && (AllStored(t, p, debs) ==> |controls| + |ProvidedByAll(t, p, debs)| < p)
  }

  /** From the texts of all control files to the verdict: they cannot be read; or a status is missing
      where the conflicts are checked; or the packages are accepted, which is when no conflict is
      reported and every stored package that is to be installed has all its dependencies satisfied. */
  method CheckControls(t: array<Option<Package>>, hash: string -> nat, p: nat, texts: seq<CString>, first: nat, status: map<CString, Status>)
    returns (ok: bool, accepted: Option<bool>, trouble: Trouble)
    requires Prime(p) && p >= 2 && |texts| < p && t.Length == p + 1 && t[..] == Empty(p)
    requires Legible(texts) ==> Prepared(hash, p, Controls(texts), first, status)
    modifies t
    ensures ok <==> Legible(texts)
    ensures ok ==>
      var controls := Controls(texts);
      var table, debs := Table(hash, p, controls), Debs(hash, p, controls, first);
      && AllStored(table, p, debs) && t[..] == AddVirtuals(table, hash, p, ProvidedByAll(table, p, debs))
      && AllStored(t[..], p, debs) && FirstTrouble(t[..], p, status, debs, trouble)
      && (accepted.None? <==> trouble.NoStatus?)
      && (accepted == Some(true) <==>
            trouble == NoTrouble && TextsSatisfied(table, SatisfiedBy(t[..], status, p), status, p, controls))
  {
    hide *;
    accepted, trouble := None, NoTrouble;
    var debs;
    ok, debs := ReadControls(t, hash, p, texts, first);
    if !ok {
      return;
    }
    ghost var controls, table := Controls(texts), t[..];
    ReadyToCheck(hash, p, controls, first, status);
    ghost var fields := SourceFields(table, p, controls);
    forall i | 0 <= i < |debs|
      ensures debs[i] < p && t[debs[i]].Some? && t[debs[i]].value.name in status
    {
      StoredAt(table, p, debs, i);
      assert t[debs[i]] == table[debs[i]];
    }
    accepted, trouble := CheckDeps(t, hash, p, status, debs, fields);
    SourcesDecide(table, SatisfiedBy(t[..], status, p), status, p, controls);
  }

  lemma ReadyToCheck(hash: string -> nat, p: nat, controls: seq<Control>, first: nat, status: map<CString, Status>)
    requires Prime(p) && p >= 2 && |controls| < p && AllReadable(controls) && Prepared(hash, p, controls, first, status)
    ensures var t, debs := Table(hash, p, controls), Debs(hash, p, controls, first);
      && AllStored(t, p, debs) && Room(t, hash, p, |ProvidedByAll(t, p, debs)|)
      && (forall i | 0 <= i < |debs| :: t[debs[i]].value.name in status)
      && FromControls(t, p, controls) && FieldsFit(t, p, SourceFields(t, p, controls))
  {
    DebsAreStored(hash, p, controls, first);
    TableIsOk(hash, p, controls);
    SourcesFit(Table(hash, p, controls), p, controls);
    hide TableOk, Prime, Table, Debs, ProvidedByAll, FieldsFit, FromControls, AllStored, DebName, Occupied;
  }

  lemma PrimeIsLarge(p: nat)
    requires Prime(p)
    ensures p >= 2
  {
  }
}
