/** The conflicts of the packages to be processed, and with them all of check_deps.
    First every name that one of the packages provides is entered into the table. Then the conflicts
    of those not yet installed are looked up there, and last the dependencies of all are checked. */
module PackageConflicts {
  import opened CStrings
  import opened HashProbe
  import opened NameTable
  import opened DebVersionOrder
  import opened DebVersion
  import opened DebVersionRules
  import opened Decimal
  import opened Dependencies
  import opened PackageTable

  // ----- Names that are only provided -----

  /** A package nobody has: it stands in the table for the name it is provided under. */
  function Virtual(e: Edge): Package {
    Package(e.name, e.version, [])
  }

  /** Every package of the one table is where it was in the other, and what is new has no edges. */
  ghost predicate Keeps(t: Packages, t1: Packages) {
    && |t1| == |t|
    && forall a | 0 <= a < |t| && t1[a] != t[a] :: t[a].None? && t1[a].Some? && t1[a].value.edges == []
  }

  function AddVirtual(t: Packages, hash: string -> nat, p: nat, e: Edge): (t1: Packages)
    requires p >= 2 && |t| == p + 1
    ensures Keeps(t, t1)
  {
    var id := FindPackage(t, hash, p, e.name, e.version, e.operator);
    if t[id].Some? then t else t[id := Some(Virtual(e))]
  }

  function AddVirtuals(t: Packages, hash: string -> nat, p: nat, es: seq<Edge>): (t1: Packages)
    requires p >= 2 && |t| == p + 1
    ensures Keeps(t, t1)
    decreases |es|
  {
    if es == [] then t
    else AddVirtuals(AddVirtual(t, hash, p, es[0]), hash, p, es[1..])
  }

  function Provided(edges: seq<Edge>): seq<Edge> {
    if edges == [] then []
    else (if edges[0].kind == EDGE_PROVIDES then [edges[0]] else []) + Provided(edges[1..])
  }

  lemma {:induction false} ProvidedAre(edges: seq<Edge>, e: Edge)
    requires e in edges && e.kind == EDGE_PROVIDES
    ensures e in Provided(edges)
  {
    if e != edges[0] {
      ProvidedAre(edges[1..], e);
    }
  }

  ghost predicate AllStored(t: Packages, p: nat, debs: seq<nat>) {
    |t| > p && forall i | 0 <= i < |debs| :: debs[i] < p && t[debs[i]].Some?
  }

  /** What the packages in the slots provide, one after the other. */
  function ProvidedByAll(t: Packages, p: nat, debs: seq<nat>): seq<Edge>
    requires AllStored(t, p, debs)
  {
    if debs == [] then [] else Provided(t[debs[0]].value.edges) + ProvidedByAll(t, p, debs[1..])
  }

  lemma {:induction false} ProvidedByAllAre(t: Packages, p: nat, debs: seq<nat>, i: nat, e: Edge)
    requires AllStored(t, p, debs) && i < |debs| && e in t[debs[i]].value.edges && e.kind == EDGE_PROVIDES
    ensures e in ProvidedByAll(t, p, debs)
  {
    if i == 0 {
      ProvidedAre(t[debs[0]].value.edges, e);
    } else {
      ProvidedByAllAre(t, p, debs[1..], i - 1, e);
    }
  }

  lemma {:induction false} ProvidedByAllStays(t: Packages, t1: Packages, p: nat, debs: seq<nat>)
    requires AllStored(t, p, debs) && Keeps(t, t1)
    ensures AllStored(t1, p, debs) && ProvidedByAll(t1, p, debs) == ProvidedByAll(t, p, debs)
  {
    if debs != [] {
      ProvidedByAllStays(t, t1, p, debs[1..]);
    }
  }

  /** The table has room for so many packages more, one slot staying empty. */
  ghost predicate Room(t: Packages, hash: string -> nat, p: nat, more: nat) {
    TableOk(t, hash, p) && |Occupied(t, p)| + more < p
  }

  lemma RoomFits(t: Packages, hash: string -> nat, p: nat, more: nat)
    requires Room(t, hash, p, more)
    ensures p >= 2 && |t| == p + 1 && TableOk(t, hash, p)
  {
  }

  /** Some package has the name. */
  ghost predicate Listed(t: Packages, p: nat, name: CString)
    requires |t| > p
  {
    exists a :: 0 <= a < p && t[a].Some? && t[a].value.name == name
  }

  /** A name is added exactly if no package answers to it, as a package of that name and version without
      edges, in a slot that was empty. */
  lemma AddedIff(t: Packages, hash: string -> nat, p: nat, e: Edge)
    requires TableOk(t, hash, p)
    ensures p >= 2 && |t| == p + 1
    ensures AddVirtual(t, hash, p, e) == t <==> Found(t, p, e)
    ensures !Found(t, p, e) ==>
      exists a :: 0 <= a < p && t[a].None? && AddVirtual(t, hash, p, e) == t[a := Some(Package(e.name, e.version, []))]
  {
    FoundHasName(t, hash, p, e);
    hide TableOk, Found, FindPackage;
  }

  lemma StillListed(t: Packages, t1: Packages, p: nat, name: CString)
    requires |t| > p && Keeps(t, t1) && Listed(t, p, name)
    ensures Listed(t1, p, name)
  {
  }

  lemma AddVirtualKeeps(t: Packages, hash: string -> nat, p: nat, e: Edge, more: nat)
    requires Room(t, hash, p, more + 1)
    ensures p >= 2 && |t| == p + 1
    ensures Room(AddVirtual(t, hash, p, e), hash, p, more) && Listed(AddVirtual(t, hash, p, e), p, e.name)
  {
    hide Satisfies;
    var id := FindPackage(t, hash, p, e.name, e.version, e.operator);
    FindPackageFinds(t, hash, p, e.name, e.version, e.operator);
    var t1 := AddVirtual(t, hash, p, e);
    if t[id].None? {
      StoreKeepsPaths(t, hash, p, Virtual(e), e.version, e.operator);
      hide AllOnPath, FindPackage;
      SlotsAreAll(p);
      assert Occupied(t1, p) == Occupied(t, p) + {id};
      var free := FreeSlot(t1, p);
    }
    assert t1[id].Some? && t1[id].value.name == e.name;
  }

  /** Adding the names keeps every package reachable and lists them all. */
  lemma {:induction false} AddVirtualsKeeps(t: Packages, hash: string -> nat, p: nat, es: seq<Edge>, more: nat)
    requires Room(t, hash, p, more + |es|)
    ensures p >= 2 && |t| == p + 1
    ensures Room(AddVirtuals(t, hash, p, es), hash, p, more)
    ensures forall e | e in es :: Listed(AddVirtuals(t, hash, p, es), p, e.name)
    decreases |es|
  {
    RoomFits(t, hash, p, more + |es|);
    if es != [] {
      hide Room, AddVirtual, Listed, Keeps;
      var t0 := AddVirtual(t, hash, p, es[0]);
      AddVirtualKeeps(t, hash, p, es[0], more + |es| - 1);
      AddVirtualsKeeps(t0, hash, p, es[1..], more);
      forall e | e in es
        ensures Listed(AddVirtuals(t, hash, p, es), p, e.name)
      {
        if e == es[0] {
          StillListed(t0, AddVirtuals(t, hash, p, es), p, e.name);
        } else {
          assert e in es[1..];
        }
      }
    }
  }

  lemma {:induction false} AddVirtualsSplit(t: Packages, hash: string -> nat, p: nat, es: seq<Edge>, more: seq<Edge>)
    requires p >= 2 && |t| == p + 1
    ensures AddVirtuals(t, hash, p, es + more) == AddVirtuals(AddVirtuals(t, hash, p, es), hash, p, more)
    decreases |es|
  {
    hide AddVirtual;
    if es == [] {
      assert es + more == more;
    } else {
      assert (es + more)[1..] == es[1..] + more;
      AddVirtualsSplit(AddVirtual(t, hash, p, es[0]), hash, p, es[1..], more);
    }
  }

  method AddVirtualInPlace(t: array<Option<Package>>, hash: string -> nat, p: nat, e: Edge)
    requires t.Length == p + 1 && TableOk(t[..], hash, p) && p >= 2
    modifies t
    ensures t[..] == AddVirtual(old(t[..]), hash, p, e)
  {
    FindPackageFinds(t[..], hash, p, e.name, e.version, e.operator);
    TableIsPrime(t[..], hash, p);
    hide TableOk, FindPackage, Matches;
    var id := SearchPackageHashtable(t, hash, p, e.name, e.version, e.operator);
    if t[id].None? {
      t[id] := Some(Package(e.name, e.version, []));
    }
  }

  /** The names one package provides. */
  method AddProvidedOf(t: array<Option<Package>>, hash: string -> nat, p: nat, edges: seq<Edge>, ghost more: nat)
    requires t.Length == p + 1 && p >= 2 && Room(t[..], hash, p, |Provided(edges)| + more)
    modifies t
    ensures t[..] == AddVirtuals(old(t[..]), hash, p, Provided(edges)) && Room(t[..], hash, p, more)
  {
    hide Room, AddVirtual, Keeps, TableOk;
    ghost var was := t[..];
    for j := 0 to |edges|
      invariant AddVirtuals(was, hash, p, Provided(edges)) == AddVirtuals(t[..], hash, p, Provided(edges[j..]))
      invariant Room(t[..], hash, p, |Provided(edges[j..])| + more)
    {
      assert edges[j..][1..] == edges[j+1..];
      if edges[j].kind == EDGE_PROVIDES {
        assert Provided(edges[j..])[1..] == Provided(edges[j+1..]);
        RoomFits(t[..], hash, p, |Provided(edges[j..])| + more);
        AddVirtualKeeps(t[..], hash, p, edges[j], |Provided(edges[j+1..])| + more);
        AddVirtualInPlace(t, hash, p, edges[j]);
      } else {
        assert Provided(edges[j..]) == Provided(edges[j+1..]);
      }
    }
  }

  /** The first loop of check_deps. */
  method AddProvided(t: array<Option<Package>>, hash: string -> nat, p: nat, debs: seq<nat>)
    requires t.Length == p + 1 && p >= 2 && AllStored(t[..], p, debs)
    requires Room(t[..], hash, p, |ProvidedByAll(t[..], p, debs)|)
    modifies t
    ensures t[..] == AddVirtuals(old(t[..]), hash, p, ProvidedByAll(old(t[..]), p, debs))
  {
    hide Room, AddVirtual, AddVirtuals, Provided, Keeps;
    ghost var was := t[..];
    ghost var all := ProvidedByAll(was, p, debs);
    assert debs[0..] == debs;
    for i := 0 to |debs|
      invariant AllStored(t[..], p, debs[i..])
      invariant AddVirtuals(was, hash, p, all) == AddVirtuals(t[..], hash, p, ProvidedByAll(t[..], p, debs[i..]))
      invariant Room(t[..], hash, p, |ProvidedByAll(t[..], p, debs[i..])|)
    {
      ghost var t0 := t[..];
      assert debs[i..][0] == debs[i] && debs[i..][1..] == debs[i+1..];
      ghost var rest := ProvidedByAll(t0, p, debs[i+1..]);
      AddProvidedOf(t, hash, p, t[debs[i]].value.edges, |rest|);
      AddVirtualsSplit(t0, hash, p, Provided(t0[debs[i]].value.edges), rest);
      ProvidedByAllStays(t0, t[..], p, debs[i+1..]);
    }
    assert AddVirtuals(t[..], hash, p, []) == t[..] by { NothingToAdd(t[..], hash, p); }
  }

  lemma NothingToAdd(t: Packages, hash: string -> nat, p: nat)
    requires p >= 2 && |t| == p + 1
    ensures AddVirtuals(t, hash, p, []) == t
  {
  }

  // ----- Conflicts -----

  /** A package is stored that the edge names, in a version of the wanted kind. */
  ghost predicate Found(t: Packages, p: nat, e: Edge)
    requires |t| > p
  {
    exists a :: 0 <= a < p && t[a].Some? && Matches(t[a].value, e.name, e.version, e.operator)
  }

  /** The package in conflict is there and wanted. */
  ghost predicate Clashes(t: Packages, p: nat, status: map<CString, Status>, e: Edge)
    requires |t| > p
  {
    e.kind == EDGE_CONFLICTS && Found(t, p, e) && e.name in status && status[e.name].want == "install"
  }

  /** The check stops at the edge of the package with an error: it compares the version of the
      package itself with the version it is in conflict with. */
  ghost predicate Reported(t: Packages, p: nat, status: map<CString, Status>, pkg: Package, e: Edge)
    requires |t| > p
  {
    Clashes(t, p, status, e) && Satisfies(pkg.version, e.version, e.operator)
  }

  /** The check looks up the status of a name that has none. */
  ghost predicate Unknown(t: Packages, p: nat, status: map<CString, Status>, e: Edge)
    requires |t| > p
  {
    e.kind == EDGE_CONFLICTS && Found(t, p, e) && e.name !in status
  }

  ghost predicate Quiet(t: Packages, p: nat, status: map<CString, Status>, pkg: Package, j: nat)
    requires |t| > p
  {
    forall k | 0 <= k < j && k < |pkg.edges| ::
      !Reported(t, p, status, pkg, pkg.edges[k]) && !Unknown(t, p, status, pkg.edges[k])
  }

  /** Packages that are installed already are not looked at. */
  predicate Pending(status: map<CString, Status>, pkg: Package) {
    pkg.name in status && status[pkg.name].state != "installed"
  }

  ghost predicate QuietUpTo(t: Packages, p: nat, status: map<CString, Status>, debs: seq<nat>, n: nat)
    requires AllStored(t, p, debs) && n <= |debs|
  {
    forall i | 0 <= i < n && Pending(status, t[debs[i]].value) ::
      Quiet(t, p, status, t[debs[i]].value, |t[debs[i]].value.edges|)
  }

  /** Where the check of conflicts ends: at the edge of a package that is reported, or at one
      without status. */
  datatype Trouble = NoTrouble | Conflict(deb: nat, edge: nat) | NoStatus(deb: nat, edge: nat)

  ghost predicate IsTrouble(t: Packages, p: nat, status: map<CString, Status>, pkg: Package, trouble: Trouble)
    requires |t| > p
  {
    match trouble
    case NoTrouble => Quiet(t, p, status, pkg, |pkg.edges|)
    case Conflict(_, j) => j < |pkg.edges| && Quiet(t, p, status, pkg, j) && Reported(t, p, status, pkg, pkg.edges[j])
    case NoStatus(_, j) => j < |pkg.edges| && Quiet(t, p, status, pkg, j) && Unknown(t, p, status, pkg.edges[j])
  }

  /** The edges of one package, in their order. */
  method CheckConflictsOf(t: array<Option<Package>>, hash: string -> nat, p: nat, status: map<CString, Status>, pkg: Package, deb: nat)
    returns (trouble: Trouble)
    requires t.Length == p + 1 && TableOk(t[..], hash, p)
    ensures IsTrouble(t[..], p, status, pkg, trouble) && (trouble != NoTrouble ==> trouble.deb == deb)
  {
    hide TableOk, FindPackage, Satisfies, Matches;
    TableIsPrime(t[..], hash, p);
    for j := 0 to |pkg.edges|
      invariant Quiet(t[..], p, status, pkg, j)
    {
      var e := pkg.edges[j];
      if e.kind == EDGE_CONFLICTS {
        FindPackageFinds(t[..], hash, p, e.name, e.version, e.operator);
        FoundHasName(t[..], hash, p, e);
        var packageNum := SearchPackageHashtable(t, hash, p, e.name, e.version, e.operator);
        if t[packageNum].Some? {
          if t[packageNum].value.name !in status {
            return NoStatus(deb, j);
          }
          if status[t[packageNum].value.name].want == "install" {
            var result := TestVersion(pkg.version, e.version, e.operator);
            if result {
              return Conflict(deb, j);
            }
          }
        }
      }
    }
    return NoTrouble;
  }

  lemma FoundHasName(t: Packages, hash: string -> nat, p: nat, e: Edge)
    requires TableOk(t, hash, p)
    ensures p >= 2 && |t| == p + 1
    ensures var id := FindPackage(t, hash, p, e.name, e.version, e.operator);
      id < p && (t[id].Some? <==> Found(t, p, e)) && (t[id].Some? ==> t[id].value.name == e.name)
  {
    hide Satisfies, AllOnPath, FindPackage;
    FindPackageFinds(t, hash, p, e.name, e.version, e.operator);
  }

  ghost predicate FirstTrouble(t: Packages, p: nat, status: map<CString, Status>, debs: seq<nat>, trouble: Trouble)
    requires AllStored(t, p, debs)
  {
    if trouble == NoTrouble then QuietUpTo(t, p, status, debs, |debs|)
    else
      && trouble.deb < |debs| && QuietUpTo(t, p, status, debs, trouble.deb)
      && Pending(status, t[debs[trouble.deb]].value)
      && IsTrouble(t, p, status, t[debs[trouble.deb]].value, trouble)
  }

  /** The second loop of check_deps. */
  method CheckConflicts(t: array<Option<Package>>, hash: string -> nat, p: nat, status: map<CString, Status>, debs: seq<nat>)
    returns (trouble: Trouble)
    requires t.Length == p + 1 && TableOk(t[..], hash, p) && AllStored(t[..], p, debs)
    requires forall i | 0 <= i < |debs| :: t[debs[i]].value.name in status
    ensures FirstTrouble(t[..], p, status, debs, trouble)
  {
    hide TableOk, Quiet, Reported, Unknown;
    for i := 0 to |debs|
      invariant QuietUpTo(t[..], p, status, debs, i)
    {
      var pkg := t[debs[i]].value;
      if status[pkg.name].state == "installed" {
        continue;
      }
      trouble := CheckConflictsOf(t, hash, p, status, pkg, i);
      if trouble != NoTrouble {
        return;
      }
    }
    return NoTrouble;
  }

  // ----- What the check of conflicts is worth -----

  /** Some pending package is in conflict with a package that is wanted. */
  ghost predicate SomeClash(t: Packages, p: nat, status: map<CString, Status>, debs: seq<nat>)
    requires AllStored(t, p, debs)
  {
    exists i, j :: 0 <= i < |debs| && Pending(status, t[debs[i]].value) && 0 <= j < |t[debs[i]].value.edges|
      && Clashes(t, p, status, t[debs[i]].value.edges[j])
  }

  /** No conflict of a pending package is with a version that its own version satisfies too. */
  ghost predicate NoneMeetsOwnVersion(t: Packages, p: nat, status: map<CString, Status>, debs: seq<nat>)
    requires AllStored(t, p, debs)
  {
    forall i, j | 0 <= i < |debs| && Pending(status, t[debs[i]].value) && 0 <= j < |t[debs[i]].value.edges| ::
      var pkg := t[debs[i]].value;
      Clashes(t, p, status, pkg.edges[j]) ==> !Satisfies(pkg.version, pkg.edges[j].version, pkg.edges[j].operator)
  }

  /** Every name a pending package is in conflict with has a status if it is stored. */
  ghost predicate AllKnown(t: Packages, p: nat, status: map<CString, Status>, debs: seq<nat>)
    requires AllStored(t, p, debs)
  {
    forall i, j | 0 <= i < |debs| && Pending(status, t[debs[i]].value) && 0 <= j < |t[debs[i]].value.edges| ::
      !Unknown(t, p, status, t[debs[i]].value.edges[j])
  }

  /** What is reported is a conflict. Conflicts that are there are passed over exactly if every name
      has a status and no package with a conflict has itself a version the conflict is about. */
  lemma ConflictsAreMissedIff(t: Packages, p: nat, status: map<CString, Status>, debs: seq<nat>, trouble: Trouble)
    requires AllStored(t, p, debs) && FirstTrouble(t, p, status, debs, trouble)
    ensures trouble.Conflict? ==> SomeClash(t, p, status, debs)
    ensures SomeClash(t, p, status, debs) ==>
      (trouble == NoTrouble <==> AllKnown(t, p, status, debs) && NoneMeetsOwnVersion(t, p, status, debs))
  {
    hide Clashes, Satisfies, Unknown, Matches;
    if trouble.Conflict? {
      var pkg := t[debs[trouble.deb]].value;
      assert Reported(t, p, status, pkg, pkg.edges[trouble.edge]);
      assert Clashes(t, p, status, pkg.edges[trouble.edge]);
    }
  }

  /** Conflicts without a version are all found. */
  lemma PlainConflictsAreFound(t: Packages, p: nat, status: map<CString, Status>, debs: seq<nat>, trouble: Trouble, i: nat, j: nat)
    requires AllStored(t, p, debs) && FirstTrouble(t, p, status, debs, trouble)
    requires i < |debs| && Pending(status, t[debs[i]].value) && j < |t[debs[i]].value.edges|
    requires Clashes(t, p, status, t[debs[i]].value.edges[j]) && t[debs[i]].value.edges[j].operator == VerAny
    ensures trouble != NoTrouble
  {
    hide Clashes, Matches;
    var pkg := t[debs[i]].value;
    assert Reported(t, p, status, pkg, pkg.edges[j]);
  }

  const WANTED := Status("install", "reinstreq", "not-installed")
  const WITH_TWO := Edge(EDGE_CONFLICTS, VerEqual, "b", "2", 0)

  /** Version 1 of a conflicts with version 2 of b, both are to be installed, and nothing is found,
      whatever slots they are stored in. */
  lemma MissedConflict(t: Packages, p: nat, x: nat, y: nat, status: map<CString, Status>, trouble: Trouble)
    requires x < p < |t| && y < p
    requires t[x] == Some(Package("a", "1", [WITH_TWO])) && t[y] == Some(Package("b", "2", []))
    requires "a" in status && status["a"] == WANTED && "b" in status && status["b"] == WANTED
    requires FirstTrouble(t, p, status, [x, y], trouble)
    ensures SomeClash(t, p, status, [x, y]) && trouble == NoTrouble
  {
    hide *;
    assert Matches(t[y].value, "b", "2", VerEqual) by { TwoIsTwo(t[y].value); }
    OneIsNotTwo();
    OwnVersionDecides(t, p, y, status, t[x].value);
    ClashAt(t, p, status, [x, y], 0, 0) by { BothStored(t, p, x, y); }
    NoTroubleWith(t, p, x, y, status, trouble);
  }

  lemma BothStored(t: Packages, p: nat, x: nat, y: nat)
    requires x < p < |t| && y < p && t[x].Some? && t[y].Some?
    ensures AllStored(t, p, [x, y])
  {
  }

  lemma TwoIsTwo(pkg: Package)
    requires pkg.name == "b" && pkg.version == "2"
    ensures Matches(pkg, "b", "2", VerEqual)
  {
    OperatorsAreConsistent("2", "2");
    hide Satisfies;
  }

  lemma OwnVersionDecides(t: Packages, p: nat, y: nat, status: map<CString, Status>, pkg: Package)
    requires y < p < |t| && t[y].Some? && Matches(t[y].value, "b", "2", VerEqual)
    requires "b" in status && status["b"] == WANTED && !Satisfies(pkg.version, "2", VerEqual)
    ensures Clashes(t, p, status, WITH_TWO) && !Reported(t, p, status, pkg, WITH_TWO) && !Unknown(t, p, status, WITH_TWO)
  {
    hide Matches, Satisfies;
  }

  lemma ClashAt(t: Packages, p: nat, status: map<CString, Status>, debs: seq<nat>, i: nat, j: nat)
    requires AllStored(t, p, debs) && i < |debs| && j < |t[debs[i]].value.edges|
    requires t[debs[i]].value.name in status && status[t[debs[i]].value.name] == WANTED
    requires Clashes(t, p, status, t[debs[i]].value.edges[j])
    ensures SomeClash(t, p, status, debs)
  {
    hide Clashes;
    assert Pending(status, t[debs[i]].value);
  }

  lemma NoTroubleWith(t: Packages, p: nat, x: nat, y: nat, status: map<CString, Status>, trouble: Trouble)
    requires x < p < |t| && y < p
    requires t[x] == Some(Package("a", "1", [WITH_TWO])) && t[y] == Some(Package("b", "2", []))
    requires FirstTrouble(t, p, status, [x, y], trouble)
    requires !Reported(t, p, status, t[x].value, WITH_TWO) && !Unknown(t, p, status, WITH_TWO)
    ensures trouble == NoTrouble
  {
    hide Reported, Unknown;
  }

  lemma OneIsNotTwo()
    ensures !Satisfies("1", "2", VerEqual)
  {
    DigitsCompareAsNumbers("1", "2");
    assert Value("1") == 1 && Value("2") == 2;
    hide PartOrder, Value;
    assert Parse("1") == Version(0, "1", "") by { OnlyUpstream("1"); }
    assert Parse("2") == Version(0, "2", "") by { OnlyUpstream("2"); }
    hide Parse;
  }

  lemma OnlyUpstream(s: CString)
    requires |s| == 1 && s[0] != ':' && s[0] != '-'
    ensures Parse(s) == Version(0, s, "")
  {
  }

  /** A conflict with a name that some package to be processed provides, and that has no status of
      its own, keeps the check from passing, be it the provider's own conflict. */
  lemma ProvidedConflictStops(t: Packages, hash: string -> nat, p: nat, status: map<CString, Status>, debs: seq<nat>, trouble: Trouble,
                              i: nat, provided: Edge, k: nat, j: nat)
    requires AllStored(t, p, debs) && Room(t, hash, p, |ProvidedByAll(t, p, debs)|)
    requires i < |debs| && provided in t[debs[i]].value.edges && provided.kind == EDGE_PROVIDES && provided.name !in status
    requires k < |debs| && Pending(status, t[debs[k]].value) && j < |t[debs[k]].value.edges|
    requires var e := t[debs[k]].value.edges[j]; e.kind == EDGE_CONFLICTS && e.name == provided.name && e.operator == VerAny
    ensures p >= 2 && |t| == p + 1
    ensures var t1 := AddVirtuals(t, hash, p, ProvidedByAll(t, p, debs));
      AllStored(t1, p, debs) && (FirstTrouble(t1, p, status, debs, trouble) ==> trouble != NoTrouble)
  {
    var es := ProvidedByAll(t, p, debs);
    RoomFits(t, hash, p, |es|);
    ProvidedByAllAre(t, p, debs, i, provided);
    AddVirtualsKeeps(t, hash, p, es, 0);
    var t1 := AddVirtuals(t, hash, p, es);
    assert Listed(t1, p, provided.name);
    hide *;
    ProvidedByAllStays(t, t1, p, debs);
    StaysPending(t, t1, p, debs[k]) by { StoredAt(t, p, debs, k); }
    NamedIsFound(t1, p, status, t1[debs[k]].value.edges[j]);
    if FirstTrouble(t1, p, status, debs, trouble) {
      UnknownIsTrouble(t1, p, status, debs, trouble, k, j);
    }
  }

  lemma StoredAt(t: Packages, p: nat, debs: seq<nat>, k: nat)
    requires AllStored(t, p, debs) && k < |debs|
    ensures debs[k] < p < |t| && t[debs[k]].Some?
  {
  }

  lemma StaysPending(t: Packages, t1: Packages, p: nat, a: nat)
    requires a < p < |t| && t[a].Some? && Keeps(t, t1)
    ensures |t1| == |t| && t1[a] == t[a]
  {
  }

  lemma NamedIsFound(t: Packages, p: nat, status: map<CString, Status>, e: Edge)
    requires |t| > p && Listed(t, p, e.name) && e.operator == VerAny && e.kind == EDGE_CONFLICTS && e.name !in status
    ensures Unknown(t, p, status, e)
  {
    var a :| 0 <= a < p && t[a].Some? && t[a].value.name == e.name;
    assert Matches(t[a].value, e.name, e.version, e.operator);
  }

  lemma UnknownIsTrouble(t: Packages, p: nat, status: map<CString, Status>, debs: seq<nat>, trouble: Trouble, k: nat, j: nat)
    requires AllStored(t, p, debs) && FirstTrouble(t, p, status, debs, trouble)
    requires k < |debs| && Pending(status, t[debs[k]].value) && j < |t[debs[k]].value.edges|
    requires Unknown(t, p, status, t[debs[k]].value.edges[j])
    ensures trouble != NoTrouble
  {
    hide Unknown;
  }

  // ----- The whole check -----

  /** check_deps: no answer where a missing status is looked up, and false where the program stops
      with an error. */
  method CheckDeps(t: array<Option<Package>>, hash: string -> nat, p: nat, status: map<CString, Status>, debs: seq<nat>, ghost fields: map<nat, seq<Field>>)
    returns (accepted: Option<bool>, trouble: Trouble)
    requires t.Length == p + 1 && p >= 2 && AllStored(t[..], p, debs)
    requires Room(t[..], hash, p, |ProvidedByAll(t[..], p, debs)|)
    requires forall i | 0 <= i < |debs| :: t[debs[i]].value.name in status
    requires FieldsFit(t[..], p, fields)
    modifies t
    ensures t[..] == AddVirtuals(old(t[..]), hash, p, ProvidedByAll(old(t[..]), p, debs))
    ensures AllStored(t[..], p, debs) && FirstTrouble(t[..], p, status, debs, trouble)
    ensures accepted.None? <==> trouble.NoStatus?
    ensures accepted == Some(true) <==>
      trouble == NoTrouble && AllSatisfied(old(t[..]), p, status, fields, SatisfiedBy(t[..], status, p))
  {
    hide Room, AddVirtuals, ProvidedByAll, FieldsOk, FieldsSatisfied, SatisfiedBy, FieldsEdges, FirstTrouble, TableOk, Keeps;
    ghost var was := t[..];
    RoomFits(was, hash, p, |ProvidedByAll(was, p, debs)|);
    AddVirtualsKeeps(was, hash, p, ProvidedByAll(was, p, debs), 0);
    AddProvided(t, hash, p, debs);
    RoomFits(t[..], hash, p, 0);
    ProvidedByAllStays(was, t[..], p, debs);
    NamesStay(was, t[..], p, status, debs);
    trouble := CheckConflicts(t, hash, p, status, debs);
    if trouble != NoTrouble {
      return if trouble.NoStatus? then None else Some(false), trouble;
    }
    ghost var all := WithVirtuals(was, t[..], p, fields);
    WithVirtualsFits(was, t[..], p, status, fields, SatisfiedBy(t[..], status, p));
    var ok := CheckDependencies(t, hash, p, status, all);
    accepted := Some(ok);
  }

  lemma NamesStay(t: Packages, t1: Packages, p: nat, status: map<CString, Status>, debs: seq<nat>)
    requires AllStored(t, p, debs) && AllStored(t1, p, debs) && Keeps(t, t1)
    requires forall i | 0 <= i < |debs| :: t[debs[i]].value.name in status
    ensures forall i | 0 <= i < |debs| :: t1[debs[i]].value.name in status
  {
    forall i | 0 <= i < |debs|
      ensures t1[debs[i]].value.name in status
    {
      assert t1[debs[i]] == t[debs[i]];
    }
  }

  ghost predicate FieldsFit(t: Packages, p: nat, fields: map<nat, seq<Field>>)
    requires |t| > p
  {
    forall a: nat | a < p && t[a].Some? :: a in fields && FieldsOk(fields[a]) && t[a].value.edges == FieldsEdges(fields[a])
  }

  ghost predicate AllSatisfied(t: Packages, p: nat, status: map<CString, Status>, fields: map<nat, seq<Field>>, sat: Edge -> bool)
    requires |t| > p && forall a: nat | a < p && t[a].Some? :: a in fields
  {
    forall a: nat | a < p && t[a].Some? && ToBeInstalled(status, t[a].value) :: FieldsSatisfied(sat, fields[a])
  }

  ghost function WithVirtuals(t: Packages, t1: Packages, p: nat, fields: map<nat, seq<Field>>): map<nat, seq<Field>>
    requires |t| == |t1| > p && FieldsFit(t, p, fields)
  {
    map a: nat | a < p && t1[a].Some? :: if t[a].Some? then fields[a] else []
  }

  lemma NoFields(sat: Edge -> bool)
    ensures FieldsOk([]) && FieldsEdges([]) == [] && FieldsSatisfied(sat, [])
  {
  }

  /** Names that are only provided depend on nothing. */
  lemma WithVirtualsFits(t: Packages, t1: Packages, p: nat, status: map<CString, Status>, fields: map<nat, seq<Field>>, sat: Edge -> bool)
    requires |t| > p && Keeps(t, t1) && FieldsFit(t, p, fields)
    ensures FieldsFit(t1, p, WithVirtuals(t, t1, p, fields))
    ensures AllSatisfied(t1, p, status, WithVirtuals(t, t1, p, fields), sat) <==> AllSatisfied(t, p, status, fields, sat)
  {
    hide FieldsOk, FieldsEdges, FieldsSatisfied, ToBeInstalled;
    NoFields(sat);
    var all := WithVirtuals(t, t1, p, fields);
    forall a: nat | a < p && t1[a].Some?
      ensures a in all && FieldsOk(all[a]) && t1[a].value.edges == FieldsEdges(all[a])
      ensures t[a].None? ==> FieldsSatisfied(sat, all[a])
      ensures t[a].Some? ==> t1[a] == t[a] && all[a] == fields[a]
    {
      assert t1[a] != t[a] ==> t[a].None? && t1[a].value.edges == [];
    }
    assert forall a: nat | a < p && t[a].Some? :: t1[a].Some?;
    hide WithVirtuals, Keeps;
  }
}
