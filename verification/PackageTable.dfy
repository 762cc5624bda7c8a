/** The table of packages, and the check that every package to be installed has its
    dependencies satisfied. */
module PackageTable {
  import opened CStrings
  import opened HashProbe
  import opened NameTable
  import opened DebVersionOrder
  import opened Dependencies

  // ----- Searching -----

  predicate Matches(pkg: Package, name: CString, version: CString, operator: Operator) {
    pkg.name == name && (operator.VerAny? || Satisfies(pkg.version, version, operator))
  }

  function FindPackage(t: Packages, hash: string -> nat, p: nat, name: CString, version: CString, operator: Operator): (a: nat)
    requires p >= 2 && |t| >= p
    ensures a <= p
  {
    Locate(t, MakeHash(hash, p, name), p, pkg => Matches(pkg, name, version, operator), 0)
  }

  /** Probing for the name of the package in slot a gets there over full slots only. */
  ghost predicate OnPath(t: Packages, hash: string -> nat, p: nat, a: nat)
    requires p >= 2 && |t| >= p && a < p && t[a].Some?
  {
    exists k: nat :: k < p && ProbeAt(MakeHash(hash, p, t[a].value.name), p, k) == a &&
      forall j: nat | j < k :: t[ProbeAt(MakeHash(hash, p, t[a].value.name), p, j)].Some?
  }

  ghost predicate AllOnPath(t: Packages, hash: string -> nat, p: nat)
    requires p >= 2 && |t| >= p
  {
    forall a: nat | a < p && t[a].Some? :: OnPath(t, hash, p, a)
  }

  ghost predicate TableOk(t: Packages, hash: string -> nat, p: nat) {
    && Prime(p) && |t| == p + 1
    && (exists a :: 0 <= a < p && t[a].None?)
    && AllOnPath(t, hash, p)
  }

  /** Storing a package where the search for its name ended keeps every package reachable. */
  lemma StoreKeepsPaths(t: Packages, hash: string -> nat, p: nat, pkg: Package, version: CString, operator: Operator)
    requires TableOk(t, hash, p)
    ensures var id := FindPackage(t, hash, p, pkg.name, version, operator);
      && id < p && (t[id].Some? ==> t[id].value.name == pkg.name)
      && AllOnPath(t[id := Some(pkg)], hash, p)
  {
    hide Matches;
    var path := MakeHash(hash, p, pkg.name);
    var hit := q => Matches(q, pkg.name, version, operator);
    SearchEndsIff(t, path, p, hit);
    var n := LocateStops(t, path, p, hit, 0);
    var id := FindPackage(t, hash, p, pkg.name, version, operator);
    assert id == ProbeAt(path, p, n);
    MatchNames(t, id, pkg.name, version, operator);
    var t1 := t[id := Some(pkg)];
    forall a: nat | a < p && t1[a].Some?
      ensures OnPath(t1, hash, p, a)
    {
      if a == id {
        forall j: nat | j < n
          ensures t1[ProbeAt(path, p, j)].Some?
        {
          assert Passes(t, path, p, hit, j);
        }
      } else {
        assert OnPath(t, hash, p, a);
      }
    }
  }

  lemma MatchNames(t: Packages, id: nat, name: CString, version: CString, operator: Operator)
    requires id < |t| && (t[id].Some? ==> Matches(t[id].value, name, version, operator))
    ensures t[id].Some? ==> t[id].value.name == name
  {
  }

  /** The search ends at a matching package exactly if the table holds one. */
  lemma FindPackageFinds(t: Packages, hash: string -> nat, p: nat, name: CString, version: CString, operator: Operator)
    requires TableOk(t, hash, p)
    ensures var id := FindPackage(t, hash, p, name, version, operator);
      && id < p
      && (t[id].Some? ==> Matches(t[id].value, name, version, operator))
      && (t[id].Some? <==> exists a :: 0 <= a < p && t[a].Some? && Matches(t[a].value, name, version, operator))
  {
    hide Satisfies;
    var path := MakeHash(hash, p, name);
    var hit := q => Matches(q, name, version, operator);
    SearchEndsIff(t, path, p, hit);
    var n := LocateStops(t, path, p, hit, 0);
    var id := FindPackage(t, hash, p, name, version, operator);
    forall a: nat | a < p && t[a].Some? && Matches(t[a].value, name, version, operator)
      ensures t[id].Some?
    {
      assert OnPath(t, hash, p, a);
      var k: nat :| k < p && ProbeAt(path, p, k) == a && forall j: nat | j < k :: t[ProbeAt(path, p, j)].Some?;
      assert !Passes(t, path, p, hit, k);
    }
  }

  method SearchPackageHashtable(t: array<Option<Package>>, hash: string -> nat, p: nat, name: CString, version: CString, operator: Operator)
    returns (address: nat)
    requires Prime(p) && t.Length == p + 1 && FindPackage(t[..], hash, p, name, version, operator) < p
    ensures address == FindPackage(t[..], hash, p, name, version, operator)
  {
    hide Satisfies;
    var path := MakeHash(hash, p, name);
    ghost var hit := pkg => Matches(pkg, name, version, operator);
    address := path.start;
    ghost var k: nat := 0;
    while t[address].Some?
      invariant k < p && address == ProbeAt(path, p, k)
      invariant Locate(t[..], path, p, hit, 0) == Locate(t[..], path, p, hit, k) < p
      decreases p - k
    {
      if t[address].value.name == name {
        if operator == VerAny {
          return;
        }
        var holds := TestVersion(t[address].value.version, version, operator);
        if holds {
          return;
        }
      }
      if address < path.dec {
        address := address + p - path.dec;
      } else {
        address := address - path.dec;
      }
      k := k + 1;
    }
  }

  // ----- Providers -----

  predicate Provides(pkg: Package, needle: CString) {
    exists e | e in pkg.edges :: e.kind == EDGE_PROVIDES && e.name == needle
  }

  /** The first slot after startAt that holds a package providing the name, or -1. */
  method SearchForProvides(t: array<Option<Package>>, p: nat, needle: CString, startAt: int) returns (i: int)
    requires t.Length == p + 1 && -1 <= startAt < p
    ensures i == -1 || startAt < i < p
    ensures i > -1 ==> t[i].Some? && Provides(t[i].value, needle)
    ensures forall a | startAt < a < (if i == -1 then p else i) :: t[a].Some? ==> !Provides(t[a].value, needle)
  {
    i := startAt + 1;
    while i < p
      invariant startAt < i <= p
      invariant forall a | startAt < a < i :: t[a].Some? ==> !Provides(t[a].value, needle)
    {
      if t[i].Some? {
        var pkg := t[i].value;
        for j := 0 to |pkg.edges|
          invariant forall e | e in pkg.edges[..j] :: !(e.kind == EDGE_PROVIDES && e.name == needle)
        {
          if pkg.edges[j].kind == EDGE_PROVIDES && pkg.edges[j].name == needle {
            return;
          }
        }
        assert pkg.edges[..|pkg.edges|] == pkg.edges;
      }
      i := i + 1;
    }
    i := -1;
  }

  // ----- One edge -----

  /** A pre-dependency wants the package installed, a dependency wants it to be installed. */
  predicate PackageSatisfies(status: map<CString, Status>, name: CString, kind: nat) {
    name in status &&
    if kind == EDGE_PRE_DEPENDS then status[name].state == "installed"
    else if kind == EDGE_DEPENDS then status[name].want == "install"
    else false
  }

  /** The edge is satisfied by a stored package of its name and version, or by a provider. */
  ghost predicate Satisfied(t: Packages, status: map<CString, Status>, p: nat, e: Edge)
    requires |t| > p
  {
    || ((exists a :: 0 <= a < p && t[a].Some? && Matches(t[a].value, e.name, e.version, e.operator))
        && PackageSatisfies(status, e.name, e.kind))
    || (exists a :: 0 <= a < p && t[a].Some? && Provides(t[a].value, e.name) && PackageSatisfies(status, t[a].value.name, e.kind))
  }

  method EdgeSatisfied(t: array<Option<Package>>, hash: string -> nat, p: nat, status: map<CString, Status>, e: Edge) returns (ok: bool)
    requires t.Length == p + 1 && TableOk(t[..], hash, p)
    ensures ok <==> Satisfied(t[..], status, p, e)
  {
    hide Satisfies, TableOk, FindPackage;
    assert Prime(p) && p >= 2 by { TableIsPrime(t[..], hash, p); }
    FindPackageFinds(t[..], hash, p, e.name, e.version, e.operator);
    var packageNum := SearchPackageHashtable(t, hash, p, e.name, e.version, e.operator);
    ok := false;
    if t[packageNum].Some? {
      ok := PackageSatisfies(status, t[packageNum].value.name, e.kind);
    }
    if !ok {
      var provider := SearchForProvides(t, p, e.name, -1);
      while provider > -1
        invariant -1 <= provider < p && !ok
        invariant provider > -1 ==> t[provider].Some? && Provides(t[provider].value, e.name)
        invariant forall a | 0 <= a < (if provider == -1 then p else provider) && t[a].Some? && Provides(t[a].value, e.name) ::
                    !PackageSatisfies(status, t[a].value.name, e.kind)
        decreases if provider == -1 then 0 else p - provider
      {
        ok := PackageSatisfies(status, t[provider].value.name, e.kind);
        if ok {
          assert t[..][provider] == t[provider];
          return;
        }
        provider := SearchForProvides(t, p, e.name, provider);
      }
    }
  }

  lemma TableIsPrime(t: Packages, hash: string -> nat, p: nat)
    requires TableOk(t, hash, p)
    ensures Prime(p) && p >= 2 && |t| == p + 1
  {
  }

  // ----- All edges of all packages -----

  ghost function SatisfiedBy(t: Packages, status: map<CString, Status>, p: nat): Edge -> bool
    requires |t| > p
  {
    e => Satisfied(t, status, p, e)
  }

  method CheckEdges(t: array<Option<Package>>, hash: string -> nat, p: nat, status: map<CString, Status>, edges: seq<Edge>) returns (verdict: Verdict)
    requires t.Length == p + 1 && TableOk(t[..], hash, p)
    ensures verdict == Walk(SatisfiedBy(t[..], status, p), edges, 0, 0, None)
  {
    hide TableOk, Satisfied;
    ghost var sat := SatisfiedBy(t[..], status, p);
    var j := 0;
    var alternatives := 0;
    var root: Option<nat> := None;
    while j < |edges|
      invariant alternatives >= 0
      invariant Walk(sat, edges, 0, 0, None) == Walk(sat, edges, j, alternatives, root)
      decreases |edges| - j
    {
      var e := edges[j];
      if e.kind == EDGE_OR_PRE_DEPENDS || e.kind == EDGE_OR_DEPENDS {
        alternatives, root := e.alternatives, Some(e.kind);
        j := j + 1;
        continue;
      }
      if alternatives == 0 {
        alternatives, root := 1, None;
      }
      if IsDependency(e.kind) {
        if root.Some? && e.kind != root.value - 1 {
          return Corrupt;
        }
        var ok := EdgeSatisfied(t, hash, p, status, e);
        assert ok == sat(e);
        alternatives := alternatives - 1;
        if !ok && alternatives == 0 {
          return Unsatisfied(j);
        }
        if ok && alternatives != 0 {
          j := j + alternatives;
          alternatives := 0;
        }
      }
      j := j + 1;
    }
    return Accepted;
  }

  predicate ToBeInstalled(status: map<CString, Status>, pkg: Package) {
    pkg.name in status && status[pkg.name].want == "install"
  }

  /** The dependency part of check_deps: false where the program stops with an error. */
  method CheckDependencies(t: array<Option<Package>>, hash: string -> nat, p: nat, status: map<CString, Status>, ghost fields: map<nat, seq<Field>>)
    returns (accepted: bool)
    requires t.Length == p + 1 && TableOk(t[..], hash, p)
    requires forall a: nat | a < p && t[a].Some? :: a in fields && FieldsOk(fields[a]) && t[a].value.edges == FieldsEdges(fields[a])
    ensures accepted <==> forall a: nat | a < p && t[a].Some? && ToBeInstalled(status, t[a].value) ::
                            FieldsSatisfied(SatisfiedBy(t[..], status, p), fields[a])
  {
    hide TableOk, FieldsOk, FieldsSatisfied, SatisfiedBy, FieldsEdges, Walk;
    for i := 0 to p
      invariant forall a: nat | a < i && t[a].Some? && ToBeInstalled(status, t[a].value) ::
                  FieldsSatisfied(SatisfiedBy(t[..], status, p), fields[a])
    {
      if t[i].None? {
        continue;
      }
      var pkg := t[i].value;
      if pkg.name !in status {
        continue;
      }
      if status[pkg.name].want != "install" {
        continue;
      }
      var verdict := CheckEdges(t, hash, p, status, pkg.edges);
      WalkDecidesFields(SatisfiedBy(t[..], status, p), fields[i]);
      if verdict != Accepted {
        return false;
      }
    }
    return true;
  }
}
