/** What the verdicts on packages mean, said of names, versions and statuses. */
module PackageMeaning {
  import opened CStrings
  import opened Decimal
  import opened HashProbe
  import opened NameTable
  import opened DebVersionOrder
  import opened DebVersionLaws
  import opened Dependencies
  import opened DependencyText
  import opened ControlText
  import opened PackageTable
  import opened PackageConflicts
  import opened PackageChecks

  // ----- Constraints -----

  /** The operators of a constraint, read off their text and told by what they say of numbers. */
  lemma ConstraintOnNumbers(text: string, x: CString, y: CString)
    requires AllDigits(x) && AllDigits(y)
    ensures OperatorOf(text).Some? <==>
      text == "=" || text == "<" || text == "<<" || text == "<=" || text == ">" || text == ">>" || text == ">="
    ensures OperatorOf(text).Some? ==>
      (Satisfies(x, y, OperatorOf(text).value) <==>
        || (text == "=" && Value(x) == Value(y))
        || ((text == "<" || text == "<<") && Value(x) < Value(y))
        || (text == "<=" && Value(x) <= Value(y))
        || ((text == ">" || text == ">>") && Value(x) > Value(y))
        || (text == ">=" && Value(x) >= Value(y)))
  {
    OperatorsOnNumbers(x, y);
    hide Satisfies, Value;
  }

  /** A field as it is written in a control file: b in version 1 or more, or c, and besides d. */
  lemma FieldAsWritten()
    ensures var b, c, d := Alternative(VerMoreEqual, "b", "1"), Alternative(VerAny, "c", "ANY"), Alternative(VerAny, "d", "ANY");
      PrintLine([[b, c], [d]]) == "b (>= 1) | c, d"
  {
    var b, c, d := Alternative(VerMoreEqual, "b", "1"), Alternative(VerAny, "c", "ANY"), Alternative(VerAny, "d", "ANY");
    assert DependencyText.Print(b) == "b (>= 1)" && DependencyText.Print(c) == "c" && DependencyText.Print(d) == "d";
    hide DependencyText.Print;
    assert PrintGroup([b, c]) == "b (>= 1) | c" by {
      assert Texts([b, c]) == ["b (>= 1)", "c"];
      TwoPadded("b (>= 1)", "c", " ", '|');
    }
    assert PrintGroup([d]) == "d" by {
      assert Texts([d]) == ["d"];
      OnePadded("d", " ", '|');
    }
    hide PrintGroup;
    assert GroupTexts([[b, c], [d]]) == ["b (>= 1) | c", "d"];
    TwoPadded("b (>= 1) | c", "d", "", ',');
    assert "b (>= 1) | c" + "" + [','] + " " + "d" == "b (>= 1) | c, d";
  }

  lemma TwoPadded(a: CString, b: CString, after: CString, delim: char)
    requires delim != '\0'
    ensures Delimited(Padded([a, b], after), delim) == a + after + [delim] + " " + b
  {
    var texts := Padded([a, b], after);
    assert texts[0] == "" + a + after == a + after && texts[1] == " " + b + "" == " " + b;
    assert texts[1..] == [texts[1]];
    hide Padded;
  }

  lemma OnePadded(a: CString, after: CString, delim: char)
    requires delim != '\0'
    ensures Delimited(Padded([a], after), delim) == a
  {
    assert Padded([a], after)[0] == "" + a + "" == a;
  }

  /** A control file as it is written. */
  lemma ControlAsWritten()
    ensures ControlFields(Control("a", "1", [(EDGE_PRE_DEPENDS, "b"), (EDGE_DEPENDS, "c")])) ==
      [("Package", "a"), ("Version", "1"), ("Pre-Depends", "b"), ("Depends", "c")]
    ensures forall name: CString, value: CString, name1: CString, value1: CString ::
      FieldsText([(name, value), (name1, value1)]) == name + ": " + value + "\n" + name1 + ": " + value1 + "\n"
  {
    var texts: seq<(nat, CString)> := [(EDGE_PRE_DEPENDS, "b"), (EDGE_DEPENDS, "c")];
    assert texts[..1] == [texts[0]] && texts[..1][..0] == [];
    assert TextFields(texts[..1]) == [("Pre-Depends", "b")];
    forall name: CString, value: CString, name1: CString, value1: CString
      ensures FieldsText([(name, value), (name1, value1)]) == name + ": " + value + "\n" + name1 + ": " + value1 + "\n"
    {
      var fields: seq<(CString, CString)> := [(name, value), (name1, value1)];
      assert fields[1..] == [(name1, value1)] && fields[1..][1..] == [];
      assert FieldsText(fields[1..]) == name1 + ": " + value1 + "\n";
    }
  }

  /** The fields that hold constraints, and their kinds. */
  lemma KindsAre(name: CString)
    ensures KindOf(name) == Some(EDGE_PRE_DEPENDS) <==> name == "Pre-Depends"
    ensures KindOf(name) == Some(EDGE_DEPENDS) <==> name == "Depends"
    ensures KindOf(name) == Some(EDGE_REPLACES) <==> name == "Replaces"
    ensures KindOf(name) == Some(EDGE_PROVIDES) <==> name == "Provides"
    ensures KindOf(name) == Some(EDGE_CONFLICTS) <==> name == "Conflicts"
    ensures KindOf(name) == Some(EDGE_SUGGESTS) <==> name == "Suggests"
    ensures KindOf(name) == Some(EDGE_RECOMMENDS) <==> name == "Recommends"
    ensures KindOf(name) == Some(EDGE_ENHANCES) <==> name == "Enhances"
  {
  }

  // ----- The table -----

  /** The package of the last control file is in the table, unless it has no version; and of those before
      it only packages of its name in a version equal to its own are gone. */
  lemma LastIsStored(hash: string -> nat, p: nat, controls: seq<Control>)
    requires Prime(p) && AllReadable(controls) && |controls| < p && controls != []
    ensures p >= 2
    ensures var t, t0, last := PackageChecks.Table(hash, p, controls), PackageChecks.Table(hash, p, controls[..|controls|-1]), PackageOf(controls[|controls|-1]);
      && (last.version == "unknown" ==> t == t0)
      && (last.version != "unknown" ==> InTable(t, p, last))
      && forall pkg | InTable(t0, p, pkg) && !InTable(t, p, pkg) :: pkg.name == last.name && Satisfies(pkg.version, last.version, VerEqual)
  {
    PrimeIsLarge(p);
    var n := |controls| - 1;
    TableIsOk(hash, p, controls[..n]);
    hide *;
    TableOfMore(hash, p, controls, 0);
    StoredGoesIn(PackageChecks.Table(hash, p, controls[..n]), hash, p, PackageOf(controls[n]));
  }

  lemma StoredGoesIn(t0: Packages, hash: string -> nat, p: nat, last: Package)
    requires TableOk(t0, hash, p)
    ensures p >= 2 && |t0| == p + 1
    ensures var t := Stored(t0, hash, p, last);
      && (last.version == "unknown" ==> t == t0)
      && (last.version != "unknown" ==> InTable(t, p, last))
      && forall pkg | InTable(t0, p, pkg) && !InTable(t, p, pkg) :: pkg.name == last.name && Satisfies(pkg.version, last.version, VerEqual)
  {
    TableIsPrime(t0, hash, p);
    FindPackageFinds(t0, hash, p, last.name, last.version, VerEqual);
    hide TableOk, FindPackage, Satisfies;
    var id, t := SlotOf(t0, hash, p, last), Stored(t0, hash, p, last);
    if last.version != UNKNOWN {
      assert t == t0[id := Some(last)];
      hide Stored, SlotOf;
      assert t[id] == Some(last);
      forall pkg | InTable(t0, p, pkg) && t0[id] != Some(pkg)
        ensures InTable(t, p, pkg)
      {
        var a: nat :| a < p && t0[a] == Some(pkg);
        assert t[a] == Some(pkg);
      }
    }
  }

  // ----- Dependencies -----

  /** A pre-dependency wants a package that is installed, a dependency one that is to be installed. */
  predicate Right(kind: nat, s: Status) {
    if kind == EDGE_PRE_DEPENDS then s.state == "installed" else s.want == "install"
  }

  /** The alternative holds: a package of its name and version is stored and has the right status, or some
      package that provides the name has. */
  ghost predicate Holds(t: Packages, p: nat, status: map<CString, Status>, kind: nat, a: Alternative)
    requires |t| > p
  {
    || (&& a.name in status && Right(kind, status[a.name])
        && exists x: nat :: x < p && t[x].Some? && t[x].value.name == a.name
             && (a.operator == VerAny || Satisfies(t[x].value.version, a.version, a.operator)))
    || exists x: nat, e: Edge :: x < p && t[x].Some? && t[x].value.name in status && Right(kind, status[t[x].value.name])
         && e in t[x].value.edges && e.kind == EDGE_PROVIDES && e.name == a.name
  }

  lemma HoldsIff(t: Packages, p: nat, status: map<CString, Status>, kind: nat, a: Alternative)
    requires |t| > p && (kind == EDGE_PRE_DEPENDS || kind == EDGE_DEPENDS)
    ensures Satisfied(t, status, p, EdgeOf(kind, a)) <==> Holds(t, p, status, kind, a)
  {
    hide Satisfies;
    var e := EdgeOf(kind, a);
    if exists x :: 0 <= x < p && t[x].Some? && Provides(t[x].value, a.name) && PackageSatisfies(status, t[x].value.name, kind) {
      var x: nat :| x < p && t[x].Some? && Provides(t[x].value, a.name) && PackageSatisfies(status, t[x].value.name, kind);
      var provided :| provided in t[x].value.edges && provided.kind == EDGE_PROVIDES && provided.name == a.name;
      assert Holds(t, p, status, kind, a);
    }
    if x: nat, provided: Edge :|
      x < p && t[x].Some? && t[x].value.name in status && Right(kind, status[t[x].value.name])
      && provided in t[x].value.edges && provided.kind == EDGE_PROVIDES && provided.name == a.name
    {
      assert Provides(t[x].value, a.name) && PackageSatisfies(status, t[x].value.name, kind);
    }
  }

  /** Every group of the text has an alternative that holds. */
  ghost predicate TextHolds(t: Packages, p: nat, status: map<CString, Status>, kind: nat, text: CString)
    requires |t| > p && ParseLine(text).Some?
  {
    forall g | g in ParseLine(text).value :: exists a :: a in g.alternatives && Holds(t, p, status, kind, a)
  }

  lemma TextHoldsIff(t: Packages, p: nat, status: map<CString, Status>, kind: nat, text: CString)
    requires |t| > p && ParseLine(text).Some? && (kind == EDGE_PRE_DEPENDS || kind == EDGE_DEPENDS)
    ensures GroupsSatisfied(SatisfiedBy(t, status, p), kind, ParseLine(text).value) <==> TextHolds(t, p, status, kind, text)
  {
    hide Satisfied, Holds, ParseLine;
    var sat := SatisfiedBy(t, status, p);
    forall a: Alternative
      ensures sat(EdgeOf(kind, a)) <==> Holds(t, p, status, kind, a)
    {
      HoldsIff(t, p, status, kind, a);
    }
  }

  lemma {:induction false} FieldsHoldIff(t: Packages, p: nat, status: map<CString, Status>, texts: seq<(nat, CString)>)
    requires |t| > p && Readable(texts)
    ensures FieldsSatisfied(SatisfiedBy(t, status, p), FieldsOf(texts)) <==>
      forall k | 0 <= k < |texts| && (texts[k].0 == EDGE_PRE_DEPENDS || texts[k].0 == EDGE_DEPENDS) :: TextHolds(t, p, status, texts[k].0, texts[k].1)
  {
    hide TextHolds, ParseLine, GroupsSatisfied, SatisfiedBy;
    if texts != [] {
      var n := |texts| - 1;
      var sat, f := SatisfiedBy(t, status, p), Field(texts[n].0, ParseLine(texts[n].1).value);
      FieldsHoldIff(t, p, status, texts[..n]);
      assert FieldsOf(texts) == FieldsOf(texts[..n]) + [f];
      assert FieldsSatisfied(sat, FieldsOf(texts)) <==> FieldsSatisfied(sat, FieldsOf(texts[..n])) && GroupsSatisfied(sat, f.kind, f.groups);
      hide FieldsOf, FieldsSatisfied;
      if texts[n].0 == EDGE_PRE_DEPENDS || texts[n].0 == EDGE_DEPENDS {
        TextHoldsIff(t, p, status, texts[n].0, texts[n].1);
      } else {
        OthersAreFree(sat, f);
      }
      assert forall k | 0 <= k < n :: texts[..n][k] == texts[k];
    }
  }

  lemma OthersAreFree(sat: Edge -> bool, f: Field)
    requires f.kind != EDGE_PRE_DEPENDS && f.kind != EDGE_DEPENDS
    ensures GroupsSatisfied(sat, f.kind, f.groups)
  {
  }

  /** The dependencies of all packages are satisfied exactly if in every control file whose package is
      stored and wanted for install every Depends and every Pre-Depends text holds. */
  lemma DependenciesMean(table: Packages, t: Packages, p: nat, status: map<CString, Status>, controls: seq<Control>)
    requires |table| > p && |t| > p && AllReadable(controls)
    ensures TextsSatisfied(table, SatisfiedBy(t, status, p), status, p, controls) <==>
      forall i, k | 0 <= i < |controls| && 0 <= k < |controls[i].texts|
        && InTable(table, p, PackageOf(controls[i]))
        && controls[i].name in status && status[controls[i].name].want == "install"
        && (controls[i].texts[k].0 == EDGE_PRE_DEPENDS || controls[i].texts[k].0 == EDGE_DEPENDS) ::
          TextHolds(t, p, status, controls[i].texts[k].0, controls[i].texts[k].1)
  {
    hide TextHolds, FieldsSatisfied, FieldsOf, ParseLine, SatisfiedBy, FieldsEdges;
    forall i | 0 <= i < |controls|
      ensures FieldsSatisfied(SatisfiedBy(t, status, p), FieldsOf(controls[i].texts)) <==>
        forall k | 0 <= k < |controls[i].texts| && (controls[i].texts[k].0 == EDGE_PRE_DEPENDS || controls[i].texts[k].0 == EDGE_DEPENDS) ::
          TextHolds(t, p, status, controls[i].texts[k].0, controls[i].texts[k].1)
    {
      FieldsHoldIff(t, p, status, controls[i].texts);
    }
  }

  // ----- Conflicts -----

  /** The check of conflicts passes exactly if every conflict of a package that is not installed yet is
      with a name that is not stored in such a version, or that has a status and is not wanted, or is about
      versions that the package's own is not. */
  lemma ConflictsMean(t: Packages, p: nat, status: map<CString, Status>, debs: seq<nat>, trouble: Trouble)
    requires AllStored(t, p, debs) && FirstTrouble(t, p, status, debs, trouble)
    requires forall i | 0 <= i < |debs| :: t[debs[i]].value.name in status
    ensures trouble == NoTrouble <==>
      forall i, j | 0 <= i < |debs| && 0 <= j < |t[debs[i]].value.edges| ::
        var pkg, e := t[debs[i]].value, t[debs[i]].value.edges[j];
        || status[pkg.name].state == "installed"
        || e.kind != EDGE_CONFLICTS
        || !(exists x :: 0 <= x < p && t[x].Some? && t[x].value.name == e.name
               && (e.operator == VerAny || Satisfies(t[x].value.version, e.version, e.operator)))
        || (e.name in status && !(status[e.name].want == "install" && Satisfies(pkg.version, e.version, e.operator)))
  {
    hide Satisfies;
    forall i, j | 0 <= i < |debs| && 0 <= j < |t[debs[i]].value.edges|
      ensures var pkg, e := t[debs[i]].value, t[debs[i]].value.edges[j];
        (Pending(status, pkg) && (Reported(t, p, status, pkg, e) || Unknown(t, p, status, e))) <==>
          !(|| status[pkg.name].state == "installed"
            || e.kind != EDGE_CONFLICTS
            || !(exists x :: 0 <= x < p && t[x].Some? && t[x].value.name == e.name
                   && (e.operator == VerAny || Satisfies(t[x].value.version, e.version, e.operator)))
            || (e.name in status && !(status[e.name].want == "install" && Satisfies(pkg.version, e.version, e.operator))))
    {
    }
    hide Reported, Unknown;
  }
}
