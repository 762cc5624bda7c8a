/** What whole versions mean: how they are read, which part decides, and which way the operators point. */
module DebVersionLaws {
  import opened CStrings
  import opened Decimal
  import opened DebVersion
  import opened DebVersionOrder
  import opened DebVersionRules

  // ----- Reading -----

  lemma {:induction false} FirstIs(a: string, c: char, b: string)
    requires c !in a
    ensures IndexOf(a + [c] + b, c) == |a|
  {
    if a == "" {
      assert a + [c] + b == [c] + b;
    } else {
      assert (a + [c] + b)[1..] == a[1..] + [c] + b;
      FirstIs(a[1..], c, b);
    }
  }

  lemma {:induction false} NoneIs(a: string, c: char)
    requires c !in a
    ensures IndexOf(a, c) == |a|
  {
    if a != "" {
      NoneIs(a[1..], c);
    }
  }

  lemma {:induction false} LastIs(a: string, c: char, b: string)
    requires c !in b
    ensures LastIndexOf(a + [c] + b, c) == |a| + 1
  {
    var s := a + [c] + b;
    if b != "" {
      assert s[..|s|-1] == a + [c] + b[..|b|-1];
      LastIs(a, c, b[..|b|-1]);
    }
  }

  lemma {:induction false} NoLastIs(a: string, c: char)
    requires c !in a
    ensures LastIndexOf(a, c) == 0
  {
    if a != "" {
      NoLastIs(a[..|a|-1], c);
    }
  }

  /** What follows the epoch: upstream version up to the last dash, and revision. */
  lemma RestIsRead(upstream: CString, revision: CString)
    requires '-' !in revision
    ensures var rest := upstream + "-" + revision; var dash := LastIndexOf(rest, '-');
      dash > 0 && rest[..dash-1] == upstream && rest[dash..] == revision
  {
    LastIs(upstream, '-', revision);
  }

  lemma EpochIsRead(epoch: CString, rest: CString)
    requires AllDigits(epoch) && epoch != "" && Value(epoch) < 0x8000_0000
    ensures var s := epoch + ":" + rest;
      IndexOf(s, ':') == |epoch| < |s| && s[|epoch|+1..] == rest && ToUnsigned(Atoi(s)) == Value(epoch)
  {
    var s := epoch + ":" + rest;
    DigitsArePlain(epoch);
    hide *;
    ColonEnds(epoch, rest);
    FirstIs(epoch, ':', rest);
    AtoiReads("", "", epoch, ":" + rest);
    NothingBefore(epoch, ":" + rest);
    SmallIsUnsigned(Value(epoch));
  }

  lemma ColonEnds(epoch: string, rest: string)
    ensures var s := epoch + ":" + rest;
      s == epoch + [':'] + rest && |epoch| < |s| && s[|epoch|+1..] == rest && s == epoch + (":" + rest)
    ensures !IsDigit((":" + rest)[0])
  {
  }

  lemma NothingBefore(digits: string, rest: string)
    ensures "" + ("" + digits + rest) == digits + rest
  {
    assert "" + digits == digits;
  }

  lemma SmallIsUnsigned(n: nat)
    requires n < 0x8000_0000
    ensures ToUnsigned(n) == n
  {
  }

  /** A version with epoch and revision is read as these: the upstream version may hold colons and
      dashes of its own. */
  lemma VersionIsRead(epoch: CString, upstream: CString, revision: CString)
    requires AllDigits(epoch) && epoch != "" && Value(epoch) < 0x8000_0000 && '-' !in revision
    ensures Parse(epoch + ":" + upstream + "-" + revision) == Version(Value(epoch), upstream, revision)
  {
    var rest: CString := upstream + "-" + revision;
    assert epoch + ":" + upstream + "-" + revision == epoch + ":" + rest;
    EpochIsRead(epoch, rest);
    RestIsRead(upstream, revision);
    hide IndexOf, LastIndexOf, Atoi;
  }

  /** Without epoch it is 0, without revision that is empty. */
  lemma ShortVersionIsRead(epoch: CString, upstream: CString, revision: CString)
    ensures ':' !in upstream + "-" + revision && '-' !in revision ==> Parse(upstream + "-" + revision) == Version(0, upstream, revision)
    ensures ':' !in upstream && '-' !in upstream ==> Parse(upstream) == Version(0, upstream, "")
    ensures AllDigits(epoch) && epoch != "" && Value(epoch) < 0x8000_0000 && '-' !in upstream ==>
              Parse(epoch + ":" + upstream) == Version(Value(epoch), upstream, "")
  {
    hide Atoi;
    if ':' !in upstream + "-" + revision && '-' !in revision {
      NoneIs(upstream + "-" + revision, ':');
      RestIsRead(upstream, revision);
    }
    if '-' !in upstream {
      NoLastIs(upstream, '-');
      if ':' !in upstream {
        NoneIs(upstream, ':');
      }
      if AllDigits(epoch) && epoch != "" && Value(epoch) < 0x8000_0000 {
        EpochIsRead(epoch, upstream);
      }
    }
    hide IndexOf, LastIndexOf;
  }

  // ----- Which part decides -----

  /** The epochs decide as numbers, then the upstream versions, then the revisions. */
  lemma PartsDecideInTurn(e: CString, u: CString, r: CString, f: CString, v: CString, q: CString)
    requires AllDigits(e) && e != "" && Value(e) < 0x8000_0000 && '-' !in r
    requires AllDigits(f) && f != "" && Value(f) < 0x8000_0000 && '-' !in q
    ensures var a, b: CString := e + ":" + u + "-" + r, f + ":" + v + "-" + q;
      && (Satisfies(a, b, VerLess) <==>
            || Value(e) < Value(f)
            || (Value(e) == Value(f) && (PartOrder(u, v) < 0 || (PartOrder(u, v) == 0 && PartOrder(r, q) < 0))))
      && (Satisfies(a, b, VerEqual) <==> Value(e) == Value(f) && PartOrder(u, v) == 0 && PartOrder(r, q) == 0)
  {
    VersionIsRead(e, u, r);
    VersionIsRead(f, v, q);
    hide Parse, PartOrder, Value;
  }

  // ----- Which way the operators point -----

  /** Versions without epoch and revision are compared as parts, by the operators as they are written. */
  lemma PlainVersions(x: CString, y: CString)
    requires ':' !in x && '-' !in x && ':' !in y && '-' !in y
    ensures Satisfies(x, y, VerLess) <==> PartOrder(x, y) < 0
    ensures Satisfies(x, y, VerLessEqual) <==> PartOrder(x, y) <= 0
    ensures Satisfies(x, y, VerEqual) <==> PartOrder(x, y) == 0
    ensures Satisfies(x, y, VerMoreEqual) <==> PartOrder(x, y) >= 0
    ensures Satisfies(x, y, VerMore) <==> PartOrder(x, y) > 0
  {
    PlainIsRead(x);
    PlainIsRead(y);
    hide Parse;
    UpstreamDecides(x, y);
    hide VersionOrder;
  }

  lemma PlainIsRead(x: CString)
    requires ':' !in x && '-' !in x
    ensures Parse(x) == Version(0, x, "")
  {
    ShortVersionIsRead("0", x, "");
  }

  lemma UpstreamDecides(x: CString, y: CString)
    ensures VersionOrder(Version(0, x, ""), Version(0, y, "")) == PartOrder(x, y)
  {
    NothingIsEqual();
    hide PartOrder;
  }

  /** On numbers the operators are the comparisons they are written as. */
  lemma OperatorsOnNumbers(x: CString, y: CString)
    requires AllDigits(x) && AllDigits(y)
    ensures Satisfies(x, y, VerLess) <==> Value(x) < Value(y)
    ensures Satisfies(x, y, VerLessEqual) <==> Value(x) <= Value(y)
    ensures Satisfies(x, y, VerEqual) <==> Value(x) == Value(y)
    ensures Satisfies(x, y, VerMoreEqual) <==> Value(x) >= Value(y)
    ensures Satisfies(x, y, VerMore) <==> Value(x) > Value(y)
  {
    DigitsArePlain(x);
    DigitsArePlain(y);
    DigitsCompareAsNumbers(x, y);
    PlainVersions(x, y);
    hide Satisfies, PartOrder, Value;
  }

  lemma DigitsArePlain(x: string)
    requires AllDigits(x)
    ensures ':' !in x && '-' !in x
  {
  }

  /** A version continued by a tilde is less than the version itself. */
  lemma TildeIsLess(s: CString, t: CString)
    requires ':' !in s + t && '-' !in s + t
    ensures Satisfies(s + "~" + t, s, VerLess) && !Satisfies(s + "~" + t, s, VerMoreEqual)
  {
    TildeSortsFirst(s, t);
    hide Satisfies, PartOrder;
    PlainVersions(s + "~" + t, s);
  }

  /** Any version will do where none is asked for, and none where the operator is missing. */
  lemma AnyAndNone(a: CString, b: CString)
    ensures Satisfies(a, b, VerAny) && !Satisfies(a, b, VerNull)
  {
  }
}
