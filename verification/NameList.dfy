/** Lists of names: duplicate-free, in order of arrival or sorted. */
module NameList {
  import opened CStrings

  /** strcmp on the unsigned values of the characters. */
  predicate Less(a: string, b: string) {
    if b == "" then false
    else if a == "" then true
    else if a[0] != b[0] then a[0] < b[0]
    else Less(a[1..], b[1..])
  }

  ghost predicate NoDuplicates(names: seq<string>) {
    forall i, j | 0 <= i < j < |names| :: names[i] != names[j]
  }

  ghost predicate SortedNames(names: seq<string>) {
    forall i, j | 0 <= i < j < |names| :: Less(names[i], names[j])
  }

  /** The position before the first name greater than the given one. */
  function InsertAt(names: seq<string>, name: string): (i: nat)
    ensures i <= |names|
    ensures forall j | 0 <= j < i :: !Less(name, names[j])
    ensures i < |names| ==> Less(name, names[i])
  {
    if names == [] || Less(name, names[0]) then 0 else 1 + InsertAt(names[1..], name)
  }

  function Add(names: seq<string>, name: string, sort: bool): seq<string> {
    if name in names then names
    else if !sort then names + [name]
    else var i := InsertAt(names, name); names[..i] + [name] + names[i..]
  }

  method NameListAdd(names: seq<string>, name: string, sort: bool) returns (r: seq<string>)
    ensures r == Add(names, name, sort)
  {
    for i := 0 to |names|
      invariant name !in names[..i]
    {
      if names[i] == name {
        return names;
      }
    }
    assert name !in names;
    var at := |names|;
    if sort {
      at := 0;
      while at < |names| && !Less(name, names[at])
        invariant at <= |names|
        invariant InsertAt(names, name) == at + InsertAt(names[at..], name)
      {
        assert names[at..][1..] == names[at+1..];
        at := at + 1;
      }
    }
    r := names[..at] + [name] + names[at..];
  }

  lemma {:induction false} LessIsTransitive(a: string, b: string, c: string)
    requires Less(a, b) && Less(b, c)
    ensures Less(a, c)
  {
    if a != "" && a[0] == b[0] == c[0] {
      LessIsTransitive(a[1..], b[1..], c[1..]);
    }
  }

  lemma {:induction false} LessIsIrreflexive(a: string)
    ensures !Less(a, a)
  {
    if a != "" {
      LessIsIrreflexive(a[1..]);
    }
  }

  lemma {:induction false} LessIsTotal(a: string, b: string)
    ensures Less(a, b) || a == b || Less(b, a)
  {
    if a != "" && b != "" && a[0] == b[0] {
      LessIsTotal(a[1..], b[1..]);
      assert a == [a[0]] + a[1..] && b == [b[0]] + b[1..];
    }
  }

  /** The names differ first at k, and there a has the smaller character. */
  predicate LessAt(a: string, b: string, k: nat) {
    k < |a| && k < |b| && a[..k] == b[..k] && a[k] < b[k]
  }

  lemma LessAtRest(a: string, b: string, k: nat)
    requires a != "" && b != "" && a[0] == b[0]
    ensures LessAt(a, b, k + 1) <==> LessAt(a[1..], b[1..], k)
    ensures !LessAt(a, b, 0)
  {
    if k < |a| - 1 && k < |b| - 1 {
      assert a[..k+1] == [a[0]] + a[1..][..k] && b[..k+1] == [b[0]] + b[1..][..k];
      assert a[..k+1][1..] == a[1..][..k] && b[..k+1][1..] == b[1..][..k];
    }
  }

  lemma PrefixOfRest(a: string, b: string)
    requires a != "" && b != "" && a[0] == b[0]
    ensures (a <= b <==> a[1..] <= b[1..]) && (a == b <==> a[1..] == b[1..])
  {
    assert a == [a[0]] + a[1..] && b == [b[0]] + b[1..];
  }

  /** Names are compared at their first difference, where a proper prefix comes first. */
  lemma {:induction false} LessIff(a: string, b: string)
    ensures Less(a, b) <==> (a <= b && a != b) || exists k: nat :: LessAt(a, b, k)
  {
    if a != "" && b != "" && a[0] == b[0] {
      LessIff(a[1..], b[1..]);
      PrefixOfRest(a, b);
      LessAtRest(a, b, 0);
      hide LessAt;
      forall k: nat
        ensures LessAt(a, b, k + 1) <==> LessAt(a[1..], b[1..], k)
      {
        LessAtRest(a, b, k);
      }
      if k: nat :| LessAt(a, b, k) {
        assert LessAt(a[1..], b[1..], k - 1);
      }
      if k: nat :| LessAt(a[1..], b[1..], k) {
        assert LessAt(a, b, k + 1);
      }
    } else if a != "" && b != "" {
      assert a[..0] == b[..0];
      assert a[0] < b[0] ==> LessAt(a, b, 0);
    }
  }

  /** Without sorting a new name comes last and the others stay where they are. */
  lemma AddKeepsPlaces(names: seq<string>, name: string)
    ensures names <= Add(names, name, false)
    ensures name !in names ==> Add(names, name, false)[|names|..] == [name]
  {
  }

  /** Adding adds the one name and keeps the list free of duplicates. */
  lemma AddKeepsSet(names: seq<string>, name: string, sort: bool)
    ensures forall x :: x in Add(names, name, sort) <==> x in names || x == name
    ensures NoDuplicates(names) ==> NoDuplicates(Add(names, name, sort))
  {
  }

  lemma InsertBetween(names: seq<string>, i: nat, name: string)
    requires i <= |names| && SortedNames(names)
    requires forall j | 0 <= j < i :: Less(names[j], name)
    requires forall j | i <= j < |names| :: Less(name, names[j])
    ensures SortedNames(names[..i] + [name] + names[i..])
  {
  }

  /** Sorted adding keeps a sorted list sorted. */
  lemma AddKeepsSorted(names: seq<string>, name: string)
    requires SortedNames(names)
    ensures SortedNames(Add(names, name, true))
  {
    if name !in names {
      var i := InsertAt(names, name);
      forall j | 0 <= j < i
        ensures Less(names[j], name)
      {
        LessIsTotal(name, names[j]);
      }
      forall j | i <= j < |names|
        ensures Less(name, names[j])
      {
        if i < j {
          LessIsTransitive(name, names[i], names[j]);
        }
      }
      InsertBetween(names, i, name);
    }
  }
}
