/** Searching a double-hashed table, and the name table.
    Every string dpkg meets is stored there once and known by its slot number from then on. The search
    is stated for tables of any kind, since packages are kept in the same way. */
module NameTable {
  import opened CStrings
  import opened HashProbe

  /** Where a key's probes start and how far each one steps down. */
  datatype Path = Path(start: nat, dec: nat)

  predicate OnTable(path: Path, p: nat) {
    path.start < p && 0 < path.dec < p
  }

  function ProbeAt(path: Path, p: nat, k: nat): (a: nat)
    requires OnTable(path, p)
    ensures a < p
  {
    Probe(path.start, path.dec, p, k)
  }

  /** The first address, from the k-th probe on, that is empty or holds what is looked for;
      p if there is none. */
  function Locate<T>(t: seq<Option<T>>, path: Path, p: nat, hit: T -> bool, k: nat): (a: nat)
    requires |t| >= p && OnTable(path, p)
    ensures a <= p
    decreases p - k
  {
    if k >= p then p
    else
      var a := ProbeAt(path, p, k);
      if t[a].None? || hit(t[a].value) then a else Locate(t, path, p, hit, k + 1)
  }

  /** The k-th probe passes over its slot. */
  predicate Passes<T>(t: seq<Option<T>>, path: Path, p: nat, hit: T -> bool, k: nat)
    requires |t| >= p && OnTable(path, p)
  {
    t[ProbeAt(path, p, k)].Some? && !hit(t[ProbeAt(path, p, k)].value)
  }

  lemma {:induction false} LocateStops<T>(t: seq<Option<T>>, path: Path, p: nat, hit: T -> bool, k: nat) returns (n: nat)
    requires |t| >= p && OnTable(path, p) && k <= p
    ensures k <= n <= p && forall j: nat | k <= j < n :: Passes(t, path, p, hit, j)
    ensures n < p ==> Locate(t, path, p, hit, k) == ProbeAt(path, p, n) && !Passes(t, path, p, hit, n)
    ensures n == p ==> Locate(t, path, p, hit, k) == p
    decreases p - k
  {
    n := k;
    if k < p && Passes(t, path, p, hit, k) {
      n := LocateStops(t, path, p, hit, k + 1);
    }
  }

  lemma {:induction false} LocateSkips<T>(t: seq<Option<T>>, path: Path, p: nat, hit: T -> bool, k: nat, n: nat)
    requires |t| >= p && OnTable(path, p) && k <= n < p
    requires forall j: nat | k <= j < n :: Passes(t, path, p, hit, j)
    requires !Passes(t, path, p, hit, n)
    ensures Locate(t, path, p, hit, k) == ProbeAt(path, p, n)
    decreases n - k
  {
    if k < n {
      assert Passes(t, path, p, hit, k);
      LocateSkips(t, path, p, hit, k + 1, n);
    }
  }

  /** In a table of prime size the search fails only if no slot is empty or holds a hit; the
      probing would then go on for ever. */
  lemma SearchEndsIff<T>(t: seq<Option<T>>, path: Path, p: nat, hit: T -> bool)
    requires Prime(p) && |t| >= p && OnTable(path, p)
    ensures Locate(t, path, p, hit, 0) < p <==> exists a | 0 <= a < p :: t[a].None? || hit(t[a].value)
    ensures Locate(t, path, p, hit, 0) == p <==> forall k: nat :: Passes(t, path, p, hit, k)
  {
    var n := LocateStops(t, path, p, hit, 0);
    if n < p {
      var a := ProbeAt(path, p, n);
      assert t[a].None? || hit(t[a].value);
    } else {
      forall a | 0 <= a < p
        ensures t[a].Some? && !hit(t[a].value)
      {
        var k := EverySlotIsProbed(path.start, path.dec, p, a);
        assert Passes(t, path, p, hit, k);
      }
    }
  }

  // ----- The name table -----

  type Names = seq<Option<string>>

  /** make_hash, with the mixing of the characters left open. */
  function MakeHash(hash: string -> nat, p: nat, key: string): (path: Path)
    requires p >= 2
    ensures OnTable(path, p)
  {
    Path((hash(key) % 0x1_0000_0000) % p, 1 + hash(key) % (p - 1))
  }

  predicate SameName(a: string, b: string) {
    a == b
  }

  function Find(t: Names, hash: string -> nat, p: nat, key: string): (a: nat)
    requires p >= 2 && |t| >= p
    ensures a <= p
  {
    Locate(t, MakeHash(hash, p, key), p, s => SameName(s, key), 0)
  }

  /** Looking up any stored name leads to its slot. */
  ghost predicate Reachable(t: Names, hash: string -> nat, p: nat) {
    && p >= 2 && |t| == p + 1
    && forall a | 0 <= a < p && t[a].Some? :: Find(t, hash, p, t[a].value) == a
  }

  /** The table after a name has been looked up, which stores it if it is new. */
  function Intern(t: Names, hash: string -> nat, p: nat, key: string): Names
    requires p >= 2 && |t| > p
  {
    t[Find(t, hash, p, key) := Some(key)]
  }

  method SearchNameHashtable(t: array<Option<string>>, hash: string -> nat, p: nat, key: string) returns (address: nat)
    requires Prime(p) && t.Length == p + 1
    requires exists a | 0 <= a < p :: t[a].None? || t[a] == Some(key)
    modifies t
    ensures address == Find(old(t[..]), hash, p, key) < p
    ensures t[..] == Intern(old(t[..]), hash, p, key)
  {
    var path := MakeHash(hash, p, key);
    ghost var hit := s => SameName(s, key);
    assert Locate(t[..], path, p, hit, 0) < p by {
      var a :| 0 <= a < p && (t[a].None? || t[a] == Some(key));
      assert t[..][a].None? || hit(t[..][a].value);
      SearchEndsIff(t[..], path, p, hit);
    }
    address := path.start;
    ghost var k: nat := 0;
    while t[address].Some?
      invariant t[..] == old(t[..]) && k < p && address == ProbeAt(path, p, k)
      invariant Locate(t[..], path, p, hit, 0) == Locate(t[..], path, p, hit, k) < p
      decreases p - k
    {
      if t[address].value == key {
        assert t[..][address := Some(key)] == t[..];
        return;
      }
      if address < path.dec {
        address := address + p - path.dec;
      } else {
        address := address - path.dec;
      }
      k := k + 1;
    }
    t[address] := Some(key);
    assert t[..] == old(t[..])[address := Some(key)];
  }

  // ----- One lookup -----

  lemma FindSpec(t: Names, hash: string -> nat, p: nat, key: string) returns (n: nat)
    requires p >= 2 && |t| >= p
    ensures n <= p && (n < p <==> Find(t, hash, p, key) < p)
    ensures forall j: nat | j < n :: var s := t[ProbeAt(MakeHash(hash, p, key), p, j)]; s.Some? && s.value != key
    ensures n < p ==> var a := ProbeAt(MakeHash(hash, p, key), p, n);
      Find(t, hash, p, key) == a && (t[a].None? || t[a].value == key)
  {
    n := LocateStops(t, MakeHash(hash, p, key), p, s => SameName(s, key), 0);
    forall j: nat | j < n
      ensures var s := t[ProbeAt(MakeHash(hash, p, key), p, j)]; s.Some? && s.value != key
    {
      assert Passes(t, MakeHash(hash, p, key), p, s => SameName(s, key), j);
    }
  }

  lemma FindAt(t: Names, hash: string -> nat, p: nat, key: string, n: nat)
    requires p >= 2 && |t| >= p && n < p
    requires forall j: nat | j < n :: var s := t[ProbeAt(MakeHash(hash, p, key), p, j)]; s.Some? && s.value != key
    requires t[ProbeAt(MakeHash(hash, p, key), p, n)] == Some(key)
    ensures Find(t, hash, p, key) == ProbeAt(MakeHash(hash, p, key), p, n)
  {
    LocateSkips(t, MakeHash(hash, p, key), p, s => SameName(s, key), 0, n);
  }

  /** Storing a name moves no other name. */
  lemma InternKeepsFind(t: Names, hash: string -> nat, p: nat, key: string, a: nat)
    requires Reachable(t, hash, p) && Find(t, hash, p, key) < p
    requires a < p && t[a].Some?
    ensures Find(t, hash, p, key) == a <==> t[a].value == key
    ensures Intern(t, hash, p, key)[a] == t[a]
    ensures Find(Intern(t, hash, p, key), hash, p, t[a].value) == a
  {
    var t1, s := Intern(t, hash, p, key), t[a].value;
    var m := FindSpec(t, hash, p, key);
    var n := FindSpec(t, hash, p, s);
    assert Find(t, hash, p, s) == a;
    FindAt(t1, hash, p, s, n);
  }

  lemma InternKeepsReachable(t: Names, hash: string -> nat, p: nat, key: string)
    requires Reachable(t, hash, p) && Find(t, hash, p, key) < p
    ensures Reachable(Intern(t, hash, p, key), hash, p)
    ensures Find(Intern(t, hash, p, key), hash, p, key) == Find(t, hash, p, key)
  {
    hide Find;
    var t1, id := Intern(t, hash, p, key), Find(t, hash, p, key);
    var n := FindSpec(t, hash, p, key);
    FindAt(t1, hash, p, key, n);
    forall a | 0 <= a < p && t1[a].Some?
      ensures Find(t1, hash, p, t1[a].value) == a
    {
      if a != id {
        InternKeepsFind(t, hash, p, key, a);
      }
    }
  }

  // ----- Every sequence of lookups -----

  function Empty(p: nat): Names {
    seq(p + 1, _ => None)
  }

  /** The table after a sequence of lookups. */
  function Table(hash: string -> nat, p: nat, keys: seq<string>): (t: Names)
    requires p >= 2
    ensures |t| == p + 1
  {
    if keys == [] then Empty(p)
    else Intern(Table(hash, p, keys[..|keys|-1]), hash, p, keys[|keys|-1])
  }

  /** What the i-th lookup returns. */
  function Id(hash: string -> nat, p: nat, keys: seq<string>, i: nat): nat
    requires p >= 2 && i < |keys|
  {
    Find(Table(hash, p, keys[..i]), hash, p, keys[i])
  }

  function Distinct(keys: seq<string>): set<string> {
    set k | k in keys
  }

  function Occupied<T>(t: seq<Option<T>>, p: nat): set<nat>
    requires |t| >= p
  {
    set a | a in Slots(p) && a < p && t[a].Some?
  }

  /** The stored names are those looked up, each in one slot. */
  ghost predicate Holds(t: Names, hash: string -> nat, p: nat, keys: seq<string>) {
    && Reachable(t, hash, p)
    && (forall a | 0 <= a < p && t[a].Some? :: t[a].value in keys)
    && (forall k | k in keys :: Find(t, hash, p, k) < p && t[Find(t, hash, p, k)] == Some(k))
    && |Occupied(t, p)| == |Distinct(keys)|
  }

  lemma ElementOutside(a: set<nat>, b: set<nat>) returns (x: nat)
    requires a <= b && |a| < |b|
    ensures x in b && x !in a
  {
    assert b == a + (b - a);
    x :| x in b - a;
  }

  lemma FreeSlot<T>(t: seq<Option<T>>, p: nat) returns (a: nat)
    requires |t| >= p && |Occupied(t, p)| < p
    ensures a < p && t[a].None?
  {
    SlotsAreAll(p);
    a := ElementOutside(Occupied(t, p), Slots(p));
  }

  /** As long as not every slot is taken, a lookup ends. */
  lemma LookupEnds(t: Names, hash: string -> nat, p: nat, keys: seq<string>, key: string)
    requires Prime(p) && Holds(t, hash, p, keys) && |Distinct(keys + [key])| <= p
    ensures Find(t, hash, p, key) < p
  {
    if key !in keys {
      hide Reachable, Locate;
      DistinctAppend(keys, key);
      var a := FreeSlot(t, p);
      SearchEndsIff(t, MakeHash(hash, p, key), p, s => SameName(s, key));
    }
  }

  lemma InternHolds(t: Names, hash: string -> nat, p: nat, keys: seq<string>, key: string)
    requires Holds(t, hash, p, keys) && Find(t, hash, p, key) < p
    ensures Holds(Intern(t, hash, p, key), hash, p, keys + [key])
  {
    var t1, id := Intern(t, hash, p, key), Find(t, hash, p, key);
    InternKeepsReachable(t, hash, p, key);
    var n := FindSpec(t, hash, p, key);
    hide Find, Reachable;
    forall k | k in keys + [key]
      ensures Find(t1, hash, p, k) < p && t1[Find(t1, hash, p, k)] == Some(k)
    {
      if k != key {
        InternKeepsFind(t, hash, p, key, Find(t, hash, p, k));
      }
    }
    OccupiedGrows(t, hash, p, keys, key);
  }

  lemma OccupiedAfter(t: Names, p: nat, id: nat, key: string)
    requires |t| >= p && id < p
    ensures Occupied(t[id := Some(key)], p) == Occupied(t, p) + {id}
    ensures id in Occupied(t, p) <==> t[id].Some?
  {
    SlotsAreAll(p);
  }

  lemma StoredIffKnown(t: Names, hash: string -> nat, p: nat, keys: seq<string>, key: string)
    requires Holds(t, hash, p, keys) && Find(t, hash, p, key) < p
    ensures t[Find(t, hash, p, key)].Some? <==> key in keys
  {
    var n := FindSpec(t, hash, p, key);
  }

  lemma GrowAlike(a: set<nat>, x: nat, b: set<string>, y: string)
    requires |a| == |b| && (x in a <==> y in b)
    ensures |a + {x}| == |b + {y}|
  {
    if x in a {
      assert a + {x} == a && b + {y} == b;
    }
  }

  lemma OccupiedGrows(t: Names, hash: string -> nat, p: nat, keys: seq<string>, key: string)
    requires Holds(t, hash, p, keys) && |t| == p + 1 && p >= 2 && Find(t, hash, p, key) < p
    ensures |Occupied(Intern(t, hash, p, key), p)| == |Distinct(keys + [key])|
  {
    hide Find, Reachable, Occupied, Distinct;
    StoredIffKnown(t, hash, p, keys, key);
    OccupiedAfter(t, p, Find(t, hash, p, key), key);
    DistinctAppend(keys, key);
    GrowAlike(Occupied(t, p), Find(t, hash, p, key), Distinct(keys), key);
  }

  lemma DistinctAppend(keys: seq<string>, key: string)
    ensures Distinct(keys + [key]) == Distinct(keys) + {key}
    ensures key in Distinct(keys) <==> key in keys
  {
  }

  lemma {:induction false} TableHolds(hash: string -> nat, p: nat, keys: seq<string>)
    requires Prime(p) && |Distinct(keys)| <= p
    ensures Holds(Table(hash, p, keys), hash, p, keys)
  {
    if keys == [] {
      assert Occupied(Empty(p), p) == {} && Distinct(keys) == {};
    } else {
      var n := |keys| - 1;
      var front := keys[..n];
      assert keys == front + [keys[n]];
      assert Distinct(front) <= Distinct(keys);
      SetSubsetSize(Distinct(front), Distinct(keys));
      TableHolds(hash, p, front);
      LookupEnds(Table(hash, p, front), hash, p, front, keys[n]);
      InternHolds(Table(hash, p, front), hash, p, front, keys[n]);
    }
  }

  lemma SetSubsetSize(a: set<string>, b: set<string>)
    requires a <= b
    ensures |a| <= |b|
  {
    assert b == a + (b - a);
  }

  /** Over every sequence of lookups with no more distinct names than slots, each lookup ends,
      a name always gets the same number, different names get different numbers, and every
      name looked up stays stored and reachable under its number. */
  lemma {:induction false} NumbersAreStable(hash: string -> nat, p: nat, keys: seq<string>, i: nat)
    requires Prime(p) && |Distinct(keys)| <= p && i < |keys|
    ensures Id(hash, p, keys, i) < p
    ensures Find(Table(hash, p, keys), hash, p, keys[i]) == Id(hash, p, keys, i)
    ensures Table(hash, p, keys)[Id(hash, p, keys, i)] == Some(keys[i])
    decreases |keys|
  {
    var n := |keys| - 1;
    var front := keys[..n];
    assert keys == front + [keys[n]];
    SetSubsetSize(Distinct(front), Distinct(keys));
    TableHolds(hash, p, front);
    LookupEnds(Table(hash, p, front), hash, p, front, keys[n]);
    InternKeepsReachable(Table(hash, p, front), hash, p, keys[n]);
    hide Find, Reachable, Intern;
    if i < n {
      assert front[..i] == keys[..i];
      NumbersAreStable(hash, p, front, i);
      InternKeepsFind(Table(hash, p, front), hash, p, keys[n], Id(hash, p, keys, i));
    } else {
      TableHolds(hash, p, keys);
    }
  }

  lemma NumbersNameNames(hash: string -> nat, p: nat, keys: seq<string>, i: nat, j: nat)
    requires Prime(p) && |Distinct(keys)| <= p && i < |keys| && j < |keys|
    ensures Id(hash, p, keys, i) == Id(hash, p, keys, j) <==> keys[i] == keys[j]
  {
    hide Find, Table, Id;
    NumbersAreStable(hash, p, keys, i);
    NumbersAreStable(hash, p, keys, j);
  }
}
