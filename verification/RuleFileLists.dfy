/** Name lists as they are kept: linked entries, added to, merged and freed in place.
    Each method is given the ring of the list and says what the new ring is; the names along it are
    those of the functions on sequences. */
module RuleFileLists {
  import opened CStrings
  import opened Sequences
  import opened NameList
  import opened Lists
  import opened RuleFiles

  lemma NamesInsert(ring: seq<ListHead<string>>, i: nat, n: ListHead<string>)
    requires i < |ring|
    ensures Contents(InsertAfter(ring, i, n)) == Contents(ring)[..i] + [n.data] + Contents(ring)[i..]
  {
  }

  /** Find the entry with the name, or go once round to the head. */
  method FindName(head: ListHead<string>, name: string, ghost ring: seq<ListHead<string>>) returns (entry: ListHead<string>, ghost k: nat)
    requires Ring(ring) && ring[0] == head
    ensures 0 < k <= |ring| && entry == At(ring, k)
    ensures k < |ring| ==> entry.data == name
    ensures k == |ring| ==> name !in Contents(ring)
  {
    entry := head.next;
    k := 1;
    while entry != head
      invariant 0 < k <= |ring| && entry == At(ring, k)
      invariant forall j | 0 <= j < k - 1 :: Contents(ring)[j] != name
      decreases |ring| - k
    {
      assert entry == ring[k];
      if entry.data == name {
        return;
      }
      entry := entry.next;
      k := k + 1;
    }
    HeadIsLast(ring, k);
  }

  /** Find the first entry with a greater name, or go once round to the head. */
  method FindGreater(head: ListHead<string>, name: string, ghost ring: seq<ListHead<string>>) returns (entry: ListHead<string>, ghost k: nat)
    requires Ring(ring) && ring[0] == head
    ensures 0 < k <= |ring| && entry == At(ring, k) && k - 1 == InsertAt(Contents(ring), name)
  {
    hide Less;
    ghost var names := Contents(ring);
    entry := head.next;
    k := 1;
    while entry != head
      invariant 0 < k <= |ring| && entry == At(ring, k)
      invariant InsertAt(names, name) == k - 1 + InsertAt(names[k-1..], name)
      decreases |ring| - k
    {
      assert entry == ring[k] && names[k-1..][0] == entry.data;
      assert names[k-1..][1..] == names[k..];
      if Less(name, entry.data) {
        return;
      }
      entry := entry.next;
      k := k + 1;
    }
    HeadIsLast(ring, k);
  }

  /** name_list_add. The new ring is handed back with the entry. */
  method NameListAdd(head: ListHead<string>, name: string, sort: bool, ghost ring: seq<ListHead<string>>)
    returns (entry: ListHead<string>, ghost ring1: seq<ListHead<string>>)
    requires Ring(ring) && ring[0] == head
    modifies set x | x in ring
    ensures Ring(ring1) && ring1[0] == head
    ensures entry in ring1 && entry.data == name
    ensures Contents(ring1) == Add(Contents(ring), name, sort)
    ensures forall x | x in ring1 :: x in ring || fresh(x)
  {
    hide Add, InsertAt, InsertAfter;
    ghost var k;
    entry, k := FindName(head, name, ring);
    if entry != head {
      assert entry == ring[k] && Contents(ring)[k-1] == name;
      AddKnown(Contents(ring), name, sort);
      return entry, ring;
    }
    HeadIsLast(ring, k);
    var at := entry;
    if sort {
      at, k := FindGreater(head, name, ring);
    }
    AddedAt(Contents(ring), name, sort, k - 1);
    entry, ring1 := InsertNew(at, name, ring, k);
  }

  /** A new entry in front of the given one. */
  method InsertNew(at: ListHead<string>, name: string, ghost ring: seq<ListHead<string>>, ghost k: nat)
    returns (entry: ListHead<string>, ghost ring1: seq<ListHead<string>>)
    requires Ring(ring) && 0 < k <= |ring| && at == At(ring, k)
    modifies set x | x in ring
    ensures Ring(ring1) && ring1[0] == ring[0]
    ensures entry in ring1 && entry.data == name
    ensures Contents(ring1) == Contents(ring)[..k-1] + [name] + Contents(ring)[k-1..]
    ensures forall x | x in ring1 :: x in ring || fresh(x)
  {
    hide InsertAfter;
    entry := new ListHead(name);
    ghost var m := if k == |ring| then 0 else k;
    assert Before(ring, m) == k - 1;
    ListAddTail(entry, at, ring, m);
    ring1 := InsertAfter(ring, k - 1, entry);
    NamesInsert(ring, k - 1, entry);
    InsertMembers(ring, k - 1, entry);
  }

  lemma AddKnown(names: seq<string>, name: string, sort: bool)
    requires name in names
    ensures Add(names, name, sort) == names
  {
  }

  lemma AddedAt(names: seq<string>, name: string, sort: bool, i: nat)
    requires name !in names && i == if sort then InsertAt(names, name) else |names|
    ensures Add(names, name, sort) == names[..i] + [name] + names[i..]
  {
  }

  lemma InsertMembers(ring: seq<ListHead<string>>, i: nat, n: ListHead<string>)
    requires i < |ring|
    ensures forall x :: x in InsertAfter(ring, i, n) <==> x in ring || x == n
    ensures |InsertAfter(ring, i, n)| > 0 && InsertAfter(ring, i, n)[0] == ring[0]
  {
    assert ring == ring[..i+1] + ring[i+1..];
  }

  /** The place for a dynamic file: the first entry of a greater base name, or the head. */
  method FindSlot(head: ListHead<string>, base: string, ghost ring: seq<ListHead<string>>) returns (entry: ListHead<string>, ghost k: nat)
    requires Ring(ring) && ring[0] == head
    ensures 0 < k <= |ring| && entry == At(ring, k) && k - 1 == Slot(Contents(ring), base)
  {
    hide Less, Base;
    ghost var names := Contents(ring);
    entry := head.next;
    k := 1;
    while entry != head
      invariant 0 < k <= |ring| && entry == At(ring, k)
      invariant Slot(names, base) == k - 1 + Slot(names[k-1..], base)
      decreases |ring| - k
    {
      assert entry == ring[k] && names[k-1..][0] == entry.data;
      assert names[k-1..][1..] == names[k..];
      var nameBase := Base(entry.data);
      if nameBase.Some? && Less(base, nameBase.value) {
        return;
      }
      entry := entry.next;
      k := k + 1;
    }
    HeadIsLast(ring, k);
  }

  /** A ring without its first n entries. */
  ghost predicate Rest(ring: seq<ListHead<string>>, rest: seq<ListHead<string>>, n: nat) {
    && n < |ring| && |rest| == |ring| - n && rest[0] == ring[0]
    && forall i | 0 < i < |rest| :: rest[i] == ring[i + n]
  }

  lemma RestStep(ring: seq<ListHead<string>>, rest: seq<ListHead<string>>, n: nat)
    requires Rest(ring, rest, n) && |rest| > 1 && NoRepeats(rest)
    ensures var r := RemoveAt(rest, 1);
      && rest[1] == ring[1 + n]
      && Rest(ring, r, n + 1)
      && rest[1] !in r && forall x | x in r :: x in rest
  {
    RemovedNodes(rest, 1);
  }

  /** Move one dynamic file, the first one left, to its place. */
  method MergeOneFile(dynLoop: ListHead<string>, nameHead: ListHead<string>, ghost merged: seq<ListHead<string>>, ghost rest: seq<ListHead<string>>)
    returns (ghost merged1: seq<ListHead<string>>)
    requires Ring(merged) && merged[0] == nameHead && Ring(rest) && |rest| > 1 && rest[1] == dynLoop
    requires forall x | x in merged :: x !in rest
    requires HasBase(dynLoop.data)
    modifies set x | x in rest + merged
    ensures Ring(merged1) && merged1[0] == nameHead && Ring(RemoveAt(rest, 1))
    ensures forall x :: x in merged1 <==> x in merged || x == dynLoop
    ensures Contents(merged1) == MergeOne(Contents(merged), dynLoop.data)
  {
    var dynBase := Base(dynLoop.data);
    hide Less, Base;
    ghost var k;
    var at: ListHead<string>;
    at, k := FindSlot(nameHead, dynBase.value, merged);
    ghost var m := if k == |merged| then 0 else k;
    ListMoveTail(dynLoop, at, rest, 1, merged, m);
    merged1 := InsertAfter(merged, Before(merged, m), dynLoop);
    assert Before(merged, m) == k - 1;
    InsertMembers(merged, k - 1, dynLoop);
    NamesInsert(merged, k - 1, dynLoop);
  }

  lemma MergeStep(names: seq<string>, dyns: seq<string>, n: nat)
    requires n < |dyns|
    ensures Merge(names, dyns[..n+1]) == MergeOne(Merge(names, dyns[..n]), dyns[n])
  {
    hide MergeOne;
    assert dyns[..n+1][..n] == dyns[..n];
  }

  /** Move every dynamic file to its place in the main list; the dynamic list is left empty. */
  method MergeDynamic(nameHead: ListHead<string>, dynHead: ListHead<string>, ghost names: seq<ListHead<string>>, ghost dyns: seq<ListHead<string>>)
    returns (ghost merged: seq<ListHead<string>>)
    requires Ring(names) && names[0] == nameHead
    requires Ring(dyns) && dyns[0] == dynHead
    requires forall x | x in names :: x !in dyns
    requires HaveBase(Contents(dyns))
    modifies set x | x in names + dyns
    ensures Ring(merged) && merged[0] == nameHead && Ring([dynHead])
    ensures Contents(merged) == Merge(Contents(names), Contents(dyns))
  {
    hide MergeOne, HasBase, Merge;
    merged := names;
    ghost var rest := dyns;
    ghost var done: nat := 0;
    var dynLoop := dynHead.next;
    assert Contents(merged) == Merge(Contents(names), Contents(dyns)[..0]) by { MergeNone(Contents(names), Contents(dyns)); }
    while dynLoop != dynHead
      invariant Rest(dyns, rest, done)
      invariant Ring(rest) && Ring(merged) && merged[0] == nameHead
      invariant forall x | x in merged :: x !in rest
      invariant forall x | x in merged :: x in names || x in dyns
      invariant forall x | x in rest :: x in dyns
      invariant dynLoop == At(rest, 1)
      invariant Contents(merged) == Merge(Contents(names), Contents(dyns)[..done])
      decreases |rest|
    {
      var dynTmp := dynLoop.next;
      RestStep(dyns, rest, done);
      assert dynLoop == rest[1] && dynLoop.data == Contents(dyns)[done];
      MergeStep(Contents(names), Contents(dyns), done);
      merged := MergeOneFile(dynLoop, nameHead, merged, rest);
      rest := RemoveAt(rest, 1);
      done := done + 1;
      dynLoop := dynTmp;
    }
    HeadIsLast(rest, 1);
    assert rest == [dynHead];
    assert Contents(dyns)[..done] == Contents(dyns);
  }

  lemma MergeNone(names: seq<string>, dyns: seq<string>)
    ensures Merge(names, dyns[..0]) == names
  {
  }

  /** The entries are off every list. */
  ghost predicate Freed(freed: seq<ListHead<string>>)
    reads set x | x in freed
  {
    forall x | x in freed :: x.next == null && x.prev == null
  }

  /** Take the first entry off the list and free it. */
  method FreeFirst(loop: ListHead<string>, ghost rest: seq<ListHead<string>>, ghost freed: seq<ListHead<string>>)
    requires Ring(rest) && |rest| > 1 && rest[1] == loop
    requires Freed(freed) && forall x | x in freed :: x !in rest
    modifies set x | x in rest
    ensures Ring(RemoveAt(rest, 1)) && Freed(freed + [loop])
  {
    hide RemoveAt;
    ListDel(loop, rest, 1);
  }

  /** Take every entry off the list, each exactly once, the next one remembered before. */
  method NameListCleanup(head: ListHead<string>, ghost ring: seq<ListHead<string>>) returns (ghost freed: seq<ListHead<string>>)
    requires Ring(ring) && ring[0] == head
    modifies set x | x in ring
    ensures Ring([head]) && freed == ring[1..]
    ensures Freed(freed)
  {
    hide Freed, RemoveAt;
    ghost var rest := ring;
    freed := [];
    assert Freed([]) by { NoneFreed(); }
    var loop := head.next;
    while loop != head
      invariant Rest(ring, rest, |freed|)
      invariant Ring(rest) && loop == At(rest, 1) && Freed(freed)
      invariant forall x | x in rest :: x in ring
      invariant forall i | 0 <= i < |freed| :: freed[i] == ring[1 + i]
      invariant forall x | x in freed :: x !in rest
      decreases |rest|
    {
      var tmp := loop.next;
      RestStep(ring, rest, |freed|);
      FreeFirst(loop, rest, freed);
      freed := freed + [loop];
      rest := RemoveAt(rest, 1);
      loop := tmp;
    }
    HeadIsLast(rest, 1);
    assert rest == [head];
  }

  lemma NoneFreed()
    ensures Freed([])
  {
  }
}
