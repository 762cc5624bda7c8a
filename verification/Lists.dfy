/** Circular doubly linked lists as in list.h: a head and entries that point to each other, each with
    what it is embedded in.
    A list is described by its ring: the nodes in order, the head first. */
module Lists {
  import opened Sequences

  class ListHead<T> {
    var next: ListHead?<T>
    var prev: ListHead?<T>
    const data: T

    constructor (data: T)
      ensures next == this && prev == this && this.data == data
    {
      this.data := data;
      next, prev := this, this;
    }
  }

  ghost predicate NoRepeats<T>(ring: seq<ListHead<T>>) {
    forall i, j | 0 <= i < j < |ring| :: ring[i] != ring[j]
  }

  function After<T>(ring: seq<ListHead<T>>, i: nat): nat {
    if i + 1 == |ring| then 0 else i + 1
  }

  function Before<T>(ring: seq<ListHead<T>>, i: nat): int {
    if i == 0 then |ring| - 1 else i - 1
  }

  /** The nodes of the ring are linked both ways, the last one back to the first. */
  ghost predicate Ring<T>(ring: seq<ListHead<T>>)
    reads set x | x in ring
  {
    && |ring| > 0
    && NoRepeats(ring)
    && forall i | 0 <= i < |ring| :: ring[i].next == ring[After(ring, i)] && ring[i].prev == ring[Before(ring, i)]
  }

  function InsertAfter<T>(ring: seq<ListHead<T>>, i: nat, n: ListHead<T>): seq<ListHead<T>>
    requires i < |ring|
  {
    ring[..i+1] + [n] + ring[i+1..]
  }

  /** What the entries of a ring are embedded in, the head left out. */
  function Contents<T>(ring: seq<ListHead<T>>): (s: seq<T>)
    requires |ring| > 0
    ensures |s| == |ring| - 1 && forall i | 0 <= i < |s| :: s[i] == ring[i+1].data
  {
    seq(|ring| - 1, i requires 0 <= i < |ring| - 1 => ring[i+1].data)
  }

  /** The node at position k, the head again behind the last one. */
  function At<T>(ring: seq<ListHead<T>>, k: nat): ListHead<T>
    requires k <= |ring| && |ring| > 0
  {
    if k == |ring| then ring[0] else ring[k]
  }

  lemma HeadIsLast<T>(ring: seq<ListHead<T>>, k: nat)
    requires NoRepeats(ring) && 0 < k <= |ring|
    ensures At(ring, k) == ring[0] <==> k == |ring|
  {
  }

  lemma InsertedNodes<T>(ring: seq<ListHead<T>>, i: nat, n: ListHead<T>)
    requires i < |ring|
    ensures var r := InsertAfter(ring, i, n);
      && |r| == |ring| + 1
      && (forall j | 0 <= j <= i :: r[j] == ring[j])
      && r[i+1] == n
      && (forall j | i + 1 < j < |r| :: r[j] == ring[j-1])
      && (NoRepeats(ring) && n !in ring ==> NoRepeats(r))
  {
  }

  lemma RemovedNodes<T>(ring: seq<ListHead<T>>, k: nat)
    requires k < |ring|
    ensures var r := RemoveAt(ring, k);
      && |r| == |ring| - 1
      && (forall j | 0 <= j < k :: r[j] == ring[j])
      && (forall j | k <= j < |r| :: r[j] == ring[j+1])
      && (NoRepeats(ring) ==> NoRepeats(r))
  {
  }

  /** Both directions of every link but those around the new node are as before. */
  lemma InsertedRing<T>(ring: seq<ListHead<T>>, i: nat, n: ListHead<T>)
    requires i < |ring| && NoRepeats(ring) && n !in ring
    requires forall j | 0 <= j < |ring| :: ring[j].next == if j == i then n else ring[After(ring, j)]
    requires forall j | 0 <= j < |ring| :: ring[j].prev == if j == After(ring, i) then n else ring[Before(ring, j)]
    requires n.next == ring[After(ring, i)] && n.prev == ring[i]
    ensures Ring(InsertAfter(ring, i, n))
  {
    InsertedNodes(ring, i, n);
    var r := InsertAfter(ring, i, n);
    hide InsertAfter, NoRepeats;
    forall j | 0 <= j < |r|
      ensures r[j].next == r[After(r, j)]
    {
      if j < i {
        assert r[j+1] == ring[j+1];
      } else if j > i + 1 && j + 1 < |r| {
        assert r[j+1] == ring[j];
      }
    }
    forall j | 0 <= j < |r|
      ensures r[j].prev == r[Before(r, j)]
    {
      if 0 < j <= i {
        assert r[j-1] == ring[j-1];
      } else if j > i + 2 {
        assert r[j-1] == ring[j-2];
      }
    }
  }

  lemma RemovedRing<T>(ring: seq<ListHead<T>>, k: nat)
    requires 0 < k < |ring| && NoRepeats(ring)
    requires forall j | 0 <= j < |ring| && j != k ::
               ring[j].next == if j == Before(ring, k) then ring[After(ring, k)] else ring[After(ring, j)]
    requires forall j | 0 <= j < |ring| && j != k ::
               ring[j].prev == if j == After(ring, k) then ring[Before(ring, k)] else ring[Before(ring, j)]
    ensures Ring(RemoveAt(ring, k))
  {
    RemovedNodes(ring, k);
    var r := RemoveAt(ring, k);
    hide RemoveAt, NoRepeats;
    forall j | 0 <= j < |r|
      ensures r[j].next == r[After(r, j)]
    {
      var j0 := if j < k then j else j + 1;
      assert r[j] == ring[j0];
    }
    forall j | 0 <= j < |r|
      ensures r[j].prev == r[Before(r, j)]
    {
      var j0 := if j < k then j else j + 1;
      assert r[j] == ring[j0];
    }
  }

  /** __list_add: insert between two consecutive nodes. */
  method ListAddBetween<T>(n: ListHead<T>, prev: ListHead<T>, next: ListHead<T>, ghost ring: seq<ListHead<T>>, ghost i: nat)
    requires Ring(ring) && n !in ring
    requires i < |ring| && prev == ring[i] && next == ring[After(ring, i)]
    modifies n, prev, next
    ensures Ring(InsertAfter(ring, i, n))
  {
    next.prev := n;
    n.next := next;
    n.prev := prev;
    prev.next := n;
    InsertedRing(ring, i, n);
  }

  /** Insert before a node: at the end of the list if that is the head. */
  method ListAddTail<T>(n: ListHead<T>, at: ListHead<T>, ghost ring: seq<ListHead<T>>, ghost k: nat)
    requires Ring(ring) && n !in ring && k < |ring| && at == ring[k]
    modifies n, set x | x in ring
    ensures Ring(InsertAfter(ring, Before(ring, k), n))
  {
    ListAddBetween(n, at.prev, at, ring, Before(ring, k));
  }

  /** Take an entry out of its list; the head, ring[0], stays. */
  method ListDel<T>(entry: ListHead<T>, ghost ring: seq<ListHead<T>>, ghost k: nat)
    requires Ring(ring) && 0 < k < |ring| && entry == ring[k]
    modifies set x | x in ring
    ensures Ring(RemoveAt(ring, k))
    ensures entry.next == null && entry.prev == null
  {
    var prev, next := entry.prev, entry.next;
    next.prev := prev;
    prev.next := next;
    entry.next, entry.prev := null, null;
    RemovedRing(ring, k);
  }

  /** Move an entry from one list to the place before a node of another. */
  method ListMoveTail<T>(entry: ListHead<T>, at: ListHead<T>, ghost from: seq<ListHead<T>>, ghost k: nat, ghost to: seq<ListHead<T>>, ghost m: nat)
    requires Ring(from) && 0 < k < |from| && entry == from[k]
    requires Ring(to) && m < |to| && at == to[m]
    requires forall x | x in from :: x !in to
    modifies set x | x in from + to
    ensures Ring(RemoveAt(from, k))
    ensures Ring(InsertAfter(to, Before(to, m), entry))
  {
    ListDel(entry, from, k);
    ListAddTail(entry, at, to, m);
  }
}
