/** The intrusive circular list of core/list.h.

    A list has no head object: any member stands for the whole ring.  `ring` is the ghost
    sequence of the members in `next` order, starting anywhere. */
module Ring {

  class Node<T> {
    var data: T
    var prev: Node?<T>
    var next: Node?<T>

    constructor (data: T)
      ensures this.data == data
    {
      this.data := data;
      prev, next := null, null;
    }
  }

  function Succ(i: nat, n: nat): nat {
    if i + 1 == n then 0 else i + 1
  }

  function Pred(i: nat, n: nat): nat
    requires i < n
  {
    if i == 0 then n - 1 else i - 1
  }

  /** A single consistent doubly linked cycle of distinct nodes. */
  ghost predicate IsRing<T>(ring: seq<Node<T>>)
    reads ring
  {
    && |ring| > 0
    && (forall i, j :: 0 <= i < j < |ring| ==> ring[i] != ring[j])
    && (forall i {:trigger ring[i].next} :: 0 <= i < |ring| ==> ring[i].next == ring[Succ(i, |ring|)])
    && (forall i {:trigger ring[i].prev} :: 0 <= i < |ring| ==> ring[i].prev == ring[Pred(i, |ring|)])
  }

  ghost function Inserted<T>(ring: seq<Node<T>>, at: nat, x: Node<T>): seq<Node<T>>
    requires at <= |ring|
  {
    ring[..at] + [x] + ring[at..]
  }

  ghost function Removed<T>(ring: seq<Node<T>>, at: nat): seq<Node<T>>
    requires at < |ring|
  {
    ring[..at] + ring[at + 1..]
  }

  // What the links must look like for `node` to have been spliced in at `at`, or for the
  // member at `at` to have been cut out.

  lemma InsertedIsRing<T>(ring: seq<Node<T>>, at: nat, node: Node<T>, p: nat, s: nat)
    requires |ring| > 0 && at <= |ring| && node !in ring
    requires forall i, j :: 0 <= i < j < |ring| ==> ring[i] != ring[j]
    requires p == (if at == 0 then |ring| - 1 else at - 1) && s == Succ(p, |ring|)
    requires node.next == ring[s] && node.prev == ring[p]
    requires forall j {:trigger ring[j].next} :: 0 <= j < |ring|
              ==> ring[j].next == if j == p then node else ring[Succ(j, |ring|)]
    requires forall j {:trigger ring[j].prev} :: 0 <= j < |ring|
              ==> ring[j].prev == if j == s then node else ring[Pred(j, |ring|)]
    ensures IsRing(Inserted(ring, at, node))
  {
    var new_ := Inserted(ring, at, node);
    forall j | 0 <= j < |new_|
      ensures new_[j].next == new_[Succ(j, |new_|)]
    {
      if j != at { var k := if j < at then j else j - 1; assert new_[j] == ring[k]; }
    }
    forall j | 0 <= j < |new_|
      ensures new_[j].prev == new_[Pred(j, |new_|)]
    {
      if j != at { var k := if j < at then j else j - 1; assert new_[j] == ring[k]; }
    }
  }

  lemma RemovedIsRing<T>(ring: seq<Node<T>>, at: nat, p: nat, s: nat)
    requires |ring| > 1 && at < |ring|
    requires forall i, j :: 0 <= i < j < |ring| ==> ring[i] != ring[j]
    requires p == Pred(at, |ring|) && s == Succ(at, |ring|)
    requires forall j {:trigger ring[j].next} :: 0 <= j < |ring| && j != at
              ==> ring[j].next == if j == p then ring[s] else ring[Succ(j, |ring|)]
    requires forall j {:trigger ring[j].prev} :: 0 <= j < |ring| && j != at
              ==> ring[j].prev == if j == s then ring[p] else ring[Pred(j, |ring|)]
    ensures IsRing(Removed(ring, at))
  {
    var new_ := Removed(ring, at);
    forall j | 0 <= j < |new_|
      ensures new_[j].next == new_[Succ(j, |new_|)]
    {
      var k := if j < at then j else j + 1;
      assert new_[j] == ring[k];
    }
    forall j | 0 <= j < |new_|
      ensures new_[j].prev == new_[Pred(j, |new_|)]
    {
      var k := if j < at then j else j + 1;
      assert new_[j] == ring[k];
    }
  }

  // ---------------------------------------------------------------- operations

  method ListInit<T>(list: Node?<T>)
    modifies list
    ensures list != null ==> IsRing([list]) && list.data == old(list.data)
  {
    if list != null {
      list.prev := list;
      list.next := list;
    }
  }

  /** Places `node` right after `entry`. */
  method ListAppend<T>(entry: Node?<T>, node: Node?<T>, ghost ring: seq<Node<T>>, ghost i: nat)
    requires entry != null ==> IsRing(ring) && i < |ring| && ring[i] == entry && node !in ring
    modifies ring, node
    ensures entry != null && node != null ==> IsRing(Inserted(ring, i + 1, node))
    ensures entry == null || node == null ==> unchanged(ring) && (node != null ==> unchanged(node))
    ensures forall x <- ring :: x.data == old(x.data)
    ensures node != null ==> node.data == old(node.data)
  {
    if entry != null && node != null {
      node.next := entry.next;
      node.prev := entry;
      node.next.prev := node;
      entry.next := node;
      InsertedIsRing(ring, i + 1, node, i, Succ(i, |ring|));
    }
  }

  /** Places `node` right before `entry`. */
  method ListInsertToHead<T>(entry: Node?<T>, node: Node?<T>, ghost ring: seq<Node<T>>, ghost i: nat)
    requires entry != null ==> IsRing(ring) && i < |ring| && ring[i] == entry && node !in ring
    modifies ring, node
    ensures entry != null && node != null ==> IsRing(Inserted(ring, i, node))
    ensures entry == null || node == null ==> unchanged(ring) && (node != null ==> unchanged(node))
    ensures forall x <- ring :: x.data == old(x.data)
    ensures node != null ==> node.data == old(node.data)
  {
    if entry != null && node != null {
      node.next := entry;
      node.prev := entry.prev;
      entry.prev.next := node;
      entry.prev := node;
      InsertedIsRing(ring, i, node, Pred(i, |ring|), i);
    }
  }

  /** Takes `entry` out of a ring of two or more; a ring of one is left alone. */
  method ListDel<T>(entry: Node?<T>, ghost ring: seq<Node<T>>, ghost i: nat)
    requires entry != null ==> IsRing(ring) && i < |ring| && ring[i] == entry
    modifies ring
    ensures entry != null && |ring| > 1 ==> IsRing(Removed(ring, i)) && entry.next == null && entry.prev == null
    ensures entry == null || |ring| == 1 ==> unchanged(ring)
    ensures forall x <- ring :: x.data == old(x.data)
  {
    if entry != null && entry.next != entry {
      entry.next.prev := entry.prev;
      entry.prev.next := entry.next;
      entry.next := null;
      entry.prev := null;
      RemovedIsRing(ring, i, Pred(i, |ring|), Succ(i, |ring|));
    }
  }

  method IsListEmpty<T>(entry: Node?<T>, ghost ring: seq<Node<T>>, ghost i: nat) returns (empty: bool)
    requires entry != null ==> IsRing(ring) && i < |ring| && ring[i] == entry
    ensures empty <==> entry == null || |ring| == 1
  {
    return entry == null || (entry == entry.next && entry == entry.prev);
  }

  /** The number of members other than `entry`. */
  method ListLength<T>(entry: Node?<T>, ghost ring: seq<Node<T>>, ghost i: nat) returns (count: nat)
    requires entry != null ==> IsRing(ring) && i < |ring| && ring[i] == entry
    ensures count == if entry == null then 0 else |ring| - 1
  {
    if entry == null {
      return 0;
    }
    count := 0;
    var current: Node<T> := entry.next;
    ghost var at := Succ(i, |ring|);
    while current != entry
      invariant count < |ring| && at == (if i + 1 + count < |ring| then i + 1 + count else i + 1 + count - |ring|)
      invariant current == ring[at]
      decreases |ring| - count
    {
      count := count + 1;
      current := current.next;
      at := Succ(at, |ring|);
    }
  }

  // ---------------------------------------------------------------- laws

  /** Deleting what was just appended gives every member its old links back. */
  method AppendThenDel<T>(entry: Node<T>, node: Node<T>, ghost ring: seq<Node<T>>, ghost i: nat)
    requires IsRing(ring) && i < |ring| && ring[i] == entry && node !in ring
    modifies ring, node
    ensures IsRing(ring) && node.next == null && node.prev == null
    ensures forall x <- ring :: x.next == old(x.next) && x.prev == old(x.prev) && x.data == old(x.data)
  {
    ListAppend(entry, node, ring, i);
    ListDel(node, Inserted(ring, i + 1, node), i + 1);
    assert Removed(Inserted(ring, i + 1, node), i + 1) == ring;
  }

  /** Deleting what was just inserted does too. */
  method InsertThenDel<T>(entry: Node<T>, node: Node<T>, ghost ring: seq<Node<T>>, ghost i: nat)
    requires IsRing(ring) && i < |ring| && ring[i] == entry && node !in ring
    modifies ring, node
    ensures IsRing(ring) && node.next == null && node.prev == null
    ensures forall x <- ring :: x.next == old(x.next) && x.prev == old(x.prev) && x.data == old(x.data)
  {
    ListInsertToHead(entry, node, ring, i);
    ListDel(node, Inserted(ring, i, node), i);
    assert Removed(Inserted(ring, i, node), i) == ring;
  }

  /** Any member can come first: a ring read from another member is still a ring. */
  lemma Rotated<T>(ring: seq<Node<T>>, k: nat)
    requires IsRing(ring) && k <= |ring|
    ensures IsRing(ring[k..] + ring[..k])
  {
    var r, n := ring[k..] + ring[..k], |ring|;
    forall j | 0 <= j < n
      ensures r[j] == ring[if k + j < n then k + j else k + j - n]
      ensures r[j].next == r[Succ(j, n)] && r[j].prev == r[Pred(j, n)]
    {
      var at := if k + j < n then k + j else k + j - n;
      assert ring[at].next == ring[Succ(at, n)] && ring[at].prev == ring[Pred(at, n)];
    }
  }

  /** The links alone determine the ring: two rings with a common first member are equal. */
  lemma RingUnique<T>(r1: seq<Node<T>>, r2: seq<Node<T>>)
    requires IsRing(r1) && IsRing(r2) && r1[0] == r2[0]
    ensures r1 == r2
  {
    var m := if |r1| <= |r2| then |r1| else |r2|;
    SamePrefix(r1, r2, m - 1);
    assert r1[m - 1].next == r2[m - 1].next;
    assert r1[m - 1] == r2[m - 1];
    forall k | 0 <= k < m
      ensures r1[k] == r2[k]
    {
      SamePrefix(r1, r2, k);
    }
  }

  lemma {:induction false} SamePrefix<T>(r1: seq<Node<T>>, r2: seq<Node<T>>, k: nat)
    requires IsRing(r1) && IsRing(r2) && r1[0] == r2[0] && k < |r1| && k < |r2|
    ensures r1[k] == r2[k]
  {
    if k != 0 {
      SamePrefix(r1, r2, k - 1);
      assert r1[k - 1].next == r1[k] && r2[k - 1].next == r2[k];
    }
  }
}
