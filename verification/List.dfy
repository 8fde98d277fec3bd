/**
 * The intrusive circular doubly linked list of list.h. A ring is described by the sequence of its
 * nodes starting at the list head, which is itself a node. Null stands for the poison pointers.
 */
module List {
  import opened Common

  class ListNode {
    var next: ListNode?
    var prev: ListNode?

    constructor ()
      ensures next == null && prev == null
    {
      next, prev := null, null;
    }
  }

  function Succ(i: nat, n: nat): nat {
    if i + 1 < n then i + 1 else 0
  }

  function Pred(i: nat, n: nat): nat
    requires i < n
  {
    if i > 0 then i - 1 else n - 1
  }

  ghost predicate Linked(ring: seq<ListNode>)
    reads ring
  {
    && (forall i {:trigger ring[i].next} :: 0 <= i < |ring| ==> ring[i].next == ring[Succ(i, |ring|)])
    && (forall i {:trigger ring[i].prev} :: 0 <= i < |ring| ==> ring[i].prev == ring[Pred(i, |ring|)])
  }

  /** The nodes are distinct, and `next` and `prev` are inverse along the whole circle. */
  ghost predicate Ring(ring: seq<ListNode>)
    reads ring
  {
    Distinct(ring) && Linked(ring)
  }

  function Inserted<T>(s: seq<T>, k: nat, x: T): (r: seq<T>)
    requires k <= |s|
  {
    s[..k] + [x] + s[k..]
  }

  function Removed<T>(s: seq<T>, k: nat): (r: seq<T>)
    requires k < |s|
  {
    s[..k] + s[k + 1..]
  }

  lemma InsertedAt<T>(s: seq<T>, k: nat, x: T)
    requires k <= |s| && x !in s && Distinct(s)
    ensures Distinct(Inserted(s, k, x)) && |Inserted(s, k, x)| == |s| + 1
    ensures Inserted(s, k, x)[k] == x
    ensures forall i :: 0 <= i < k ==> Inserted(s, k, x)[i] == s[i]
    ensures forall i :: k < i <= |s| ==> Inserted(s, k, x)[i] == s[i - 1]
  {
  }

  lemma InsertedNeighbours<T>(s: seq<T>, k: nat, x: T, i: nat)
    requires k < |s| && i <= |s|
    ensures var r, n, o := Inserted(s, k + 1, x), |s| + 1, if i <= k then i else i - 1;
            && r[i] == (if i == k + 1 then x else s[o])
            && r[Succ(i, n)] == (if i == k then x else s[Succ(o, |s|)])
            && r[Pred(i, n)] == (if i == k + 1 then s[k] else if o == Succ(k, |s|) then x else s[Pred(o, |s|)])
  {
  }

  lemma RemovedAt<T>(s: seq<T>, k: nat)
    requires k < |s| && Distinct(s)
    ensures Distinct(Removed(s, k)) && |Removed(s, k)| == |s| - 1 && s[k] !in Removed(s, k)
    ensures forall i :: 0 <= i < k ==> Removed(s, k)[i] == s[i]
    ensures forall i :: k <= i < |s| - 1 ==> Removed(s, k)[i] == s[i + 1]
  {
  }

  method ListInit(list: ListNode)
    modifies list
    ensures Ring([list])
  {
    list.next := list;
    list.prev := list;
  }

  /** A ring with one node linked in after position k. */
  lemma Spliced(ring: seq<ListNode>, k: nat, novel: ListNode)
    requires Distinct(ring) && k < |ring| && novel !in ring
    requires novel.next == ring[Succ(k, |ring|)] && novel.prev == ring[k]
    requires forall i {:trigger ring[i].next} :: 0 <= i < |ring| ==>
               ring[i].next == if i == k then novel else ring[Succ(i, |ring|)]
    requires forall i {:trigger ring[i].prev} :: 0 <= i < |ring| ==>
               ring[i].prev == if i == Succ(k, |ring|) then novel else ring[Pred(i, |ring|)]
    ensures Ring(Inserted(ring, k + 1, novel))
  {
    var r, n := Inserted(ring, k + 1, novel), |ring| + 1;
    InsertedAt(ring, k + 1, novel);
    hide Distinct, Inserted;
    forall i | 0 <= i < n
      ensures r[i].next == r[Succ(i, n)] && r[i].prev == r[Pred(i, n)]
    {
      InsertedNeighbours(ring, k, novel, i);
    }
  }

  /** list_add between two neighbours, after position k of the ring. */
  method ListAdd(novel: ListNode, prev: ListNode, next: ListNode, ghost ring: seq<ListNode>, ghost k: nat)
    requires Ring(ring) && k < |ring| && novel !in ring
    requires prev == ring[k] && next == ring[Succ(k, |ring|)]
    modifies novel, prev, next
    ensures Ring(Inserted(ring, k + 1, novel))
  {
    novel.next := next;
    novel.prev := prev;
    next.prev := novel;
    prev.next := novel;
    Spliced(ring, k, novel);
  }

  method ListAddAfter(node: ListNode, novel: ListNode, ghost ring: seq<ListNode>, ghost k: nat)
    requires Ring(ring) && k < |ring| && ring[k] == node && novel !in ring
    modifies novel, node, node.next
    ensures Ring(Inserted(ring, k + 1, novel))
  {
    ListAdd(novel, node, node.next, ring, k);
  }

  /** Before the head means at the end of the list. */
  method ListAddBefore(node: ListNode, novel: ListNode, ghost ring: seq<ListNode>, ghost k: nat)
    requires Ring(ring) && k < |ring| && ring[k] == node && novel !in ring
    modifies novel, node, node.prev
    ensures Ring(Inserted(ring, if k == 0 then |ring| else k, novel))
  {
    ListAdd(novel, node.prev, node, ring, Pred(k, |ring|));
  }

  /** Unlinks the node between two neighbours; the node itself keeps its pointers. */
  method ListDetach(prev: ListNode, next: ListNode, ghost ring: seq<ListNode>, ghost k: nat)
    requires Ring(ring) && k < |ring|
    requires prev == ring[Pred(k, |ring|)] && next == ring[Succ(k, |ring|)]
    modifies prev, next
    ensures Ring(Removed(ring, k))
    ensures next.prev == prev && prev.next == next
  {
    next.prev := prev;
    prev.next := next;
    ghost var r, n := Removed(ring, k), |ring| - 1;
    RemovedAt(ring, k);
    forall i | 0 <= i < n
      ensures r[i].next == r[Succ(i, n)] && r[i].prev == r[Pred(i, n)]
    {
      assert r[i] == ring[if i < k then i else i + 1];
    }
  }

  method ListDel(node: ListNode, ghost ring: seq<ListNode>, ghost k: nat)
    requires Ring(ring) && k < |ring| && ring[k] == node
    modifies node, node.prev, node.next
    ensures Ring(Removed(ring, k))
    ensures node.next == null && node.prev == null
  {
    ListDetach(node.prev, node.next, ring, k);
    node.next := null;
    node.prev := null;
  }

  method ListDelInit(node: ListNode, ghost ring: seq<ListNode>, ghost k: nat)
    requires Ring(ring) && k < |ring| && ring[k] == node
    modifies node, node.prev, node.next
    ensures Ring(Removed(ring, k)) && Ring([node])
  {
    ListDetach(node.prev, node.next, ring, k);
    RemovedAt(ring, k);
    ListInit(node);
  }

  method ListReplace(former: ListNode, novel: ListNode, ghost ring: seq<ListNode>, ghost k: nat)
    requires Ring(ring) && k < |ring| && ring[k] == former && novel !in ring
    modifies novel, former, former.next, former.prev
    ensures Ring(ring[k := novel])
  {
    novel.next := former.next;
    novel.next.prev := novel;
    novel.prev := former.prev;
    novel.prev.next := novel;
    ghost var r, n := ring[k := novel], |ring|;
    forall i | 0 <= i < n
      ensures r[i].next == r[Succ(i, n)] && r[i].prev == r[Pred(i, n)]
    {
      assert i != k ==> r[i] == ring[i];
    }
  }

  /** Where node `to` of a ring stands once node `from` is taken out. */
  function Shifted(to: nat, from: nat): nat
    requires to != from
  {
    if to < from then to else to - 1
  }

  lemma MovedNeighbours(ring: seq<ListNode>, kt: nat, kf: nat)
    requires Distinct(ring) && kt < |ring| && kf < |ring| && kt != kf
    ensures Shifted(kt, kf) < |Removed(ring, kf)| && Removed(ring, kf)[Shifted(kt, kf)] == ring[kt]
    ensures ring[kf] !in Removed(ring, kf)
    ensures forall i :: 0 <= i < |Removed(ring, kf)| ==> Removed(ring, kf)[i] in ring
  {
    RemovedAt(ring, kf);
  }

  lemma PointsBack(ring: seq<ListNode>, node: ListNode)
    requires Ring(ring) && node in ring
    ensures node.prev != null && node.prev.next == node
    ensures node.next != null && node.next.prev == node
  {
    var i: nat :| i < |ring| && ring[i] == node;
    assert ring[i].prev == ring[Pred(i, |ring|)] && ring[i].next == ring[Succ(i, |ring|)];
    assert ring[Pred(i, |ring|)].next == ring[Succ(Pred(i, |ring|), |ring|)];
    assert ring[Succ(i, |ring|)].prev == ring[Pred(Succ(i, |ring|), |ring|)];
  }

  /** A node with a neighbour that does not point back is in no ring. */
  lemma NotInRing(node: ListNode)
    requires (node.prev != null && node.prev.next != node) || (node.next != null && node.next.prev != node)
    ensures forall ring: seq<ListNode> :: Ring(ring) ==> node !in ring
  {
    forall ring: seq<ListNode> | Ring(ring)
      ensures node !in ring
    {
      if node in ring {
        PointsBack(ring, node);
        assert false;
      }
    }
  }

  /**
   * The statements of either move for a node moved after or before itself: unless it is alone, its
   * old neighbours are cut apart.
   */
  method ListMoveOntoItself(node: ListNode, after: bool, ghost ring: seq<ListNode>, ghost k: nat)
    requires Ring(ring) && k < |ring| && ring[k] == node
    modifies ring
    ensures |ring| == 1 ==> Ring(ring)
    ensures |ring| > 1 ==>
              var neighbour := ring[if after then Succ(k, |ring|) else Pred(k, |ring|)];
              forall r: seq<ListNode> :: Ring(r) ==> neighbour !in r
  {
    ghost var n := |ring|;
    ghost var neighbour := ring[if after then Succ(k, n) else Pred(k, n)];
    assert node.next == ring[Succ(k, n)] && node.prev == ring[Pred(k, n)];
    assert n > 1 ==> node != ring[Succ(k, n)] && node != ring[Pred(k, n)];
    ListDetach(node.prev, node.next, ring, k);
    var prev: ListNode, next: ListNode := node, node;
    if after {
      next := node.next;
    } else {
      prev := node.prev;
    }
    node.next := next;
    node.prev := prev;
    next.prev := node;
    prev.next := node;
    assert n > 1 ==> if after then neighbour.prev == node else neighbour.next == node;
    if n > 1 {
      NotInRing(neighbour);
    }
  }

  method ListMoveAfter(to: ListNode, from: ListNode, ghost ring: seq<ListNode>, ghost kt: nat, ghost kf: nat)
    requires Ring(ring) && kt < |ring| && kf < |ring|
    requires ring[kt] == to && ring[kf] == from
    modifies ring
    ensures kt != kf ==> Ring(Inserted(Removed(ring, kf), Shifted(kt, kf) + 1, from))
    ensures kt == kf && |ring| == 1 ==> Ring(ring)
    ensures kt == kf && |ring| > 1 ==> forall r: seq<ListNode> :: Ring(r) ==> ring[Succ(kf, |ring|)] !in r
  {
    if to == from {
      ListMoveOntoItself(from, true, ring, kf);
      return;
    }
    ghost var rest, at := Removed(ring, kf), Shifted(kt, kf);
    MovedNeighbours(ring, kt, kf);
    ListDetach(from.prev, from.next, ring, kf);
    assert to.next == rest[Succ(at, |rest|)] && to.prev == rest[Pred(at, |rest|)];
    ListAddAfter(to, from, rest, at);
  }

  method ListMoveBefore(to: ListNode, from: ListNode, ghost ring: seq<ListNode>, ghost kt: nat, ghost kf: nat)
    requires Ring(ring) && kt < |ring| && kf < |ring|
    requires ring[kt] == to && ring[kf] == from
    modifies ring
    ensures kt != kf ==>
              var rest, at := Removed(ring, kf), Shifted(kt, kf);
              Ring(Inserted(rest, if at == 0 then |rest| else at, from))
    ensures kt == kf && |ring| == 1 ==> Ring(ring)
    ensures kt == kf && |ring| > 1 ==> forall r: seq<ListNode> :: Ring(r) ==> ring[Pred(kf, |ring|)] !in r
  {
    if to == from {
      ListMoveOntoItself(from, false, ring, kf);
      return;
    }
    ghost var rest, at := Removed(ring, kf), Shifted(kt, kf);
    MovedNeighbours(ring, kt, kf);
    ListDetach(from.prev, from.next, ring, kf);
    assert to.next == rest[Succ(at, |rest|)] && to.prev == rest[Pred(at, |rest|)];
    ListAddBefore(to, from, rest, at);
  }

  // ----- walks

  method WalkForward(list: ListNode, ghost ring: seq<ListNode>) returns (visited: seq<ListNode>)
    requires Ring(ring) && ring != [] && ring[0] == list
    ensures visited == ring[1..]
  {
    visited := [];
    var pos := list.next;
    ghost var i := Succ(0, |ring|);
    while pos != list
      invariant 0 <= i < |ring| && pos == ring[i]
      invariant visited == if i == 0 then ring[1..] else ring[1..i]
      decreases if i == 0 then 0 else |ring| - i
    {
      visited := visited + [pos];
      pos := pos.next;
      i := Succ(i, |ring|);
    }
  }

  function Reversed<T>(s: seq<T>): seq<T> {
    if s == [] then [] else Reversed(s[1..]) + [s[0]]
  }

  lemma {:induction false} ReversedLast<T>(s: seq<T>)
    requires s != []
    ensures Reversed(s) == [s[|s| - 1]] + Reversed(s[..|s| - 1])
  {
    if |s| > 1 {
      ReversedLast(s[1..]);
      assert s[1..][..|s| - 2] == s[..|s| - 1][1..];
    }
  }

  method WalkBackward(list: ListNode, ghost ring: seq<ListNode>) returns (visited: seq<ListNode>)
    requires Ring(ring) && ring != [] && ring[0] == list
    ensures visited == Reversed(ring[1..])
  {
    visited := [];
    var pos := list.prev;
    ghost var i := |ring| - 1;
    assert ring[1..i + 1] == ring[1..];
    while pos != list
      invariant 0 <= i < |ring| && pos == ring[i]
      invariant visited + Reversed(ring[1..i + 1]) == Reversed(ring[1..])
      decreases i
    {
      ReversedLast(ring[1..i + 1]);
      assert ring[1..i + 1][..i - 1] == ring[1..i];
      visited := visited + [pos];
      pos := pos.prev;
      i := i - 1;
    }
  }

  /** list_length, with the walk that reads each successor before its body runs. */
  method ListLength(list: ListNode, ghost ring: seq<ListNode>) returns (length: nat)
    requires Ring(ring) && ring != [] && ring[0] == list
    ensures length == |ring| - 1
  {
    length := 0;
    var current := list.next;
    var tmp := current.next;
    ghost var i := Succ(0, |ring|);
    while current != list
      invariant 0 <= i < |ring| && current == ring[i] && tmp == ring[Succ(i, |ring|)]
      invariant length == if i == 0 then |ring| - 1 else i - 1
      decreases if i == 0 then 0 else |ring| - i
    {
      length := length + 1;
      current := tmp;
      tmp := current.next;
      i := Succ(i, |ring|);
    }
  }

  /** The ring once the first k nodes after the head are deleted. */
  function Rest(ring: seq<ListNode>, k: nat): seq<ListNode>
    requires k < |ring|
  {
    [ring[0]] + ring[k + 1..]
  }

  lemma RestNext(ring: seq<ListNode>, k: nat)
    requires k < |ring| && Linked(Rest(ring, k))
    ensures ring[Succ(k, |ring|)].next != null
    ensures k + 1 < |ring| ==> ring[k + 1].next == ring[Succ(k + 1, |ring|)]
  {
    var rest := Rest(ring, k);
    assert rest[Succ(0, |rest|)] == ring[Succ(k, |ring|)];
    assert rest[0] == ring[0];
  }

  ghost predicate Deleted(ring: seq<ListNode>, k: nat)
    requires k < |ring|
    reads ring
  {
    forall i :: 1 <= i <= k ==> ring[i].next == null && ring[i].prev == null
  }

  /** A safe walk is about to run its body on the node at position k + 1, or to stop. */
  ghost predicate Walking(ring: seq<ListNode>, k: nat, pos: ListNode, tmp: ListNode)
    reads ring
  {
    && k < |ring| && Distinct(ring) && Ring(Rest(ring, k)) && Deleted(ring, k)
    && pos == ring[Succ(k, |ring|)]
    && (k + 1 < |ring| ==> tmp == ring[Succ(k + 1, |ring|)])
  }

  lemma WalkEnds(ring: seq<ListNode>, k: nat, pos: ListNode, tmp: ListNode)
    requires Walking(ring, k, pos, tmp)
    ensures pos == ring[0] <==> k + 1 == |ring|
    ensures pos == ring[0] ==> Rest(ring, k) == [ring[0]]
    ensures pos != ring[0] ==> ring[1..k + 2] == ring[1..k + 1] + [pos]
  {
  }

  lemma WalkStarts(ring: seq<ListNode>, pos: ListNode, tmp: ListNode)
    requires ring != [] && Ring(ring) && pos == ring[Succ(0, |ring|)]
    requires |ring| > 1 ==> tmp == ring[Succ(1, |ring|)]
    ensures Walking(ring, 0, pos, tmp)
  {
    assert Rest(ring, 0) == ring;
  }

  lemma WalkDone(ring: seq<ListNode>, k: nat, pos: ListNode, tmp: ListNode)
    requires Walking(ring, k, pos, tmp) && pos == ring[0]
    ensures k + 1 == |ring| && Ring([ring[0]]) && Deleted(ring, |ring| - 1)
  {
    WalkEnds(ring, k, pos, tmp);
  }

  /** The body of a safe walk that deletes the current node, then the step to the next one. */
  method DeleteCurrent(pos: ListNode, tmp: ListNode, ghost ring: seq<ListNode>, ghost k: nat)
    returns (after: ListNode)
    requires Walking(ring, k, pos, tmp) && k + 1 < |ring|
    modifies ring
    ensures Walking(ring, k + 1, tmp, after)
  {
    ghost var rest := Rest(ring, k);
    assert pos == rest[1] && pos.prev == rest[0];
    assert Removed(rest, 1) == Rest(ring, k + 1);
    assert pos.next == rest[Succ(1, |rest|)] == tmp;
    ListDel(pos, rest, 1);
    RestNext(ring, k + 1);
    after := tmp.next;
  }

  /** The safe walk whose body deletes the current node: each node is visited once, in order. */
  method DeleteEach(list: ListNode, ghost ring: seq<ListNode>) returns (visited: seq<ListNode>)
    requires Ring(ring) && ring != [] && ring[0] == list
    modifies ring
    ensures visited == ring[1..]
    ensures Ring([list]) && Deleted(ring, |ring| - 1)
  {
    visited := [];
    assert list.next == ring[Succ(0, |ring|)];
    var pos: ListNode := list.next;
    assert |ring| > 1 ==> pos.next == ring[Succ(1, |ring|)];
    var tmp: ListNode := pos.next;
    ghost var k := 0;
    WalkStarts(ring, pos, tmp);
    hide Walking, Ring, Deleted;
    while pos != list
      invariant k < |ring| && Walking(ring, k, pos, tmp)
      invariant visited == ring[1..k + 1]
      decreases |ring| - k
    {
      WalkEnds(ring, k, pos, tmp);
      visited := visited + [pos];
      var after := DeleteCurrent(pos, tmp, ring, k);
      pos, tmp := tmp, after;
      k := k + 1;
    }
    WalkDone(ring, k, pos, tmp);
  }

  /** list_pop: with list_push, which is ListAddBefore on the head, the list is a FIFO queue. */
  method ListPop(list: ListNode, ghost ring: seq<ListNode>) returns (first: ListNode?)
    requires Ring(ring) && ring != [] && ring[0] == list
    modifies list, list.next, list.next.next
    ensures |ring| == 1 ==> first == null && Ring(ring)
    ensures |ring| > 1 ==> first == ring[1] && Ring([list] + ring[2..])
  {
    var node := list.next;
    if node == list {
      return null;
    }
    ListDel(node, ring, 1);
    assert Removed(ring, 1) == [list] + ring[2..];
    return node;
  }
}
