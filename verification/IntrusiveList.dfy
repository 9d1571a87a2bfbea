/**
 The intrusive circular list of src/include/newt/list.h on a heap of nodes, and the multicast
 pass of src/lib/stomp_sending_worker.c, which removes entries while it walks over them.
 */
module IntrusiveList {

  /** struct list_head together with the structure that it is embedded in; a list head embeds in nothing of interest. */
  class Node<T> {
    var next: Node?<T>
    var prev: Node?<T>
    const item: T

    constructor (item: T)
      ensures this.item == item && next == null && prev == null
    {
      this.item := item;
      next, prev := null, null;
    }
  }

  /** The ring as an unrolled sequence: the head, the entries, and the head again. */
  ghost function Nth<T>(head: Node<T>, nodes: seq<Node<T>>, i: int): Node<T> {
    if 0 < i <= |nodes| then nodes[i - 1] else head
  }

  ghost predicate Distinct<T>(head: Node<T>, nodes: seq<Node<T>>) {
    && head !in nodes
    && forall i, j :: 0 <= i < j < |nodes| ==> nodes[i] != nodes[j]
  }

  /** The list at head holds exactly the entries of nodes, in this order, linked both ways. */
  ghost predicate Ring<T>(head: Node<T>, nodes: seq<Node<T>>)
    reads head, nodes
  {
    && Distinct(head, nodes)
    && (forall i :: 0 <= i <= |nodes| ==> Nth(head, nodes, i).next == Nth(head, nodes, i + 1))
    && (forall i :: 1 <= i <= |nodes| + 1 ==> Nth(head, nodes, i).prev == Nth(head, nodes, i - 1))
  }

  method InitListHead<T>(list: Node<T>)
    modifies list
    ensures Ring(list, [])
  {
    list.next := list;
    list.prev := list;
  }

  /** __list_add, at place k of the list. */
  method Insert<T>(entry: Node<T>, prev: Node<T>, next: Node<T>, ghost head: Node<T>, ghost nodes: seq<Node<T>>, ghost k: nat)
    requires Ring(head, nodes) && k <= |nodes| && entry != head && entry !in nodes
    requires prev == Nth(head, nodes, k) && next == Nth(head, nodes, k + 1)
    modifies entry, prev`next, next`prev
    ensures Ring(head, nodes[..k] + [entry] + nodes[k..])
  {
    next.prev := entry;
    entry.next := next;
    entry.prev := prev;
    prev.next := entry;
    ghost var after := nodes[..k] + [entry] + nodes[k..];
    assert forall i :: 0 <= i <= k ==> Nth(head, after, i) == Nth(head, nodes, i);
    assert Nth(head, after, k + 1) == entry;
    assert forall i :: k + 2 <= i <= |after| + 1 ==> Nth(head, after, i) == Nth(head, nodes, i - 1);
  }

  method ListAdd<T>(entry: Node<T>, head: Node<T>, ghost nodes: seq<Node<T>>)
    requires Ring(head, nodes) && entry != head && entry !in nodes
    modifies entry, head, nodes
    ensures Ring(head, [entry] + nodes)
  {
    assert Nth(head, nodes, 0).next == Nth(head, nodes, 1);
    Insert(entry, head, head.next, head, nodes, 0);
    assert nodes[..0] + [entry] + nodes[0..] == [entry] + nodes;
  }

  method ListAddTail<T>(entry: Node<T>, head: Node<T>, ghost nodes: seq<Node<T>>)
    requires Ring(head, nodes) && entry != head && entry !in nodes
    modifies entry, head, nodes
    ensures Ring(head, nodes + [entry])
  {
    assert Nth(head, nodes, |nodes| + 1).prev == Nth(head, nodes, |nodes|);
    Insert(entry, head.prev, head, head, nodes, |nodes|);
    assert nodes[..|nodes|] + [entry] + nodes[|nodes|..] == nodes + [entry];
  }

  ghost function Without<T>(nodes: seq<T>, k: nat): seq<T>
    requires k < |nodes|
  {
    nodes[..k] + nodes[k + 1..]
  }

  method ListDel<T>(entry: Node<T>, ghost head: Node<T>, ghost nodes: seq<Node<T>>, ghost k: nat)
    requires Ring(head, nodes) && k < |nodes| && nodes[k] == entry
    requires entry.next != null && entry.prev != null
    modifies entry, entry.next`prev, entry.prev`next
    ensures Ring(head, Without(nodes, k))
    ensures entry.next == null && entry.prev == null
  {
    assert entry == Nth(head, nodes, k + 1);
    assert entry.next == Nth(head, nodes, k + 2) && entry.prev == Nth(head, nodes, k);
    entry.next.prev := entry.prev;
    entry.prev.next := entry.next;
    entry.next := null;
    entry.prev := null;
    ghost var after := Without(nodes, k);
    assert forall i :: 0 <= i <= k ==> Nth(head, after, i) == Nth(head, nodes, i);
    assert forall i :: k + 1 <= i <= |after| + 1 ==> Nth(head, after, i) == Nth(head, nodes, i + 1);
  }

  method ListEmpty<T>(head: Node<T>, ghost nodes: seq<Node<T>>) returns (empty: bool)
    requires Ring(head, nodes)
    ensures empty <==> nodes == []
  {
    assert Nth(head, nodes, 0).next == Nth(head, nodes, 1);
    empty := head.next == head;
  }

  // ----- Walking while deleting -----

  /** The entries that pass the test, in order. */
  ghost function Kept<T>(nodes: seq<Node<T>>, valid: T -> bool): (r: seq<Node<T>>)
    ensures forall x :: x in r ==> x in nodes
  {
    if nodes == [] then []
    else
      var n := |nodes| - 1;
      Kept(nodes[..n], valid) + (if valid(nodes[n].item) then [nodes[n]] else [])
  }

  /** Exactly the entries that pass the test are kept. */
  lemma {:induction false} KeptExactly<T>(nodes: seq<Node<T>>, valid: T -> bool, x: Node<T>)
    ensures x in Kept(nodes, valid) <==> x in nodes && valid(x.item)
    decreases |nodes|
  {
    if nodes != [] {
      var n := |nodes| - 1;
      KeptExactly(nodes[..n], valid, x);
      assert x in nodes <==> x in nodes[..n] || x == nodes[n];
    }
  }

  /** In order, and each as often as it is in the list: the kept entries of one part follow those of the part before it. */
  lemma {:induction false} KeptAppend<T>(a: seq<Node<T>>, b: seq<Node<T>>, valid: T -> bool)
    ensures Kept(a + b, valid) == Kept(a, valid) + Kept(b, valid)
    ensures |Kept(b, valid)| <= |b|
    decreases |b|
  {
    hide Kept;
    if b == [] {
      assert a + b == a;
      KeptNothing<T>(valid);
      assert Kept(a, valid) + [] == Kept(a, valid);
    } else {
      var n := |b| - 1;
      KeptAppend(a, b[..n], valid);
      KeptLast(a + b, valid);
      KeptLast(b, valid);
      assert (a + b)[..|a| + n] == a + b[..n];
    }
  }

  lemma KeptNothing<T>(valid: T -> bool)
    ensures Kept([], valid) == []
  {
  }

  lemma KeptLast<T>(nodes: seq<Node<T>>, valid: T -> bool)
    requires nodes != []
    ensures var n := |nodes| - 1;
      Kept(nodes, valid) == Kept(nodes[..n], valid) + (if valid(nodes[n].item) then [nodes[n]] else [])
  {
  }

  ghost function Items<T>(nodes: seq<Node<T>>): (r: seq<T>)
    ensures |r| == |nodes| && forall i :: 0 <= i < |r| ==> r[i] == nodes[i].item
  {
    if nodes == [] then [] else Items(nodes[..|nodes| - 1]) + [nodes[|nodes| - 1].item]
  }

  lemma KeptSnoc<T>(nodes: seq<Node<T>>, k: nat, valid: T -> bool)
    requires k < |nodes|
    ensures Kept(nodes[..k + 1], valid) == Kept(nodes[..k], valid) + (if valid(nodes[k].item) then [nodes[k]] else [])
    ensures Items(Kept(nodes[..k + 1], valid)) ==
            Items(Kept(nodes[..k], valid)) + (if valid(nodes[k].item) then [nodes[k].item] else [])
  {
    assert nodes[..k + 1][..k] == nodes[..k];
    var kept := Kept(nodes[..k], valid);
    assert (kept + [nodes[k]])[..|kept|] == kept;
    assert kept + [] == kept && Items(kept) + [] == Items(kept);
  }

  /** What is in the list when k entries have been visited. */
  ghost function Remaining<T>(nodes: seq<Node<T>>, k: nat, valid: T -> bool): seq<Node<T>>
    requires k <= |nodes|
  {
    Kept(nodes[..k], valid) + nodes[k..]
  }

  lemma RemainingStep<T>(head: Node<T>, nodes: seq<Node<T>>, k: nat, valid: T -> bool)
    requires k < |nodes|
    ensures var i, list, after := |Kept(nodes[..k], valid)|, Remaining(nodes, k, valid), Remaining(nodes, k + 1, valid);
      && i < |list| && list[i] == nodes[k]
      && after == (if valid(nodes[k].item) then list else Without(list, i))
      && Nth(head, after, |Kept(nodes[..k + 1], valid)| + 1) == Nth(head, list, i + 2)
    ensures forall x :: x in Remaining(nodes, k, valid) ==> x in nodes
  {
    hide Kept;
    KeptSnoc(nodes, k, valid);
    var kept := Kept(nodes[..k], valid);
    var list, after := Remaining(nodes, k, valid), Remaining(nodes, k + 1, valid);
    assert nodes[k..] == [nodes[k]] + nodes[k + 1..];
    assert list == kept + [nodes[k]] + nodes[k + 1..];
  }

  /**
   The body of multicast_worker for one frame: `sent` collects the receivers. Every entry is visited
   once, in order, although entries are deleted under way; the receivers are exactly the valid clients.
   */
  method MulticastPass<T>(head: Node<T>, ghost nodes: seq<Node<T>>, valid: T -> bool) returns (sent: seq<T>, ghost visited: seq<Node<T>>)
    requires Ring(head, nodes)
    modifies head, nodes
    ensures visited == nodes
    ensures Ring(head, Kept(nodes, valid))
    ensures sent == Items(Kept(nodes, valid))
  {
    hide Kept, Items, Remaining, Without;
    sent, visited := [], [];
    ghost var k := 0;
    StartOfWalk(head, nodes, valid);
    var pos: Node<T> := head.next;
    var n: Node<T> := pos.next;
    while pos != head
      invariant k <= |nodes| && visited == nodes[..k]
      invariant Ring(head, Remaining(nodes, k, valid))
      invariant pos == Nth(head, Remaining(nodes, k, valid), |Kept(nodes[..k], valid)| + 1)
      invariant k < |nodes| ==> n == Nth(head, Remaining(nodes, k, valid), |Kept(nodes[..k], valid)| + 2)
      invariant k == |nodes| ==> pos == head
      invariant sent == Items(Kept(nodes[..k], valid))
      decreases |nodes| - k
    {
      RemainingStep(head, nodes, k, valid);
      KeptSnoc(nodes, k, valid);
      ghost var list, i := Remaining(nodes, k, valid), |Kept(nodes[..k], valid)|;
      visited := visited + [pos];
      if valid(pos.item) {
        sent := sent + [pos.item];
      } else {
        Neighbours(head, list, i);
        assert pos.next == head || pos.next in nodes;
        assert pos.prev == head || pos.prev in nodes;
        ListDel(pos, head, list, i);
      }
      k := k + 1;
      pos := n;
      EndOfWalk(head, nodes, k, valid);
      n := n.next;
    }
    EndOfWalk(head, nodes, k, valid);
    assert nodes[..k] == nodes;
  }

  lemma Neighbours<T>(head: Node<T>, nodes: seq<Node<T>>, k: nat)
    requires Ring(head, nodes) && k < |nodes|
    ensures nodes[k].next != null && nodes[k].prev != null
    ensures nodes[k].next == head || nodes[k].next in nodes
    ensures nodes[k].prev == head || nodes[k].prev in nodes
  {
    assert nodes[k] == Nth(head, nodes, k + 1);
    assert nodes[k].next == Nth(head, nodes, k + 2) && nodes[k].prev == Nth(head, nodes, k);
  }

  lemma StartOfWalk<T>(head: Node<T>, nodes: seq<Node<T>>, valid: T -> bool)
    requires Ring(head, nodes)
    ensures Remaining(nodes, 0, valid) == nodes && Kept(nodes[..0], valid) == [] && Items<T>([]) == []
    ensures head.next == Nth(head, nodes, 1) && Nth(head, nodes, 1).next == if nodes == [] then head else Nth(head, nodes, 2)
  {
    assert Nth(head, nodes, 0).next == Nth(head, nodes, 1);
    assert nodes != [] ==> Nth(head, nodes, 1).next == Nth(head, nodes, 2);
  }

  lemma EndOfWalk<T>(head: Node<T>, nodes: seq<Node<T>>, k: nat, valid: T -> bool)
    requires k <= |nodes| && Ring(head, Remaining(nodes, k, valid))
    ensures var list, i := Remaining(nodes, k, valid), |Kept(nodes[..k], valid)|;
      && Nth(head, list, i + 1).next != null && head.next != null
      && (k < |nodes| ==> Nth(head, list, i + 1).next == Nth(head, list, i + 2) && Nth(head, list, i + 1) != head)
      && (k == |nodes| ==> Nth(head, list, i + 1) == head && list == Kept(nodes[..k], valid))
  {
    hide Kept;
    var list, i := Remaining(nodes, k, valid), |Kept(nodes[..k], valid)|;
    assert Nth(head, list, 0).next == Nth(head, list, 1);
    if k < |nodes| {
      assert Nth(head, list, i + 1).next == Nth(head, list, i + 2);
    }
  }
}
