/**
 * The circular doubly-linked list of list.h.
 *
 * A `ListHead` is one `struct list_head`; the structure it is embedded in is
 * represented by the immutable `item` it carries (what `container_of` would
 * reach).  `IsList(head, nodes)` is the abstraction: walking `next` from
 * `head` meets exactly `nodes`, in order, and walking `prev` meets them in
 * reverse.
 */
module IntrusiveList {

  class ListHead<T> {
    var next: ListHead?<T>
    var prev: ListHead?<T>
    const item: T

    /** A freshly allocated node whose links are not yet set. */
    constructor (item: T)
      ensures this.item == item && next == null && prev == null
    {
      this.item := item;
      next := null;
      prev := null;
    }
  }

  /** The node that follows position i of the ring `head, nodes[0], ...`. */
  function Succ<T>(head: ListHead<T>, nodes: seq<ListHead<T>>, i: int): ListHead<T>
    requires -1 <= i < |nodes|
  {
    if i + 1 < |nodes| then nodes[i + 1] else head
  }

  /** The node that precedes position i of the ring. */
  function Pred<T>(head: ListHead<T>, nodes: seq<ListHead<T>>, i: int): ListHead<T>
    requires 0 <= i <= |nodes|
  {
    if i == 0 then head else nodes[i - 1]
  }

  ghost predicate IsList<T>(head: ListHead<T>, nodes: seq<ListHead<T>>)
    reads head, nodes
  {
    && head !in nodes
    && (forall i, j :: 0 <= i < j < |nodes| ==> nodes[i] != nodes[j])
    && head.next == Succ(head, nodes, -1)
    && head.prev == Pred(head, nodes, |nodes|)
    && (forall i {:trigger nodes[i].next} :: 0 <= i < |nodes| ==> nodes[i].next == Succ(head, nodes, i))
    && (forall i {:trigger nodes[i].prev} :: 0 <= i < |nodes| ==> nodes[i].prev == Pred(head, nodes, i))
  }

  /** The payloads of a node sequence, in order. */
  function Items<T>(nodes: seq<ListHead<T>>): (items: seq<T>)
    ensures |items| == |nodes|
    ensures forall i :: 0 <= i < |nodes| ==> items[i] == nodes[i].item
  {
    if |nodes| == 0 then [] else Items(nodes[..|nodes| - 1]) + [nodes[|nodes| - 1].item]
  }

  /** INIT_LIST_HEAD (list.h:43-47): a head linked to itself is the empty list. */
  method InitListHead<T>(list: ListHead<T>)
    modifies list
    ensures IsList(list, [])
  {
    list.prev := list;
    list.next := list;
  }

  /** list_empty (list.h:49-52) */
  method ListEmpty<T>(head: ListHead<T>, ghost nodes: seq<ListHead<T>>) returns (empty: bool)
    requires IsList(head, nodes)
    ensures empty <==> |nodes| == 0
  {
    empty := head.next == head;
  }

  /** list_is_last (list.h:54-58) */
  method ListIsLast<T>(list: ListHead<T>, head: ListHead<T>, ghost nodes: seq<ListHead<T>>)
    returns (last: bool)
    requires IsList(head, nodes) && list in nodes
    ensures last <==> list == nodes[|nodes| - 1]
  {
    last := list.next == head;
    ghost var k :| 0 <= k < |nodes| && nodes[k] == list;
    if k + 1 < |nodes| {
      assert list.next == nodes[k + 1] && nodes[k + 1] in nodes;
      assert nodes[k] != nodes[|nodes| - 1];
    }
  }

  /**
   * list_add (list.h:60-66) called with the list head as second argument,
   * which is how every caller uses it: the node goes in just before the
   * head, that is, at the tail.
   */
  method ListAdd<T>(node: ListHead<T>, head: ListHead<T>, ghost nodes: seq<ListHead<T>>)
    requires IsList(head, nodes)
    requires node != head && node !in nodes
    modifies node, head, head.prev
    ensures IsList(head, nodes + [node])
  {
    ghost var last := head.prev;
    node.prev := head.prev;
    node.next := head;
    head.prev.next := node;
    head.prev := node;
    ghost var r := nodes + [node];
    assert forall i :: 0 <= i < |nodes| ==> r[i] == nodes[i];
    forall i | 0 <= i < |r|
      ensures r[i].next == (if i + 1 < |r| then r[i + 1] else head)
      ensures r[i].prev == (if i == 0 then head else r[i - 1])
    {
      if i < |nodes| {
        assert nodes[i] != node && nodes[i] != head;
        if i + 1 < |nodes| {
          assert nodes[i] != last;
        }
      }
    }
  }

  /**
   * list_del (list.h:68-72): the neighbours of the node are linked to each
   * other; the node's own links are left as they were.
   */
  method ListDel<T>(list: ListHead<T>, ghost head: ListHead<T>, ghost nodes: seq<ListHead<T>>, ghost k: nat)
    requires IsList(head, nodes) && k < |nodes| && nodes[k] == list
    modifies list.next, list.prev
    ensures IsList(head, nodes[..k] + nodes[k + 1..])
    ensures list.next == old(list.next) && list.prev == old(list.prev)
  {
    ghost var succ, pred := Succ(head, nodes, k), Pred(head, nodes, k);
    assert list.next == succ && list.prev == pred;
    list.next.prev := list.prev;
    list.prev.next := list.next;
    assert forall i :: 0 <= i < |nodes| && nodes[i] != pred ==> nodes[i].next == Succ(head, nodes, i);
    assert forall i :: 0 <= i < |nodes| && nodes[i] != succ ==> nodes[i].prev == Pred(head, nodes, i);
    Unlinked(head, nodes, k);
  }

  /**
   * The links after list_del of position k: the predecessor's `next` is the
   * successor, the successor's `prev` is the predecessor, and every other
   * link is the one the list had.  These make the shorter list.
   */
  lemma Unlinked<T>(head: ListHead<T>, nodes: seq<ListHead<T>>, k: nat)
    requires k < |nodes| && head !in nodes
    requires forall i, j :: 0 <= i < j < |nodes| ==> nodes[i] != nodes[j]
    requires var pred := Pred(head, nodes, k);
             && pred.next == Succ(head, nodes, k)
             && (head != pred ==> head.next == Succ(head, nodes, -1))
             && forall i :: 0 <= i < |nodes| && nodes[i] != pred ==> nodes[i].next == Succ(head, nodes, i)
    requires var succ := Succ(head, nodes, k);
             && succ.prev == Pred(head, nodes, k)
             && (head != succ ==> head.prev == Pred(head, nodes, |nodes|))
             && forall i :: 0 <= i < |nodes| && nodes[i] != succ ==> nodes[i].prev == Pred(head, nodes, i)
    ensures IsList(head, nodes[..k] + nodes[k + 1..])
  {
    ghost var succ, pred := Succ(head, nodes, k), Pred(head, nodes, k);
    ghost var r := nodes[..k] + nodes[k + 1..];
    RemoveAt(head, nodes, k);
    forall i | 0 <= i < |r|
      ensures r[i].next == Succ(head, r, i)
    {
      if i < k {
        assert r[i] == nodes[i];
        if i + 1 < k {
          assert r[i] != pred;
        }
      } else {
        assert r[i] == nodes[i + 1] && r[i] != pred;
      }
    }
    forall i | 0 <= i < |r|
      ensures r[i].prev == Pred(head, r, i)
    {
      if i < k {
        assert r[i] == nodes[i] && r[i] != succ;
      } else {
        assert r[i] == nodes[i + 1];
        if i > k {
          assert r[i] != succ;
        }
      }
    }
  }

  /** Index bookkeeping for removing position k from a list's node sequence. */
  lemma RemoveAt<T>(head: ListHead<T>, nodes: seq<ListHead<T>>, k: nat)
    requires head !in nodes && k < |nodes|
    requires forall i, j :: 0 <= i < j < |nodes| ==> nodes[i] != nodes[j]
    ensures var r := nodes[..k] + nodes[k + 1..];
      && |r| == |nodes| - 1
      && (forall i :: 0 <= i < k ==> r[i] == nodes[i])
      && (forall i :: k <= i < |r| ==> r[i] == nodes[i + 1])
      && (forall i, j :: 0 <= i < j < |r| ==> r[i] != r[j])
      && head !in r && nodes[k] !in r
  {
    var r := nodes[..k] + nodes[k + 1..];
    assert forall i :: 0 <= i < k ==> r[i] == nodes[i];
    assert forall i :: k <= i < |r| ==> r[i] == nodes[i + 1];
    forall i, j | 0 <= i < j < |r| ensures r[i] != r[j] {
      var i', j' := if i < k then i else i + 1, if j < k then j else j + 1;
      assert r[i] == nodes[i'] && r[j] == nodes[j'];
    }
    forall i | 0 <= i < |r| ensures r[i] != head && r[i] != nodes[k] {
      var i' := if i < k then i else i + 1;
      assert r[i] == nodes[i'];
    }
  }

  /** list_del_init (list.h:74-78): unlink, then leave the node as an empty list. */
  method ListDelInit<T>(entry: ListHead<T>, ghost head: ListHead<T>, ghost nodes: seq<ListHead<T>>, ghost k: nat)
    requires IsList(head, nodes) && k < |nodes| && nodes[k] == entry
    modifies entry, entry.next, entry.prev
    ensures IsList(head, nodes[..k] + nodes[k + 1..])
    ensures IsList(entry, [])
  {
    ListDel(entry, head, nodes, k);
    ghost var r := nodes[..k] + nodes[k + 1..];
    assert entry != head && entry !in r by {
      assert forall i :: 0 <= i < k ==> r[i] == nodes[i];
      assert forall i :: k <= i < |r| ==> r[i] == nodes[i + 1];
    }
    InitListHead(entry);
  }

  /**
   * list_add of a node at the tail followed by list_del of the same node:
   * the list is the one before, and the node keeps the stale links to its
   * former neighbours.
   */
  method AddThenDel<T>(node: ListHead<T>, head: ListHead<T>, ghost nodes: seq<ListHead<T>>)
    requires IsList(head, nodes)
    requires node != head && node !in nodes
    modifies node, head, head.prev
    ensures IsList(head, nodes)
    ensures node.next == head && node.prev == old(head.prev)
  {
    ListAdd(node, head, nodes);
    ghost var r := nodes + [node];
    ListDel(node, head, r, |nodes|);
    assert r[..|nodes|] + r[|nodes| + 1..] == nodes;
  }

  /** list_for_each (list.h:21-22): the walk meets every node once, in order. */
  method ListForEach<T>(head: ListHead<T>, ghost nodes: seq<ListHead<T>>)
    returns (visited: seq<ListHead<T>>)
    requires IsList(head, nodes)
    ensures visited == nodes
  {
    visited := [];
    var pos := head.next;
    while pos != head
      invariant |visited| <= |nodes| && visited == nodes[..|visited|]
      invariant pos == if |visited| < |nodes| then nodes[|visited|] else head
      decreases |nodes| - |visited|
    {
      assert pos.next == if |visited| + 1 < |nodes| then nodes[|visited| + 1] else head;
      visited := visited + [pos];
      pos := pos.next;
    }
  }

  /** The nodes of `nodes` whose payload `remove` does not select, in order. */
  function Kept<T>(nodes: seq<ListHead<T>>, remove: T -> bool): seq<ListHead<T>>
  {
    if |nodes| == 0 then []
    else
      var last := nodes[|nodes| - 1];
      Kept(nodes[..|nodes| - 1], remove) + (if remove(last.item) then [] else [last])
  }

  lemma {:induction false} KeptMembership<T>(nodes: seq<ListHead<T>>, remove: T -> bool, n: ListHead<T>)
    ensures n in Kept(nodes, remove) <==> n in nodes && !remove(n.item)
  {
    if |nodes| > 0 {
      KeptMembership(nodes[..|nodes| - 1], remove, n);
      assert nodes == nodes[..|nodes| - 1] + [nodes[|nodes| - 1]];
    }
  }

  /** Filtering distributes over concatenation, so survivors keep their order. */
  lemma {:induction false} KeptAppend<T>(a: seq<ListHead<T>>, b: seq<ListHead<T>>, remove: T -> bool)
    ensures Kept(a + b, remove) == Kept(a, remove) + Kept(b, remove)
    decreases |b|
  {
    if |b| == 0 {
      assert a + b == a;
    } else {
      assert (a + b)[..|a + b| - 1] == a + b[..|b| - 1];
      KeptAppend(a, b[..|b| - 1], remove);
    }
  }

  lemma {:induction false} KeptLength<T>(nodes: seq<ListHead<T>>, remove: T -> bool)
    ensures |Kept(nodes, remove)| <= |nodes|
  {
    if |nodes| > 0 {
      KeptLength(nodes[..|nodes| - 1], remove);
    }
  }

  /** Filtering twice with the same selection is filtering once. */
  lemma {:induction false} KeptIdempotent<T>(nodes: seq<ListHead<T>>, remove: T -> bool)
    ensures Kept(Kept(nodes, remove), remove) == Kept(nodes, remove)
  {
    if |nodes| > 0 {
      var init, last := nodes[..|nodes| - 1], nodes[|nodes| - 1];
      KeptIdempotent(init, remove);
      var tail := if remove(last.item) then [] else [last];
      KeptAppend(Kept(init, remove), tail, remove);
      if !remove(last.item) {
        assert Kept(tail, remove) == Kept([], remove) + [last] by {
          assert tail[..0] == [];
        }
      }
    }
  }

  /**
   * list_for_each_safe (list.h:24-26) with a `list_del` of every node whose
   * payload `remove` selects: the successor is read before the current node
   * is unlinked, so the walk still meets every original node in order.
   */
  method DeleteWhere<T>(head: ListHead<T>, ghost nodes: seq<ListHead<T>>, remove: T -> bool)
    requires IsList(head, nodes)
    modifies head, nodes
    ensures IsList(head, Kept(nodes, remove))
  {
    ghost var i := 0;
    var pos := head.next;
    var nxt := pos.next;
    while pos != head
      invariant 0 <= i <= |nodes|
      invariant IsList(head, Kept(nodes[..i], remove) + nodes[i..])
      invariant pos == if i < |nodes| then nodes[i] else head
      invariant nxt == pos.next
      decreases |nodes| - i
    {
      Neighbours(head, nodes, i, remove);
      DeleteStep(pos, head, nodes, i, remove);
      i := i + 1;
      pos := nxt;
      nxt := pos.next;
    }
    assert nodes[..i] == nodes && Kept(nodes[..i], remove) + nodes[i..] == Kept(nodes, remove);
  }

  /**
   * One turn of that walk at node i: it is unlinked if `remove` selects it.
   * The node after it is the one the walk visits next.
   */
  method DeleteStep<T>(pos: ListHead<T>, ghost head: ListHead<T>, ghost nodes: seq<ListHead<T>>, ghost i: nat, remove: T -> bool)
    requires i < |nodes| && pos == nodes[i]
    requires IsList(head, Kept(nodes[..i], remove) + nodes[i..])
    modifies nodes[i].next, nodes[i].prev
    ensures IsList(head, Kept(nodes[..i + 1], remove) + nodes[i + 1..])
    ensures old(nodes[i].next) == if i + 1 < |nodes| then nodes[i + 1] else head
  {
    ghost var kept := Kept(nodes[..i], remove);
    ghost var cur := kept + nodes[i..];
    ghost var k := |kept|;
    WalkStep(nodes, i, remove, cur);
    assert pos.next == Succ(head, cur, k);
    if remove(pos.item) {
      ListDel(pos, head, cur, k);
    }
  }

  /** During the walk, the neighbours of node i are the head or original nodes. */
  lemma Neighbours<T>(head: ListHead<T>, nodes: seq<ListHead<T>>, i: nat, remove: T -> bool)
    requires i < |nodes|
    requires IsList(head, Kept(nodes[..i], remove) + nodes[i..])
    ensures nodes[i].next == head || nodes[i].next in nodes
    ensures nodes[i].prev == head || nodes[i].prev in nodes
  {
    var kept := Kept(nodes[..i], remove);
    var cur := kept + nodes[i..];
    var k := |kept|;
    WalkStep(nodes, i, remove, cur);
    assert nodes[i].next == Succ(head, cur, k) && nodes[i].prev == Pred(head, cur, k);
    if k + 1 < |cur| {
      assert cur[k + 1] == nodes[i + 1];
    }
    if k > 0 {
      assert kept[k - 1] in kept;
      KeptMembership(nodes[..i], remove, kept[k - 1]);
    }
  }

  /** How one step of the filtering walk changes the abstract sequence. */
  lemma WalkStep<T>(nodes: seq<ListHead<T>>, i: nat, remove: T -> bool, cur: seq<ListHead<T>>)
    requires i < |nodes| && cur == Kept(nodes[..i], remove) + nodes[i..]
    ensures var k := |Kept(nodes[..i], remove)|;
      && k < |cur| && cur[k] == nodes[i]
      && (k + 1 < |cur| <==> i + 1 < |nodes|)
      && (k + 1 < |cur| ==> cur[k + 1] == nodes[i + 1])
      && (remove(nodes[i].item) ==> cur[..k] + cur[k + 1..] == Kept(nodes[..i + 1], remove) + nodes[i + 1..])
      && (!remove(nodes[i].item) ==> cur == Kept(nodes[..i + 1], remove) + nodes[i + 1..])
  {
    assert nodes[..i + 1][..i] == nodes[..i];
    assert nodes[i..] == [nodes[i]] + nodes[i + 1..];
  }
}
