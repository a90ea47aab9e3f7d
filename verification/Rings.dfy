/** The circular doubly linked list of src/list.c, with the entries that the parsers hang on it. */
module Rings {
  import opened Options

  class Node<T> {
    var next: Node<T>
    var prev: Node<T>
    const entry: Option<T>

    constructor (entry: Option<T>)
      ensures this.entry == entry && next == prev == this
    {
      this.entry := entry;
      next, prev := this, this;
    }
  }

  /** What the nodes of a list hold. */
  function EntriesOf<T>(nodes: seq<Node<T>>): (s: seq<T>)
    requires forall i | 0 <= i < |nodes| :: nodes[i].entry.Some?
    ensures |s| == |nodes| && forall i | 0 <= i < |nodes| :: s[i] == nodes[i].entry.value
  {
    if nodes == [] then [] else [nodes[0].entry.value] + EntriesOf(nodes[1..])
  }

  /** A head that stores nothing, and the nodes that follow it in a circle. */
  class Ring<T> {
    const head: Node<T>
    ghost var nodes: seq<Node<T>>

    ghost predicate Valid()
      reads this, head, nodes
    {
      && (forall i | 0 <= i < |nodes| :: nodes[i] != head && nodes[i].entry.Some?)
      && (forall i, j | 0 <= i < j < |nodes| :: nodes[i] != nodes[j])
      && head.next == (if nodes == [] then head else nodes[0])
      && head.prev == (if nodes == [] then head else nodes[|nodes| - 1])
      && (forall i {:trigger nodes[i].next} | 0 <= i < |nodes| ::
            nodes[i].next == if i + 1 < |nodes| then nodes[i + 1] else head)
      && (forall i {:trigger nodes[i].prev} | 0 <= i < |nodes| :: nodes[i].prev == if i > 0 then nodes[i - 1] else head)
    }

    ghost function Entries(): (s: seq<T>)
      requires Valid()
      reads this, head, nodes
    {
      EntriesOf(nodes)
    }

    constructor ()
      ensures Valid() && nodes == [] && fresh(head)
    {
      var h := new Node<T>(None);
      head, nodes := h, [];
    }

    method InsertHead(node: Node<T>)
      requires Valid() && node != head && node !in nodes && node.entry.Some?
      modifies this, head, nodes, node
      ensures Valid() && nodes == [node] + old(nodes)
      ensures Entries() == [node.entry.value] + old(Entries())
    {
      var next := head.next;
      next.prev := node;
      node.next := next;
      node.prev := head;
      head.next := node;
      ghost var was := nodes;
      nodes := [node] + nodes;
      forall i | 0 <= i < |nodes|
        ensures nodes[i].next == (if i + 1 < |nodes| then nodes[i + 1] else head)
        ensures nodes[i].prev == (if i > 0 then nodes[i - 1] else head)
      {
        if i > 0 { assert nodes[i] == was[i - 1] && old(was[i - 1].next) == was[i - 1].next; }
      }
    }

    method InsertTail(node: Node<T>)
      requires Valid() && node != head && node !in nodes && node.entry.Some?
      modifies this, head, nodes, node
      ensures Valid() && nodes == old(nodes) + [node]
      ensures Entries() == old(Entries()) + [node.entry.value]
    {
      var prev := head.prev;
      prev.next := node;
      node.next := head;
      node.prev := prev;
      head.prev := node;
      ghost var was := nodes;
      nodes := nodes + [node];
      forall i | 0 <= i < |nodes|
        ensures nodes[i].next == (if i + 1 < |nodes| then nodes[i + 1] else head)
        ensures nodes[i].prev == (if i > 0 then nodes[i - 1] else head)
      {
        if i < |was| { assert nodes[i] == was[i] && old(was[i].prev) == was[i].prev; }
      }
    }

    /** A walk that starts at the first node and follows `next` meets the entries in order, and ends at the head. */
    lemma {:induction false} Walk(i: nat)
      requires Valid() && i <= |nodes|
      ensures |Entries()| == |nodes| && head.next == if |nodes| > 0 then nodes[0] else head
      ensures i < |nodes| ==>
        && nodes[i] != head && nodes[i].entry == Some(Entries()[i])
        && nodes[i].next == if i + 1 < |nodes| then nodes[i + 1] else head
    {
    }

    method Size() returns (counter: nat)
      requires Valid()
      ensures counter == |Entries()|
    {
      counter := 0;
      var cur := head.next;
      while cur != head
        invariant counter <= |nodes| && cur == if counter < |nodes| then nodes[counter] else head
        decreases |nodes| - counter
      {
        assert cur.next == nodes[counter].next;
        counter := counter + 1;
        cur := cur.next;
      }
    }
  }
}
