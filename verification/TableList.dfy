/** The doubly linked list of tables that libraries add and remove. */
module TableList {

  class Node {
    var prev: Node?
    var next: Node?

    constructor ()
      ensures prev == null && next == null
    {
      prev, next := null, null;
    }
  }

  /** Node i is linked to its neighbours in the sequence. */
  ghost predicate Linked(nodes: seq<Node>, i: nat)
    requires i < |nodes|
    reads nodes[i]
  {
    && nodes[i].prev == (if i == 0 then null else nodes[i - 1])
    && nodes[i].next == (if i == |nodes| - 1 then null else nodes[i + 1])
  }

  ghost predicate Distinct(nodes: seq<Node>) {
    forall i, j :: 0 <= i < j < |nodes| ==> nodes[i] != nodes[j]
  }

  class List {
    var head: Node?
    ghost var nodes: seq<Node>

    constructor ()
      ensures Valid() && nodes == []
    {
      head, nodes := null, [];
    }

    ghost predicate Valid()
      reads this, nodes
    {
      && Distinct(nodes)
      && head == (if nodes == [] then null else nodes[0])
      && forall i {:trigger Linked(nodes, i)} :: 0 <= i < |nodes| ==> Linked(nodes, i)
    }

    /**
     * Adds a node at the front. The list is well linked afterwards exactly when the node came
     * without a predecessor and, for an empty list, without a successor: the method clears neither.
     */
    method AddTable(node: Node)
      requires Valid() && node !in nodes
      modifies this, node, nodes
      ensures nodes == [node] + old(nodes)
      ensures Valid() <==> old(node.prev) == null && (old(nodes) == [] ==> old(node.next) == null)
    {
      ghost var before := nodes;
      if head != null {
        assert Linked(nodes, 0);
        node.next := head;
        head.prev := node;
      }
      head := node;
      nodes := [node] + nodes;
      forall i | 0 < i < |nodes|
        ensures Linked(nodes, i)
      {
        assert nodes[i] == before[i - 1];
        assert old(Linked(before, i - 1));
      }
      assert Valid() <==> Linked(nodes, 0);
    }

    /** Takes a node out; its own links stay as they are. */
    method RemoveTable(node: Node, ghost k: nat)
      requires Valid() && k < |nodes| && nodes[k] == node
      modifies this, nodes
      ensures Valid() && nodes == old(nodes[..k] + nodes[k + 1..])
      ensures node.prev == old(node.prev) && node.next == old(node.next)
    {
      ghost var before := nodes;
      assert Linked(nodes, k);
      if node.next != null {
        node.next.prev := node.prev;
      }
      if node.prev != null {
        node.prev.next := node.next;
      }
      if head == node {
        head := node.next;
      }
      nodes := nodes[..k] + nodes[k + 1..];
      forall i | 0 <= i < |nodes|
        ensures Linked(nodes, i)
      {
        var j := if i < k then i else i + 1;
        assert nodes[i] == before[j];
        assert old(Linked(before, j));
      }
    }
  }

  /** A node that was removed breaks an empty list when it is added again: it still has a successor. */
  method ReaddedNodeKeepsItsSuccessor() returns (list: List)
    ensures |list.nodes| == 1 && !list.Valid()
  {
    list := new List();
    var a := new Node();
    var b := new Node();
    list.AddTable(a);
    list.AddTable(b);
    assert Linked(list.nodes, 0);
    list.RemoveTable(b, 0);
    list.RemoveTable(a, 0);
    list.AddTable(b);
  }
}
