/** The kernel's doubly linked list. */
module LinkedList {
  import opened Basics

  class Node {
    var prev: Node?
    var next: Node?
    var value: int

    constructor (v: int)
      ensures prev == null && next == null && value == v
    {
      prev, next, value := null, null, v;
    }
  }

  ghost predicate Distinct<T>(s: seq<T>)
  {
    forall i, j :: 0 <= i < j < |s| ==> s[i] != s[j]
  }

  lemma Cut<T>(s: seq<T>, k: int)
    requires 0 <= k < |s| && Distinct(s)
    ensures var t := s[..k] + s[k + 1..];
      Distinct(t) && |t| == |s| - 1 && forall i :: 0 <= i < |t| ==> t[i] == if i < k then s[i] else s[i + 1]
  {
  }

  class List {
    var head: Node?
    var tail: Node?
    var size: nat
    ghost var nodes: seq<Node>  // the nodes in order

    ghost predicate Valid()
      reads this, nodes
    {
      && size == |nodes| && Distinct(nodes)
      && head == (if nodes == [] then null else nodes[0])
      // `tail` may be stale in an empty list.
      && (nodes != [] ==> tail == nodes[|nodes| - 1])
      && (forall i {:trigger nodes[i].prev} :: 0 <= i < |nodes| ==> nodes[i].prev == if i == 0 then null
        else nodes[i - 1])
      && (forall i {:trigger nodes[i].next} :: 0 <= i < |nodes| ==>
        nodes[i].next == if i + 1 == |nodes| then null else nodes[i + 1])
    }

    ghost function Values(): (s: seq<int>)
      reads this, nodes
      ensures |s| == |nodes|
    {
      seq(|nodes|, i requires 0 <= i < |nodes| reads this, nodes => nodes[i].value)
    }

    constructor ()
      ensures Valid() && nodes == [] && Values() == []
    {
      head, tail, size, nodes := null, null, 0, [];
    }

    /** list_insert_front, with the empty list tested before `head` is followed. */
    method InsertFront(v: int) returns (t: Node)
      requires Valid()
      modifies this, nodes
      ensures Valid() && fresh(t) && nodes == [t] + old(nodes)
      ensures Values() == [v] + old(Values())
    {
      t := new Node(v);
      if head != null {
        head.prev := t;
      }
      t.next := head;
      if head == null {
        tail := t;
      }
      head := t;
      size := size + 1;
      nodes := [t] + nodes;
      assert Values() == [v] + old(Values());
    }

    /** list_remove_front: an emptied list keeps its old `tail`. */
    method RemoveFront()
      requires Valid()
      modifies this, nodes
      ensures Valid() && nodes == if old(nodes) == [] then [] else old(nodes)[1..]
      ensures old(nodes) != [] ==> Values() == old(Values())[1..]
    {
      if head == null {
        return;
      }
      head := head.next;
      if head != null {
        head.prev := null;
      }
      size := size - 1;
      nodes := nodes[1..];
    }

    /** list_remove_back: with a single node `head` would be left on the node that was freed. */
    method RemoveBack()
      requires Valid()
      modifies this, nodes
      ensures Valid() <==> |old(nodes)| != 1
      ensures nodes == if old(nodes) == [] then [] else old(nodes)[..|old(nodes)| - 1]
      ensures |old(nodes)| > 1 ==> Values() == old(Values())[..|old(nodes)| - 1]
    {
      if head == null {
        return;
      }
      tail := tail.prev;
      if tail != null {
        tail.next := null;
      }
      size := size - 1;
      nodes := nodes[..|nodes| - 1];
    }

    /** list_remove_node, for a node of this list. */
    method RemoveNode(node: Node, ghost k: int)
      requires Valid() && 0 <= k < |nodes| && nodes[k] == node
      modifies this, nodes
      ensures Valid() && nodes == old(nodes)[..k] + old(nodes)[k + 1..]
      ensures Values() == old(Values())[..k] + old(Values())[k + 1..]
    {
      if head == node {
        RemoveFront();
      } else if tail == node {
        RemoveBack();
      } else {
        RemoveMiddle(node, k);
      }
    }

    method RemoveMiddle(node: Node, ghost k: int)
      requires Valid() && 0 < k < |nodes| - 1 && nodes[k] == node
      modifies this, nodes
      ensures Valid() && nodes == old(nodes)[..k] + old(nodes)[k + 1..]
      ensures forall i :: 0 <= i < |old(nodes)| ==> old(nodes)[i].value == old(nodes[i].value)
    {
      Cut(nodes, k);
      assert node.next == nodes[k + 1] && node.prev == nodes[k - 1];
      node.next.prev := node.prev;
      node.prev.next := node.next;
      size := size - 1;
      nodes := nodes[..k] + nodes[k + 1..];
    }

    /** list_peek_front: None stands for NULL. */
    method PeekFront() returns (v: Option<int>)
      requires Valid()
      ensures v == if nodes == [] then None else Some(Values()[0])
    {
      v := if head == null then None else Some(head.value);
    }

    /** list_get_node_by_index */
    method GetNode(index: nat) returns (r: Node?)
      requires Valid()
      ensures if index < |nodes| then r == nodes[index] else r == null
    {
      if index >= size {
        return null;
      }
      var node, curr := head, 0;
      while node != null
        invariant curr <= index && node == if curr == |nodes| then null else nodes[curr]
        decreases |nodes| - curr
      {
        if index == curr {
          return node;
        }
        node, curr := node.next, curr + 1;
      }
      return null;
    }
  }
}
