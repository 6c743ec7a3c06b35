/**
 * A doubly linked list of immutable payloads: the sequence half of the
 * ordered map. It offers what the map uses of a list: append at the back,
 * unlink a node it holds, and the two ends to walk from.
 */
module LinkedList {

  /** A list node: a payload and the links to its neighbours. */
  class ListNode<T> {
    const value: T
    var prev: ListNode?<T>
    var next: ListNode?<T>

    /** A node to be linked in after `prev`, as the new last node. */
    constructor (value: T, prev: ListNode?<T>)
      ensures this.value == value && this.prev == prev && this.next == null
    {
      this.value := value;
      this.prev := prev;
      this.next := null;
    }
  }

  class List<T> {
    var front: ListNode?<T>
    var back: ListNode?<T>

    // the nodes, front to back
    ghost var nodes: seq<ListNode<T>>
    // the list object and every node it has linked in
    ghost var Repr: set<object>

    /**
     * Each node appears once; following `next` from `front` visits the
     * nodes in order and ends at `back`, and `prev` walks them backwards.
     */
    ghost predicate Valid()
      reads this, Repr
    {
      && this in Repr
      && (forall i :: 0 <= i < |nodes| ==> nodes[i] in Repr)
      && (forall i, j :: 0 <= i < j < |nodes| ==> nodes[i] != nodes[j])
      && (forall i :: 0 <= i < |nodes| - 1 ==> nodes[i].next == nodes[i + 1])
      && (forall i :: 0 < i < |nodes| ==> nodes[i].prev == nodes[i - 1])
      && (if |nodes| == 0 then front == null && back == null
          else
            && front == nodes[0] && front.prev == null
            && back == nodes[|nodes| - 1] && back.next == null)
    }

    /** An empty list. */
    constructor ()
      ensures Valid() && fresh(Repr)
      ensures nodes == []
    {
      front, back := null, null;
      nodes := [];
      Repr := {this};
    }

    /** Append a new node holding `v` and return it. */
    method PushBack(v: T) returns (n: ListNode<T>)
      requires Valid()
      modifies Repr
      ensures Valid() && fresh(Repr - old(Repr))
      ensures fresh(n) && n.value == v
      ensures nodes == old(nodes) + [n]
    {
      ghost var ns := nodes;
      ghost var last := back;
      n := new ListNode(v, back);
      if back == null {
        front := n;
      } else {
        back.next := n;
      }
      back := n;
      nodes := ns + [n];
      Repr := Repr + {n};
      forall j | 0 <= j < |nodes| - 1
        ensures nodes[j].next == nodes[j + 1]
      {
        if j < |ns| - 1 {
          assert nodes[j] == ns[j] && ns[j] != last;
        }
      }
      forall j | 0 < j < |nodes|
        ensures nodes[j].prev == nodes[j - 1]
      {
        if j < |ns| {
          assert nodes[j] == ns[j] && nodes[j - 1] == ns[j - 1];
        }
      }
    }

    /** Unlink `n`, the node at position `i`; the other nodes keep their order. */
    method Remove(n: ListNode<T>, ghost i: nat)
      requires Valid() && i < |nodes| && nodes[i] == n
      modifies Repr
      ensures Valid() && Repr == old(Repr)
      ensures |nodes| == |old(nodes)| - 1
      ensures forall j :: 0 <= j < i ==> nodes[j] == old(nodes)[j]
      ensures forall j :: i <= j < |nodes| ==> nodes[j] == old(nodes)[j + 1]
    {
      ghost var ns := nodes;
      ghost var before := if 0 < i then ns[i - 1] else null;
      ghost var after := if i + 1 < |ns| then ns[i + 1] else null;
      if n.prev == null {
        front := n.next;
      } else {
        n.prev.next := n.next;
      }
      if n.next == null {
        back := n.prev;
      } else {
        n.next.prev := n.prev;
      }
      nodes := ns[..i] + ns[i + 1..];
      assert forall j :: 0 <= j < i ==> nodes[j] == ns[j];
      assert forall j :: i <= j < |nodes| ==> nodes[j] == ns[j + 1];
      forall j | 0 <= j < |nodes| - 1
        ensures nodes[j].next == nodes[j + 1]
      {
        if j + 1 < i {
          assert nodes[j] == ns[j] && nodes[j + 1] == ns[j + 1] && ns[j] != before;
        } else if j + 1 == i {
          assert nodes[j] == before && nodes[j + 1] == after;
        } else {
          assert nodes[j] == ns[j + 1] && nodes[j + 1] == ns[j + 2] && ns[j + 1] != before;
        }
      }
      forall j | 0 < j < |nodes|
        ensures nodes[j].prev == nodes[j - 1]
      {
        if j < i {
          assert nodes[j] == ns[j] && nodes[j - 1] == ns[j - 1] && ns[j] != after;
        } else if j == i {
          assert nodes[j] == after && nodes[j - 1] == before;
        } else {
          assert nodes[j] == ns[j + 1] && nodes[j - 1] == ns[j] && ns[j + 1] != after;
        }
      }
    }
  }
}
