/**
 * The doubly linked list of the linked-list notes: nodes with `prev` and `next` links, a
 * `head`, a `tail` and a `length`, with constant-time insertion and removal at both ends.
 */
module NotesDoublyLinkedList {
  import opened Wrappers

  /** `new DoublyNode(value)`: a value and two links, both `null` at first. */
  class DoublyNode<T> {
    var value: T
    var prev: DoublyNode?<T>
    var next: DoublyNode?<T>

    constructor(value: T)
      ensures this.value == value && prev == null && next == null
    {
      this.value := value;
      prev := null;
      next := null;
    }
  }

  /** The objects of a sequence of doubly linked nodes. */
  ghost function Objects<T>(ns: seq<DoublyNode<T>>): set<object>
  {
    set i | 0 <= i < |ns| :: ns[i]
  }

  /**
   * `ns` are distinct nodes, each one's `next` the following node and each one's `prev` the
   * preceding node, with `null` before the first and after the last.
   */
  ghost predicate DoublyLinked<T>(ns: seq<DoublyNode<T>>)
    reads Objects(ns)
  {
    (forall i, j :: 0 <= i < j < |ns| ==> ns[i] != ns[j]) &&
    (forall i :: 0 <= i < |ns| - 1 ==> ns[i].next == ns[i + 1] && ns[i + 1].prev == ns[i]) &&
    (|ns| > 0 ==> ns[0].prev == null && ns[|ns| - 1].next == null)
  }

  /** The nodes `ns` hold the values `vs`, position by position. */
  ghost predicate Holds<T>(ns: seq<DoublyNode<T>>, vs: seq<T>)
    reads Objects(ns)
  {
    |ns| == |vs| && forall k :: 0 <= k < |ns| ==> ns[k].value == vs[k]
  }

  class DoublyLinkedList<T> {
    var head: DoublyNode?<T>
    var tail: DoublyNode?<T>
    var length: int
    ghost var nodes: seq<DoublyNode<T>>
    ghost var Contents: seq<T>
    ghost var Repr: set<object>

    /** `head` and `tail` are the two ends of a doubly linked chain of `length` nodes. */
    ghost predicate Valid()
      reads this, Repr
    {
      this in Repr && Objects(nodes) <= Repr &&
      DoublyLinked(nodes) &&
      head == (if nodes == [] then null else nodes[0]) &&
      tail == (if nodes == [] then null else nodes[|nodes| - 1]) &&
      length == |nodes| && Holds(nodes, Contents)
    }

    /** In a valid list the three emptiness tests agree. */
    lemma EmptyEnds()
      requires Valid()
      ensures head == null <==> tail == null
      ensures head == null <==> length == 0
      ensures length == 0 <==> Contents == []
    {
    }

    /** `new DoublyLinkedList()`: no nodes. */
    constructor()
      ensures Valid() && fresh(Repr) && Contents == []
    {
      head, tail, length := null, null, 0;
      nodes, Contents := [], [];
      Repr := {this};
    }

    /** `prepend(value)`: a new first node, linked back from the old first node. */
    method Prepend(value: T)
      requires Valid()
      modifies Repr
      ensures Valid() && fresh(Repr - old(Repr))
      ensures Contents == [value] + old(Contents) && length == old(length) + 1
    {
      var node := new DoublyNode(value);
      if head == null {
        head, tail := node, node;
        nodes := [node];
      } else {
        node.next := head;
        head.prev := node;
        head := node;
        nodes := [node] + nodes;
      }
      length := length + 1;
      Contents := [value] + Contents;
      Repr := Repr + {node};
    }

    /** `append(value)`: a new last node, linked forward from the old last node. */
    method Append(value: T)
      requires Valid()
      modifies Repr
      ensures Valid() && fresh(Repr - old(Repr))
      ensures Contents == old(Contents) + [value] && length == old(length) + 1
    {
      var node := new DoublyNode(value);
      if tail == null {
        head, tail := node, node;
        nodes := [node];
      } else {
        tail.next := node;
        node.prev := tail;
        tail := node;
        nodes := nodes + [node];
      }
      length := length + 1;
      Contents := Contents + [value];
      Repr := Repr + {node};
    }

    /** `removeHead()`: the first value, dropped from the list; `None` when the list is empty. */
    method RemoveHead() returns (r: Option<T>)
      requires Valid()
      modifies Repr
      ensures Valid() && Repr == old(Repr)
      ensures old(Contents) == [] ==> r == None && Contents == []
      ensures old(Contents) != [] ==>
        r == Some(old(Contents)[0]) && Contents == old(Contents)[1..] && length == old(length) - 1
    {
      if head == null {
        return None;
      }
      var v := head.value;
      if head == tail {
        head, tail := null, null;
        nodes := [];
      } else {
        assert head.next == nodes[1];
        head := head.next;
        head.prev := null;
        nodes := nodes[1..];
      }
      length := length - 1;
      Contents := Contents[1..];
      return Some(v);
    }

    /** `removeTail()`: the last value, dropped from the list; `None` when the list is empty. */
    method RemoveTail() returns (r: Option<T>)
      requires Valid()
      modifies Repr
      ensures Valid() && Repr == old(Repr)
      ensures old(Contents) == [] ==> r == None && Contents == []
      ensures old(Contents) != [] ==>
        r == Some(old(Contents)[|old(Contents)| - 1]) && Contents == old(Contents)[..|old(Contents)| - 1] &&
        length == old(length) - 1
    {
      if tail == null {
        return None;
      }
      var v := tail.value;
      if head == tail {
        head, tail := null, null;
        nodes := [];
      } else {
        assert tail.prev == nodes[|nodes| - 2];
        tail := tail.prev;
        tail.next := null;
        nodes := nodes[..|nodes| - 1];
      }
      length := length - 1;
      Contents := Contents[..|Contents| - 1];
      return Some(v);
    }
  }
}
