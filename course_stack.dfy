/**
 * The linked stack of the course exercise on `push`: a chain of nodes from `top` and a
 * `length` field, created holding one value.
 */
module CourseStack {
  import opened Nodes

  class Stack<T> {
    var top: Node?<T>
    var length: int
    /** The nodes from `top` down. */
    ghost var nodes: seq<Node<T>>
    /** The values from the top down. */
    ghost var Contents: seq<T>
    ghost var Repr: set<object>

    ghost predicate Valid()
      reads this, Repr
    {
      this in Repr && Objects(nodes) <= Repr &&
      Linked(nodes) && top == First(nodes) &&
      length == |nodes| && Holds(nodes, Contents)
    }

    /** `new Stack(value)`: a single fresh node holding `value`. */
    constructor(value: T)
      ensures Valid() && fresh(Repr)
      ensures Contents == [value] && length == 1 && top != null && top.value == value && top.next == null
    {
      var newNode := new Node(value);
      top := newNode;
      length := 1;
      nodes, Contents := [newNode], [value];
      Repr := {this, newNode};
    }

    /** `makeEmpty()`: forget every node. */
    method MakeEmpty()
      requires Valid()
      modifies this
      ensures Valid() && Repr == old(Repr)
      ensures top == null && length == 0 && Contents == []
    {
      top := null;
      length := 0;
      nodes, Contents := [], [];
    }

    /**
     * `push(value)`: a fresh top node holding `value` whose `next` is the old top (on an
     * empty stack the new node simply becomes the top).
     */
    method Push(value: T)
      requires Valid()
      modifies Repr
      ensures Valid() && fresh(Repr - old(Repr))
      ensures Contents == [value] + old(Contents) && length == old(length) + 1
      ensures top != null && fresh(top) && top.value == value && top.next == old(top)
    {
      var newNode := new Node(value);
      if length == 0 {
        top := newNode;
      } else {
        newNode.next := top;
        top := newNode;
      }
      length := length + 1;
      nodes, Contents := [newNode] + nodes, [value] + Contents;
      Repr := Repr + {newNode};
    }
  }

  /** The driver at the end of the exercise: `new Stack(2)` then `push(1)`. */
  method PushExample() returns (s: Stack<int>)
    ensures s.Valid() && s.Contents == [1, 2] && s.length == 2
    ensures s.top != null && s.top.value == 1
  {
    s := new Stack(2);
    s.Push(1);
  }
}
