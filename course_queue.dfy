/**
 * The linked queue of the course exercise on the constructor: a chain of nodes from
 * `first` to `last` and a `length` field, created holding one value.
 */
module CourseQueue {
  import opened Nodes

  class Queue<T> {
    var first: Node?<T>
    var last: Node?<T>
    var length: int
    /** The nodes from `first` to `last`. */
    ghost var nodes: seq<Node<T>>
    /** The queued values, oldest first. */
    ghost var Contents: seq<T>
    ghost var Repr: set<object>

    ghost predicate Valid()
      reads this, Repr
    {
      this in Repr && Objects(nodes) <= Repr &&
      Linked(nodes) && first == First(nodes) && last == Last(nodes) &&
      length == |nodes| && Holds(nodes, Contents)
    }

    /** `new Queue(value)`: one fresh node that is both `first` and `last`. */
    constructor(value: T)
      ensures Valid() && fresh(Repr)
      ensures Contents == [value] && length == 1
      ensures first != null && first == last && first.value == value && first.next == null
    {
      var newNode := new Node(value);
      first := newNode;
      last := newNode;
      length := 1;
      nodes, Contents := [newNode], [value];
      Repr := {this, newNode};
    }

    /** `makeEmpty()`: forget every node. */
    method MakeEmpty()
      requires Valid()
      modifies this
      ensures Valid() && Repr == old(Repr)
      ensures first == null && last == null && length == 0 && Contents == []
    {
      first := null;
      last := null;
      length := 0;
      nodes, Contents := [], [];
    }
  }

  /** The driver at the end of the exercise: `new Queue(4)` has first 4, last 4 and length 1. */
  method ConstructorExample() returns (q: Queue<int>)
    ensures q.Valid() && q.Contents == [4] && q.length == 1
    ensures q.first != null && q.first.value == 4 && q.last != null && q.last.value == 4
  {
    q := new Queue(4);
  }
}
