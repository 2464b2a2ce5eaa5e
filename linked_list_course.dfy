/**
 * The linked list of the course exercises (`06_get`, `07_set`, `08_insert`, `10_reverse`):
 * head and tail references, a `length` field, and index operations that walk the chain.
 * The later exercises repeat the methods of the earlier ones unchanged, so one class
 * models them all.
 */
module CourseLinkedList {
  import opened Nodes

  class LinkedList<T> {
    var head: Node?<T>
    var tail: Node?<T>
    var length: int
    /** The nodes of the chain from `head`, in order. */
    ghost var nodes: seq<Node<T>>
    /** The values of the chain, in order. */
    ghost var Contents: seq<T>
    ghost var Repr: set<object>

    ghost predicate Valid()
      reads this, Repr
    {
      this in Repr && Objects(nodes) <= Repr &&
      Linked(nodes) &&
      head == First(nodes) && tail == Last(nodes) &&
      length == |nodes| == |Contents| &&
      (forall i :: 0 <= i < |nodes| ==> nodes[i].value == Contents[i])
    }

    /** `new LinkedList()`: no nodes. */
    constructor()
      ensures Valid() && fresh(Repr)
      ensures Contents == [] && head == null && tail == null && length == 0
    {
      head, tail, length := null, null, 0;
      nodes, Contents := [], [];
      Repr := {this};
    }

    /** `makeEmpty()`: forget every node. */
    method MakeEmpty()
      requires Valid()
      modifies this
      ensures Valid() && Repr == old(Repr)
      ensures Contents == [] && head == null && tail == null && length == 0
    {
      head, tail, length := null, null, 0;
      nodes, Contents := [], [];
    }

    /** `push(value)`: a new tail node holding `value`. */
    method Push(value: T)
      requires Valid()
      modifies Repr
      ensures Valid() && fresh(Repr - old(Repr))
      ensures Contents == old(Contents) + [value] && length == old(length) + 1
      ensures nodes == old(nodes) + [tail] && fresh(tail)
      ensures old(length) > 0 ==> head == old(head)
    {
      var newNode := new Node(value);
      if head == null {
        head := newNode;
        tail := newNode;
      } else {
        tail.next := newNode;
        tail := newNode;
      }
      length := length + 1;
      nodes, Contents := nodes + [newNode], Contents + [value];
      Repr := Repr + {newNode};
    }

    /** `pop()`: detach and return the tail node, or `null` when there is none. */
    method Pop() returns (r: Node?<T>)
      requires Valid()
      modifies Repr
      ensures Valid() && Repr == old(Repr)
      ensures old(length) == 0 ==> r == null && Contents == old(Contents) && nodes == old(nodes)
      ensures old(length) > 0 ==>
        r == old(nodes)[old(length) - 1] && r.value == old(Contents)[old(length) - 1] && r.next == null &&
        nodes == old(nodes)[..old(length) - 1] && Contents == old(Contents)[..old(length) - 1]
    {
      if length == 0 {
        return null;
      }
      var temp := head;
      var pre := head;
      ghost var k := 0;
      while temp.next != null
        invariant 0 <= k < |nodes| && temp == nodes[k] && pre == nodes[if k == 0 then 0 else k - 1]
        invariant k < |nodes| - 1 ==> temp.next == nodes[k + 1]
        decreases |nodes| - k
      {
        pre := temp;
        temp := temp.next;
        k := k + 1;
      }
      ghost var rest := nodes[..|nodes| - 1];
      tail := pre;
      tail.next := null;
      length := length - 1;
      assert forall i :: 0 <= i < |rest| - 1 ==> rest[i].next == rest[i + 1];
      nodes, Contents := rest, Contents[..|Contents| - 1];
      if length == 0 {
        head := null;
        tail := null;
      }
      return temp;
    }

    /** `unshift(value)`: a new head node holding `value`. */
    method Unshift(value: T)
      requires Valid()
      modifies Repr
      ensures Valid() && fresh(Repr - old(Repr))
      ensures Contents == [value] + old(Contents) && length == old(length) + 1
      ensures nodes == [head] + old(nodes) && fresh(head)
      ensures old(length) > 0 ==> tail == old(tail)
    {
      var newNode := new Node(value);
      if length == 0 {
        head := newNode;
        tail := newNode;
      } else {
        newNode.next := head;
        head := newNode;
      }
      length := length + 1;
      nodes, Contents := [newNode] + nodes, [value] + Contents;
      Repr := Repr + {newNode};
    }

    /** `shift()`: detach and return the head node, or `null` when there is none. */
    method Shift() returns (r: Node?<T>)
      requires Valid()
      modifies Repr
      ensures Valid() && Repr == old(Repr)
      ensures old(length) == 0 ==> r == null && Contents == old(Contents) && nodes == old(nodes)
      ensures old(length) > 0 ==>
        r == old(head) && r.value == old(Contents)[0] && r.next == null &&
        nodes == old(nodes)[1..] && Contents == old(Contents)[1..]
    {
      if length == 0 {
        return null;
      }
      var temp := head;
      head := head.next;
      temp.next := null;
      length := length - 1;
      nodes, Contents := nodes[1..], Contents[1..];
      if length == 0 {
        tail := null;
      }
      return temp;
    }

    /** `get(index)`: the node at position `index` counting from 0 at the head, or `null`. */
    method Get(index: int) returns (r: Node?<T>)
      requires Valid()
      ensures 0 <= index < length ==> r == nodes[index] && r.value == Contents[index]
      ensures !(0 <= index < length) ==> r == null
    {
      if index < 0 || index >= length {
        return null;
      }
      var temp := head;
      for i := 0 to index
        invariant temp == nodes[i]
      {
        temp := temp.next;
      }
      return temp;
    }

    /** `set(index, value)`: overwrite the value at `index`; false when there is no such node. */
    method Set(index: int, value: T) returns (ok: bool)
      requires Valid()
      modifies Repr
      ensures Valid() && Repr == old(Repr)
      ensures ok == (0 <= index < old(length))
      ensures Contents == if ok then old(Contents)[index := value] else old(Contents)
      ensures nodes == old(nodes) && head == old(head) && tail == old(tail) && length == old(length)
    {
      var temp := Get(index);
      if temp != null {
        temp.value := value;
        Contents := Contents[index := value];
        return true;
      }
      return false;
    }

    /** `insert(index, value)`: put `value` at position `index`; false outside `[0, length]`. */
    method Insert(index: int, value: T) returns (ok: bool)
      requires Valid()
      modifies Repr
      ensures Valid() && fresh(Repr - old(Repr))
      ensures ok == (0 <= index <= old(length))
      ensures ok ==>
        Contents == old(Contents)[..index] + [value] + old(Contents)[index..] && length == old(length) + 1
      ensures !ok ==> Contents == old(Contents) && nodes == old(nodes)
    {
      if index < 0 || index > length {
        return false;
      }
      if index == 0 {
        Unshift(value);
        return true;
      }
      if index == length {
        Push(value);
        assert old(Contents)[index..] == [];
        return true;
      }
      InsertMiddle(index, value);
      return true;
    }

    /** The general case of `insert`: link a new node between positions `index - 1` and `index`. */
    method InsertMiddle(index: int, value: T)
      requires Valid() && 0 < index < length
      modifies Repr
      ensures Valid() && fresh(Repr - old(Repr))
      ensures Contents == old(Contents)[..index] + [value] + old(Contents)[index..] && length == old(length) + 1
    {
      var newNode := new Node(value);
      var prev := Get(index - 1);
      Splice(prev, newNode, index);
      ghost var ns := nodes[..index] + [newNode] + nodes[index..];
      ghost var vs := Contents[..index] + [value] + Contents[index..];
      assert Holds(ns, vs) by {
        forall k | 0 <= k < |ns|
          ensures ns[k].value == vs[k]
        {
          if k < index {
            assert ns[k] == nodes[k] && vs[k] == Contents[k];
          } else if k > index {
            assert ns[k] == nodes[k - 1] && vs[k] == Contents[k - 1];
          }
        }
      }
      assert ns[0] == nodes[0] && ns[|ns| - 1] == nodes[|nodes| - 1];
      Adopt(ns, vs, {newNode});
      length := length + 1;
    }

    /** Records `ns`, holding `vs`, as the chain from `head` to `tail`, with `added` joining the footprint. */
    method Adopt(ghost ns: seq<Node<T>>, ghost vs: seq<T>, ghost added: set<object>)
      requires this in Repr && Objects(ns) <= Repr + added
      requires Linked(ns) && Holds(ns, vs) && head == First(ns) && tail == Last(ns)
      modifies this
      ensures nodes == ns && Contents == vs && Repr == old(Repr) + added
      ensures head == old(head) && tail == old(tail) && length == old(length)
      ensures this in Repr && Objects(nodes) <= Repr && Linked(nodes) && Holds(nodes, Contents)
    {
      nodes, Contents, Repr := ns, vs, Repr + added;
    }

    /** The two link updates of `insert`: `newNode` now follows `prev`, the node at `index - 1`. */
    method Splice(prev: Node<T>, newNode: Node<T>, index: int)
      requires Valid() && 0 < index < length && prev == nodes[index - 1] && newNode !in Repr
      modifies prev, newNode
      ensures Linked(nodes[..index] + [newNode] + nodes[index..])
      ensures forall i :: 0 <= i < |nodes| ==> nodes[i].value == old(nodes[i].value)
      ensures newNode.value == old(newNode.value)
    {
      ghost var ns := nodes[..index] + [newNode] + nodes[index..];
      newNode.next := prev.next;
      prev.next := newNode;
      forall i | 0 <= i < |ns| - 1
        ensures ns[i].next == ns[i + 1]
      {
        if i < index - 1 {
          assert ns[i] == nodes[i] && ns[i + 1] == nodes[i + 1];
        } else if i > index {
          assert ns[i] == nodes[i - 1] && ns[i + 1] == nodes[i];
        }
      }
    }

    /** `remove(index)`: detach and return the node at `index`, or `null` when there is none. */
    method Remove(index: int) returns (r: Node?<T>)
      requires Valid()
      modifies Repr
      ensures Valid() && Repr == old(Repr)
      ensures !(0 <= index < old(length)) ==> r == null && Contents == old(Contents) && nodes == old(nodes)
      ensures 0 <= index < old(length) ==>
        r == old(nodes)[index] && r.value == old(Contents)[index] && r.next == null &&
        nodes == old(nodes)[..index] + old(nodes)[index + 1..] &&
        Contents == old(Contents)[..index] + old(Contents)[index + 1..]
    {
      if index < 0 || index >= length {
        return null;
      }
      if index == 0 {
        r := Shift();
        return;
      }
      if index == length - 1 {
        r := Pop();
        return;
      }
      r := RemoveMiddle(index);
    }

    /** The general case of `remove`: unlink the node at `index`, strictly between head and tail. */
    method RemoveMiddle(index: int) returns (r: Node<T>)
      requires Valid() && 0 < index < length - 1
      modifies Repr
      ensures Valid() && Repr == old(Repr)
      ensures r == old(nodes)[index] && r.value == old(Contents)[index] && r.next == null
      ensures nodes == old(nodes)[..index] + old(nodes)[index + 1..]
      ensures Contents == old(Contents)[..index] + old(Contents)[index + 1..]
    {
      var prev := Get(index - 1);
      assert prev.next == nodes[index];
      r := prev.next;
      Unlink(prev, index);
      ghost var ns := nodes[..index] + nodes[index + 1..];
      ghost var vs := Contents[..index] + Contents[index + 1..];
      assert Holds(ns, vs) by {
        forall k | 0 <= k < |ns|
          ensures ns[k].value == vs[k]
        {
          if k < index {
            assert ns[k] == nodes[k] && vs[k] == Contents[k];
          } else {
            assert ns[k] == nodes[k + 1] && vs[k] == Contents[k + 1];
          }
        }
      }
      assert ns[0] == nodes[0] && ns[|ns| - 1] == nodes[|nodes| - 1];
      Adopt(ns, vs, {});
      length := length - 1;
    }

    /** The two link updates of `remove`: the node after `prev`, at `index`, is skipped and cut loose. */
    method Unlink(prev: Node<T>, index: int)
      requires Valid() && 0 < index < length - 1 && prev == nodes[index - 1]
      modifies prev, nodes[index]
      ensures Linked(nodes[..index] + nodes[index + 1..]) && nodes[index].next == null
      ensures forall i :: 0 <= i < |nodes| ==> nodes[i].value == old(nodes[i].value)
    {
      ghost var ns := nodes[..index] + nodes[index + 1..];
      var temp := prev.next;
      assert temp == nodes[index] && temp.next == nodes[index + 1];
      prev.next := temp.next;
      temp.next := null;
      forall i | 0 <= i < |ns| - 1
        ensures ns[i].next == ns[i + 1]
      {
        if i < index - 1 {
          assert ns[i] == nodes[i] && ns[i + 1] == nodes[i + 1];
        } else if i >= index {
          assert ns[i] == nodes[i + 1] && ns[i + 1] == nodes[i + 2];
        }
      }
    }

    /** `reverse()`: turn every link around and swap head and tail; returns the list. */
    method Reverse() returns (self: LinkedList<T>)
      requires Valid()
      modifies Repr
      ensures Valid() && Repr == old(Repr) && self == this
      ensures Contents == Reversed(old(Contents)) && nodes == Reversed(old(nodes))
      ensures head == old(tail) && tail == old(head) && length == old(length)
    {
      ghost var ns := nodes;
      ghost var n := |ns|;
      var temp := head;
      head := tail;
      tail := temp;
      var prev: Node?<T> := null;
      var next: Node?<T> := null;
      for i := 0 to length
        invariant temp == (if i < n then ns[i] else null)
        invariant prev == (if i == 0 then null else ns[i - 1])
        invariant forall j :: 0 < j < i ==> ns[j].next == ns[j - 1]
        invariant 0 < i ==> ns[0].next == null
        invariant forall j :: i <= j < n - 1 ==> ns[j].next == ns[j + 1]
        invariant i < n ==> ns[n - 1].next == null
        invariant nodes == ns && Contents == old(Contents) && |Contents| == n && length == n && Repr == old(Repr)
        invariant head == old(tail) && tail == old(head)
        invariant forall j :: 0 <= j < n ==> ns[j].value == Contents[j]
      {
        next := temp.next;
        temp.next := prev;
        prev := temp;
        temp := next;
      }
      nodes, Contents := Reversed(ns), Reversed(Contents);
      return this;
    }
  }

  /** The `get` exercise: on [1, 2, 3, 4], `get(2)` is the node holding 3. */
  method GetExample() returns (value: int)
    ensures value == 3
  {
    var list := new LinkedList<int>();
    list.Push(1);
    list.Push(2);
    list.Push(3);
    list.Push(4);
    var node := list.Get(2);
    value := node.value;
  }

  /** The `set` exercise: [10, 20, 30] becomes [10, 25, 30]; index 5 is refused. */
  method SetExample() returns (list: LinkedList<int>, updated: bool, refused: bool)
    ensures list.Valid() && list.Contents == [10, 25, 30]
    ensures updated && refused
  {
    list := new LinkedList<int>();
    list.Push(10);
    list.Push(20);
    list.Push(30);
    updated := list.Set(1, 25);
    var ok := list.Set(5, 50);
    refused := !ok;
  }

  /** The `insert` exercise: inserting 3 at index 2 of [1, 2, 4] gives [1, 2, 3, 4]. */
  method InsertExample() returns (list: LinkedList<int>)
    ensures list.Valid() && list.Contents == [1, 2, 3, 4]
  {
    list := new LinkedList<int>();
    list.Push(1);
    list.Push(2);
    list.Push(4);
    var _ := list.Insert(2, 3);
  }

  /** The `reverse` exercise: [1, 2, 3, 4, 5] becomes [5, 4, 3, 2, 1]. */
  method ReverseExample() returns (list: LinkedList<int>)
    ensures list.Valid() && list.Contents == [5, 4, 3, 2, 1]
  {
    list := new LinkedList<int>();
    list.Push(1);
    list.Push(2);
    list.Push(3);
    list.Push(4);
    list.Push(5);
    var _ := list.Reverse();
  }
}
