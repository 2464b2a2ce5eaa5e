/**
 * The queues of the queue notes: on a growable array, on an object indexed by two
 * counters, on a linked chain, on a fixed circular buffer, the sorted-array priority queue
 * and the double-ended queue.
 */
module NotesQueues {
  import opened Wrappers
  import opened Nodes
  import opened Orders

  /** `QueueArray`: a growable array; values leave from index 0. */
  class QueueArray<T> {
    var queue: seq<T>

    constructor()
      ensures queue == []
    {
      queue := [];
    }

    /** `enqueue(value)`: `value` joins the back. */
    method Enqueue(value: T)
      modifies this
      ensures queue == old(queue) + [value]
    {
      queue := queue + [value];
    }

    /** `dequeue()`: the oldest value, removed; `None` (`undefined`) when empty. */
    method Dequeue() returns (r: Option<T>)
      modifies this
      ensures old(queue) == [] ==> r == None && queue == []
      ensures old(queue) != [] ==> r == Some(old(queue)[0]) && queue == old(queue)[1..]
    {
      if queue == [] {
        return None;
      }
      r := Some(queue[0]);
      queue := queue[1..];
    }

    /** `peek()`: the oldest value; `None` when empty. */
    method Peek() returns (r: Option<T>)
      ensures r == None <==> queue == []
      ensures r.Some? ==> r.value == queue[0]
    {
      if queue == [] {
        return None;
      }
      return Some(queue[0]);
    }

    /** `size()`. */
    method Size() returns (n: int)
      ensures n == |queue|
    {
      return |queue|;
    }

    /** `isEmpty()`. */
    method IsEmpty() returns (b: bool)
      ensures b <==> queue == []
    {
      return |queue| == 0;
    }
  }

  /** First in, first out: what goes in after the present values comes out after them. */
  method ArrayFifo<T>(q: QueueArray<T>, x: T, y: T) returns (first: Option<T>, second: Option<T>)
    requires q.queue == []
    modifies q
    ensures first == Some(x) && second == Some(y) && q.queue == []
  {
    q.Enqueue(x);
    q.Enqueue(y);
    first := q.Dequeue();
    second := q.Dequeue();
  }

  /** The values stored under the keys `lo .. hi - 1`, in key order. */
  ghost function Span<T>(items: map<int, T>, lo: int, hi: int): (s: seq<T>)
    requires lo <= hi && forall i :: lo <= i < hi ==> i in items
    ensures |s| == hi - lo && forall k :: 0 <= k < |s| ==> s[k] == items[lo + k]
    decreases hi - lo
  {
    if lo == hi then [] else [items[lo]] + Span(items, lo + 1, hi)
  }

  /**
   * `QueueOptimal`: an object whose keys `front .. rear - 1` hold the queued values; a
   * dequeue deletes the front key instead of shifting an array.
   */
  class QueueOptimal<T> {
    var items: map<int, T>
    var front: int
    var rear: int

    ghost predicate Valid()
      reads this
    {
      0 <= front <= rear && forall i :: i in items <==> front <= i < rear
    }

    /** The queued values, oldest first. */
    ghost function Contents(): (s: seq<T>)
      requires Valid()
      reads this
      ensures |s| == rear - front
    {
      Span(items, front, rear)
    }

    constructor()
      ensures Valid() && Contents() == []
    {
      items, front, rear := map[], 0, 0;
    }

    /** `enqueue(value)`: stored under key `rear`, which then moves on. */
    method Enqueue(value: T)
      requires Valid()
      modifies this
      ensures Valid() && Contents() == old(Contents()) + [value]
    {
      items := items[rear := value];
      rear := rear + 1;
    }

    /** `dequeue()`: the value under key `front`, deleted; `None` when empty, changing nothing. */
    method Dequeue() returns (r: Option<T>)
      requires Valid()
      modifies this
      ensures Valid()
      ensures old(Contents()) == [] ==> r == None && items == old(items) && front == old(front) && rear == old(rear)
      ensures old(Contents()) != [] ==> r == Some(old(Contents())[0]) && Contents() == old(Contents())[1..]
    {
      if rear - front == 0 {
        return None;
      }
      var v := items[front];
      items := items - {front};
      front := front + 1;
      return Some(v);
    }

    /** `peek()`: the value under key `front`, absent when empty. */
    method Peek() returns (r: Option<T>)
      requires Valid()
      ensures r == None <==> Contents() == []
      ensures r.Some? ==> r.value == Contents()[0]
    {
      if front in items {
        return Some(items[front]);
      }
      return None;
    }

    /** `size()`: `rear - front`. */
    method Size() returns (n: int)
      requires Valid()
      ensures n == |Contents()| && n >= 0
    {
      return rear - front;
    }

    /** `isEmpty()`. */
    method IsEmpty() returns (b: bool)
      requires Valid()
      ensures b <==> Contents() == []
    {
      return rear - front == 0;
    }
  }

  /** `QueueLL`: a chain of nodes from `front` to `rear`, with a `length` field. */
  class QueueLL<T> {
    var front: Node?<T>
    var rear: Node?<T>
    var length: int
    /** The nodes from `front` to `rear`. */
    ghost var nodes: seq<Node<T>>
    /** The queued values, oldest first. */
    ghost var Contents: seq<T>
    ghost var Repr: set<object>

    ghost predicate Valid()
      reads this, Repr
    {
      this in Repr && Objects(nodes) <= Repr &&
      Linked(nodes) && front == First(nodes) && rear == Last(nodes) &&
      length == |nodes| && Holds(nodes, Contents)
    }

    constructor()
      ensures Valid() && fresh(Repr) && Contents == []
    {
      front, rear, length := null, null, 0;
      nodes, Contents := [], [];
      Repr := {this};
    }

    /** `enqueue(value)`: a new rear node, linked from the old rear. */
    method Enqueue(value: T)
      requires Valid()
      modifies Repr
      ensures Valid() && fresh(Repr - old(Repr))
      ensures Contents == old(Contents) + [value] && length == old(length) + 1
    {
      var node := new Node(value);
      if rear != null {
        rear.next := node;
      }
      rear := node;
      if front == null {
        front := node;
      }
      length := length + 1;
      nodes, Contents := nodes + [node], Contents + [value];
      Repr := Repr + {node};
    }

    /** `dequeue()`: the front value, removed; `None` when empty. The last removal also clears `rear`. */
    method Dequeue() returns (r: Option<T>)
      requires Valid()
      modifies Repr
      ensures Valid() && Repr == old(Repr)
      ensures old(Contents) == [] ==> r == None && Contents == []
      ensures old(Contents) != [] ==>
        r == Some(old(Contents)[0]) && Contents == old(Contents)[1..] && length == old(length) - 1
      ensures Contents == [] ==> front == null && rear == null
    {
      if front == null {
        return None;
      }
      var v := front.value;
      assert front.next == (if |nodes| > 1 then nodes[1] else null);
      front := front.next;
      if front == null {
        rear := null;
      }
      length := length - 1;
      nodes, Contents := nodes[1..], Contents[1..];
      return Some(v);
    }

    /** `peek()`: the front value; `None` when empty. */
    method Peek() returns (r: Option<T>)
      requires Valid()
      ensures r == None <==> Contents == []
      ensures r.Some? ==> r.value == Contents[0]
    {
      if front == null {
        return None;
      }
      return Some(front.value);
    }

    /** `size()`: the `length` field, which counts the nodes. */
    method Size() returns (n: int)
      requires Valid()
      ensures n == |Contents|
    {
      return length;
    }

    /** `isEmpty()`: decided by the `length` field. */
    method IsEmpty() returns (b: bool)
      requires Valid()
      ensures b <==> Contents == []
    {
      return length == 0;
    }
  }

  /** First in, first out for the linked queue. */
  method LinkedFifo<T>(q: QueueLL<T>, x: T, y: T) returns (first: Option<T>, second: Option<T>)
    requires q.Valid() && q.Contents == []
    modifies q.Repr
    ensures q.Valid() && first == Some(x) && second == Some(y) && q.Contents == []
  {
    q.Enqueue(x);
    q.Enqueue(y);
    first := q.Dequeue();
    second := q.Dequeue();
  }

  /** `x + 1` taken modulo `capacity`, for `x` already below `capacity`. */
  lemma NextSlot(x: int, capacity: int)
    requires 0 <= x < capacity
    ensures (x + 1) % capacity == if x + 1 < capacity then x + 1 else 0
  {
    if x + 1 == capacity {
      assert (x + 1) % capacity == 0;
    }
  }

  /** The slot `k` places after `front` in a buffer of `capacity` slots. */
  function Slot(front: int, k: int, capacity: int): int
    requires 0 <= front < capacity && 0 <= k < capacity
  {
    if front + k < capacity then front + k else front + k - capacity
  }

  /**
   * `CircularQueue`: a buffer of `capacity` slots; `front` and `rear` are the slots of the
   * oldest and newest values, both -1 when the queue is empty.
   */
  class CircularQueue<T> {
    var queue: array<Option<T>>
    var capacity: int
    var front: int
    var rear: int
    /** The queued values, oldest first. */
    ghost var Contents: seq<T>

    ghost predicate Valid()
      reads this, queue
    {
      capacity == queue.Length >= 1 &&
      (front == -1 <==> rear == -1) &&
      (front == -1 <==> Contents == []) &&
      |Contents| <= capacity &&
      (front != -1 ==>
        0 <= front < capacity && rear == Slot(front, |Contents| - 1, capacity) &&
        forall k :: 0 <= k < |Contents| ==> queue[Slot(front, k, capacity)] == Some(Contents[k]))
    }

    /** `new CircularQueue(capacity)`: empty slots (`undefined`), `front` and `rear` at -1. */
    constructor(capacity: int)
      requires capacity >= 1
      ensures Valid() && fresh(queue) && Contents == [] && this.capacity == capacity
    {
      queue := new Option<T>[capacity](_ => None);
      this.capacity := capacity;
      front, rear := -1, -1;
      Contents := [];
    }

    /** `isEmpty()`: `front == -1`. */
    method IsEmpty() returns (b: bool)
      requires Valid()
      ensures b <==> Contents == []
    {
      return front == -1;
    }

    /** `isFull()`: the slot after `rear` is `front`. */
    method IsFull() returns (b: bool)
      requires Valid()
      ensures b <==> |Contents| == capacity
    {
      if rear == -1 {
        NextSlot(0, capacity);
        assert (rear + 1) % capacity == 0;
        return false;
      }
      NextSlot(rear, capacity);
      b := (rear + 1) % capacity == front;
    }

    /**
     * `enqueue(value)`: on a full queue the source answers "Queue is full" (`full` here) and
     * changes nothing; otherwise `value` goes into the slot after `rear`.
     */
    method Enqueue(value: T) returns (full: bool)
      requires Valid()
      modifies this, queue
      ensures Valid() && queue == old(queue) && capacity == old(capacity)
      ensures full <==> |old(Contents)| == capacity
      ensures full ==> Contents == old(Contents) && front == old(front) && rear == old(rear)
      ensures !full ==> Contents == old(Contents) + [value]
    {
      full := IsFull();
      if full {
        return;
      }
      if front == -1 {
        front := 0;
      }
      NextSlot(if rear == -1 then 0 else rear, capacity);
      rear := (rear + 1) % capacity;
      queue[rear] := Some(value);
      Contents := Contents + [value];
    }

    /**
     * `dequeue()`: the value in slot `front`; the sole value also resets `front` and `rear`
     * to -1. On an empty queue the source answers "Queue is empty" (`None` here).
     */
    method Dequeue() returns (r: Option<T>)
      requires Valid()
      modifies this
      ensures Valid() && queue == old(queue) && capacity == old(capacity)
      ensures old(Contents) == [] ==> r == None && Contents == []
      ensures old(Contents) != [] ==> r == Some(old(Contents)[0]) && Contents == old(Contents)[1..]
      ensures |old(Contents)| == 1 ==> front == -1 && rear == -1
    {
      if front == -1 {
        return None;
      }
      assert queue[Slot(front, 0, capacity)] == Some(Contents[0]);
      r := queue[front];
      if front == rear {
        front, rear := -1, -1;
      } else {
        NextSlot(front, capacity);
        front := (front + 1) % capacity;
      }
      Contents := Contents[1..];
    }

    /** `peek()`: the value in slot `front`; `None` when empty. */
    method Peek() returns (r: Option<T>)
      requires Valid()
      ensures r == None <==> Contents == []
      ensures r.Some? ==> r.value == Contents[0]
    {
      if front == -1 {
        return None;
      }
      assert queue[Slot(front, 0, capacity)] == Some(Contents[0]);
      return queue[front];
    }
  }

  /**
   * Placing `value` into an ascending sequence after every value at most `value` and before
   * every greater one keeps it ascending and adds exactly `value`.
   */
  lemma InsertSorted(xs: seq<int>, i: int, value: int)
    requires Ascending(xs) && 0 <= i <= |xs|
    requires i > 0 ==> xs[i - 1] <= value
    requires forall j :: i <= j < |xs| ==> xs[j] > value
    ensures Ascending(xs[..i] + [value] + xs[i..])
    ensures multiset(xs[..i] + [value] + xs[i..]) == multiset(xs) + multiset{value}
  {
    var ys := xs[..i] + [value] + xs[i..];
    forall a, b | 0 <= a < b < |ys| ensures ys[a] <= ys[b] {
      InsertedAt(xs, i, value, a);
      InsertedAt(xs, i, value, b);
      if b < i {
        assert xs[a] <= xs[b];
      } else if b == i {
        assert xs[a] <= xs[i - 1];
      } else if a < i {
        assert xs[a] <= xs[b - 1];
      } else if a > i {
        assert xs[a - 1] <= xs[b - 1];
      }
    }
    InsertedBag(xs, i, value);
  }

  /** Where each value of `xs[..i] + [value] + xs[i..]` comes from. */
  lemma InsertedAt(xs: seq<int>, i: int, value: int, k: int)
    requires 0 <= i <= |xs| && 0 <= k <= |xs|
    ensures (xs[..i] + [value] + xs[i..])[k] == if k < i then xs[k] else if k == i then value else xs[k - 1]
  {
  }

  /** Inserting adds exactly the inserted value. */
  lemma InsertedBag(xs: seq<int>, i: int, value: int)
    requires 0 <= i <= |xs|
    ensures multiset(xs[..i] + [value] + xs[i..]) == multiset(xs) + multiset{value}
  {
    assert xs == xs[..i] + xs[i..];
  }

  /** `PriorityQueue`: an array kept sorted ascending, so the least value is at index 0. */
  class PriorityQueue {
    var data: seq<int>

    ghost predicate Valid()
      reads this
    {
      Ascending(data)
    }

    constructor()
      ensures Valid() && data == []
    {
      data := [];
    }

    /**
     * `enqueue(value)`: push, then sort ascending. On an already sorted array the sorted
     * result is the array with `value` inserted after every smaller value.
     */
    method Enqueue(value: int)
      requires Valid()
      modifies this
      ensures Valid() && multiset(data) == multiset(old(data)) + multiset{value}
    {
      var i := |data|;
      while i > 0 && data[i - 1] > value
        invariant 0 <= i <= |data|
        invariant forall j :: i <= j < |data| ==> data[j] > value
        decreases i
      {
        i := i - 1;
      }
      InsertSorted(data, i, value);
      data := data[..i] + [value] + data[i..];
    }

    /** `dequeue()`: the least value, removed (`shift`); `None` (`undefined`) when empty. */
    method Dequeue() returns (r: Option<int>)
      requires Valid()
      modifies this
      ensures Valid()
      ensures old(data) == [] ==> r == None && data == []
      ensures old(data) != [] ==>
        r == Some(old(data)[0]) && data == old(data)[1..] &&
        forall x :: x in old(data) ==> r.value <= x
    {
      if data == [] {
        return None;
      }
      r := Some(data[0]);
      data := data[1..];
    }

    /** `peek()`: the least value; `None` when empty. */
    method Peek() returns (r: Option<int>)
      requires Valid()
      ensures r == None <==> data == []
      ensures r.Some? ==> r.value in data && forall x :: x in data ==> r.value <= x
    {
      if data == [] {
        return None;
      }
      return Some(data[0]);
    }

    /** `isEmpty()`. */
    method IsEmpty() returns (b: bool)
      ensures b <==> data == []
    {
      return |data| == 0;
    }
  }

  /** `Deque`: a growable array used from both ends. */
  class Deque<T> {
    var items: seq<T>

    constructor()
      ensures items == []
    {
      items := [];
    }

    /** `addFront(value)`: `unshift`. */
    method AddFront(value: T)
      modifies this
      ensures items == [value] + old(items)
    {
      items := [value] + items;
    }

    /** `addBack(value)`: `push`. */
    method AddBack(value: T)
      modifies this
      ensures items == old(items) + [value]
    {
      items := items + [value];
    }

    /** `removeFront()`: `shift`; `None` (`undefined`) when empty. */
    method RemoveFront() returns (r: Option<T>)
      modifies this
      ensures old(items) == [] ==> r == None && items == []
      ensures old(items) != [] ==> r == Some(old(items)[0]) && items == old(items)[1..]
    {
      if items == [] {
        return None;
      }
      r := Some(items[0]);
      items := items[1..];
    }

    /** `removeBack()`: `pop`; `None` (`undefined`) when empty. */
    method RemoveBack() returns (r: Option<T>)
      modifies this
      ensures old(items) == [] ==> r == None && items == []
      ensures old(items) != [] ==> r == Some(old(items)[|old(items)| - 1]) && items == old(items)[..|old(items)| - 1]
    {
      if items == [] {
        return None;
      }
      r := Some(items[|items| - 1]);
      items := items[..|items| - 1];
    }

    /** `peekFront()`; `None` when empty. */
    method PeekFront() returns (r: Option<T>)
      ensures r == None <==> items == []
      ensures r.Some? ==> r.value == items[0]
    {
      if items == [] {
        return None;
      }
      return Some(items[0]);
    }

    /** `peekBack()`; `None` when empty. */
    method PeekBack() returns (r: Option<T>)
      ensures r == None <==> items == []
      ensures r.Some? ==> r.value == items[|items| - 1]
    {
      if items == [] {
        return None;
      }
      return Some(items[|items| - 1]);
    }
  }

  /** Values added at one end of a deque leave from the other in the same order. */
  method DequeBackToFront<T>(d: Deque<T>, x: T, y: T) returns (first: Option<T>, second: Option<T>)
    requires d.items == []
    modifies d
    ensures first == Some(x) && second == Some(y) && d.items == []
  {
    d.AddBack(x);
    d.AddBack(y);
    first := d.RemoveFront();
    second := d.RemoveFront();
  }
}
