/**
 * The stacks of the stack notes: an array-backed stack, a linked stack, a stack that
 * reports its minimum, and a queue built from two stacks.
 */
module NotesStacks {
  import opened Wrappers
  import opened Nodes

  /** `StackArray`: a growable array whose end is the top. */
  class StackArray<T> {
    var stack: seq<T>

    constructor()
      ensures stack == []
    {
      stack := [];
    }

    /** `push(value)`: `value` becomes the top. */
    method Push(value: T)
      modifies this
      ensures stack == old(stack) + [value]
    {
      stack := stack + [value];
    }

    /** `pop()`: the top, removed; `None` on an empty stack. */
    method Pop() returns (r: Option<T>)
      modifies this
      ensures old(stack) == [] ==> r == None && stack == []
      ensures old(stack) != [] ==> r == Some(old(stack)[|old(stack)| - 1]) && stack == old(stack)[..|old(stack)| - 1]
    {
      if stack == [] {
        return None;
      }
      r := Some(stack[|stack| - 1]);
      stack := stack[..|stack| - 1];
    }

    /** `peek()`: the most recently pushed value still on the stack; `None` on an empty stack. */
    method Peek() returns (r: Option<T>)
      ensures r == None <==> stack == []
      ensures r.Some? ==> r.value == stack[|stack| - 1]
    {
      if stack == [] {
        return None;
      }
      return Some(stack[|stack| - 1]);
    }

    /** `isEmpty()`. */
    method IsEmpty() returns (b: bool)
      ensures b <==> stack == []
    {
      return |stack| == 0;
    }

    /** `size()`. */
    method Size() returns (n: int)
      ensures n == |stack|
    {
      return |stack|;
    }
  }

  /** Last in, first out: a push followed by a pop returns the pushed value and restores the stack. */
  method ArrayPushThenPop<T>(s: StackArray<T>, x: T) returns (r: Option<T>)
    modifies s
    ensures r == Some(x) && s.stack == old(s.stack)
  {
    s.Push(x);
    r := s.Pop();
  }

  /** `StackLL`: a chain of nodes from `top`, with a `length` field. */
  class StackLL<T> {
    var top: Node?<T>
    var length: int
    /** The nodes from `top` down. */
    ghost var nodes: seq<Node<T>>
    /** The values from the top down. */
    ghost var Contents: seq<T>
    ghost var Repr: set<object>

    ghost predicate Valid()
      reads this, Repr
    {
      this in Repr && Objects(nodes) <= Repr &&
      Linked(nodes) && top == First(nodes) &&
      length == |nodes| && Holds(nodes, Contents)
    }

    constructor()
      ensures Valid() && fresh(Repr) && Contents == []
    {
      top, length := null, 0;
      nodes, Contents := [], [];
      Repr := {this};
    }

    /** `push(value)`: a new top node whose `next` is the old top. */
    method Push(value: T)
      requires Valid()
      modifies Repr
      ensures Valid() && fresh(Repr - old(Repr))
      ensures Contents == [value] + old(Contents) && length == old(length) + 1
    {
      var node := new Node(value);
      node.next := top;
      top := node;
      length := length + 1;
      nodes, Contents := [node] + nodes, [value] + Contents;
      Repr := Repr + {node};
    }

    /** `pop()`: the top value, removed; `None` on an empty stack. */
    method Pop() returns (r: Option<T>)
      requires Valid()
      modifies Repr
      ensures Valid() && Repr == old(Repr)
      ensures old(Contents) == [] ==> r == None && Contents == []
      ensures old(Contents) != [] ==>
        r == Some(old(Contents)[0]) && Contents == old(Contents)[1..] && length == old(length) - 1
    {
      if top == null {
        return None;
      }
      var removed := top.value;
      assert top.next == (if |nodes| > 1 then nodes[1] else null);
      top := top.next;
      length := length - 1;
      nodes, Contents := nodes[1..], Contents[1..];
      return Some(removed);
    }

    /** `peek()`: the top value; `None` on an empty stack. */
    method Peek() returns (r: Option<T>)
      requires Valid()
      ensures r == None <==> Contents == []
      ensures r.Some? ==> r.value == Contents[0]
    {
      if top == null {
        return None;
      }
      return Some(top.value);
    }

    /** `isEmpty()`: decided by the `length` field. */
    method IsEmpty() returns (b: bool)
      requires Valid()
      ensures b <==> Contents == []
    {
      return length == 0;
    }

    /** `size()`: the `length` field, which counts the nodes. */
    method Size() returns (n: int)
      requires Valid()
      ensures n == |Contents|
    {
      return length;
    }
  }

  /** Last in, first out for the linked stack. */
  method LinkedPushThenPop<T>(s: StackLL<T>, x: T) returns (r: Option<T>)
    requires s.Valid()
    modifies s.Repr
    ensures s.Valid() && r == Some(x) && s.Contents == old(s.Contents)
  {
    s.Push(x);
    r := s.Pop();
  }

  /**
   * The running minima a `MinStack` keeps for the values `s` pushed in order: a value is
   * recorded when it is at most the last recorded one.
   */
  ghost function Records(s: seq<int>): seq<int>
  {
    if s == [] then []
    else
      var r := Records(s[..|s| - 1]);
      if r == [] || s[|s| - 1] <= r[|r| - 1] then r + [s[|s| - 1]] else r
  }

  /** The last record of a non-empty stack is its minimum. */
  lemma {:induction false} RecordsLastIsMin(s: seq<int>)
    requires s != []
    ensures Records(s) != []
    ensures Records(s)[|Records(s)| - 1] in s
    ensures forall x :: x in s ==> Records(s)[|Records(s)| - 1] <= x
  {
    var p, last := s[..|s| - 1], s[|s| - 1];
    assert s == p + [last];
    if p != [] {
      RecordsLastIsMin(p);
      var r := Records(p);
      var m := r[|r| - 1];
      if last <= m {
        assert Records(s) == r + [last];
      } else {
        assert Records(s) == r;
        assert m in s;
      }
    }
  }

  /** `MinStack`: the values and, beside them, the running minima. */
  class MinStack {
    var stack: seq<int>
    var minStack: seq<int>

    ghost predicate Valid()
      reads this
    {
      minStack == Records(stack)
    }

    constructor()
      ensures Valid() && stack == []
    {
      stack, minStack := [], [];
    }

    /** `push(value)`: also recorded as a minimum when at most the current minimum. */
    method Push(value: int)
      requires Valid()
      modifies this
      ensures Valid() && stack == old(stack) + [value]
    {
      assert (stack + [value])[..|stack|] == stack;
      stack := stack + [value];
      if |minStack| == 0 || value <= minStack[|minStack| - 1] {
        minStack := minStack + [value];
      }
    }

    /**
     * `pop()`: the top value, removed, and dropped from the minima when it is the current
     * minimum; `None` (the source's `undefined`) on an empty stack, which then stays empty.
     */
    method Pop() returns (r: Option<int>)
      requires Valid()
      modifies this
      ensures Valid()
      ensures old(stack) == [] ==> r == None && stack == []
      ensures old(stack) != [] ==> r == Some(old(stack)[|old(stack)| - 1]) && stack == old(stack)[..|old(stack)| - 1]
    {
      if stack == [] {
        return None;
      }
      var removed := stack[|stack| - 1];
      stack := stack[..|stack| - 1];
      if removed == minStack[|minStack| - 1] {
        minStack := minStack[..|minStack| - 1];
      }
      return Some(removed);
    }

    /** `top()`: the top value; `None` on an empty stack. */
    method Top() returns (r: Option<int>)
      ensures r == None <==> stack == []
      ensures r.Some? ==> r.value == stack[|stack| - 1]
    {
      if stack == [] {
        return None;
      }
      return Some(stack[|stack| - 1]);
    }

    /** `getMin()`: the least value on the stack, read off the minima; `None` on an empty stack. */
    method GetMin() returns (r: Option<int>)
      requires Valid()
      ensures r == None <==> stack == []
      ensures r.Some? ==> r.value in stack && forall x :: x in stack ==> r.value <= x
    {
      if minStack == [] {
        if stack != [] {
          RecordsLastIsMin(stack);
        }
        return None;
      }
      RecordsLastIsMin(stack);
      return Some(minStack[|minStack| - 1]);
    }
  }

  /**
   * `QueueUsingStacks`: values enter on `s1`; `s2` holds the oldest values with the oldest on
   * top, refilled from `s1` only when it runs dry.
   */
  class QueueUsingStacks {
    var s1: seq<int>
    var s2: seq<int>

    /** The queued values, oldest first. */
    ghost function Contents(): seq<int>
      reads this
    {
      Reversed(s2) + s1
    }

    constructor()
      ensures Contents() == []
    {
      s1, s2 := [], [];
    }

    /** `enqueue(x)`: `x` joins the back of the queue. */
    method Enqueue(x: int)
      modifies this
      ensures Contents() == old(Contents()) + [x]
    {
      s1 := s1 + [x];
    }

    /**
     * `dequeue()`: removes the oldest value. The source returns `s2.pop() || null`, so a
     * removed `0` (a falsy number) comes back as `None`, like an empty queue.
     */
    method Dequeue() returns (r: Option<int>)
      modifies this
      ensures old(Contents()) == [] ==> r == None && Contents() == []
      ensures old(Contents()) != [] ==>
        Contents() == old(Contents())[1..] &&
        r == (if old(Contents())[0] == 0 then None else Some(old(Contents())[0]))
    {
      if |s2| == 0 {
        Refill();
      }
      if |s2| == 0 {
        return None;
      }
      var v := s2[|s2| - 1];
      ReversedSnoc(s2[..|s2| - 1], v);
      assert s2 == s2[..|s2| - 1] + [v];
      s2 := s2[..|s2| - 1];
      if v == 0 {
        return None;
      }
      return Some(v);
    }

    /** The loop of `dequeue` on an empty `s2`: pops every value of `s1` onto `s2`, the oldest last. */
    method Refill()
      requires s2 == []
      modifies this
      ensures s1 == [] && Reversed(s2) == old(s1)
    {
      ghost var all := s1;
      while |s1| > 0
        invariant s1 + Reversed(s2) == all
        decreases |s1|
      {
        ghost var last := s1[|s1| - 1];
        ReversedSnoc(s2, last);
        assert s1 == s1[..|s1| - 1] + [last];
        s2 := s2 + [s1[|s1| - 1]];
        s1 := s1[..|s1| - 1];
      }
      assert s1 == [];
    }
  }

  /** Pushing onto a stack puts the value in front of its reversal. */
  lemma ReversedSnoc<T>(s: seq<T>, x: T)
    ensures Reversed(s + [x]) == [x] + Reversed(s)
  {
  }
}
