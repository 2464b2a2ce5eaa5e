/**
 * The singly linked node shared by the lists, stacks and queues, and what it means for a
 * sequence of such nodes to form a null-terminated chain.
 */
module Nodes {

  /** `new Node(value)`: a value and a link to the next node, `null` at first. */
  class Node<T> {
    var value: T
    var next: Node?<T>

    constructor(value: T)
      ensures this.value == value && next == null
    {
      this.value := value;
      next := null;
    }
  }

  /** The objects of a sequence of nodes. */
  ghost function Objects<T>(ns: seq<Node<T>>): set<object>
  {
    set i | 0 <= i < |ns| :: ns[i]
  }

  /**
   * `ns` are distinct nodes, each linked to the next, the last one to `null`: following `next`
   * from `ns[0]` visits exactly `ns`, in order.
   */
  ghost predicate Linked<T>(ns: seq<Node<T>>)
    reads Objects(ns)
  {
    (forall i, j :: 0 <= i < j < |ns| ==> ns[i] != ns[j]) &&
    (forall i :: 0 <= i < |ns| - 1 ==> ns[i].next == ns[i + 1]) &&
    (|ns| > 0 ==> ns[|ns| - 1].next == null)
  }

  /** The first node, or `null` for no nodes. */
  function First<T>(ns: seq<Node<T>>): Node?<T>
  {
    if ns == [] then null else ns[0]
  }

  /** The last node, or `null` for no nodes. */
  function Last<T>(ns: seq<Node<T>>): Node?<T>
  {
    if ns == [] then null else ns[|ns| - 1]
  }

  /** The values held by `ns`, in order. */
  ghost function Values<T>(ns: seq<Node<T>>): (vs: seq<T>)
    reads Objects(ns)
    ensures |vs| == |ns| && forall i :: 0 <= i < |ns| ==> vs[i] == ns[i].value
  {
    if ns == [] then [] else [ns[0].value] + Values(ns[1..])
  }

  /** `s` back to front. */
  function Reversed<T>(s: seq<T>): (r: seq<T>)
    ensures |r| == |s| && forall i :: 0 <= i < |s| ==> r[i] == s[|s| - 1 - i]
  {
    if s == [] then [] else Reversed(s[1..]) + [s[0]]
  }

  /** The nodes `ns` hold the values `vs`, position by position. */
  ghost predicate Holds<T>(ns: seq<Node<T>>, vs: seq<T>)
    reads Objects(ns)
  {
    |ns| == |vs| && forall k :: 0 <= k < |ns| ==> ns[k].value == vs[k]
  }
}
