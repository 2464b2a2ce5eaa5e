/**
 * The linked lists of the study notes: a singly linked list that keeps only `head` and
 * `length`, a doubly linked list with `prev` links and a tail, and the two chain algorithms
 * `reverseList` and `mergeLists`, which work on bare node chains.
 */
module NotesLinkedList {
  import opened Wrappers
  import opened Nodes
  import opened Orders

  /** Turn every link of the chain `ns` around and return its new first node (`reverseList`). */
  method ReverseList<T>(head: Node?<T>, ghost ns: seq<Node<T>>) returns (r: Node?<T>)
    requires Linked(ns) && head == First(ns)
    modifies Objects(ns)
    ensures Linked(Reversed(ns)) && r == First(Reversed(ns))
    ensures forall i :: 0 <= i < |ns| ==> ns[i].value == old(ns[i].value)
  {
    ghost var n := |ns|;
    ghost var k := 0;
    var prev: Node?<T> := null;
    var curr := head;
    while curr != null
      invariant 0 <= k <= n
      invariant curr == (if k < n then ns[k] else null)
      invariant prev == (if k == 0 then null else ns[k - 1])
      invariant forall j :: 0 < j < k ==> ns[j].next == ns[j - 1]
      invariant 0 < k ==> ns[0].next == null
      invariant forall j :: k <= j < n - 1 ==> ns[j].next == ns[j + 1]
      invariant k < n ==> ns[n - 1].next == null
      invariant forall j :: 0 <= j < n ==> ns[j].value == old(ns[j].value)
      decreases n - k
    {
      var next := curr.next;
      curr.next := prev;
      prev := curr;
      curr := next;
      k := k + 1;
    }
    ghost var rs := Reversed(ns);
    assert forall i :: 0 <= i < |rs| - 1 ==> rs[i].next == rs[i + 1] by {
      forall i | 0 <= i < |rs| - 1 ensures rs[i].next == rs[i + 1] {
        assert rs[i] == ns[n - 1 - i] && rs[i + 1] == ns[n - 1 - i - 1];
      }
    }
    assert forall i, j :: 0 <= i < j < |rs| ==> rs[i] != rs[j] by {
      forall i, j | 0 <= i < j < |rs| ensures rs[i] != rs[j] {
        assert rs[i] == ns[n - 1 - i] && rs[j] == ns[n - 1 - j];
      }
    }
    r := prev;
  }

  /**
   * The value sequence `mergeLists` builds: the smaller front value goes first, and on a tie
   * the front of the second list goes first.
   */
  function Merge(a: seq<int>, b: seq<int>): seq<int>
    decreases |a| + |b|
  {
    if a == [] then b
    else if b == [] then a
    else if a[0] < b[0] then [a[0]] + Merge(a[1..], b)
    else [b[0]] + Merge(a, b[1..])
  }

  /** `Merge(a[i..], b[j..])`, stepping indices instead of slicing. */
  function MergeFrom(a: seq<int>, b: seq<int>, i: nat, j: nat): seq<int>
    requires i <= |a| && j <= |b|
    decreases |a| - i + |b| - j
  {
    if i == |a| then b[j..]
    else if j == |b| then a[i..]
    else if a[i] < b[j] then [a[i]] + MergeFrom(a, b, i + 1, j)
    else [b[j]] + MergeFrom(a, b, i, j + 1)
  }

  lemma {:induction false} MergeFromIsMerge(a: seq<int>, b: seq<int>, i: nat, j: nat)
    requires i <= |a| && j <= |b|
    ensures MergeFrom(a, b, i, j) == Merge(a[i..], b[j..])
    decreases |a| - i + |b| - j
  {
    if i == |a| || j == |b| {
    } else if a[i] < b[j] {
      MergeFromIsMerge(a, b, i + 1, j);
      assert a[i..][1..] == a[i + 1..];
    } else {
      MergeFromIsMerge(a, b, i, j + 1);
      assert b[j..][1..] == b[j + 1..];
    }
  }

  /** Merging keeps every value of both inputs, as often as it occurs. */
  lemma {:induction false} MergePermutes(a: seq<int>, b: seq<int>)
    ensures multiset(Merge(a, b)) == multiset(a) + multiset(b)
    decreases |a| + |b|
  {
    if a == [] {
    } else if b == [] {
    } else if a[0] < b[0] {
      MergePermutes(a[1..], b);
      assert a == [a[0]] + a[1..];
    } else {
      MergePermutes(a, b[1..]);
      assert b == [b[0]] + b[1..];
    }
  }

  /** Merging two ascending sequences gives an ascending sequence. */
  lemma {:induction false} MergeAscending(a: seq<int>, b: seq<int>)
    requires Ascending(a) && Ascending(b)
    ensures Ascending(Merge(a, b))
    decreases |a| + |b|
  {
    if a == [] || b == [] {
    } else if a[0] < b[0] {
      MergeAscending(a[1..], b);
      AscendingCons(a[0], Merge(a[1..], b), a[1..], b);
    } else {
      MergeAscending(a, b[1..]);
      AscendingCons(b[0], Merge(a, b[1..]), a, b[1..]);
    }
  }

  /** Putting a value no larger than every input value in front of their merge keeps it ascending. */
  lemma AscendingCons(x: int, m: seq<int>, a: seq<int>, b: seq<int>)
    requires Ascending(m) && m == Merge(a, b)
    requires forall i :: 0 <= i < |a| ==> x <= a[i]
    requires forall i :: 0 <= i < |b| ==> x <= b[i]
    ensures Ascending([x] + m)
  {
    MergePermutes(a, b);
    forall j | 0 <= j < |m| ensures x <= m[j] {
      assert m[j] in multiset(m);
      assert m[j] in multiset(a) || m[j] in multiset(b);
    }
  }

  /**
   * The node identities in `mergeLists` between steps: `out`, the chain built so far behind the
   * scratch node `dummy`, shares no node with the untaken parts `xs[i..]` and `ys[j..]`.
   */
  ghost predicate Separate<T>(dummy: Node<T>, out: seq<Node<T>>, xs: seq<Node<T>>, i: int, ys: seq<Node<T>>, j: int)
  {
    0 <= i <= |xs| && 0 <= j <= |ys| &&
    (forall p, q :: 0 <= p < q < |xs| ==> xs[p] != xs[q]) &&
    (forall p, q :: 0 <= p < q < |ys| ==> ys[p] != ys[q]) &&
    (forall p, q :: 0 <= p < |xs| && 0 <= q < |ys| ==> xs[p] != ys[q]) &&
    (forall p :: 0 <= p < |xs| ==> xs[p] != dummy) &&
    (forall p :: 0 <= p < |ys| ==> ys[p] != dummy) &&
    (forall k :: 0 <= k < |out| ==> out[k] != dummy) &&
    (forall k, p :: 0 <= k < |out| && i <= p < |xs| ==> out[k] != xs[p]) &&
    (forall k, p :: 0 <= k < |out| && j <= p < |ys| ==> out[k] != ys[p]) &&
    (forall p, q :: 0 <= p < q < |out| ==> out[p] != out[q])
  }

  /**
   * The links in `mergeLists` between steps: `out` is a chain behind `dummy` ending at `curr`,
   * and the untaken parts `xs[i..]` and `ys[j..]` are still chains.
   */
  ghost predicate ChainState<T>(dummy: Node<T>, curr: Node<T>, out: seq<Node<T>>,
                                xs: seq<Node<T>>, i: int, ys: seq<Node<T>>, j: int)
    reads dummy, Objects(out), Objects(xs), Objects(ys)
  {
    Separate(dummy, out, xs, i, ys, j) &&
    (forall k :: 0 <= k < |out| - 1 ==> out[k].next == out[k + 1]) &&
    (forall k :: i <= k < |xs| - 1 ==> xs[k].next == xs[k + 1]) &&
    (i < |xs| ==> xs[|xs| - 1].next == null) &&
    (forall k :: j <= k < |ys| - 1 ==> ys[k].next == ys[k + 1]) &&
    (j < |ys| ==> ys[|ys| - 1].next == null) &&
    curr == (if out == [] then dummy else out[|out| - 1]) &&
    (out != [] ==> dummy.next == out[0])
  }

  /** The chain state does not depend on which list is named first. */
  lemma ChainStateSwap<T>(dummy: Node<T>, curr: Node<T>, out: seq<Node<T>>,
                          xs: seq<Node<T>>, i: int, ys: seq<Node<T>>, j: int)
    requires ChainState(dummy, curr, out, xs, i, ys, j)
    ensures ChainState(dummy, curr, out, ys, j, xs, i)
  {
  }

  /** One step of `mergeLists`: link the front `xs[i]` of the untaken part of `xs` behind `curr`. */
  method Attach<T>(curr: Node<T>, node: Node<T>, ghost dummy: Node<T>, ghost out: seq<Node<T>>,
                   ghost xs: seq<Node<T>>, ghost i: int, ghost ys: seq<Node<T>>, ghost j: int,
                   ghost u: seq<T>, ghost vs: seq<T>, ghost ws: seq<T>)
    requires ChainState(dummy, curr, out, xs, i, ys, j) && i < |xs| && node == xs[i]
    requires Holds(out, u) && Holds(xs, vs) && Holds(ys, ws)
    modifies curr
    ensures curr.next == xs[i]
    ensures xs[i].next == (if i + 1 < |xs| then xs[i + 1] else null)
    ensures ChainState(dummy, xs[i], out + [xs[i]], xs, i + 1, ys, j)
    ensures Holds(out + [xs[i]], u + [vs[i]]) && Holds(xs, vs) && Holds(ys, ws)
  {
    curr.next := node;
  }

  /**
   * The last step of `mergeLists`: `ys` is used up, so the rest of `xs` follows `curr`; the
   * values of the finished chain are those of `out` followed by the rest of `vs`.
   */
  method AttachRest<T>(curr: Node<T>, node: Node?<T>, ghost dummy: Node<T>, ghost out: seq<Node<T>>,
                       ghost xs: seq<Node<T>>, ghost i: int, ghost ys: seq<Node<T>>, ghost j: int,
                       ghost u: seq<T>, ghost vs: seq<T>)
    requires ChainState(dummy, curr, out, xs, i, ys, j) && node == First(xs[i..])
    requires Holds(out, u) && Holds(xs, vs)
    modifies curr
    ensures Linked(out + xs[i..]) && dummy.next == First(out + xs[i..]) && Holds(out + xs[i..], u + vs[i..])
  {
    curr.next := node;
    LinkedSuffix(xs, i);
    LinkedJoin(out, xs[i..], out + xs[i..]);
    ValuesSuffix(xs, vs, i);
    ValuesJoin(out, xs[i..], out + xs[i..], u, vs[i..], u + vs[i..]);
  }

  /** What holds between the steps of `mergeLists`. */
  ghost predicate MergeInv(dummy: Node<int>, curr: Node<int>, x: Node?<int>, y: Node?<int>,
                           ns1: seq<Node<int>>, ns2: seq<Node<int>>, a: seq<int>, b: seq<int>,
                           i: int, j: int, out: seq<Node<int>>, taken: seq<int>)
    reads dummy, Objects(out), Objects(ns1), Objects(ns2)
  {
    ChainState(dummy, curr, out, ns1, i, ns2, j) &&
    (curr == dummy || curr in Objects(ns1) + Objects(ns2)) &&
    x == (if i < |ns1| then ns1[i] else null) &&
    y == (if j < |ns2| then ns2[j] else null) &&
    Holds(out, taken) && Holds(ns1, a) && Holds(ns2, b) &&
    taken + MergeFrom(a, b, i, j) == MergeFrom(a, b, 0, 0)
  }

  /** One iteration of the `mergeLists` loop: move the node with the smaller front value over. */
  method MergeStep(dummy: Node<int>, curr: Node<int>, x: Node<int>, y: Node<int>,
                   ghost ns1: seq<Node<int>>, ghost ns2: seq<Node<int>>, ghost a: seq<int>, ghost b: seq<int>,
                   ghost i: int, ghost j: int, ghost out: seq<Node<int>>, ghost taken: seq<int>)
    returns (curr': Node<int>, x': Node?<int>, y': Node?<int>,
             ghost i': int, ghost j': int, ghost out': seq<Node<int>>, ghost taken': seq<int>)
    requires MergeInv(dummy, curr, x, y, ns1, ns2, a, b, i, j, out, taken)
    modifies curr
    ensures MergeInv(dummy, curr', x', y', ns1, ns2, a, b, i', j', out', taken')
    ensures i' + j' == i + j + 1
  {
    if x.value < y.value {
      curr', x' := TakeFirst(dummy, curr, x, y, ns1, ns2, a, b, i, j, out, taken);
      y', i', j', out', taken' := y, i + 1, j, out + [ns1[i]], taken + [a[i]];
    } else {
      curr', y' := TakeSecond(dummy, curr, x, y, ns1, ns2, a, b, i, j, out, taken);
      x', i', j', out', taken' := x, i, j + 1, out + [ns2[j]], taken + [b[j]];
    }
  }

  /** The `l1.value < l2.value` branch: `l1` moves over. */
  method TakeFirst(dummy: Node<int>, curr: Node<int>, x: Node<int>, y: Node<int>,
                   ghost ns1: seq<Node<int>>, ghost ns2: seq<Node<int>>, ghost a: seq<int>, ghost b: seq<int>,
                   ghost i: int, ghost j: int, ghost out: seq<Node<int>>, ghost taken: seq<int>)
    returns (curr': Node<int>, x': Node?<int>)
    requires MergeInv(dummy, curr, x, y, ns1, ns2, a, b, i, j, out, taken) && x.value < y.value
    modifies curr
    ensures MergeInv(dummy, curr', x', y, ns1, ns2, a, b, i + 1, j, out + [ns1[i]], taken + [a[i]])
  {
    assert (taken + [a[i]]) + MergeFrom(a, b, i + 1, j) == taken + MergeFrom(a, b, i, j);
    Attach(curr, x, dummy, out, ns1, i, ns2, j, taken, a, b);
    curr', x' := curr.next, x.next;
  }

  /** The other branch: `l2` moves over. */
  method TakeSecond(dummy: Node<int>, curr: Node<int>, x: Node<int>, y: Node<int>,
                    ghost ns1: seq<Node<int>>, ghost ns2: seq<Node<int>>, ghost a: seq<int>, ghost b: seq<int>,
                    ghost i: int, ghost j: int, ghost out: seq<Node<int>>, ghost taken: seq<int>)
    returns (curr': Node<int>, y': Node?<int>)
    requires MergeInv(dummy, curr, x, y, ns1, ns2, a, b, i, j, out, taken) && !(x.value < y.value)
    modifies curr
    ensures MergeInv(dummy, curr', x, y', ns1, ns2, a, b, i, j + 1, out + [ns2[j]], taken + [b[j]])
  {
    assert (taken + [b[j]]) + MergeFrom(a, b, i, j + 1) == taken + MergeFrom(a, b, i, j);
    ChainStateSwap(dummy, curr, out, ns1, i, ns2, j);
    Attach(curr, y, dummy, out, ns2, j, ns1, i, taken, b, a);
    ChainStateSwap(dummy, ns2[j], out + [ns2[j]], ns2, j + 1, ns1, i);
    curr', y' := curr.next, y.next;
  }

  /** After the `mergeLists` loop: the list not yet used up follows `curr` (`curr.next = l1 || l2`). */
  method MergeFinish(dummy: Node<int>, curr: Node<int>, x: Node?<int>, y: Node?<int>,
                     ghost ns1: seq<Node<int>>, ghost ns2: seq<Node<int>>, ghost a: seq<int>, ghost b: seq<int>,
                     ghost i: int, ghost j: int, ghost out: seq<Node<int>>, ghost taken: seq<int>)
    returns (ghost ns: seq<Node<int>>)
    requires MergeInv(dummy, curr, x, y, ns1, ns2, a, b, i, j, out, taken) && (x == null || y == null)
    modifies curr
    ensures Linked(ns) && dummy.next == First(ns) && Holds(ns, Merge(a, b))
  {
    if x != null {
      assert a[i..] == MergeFrom(a, b, i, j);
      AttachRest(curr, x, dummy, out, ns1, i, ns2, j, taken, a);
      ns := out + ns1[i..];
    } else {
      assert b[j..] == MergeFrom(a, b, i, j);
      ChainStateSwap(dummy, curr, out, ns1, i, ns2, j);
      AttachRest(curr, y, dummy, out, ns2, j, ns1, i, taken, b);
      ns := out + ns2[j..];
    }
    MergeFromIsMerge(a, b, 0, 0);
    assert a[0..] == a && b[0..] == b;
  }

  /**
   * `mergeLists(l1, l2)`: relink the nodes of two disjoint chains into one, taking the smaller
   * front value each time behind a scratch head node, and return the first node.
   */
  method MergeLists(l1: Node?<int>, l2: Node?<int>,
                    ghost ns1: seq<Node<int>>, ghost ns2: seq<Node<int>>, ghost a: seq<int>, ghost b: seq<int>)
    returns (r: Node?<int>, ghost ns: seq<Node<int>>)
    requires Linked(ns1) && l1 == First(ns1) && Holds(ns1, a)
    requires Linked(ns2) && l2 == First(ns2) && Holds(ns2, b)
    requires forall p, q :: 0 <= p < |ns1| && 0 <= q < |ns2| ==> ns1[p] != ns2[q]
    modifies Objects(ns1) + Objects(ns2)
    ensures Linked(ns) && r == First(ns) && Holds(ns, Merge(a, b))
  {
    var dummy := new Node(0);
    var curr: Node<int> := dummy;
    var x, y := l1, l2;
    ghost var i, j := 0, 0;
    ghost var out: seq<Node<int>> := [];
    ghost var taken: seq<int> := [];
    while x != null && y != null
      invariant MergeInv(dummy, curr, x, y, ns1, ns2, a, b, i, j, out, taken)
      decreases |ns1| + |ns2| - i - j
    {
      curr, x, y, i, j, out, taken := MergeStep(dummy, curr, x, y, ns1, ns2, a, b, i, j, out, taken);
    }
    ns := MergeFinish(dummy, curr, x, y, ns1, ns2, a, b, i, j, out, taken);
    r := dummy.next;
  }

  /** Links `node` in behind `prev`, the node at position `index - 1` of the chain `ns`. */
  method Splice<T>(prev: Node<T>, node: Node<T>, ghost ns: seq<Node<T>>, index: int, ghost vs: seq<T>)
    requires Linked(ns) && Holds(ns, vs) && 0 < index <= |ns| && prev == ns[index - 1]
    requires node !in Objects(ns)
    modifies prev, node
    ensures Linked(ns[..index] + [node] + ns[index..])
    ensures Holds(ns[..index] + [node] + ns[index..], vs[..index] + [node.value] + vs[index..])
    ensures node.value == old(node.value)
  {
    assert prev.next == (if index < |ns| then ns[index] else null);
    ghost var ms: seq<Node<T>> := ns[..index] + [node] + ns[index..];
    ghost var ws := vs[..index] + [node.value] + vs[index..];
    node.next := prev.next;
    prev.next := node;
    forall k | 0 <= k < |ms| - 1 ensures ms[k].next == ms[k + 1] {
      if k < index - 1 {
        assert ms[k] == ns[k] && ms[k + 1] == ns[k + 1];
      } else if k > index {
        assert ms[k] == ns[k - 1] && ms[k + 1] == ns[k];
      }
    }
    forall p, q | 0 <= p < q < |ms| ensures ms[p] != ms[q] {
      if q < index || p > index {
        assert ms[p] == ns[if p < index then p else p - 1] && ms[q] == ns[if q < index then q else q - 1];
      }
    }
    forall k | 0 <= k < |ms| ensures ms[k].value == ws[k] {
      if k < index {
        assert ms[k] == ns[k] && ws[k] == vs[k];
      } else if k > index {
        assert ms[k] == ns[k - 1] && ws[k] == vs[k - 1];
      }
    }
  }

  /** The part of a chain from position `i` on is a chain, whatever links lead into it. */
  lemma LinkedSuffix<T>(ns: seq<Node<T>>, i: nat)
    requires i <= |ns|
    requires forall p, q :: 0 <= p < q < |ns| ==> ns[p] != ns[q]
    requires forall k :: i <= k < |ns| - 1 ==> ns[k].next == ns[k + 1]
    requires i < |ns| ==> ns[|ns| - 1].next == null
    ensures Linked(ns[i..])
  {
  }

  /** The values of a suffix of nodes are the suffix of their values. */
  lemma ValuesSuffix<T>(ns: seq<Node<T>>, vs: seq<T>, i: nat)
    requires i <= |ns| == |vs| && forall k :: 0 <= k < |ns| ==> ns[k].value == vs[k]
    ensures |ns[i..]| == |vs[i..]| && forall k :: 0 <= k < |ns[i..]| ==> ns[i..][k].value == vs[i..][k]
  {
  }

  /** Values of two joined node sequences, from the values of each part. */
  lemma ValuesJoin<T>(xs: seq<Node<T>>, ys: seq<Node<T>>, zs: seq<Node<T>>, u: seq<T>, v: seq<T>, m: seq<T>)
    requires zs == xs + ys && m == u + v && |xs| == |u| && |ys| == |v|
    requires forall k :: 0 <= k < |xs| ==> xs[k].value == u[k]
    requires forall k :: 0 <= k < |ys| ==> ys[k].value == v[k]
    ensures |zs| == |m| && forall k :: 0 <= k < |zs| ==> zs[k].value == m[k]
  {
    forall k | 0 <= k < |zs| ensures zs[k].value == m[k] {
      if k < |xs| {
        assert zs[k] == xs[k] && m[k] == u[k];
      } else {
        assert zs[k] == ys[k - |xs|] && m[k] == v[k - |xs|];
      }
    }
  }

  /** A chain whose last node links to the start of a second, disjoint chain forms one chain. */
  lemma LinkedJoin<T>(xs: seq<Node<T>>, ys: seq<Node<T>>, zs: seq<Node<T>>)
    requires zs == xs + ys
    requires forall p, q :: 0 <= p < q < |xs| ==> xs[p] != xs[q]
    requires forall k :: 0 <= k < |xs| - 1 ==> xs[k].next == xs[k + 1]
    requires xs != [] ==> xs[|xs| - 1].next == First(ys)
    requires Linked(ys)
    requires forall k, p :: 0 <= k < |xs| && 0 <= p < |ys| ==> xs[k] != ys[p]
    ensures Linked(zs)
  {
    forall k | 0 <= k < |zs| - 1 ensures zs[k].next == zs[k + 1] {
      if k < |xs| - 1 {
        assert zs[k] == xs[k] && zs[k + 1] == xs[k + 1];
      } else if k >= |xs| {
        assert zs[k] == ys[k - |xs|] && zs[k + 1] == ys[k + 1 - |xs|];
      }
    }
    forall p, q | 0 <= p < q < |zs| ensures zs[p] != zs[q] {
      if q < |xs| {
        assert zs[p] == xs[p] && zs[q] == xs[q];
      } else if p >= |xs| {
        assert zs[p] == ys[p - |xs|] && zs[q] == ys[q - |xs|];
      } else {
        assert zs[p] == xs[p] && zs[q] == ys[q - |xs|];
      }
    }
  }

  /** The singly linked list of the notes: only `head` and `length`, no tail reference. */
  class LinkedList<T(==)> {
    var head: Node?<T>
    var length: int
    /** The nodes of the chain from `head`, in order. */
    ghost var nodes: seq<Node<T>>
    /** The values of the chain, in order. */
    ghost var Contents: seq<T>
    ghost var Repr: set<object>

    ghost predicate Valid()
      reads this, Repr
    {
      this in Repr && Objects(nodes) <= Repr &&
      Linked(nodes) && head == First(nodes) &&
      length == |nodes| && Holds(nodes, Contents)
    }

    /** `new LinkedList()`: no nodes. */
    constructor()
      ensures Valid() && fresh(Repr) && Contents == []
    {
      head, length := null, 0;
      nodes, Contents := [], [];
      Repr := {this};
    }

    /** `prepend(value)`: a new first node. */
    method Prepend(value: T)
      requires Valid()
      modifies Repr
      ensures Valid() && fresh(Repr - old(Repr))
      ensures Contents == [value] + old(Contents) && length == old(length) + 1
      ensures nodes == [head] + old(nodes) && fresh(head)
    {
      var node := new Node(value);
      node.next := head;
      head := node;
      length := length + 1;
      nodes, Contents := [node] + nodes, [value] + Contents;
      Repr := Repr + {node};
    }

    /** `append(value)`: walk to the last node and link a new node behind it. */
    method Append(value: T)
      requires Valid()
      modifies Repr
      ensures Valid() && fresh(Repr - old(Repr))
      ensures Contents == old(Contents) + [value] && length == old(length) + 1
      ensures nodes[..old(length)] == old(nodes) && fresh(nodes[old(length)])
    {
      var node := new Node(value);
      if head == null {
        head := node;
      } else {
        var curr := head;
        ghost var k := 0;
        while curr.next != null
          invariant 0 <= k < |nodes| && curr == nodes[k]
          invariant k < |nodes| - 1 ==> curr.next == nodes[k + 1]
          decreases |nodes| - k
        {
          curr := curr.next;
          k := k + 1;
        }
        curr.next := node;
      }
      length := length + 1;
      nodes, Contents := nodes + [node], Contents + [value];
      Repr := Repr + {node};
    }

    /** `insertAt(index, value)`: nothing happens outside `[0, length]`. */
    method InsertAt(index: int, value: T)
      requires Valid()
      modifies Repr
      ensures Valid() && fresh(Repr - old(Repr))
      ensures 0 <= index <= old(length) ==>
        Contents == old(Contents)[..index] + [value] + old(Contents)[index..] && length == old(length) + 1
      ensures !(0 <= index <= old(length)) ==> Contents == old(Contents) && nodes == old(nodes)
    {
      if index < 0 || index > length {
        return;
      }
      if index == 0 {
        Prepend(value);
        return;
      }
      InsertAfter(index, value);
    }

    /** The general case of `insertAt`: walk to position `index - 1` and link a new node behind it. */
    method InsertAfter(index: int, value: T)
      requires Valid() && 0 < index <= length
      modifies Repr
      ensures Valid() && fresh(Repr - old(Repr))
      ensures Contents == old(Contents)[..index] + [value] + old(Contents)[index..] && length == old(length) + 1
    {
      var node := new Node(value);
      var prev := head;
      for i := 0 to index - 1
        invariant prev == nodes[i]
      {
        prev := prev.next;
      }
      Splice(prev, node, nodes, index, Contents);
      length := length + 1;
      nodes := nodes[..index] + [node] + nodes[index..];
      Contents := Contents[..index] + [value] + Contents[index..];
      Repr := Repr + {node};
    }

    /** `removeHead()`: the first value, dropped from the list; `None` when the list is empty. */
    method RemoveHead() returns (r: Option<T>)
      requires Valid()
      modifies Repr
      ensures Valid() && Repr == old(Repr)
      ensures old(Contents) == [] ==> r == None && Contents == []
      ensures old(Contents) != [] ==>
        r == Some(old(Contents)[0]) && Contents == old(Contents)[1..] && length == old(length) - 1
    {
      if head == null {
        return None;
      }
      var removed := head.value;
      head := head.next;
      length := length - 1;
      nodes, Contents := nodes[1..], Contents[1..];
      return Some(removed);
    }

    /** `removeTail()`: the last value, dropped from the list; `None` when the list is empty. */
    method RemoveTail() returns (r: Option<T>)
      requires Valid()
      modifies Repr
      ensures Valid() && Repr == old(Repr)
      ensures old(Contents) == [] ==> r == None && Contents == []
      ensures old(Contents) != [] ==>
        r == Some(old(Contents)[|old(Contents)| - 1]) && Contents == old(Contents)[..|old(Contents)| - 1] &&
        length == old(length) - 1
    {
      if head == null {
        return None;
      }
      assert head.next == (if |nodes| > 1 then nodes[1] else null);
      if head.next == null {
        var v := head.value;
        head := null;
        length := length - 1;
        nodes, Contents := [], [];
        return Some(v);
      }
      var prev := head;
      var curr := head.next;
      ghost var k := 1;
      while curr.next != null
        invariant 1 <= k < |nodes| && curr == nodes[k] && prev == nodes[k - 1]
        invariant k < |nodes| - 1 ==> curr.next == nodes[k + 1]
        decreases |nodes| - k
      {
        prev := curr;
        curr := curr.next;
        k := k + 1;
      }
      prev.next := null;
      length := length - 1;
      ghost var rest := nodes[..|nodes| - 1];
      assert forall i :: 0 <= i < |rest| - 1 ==> rest[i].next == rest[i + 1];
      nodes, Contents := rest, Contents[..|Contents| - 1];
      return Some(curr.value);
    }

    /** `removeAt(index)`: the value at `index`, dropped from the list; `None` out of range. */
    method RemoveAt(index: int) returns (r: Option<T>)
      requires Valid()
      modifies Repr
      ensures Valid() && Repr == old(Repr)
      ensures !(0 <= index < old(length)) ==> r == None && Contents == old(Contents)
      ensures 0 <= index < old(length) ==>
        r == Some(old(Contents)[index]) && Contents == old(Contents)[..index] + old(Contents)[index + 1..] &&
        length == old(length) - 1
    {
      if index < 0 || index >= length {
        return None;
      }
      if index == 0 {
        r := RemoveHead();
        return;
      }
      var prev := head;
      for i := 0 to index - 1
        invariant prev == nodes[i]
      {
        prev := prev.next;
      }
      var removed := prev.next;
      assert removed == nodes[index];
      assert removed.next == (if index + 1 < |nodes| then nodes[index + 1] else null);
      ghost var ns := nodes[..index] + nodes[index + 1..];
      prev.next := removed.next;
      length := length - 1;
      assert forall i :: 0 <= i < |ns| - 1 ==> ns[i].next == ns[i + 1] by {
        forall i | 0 <= i < |ns| - 1 ensures ns[i].next == ns[i + 1] {
          if i < index - 1 {
            assert ns[i] == nodes[i] && ns[i + 1] == nodes[i + 1];
          } else if i >= index {
            assert ns[i] == nodes[i + 1] && ns[i + 1] == nodes[i + 2];
          }
        }
      }
      nodes := ns;
      Contents := Contents[..index] + Contents[index + 1..];
      return Some(removed.value);
    }

    /** `find(value)`: the first node holding `value`, or `null` when no node does. */
    method Find(value: T) returns (r: Node?<T>)
      requires Valid()
      ensures r == null <==> value !in Contents
      ensures r != null ==> exists i :: 0 <= i < |nodes| && r == nodes[i] && Contents[i] == value && value !in Contents[..i]
    {
      var curr := head;
      ghost var k := 0;
      while curr != null
        invariant 0 <= k <= |nodes| && curr == (if k < |nodes| then nodes[k] else null)
        invariant value !in Contents[..k]
        decreases |nodes| - k
      {
        if curr.value == value {
          return curr;
        }
        assert Contents[..k + 1] == Contents[..k] + [Contents[k]];
        curr := curr.next;
        k := k + 1;
      }
      assert Contents[..k] == Contents;
      return null;
    }

    /** `get(index)`: the node at `index`, counting from 0 at the head, or `null` out of range. */
    method Get(index: int) returns (r: Node?<T>)
      requires Valid()
      ensures 0 <= index < length ==> r == nodes[index] && r.value == Contents[index]
      ensures !(0 <= index < length) ==> r == null
    {
      if index < 0 || index >= length {
        return null;
      }
      var curr := head;
      for i := 0 to index
        invariant curr == nodes[i]
      {
        curr := curr.next;
      }
      return curr;
    }

    /** `reverse()`: turn every link around; the old last node becomes the head. */
    method Reverse()
      requires Valid()
      modifies Repr
      ensures Valid() && Repr == old(Repr) && length == old(length)
      ensures Contents == Reversed(old(Contents)) && nodes == Reversed(old(nodes))
    {
      head := ReverseList(head, nodes);
      nodes, Contents := Reversed(nodes), Reversed(Contents);
    }
  }
}
