/**
 * The binary search tree of the course exercises: the constructor leaves the tree empty,
 * `insert` refuses a value the tree already holds (so values stay distinct: smaller to the
 * left, greater to the right) and `contains` walks down comparing values. The exercises'
 * `Node` class is `TreeShapes.TreeNode`.
 */
module CourseBST {
  import opened TreeShapes

  class BST {
    var root: TreeNode?
    /** The tree below `root`. */
    ghost var shape: Shape
    ghost var Repr: set<object>

    ghost predicate Valid()
      reads this, Repr
    {
      this in Repr && Objs(shape) <= Repr && this !in Objs(shape) &&
      Wf(shape) && Linked(shape, root) && Ordered(shape, true)
    }

    /** `new BST()`: no root. */
    constructor()
      ensures Valid() && fresh(Repr) && root == null && Values(shape) == multiset{}
    {
      root := null;
      shape := Nil;
      Repr := {this};
    }

    /**
     * `insert(value)`: returns the tree (`inserted`) after hanging a fresh node where `Grow`
     * puts it, or `undefined` (not `inserted`) without any change when `value` is already
     * there.
     */
    method Insert(value: int) returns (inserted: bool, ghost node: TreeNode)
      requires Valid()
      modifies Repr
      ensures Valid() && fresh(node) && Repr == old(Repr) + {node}
      ensures inserted <==> value !in Values(old(shape))
      ensures shape == Grow(old(shape), value, node, true)
      ensures inserted ==> Values(shape) == Values(old(shape)) + multiset{value}
      ensures !inserted ==> shape == old(shape) && root == old(root)
      ensures Keys(shape) == Keys(old(shape)) + {value}
    {
      var newNode := new TreeNode(value);
      node := newNode;
      ghost var grown := Grow(shape, value, node, true);
      GrownDistinct(shape, value, node);
      var r;
      r, inserted := Place(root, newNode, value, shape);
      Adopt(r, grown, node);
    }

    /** Makes `r`, linked as `s`, the root of the tree. */
    method Adopt(r: TreeNode, ghost s: Shape, ghost node: TreeNode)
      requires Wf(s) && Linked(s, r) && Ordered(s, true)
      requires this !in Objs(s) && Objs(s) <= Repr + {node} && this in Repr
      modifies this
      ensures root == r && shape == s && Repr == old(Repr) + {node} && Valid()
    {
      root, shape, Repr := r, s, Repr + {node};
    }

    /** `contains(value)`: true exactly when the tree holds `value`. */
    method Contains(value: int) returns (found: bool)
      requires Valid()
      ensures found <==> value in Values(shape)
    {
      var temp := root;
      if temp == null {
        return false;
      }
      ghost var sub := shape;
      while true
        invariant Linked(sub, temp) && Ordered(sub, true) && Objs(sub) <= Repr
        invariant value in Values(shape) <==> value in Values(sub)
        decreases sub
      {
        if temp == null {
          return false;
        } else if temp.value == value {
          return true;
        } else if value < temp.value {
          Descend(sub, value, true);
          temp, sub := temp.left, sub.left;
        } else if value > temp.value {
          Descend(sub, value, true);
          temp, sub := temp.right, sub.right;
        }
      }
    }
  }

  /** The values of a tree, each once. */
  ghost function Keys(s: Shape): set<int>
  {
    set y | y in Values(s)
  }

  /** What growing a tree of distinct values by a fresh node keeps and adds. */
  lemma GrownDistinct(s: Shape, x: int, n: TreeNode)
    requires Wf(s) && Ordered(s, true) && n !in Objs(s)
    ensures Wf(Grow(s, x, n, true)) && Ordered(Grow(s, x, n, true), true)
    ensures Objs(Grow(s, x, n, true)) <= Objs(s) + {n}
    ensures x in Values(s) ==> Grow(s, x, n, true) == s
    ensures x !in Values(s) ==> Values(Grow(s, x, n, true)) == Values(s) + multiset{x}
    ensures Keys(Grow(s, x, n, true)) == Keys(s) + {x}
  {
    GrowOrdered(s, x, n, true);
    GrowWf(s, x, n, true);
    if x in Values(s) {
      GrowPresent(s, x, n);
      assert x in Keys(s);
    } else {
      GrowValues(s, x, n, true);
      KeysAdd(Values(Grow(s, x, n, true)), Values(s), x);
    }
  }

  /** Adding one occurrence of `x` to a multiset adds `x` to its set of elements. */
  lemma KeysAdd(a: multiset<int>, b: multiset<int>, x: int)
    requires a == b + multiset{x}
    ensures (set y | y in a) == (set y | y in b) + {x}
  {
  }

  /**
   * The work of `insert` on the nodes: the fresh `node` becomes the root of an empty tree;
   * otherwise the walk down from `root` either meets its value (nothing is linked) or ends
   * on a null link, where `node` is hung.
   */
  method Place(root: TreeNode?, node: TreeNode, value: int, ghost s: Shape) returns (r: TreeNode, inserted: bool)
    requires Wf(s) && Linked(s, root) && Ordered(s, true)
    requires node !in Objs(s) && node.value == value && node.left == null && node.right == null
    modifies Objs(s)
    ensures inserted <==> value !in Values(s)
    ensures root != null ==> r == root
    ensures Linked(Grow(s, value, node, true), r)
  {
    if root == null {
      return node, true;
    }
    ObjsAllocated(s);
    var temp, p, sub := Walk(root, value, s, true);
    if temp.value == value {
      assert value in Values(sub);
      GrowPresent(s, value, node);
      return root, false;
    }
    Descend(sub, value, true);
    assert (if value < sub.value then sub.left else sub.right) == Nil;
    Hang(temp, node, p, sub, root, true);
    PlugGrow(p, sub, value, node, true);
    return root, true;
  }

  /** The exercise's driver: inserting 2, 1 and 3 gives root 2 with children 1 and 3. */
  method InsertExample() returns (t: BST)
    ensures t.Valid() && t.root != null && t.root.value == 2
    ensures t.root.left != null && t.root.left.value == 1
    ensures t.root.right != null && t.root.right.value == 3
  {
    t := new BST();
    var _, n2 := t.Insert(2);
    assert t.shape == Node(Nil, n2, 2, Nil);
    var _, n1 := t.Insert(1);
    assert t.shape == Node(Node(Nil, n1, 1, Nil), n2, 2, Nil);
    var _, n3 := t.Insert(3);
    assert t.shape == Node(Node(Nil, n1, 1, Nil), n2, 2, Node(Nil, n3, 3, Nil));
    assert Linked(Node(Nil, n1, 1, Nil), t.root.left) && Linked(Node(Nil, n3, 3, Nil), t.root.right);
  }

  /** The values of a sequence, as a set. */
  ghost function Elems(xs: seq<int>): set<int>
  {
    if xs == [] then {} else Elems(xs[..|xs| - 1]) + {xs[|xs| - 1]}
  }

  /** `Elems` holds exactly the values of the sequence. */
  lemma {:induction false} ElemsMembers(xs: seq<int>)
    ensures forall y :: y in Elems(xs) <==> y in xs
  {
    if xs != [] {
      ElemsMembers(xs[..|xs| - 1]);
      assert xs == xs[..|xs| - 1] + [xs[|xs| - 1]];
    }
  }

  /** Inserts the values of `xs` in order; the tree then holds exactly its old values and those of `xs`. */
  method InsertAll(t: BST, xs: seq<int>)
    requires t.Valid()
    modifies t.Repr
    ensures t.Valid() && fresh(t.Repr - old(t.Repr))
    ensures Keys(t.shape) == Keys(old(t.shape)) + Elems(xs)
  {
    var i := 0;
    while i < |xs|
      invariant 0 <= i <= |xs| && t.Valid() && fresh(t.Repr - old(t.Repr))
      invariant Keys(t.shape) == Keys(old(t.shape)) + Elems(xs[..i])
    {
      InsertOne(t, xs[i]);
      assert xs[..i + 1][..i] == xs[..i];
      i := i + 1;
    }
    assert xs[..i] == xs;
  }

  /** One step of `InsertAll`: `Insert` seen through the set of values only. */
  method InsertOne(t: BST, x: int)
    requires t.Valid()
    modifies t.Repr
    ensures t.Valid() && fresh(t.Repr - old(t.Repr))
    ensures Keys(t.shape) == Keys(old(t.shape)) + {x}
  {
    var _, _ := t.Insert(x);
  }

  /**
   * The `contains` driver: on the tree built by inserting 47, 21, 76, 18, 27, 52 and 82,
   * 27 is found and 17 is not.
   */
  method ContainsExample() returns (has27: bool, has17: bool)
    ensures has27 && !has17
  {
    var t := new BST();
    InsertAll(t, [47, 21, 76, 18, 27, 52, 82]);
    ElemsMembers([47, 21, 76, 18, 27, 52, 82]);
    assert 27 in Keys(t.shape) && 17 !in Keys(t.shape);
    has27 := t.Contains(27);
    has17 := t.Contains(17);
  }
}
