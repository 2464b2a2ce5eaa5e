/**
 * The binary search tree of the tree notes: `insert` walks down from the root, sending
 * smaller values left and all others (equal ones too) right, and hangs a fresh node on the
 * first null link; `search` walks the same way; `deleteNode` removes one occurrence of a key,
 * replacing a node with two children by its in-order successor.
 */
module NotesBST {
  import opened TreeShapes

  class BST {
    var root: TreeNode?
    /** The tree below `root`. */
    ghost var shape: Shape
    ghost var Repr: set<object>

    ghost predicate Valid()
      reads this, Repr
    {
      this in Repr && Objs(shape) <= Repr && this !in Objs(shape) &&
      Wf(shape) && Linked(shape, root) && Ordered(shape, false)
    }

    /** `new BST()`: no root. */
    constructor()
      ensures Valid() && fresh(Repr) && root == null && Values(shape) == multiset{}
    {
      root := null;
      shape := Nil;
      Repr := {this};
    }

    /**
     * `insert(value)`: a fresh node holding `value` goes where `Grow` puts it, so the tree
     * gains exactly one `value` and stays ordered.
     */
    method Insert(value: int) returns (ghost node: TreeNode)
      requires Valid()
      modifies Repr
      ensures Valid() && fresh(node) && Repr == old(Repr) + {node}
      ensures shape == Grow(old(shape), value, node, false)
      ensures Values(shape) == Values(old(shape)) + multiset{value}
    {
      var newNode := new TreeNode(value);
      node := newNode;
      ghost var grown := Grow(shape, value, node, false);
      Grown(shape, value, node);
      var r := Place(root, newNode, shape);
      Adopt(r, grown, node);
    }

    /** Makes `r`, linked as `s`, the root of the tree. */
    method Adopt(r: TreeNode, ghost s: Shape, ghost node: TreeNode)
      requires Wf(s) && Linked(s, r) && Ordered(s, false)
      requires this !in Objs(s) && Objs(s) <= Repr + {node} && this in Repr
      modifies this
      ensures root == r && shape == s && Repr == old(Repr) + {node} && Valid()
    {
      root, shape, Repr := r, s, Repr + {node};
    }

    /** `search(value)`: true exactly when the tree holds `value`. */
    method Search(value: int) returns (found: bool)
      requires Valid()
      ensures found <==> value in Values(shape)
    {
      var curr := root;
      ghost var sub := shape;
      while curr != null
        invariant Linked(sub, curr) && Ordered(sub, false) && Objs(sub) <= Repr
        invariant value in Values(shape) <==> value in Values(sub)
        decreases sub
      {
        if value == curr.value {
          return true;
        }
        Descend(sub, value, false);
        if value < curr.value {
          curr, sub := curr.left, sub.left;
        } else {
          curr, sub := curr.right, sub.right;
        }
      }
      return false;
    }
  }

  /** What growing an ordered, well-formed tree by a fresh node keeps and adds. */
  lemma Grown(s: Shape, x: int, n: TreeNode)
    requires Wf(s) && Ordered(s, false) && n !in Objs(s)
    ensures Wf(Grow(s, x, n, false)) && Ordered(Grow(s, x, n, false), false)
    ensures Objs(Grow(s, x, n, false)) <= Objs(s) + {n}
    ensures Values(Grow(s, x, n, false)) == Values(s) + multiset{x}
  {
    GrowValues(s, x, n, false);
    GrowOrdered(s, x, n, false);
    GrowWf(s, x, n, false);
  }

  /**
   * The work of `insert` on the nodes: the fresh `node` becomes the root of an empty tree,
   * or is hung where the walk down from `root` ends.
   */
  method Place(root: TreeNode?, node: TreeNode, ghost s: Shape) returns (r: TreeNode)
    requires Wf(s) && Linked(s, root) && Ordered(s, false)
    requires node !in Objs(s) && node.left == null && node.right == null
    modifies Objs(s)
    ensures Linked(Grow(s, node.value, node, false), r)
  {
    if root == null {
      return node;
    }
    var curr, p, sub := Walk(root, node.value, s, false);
    Hang(curr, node, p, sub, root, false);
    PlugGrow(p, sub, node.value, node, false);
    return root;
  }

  /** The value reached by always following `left`. */
  ghost function Leftmost(s: Shape): int
    requires s.Node?
  {
    if s.left.Nil? then s.value else Leftmost(s.left)
  }

  /** In an ordered tree the leftmost value is one of its values and the least of them. */
  lemma {:induction false} LeftmostIsMin(s: Shape, strict: bool)
    requires s.Node? && Ordered(s, strict)
    ensures Leftmost(s) in Values(s)
    ensures forall y :: y in Values(s) ==> Leftmost(s) <= y
  {
    if s.left.Node? {
      LeftmostIsMin(s.left, strict);
    }
  }

  /** The successor walk of `deleteNode`: follow `left` links to the last node. */
  method LeftmostValue(n: TreeNode, ghost s: Shape) returns (m: int)
    requires Linked(s, n)
    ensures s.Node? && m == Leftmost(s)
  {
    var curr := n;
    ghost var sub := s;
    while curr.left != null
      invariant Linked(sub, curr) && sub.Node? && Leftmost(sub) == Leftmost(s)
      decreases sub
    {
      curr, sub := curr.left, sub.left;
    }
    m := curr.value;
  }

  /**
   * `deleteNode(root, key)`: the tree below the returned link holds the old values less one
   * occurrence of `key` (none if absent), stays ordered and uses only nodes of the old tree.
   */
  method DeleteNode(root: TreeNode?, key: int, ghost s: Shape) returns (r: TreeNode?, ghost s': Shape)
    requires Wf(s) && Linked(s, root) && Ordered(s, false)
    modifies Objs(s)
    ensures Wf(s') && Linked(s', r) && Objs(s') <= Objs(s) && Ordered(s', false)
    ensures Values(s') == Values(s) - multiset{key}
    decreases s, 1
  {
    if root == null {
      assert s == Nil && Values(s) - multiset{key} == multiset{};
      return null, Nil;
    }
    if key < root.value {
      r, s' := DeleteLeft(root, key, s);
    } else if key > root.value {
      r, s' := DeleteRight(root, key, s);
    } else if root.left == null && root.right == null {
      DropRoot(s);
      assert s.left == Nil && s.right == Nil;
      return null, Nil;
    } else if root.left == null {
      DropRoot(s);
      assert s.left == Nil;
      return root.right, s.right;
    } else if root.right == null {
      DropRoot(s);
      assert s.right == Nil;
      return root.left, s.left;
    } else {
      r, s' := DeleteBySuccessor(root, key, s);
    }
  }

  /** `deleteNode` when `key` is smaller than the root's value: delete in the left subtree. */
  method DeleteLeft(root: TreeNode, key: int, ghost s: Shape) returns (r: TreeNode?, ghost s': Shape)
    requires Wf(s) && Linked(s, root) && Ordered(s, false) && key < root.value
    modifies Objs(s)
    ensures Wf(s') && Linked(s', r) && Objs(s') <= Objs(s) && Ordered(s', false)
    ensures Values(s') == Values(s) - multiset{key}
    decreases s, 0
  {
    var Node(l, _, v, rt) := s;
    ObjsAllocated(s);
    assert Linked(l, root.left) && Linked(rt, root.right) && root !in Objs(l) + Objs(rt) && Objs(l) !! Objs(rt);
    var nl;
    ghost var sl;
    nl, sl := DeleteNode(root.left, key, l);
    Relink(root, nl, sl, true, rt);
    r, s' := root, Node(sl, root, v, rt);
    LoseLeft(Values(sl), Values(l), Values(rt), key, v);
  }

  /** `deleteNode` when `key` is greater than the root's value: delete in the right subtree. */
  method DeleteRight(root: TreeNode, key: int, ghost s: Shape) returns (r: TreeNode?, ghost s': Shape)
    requires Wf(s) && Linked(s, root) && Ordered(s, false) && key > root.value
    modifies Objs(s)
    ensures Wf(s') && Linked(s', r) && Objs(s') <= Objs(s) && Ordered(s', false)
    ensures Values(s') == Values(s) - multiset{key}
    decreases s, 0
  {
    var Node(l, _, v, rt) := s;
    ObjsAllocated(s);
    assert Linked(l, root.left) && Linked(rt, root.right) && root !in Objs(l) + Objs(rt) && Objs(l) !! Objs(rt);
    var nr;
    ghost var sr;
    nr, sr := DeleteNode(root.right, key, rt);
    Relink(root, nr, sr, false, l);
    r, s' := root, Node(l, root, v, sr);
    LoseRight(Values(sr), Values(rt), Values(l), key, v);
  }

  /**
   * `deleteNode` at a node with two children: its value becomes that of its in-order
   * successor, which is then deleted from the right subtree.
   */
  method DeleteBySuccessor(root: TreeNode, key: int, ghost s: Shape) returns (r: TreeNode?, ghost s': Shape)
    requires Wf(s) && Linked(s, root) && Ordered(s, false)
    requires key == root.value && root.left != null && root.right != null
    modifies Objs(s)
    ensures Wf(s') && Linked(s', r) && Objs(s') <= Objs(s) && Ordered(s', false)
    ensures Values(s') == Values(s) - multiset{key}
    decreases s, 0
  {
    var Node(l, _, v, rt) := s;
    ObjsAllocated(s);
    assert Linked(l, root.left) && Linked(rt, root.right) && root !in Objs(l) + Objs(rt) && Objs(l) !! Objs(rt);
    var m := LeftmostValue(root.right, rt);
    LeftmostIsMin(rt, false);
    Revalue(root, m, l, rt);
    var nr;
    ghost var sr;
    nr, sr := DeleteNode(root.right, m, rt);
    Relink(root, nr, sr, false, l);
    r, s' := root, Node(l, root, m, sr);
    SuccessorFits(Values(l), Values(rt), Values(sr), v, m);
  }

  /**
   * Point one child link of `n` (the left one if `left`) at `c`; the tree below `c` and the
   * tree below the other child stay linked.
   */
  method Relink(n: TreeNode, c: TreeNode?, ghost sc: Shape, left: bool, ghost other: Shape)
    requires n !in Objs(sc) + Objs(other) && Linked(sc, c)
    requires if left then Linked(other, n.right) else Linked(other, n.left)
    modifies n
    ensures n.value == old(n.value) && Linked(sc, c)
    ensures left ==> n.left == c && n.right == old(n.right) && Linked(other, n.right)
    ensures !left ==> n.right == c && n.left == old(n.left) && Linked(other, n.left)
  {
    if left {
      n.left := c;
    } else {
      n.right := c;
    }
  }

  /** Overwrite the value of `n`; both trees below it stay linked. */
  method Revalue(n: TreeNode, value: int, ghost l: Shape, ghost r: Shape)
    requires n !in Objs(l) + Objs(r) && Linked(l, n.left) && Linked(r, n.right)
    modifies n
    ensures n.value == value && n.left == old(n.left) && n.right == old(n.right)
    ensures Linked(l, n.left) && Linked(r, n.right)
  {
    n.value := value;
  }

  /** Removing the root's value from a tree leaves the values of its two subtrees. */
  lemma DropRoot(s: Shape)
    requires s.Node?
    ensures Values(s) - multiset{s.value} == Values(s.left) + Values(s.right)
    ensures s.left == Nil ==> Values(s) - multiset{s.value} == Values(s.right)
    ensures s.right == Nil ==> Values(s) - multiset{s.value} == Values(s.left)
  {
    assert Values(s) == (Values(s.left) + Values(s.right)) + multiset{s.value};
    assert Values(Nil) + Values(s.right) == Values(s.right);
    assert Values(s.left) + Values(Nil) == Values(s.left);
  }

  /** Losing one `key` below the root on the left side loses it from the whole tree. */
  lemma LoseLeft(after: multiset<int>, before: multiset<int>, right: multiset<int>, key: int, v: int)
    requires after == before - multiset{key} && key < v
    requires forall y :: y in before ==> y < v
    requires forall y :: y in right ==> y >= v
    ensures forall y :: y in after ==> y < v
    ensures after + multiset{v} + right == (before + multiset{v} + right) - multiset{key}
  {
    assert key !in multiset{v} + right;
  }

  /** Losing one `key` below the root on the right side loses it from the whole tree. */
  lemma LoseRight(after: multiset<int>, before: multiset<int>, left: multiset<int>, key: int, v: int)
    requires after == before - multiset{key} && key > v
    requires forall y :: y in before ==> y >= v
    requires forall y :: y in left ==> y < v
    ensures forall y :: y in after ==> y >= v
    ensures left + multiset{v} + after == (left + multiset{v} + before) - multiset{key}
  {
    assert key !in left + multiset{v};
  }

  /**
   * Replacing a deleted value `v` by the least value `m` of the right subtree, and removing
   * one `m` from that subtree, keeps the order and removes exactly one `v`.
   */
  lemma SuccessorFits(left: multiset<int>, right: multiset<int>, right': multiset<int>, v: int, m: int)
    requires right' == right - multiset{m} && m in right
    requires forall y :: y in left ==> y < v
    requires forall y :: y in right ==> y >= v
    requires forall y :: y in right ==> m <= y
    ensures forall y :: y in left ==> y < m
    ensures forall y :: y in right' ==> y >= m
    ensures left + multiset{m} + right' == (left + multiset{v} + right) - multiset{v}
  {
    assert right' + multiset{m} == right;
  }
}
