/**
 * Binary trees of nodes linked by `left` and `right` fields, as the tree notes and the
 * binary-search-tree exercises build them. A ghost `Shape` value mirrors a tree: each of its
 * nodes names the object, the value it holds and the shapes below it. A `Path` records a
 * walk from the root down to one link, so that a change at the end of the walk can be put
 * back into the whole tree.
 */
module TreeShapes {
  /** `TreeNode` (and the exercises' `Node`): a value and two child links, both null at first. */
  class TreeNode {
    var value: int
    var left: TreeNode?
    var right: TreeNode?

    constructor(value: int)
      ensures this.value == value && left == null && right == null
    {
      this.value := value;
      left, right := null, null;
    }
  }

  /** The tree below one link, as a value. */
  datatype Shape = Nil | Node(left: Shape, obj: TreeNode, value: int, right: Shape)

  /** The node objects of a shape. */
  ghost function Objs(s: Shape): set<object>
  {
    match s
    case Nil => {}
    case Node(l, n, _, r) => Objs(l) + {n} + Objs(r)
  }

  /** The nodes of a shape exist already, so a call that allocates cannot reuse them. */
  lemma {:induction false} ObjsAllocated(s: Shape)
    ensures forall o :: o in Objs(s) ==> allocated(o)
  {
    match s
    case Nil =>
    case Node(l, _, _, r) =>
      ObjsAllocated(l);
      ObjsAllocated(r);
  }

  /** No object occurs twice in a shape. */
  ghost predicate Wf(s: Shape)
  {
    match s
    case Nil => true
    case Node(l, n, _, r) => Wf(l) && Wf(r) && n !in Objs(l) && n !in Objs(r) && Objs(l) !! Objs(r)
  }

  /** The heap links `p` and the nodes below it exactly as `s` says. */
  ghost predicate Linked(s: Shape, p: TreeNode?)
    reads Objs(s)
  {
    match s
    case Nil => p == null
    case Node(l, n, v, r) => p == n && n.value == v && Linked(l, n.left) && Linked(r, n.right)
  }

  /** The values of a shape, with their multiplicities. */
  ghost function Values(s: Shape): multiset<int>
  {
    match s
    case Nil => multiset{}
    case Node(l, _, v, r) => Values(l) + multiset{v} + Values(r)
  }

  /**
   * The search-tree order: smaller values to the left, the others to the right. With
   * `strict` the right holds only greater values (no duplicates); without it equal values
   * go right too.
   */
  ghost predicate Ordered(s: Shape, strict: bool)
  {
    match s
    case Nil => true
    case Node(l, _, v, r) =>
      Ordered(l, strict) && Ordered(r, strict) &&
      (forall x :: x in Values(l) ==> x < v) &&
      (forall x :: x in Values(r) ==> if strict then x > v else x >= v)
  }

  /** One step of a walk down from the root: to the left or to the right child of a node. */
  datatype Path =
    | Top
    | WentLeft(up: Path, obj: TreeNode, value: int, right: Shape)
    | WentRight(up: Path, left: Shape, obj: TreeNode, value: int)

  /** The whole tree, given the path to one link and the shape below that link. */
  ghost function Plug(p: Path, s: Shape): Shape
  {
    match p
    case Top => s
    case WentLeft(up, n, v, r) => Plug(up, Node(s, n, v, r))
    case WentRight(up, l, n, v) => Plug(up, Node(l, n, v, s))
  }

  /** The objects of a tree outside the subtree at the end of a path. */
  ghost function PathObjs(p: Path): set<object>
  {
    match p
    case Top => {}
    case WentLeft(up, n, _, r) => PathObjs(up) + {n} + Objs(r)
    case WentRight(up, l, n, _) => PathObjs(up) + Objs(l) + {n}
  }

  /** The heap links `root` down the path to `hole`, and everything beside the path, as `p` says. */
  ghost predicate PathLinked(p: Path, root: TreeNode?, hole: TreeNode?)
    reads PathObjs(p)
  {
    match p
    case Top => root == hole
    case WentLeft(up, n, v, r) => n.left == hole && n.value == v && Linked(r, n.right) && PathLinked(up, root, n)
    case WentRight(up, l, n, v) => n.right == hole && n.value == v && Linked(l, n.left) && PathLinked(up, root, n)
  }

  /** Every value the walk compared with sent `x` the way the walk went. */
  ghost predicate Admits(p: Path, x: int, strict: bool)
  {
    match p
    case Top => true
    case WentLeft(up, _, v, _) => x < v && Admits(up, x, strict)
    case WentRight(up, _, _, v) => (if strict then x > v else x >= v) && Admits(up, x, strict)
  }

  lemma {:induction false} PlugObjs(p: Path, s: Shape)
    ensures Objs(Plug(p, s)) == PathObjs(p) + Objs(s)
  {
    match p
    case Top =>
    case WentLeft(up, n, v, r) => PlugObjs(up, Node(s, n, v, r));
    case WentRight(up, l, n, v) => PlugObjs(up, Node(l, n, v, s));
  }

  /** A well-formed tree keeps the subtree at the end of a path apart from the rest. */
  lemma {:induction false} PlugWf(p: Path, s: Shape)
    requires Wf(Plug(p, s))
    ensures Wf(s) && PathObjs(p) !! Objs(s)
  {
    match p
    case Top =>
    case WentLeft(up, n, v, r) =>
      PlugWf(up, Node(s, n, v, r));
    case WentRight(up, l, n, v) =>
      PlugWf(up, Node(l, n, v, s));
  }

  /** The links along a path and the links below its end make up the links of the whole tree. */
  lemma {:induction false} PlugLinked(p: Path, s: Shape, root: TreeNode?, hole: TreeNode?)
    requires PathLinked(p, root, hole) && Linked(s, hole)
    ensures Linked(Plug(p, s), root)
  {
    PlugObjs(p, s);
    match p
    case Top =>
    case WentLeft(up, n, v, r) =>
      PlugLinked(up, Node(s, n, v, r), root, n);
    case WentRight(up, l, n, v) =>
      PlugLinked(up, Node(l, n, v, s), root, n);
  }

  /**
   * Where an insertion puts `x`: a new node `n` replaces the null link reached by going left
   * on smaller values and right on the others; with `strict`, meeting `x` on the way leaves
   * the tree as it is.
   */
  ghost function Grow(s: Shape, x: int, n: TreeNode, strict: bool): Shape
  {
    match s
    case Nil => Node(Nil, n, x, Nil)
    case Node(l, m, v, r) =>
      if strict && x == v then s
      else if x < v then Node(Grow(l, x, n, strict), m, v, r)
      else Node(l, m, v, Grow(r, x, n, strict))
  }

  /** Growing the subtree at the end of a walk that `x` would take grows the whole tree. */
  lemma {:induction false} PlugGrow(p: Path, s: Shape, x: int, n: TreeNode, strict: bool)
    requires Admits(p, x, strict)
    ensures Grow(Plug(p, s), x, n, strict) == Plug(p, Grow(s, x, n, strict))
  {
    match p
    case Top =>
    case WentLeft(up, m, v, r) =>
      PlugGrow(up, Node(s, m, v, r), x, n, strict);
    case WentRight(up, l, m, v) =>
      PlugGrow(up, Node(l, m, v, s), x, n, strict);
  }

  /** With `strict`, growing an ordered tree by a value it already holds changes nothing. */
  lemma {:induction false} GrowPresent(s: Shape, x: int, n: TreeNode)
    requires Ordered(s, true) && x in Values(s)
    ensures Grow(s, x, n, true) == s
  {
    match s
    case Node(l, m, v, r) =>
      if x < v {
        assert x in Values(l) by {
          assert x != v && x !in Values(r);
        }
        GrowPresent(l, x, n);
      } else if x > v {
        assert x in Values(r) by {
          assert x !in Values(l);
        }
        GrowPresent(r, x, n);
      }
  }

  /** Otherwise growing adds exactly one `x`. */
  lemma {:induction false} GrowValues(s: Shape, x: int, n: TreeNode, strict: bool)
    requires !(strict && x in Values(s))
    ensures Values(Grow(s, x, n, strict)) == Values(s) + multiset{x}
  {
    match s
    case Nil =>
    case Node(l, m, v, r) =>
      assert !(strict && x == v);
      if x < v {
        GrowValues(l, x, n, strict);
        assert Grow(s, x, n, strict) == Node(Grow(l, x, n, strict), m, v, r);
        AddOne(Values(l), multiset{v} + Values(r), x);
      } else {
        GrowValues(r, x, n, strict);
        assert Grow(s, x, n, strict) == Node(l, m, v, Grow(r, x, n, strict));
        AddOne(Values(l) + multiset{v}, Values(r), x);
      }
  }

  /** One more `x` on either side of a multiset union is one more `x` in the union. */
  lemma AddOne(a: multiset<int>, b: multiset<int>, x: int)
    ensures (a + multiset{x}) + b == a + b + multiset{x}
    ensures a + (b + multiset{x}) == a + b + multiset{x}
  {
  }

  /** Growing keeps the search-tree order. */
  lemma {:induction false} GrowOrdered(s: Shape, x: int, n: TreeNode, strict: bool)
    requires Ordered(s, strict)
    ensures Ordered(Grow(s, x, n, strict), strict)
  {
    match s
    case Nil =>
    case Node(l, m, v, r) =>
      if strict && x == v {
      } else if x < v {
        GrowOrdered(l, x, n, strict);
        GrowSome(l, x, n, strict);
      } else {
        GrowOrdered(r, x, n, strict);
        GrowSome(r, x, n, strict);
      }
  }

  /** Growing adds no value but `x`. */
  lemma {:induction false} GrowSome(s: Shape, x: int, n: TreeNode, strict: bool)
    ensures forall y :: y in Values(Grow(s, x, n, strict)) ==> y in Values(s) || y == x
  {
    match s
    case Nil =>
    case Node(l, m, v, r) =>
      if strict && x == v {
      } else if x < v {
        GrowSome(l, x, n, strict);
      } else {
        GrowSome(r, x, n, strict);
      }
  }

  /** Growing with a node from outside the tree keeps every object once. */
  lemma {:induction false} GrowWf(s: Shape, x: int, n: TreeNode, strict: bool)
    requires Wf(s) && n !in Objs(s)
    ensures Wf(Grow(s, x, n, strict)) && Objs(Grow(s, x, n, strict)) <= Objs(s) + {n}
    ensures !(strict && x in Values(s)) ==> n in Objs(Grow(s, x, n, strict))
  {
    match s
    case Nil =>
    case Node(l, m, v, r) =>
      if strict && x == v {
      } else if x < v {
        GrowWf(l, x, n, strict);
      } else {
        GrowWf(r, x, n, strict);
      }
  }

  /**
   * One step of a search: in an ordered tree, a value below the root's can only be on the
   * left, and any other value but the root's only on the right.
   */
  lemma Descend(s: Shape, x: int, strict: bool)
    requires s.Node? && Ordered(s, strict) && x != s.value
    ensures x < s.value ==> (x in Values(s) <==> x in Values(s.left))
    ensures x > s.value ==> (x in Values(s) <==> x in Values(s.right))
  {
  }

  /**
   * The walk both `insert` loops make: from `root`, go left on smaller values and right on
   * the others until the link to follow is null, or, with `strict`, until a node holds
   * `value`. `p` records the way down and `sub` the tree found at its end, which holds
   * `value` exactly when the whole tree does.
   */
  method Walk(root: TreeNode, value: int, ghost s: Shape, strict: bool)
    returns (curr: TreeNode, ghost p: Path, ghost sub: Shape)
    requires Wf(s) && Linked(s, root) && Ordered(s, strict)
    ensures sub.Node? && sub.obj == curr && Ordered(sub, strict)
    ensures Plug(p, sub) == s && Admits(p, value, strict)
    ensures Wf(sub) && PathObjs(p) !! Objs(sub) && PathObjs(p) + Objs(sub) == Objs(s)
    ensures PathLinked(p, root, curr) && Linked(sub, curr)
    ensures strict ==> (value in Values(s) <==> value in Values(sub))
    ensures (strict && value == curr.value) || (if value < curr.value then curr.left == null else curr.right == null)
  {
    curr, p, sub := root, Top, s;
    PlugWf(p, sub);
    PlugObjs(p, sub);
    while true
      invariant sub.Node? && sub.obj == curr && Ordered(sub, strict)
      invariant Plug(p, sub) == s && Admits(p, value, strict)
      invariant Wf(sub) && PathObjs(p) !! Objs(sub) && PathObjs(p) + Objs(sub) == Objs(s)
      invariant PathLinked(p, root, curr) && Linked(sub, curr)
      invariant strict ==> (value in Values(s) <==> value in Values(sub))
      decreases sub
    {
      if strict && value == curr.value {
        return;
      }
      if value < curr.value {
        if curr.left == null {
          return;
        }
        Descend(sub, value, strict);
        p, sub := WentLeft(p, curr, curr.value, sub.right), sub.left;
        curr := curr.left;
      } else {
        if curr.right == null {
          return;
        }
        if strict {
          Descend(sub, value, strict);
        }
        p, sub := WentRight(p, sub.left, curr, curr.value), sub.right;
        curr := curr.right;
      }
      PlugWf(p, sub);
      PlugObjs(p, sub);
    }
  }

  /**
   * The last step of both `insert`s: hang the fresh `node` on the free link of `curr` that
   * its value leads to; the whole tree then links up as the walk's tree grown by that value.
   */
  method Hang(curr: TreeNode, node: TreeNode, ghost p: Path, ghost sub: Shape, ghost root: TreeNode?, strict: bool)
    requires sub.Node? && sub.obj == curr && Wf(sub) && PathObjs(p) !! Objs(sub)
    requires PathLinked(p, root, curr) && Linked(sub, curr)
    requires !(strict && node.value == curr.value)
    requires if node.value < curr.value then curr.left == null else curr.right == null
    requires node.left == null && node.right == null && node !in PathObjs(p) + Objs(sub)
    modifies curr
    ensures curr.value == old(curr.value)
    ensures Linked(Plug(p, Grow(sub, node.value, node, strict)), root)
  {
    ghost var Node(l, _, _, r) := sub;
    if node.value < curr.value {
      assert l == Nil && curr !in Objs(r);
      curr.left := node;
      assert Linked(r, curr.right) && Linked(Grow(l, node.value, node, strict), node);
    } else {
      assert r == Nil && curr !in Objs(l);
      curr.right := node;
      assert Linked(l, curr.left) && Linked(Grow(r, node.value, node, strict), node);
    }
    PlugLinked(p, Grow(sub, node.value, node, strict), root, curr);
  }
}
