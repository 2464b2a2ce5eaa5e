/**
 * The recursive tree measures of the tree notes: `height`, `minDepth`, `isBalanced` (with its
 * inner `check`) and `diameter`. The first three are pure recursion over the tree and are
 * functions of its `Shape`; `diameter` walks the nodes themselves and keeps a running maximum.
 * Each measure is tied by a lemma to an independent description: the deepest node, the
 * shallowest leaf, a condition at every node and the widest node.
 */
module TreeAlgorithms {
  import opened TreeShapes

  function Max(a: int, b: int): int
  {
    if a < b then b else a
  }

  function Min(a: int, b: int): int
  {
    if a < b then a else b
  }

  /** `height(root)`: 0 for an empty tree, otherwise one more than the taller child. */
  function Height(s: Shape): (h: nat)
    ensures h == 0 <==> s == Nil
  {
    match s
    case Nil => 0
    case Node(l, _, _, r) => 1 + Max(Height(l), Height(r))
  }

  /** Some path down from the root passes through exactly `d` nodes. */
  ghost predicate Reaches(s: Shape, d: int)
  {
    match s
    case Nil => false
    case Node(l, _, _, r) => d == 1 || Reaches(l, d - 1) || Reaches(r, d - 1)
  }

  /** The height is the number of nodes on a longest downward path: every depth up to it is reached, no deeper one. */
  lemma {:induction false} HeightIsDeepest(s: Shape)
    ensures forall d :: Reaches(s, d) <==> 1 <= d <= Height(s)
  {
    match s
    case Nil =>
    case Node(l, _, _, r) =>
      HeightIsDeepest(l);
      HeightIsDeepest(r);
      forall d
        ensures Reaches(s, d) <==> 1 <= d <= Height(s)
      {
        assert Reaches(s, d) <==> d == 1 || Reaches(l, d - 1) || Reaches(r, d - 1);
      }
  }

  /**
   * `minDepth(root)`: 0 for an empty tree; a node with an empty side takes the depth of the
   * other side (a zero result stands for "no subtree"), otherwise the shallower side.
   */
  function MinDepth(s: Shape): (m: nat)
    ensures m == 0 <==> s == Nil
  {
    match s
    case Nil => 0
    case Node(l, _, _, r) =>
      var left := MinDepth(l);
      var right := MinDepth(r);
      if left == 0 then right + 1
      else if right == 0 then left + 1
      else Min(left, right) + 1
  }

  /** Some leaf (a node with no children) lies `d` nodes down from the root. */
  ghost predicate LeafAt(s: Shape, d: int)
  {
    match s
    case Nil => false
    case Node(l, _, _, r) =>
      if l == Nil && r == Nil then d == 1 else LeafAt(l, d - 1) || LeafAt(r, d - 1)
  }

  /** `minDepth` counts the nodes on a shortest path from the root to a leaf. */
  lemma {:induction false} MinDepthIsShallowest(s: Shape)
    ensures s != Nil ==> LeafAt(s, MinDepth(s))
    ensures forall d :: LeafAt(s, d) ==> MinDepth(s) <= d
  {
    match s
    case Nil =>
    case Node(l, _, _, r) =>
      MinDepthIsShallowest(l);
      MinDepthIsShallowest(r);
      if l != Nil && r != Nil {
        assert LeafAt(s, MinDepth(s)) by {
          if MinDepth(l) <= MinDepth(r) {
            assert LeafAt(l, MinDepth(s) - 1);
          } else {
            assert LeafAt(r, MinDepth(s) - 1);
          }
        }
      }
  }

  /**
   * `check(node)` inside `isBalanced`: -1 as soon as a subtree fails or the heights of the two
   * sides differ by more than one, the height of the tree otherwise.
   */
  function Check(s: Shape): (h: int)
    ensures h == -1 || h == Height(s)
  {
    match s
    case Nil => 0
    case Node(l, _, _, r) =>
      var left := Check(l);
      if left == -1 then -1
      else
        var right := Check(r);
        if right == -1 then -1
        else if left - right > 1 || right - left > 1 then -1
        else 1 + Max(left, right)
  }

  /** At every node the heights of the two sides differ by at most one. */
  ghost predicate Balanced(s: Shape)
  {
    match s
    case Nil => true
    case Node(l, _, _, r) =>
      Balanced(l) && Balanced(r) && -1 <= Height(l) - Height(r) <= 1
  }

  /** `check` returns the height of a balanced tree and -1 for any other. */
  lemma {:induction false} CheckIsHeight(s: Shape)
    ensures Check(s) == if Balanced(s) then Height(s) else -1
  {
    match s
    case Nil =>
    case Node(l, _, _, r) =>
      CheckIsHeight(l);
      CheckIsHeight(r);
  }

  /** `isBalanced(root)`: whether `check` succeeds. */
  function IsBalanced(s: Shape): (b: bool)
    ensures b <==> Balanced(s)
  {
    CheckIsHeight(s);
    Check(s) != -1
  }

  /** The largest sum, over the nodes, of the heights of a node's two sides (0 for an empty tree). */
  function Span(s: Shape): nat
  {
    match s
    case Nil => 0
    case Node(l, _, _, r) => Max(Height(l) + Height(r), Max(Span(l), Span(r)))
  }

  /** Some node's two sides have heights adding up to `k`. */
  ghost predicate SpanAt(s: Shape, k: int)
  {
    match s
    case Nil => false
    case Node(l, _, _, r) => Height(l) + Height(r) == k || SpanAt(l, k) || SpanAt(r, k)
  }

  /** `Span` is the widest node: attained by some node and not exceeded by any. */
  lemma {:induction false} SpanIsWidest(s: Shape)
    ensures s != Nil ==> SpanAt(s, Span(s))
    ensures forall k :: SpanAt(s, k) ==> k <= Span(s)
  {
    match s
    case Nil =>
    case Node(l, _, _, r) =>
      SpanIsWidest(l);
      SpanIsWidest(r);
      if Span(s) != Height(l) + Height(r) {
        if Span(s) == Span(l) {
          assert l != Nil;
        } else {
          assert r != Nil;
        }
      }
  }

  /**
   * `diameter(root)`: runs the inner `depth` from the root with the running maximum at 0 and
   * returns the maximum, which is the widest node of the tree.
   */
  method Diameter(root: TreeNode?, ghost s: Shape) returns (max: int)
    requires Linked(s, root)
    ensures max == Span(s)
  {
    max := 0;
    var _, m := Depth(root, s, max);
    max := m;
  }

  /**
   * The inner `depth(node)` of `diameter`: returns the height of the tree below `node` and
   * raises the captured maximum `max` to the widest node met on the way.
   */
  method Depth(node: TreeNode?, ghost s: Shape, max: int) returns (d: int, max': int)
    requires Linked(s, node) && max >= 0
    ensures d == Height(s) && max' == Max(max, Span(s))
    decreases s
  {
    if node == null {
      return 0, max;
    }
    ObjsAllocated(s);
    assert Linked(s.left, node.left) && Linked(s.right, node.right);
    var left, m1 := Depth(node.left, s.left, max);
    assert Objs(s.right) <= Objs(s);
    assert Linked(s.right, node.right);
    var right, m2 := Depth(node.right, s.right, m1);
    max' := Max(m2, left + right);
    d := 1 + Max(left, right);
  }
}
