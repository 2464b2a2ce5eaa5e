/**
 * The array-backed binary heaps of the heap notes: a min-heap, a max-heap, `heapify`, the
 * priority queue on a min-heap and heap sort. The two heaps differ only in the order they
 * keep between a parent and a child, so the facts about sifting are stated once, for both.
 */
module Heaps {
  import opened Wrappers
  import opened Orders

  /** `parent(i)`: `Math.floor((i - 1) / 2)`; Dafny's division by a positive number floors too. */
  function Parent(i: int): int
  {
    (i - 1) / 2
  }

  /** `left(i)`. */
  function Left(i: int): int
  {
    2 * i + 1
  }

  /** `right(i)`. */
  function Right(i: int): int
  {
    2 * i + 2
  }

  /** Both children of `i` have `i` as their parent. */
  lemma ParentOfChildren(i: int)
    ensures Parent(Left(i)) == i && Parent(Right(i)) == i
  {
  }

  /** Every index but the root is a child of its parent, which comes before it. */
  lemma ChildOfParent(j: int)
    requires j > 0
    ensures 0 <= Parent(j) < j && (j == Left(Parent(j)) || j == Right(Parent(j)))
  {
  }

  /**
   * Whether `x` may sit above `y`: `x <= y` in a min-heap, `x >= y` in a max-heap (`max`).
   * The sifting loops exchange a parent and a child exactly when this fails.
   */
  function Prior(x: int, y: int, max: bool): bool
  {
    if max then x >= y else x <= y
  }

  /** The heap property: every parent may sit above its children. */
  ghost predicate IsHeap(s: seq<int>, max: bool)
  {
    forall j :: 0 < j < |s| ==> Prior(s[Parent(j)], s[j], max)
  }

  /** The heap property for the edges whose parent index is at least `lo`. */
  ghost predicate HeapFrom(s: seq<int>, lo: int, max: bool)
  {
    forall j :: 0 < j < |s| && lo <= Parent(j) ==> Prior(s[Parent(j)], s[j], max)
  }

  /**
   * What `bubbleUp(i)` needs: every edge holds except the one into `i`, and `i`'s parent
   * may sit above `i`'s children.
   */
  ghost predicate AlmostHeapUp(s: seq<int>, i: int, max: bool)
  {
    0 <= i < |s| &&
    (forall j :: 0 < j < |s| && j != i ==> Prior(s[Parent(j)], s[j], max)) &&
    (i > 0 ==> forall j :: 0 < j < |s| && Parent(j) == i ==> Prior(s[Parent(i)], s[j], max))
  }

  /**
   * What `bubbleDown(i)` needs, among the edges whose parent index is at least `lo`: every
   * edge holds except those out of `i`, and, when the edge into `i` is among them, `i`'s
   * parent may sit above `i`'s children.
   */
  ghost predicate AlmostHeapDown(s: seq<int>, lo: int, i: int, max: bool)
  {
    (forall j :: 0 < j < |s| && lo <= Parent(j) && Parent(j) != i ==> Prior(s[Parent(j)], s[j], max)) &&
    (0 < i && lo <= Parent(i) ==> forall j :: 0 < j < |s| && Parent(j) == i ==> Prior(s[Parent(i)], s[j], max))
  }

  /** `swap(i, j)` on the values. */
  function Swapped(s: seq<int>, i: int, j: int): (t: seq<int>)
    requires 0 <= i < |s| && 0 <= j < |s|
    ensures |t| == |s| && t[i] == s[j] && t[j] == s[i]
    ensures forall k :: 0 <= k < |s| && k != i && k != j ==> t[k] == s[k]
    ensures multiset(t) == multiset(s)
  {
    s[i := s[j]][j := s[i]]
  }

  /** A heap is a heap from every bound on. */
  lemma HeapIsHeapFrom(s: seq<int>, max: bool)
    ensures IsHeap(s, max) <==> HeapFrom(s, 0, max)
  {
    forall j | 0 < j < |s| ensures 0 <= Parent(j) {
      ChildOfParent(j);
    }
  }

  /** The root of a non-empty heap may sit above every value of it. */
  lemma RootFirst(s: seq<int>, max: bool)
    requires IsHeap(s, max) && s != []
    ensures forall k :: 0 <= k < |s| ==> Prior(s[0], s[k], max)
  {
    forall k | 0 <= k < |s| ensures Prior(s[0], s[k], max) {
      AncestorFirst(s, k, max);
    }
  }

  lemma {:induction false} AncestorFirst(s: seq<int>, k: int, max: bool)
    requires IsHeap(s, max) && 0 <= k < |s|
    ensures Prior(s[0], s[k], max)
    decreases k
  {
    if k > 0 {
      ChildOfParent(k);
      AncestorFirst(s, Parent(k), max);
    }
  }

  /** Appending a value to a heap leaves only the edge into the new last index to repair. */
  lemma PushAlmostHeap(s: seq<int>, v: int, max: bool)
    requires IsHeap(s, max)
    ensures AlmostHeapUp(s + [v], |s|, max)
  {
    var t := s + [v];
    forall j | 0 < j < |t| && j != |s| ensures Prior(t[Parent(j)], t[j], max) {
      ChildOfParent(j);
    }
  }

  /** One exchange of `bubbleUp`: the parent of `i` comes after `i`, so they swap. */
  lemma SwapUp(s: seq<int>, i: int, max: bool)
    requires AlmostHeapUp(s, i, max) && i > 0 && !Prior(s[Parent(i)], s[i], max)
    ensures AlmostHeapUp(Swapped(s, i, Parent(i)), Parent(i), max)
  {
    var p := Parent(i);
    ChildOfParent(i);
    var t := Swapped(s, i, p);
    forall j | 0 < j < |t| && j != p ensures Prior(t[Parent(j)], t[j], max) {
      ChildOfParent(j);
      if j == i {
      } else if Parent(j) == i {
        assert t[Parent(j)] == s[p] && t[j] == s[j];
      } else if Parent(j) == p {
        assert t[Parent(j)] == s[i] && t[j] == s[j];
        assert Prior(s[p], s[j], max);
      }
    }
    if p > 0 {
      ChildOfParent(p);
      forall j | 0 < j < |t| && Parent(j) == p ensures Prior(t[Parent(p)], t[j], max) {
        assert t[Parent(p)] == s[Parent(p)];
        if j != i {
          assert Prior(s[p], s[j], max);
        }
      }
    }
  }

  /** `bubbleUp` stops at the root or at a parent that may sit above `i`: a heap again. */
  lemma UpDone(s: seq<int>, i: int, max: bool)
    requires AlmostHeapUp(s, i, max) && (i == 0 || Prior(s[Parent(i)], s[i], max))
    ensures IsHeap(s, max)
  {
  }

  /**
   * One exchange of `bubbleDown`: `c` is the child of `i` that may sit above `i` and above
   * its sibling, so they swap and the repair moves on to `c`.
   */
  lemma SwapDown(s: seq<int>, lo: int, i: int, c: int, max: bool)
    requires 0 <= lo <= i && AlmostHeapDown(s, lo, i, max)
    requires (c == Left(i) || c == Right(i)) && c < |s|
    requires Prior(s[c], s[i], max)
    requires Left(i) < |s| ==> Prior(s[c], s[Left(i)], max)
    requires Right(i) < |s| ==> Prior(s[c], s[Right(i)], max)
    ensures AlmostHeapDown(Swapped(s, i, c), lo, c, max)
  {
    ParentOfChildren(i);
    var t := Swapped(s, i, c);
    forall j | 0 < j < |t| && lo <= Parent(j) && Parent(j) != c ensures Prior(t[Parent(j)], t[j], max) {
      ChildOfParent(j);
      if j == i {
        assert t[Parent(j)] == s[Parent(i)] && t[j] == s[c];
      } else if Parent(j) == i {
        assert j == Left(i) || j == Right(i);
      }
    }
    forall j | 0 < j < |t| && Parent(j) == c ensures Prior(t[Parent(c)], t[j], max) {
      ChildOfParent(j);
      assert t[Parent(c)] == s[c] && t[j] == s[j];
    }
  }

  /** `bubbleDown` stops where `i` may sit above both its children. */
  lemma DownDone(s: seq<int>, lo: int, i: int, max: bool)
    requires AlmostHeapDown(s, lo, i, max) && 0 <= i
    requires Left(i) < |s| ==> Prior(s[i], s[Left(i)], max)
    requires Right(i) < |s| ==> Prior(s[i], s[Right(i)], max)
    ensures HeapFrom(s, lo, max)
  {
    forall j | 0 < j < |s| && lo <= Parent(j) ensures Prior(s[Parent(j)], s[j], max) {
      ChildOfParent(j);
    }
  }

  /** Moving the last value of a heap to its root leaves only the edges out of the root. */
  lemma LastToRoot(s: seq<int>, max: bool)
    requires IsHeap(s, max) && |s| >= 2
    ensures AlmostHeapDown(s[..|s| - 1][0 := s[|s| - 1]], 0, 0, max)
  {
    var t := s[..|s| - 1][0 := s[|s| - 1]];
    forall j | 0 < j < |t| && 0 <= Parent(j) && Parent(j) != 0 ensures Prior(t[Parent(j)], t[j], max) {
      ChildOfParent(j);
    }
  }

  /** Building a heap bottom-up: the edges whose parent index is past `|s| / 2 - 1` hold. */
  lemma HeapifyStart(s: seq<int>, max: bool)
    ensures HeapFrom(s, |s| / 2, max)
  {
    forall j | 0 < j < |s| && |s| / 2 <= Parent(j) ensures false {
    }
  }

  /** `MinHeap`: `data` holds a complete binary tree, each parent at most its children. */
  class MinHeap {
    var data: seq<int>

    ghost predicate Valid()
      reads this
    {
      IsHeap(data, false)
    }

    constructor()
      ensures Valid() && data == []
    {
      data := [];
    }

    /** `swap(i, j)`. */
    method Swap(i: int, j: int)
      requires 0 <= i < |data| && 0 <= j < |data|
      modifies this
      ensures data == Swapped(old(data), i, j)
    {
      data := data[i := data[j]][j := data[i]];
    }

    /** `insert(value)`: append, then bubble up; one more `value`, still a heap. */
    method Insert(value: int)
      requires Valid()
      modifies this
      ensures Valid() && multiset(data) == multiset(old(data)) + multiset{value}
    {
      PushAlmostHeap(data, value, false);
      data := data + [value];
      BubbleUp(|data| - 1);
    }

    /** `bubbleUp(i)`: swap `i` with its parent while the parent is greater. */
    method BubbleUp(i: int)
      requires AlmostHeapUp(data, i, false)
      modifies this
      ensures Valid() && multiset(data) == multiset(old(data))
    {
      var k := i;
      while k > 0 && data[Parent(k)] > data[k]
        invariant AlmostHeapUp(data, k, false) && multiset(data) == multiset(old(data))
        decreases k
      {
        SwapUp(data, k, false);
        Swap(k, Parent(k));
        k := Parent(k);
      }
      UpDone(data, k, false);
    }

    /**
     * `extractMin()`: `None` (`null`) on an empty heap; otherwise the root, which is the least
     * value, is removed: the last value takes its place and bubbles down.
     */
    method ExtractMin() returns (r: Option<int>)
      requires Valid()
      modifies this
      ensures Valid()
      ensures old(data) == [] ==> r == None && data == []
      ensures old(data) != [] ==>
        r == Some(old(data)[0]) && multiset(data) == multiset(old(data)) - multiset{old(data)[0]} &&
        forall x :: x in old(data) ==> r.value <= x
    {
      if |data| == 0 {
        return None;
      }
      RootFirst(data, false);
      if |data| == 1 {
        r := Some(data[0]);
        data := [];
        return;
      }
      var min := data[0];
      LastToRoot(data, false);
      var last := data[|data| - 1];
      data := data[..|data| - 1];
      assert old(data) == data + [last];
      data := data[0 := last];
      BubbleDown(0, 0);
      HeapIsHeapFrom(data, false);
      return Some(min);
    }

    /**
     * `bubbleDown(i)`: swap `i` with its smaller child while that child is smaller, the left
     * one on a tie. Among the edges whose parent index is at least `lo` it repairs the ones
     * out of `i`.
     */
    method BubbleDown(i: int, ghost lo: int)
      requires 0 <= lo <= i && AlmostHeapDown(data, lo, i, false)
      modifies this
      ensures HeapFrom(data, lo, false) && multiset(data) == multiset(old(data)) && |data| == |old(data)|
      decreases |data| - i
    {
      var smallest := i;
      var left := Left(i);
      var right := Right(i);
      if left < |data| && data[left] < data[smallest] {
        smallest := left;
      }
      if right < |data| && data[right] < data[smallest] {
        smallest := right;
      }
      if smallest != i {
        SwapDown(data, lo, i, smallest, false);
        Swap(i, smallest);
        BubbleDown(smallest, lo);
      } else {
        DownDone(data, lo, i, false);
      }
    }

    /** `peek()`: the root, the least value; `None` (`null`) on an empty heap. */
    method Peek() returns (r: Option<int>)
      requires Valid()
      ensures r == None <==> data == []
      ensures r.Some? ==> r.value == data[0] && forall x :: x in data ==> r.value <= x
    {
      if |data| == 0 {
        return None;
      }
      RootFirst(data, false);
      return Some(data[0]);
    }
  }

  /** `MaxHeap`: the mirror image of `MinHeap`, each parent at least its children. */
  class MaxHeap {
    var data: seq<int>

    ghost predicate Valid()
      reads this
    {
      IsHeap(data, true)
    }

    constructor()
      ensures Valid() && data == []
    {
      data := [];
    }

    /** `swap(i, j)`. */
    method Swap(i: int, j: int)
      requires 0 <= i < |data| && 0 <= j < |data|
      modifies this
      ensures data == Swapped(old(data), i, j)
    {
      data := data[i := data[j]][j := data[i]];
    }

    /** `insert(value)`: append, then bubble up; one more `value`, still a heap. */
    method Insert(value: int)
      requires Valid()
      modifies this
      ensures Valid() && multiset(data) == multiset(old(data)) + multiset{value}
    {
      PushAlmostHeap(data, value, true);
      data := data + [value];
      BubbleUp(|data| - 1);
    }

    /** `bubbleUp(i)`: swap `i` with its parent while the parent is smaller. */
    method BubbleUp(i: int)
      requires AlmostHeapUp(data, i, true)
      modifies this
      ensures Valid() && multiset(data) == multiset(old(data))
    {
      var k := i;
      while k > 0 && data[Parent(k)] < data[k]
        invariant AlmostHeapUp(data, k, true) && multiset(data) == multiset(old(data))
        decreases k
      {
        SwapUp(data, k, true);
        Swap(k, Parent(k));
        k := Parent(k);
      }
      UpDone(data, k, true);
    }

    /**
     * `extractMax()`: `None` (`null`) on an empty heap; otherwise the root, which is the
     * greatest value, is removed: the last value takes its place and bubbles down.
     */
    method ExtractMax() returns (r: Option<int>)
      requires Valid()
      modifies this
      ensures Valid()
      ensures old(data) == [] ==> r == None && data == []
      ensures old(data) != [] ==>
        r == Some(old(data)[0]) && multiset(data) == multiset(old(data)) - multiset{old(data)[0]} &&
        forall x :: x in old(data) ==> r.value >= x
    {
      if |data| == 0 {
        return None;
      }
      RootFirst(data, true);
      if |data| == 1 {
        r := Some(data[0]);
        data := [];
        return;
      }
      var max := data[0];
      LastToRoot(data, true);
      var last := data[|data| - 1];
      data := data[..|data| - 1];
      assert old(data) == data + [last];
      data := data[0 := last];
      BubbleDown(0, 0);
      HeapIsHeapFrom(data, true);
      return Some(max);
    }

    /**
     * `bubbleDown(i)`: swap `i` with its larger child while that child is larger, the left
     * one on a tie.
     */
    method BubbleDown(i: int, ghost lo: int)
      requires 0 <= lo <= i && AlmostHeapDown(data, lo, i, true)
      modifies this
      ensures HeapFrom(data, lo, true) && multiset(data) == multiset(old(data)) && |data| == |old(data)|
      decreases |data| - i
    {
      var largest := i;
      var left := Left(i);
      var right := Right(i);
      if left < |data| && data[left] > data[largest] {
        largest := left;
      }
      if right < |data| && data[right] > data[largest] {
        largest := right;
      }
      if largest != i {
        SwapDown(data, lo, i, largest, true);
        Swap(i, largest);
        BubbleDown(largest, lo);
      } else {
        DownDone(data, lo, i, true);
      }
    }

    /** `peek()`: the root, the greatest value; `None` (`null`) on an empty heap. */
    method Peek() returns (r: Option<int>)
      requires Valid()
      ensures r == None <==> data == []
      ensures r.Some? ==> r.value == data[0] && forall x :: x in data ==> r.value >= x
    {
      if |data| == 0 {
        return None;
      }
      RootFirst(data, true);
      return Some(data[0]);
    }
  }

  /**
   * `heapify(arr)`: a new min-heap over a copy of `arr`, built by bubbling down every index
   * from the last one with a child back to the root.
   */
  method Heapify(arr: seq<int>) returns (heap: MinHeap)
    ensures fresh(heap) && heap.Valid() && multiset(heap.data) == multiset(arr)
  {
    heap := new MinHeap();
    heap.data := arr;
    var i := |arr| / 2 - 1;
    HeapifyStart(arr, false);
    while i >= 0
      invariant -1 <= i && |heap.data| == |arr|
      invariant HeapFrom(heap.data, i + 1, false) && multiset(heap.data) == multiset(arr)
      decreases i
    {
      heap.BubbleDown(i, i);
      i := i - 1;
    }
    HeapIsHeapFrom(heap.data, false);
  }

  /** `PriorityQueue`: a min-heap; the least value leaves first. */
  class PriorityQueue {
    var heap: MinHeap

    ghost predicate Valid()
      reads this, heap
    {
      heap.Valid()
    }

    constructor()
      ensures Valid() && fresh(heap) && heap.data == []
    {
      heap := new MinHeap();
    }

    /** `enqueue(value)`: `insert`. */
    method Enqueue(value: int)
      requires Valid()
      modifies heap
      ensures Valid() && multiset(heap.data) == multiset(old(heap.data)) + multiset{value}
    {
      heap.Insert(value);
    }

    /** `dequeue()`: `extractMin`. */
    method Dequeue() returns (r: Option<int>)
      requires Valid()
      modifies heap
      ensures Valid()
      ensures old(heap.data) == [] ==> r == None && heap.data == []
      ensures old(heap.data) != [] ==>
        r.Some? && r.value in old(heap.data) &&
        multiset(heap.data) == multiset(old(heap.data)) - multiset{r.value} &&
        forall x :: x in old(heap.data) ==> r.value <= x
    {
      r := heap.ExtractMin();
    }

    /** `peek()`. */
    method Peek() returns (r: Option<int>)
      requires Valid()
      ensures r == None <==> heap.data == []
      ensures r.Some? ==> r.value in heap.data && forall x :: x in heap.data ==> r.value <= x
    {
      r := heap.Peek();
    }

    /** `isEmpty()`. */
    method IsEmpty() returns (b: bool)
      requires Valid()
      ensures b <==> heap.data == []
    {
      return |heap.data| == 0;
    }
  }

  /** `heapSortAsc(arr)`: heapify, then extract the minimum until the heap is empty. */
  method HeapSortAsc(arr: seq<int>) returns (result: seq<int>)
    ensures Ascending(result) && multiset(result) == multiset(arr)
  {
    var heap := Heapify(arr);
    result := [];
    while |heap.data| > 0
      invariant heap.Valid() && Ascending(result)
      invariant multiset(result) + multiset(heap.data) == multiset(arr)
      invariant forall a, x :: a in result && x in heap.data ==> a <= x
      decreases |heap.data|
    {
      ghost var before := heap.data;
      var r := heap.ExtractMin();
      assert r.value == before[0] && before[0] in before;
      assert |heap.data| < |before| by {
        assert |multiset(heap.data)| < |multiset(before)|;
      }
      forall a | a in result ensures a <= r.value {
      }
      forall x | x in heap.data ensures x in before {
        assert x in multiset(heap.data);
      }
      ghost var prev := result;
      result := result + [r.value];
      forall i, j | 0 <= i < j < |result| ensures result[i] <= result[j] {
        if j == |prev| {
          assert result[i] in prev;
        }
      }
    }
  }
}
