/**
 * The array-backed min-heap of the tree notes. Unlike the heap notes' version, its
 * `bubbleUp` and `bubbleDown` take no index: both are `while` loops, the first starting from
 * the last index, the second from the root. The sifting facts are those of `Heaps`.
 */
module TreeHeap {
  import opened Heaps

  /** `MinHeap`: `heap` holds a complete binary tree, each parent at most its children. */
  class MinHeap {
    var heap: seq<int>

    ghost predicate Valid()
      reads this
    {
      IsHeap(heap, false)
    }

    /** `new MinHeap()`: an empty array. */
    constructor()
      ensures Valid() && heap == []
    {
      heap := [];
    }

    /** `insert(value)`: push, then bubble up; one more `value`, still a heap. */
    method Insert(value: int)
      requires Valid()
      modifies this
      ensures Valid() && multiset(heap) == multiset(old(heap)) + multiset{value}
      ensures |heap| == |old(heap)| + 1
    {
      PushAlmostHeap(heap, value, false);
      heap := heap + [value];
      BubbleUp();
    }

    /**
     * `bubbleUp()`: from the last index, swap with the parent until the parent is at most
     * the value (or the root is reached).
     */
    method BubbleUp()
      requires heap != [] && AlmostHeapUp(heap, |heap| - 1, false)
      modifies this
      ensures Valid() && multiset(heap) == multiset(old(heap)) && |heap| == |old(heap)|
    {
      var i := |heap| - 1;
      while i > 0
        invariant AlmostHeapUp(heap, i, false) && multiset(heap) == multiset(old(heap))
        invariant |heap| == |old(heap)|
        decreases i
      {
        var parent := Parent(i);
        if heap[i] >= heap[parent] {
          break;
        }
        SwapUp(heap, i, false);
        heap := Swapped(heap, i, parent);
        i := parent;
      }
      UpDone(heap, i, false);
    }

    /**
     * `extractMin()` on a non-empty heap: returns the root, which is the least value. A
     * one-value heap is popped; otherwise the popped last value replaces the root and
     * bubbles down.
     */
    method ExtractMin() returns (min: int)
      requires Valid() && heap != []
      modifies this
      ensures Valid()
      ensures min == old(heap)[0] && forall x :: x in old(heap) ==> min <= x
      ensures multiset(heap) == multiset(old(heap)) - multiset{min}
      ensures |heap| == |old(heap)| - 1
    {
      RootFirst(heap, false);
      if |heap| == 1 {
        min := heap[0];
        heap := [];
        return;
      }
      min := heap[0];
      LastToRoot(heap, false);
      var last := heap[|heap| - 1];
      heap := heap[..|heap| - 1];
      assert old(heap) == heap + [last];
      heap := heap[0 := last];
      BubbleDown();
    }

    /**
     * `bubbleDown()`: from the root, swap with the smaller child (the left one on a tie)
     * while that child is smaller.
     */
    method BubbleDown()
      requires AlmostHeapDown(heap, 0, 0, false)
      modifies this
      ensures Valid() && multiset(heap) == multiset(old(heap)) && |heap| == |old(heap)|
    {
      var i := 0;
      var length := |heap|;
      while true
        invariant 0 <= i && length == |heap| == |old(heap)|
        invariant AlmostHeapDown(heap, 0, i, false) && multiset(heap) == multiset(old(heap))
        decreases length - i
      {
        var left := Left(i);
        var right := Right(i);
        var smallest := i;
        if left < length && heap[left] < heap[smallest] {
          smallest := left;
        }
        if right < length && heap[right] < heap[smallest] {
          smallest := right;
        }
        if smallest == i {
          break;
        }
        SwapDown(heap, 0, i, smallest, false);
        heap := Swapped(heap, i, smallest);
        i := smallest;
      }
      DownDone(heap, 0, i, false);
      HeapIsHeapFrom(heap, false);
    }
  }

  /** Inserting then extracting from a heap gives back its least value, or the inserted one if smaller. */
  method InsertThenExtract(h: MinHeap, v: int) returns (min: int)
    requires h.Valid()
    modifies h
    ensures h.Valid() && (min == v || min in old(h.heap))
    ensures min <= v && forall x :: x in old(h.heap) ==> min <= x
    ensures multiset(h.heap) == multiset(old(h.heap)) + multiset{v} - multiset{min}
  {
    h.Insert(v);
    ghost var mid := h.heap;
    assert v in multiset(mid);
    assert v in mid;
    min := h.ExtractMin();
    forall x | x in old(h.heap) ensures min <= x {
      assert x in multiset(old(h.heap));
      assert x in multiset(mid);
      assert x in mid;
    }
  }
}
