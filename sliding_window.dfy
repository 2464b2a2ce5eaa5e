/**
 * The sliding-window maximum of the queue notes: a deque of indexes whose values never
 * increase from front to back, so that its front is always the largest value in the window.
 */
module SlidingWindow {
  /** The largest value of a non-empty sequence, scanning from the back. */
  function MaxOf(s: seq<int>): int
    requires s != []
  {
    if |s| == 1 then s[0]
    else
      var r := MaxOf(s[1..]);
      if s[0] >= r then s[0] else r
  }

  /** `MaxOf(s)` is a value of `s` that no value of `s` exceeds. */
  lemma {:induction false} MaxOfIsMax(s: seq<int>)
    requires s != []
    ensures MaxOf(s) in s && forall x :: x in s ==> x <= MaxOf(s)
  {
    if |s| > 1 {
      MaxOfIsMax(s[1..]);
      assert s == [s[0]] + s[1..];
    }
  }

  /** A value of `s` that no value of `s` exceeds is its maximum. */
  lemma MaxOfUnique(s: seq<int>, m: int)
    requires m in s && forall x :: x in s ==> x <= m
    ensures MaxOf(s) == m
  {
    MaxOfIsMax(s);
  }

  /**
   * The first index of the window that ends at index `i`. With `k >= 1` it is the window of
   * the last `k` values; with `k <= 0` the front index `i - k` is never reached, so nothing
   * is ever dropped and the window reaches back to index 0.
   */
  function Lo(i: int, k: int): int
  {
    if k >= 1 && i + 1 - k > 0 then i + 1 - k else 0
  }

  /** The first index at which `i >= k - 1` holds, so a maximum is reported. */
  function First(k: int): nat
  {
    if k >= 1 then k - 1 else 0
  }

  /** Every index of `dq` lies in `lo .. i - 1`. */
  ghost predicate Inside(nums: seq<int>, lo: int, i: int, dq: seq<int>)
  {
    0 <= lo <= i <= |nums| && forall p :: 0 <= p < |dq| ==> lo <= dq[p] < i
  }

  /** The indexes of `dq` grow from front to back. */
  ghost predicate Increasing(dq: seq<int>)
  {
    forall p, q :: 0 <= p < q < |dq| ==> dq[p] < dq[q]
  }

  /** Each index of `dq` holds the largest value from it up to index `i - 1`. */
  ghost predicate Dominates(nums: seq<int>, lo: int, i: int, dq: seq<int>)
    requires Inside(nums, lo, i, dq)
  {
    forall p, j :: 0 <= p < |dq| && dq[p] <= j < i ==> nums[j] <= nums[dq[p]]
  }

  /** The first index not covered by the entries before position `p` of `dq`. */
  function GapStart(lo: int, dq: seq<int>, p: int): int
    requires 0 <= p < |dq|
  {
    if p == 0 then lo else dq[p - 1] + 1
  }

  /** The values skipped between consecutive entries of `dq` are at most the later entry's value. */
  ghost predicate Gaps(nums: seq<int>, lo: int, i: int, dq: seq<int>)
    requires Inside(nums, lo, i, dq)
  {
    forall p, j :: 0 <= p < |dq| && GapStart(lo, dq, p) <= j < dq[p] ==> nums[j] <= nums[dq[p]]
  }

  /** The deque invariant for the window `lo .. i - 1`, without the claim about its last entry. */
  ghost predicate Monotone(nums: seq<int>, lo: int, i: int, dq: seq<int>)
  {
    Inside(nums, lo, i, dq) && Increasing(dq) && Dominates(nums, lo, i, dq) && Gaps(nums, lo, i, dq)
  }

  /** A non-empty window's last index is the deque's last entry. */
  ghost predicate Covers(lo: int, i: int, dq: seq<int>)
  {
    lo < i ==> dq != [] && dq[|dq| - 1] == i - 1
  }

  /** The deque invariant between two iterations. */
  ghost predicate Window(nums: seq<int>, lo: int, i: int, dq: seq<int>)
  {
    Monotone(nums, lo, i, dq) && Covers(lo, i, dq)
  }

  /** The first index after the deque's last entry, or `lo` for an empty deque. */
  function TailStart(lo: int, dq: seq<int>): int
  {
    if dq == [] then lo else dq[|dq| - 1] + 1
  }

  /** The values after the deque's last entry are at most `nums[i]`. */
  ghost predicate Tail(nums: seq<int>, lo: int, i: int, dq: seq<int>)
    requires 0 <= lo && i < |nums|
  {
    forall j :: 0 <= j && TailStart(lo, dq) <= j < i ==> nums[j] <= nums[i]
  }

  /** The deque after the front check of iteration `i`. */
  function Shifted(dq: seq<int>, i: int, k: int): seq<int>
  {
    if dq != [] && dq[0] == i - k then dq[1..] else dq
  }

  /** Dropping the index that left the window keeps the invariant for the moved window. */
  lemma ShiftFront(nums: seq<int>, k: int, i: int, dq: seq<int>)
    requires 0 <= i < |nums| && Window(nums, Lo(i - 1, k), i, dq)
    ensures Window(nums, Lo(i, k), i, Shifted(dq, i, k))
  {
    var lo, lo' := Lo(i - 1, k), Lo(i, k);
    var dq' := Shifted(dq, i, k);
    if dq' != dq {
      assert dq[0] == lo && lo' == lo + 1;
      forall p | 0 <= p < |dq'| ensures lo' <= dq'[p] < i {
        assert dq'[p] == dq[p + 1];
      }
      assert Inside(nums, lo', i, dq');
      forall p, j | 0 <= p < |dq'| && GapStart(lo', dq', p) <= j < dq'[p]
        ensures nums[j] <= nums[dq'[p]]
      {
        assert dq'[p] == dq[p + 1] && GapStart(lo', dq', p) == GapStart(lo, dq, p + 1);
      }
      forall p, j | 0 <= p < |dq'| && dq'[p] <= j < i ensures nums[j] <= nums[dq'[p]] {
        assert dq'[p] == dq[p + 1];
      }
    } else if dq != [] {
      assert dq[0] != i - k;
      assert lo' == lo || (lo' == lo + 1 && lo == i - k);
      assert Inside(nums, lo', i, dq');
      assert Gaps(nums, lo', i, dq');
    }
  }

  /** A window whose last entry is `i - 1` leaves nothing after the deque. */
  lemma TailStartsEmpty(nums: seq<int>, lo: int, i: int, dq: seq<int>)
    requires i < |nums| && Window(nums, lo, i, dq)
    ensures Tail(nums, lo, i, dq)
  {
  }

  /** Popping a back entry smaller than `nums[i]` keeps the invariant and extends the tail. */
  lemma PopBack(nums: seq<int>, lo: int, i: int, dq: seq<int>)
    requires i < |nums| && Monotone(nums, lo, i, dq) && Tail(nums, lo, i, dq)
    requires dq != [] && nums[dq[|dq| - 1]] < nums[i]
    ensures Monotone(nums, lo, i, dq[..|dq| - 1]) && Tail(nums, lo, i, dq[..|dq| - 1])
  {
    var last := |dq| - 1;
    var rest := dq[..last];
    assert Inside(nums, lo, i, rest);
    forall j | 0 <= j && TailStart(lo, rest) <= j < i ensures nums[j] <= nums[i] {
      if j < dq[last] {
        assert GapStart(lo, dq, last) == TailStart(lo, rest);
      }
    }
  }

  /** Pushing `i` behind entries at least `nums[i]` gives the invariant for the window up to `i`. */
  lemma PushIndex(nums: seq<int>, lo: int, i: int, dq: seq<int>)
    requires i < |nums| && Monotone(nums, lo, i, dq) && Tail(nums, lo, i, dq)
    requires dq != [] ==> nums[dq[|dq| - 1]] >= nums[i]
    ensures Window(nums, lo, i + 1, dq + [i])
  {
    assert Inside(nums, lo, i + 1, dq + [i]);
    PushDominates(nums, lo, i, dq);
    PushGaps(nums, lo, i, dq);
  }

  /** After the push every entry still holds the largest value from it onwards. */
  lemma PushDominates(nums: seq<int>, lo: int, i: int, dq: seq<int>)
    requires i < |nums| && Monotone(nums, lo, i, dq) && Inside(nums, lo, i + 1, dq + [i])
    requires dq != [] ==> nums[dq[|dq| - 1]] >= nums[i]
    ensures Dominates(nums, lo, i + 1, dq + [i])
  {
    var dq' := dq + [i];
    forall p, j | 0 <= p < |dq'| && dq'[p] <= j < i + 1 ensures nums[j] <= nums[dq'[p]] {
      if p < |dq| && j == i {
        assert nums[dq[|dq| - 1]] <= nums[dq[p]];
      }
    }
  }

  /** The values skipped before the pushed index are those of the tail. */
  lemma PushGaps(nums: seq<int>, lo: int, i: int, dq: seq<int>)
    requires i < |nums| && Monotone(nums, lo, i, dq) && Tail(nums, lo, i, dq)
    requires Inside(nums, lo, i + 1, dq + [i])
    ensures Gaps(nums, lo, i + 1, dq + [i])
  {
    var dq' := dq + [i];
    forall p, j | 0 <= p < |dq'| && GapStart(lo, dq', p) <= j < dq'[p] ensures nums[j] <= nums[dq'[p]] {
      if p == |dq| {
        assert GapStart(lo, dq', p) == TailStart(lo, dq);
      } else {
        assert GapStart(lo, dq', p) == GapStart(lo, dq, p);
      }
    }
  }

  /** The front of `dq` is an index of `nums[lo..hi]` whose value no value there exceeds. */
  ghost predicate FrontHoldsMax(nums: seq<int>, lo: int, hi: int, dq: seq<int>)
    requires 0 <= lo <= hi <= |nums|
  {
    dq != [] && lo <= dq[0] < hi && forall j :: lo <= j < hi ==> nums[j] <= nums[dq[0]]
  }

  /** The front of the deque holds the maximum of a non-empty window. */
  lemma FrontIsMax(nums: seq<int>, lo: int, i: int, dq: seq<int>)
    requires Window(nums, lo, i, dq) && lo < i
    ensures FrontHoldsMax(nums, lo, i, dq)
  {
    forall j | lo <= j < i ensures nums[j] <= nums[dq[0]] {
      if j < dq[0] {
        assert GapStart(lo, dq, 0) == lo;
      }
    }
  }

  /** An index whose value no value of `nums[lo..hi]` exceeds holds `MaxOf(nums[lo..hi])`. */
  lemma MaxAt(nums: seq<int>, lo: int, hi: int, f: int)
    requires 0 <= lo <= f < hi <= |nums|
    requires forall j :: lo <= j < hi ==> nums[j] <= nums[f]
    ensures nums[f] == MaxOf(nums[lo..hi])
  {
    var w := nums[lo..hi];
    assert w[f - lo] == nums[f];
    forall x | x in w ensures x <= nums[f] {
      var j :| 0 <= j < |w| && w[j] == x;
      assert nums[lo + j] == x;
    }
    MaxOfUnique(w, nums[f]);
  }

  /** The inner loop of one iteration: pop every back entry whose value is below `nums[i]`. */
  method PopSmaller(nums: seq<int>, lo: int, i: int, dq: seq<int>) returns (rest: seq<int>)
    requires i < |nums| && Window(nums, lo, i, dq)
    ensures Monotone(nums, lo, i, rest) && Tail(nums, lo, i, rest)
    ensures rest != [] ==> nums[rest[|rest| - 1]] >= nums[i]
  {
    rest := dq;
    TailStartsEmpty(nums, lo, i, rest);
    while |rest| > 0 && nums[rest[|rest| - 1]] < nums[i]
      invariant Monotone(nums, lo, i, rest) && Tail(nums, lo, i, rest)
      decreases |rest|
    {
      PopBack(nums, lo, i, rest);
      rest := rest[..|rest| - 1];
    }
  }

  /** The window reported as the `w`-th maximum. */
  ghost function Reported(nums: seq<int>, k: int, w: nat): seq<int>
    requires w + First(k) < |nums|
  {
    nums[Lo(w + First(k), k)..w + First(k) + 1]
  }

  /**
   * One iteration of the loop at index `i`: drop the front index when it has left the
   * window, pop the smaller values at the back, push `i`. The front then holds the maximum
   * of the window ending at `i`.
   */
  method Advance(nums: seq<int>, k: int, i: int, dq: seq<int>) returns (dq': seq<int>)
    requires 0 <= i < |nums| && Window(nums, Lo(i - 1, k), i, dq)
    ensures Window(nums, Lo(i, k), i + 1, dq') && dq' != []
    ensures FrontHoldsMax(nums, Lo(i, k), i + 1, dq')
  {
    var lo := Lo(i, k);
    var shifted := if |dq| > 0 && dq[0] == i - k then dq[1..] else dq;
    ShiftFront(nums, k, i, dq);
    var kept := PopSmaller(nums, lo, i, shifted);
    PushIndex(nums, lo, i, kept);
    dq' := kept + [i];
    FrontIsMax(nums, lo, i + 1, dq');
  }

  /** `result` holds, in order, the maxima of the first `|result|` reported windows. */
  ghost predicate Reports(nums: seq<int>, k: int, result: seq<int>)
  {
    forall w: nat :: w < |result| ==> w + First(k) < |nums| && result[w] == MaxOf(Reported(nums, k, w))
  }

  /** Reporting the maximum of the next window extends the reports. */
  lemma ReportNext(nums: seq<int>, k: int, result: seq<int>, f: int)
    requires Reports(nums, k, result) && |result| + First(k) < |nums|
    requires Lo(|result| + First(k), k) <= f <= |result| + First(k)
    requires forall j :: Lo(|result| + First(k), k) <= j <= |result| + First(k) ==> nums[j] <= nums[f]
    ensures Reports(nums, k, result + [nums[f]])
  {
    MaxAt(nums, Lo(|result| + First(k), k), |result| + First(k) + 1, f);
  }

  /** The reported windows are the last `k` values for `k >= 1`, and the prefixes otherwise. */
  lemma ReportsMeaning(nums: seq<int>, k: int, result: seq<int>)
    requires Reports(nums, k, result)
    requires |result| == if |nums| > First(k) then |nums| - First(k) else 0
    ensures k >= 1 ==> forall w :: 0 <= w < |result| ==> result[w] == MaxOf(nums[w..w + k])
    ensures k < 1 ==> forall w :: 0 <= w < |result| ==> result[w] == MaxOf(nums[..w + 1])
  {
    forall w | 0 <= w < |result| && k >= 1 ensures result[w] == MaxOf(nums[w..w + k]) {
      assert Reported(nums, k, w) == nums[w..w + k];
    }
    forall w | 0 <= w < |result| && k < 1 ensures result[w] == MaxOf(nums[..w + 1]) {
      assert Reported(nums, k, w) == nums[..w + 1];
    }
  }

  /**
   * `maxSlidingWindow(nums, k)`: the maximum of every window of `k` consecutive values, in
   * order. For `k <= 0` the source never drops an index and reports at every position, so
   * the result is the running maximum of the prefixes.
   */
  method MaxSlidingWindow(nums: seq<int>, k: int) returns (result: seq<int>)
    ensures |result| == if |nums| > First(k) then |nums| - First(k) else 0
    ensures k >= 1 ==> forall w :: 0 <= w < |result| ==> result[w] == MaxOf(nums[w..w + k])
    ensures k < 1 ==> forall w :: 0 <= w < |result| ==> result[w] == MaxOf(nums[..w + 1])
  {
    var dq: seq<int> := [];
    result := [];
    for i := 0 to |nums|
      invariant Window(nums, Lo(i - 1, k), i, dq)
      invariant |result| == if i > First(k) then i - First(k) else 0
      invariant Reports(nums, k, result)
    {
      dq := Advance(nums, k, i, dq);
      if i >= k - 1 {
        ReportNext(nums, k, result, dq[0]);
        result := result + [nums[dq[0]]];
      }
    }
    ReportsMeaning(nums, k, result);
  }
}
