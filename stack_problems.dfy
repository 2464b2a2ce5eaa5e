/**
 * The monotonic-stack problems of the stack notes (`nextGreaterElement`,
 * `dailyTemperatures`) and `removeDuplicates`, each proved against a reference
 * definition of what it computes.
 */
module StackProblems {

  /**
   * The least index `j > i` with `a[j] > a[i]`, or `|a|` when there is none: the answer both
   * monotonic-stack problems look for (`BeforeNextGreater` states that it is the least).
   */
  function NextGreaterIndex(a: seq<int>, i: int): (j: int)
    requires 0 <= i < |a|
    ensures i < j <= |a|
    ensures j < |a| ==> a[j] > a[i]
  {
    NextGreaterFrom(a, i, i + 1)
  }

  /** `NextGreaterIndex`, searching from `from`. */
  function NextGreaterFrom(a: seq<int>, i: int, from: int): (j: int)
    requires 0 <= i < from <= |a|
    ensures from <= j <= |a|
    ensures j < |a| ==> a[j] > a[i]
    decreases |a| - from
  {
    if from == |a| || a[from] > a[i] then from else NextGreaterFrom(a, i, from + 1)
  }

  /** No position strictly between `i` and its next greater index holds more than `a[i]`. */
  lemma BeforeNextGreater(a: seq<int>, i: int, k: int)
    requires 0 <= i < k < |a| && k < NextGreaterIndex(a, i)
    ensures a[k] <= a[i]
  {
    BeforeNextGreaterFrom(a, i, i + 1, k);
  }

  lemma {:induction false} BeforeNextGreaterFrom(a: seq<int>, i: int, from: int, k: int)
    requires 0 <= i < from <= k < |a| && k < NextGreaterFrom(a, i, from)
    ensures a[k] <= a[i]
    decreases |a| - from
  {
    if k > from {
      BeforeNextGreaterFrom(a, i, from + 1, k);
    }
  }

  /**
   * What the two problems record for position `k` once its next greater element is found at
   * `j`: the value there (`nextGreaterElement`) or the distance to it (`dailyTemperatures`).
   */
  function Found(a: seq<int>, k: int, j: int, values: bool): int
    requires 0 <= k < j < |a|
  {
    if values then a[j] else j - k
  }

  /** What the two problems record for a position with no greater element to its right. */
  function Default(values: bool): int
  {
    if values then -1 else 0
  }

  /** The answer for position `k`. */
  function Answer(a: seq<int>, k: int, values: bool): int
    requires 0 <= k < |a|
  {
    var j := NextGreaterIndex(a, k);
    if j < |a| then Found(a, k, j, values) else Default(values)
  }

  /**
   * `stack` holds, in increasing order, indices below `i` whose next greater element lies at
   * `i` or later, their values never increasing from bottom to top.
   */
  ghost predicate Waiting(a: seq<int>, i: int, stack: seq<int>)
    requires 0 <= i <= |a|
  {
    (forall p :: 0 <= p < |stack| ==> 0 <= stack[p] < i && NextGreaterIndex(a, stack[p]) >= i) &&
    (forall p, q :: 0 <= p < q < |stack| ==> stack[p] < stack[q] && a[stack[p]] >= a[stack[q]])
  }

  /**
   * The state of the outer loop before position `i`: every position whose answer lies below
   * `i` holds it, every other position below `i` waits on the stack, and the rest hold the
   * default.
   */
  ghost predicate Scanned(a: seq<int>, i: int, stack: seq<int>, r: seq<int>, values: bool)
  {
    0 <= i <= |a| == |r| && Waiting(a, i, stack) &&
    (forall k :: 0 <= k < i && NextGreaterIndex(a, k) < i ==> r[k] == Found(a, k, NextGreaterIndex(a, k), values)) &&
    (forall k :: 0 <= k < i && NextGreaterIndex(a, k) >= i ==> k in stack) &&
    (forall k :: 0 <= k < |a| && (k >= i || k in stack) ==> r[k] == Default(values))
  }

  /**
   * The state of the inner loop at position `i`: a position whose answer is `i` either still
   * waits on the stack or already holds it.
   */
  ghost predicate Popping(a: seq<int>, i: int, stack: seq<int>, r: seq<int>, values: bool)
  {
    0 <= i < |a| == |r| && Waiting(a, i, stack) &&
    (forall k :: 0 <= k < i && NextGreaterIndex(a, k) < i ==> r[k] == Found(a, k, NextGreaterIndex(a, k), values)) &&
    (forall k :: 0 <= k < i && NextGreaterIndex(a, k) >= i ==>
      (k in stack && r[k] == Default(values)) || (NextGreaterIndex(a, k) == i && r[k] == Found(a, k, i, values))) &&
    (forall k :: i <= k < |a| ==> r[k] == Default(values))
  }

  /** Before any position is read, every position holds the default. */
  lemma ScanStart(a: seq<int>, r: seq<int>, values: bool)
    requires |r| == |a| && forall k :: 0 <= k < |r| ==> r[k] == Default(values)
    ensures Scanned(a, 0, [], r, values)
  {
  }

  /** The inner loop starts from the outer loop's state. */
  lemma PopStart(a: seq<int>, i: int, stack: seq<int>, r: seq<int>, values: bool)
    requires Scanned(a, i, stack, r, values) && i < |a|
    ensures Popping(a, i, stack, r, values)
  {
  }

  /** Dropping the top of the stack keeps the others waiting. */
  lemma WaitingPop(a: seq<int>, i: int, stack: seq<int>)
    requires 0 <= i <= |a| && Waiting(a, i, stack) && stack != []
    ensures Waiting(a, i, stack[..|stack| - 1])
  {
  }

  /** A position on the stack other than the top stays on the stack once the top is dropped. */
  lemma InRest(stack: seq<int>, k: int)
    requires k in stack && stack != [] && k != stack[|stack| - 1]
    ensures k in stack[..|stack| - 1]
  {
    var p :| 0 <= p < |stack| && stack[p] == k;
    assert stack[..|stack| - 1][p] == k;
  }

  /** The top of the stack is below `a[i]`: `i` is its answer, recorded as it is popped. */
  lemma PopOne(a: seq<int>, i: int, stack: seq<int>, r: seq<int>, values: bool)
    requires Popping(a, i, stack, r, values)
    requires stack != [] && a[i] > a[stack[|stack| - 1]]
    ensures 0 <= stack[|stack| - 1] < i
    ensures Popping(a, i, stack[..|stack| - 1], r[stack[|stack| - 1] := Found(a, stack[|stack| - 1], i, values)], values)
  {
    var top := stack[|stack| - 1];
    var rest := stack[..|stack| - 1];
    var r' := r[top := Found(a, top, i, values)];
    if NextGreaterIndex(a, top) > i {
      BeforeNextGreater(a, top, i);
    }
    assert NextGreaterIndex(a, top) == i;
    WaitingPop(a, i, stack);
    forall k | 0 <= k < i && NextGreaterIndex(a, k) < i
      ensures r'[k] == Found(a, k, NextGreaterIndex(a, k), values)
    {
      assert k != top;
    }
    forall k | 0 <= k < i && NextGreaterIndex(a, k) >= i
      ensures (k in rest && r'[k] == Default(values)) || (NextGreaterIndex(a, k) == i && r'[k] == Found(a, k, i, values))
    {
      if k != top && k in stack {
        InRest(stack, k);
      }
    }
    forall k | i <= k < |a| ensures r'[k] == Default(values) {
    }
  }

  /** Once no waiting index is below `a[i]`, all of them still wait after `i`, and `i` joins them. */
  lemma PopEnd(a: seq<int>, i: int, stack: seq<int>, r: seq<int>, values: bool)
    requires Popping(a, i, stack, r, values)
    requires stack == [] || a[i] <= a[stack[|stack| - 1]]
    ensures Scanned(a, i + 1, stack + [i], r, values)
  {
    WaitingPush(a, i, stack);
    forall k | 0 <= k < i + 1 && NextGreaterIndex(a, k) < i + 1
      ensures r[k] == Found(a, k, NextGreaterIndex(a, k), values)
    {
      if NextGreaterIndex(a, k) == i {
        assert k !in stack;
      }
    }
    forall k | 0 <= k < |a| && (k >= i + 1 || k in stack + [i]) ensures r[k] == Default(values) {
      assert k in stack + [i] <==> k in stack || k == i;
    }
  }

  /** `i` joins the waiting indices on top once none of them is below `a[i]`. */
  lemma WaitingPush(a: seq<int>, i: int, stack: seq<int>)
    requires 0 <= i < |a| && Waiting(a, i, stack)
    requires stack == [] || a[i] <= a[stack[|stack| - 1]]
    ensures Waiting(a, i + 1, stack + [i])
  {
    var s' := stack + [i];
    forall p | 0 <= p < |stack| ensures NextGreaterIndex(a, stack[p]) >= i + 1 && a[stack[p]] >= a[i] {
      if p < |stack| - 1 {
        assert a[stack[p]] >= a[stack[|stack| - 1]];
      }
    }
    forall p, q | 0 <= p < q < |s'| ensures s'[p] < s'[q] && a[s'[p]] >= a[s'[q]] {
      if q < |stack| {
        assert s'[p] == stack[p] && s'[q] == stack[q];
      }
    }
  }

  /** After the last position every position holds its answer. */
  lemma ScanEnd(a: seq<int>, stack: seq<int>, r: seq<int>, values: bool)
    requires Scanned(a, |a|, stack, r, values)
    ensures forall k :: 0 <= k < |a| ==> r[k] == Answer(a, k, values)
  {
  }

  /**
   * The inner loop of both problems at position `i`: pop every waiting index whose value is
   * below `a[i]`, recording its answer in `res`.
   */
  method PopSmaller(a: seq<int>, i: int, stack: seq<int>, res: array<int>, values: bool) returns (rest: seq<int>)
    requires Scanned(a, i, stack, res[..], values) && i < |a|
    modifies res
    ensures Scanned(a, i + 1, rest + [i], res[..], values)
  {
    rest := stack;
    PopStart(a, i, rest, res[..], values);
    while |rest| > 0 && a[i] > a[rest[|rest| - 1]]
      invariant Popping(a, i, rest, res[..], values)
      decreases |rest|
    {
      ghost var r := res[..];
      PopOne(a, i, rest, r, values);
      var idx := rest[|rest| - 1];
      rest := rest[..|rest| - 1];
      res[idx] := if values then a[i] else i - idx;
      assert res[..] == r[idx := Found(a, idx, i, values)];
    }
    PopEnd(a, i, rest, res[..], values);
  }

  /** `nextGreaterElement(arr)`: for each position, the first greater value to its right, else -1. */
  method NextGreaterElement(arr: seq<int>) returns (result: seq<int>)
    ensures |result| == |arr|
    ensures forall i :: 0 <= i < |arr| ==>
      result[i] == (if NextGreaterIndex(arr, i) < |arr| then arr[NextGreaterIndex(arr, i)] else -1)
  {
    var res := new int[|arr|](_ => -1);
    var stack: seq<int> := [];
    ScanStart(arr, res[..], true);
    for i := 0 to |arr|
      invariant Scanned(arr, i, stack, res[..], true)
    {
      stack := PopSmaller(arr, i, stack, res, true);
      stack := stack + [i];
    }
    result := res[..];
    ScanEnd(arr, stack, result, true);
  }

  /** `dailyTemperatures(temps)`: for each day, how many days until a warmer one, else 0. */
  method DailyTemperatures(temps: seq<int>) returns (result: seq<int>)
    ensures |result| == |temps|
    ensures forall i :: 0 <= i < |temps| ==>
      result[i] == (if NextGreaterIndex(temps, i) < |temps| then NextGreaterIndex(temps, i) - i else 0)
  {
    var res := new int[|temps|](_ => 0);
    var stack: seq<int> := [];
    ScanStart(temps, res[..], false);
    for i := 0 to |temps|
      invariant Scanned(temps, i, stack, res[..], false)
    {
      stack := PopSmaller(temps, i, stack, res, false);
      stack := stack + [i];
    }
    result := res[..];
    ScanEnd(temps, stack, result, false);
  }

  /** No two neighbouring characters of `t` are equal. */
  predicate NoAdjacentEqual(t: string)
  {
    forall k :: 0 < k < |t| ==> t[k - 1] != t[k]
  }

  /** One character of `removeDuplicates`: it cancels an equal top of the stack, or is pushed. */
  function PushOrCancel(t: string, c: char): string
  {
    if t != [] && t[|t| - 1] == c then t[..|t| - 1] else t + [c]
  }

  /** The stack after reading `s` from `t`. */
  function Fold(t: string, s: string): string
  {
    if s == [] then t else PushOrCancel(Fold(t, s[..|s| - 1]), s[|s| - 1])
  }

  /** What `removeDuplicates(s)` returns. */
  function Collapse(s: string): string
  {
    Fold([], s)
  }

  /** Reading `a` then `b` is reading `a + b`. */
  lemma {:induction false} FoldAppend(t: string, a: string, b: string)
    ensures Fold(t, a + b) == Fold(Fold(t, a), b)
    decreases |b|
  {
    if b == [] {
      assert a + b == a;
    } else {
      assert (a + b)[..|a + b| - 1] == a + b[..|b| - 1];
      FoldAppend(t, a, b[..|b| - 1]);
    }
  }

  /** Reading from a stack without equal neighbours leaves one without equal neighbours. */
  lemma {:induction false} FoldReduced(t: string, s: string)
    requires NoAdjacentEqual(t)
    ensures NoAdjacentEqual(Fold(t, s))
    decreases |s|
  {
    if s != [] {
      FoldReduced(t, s[..|s| - 1]);
    }
  }

  /** The result never has two equal neighbours. */
  lemma CollapseReduced(s: string)
    ensures NoAdjacentEqual(Collapse(s))
  {
    FoldReduced([], s);
  }

  /** A string without equal neighbours is its own result: `removeDuplicates` is idempotent. */
  lemma {:induction false} CollapseFixed(t: string)
    requires NoAdjacentEqual(t)
    ensures Collapse(t) == t
    decreases |t|
  {
    if t != [] {
      var p := t[..|t| - 1];
      assert NoAdjacentEqual(p);
      CollapseFixed(p);
      assert t == p + [t[|t| - 1]];
    }
  }

  /** Two equal characters read from a stack without equal neighbours cancel out. */
  lemma FoldPair(t: string, c: char)
    requires NoAdjacentEqual(t)
    ensures Fold(t, [c, c]) == t
  {
    assert Fold(t, [c, c]) == PushOrCancel(PushOrCancel(t, c), c) by {
      assert [c, c][..1] == [c] && [c][..0] == [];
      assert Fold(t, [c]) == PushOrCancel(Fold(t, []), c);
    }
    if t != [] && t[|t| - 1] == c {
      var u := t[..|t| - 1];
      assert u != [] ==> u[|u| - 1] != c by {
        if u != [] {
          assert t[|t| - 2] != t[|t| - 1];
        }
      }
      assert u + [c] == t;
    } else {
      assert (t + [c])[..|t + [c]| - 1] == t;
    }
  }

  /** Removing two equal neighbours anywhere in the input does not change the result. */
  lemma CollapseCancelsPair(x: string, c: char, y: string)
    ensures Collapse(x + [c, c] + y) == Collapse(x + y)
  {
    CollapseReduced(x);
    FoldAppend([], x + [c, c], y);
    FoldAppend([], x, [c, c]);
    FoldAppend([], x, y);
    FoldPair(Collapse(x), c);
  }

  /** `removeDuplicates(s)`. */
  method RemoveDuplicates(s: string) returns (r: string)
    ensures r == Collapse(s) && NoAdjacentEqual(r)
  {
    var stack: string := [];
    for i := 0 to |s|
      invariant stack == Fold([], s[..i])
    {
      assert s[..i + 1][..i] == s[..i];
      var ch := s[i];
      if |stack| > 0 && stack[|stack| - 1] == ch {
        stack := stack[..|stack| - 1];
      } else {
        stack := stack + [ch];
      }
    }
    assert s[..|s|] == s;
    CollapseReduced(s);
    r := stack;
  }
}
