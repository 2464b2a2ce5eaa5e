/**
 * `isValidParentheses` of the stack notes: a string is accepted when every closing bracket
 * pops its own opening bracket off a stack and the stack ends empty. The grammar of
 * properly nested brackets is the reference, and acceptance is proved equivalent to it.
 */
module Parentheses {
  import opened Wrappers

  /** The keys of the source's `map`: the closing brackets. */
  predicate IsCloser(c: char)
  {
    c == ')' || c == ']' || c == '}'
  }

  /** The source's `map`: the opening bracket each closing bracket expects. */
  function Opener(c: char): char
    requires IsCloser(c)
  {
    if c == ')' then '(' else if c == ']' then '[' else '{'
  }

  /** `o` and `c` are the two halves of one kind of bracket. */
  predicate Pair(o: char, c: char)
  {
    (o == '(' && c == ')') || (o == '[' && c == ']') || (o == '{' && c == '}')
  }

  /**
   * Properly nested brackets: empty, or an opening bracket, a nested string, its closing
   * bracket, and another nested string.
   */
  ghost predicate Balanced(s: string)
    decreases |s|
  {
    s == [] ||
    exists k :: 2 <= k <= |s| && Pair(s[0], s[k - 1]) && Balanced(s[1..k - 1]) && Balanced(s[k..])
  }

  /** One character of the loop: a closer pops and compares, anything else is pushed. */
  function Step(st: Option<string>, c: char): Option<string>
  {
    match st
    case None => None
    case Some(t) =>
      if IsCloser(c) then
        if t == [] || t[|t| - 1] != Opener(c) then None else Some(t[..|t| - 1])
      else Some(t + [c])
  }

  /** The stack after the loop has read `s` starting from `st`; `None` once it has returned false. */
  function Run(st: string, s: string): Option<string>
  {
    if s == [] then Some(st) else Step(Run(st, s[..|s| - 1]), s[|s| - 1])
  }

  /** Reading `a` then `b` is reading `a + b`. */
  lemma {:induction false} RunAppend(st: string, a: string, b: string)
    ensures Run(st, a + b) == (match Run(st, a) case None => None case Some(t) => Run(t, b))
    decreases |b|
  {
    if b == [] {
      assert a + b == a;
    } else {
      var b' := b[..|b| - 1];
      assert (a + b)[..|a + b| - 1] == a + b';
      RunAppend(st, a, b');
      if Run(st, a).Some? {
        assert Run(Run(st, a).value, b) == Step(Run(Run(st, a).value, b'), b[|b| - 1]);
      }
    }
  }

  /** Once the loop has returned false it stays false. */
  lemma RunFailed(st: string, a: string, b: string)
    requires Run(st, a) == None
    ensures Run(st, a + b) == None
  {
    RunAppend(st, a, b);
  }

  /** Values below the starting stack are never looked at by a run that succeeds. */
  lemma {:induction false} RunBelow(bottom: string, st: string, s: string)
    requires Run(st, s).Some?
    ensures Run(bottom + st, s) == Some(bottom + Run(st, s).value)
    decreases |s|
  {
    if s != [] {
      var s' := s[..|s| - 1];
      assert Run(st, s').Some?;
      RunBelow(bottom, st, s');
      var t := Run(st, s').value;
      if IsCloser(s[|s| - 1]) {
        assert (bottom + t)[..|bottom + t| - 1] == bottom + t[..|t| - 1];
      } else {
        assert (bottom + t) + [s[|s| - 1]] == bottom + (t + [s[|s| - 1]]);
      }
    }
  }

  /**
   * A run from `[c]` that keeps `c` on the stack throughout is a run from the empty stack
   * with `c` underneath.
   */
  lemma {:induction false} RunAbove(c: char, x: string)
    requires forall j :: 0 <= j <= |x| ==> Run([c], x[..j]).Some? && Run([c], x[..j]).value != []
    ensures Run([], x).Some? && Run([c], x) == Some([c] + Run([], x).value)
    decreases |x|
  {
    if x != [] {
      var x' := x[..|x| - 1];
      forall j | 0 <= j <= |x'| ensures Run([c], x'[..j]).Some? && Run([c], x'[..j]).value != [] {
        assert x'[..j] == x[..j];
      }
      RunAbove(c, x');
      assert x[..|x|] == x;
      var t := Run([], x').value;
      var ch := x[|x| - 1];
      assert Run([c], x) == Step(Some([c] + t), ch);
      assert Run([], x) == Step(Some(t), ch);
      if IsCloser(ch) {
        assert t != [] && t[|t| - 1] == Opener(ch);
        assert ([c] + t)[|[c] + t| - 1] == t[|t| - 1];
        assert ([c] + t)[..|[c] + t| - 1] == [c] + t[..|t| - 1];
      } else {
        assert ([c] + t) + [ch] == [c] + (t + [ch]);
      }
    } else {
      assert [c] + [] == [c];
    }
  }

  /** A bracket pair around a string that leaves the stack as it was leaves it as it was too. */
  lemma RunWrapped(st: string, o: char, inner: string, c: char)
    requires Pair(o, c) && Run(st + [o], inner) == Some(st + [o])
    ensures Run(st, [o] + inner + [c]) == Some(st)
  {
    RunAppend(st, [o] + inner, [c]);
    RunAppend(st, [o], inner);
    assert Run(st, [o]) == Some(st + [o]) by {
      assert [o][..0] == [];
    }
    assert Run(st + [o], [c]) == Some(st) by {
      assert [c][..0] == [];
      assert (st + [o])[..|st + [o]| - 1] == st;
    }
  }

  /** The split a non-empty properly nested string is made of. */
  lemma BalancedSplit(s: string) returns (k: int)
    requires Balanced(s) && s != []
    ensures 2 <= k <= |s| && Pair(s[0], s[k - 1]) && Balanced(s[1..k - 1]) && Balanced(s[k..])
  {
    k :| 2 <= k <= |s| && Pair(s[0], s[k - 1]) && Balanced(s[1..k - 1]) && Balanced(s[k..]);
  }

  /** Reading a leading bracket pair that leaves the stack as it was, then the rest. */
  lemma RunPairThenRest(st: string, s: string, k: int)
    requires 2 <= k <= |s| && Pair(s[0], s[k - 1])
    requires Run(st + [s[0]], s[1..k - 1]) == Some(st + [s[0]])
    ensures Run(st, s) == Run(st, s[k..])
  {
    var w := [s[0]] + s[1..k - 1] + [s[k - 1]];
    assert s == w + s[k..] by {
      assert s[..k] == w;
    }
    RunWrapped(st, s[0], s[1..k - 1], s[k - 1]);
    RunAppend(st, w, s[k..]);
  }

  /** Completeness: a properly nested string leaves any starting stack as it was. */
  lemma {:induction false} BalancedRuns(st: string, s: string)
    requires Balanced(s)
    ensures Run(st, s) == Some(st)
    decreases |s|
  {
    if s != [] {
      var k := BalancedSplit(s);
      BalancedRuns(st + [s[0]], s[1..k - 1]);
      RunPairThenRest(st, s, k);
      BalancedRuns(st, s[k..]);
    }
  }

  /** Every prefix of a string the loop gets through is one it gets through. */
  lemma PrefixRunsSucceed(s: string)
    requires Run([], s).Some?
    ensures forall j :: 0 <= j <= |s| ==> Run([], s[..j]).Some?
  {
    forall j | 0 <= j <= |s| ensures Run([], s[..j]).Some? {
      if Run([], s[..j]) == None {
        assert s[..j] + s[j..] == s;
        RunFailed([], s[..j], s[j..]);
      }
    }
  }

  /** After an opening character the loop carries on from the stack holding it. */
  lemma RunAfterFirst(s: string, j: int)
    requires 1 <= j <= |s| && !IsCloser(s[0])
    ensures Run([], s[..j]) == Run([s[0]], s[1..j])
  {
    assert s[..j] == [s[0]] + s[1..j];
    RunAppend([], [s[0]], s[1..j]);
    assert Run([], [s[0]]) == Some([s[0]]) by {
      assert [s[0]][..0] == [];
      assert [] + [s[0]] == [s[0]];
    }
  }

  /** Until the first return to the empty stack, the run after the first character keeps it underneath. */
  lemma KeepsFirst(s: string, k: int, x: string)
    requires 2 <= k <= |s| && !IsCloser(s[0]) && x == s[1..k - 1]
    requires forall j :: 1 <= j < k ==> Run([], s[..j]).Some? && Run([], s[..j]) != Some([])
    ensures forall j :: 0 <= j <= |x| ==> Run([s[0]], x[..j]).Some? && Run([s[0]], x[..j]).value != []
  {
    forall j | 0 <= j <= |x| ensures Run([s[0]], x[..j]).Some? && Run([s[0]], x[..j]).value != [] {
      RunAfterFirst(s, 1 + j);
      assert s[1..1 + j] == x[..j];
    }
  }

  /** The only step that ends at the empty stack pops the sole opener its closer expects. */
  lemma StepToEmpty(t: string, c: char)
    requires Step(Some(t), c) == Some([])
    ensures IsCloser(c) && t == [Opener(c)]
  {
    if IsCloser(c) {
      assert t == t[..|t| - 1] + [t[|t| - 1]];
    }
  }

  /**
   * A non-empty string the loop reads from the empty stack back to it splits at the first
   * return to the empty stack: a bracket pair around a string read from empty to empty,
   * then the rest, also read from empty to empty.
   */
  lemma FirstClose(s: string) returns (k: int)
    requires s != [] && Run([], s) == Some([])
    ensures 2 <= k <= |s| && Pair(s[0], s[k - 1])
    ensures Run([], s[1..k - 1]) == Some([]) && Run([], s[k..]) == Some([])
  {
    PrefixRunsSucceed(s);
    var o := s[0];
    assert Run([], s[..1]) == Step(Some([]), o) by {
      assert s[..1][..0] == [];
    }
    assert !IsCloser(o);
    k := FirstEmpty(s, 1);
    assert k >= 2;
    var x := s[1..k - 1];
    KeepsFirst(s, k, x);
    RunAbove(o, x);
    RunAfterFirst(s, k - 1);
    assert Run([], s[..k]) == Step(Run([], s[..k - 1]), s[k - 1]) by {
      assert s[..k][..k - 1] == s[..k - 1];
    }
    StepToEmpty([o] + Run([], x).value, s[k - 1]);
    assert s == s[..k] + s[k..];
    RunAppend([], s[..k], s[k..]);
  }

  /** Soundness: a string the loop reads from the empty stack back to the empty stack is properly nested. */
  lemma {:induction false} RunsBalanced(s: string)
    requires Run([], s) == Some([])
    ensures Balanced(s)
    decreases |s|
  {
    if s != [] {
      var k := FirstClose(s);
      RunsBalanced(s[1..k - 1]);
      RunsBalanced(s[k..]);
    }
  }

  /** The least `k >= from` at which the run over `s[..k]` is back at the empty stack. */
  ghost function FirstEmpty(s: string, from: nat): (k: nat)
    requires 1 <= from <= |s| && Run([], s) == Some([])
    ensures from <= k <= |s| && Run([], s[..k]) == Some([])
    ensures forall j :: from <= j < k ==> Run([], s[..j]) != Some([])
    decreases |s| - from
  {
    assert s[..|s|] == s;
    if Run([], s[..from]) == Some([]) then from else FirstEmpty(s, from + 1)
  }

  /** `isValidParentheses(s)`. */
  method IsValidParentheses(s: string) returns (r: bool)
    ensures r <==> Balanced(s)
  {
    var stack: string := [];
    for i := 0 to |s|
      invariant Run([], s[..i]) == Some(stack)
    {
      var ch := s[i];
      assert s[..i + 1][..i] == s[..i];
      if IsCloser(ch) {
        if stack == [] || stack[|stack| - 1] != Opener(ch) {
          assert Run([], s[..i + 1]) == None;
          RunFailed([], s[..i + 1], s[i + 1..]);
          assert s[..i + 1] + s[i + 1..] == s;
          if Balanced(s) {
            BalancedRuns([], s);
          }
          return false;
        }
        stack := stack[..|stack| - 1];
      } else {
        stack := stack + [ch];
      }
    }
    assert s[..|s|] == s;
    r := |stack| == 0;
    if r {
      RunsBalanced(s);
    } else if Balanced(s) {
      BalancedRuns([], s);
    }
  }
}
