/**
 * The string hash shared by every hash table of the repository: `simpleHash(key, size)` of the
 * notes and `_hash(key)` of the course table accumulate `(hash + charCode * 23) % size` over the
 * characters of the key, starting from 0.
 */
module StringHash {

  /** `key.charCodeAt(i)`: the code of a character. */
  function Code(c: char): nat { c as nat }

  /** The accumulator after the loop has consumed all of `key`, reducing modulo `size` at each step. */
  function HashOf(key: string, size: int): (h: int)
    requires size >= 1
    ensures 0 <= h < size
  {
    if |key| == 0 then 0 else (HashOf(key[..|key| - 1], size) + Code(key[|key| - 1]) * 23) % size
  }

  /** The sum of the character codes of `key`. */
  function CodeSum(key: string): nat
  {
    if |key| == 0 then 0 else CodeSum(key[..|key| - 1]) + Code(key[|key| - 1])
  }

  /** A product of two positive numbers is at least either factor. */
  lemma MulAtLeast(m: int, n: int)
    requires m >= 1 && n >= 1
    ensures m * n >= n
  {
    if m > 1 {
      MulAtLeast(m - 1, n);
      assert m * n == (m - 1) * n + n;
    }
  }

  /** Euclidean division is unique: a representation y == q * n + r with 0 <= r < n fixes y % n. */
  lemma ModUnique(y: int, q: int, r: int, n: int)
    requires n >= 1 && 0 <= r < n && y == q * n + r
    ensures y % n == r
  {
    var q' := y / n;
    var r' := y % n;
    assert y == q' * n + r';
    assert (q - q') * n == r' - r;
    if q > q' {
      MulAtLeast(q - q', n);
    } else if q < q' {
      MulAtLeast(q' - q, n);
    }
  }

  /** Adding one multiple of n changes nothing modulo n. */
  lemma ModStep(x: int, n: int)
    requires n >= 1
    ensures (x + n) % n == x % n
  {
    var k := x / n;
    assert x == k * n + x % n;
    assert x + n == (k + 1) * n + x % n;
    ModUnique(x + n, k + 1, x % n, n);
  }

  lemma {:induction false} ModShift(x: int, k: nat, n: int)
    requires n >= 1
    ensures (x + k * n) % n == x % n
  {
    if k > 0 {
      ModShift(x, k - 1, n);
      ModStep(x + (k - 1) * n, n);
      assert x + k * n == x + (k - 1) * n + n;
    }
  }

  /** Reducing a partial sum modulo n before adding changes nothing modulo n. */
  lemma ModAddLeft(a: int, b: int, n: int)
    requires n >= 1 && a >= 0
    ensures (a % n + b) % n == (a + b) % n
  {
    var k := a / n;
    assert a == k * n + a % n;
    ModShift(a % n + b, k, n);
  }

  /**
   * Reducing modulo the size at every step gives the same result as reducing once at the end:
   * the hash is 23 times the code sum, modulo the size.
   */
  lemma {:induction false} HashIsScaledCodeSum(key: string, size: int)
    requires size >= 1
    ensures HashOf(key, size) == (23 * CodeSum(key)) % size
  {
    if |key| > 0 {
      var init := key[..|key| - 1];
      var c := Code(key[|key| - 1]);
      HashIsScaledCodeSum(init, size);
      ModAddLeft(23 * CodeSum(init), c * 23, size);
      assert 23 * CodeSum(key) == 23 * CodeSum(init) + c * 23;
    }
  }

  /** One more character: the accumulator step of the loop. */
  lemma HashSnoc(init: string, c: char, size: int)
    requires size >= 1
    ensures HashOf(init + [c], size) == (HashOf(init, size) + Code(c) * 23) % size
  {
    assert (init + [c])[..|init|] == init;
  }

  /** `simpleHash(key, size)` / `_hash(key)`: the accumulator loop over the characters of the key. */
  method SimpleHash(key: string, size: int) returns (h: int)
    requires size >= 1
    ensures h == HashOf(key, size)
    ensures 0 <= h < size
    ensures key == "" ==> h == 0
  {
    h := 0;
    for i := 0 to |key|
      invariant h == HashOf(key[..i], size)
    {
      assert key[..i + 1][..i] == key[..i];
      h := (h + Code(key[i]) * 23) % size;
    }
    assert key[..|key|] == key;
  }
}
