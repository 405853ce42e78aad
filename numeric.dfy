/**
 * Numeric helpers shared by the outbreak model: Python's `max`/`min` on
 * integers, Python's `int()` applied to a float (truncation toward zero),
 * and the integer division facts behind NumPy's `unravel_index`.
 */
module Numeric {

  function Max(a: int, b: int): (m: int)
    ensures m >= a && m >= b && (m == a || m == b)
  {
    if a >= b then a else b
  }

  function Min(a: int, b: int): (m: int)
    ensures m <= a && m <= b && (m == a || m == b)
  {
    if a <= b then a else b
  }

  /** Python's `int(v)` for a float `v`: rounds toward zero. */
  function Trunc(v: real): (t: int)
    ensures v >= 0.0 ==> 0 <= t && t as real <= v < t as real + 1.0
    ensures v < 0.0 ==> t <= 0 && t as real - 1.0 < v <= t as real
  {
    if v >= 0.0 then v.Floor else -((-v).Floor)
  }

  /** Truncation is monotone, so widening a real interval never shrinks its truncated ends. */
  lemma TruncMonotone(u: real, v: real)
    requires u <= v
    ensures Trunc(u) <= Trunc(v)
  {
  }

  /** The quotient and remainder of a division are determined by the defining equation. */
  lemma DivModUnique(k: int, n: int, q: int, r: int)
    requires n > 0 && 0 <= r < n && k == q * n + r
    ensures k / n == q && k % n == r
  {
    var q', r' := k / n, k % n;
    assert k == q' * n + r';
    if q' < q {
      MulLeq(q' + 1, q, n);
      assert false;
    } else if q < q' {
      MulLeq(q + 1, q', n);
      assert false;
    }
  }

  /** An index below n * w lies in one of the n rows of width w. */
  lemma DivBelow(k: nat, n: nat, w: nat)
    requires k < n * w
    ensures w > 0 && k / w < n && k == (k / w) * w + k % w
  {
    assert w > 0;
    if k / w >= n {
      MulLeq(n, k / w, w);
      assert false;
    }
  }

  lemma MulLeq(a: int, b: int, n: int)
    requires a <= b && n >= 0
    ensures a * n <= b * n
  {
  }
}
