/** Facts about Dafny's Euclidean `%` used by the ring buffers. */
module ModArith {

  lemma UniqueMod(y: int, q: int, r: int, n: int)
    requires n > 0 && 0 <= r < n && y == q * n + r
    ensures y % n == r && y / n == q
  {
    var q2, r2 := y / n, y % n;
    assert (q2 - q) * n == r - r2;
    ZeroMultiple(q2 - q, n);
  }

  lemma ZeroMultiple(k: int, n: int)
    requires n > 0 && -n < k * n < n
    ensures k == 0
  {
  }

  lemma ModMultiple(x: int, k: int, n: int)
    requires n > 0
    ensures (x + k * n) % n == x % n
  {
    var q, r := x / n, x % n;
    assert x + k * n == (q + k) * n + r;
    UniqueMod(x + k * n, q + k, r, n);
  }

  /** Reducing a summand first does not change the remainder. */
  lemma ModShift(a: int, i: int, n: int)
    requires n > 0
    ensures ((a % n) + i) % n == (a + i) % n
  {
    var k := a / n;
    assert a == k * n + a % n;
    ModMultiple((a % n) + i, k, n);
  }

  /** On `[-n, 2n)` the remainder is one subtraction or addition away. */
  lemma ModSmall(x: int, n: int)
    requires n > 0 && -n <= x < 2 * n
    ensures x % n == if x < 0 then x + n else if x < n then x else x - n
  {
    if x < 0 {
      UniqueMod(x, -1, x + n, n);
    } else if x < n {
      UniqueMod(x, 0, x, n);
    } else {
      UniqueMod(x, 1, x - n, n);
    }
  }

  /** C#'s `%` on `int`, which truncates toward zero: the remainder takes
    * the sign of the dividend. */
  function CsRem(a: int, n: int): (r: int)
    requires n > 0
    ensures -n < r < n
    ensures a >= 0 ==> r == a % n
    ensures a < 0 ==> r <= 0
  {
    if a >= 0 then a % n else -((-a) % n)
  }
}
