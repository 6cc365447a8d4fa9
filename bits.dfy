/** Bitwise operations on non-negative integers, defined one bit at a time
  * from the least significant end. */
module Bits {

  function Pow2(n: nat): (p: nat)
    ensures p >= 1
  {
    if n == 0 then 1 else 2 * Pow2(n - 1)
  }

  /** Bit `i` of `x`. */
  function Bit(x: nat, i: nat): (b: nat)
    ensures b < 2
  {
    if i == 0 then x % 2 else Bit(x / 2, i - 1)
  }

  /** `a & b`. */
  function And(a: nat, b: nat): nat
  {
    if a == 0 || b == 0 then 0
    else 2 * And(a / 2, b / 2) + (if a % 2 == 1 && b % 2 == 1 then 1 else 0)
  }

  /** `a ^ b`. */
  function Xor(a: nat, b: nat): nat
    decreases a + b
  {
    if a == 0 then b
    else if b == 0 then a
    else 2 * Xor(a / 2, b / 2) + (if a % 2 == b % 2 then 0 else 1)
  }

  lemma {:induction false} BitOfZero(i: nat)
    ensures Bit(0, i) == 0
  {
    if i > 0 {
      BitOfZero(i - 1);
    }
  }

  /** Bit `i` of `a & b` is set exactly when it is set in both. */
  lemma {:induction false} BitOfAnd(a: nat, b: nat, i: nat)
    ensures Bit(And(a, b), i) == if Bit(a, i) == 1 && Bit(b, i) == 1 then 1 else 0
    decreases i
  {
    if a == 0 || b == 0 {
      BitOfZero(i);
    } else if i > 0 {
      BitOfAnd(a / 2, b / 2, i - 1);
    }
  }

  /** `a & b` is non-zero exactly when `a` and `b` share a set bit. */
  lemma {:induction false} AndNonZero(a: nat, b: nat)
    ensures And(a, b) != 0 <==> exists i: nat :: Bit(a, i) == 1 && Bit(b, i) == 1
    decreases a
  {
    if And(a, b) != 0 {
      if a % 2 == 1 && b % 2 == 1 {
        assert Bit(a, 0) == 1 && Bit(b, 0) == 1;
      } else {
        AndNonZero(a / 2, b / 2);
        var j: nat :| Bit(a / 2, j) == 1 && Bit(b / 2, j) == 1;
        assert Bit(a, j + 1) == 1 && Bit(b, j + 1) == 1;
      }
    }
    if exists i: nat :: Bit(a, i) == 1 && Bit(b, i) == 1 {
      var i: nat :| Bit(a, i) == 1 && Bit(b, i) == 1;
      BitOfAnd(a, b, i);
      if And(a, b) == 0 {
        BitOfZero(i);
      }
    }
  }

  lemma {:induction false} XorSelf(a: nat)
    ensures Xor(a, a) == 0
  {
    if a != 0 {
      XorSelf(a / 2);
    }
  }

  /** XOR with the same value twice gives the value back. */
  lemma {:induction false} XorSelfInverse(a: nat, b: nat)
    ensures Xor(Xor(a, b), b) == a
    decreases a + b
  {
    if a == 0 {
      XorSelf(b);
    } else if b != 0 {
      XorSelfInverse(a / 2, b / 2);
      var x := Xor(a / 2, b / 2);
      var low := if a % 2 == b % 2 then 0 else 1;
      var c := Xor(a, b);
      assert c == 2 * x + low;
      if c != 0 {
        assert c / 2 == x && c % 2 == low;
        assert Xor(c, b) == 2 * Xor(x, b / 2) + (if low == b % 2 then 0 else 1);
        assert Xor(x, b / 2) == a / 2;
        assert (if low == b % 2 then 0 else 1) == a % 2;
      } else {
        assert x == 0 && low == 0;
        assert a / 2 == b / 2;
      }
    }
  }

  /** XOR of two `n`-bit values is an `n`-bit value. */
  lemma {:induction false} XorBound(a: nat, b: nat, n: nat)
    requires a < Pow2(n) && b < Pow2(n)
    ensures Xor(a, b) < Pow2(n)
    decreases n
  {
    if n > 0 && a != 0 && b != 0 {
      XorBound(a / 2, b / 2, n - 1);
    }
  }

  /** `a & 2^k` keeps bit `k` of `a` and nothing else. */
  lemma {:induction false} AndPow2(a: nat, k: nat)
    ensures And(a, Pow2(k)) == if Bit(a, k) == 1 then Pow2(k) else 0
    decreases k
  {
    if a == 0 {
      BitOfZero(k);
    } else if k > 0 {
      assert Pow2(k) % 2 == 0 && Pow2(k) / 2 == Pow2(k - 1);
      AndPow2(a / 2, k - 1);
    }
  }

  lemma {:induction false} XorCommutes(a: nat, b: nat)
    ensures Xor(a, b) == Xor(b, a)
    decreases a + b
  {
    if a != 0 && b != 0 {
      XorCommutes(a / 2, b / 2);
    }
  }
}
