/** Fixed-width integers and their little-endian byte encodings, as
  * written and read by `System.Buffers.Binary.BinaryPrimitives`. */
module Bytes {

  /** An unsigned 8-bit value. */
  newtype byte = x: int | 0 <= x < 0x100

  /** 256 to the power `n`: the number of values `n` bytes can hold. */
  function Pow256(n: nat): (p: nat)
    ensures p >= 1
  {
    if n == 0 then 1 else 256 * Pow256(n - 1)
  }

  predicate IsU8(x: int)  { 0 <= x < 0x100 }
  predicate IsU16(x: int) { 0 <= x < 0x1_0000 }
  predicate IsU32(x: int) { 0 <= x < 0x1_0000_0000 }
  predicate IsU64(x: int) { 0 <= x < 0x1_0000_0000_0000_0000 }
  predicate IsI16(x: int) { -0x8000 <= x < 0x8000 }
  predicate IsI32(x: int) { -0x8000_0000 <= x < 0x8000_0000 }

  const INT_MAX: int := 0x7fff_ffff
  const INT_MIN: int := -0x8000_0000

  /** Two's-complement bit pattern of `x` in `n` bytes. */
  function Unsigned(x: int, n: nat): (u: nat)
    ensures u < Pow256(n)
  {
    x % Pow256(n)
  }

  /** The low byte of `v`. */
  function Low(v: nat): byte
  {
    (v % 0x100) as byte
  }

  /** Little-endian encodings of signed and unsigned fixed-width values;
    * each writes the low bits of `x` (two's complement when negative). */
  function WriteU16(x: int): (r: seq<byte>)
    ensures |r| == 2
  {
    var u0 := x % 0x1_0000;
    [Low(u0), Low(u0 / 0x100)]
  }

  function WriteU32(x: int): (r: seq<byte>)
    ensures |r| == 4
  {
    var u0 := x % 0x1_0000_0000;
    var u1 := u0 / 0x100;
    var u2 := u1 / 0x100;
    [Low(u0), Low(u1), Low(u2), Low(u2 / 0x100)]
  }

  function WriteU64(x: int): (r: seq<byte>)
    ensures |r| == 8
  {
    var u := x % 0x1_0000_0000_0000_0000;
    WriteU32(u % 0x1_0000_0000) + WriteU32(u / 0x1_0000_0000)
  }

  function WriteI16(x: int): (r: seq<byte>)
    ensures |r| == 2
  {
    WriteU16(x)
  }

  function WriteI32(x: int): (r: seq<byte>)
    ensures |r| == 4
  {
    WriteU32(x)
  }

  function ReadU16(bs: seq<byte>): (v: int)
    requires |bs| >= 2
    ensures IsU16(v)
  {
    bs[0] as int + 0x100 * bs[1] as int
  }

  function ReadU32(bs: seq<byte>): (v: int)
    requires |bs| >= 4
    ensures IsU32(v)
  {
    bs[0] as int + 0x100 * bs[1] as int + 0x1_0000 * bs[2] as int + 0x100_0000 * bs[3] as int
  }

  function ReadU64(bs: seq<byte>): (v: int)
    requires |bs| >= 8
    ensures IsU64(v)
  {
    ReadU32(bs) + 0x1_0000_0000 * ReadU32(bs[4..])
  }

  function ReadI16(bs: seq<byte>): (v: int)
    requires |bs| >= 2
    ensures IsI16(v)
  {
    var u := ReadU16(bs);
    if u >= 0x8000 then u - 0x1_0000 else u
  }

  function ReadI32(bs: seq<byte>): (v: int)
    requires |bs| >= 4
    ensures IsI32(v)
  {
    var u := ReadU32(bs);
    if u >= 0x8000_0000 then u - 0x1_0000_0000 else u
  }

  // ----- reading back what was written -----

  /** Division by 256 is determined by the low byte and the rest. */
  lemma DivMod256(u: int, q: int, r: int)
    requires u == 0x100 * q + r && 0 <= r < 0x100
    ensures u / 0x100 == q && u % 0x100 == r
  {
  }

  lemma ReadWriteU16(x: int, rest: seq<byte>)
    requires IsU16(x)
    ensures ReadU16(WriteU16(x) + rest) == x
  {
    var bs := WriteU16(x) + rest;
    assert x % 0x1_0000 == x;
    assert bs[0] == WriteU16(x)[0] && bs[1] == WriteU16(x)[1];
    DivMod256(x, x / 0x100, x % 0x100);
  }

  /** The four low bytes of `u` put back together give `u`. */
  lemma Digits32(u: int)
    requires IsU32(u)
    ensures ReadU32(WriteU32(u)) == u
  {
    assert u % 0x1_0000_0000 == u;
    var u1 := u / 0x100;
    var u2 := u1 / 0x100;
    var u3 := u2 / 0x100;
    assert u == 0x100 * u1 + u % 0x100;
    assert u1 == 0x100 * u2 + u1 % 0x100;
    assert u2 == 0x100 * u3 + u2 % 0x100;
    assert u3 < 0x100;
    assert WriteU32(u) == [Low(u), Low(u1), Low(u2), Low(u3)];
  }

  lemma ReadWriteU32(x: int, rest: seq<byte>)
    requires IsU32(x)
    ensures ReadU32(WriteU32(x) + rest) == x
  {
    var w := WriteU32(x);
    var bs := w + rest;
    assert bs[0] == w[0] && bs[1] == w[1] && bs[2] == w[2] && bs[3] == w[3];
    Digits32(x);
  }

  lemma ReadWriteU64(x: int, rest: seq<byte>)
    requires IsU64(x)
    ensures ReadU64(WriteU64(x) + rest) == x
  {
    var lo, hi := x % 0x1_0000_0000, x / 0x1_0000_0000;
    assert x % 0x1_0000_0000_0000_0000 == x;
    var bs := WriteU64(x) + rest;
    assert bs == WriteU32(lo) + (WriteU32(hi) + rest);
    ReadWriteU32(lo, WriteU32(hi) + rest);
    assert bs[4..] == WriteU32(hi) + rest;
    ReadWriteU32(hi, rest);
  }

  /** The bit pattern of a value in range, and the value of a pattern. */
  lemma TwosComplement(x: int, p: int)
    requires p > 0 && -p <= 2 * x < p
    ensures 0 <= x ==> x % p == x
    ensures x < 0 ==> x % p == x + p
    ensures 2 * (x % p) >= p <==> x < 0
  {
    if x < 0 {
      ModOfNegative(x, p);
    } else {
      ModOfSmall(x, p);
    }
  }

  lemma ModOfSmall(x: int, p: int)
    requires 0 <= x < p
    ensures x % p == x
  {
  }

  lemma ModOfNegative(x: int, p: int)
    requires -p <= x < 0
    ensures x % p == x + p
  {
  }

  lemma ReadWriteI16(x: int, rest: seq<byte>)
    requires IsI16(x)
    ensures ReadI16(WriteI16(x) + rest) == x
  {
    var u := x % 0x1_0000;
    TwosComplement(x, 0x1_0000);
    assert u % 0x1_0000 == u;
    assert WriteI16(x) == WriteU16(u);
    ReadWriteU16(u, rest);
  }

  lemma ReadWriteI32(x: int, rest: seq<byte>)
    requires IsI32(x)
    ensures ReadI32(WriteI32(x) + rest) == x
  {
    var u := x % 0x1_0000_0000;
    TwosComplement(x, 0x1_0000_0000);
    assert u % 0x1_0000_0000 == u;
    assert WriteI32(x) == WriteU32(u);
    ReadWriteU32(u, rest);
  }

  // ----- writing back what was read -----

  lemma WriteReadU16(bs: seq<byte>)
    requires |bs| >= 2
    ensures WriteU16(ReadU16(bs)) == bs[..2]
  {
    var u := ReadU16(bs);
    assert u % 0x1_0000 == u;
    DivMod256(u, bs[1] as int, bs[0] as int);
  }

  lemma WriteReadU32(bs: seq<byte>)
    requires |bs| >= 4
    ensures WriteU32(ReadU32(bs)) == bs[..4]
  {
    var b0, b1, b2, b3 := bs[0] as int, bs[1] as int, bs[2] as int, bs[3] as int;
    var u := ReadU32(bs);
    assert u % 0x1_0000_0000 == u;
    DivMod256(u, b1 + 0x100 * b2 + 0x1_0000 * b3, b0);
    DivMod256(b1 + 0x100 * b2 + 0x1_0000 * b3, b2 + 0x100 * b3, b1);
    DivMod256(b2 + 0x100 * b3, b3, b2);
    DivMod256(b3, 0, b3);
  }

  lemma WriteReadI32(bs: seq<byte>)
    requires |bs| >= 4
    ensures WriteI32(ReadI32(bs)) == bs[..4]
  {
    var u := ReadU32(bs);
    WriteReadU32(bs);
    var v := ReadI32(bs);
    if u >= 0x8000_0000 {
      ModOfNegative(v, 0x1_0000_0000);
    } else {
      ModOfSmall(v, 0x1_0000_0000);
    }
    assert v % 0x1_0000_0000 == u % 0x1_0000_0000;
    assert WriteI32(v) == WriteU32(u);
  }
}
