/** `GameInput`: one frame of a player's buttons, as a set of `InputFlags`
  * bits in a 32-bit integer, and its four-byte wire form. */
module GameInputs {
  import opened Bytes
  import opened Bits
  import opened Outcomes

  const NONE: int := 0
  const UP: int := 0x2
  const DOWN: int := 0x4
  const LEFT: int := 0x8
  const RIGHT: int := 0x10
  const LIGHT_ATTACK: int := 0x20
  const MEDIUM_ATTACK: int := 0x40
  const SPECIAL_ATTACK: int := 0x80
  const SUPER_ATTACK: int := 0x100
  const GRAB: int := 0x200
  const MANIA1: int := 0x400
  const MANIA2: int := 0x800
  const MANIA3: int := 0x1000
  const MANIA4: int := 0x2000
  const MANIA5: int := 0x4000
  const MANIA6: int := 0x8000

  /** The named flags in declaration order. */
  const NAMED_FLAGS: seq<int> :=
    [UP, DOWN, LEFT, RIGHT, LIGHT_ATTACK, MEDIUM_ATTACK, SPECIAL_ATTACK, SUPER_ATTACK,
     GRAB, MANIA1, MANIA2, MANIA3, MANIA4, MANIA5, MANIA6]

  /** The serialized size of every input, whatever its value. */
  const SERDE_SIZE: nat := 4

  /** `Flags` is the enum's underlying `int`. */
  datatype GameInput = GameInput(Flags: int)

  predicate Equals(a: GameInput, b: GameInput)
  {
    a.Flags == b.Flags
  }

  /** `Serialize`: `Flags` as a little-endian `int`. */
  function Serialize(g: GameInput): (r: seq<byte>)
    ensures |r| == SERDE_SIZE
  {
    WriteI32(g.Flags)
  }

  /** `Deserialize`: the input and the number of bytes read; a span shorter
    * than four bytes makes the reader throw. */
  function Deserialize(bs: seq<byte>): (r: Result<(GameInput, nat)>)
    ensures r.Ok? <==> |bs| >= SERDE_SIZE
    ensures r.Ok? ==> r.value.1 == SERDE_SIZE && IsI32(r.value.0.Flags)
  {
    if |bs| < 4 then Err(ArgumentOutOfRange) else Ok((GameInput(ReadI32(bs)), 4))
  }

  /** `Flags & input` as a 32-bit pattern. */
  function Common(g: GameInput, input: int): nat
  {
    And(Unsigned(g.Flags, 4), Unsigned(input, 4))
  }

  predicate HasInput(g: GameInput, input: int)
  {
    Common(g, input) != 0
  }

  // ----- Properties -----

  /** `None` is 0 and flag `k` (counting from `Up`) is bit `k + 1`, so bit 0
    * is never used. */
  lemma FlagBits()
    ensures NONE == 0 && |NAMED_FLAGS| == 15
    ensures forall k :: 0 <= k < 15 ==> NAMED_FLAGS[k] == Pow2(k + 1)
  {
    assert Pow2(1) == 2 && Pow2(2) == 4 && Pow2(3) == 8 && Pow2(4) == 0x10;
    assert Pow2(5) == 0x20 && Pow2(6) == 0x40 && Pow2(7) == 0x80 && Pow2(8) == 0x100;
    assert Pow2(9) == 0x200 && Pow2(10) == 0x400 && Pow2(11) == 0x800 && Pow2(12) == 0x1000;
    assert Pow2(13) == 0x2000 && Pow2(14) == 0x4000 && Pow2(15) == 0x8000;
  }

  /** `Equals` is equality of the whole value. */
  lemma EqualsIsIdentity(a: GameInput, b: GameInput)
    ensures Equals(a, b) <==> a == b
  {
  }

  /** Reading back what `Serialize` wrote gives the same input and size. */
  lemma SerializeRoundTrip(g: GameInput, rest: seq<byte>)
    requires IsI32(g.Flags)
    ensures Deserialize(Serialize(g) + rest) == Ok((g, SERDE_SIZE))
  {
    ReadWriteI32(g.Flags, rest);
  }

  /** `HasInput(f)` holds exactly when the two bit patterns share a set bit. */
  lemma HasInputMeaning(g: GameInput, input: int)
    ensures HasInput(g, input) <==>
            exists i: nat :: Bit(Unsigned(g.Flags, 4), i) == 1 && Bit(Unsigned(input, 4), i) == 1
  {
    AndNonZero(Unsigned(g.Flags, 4), Unsigned(input, 4));
  }
}
