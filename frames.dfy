/** `Utils.Frame`: a simulation tick number with three distinguished values
  * and a 4-byte little-endian wire form. */
module Frames {
  import opened Bytes
  import opened Outcomes

  datatype Frame = Frame(No: int)

  const NULL_FRAME: Frame := Frame(-1)
  const FIRST_FRAME: Frame := Frame(0)
  const INFINITY: Frame := Frame(INT_MAX)

  /** `Frame.SerdeSize`. */
  const FRAME_SIZE: nat := 4

  /** `Int32.CompareTo`: -1, 0 or 1. */
  function CompareTo(a: Frame, b: Frame): (c: int)
    ensures c == -1 || c == 0 || c == 1
  {
    if a.No < b.No then -1 else if a.No > b.No then 1 else 0
  }

  /** `operator +(Frame, int)`. */
  function Plus(f: Frame, k: int): Frame
  {
    Frame(f.No + k)
  }

  /** `operator -(Frame, int)`. */
  function Minus(f: Frame, k: int): Frame
  {
    Frame(f.No - k)
  }

  /** `operator -(Frame, Frame)`: the distance in ticks. */
  function Diff(a: Frame, b: Frame): int
  {
    a.No - b.No
  }

  predicate Less(a: Frame, b: Frame)      { CompareTo(a, b) < 0 }
  predicate Greater(a: Frame, b: Frame)   { CompareTo(a, b) > 0 }
  predicate LessEq(a: Frame, b: Frame)    { CompareTo(a, b) <= 0 }
  predicate GreaterEq(a: Frame, b: Frame) { CompareTo(a, b) >= 0 }

  function Max(a: Frame, b: Frame): Frame
  {
    if a.No < b.No then b else a
  }

  function Min(a: Frame, b: Frame): Frame
  {
    if a.No > b.No then b else a
  }

  /** `Frame.Serialize`: the bytes written (the method returns their number). */
  function Serialize(f: Frame): (r: seq<byte>)
    ensures |r| == FRAME_SIZE
  {
    WriteI32(f.No)
  }

  /** `Frame.Deserialize`: the frame read and the number of bytes consumed;
    * a span shorter than four bytes makes `BinaryPrimitives` throw. */
  function Deserialize(bs: seq<byte>): (r: Result<(Frame, nat)>)
    ensures r.Ok? <==> |bs| >= FRAME_SIZE
    ensures r.Ok? ==> r.value.1 == FRAME_SIZE && IsI32(r.value.0.No)
  {
    if |bs| < 4 then Err(ArgumentOutOfRange)
    else Ok((Frame(ReadI32(bs)), 4))
  }

  lemma Constants()
    ensures NULL_FRAME.No == -1 && FIRST_FRAME.No == 0 && INFINITY.No == 0x7fff_ffff
    ensures Less(NULL_FRAME, FIRST_FRAME) && Less(FIRST_FRAME, INFINITY)
  {
  }

  /** Adding and subtracting a tick count shift `No`; `Diff` undoes `Plus`. */
  lemma ArithmeticShifts(f: Frame, g: Frame, k: int)
    ensures Plus(f, k).No == f.No + k && Minus(f, k).No == f.No - k
    ensures Minus(Plus(f, k), k) == f && Plus(Minus(f, k), k) == f
    ensures Diff(Plus(f, k), f) == k
    ensures Plus(g, Diff(f, g)) == f
  {
  }

  /** The comparison operators coincide with the integer order on `No`. */
  lemma OrderIsIntegerOrder(a: Frame, b: Frame)
    ensures Less(a, b) <==> a.No < b.No
    ensures Greater(a, b) <==> a.No > b.No
    ensures LessEq(a, b) <==> a.No <= b.No
    ensures GreaterEq(a, b) <==> a.No >= b.No
    ensures CompareTo(a, b) == 0 <==> a == b
    ensures CompareTo(a, b) == -CompareTo(b, a)
  {
  }

  /** `Max` and `Min` pick one of their arguments and bound both. */
  lemma MinMaxBounds(a: Frame, b: Frame)
    ensures Max(a, b) == a || Max(a, b) == b
    ensures Min(a, b) == a || Min(a, b) == b
    ensures Min(a, b).No <= a.No && Min(a, b).No <= b.No
    ensures a.No <= Max(a, b).No && b.No <= Max(a, b).No
    ensures Min(a, b).No <= Max(a, b).No
  {
  }

  /** Reading back what `Serialize` wrote restores the frame, for every
    * 32-bit frame number, whatever bytes follow. */
  lemma SerializeRoundTrip(f: Frame, rest: seq<byte>)
    requires IsI32(f.No)
    ensures Deserialize(Serialize(f) + rest) == Ok((f, FRAME_SIZE))
  {
    ReadWriteI32(f.No, rest);
  }
}
