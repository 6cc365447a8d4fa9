/** Per-animation hitbox data: a list of frames, each a list of boxes. */
module HitboxDatas {
  import opened Outcomes

  datatype HitboxKind = Hurtbox | Hitbox

  /** A `Vector2`.  Its float components are kept as reals. */
  datatype Vec2 = Vec2(X: real, Y: real)

  datatype BoxProps = BoxProps(
    Kind: HitboxKind,
    Damage: int,
    HitstunTicks: int,
    BlockstunTicks: int,
    StartsRhythmCombo: bool,
    Knockback: Vec2)

  /** The bound on the squared distance under which `Vector2 ==` calls two
    * vectors equal: 1e-5 squared. */
  const VECTOR_EPSILON_SQ: real := 0.0000000001

  function Sq(x: real): real
  {
    x * x
  }

  /** `Vector2 ==`: the squared distance is below `VECTOR_EPSILON_SQ`, so
    * vectors closer than 1e-5 compare equal. */
  predicate Near(a: Vec2, b: Vec2)
  {
    Sq(a.X - b.X) + Sq(a.Y - b.Y) < VECTOR_EPSILON_SQ
  }

  /** `BoxProps.Equals`: every field is compared, the knockback with the
    * vector `==`. */
  predicate PropsEqual(a: BoxProps, b: BoxProps)
  {
    a.Kind == b.Kind && a.HitstunTicks == b.HitstunTicks && a.Damage == b.Damage &&
    a.BlockstunTicks == b.BlockstunTicks && Near(a.Knockback, b.Knockback) &&
    a.StartsRhythmCombo == b.StartsRhythmCombo
  }

  /** `BoxProps.GetHashCode`: `HashCode.Combine` of `Kind` and
    * `HitstunTicks` only; `combine` stands for `HashCode.Combine`. */
  function PropsHash(p: BoxProps, combine: (HitboxKind, int) -> int): int
  {
    combine(p.Kind, p.HitstunTicks)
  }

  datatype BoxData = BoxData(Name: string, CenterLocal: Vec2, SizeLocal: Vec2, Props: BoxProps)

  /** `BoxData.Equals`: the name exactly, the two vectors and the props
    * with the vector `==`. */
  predicate BoxEqual(a: BoxData, b: BoxData)
  {
    a.Name == b.Name && Near(a.CenterLocal, b.CenterLocal) && Near(a.SizeLocal, b.SizeLocal) &&
    PropsEqual(a.Props, b.Props)
  }

  datatype FrameData = FrameData(Boxes: seq<BoxData>)

  /** A frame as `new FrameData()` creates it. */
  const EMPTY_FRAME: FrameData := FrameData([])

  /** The state of `Frames` after `EnsureSize(n)`, for `n >= 1`. */
  function Resized(frames: seq<FrameData>, n: nat): (r: seq<FrameData>)
    ensures |r| == n
    ensures forall i :: 0 <= i < n && i < |frames| ==> r[i] == frames[i]
    ensures forall i :: |frames| <= i < n ==> r[i] == EMPTY_FRAME
  {
    if n <= |frames| then frames[..n] else frames + seq(n - |frames|, _ => EMPTY_FRAME)
  }

  class HitboxData {
    var Frames: seq<FrameData>

    constructor ()
      ensures Frames == []
    {
      Frames := [];
    }

    function TotalTicks(): int
      reads this
    {
      |Frames|
    }

    /** Grows with empty frames or drops frames from the end until there are
      * exactly `totalTicks`; fewer than one is refused. */
    method EnsureSize(totalTicks: int) returns (o: Outcome)
      modifies this
      ensures totalTicks < 1 ==> o == Fail(InvalidOperation) && Frames == old(Frames)
      ensures totalTicks >= 1 ==> o == Pass && Frames == Resized(old(Frames), totalTicks)
    {
      if totalTicks < 1 {
        return Fail(InvalidOperation);
      }
      ghost var original := Frames;
      while |Frames| < totalTicks
        invariant |original| <= |Frames| && Frames[..|original|] == original
        invariant forall i :: |original| <= i < |Frames| ==> Frames[i] == EMPTY_FRAME
        invariant |Frames| <= totalTicks || Frames == original
        decreases totalTicks - |Frames|
      {
        Frames := Frames + [EMPTY_FRAME];
      }
      assert |Frames| > |original| ==> Frames == Resized(original, totalTicks);
      while |Frames| > totalTicks
        invariant totalTicks <= |Frames| <= |original| ==> Frames == original[..|Frames|]
        invariant |Frames| > |original| ==> Frames == Resized(original, totalTicks)
        invariant totalTicks <= |Frames|
        decreases |Frames|
      {
        Frames := Frames[..|Frames| - 1];
      }
      o := Pass;
    }

    /** The frame at `tick`, or null outside `[0, TotalTicks)`. */
    function GetFrame(tick: int): (r: Option<FrameData>)
      reads this
      ensures r.Some? <==> 0 <= tick < TotalTicks()
      ensures r.Some? ==> r.value == Frames[tick]
    {
      if tick < 0 || tick >= TotalTicks() then None else Some(Frames[tick])
    }
  }

  // ----- Properties -----

  /** The vector `==` holds between equal vectors, either way round, and
    * not between vectors a unit apart. */
  lemma NearFacts(a: Vec2, b: Vec2)
    ensures Near(a, a)
    ensures Near(a, b) <==> Near(b, a)
    ensures Near(a, b) ==> a.X - 1.0 < b.X < a.X + 1.0 && a.Y - 1.0 < b.Y < a.Y + 1.0
  {
    assert Sq(a.X - b.X) == Sq(b.X - a.X);
    assert Sq(a.Y - b.Y) == Sq(b.Y - a.Y);
    if Near(a, b) {
      SqBelowOne(a.X - b.X);
      SqBelowOne(a.Y - b.Y);
    }
  }

  lemma {:induction false} SqBelowOne(x: real)
    requires Sq(x) < 1.0
    ensures -1.0 < x < 1.0
  {
  }

  /** `BoxProps.Equals` is reflexive, and holds exactly for props that agree
    * on every field except the knockback, whose two values are within the
    * vector tolerance. */
  lemma PropsEqualMeaning(a: BoxProps, b: BoxProps)
    ensures a == b ==> PropsEqual(a, b)
    ensures PropsEqual(a, b) <==> a.(Knockback := b.Knockback) == b && Near(a.Knockback, b.Knockback)
  {
    NearFacts(a.Knockback, b.Knockback);
  }

  /** Two props whose knockbacks differ by a millionth are `Equals` yet
    * different values: `Equals` is not equality of values. */
  lemma PropsEqualNotIdentity(a: BoxProps)
    ensures var b := a.(Knockback := Vec2(a.Knockback.X + 0.000001, a.Knockback.Y));
      PropsEqual(a, b) && a != b
  {
    var b := a.(Knockback := Vec2(a.Knockback.X + 0.000001, a.Knockback.Y));
    assert a.Knockback.X - b.Knockback.X == -0.000001;
    assert Sq(a.Knockback.X - b.Knockback.X) == 0.000000000001;
    assert a.Knockback.X != b.Knockback.X;
  }

  /** Equal props hash equally, whatever `HashCode.Combine` does. */
  lemma EqualPropsHashEqual(a: BoxProps, b: BoxProps, combine: (HitboxKind, int) -> int)
    requires PropsEqual(a, b)
    ensures PropsHash(a, combine) == PropsHash(b, combine)
  {
  }

  /** `BoxData.Equals` is reflexive and symmetric, and holds exactly for
    * boxes with the same name whose centres, sizes and knockbacks are each
    * within the vector tolerance and whose other props agree. */
  lemma BoxEqualMeaning(a: BoxData, b: BoxData)
    ensures a == b ==> BoxEqual(a, b)
    ensures BoxEqual(a, b) <==> BoxEqual(b, a)
    ensures BoxEqual(a, b) <==>
      a.(CenterLocal := b.CenterLocal, SizeLocal := b.SizeLocal,
         Props := a.Props.(Knockback := b.Props.Knockback)) == b &&
      Near(a.CenterLocal, b.CenterLocal) && Near(a.SizeLocal, b.SizeLocal) &&
      Near(a.Props.Knockback, b.Props.Knockback)
  {
    NearFacts(a.CenterLocal, b.CenterLocal);
    NearFacts(a.SizeLocal, b.SizeLocal);
    NearFacts(a.Props.Knockback, b.Props.Knockback);
    PropsEqualMeaning(a.Props, b.Props);
    PropsEqualMeaning(b.Props, a.Props);
  }

  /** Two boxes whose centres differ by a millionth are `Equals` yet
    * different values. */
  lemma BoxEqualNotIdentity(a: BoxData)
    ensures var b := a.(CenterLocal := Vec2(a.CenterLocal.X, a.CenterLocal.Y + 0.000001));
      BoxEqual(a, b) && a != b
  {
    var b := a.(CenterLocal := Vec2(a.CenterLocal.X, a.CenterLocal.Y + 0.000001));
    assert Sq(a.CenterLocal.Y - b.CenterLocal.Y) == 0.000000000001;
    NearFacts(a.SizeLocal, a.SizeLocal);
    NearFacts(a.Props.Knockback, a.Props.Knockback);
    assert a.CenterLocal.Y != b.CenterLocal.Y;
  }

  /** Resizing to the current size changes nothing, and resizing is
    * idempotent. */
  lemma ResizedStable(frames: seq<FrameData>, n: nat)
    ensures Resized(frames, |frames|) == frames
    ensures Resized(Resized(frames, n), n) == Resized(frames, n)
  {
    assert frames[..|frames|] == frames;
  }
}
