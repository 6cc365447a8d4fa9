/** A character's animations and the frame lookup used by the simulation. */
module CharacterConfigs {
  import opened Outcomes
  import opened ModArith
  import opened HitboxDatas

  datatype CharacterAnimation =
    | Hit | Walk | Jump | Idle | Knockdown
    | LightAttack | LightAerial | LightCrouching
    | MediumAttack | MediumAerial | MediumCrouching
    | SuperAttack | SuperAerial | SuperCrouching
    | SpecialAttack | SpecialAerial | SpecialCrouching
    | Ultimate

  /** The animations `GetHitboxData` knows about. */
  predicate Registered(anim: CharacterAnimation)
  {
    anim in {Walk, Idle, Jump, Hit, LightAttack, LightAerial, SuperAttack}
  }

  /** `((tick % n) + n) % n` with C#'s truncating `%`. */
  function WrapTick(tick: int, n: int): int
    requires n > 0
  {
    CsRem(CsRem(tick, n) + n, n)
  }

  /** The animation looping of `GetFrameData` is Euclidean reduction. */
  lemma WrapTickIsMod(tick: int, n: int)
    requires n > 0
    ensures WrapTick(tick, n) == tick % n
    ensures 0 <= WrapTick(tick, n) < n
  {
    var r := CsRem(tick, n);
    if tick >= 0 {
      ModSmall(r + n, n);
    } else {
      var q := (-tick) / n;
      assert -tick == q * n + (-tick) % n;
      assert tick == (-q) * n + r;
      ModMultiple(r, -q, n);
      ModSmall(r + n, n);
      ModSmall(r, n);
      if r < 0 {
        ModMultiple(r, 1, n);
      }
    }
  }

  /** Ticks inside the animation are kept, ticks `n` apart land on the same
    * frame, and tick -1 is the last frame. */
  lemma WrapTickFacts(tick: int, n: int)
    requires n > 0
    ensures 0 <= tick < n ==> WrapTick(tick, n) == tick
    ensures WrapTick(tick + n, n) == WrapTick(tick, n)
    ensures WrapTick(-1, n) == n - 1
  {
    WrapTickIsMod(tick, n);
    WrapTickIsMod(tick + n, n);
    WrapTickIsMod(-1, n);
    ModMultiple(tick, 1, n);
    ModSmall(-1, n);
    if 0 <= tick < n {
      ModSmall(tick, n);
    }
  }

  class CharacterConfig {
    const WalkData: HitboxData
    const IdleData: HitboxData
    const HitData: HitboxData
    const KnockdownData: HitboxData
    const JumpData: HitboxData
    const LightAerialData: HitboxData
    const LightCrouchingData: HitboxData
    const LightAttackData: HitboxData
    const MediumAerialData: HitboxData
    const MediumCrouchingData: HitboxData
    const MediumAttackData: HitboxData
    const SuperAerialData: HitboxData
    const SuperCrouchingData: HitboxData
    const SuperAttackData: HitboxData
    const SpecialAerialData: HitboxData
    const SpecialCrouchingData: HitboxData
    const SpecialAttackData: HitboxData
    const UltimateData: HitboxData

    constructor (walk: HitboxData, idle: HitboxData, hit: HitboxData, knockdown: HitboxData,
                 jump: HitboxData, lightAerial: HitboxData, lightCrouching: HitboxData,
                 lightAttack: HitboxData, mediumAerial: HitboxData, mediumCrouching: HitboxData,
                 mediumAttack: HitboxData, superAerial: HitboxData, superCrouching: HitboxData,
                 superAttack: HitboxData, specialAerial: HitboxData, specialCrouching: HitboxData,
                 specialAttack: HitboxData, ultimate: HitboxData)
      ensures WalkData == walk && IdleData == idle && HitData == hit && JumpData == jump
      ensures LightAttackData == lightAttack && LightAerialData == lightAerial
      ensures SuperAttackData == superAttack
    {
      WalkData, IdleData, HitData, KnockdownData := walk, idle, hit, knockdown;
      JumpData, LightAerialData, LightCrouchingData := jump, lightAerial, lightCrouching;
      LightAttackData, MediumAerialData, MediumCrouchingData := lightAttack, mediumAerial, mediumCrouching;
      MediumAttackData, SuperAerialData, SuperCrouchingData := mediumAttack, superAerial, superCrouching;
      SuperAttackData, SpecialAerialData, SpecialCrouchingData := superAttack, specialAerial, specialCrouching;
      SpecialAttackData, UltimateData := specialAttack, ultimate;
    }

    /** `GetHitboxData`: the seven registered animations have data; any other
      * throws. */
    function GetHitboxData(anim: CharacterAnimation): (r: Result<HitboxData>)
      ensures r.Ok? <==> Registered(anim)
      ensures anim == Walk ==> r == Ok(WalkData)
      ensures anim == Idle ==> r == Ok(IdleData)
      ensures anim == Jump ==> r == Ok(JumpData)
      ensures anim == Hit ==> r == Ok(HitData)
      ensures anim == LightAttack ==> r == Ok(LightAttackData)
      ensures anim == LightAerial ==> r == Ok(LightAerialData)
      ensures anim == SuperAttack ==> r == Ok(SuperAttackData)
    {
      match anim
      case Walk => Ok(WalkData)
      case Idle => Ok(IdleData)
      case Jump => Ok(JumpData)
      case Hit => Ok(HitData)
      case LightAttack => Ok(LightAttackData)
      case LightAerial => Ok(LightAerialData)
      case SuperAttack => Ok(SuperAttackData)
      case _ => Err(InvalidOperation)
    }

    /** The registered objects, which `GetFrameData` may read. */
    function Registry(): set<object>
    {
      {WalkData, IdleData, JumpData, HitData, LightAttackData, LightAerialData, SuperAttackData}
    }

    /** `GetFrameData`: the animation's frame at `tick`, looping; an animation
      * without frames divides by zero. */
    function GetFrameData(anim: CharacterAnimation, tick: int): (r: Result<FrameData>)
      reads Registry()
      ensures !Registered(anim) ==> r == Err(InvalidOperation)
      ensures Registered(anim) ==>
                var frames := GetHitboxData(anim).value.Frames;
                (|frames| == 0 ==> r == Err(DivideByZero)) &&
                (|frames| > 0 ==> r == Ok(frames[tick % |frames|]))
    {
      var data :- GetHitboxData(anim);
      var n := data.TotalTicks();
      if n == 0 then Err(DivideByZero)
      else
        WrapTickIsMod(tick, n);
        Ok(data.Frames[WrapTick(tick, n)])
    }
  }
}
