/** `Netcode.Rollback.TimeSync`: the local and remote frame advantages of
  * the last 30 frames, one slot per frame number modulo 30. */
module TimeSyncs {
  import opened Frames
  import opened Outcomes
  import opened ModArith

  const FRAME_WINDOW_SIZE: nat := 30

  /** The window slot of a frame: C#'s remainder, negative for negative
    * frame numbers. */
  function SlotOf(frame: Frame): int
  {
    CsRem(frame.No, FRAME_WINDOW_SIZE)
  }

  function Sum(s: seq<int>): int
  {
    if s == [] then 0 else Sum(s[..|s| - 1]) + s[|s| - 1]
  }

  /** C#'s integer conversion of a quotient: division truncating toward
    * zero. */
  function TruncDiv(a: int, b: int): (q: int)
    requires b > 0
  {
    if a >= 0 then a / b else -((-a) / b)
  }

  /** `AverageFrameAdvantage` on exact numbers: `(remoteSum/30 -
    * localSum/30) / 2` truncated, i.e. the difference of the sums over 60. */
  function Average(local: seq<int>, remote: seq<int>): int
  {
    TruncDiv(Sum(remote) - Sum(local), 2 * FRAME_WINDOW_SIZE)
  }

  /** The window after `AdvanceFrame`: one slot of each side overwritten. */
  function Advanced(window: seq<int>, frame: Frame, adv: int): (r: seq<int>)
    requires |window| == FRAME_WINDOW_SIZE && 0 <= SlotOf(frame)
  {
    window[SlotOf(frame) := adv]
  }

  /** Frames 30 apart write the same slot, so a later frame replaces the
    * value an earlier one left there. */
  lemma {:induction false} SharedSlots(frame: Frame, window: seq<int>, a: int, b: int)
    requires frame.No >= 0 && |window| == FRAME_WINDOW_SIZE
    ensures SlotOf(Plus(frame, FRAME_WINDOW_SIZE)) == SlotOf(frame)
    ensures Advanced(Advanced(window, frame, a), Plus(frame, FRAME_WINDOW_SIZE), b) == Advanced(window, frame, b)
  {
    ModMultiple(frame.No, 1, FRAME_WINDOW_SIZE);
  }

  /** Only slot `frame mod 30` changes. */
  lemma {:induction false} AdvancedTouchesOneSlot(window: seq<int>, frame: Frame, adv: int)
    requires |window| == FRAME_WINDOW_SIZE && frame.No >= 0
    ensures SlotOf(frame) == frame.No % FRAME_WINDOW_SIZE
    ensures |Advanced(window, frame, adv)| == FRAME_WINDOW_SIZE
    ensures forall i :: 0 <= i < FRAME_WINDOW_SIZE ==>
      Advanced(window, frame, adv)[i] == if i == frame.No % FRAME_WINDOW_SIZE then adv else window[i]
  {
  }

  /** The truncated quotient is the integer part of `a / 60`: it has the
    * sign of `a` and lies within one unit of the exact quotient. */
  lemma {:induction false} AverageIsTruncation(local: seq<int>, remote: seq<int>)
    ensures var d := Sum(remote) - Sum(local);
      var r := Average(local, remote);
      (d >= 0 ==> 0 <= r && r * 60 <= d < (r + 1) * 60) &&
      (d <= 0 ==> r <= 0 && (r - 1) * 60 < d <= r * 60)
  {
    var d := Sum(remote) - Sum(local);
    if d < 0 {
      assert (-d) / 60 * 60 <= -d < ((-d) / 60 + 1) * 60;
    }
  }

  lemma {:induction false} SumOfZeros(s: seq<int>)
    requires forall i :: 0 <= i < |s| ==> s[i] == 0
    ensures Sum(s) == 0
    decreases |s|
  {
    if s != [] {
      SumOfZeros(s[..|s| - 1]);
    }
  }

  /** Equal sums give no advantage; in particular the initial all-zero
    * windows do. */
  lemma {:induction false} BalancedIsZero(local: seq<int>, remote: seq<int>)
    ensures Sum(local) == Sum(remote) ==> Average(local, remote) == 0
    ensures ((forall i :: 0 <= i < |local| ==> local[i] == 0) &&
             (forall i :: 0 <= i < |remote| ==> remote[i] == 0)) ==> Average(local, remote) == 0
  {
    if (forall i :: 0 <= i < |local| ==> local[i] == 0) &&
       (forall i :: 0 <= i < |remote| ==> remote[i] == 0) {
      SumOfZeros(local);
      SumOfZeros(remote);
    }
  }

  class TimeSync {
    const local: array<int>
    const remote: array<int>

    ghost predicate Valid()
      reads this
    {
      local.Length == FRAME_WINDOW_SIZE && remote.Length == FRAME_WINDOW_SIZE && local != remote
    }

    /** `default(TimeSync)`: both windows zero. */
    constructor ()
      ensures Valid() && fresh(local) && fresh(remote)
      ensures local[..] == seq(FRAME_WINDOW_SIZE, _ => 0) && remote[..] == seq(FRAME_WINDOW_SIZE, _ => 0)
    {
      local := new int[FRAME_WINDOW_SIZE](_ => 0);
      remote := new int[FRAME_WINDOW_SIZE](_ => 0);
    }

    /** `AdvanceFrame`: the null frame fails the assertion.  A negative
      * remainder makes the source write outside its fixed buffers, unchecked;
      * the model reports that as IndexOutOfRange and writes nothing. */
    method AdvanceFrame(frame: Frame, localAdv: int, remoteAdv: int) returns (o: Outcome)
      requires Valid()
      modifies local, remote
      ensures frame == NULL_FRAME ==> o == Fail(AssertionFailed)
      ensures frame != NULL_FRAME && SlotOf(frame) < 0 ==> o == Fail(IndexOutOfRange)
      ensures o.Pass? <==> frame != NULL_FRAME && SlotOf(frame) >= 0
      ensures o.Pass? ==> local[..] == Advanced(old(local[..]), frame, localAdv) &&
                          remote[..] == Advanced(old(remote[..]), frame, remoteAdv)
      ensures o.Fail? ==> local[..] == old(local[..]) && remote[..] == old(remote[..])
    {
      if frame == NULL_FRAME {
        return Fail(AssertionFailed);
      }
      var slot := CsRem(frame.No, FRAME_WINDOW_SIZE);
      if slot < 0 {
        return Fail(IndexOutOfRange);
      }
      local[slot] := localAdv;
      remote[slot] := remoteAdv;
      o := Pass;
    }

    method AverageFrameAdvantage() returns (r: int)
      requires Valid()
      ensures r == Average(local[..], remote[..])
    {
      var localSum := 0;
      var remoteSum := 0;
      for i := 0 to FRAME_WINDOW_SIZE
        invariant localSum == Sum(local[..i]) && remoteSum == Sum(remote[..i])
      {
        assert local[..i + 1][..i] == local[..i] && remote[..i + 1][..i] == remote[..i];
        localSum := localSum + local[i];
        remoteSum := remoteSum + remote[i];
      }
      assert local[..FRAME_WINDOW_SIZE] == local[..] && remote[..FRAME_WINDOW_SIZE] == remote[..];
      var d := remoteSum - localSum;
      r := if d >= 0 then d / 60 else -((-d) / 60);
    }
  }
}
