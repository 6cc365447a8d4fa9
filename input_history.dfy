/** `Game.Sim.InputHistory`: the last 64 game inputs in a ring buffer, and
  * the greedy search for a press/release pattern among them. */
module InputHistories {
  import opened GameInputs
  import opened ModArith

  const HISTORY_LENGTH: nat := 64

  /** The ring slot holding the input pushed `framesAgo` pushes before the
    * one at `next`; the operand is never negative, so C#'s remainder and
    * Dafny's agree. */
  function Slot(next: int, framesAgo: int): int
  {
    (next - 1 - framesAgo + HISTORY_LENGTH) % HISTORY_LENGTH
  }

  /** `InputHistoryEntry`: whether `Input` should be held in the frame
    * matched to this entry. */
  datatype Entry = Entry(Pressed: bool, Input: int)

  function Count(history: seq<GameInput>): (n: nat)
    ensures n <= HISTORY_LENGTH && n <= |history|
  {
    if |history| < HISTORY_LENGTH then |history| else HISTORY_LENGTH
  }

  /** The input pushed `framesAgo` pushes ago, or no input once that is
    * outside what the ring still holds. */
  function InputAt(history: seq<GameInput>, framesAgo: int): GameInput
  {
    if 0 <= framesAgo < Count(history) then history[|history| - 1 - framesAgo]
    else GameInput(NONE)
  }

  /** The frame `framesAgo` back satisfies entry `e`. */
  predicate Fits(history: seq<GameInput>, framesAgo: int, e: Entry)
  {
    HasInput(InputAt(history, framesAgo), e.Input) == e.Pressed
  }

  /** The scan of `HasInputSeqeunce` from `i` down to `lo` with `sq` still
    * to match: each frame that fits the next entry consumes it. */
  predicate Greedy(history: seq<GameInput>, sq: seq<Entry>, i: int, lo: int)
    decreases if i < lo then 0 else i - lo + 1
  {
    if |sq| == 0 then true
    else if i < lo then false
    else if Fits(history, i, sq[0]) then Greedy(history, sq[1..], i - 1, lo)
    else Greedy(history, sq, i - 1, lo)
  }

  /** `idx` picks, for each entry of `sq` in order, a frame in `[lo, hi)`
    * satisfying it, each strictly more recent than the one before. */
  predicate Embeds(history: seq<GameInput>, sq: seq<Entry>, idx: seq<int>, hi: int, lo: int)
  {
    |idx| == |sq| &&
    (forall k :: 0 <= k < |idx| ==> lo <= idx[k] < hi && Fits(history, idx[k], sq[k])) &&
    (forall k :: 0 < k < |idx| ==> idx[k - 1] > idx[k])
  }

  /** What `HasInputSeqeunce(sq, withinFrames, beforeFrames)` returns. */
  predicate SequenceFound(history: seq<GameInput>, sq: seq<Entry>, withinFrames: int, beforeFrames: int)
  {
    0 <= withinFrames < Count(history) && Greedy(history, sq, withinFrames - 1, beforeFrames)
  }

  function PressedPattern(flag: int): seq<Entry>
  {
    [Entry(false, flag), Entry(true, flag)]
  }

  function ReleasedPattern(flag: int): seq<Entry>
  {
    [Entry(true, flag), Entry(false, flag)]
  }

  function PressedAndReleasedPattern(flag: int): seq<Entry>
  {
    [Entry(false, flag), Entry(true, flag), Entry(false, flag)]
  }

  // ----- the greedy scan is complete -----

  /** A successful scan yields an embedding. */
  lemma {:induction false} GreedySound(history: seq<GameInput>, sq: seq<Entry>, i: int, lo: int)
    returns (idx: seq<int>)
    requires Greedy(history, sq, i, lo)
    ensures Embeds(history, sq, idx, i + 1, lo)
    decreases if i < lo then 0 else i - lo + 1
  {
    if |sq| == 0 {
      idx := [];
    } else if Fits(history, i, sq[0]) {
      var rest := GreedySound(history, sq[1..], i - 1, lo);
      idx := [i] + rest;
      forall k | 0 < k < |idx| ensures idx[k - 1] > idx[k] {
        assert idx[k] == rest[k - 1];
        if k > 1 {
          assert idx[k - 1] == rest[k - 2];
        }
      }
      forall k | 0 <= k < |idx| ensures lo <= idx[k] <= i && Fits(history, idx[k], sq[k]) {
        if k > 0 {
          assert idx[k] == rest[k - 1] && sq[k] == sq[1..][k - 1];
        }
      }
    } else {
      idx := GreedySound(history, sq, i - 1, lo);
    }
  }

  /** Whenever an embedding exists, the scan finds the whole sequence. */
  lemma {:induction false} GreedyComplete(history: seq<GameInput>, sq: seq<Entry>, idx: seq<int>, i: int, lo: int)
    requires Embeds(history, sq, idx, i + 1, lo)
    ensures Greedy(history, sq, i, lo)
    decreases if i < lo then 0 else i - lo + 1
  {
    if |sq| > 0 {
      assert lo <= idx[0] <= i;
      if Fits(history, i, sq[0]) {
        var rest := idx[1..];
        forall k | 0 <= k < |rest| ensures lo <= rest[k] <= i - 1 && Fits(history, rest[k], sq[1..][k]) {
          assert rest[k] == idx[k + 1];
          LaterIsSmaller(idx, 0, k + 1);
        }
        forall k | 0 < k < |rest| ensures rest[k - 1] > rest[k] {
          assert rest[k] == idx[k + 1] && rest[k - 1] == idx[k];
        }
        GreedyComplete(history, sq[1..], rest, i - 1, lo);
      } else {
        assert idx[0] != i;
        forall k | 0 <= k < |idx| ensures idx[k] <= i - 1 {
          if k > 0 {
            LaterIsSmaller(idx, 0, k);
          }
        }
        GreedyComplete(history, sq, idx, i - 1, lo);
      }
    }
  }

  lemma {:induction false} LaterIsSmaller(idx: seq<int>, a: nat, b: nat)
    requires forall k :: 0 < k < |idx| ==> idx[k - 1] > idx[k]
    requires a < b < |idx|
    ensures idx[a] > idx[b]
    decreases b - a
  {
    if b > a + 1 {
      LaterIsSmaller(idx, a, b - 1);
    }
  }

  /** `HasInputSeqeunce` finds `sq` exactly when the frames from
    * `withinFrames - 1` down to `beforeFrames` contain its entries in order,
    * oldest first. */
  lemma {:induction false} SequenceFoundMeaning(history: seq<GameInput>, sq: seq<Entry>, withinFrames: int, beforeFrames: int)
    ensures SequenceFound(history, sq, withinFrames, beforeFrames) <==>
      0 <= withinFrames < Count(history) &&
      exists idx :: Embeds(history, sq, idx, withinFrames, beforeFrames)
  {
    if exists idx :: Embeds(history, sq, idx, withinFrames, beforeFrames) {
      var idx :| Embeds(history, sq, idx, withinFrames, beforeFrames);
      GreedyComplete(history, sq, idx, withinFrames - 1, beforeFrames);
    }
    if Greedy(history, sq, withinFrames - 1, beforeFrames) {
      var idx := GreedySound(history, sq, withinFrames - 1, beforeFrames);
      assert withinFrames - 1 + 1 == withinFrames;
    }
  }

  /** `PressedRecently`: some frame in range without the flag is followed by
    * a more recent frame with it. */
  lemma {:induction false} PressedMeaning(history: seq<GameInput>, flag: int, withinFrames: int, beforeFrames: int)
    ensures SequenceFound(history, PressedPattern(flag), withinFrames, beforeFrames) <==>
      0 <= withinFrames < Count(history) &&
      exists i, j :: beforeFrames <= j < i < withinFrames &&
        !HasInput(InputAt(history, i), flag) && HasInput(InputAt(history, j), flag)
  {
    TwoStepMeaning(history, false, true, flag, withinFrames, beforeFrames);
  }

  /** `ReleasedRecently`: a frame with the flag is followed by a more recent
    * frame without it. */
  lemma {:induction false} ReleasedMeaning(history: seq<GameInput>, flag: int, withinFrames: int, beforeFrames: int)
    ensures SequenceFound(history, ReleasedPattern(flag), withinFrames, beforeFrames) <==>
      0 <= withinFrames < Count(history) &&
      exists i, j :: beforeFrames <= j < i < withinFrames &&
        HasInput(InputAt(history, i), flag) && !HasInput(InputAt(history, j), flag)
  {
    TwoStepMeaning(history, true, false, flag, withinFrames, beforeFrames);
  }

  lemma {:induction false} TwoStepMeaning(history: seq<GameInput>, p: bool, q: bool, flag: int, withinFrames: int, beforeFrames: int)
    ensures SequenceFound(history, [Entry(p, flag), Entry(q, flag)], withinFrames, beforeFrames) <==>
      0 <= withinFrames < Count(history) &&
      exists i, j :: beforeFrames <= j < i < withinFrames &&
        HasInput(InputAt(history, i), flag) == p && HasInput(InputAt(history, j), flag) == q
  {
    var sq := [Entry(p, flag), Entry(q, flag)];
    var hi := withinFrames;
    SequenceFoundMeaning(history, sq, withinFrames, beforeFrames);
    if exists idx :: Embeds(history, sq, idx, hi, beforeFrames) {
      var idx :| Embeds(history, sq, idx, hi, beforeFrames);
      assert Fits(history, idx[0], sq[0]) && Fits(history, idx[1], sq[1]);
    }
    if exists i, j :: beforeFrames <= j < i < hi &&
        HasInput(InputAt(history, i), flag) == p && HasInput(InputAt(history, j), flag) == q {
      var i, j :| beforeFrames <= j < i < hi &&
        HasInput(InputAt(history, i), flag) == p && HasInput(InputAt(history, j), flag) == q;
      assert Embeds(history, sq, [i, j], hi, beforeFrames);
    }
  }

  /** `PressedAndReleasedRecently`: released, pressed, released again, in
    * that order from oldest to newest. */
  lemma {:induction false} PressedAndReleasedMeaning(history: seq<GameInput>, flag: int, withinFrames: int, beforeFrames: int)
    ensures SequenceFound(history, PressedAndReleasedPattern(flag), withinFrames, beforeFrames) <==>
      0 <= withinFrames < Count(history) &&
      exists i, j, k :: beforeFrames <= k < j < i < withinFrames &&
        !HasInput(InputAt(history, i), flag) && HasInput(InputAt(history, j), flag) &&
        !HasInput(InputAt(history, k), flag)
  {
    SequenceFoundMeaning(history, PressedAndReleasedPattern(flag), withinFrames, beforeFrames);
    ThreeStepEmbeds(history, flag, withinFrames, beforeFrames);
  }

  /** The pattern of three embeds exactly when three such frames exist. */
  lemma {:induction false} ThreeStepEmbeds(history: seq<GameInput>, flag: int, hi: int, lo: int)
    ensures (exists idx :: Embeds(history, PressedAndReleasedPattern(flag), idx, hi, lo)) <==>
      exists i, j, k :: lo <= k < j < i < hi &&
        !HasInput(InputAt(history, i), flag) && HasInput(InputAt(history, j), flag) &&
        !HasInput(InputAt(history, k), flag)
  {
    if exists idx :: Embeds(history, PressedAndReleasedPattern(flag), idx, hi, lo) {
      var idx :| Embeds(history, PressedAndReleasedPattern(flag), idx, hi, lo);
      ThreeFromEmbedding(history, flag, idx, hi, lo);
    } else {
      NoEmbeddingNoThree(history, flag, hi, lo);
    }
  }

  lemma {:induction false} ThreeFromEmbedding(history: seq<GameInput>, flag: int, idx: seq<int>, hi: int, lo: int)
    requires Embeds(history, PressedAndReleasedPattern(flag), idx, hi, lo)
    ensures exists i, j, k :: (lo <= k < j < i < hi &&
      !HasInput(InputAt(history, i), flag) && HasInput(InputAt(history, j), flag) &&
      !HasInput(InputAt(history, k), flag))
  {
    var i, j, k := EmbeddingPicksThree(history, flag, idx, hi, lo);
  }

  lemma {:induction false} NoEmbeddingNoThree(history: seq<GameInput>, flag: int, hi: int, lo: int)
    requires forall idx :: !Embeds(history, PressedAndReleasedPattern(flag), idx, hi, lo)
    ensures forall i, j, k :: lo <= k < j < i < hi ==>
      !(!HasInput(InputAt(history, i), flag) && HasInput(InputAt(history, j), flag) &&
        !HasInput(InputAt(history, k), flag))
  {
    forall i, j, k | lo <= k < j < i < hi
      ensures !(!HasInput(InputAt(history, i), flag) && HasInput(InputAt(history, j), flag) &&
        !HasInput(InputAt(history, k), flag))
    {
      if !HasInput(InputAt(history, i), flag) && HasInput(InputAt(history, j), flag) &&
        !HasInput(InputAt(history, k), flag) {
        ThreeEmbed(history, flag, i, j, k, hi, lo);
      }
    }
  }

  lemma {:induction false} EmbeddingPicksThree(history: seq<GameInput>, flag: int, idx: seq<int>, hi: int, lo: int)
    returns (i: int, j: int, k: int)
    requires Embeds(history, PressedAndReleasedPattern(flag), idx, hi, lo)
    ensures lo <= k < j < i < hi &&
      !HasInput(InputAt(history, i), flag) && HasInput(InputAt(history, j), flag) &&
      !HasInput(InputAt(history, k), flag)
  {
    var sq := PressedAndReleasedPattern(flag);
    i, j, k := idx[0], idx[1], idx[2];
    assert Fits(history, i, sq[0]) && Fits(history, j, sq[1]) && Fits(history, k, sq[2]);
    assert i > j && j > k;
  }

  lemma {:induction false} ThreeEmbed(history: seq<GameInput>, flag: int, i: int, j: int, k: int, hi: int, lo: int)
    requires lo <= k < j < i < hi
    requires !HasInput(InputAt(history, i), flag) && HasInput(InputAt(history, j), flag)
    requires !HasInput(InputAt(history, k), flag)
    ensures Embeds(history, PressedAndReleasedPattern(flag), [i, j, k], hi, lo)
  {
    var sq := PressedAndReleasedPattern(flag);
    var idx := [i, j, k];
    forall m | 0 <= m < |idx| ensures lo <= idx[m] < hi && Fits(history, idx[m], sq[m]) {
      if m == 0 {
        assert Fits(history, i, sq[0]);
      } else if m == 1 {
        assert Fits(history, j, sq[1]);
      } else {
        assert Fits(history, k, sq[2]);
      }
    }
  }

  /** The scan never looks past `withinFrames - 1`, so a window that is out
    * of range or empty finds nothing but the empty pattern. */
  lemma {:induction false} EmptyWindow(history: seq<GameInput>, sq: seq<Entry>, withinFrames: int, beforeFrames: int)
    requires |sq| > 0 && withinFrames <= beforeFrames
    ensures !SequenceFound(history, sq, withinFrames, beforeFrames)
  {
  }

  /** `IsHeld` looks at the most recent input only. */
  lemma {:induction false} MostRecentIsLast(history: seq<GameInput>)
    ensures |history| > 0 ==> InputAt(history, 0) == history[|history| - 1]
    ensures |history| == 0 ==> InputAt(history, 0) == GameInput(NONE)
  {
  }

  /** After `next` advances, slot `k` is the old slot `k - 1`, and slot 0
    * the one just written; slot `k - 1` never was that one for `k < 64`. */
  lemma {:induction false} SlotAfterPush(next: int, k: int)
    requires 0 <= next < HISTORY_LENGTH && 0 <= k < HISTORY_LENGTH
    ensures 0 <= Slot(next, k) < HISTORY_LENGTH
    ensures k == 0 ==> Slot((next + 1) % HISTORY_LENGTH, k) == next
    ensures k > 0 ==> Slot((next + 1) % HISTORY_LENGTH, k) == Slot(next, k - 1) != next
  {
    ModSmall(next + 1, HISTORY_LENGTH);
    ModSmall(next - 1 - k + HISTORY_LENGTH, HISTORY_LENGTH);
    ModSmall((next + 1) % HISTORY_LENGTH - 1 - k + HISTORY_LENGTH, HISTORY_LENGTH);
    if k > 0 {
      ModSmall(next - 1 - (k - 1) + HISTORY_LENGTH, HISTORY_LENGTH);
    }
  }

  /** The ring `buf`, with `next` the slot to write, holds the last
    * `Count(history)` inputs of `history`. */
  ghost predicate Holds(buf: seq<GameInput>, next: int, history: seq<GameInput>)
  {
    |buf| == HISTORY_LENGTH &&
    0 <= next < HISTORY_LENGTH && next == |history| % HISTORY_LENGTH &&
    forall k :: 0 <= k < Count(history) ==> buf[Slot(next, k)] == history[|history| - 1 - k]
  }

  lemma {:induction false} HoldsAfterPush(buf: seq<GameInput>, next: int, history: seq<GameInput>, input: GameInput)
    requires Holds(buf, next, history)
    ensures Holds(buf[next := input], (next + 1) % HISTORY_LENGTH, history + [input])
  {
    var h := history + [input];
    var b := buf[next := input];
    var n := (next + 1) % HISTORY_LENGTH;
    ModShift(|history|, 1, HISTORY_LENGTH);
    forall k | 0 <= k < Count(h)
      ensures b[Slot(n, k)] == h[|h| - 1 - k]
    {
      SlotAfterPush(next, k);
      if k > 0 {
        assert k - 1 < Count(history);
        assert h[|h| - 1 - k] == history[|history| - 1 - (k - 1)];
      }
    }
  }

  /** One round of the scan. */
  lemma {:induction false} GreedyStep(history: seq<GameInput>, sq: seq<Entry>, p: nat, i: int, lo: int)
    requires p < |sq| && lo <= i
    ensures Greedy(history, sq[p..], i, lo) ==
      if Fits(history, i, sq[p]) then Greedy(history, sq[p + 1..], i - 1, lo)
      else Greedy(history, sq[p..], i - 1, lo)
  {
    assert sq[p..][1..] == sq[p + 1..];
  }

  class InputHistory {
    const buffer: array<GameInput>
    var next: int
    var count: int
    /** Every input pushed so far, oldest first. */
    ghost var history: seq<GameInput>

    ghost predicate Valid()
      reads this, buffer
    {
      buffer.Length == HISTORY_LENGTH && count == Count(history) &&
      Holds(buffer[..], next, history)
    }

    constructor ()
      ensures Valid() && history == []
    {
      buffer := new GameInput[HISTORY_LENGTH](_ => GameInput(NONE));
      next, count := 0, 0;
      history := [];
    }

    /** `PushInput`: writes at `next`, advances `next` modulo 64 and counts
      * up to 64. */
    method PushInput(input: GameInput)
      requires Valid()
      modifies this, buffer
      ensures Valid() && history == old(history) + [input]
      ensures count == if old(count) < HISTORY_LENGTH then old(count) + 1 else old(count)
    {
      ghost var b0 := buffer[..];
      buffer[next] := input;
      next := (next + 1) % HISTORY_LENGTH;
      if count < HISTORY_LENGTH {
        count := count + 1;
      }
      HoldsAfterPush(b0, old(next), old(history), input);
      assert buffer[..] == b0[old(next) := input];
      history := history + [input];
    }

    /** `GetInput(framesAgo)`. */
    function GetInput(framesAgo: int): (r: GameInput)
      requires Valid()
      reads this, buffer
      ensures r == InputAt(history, framesAgo)
    {
      if framesAgo < 0 || framesAgo >= count then GameInput(NONE)
      else buffer[Slot(next, framesAgo)]
    }

    predicate IsHeld(flag: int)
      requires Valid()
      reads this, buffer
      ensures IsHeld(flag) <==> |history| > 0 && HasInput(history[|history| - 1], flag)
    {
      HasInput(GetInput(0), flag)
    }

    method HasInputSequence(sq: seq<Entry>, withinFrames: int, beforeFrames: int) returns (found: bool)
      requires Valid()
      ensures found == SequenceFound(history, sq, withinFrames, beforeFrames)
    {
      if withinFrames < 0 || withinFrames >= count {
        return false;
      }
      var seqPtr := 0;
      var i := withinFrames - 1;
      while i >= beforeFrames && seqPtr < |sq|
        invariant 0 <= seqPtr <= |sq|
        invariant Greedy(history, sq[seqPtr..], i, beforeFrames) ==
                  Greedy(history, sq, withinFrames - 1, beforeFrames)
        decreases i - beforeFrames + 1
      {
        GreedyStep(history, sq, seqPtr, i, beforeFrames);
        if HasInput(GetInput(i), sq[seqPtr].Input) == sq[seqPtr].Pressed {
          seqPtr := seqPtr + 1;
        }
        i := i - 1;
      }
      found := seqPtr == |sq|;
    }

    method PressedRecently(flag: int, withinFrames: int, beforeFrames: int) returns (found: bool)
      requires Valid()
      ensures found == SequenceFound(history, PressedPattern(flag), withinFrames, beforeFrames)
    {
      found := HasInputSequence(PressedPattern(flag), withinFrames, beforeFrames);
    }

    method PressedAndReleasedRecently(flag: int, withinFrames: int, beforeFrames: int) returns (found: bool)
      requires Valid()
      ensures found == SequenceFound(history, PressedAndReleasedPattern(flag), withinFrames, beforeFrames)
    {
      found := HasInputSequence(PressedAndReleasedPattern(flag), withinFrames, beforeFrames);
    }

    method ReleasedRecently(flag: int, withinFrames: int, beforeFrames: int) returns (found: bool)
      requires Valid()
      ensures found == SequenceFound(history, ReleasedPattern(flag), withinFrames, beforeFrames)
    {
      found := HasInputSequence(ReleasedPattern(flag), withinFrames, beforeFrames);
    }
  }
}
