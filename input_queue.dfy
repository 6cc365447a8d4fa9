/** `InputQueue<TInput>`: the per-player circular queue of confirmed inputs,
  * with frame delay, "repeat the last input" prediction and detection of
  * the first mispredicted frame.
  *
  * Each operation is a function on `Queue`, the queue's fields as a value,
  * that follows the C# method step by step, failed assertions included
  * (they leave the state as the C# leaves it at the throw).  The class
  * `InputQueue` at the end holds the same fields, updates them in place and
  * is proved to compute these functions; `Wf` and `Window` say what the
  * queue stores, and the lemmas say what each operation does to that. */
module InputQueues {
  import opened Frames
  import opened Outcomes
  import opened Rollback
  import opened ModArith

  const INPUT_QUEUE_LENGTH: int := 128

  /** The fields of an `InputQueue<TInput>`. */
  datatype Queue<I> = Queue(inputs: seq<PlayerInput<I>>, head: int, tail: int, length: int, firstFrame: bool,
                            lastAddedFrame: Frame, firstIncorrectFrame: Frame, lastRequestedFrame: Frame,
                            frameDelay: nat, prediction: PlayerInput<I>)

  /** The queue the constructor builds; `blank` is `default(TInput)`. */
  function InitialQueue<I>(blank: I): (q: Queue<I>)
    ensures |q.inputs| == INPUT_QUEUE_LENGTH && q.firstFrame && q.lastAddedFrame == NULL_FRAME
    ensures forall i :: 0 <= i < INPUT_QUEUE_LENGTH ==> q.inputs[i] == BlankInput(NULL_FRAME, blank)
  {
    Queue(seq(INPUT_QUEUE_LENGTH, _ => BlankInput(NULL_FRAME, blank)), 0, 0, 0, true,
          NULL_FRAME, NULL_FRAME, NULL_FRAME, 0, BlankInput(NULL_FRAME, blank))
  }

  /** Bounds every operation keeps, whatever it is called with. */
  predicate Bounded<I>(q: Queue<I>)
  {
    |q.inputs| == INPUT_QUEUE_LENGTH &&
    0 <= q.head < INPUT_QUEUE_LENGTH && 0 <= q.tail < INPUT_QUEUE_LENGTH &&
    q.lastAddedFrame.No >= -1 &&
    forall i :: 0 <= i < INPUT_QUEUE_LENGTH ==> q.inputs[i].Frame.No >= -1
  }

  /** The slot before `head`, i.e. the newest one. */
  function PreviousPosition(head: int): (p: int)
    ensures 0 <= head < INPUT_QUEUE_LENGTH ==> 0 <= p < INPUT_QUEUE_LENGTH
  {
    if head == 0 then INPUT_QUEUE_LENGTH - 1 else head - 1
  }

  function TailFrame<I>(q: Queue<I>): Frame
    requires Bounded(q)
  {
    q.inputs[q.tail].Frame
  }

  // ----- What the queue stores -----

  /** How many inputs the queue really holds: `length`, or one fewer once
    * "delete all but most recent" has counted the slot `head`, which holds
    * no input yet.  The two cases differ in where `tail` sits. */
  function Stored<I>(q: Queue<I>): int
  {
    if q.length >= 1 && q.tail == (q.lastAddedFrame.No + 2 - q.length) % INPUT_QUEUE_LENGTH
    then q.length - 1 else q.length
  }

  /** Frame of the oldest stored input. */
  function Start<I>(q: Queue<I>): int
  {
    q.lastAddedFrame.No + 1 - Stored(q)
  }

  /** No slot holds a frame after the last one added. */
  predicate SlotsBelow<I>(q: Queue<I>)
    requires |q.inputs| == INPUT_QUEUE_LENGTH
  {
    forall i :: 0 <= i < INPUT_QUEUE_LENGTH ==> q.inputs[i].Frame.No <= q.lastAddedFrame.No
  }

  /** Before the first add nothing is stored and every slot is blank;
    * afterwards `head` is the slot after the last added frame's. */
  ghost predicate HeadPlaced<I>(q: Queue<I>, blank: I)
    requires |q.inputs| == INPUT_QUEUE_LENGTH
  {
    var last := q.lastAddedFrame;
    (q.firstFrame <==> last == NULL_FRAME) &&
    (q.firstFrame ==> q.head == 0 && q.tail == 0 && q.length == 0 &&
                      forall i :: 0 <= i < INPUT_QUEUE_LENGTH ==> q.inputs[i] == BlankInput(NULL_FRAME, blank)) &&
    (!q.firstFrame ==> last.No >= 0 &&
                       q.head == (last.No + 1) % INPUT_QUEUE_LENGTH &&
                       q.inputs[last.No % INPUT_QUEUE_LENGTH].Frame == last)
  }

  /** The frames `Start(q) .. lastAddedFrame` are stored, each at its slot,
    * with `tail` at the oldest. */
  predicate StoresRange<I>(q: Queue<I>)
    requires |q.inputs| == INPUT_QUEUE_LENGTH
  {
    0 <= Stored(q) <= q.lastAddedFrame.No + 1 && q.length <= INPUT_QUEUE_LENGTH &&
    q.tail == Start(q) % INPUT_QUEUE_LENGTH &&
    forall f :: Start(q) <= f <= q.lastAddedFrame.No ==> q.inputs[f % INPUT_QUEUE_LENGTH].Frame.No == f
  }

  /** The invariant of the queue as the session uses it: the stored inputs
    * are those of the consecutive frames `Start(q) .. lastAddedFrame`, each
    * at index `frame mod 128`, `tail` is the slot of the oldest and `head`
    * the slot after the newest; before the first add every slot is blank. */
  ghost predicate Wf<I>(q: Queue<I>, blank: I)
  {
    Bounded(q) && SlotsBelow(q) && HeadPlaced(q, blank) && StoresRange(q)
  }

  /** The stored inputs, oldest first. */
  ghost function Window<I>(q: Queue<I>): (w: seq<PlayerInput<I>>)
    requires |q.inputs| == INPUT_QUEUE_LENGTH && 0 <= Stored(q)
    ensures |w| == Stored(q)
    ensures forall k :: 0 <= k < |w| ==> w[k] == q.inputs[(Start(q) + k) % INPUT_QUEUE_LENGTH]
  {
    seq(Stored(q), k requires 0 <= k < Stored(q) => q.inputs[(Start(q) + k) % INPUT_QUEUE_LENGTH])
  }

  /** `n` inputs `x` for the consecutive frames `start, start+1, ...`. */
  function Gap<I>(start: int, n: nat, x: I): (g: seq<PlayerInput<I>>)
    ensures |g| == n
    ensures forall k :: 0 <= k < n ==> g[k] == PlayerInput(Frame(start + k), x)
    decreases n
  {
    if n == 0 then [] else [PlayerInput(Frame(start), x)] + Gap(start + 1, n - 1, x)
  }

  lemma {:induction false} AppendAssoc<T>(a: seq<T>, b: seq<T>, c: seq<T>)
    ensures a + (b + c) == (a + b) + c
  {
  }

  lemma {:induction false} DistinctMod(x: int, y: int)
    requires 0 <= x < y < x + INPUT_QUEUE_LENGTH
    ensures x % INPUT_QUEUE_LENGTH != y % INPUT_QUEUE_LENGTH
  {
    var q := x / INPUT_QUEUE_LENGTH;
    var x0 := x - q * INPUT_QUEUE_LENGTH;
    assert x % INPUT_QUEUE_LENGTH == x0 by { UniqueMod(x, q, x0, INPUT_QUEUE_LENGTH); }
    ModMultiple(y - q * INPUT_QUEUE_LENGTH, q, INPUT_QUEUE_LENGTH);
    ModSmall(y - q * INPUT_QUEUE_LENGTH, INPUT_QUEUE_LENGTH);
  }

  lemma {:induction false} NextSlot(a: int)
    requires a >= 0
    ensures ((a % INPUT_QUEUE_LENGTH) + 1) % INPUT_QUEUE_LENGTH == (a + 1) % INPUT_QUEUE_LENGTH
    ensures PreviousPosition((a + 1) % INPUT_QUEUE_LENGTH) == a % INPUT_QUEUE_LENGTH
  {
    ModShift(a, 1, INPUT_QUEUE_LENGTH);
    ModSmall((a % INPUT_QUEUE_LENGTH) + 1, INPUT_QUEUE_LENGTH);
  }

  lemma {:induction false} WindowFrames<I>(q: Queue<I>, blank: I)
    requires Wf(q, blank)
    ensures forall k :: 0 <= k < |Window(q)| ==> Window(q)[k].Frame.No == Start(q) + k
  {
  }

  /** The tail slot holds the oldest stored frame. */
  lemma {:induction false} TailHoldsStart<I>(q: Queue<I>, blank: I)
    requires Wf(q, blank) && Stored(q) >= 1
    ensures TailFrame(q).No == Start(q)
  {
    assert q.inputs[Start(q) % INPUT_QUEUE_LENGTH].Frame.No == Start(q);
  }

  lemma {:induction false} InitialWf<I>(blank: I)
    ensures Wf(InitialQueue(blank), blank) && Window(InitialQueue(blank)) == []
  {
  }

  // ----- DiscardConfirmedFrames -----

  /** `frame` as `DiscardConfirmedFrames` uses it: never past the last
    * requested frame. */
  function DiscardBound<I>(q: Queue<I>, frame: Frame): (b: Frame)
    ensures b.No <= frame.No
    ensures q.lastRequestedFrame != NULL_FRAME ==> b.No <= q.lastRequestedFrame.No
    ensures b == frame || b == q.lastRequestedFrame
  {
    if q.lastRequestedFrame != NULL_FRAME then Min(frame, q.lastRequestedFrame) else frame
  }

  /** `DiscardConfirmedFrames(frame)`: nothing before any add; "delete all
    * but most recent" (`tail := head`, `length := 1`) once the bound reaches
    * the last added frame; nothing when the bound is not past the tail
    * slot's frame; otherwise the tail moves on by `bound - tailFrame`. */
  function Discarded<I>(q: Queue<I>, frame: Frame): (r: Queue<I>)
    requires Bounded(q)
    ensures Bounded(r)
    ensures r == q.(tail := r.tail, length := r.length)
  {
    if q.lastAddedFrame == NULL_FRAME then q
    else
      var f := DiscardBound(q, frame);
      if f.No >= q.lastAddedFrame.No then q.(tail := q.head, length := 1)
      else if f.No <= TailFrame(q).No then q
      else
        var offset := f.No - TailFrame(q).No;
        q.(tail := (q.tail + offset) % INPUT_QUEUE_LENGTH, length := q.length - offset)
  }

  /** The one case where discarding breaks the invariant: nothing is stored
    * (after an earlier "delete all but most recent") and the bound lies
    * strictly between the stale tail slot's frame and the last added
    * frame, so `length` drops to 0 or below. */
  predicate DiscardBreaks<I>(q: Queue<I>, frame: Frame)
    requires Bounded(q)
  {
    Stored(q) == 0 && q.lastAddedFrame != NULL_FRAME &&
    TailFrame(q).No < DiscardBound(q, frame).No < q.lastAddedFrame.No
  }

  /** Moving only `tail` and `length` to a later start keeps the invariant
    * and drops the stored inputs before the new start. */
  lemma {:induction false} WfAfterTailMove<I>(q: Queue<I>, r: Queue<I>, blank: I)
    requires Wf(q, blank) && !q.firstFrame && r == q.(tail := r.tail, length := r.length)
    requires 0 <= r.tail < INPUT_QUEUE_LENGTH && r.length <= INPUT_QUEUE_LENGTH
    requires Start(q) <= Start(r) <= q.lastAddedFrame.No + 1 && r.tail == Start(r) % INPUT_QUEUE_LENGTH
    ensures Wf(r, blank)
    ensures Window(r) == Window(q)[Start(r) - Start(q)..]
  {
  }

  /** "Delete all but most recent" leaves nothing stored. */
  lemma {:induction false} DiscardAllKeepsWf<I>(q: Queue<I>, frame: Frame, blank: I)
    requires Wf(q, blank) && q.lastAddedFrame != NULL_FRAME && DiscardBound(q, frame).No >= q.lastAddedFrame.No
    ensures Wf(Discarded(q, frame), blank) && Window(Discarded(q, frame)) == []
  {
    var r := Discarded(q, frame);
    var last := q.lastAddedFrame.No;
    assert r.tail == (last + 1) % INPUT_QUEUE_LENGTH && r.length == 1;
    assert Stored(r) == 0;
    WfAfterTailMove(q, r, blank);
  }

  /** Where the tail and the count land when the tail moves past some
    * stored inputs: the oldest stored frame becomes the bound. */
  lemma {:induction false} DiscardSomeMoves<I>(q: Queue<I>, frame: Frame)
    requires Bounded(q) && q.lastAddedFrame != NULL_FRAME && q.length <= INPUT_QUEUE_LENGTH
    requires 1 <= Stored(q) && q.tail == Start(q) % INPUT_QUEUE_LENGTH && TailFrame(q).No == Start(q)
    requires Start(q) < DiscardBound(q, frame).No < q.lastAddedFrame.No
    ensures var r := Discarded(q, frame);
            r.tail == DiscardBound(q, frame).No % INPUT_QUEUE_LENGTH && Start(r) == DiscardBound(q, frame).No &&
            r.length <= INPUT_QUEUE_LENGTH
  {
    var r := Discarded(q, frame);
    var b := DiscardBound(q, frame).No;
    var offset := b - Start(q);
    assert r.tail == (q.tail + offset) % INPUT_QUEUE_LENGTH && r.length == q.length - offset;
    ModShift(Start(q), offset, INPUT_QUEUE_LENGTH);
    assert r.tail == b % INPUT_QUEUE_LENGTH;
    if Stored(q) == q.length - 1 {
      assert Stored(r) == r.length - 1;
    } else {
      DistinctMod(b, b + 1);
      assert Stored(r) == r.length;
    }
  }

  /** Moving the tail past some stored inputs drops exactly those. */
  lemma {:induction false} DiscardSomeKeepsWf<I>(q: Queue<I>, frame: Frame, blank: I)
    requires Wf(q, blank) && Stored(q) >= 1
    requires Start(q) < DiscardBound(q, frame).No < q.lastAddedFrame.No
    ensures Wf(Discarded(q, frame), blank)
    ensures Window(Discarded(q, frame)) == Window(q)[DiscardBound(q, frame).No - Start(q)..]
  {
    TailHoldsStart(q, blank);
    DiscardSomeMoves(q, frame);
    WfAfterTailMove(q, Discarded(q, frame), blank);
  }

  /** Discarding keeps the queue well formed and drops exactly the stored
    * inputs of the frames before the bound, all of them once the bound
    * reaches the last added frame. */
  lemma {:induction false} DiscardKeepsWf<I>(q: Queue<I>, frame: Frame, blank: I)
    requires Wf(q, blank) && !DiscardBreaks(q, frame)
    ensures Wf(Discarded(q, frame), blank)
    ensures var b := DiscardBound(q, frame).No;
            Window(Discarded(q, frame)) ==
              (if q.lastAddedFrame == NULL_FRAME then Window(q)
               else if b >= q.lastAddedFrame.No then []
               else if b <= Start(q) then Window(q)
               else Window(q)[b - Start(q)..])
  {
    var b := DiscardBound(q, frame).No;
    if q.lastAddedFrame != NULL_FRAME {
      if b >= q.lastAddedFrame.No {
        DiscardAllKeepsWf(q, frame, blank);
      } else if Stored(q) >= 1 {
        TailHoldsStart(q, blank);
        if b > Start(q) {
          DiscardSomeKeepsWf(q, frame, blank);
        }
      }
    }
  }

  // ----- SetFrameDelay and ResetPrediction -----

  /** `SetFrameDelay(delay)`. */
  function DelaySet<I>(q: Queue<I>, delay: nat): (r: Queue<I>)
    ensures r.frameDelay == delay
  {
    q.(frameDelay := delay)
  }

  /** `ResetPrediction`: no prediction active, no mismatch recorded, no
    * frame requested. */
  function PredictionReset<I>(q: Queue<I>): (r: Queue<I>)
  {
    q.(prediction := q.prediction.(Frame := NULL_FRAME), firstIncorrectFrame := NULL_FRAME,
       lastRequestedFrame := NULL_FRAME)
  }

  /** Changing the delay keeps what is stored; later adds land `delay`
    * frames after their input's frame. */
  lemma {:induction false} DelayKeepsWf<I>(q: Queue<I>, delay: nat, blank: I)
    requires Wf(q, blank)
    ensures Wf(DelaySet(q, delay), blank) && Window(DelaySet(q, delay)) == Window(q)
  {
    assert Stored(DelaySet(q, delay)) == Stored(q);
  }

  /** A reset keeps what is stored, ends any prediction and forgets any
    * mismatch. */
  lemma {:induction false} ResetKeepsWf<I>(q: Queue<I>, blank: I)
    requires Wf(q, blank)
    ensures var r := PredictionReset(q);
            Wf(r, blank) && Window(r) == Window(q) && Start(r) == Start(q) &&
            r.prediction.Frame == NULL_FRAME && r.prediction.Input == q.prediction.Input &&
            r.firstIncorrectFrame == NULL_FRAME && r.lastRequestedFrame == NULL_FRAME
  {
    assert Stored(PredictionReset(q)) == Stored(q);
  }

  /** After a reset, `Input` answers a stored frame as confirmed again. */
  lemma {:induction false} ResetConfirms<I>(q: Queue<I>, f: Frame, blank: I)
    requires Wf(q, blank) && Start(q) <= f.No <= q.lastAddedFrame.No
    ensures InputOf(PredictionReset(q), f, blank).0 == Ok((Window(q)[f.No - Start(q)].Input, Confirmed))
  {
    ResetKeepsWf(q, blank);
    InputOfStoredFrame(PredictionReset(q), f, blank);
  }

  // ----- ConfirmedInput -----

  /** `ConfirmedInput(requestedFrame)`: the slot is found by C#'s truncating
    * `%`, so a negative frame indexes out of the array. */
  function ConfirmedOf<I>(q: Queue<I>, requestedFrame: Frame): (r: Result<PlayerInput<I>>)
    requires Bounded(q)
    ensures r.Ok? ==> r.value.Frame == requestedFrame
  {
    var offset := CsRem(requestedFrame.No, INPUT_QUEUE_LENGTH);
    if offset < 0 then Err(IndexOutOfRange)
    else if q.inputs[offset].Frame == requestedFrame then Ok(q.inputs[offset])
    else Err(InvalidOperation)
  }

  /** Every stored frame is answered from the window; in a well-formed
    * queue any answer at all is for a frame that was added (an older,
    * discarded one too while its slot is not overwritten). */
  lemma {:induction false} ConfirmedOfStored<I>(q: Queue<I>, requestedFrame: Frame, blank: I)
    requires Wf(q, blank)
    ensures ConfirmedOf(q, requestedFrame).Ok? ==> 0 <= requestedFrame.No <= q.lastAddedFrame.No
    ensures Start(q) <= requestedFrame.No <= q.lastAddedFrame.No ==>
              ConfirmedOf(q, requestedFrame) == Ok(Window(q)[requestedFrame.No - Start(q)])
  {
    var offset := CsRem(requestedFrame.No, INPUT_QUEUE_LENGTH);
    if 0 <= offset {
      assert q.inputs[offset].Frame.No <= q.lastAddedFrame.No;
    }
  }

  // ----- Input -----

  /** The prediction `Input` starts when none is active: a blank input for
    * the first frame or before anything was added, otherwise a copy of the
    * newest slot moved one frame on. */
  function NewPrediction<I>(q: Queue<I>, requestedFrame: Frame, blank: I): (p: PlayerInput<I>)
    requires Bounded(q)
    ensures p.Frame != NULL_FRAME
    ensures requestedFrame == FIRST_FRAME || q.lastAddedFrame == NULL_FRAME ==> p == BlankInput(FIRST_FRAME, blank)
  {
    if requestedFrame == FIRST_FRAME || q.lastAddedFrame == NULL_FRAME then BlankInput(FIRST_FRAME, blank)
    else
      var newest := q.inputs[PreviousPosition(q.head)];
      newest.(Frame := Plus(newest.Frame, 1))
  }

  /** `Input(requestedFrame)`: the stored input when no prediction is active
    * and the frame is within `length` of the tail, else the prediction. */
  function InputOf<I>(q: Queue<I>, requestedFrame: Frame, blank: I): (r: (Result<(I, InputStatus)>, Queue<I>))
    requires Bounded(q)
    ensures Bounded(r.1)
    ensures r.1 == q.(lastRequestedFrame := r.1.lastRequestedFrame, prediction := r.1.prediction)
    ensures q.firstIncorrectFrame != NULL_FRAME ==> r == (Err(AssertionFailed), q)
    ensures q.firstIncorrectFrame == NULL_FRAME ==> r.1.lastRequestedFrame == requestedFrame
    ensures r.0.Ok? && r.0.value.1 == Predicted ==> r.1.prediction.Frame != NULL_FRAME && r.0.value.0 == r.1.prediction.Input
  {
    if q.firstIncorrectFrame != NULL_FRAME then (Err(AssertionFailed), q)
    else
      var q1 := q.(lastRequestedFrame := requestedFrame);
      if requestedFrame.No < TailFrame(q).No then (Err(AssertionFailed), q1)
      else if q.prediction.Frame == NULL_FRAME then
        var offset := requestedFrame.No - TailFrame(q).No;
        if offset < q.length then
          var slot := (offset + q.tail) % INPUT_QUEUE_LENGTH;
          if q.inputs[slot].Frame == requestedFrame then (Ok((q.inputs[slot].Input, Confirmed)), q1)
          else (Err(AssertionFailed), q1)
        else
          var p := NewPrediction(q, requestedFrame, blank);
          (Ok((p.Input, Predicted)), q1.(prediction := p))
      else (Ok((q.prediction.Input, Predicted)), q1)
  }

  /** `Input` changes none of the fields the invariant is about. */
  lemma {:induction false} InputKeepsWf<I>(q: Queue<I>, requestedFrame: Frame, blank: I)
    requires Wf(q, blank)
    ensures Wf(InputOf(q, requestedFrame, blank).1, blank)
    ensures Window(InputOf(q, requestedFrame, blank).1) == Window(q)
  {
    var r := InputOf(q, requestedFrame, blank).1;
    assert Stored(r) == Stored(q) && Start(r) == Start(q);
  }

  /** With no prediction active, a stored frame is answered from the window
    * and marked Confirmed. */
  lemma {:induction false} InputOfStoredFrame<I>(q: Queue<I>, requestedFrame: Frame, blank: I)
    requires Wf(q, blank) && q.firstIncorrectFrame == NULL_FRAME && q.prediction.Frame == NULL_FRAME
    requires Start(q) <= requestedFrame.No <= q.lastAddedFrame.No
    ensures InputOf(q, requestedFrame, blank).0 == Ok((Window(q)[requestedFrame.No - Start(q)].Input, Confirmed))
  {
    TailHoldsStart(q, blank);
    ModShift(Start(q), requestedFrame.No - Start(q), INPUT_QUEUE_LENGTH);
    assert (requestedFrame.No - TailFrame(q).No + q.tail) % INPUT_QUEUE_LENGTH
           == (Start(q) + (requestedFrame.No - Start(q))) % INPUT_QUEUE_LENGTH;
  }

  /** After "delete all but most recent" the frame right after the last
    * added one counts as stored but is not: its slot `head` holds an older
    * frame or none, so `Input` fails its assertion on it. */
  lemma {:induction false} InputAfterDiscardAll<I>(q: Queue<I>, blank: I)
    requires Wf(q, blank) && q.firstIncorrectFrame == NULL_FRAME && q.prediction.Frame == NULL_FRAME
    requires Stored(q) == q.length - 1 && Stored(q) >= 1
    ensures InputOf(q, Plus(q.lastAddedFrame, 1), blank).0 == Err(AssertionFailed)
  {
    TailHoldsStart(q, blank);
    ModShift(Start(q), Stored(q), INPUT_QUEUE_LENGTH);
    var slot := (q.lastAddedFrame.No + 1 - TailFrame(q).No + q.tail) % INPUT_QUEUE_LENGTH;
    assert slot == (Start(q) + Stored(q)) % INPUT_QUEUE_LENGTH;
    assert q.inputs[slot].Frame.No <= q.lastAddedFrame.No;
  }

  /** A prediction started after inputs were added repeats the newest stored
    * input, one frame after it; before any add, or for frame 0, it is blank. */
  lemma {:induction false} PredictionRepeatsLast<I>(q: Queue<I>, requestedFrame: Frame, blank: I)
    requires Wf(q, blank) && q.firstIncorrectFrame == NULL_FRAME && q.prediction.Frame == NULL_FRAME
    requires requestedFrame.No >= TailFrame(q).No && requestedFrame.No - TailFrame(q).No >= q.length
    ensures var (r, q') := InputOf(q, requestedFrame, blank);
            r == Ok((q'.prediction.Input, Predicted)) &&
            (if q.lastAddedFrame == NULL_FRAME || requestedFrame == FIRST_FRAME then q'.prediction == BlankInput(FIRST_FRAME, blank)
             else q'.prediction == q.inputs[q.lastAddedFrame.No % INPUT_QUEUE_LENGTH].(Frame := Plus(q.lastAddedFrame, 1)))
  {
    if q.lastAddedFrame != NULL_FRAME {
      NextSlot(q.lastAddedFrame.No);
    }
  }

  /** While a prediction is active, every request at or after the tail gets
    * the same predicted input. */
  lemma {:induction false} PredictionIsStable<I>(q: Queue<I>, f: Frame, g: Frame, blank: I)
    requires Bounded(q) && q.firstIncorrectFrame == NULL_FRAME
    requires InputOf(q, f, blank).0.Ok? && InputOf(q, f, blank).0.value.1 == Predicted
    requires g.No >= TailFrame(q).No
    ensures InputOf(InputOf(q, f, blank).1, g, blank).0 == InputOf(q, f, blank).0
  {
  }

  // ----- AddInputByFrame -----

  /** The two checks `AddInputByFrame` makes before writing: frames are added
    * consecutively, and the newest slot holds the frame before. */
  predicate AddAllowed<I>(q: Queue<I>, frame: Frame)
    requires Bounded(q)
  {
    (q.lastAddedFrame == NULL_FRAME || frame.No == q.lastAddedFrame.No + 1) &&
    (frame == FIRST_FRAME || q.inputs[PreviousPosition(q.head)].Frame.No == frame.No - 1)
  }

  /** How a confirmed input for the predicted frame updates the prediction
    * and the first incorrect frame (with no prediction active, nothing
    * changes). */
  function Track<I(==)>(prediction: PlayerInput<I>, firstIncorrect: Frame, lastRequested: Frame,
                        x: PlayerInput<I>): (r: (PlayerInput<I>, Frame))
    ensures prediction.Frame == NULL_FRAME ==> r == (prediction, firstIncorrect)
    ensures firstIncorrect != NULL_FRAME ==> r.1 == firstIncorrect
    ensures prediction.Frame != NULL_FRAME && firstIncorrect == NULL_FRAME ==>
              r.1 == (if Equal(prediction, x, true) then NULL_FRAME else x.Frame)
    ensures prediction.Frame != NULL_FRAME ==>
              r.0.Input == prediction.Input &&
              r.0.Frame == (if prediction.Frame == lastRequested && r.1 == NULL_FRAME then NULL_FRAME
                            else Plus(prediction.Frame, 1))
  {
    if prediction.Frame == NULL_FRAME then (prediction, firstIncorrect)
    else
      var fi := if firstIncorrect == NULL_FRAME && !Equal(prediction, x, true) then x.Frame else firstIncorrect;
      var p := if prediction.Frame == lastRequested && fi == NULL_FRAME then prediction.(Frame := NULL_FRAME)
               else prediction.(Frame := Plus(prediction.Frame, 1));
      (p, fi)
  }

  /** The write `AddInputByFrame` makes once its two checks pass: the input,
    * retagged with `frame`, at `head`, which moves on, and one more counted. */
  function Written<I>(q: Queue<I>, input: PlayerInput<I>, frame: Frame): (r: Queue<I>)
    requires Bounded(q) && AddAllowed(q, frame)
    ensures Bounded(r) && r.inputs[q.head] == input.(Frame := frame)
  {
    q.(inputs := q.inputs[q.head := input.(Frame := frame)],
       head := (q.head + 1) % INPUT_QUEUE_LENGTH, length := q.length + 1)
  }

  /** The rest of `AddInputByFrame` after the write: the count is checked,
    * then the frame against an active prediction, which moves on as
    * `Track` says. */
  function AddChecked<I(==)>(q1: Queue<I>, input: PlayerInput<I>, frame: Frame): (r: (Outcome, Queue<I>))
    requires Bounded(q1) && frame.No >= -1
    ensures Bounded(r.1)
  {
    if q1.length > INPUT_QUEUE_LENGTH then (Fail(AssertionFailed), q1)
    else
      var q2 := q1.(firstFrame := false, lastAddedFrame := frame);
      if q1.prediction.Frame == NULL_FRAME then (Pass, q2)
      else if frame != q1.prediction.Frame then (Fail(AssertionFailed), q2)
      else
        var t := Track(q1.prediction, q1.firstIncorrectFrame, q1.lastRequestedFrame, input.(Frame := frame));
        (Pass, q2.(prediction := t.0, firstIncorrectFrame := t.1))
  }

  /** `AddInputByFrame(input, frame)`: stores `input` as the input of `frame`
    * at `head`, then checks the frame against the prediction and moves the
    * prediction on. */
  function AddedByFrame<I(==)>(q: Queue<I>, input: PlayerInput<I>, frame: Frame): (r: (Outcome, Queue<I>))
    requires Bounded(q)
    ensures Bounded(r.1)
    ensures r.1.tail == q.tail && r.1.frameDelay == q.frameDelay && r.1.lastRequestedFrame == q.lastRequestedFrame
    ensures !AddAllowed(q, frame) ==> r == (Fail(AssertionFailed), q)
    ensures AddAllowed(q, frame) ==>
              r.1.inputs == q.inputs[q.head := input.(Frame := frame)] &&
              r.1.head == (q.head + 1) % INPUT_QUEUE_LENGTH && r.1.length == q.length + 1
  {
    if !AddAllowed(q, frame) then (Fail(AssertionFailed), q)
    else AddChecked(Written(q, input, frame), input, frame)
  }

  /** A recorded first incorrect frame is never replaced. */
  lemma {:induction false} AddKeepsFirstIncorrect<I>(q: Queue<I>, input: PlayerInput<I>, frame: Frame)
    requires Bounded(q) && q.firstIncorrectFrame != NULL_FRAME
    ensures AddedByFrame(q, input, frame).1.firstIncorrectFrame == q.firstIncorrectFrame
  {
  }

  /** In a well-formed queue the checks pass exactly for the frame after the
    * last added one (frame 0 for the first add). */
  lemma {:induction false} AddAllowedInWf<I>(q: Queue<I>, frame: Frame, blank: I)
    requires Wf(q, blank)
    ensures AddAllowed(q, frame) <==> frame.No == q.lastAddedFrame.No + 1
  {
    if !q.firstFrame {
      NextSlot(q.lastAddedFrame.No);
    } else {
      assert q.inputs[PreviousPosition(q.head)] == BlankInput(NULL_FRAME, blank);
    }
  }

  /** With at most 127 inputs stored, slot `head` holds none of them. */
  lemma {:induction false} HeadOutsideWindow<I>(q: Queue<I>, blank: I)
    requires Wf(q, blank) && q.length < INPUT_QUEUE_LENGTH
    ensures q.head == (q.lastAddedFrame.No + 1) % INPUT_QUEUE_LENGTH
    ensures forall f :: Start(q) <= f <= q.lastAddedFrame.No ==> f % INPUT_QUEUE_LENGTH != q.head
  {
    forall f | Start(q) <= f <= q.lastAddedFrame.No
      ensures f % INPUT_QUEUE_LENGTH != (q.lastAddedFrame.No + 1) % INPUT_QUEUE_LENGTH
    {
      DistinctMod(f, q.lastAddedFrame.No + 1);
    }
  }

  /** Storing the next frame's input at `head` counts one more stored input
    * and keeps the oldest. */
  lemma {:induction false} StoredAfterAppend<I>(q: Queue<I>, r: Queue<I>, blank: I)
    requires Wf(q, blank) && q.length < INPUT_QUEUE_LENGTH
    requires r.tail == q.tail && r.length == q.length + 1 && r.lastAddedFrame.No == q.lastAddedFrame.No + 1
    ensures Stored(r) == Stored(q) + 1 && Start(r) == Start(q)
  {
    if Stored(q) == q.length {
      DistinctMod(Start(q), Start(q) + 1);
    }
  }

  /** Writing the next frame's input at `head` and moving `head` on keeps
    * the invariant. */
  lemma {:induction false} WfAfterAppend<I>(q: Queue<I>, r: Queue<I>, x: PlayerInput<I>, blank: I)
    requires Wf(q, blank) && q.length < INPUT_QUEUE_LENGTH && x.Frame.No == q.lastAddedFrame.No + 1
    requires r == q.(inputs := q.inputs[q.head := x], head := (q.head + 1) % INPUT_QUEUE_LENGTH,
                     length := q.length + 1, firstFrame := false, lastAddedFrame := x.Frame,
                     prediction := r.prediction, firstIncorrectFrame := r.firstIncorrectFrame)
    ensures Wf(r, blank)
  {
    HeadOutsideWindow(q, blank);
    NextSlot(q.lastAddedFrame.No + 1);
    StoredAfterAppend(q, r, blank);
  }

  /** ... and appends that input to the window. */
  lemma {:induction false} WindowAfterAppend<I>(q: Queue<I>, r: Queue<I>, x: PlayerInput<I>, blank: I)
    requires Wf(q, blank) && q.length < INPUT_QUEUE_LENGTH && x.Frame.No == q.lastAddedFrame.No + 1
    requires r == q.(inputs := q.inputs[q.head := x], head := (q.head + 1) % INPUT_QUEUE_LENGTH,
                     length := q.length + 1, firstFrame := false, lastAddedFrame := x.Frame,
                     prediction := r.prediction, firstIncorrectFrame := r.firstIncorrectFrame)
    ensures 0 <= Stored(r) && Window(r) == Window(q) + [x]
  {
    HeadOutsideWindow(q, blank);
    StoredAfterAppend(q, r, blank);
    NextSlot(q.lastAddedFrame.No + 1);
    var w, w' := Window(q), Window(r);
    assert forall k :: 0 <= k < |w| ==> w'[k] == w[k];
    assert w' == w + [x];
  }

  /** A successful add in a well-formed queue appends exactly the new input,
    * at the frame after the last one, and moves the prediction on as
    * `Track` says. It succeeds exactly when the frame is the next one, the
    * queue is not full and any prediction is for that frame. */
  lemma {:induction false} AddByFrameKeepsWf<I>(q: Queue<I>, input: PlayerInput<I>, frame: Frame, blank: I)
    requires Wf(q, blank)
    ensures var (o, q') := AddedByFrame(q, input, frame);
            o.Pass? <==> frame.No == q.lastAddedFrame.No + 1 && q.length < INPUT_QUEUE_LENGTH &&
                         (q.prediction.Frame == NULL_FRAME || q.prediction.Frame == frame)
    ensures var (o, q') := AddedByFrame(q, input, frame);
            o.Pass? ==>
              Wf(q', blank) && Window(q') == Window(q) + [input.(Frame := frame)] &&
              q'.lastAddedFrame == frame &&
              (q'.prediction, q'.firstIncorrectFrame) ==
                Track(q.prediction, q.firstIncorrectFrame, q.lastRequestedFrame, input.(Frame := frame))
  {
    AddAllowedInWf(q, frame, blank);
    var (o, q') := AddedByFrame(q, input, frame);
    if o.Pass? {
      WfAfterAppend(q, q', input.(Frame := frame), blank);
      WindowAfterAppend(q, q', input.(Frame := frame), blank);
    }
  }

  // ----- AdvanceQueueHead -----

  /** The prediction and first incorrect frame after confirming the inputs
    * `xs` in order; an error when an input is not for the predicted frame. */
  function TrackAll<I(==)>(prediction: PlayerInput<I>, firstIncorrect: Frame, lastRequested: Frame,
                           xs: seq<PlayerInput<I>>): Result<(PlayerInput<I>, Frame)>
    decreases |xs|
  {
    if xs == [] then Ok((prediction, firstIncorrect))
    else if prediction.Frame != NULL_FRAME && prediction.Frame != xs[0].Frame then Err(AssertionFailed)
    else
      var t := Track(prediction, firstIncorrect, lastRequested, xs[0]);
      TrackAll(t.0, t.1, lastRequested, xs[1..])
  }

  /** Confirming `xs + ys` is confirming `xs`, then `ys`. */
  lemma {:induction false} TrackAllAppend<I>(prediction: PlayerInput<I>, firstIncorrect: Frame, lastRequested: Frame,
                                             xs: seq<PlayerInput<I>>, ys: seq<PlayerInput<I>>)
    ensures TrackAll(prediction, firstIncorrect, lastRequested, xs + ys) ==
            match TrackAll(prediction, firstIncorrect, lastRequested, xs)
            case Err(e) => Err(e)
            case Ok(t) => TrackAll(t.0, t.1, lastRequested, ys)
    decreases |xs|
  {
    if xs == [] {
      assert xs + ys == ys;
    } else {
      assert (xs + ys)[0] == xs[0] && (xs + ys)[1..] == xs[1..] + ys;
      var t := Track(prediction, firstIncorrect, lastRequested, xs[0]);
      TrackAllAppend(t.0, t.1, lastRequested, xs[1..], ys);
    }
  }

  /** A recorded first incorrect frame survives any further confirmations. */
  lemma {:induction false} TrackAllKeepsIncorrect<I>(prediction: PlayerInput<I>, firstIncorrect: Frame,
                                                     lastRequested: Frame, xs: seq<PlayerInput<I>>)
    requires firstIncorrect != NULL_FRAME
    ensures TrackAll(prediction, firstIncorrect, lastRequested, xs).Ok? ==>
              TrackAll(prediction, firstIncorrect, lastRequested, xs).value.1 == firstIncorrect
    decreases |xs|
  {
    if xs != [] && !(prediction.Frame != NULL_FRAME && prediction.Frame != xs[0].Frame) {
      var t := Track(prediction, firstIncorrect, lastRequested, xs[0]);
      TrackAllKeepsIncorrect(t.0, t.1, lastRequested, xs[1..]);
    }
  }

  /** The frame `AdvanceQueueHead` expects next: 0 before any add, else the
    * one after the newest slot's frame. */
  function ExpectedFrame<I>(q: Queue<I>): int
    requires Bounded(q)
  {
    if q.firstFrame then FIRST_FRAME.No else q.inputs[PreviousPosition(q.head)].Frame.No + 1
  }

  /** The loop of `AdvanceQueueHead`: adds copies of slot `previousPosition`
    * for the frames `expected .. target - 1`, stopping at the first failed
    * assertion. */
  function Filled<I(==)>(q: Queue<I>, previousPosition: int, expected: int, target: int): (r: (Outcome, Queue<I>))
    requires Bounded(q) && 0 <= previousPosition < INPUT_QUEUE_LENGTH
    ensures Bounded(r.1)
    ensures r.1.tail == q.tail && r.1.frameDelay == q.frameDelay && r.1.lastRequestedFrame == q.lastRequestedFrame
    ensures r.0 == Pass || r.0 == Fail(AssertionFailed)
    ensures expected >= target ==> r == (Pass, q)
    ensures r.0.Pass? && expected < target ==> r.1.inputs[PreviousPosition(r.1.head)].Frame.No == target - 1
    decreases target - expected
  {
    if expected >= target then (Pass, q)
    else
      var r := AddedByFrame(q, q.inputs[previousPosition], Frame(expected));
      if r.0.Fail? then r else Filled(r.1, previousPosition, expected + 1, target)
  }

  /** The fill loop read forwards: the outcome and the queue after the rounds
    * for frames `first .. upTo-1`, stopping at the first failing round. */
  ghost function Replayed<I>(q: Queue<I>, previousPosition: int, first: int, upTo: int): (r: (Outcome, Queue<I>))
    requires Bounded(q) && 0 <= previousPosition < INPUT_QUEUE_LENGTH
    ensures Bounded(r.1)
    decreases upTo - first
  {
    if upTo <= first then (Pass, q)
    else
      var r := Replayed(q, previousPosition, first, upTo - 1);
      if r.0.Fail? then r else AddedByFrame(r.1, r.1.inputs[previousPosition], Frame(upTo - 1))
  }

  /** After rounds that all passed, what remains of the fill is the fill
    * from where they stopped. */
  lemma {:induction false} ReplayedThenFilled<I>(q: Queue<I>, previousPosition: int, first: int, upTo: int, target: int)
    requires Bounded(q) && 0 <= previousPosition < INPUT_QUEUE_LENGTH && first <= upTo <= target
    requires Replayed(q, previousPosition, first, upTo).0 == Pass
    ensures Filled(q, previousPosition, first, target) ==
            Filled(Replayed(q, previousPosition, first, upTo).1, previousPosition, upTo, target)
    decreases upTo - first
  {
    if upTo > first {
      var r := Replayed(q, previousPosition, first, upTo - 1);
      ReplayedThenFilled(q, previousPosition, first, upTo - 1, target);
      assert Filled(r.1, previousPosition, upTo - 1, target) == Filled(Replayed(q, previousPosition, first, upTo).1, previousPosition, upTo, target);
    }
  }

  /** A round that fails ends the fill with its own outcome and queue. */
  lemma {:induction false} ReplayedFails<I>(q: Queue<I>, previousPosition: int, first: int, upTo: int, target: int)
    requires Bounded(q) && 0 <= previousPosition < INPUT_QUEUE_LENGTH && first <= upTo < target
    requires Replayed(q, previousPosition, first, upTo).0 == Pass
    requires Replayed(q, previousPosition, first, upTo + 1).0.Fail?
    ensures Filled(q, previousPosition, first, target) == Replayed(q, previousPosition, first, upTo + 1)
  {
    ReplayedThenFilled(q, previousPosition, first, upTo, target);
  }

  /** Rounds that all passed up to the target are the whole fill. */
  lemma {:induction false} ReplayedCompletes<I>(q: Queue<I>, previousPosition: int, first: int, upTo: int, target: int)
    requires Bounded(q) && 0 <= previousPosition < INPUT_QUEUE_LENGTH && first <= upTo
    requires upTo == target || (upTo == first && first >= target)
    requires Replayed(q, previousPosition, first, upTo).0 == Pass
    ensures Filled(q, previousPosition, first, target) == Replayed(q, previousPosition, first, upTo)
  {
    if upTo == target {
      ReplayedThenFilled(q, previousPosition, first, upTo, target);
    }
  }

  /** The queue after the first `k` adds when they all came from one
    * `AdvanceQueueHead` that filled frames `0 .. k-1` with copies of the
    * blank slot `127`: slots `0 .. k-1` hold those frames, the rest are
    * blank. */
  ghost predicate Prefix<I>(q: Queue<I>, k: int, blank: I)
  {
    Bounded(q) && 0 <= k <= INPUT_QUEUE_LENGTH &&
    q.tail == 0 && q.length == k && q.head == k % INPUT_QUEUE_LENGTH &&
    (q.firstFrame <==> k == 0) && q.lastAddedFrame == Frame(k - 1) &&
    forall i :: 0 <= i < INPUT_QUEUE_LENGTH ==>
      q.inputs[i] == (if i < k then PlayerInput(Frame(i), blank) else BlankInput(NULL_FRAME, blank))
  }

  /** Before the first add a well-formed queue is the empty prefix. */
  lemma {:induction false} FirstIsPrefix<I>(q: Queue<I>, blank: I)
    requires Wf(q, blank) && q.firstFrame
    ensures Prefix(q, 0, blank)
  {
  }

  /** A prefix queue is well formed and stores frames `0 .. k-1`. */
  lemma {:induction false} PrefixWf<I>(q: Queue<I>, k: int, blank: I)
    requires Prefix(q, k, blank)
    ensures Wf(q, blank) && Window(q) == Gap(0, k, blank)
  {
    assert Stored(q) == k;
    assert forall f :: 0 <= f < k ==> f % INPUT_QUEUE_LENGTH == f;
    if k > 0 {
      assert (k - 1) % INPUT_QUEUE_LENGTH == k - 1;
    }
  }

  /** The queue a prefix queue of `k` frames becomes when the blank input
    * for frame `k` is written at slot `k`. */
  ghost function PrefixGrown<I>(q: Queue<I>, k: int, blank: I, prediction: PlayerInput<I>, firstIncorrect: Frame): Queue<I>
    requires Prefix(q, k, blank) && k < INPUT_QUEUE_LENGTH
  {
    q.(inputs := q.inputs[k := PlayerInput(Frame(k), blank)], head := (k + 1) % INPUT_QUEUE_LENGTH,
       length := k + 1, firstFrame := false, lastAddedFrame := Frame(k),
       prediction := prediction, firstIncorrectFrame := firstIncorrect)
  }

  /** Writing frame `k` at slot `k` grows the prefix by one frame. */
  lemma {:induction false} PrefixGrows<I>(q: Queue<I>, k: int, blank: I, prediction: PlayerInput<I>, firstIncorrect: Frame)
    requires Prefix(q, k, blank) && k < INPUT_QUEUE_LENGTH
    ensures Prefix(PrefixGrown(q, k, blank, prediction, firstIncorrect), k + 1, blank)
  {
  }

  /** The `AddInputByFrame` of one fill round on a prefix queue: it copies
    * the blank slot 127 to slot `k` as frame `k`. */
  lemma {:induction false} PrefixAdd<I>(q: Queue<I>, k: int, blank: I) returns (o: Outcome, q1: Queue<I>)
    requires Prefix(q, k, blank)
    ensures (o, q1) == AddedByFrame(q, q.inputs[INPUT_QUEUE_LENGTH - 1], Frame(k))
    ensures o.Pass? <==> k < INPUT_QUEUE_LENGTH && (q.prediction.Frame == NULL_FRAME || q.prediction.Frame == Frame(k))
    ensures o.Pass? ==>
              k < INPUT_QUEUE_LENGTH &&
              var t := Track(q.prediction, q.firstIncorrectFrame, q.lastRequestedFrame, PlayerInput(Frame(k), blank));
              q1 == PrefixGrown(q, k, blank, t.0, t.1)
  {
    var last := INPUT_QUEUE_LENGTH - 1;
    assert q.inputs[last].Input == blank;
    if k > 0 {
      assert PreviousPosition(q.head) == k - 1;
    }
    assert AddAllowed(q, Frame(k));
    o, q1 := AddedByFrame(q, q.inputs[last], Frame(k)).0, AddedByFrame(q, q.inputs[last], Frame(k)).1;
  }

  /** One round of the fill loop on a prefix queue; `(o, q1)` is the result
    * of its `AddInputByFrame`. */
  lemma {:induction false} PrefixStep<I>(q: Queue<I>, k: int, target: int, blank: I) returns (o: Outcome, q1: Queue<I>)
    requires Prefix(q, k, blank) && k < target
    ensures o.Pass? <==> k < INPUT_QUEUE_LENGTH && (q.prediction.Frame == NULL_FRAME || q.prediction.Frame == Frame(k))
    ensures o.Pass? ==>
              Prefix(q1, k + 1, blank) && q1.lastRequestedFrame == q.lastRequestedFrame &&
              (q1.prediction, q1.firstIncorrectFrame) ==
                Track(q.prediction, q.firstIncorrectFrame, q.lastRequestedFrame, PlayerInput(Frame(k), blank))
    ensures Filled(q, INPUT_QUEUE_LENGTH - 1, k, target) ==
              (if o.Fail? then (o, q1) else Filled(q1, INPUT_QUEUE_LENGTH - 1, k + 1, target))
  {
    o, q1 := PrefixAdd(q, k, blank);
    if o.Pass? {
      var t := Track(q.prediction, q.firstIncorrectFrame, q.lastRequestedFrame, PlayerInput(Frame(k), blank));
      PrefixGrows(q, k, blank, t.0, t.1);
    }
  }

  /** Confirming the gap's first input, then the rest. */
  lemma {:induction false} TrackGapStep<I>(prediction: PlayerInput<I>, firstIncorrect: Frame, lastRequested: Frame,
                        start: int, n: nat, x: I)
    requires n >= 1
    ensures TrackAll(prediction, firstIncorrect, lastRequested, Gap(start, n, x)) ==
            if prediction.Frame != NULL_FRAME && prediction.Frame != Frame(start) then Err(AssertionFailed)
            else
              var t := Track(prediction, firstIncorrect, lastRequested, PlayerInput(Frame(start), x));
              TrackAll(t.0, t.1, lastRequested, Gap(start + 1, n - 1, x))
  {
    assert Gap(start, n, x)[1..] == Gap(start + 1, n - 1, x);
  }

  /** Filling a prefix queue up to `target` fails exactly when more than
    * 128 frames would be stored or a prediction does not match; otherwise
    * the queue holds frames `0 .. target-1` and prediction and first
    * incorrect frame are as confirming those blank inputs in order makes
    * them. */
  lemma {:induction false} FilledPrefix<I>(q: Queue<I>, k: int, target: int, blank: I)
    requires Prefix(q, k, blank) && k <= target
    ensures var (o, q') := Filled(q, INPUT_QUEUE_LENGTH - 1, k, target);
            var tracked := TrackAll(q.prediction, q.firstIncorrectFrame, q.lastRequestedFrame, Gap(k, target - k, blank));
            (o.Fail? <==> target > INPUT_QUEUE_LENGTH || tracked.Err?) &&
            (o.Pass? ==> Prefix(q', target, blank) && tracked == Ok((q'.prediction, q'.firstIncorrectFrame)))
    decreases target - k
  {
    if k < target {
      var o, q1 := PrefixStep(q, k, target, blank);
      TrackGapStep(q.prediction, q.firstIncorrectFrame, q.lastRequestedFrame, k, target - k, blank);
      if o.Pass? {
        FilledPrefix(q1, k + 1, target, blank);
      }
    } else {
      assert Gap(k, target - k, blank) == [];
    }
  }

  /** `AdvanceQueueHead(inputFrame)`: the head moves to `inputFrame +
    * frameDelay`, the frames from the expected one up to it filled with
    * copies of the newest slot; `NULL_FRAME` when that frame is already
    * past.  Its closing assertion (the newest slot is now the frame before
    * the target) always holds. */
  function Advanced<I(==)>(q: Queue<I>, inputFrame: Frame): (r: (Result<Frame>, Queue<I>))
    requires Bounded(q)
    ensures Bounded(r.1)
    ensures r.1.tail == q.tail && r.1.frameDelay == q.frameDelay && r.1.lastRequestedFrame == q.lastRequestedFrame
    ensures ExpectedFrame(q) > inputFrame.No + q.frameDelay ==> r == (Ok(NULL_FRAME), q)
    ensures ExpectedFrame(q) <= inputFrame.No + q.frameDelay ==>
              r.0 == Ok(Frame(inputFrame.No + q.frameDelay)) || r.0 == Err(AssertionFailed)
  {
    var previousPosition := PreviousPosition(q.head);
    var expected := ExpectedFrame(q);
    var target := inputFrame.No + q.frameDelay;
    if expected > target then (Ok(NULL_FRAME), q)
    else
      var f := Filled(q, previousPosition, expected, target);
      if f.0.Fail? then (Err(f.0.failure), f.1) else (Ok(Frame(target)), f.1)
  }

  /** `AdvanceQueueHead` when the target is not past: the fill loop's outcome. */
  lemma {:induction false} AdvancedByFill<I>(q: Queue<I>, inputFrame: Frame)
    requires Bounded(q) && ExpectedFrame(q) <= inputFrame.No + q.frameDelay
    ensures var f := Filled(q, PreviousPosition(q.head), ExpectedFrame(q), inputFrame.No + q.frameDelay);
            Advanced(q, inputFrame) ==
              if f.0.Fail? then (Err(f.0.failure), f.1) else (Ok(Frame(inputFrame.No + q.frameDelay)), f.1)
  {
  }

  // ----- AddInput -----

  /** `AddInput` ignores an input unless it is the first or lands, after the
    * frame delay, right after the last added frame. */
  predicate Rejects<I>(q: Queue<I>, input: PlayerInput<I>)
  {
    q.lastAddedFrame != NULL_FRAME && input.Frame.No + q.frameDelay != q.lastAddedFrame.No + 1
  }

  /** `AddInput(input)`. */
  function Added<I(==)>(q: Queue<I>, input: PlayerInput<I>): (r: (Result<Frame>, Queue<I>))
    requires Bounded(q)
    ensures Bounded(r.1)
    ensures Rejects(q, input) ==> r == (Ok(NULL_FRAME), q)
    ensures r.0.Ok? && r.0.value != NULL_FRAME ==> r.0.value.No == input.Frame.No + q.frameDelay
  {
    if Rejects(q, input) then (Ok(NULL_FRAME), q)
    else
      var (newFrame, q') := Advanced(q, input.Frame);
      if newFrame.Err? || newFrame.value == NULL_FRAME then (newFrame, q')
      else
        var (o, q'') := AddedByFrame(q', input, newFrame.value);
        if o.Fail? then (Err(o.failure), q'') else (newFrame, q'')
  }

  /** Confirming a single input. */
  lemma {:induction false} TrackOne<I>(prediction: PlayerInput<I>, firstIncorrect: Frame, lastRequested: Frame, x: PlayerInput<I>)
    ensures TrackAll(prediction, firstIncorrect, lastRequested, [x]) ==
            if prediction.Frame != NULL_FRAME && prediction.Frame != x.Frame then Err(AssertionFailed)
            else Ok(Track(prediction, firstIncorrect, lastRequested, x))
  {
    assert [x][1..] == [];
  }

  /** The first `AddInput` with a target frame that is not negative: the fill
    * loop runs from frame 0 with copies of slot 127, then the input itself
    * is added at the target frame. */
  lemma {:induction false} AddedFirstSteps<I>(q: Queue<I>, input: PlayerInput<I>)
    requires Bounded(q) && q.firstFrame && q.head == 0 && q.lastAddedFrame == NULL_FRAME
    requires input.Frame.No + q.frameDelay >= 0
    ensures var target := input.Frame.No + q.frameDelay;
            var f := Filled(q, INPUT_QUEUE_LENGTH - 1, 0, target);
            Added(q, input) ==
              if f.0.Fail? then (Err(f.0.failure), f.1)
              else
                var g := AddedByFrame(f.1, input, Frame(target));
                (if g.0.Fail? then Err(g.0.failure) else Ok(Frame(target)), g.1)
  {
  }

  /** Adding the input for frame `k` to a prefix queue of `k` frames. */
  lemma {:induction false} AppendToPrefix<I>(p: Queue<I>, input: PlayerInput<I>, k: int, blank: I) returns (o: Outcome, p': Queue<I>)
    requires Prefix(p, k, blank)
    ensures (o, p') == AddedByFrame(p, input, Frame(k))
    ensures var x := PlayerInput(Frame(k), input.Input);
            (o.Pass? <==> k < INPUT_QUEUE_LENGTH && (p.prediction.Frame == NULL_FRAME || p.prediction.Frame == Frame(k))) &&
            (o.Pass? ==> Wf(p', blank) && Window(p') == Gap(0, k, blank) + [x] && p'.lastAddedFrame == Frame(k) &&
                         (p'.prediction, p'.firstIncorrectFrame) ==
                           Track(p.prediction, p.firstIncorrectFrame, p.lastRequestedFrame, x))
  {
    PrefixWf(p, k, blank);
    AddByFrameKeepsWf(p, input, Frame(k), blank);
    assert input.(Frame := Frame(k)) == PlayerInput(Frame(k), input.Input);
    o, p' := AddedByFrame(p, input, Frame(k)).0, AddedByFrame(p, input, Frame(k)).1;
  }

  /** The last step of the first `AddInput`, after the fill loop left a
    * prefix queue `p` of `target` frames; `tracked` is what confirming the
    * gap made of the prediction. */
  lemma {:induction false} AddedAfterFill<I>(start: Queue<I>, p: Queue<I>, input: PlayerInput<I>, target: int, blank: I)
    returns (r: Result<Frame>, q': Queue<I>)
    requires Prefix(p, target, blank) && p.lastRequestedFrame == start.lastRequestedFrame
    requires TrackAll(start.prediction, start.firstIncorrectFrame, start.lastRequestedFrame, Gap(0, target, blank)) ==
             Ok((p.prediction, p.firstIncorrectFrame))
    ensures var g := AddedByFrame(p, input, Frame(target));
            (r, q') == (if g.0.Fail? then Err(g.0.failure) else Ok(Frame(target)), g.1)
    ensures var appended := Gap(0, target, blank) + [PlayerInput(Frame(target), input.Input)];
            var tracked := TrackAll(start.prediction, start.firstIncorrectFrame, start.lastRequestedFrame, appended);
            (r.Err? <==> target >= INPUT_QUEUE_LENGTH || tracked.Err?) &&
            (r.Ok? ==> r == Ok(Frame(target)) && Wf(q', blank) && Window(q') == appended &&
                       q'.lastAddedFrame == Frame(target) && tracked == Ok((q'.prediction, q'.firstIncorrectFrame)))
  {
    var x := PlayerInput(Frame(target), input.Input);
    TrackAllAppend(start.prediction, start.firstIncorrectFrame, start.lastRequestedFrame, Gap(0, target, blank), [x]);
    TrackOne(p.prediction, p.firstIncorrectFrame, p.lastRequestedFrame, x);
    var o, p' := AppendToPrefix(p, input, target, blank);
    r, q' := if o.Fail? then Err(o.failure) else Ok(Frame(target)), p';
  }

  /** The first `AddInput` on the empty prefix (see `AddedFirst`). */
  lemma {:induction false} AddedOnEmpty<I>(q: Queue<I>, input: PlayerInput<I>, blank: I) returns (r: Result<Frame>, q': Queue<I>)
    requires Prefix(q, 0, blank) && input.Frame.No + q.frameDelay >= 0
    ensures var target := input.Frame.No + q.frameDelay;
            var f := Filled(q, INPUT_QUEUE_LENGTH - 1, 0, target);
            (r, q') ==
              if f.0.Fail? then (Err(f.0.failure), f.1)
              else
                var g := AddedByFrame(f.1, input, Frame(target));
                (if g.0.Fail? then Err(g.0.failure) else Ok(Frame(target)), g.1)
    ensures var target := input.Frame.No + q.frameDelay;
            var appended := Gap(0, target, blank) + [PlayerInput(Frame(target), input.Input)];
            var tracked := TrackAll(q.prediction, q.firstIncorrectFrame, q.lastRequestedFrame, appended);
            (r.Err? <==> target >= INPUT_QUEUE_LENGTH || tracked.Err?) &&
            (r.Ok? ==> r == Ok(Frame(target)) && Wf(q', blank) && Window(q') == appended &&
                       q'.lastAddedFrame == Frame(target) && tracked == Ok((q'.prediction, q'.firstIncorrectFrame)))
  {
    var target := input.Frame.No + q.frameDelay;
    FilledPrefix(q, 0, target, blank);
    var f := Filled(q, INPUT_QUEUE_LENGTH - 1, 0, target);
    if f.0.Fail? {
      var x := PlayerInput(Frame(target), input.Input);
      TrackAllAppend(q.prediction, q.firstIncorrectFrame, q.lastRequestedFrame, Gap(0, target, blank), [x]);
      r, q' := Err(f.0.failure), f.1;
    } else {
      r, q' := AddedAfterFill(q, f.1, input, target, blank);
    }
  }

  /** The first `AddInput` of a well-formed queue, when its frame plus the
    * delay is not negative, stores `delay` blank inputs for frames
    * `0 .. delay-1` and then the input itself; it fails exactly when that is
    * more than 128 inputs or a prediction does not match. */
  lemma {:induction false} AddedFirst<I>(q: Queue<I>, input: PlayerInput<I>, blank: I) returns (r: Result<Frame>, q': Queue<I>)
    requires Wf(q, blank) && q.firstFrame && input.Frame.No + q.frameDelay >= 0
    ensures (r, q') == Added(q, input)
    ensures var target := input.Frame.No + q.frameDelay;
            var appended := Gap(0, target, blank) + [PlayerInput(Frame(target), input.Input)];
            var tracked := TrackAll(q.prediction, q.firstIncorrectFrame, q.lastRequestedFrame, appended);
            (r.Err? <==> target >= INPUT_QUEUE_LENGTH || tracked.Err?) &&
            (r.Ok? ==> r == Ok(Frame(target)) && Wf(q', blank) && Window(q') == appended &&
                       q'.lastAddedFrame == Frame(target) && tracked == Ok((q'.prediction, q'.firstIncorrectFrame)))
  {
    FirstIsPrefix(q, blank);
    AddedFirstSteps(q, input);
    r, q' := AddedOnEmpty(q, input, blank);
  }

  /** Any later `AddInput` of a well-formed queue that is not ignored stores
    * just the input, at the frame after the last one; it fails exactly when
    * the queue is full or a prediction does not match. */
  lemma {:induction false} AddedNext<I>(q: Queue<I>, input: PlayerInput<I>, blank: I) returns (r: Result<Frame>, q': Queue<I>)
    requires Wf(q, blank) && !q.firstFrame && input.Frame.No + q.frameDelay == q.lastAddedFrame.No + 1
    ensures (r, q') == Added(q, input)
    ensures var x := PlayerInput(Plus(q.lastAddedFrame, 1), input.Input);
            var tracked := TrackAll(q.prediction, q.firstIncorrectFrame, q.lastRequestedFrame, [x]);
            (r.Err? <==> q.length >= INPUT_QUEUE_LENGTH || tracked.Err?) &&
            (r.Ok? ==> r == Ok(x.Frame) && Wf(q', blank) && Window(q') == Window(q) + [x] &&
                       q'.lastAddedFrame == x.Frame && tracked == Ok((q'.prediction, q'.firstIncorrectFrame)))
  {
    NextSlot(q.lastAddedFrame.No);
    var target := Plus(q.lastAddedFrame, 1);
    assert ExpectedFrame(q) == target.No;
    assert Advanced(q, input.Frame) == (Ok(target), q);
    AddByFrameKeepsWf(q, input, target, blank);
    assert input.(Frame := target) == PlayerInput(target, input.Input);
    assert [PlayerInput(target, input.Input)][1..] == [];
    var g := AddedByFrame(q, input, target);
    r, q' := if g.0.Fail? then Err(g.0.failure) else Ok(target), g.1;
  }

  /** The first `AddInput` is ignored, leaving the queue as it was, when its
    * frame plus the delay is negative. */
  lemma {:induction false} AddedTooEarly<I>(q: Queue<I>, input: PlayerInput<I>, blank: I)
    requires Wf(q, blank) && q.firstFrame && input.Frame.No + q.frameDelay < 0
    ensures Added(q, input) == (Ok(NULL_FRAME), q)
  {
  }

  // ----- The class -----

  /** `InputQueue<TInput>` with its fields updated in place; `State()` is
    * the fields as a `Queue`, and every method computes the function of
    * the same name above.  `blank` is `default(TInput)`. */
  class InputQueue<I(==)> {
    var head: int
    var tail: int
    var length: int
    var firstFrame: bool
    var lastAddedFrame: Frame
    var firstIncorrectFrame: Frame
    var lastRequestedFrame: Frame
    var frameDelay: nat
    const inputs: array<PlayerInput<I>>
    var prediction: PlayerInput<I>
    const blank: I

    ghost function State(): Queue<I>
      reads this, inputs
    {
      Queue(inputs[..], head, tail, length, firstFrame, lastAddedFrame, firstIncorrectFrame,
            lastRequestedFrame, frameDelay, prediction)
    }

    ghost predicate Valid()
      reads this, inputs
    {
      Bounded(State())
    }

    /** `new InputQueue<TInput>()`: every slot is a blank input for no frame. */
    constructor (blank: I)
      ensures Valid() && State() == InitialQueue(blank) && this.blank == blank
      ensures Wf(State(), blank) && Window(State()) == []
    {
      head, tail, length, frameDelay := 0, 0, 0, 0;
      firstFrame := true;
      lastAddedFrame, firstIncorrectFrame, lastRequestedFrame := NULL_FRAME, NULL_FRAME, NULL_FRAME;
      prediction := BlankInput(NULL_FRAME, blank);
      var a := new PlayerInput<I>[INPUT_QUEUE_LENGTH](_ => PlayerInput(FIRST_FRAME, blank));
      for i := 0 to INPUT_QUEUE_LENGTH
        invariant forall j :: 0 <= j < i ==> a[j] == BlankInput(NULL_FRAME, blank)
      {
        a[i] := BlankInput(NULL_FRAME, blank);
      }
      inputs := a;
      this.blank := blank;
      new;
      assert inputs[..] == InitialQueue(blank).inputs;
      InitialWf(blank);
    }

    function FirstIncorrectFrame(): (f: Frame)
      reads this
      ensures f == firstIncorrectFrame
    {
      firstIncorrectFrame
    }

    method SetFrameDelay(delay: nat)
      modifies this
      ensures State() == DelaySet(old(State()), delay)
    {
      frameDelay := delay;
    }

    method ResetPrediction()
      modifies this
      ensures State() == PredictionReset(old(State()))
    {
      prediction := prediction.(Frame := NULL_FRAME);
      firstIncorrectFrame := NULL_FRAME;
      lastRequestedFrame := NULL_FRAME;
    }

    method ConfirmedInput(requestedFrame: Frame) returns (r: Result<PlayerInput<I>>)
      requires Valid()
      ensures r == ConfirmedOf(State(), requestedFrame)
    {
      var offset := if requestedFrame.No >= 0 then requestedFrame.No % INPUT_QUEUE_LENGTH
                    else -((-requestedFrame.No) % INPUT_QUEUE_LENGTH);
      if offset < 0 {
        return Err(IndexOutOfRange);
      }
      if inputs[offset].Frame == requestedFrame {
        return Ok(inputs[offset]);
      }
      r := Err(InvalidOperation);
    }

    method DiscardConfirmedFrames(frame: Frame)
      requires Valid()
      modifies this
      ensures Valid() && State() == Discarded(old(State()), frame)
    {
      if lastAddedFrame == NULL_FRAME {
        return;
      }
      var f := frame;
      if lastRequestedFrame != NULL_FRAME {
        f := Min(f, lastRequestedFrame);
      }
      if f.No >= lastAddedFrame.No {
        tail := head;
        length := 1;
      } else if f.No <= inputs[tail].Frame.No {
      } else {
        var offset := f.No - inputs[tail].Frame.No;
        tail := (tail + offset) % INPUT_QUEUE_LENGTH;
        length := length - offset;
      }
    }

    method Input(requestedFrame: Frame) returns (r: Result<(I, InputStatus)>)
      requires Valid()
      modifies this
      ensures Valid() && (r, State()) == InputOf(old(State()), requestedFrame, blank)
    {
      if firstIncorrectFrame != NULL_FRAME {
        return Err(AssertionFailed);
      }
      lastRequestedFrame := requestedFrame;
      if requestedFrame.No < inputs[tail].Frame.No {
        return Err(AssertionFailed);
      }
      if prediction.Frame == NULL_FRAME {
        var offset := requestedFrame.No - inputs[tail].Frame.No;
        if offset < length {
          offset := (offset + tail) % INPUT_QUEUE_LENGTH;
          if inputs[offset].Frame != requestedFrame {
            return Err(AssertionFailed);
          }
          return Ok((inputs[offset].Input, Confirmed));
        }
        if requestedFrame == FIRST_FRAME || lastAddedFrame == NULL_FRAME {
          prediction := BlankInput(prediction.Frame, blank);
        } else {
          var previousPosition := if head == 0 then INPUT_QUEUE_LENGTH - 1 else head - 1;
          prediction := inputs[previousPosition];
        }
        prediction := prediction.(Frame := Plus(prediction.Frame, 1));
      }
      r := Ok((prediction.Input, Predicted));
    }

    method AddInputByFrame(input: PlayerInput<I>, frame: Frame) returns (o: Outcome)
      requires Valid()
      modifies this, inputs
      ensures (o, State()) == AddedByFrame(old(State()), input, frame)
    {
      var previousPosition := if head == 0 then INPUT_QUEUE_LENGTH - 1 else head - 1;
      if !(lastAddedFrame == NULL_FRAME || frame.No == lastAddedFrame.No + 1) {
        return Fail(AssertionFailed);
      }
      if !(frame == FIRST_FRAME || inputs[previousPosition].Frame.No == frame.No - 1) {
        return Fail(AssertionFailed);
      }
      Write(input, frame);
      o := CheckAdded(input, frame);
    }

    /** The writes of `AddInputByFrame`. */
    method Write(input: PlayerInput<I>, frame: Frame)
      requires Valid() && AddAllowed(State(), frame)
      modifies this, inputs
      ensures State() == Written(old(State()), input, frame)
    {
      inputs[head] := input;
      inputs[head] := inputs[head].(Frame := frame);
      head := (head + 1) % INPUT_QUEUE_LENGTH;
      length := length + 1;
    }

    /** The statements of `AddInputByFrame` after its writes. */
    method CheckAdded(input: PlayerInput<I>, frame: Frame) returns (o: Outcome)
      requires Valid() && frame.No >= -1
      modifies this
      ensures (o, State()) == AddChecked(old(State()), input, frame)
    {
      if length > INPUT_QUEUE_LENGTH {
        return Fail(AssertionFailed);
      }
      firstFrame := false;
      lastAddedFrame := frame;
      if prediction.Frame != NULL_FRAME {
        if frame != prediction.Frame {
          return Fail(AssertionFailed);
        }
        if firstIncorrectFrame == NULL_FRAME && !Equal(prediction, input, true) {
          firstIncorrectFrame := frame;
        }
        if prediction.Frame == lastRequestedFrame && firstIncorrectFrame == NULL_FRAME {
          prediction := prediction.(Frame := NULL_FRAME);
        } else {
          prediction := prediction.(Frame := Plus(prediction.Frame, 1));
        }
      }
      o := Pass;
    }

    method AdvanceQueueHead(inputFrame: Frame) returns (r: Result<Frame>)
      requires Valid()
      modifies this, inputs
      ensures (r, State()) == Advanced(old(State()), inputFrame)
    {
      ghost var s0 := State();
      var previousPosition := if head == 0 then INPUT_QUEUE_LENGTH - 1 else head - 1;
      var expectedFrame := if firstFrame then FIRST_FRAME else Plus(inputs[previousPosition].Frame, 1);
      var target := Plus(inputFrame, frameDelay);
      assert previousPosition == PreviousPosition(s0.head) && expectedFrame.No == ExpectedFrame(s0);
      if expectedFrame.No > target.No {
        return Ok(NULL_FRAME);
      }
      AdvancedByFill(s0, inputFrame);
      ghost var e0 := expectedFrame.No;
      var o := Fill(previousPosition, expectedFrame, target);
      ghost var s1 := State();
      assert (o, s1) == Filled(s0, previousPosition, e0, target.No);
      if o.Fail? {
        return Err(o.failure);
      }
      previousPosition := if head == 0 then INPUT_QUEUE_LENGTH - 1 else head - 1;
      assert e0 == target.No ==> s1 == s0;
      assert target == FIRST_FRAME || target.No == inputs[previousPosition].Frame.No + 1;
      r := Ok(target);
    }

    /** The loop of `AdvanceQueueHead`. */
    method Fill(previousPosition: int, expectedFrame: Frame, target: Frame) returns (o: Outcome)
      requires Valid() && 0 <= previousPosition < INPUT_QUEUE_LENGTH
      modifies this, inputs
      ensures (o, State()) == Filled(old(State()), previousPosition, expectedFrame.No, target.No)
    {
      ghost var s0 := State();
      var expected := expectedFrame;
      while expected.No < target.No
        invariant Valid() && expectedFrame.No <= expected.No
        invariant expected.No <= target.No || expected == expectedFrame
        invariant Replayed(s0, previousPosition, expectedFrame.No, expected.No) == (Pass, State())
        decreases target.No - expected.No
      {
        o := FillRound(s0, previousPosition, expectedFrame, expected);
        if o.Fail? {
          ReplayedFails(s0, previousPosition, expectedFrame.No, expected.No, target.No);
          return;
        }
        ghost var next := expected.No + 1;
        expected := Plus(expected, 1);
        assert expected.No == next;
      }
      ReplayedCompletes(s0, previousPosition, expectedFrame.No, expected.No, target.No);
      o := Pass;
    }

    /** One round of the loop of `AdvanceQueueHead`: the input in slot
      * `previousPosition` added again as frame `expected`. */
    method FillRound(ghost s0: Queue<I>, previousPosition: int, first: Frame, expected: Frame) returns (o: Outcome)
      requires Valid() && Bounded(s0) && 0 <= previousPosition < INPUT_QUEUE_LENGTH && first.No <= expected.No
      requires Replayed(s0, previousPosition, first.No, expected.No) == (Pass, State())
      modifies this, inputs
      ensures Valid()
      ensures Replayed(s0, previousPosition, first.No, expected.No + 1) == (o, State())
    {
      var inputToRepl := inputs[previousPosition];
      o := AddInputByFrame(inputToRepl, expected);
    }

    method AddInput(input: PlayerInput<I>) returns (r: Result<Frame>)
      requires Valid()
      modifies this, inputs
      ensures Valid() && (r, State()) == Added(old(State()), input)
    {
      if lastAddedFrame != NULL_FRAME && input.Frame.No + frameDelay != lastAddedFrame.No + 1 {
        return Ok(NULL_FRAME);
      }
      var newFrame := AdvanceQueueHead(input.Frame);
      if newFrame.Ok? && newFrame.value != NULL_FRAME {
        var o := AddInputByFrame(input, newFrame.value);
        if o.Fail? {
          return Err(o.failure);
        }
      }
      r := newFrame;
    }
  }
}
