/** `SyncLayer<TState, TInput>`: the ring of saved game states, one input
  * queue per player, and the frame counters a session drives through them. */
module SyncLayers {
  import opened Frames
  import opened Outcomes
  import opened Rollback
  import opened ModArith
  import opened InputQueues
  import opened Bytes
  import Messages

  type ConnectionStatus = Messages.ConnectionStatus

  // ----- SavedStates -----

  /** `default(GameStateCell)`: what `new GameStateCell[n]` holds before the
    * constructor's loop overwrites it. */
  const DEFAULT_CELL: GameStateCell := GameStateCell(GameStateCtx(FIRST_FRAME, NullArray, 0))

  /** `SavedStates.GetCell`'s index: a null frame is refused, and the
    * truncating remainder of a negative frame is usable only when it is 0. */
  function CellIndex(len: nat, frame: Frame): (r: Result<nat>)
    requires len > 0
    ensures frame == NULL_FRAME ==> r == Err(AssertionFailed)
    ensures r.Ok? <==> frame != NULL_FRAME && (frame.No >= 0 || frame.No % len == 0)
    ensures r.Ok? ==> r.value == frame.No % len
  {
    if frame == NULL_FRAME then Err(AssertionFailed)
    else
      NegatedMod(frame.No, len);
      var pos := CsRem(frame.No, len);
      if pos < 0 then Err(IndexOutOfRange) else Ok(pos)
  }

  /** A multiple of `n` stays one when negated. */
  lemma {:induction false} NegatedMod(a: int, n: int)
    requires n > 0
    ensures ((-a) % n == 0) == (a % n == 0)
  {
    if (-a) % n == 0 {
      var q := (-a) / n;
      UniqueMod(a, -q, 0, n);
    }
    if a % n == 0 {
      var p := a / n;
      UniqueMod(-a, -p, 0, n);
    }
  }

  /** `SavedStates.GetCell`: a copy of the cell `frame` maps to. */
  function CellOf(ring: seq<GameStateCell>, frame: Frame): (r: Result<GameStateCell>)
    requires |ring| > 0
    ensures r.Ok? <==> CellIndex(|ring|, frame).Ok?
    ensures r.Ok? ==> r.value == ring[frame.No % |ring|]
  {
    match CellIndex(|ring|, frame)
    case Ok(pos) => Ok(ring[pos])
    case Err(e) => Err(e)
  }

  /** Frames less than a ring length apart use different cells, so a ring of
    * `maxPrediction + 1` cells holds a whole prediction window. */
  lemma {:induction false} WindowCellsDistinct(len: nat, f: Frame, g: Frame)
    requires len > 0 && 0 <= f.No < g.No < f.No + len
    ensures CellIndex(len, f).value != CellIndex(len, g).value
  {
    var q := f.No / len;
    var f0 := f.No - q * len;
    assert f.No % len == f0 by { UniqueMod(f.No, q, f0, len); }
    ModMultiple(g.No - q * len, q, len);
    ModSmall(g.No - q * len, len);
  }

  /** Every cell still as the constructor left it. */
  predicate Untouched(ring: seq<GameStateCell>)
  {
    forall i :: 0 <= i < |ring| ==> ring[i] == EMPTY_CELL
  }

  // ----- The layer's state -----

  /** The fields of a `SyncLayer`; `Ring` is `_savedStates.States`. */
  datatype Layer<I> = Layer(Ring: seq<GameStateCell>, LastConfirmed: Frame, LastSaved: Frame,
                            Current: Frame, Queues: seq<Queue<I>>)

  predicate AllBounded<I>(qs: seq<Queue<I>>)
  {
    forall i :: 0 <= i < |qs| ==> Bounded(qs[i])
  }

  /** What every operation keeps: the sizes fixed by the constructor, a
    * current frame that is never negative, and cells tagged with real frames
    * or the null frame. */
  predicate LayerWf<I>(l: Layer<I>, numPlayers: nat, maxPrediction: nat)
  {
    |l.Ring| == maxPrediction + 1 && |l.Queues| == numPlayers && AllBounded(l.Queues) &&
    l.Current.No >= 0 && forall i :: 0 <= i < |l.Ring| ==> l.Ring[i].State.Frame.No >= -1
  }

  /** `new SyncLayer(numPlayers, maxPrediction)`. */
  function InitialLayer<I>(numPlayers: nat, maxPrediction: nat, blank: I): (l: Layer<I>)
    ensures LayerWf(l, numPlayers, maxPrediction) && Untouched(l.Ring)
    ensures l.Current == FIRST_FRAME && l.LastConfirmed == NULL_FRAME && l.LastSaved == NULL_FRAME
    ensures forall i :: 0 <= i < numPlayers ==> l.Queues[i] == InitialQueue(blank)
  {
    Layer(seq(maxPrediction + 1, _ => EMPTY_CELL), NULL_FRAME, NULL_FRAME, FIRST_FRAME,
          seq(numPlayers, _ => InitialQueue(blank)))
  }

  // ----- Saving and loading -----

  /** `SaveCurrentState`: the request carries a copy of the current frame's
    * cell, and the layer notes the frame as saved. */
  function CurrentSaved<I>(l: Layer<I>): (r: (RollbackRequest<I>, Layer<I>))
    requires |l.Ring| > 0 && l.Current.No >= 0
    ensures r.0.SaveGameState? && r.0.save.Frame == l.Current
    ensures r.1 == l.(LastSaved := l.Current)
  {
    (SaveGameState(SaveGameStateBody(l.Ring[l.Current.No % |l.Ring|], l.Current)), l.(LastSaved := l.Current))
  }

  /** The frames `LoadFrame` accepts before looking at the ring. */
  predicate Loadable(current: Frame, maxPrediction: nat, frame: Frame)
  {
    frame != NULL_FRAME && Less(frame, current) && GreaterEq(frame, Minus(current, maxPrediction))
  }

  /** `LoadFrame`: a frame of the prediction window whose cell is tagged with
    * it becomes the current frame. */
  function Loaded<I>(l: Layer<I>, maxPrediction: nat, frame: Frame): (r: (Result<RollbackRequest<I>>, Layer<I>))
    requires |l.Ring| > 0
    ensures r.0.Ok? ==> r.1 == l.(Current := frame) && frame.No < l.Current.No
    ensures r.0.Err? ==> r.1 == l
  {
    if !Loadable(l.Current, maxPrediction, frame) then (Err(AssertionFailed), l)
    else match CellOf(l.Ring, frame)
      case Err(e) => (Err(e), l)
      case Ok(cell) =>
        if cell.State.Frame != frame then (Err(AssertionFailed), l)
        else (Ok(LoadGameState(LoadGameStateBody(cell, frame))), l.(Current := frame))
  }

  /** A load succeeds exactly for a frame of the window whose cell carries its
    * tag; it then moves the current frame back and changes nothing else. */
  lemma {:induction false} LoadedMeaning<I>(l: Layer<I>, maxPrediction: nat, frame: Frame)
    requires |l.Ring| > 0
    ensures var (r, l1) := Loaded(l, maxPrediction, frame);
      (r.Ok? <==> Loadable(l.Current, maxPrediction, frame) && CellIndex(|l.Ring|, frame).Ok? &&
                  l.Ring[frame.No % |l.Ring|].State.Frame == frame) &&
      (r.Ok? ==> l1 == l.(Current := frame) && l1.Current.No < l.Current.No &&
                 r.value == LoadGameState(LoadGameStateBody(l.Ring[frame.No % |l.Ring|], frame))) &&
      (r.Err? ==> l1 == l)
  {
  }

  /** A load keeps the layer well formed: the frames of the window that
    * lie before the first have no cell. */
  lemma {:induction false} LoadedKeepsWf<I>(l: Layer<I>, numPlayers: nat, maxPrediction: nat, frame: Frame)
    requires LayerWf(l, numPlayers, maxPrediction)
    ensures LayerWf(Loaded(l, maxPrediction, frame).1, numPlayers, maxPrediction)
  {
    if Loaded(l, maxPrediction, frame).0.Ok? && frame.No < 0 {
      ModSmall(frame.No, |l.Ring|);
    }
  }

  /** As written, no load can succeed: the ring is never written, so no cell
    * is tagged with a frame other than the null frame, which is refused. */
  lemma {:induction false} LoadOfUntouchedFails<I>(l: Layer<I>, maxPrediction: nat, frame: Frame)
    requires |l.Ring| > 0 && Untouched(l.Ring)
    ensures Loaded(l, maxPrediction, frame) == (Loaded(l, maxPrediction, frame).0, l)
    ensures Loaded(l, maxPrediction, frame).0.Err?
  {
  }

  /** As written, the only cell a save request carries is an empty one, and
    * the ring the layer keeps is the one it had. */
  lemma {:induction false} SaveOfUntouchedIsEmpty<I>(l: Layer<I>)
    requires |l.Ring| > 0 && l.Current.No >= 0 && Untouched(l.Ring)
    ensures CurrentSaved(l).0.save.Cell == EMPTY_CELL && Untouched(CurrentSaved(l).1.Ring)
  {
  }

  /** `SavedStateByFrame`: the cell, if it is tagged with `frame`. */
  function SavedState(ring: seq<GameStateCell>, frame: Frame): (r: Result<GameStateCell>)
    requires |ring| > 0
    ensures r.Ok? <==> CellOf(ring, frame).Ok? && CellOf(ring, frame).value.State.Frame == frame
    ensures r.Ok? ==> r == CellOf(ring, frame)
    ensures CellOf(ring, frame).Ok? && r.Err? ==> r.failure == InvalidOperation
  {
    match CellOf(ring, frame)
    case Err(e) => Err(e)
    case Ok(cell) => if cell.State.Frame == frame then Ok(cell) else Err(InvalidOperation)
  }

  /** As written, every lookup of a saved state fails. */
  lemma {:induction false} SavedStateOfUntouchedFails(ring: seq<GameStateCell>, frame: Frame)
    requires |ring| > 0 && Untouched(ring)
    ensures SavedState(ring, frame).Err?
  {
  }

  // ----- A ring the game's save reaches -----

  /** What saving evidently intends: the game's `Save` lands in the ring
    * cell of the saved frame rather than in a copy of it. */
  function RingSaved(ring: seq<GameStateCell>, frame: Frame, data: seq<byte>, checksum: nat): (r: seq<GameStateCell>)
    requires |ring| > 0 && frame.No >= 0
    ensures |r| == |ring| && r[frame.No % |ring|].State.Frame == frame
    ensures forall i :: 0 <= i < |ring| && i != frame.No % |ring| ==> r[i] == ring[i]
  {
    var pos := frame.No % |ring|;
    ring[pos := CellSave(ring[pos], frame, data, checksum)]
  }

  /** The saves of several frames, in order. */
  function RingSavedAll(ring: seq<GameStateCell>, frames: seq<Frame>, data: seq<byte>, checksum: nat): (r: seq<GameStateCell>)
    requires |ring| > 0 && forall k :: 0 <= k < |frames| ==> frames[k].No >= 0
    ensures |r| == |ring|
    decreases |frames|
  {
    if frames == [] then ring
    else RingSavedAll(RingSaved(ring, frames[0], data, checksum), frames[1..], data, checksum)
  }

  /** Frames saved after `f` and less than a ring length after it leave
    * `f`'s cell alone. */
  lemma {:induction false} LaterSavesKeep(ring: seq<GameStateCell>, f: Frame, later: seq<Frame>, data: seq<byte>, checksum: nat)
    requires |ring| > 0 && f.No >= 0
    requires forall k :: 0 <= k < |later| ==> f.No < later[k].No < f.No + |ring|
    ensures RingSavedAll(ring, later, data, checksum)[f.No % |ring|] == ring[f.No % |ring|]
    decreases |later|
  {
    if later != [] {
      WindowCellsDistinct(|ring|, f, later[0]);
      LaterSavesKeep(RingSaved(ring, later[0], data, checksum), f, later[1..], data, checksum);
    }
  }

  /** With saves reaching the ring, a frame saved and then followed by saves
    * of the later frames of its window loads again, as long as the current
    * frame is still within the prediction window of it. */
  lemma {:induction false} SavedFrameLoads<I>(l: Layer<I>, maxPrediction: nat, f: Frame, later: seq<Frame>,
                                              data: seq<byte>, checksum: nat)
    requires |l.Ring| == maxPrediction + 1 && f.No >= 0
    requires f.No < l.Current.No <= f.No + maxPrediction
    requires forall k :: 0 <= k < |later| ==> f.No < later[k].No < f.No + |l.Ring|
    ensures Loaded(l.(Ring := RingSavedAll(RingSaved(l.Ring, f, data, checksum), later, data, checksum)),
                   maxPrediction, f).0.Ok?
  {
    var ring1 := RingSaved(l.Ring, f, data, checksum);
    LaterSavesKeep(ring1, f, later, data, checksum);
    LoadedMeaning(l.(Ring := RingSavedAll(ring1, later, data, checksum)), maxPrediction, f);
  }

  // ----- Inputs -----

  /** `AddRemoteInput`: the handle's queue takes the input. */
  function RemoteInputAdded<I(==)>(l: Layer<I>, handle: PlayerHandle, input: PlayerInput<I>): (r: (Result<Frame>, Layer<I>))
    requires AllBounded(l.Queues)
    ensures handle.Id >= |l.Queues| ==> r == (Err(IndexOutOfRange), l)
    ensures |r.1.Queues| == |l.Queues| && AllBounded(r.1.Queues)
    ensures handle.Id < |l.Queues| ==>
              r.1 == l.(Queues := l.Queues[handle.Id := r.1.Queues[handle.Id]]) &&
              (r.0, r.1.Queues[handle.Id]) == Added(l.Queues[handle.Id], input)
  {
    if handle.Id >= |l.Queues| then (Err(IndexOutOfRange), l)
    else
      var (f, q) := Added(l.Queues[handle.Id], input);
      (f, l.(Queues := l.Queues[handle.Id := q]))
  }

  /** `AddLocalInput`: as a remote input, but only for the current frame. */
  function LocalInputAdded<I(==)>(l: Layer<I>, handle: PlayerHandle, input: PlayerInput<I>): (r: (Result<Frame>, Layer<I>))
    requires AllBounded(l.Queues)
    ensures input.Frame != l.Current ==> r == (Err(AssertionFailed), l)
    ensures input.Frame == l.Current ==> r == RemoteInputAdded(l, handle, input)
  {
    if input.Frame != l.Current then (Err(AssertionFailed), l) else RemoteInputAdded(l, handle, input)
  }

  /** Whether a player is cut off before `frame`: disconnected and with its
    * last frame earlier. */
  predicate CutOff(s: ConnectionStatus, frame: Frame)
  {
    s.Disconnected && Less(s.LastFrame, frame)
  }

  /** What player `j`'s entry is: a disconnected blank when it is cut off,
    * otherwise its own queue's answer for the current frame. */
  function Entry<I>(qs: seq<Queue<I>>, s: ConnectionStatus, current: Frame, blank: I, j: nat): Result<(I, InputStatus)>
    requires AllBounded(qs)
  {
    if CutOff(s, current) then Ok((blank, InputStatus.Disconnected))
    else if j >= |qs| then Err(IndexOutOfRange)
    else InputOf(qs[j], current, blank).0
  }

  /** The queues after player `j`'s entry: only a queue that was asked
    * changes, and only its own fields. */
  function AskedOne<I>(qs: seq<Queue<I>>, s: ConnectionStatus, current: Frame, blank: I, j: nat): (r: seq<Queue<I>>)
    requires AllBounded(qs)
    ensures |r| == |qs| && AllBounded(r)
    ensures forall k :: 0 <= k < |qs| && k != j ==> r[k] == qs[k]
  {
    if CutOff(s, current) || j >= |qs| then qs else qs[j := InputOf(qs[j], current, blank).1]
  }

  /** `done` followed by one more entry, or that entry's failure. */
  function Appended<X>(done: seq<X>, x: Result<X>): (r: Result<seq<X>>)
    ensures r.Ok? <==> x.Ok?
    ensures r.Ok? ==> |r.value| == |done| + 1 && r.value[..|done|] == done && r.value[|done|] == x.value
  {
    if x.Ok? then Ok(done + [x.value]) else Err(x.failure)
  }

  /** The first `n` of `xs`, collected until one of them fails: the loop
    * shape of both `SynchronizedInputs` and `ConfirmedInputs`. */
  function Collected<X>(xs: seq<Result<X>>, n: nat): Result<seq<X>>
    requires n <= |xs|
  {
    if n == 0 then Ok([])
    else
      var prev := Collected(xs, n - 1);
      if prev.Err? then prev else Appended(prev.value, xs[n - 1])
  }

  /** How many of the first `n` of `xs` the collection looks at: all of
    * them, or up to and including the first that fails. */
  function CollectedCount<X>(xs: seq<Result<X>>, n: nat): (r: nat)
    requires n <= |xs|
    ensures r <= n
  {
    if n == 0 then 0
    else if Collected(xs, n - 1).Err? then CollectedCount(xs, n - 1)
    else n
  }

  /** Once one fails, the later ones are not looked at. */
  lemma {:induction false} CollectedStopsAtError<X>(xs: seq<Result<X>>, k: nat, n: nat)
    requires k <= n <= |xs| && Collected(xs, k).Err?
    ensures Collected(xs, n) == Collected(xs, k) && CollectedCount(xs, n) == CollectedCount(xs, k)
  {
    if k < n {
      CollectedStopsAtError(xs, k, n - 1);
    }
  }

  /** The collection succeeds exactly when each of the first `n` does, and
    * then holds their values in order. */
  lemma {:induction false} CollectedMeaning<X>(xs: seq<Result<X>>, n: nat)
    requires n <= |xs|
    ensures var r := Collected(xs, n);
      (r.Ok? <==> forall j :: 0 <= j < n ==> xs[j].Ok?) &&
      (r.Ok? ==> |r.value| == n && forall j :: 0 <= j < n ==> xs[j] == Ok(r.value[j]))
  {
    if n > 0 {
      CollectedMeaning(xs, n - 1);
    }
  }

  /** Every player's entry of `SynchronizedInputs`, each computed from the
    * queues as they were before the call. */
  function Entries<I>(qs: seq<Queue<I>>, statuses: seq<ConnectionStatus>, current: Frame, blank: I)
    : seq<Result<(I, InputStatus)>>
    requires AllBounded(qs)
  {
    seq(|statuses|, j requires 0 <= j < |statuses| => Entry(qs, statuses[j], current, blank, j))
  }

  /** The queues after the first `n` entries have been asked. */
  function AskedUpTo<I>(qs: seq<Queue<I>>, statuses: seq<ConnectionStatus>, current: Frame, blank: I, n: nat)
    : (r: seq<Queue<I>>)
    requires n <= |statuses| && AllBounded(qs)
    ensures |r| == |qs| && AllBounded(r)
    decreases n
  {
    if n == 0 then qs
    else AskedOne(AskedUpTo(qs, statuses, current, blank, n - 1), statuses[n - 1], current, blank, n - 1)
  }

  /** Asking the first `n` entries leaves the later queues as they were. */
  lemma {:induction false} AskedKeepsRest<I>(qs: seq<Queue<I>>, statuses: seq<ConnectionStatus>, current: Frame,
                                             blank: I, n: nat)
    requires n <= |statuses| && AllBounded(qs)
    ensures forall j :: n <= j < |qs| ==> AskedUpTo(qs, statuses, current, blank, n)[j] == qs[j]
    decreases n
  {
    if n > 0 {
      AskedKeepsRest(qs, statuses, current, blank, n - 1);
    }
  }

  /** Player `i`'s entry does not depend on the other players' queues. */
  lemma {:induction false} EntryOwnQueue<I>(qs: seq<Queue<I>>, qs1: seq<Queue<I>>, s: ConnectionStatus, current: Frame, blank: I, i: nat)
    requires AllBounded(qs) && AllBounded(qs1) && |qs1| == |qs| && (i < |qs| ==> qs1[i] == qs[i])
    ensures Entry(qs1, s, current, blank, i) == Entry(qs, s, current, blank, i)
  {
  }

  /** One iteration of `SynchronizedInputs`: asking player `i` on the
    * queues so far gives the next collected entry and the next queues. */
  lemma {:induction false} SyncStep<I>(qs: seq<Queue<I>>, statuses: seq<ConnectionStatus>, current: Frame, blank: I, i: nat,
                    done: seq<(I, InputStatus)>)
    requires i < |statuses| && AllBounded(qs) && Ok(done) == Collected(Entries(qs, statuses, current, blank), i)
    ensures var asked := AskedUpTo(qs, statuses, current, blank, i);
      var xs := Entries(qs, statuses, current, blank);
      Appended(done, Entry(asked, statuses[i], current, blank, i)) == Collected(xs, i + 1) &&
      AskedOne(asked, statuses[i], current, blank, i) == AskedUpTo(qs, statuses, current, blank, i + 1) &&
      CollectedCount(xs, i + 1) == i + 1
  {
    AskedKeepsRest(qs, statuses, current, blank, i);
    EntryOwnQueue(qs, AskedUpTo(qs, statuses, current, blank, i), statuses[i], current, blank, i);
  }

  /** `SynchronizedInputs` gives one entry per status, in order, each the
    * answer of that player's own queue as it was before the call, and it
    * fails exactly when some entry cannot be served. */
  lemma {:induction false} SyncedEntries<I>(qs: seq<Queue<I>>, statuses: seq<ConnectionStatus>, current: Frame, blank: I)
    requires AllBounded(qs)
    ensures var r := Collected(Entries(qs, statuses, current, blank), |statuses|);
      (r.Ok? <==> forall j :: 0 <= j < |statuses| ==> Entry(qs, statuses[j], current, blank, j).Ok?) &&
      (r.Ok? ==> |r.value| == |statuses| &&
                 forall j :: 0 <= j < |statuses| ==> Entry(qs, statuses[j], current, blank, j) == Ok(r.value[j]))
  {
    var xs := Entries(qs, statuses, current, blank);
    assert forall j :: 0 <= j < |statuses| ==> xs[j] == Entry(qs, statuses[j], current, blank, j);
    CollectedMeaning(xs, |statuses|);
  }

  /** Entry `i` of `ConfirmedInputs`. */
  function ConfirmedEntry<I>(qs: seq<Queue<I>>, s: ConnectionStatus, frame: Frame, blank: I, i: nat): (r: Result<PlayerInput<I>>)
    requires AllBounded(qs)
    ensures r.Ok? ==> r.value.Frame == frame || (CutOff(s, frame) && r.value == BlankInput(NULL_FRAME, blank))
  {
    if CutOff(s, frame) then Ok(BlankInput(NULL_FRAME, blank))
    else if i >= |qs| then Err(IndexOutOfRange)
    else ConfirmedOf(qs[i], frame)
  }

  /** Every player's entry of `ConfirmedInputs`. */
  function Confirmations<I>(qs: seq<Queue<I>>, statuses: seq<ConnectionStatus>, frame: Frame, blank: I)
    : seq<Result<PlayerInput<I>>>
    requires AllBounded(qs)
  {
    seq(|statuses|, j requires 0 <= j < |statuses| => ConfirmedEntry(qs, statuses[j], frame, blank, j))
  }

  /** `ConfirmedInputs` succeeds exactly when every entry does, and then
    * holds one input per status: the confirmed input of `frame`, or a blank
    * one for a player cut off before it. */
  lemma {:induction false} ConfirmedEntries<I>(qs: seq<Queue<I>>, statuses: seq<ConnectionStatus>, frame: Frame, blank: I)
    requires AllBounded(qs)
    ensures var r := Collected(Confirmations(qs, statuses, frame, blank), |statuses|);
      (r.Ok? <==> forall j :: 0 <= j < |statuses| ==> ConfirmedEntry(qs, statuses[j], frame, blank, j).Ok?) &&
      (r.Ok? ==> |r.value| == |statuses| &&
                 forall j :: 0 <= j < |statuses| ==> r.value[j] == ConfirmedEntry(qs, statuses[j], frame, blank, j).value)
  {
    var xs := Confirmations(qs, statuses, frame, blank);
    assert forall j :: 0 <= j < |statuses| ==> xs[j] == ConfirmedEntry(qs, statuses[j], frame, blank, j);
    CollectedMeaning(xs, |statuses|);
  }

  // ----- Confirmation and consistency -----

  /** The latest `FirstIncorrectFrame` of the first `n` queues, starting
    * from the null frame. */
  function MaxIncorrect<I>(qs: seq<Queue<I>>, n: nat): Frame
    requires n <= |qs|
  {
    if n == 0 then NULL_FRAME else Max(MaxIncorrect(qs, n - 1), qs[n - 1].firstIncorrectFrame)
  }

  /** It is the maximum of the null frame and those frames. */
  lemma {:induction false} MaxIncorrectIsMax<I>(qs: seq<Queue<I>>, n: nat)
    requires n <= |qs|
    ensures var m := MaxIncorrect(qs, n);
      m.No >= -1 && (forall j :: 0 <= j < n ==> qs[j].firstIncorrectFrame.No <= m.No) &&
      (m == NULL_FRAME || exists j :: 0 <= j < n && m == qs[j].firstIncorrectFrame)
  {
    if n > 0 {
      MaxIncorrectIsMax(qs, n - 1);
    }
  }

  /** The frame `SetLastConfirmedFrame` records: `frame`, no later than the
    * last saved frame in sparse mode, and never after the current one. */
  function ConfirmTarget<I>(l: Layer<I>, frame: Frame, sparseSaving: bool): (f: Frame)
    ensures f.No <= frame.No && f.No <= l.Current.No && (sparseSaving ==> f.No <= l.LastSaved.No)
    ensures f == frame || f == l.Current || (sparseSaving && f == l.LastSaved)
  {
    Min(if sparseSaving then Min(frame, l.LastSaved) else frame, l.Current)
  }

  /** Every queue drops what lies before `frame`. */
  function DiscardedAll<I>(qs: seq<Queue<I>>, frame: Frame): (r: seq<Queue<I>>)
    requires AllBounded(qs)
    ensures |r| == |qs| && AllBounded(r)
  {
    seq(|qs|, i requires 0 <= i < |qs| => Discarded(qs[i], frame))
  }

  /** `SetLastConfirmedFrame`: refused when a queue's mismatch is recorded
    * before the target, otherwise the target is recorded and, past the
    * first frame, the queues discard what lies before it. */
  function ConfirmedFrameSet<I>(l: Layer<I>, frame: Frame, sparseSaving: bool): (r: (Outcome, Layer<I>))
    requires AllBounded(l.Queues)
  {
    var target := ConfirmTarget(l, frame, sparseSaving);
    var incorrect := MaxIncorrect(l.Queues, |l.Queues|);
    if !(incorrect == NULL_FRAME || GreaterEq(incorrect, target)) then (Fail(AssertionFailed), l)
    else (Pass, l.(LastConfirmed := target,
                   Queues := if Greater(target, FIRST_FRAME) then DiscardedAll(l.Queues, Minus(target, 1)) else l.Queues))
  }

  /** The confirmation is refused exactly when some queue has recorded a
    * mismatch and every recorded mismatch lies before the target; on
    * success only the confirmed frame and, past the first frame, the
    * queues change. */
  lemma {:induction false} ConfirmedFrameSetMeaning<I>(l: Layer<I>, frame: Frame, sparseSaving: bool)
    requires AllBounded(l.Queues)
    ensures var (o, l1) := ConfirmedFrameSet(l, frame, sparseSaving);
      var target := ConfirmTarget(l, frame, sparseSaving);
      var qs := l.Queues;
      (o.Fail? <==> (exists j :: 0 <= j < |qs| && qs[j].firstIncorrectFrame.No > -1) &&
                    (forall j :: 0 <= j < |qs| ==> qs[j].firstIncorrectFrame.No < target.No)) &&
      (o.Fail? ==> l1 == l) &&
      (o.Pass? ==> l1.LastConfirmed == target && l1.Current == l.Current && l1.LastSaved == l.LastSaved &&
                   l1.Ring == l.Ring &&
                   l1.Queues == if target.No > 0 then DiscardedAll(qs, Minus(target, 1)) else qs)
  {
    MaxIncorrectIsMax(l.Queues, |l.Queues|);
  }

  /** `CheckSimulationConsistency` over the first `n` queues: the earliest
    * recorded mismatch, or `first` if that is earlier. */
  function EarliestIncorrect<I>(first: Frame, qs: seq<Queue<I>>, n: nat): Frame
    requires n <= |qs|
  {
    if n == 0 then first
    else
      var f := EarliestIncorrect(first, qs, n - 1);
      var incorrect := qs[n - 1].firstIncorrectFrame;
      if incorrect != NULL_FRAME && (f == NULL_FRAME || Less(incorrect, f)) then incorrect else f
  }

  /** It is the minimum of `first` and every recorded mismatch, ignoring null
    * frames, and null only when all of them are null. */
  lemma {:induction false} EarliestIsMinimum<I>(first: Frame, qs: seq<Queue<I>>, n: nat)
    requires n <= |qs|
    ensures var f := EarliestIncorrect(first, qs, n);
      (f == NULL_FRAME <==> first == NULL_FRAME && forall j :: 0 <= j < n ==> qs[j].firstIncorrectFrame == NULL_FRAME) &&
      (first != NULL_FRAME ==> f.No <= first.No) &&
      (forall j :: 0 <= j < n && qs[j].firstIncorrectFrame != NULL_FRAME ==> f.No <= qs[j].firstIncorrectFrame.No) &&
      (f == first || exists j :: 0 <= j < n && f == qs[j].firstIncorrectFrame)
  {
    if n > 0 {
      EarliestIsMinimum(first, qs, n - 1);
    }
  }

  // ----- Whole-layer steps a session takes -----

  /** `AdvanceFrame`. */
  function FrameAdvanced<I>(l: Layer<I>): Layer<I>
  {
    l.(Current := Plus(l.Current, 1))
  }

  /** `ResetPrediction`: every queue forgets its prediction. */
  function PredictionsReset<I>(l: Layer<I>): Layer<I>
  {
    l.(Queues := seq(|l.Queues|, i requires 0 <= i < |l.Queues| => PredictionReset(l.Queues[i])))
  }

  /** `SynchronizedInputs` on the layer: the collected entries, and the
    * queues after every entry the collection looked at. */
  function SyncedInputs<I>(l: Layer<I>, statuses: seq<ConnectionStatus>, blank: I)
    : (Result<seq<(I, InputStatus)>>, Layer<I>)
    requires AllBounded(l.Queues)
  {
    var xs := Entries(l.Queues, statuses, l.Current, blank);
    (Collected(xs, |statuses|),
     l.(Queues := AskedUpTo(l.Queues, statuses, l.Current, blank, CollectedCount(xs, |statuses|))))
  }

  /** None of the three moves a layer out of shape, and each leaves the ring
    * and the saved and confirmed frames alone. */
  lemma {:induction false} StepsKeepWf<I>(l: Layer<I>, numPlayers: nat, maxPrediction: nat, statuses: seq<ConnectionStatus>, blank: I)
    requires LayerWf(l, numPlayers, maxPrediction)
    ensures LayerWf(FrameAdvanced(l), numPlayers, maxPrediction)
    ensures LayerWf(PredictionsReset(l), numPlayers, maxPrediction)
    ensures var l1 := SyncedInputs(l, statuses, blank).1;
      LayerWf(l1, numPlayers, maxPrediction) && l1 == l.(Queues := l1.Queues)
  {
  }

  // ----- The class -----

  /** `SyncLayer<TState, TInput>`.  The input queues are private to the
    * layer, so they are held by value, each updated with the `InputQueue`
    * operation of the same name.  `cells` is `_savedStates.States`: no
    * operation writes it, since `GetCell` hands out copies. */
  class SyncLayer<I(==)> {
    const numPlayers: nat
    const maxPrediction: nat
    const cells: array<GameStateCell>
    const blank: I
    var lastConfirmedFrame: Frame
    var lastSavedFrame: Frame
    var currentFrame: Frame
    var queues: seq<Queue<I>>

    ghost function Snapshot(): Layer<I>
      reads this, cells
    {
      Layer(cells[..], lastConfirmedFrame, lastSavedFrame, currentFrame, queues)
    }

    ghost predicate Valid()
      reads this, cells
    {
      LayerWf(Snapshot(), numPlayers, maxPrediction)
    }

    constructor (numPlayers: nat, maxPrediction: nat, blank: I)
      ensures Valid() && Snapshot() == InitialLayer(numPlayers, maxPrediction, blank) && Untouched(cells[..])
      ensures this.numPlayers == numPlayers && this.maxPrediction == maxPrediction && this.blank == blank
    {
      this.numPlayers := numPlayers;
      this.maxPrediction := maxPrediction;
      this.blank := blank;
      lastConfirmedFrame, lastSavedFrame, currentFrame := NULL_FRAME, NULL_FRAME, FIRST_FRAME;
      var a := new GameStateCell[maxPrediction + 1](_ => DEFAULT_CELL);
      for i := 0 to maxPrediction + 1
        invariant forall j :: 0 <= j < i ==> a[j] == EMPTY_CELL
      {
        a[i] := EMPTY_CELL;
      }
      cells := a;
      var qs: seq<Queue<I>> := [];
      for i := 0 to numPlayers
        invariant |qs| == i && forall j :: 0 <= j < i ==> qs[j] == InitialQueue(blank)
      {
        qs := qs + [InitialQueue(blank)];
      }
      queues := qs;
      new;
      assert cells[..] == InitialLayer(numPlayers, maxPrediction, blank).Ring;
      assert queues == InitialLayer(numPlayers, maxPrediction, blank).Queues;
    }

    function CurrentFrame(): Frame
      reads this
    {
      currentFrame
    }

    function LastSavedFrame(): Frame
      reads this
    {
      lastSavedFrame
    }

    function LastConfirmedFrame(): Frame
      reads this
    {
      lastConfirmedFrame
    }

    method AdvanceFrame()
      requires Valid()
      modifies this
      ensures Valid() && Snapshot() == FrameAdvanced(old(Snapshot()))
    {
      currentFrame := Plus(currentFrame, 1);
    }

    method GetCell(frame: Frame) returns (r: Result<GameStateCell>)
      requires Valid()
      ensures r == CellOf(cells[..], frame)
    {
      if frame == NULL_FRAME {
        return Err(AssertionFailed);
      }
      var pos := if frame.No >= 0 then frame.No % cells.Length else -((-frame.No) % cells.Length);
      if pos < 0 {
        return Err(IndexOutOfRange);
      }
      r := Ok(cells[pos]);
    }

    /** The request carries a copy of the cell, and `cells` is not among
      * what the method may change, so a save the game performs on the
      * request cannot reach the ring. */
    method SaveCurrentState() returns (r: RollbackRequest<I>)
      requires Valid()
      modifies this
      ensures Valid() && (r, Snapshot()) == CurrentSaved(old(Snapshot()))
    {
      lastSavedFrame := currentFrame;
      var cell := GetCell(currentFrame);
      r := SaveGameState(SaveGameStateBody(cell.value, currentFrame));
    }

    method SetFrameDelay(handle: PlayerHandle, delay: nat) returns (o: Outcome)
      requires Valid()
      modifies this
      ensures Valid()
      ensures handle.Id >= numPlayers ==> o == Fail(AssertionFailed) && Snapshot() == old(Snapshot())
      ensures handle.Id < numPlayers ==>
                o == Pass && Snapshot() == old(Snapshot()).(Queues := old(queues)[handle.Id := DelaySet(old(queues)[handle.Id], delay)])
    {
      if handle.Id >= numPlayers {
        return Fail(AssertionFailed);
      }
      queues := queues[handle.Id := DelaySet(queues[handle.Id], delay)];
      o := Pass;
    }

    method ResetPrediction()
      requires Valid()
      modifies this
      ensures Valid()
      ensures Snapshot() == PredictionsReset(old(Snapshot()))
    {
      for i := 0 to numPlayers
        invariant Valid() && Snapshot() == old(Snapshot()).(Queues := queues)
        invariant forall j :: 0 <= j < i ==> queues[j] == PredictionReset(old(queues)[j])
        invariant forall j :: i <= j < numPlayers ==> queues[j] == old(queues)[j]
      {
        queues := queues[i := PredictionReset(queues[i])];
      }
    }

    method LoadFrame(frameToLoad: Frame) returns (r: Result<RollbackRequest<I>>)
      requires Valid()
      modifies this
      ensures Valid() && (r, Snapshot()) == Loaded(old(Snapshot()), maxPrediction, frameToLoad)
    {
      if !(frameToLoad != NULL_FRAME && Less(frameToLoad, currentFrame) &&
           GreaterEq(frameToLoad, Minus(currentFrame, maxPrediction))) {
        return Err(AssertionFailed);
      }
      var cell := GetCell(frameToLoad);
      if cell.Err? {
        return Err(cell.failure);
      }
      if cell.value.State.Frame != frameToLoad {
        return Err(AssertionFailed);
      }
      currentFrame := frameToLoad;
      r := Ok(LoadGameState(LoadGameStateBody(cell.value, frameToLoad)));
    }

    method AddLocalInput(handle: PlayerHandle, input: PlayerInput<I>) returns (r: Result<Frame>)
      requires Valid()
      modifies this
      ensures Valid() && (r, Snapshot()) == LocalInputAdded(old(Snapshot()), handle, input)
    {
      if input.Frame != currentFrame {
        return Err(AssertionFailed);
      }
      r := AddRemoteInput(handle, input);
    }

    /** Returns what the queue's `AddInput` returns, which the source drops. */
    method AddRemoteInput(handle: PlayerHandle, input: PlayerInput<I>) returns (r: Result<Frame>)
      requires Valid()
      modifies this
      ensures Valid() && (r, Snapshot()) == RemoteInputAdded(old(Snapshot()), handle, input)
    {
      if handle.Id >= |queues| {
        return Err(IndexOutOfRange);
      }
      var (res, q) := Added(queues[handle.Id], input);
      queues := queues[handle.Id := q];
      r := res;
    }

    method SynchronizedInputs(connectStatus: seq<ConnectionStatus>) returns (r: Result<seq<(I, InputStatus)>>)
      requires Valid()
      modifies this
      ensures Valid() && (r, Snapshot()) == SyncedInputs(old(Snapshot()), connectStatus, blank)
    {
      ghost var xs := Entries(queues, connectStatus, currentFrame, blank);
      var out: seq<(I, InputStatus)> := [];
      for i := 0 to |connectStatus|
        invariant Valid() && Snapshot() == old(Snapshot()).(Queues := queues)
        invariant Ok(out) == Collected(xs, i) && CollectedCount(xs, i) == i
        invariant queues == AskedUpTo(old(queues), connectStatus, currentFrame, blank, i)
      {
        SyncStep(old(queues), connectStatus, currentFrame, blank, i, out);
        var next := SyncInput(out, connectStatus[i], i);
        if next.Err? {
          CollectedStopsAtError(xs, i + 1, |connectStatus|);
          return next;
        }
        out := next.value;
      }
      r := Ok(out);
    }

    /** Entry `i` of `SynchronizedInputs`. */
    method SyncInput(done: seq<(I, InputStatus)>, s: ConnectionStatus, i: nat) returns (r: Result<seq<(I, InputStatus)>>)
      requires Valid()
      modifies this
      ensures Valid() && Snapshot() == old(Snapshot()).(Queues := queues)
      ensures r == Appended(done, Entry(old(queues), s, currentFrame, blank, i))
      ensures queues == AskedOne(old(queues), s, currentFrame, blank, i)
    {
      if CutOff(s, currentFrame) {
        return Ok(done + [(blank, InputStatus.Disconnected)]);
      }
      if i >= |queues| {
        return Err(IndexOutOfRange);
      }
      var (x, q) := InputOf(queues[i], currentFrame, blank);
      queues := queues[i := q];
      r := if x.Ok? then Ok(done + [x.value]) else Err(x.failure);
    }

    method ConfirmedInputs(frame: Frame, connectStatus: seq<ConnectionStatus>) returns (r: Result<seq<PlayerInput<I>>>)
      requires Valid()
      ensures r == Collected(Confirmations(queues, connectStatus, frame, blank), |connectStatus|)
    {
      ghost var xs := Confirmations(queues, connectStatus, frame, blank);
      var out: seq<PlayerInput<I>> := [];
      for i := 0 to |connectStatus|
        invariant Ok(out) == Collected(xs, i)
      {
        if CutOff(connectStatus[i], frame) {
          out := out + [BlankInput(NULL_FRAME, blank)];
        } else {
          if i >= |queues| {
            CollectedStopsAtError(xs, i + 1, |connectStatus|);
            return Err(IndexOutOfRange);
          }
          var x := ConfirmedOf(queues[i], frame);
          if x.Err? {
            CollectedStopsAtError(xs, i + 1, |connectStatus|);
            return Err(x.failure);
          }
          out := out + [x.value];
        }
      }
      r := Ok(out);
    }

    method SetLastConfirmedFrame(frame: Frame, sparseSaving: bool) returns (o: Outcome)
      requires Valid()
      modifies this
      ensures Valid() && (o, Snapshot()) == ConfirmedFrameSet(old(Snapshot()), frame, sparseSaving)
    {
      var firstIncorrect := NULL_FRAME;
      for i := 0 to numPlayers
        invariant firstIncorrect == MaxIncorrect(queues, i)
      {
        firstIncorrect := Max(firstIncorrect, queues[i].firstIncorrectFrame);
      }
      var f := frame;
      if sparseSaving {
        f := Min(f, lastSavedFrame);
      }
      f := Min(f, currentFrame);
      if !(firstIncorrect == NULL_FRAME || GreaterEq(firstIncorrect, f)) {
        return Fail(AssertionFailed);
      }
      lastConfirmedFrame := f;
      if Greater(lastConfirmedFrame, FIRST_FRAME) {
        DiscardAll(Minus(f, 1));
      }
      o := Pass;
    }

    /** The loop of `SetLastConfirmedFrame` that discards from each queue. */
    method DiscardAll(frame: Frame)
      requires Valid()
      modifies this
      ensures Valid() && Snapshot() == old(Snapshot()).(Queues := DiscardedAll(old(queues), frame))
    {
      for i := 0 to numPlayers
        invariant Valid() && Snapshot() == old(Snapshot()).(Queues := queues)
        invariant forall j :: 0 <= j < i ==> queues[j] == Discarded(old(queues)[j], frame)
        invariant forall j :: i <= j < numPlayers ==> queues[j] == old(queues)[j]
      {
        queues := queues[i := Discarded(queues[i], frame)];
      }
    }

    method CheckSimulationConsistency(firstIncorrect: Frame) returns (f: Frame)
      requires Valid()
      ensures f == EarliestIncorrect(firstIncorrect, queues, |queues|)
    {
      f := firstIncorrect;
      for i := 0 to numPlayers
        invariant f == EarliestIncorrect(firstIncorrect, queues, i)
      {
        var incorrect := queues[i].firstIncorrectFrame;
        if incorrect != NULL_FRAME && (f == NULL_FRAME || Less(incorrect, f)) {
          f := incorrect;
        }
      }
    }

    method SavedStateByFrame(frame: Frame) returns (r: Result<GameStateCell>)
      requires Valid()
      ensures r == SavedState(cells[..], frame)
    {
      var cell := GetCell(frame);
      if cell.Err? {
        return Err(cell.failure);
      }
      if cell.value.State.Frame == frame {
        return Ok(cell.value);
      }
      r := Err(InvalidOperation);
    }
  }
}
