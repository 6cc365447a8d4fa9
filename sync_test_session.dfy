/** `SyncTestSession<TState, TInput, TAddress>`: a local session that, every
  * frame, rolls back `CheckDistance` frames and simulates them again,
  * comparing the checksums the game reports for each frame it sees twice.
  * The step functions come first, then the class proved against them. */
module SyncTestSessions {
  import opened Frames
  import opened Outcomes
  import opened Rollback
  import opened InputQueues
  import opened SyncLayers
  import Messages
  import P2PSessions

  type ConnectionStatus = Messages.ConnectionStatus

  /** What the constructor fixes: the number of players, the prediction
    * window, the check distance, and `default(TInput)`. */
  datatype TestCfg<I> = TestCfg(NumPlayers: nat, MaxPrediction: nat, CheckDistance: nat, Blank: I)

  /** The fields a test session changes.  `History` is `_checksumHistory`;
    * `LocalInputs` is `_localInputs` with its entries in the dictionary's
    * enumeration order. */
  datatype Test<I> = Test(Layer: Layer<I>, Status: seq<ConnectionStatus>, History: map<Frame, nat>,
                          LocalInputs: seq<(PlayerHandle, PlayerInput<I>)>)

  /** No handle occurs twice among the entries. */
  predicate DistinctKeys<I>(xs: seq<(PlayerHandle, PlayerInput<I>)>)
  {
    forall j, k :: 0 <= j < k < |xs| ==> xs[j].0 != xs[k].0
  }

  predicate TestWf<I>(c: TestCfg<I>, t: Test<I>)
  {
    LayerWf(t.Layer, c.NumPlayers, c.MaxPrediction) && |t.Status| == c.NumPlayers &&
    DistinctKeys(t.LocalInputs) && forall j :: 0 <= j < |t.LocalInputs| ==> t.LocalInputs[j].0.Id < c.NumPlayers
  }

  /** `new SyncTestSession(numPlayers, maxPrediction, checkDistance,
    * inputDelay)`: fresh layer with every queue delayed, every dummy status
    * the default one, no history and no inputs. */
  function Started<I>(c: TestCfg<I>, inputDelay: nat): (t: Test<I>)
    ensures TestWf(c, t)
    ensures t.Layer.Current == FIRST_FRAME && t.Layer.LastConfirmed == NULL_FRAME && t.Layer.LastSaved == NULL_FRAME
    ensures Untouched(t.Layer.Ring)
    ensures forall i :: 0 <= i < c.NumPlayers ==>
      t.Layer.Queues[i] == DelaySet(InitialQueue(c.Blank), inputDelay) && t.Status[i] == Messages.DEFAULT_STATUS
    ensures t.History == map[] && t.LocalInputs == []
  {
    var l := InitialLayer(c.NumPlayers, c.MaxPrediction, c.Blank);
    Test(l.(Queues := seq(c.NumPlayers, i requires 0 <= i < c.NumPlayers => DelaySet(l.Queues[i], inputDelay))),
         seq(c.NumPlayers, _ => Messages.DEFAULT_STATUS), map[], [])
  }

  // ----- AddLocalInput -----

  /** Whether `h` has an entry. */
  predicate HasKey<I>(xs: seq<(PlayerHandle, PlayerInput<I>)>, h: PlayerHandle)
  {
    exists j :: 0 <= j < |xs| && xs[j].0 == h
  }

  /** The position of `h`'s entry, or -1 when it has none. */
  function KeyIndex<I>(xs: seq<(PlayerHandle, PlayerInput<I>)>, h: PlayerHandle): (j: int)
    ensures -1 <= j < |xs|
    ensures j >= 0 ==> xs[j].0 == h
    ensures j == -1 ==> !HasKey(xs, h)
    decreases |xs|
  {
    if xs == [] then -1
    else if xs[|xs| - 1].0 == h then |xs| - 1
    else
      var j := KeyIndex(xs[..|xs| - 1], h);
      assert j == -1 ==> !HasKey(xs, h) by {
        if j == -1 {
          forall i | 0 <= i < |xs|
            ensures xs[i].0 != h
          {
            if i < |xs| - 1 {
              assert xs[..|xs| - 1][i] == xs[i];
            }
          }
        }
      }
      j
  }

  /** `dictionary[h] = v`: an existing entry keeps its place and takes the
    * new value, a new one goes last. */
  function Assigned<I>(xs: seq<(PlayerHandle, PlayerInput<I>)>, h: PlayerHandle, v: PlayerInput<I>)
    : seq<(PlayerHandle, PlayerInput<I>)>
  {
    var j := KeyIndex(xs, h);
    if j >= 0 then xs[j := (h, v)] else xs + [(h, v)]
  }

  /** The store keeps the other entries and their order, gives `h` the
    * value `v`, and adds an entry only for a handle not yet present. */
  lemma {:induction false} AssignedMeaning<I>(xs: seq<(PlayerHandle, PlayerInput<I>)>, h: PlayerHandle, v: PlayerInput<I>)
    requires DistinctKeys(xs)
    ensures var r := Assigned(xs, h, v);
      DistinctKeys(r) && HasKey(r, h) &&
      (forall k :: HasKey(r, k) <==> HasKey(xs, k) || k == h) &&
      (forall j :: 0 <= j < |r| && r[j].0 == h ==> r[j].1 == v) &&
      (forall j :: 0 <= j < |r| && r[j].0 != h ==> j < |xs| && r[j] == xs[j]) &&
      |r| == if HasKey(xs, h) then |xs| else |xs| + 1
  {
    var r := Assigned(xs, h, v);
    var j := KeyIndex(xs, h);
    if j >= 0 {
      assert r[j].0 == h;
      forall k
        ensures HasKey(r, k) <==> HasKey(xs, k) || k == h
      {
        if HasKey(xs, k) {
          var i :| 0 <= i < |xs| && xs[i].0 == k;
          assert r[i].0 == k;
        }
        if HasKey(r, k) {
          var i :| 0 <= i < |r| && r[i].0 == k;
          assert xs[i].0 == k;
        }
      }
    } else {
      assert r[|xs|].0 == h;
      forall k
        ensures HasKey(r, k) <==> HasKey(xs, k) || k == h
      {
        if HasKey(xs, k) {
          var i :| 0 <= i < |xs| && xs[i].0 == k;
          assert r[i].0 == k;
        }
      }
    }
  }

  /** `AddLocalInput`: refused for a handle that is not a player's,
    * otherwise the input is stored, tagged with the current frame. */
  function LocalInputStored<I>(c: TestCfg<I>, t: Test<I>, h: PlayerHandle, input: I): (r: (Outcome, Test<I>))
    requires TestWf(c, t)
    ensures TestWf(c, r.1)
    ensures h.Id >= c.NumPlayers <==> r.0.Fail?
    ensures r.0.Fail? ==> r == (Fail(InvalidOperation), t)
    ensures r.0.Pass? ==> r.1 == t.(LocalInputs := r.1.LocalInputs) &&
                          (forall k :: HasKey(r.1.LocalInputs, k) <==> HasKey(t.LocalInputs, k) || k == h) &&
                          forall j :: 0 <= j < |r.1.LocalInputs| && r.1.LocalInputs[j].0 == h ==>
                            r.1.LocalInputs[j].1 == PlayerInput(t.Layer.Current, input)
  {
    if h.Id >= c.NumPlayers then (Fail(InvalidOperation), t)
    else
      var v := PlayerInput(t.Layer.Current, input);
      AssignedMeaning(t.LocalInputs, h, v);
      var xs := Assigned(t.LocalInputs, h, v);
      assert forall j :: 0 <= j < |xs| ==> xs[j].0.Id < c.NumPlayers by {
        forall j | 0 <= j < |xs|
          ensures xs[j].0.Id < c.NumPlayers
        {
          if xs[j].0 != h {
            assert xs[j] == t.LocalInputs[j];
          }
        }
      }
      (Pass, t.(LocalInputs := xs))
  }

  // ----- ChecksumsConsistent -----

  /** The history without the frames before `oldest`. */
  function Pruned(hist: map<Frame, nat>, oldest: Frame): (r: map<Frame, nat>)
  {
    map f | f in hist && !Less(f, oldest) :: hist[f]
  }

  /** `ChecksumsConsistent(frame)`: prune the history to the check window,
    * then compare the frame's saved checksum with the one recorded for it,
    * recording it if there is none.  A missing state counts as consistent;
    * any other failure of the lookup escapes. */
  function ChecksumChecked<I>(c: TestCfg<I>, t: Test<I>, frame: Frame): (r: (Result<bool>, map<Frame, nat>))
    requires TestWf(c, t)
  {
    var hist := Pruned(t.History, Minus(t.Layer.Current, c.CheckDistance));
    match SavedState(t.Layer.Ring, frame)
    case Err(e) => if e == InvalidOperation then (Ok(true), hist) else (Err(e), hist)
    case Ok(cell) =>
      if cell.State.Frame in hist then (Ok(hist[cell.State.Frame] == cell.State.Checksum), hist)
      else (Ok(true), hist[cell.State.Frame := cell.State.Checksum])
  }

  /** After a check the history holds, besides the frame checked, only
    * what it held within the check window; a frame seen for the first time
    * is recorded with its checksum and is consistent, a missing state is
    * consistent, and a recorded frame is consistent exactly when its
    * checksum is the recorded one. */
  lemma {:induction false} ChecksumCheckedMeaning<I>(c: TestCfg<I>, t: Test<I>, frame: Frame)
    requires TestWf(c, t)
    ensures var (r, hist) := ChecksumChecked(c, t, frame);
      var oldest := Minus(t.Layer.Current, c.CheckDistance);
      (forall f :: f in hist && f != frame ==> f.No >= oldest.No && f in t.History) &&
      (forall f :: f in t.History && f.No >= oldest.No ==> f in hist && (f != frame ==> hist[f] == t.History[f]))
    ensures var (r, hist) := ChecksumChecked(c, t, frame);
      var oldest := Minus(t.Layer.Current, c.CheckDistance);
      var saved := SavedState(t.Layer.Ring, frame);
      (saved == Err(InvalidOperation) ==> r == Ok(true)) &&
      (saved.Ok? && (frame !in t.History || frame.No < oldest.No) ==>
         frame in hist && hist[frame] == saved.value.State.Checksum && r == Ok(true)) &&
      (saved.Ok? && frame in t.History && frame.No >= oldest.No ==>
         r == Ok(t.History[frame] == saved.value.State.Checksum) && hist == Pruned(t.History, oldest))
  {
    var saved := SavedState(t.Layer.Ring, frame);
    if saved.Ok? {
      assert saved.value.State.Frame == frame;
    }
  }

  /** A frame found consistent stays so when checked again at once. */
  lemma {:induction false} ChecksumRecheck<I>(c: TestCfg<I>, t: Test<I>, frame: Frame)
    requires TestWf(c, t) && ChecksumChecked(c, t, frame).0 == Ok(true)
    ensures ChecksumChecked(c, t.(History := ChecksumChecked(c, t, frame).1), frame).0 == Ok(true)
  {
    ChecksumCheckedMeaning(c, t, frame);
  }

  /** The loop of `AdvanceFrame` over the `count` frames from `from`: the
    * frames found inconsistent, in order, and the history afterwards. */
  function RangeChecked<I>(c: TestCfg<I>, t: Test<I>, from: Frame, count: nat): (r: (Result<seq<Frame>>, map<Frame, nat>))
    requires TestWf(c, t)
    decreases count
  {
    if count == 0 then (Ok([]), t.History)
    else
      var (r, hist) := RangeChecked(c, t, from, count - 1);
      if r.Err? then (r, hist)
      else
        var f := Plus(from, count - 1);
        var (ok, hist1) := ChecksumChecked(c, t.(History := hist), f);
        if ok.Err? then (Err(ok.failure), hist1)
        else (Ok(if ok.value then r.value else r.value + [f]), hist1)
  }

  /** The frames reported are in the range checked, in increasing order. */
  lemma {:induction false} RangeCheckedInRange<I>(c: TestCfg<I>, t: Test<I>, from: Frame, count: nat)
    requires TestWf(c, t)
    ensures var r := RangeChecked(c, t, from, count).0;
      r.Ok? ==> (forall k :: 0 <= k < |r.value| ==> from.No <= r.value[k].No < from.No + count) &&
                (forall j, k :: 0 <= j < k < |r.value| ==> r.value[j].No < r.value[k].No)
    decreases count
  {
    if count > 0 {
      RangeCheckedInRange(c, t, from, count - 1);
    }
  }

  // ----- AdjustGameState -----

  /** The resimulation loop is the peer-to-peer session's without sparse
    * saving: a save before every advance but the first. */
  function Replay<I>(c: TestCfg<I>): P2PSessions.Ctx<I, ()>
  {
    P2PSessions.Ctx(c.NumPlayers, c.MaxPrediction, false, [], c.Blank)
  }

  /** `AdjustGameState(frameTo)`: load `frameTo`, forget the predictions,
    * and simulate forward to the frame the session was at. */
  function Adjusted<I>(c: TestCfg<I>, t: Test<I>, frameTo: Frame): (r: (Outcome, seq<RollbackRequest<I>>, Test<I>))
    requires TestWf(c, t)
    ensures TestWf(c, r.2) && r.2 == t.(Layer := r.2.Layer)
  {
    var start := t.Layer.Current;
    var (load, l1) := Loaded(t.Layer, c.MaxPrediction, frameTo);
    LoadedKeepsWf(t.Layer, c.NumPlayers, c.MaxPrediction, frameTo);
    if load.Err? then (Fail(load.failure), [], t)
    else
      var l2 := PredictionsReset(l1);
      StepsKeepWf(l1, c.NumPlayers, c.MaxPrediction, t.Status, c.Blank);
      // the load moves to `frameTo`: the first assertion holds
      assert l2.Current == frameTo;
      var count := Diff(start, frameTo);
      var (o, reqs, l3) := P2PSessions.Resimulated(Replay(c), t.Status, NULL_FRAME, l2, count);
      P2PSessions.ResimulatedMeaning(Replay(c), t.Status, NULL_FRAME, l2, count);
      // so does the second
      assert o.Pass? ==> l3.Current == start;
      (o, [load.value] + reqs, t.(Layer := l3))
  }

  /** A successful adjustment asks for one load and then, for each of the
    * `count` frames, an advance with a save before each but the first,
    * and comes back to the frame it started from. */
  lemma {:induction false} AdjustedMeaning<I>(c: TestCfg<I>, t: Test<I>, frameTo: Frame)
    requires TestWf(c, t)
    ensures var (o, reqs, t1) := Adjusted(c, t, frameTo);
      var count := Diff(t.Layer.Current, frameTo);
      o.Pass? ==>
        count > 0 && |reqs| == 2 * count && reqs[0].LoadGameState? && reqs[0].load.Frame == frameTo &&
        P2PSessions.Alternating(reqs[1..]) && CountAdvances(reqs) == count &&
        t1.Layer.Current == t.Layer.Current && t1.Layer.LastConfirmed == t.Layer.LastConfirmed
  {
    var (load, l1) := Loaded(t.Layer, c.MaxPrediction, frameTo);
    LoadedMeaning(t.Layer, c.MaxPrediction, frameTo);
    if load.Ok? {
      LoadedKeepsWf(t.Layer, c.NumPlayers, c.MaxPrediction, frameTo);
      var l2 := PredictionsReset(l1);
      StepsKeepWf(l1, c.NumPlayers, c.MaxPrediction, t.Status, c.Blank);
      var count := Diff(t.Layer.Current, frameTo);
      P2PSessions.ResimulatedMeaning(Replay(c), t.Status, NULL_FRAME, l2, count);
      P2PSessions.ResimulatedSavesAll(Replay(c), t.Status, NULL_FRAME, l2, count);
      var reqs := P2PSessions.Resimulated(Replay(c), t.Status, NULL_FRAME, l2, count).1;
      var all := [load.value] + reqs;
      assert all[1..] == reqs;
      CountAdvancesAppend([load.value], reqs);
      assert CountAdvances([load.value]) == 0 by {
        assert [load.value][..0] == [];
      }
    }
  }

  // ----- AdvanceFrame -----

  /** Whether `AdvanceFrame` checks and rolls back this frame. */
  predicate Checks<I>(c: TestCfg<I>, current: Frame)
  {
    c.CheckDistance > 0 && Greater(current, Frame(c.CheckDistance))
  }

  /** The first part of `AdvanceFrame`: past the check distance, every
    * frame of the window is checked, any mismatch refused, and the window
    * simulated again. */
  function RolledBack<I>(c: TestCfg<I>, t: Test<I>): (r: (Outcome, seq<RollbackRequest<I>>, Test<I>))
    requires TestWf(c, t)
    ensures TestWf(c, r.2) && r.2.LocalInputs == t.LocalInputs && r.2.Status == t.Status
  {
    var current := t.Layer.Current;
    if !Checks(c, current) then (Pass, [], t)
    else
      var (mismatched, hist) := RangeChecked(c, t, Minus(current, c.CheckDistance), c.CheckDistance + 1);
      var t1 := t.(History := hist);
      if mismatched.Err? then (Fail(mismatched.failure), [], t1)
      else if |mismatched.value| > 0 then (Fail(InvalidOperation), [], t1)
      else Adjusted(c, t1, Minus(t1.Layer.Current, c.CheckDistance))
  }

  /** The local-input loop over the entries, stopping at the first failure. */
  function LocalInputsFed<I(==)>(l: Layer<I>, xs: seq<(PlayerHandle, PlayerInput<I>)>): (r: (Outcome, Layer<I>))
    requires AllBounded(l.Queues)
    ensures AllBounded(r.1.Queues) && r.1 == l.(Queues := r.1.Queues) && |r.1.Queues| == |l.Queues|
    decreases |xs|
  {
    if xs == [] then (Pass, l)
    else
      var (o, l1) := LocalInputsFed(l, xs[..|xs| - 1]);
      if o.Fail? then (o, l1)
      else
        var (f, l2) := LocalInputAdded(l1, xs[|xs| - 1].0, xs[|xs| - 1].1);
        (if f.Err? then Fail(f.failure) else Pass, l2)
  }

  /** Once an input fails, the later entries are not reached. */
  lemma {:induction false} LocalInputsFedSticks<I>(l: Layer<I>, xs: seq<(PlayerHandle, PlayerInput<I>)>, i: nat)
    requires AllBounded(l.Queues) && i <= |xs| && LocalInputsFed(l, xs[..i]).0.Fail?
    ensures LocalInputsFed(l, xs) == LocalInputsFed(l, xs[..i])
    decreases |xs| - i
  {
    if i == |xs| {
      assert xs[..i] == xs;
    } else {
      var init := xs[..|xs| - 1];
      assert init[..i] == xs[..i];
      LocalInputsFedSticks(l, init, i);
    }
  }

  /** Every dummy status takes `frame` as its last frame. */
  function CaughtUp(st: seq<ConnectionStatus>, frame: Frame): (r: seq<ConnectionStatus>)
    ensures |r| == |st| && forall i :: 0 <= i < |st| ==> r[i] == st[i].(LastFrame := frame)
  {
    seq(|st|, i requires 0 <= i < |st| => st[i].(LastFrame := frame))
  }

  /** The rest of `AdvanceFrame`: refused unless every player gave an
    * input; the inputs go to the sync layer, the frame is saved when
    * checking, the inputs collected and the frame advanced, the frame
    * `CheckDistance` back confirmed, and the dummy statuses caught up. */
  function Finished<I(==)>(c: TestCfg<I>, t: Test<I>): (r: (Result<seq<RollbackRequest<I>>>, Test<I>))
    requires TestWf(c, t)
    ensures TestWf(c, r.1)
  {
    if c.NumPlayers != |t.LocalInputs| then (Err(InvalidOperation), t)
    else
      var (o1, l1) := LocalInputsFed(t.Layer, t.LocalInputs);
      assert LayerWf(l1, c.NumPlayers, c.MaxPrediction);
      if o1.Fail? then (Err(o1.failure), t.(Layer := l1))
      else
        var (saves, l2) := if c.CheckDistance > 0 then ([CurrentSaved(l1).0], CurrentSaved(l1).1) else ([], l1);
        StepsKeepWf(l2, c.NumPlayers, c.MaxPrediction, t.Status, c.Blank);
        var (inputs, l3) := SyncedInputs(l2, t.Status, c.Blank);
        StepsKeepWf(l3, c.NumPlayers, c.MaxPrediction, t.Status, c.Blank);
        var t3 := t.(Layer := l3, LocalInputs := []);
        if inputs.Err? then (Err(inputs.failure), t3)
        else
          var l4 := FrameAdvanced(l3);
          ConfirmedFrameSetMeaning(l4, Minus(l4.Current, c.CheckDistance), false);
          var (o5, l5) := ConfirmedFrameSet(l4, Minus(l4.Current, c.CheckDistance), false);
          var t5 := t.(Layer := l5, LocalInputs := []);
          if o5.Fail? then (Err(o5.failure), t5)
          else (Ok(saves + [RollbackRequest.AdvanceFrame(AdvanceFrameBody(inputs.value))]),
                t5.(Status := CaughtUp(t.Status, l5.Current)))
  }

  /** `AdvanceFrame`. */
  function TestAdvanced<I(==)>(c: TestCfg<I>, t: Test<I>): (r: (Result<seq<RollbackRequest<I>>>, Test<I>))
    requires TestWf(c, t)
    ensures TestWf(c, r.1)
  {
    var (o, reqs1, t1) := RolledBack(c, t);
    if o.Fail? then (Err(o.failure), t1)
    else
      var (r, t2) := Finished(c, t1);
      if r.Err? then (r, t2) else (Ok(reqs1 + r.value), t2)
  }

  // ----- What a call of AdvanceFrame promises -----

  /** The ids of the entries' handles. */
  function IdsOf<I>(xs: seq<(PlayerHandle, PlayerInput<I>)>): set<nat>
  {
    set j | 0 <= j < |xs| :: xs[j].0.Id
  }

  lemma {:induction false} IdsCount<I>(xs: seq<(PlayerHandle, PlayerInput<I>)>)
    requires DistinctKeys(xs)
    ensures |IdsOf(xs)| == |xs|
    decreases |xs|
  {
    if xs != [] {
      var init := xs[..|xs| - 1];
      assert DistinctKeys(init) by {
        forall j, k | 0 <= j < k < |init|
          ensures init[j].0 != init[k].0
        {
          assert init[j] == xs[j] && init[k] == xs[k];
        }
      }
      IdsCount(init);
      var last := xs[|xs| - 1].0.Id;
      assert IdsOf(xs) == IdsOf(init) + {last} by {
        forall id | id in IdsOf(xs)
          ensures id in IdsOf(init) + {last}
        {
          var j :| 0 <= j < |xs| && xs[j].0.Id == id;
          if j < |xs| - 1 {
            assert init[j] == xs[j];
          }
        }
        forall id | id in IdsOf(init)
          ensures id in IdsOf(xs)
        {
          var j :| 0 <= j < |init| && init[j].0.Id == id;
          assert xs[j] == init[j];
        }
      }
      assert last !in IdsOf(init) by {
        forall j | 0 <= j < |init|
          ensures init[j].0.Id != last
        {
          assert init[j] == xs[j];
        }
      }
    }
  }

  /** The ids below `n`. */
  function Upto(n: nat): (r: set<nat>)
    ensures |r| == n && forall i: nat :: i in r <==> i < n
  {
    if n == 0 then {} else Upto(n - 1) + {n - 1}
  }

  /** As many distinct handles as players, each a player's: every player
    * has an entry. */
  lemma {:induction false} EveryPlayerHasInput<I>(c: TestCfg<I>, t: Test<I>)
    requires TestWf(c, t) && |t.LocalInputs| == c.NumPlayers
    ensures forall i: nat :: i < c.NumPlayers ==> HasKey(t.LocalInputs, PlayerHandle(i))
  {
    var xs := t.LocalInputs;
    IdsCount(xs);
    var all := Upto(c.NumPlayers);
    assert IdsOf(xs) <= all;
    var rest := all - IdsOf(xs);
    assert all == IdsOf(xs) + rest && IdsOf(xs) * rest == {};
    assert rest == {};
    forall i: nat | i < c.NumPlayers
      ensures HasKey(xs, PlayerHandle(i))
    {
      assert i in IdsOf(xs);
      var j :| 0 <= j < |xs| && xs[j].0.Id == i;
      assert xs[j].0 == PlayerHandle(i);
    }
  }

  /** The end of a call moves the frame by one and asks for it last, after
    * a save of the frame it left when checking; it confirms the frame
    * `CheckDistance` back, catches every dummy status up to the new frame,
    * and clears the inputs.  It goes on only with an input from every
    * player. */
  lemma {:induction false} FinishedMeaning<I>(c: TestCfg<I>, t: Test<I>)
    requires TestWf(c, t)
    ensures var (r, t1) := Finished(c, t);
      (|t.LocalInputs| != c.NumPlayers ==> r == Err(InvalidOperation)) &&
      (r.Ok? ==>
         (forall i: nat :: i < c.NumPlayers ==> HasKey(t.LocalInputs, PlayerHandle(i))) &&
         t1.Layer.Current == Plus(t.Layer.Current, 1) && t1.LocalInputs == [] &&
         t1.Layer.LastConfirmed == Minus(t1.Layer.Current, c.CheckDistance) &&
         (forall i :: 0 <= i < c.NumPlayers ==> t1.Status[i].LastFrame == t1.Layer.Current) &&
         |r.value| == (if c.CheckDistance > 0 then 2 else 1) && r.value[|r.value| - 1].AdvanceFrame? &&
         (c.CheckDistance > 0 ==> r.value[0].SaveGameState? && r.value[0].save.Frame == t.Layer.Current))
  {
    if |t.LocalInputs| == c.NumPlayers {
      EveryPlayerHasInput(c, t);
    }
  }

  /** A call is refused after the check when some player gave no input,
    * and, when it checks, whenever a frame of the window is inconsistent. */
  lemma {:induction false} AdvanceRefused<I>(c: TestCfg<I>, t: Test<I>)
    requires TestWf(c, t)
    ensures var (o, _, _) := RolledBack(c, t);
      o.Pass? && |t.LocalInputs| != c.NumPlayers ==> TestAdvanced(c, t).0 == Err(InvalidOperation)
    ensures var current := t.Layer.Current;
      var r := RangeChecked(c, t, Minus(current, c.CheckDistance), c.CheckDistance + 1).0;
      Checks(c, current) && r.Ok? && |r.value| > 0 ==> TestAdvanced(c, t).0 == Err(InvalidOperation)
  {
    var (o, reqs1, t1) := RolledBack(c, t);
    if o.Pass? && |t.LocalInputs| != c.NumPlayers {
      assert Finished(c, t1).0 == Err(InvalidOperation);
    }
    var current := t.Layer.Current;
    var r := RangeChecked(c, t, Minus(current, c.CheckDistance), c.CheckDistance + 1).0;
    if Checks(c, current) && r.Ok? && |r.value| > 0 {
      assert o == Fail(InvalidOperation);
    }
  }

  /** The check part keeps the frame and the confirmed frame; without a
    * check it asks for nothing, with one it asks to load the frame
    * `CheckDistance` back and then for the advances over the window, with
    * a save before each but the first. */
  lemma {:induction false} RolledBackMeaning<I>(c: TestCfg<I>, t: Test<I>)
    requires TestWf(c, t)
    ensures var (o, reqs, t1) := RolledBack(c, t);
      var cur := t.Layer.Current;
      o.Pass? ==>
        t1.Layer.Current == cur && t1.Layer.LastConfirmed == t.Layer.LastConfirmed &&
        (!Checks(c, cur) ==> reqs == []) &&
        (Checks(c, cur) ==>
           |reqs| == 2 * c.CheckDistance && reqs[0].LoadGameState? &&
           reqs[0].load.Frame == Minus(cur, c.CheckDistance) && P2PSessions.Alternating(reqs[1..]))
  {
    if Checks(c, t.Layer.Current) {
      var (m, hist) := RangeChecked(c, t, Minus(t.Layer.Current, c.CheckDistance), c.CheckDistance + 1);
      AdjustedMeaning(c, t.(History := hist), Minus(t.Layer.Current, c.CheckDistance));
    }
  }

  /** What a successful call asks for: without a check one advance, after
    * a save when `CheckDistance` is positive; with a check first the load
    * of the frame `CheckDistance` back and the advances over the window,
    * with a save before each but the first, then the save of the frame and
    * its advance.  The frame moves by one, the frame `CheckDistance` back
    * is confirmed, and every dummy status is at the new frame. */
  lemma {:induction false} AdvancedMeaning<I>(c: TestCfg<I>, t: Test<I>)
    requires TestWf(c, t)
    ensures var (r, t1) := TestAdvanced(c, t);
      var cur := t.Layer.Current;
      r.Ok? ==>
        var reqs := r.value;
        (forall i: nat :: i < c.NumPlayers ==> HasKey(t.LocalInputs, PlayerHandle(i))) &&
        t1.Layer.Current == Plus(cur, 1) && t1.LocalInputs == [] &&
        t1.Layer.LastConfirmed == Minus(t1.Layer.Current, c.CheckDistance) &&
        (forall i :: 0 <= i < c.NumPlayers ==> t1.Status[i].LastFrame == t1.Layer.Current) &&
        reqs[|reqs| - 1].AdvanceFrame? &&
        (c.CheckDistance > 0 ==> reqs[|reqs| - 2].SaveGameState? && reqs[|reqs| - 2].save.Frame == cur) &&
        (!Checks(c, cur) ==> |reqs| == (if c.CheckDistance > 0 then 2 else 1)) &&
        (Checks(c, cur) ==>
           |reqs| == 2 * c.CheckDistance + 2 && reqs[0].LoadGameState? &&
           reqs[0].load.Frame == Minus(cur, c.CheckDistance) &&
           P2PSessions.Alternating(reqs[1..]))
  {
    var (o, reqs1, t1) := RolledBack(c, t);
    if o.Pass? {
      RolledBackMeaning(c, t);
      FinishedMeaning(c, t1);
      var (r, t2) := Finished(c, t1);
      if r.Ok? {
        assert TestAdvanced(c, t) == (Ok(reqs1 + r.value), t2);
        RequestsJoined(reqs1, r.value, c.CheckDistance, Checks(c, t.Layer.Current), t.Layer.Current);
        assert t1.LocalInputs == t.LocalInputs;
      }
    }
  }

  /** The requests of the check part followed by those of the end. */
  lemma {:induction false} RequestsJoined<I>(reqs1: seq<RollbackRequest<I>>, reqs2: seq<RollbackRequest<I>>, cd: nat, checks: bool, cur: Frame)
    requires !checks ==> reqs1 == []
    requires checks ==>
      cd > 0 && |reqs1| == 2 * cd && reqs1[0].LoadGameState? &&
      reqs1[0].load.Frame == Minus(cur, cd) && P2PSessions.Alternating(reqs1[1..])
    requires |reqs2| == (if cd > 0 then 2 else 1) && reqs2[|reqs2| - 1].AdvanceFrame?
    requires cd > 0 ==> reqs2[0].SaveGameState? && reqs2[0].save.Frame == cur
    ensures var reqs := reqs1 + reqs2;
      reqs[|reqs| - 1].AdvanceFrame? &&
      (cd > 0 ==> reqs[|reqs| - 2].SaveGameState? && reqs[|reqs| - 2].save.Frame == cur) &&
      (!checks ==> |reqs| == (if cd > 0 then 2 else 1)) &&
      (checks ==>
         |reqs| == 2 * cd + 2 && reqs[0].LoadGameState? &&
         reqs[0].load.Frame == Minus(cur, cd) &&
         P2PSessions.Alternating(reqs[1..]))
  {
    var all := reqs1 + reqs2;
    if checks {
      assert all[1..] == reqs1[1..] + reqs2;
      P2PSessions.AlternatingAppend(reqs1[1..], reqs2);
    }
  }

  /** Once a lookup fails, the later frames of the range are not checked. */
  lemma {:induction false} RangeCheckedSticks<I>(c: TestCfg<I>, t: Test<I>, from: Frame, i: nat, count: nat)
    requires TestWf(c, t) && i <= count && RangeChecked(c, t, from, i).0.Err?
    ensures RangeChecked(c, t, from, count) == RangeChecked(c, t, from, i)
    decreases count
  {
    if i < count {
      RangeCheckedSticks(c, t, from, i, count - 1);
    }
  }

  // ----- The session object -----

  /** `SyncTestSession`: its sync layer, its dummy connection statuses, its
    * checksum history and its pending local inputs. */
  class SyncTestSession<I(==)> {
    const numPlayers: nat
    const maxPrediction: nat
    const checkDistance: nat
    const blank: I
    const sync: SyncLayer<I>
    const dummyConnectStatus: array<ConnectionStatus>
    var checksumHistory: map<Frame, nat>
    var localInputs: seq<(PlayerHandle, PlayerInput<I>)>

    function Config(): TestCfg<I>
    {
      TestCfg(numPlayers, maxPrediction, checkDistance, blank)
    }

    ghost function Snapshot(): Test<I>
      reads this, sync, sync.cells, dummyConnectStatus
    {
      Test(sync.Snapshot(), dummyConnectStatus[..], checksumHistory, localInputs)
    }

    ghost predicate Valid()
      reads this, sync, sync.cells, dummyConnectStatus
    {
      sync.Valid() && sync.numPlayers == numPlayers && sync.maxPrediction == maxPrediction && sync.blank == blank &&
      TestWf(Config(), Snapshot())
    }

    constructor (numPlayers: nat, maxPrediction: nat, checkDistance: nat, inputDelay: nat, blank: I)
      ensures Valid() && Config() == TestCfg(numPlayers, maxPrediction, checkDistance, blank)
      ensures Snapshot() == Started(Config(), inputDelay)
      ensures fresh(sync) && fresh(dummyConnectStatus)
    {
      var st := new ConnectionStatus[numPlayers](_ => Messages.DEFAULT_STATUS);
      for i := 0 to numPlayers
        invariant forall j :: 0 <= j < i ==> st[j] == Messages.DEFAULT_STATUS
      {
        st[i] := Messages.DEFAULT_STATUS;
      }
      var layer := new SyncLayer<I>(numPlayers, maxPrediction, blank);
      ghost var l0 := layer.Snapshot();
      for i := 0 to numPlayers
        invariant layer.Valid() && layer.Snapshot() == l0.(Queues := layer.queues)
        invariant forall j :: 0 <= j < i ==> layer.queues[j] == DelaySet(l0.Queues[j], inputDelay)
        invariant forall j :: i <= j < numPlayers ==> layer.queues[j] == l0.Queues[j]
        invariant forall j :: 0 <= j < numPlayers ==> st[j] == Messages.DEFAULT_STATUS
      {
        var _ := layer.SetFrameDelay(PlayerHandle(i), inputDelay);
      }
      this.numPlayers, this.maxPrediction, this.checkDistance, this.blank := numPlayers, maxPrediction, checkDistance, blank;
      sync, dummyConnectStatus := layer, st;
      checksumHistory, localInputs := map[], [];
      new;
      assert st[..] == seq(numPlayers, _ => Messages.DEFAULT_STATUS);
      assert layer.queues == seq(numPlayers, i requires 0 <= i < numPlayers => DelaySet(l0.Queues[i], inputDelay));
    }

    /** `AddLocalInput`. */
    method AddLocalInput(handle: PlayerHandle, input: I) returns (o: Outcome)
      requires Valid()
      modifies this
      ensures Valid() && (o, Snapshot()) == LocalInputStored(Config(), old(Snapshot()), handle, input)
    {
      if handle.Id >= numPlayers {
        return Fail(InvalidOperation);
      }
      localInputs := Assigned(localInputs, handle, PlayerInput(sync.CurrentFrame(), input));
      o := Pass;
    }

    /** `ChecksumsConsistent`: the keys older than the window are collected
      * and then removed, before the lookup. */
    method ChecksumsConsistent(frameToCheck: Frame) returns (r: Result<bool>)
      requires Valid()
      modifies this
      ensures Valid() && Snapshot() == old(Snapshot()).(History := checksumHistory)
      ensures (r, checksumHistory) == ChecksumChecked(Config(), old(Snapshot()), frameToCheck)
    {
      var oldest := Minus(sync.CurrentFrame(), checkDistance);
      var keys := checksumHistory.Keys;
      var toRemove: set<Frame> := {};
      while keys != {}
        invariant keys <= checksumHistory.Keys
        invariant forall f :: f in checksumHistory && f !in keys ==> (f in toRemove <==> Less(f, oldest))
        invariant toRemove <= checksumHistory.Keys && toRemove !! keys
        decreases keys
      {
        var f :| f in keys;
        if Less(f, oldest) {
          toRemove := toRemove + {f};
        }
        keys := keys - {f};
      }
      checksumHistory := checksumHistory - toRemove;
      assert checksumHistory == Pruned(old(checksumHistory), oldest);
      var cell := sync.SavedStateByFrame(frameToCheck);
      if cell.Err? {
        return if cell.failure == InvalidOperation then Ok(true) else Err(cell.failure);
      }
      var f := cell.value.State.Frame;
      if f in checksumHistory {
        return Ok(checksumHistory[f] == cell.value.State.Checksum);
      }
      checksumHistory := checksumHistory[f := cell.value.State.Checksum];
      r := Ok(true);
    }

    /** `AdvanceFrame`'s loop over the `count` frames from `from`, collecting
      * the inconsistent ones. */
    method CheckRange(from: Frame, count: nat) returns (r: Result<seq<Frame>>)
      requires Valid()
      modifies this
      ensures Valid() && Snapshot() == old(Snapshot()).(History := checksumHistory)
      ensures (r, checksumHistory) == RangeChecked(Config(), old(Snapshot()), from, count)
    {
      ghost var t0 := Snapshot();
      var mismatched: seq<Frame> := [];
      for i := 0 to count
        invariant Valid() && Snapshot() == t0.(History := checksumHistory)
        invariant (Ok(mismatched), checksumHistory) == RangeChecked(Config(), t0, from, i)
      {
        var ok := ChecksumsConsistent(Plus(from, i));
        if ok.Err? {
          RangeCheckedSticks(Config(), t0, from, i + 1, count);
          return Err(ok.failure);
        }
        if !ok.value {
          mismatched := mismatched + [Plus(from, i)];
        }
      }
      r := Ok(mismatched);
    }

    /** One iteration of `AdjustGameState`'s loop. */
    method ResimulateStep(i: nat) returns (o: Outcome, reqs: seq<RollbackRequest<I>>)
      requires Valid()
      modifies sync
      ensures Valid() && Snapshot() == old(Snapshot()).(Layer := sync.Snapshot())
      ensures (o, reqs, sync.Snapshot()) ==
              P2PSessions.ResimStep(Replay(Config()), dummyConnectStatus[..], NULL_FRAME, old(sync.Snapshot()), i)
    {
      var inputs := sync.SynchronizedInputs(dummyConnectStatus[..]);
      if inputs.Err? {
        return Fail(inputs.failure), [];
      }
      reqs := [];
      if i > 0 {
        var save := sync.SaveCurrentState();
        reqs := [save];
      }
      sync.AdvanceFrame();
      reqs := reqs + [RollbackRequest.AdvanceFrame(AdvanceFrameBody(inputs.value))];
      o := Pass;
    }

    /** `AdjustGameState`'s loop: `count` frames simulated again. */
    method Resimulate(count: nat) returns (o: Outcome, reqs: seq<RollbackRequest<I>>)
      requires Valid()
      modifies sync
      ensures Valid() && Snapshot() == old(Snapshot()).(Layer := sync.Snapshot())
      ensures (o, reqs, sync.Snapshot()) ==
              P2PSessions.Resimulated(Replay(Config()), dummyConnectStatus[..], NULL_FRAME, old(sync.Snapshot()), count)
    {
      ghost var l0 := sync.Snapshot();
      o, reqs := Pass, [];
      for i := 0 to count
        invariant Valid() && Snapshot() == old(Snapshot()).(Layer := sync.Snapshot())
        invariant (Pass, reqs, sync.Snapshot()) ==
                  P2PSessions.Resimulated(Replay(Config()), dummyConnectStatus[..], NULL_FRAME, l0, i)
      {
        var o2, reqs2 := ResimulateStep(i);
        reqs := reqs + reqs2;
        if o2.Fail? {
          P2PSessions.ResimFailureSticks(Replay(Config()), dummyConnectStatus[..], NULL_FRAME, l0, i + 1, count);
          return o2, reqs;
        }
      }
    }

    /** `AdjustGameState(frameTo)`. */
    method AdjustGameState(frameTo: Frame) returns (o: Outcome, reqs: seq<RollbackRequest<I>>)
      requires Valid()
      modifies sync
      ensures Valid() && (o, reqs, Snapshot()) == Adjusted(Config(), old(Snapshot()), frameTo)
    {
      var start := sync.CurrentFrame();
      LoadedKeepsWf(sync.Snapshot(), numPlayers, maxPrediction, frameTo);
      var load := sync.LoadFrame(frameTo);
      if load.Err? {
        return Fail(load.failure), [];
      }
      sync.ResetPrediction();
      var rest;
      o, rest := Resimulate(Diff(start, frameTo));
      reqs := [load.value] + rest;
    }

    /** The check part of `AdvanceFrame`. */
    method RollBack() returns (o: Outcome, reqs: seq<RollbackRequest<I>>)
      requires Valid()
      modifies this, sync
      ensures Valid() && (o, reqs, Snapshot()) == RolledBack(Config(), old(Snapshot()))
    {
      var current := sync.CurrentFrame();
      if !(checkDistance > 0 && Greater(current, Frame(checkDistance))) {
        return Pass, [];
      }
      var mismatched := CheckRange(Minus(current, checkDistance), checkDistance + 1);
      if mismatched.Err? {
        return Fail(mismatched.failure), [];
      }
      if |mismatched.value| > 0 {
        return Fail(InvalidOperation), [];
      }
      o, reqs := AdjustGameState(Minus(sync.CurrentFrame(), checkDistance));
    }

    /** The foreach over the local inputs, handing each to the sync layer. */
    method FeedLocalInputs() returns (o: Outcome)
      requires Valid()
      modifies sync
      ensures Valid() && Snapshot() == old(Snapshot()).(Layer := sync.Snapshot())
      ensures (o, sync.Snapshot()) == LocalInputsFed(old(sync.Snapshot()), localInputs)
    {
      o := FeedInputs(sync, localInputs);
    }

    /** The loop catching every dummy status up to `frame`. */
    method CatchUp(frame: Frame)
      requires Valid()
      modifies dummyConnectStatus
      ensures Valid() && Snapshot() == old(Snapshot()).(Status := CaughtUp(old(dummyConnectStatus[..]), frame))
    {
      for i := 0 to dummyConnectStatus.Length
        invariant forall j :: 0 <= j < i ==> dummyConnectStatus[j] == old(dummyConnectStatus[j]).(LastFrame := frame)
        invariant forall j :: i <= j < dummyConnectStatus.Length ==> dummyConnectStatus[j] == old(dummyConnectStatus[j])
      {
        dummyConnectStatus[i] := dummyConnectStatus[i].(LastFrame := frame);
      }
      assert dummyConnectStatus[..] == CaughtUp(old(dummyConnectStatus[..]), frame);
    }

    /** The save, the collected inputs and the advance of `AdvanceFrame`. */
    method Step() returns (r: Result<seq<RollbackRequest<I>>>)
      requires Valid()
      modifies sync
      ensures Valid() && Snapshot() == old(Snapshot()).(Layer := sync.Snapshot())
      ensures var l := old(sync.Snapshot());
        var (saves, l2) := if checkDistance > 0 then ([CurrentSaved(l).0], CurrentSaved(l).1) else ([], l);
        var (inputs, l3) := SyncedInputs(l2, dummyConnectStatus[..], blank);
        if inputs.Err? then r == Err(inputs.failure) && sync.Snapshot() == l3
        else r == Ok(saves + [RollbackRequest.AdvanceFrame(AdvanceFrameBody(inputs.value))]) &&
             sync.Snapshot() == FrameAdvanced(l3)
    {
      var saves := [];
      if checkDistance > 0 {
        var save := sync.SaveCurrentState();
        saves := [save];
      }
      var inputs := sync.SynchronizedInputs(dummyConnectStatus[..]);
      if inputs.Err? {
        return Err(inputs.failure);
      }
      r := Ok(saves + [RollbackRequest.AdvanceFrame(AdvanceFrameBody(inputs.value))]);
      sync.AdvanceFrame();
    }

    /** The rest of `AdvanceFrame`, after the check part. */
    method Finish() returns (r: Result<seq<RollbackRequest<I>>>)
      requires Valid()
      modifies this, sync, dummyConnectStatus
      ensures Valid() && (r, Snapshot()) == Finished(Config(), old(Snapshot()))
    {
      if numPlayers != |localInputs| {
        return Err(InvalidOperation);
      }
      var o := FeedLocalInputs();
      if o.Fail? {
        return Err(o.failure);
      }
      localInputs := [];
      r := Step();
      if r.Err? {
        return;
      }
      var o5 := sync.SetLastConfirmedFrame(Minus(sync.CurrentFrame(), checkDistance), false);
      if o5.Fail? {
        return Err(o5.failure);
      }
      CatchUp(sync.CurrentFrame());
    }

    /** `AdvanceFrame`. */
    method AdvanceFrame() returns (r: Result<seq<RollbackRequest<I>>>)
      requires Valid()
      modifies this, sync, dummyConnectStatus
      ensures Valid() && (r, Snapshot()) == TestAdvanced(Config(), old(Snapshot()))
    {
      var o, reqs := RollBack();
      if o.Fail? {
        return Err(o.failure);
      }
      r := Finish();
      if r.Ok? {
        r := Ok(reqs + r.value);
      }
    }
  }

  /** The loop of `FeedLocalInputs` on the layer alone. */
  method FeedInputs<I(==)>(layer: SyncLayer<I>, xs: seq<(PlayerHandle, PlayerInput<I>)>) returns (o: Outcome)
    requires layer.Valid()
    modifies layer
    ensures layer.Valid() && (o, layer.Snapshot()) == LocalInputsFed(old(layer.Snapshot()), xs)
  {
    ghost var l0 := layer.Snapshot();
    for j := 0 to |xs|
      invariant layer.Valid() && (Pass, layer.Snapshot()) == LocalInputsFed(l0, xs[..j])
    {
      FedStep(l0, xs, j, layer.Snapshot());
      var f := layer.AddLocalInput(xs[j].0, xs[j].1);
      if f.Err? {
        LocalInputsFedSticks(l0, xs, j + 1);
        return Fail(f.failure);
      }
    }
    assert xs[..|xs|] == xs;
    o := Pass;
  }

  lemma {:induction false} FedStep<I>(l0: Layer<I>, xs: seq<(PlayerHandle, PlayerInput<I>)>, j: nat, l1: Layer<I>)
    requires AllBounded(l0.Queues) && j < |xs| && LocalInputsFed(l0, xs[..j]) == (Pass, l1)
    ensures var (f, l2) := LocalInputAdded(l1, xs[j].0, xs[j].1);
      LocalInputsFed(l0, xs[..j + 1]) == (if f.Err? then Fail(f.failure) else Pass, l2)
  {
    assert xs[..j + 1][..j] == xs[..j];
  }
}
