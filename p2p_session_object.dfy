/** The peer-to-peer session as an object: `P2PSession`'s fields, its sync
  * layer and its connection statuses, with each method proved against the
  * step functions of `P2PSessions`. */
module P2PSessionObjects {
  import opened Bytes
  import opened Frames
  import opened Outcomes
  import opened Rollback
  import opened SessionConstants
  import opened SyncLayers
  import opened PlayerRegistries
  import opened P2PSessions
  import InputQueues
  import Messages
  import Builders

  class P2PSession<I(==), A(==)> {
    const numPlayers: nat
    const maxPrediction: nat
    const sparseSaving: bool
    const handles: seq<(PlayerHandle, PlayerType<A>)>
    const blank: I
    const sync: SyncLayer<I>
    const localConnectStatus: array<ConnectionStatus>
    var remotes: seq<Peer<A>>
    var spectators: seq<Peer<A>>
    var state: SessionState
    var disconnectFrame: Frame
    var nextSpectatorFrame: Frame
    var nextRecommendedSleep: Frame
    var framesAhead: int
    var eventQueue: seq<RollbackEvent<A>>
    var localInputs: map<PlayerHandle, PlayerInput<I>>

    function Context(): Ctx<I, A>
    {
      Ctx(numPlayers, maxPrediction, sparseSaving, handles, blank)
    }

    ghost function Snapshot(): Sess<I, A>
      reads this, sync, sync.cells, localConnectStatus
    {
      Sess(sync.Snapshot(), remotes, spectators, state, localConnectStatus[..], disconnectFrame,
           nextSpectatorFrame, nextRecommendedSleep, framesAhead, eventQueue, localInputs)
    }

    ghost predicate Valid()
      reads this, sync, sync.cells, localConnectStatus
    {
      sync.Valid() && sync.numPlayers == numPlayers && sync.maxPrediction == maxPrediction && sync.blank == blank &&
      SessWf(Context(), Snapshot())
    }

    constructor (args: Builders.P2PSessionArgs<A>, blank: I)
      requires RegistryWf(args.Registry, args.NumPlayers)
      ensures Valid() && (Context(), Snapshot()) == Started(args, blank)
      ensures fresh(sync) && fresh(localConnectStatus)
    {
      var n := args.NumPlayers;
      var st := new ConnectionStatus[n](_ => Messages.DEFAULT_STATUS);
      for i := 0 to n
        invariant forall j :: 0 <= j < i ==> st[j] == Messages.DEFAULT_STATUS
      {
        st[i] := Messages.DEFAULT_STATUS;
      }
      var layer := new SyncLayer<I>(n, args.MaxPrediction, blank);
      SetDelays(layer, args.Registry, n, args.InputDelay);
      numPlayers, maxPrediction, this.blank, handles := n, args.MaxPrediction, blank, args.Registry.Handles;
      sparseSaving := if args.MaxPrediction == 0 && args.SparseSaving then false else args.SparseSaving;
      sync, localConnectStatus := layer, st;
      remotes, spectators := args.Registry.Remotes, args.Registry.Spectators;
      state := if |args.Registry.Remotes| + |args.Registry.Spectators| == 0 then Running else Synchronizing;
      nextRecommendedSleep, nextSpectatorFrame, framesAhead, disconnectFrame := FIRST_FRAME, FIRST_FRAME, 0, NULL_FRAME;
      eventQueue, localInputs := [], map[];
      new;
      assert st[..] == seq(n, _ => Messages.DEFAULT_STATUS);
    }

    /** `AddLocalInput`. */
    method AddLocalInput(handle: PlayerHandle, input: I) returns (o: Outcome)
      requires Valid()
      modifies this
      ensures Valid() && (o, Snapshot()) == LocalInputStored(Context(), old(Snapshot()), handle, input)
    {
      if !IsLocal(handles, handle) {
        return Fail(InvalidOperation);
      }
      localInputs := localInputs[handle := PlayerInput(sync.CurrentFrame(), input)];
      o := Pass;
    }

    /** `DrainEvents`: the queued events from the front, leaving none. */
    method DrainEvents() returns (events: seq<RollbackEvent<A>>)
      requires Valid()
      modifies this
      ensures Valid() && events == old(eventQueue) && Snapshot() == old(Snapshot()).(Events := [])
    {
      events := [];
      var queue := eventQueue;
      while |queue| > 0
        invariant events + queue == old(eventQueue)
        decreases |queue|
      {
        events := events + [queue[0]];
        queue := queue[1..];
      }
      eventQueue := queue;
    }

    /** `ConfirmedFrame`. */
    method ConfirmedFrame() returns (r: Result<Frame>)
      requires Valid()
      ensures r == ConfirmedFrameOf(localConnectStatus[..])
    {
      var confirmed := INFINITY;
      for i := 0 to localConnectStatus.Length
        invariant confirmed == ConfirmedMin(localConnectStatus[..], i)
      {
        if !localConnectStatus[i].Disconnected {
          confirmed := Min(confirmed, localConnectStatus[i].LastFrame);
        }
      }
      assert localConnectStatus.Length == |localConnectStatus[..]|;
      if confirmed.No < INT_MAX {
        r := Ok(confirmed);
      } else {
        r := Err(AssertionFailed);
      }
    }

    /** `MaxFrameAdvantage`. */
    method MaxFrameAdvantage() returns (r: int)
      requires Valid()
      ensures r == P2PSessions.MaxFrameAdvantage(remotes, localConnectStatus[..])
    {
      ghost var st := localConnectStatus[..];
      var interval := INT_MIN;
      for k := 0 to |remotes|
        invariant PeersWf(remotes[..k], |st|) && interval == RawAdvantage(remotes[..k], st)
      {
        var p := remotes[k];
        assert remotes[..k + 1][..k] == remotes[..k];
        ghost var start := interval;
        for i := 0 to |p.Handles|
          invariant interval == HandlesMax(p.Handles[..i], st, p.Advantage, start)
        {
          assert p.Handles[..i + 1][..i] == p.Handles[..i];
          if !localConnectStatus[p.Handles[i].Id].Disconnected {
            interval := IntMax(interval, p.Advantage);
          }
        }
        assert p.Handles[..|p.Handles|] == p.Handles;
      }
      assert remotes[..|remotes|] == remotes;
      r := if interval == INT_MIN then 0 else interval;
    }

    /** `CheckWaitRecommmendation`. */
    method CheckWaitRecommendation()
      requires Valid()
      modifies this
      ensures Valid() && Snapshot() == WaitChecked(Context(), old(Snapshot()))
    {
      var ahead := MaxFrameAdvantage();
      framesAhead := ahead;
      if Greater(sync.CurrentFrame(), nextRecommendedSleep) && ahead >= MIN_RECOMMENDATION {
        nextRecommendedSleep, eventQueue := Plus(sync.CurrentFrame(), RECOMMENDATION_INTERVAL),
                                            eventQueue + [EvWaitRecommendation(WaitRecommendationBody(ahead))];
      }
    }

    /** `CheckInitialSync`. */
    method CheckInitialSync()
      requires Valid()
      modifies this
      ensures Valid() && Snapshot() == InitialSyncChecked(old(Snapshot()))
    {
      if state != Synchronizing {
        return;
      }
      for i := 0 to |remotes|
        invariant AllSynchronized(remotes[..i])
      {
        if !remotes[i].IsSynchronized() {
          return;
        }
      }
      for i := 0 to |spectators|
        invariant AllSynchronized(spectators[..i])
      {
        if !spectators[i].IsSynchronized() {
          return;
        }
      }
      assert remotes[..|remotes|] == remotes && spectators[..|spectators|] == spectators;
      state := Running;
    }

    /** The `Remote` case of `DisconnectPlayerAtFrame`. */
    method DisconnectRemote(k: nat, lastFrame: Frame)
      requires Valid() && k < |remotes|
      modifies this, localConnectStatus
      ensures Valid() && Snapshot() == RemoteDisconnected(Context(), old(Snapshot()), k, lastFrame)
    {
      var p := remotes[k];
      assert forall j :: 0 <= j < |p.Handles| ==> p.Handles[j].Id < localConnectStatus.Length;
      MarkDisconnected(localConnectStatus, p.Handles);
      PeersKeepWf(Context(), old(Snapshot()), remotes[k := PeerDisconnected(p)], spectators);
      remotes := remotes[k := PeerDisconnected(p)];
      if Greater(sync.CurrentFrame(), lastFrame) {
        disconnectFrame := Plus(lastFrame, 1);
      }
    }

    /** The `Spectator` case of `DisconnectPlayerAtFrame`. */
    method DisconnectSpectator(k: nat)
      requires Valid() && k < |spectators|
      modifies this
      ensures Valid() && Snapshot() == old(Snapshot()).(Spectators := old(spectators)[k := PeerDisconnected(old(spectators)[k])])
    {
      PeersKeepWf(Context(), Snapshot(), remotes, spectators[k := PeerDisconnected(spectators[k])]);
      spectators := spectators[k := PeerDisconnected(spectators[k])];
    }

    /** `DisconnectPlayerAtFrame`. */
    method DisconnectPlayerAtFrame(handle: PlayerHandle, lastFrame: Frame)
      requires Valid()
      modifies this, localConnectStatus
      ensures Valid() && Snapshot() == DisconnectedAtFrame(Context(), old(Snapshot()), handle, lastFrame)
    {
      var t := TypeOf(handles, handle);
      if t.Some? && t.value.Kind.Remote? {
        Lookup(Context(), Snapshot(), handle);
        DisconnectRemote(PeerIndex(remotes, t.value.Address).value, lastFrame);
      } else if t.Some? && t.value.Kind.Spectator? {
        Lookup(Context(), Snapshot(), handle);
        DisconnectSpectator(PeerIndex(spectators, t.value.Address).value);
      }
      CheckInitialSync();
    }

    /** `DisconnectPlayer`. */
    method DisconnectPlayer(handle: PlayerHandle) returns (o: Outcome)
      requires Valid()
      modifies this, localConnectStatus
      ensures Valid() && (o, Snapshot()) == PlayerDisconnected(Context(), old(Snapshot()), handle)
    {
      var t := TypeOf(handles, handle);
      if t.None? {
        return Fail(InvalidOperation);
      }
      Lookup(Context(), Snapshot(), handle);
      match t.value.Kind
      case Local =>
        return Fail(InvalidOperation);
      case Remote =>
        if !localConnectStatus[handle.Id].Disconnected {
          DisconnectPlayerAtFrame(handle, localConnectStatus[handle.Id].LastFrame);
          return Pass;
        }
        return Fail(InvalidOperation);
      case Spectator =>
        DisconnectPlayerAtFrame(handle, NULL_FRAME);
        return Fail(InvalidOperation);
    }

    /** The trimming loop at the end of `HandleEvent`. */
    method TrimEvents()
      requires Valid()
      modifies this
      ensures Valid() && Snapshot() == old(Snapshot()).(Events := Trimmed(old(eventQueue)))
    {
      var queue := eventQueue;
      while |queue| > MAX_EVENT_QUEUE_SIZE
        invariant queue == old(eventQueue)[|old(eventQueue)| - |queue|..]
        invariant |queue| >= |Trimmed(old(eventQueue))|
        decreases |queue|
      {
        queue := queue[1..];
      }
      eventQueue := queue;
    }

    /** The `Input` case of `HandleEvent`. */
    method NoteInput(data: PlayerInput<I>, player: PlayerHandle) returns (o: Outcome)
      requires Valid()
      modifies this, sync, localConnectStatus
      ensures Valid() && (o, Snapshot()) == InputNoted(Context(), old(Snapshot()), data, player)
    {
      if player.Id >= numPlayers {
        return Fail(AssertionFailed);
      }
      if !localConnectStatus[player.Id].Disconnected {
        var last := localConnectStatus[player.Id].LastFrame;
        if !(last == NULL_FRAME || Plus(last, 1) == data.Frame) {
          return Fail(AssertionFailed);
        }
        localConnectStatus[player.Id] := localConnectStatus[player.Id].(LastFrame := data.Frame);
        var res := sync.AddRemoteInput(player, data);
        if res.Err? {
          return Fail(res.failure);
        }
      }
      o := Pass;
    }

    /** The `Disconnected` case of `HandleEvent`: its loop over the handles. */
    method DisconnectAll(hs: seq<PlayerHandle>)
      requires Valid()
      modifies this, localConnectStatus
      ensures Valid() && Snapshot() == AllDisconnected(Context(), old(Snapshot()), hs)
    {
      ghost var s0 := Snapshot();
      for j := 0 to |hs|
        invariant Valid() && Snapshot() == AllDisconnected(Context(), s0, hs[..j])
      {
        AllDisconnectedStep(Context(), s0, hs, j);
        var h := hs[j];
        var lastFrame := if h.Id < numPlayers then localConnectStatus[h.Id].LastFrame else NULL_FRAME;
        DisconnectPlayerAtFrame(h, lastFrame);
      }
      assert hs[..|hs|] == hs;
    }

    /** A session event goes to the back of the queue, which the trimming
      * loop then cuts down. */
    method QueueEvent(ev: RollbackEvent<A>)
      requires Valid()
      modifies this
      ensures Valid() && Snapshot() == Pushed(old(Snapshot()), ev)
    {
      eventQueue := eventQueue + [ev];
      TrimEvents();
    }

    /** `HandleEvent`. */
    method HandleEvent(e: Report<I, A>) returns (o: Outcome)
      requires Valid()
      modifies this, sync, localConnectStatus
      ensures Valid() && (o, Snapshot()) == EventHandled(Context(), old(Snapshot()), e)
    {
      ghost var s0 := Snapshot();
      o := Pass;
      match e.Ev
      case Synchronizing(total, count) =>
        QueueEvent(EvSynchronizing(SynchronizingBody(e.Addr, total, count)));
      case NetworkInterrupted(timeout) =>
        QueueEvent(EvNetworkInterrupted(NetworkInterruptedBody(e.Addr, timeout)));
      case NetworkResumed =>
        QueueEvent(EvNetworkResumed(NetworkResumedBody(e.Addr)));
      case Synchronized =>
        CheckInitialSync();
        ghost var s1 := Snapshot();
        assert s1 == InitialSyncChecked(s0);
        QueueEvent(EvSynchronized(SynchronizedBody(e.Addr)));
      case Disconnected =>
        DisconnectAll(e.Handles);
        ghost var s1 := Snapshot();
        assert s1 == AllDisconnected(Context(), s0, e.Handles);
        QueueEvent(EvDisconnected(DisconnectedBody(e.Addr)));
      case Input(data, player) =>
        o := NoteInput(data, player);
        ghost var s1 := Snapshot();
        assert (o, s1) == InputNoted(Context(), s0, data, player);
        if o.Pass? {
          TrimEvents();
        }
    }

    /** `PollRemoteClients`: the endpoints after the messages are received
      * and polled, and what their polls returned. */
    method PollRemoteClients(newRemotes: seq<Peer<A>>, newSpectators: seq<Peer<A>>, reports: seq<Report<I, A>>)
      returns (o: Outcome)
      requires Valid() && PollFits(Context(), Snapshot(), newRemotes, newSpectators)
      modifies this, sync, localConnectStatus
      ensures Valid() && (o, Snapshot()) == Polled(Context(), old(Snapshot()), newRemotes, newSpectators, reports)
    {
      PeersKeepWf(Context(), Snapshot(), newRemotes, newSpectators);
      remotes, spectators := newRemotes, newSpectators;
      ghost var s0 := Snapshot();
      assert Polled(Context(), old(Snapshot()), newRemotes, newSpectators, reports) == EventsHandled(Context(), s0, reports);
      o := Pass;
      for i := 0 to |reports|
        invariant Valid() && o.Pass? && (o, Snapshot()) == EventsHandled(Context(), s0, reports[..i])
      {
        EventsStep(Context(), s0, reports, i);
        o := HandleEvent(reports[i]);
        if o.Fail? {
          EventsFailureSticks(Context(), s0, reports, i + 1);
          return;
        }
      }
      assert reports[..|reports|] == reports;
    }

    /** One iteration of `AdjustGameState`'s loop. */
    method ResimulateStep(minConfirmed: Frame, i: nat) returns (o: Outcome, reqs: seq<RollbackRequest<I>>)
      requires Valid()
      modifies sync
      ensures Valid() && Snapshot() == old(Snapshot()).(Layer := sync.Snapshot())
      ensures (o, reqs, sync.Snapshot()) == ResimStep(Context(), localConnectStatus[..], minConfirmed, old(sync.Snapshot()), i)
    {
      var inputs := sync.SynchronizedInputs(localConnectStatus[..]);
      if inputs.Err? {
        return Fail(inputs.failure), [];
      }
      reqs := [];
      if (sparseSaving && sync.CurrentFrame() == minConfirmed) || (!sparseSaving && i > 0) {
        var save := sync.SaveCurrentState();
        reqs := [save];
      }
      sync.AdvanceFrame();
      reqs := reqs + [RollbackRequest.AdvanceFrame(AdvanceFrameBody(inputs.value))];
      o := Pass;
    }

    /** `AdjustGameState`'s loop: `count` frames simulated again. */
    method Resimulate(minConfirmed: Frame, count: nat) returns (o: Outcome, reqs: seq<RollbackRequest<I>>)
      requires Valid()
      modifies sync
      ensures Valid() && Snapshot() == old(Snapshot()).(Layer := sync.Snapshot())
      ensures (o, reqs, sync.Snapshot()) == Resimulated(Context(), localConnectStatus[..], minConfirmed, old(sync.Snapshot()), count)
    {
      ghost var l0 := sync.Snapshot();
      o, reqs := Pass, [];
      for i := 0 to count
        invariant Valid() && Snapshot() == old(Snapshot()).(Layer := sync.Snapshot())
        invariant (Pass, reqs, sync.Snapshot()) == Resimulated(Context(), localConnectStatus[..], minConfirmed, l0, i)
      {
        var o2, reqs2 := ResimulateStep(minConfirmed, i);
        reqs := reqs + reqs2;
        if o2.Fail? {
          ResimFailureSticks(Context(), localConnectStatus[..], minConfirmed, l0, i + 1, count);
          return o2, reqs;
        }
      }
    }

    /** `AdjustGameState`. */
    method AdjustGameState(firstIncorrect: Frame, minConfirmed: Frame) returns (o: Outcome, reqs: seq<RollbackRequest<I>>)
      requires Valid()
      modifies sync
      ensures Valid() && (o, reqs, Snapshot()) == GameStateAdjusted(Context(), old(Snapshot()), firstIncorrect, minConfirmed)
    {
      var current := sync.CurrentFrame();
      var toLoad := if sparseSaving then sync.LastSavedFrame() else firstIncorrect;
      if !LessEq(toLoad, firstIncorrect) {
        return Fail(AssertionFailed), [];
      }
      LoadedKeepsWf(sync.Snapshot(), numPlayers, maxPrediction, toLoad);
      var load := sync.LoadFrame(toLoad);
      if load.Err? {
        return Fail(load.failure), [];
      }
      sync.ResetPrediction();
      var rest;
      o, rest := Resimulate(minConfirmed, Diff(current, toLoad));
      reqs := [load.value] + rest;
    }

    /** `SendConfirmedInputsToSpectators`: the lookups, their checks and
      * the assertion of each running spectator endpoint's `SendInput`; what
      * the endpoints queue and send is not part of their views. */
    method SendConfirmedInputsToSpectators(confirmed: Frame) returns (o: Outcome)
      requires Valid()
      modifies this
      ensures Valid() && (o, Snapshot()) == SpectatorsServed(Context(), old(Snapshot()), confirmed)
    {
      if |HandlesOf(handles, Spectator)| == 0 {
        return Pass;
      }
      while LessEq(nextSpectatorFrame, confirmed)
        invariant Valid() && Snapshot() == old(Snapshot()).(NextSpectatorFrame := nextSpectatorFrame)
        invariant Served(Context(), Snapshot(), confirmed) == Served(Context(), old(Snapshot()), confirmed)
        decreases confirmed.No - nextSpectatorFrame.No + 1
      {
        var inputs := sync.ConfirmedInputs(nextSpectatorFrame, localConnectStatus[..]);
        if inputs.Err? {
          return Fail(inputs.failure);
        }
        if |inputs.value| != numPlayers {
          return Fail(AssertionFailed);
        }
        for i := 0 to |inputs.value|
          invariant forall j :: 0 <= j < i ==> inputs.value[j].Frame == NULL_FRAME || inputs.value[j].Frame == nextSpectatorFrame
        {
          if !(inputs.value[i].Frame == NULL_FRAME || inputs.value[i].Frame == nextSpectatorFrame) {
            return Fail(AssertionFailed);
          }
        }
        var sent := SendInputs(spectators, |inputs.value|);
        if sent.Fail? {
          return sent;
        }
        nextSpectatorFrame := Plus(nextSpectatorFrame, 1);
      }
      o := Pass;
    }

    /** `CheckLastSavedState`. */
    method CheckLastSavedState(lastSaved: Frame, confirmed: Frame) returns (o: Outcome, reqs: seq<RollbackRequest<I>>)
      requires Valid()
      modifies sync
      ensures Valid() && (o, reqs, Snapshot()) == LastSavedChecked(Context(), old(Snapshot()), lastSaved, confirmed)
    {
      if Diff(sync.CurrentFrame(), lastSaved) < maxPrediction {
        return Pass, [];
      }
      if GreaterEq(confirmed, sync.CurrentFrame()) {
        var save := sync.SaveCurrentState();
        reqs := [save];
      } else {
        o, reqs := AdjustGameState(lastSaved, confirmed);
        if o.Fail? {
          return;
        }
      }
      if !(confirmed == NULL_FRAME || sync.LastSavedFrame() == Min(confirmed, sync.CurrentFrame())) {
        return Fail(AssertionFailed), reqs;
      }
      o := Pass;
    }

    /** The first part of `AdvanceFrame`: the first frame saved unless in
      * lockstep, the disconnects brought up to date, and the confirmed
      * frame taken. */
    method Begin() returns (confirmed: Result<Frame>, reqs: seq<RollbackRequest<I>>)
      requires Valid()
      modifies this, sync, localConnectStatus
      ensures Valid() && (confirmed, reqs, Snapshot()) == Begun(Context(), old(Snapshot()))
    {
      reqs := [];
      if sync.CurrentFrame() == FIRST_FRAME && maxPrediction != 0 {
        var save := sync.SaveCurrentState();
        reqs := [save];
      }
      UpdatePlayerDisconnects();
      confirmed := ConfirmedFrame();
    }

    /** The save after any rollback: in sparse mode `CheckLastSavedState`,
      * otherwise a save of the current frame, after `reqs`. */
    method SaveAfterRollback(confirmed: Frame, reqs: seq<RollbackRequest<I>>) returns (o: Outcome, reqs': seq<RollbackRequest<I>>)
      requires Valid()
      modifies sync
      ensures Valid() && (o, reqs', Snapshot()) == SaveDone(Context(), old(Snapshot()), confirmed, reqs)
    {
      if sparseSaving {
        var more;
        o, more := CheckLastSavedState(sync.LastSavedFrame(), confirmed);
        reqs' := reqs + more;
      } else {
        var save := sync.SaveCurrentState();
        o, reqs' := Pass, reqs + [save];
      }
    }

    /** The rollback part of `AdvanceFrame` outside lockstep. */
    method Correct(confirmed: Frame) returns (o: Outcome, reqs: seq<RollbackRequest<I>>)
      requires Valid()
      modifies this, sync
      ensures Valid() && (o, reqs, Snapshot()) == Corrected(Context(), old(Snapshot()), confirmed)
    {
      var firstIncorrect := sync.CheckSimulationConsistency(disconnectFrame);
      reqs := [];
      if firstIncorrect != NULL_FRAME {
        o, reqs := AdjustGameState(firstIncorrect, confirmed);
        if o.Fail? {
          return;
        }
        disconnectFrame := NULL_FRAME;
      }
      o, reqs := SaveAfterRollback(confirmed, reqs);
    }

    /** The middle of `AdvanceFrame`, from the rollback to the wait
      * recommendation. */
    method Roll(confirmed: Frame) returns (o: Outcome, reqs: seq<RollbackRequest<I>>)
      requires Valid()
      modifies this, sync
      ensures Valid() && (o, reqs, Snapshot()) == Rolled(Context(), old(Snapshot()), confirmed)
    {
      reqs := [];
      if maxPrediction != 0 {
        o, reqs := Correct(confirmed);
        if o.Fail? {
          return;
        }
      }
      o := SendConfirmedInputsToSpectators(confirmed);
      if o.Fail? {
        return;
      }
      ghost var s2 := Snapshot();
      ConfirmedFrameSetMeaning(sync.Snapshot(), confirmed, sparseSaving);
      o := sync.SetLastConfirmedFrame(confirmed, sparseSaving);
      if o.Fail? {
        return;
      }
      CheckWaitRecommendation();
    }

    /** One handle of `AdvanceFrame`'s local-input loop. */
    method CommitLocalInput(h: PlayerHandle) returns (o: Outcome)
      requires Valid() && h.Id < numPlayers
      modifies this, sync, localConnectStatus
      ensures Valid() && (o, Snapshot()) == OneLocalInput(Context(), old(Snapshot()), h)
    {
      if h !in localInputs {
        return Fail(KeyNotFound);
      }
      var actual := sync.AddLocalInput(h, localInputs[h]);
      if actual.Err? {
        return Fail(actual.failure);
      }
      localInputs := localInputs[h := localInputs[h].(Frame := actual.value)];
      if actual.value != NULL_FRAME {
        localConnectStatus[h.Id] := localConnectStatus[h.Id].(LastFrame := actual.value);
      }
      o := Pass;
    }

    /** `AdvanceFrame`'s loop over the local handles, each input handed to
      * the sync layer. */
    method CommitLocalInputs() returns (o: Outcome)
      requires Valid()
      modifies this, sync, localConnectStatus
      ensures Valid() && (o, Snapshot()) == LocalInputsCommitted(Context(), old(Snapshot()))
    {
      var hs := HandlesOf(handles, Local);
      LocalIdsBelow(Context(), Snapshot());
      ghost var s0 := Snapshot();
      assert LocalInputsCommitted(Context(), s0) == LocalInputsAdded(Context(), s0, hs);
      o := Pass;
      for j := 0 to |hs|
        invariant Valid() && (o, Snapshot()) == LocalInputsAdded(Context(), s0, hs[..j]) && o == Pass
      {
        LocalInputsStep(Context(), s0, hs, j);
        o := CommitLocalInput(hs[j]);
        if o.Fail? {
          LocalInputsFailureSticks(Context(), s0, hs, j + 1);
          return;
        }
      }
      assert hs[..|hs|] == hs;
    }

    /** The end of `AdvanceFrame`: the advance, when the session may. */
    method Step() returns (o: Outcome, reqs: seq<RollbackRequest<I>>)
      requires Valid()
      modifies this, sync
      ensures Valid() && (o, reqs, Snapshot()) == Stepped(Context(), old(Snapshot()))
    {
      var canAdvance := sync.LastConfirmedFrame() == sync.CurrentFrame();
      if maxPrediction != 0 {
        var ahead := if sync.LastConfirmedFrame() == NULL_FRAME then sync.CurrentFrame().No
                     else Diff(sync.CurrentFrame(), sync.LastConfirmedFrame());
        canAdvance := ahead < maxPrediction;
      }
      if !canAdvance {
        return Pass, [];
      }
      var inputs := sync.SynchronizedInputs(localConnectStatus[..]);
      if inputs.Err? {
        return Fail(inputs.failure), [];
      }
      sync.AdvanceFrame();
      localInputs := map[];
      o, reqs := Pass, [RollbackRequest.AdvanceFrame(AdvanceFrameBody(inputs.value))];
    }

    /** `AdvanceFrame` up to the advance. */
    method Prepare() returns (o: Outcome, reqs: seq<RollbackRequest<I>>)
      requires Valid()
      modifies this, sync, localConnectStatus
      ensures Valid() && (o, reqs, Snapshot()) == Prepared(Context(), old(Snapshot()))
    {
      var confirmed;
      confirmed, reqs := Begin();
      if confirmed.Err? {
        return Fail(confirmed.failure), reqs;
      }
      var more;
      o, more := Roll(confirmed.value);
      reqs := reqs + more;
      if o.Fail? {
        return;
      }
      o := CommitLocalInputs();
    }

    /** The sends of `AdvanceFrame` after the local inputs: unless some
      * local input was dropped, `SendInput` and `SendAllMessages` on every
      * remote endpoint. */
    method SendLocalInputs() returns (o: Outcome)
      requires Valid()
      ensures o == LocalInputsSent(Snapshot())
    {
      if exists h :: h in localInputs && localInputs[h].Frame == NULL_FRAME {
        return Pass;
      }
      o := SendInputs(remotes, |localInputs|);
    }

    /** `AdvanceFrame` after its checks. */
    method Commit() returns (r: Result<seq<RollbackRequest<I>>>)
      requires Valid()
      modifies this, sync, localConnectStatus
      ensures Valid() && (r, Snapshot()) == Committed(Context(), old(Snapshot()))
    {
      var o1, reqs1 := Prepare();
      if o1.Fail? {
        return Err(o1.failure);
      }
      var sent := SendLocalInputs();
      if sent.Fail? {
        return Err(sent.failure);
      }
      var o2, reqs2 := Step();
      if o2.Fail? {
        return Err(o2.failure);
      }
      r := Ok(reqs1 + reqs2);
    }

    /** `AdvanceFrame`: with the endpoints as polling leaves them and what
      * their polls returned. */
    method AdvanceFrame(newRemotes: seq<Peer<A>>, newSpectators: seq<Peer<A>>, reports: seq<Report<I, A>>)
      returns (r: Result<seq<RollbackRequest<I>>>)
      requires Valid() && PollFits(Context(), Snapshot(), newRemotes, newSpectators)
      modifies this, sync, localConnectStatus
      ensures Valid() && (r, Snapshot()) == AdvancedFrame(Context(), old(Snapshot()), newRemotes, newSpectators, reports)
    {
      ghost var s0 := Snapshot();
      var o := PollRemoteClients(newRemotes, newSpectators, reports);
      ghost var s1 := Snapshot();
      assert (o, s1) == Polled(Context(), s0, newRemotes, newSpectators, reports);
      if o.Fail? {
        return Err(o.failure);
      }
      if !state.Running? {
        return Err(InvalidOperation);
      }
      var complete := LocalInputsComplete();
      if !complete {
        return Err(InvalidOperation);
      }
      assert AdvancedFrame(Context(), s0, newRemotes, newSpectators, reports) == Committed(Context(), s1);
      r := Commit();
    }

    /** The check, in `AdvanceFrame`, that every local player has an input. */
    method LocalInputsComplete() returns (complete: bool)
      requires Valid()
      ensures complete <==> InputsComplete(Context(), Snapshot())
    {
      var hs := HandlesOf(handles, Local);
      for j := 0 to |hs|
        invariant forall k :: 0 <= k < j ==> hs[k] in localInputs
      {
        if hs[j] !in localInputs {
          return false;
        }
      }
      return true;
    }

    /** `UpdatePlayerDisconnects`. */
    method UpdatePlayerDisconnects()
      requires Valid()
      modifies this, localConnectStatus
      ensures Valid() && Snapshot() == PlayerDisconnectsUpdated(Context(), old(Snapshot()), numPlayers)
    {
      for i := 0 to numPlayers
        invariant Valid() && Snapshot() == PlayerDisconnectsUpdated(Context(), old(Snapshot()), i)
      {
        var queueConnected, queueMin := QueueOf(i);
        var localConnected := !localConnectStatus[i].Disconnected;
        var localMin := localConnectStatus[i].LastFrame;
        if localConnected {
          queueMin := Min(queueMin, localMin);
        }
        if !queueConnected && (localConnected || Greater(localMin, queueMin)) {
          DisconnectPlayerAtFrame(PlayerHandle(i), queueMin);
        }
      }
    }

    /** The inner loop of `UpdatePlayerDisconnects` for player `i`. */
    method QueueOf(i: nat) returns (connected: bool, least: Frame)
      requires Valid() && i < numPlayers
      ensures (connected, least) == QueueView(remotes, i)
    {
      connected, least := true, INFINITY;
      for k := 0 to |remotes|
        invariant (connected, least) == QueueView(remotes[..k], i)
      {
        assert remotes[..k + 1][..k] == remotes[..k];
        var ep := remotes[k];
        if ep.IsRunning() {
          var status := ep.PeerStatus[i];
          connected := connected && !status.Disconnected;
          least := Min(least, status.LastFrame);
        }
      }
      assert remotes[..|remotes|] == remotes;
    }
  }

  /** The constructor's loop over the registry's handles: each local
    * player's queue gets the input delay. */
  method SetDelays<I(==), A(==)>(layer: SyncLayer<I>, reg: Registry<A>, n: nat, delay: nat)
    requires layer.Valid() && layer.numPlayers == n && RegistryWf(reg, n)
    modifies layer
    ensures layer.Valid()
    ensures forall j :: 0 <= j < |HandlesOf(reg.Handles, Local)| ==> HandlesOf(reg.Handles, Local)[j].Id < n
    ensures layer.Snapshot() == old(layer.Snapshot()).(Queues := DelaysSet(old(layer.queues), HandlesOf(reg.Handles, Local), delay))
  {
    assert forall i :: 0 <= i < |reg.Handles| && reg.Handles[i].1.Kind == Local ==> reg.Handles[i].0.Id < n;
    DelaysSetIn(layer, reg.Handles, delay);
  }

  /** `SendInput` with `count` inputs to each endpoint in turn, stopping
    * at the first whose assertion fails. */
  method SendInputs<A>(peers: seq<Peer<A>>, count: nat) returns (o: Outcome)
    ensures o == InputsSent(peers, count)
  {
    for i := 0 to |peers|
      invariant forall j :: 0 <= j < i ==> TakesInputs(peers[j], count)
    {
      if peers[i].IsRunning() && peers[i].LocalPlayers != count {
        return Fail(AssertionFailed);
      }
    }
    return Pass;
  }

  /** The loop of `DisconnectPlayerAtFrame` over an endpoint's handles:
    * each of their players is marked disconnected. */
  method MarkDisconnected(st: array<ConnectionStatus>, hs: seq<PlayerHandle>)
    requires forall j :: 0 <= j < |hs| ==> hs[j].Id < st.Length
    modifies st
    ensures st[..] == MarkedDisconnected(old(st[..]), hs)
  {
    for j := 0 to |hs|
      invariant st[..] == MarkedDisconnected(old(st[..]), hs[..j])
    {
      assert hs[..j + 1][..j] == hs[..j];
      var id := hs[j].Id;
      st[id] := st[id].(Disconnected := true);
    }
    assert hs[..|hs|] == hs;
  }

  method DelaysSetIn<I(==), A>(layer: SyncLayer<I>, hs: seq<(PlayerHandle, PlayerType<A>)>, delay: nat)
    requires layer.Valid()
    requires forall i :: 0 <= i < |hs| && hs[i].1.Kind == Local ==> hs[i].0.Id < layer.numPlayers
    modifies layer
    ensures layer.Valid()
    ensures forall j :: 0 <= j < |HandlesOf(hs, Local)| ==> HandlesOf(hs, Local)[j].Id < layer.numPlayers
    ensures layer.Snapshot() == old(layer.Snapshot()).(Queues := DelaysSet(old(layer.queues), HandlesOf(hs, Local), delay))
  {
    ghost var qs := layer.queues;
    ghost var s0 := layer.Snapshot();
    for k := 0 to |hs|
      invariant layer.Valid() && layer.numPlayers == |qs|
      invariant forall j :: 0 <= j < |HandlesOf(hs[..k], Local)| ==> HandlesOf(hs[..k], Local)[j].Id < |qs|
      invariant layer.Snapshot() == s0.(Queues := DelaysSet(qs, HandlesOf(hs[..k], Local), delay))
    {
      DelaysStep(qs, hs, k, delay);
      if hs[k].1.Kind == Local {
        var _ := layer.SetFrameDelay(hs[k].0, delay);
      }
    }
    assert hs[..|hs|] == hs;
  }

  /** One more handle of the registry extends the delayed queues by one step. */
  lemma {:induction false} DelaysStep<I, A>(qs: seq<InputQueues.Queue<I>>, hs: seq<(PlayerHandle, PlayerType<A>)>, k: nat, delay: nat)
    requires k < |hs| && (hs[k].1.Kind == Local ==> hs[k].0.Id < |qs|)
    requires forall j :: 0 <= j < |HandlesOf(hs[..k], Local)| ==> HandlesOf(hs[..k], Local)[j].Id < |qs|
    ensures var l1 := HandlesOf(hs[..k + 1], Local); forall j :: 0 <= j < |l1| ==> l1[j].Id < |qs|
    ensures var r := DelaysSet(qs, HandlesOf(hs[..k], Local), delay);
      DelaysSet(qs, HandlesOf(hs[..k + 1], Local), delay) ==
        (if hs[k].1.Kind == Local then r[hs[k].0.Id := InputQueues.DelaySet(r[hs[k].0.Id], delay)] else r)
  {
    assert hs[..k + 1][..k] == hs[..k];
    var l := HandlesOf(hs[..k], Local);
    if hs[k].1.Kind == Local {
      var l1 := HandlesOf(hs[..k + 1], Local);
      assert l1 == l + [hs[k].0];
      assert l1[..|l1| - 1] == l;
    }
  }
}
