/** `P2PSession<TState, TInput, TAddress>`: a peer-to-peer rollback session.
  * It feeds its local players' inputs and what its endpoints report into a
  * sync layer, decides when to roll back, and hands the game the requests
  * to save, load and advance.  Its endpoints are seen through `Peer`
  * views; what they receive and send is outside the model. */
module P2PSessions {
  import opened Bytes
  import opened Frames
  import opened Outcomes
  import opened Rollback
  import opened SessionConstants
  import opened InputQueues
  import opened SyncLayers
  import opened PlayerRegistries
  import ModArith
  import Messages
  import UdpProtocols
  import Builders

  type ConnectionStatus = Messages.ConnectionStatus

  const MIN_RECOMMENDATION: nat := 3
  const RECOMMENDATION_INTERVAL: nat := 60

  /** What a session fixes at construction: `_numPlayers`,
    * `_maxPrediction`, `_sparseSaving`, the registry's handles, and the
    * blank input its sync layer was built with. */
  datatype Ctx<I, A> = Ctx(NumPlayers: nat, MaxPrediction: nat, SparseSaving: bool,
                           Handles: seq<(PlayerHandle, PlayerType<A>)>, Blank: I)

  /** The fields a session changes.  `Remotes` and `Spectators` are the
    * registry's endpoints in insertion order, `Status` is
    * `_localConnectStatus`, `NextSleep` is `_nextRecommendedSleep` and
    * `Events` is `_eventQueue` from front to back. */
  datatype Sess<I, A> = Sess(Layer: Layer<I>, Remotes: seq<Peer<A>>, Spectators: seq<Peer<A>>,
                             State: SessionState, Status: seq<ConnectionStatus>, DisconnectFrame: Frame,
                             NextSpectatorFrame: Frame, NextSleep: Frame, FramesAhead: int,
                             Events: seq<RollbackEvent<A>>, LocalInputs: map<PlayerHandle, PlayerInput<I>>)

  /** What every operation keeps: a well-formed layer of the session's
    * sizes, a status per player, and a well-formed registry. */
  ghost predicate SessWf<I, A>(c: Ctx<I, A>, s: Sess<I, A>)
  {
    LayerWf(s.Layer, c.NumPlayers, c.MaxPrediction) && |s.Status| == c.NumPlayers &&
    RegistryWf(Registry(c.Handles, s.Remotes, s.Spectators), c.NumPlayers)
  }

  /** What the registry guarantees of a registered handle: its id tells its
    * kind, and a remote or spectator one has an endpoint. */
  lemma {:induction false} Lookup<I, A>(c: Ctx<I, A>, s: Sess<I, A>, h: PlayerHandle)
    requires SessWf(c, s) && TypeOf(c.Handles, h).Some?
    ensures var t := TypeOf(c.Handles, h).value;
      (t.Kind.Spectator? <==> h.Id >= c.NumPlayers) &&
      (t.Kind.Remote? ==> PeerIndex(s.Remotes, t.Address).Some?) &&
      (t.Kind.Spectator? ==> PeerIndex(s.Spectators, t.Address).Some?)
  {
    var i :| 0 <= i < |c.Handles| && c.Handles[i] == (h, TypeOf(c.Handles, h).value);
  }

  /** Endpoints that keep their links and their peer statuses' size keep
    * the session well formed. */
  lemma {:induction false} PeersKeepWf<I, A>(c: Ctx<I, A>, s: Sess<I, A>, remotes: seq<Peer<A>>, spectators: seq<Peer<A>>)
    requires SessWf(c, s) && SameLinks(s.Remotes, remotes) && SameLinks(s.Spectators, spectators)
    requires forall i :: 0 <= i < |remotes| ==> |remotes[i].PeerStatus| == c.NumPlayers
    ensures SessWf(c, s.(Remotes := remotes, Spectators := spectators))
  {
    RelinkedWf(Registry(c.Handles, s.Remotes, s.Spectators), remotes, spectators, c.NumPlayers);
  }

  // ----- ConfirmedFrame -----

  /** The least last frame of the connected players among the first `n`,
    * starting from `int.MaxValue`. */
  function ConfirmedMin(st: seq<ConnectionStatus>, n: nat): Frame
    requires n <= |st|
  {
    if n == 0 then INFINITY
    else
      var m := ConfirmedMin(st, n - 1);
      if st[n - 1].Disconnected then m else Min(m, st[n - 1].LastFrame)
  }

  /** It is the minimum of `int.MaxValue` and those frames. */
  lemma {:induction false} ConfirmedMinIsMin(st: seq<ConnectionStatus>, n: nat)
    requires n <= |st|
    ensures var m := ConfirmedMin(st, n);
      m.No <= INT_MAX &&
      (forall j :: 0 <= j < n && !st[j].Disconnected ==> m.No <= st[j].LastFrame.No) &&
      (m == INFINITY || exists j :: 0 <= j < n && !st[j].Disconnected && m == st[j].LastFrame)
  {
    if n > 0 {
      ConfirmedMinIsMin(st, n - 1);
    }
  }

  /** `ConfirmedFrame`: the minimum, asserted to lie below `int.MaxValue`. */
  function ConfirmedFrameOf(st: seq<ConnectionStatus>): Result<Frame>
  {
    var m := ConfirmedMin(st, |st|);
    if m.No < INT_MAX then Ok(m) else Err(AssertionFailed)
  }

  /** The confirmed frame exists exactly when some connected player's last
    * frame lies below `int.MaxValue`, and it is then the least last frame
    * of a connected player. */
  lemma {:induction false} ConfirmedFrameMeaning(st: seq<ConnectionStatus>)
    ensures var r := ConfirmedFrameOf(st);
      (r.Ok? <==> exists j :: 0 <= j < |st| && !st[j].Disconnected && st[j].LastFrame.No < INT_MAX) &&
      (r.Ok? ==> (forall j :: 0 <= j < |st| && !st[j].Disconnected ==> r.value.No <= st[j].LastFrame.No) &&
                 exists j :: 0 <= j < |st| && !st[j].Disconnected && r.value == st[j].LastFrame) &&
      (r.Err? ==> r.failure == AssertionFailed)
  {
    ConfirmedMinIsMin(st, |st|);
  }

  // ----- MaxFrameAdvantage -----

  /** `Math.Max`. */
  function IntMax(a: int, b: int): int
  {
    if a < b then b else a
  }

  /** The inner loop: `acc` raised to `adv` for each handle whose player is
    * still connected. */
  function HandlesMax(hs: seq<PlayerHandle>, st: seq<ConnectionStatus>, adv: int, acc: int): int
    requires forall j :: 0 <= j < |hs| ==> hs[j].Id < |st|
  {
    if hs == [] then acc
    else
      var m := HandlesMax(hs[..|hs| - 1], st, adv, acc);
      if st[hs[|hs| - 1].Id].Disconnected then m else IntMax(m, adv)
  }

  /** An endpoint one of whose players is still connected. */
  predicate Connected<A>(p: Peer<A>, st: seq<ConnectionStatus>)
  {
    exists j :: 0 <= j < |p.Handles| && p.Handles[j].Id < |st| && !st[p.Handles[j].Id].Disconnected
  }

  lemma {:induction false} HandlesMaxMeaning(hs: seq<PlayerHandle>, st: seq<ConnectionStatus>, adv: int, acc: int)
    requires forall j :: 0 <= j < |hs| ==> hs[j].Id < |st|
    ensures HandlesMax(hs, st, adv, acc) ==
            if exists j :: 0 <= j < |hs| && !st[hs[j].Id].Disconnected then IntMax(acc, adv) else acc
    decreases |hs|
  {
    if hs != [] {
      var init := hs[..|hs| - 1];
      HandlesMaxMeaning(init, st, adv, acc);
      assert forall j :: 0 <= j < |init| ==> init[j] == hs[j];
      if exists j :: 0 <= j < |hs| && !st[hs[j].Id].Disconnected {
        var j :| 0 <= j < |hs| && !st[hs[j].Id].Disconnected;
        if j < |init| {
          assert !st[init[j].Id].Disconnected;
        }
      }
    }
  }

  /** The outer loop over the remote endpoints, from `int.MinValue`. */
  function RawAdvantage<A>(remotes: seq<Peer<A>>, st: seq<ConnectionStatus>): int
    requires PeersWf(remotes, |st|)
  {
    if remotes == [] then INT_MIN
    else
      var p := remotes[|remotes| - 1];
      HandlesMax(p.Handles, st, p.Advantage, RawAdvantage(remotes[..|remotes| - 1], st))
  }

  /** It is the maximum of `int.MinValue` and the advantages of the
    * endpoints with a connected player. */
  lemma {:induction false} RawAdvantageIsMax<A>(remotes: seq<Peer<A>>, st: seq<ConnectionStatus>)
    requires PeersWf(remotes, |st|)
    ensures var m := RawAdvantage(remotes, st);
      m >= INT_MIN &&
      (forall i :: 0 <= i < |remotes| && Connected(remotes[i], st) ==> remotes[i].Advantage <= m) &&
      (m == INT_MIN || exists i :: 0 <= i < |remotes| && Connected(remotes[i], st) && m == remotes[i].Advantage)
    decreases |remotes|
  {
    if remotes != [] {
      var init := remotes[..|remotes| - 1];
      var p := remotes[|remotes| - 1];
      assert forall i :: 0 <= i < |init| ==> init[i] == remotes[i];
      RawAdvantageIsMax(init, st);
      HandlesMaxMeaning(p.Handles, st, p.Advantage, RawAdvantage(init, st));
      var m := RawAdvantage(remotes, st);
      if m != INT_MIN && m != RawAdvantage(init, st) {
        assert Connected(remotes[|remotes| - 1], st);
      } else if m != INT_MIN {
        var i :| 0 <= i < |init| && Connected(init[i], st) && m == init[i].Advantage;
        assert Connected(remotes[i], st);
      }
    }
  }

  /** `MaxFrameAdvantage`: the maximum, or 0 when it stayed at
    * `int.MinValue`. */
  function MaxFrameAdvantage<A>(remotes: seq<Peer<A>>, st: seq<ConnectionStatus>): int
    requires PeersWf(remotes, |st|)
  {
    var m := RawAdvantage(remotes, st);
    if m == INT_MIN then 0 else m
  }

  /** The advantage is 0 when no endpoint with a connected player is ahead
    * of `int.MinValue`, and otherwise the greatest advantage of such an
    * endpoint. */
  lemma {:induction false} MaxAdvantageMeaning<A>(remotes: seq<Peer<A>>, st: seq<ConnectionStatus>)
    requires PeersWf(remotes, |st|)
    ensures var r := MaxFrameAdvantage(remotes, st);
      ((forall i :: 0 <= i < |remotes| && Connected(remotes[i], st) ==> remotes[i].Advantage <= INT_MIN) ==> r == 0) &&
      ((exists i :: 0 <= i < |remotes| && Connected(remotes[i], st) && remotes[i].Advantage > INT_MIN) ==>
         (forall i :: 0 <= i < |remotes| && Connected(remotes[i], st) ==> remotes[i].Advantage <= r) &&
         exists i :: 0 <= i < |remotes| && Connected(remotes[i], st) && r == remotes[i].Advantage)
  {
    RawAdvantageIsMax(remotes, st);
  }

  // ----- Disconnection -----

  predicate AllSynchronized<A>(peers: seq<Peer<A>>)
  {
    forall i :: 0 <= i < |peers| ==> peers[i].IsSynchronized()
  }

  /** `CheckInitialSync`: a synchronizing session starts running once
    * every endpoint's handshake is over; a running one stays running. */
  function InitialSyncChecked<I, A>(s: Sess<I, A>): (r: Sess<I, A>)
    ensures r == s.(State := r.State)
    ensures r.State.Running? <==> s.State.Running? || (AllSynchronized(s.Remotes) && AllSynchronized(s.Spectators))
  {
    if s.State.Synchronizing? && AllSynchronized(s.Remotes) && AllSynchronized(s.Spectators)
    then s.(State := Running) else s
  }

  /** What disconnecting may change: the statuses, the endpoints' states,
    * the disconnect frame and the session state. */
  ghost predicate DisconnectOnly<I, A>(s: Sess<I, A>, r: Sess<I, A>)
  {
    r == s.(Status := r.Status, Remotes := r.Remotes, Spectators := r.Spectators,
            DisconnectFrame := r.DisconnectFrame, State := r.State)
  }

  /** The statuses with every listed player marked disconnected; their last
    * frames stay. */
  function MarkedDisconnected(st: seq<ConnectionStatus>, hs: seq<PlayerHandle>): (r: seq<ConnectionStatus>)
    requires forall j :: 0 <= j < |hs| ==> hs[j].Id < |st|
    ensures |r| == |st|
    ensures forall i :: 0 <= i < |st| ==> r[i].LastFrame == st[i].LastFrame
    ensures forall i :: 0 <= i < |st| ==> (r[i].Disconnected <==> st[i].Disconnected || exists j :: 0 <= j < |hs| && hs[j].Id == i)
  {
    if hs == [] then st
    else
      var init := hs[..|hs| - 1];
      var r := MarkedDisconnected(st, init);
      var id := hs[|hs| - 1].Id;
      assert forall j :: 0 <= j < |init| ==> init[j] == hs[j];
      r[id := r[id].(Disconnected := true)]
  }

  /** The `Remote` case of `DisconnectPlayerAtFrame` for the endpoint at
    * `k`: its players are marked disconnected, it disconnects, and a
    * `lastFrame` in the past schedules a rollback to the frame after it. */
  function RemoteDisconnected<I, A(==)>(c: Ctx<I, A>, s: Sess<I, A>, k: nat, lastFrame: Frame): (r: Sess<I, A>)
    requires SessWf(c, s) && k < |s.Remotes|
    ensures SessWf(c, r) && DisconnectOnly(s, r)
  {
    var p := s.Remotes[k];
    var remotes := s.Remotes[k := PeerDisconnected(p)];
    PeersKeepWf(c, s, remotes, s.Spectators);
    var s1 := s.(Status := MarkedDisconnected(s.Status, p.Handles), Remotes := remotes);
    if Greater(s.Layer.Current, lastFrame) then s1.(DisconnectFrame := Plus(lastFrame, 1)) else s1
  }

  /** The `Spectator` case of `DisconnectPlayerAtFrame`: the endpoint
    * disconnects. */
  function SpectatorDisconnected<I, A(==)>(c: Ctx<I, A>, s: Sess<I, A>, h: PlayerHandle): (r: Sess<I, A>)
    requires SessWf(c, s) && IsSpectator(c.Handles, h)
    ensures SessWf(c, r) && DisconnectOnly(s, r)
  {
    Lookup(c, s, h);
    var k := PeerIndex(s.Spectators, TypeOf(c.Handles, h).value.Address).value;
    var spectators := s.Spectators[k := PeerDisconnected(s.Spectators[k])];
    PeersKeepWf(c, s, s.Remotes, spectators);
    s.(Spectators := spectators)
  }

  /** `DisconnectPlayerAtFrame`: a remote player's endpoint, or a
    * spectator's, is disconnected, a local or unknown handle changes
    * nothing, and in every case the initial synchronisation is checked
    * again. */
  function DisconnectedAtFrame<I, A(==)>(c: Ctx<I, A>, s: Sess<I, A>, h: PlayerHandle, lastFrame: Frame): (r: Sess<I, A>)
    requires SessWf(c, s)
    ensures SessWf(c, r) && DisconnectOnly(s, r)
  {
    var t := TypeOf(c.Handles, h);
    var s1 :=
      if t.None? || t.value.Kind.Local? then s
      else if t.value.Kind.Remote? then
        Lookup(c, s, h);
        RemoteDisconnected(c, s, PeerIndex(s.Remotes, t.value.Address).value, lastFrame)
      else SpectatorDisconnected(c, s, h);
    InitialSyncChecked(s1)
  }

  /** `DisconnectPlayer`: only a remote player still connected is
    * disconnected without complaint, at its last frame; a spectator is
    * disconnected and the call still fails, because that case falls out of
    * the switch into the final throw. */
  function PlayerDisconnected<I, A(==)>(c: Ctx<I, A>, s: Sess<I, A>, h: PlayerHandle): (r: (Outcome, Sess<I, A>))
    requires SessWf(c, s)
    ensures SessWf(c, r.1)
  {
    match TypeOf(c.Handles, h)
    case None => (Fail(InvalidOperation), s)
    case Some(t) =>
      Lookup(c, s, h);
      if t.Kind.Local? then (Fail(InvalidOperation), s)
      else if t.Kind.Spectator? then (Fail(InvalidOperation), DisconnectedAtFrame(c, s, h, NULL_FRAME))
      else if s.Status[h.Id].Disconnected then (Fail(InvalidOperation), s)
      else (Pass, DisconnectedAtFrame(c, s, h, s.Status[h.Id].LastFrame))
  }

  /** Only a connected remote player can be disconnected; it takes every
    * player of its endpoint with it, the endpoint stops running, and a
    * rollback is scheduled to the frame after the player's last one when
    * that lies in the past.  A spectator's endpoint stops running though
    * the call fails; any other call changes nothing. */
  lemma {:induction false} DisconnectPlayerMeaning<I, A>(c: Ctx<I, A>, s: Sess<I, A>, h: PlayerHandle)
    requires SessWf(c, s)
    ensures var (o, s1) := PlayerDisconnected(c, s, h);
      (o.Pass? <==> IsRemote(c.Handles, h) && h.Id < |s.Status| && !s.Status[h.Id].Disconnected) &&
      (o.Fail? ==> o.failure == InvalidOperation) &&
      (o.Fail? && !IsSpectator(c.Handles, h) ==> s1 == s) &&
      (o.Pass? ==>
         var last := s.Status[h.Id].LastFrame;
         var k := PeerIndex(s.Remotes, TypeOf(c.Handles, h).value.Address);
         k.Some? && !s1.Remotes[k.value].IsRunning() &&
         (forall j :: 0 <= j < |s.Remotes[k.value].Handles| ==> s1.Status[s.Remotes[k.value].Handles[j].Id].Disconnected) &&
         (Greater(s.Layer.Current, last) ==> s1.DisconnectFrame == Plus(last, 1))) &&
      (IsSpectator(c.Handles, h) ==>
         var k := PeerIndex(s.Spectators, TypeOf(c.Handles, h).value.Address);
         k.Some? && !s1.Spectators[k.value].IsRunning())
  {
    if TypeOf(c.Handles, h).Some? {
      Lookup(c, s, h);
    }
  }

  // ----- HandleEvent -----

  /** What one endpoint's poll returned, with the endpoint's handles and
    * address. */
  datatype Report<I, A> = Report(Ev: UdpProtocols.Event<I>, Handles: seq<PlayerHandle>, Addr: A)

  /** The event queue after the trimming loop: its last
    * `MAX_EVENT_QUEUE_SIZE` events. */
  function Trimmed<X>(q: seq<X>): (r: seq<X>)
    ensures |r| == if |q| > MAX_EVENT_QUEUE_SIZE then MAX_EVENT_QUEUE_SIZE else |q|
    ensures r == q[|q| - |r|..]
  {
    if |q| > MAX_EVENT_QUEUE_SIZE then q[|q| - MAX_EVENT_QUEUE_SIZE..] else q
  }

  function Pushed<I, A>(s: Sess<I, A>, ev: RollbackEvent<A>): Sess<I, A>
  {
    s.(Events := Trimmed(s.Events + [ev]))
  }

  /** The `Disconnected` case: each handle is disconnected at its last
    * frame, or at the null frame for an id outside the players. */
  function AllDisconnected<I, A(==)>(c: Ctx<I, A>, s: Sess<I, A>, hs: seq<PlayerHandle>): (r: Sess<I, A>)
    requires SessWf(c, s)
    ensures SessWf(c, r) && DisconnectOnly(s, r)
    decreases |hs|
  {
    if hs == [] then s
    else
      var s1 := AllDisconnected(c, s, hs[..|hs| - 1]);
      var h := hs[|hs| - 1];
      DisconnectedAtFrame(c, s1, h, if h.Id < c.NumPlayers then s1.Status[h.Id].LastFrame else NULL_FRAME)
  }

  /** Disconnecting one more handle extends the fold by one step. */
  lemma {:induction false} AllDisconnectedStep<I, A>(c: Ctx<I, A>, s: Sess<I, A>, hs: seq<PlayerHandle>, j: nat)
    requires SessWf(c, s) && j < |hs|
    ensures var s1 := AllDisconnected(c, s, hs[..j]);
      AllDisconnected(c, s, hs[..j + 1]) ==
      DisconnectedAtFrame(c, s1, hs[j], if hs[j].Id < c.NumPlayers then s1.Status[hs[j].Id].LastFrame else NULL_FRAME)
  {
    assert hs[..j + 1][..j] == hs[..j];
  }

  /** The `Input` case: an input of a connected player must follow its last
    * frame; it becomes the last frame and goes to the player's queue.  An
    * input of a disconnected player is dropped.  The event queue is not
    * touched. */
  function InputNoted<I(==), A>(c: Ctx<I, A>, s: Sess<I, A>, data: PlayerInput<I>, player: PlayerHandle)
    : (r: (Outcome, Sess<I, A>))
    requires SessWf(c, s)
    ensures SessWf(c, r.1) && r.1.Events == s.Events
  {
    if player.Id >= c.NumPlayers then (Fail(AssertionFailed), s)
    else if s.Status[player.Id].Disconnected then (Pass, s)
    else
      var last := s.Status[player.Id].LastFrame;
      if !(last == NULL_FRAME || Plus(last, 1) == data.Frame) then (Fail(AssertionFailed), s)
      else
        var (res, l) := RemoteInputAdded(s.Layer, player, data);
        var s1 := s.(Status := s.Status[player.Id := s.Status[player.Id].(LastFrame := data.Frame)], Layer := l);
        if res.Err? then (Fail(res.failure), s1) else (Pass, s1)
  }

  /** The `Input` case followed, when it passes, by the trimming loop. */
  function InputReceived<I(==), A>(c: Ctx<I, A>, s: Sess<I, A>, data: PlayerInput<I>, player: PlayerHandle)
    : (r: (Outcome, Sess<I, A>))
    requires SessWf(c, s)
    ensures SessWf(c, r.1)
  {
    var (o, s1) := InputNoted(c, s, data, player);
    if o.Fail? then (o, s1) else (o, s1.(Events := Trimmed(s1.Events)))
  }

  /** `HandleEvent`: the endpoint's event becomes a session event, after
    * the initial synchronisation is checked again for `Synchronized` and
    * after its handles are disconnected for `Disconnected`; inputs go to
    * the sync layer. */
  function EventHandled<I(==), A(==)>(c: Ctx<I, A>, s: Sess<I, A>, e: Report<I, A>): (r: (Outcome, Sess<I, A>))
    requires SessWf(c, s)
    ensures SessWf(c, r.1)
  {
    match e.Ev
    case Synchronizing(total, count) => (Pass, Pushed(s, EvSynchronizing(SynchronizingBody(e.Addr, total, count))))
    case NetworkInterrupted(timeout) => (Pass, Pushed(s, EvNetworkInterrupted(NetworkInterruptedBody(e.Addr, timeout))))
    case NetworkResumed => (Pass, Pushed(s, EvNetworkResumed(NetworkResumedBody(e.Addr))))
    case Synchronized => (Pass, Pushed(InitialSyncChecked(s), EvSynchronized(SynchronizedBody(e.Addr))))
    case Disconnected => (Pass, Pushed(AllDisconnected(c, s, e.Handles), EvDisconnected(DisconnectedBody(e.Addr))))
    case Input(data, player) => InputReceived(c, s, data, player)
  }

  /** The session event an endpoint event becomes; inputs become none. */
  function Translated<I, A>(e: Report<I, A>): Option<RollbackEvent<A>>
  {
    match e.Ev
    case Synchronizing(total, count) => Some(EvSynchronizing(SynchronizingBody(e.Addr, total, count)))
    case Synchronized => Some(EvSynchronized(SynchronizedBody(e.Addr)))
    case Disconnected => Some(EvDisconnected(DisconnectedBody(e.Addr)))
    case NetworkInterrupted(timeout) => Some(EvNetworkInterrupted(NetworkInterruptedBody(e.Addr, timeout)))
    case NetworkResumed => Some(EvNetworkResumed(NetworkResumedBody(e.Addr)))
    case Input(_, _) => None
  }

  /** Every event but an input is queued, after which at most
    * `MAX_EVENT_QUEUE_SIZE` events stay, the oldest dropped first; an
    * accepted input leaves at most that many too. */
  lemma {:induction false} EventHandledMeaning<I, A>(c: Ctx<I, A>, s: Sess<I, A>, e: Report<I, A>)
    requires SessWf(c, s)
    ensures var (o, s1) := EventHandled(c, s, e);
      (o.Pass? ==> |s1.Events| <= MAX_EVENT_QUEUE_SIZE) &&
      (!e.Ev.Input? ==> o.Pass? && s1.Events == Trimmed(s.Events + [Translated(e).value]))
  {
  }

  /** An input is accepted exactly when it comes from a player whose last
    * frame it follows or who is disconnected and the queue takes it; a
    * connected player's input becomes its last frame. */
  lemma {:induction false} InputMeaning<I, A>(c: Ctx<I, A>, s: Sess<I, A>, data: PlayerInput<I>, player: PlayerHandle)
    requires SessWf(c, s)
    ensures var (o, s1) := InputReceived(c, s, data, player);
      (player.Id >= c.NumPlayers ==> o == Fail(AssertionFailed) && s1 == s) &&
      (player.Id < c.NumPlayers && s.Status[player.Id].Disconnected ==>
         o.Pass? && s1.Layer == s.Layer && s1.Status == s.Status) &&
      (player.Id < c.NumPlayers && !s.Status[player.Id].Disconnected ==>
         var last := s.Status[player.Id].LastFrame;
         (!(last == NULL_FRAME || data.Frame == Plus(last, 1)) ==> o == Fail(AssertionFailed) && s1 == s) &&
         (last == NULL_FRAME || data.Frame == Plus(last, 1) ==>
            s1.Status == s.Status[player.Id := s.Status[player.Id].(LastFrame := data.Frame)] &&
            (s1.Layer.Queues[player.Id] == Added(s.Layer.Queues[player.Id], data).1) &&
            (o.Pass? <==> Added(s.Layer.Queues[player.Id], data).0.Ok?)))
  {
  }

  /** The events in order, stopping at the first that fails. */
  function EventsHandled<I(==), A(==)>(c: Ctx<I, A>, s: Sess<I, A>, es: seq<Report<I, A>>): (r: (Outcome, Sess<I, A>))
    requires SessWf(c, s)
    ensures SessWf(c, r.1)
    decreases |es|
  {
    if es == [] then (Pass, s)
    else
      var (o, s1) := EventsHandled(c, s, es[..|es| - 1]);
      if o.Fail? then (o, s1) else EventHandled(c, s1, es[|es| - 1])
  }

  /** The event loop after one more report. */
  lemma {:induction false} EventsStep<I, A>(c: Ctx<I, A>, s: Sess<I, A>, es: seq<Report<I, A>>, j: nat)
    requires SessWf(c, s) && j < |es| && EventsHandled(c, s, es[..j]).0.Pass?
    ensures EventsHandled(c, s, es[..j + 1]) == EventHandled(c, EventsHandled(c, s, es[..j]).1, es[j])
  {
    assert es[..j + 1][..j] == es[..j];
  }

  /** Once an event fails, the later ones are not handled. */
  lemma {:induction false} EventsFailureSticks<I, A>(c: Ctx<I, A>, s: Sess<I, A>, es: seq<Report<I, A>>, i: nat)
    requires SessWf(c, s) && i <= |es| && EventsHandled(c, s, es[..i]).0.Fail?
    ensures EventsHandled(c, s, es) == EventsHandled(c, s, es[..i])
    decreases |es| - i
  {
    if i == |es| {
      assert es[..i] == es;
    } else {
      var init := es[..|es| - 1];
      assert init[..i] == es[..i];
      EventsFailureSticks(c, s, init, i);
    }
  }

  /** What polling may do to the endpoints: keep their addresses, handles
    * and numbers of local players, and a peer status per player on the
    * remote ones. */
  predicate PollFits<I, A(==)>(c: Ctx<I, A>, s: Sess<I, A>, remotes: seq<Peer<A>>, spectators: seq<Peer<A>>)
  {
    SameLinks(s.Remotes, remotes) && SameLinks(s.Spectators, spectators) &&
    forall i :: 0 <= i < |remotes| ==> |remotes[i].PeerStatus| == c.NumPlayers
  }

  /** `PollRemoteClients`: `remotes` and `spectators` are the endpoints
    * after they handled the received messages, updated their frame
    * advantage and were polled, and `reports` what those polls returned,
    * remote endpoints first; the session then handles the reports in
    * order.  The closing `SendAllMessages` of every endpoint changes
    * nothing the views show. */
  function Polled<I(==), A(==)>(c: Ctx<I, A>, s: Sess<I, A>, remotes: seq<Peer<A>>, spectators: seq<Peer<A>>,
                                reports: seq<Report<I, A>>): (r: (Outcome, Sess<I, A>))
    requires SessWf(c, s) && PollFits(c, s, remotes, spectators)
    ensures SessWf(c, r.1)
  {
    PeersKeepWf(c, s, remotes, spectators);
    EventsHandled(c, s.(Remotes := remotes, Spectators := spectators), reports)
  }

  // ----- UpdatePlayerDisconnects -----

  /** The inner loop for player `i`: whether every running remote endpoint
    * reports it connected, and the least last frame they report. */
  function QueueView<A>(remotes: seq<Peer<A>>, i: nat): (bool, Frame)
    requires forall j :: 0 <= j < |remotes| ==> i < |remotes[j].PeerStatus|
  {
    if remotes == [] then (true, INFINITY)
    else
      var (connected, least) := QueueView(remotes[..|remotes| - 1], i);
      var p := remotes[|remotes| - 1];
      if !p.IsRunning() then (connected, least)
      else (connected && !p.PeerStatus[i].Disconnected, Min(least, p.PeerStatus[i].LastFrame))
  }

  /** It is the conjunction and the minimum over the running endpoints. */
  lemma {:induction false} QueueViewMeaning<A>(remotes: seq<Peer<A>>, i: nat)
    requires forall j :: 0 <= j < |remotes| ==> i < |remotes[j].PeerStatus|
    ensures var (connected, least) := QueueView(remotes, i);
      (connected <==> forall j :: 0 <= j < |remotes| && remotes[j].IsRunning() ==> !remotes[j].PeerStatus[i].Disconnected) &&
      (forall j :: 0 <= j < |remotes| && remotes[j].IsRunning() ==> least.No <= remotes[j].PeerStatus[i].LastFrame.No) &&
      (least == INFINITY || exists j :: 0 <= j < |remotes| && remotes[j].IsRunning() && least == remotes[j].PeerStatus[i].LastFrame)
    decreases |remotes|
  {
    if remotes != [] {
      var init := remotes[..|remotes| - 1];
      assert forall j :: 0 <= j < |init| ==> init[j] == remotes[j];
      QueueViewMeaning(init, i);
      var least := QueueView(remotes, i).1;
      if least != INFINITY && least != QueueView(init, i).1 {
        assert remotes[|remotes| - 1].IsRunning();
      } else if least != INFINITY {
        var j :| 0 <= j < |init| && init[j].IsRunning() && least == init[j].PeerStatus[i].LastFrame;
        assert remotes[j].IsRunning();
      }
    }
  }

  /** One iteration of `UpdatePlayerDisconnects`: once some running
    * endpoint reports player `i` disconnected, the session disconnects it
    * at the least frame anyone confirmed, if it still sees it connected or
    * its own last frame lies after that one. */
  function PlayerDisconnectChecked<I, A(==)>(c: Ctx<I, A>, s: Sess<I, A>, i: nat): (r: Sess<I, A>)
    requires SessWf(c, s) && i < c.NumPlayers
    ensures SessWf(c, r) && DisconnectOnly(s, r)
  {
    var (queueConnected, queueMin) := QueueView(s.Remotes, i);
    var localConnected := !s.Status[i].Disconnected;
    var localMin := s.Status[i].LastFrame;
    var least := if localConnected then Min(queueMin, localMin) else queueMin;
    if !queueConnected && (localConnected || Greater(localMin, least))
    then DisconnectedAtFrame(c, s, PlayerHandle(i), least)
    else s
  }

  /** `UpdatePlayerDisconnects` over the first `n` players. */
  function PlayerDisconnectsUpdated<I, A(==)>(c: Ctx<I, A>, s: Sess<I, A>, n: nat): (r: Sess<I, A>)
    requires SessWf(c, s) && n <= c.NumPlayers
    ensures SessWf(c, r) && DisconnectOnly(s, r)
  {
    if n == 0 then s else PlayerDisconnectChecked(c, PlayerDisconnectsUpdated(c, s, n - 1), n - 1)
  }

  /** A player every running endpoint reports connected is left alone; one
    * the session sees connected but some running endpoint reports
    * disconnected is disconnected at the least frame confirmed by the
    * running endpoints and the session. */
  lemma {:induction false} PlayerDisconnectMeaning<I, A>(c: Ctx<I, A>, s: Sess<I, A>, i: nat)
    requires SessWf(c, s) && i < c.NumPlayers
    ensures (forall j :: 0 <= j < |s.Remotes| && s.Remotes[j].IsRunning() ==> !s.Remotes[j].PeerStatus[i].Disconnected) ==>
              PlayerDisconnectChecked(c, s, i) == s
    ensures (exists j :: 0 <= j < |s.Remotes| && s.Remotes[j].IsRunning() && s.Remotes[j].PeerStatus[i].Disconnected) &&
            !s.Status[i].Disconnected ==>
              PlayerDisconnectChecked(c, s, i) == DisconnectedAtFrame(c, s, PlayerHandle(i), Min(QueueView(s.Remotes, i).1, s.Status[i].LastFrame))
  {
    QueueViewMeaning(s.Remotes, i);
  }

  // ----- CheckWaitRecommmendation -----

  /** `CheckWaitRecommmendation`: the frames ahead are refreshed, and a
    * wait of that many frames is recommended when the session is at least
    * `MIN_RECOMMENDATION` frames ahead and past the frame it last set. */
  function WaitChecked<I, A>(c: Ctx<I, A>, s: Sess<I, A>): (r: Sess<I, A>)
    requires SessWf(c, s)
    ensures r == s.(FramesAhead := r.FramesAhead, NextSleep := r.NextSleep, Events := r.Events)
  {
    var ahead := MaxFrameAdvantage(s.Remotes, s.Status);
    if Greater(s.Layer.Current, s.NextSleep) && ahead >= MIN_RECOMMENDATION
    then s.(FramesAhead := ahead, NextSleep := Plus(s.Layer.Current, RECOMMENDATION_INTERVAL),
            Events := s.Events + [EvWaitRecommendation(WaitRecommendationBody(ahead))])
    else s.(FramesAhead := ahead)
  }

  /** A recommendation silences the next ones for `RECOMMENDATION_INTERVAL`
    * frames: while the current frame has not passed the frame it set, no
    * other is queued. */
  lemma {:induction false} WaitSpacing<I, A>(c: Ctx<I, A>, s: Sess<I, A>, later: Sess<I, A>)
    requires SessWf(c, s) && SessWf(c, later)
    requires WaitChecked(c, s).Events != s.Events
    requires later.NextSleep == WaitChecked(c, s).NextSleep
    requires later.Layer.Current.No <= s.Layer.Current.No + RECOMMENDATION_INTERVAL
    ensures WaitChecked(c, later).Events == later.Events
    ensures WaitChecked(c, s).Events == s.Events + [EvWaitRecommendation(WaitRecommendationBody(WaitChecked(c, s).FramesAhead))]
  {
  }

  // ----- SendInput to the endpoints -----

  /** Whether `SendInput` with a dictionary of `count` inputs gets past its
    * assertion on endpoint `p`: an endpoint that is not running returns at
    * once, a running one asserts that `count` is its number of local
    * players. */
  predicate TakesInputs<A>(p: Peer<A>, count: nat)
  {
    !p.IsRunning() || p.LocalPlayers == count
  }

  /** `SendInput` with `count` inputs to each endpoint of `peers` in turn,
    * stopping at the first failed assertion.  What an endpoint then
    * queues, and the messages it sends, are not part of its view. */
  function InputsSent<A>(peers: seq<Peer<A>>, count: nat): (r: Outcome)
    ensures r.Pass? <==> forall i :: 0 <= i < |peers| ==> TakesInputs(peers[i], count)
    ensures r.Fail? ==> r.failure == AssertionFailed
    decreases |peers|
  {
    if peers == [] then Pass
    else if !TakesInputs(peers[0], count) then Fail(AssertionFailed)
    else InputsSent(peers[1..], count)
  }

  /** Whether some local input came back from the sync layer without a
    * frame. */
  predicate SomeInputDropped<I, A>(s: Sess<I, A>)
  {
    exists h :: h in s.LocalInputs && s.LocalInputs[h].Frame == NULL_FRAME
  }

  /** The sends of `AdvanceFrame` after the local inputs: unless some local
    * input was dropped, every remote endpoint gets the local inputs with
    * `SendInput` and then sends its queue.  The call fails exactly when a
    * running remote endpoint expects another number of local inputs than
    * the session holds. */
  function LocalInputsSent<I, A>(s: Sess<I, A>): (r: Outcome)
    ensures r.Fail? <==> !SomeInputDropped(s) &&
                         exists i :: 0 <= i < |s.Remotes| && s.Remotes[i].IsRunning() && s.Remotes[i].LocalPlayers != |s.LocalInputs|
    ensures r.Fail? ==> r.failure == AssertionFailed
  {
    if SomeInputDropped(s) then Pass else InputsSent(s.Remotes, |s.LocalInputs|)
  }

  // ----- SendConfirmedInputsToSpectators -----

  /** Every confirmed input is of `frame` or null. */
  predicate FramesFit<I>(inputs: seq<PlayerInput<I>>, frame: Frame)
  {
    forall i :: 0 <= i < |inputs| ==> inputs[i].Frame == NULL_FRAME || inputs[i].Frame == frame
  }

  /** The loop of `SendConfirmedInputsToSpectators`: each frame from the
    * next spectator frame up to `confirmed` has its confirmed inputs
    * collected and checked, goes with `SendInput` to every running
    * spectator endpoint, and is then counted as sent. */
  function Served<I, A>(c: Ctx<I, A>, s: Sess<I, A>, confirmed: Frame): (r: (Outcome, Sess<I, A>))
    requires SessWf(c, s)
    ensures r.1 == s.(NextSpectatorFrame := r.1.NextSpectatorFrame)
    decreases confirmed.No - s.NextSpectatorFrame.No + 1
  {
    if !LessEq(s.NextSpectatorFrame, confirmed) then (Pass, s)
    else
      var inputs := Collected(Confirmations(s.Layer.Queues, s.Status, s.NextSpectatorFrame, c.Blank), |s.Status|);
      if inputs.Err? then (Fail(inputs.failure), s)
      else if |inputs.value| != c.NumPlayers then (Fail(AssertionFailed), s)
      else if !FramesFit(inputs.value, s.NextSpectatorFrame) then (Fail(AssertionFailed), s)
      else if InputsSent(s.Spectators, |inputs.value|).Fail? then (Fail(AssertionFailed), s)
      else Served(c, s.(NextSpectatorFrame := Plus(s.NextSpectatorFrame, 1)), confirmed)
  }

  /** `SendConfirmedInputsToSpectators`: nothing without spectators. */
  function SpectatorsServed<I, A>(c: Ctx<I, A>, s: Sess<I, A>, confirmed: Frame): (r: (Outcome, Sess<I, A>))
    requires SessWf(c, s)
    ensures r.1 == s.(NextSpectatorFrame := r.1.NextSpectatorFrame)
  {
    if |HandlesOf(c.Handles, Spectator)| == 0 then (Pass, s) else Served(c, s, confirmed)
  }

  /** Whether the confirmed inputs of frame `f` can all be looked up. */
  predicate ConfirmedAt<I, A>(c: Ctx<I, A>, s: Sess<I, A>, f: int)
    requires SessWf(c, s)
  {
    Collected(Confirmations(s.Layer.Queues, s.Status, Frame(f), c.Blank), |s.Status|).Ok?
  }

  /** Whether every running spectator endpoint expects one input per
    * player, as `SendInput` asserts. */
  predicate SpectatorsTake<I, A>(c: Ctx<I, A>, s: Sess<I, A>)
  {
    forall i :: 0 <= i < |s.Spectators| ==> TakesInputs(s.Spectators[i], c.NumPlayers)
  }

  /** The loop succeeds exactly when every frame it visits has its
    * confirmed inputs, so its two assertions on them never fail, and, if it
    * visits a frame at all, every running spectator endpoint expects one
    * input per player; it then only moves the next spectator frame, to the
    * frame after `confirmed` unless it was already past it. */
  lemma {:induction false} ServedMeaning<I, A>(c: Ctx<I, A>, s: Sess<I, A>, confirmed: Frame)
    requires SessWf(c, s)
    ensures var (o, s1) := Served(c, s, confirmed);
      (o.Pass? <==> (forall f :: s.NextSpectatorFrame.No <= f <= confirmed.No ==> ConfirmedAt(c, s, f)) &&
                    (LessEq(s.NextSpectatorFrame, confirmed) ==> SpectatorsTake(c, s))) &&
      (o.Pass? ==> s1 == s.(NextSpectatorFrame := if LessEq(s.NextSpectatorFrame, confirmed) then Plus(confirmed, 1)
                                                    else s.NextSpectatorFrame))
  {
    ServedPasses(c, s, confirmed);
    ServedMoves(c, s, confirmed);
  }

  /** The loop passes exactly when every frame it visits has its confirmed
    * inputs and the spectator endpoints take them. */
  lemma {:induction false} ServedPasses<I, A>(c: Ctx<I, A>, s: Sess<I, A>, confirmed: Frame)
    requires SessWf(c, s)
    ensures Served(c, s, confirmed).0.Pass? <==>
            (forall f :: s.NextSpectatorFrame.No <= f <= confirmed.No ==> ConfirmedAt(c, s, f)) &&
            (LessEq(s.NextSpectatorFrame, confirmed) ==> SpectatorsTake(c, s))
    decreases confirmed.No - s.NextSpectatorFrame.No + 1
  {
    if LessEq(s.NextSpectatorFrame, confirmed) {
      var next := s.NextSpectatorFrame;
      var s1 := s.(NextSpectatorFrame := Plus(next, 1));
      ServedFrameFits(c, s, next);
      ServedPasses(c, s1, confirmed);
      var inputs := Collected(Confirmations(s.Layer.Queues, s.Status, next, c.Blank), |s.Status|);
      assert Frame(next.No) == next;
      if inputs.Ok? {
        assert ConfirmedAt(c, s, next.No);
        if !SpectatorsTake(c, s) {
          assert InputsSent(s.Spectators, |inputs.value|).Fail?;
          return;
        }
        assert Served(c, s, confirmed) == Served(c, s1, confirmed);
        if Served(c, s1, confirmed).0.Pass? {
          forall f | next.No <= f <= confirmed.No
            ensures ConfirmedAt(c, s, f)
          {
            if f > next.No {
              assert ConfirmedAt(c, s1, f);
            }
          }
        } else {
          assert SpectatorsTake(c, s1);
          var f :| s1.NextSpectatorFrame.No <= f <= confirmed.No && !ConfirmedAt(c, s1, f);
          assert !ConfirmedAt(c, s, f);
        }
      } else {
        assert !ConfirmedAt(c, s, next.No);
      }
    }
  }

  /** A passing loop only moves the next spectator frame, past `confirmed`
    * unless it already was. */
  lemma {:induction false} ServedMoves<I, A>(c: Ctx<I, A>, s: Sess<I, A>, confirmed: Frame)
    requires SessWf(c, s)
    ensures var (o, s1) := Served(c, s, confirmed);
      o.Pass? ==> s1 == s.(NextSpectatorFrame := if LessEq(s.NextSpectatorFrame, confirmed) then Plus(confirmed, 1)
                                                   else s.NextSpectatorFrame)
    decreases confirmed.No - s.NextSpectatorFrame.No + 1
  {
    if LessEq(s.NextSpectatorFrame, confirmed) {
      var next := s.NextSpectatorFrame;
      var s1 := s.(NextSpectatorFrame := Plus(next, 1));
      ServedFrameFits(c, s, next);
      ServedMoves(c, s1, confirmed);
      var inputs := Collected(Confirmations(s.Layer.Queues, s.Status, next, c.Blank), |s.Status|);
      if inputs.Ok? && InputsSent(s.Spectators, |inputs.value|).Pass? {
        assert Served(c, s, confirmed) == Served(c, s1, confirmed);
      }
    }
  }

  /** The confirmed inputs of one frame, when they can all be looked up,
    * are one per player and each of that frame or null. */
  lemma {:induction false} ServedFrameFits<I, A>(c: Ctx<I, A>, s: Sess<I, A>, next: Frame)
    requires SessWf(c, s)
    ensures var inputs := Collected(Confirmations(s.Layer.Queues, s.Status, next, c.Blank), |s.Status|);
      inputs.Ok? ==> |inputs.value| == c.NumPlayers && FramesFit(inputs.value, next)
  {
    ConfirmedEntries(s.Layer.Queues, s.Status, next, c.Blank);
    var inputs := Collected(Confirmations(s.Layer.Queues, s.Status, next, c.Blank), |s.Status|);
    if inputs.Ok? {
      forall i | 0 <= i < |inputs.value|
        ensures inputs.value[i].Frame == NULL_FRAME || inputs.value[i].Frame == next
      {
        var e := ConfirmedEntry(s.Layer.Queues, s.Status[i], next, c.Blank, i);
        assert inputs.value[i] == e.value;
      }
    }
  }

  // ----- AdjustGameState -----

  /** Whether iteration `i` of the resimulation saves first: in sparse mode
    * only at the least confirmed frame, otherwise at every frame but the
    * one loaded. */
  predicate SavesAt<I, A>(c: Ctx<I, A>, current: Frame, minConfirmed: Frame, i: nat)
  {
    if c.SparseSaving then current == minConfirmed else i > 0
  }

  /** One iteration of `AdjustGameState`'s loop: the inputs of the current
    * frame, the save if due, and an advance carrying the inputs. */
  function ResimStep<I, A>(c: Ctx<I, A>, st: seq<ConnectionStatus>, minConfirmed: Frame, l: Layer<I>, i: nat)
    : (r: (Outcome, seq<RollbackRequest<I>>, Layer<I>))
    requires LayerWf(l, c.NumPlayers, c.MaxPrediction)
    ensures LayerWf(r.2, c.NumPlayers, c.MaxPrediction)
    ensures r.0.Pass? ==>
              r.2.Current == Plus(l.Current, 1) && r.2.Ring == l.Ring && r.2.LastConfirmed == l.LastConfirmed &&
              |r.1| > 0 && r.1[|r.1| - 1].AdvanceFrame? &&
              (SavesAt(c, l.Current, minConfirmed, i) ==>
                 |r.1| == 2 && r.1[0].SaveGameState? && r.1[0].save.Frame == l.Current && r.2.LastSaved == l.Current) &&
              (!SavesAt(c, l.Current, minConfirmed, i) ==> |r.1| == 1 && r.2.LastSaved == l.LastSaved)
  {
    StepsKeepWf(l, c.NumPlayers, c.MaxPrediction, st, c.Blank);
    var (inputs, l1) := SyncedInputs(l, st, c.Blank);
    if inputs.Err? then (Fail(inputs.failure), [], l1)
    else
      var (saves, l2) := if SavesAt(c, l1.Current, minConfirmed, i) then ([CurrentSaved(l1).0], CurrentSaved(l1).1) else ([], l1);
      StepsKeepWf(l2, c.NumPlayers, c.MaxPrediction, st, c.Blank);
      (Pass, saves + [AdvanceFrame(AdvanceFrameBody(inputs.value))], FrameAdvanced(l2))
  }

  /** The first `count` iterations, stopping at the first failure. */
  function Resimulated<I, A>(c: Ctx<I, A>, st: seq<ConnectionStatus>, minConfirmed: Frame, l: Layer<I>, count: nat)
    : (r: (Outcome, seq<RollbackRequest<I>>, Layer<I>))
    requires LayerWf(l, c.NumPlayers, c.MaxPrediction)
    ensures LayerWf(r.2, c.NumPlayers, c.MaxPrediction)
    decreases count
  {
    if count == 0 then (Pass, [], l)
    else
      var prev := Resimulated(c, st, minConfirmed, l, count - 1);
      if prev.0.Fail? then prev
      else
        var (o2, reqs2, l2) := ResimStep(c, st, minConfirmed, prev.2, count - 1);
        (o2, prev.1 + reqs2, l2)
  }

  /** Once an iteration fails, the later ones are not run. */
  lemma {:induction false} ResimFailureSticks<I, A>(c: Ctx<I, A>, st: seq<ConnectionStatus>, minConfirmed: Frame,
                                                    l: Layer<I>, i: nat, count: nat)
    requires LayerWf(l, c.NumPlayers, c.MaxPrediction) && i <= count
    requires Resimulated(c, st, minConfirmed, l, i).0.Fail?
    ensures Resimulated(c, st, minConfirmed, l, count) == Resimulated(c, st, minConfirmed, l, i)
    decreases count
  {
    if i < count {
      ResimFailureSticks(c, st, minConfirmed, l, i, count - 1);
      var prev := Resimulated(c, st, minConfirmed, l, count - 1);
      assert prev == Resimulated(c, st, minConfirmed, l, i);
      assert Resimulated(c, st, minConfirmed, l, count) == prev;
    }
  }

  /** A resimulation of `count` frames comes back `count` frames later
    * with `count` advances, the last request being one. */
  lemma {:induction false} ResimulatedMeaning<I, A>(c: Ctx<I, A>, st: seq<ConnectionStatus>, minConfirmed: Frame,
                                                    l: Layer<I>, count: nat)
    requires LayerWf(l, c.NumPlayers, c.MaxPrediction)
    ensures var (o, reqs, l1) := Resimulated(c, st, minConfirmed, l, count);
      o.Pass? ==>
        l1.Current == Plus(l.Current, count) && l1.Ring == l.Ring && l1.LastConfirmed == l.LastConfirmed &&
        CountAdvances(reqs) == count && (count > 0 ==> reqs[|reqs| - 1].AdvanceFrame?)
    decreases count
  {
    if count > 0 {
      ResimulatedMeaning(c, st, minConfirmed, l, count - 1);
      var (o, reqs, l1) := Resimulated(c, st, minConfirmed, l, count - 1);
      if o.Pass? {
        var (o2, reqs2, l2) := ResimStep(c, st, minConfirmed, l1, count - 1);
        CountAdvancesAppend(reqs, reqs2);
        if o2.Pass? {
          var init := reqs2[..|reqs2| - 1];
          assert CountAdvances(reqs2) == CountAdvances(init) + 1;
          if |reqs2| == 2 {
            assert init == [reqs2[0]] && init[..0] == [];
            assert CountAdvances(init) == CountAdvances(init[..0]) + 0;
          } else {
            assert init == [];
          }
        }
      }
    }
  }

  /** Requests in which advances and saves alternate, starting with an advance. */
  predicate Alternating<I>(reqs: seq<RollbackRequest<I>>)
  {
    forall k :: 0 <= k < |reqs| ==> (reqs[k].AdvanceFrame? <==> k % 2 == 0)
  }

  lemma {:induction false} AlternatingAppend<I>(a: seq<RollbackRequest<I>>, b: seq<RollbackRequest<I>>)
    requires Alternating(a) && |a| % 2 == 1
    requires |b| == 2 && !b[0].AdvanceFrame? && b[1].AdvanceFrame?
    ensures Alternating(a + b)
  {
    forall k | 0 <= k < |a + b|
      ensures (a + b)[k].AdvanceFrame? <==> k % 2 == 0
    {
      if k < |a| {
        assert (a + b)[k] == a[k];
      } else {
        assert (a + b)[k] == b[k - |a|];
      }
    }
  }

  lemma {:induction false} OddLength(n: nat, m: nat)
    requires m > 0 && n == 2 * m - 1
    ensures n % 2 == 1
  {
    ModArith.ModMultiple(1, m - 1, 2);
  }

  /** Without sparse saving, a save precedes every advance but the first. */
  lemma {:induction false} ResimulatedSavesAll<I, A>(c: Ctx<I, A>, st: seq<ConnectionStatus>, minConfirmed: Frame,
                                                     l: Layer<I>, count: nat)
    requires LayerWf(l, c.NumPlayers, c.MaxPrediction) && !c.SparseSaving
    ensures var r := Resimulated(c, st, minConfirmed, l, count);
      r.0.Pass? && count > 0 ==> |r.1| == 2 * count - 1 && Alternating(r.1)
    decreases count
  {
    if count > 0 {
      ResimulatedSavesAll(c, st, minConfirmed, l, count - 1);
      var r1 := Resimulated(c, st, minConfirmed, l, count - 1);
      if r1.0.Pass? {
        var r2 := ResimStep(c, st, minConfirmed, r1.2, count - 1);
        assert Resimulated(c, st, minConfirmed, l, count) == (r2.0, r1.1 + r2.1, r2.2);
        if r2.0.Pass? {
          if count == 1 {
            assert r1.1 + r2.1 == r2.1;
          } else {
            assert SavesAt(c, r1.2.Current, minConfirmed, count - 1);
            assert r2.1[0].SaveGameState?;
            OddLength(|r1.1|, count - 1);
            AlternatingAppend(r1.1, r2.1);
          }
        }
      }
    }
  }

  /** Without sparse saving, the last save is of the frame before the last. */
  lemma {:induction false} ResimulatedLastSave<I, A>(c: Ctx<I, A>, st: seq<ConnectionStatus>, minConfirmed: Frame,
                                                     l: Layer<I>, count: nat)
    requires LayerWf(l, c.NumPlayers, c.MaxPrediction) && !c.SparseSaving
    ensures var r := Resimulated(c, st, minConfirmed, l, count);
      r.0.Pass? ==> r.2.LastSaved == if count > 1 then Plus(l.Current, count - 1) else l.LastSaved
    decreases count
  {
    if count > 0 {
      ResimulatedLastSave(c, st, minConfirmed, l, count - 1);
      ResimulatedMeaning(c, st, minConfirmed, l, count - 1);
    }
  }

  /** With sparse saving, the only save is of the least confirmed frame,
    * when the resimulation passes it. */
  lemma {:induction false} ResimulatedSavesConfirmed<I, A>(c: Ctx<I, A>, st: seq<ConnectionStatus>, minConfirmed: Frame,
                                                           l: Layer<I>, count: nat)
    requires LayerWf(l, c.NumPlayers, c.MaxPrediction) && c.SparseSaving
    ensures var r := Resimulated(c, st, minConfirmed, l, count);
      r.0.Pass? ==>
        r.2.Current.No == l.Current.No + count &&
        r.2.LastSaved == SparseLastSaved(l.Current.No, count, minConfirmed, l.LastSaved)
    decreases count
  {
    if count > 0 {
      ResimulatedSavesConfirmed(c, st, minConfirmed, l, count - 1);
      var r1 := Resimulated(c, st, minConfirmed, l, count - 1);
      if r1.0.Pass? {
        var r2 := ResimStep(c, st, minConfirmed, r1.2, count - 1);
        assert Resimulated(c, st, minConfirmed, l, count).2 == r2.2;
        if r2.0.Pass? {
          SavedStep(l.Current.No, count, minConfirmed, r1.2.Current, l.LastSaved, r1.2.LastSaved, r2.2.LastSaved);
        }
      }
    }
  }

  /** The arithmetic of one sparse-saving step: a save of the least
    * confirmed frame happens exactly when the step runs at that frame. */
  lemma {:induction false} SavedStep(start: int, count: nat, minConfirmed: Frame, current: Frame, saved0: Frame, saved1: Frame, saved2: Frame)
    requires count > 0 && current.No == start + count - 1
    requires saved1 == SparseLastSaved(start, count - 1, minConfirmed, saved0)
    requires saved2 == if current == minConfirmed then minConfirmed else saved1
    ensures saved2 == SparseLastSaved(start, count, minConfirmed, saved0)
  {
  }

  /** The last saved frame after a sparse-saving resimulation of `count`
    * frames from `start`: the least confirmed frame if the run passed it. */
  function SparseLastSaved(start: int, count: nat, minConfirmed: Frame, saved: Frame): Frame
  {
    if start <= minConfirmed.No < start + count then minConfirmed else saved
  }

  /** `AdjustGameState`: load the last saved frame in sparse mode or the
    * first incorrect one otherwise, forget the predictions, and simulate
    * forward to the frame the session was at. */
  function GameStateAdjusted<I, A>(c: Ctx<I, A>, s: Sess<I, A>, firstIncorrect: Frame, minConfirmed: Frame)
    : (r: (Outcome, seq<RollbackRequest<I>>, Sess<I, A>))
    requires SessWf(c, s)
    ensures SessWf(c, r.2) && r.2 == s.(Layer := r.2.Layer)
    ensures r.0.Pass? ==> r.2.Layer.Current == s.Layer.Current
  {
    var current := s.Layer.Current;
    var toLoad := if c.SparseSaving then s.Layer.LastSaved else firstIncorrect;
    if !LessEq(toLoad, firstIncorrect) then (Fail(AssertionFailed), [], s)
    else
      var count := Diff(current, toLoad);
      var (load, l1) := Loaded(s.Layer, c.MaxPrediction, toLoad);
      LoadedKeepsWf(s.Layer, c.NumPlayers, c.MaxPrediction, toLoad);
      if load.Err? then (Fail(load.failure), [], s)
      else
        // the load always moves to the frame loaded: the first assertion holds
        assert l1.Current == toLoad;
        var l2 := PredictionsReset(l1);
        StepsKeepWf(l1, c.NumPlayers, c.MaxPrediction, s.Status, c.Blank);
        var (o, reqs, l3) := Resimulated(c, s.Status, minConfirmed, l2, count);
        ResimulatedMeaning(c, s.Status, minConfirmed, l2, count);
        // so does the second: the resimulation ends where the session was
        assert o.Pass? ==> l3.Current == current;
        (o, [load.value] + reqs, s.(Layer := l3))
  }

  /** The adjustment succeeds exactly when the frame to load is not after
    * the first incorrect one, loads, and every resimulated frame has its
    * inputs, so its two checks of the current frame never fail.  It then
    * asks for the load first, comes back to the frame it started from,
    * and asks for one advance per frame in between. */
  lemma {:induction false} AdjustMeaning<I, A>(c: Ctx<I, A>, s: Sess<I, A>, firstIncorrect: Frame, minConfirmed: Frame)
    requires SessWf(c, s)
    ensures var (o, reqs, s1) := GameStateAdjusted(c, s, firstIncorrect, minConfirmed);
      var toLoad := if c.SparseSaving then s.Layer.LastSaved else firstIncorrect;
      var l1 := PredictionsReset(s.Layer.(Current := toLoad));
      var count := Diff(s.Layer.Current, toLoad);
      (o.Pass? <==> LessEq(toLoad, firstIncorrect) && Loaded(s.Layer, c.MaxPrediction, toLoad).0.Ok? &&
                    count > 0 && Resimulated(c, s.Status, minConfirmed, l1, count).0.Pass?) &&
      (o.Pass? ==> reqs[0] == Loaded(s.Layer, c.MaxPrediction, toLoad).0.value &&
                   s1.Layer.Current == s.Layer.Current && s1.Layer.Ring == s.Layer.Ring &&
                   s1.Layer.LastConfirmed == s.Layer.LastConfirmed &&
                   CountAdvances(reqs) == count && reqs[|reqs| - 1].AdvanceFrame?)
  {
    var toLoad := if c.SparseSaving then s.Layer.LastSaved else firstIncorrect;
    LoadedMeaning(s.Layer, c.MaxPrediction, toLoad);
    var count := Diff(s.Layer.Current, toLoad);
    if LessEq(toLoad, firstIncorrect) && Loaded(s.Layer, c.MaxPrediction, toLoad).0.Ok? {
      var l1 := PredictionsReset(s.Layer.(Current := toLoad));
      LoadedKeepsWf(s.Layer, c.NumPlayers, c.MaxPrediction, toLoad);
      StepsKeepWf(s.Layer.(Current := toLoad), c.NumPlayers, c.MaxPrediction, s.Status, c.Blank);
      ResimulatedMeaning(c, s.Status, minConfirmed, l1, count);
      var reqs := Resimulated(c, s.Status, minConfirmed, l1, count).1;
      var load := Loaded(s.Layer, c.MaxPrediction, toLoad).0.value;
      CountAdvancesAppend([load], reqs);
      assert CountAdvances([load]) == 0 by {
        assert [load][..0] == [];
      }
    }
  }

  // ----- CheckLastSavedState -----

  /** The two branches of `CheckLastSavedState`: save the current frame if
    * it is confirmed, otherwise roll back from `lastSaved`. */
  function SavedOrAdjusted<I, A>(c: Ctx<I, A>, s: Sess<I, A>, lastSaved: Frame, confirmed: Frame)
    : (r: (Outcome, seq<RollbackRequest<I>>, Sess<I, A>))
    requires SessWf(c, s)
    ensures SessWf(c, r.2) && r.2 == s.(Layer := r.2.Layer)
  {
    if GreaterEq(confirmed, s.Layer.Current) then (Pass, [CurrentSaved(s.Layer).0], s.(Layer := CurrentSaved(s.Layer).1))
    else GameStateAdjusted(c, s, lastSaved, confirmed)
  }

  /** `CheckLastSavedState`: once the last save is a prediction window
    * old, a save of the confirmed frame is made, and the last saved frame
    * is asserted to be the confirmed one or the current one. */
  function LastSavedChecked<I, A>(c: Ctx<I, A>, s: Sess<I, A>, lastSaved: Frame, confirmed: Frame)
    : (r: (Outcome, seq<RollbackRequest<I>>, Sess<I, A>))
    requires SessWf(c, s)
    ensures SessWf(c, r.2) && r.2 == s.(Layer := r.2.Layer)
  {
    if Diff(s.Layer.Current, lastSaved) < c.MaxPrediction then (Pass, [], s)
    else
      var (o, reqs, s1) := SavedOrAdjusted(c, s, lastSaved, confirmed);
      if o.Fail? then (o, reqs, s1)
      else if !(confirmed == NULL_FRAME || s1.Layer.LastSaved == Min(confirmed, s1.Layer.Current))
      then (Fail(AssertionFailed), reqs, s1)
      else (Pass, reqs, s1)
  }

  /** In sparse mode, with the last save not after the confirmed frame,
    * the closing assertion holds: the save lands on the confirmed frame,
    * or on the current frame when that is confirmed. */
  lemma {:induction false} LastSavedCheckHolds<I, A>(c: Ctx<I, A>, s: Sess<I, A>, confirmed: Frame)
    requires SessWf(c, s) && c.SparseSaving && LessEq(s.Layer.LastSaved, confirmed)
    ensures var (o, _, s1) := SavedOrAdjusted(c, s, s.Layer.LastSaved, confirmed);
      o.Pass? ==> confirmed == NULL_FRAME || s1.Layer.LastSaved == Min(confirmed, s1.Layer.Current)
  {
    var lastSaved := s.Layer.LastSaved;
    if !GreaterEq(confirmed, s.Layer.Current) {
      LoadedMeaning(s.Layer, c.MaxPrediction, lastSaved);
      if Loaded(s.Layer, c.MaxPrediction, lastSaved).0.Ok? {
        var l1 := PredictionsReset(s.Layer.(Current := lastSaved));
        StepsKeepWf(s.Layer.(Current := lastSaved), c.NumPlayers, c.MaxPrediction, s.Status, c.Blank);
        LoadedKeepsWf(s.Layer, c.NumPlayers, c.MaxPrediction, lastSaved);
        var count := Diff(s.Layer.Current, lastSaved);
        ResimulatedSavesConfirmed(c, s.Status, confirmed, l1, count);
        var r := Resimulated(c, s.Status, confirmed, l1, count);
        assert GameStateAdjusted(c, s, lastSaved, confirmed).2 == s.(Layer := r.2);
      }
    }
  }

  // ----- AdvanceFrame -----

  /** The rollback part of `AdvanceFrame`: roll back from the earliest
    * mismatch (or the disconnect frame) if there is one, forgetting the
    * disconnect frame once that succeeded, then save; in sparse mode the
    * save is `CheckLastSavedState`'s. */
  function Corrected<I, A>(c: Ctx<I, A>, s: Sess<I, A>, confirmed: Frame)
    : (r: (Outcome, seq<RollbackRequest<I>>, Sess<I, A>))
    requires SessWf(c, s)
    ensures SessWf(c, r.2) && r.2 == s.(Layer := r.2.Layer, DisconnectFrame := r.2.DisconnectFrame)
  {
    var firstIncorrect := EarliestIncorrect(s.DisconnectFrame, s.Layer.Queues, |s.Layer.Queues|);
    if firstIncorrect == NULL_FRAME then SaveDone(c, s, confirmed, [])
    else
      var (o, reqs, s1) := GameStateAdjusted(c, s, firstIncorrect, confirmed);
      if o.Fail? then (o, reqs, s1) else SaveDone(c, s1.(DisconnectFrame := NULL_FRAME), confirmed, reqs)
  }

  /** The save that closes the rollback part, after `reqs`. */
  function SaveDone<I, A>(c: Ctx<I, A>, s: Sess<I, A>, confirmed: Frame, reqs: seq<RollbackRequest<I>>)
    : (r: (Outcome, seq<RollbackRequest<I>>, Sess<I, A>))
    requires SessWf(c, s)
    ensures SessWf(c, r.2) && r.2 == s.(Layer := r.2.Layer)
  {
    if c.SparseSaving then
      var (o, reqs2, s2) := LastSavedChecked(c, s, s.Layer.LastSaved, confirmed);
      (o, reqs + reqs2, s2)
    else
      (Pass, reqs + [CurrentSaved(s.Layer).0], s.(Layer := CurrentSaved(s.Layer).1))
  }

  /** The rollback part comes back to the frame it started from; without
    * sparse saving it ends by saving that frame. */
  lemma {:induction false} CorrectedMeaning<I, A>(c: Ctx<I, A>, s: Sess<I, A>, confirmed: Frame)
    requires SessWf(c, s)
    ensures var (o, reqs, s1) := Corrected(c, s, confirmed);
      o.Pass? ==>
        s1.Layer.Current == s.Layer.Current && s1.Layer.LastConfirmed == s.Layer.LastConfirmed &&
        (!c.SparseSaving ==> |reqs| > 0 && reqs[|reqs| - 1] == CurrentSaved(s.Layer).0 &&
                             s1.Layer.LastSaved == s.Layer.Current)
  {
    var firstIncorrect := EarliestIncorrect(s.DisconnectFrame, s.Layer.Queues, |s.Layer.Queues|);
    if firstIncorrect != NULL_FRAME {
      AdjustMeaning(c, s, firstIncorrect, confirmed);
      var s1 := GameStateAdjusted(c, s, firstIncorrect, confirmed).2;
      if c.SparseSaving {
        SavedKeepsFrame(c, s1.(DisconnectFrame := NULL_FRAME), s1.Layer.LastSaved, confirmed);
      }
    } else if c.SparseSaving {
      SavedKeepsFrame(c, s, s.Layer.LastSaved, confirmed);
    }
  }

  /** `CheckLastSavedState` comes back to the frame it started from. */
  lemma {:induction false} SavedKeepsFrame<I, A>(c: Ctx<I, A>, s: Sess<I, A>, lastSaved: Frame, confirmed: Frame)
    requires SessWf(c, s)
    ensures var (o, _, s1) := LastSavedChecked(c, s, lastSaved, confirmed);
      o.Pass? ==> s1.Layer.Current == s.Layer.Current && s1.Layer.LastConfirmed == s.Layer.LastConfirmed
  {
    AdjustMeaning(c, s, lastSaved, confirmed);
  }

  /** The part of `AdvanceFrame` before the rollback: the first frame is
    * saved unless in lockstep, disconnects are brought up to date, and the
    * confirmed frame is computed. */
  function Begun<I, A(==)>(c: Ctx<I, A>, s: Sess<I, A>): (r: (Result<Frame>, seq<RollbackRequest<I>>, Sess<I, A>))
    requires SessWf(c, s)
    ensures SessWf(c, r.2)
    ensures r.2.Layer.Current == s.Layer.Current && r.2.Layer.LastConfirmed == s.Layer.LastConfirmed
    ensures c.MaxPrediction == 0 ==> r.1 == []
    ensures r.0 == ConfirmedFrameOf(r.2.Status)
  {
    var (reqs, s1) := FirstSaved(c, s);
    var s2 := PlayerDisconnectsUpdated(c, s1, c.NumPlayers);
    (ConfirmedFrameOf(s2.Status), reqs, s2)
  }

  function FirstSaved<I, A>(c: Ctx<I, A>, s: Sess<I, A>): (r: (seq<RollbackRequest<I>>, Sess<I, A>))
    requires SessWf(c, s)
    ensures SessWf(c, r.1) && r.1 == s.(Layer := r.1.Layer)
    ensures r.1.Layer.Current == s.Layer.Current && r.1.Layer.LastConfirmed == s.Layer.LastConfirmed
    ensures r.0 == [] <==> s.Layer.Current != FIRST_FRAME || c.MaxPrediction == 0
  {
    if s.Layer.Current == FIRST_FRAME && c.MaxPrediction != 0
    then ([CurrentSaved(s.Layer).0], s.(Layer := CurrentSaved(s.Layer).1))
    else ([], s)
  }

  /** From the rollback to the wait recommendation: the rollback part
    * unless in lockstep, the spectators served, the confirmed frame set on
    * the sync layer, and the wait recommendation checked. */
  function Rolled<I, A>(c: Ctx<I, A>, s: Sess<I, A>, confirmed: Frame)
    : (r: (Outcome, seq<RollbackRequest<I>>, Sess<I, A>))
    requires SessWf(c, s)
    ensures SessWf(c, r.2)
  {
    var (o1, reqs1, s1) := if c.MaxPrediction == 0 then (Pass, [], s) else Corrected(c, s, confirmed);
    if o1.Fail? then (o1, reqs1, s1)
    else
      var (o2, s2) := SpectatorsServed(c, s1, confirmed);
      if o2.Fail? then (o2, reqs1, s2)
      else
        ConfirmedFrameSetMeaning(s2.Layer, confirmed, c.SparseSaving);
        var (o3, l3) := ConfirmedFrameSet(s2.Layer, confirmed, c.SparseSaving);
        var s3 := s2.(Layer := l3);
        if o3.Fail? then (o3, reqs1, s3) else (Pass, reqs1, WaitChecked(c, s3))
  }

  /** The middle of `AdvanceFrame` keeps the frame and records the
    * confirmed frame on the sync layer; in lockstep it asks for nothing, and
    * otherwise without sparse saving it ends by saving the current frame. */
  lemma {:induction false} RolledMeaning<I, A>(c: Ctx<I, A>, s: Sess<I, A>, confirmed: Frame)
    requires SessWf(c, s)
    ensures var (o, reqs, s1) := Rolled(c, s, confirmed);
      o.Pass? ==>
        s1.Layer.Current == s.Layer.Current &&
        s1.Layer.LastConfirmed == ConfirmTarget(s1.Layer, confirmed, c.SparseSaving) &&
        (c.MaxPrediction == 0 ==> reqs == []) &&
        (c.MaxPrediction != 0 && !c.SparseSaving ==>
           |reqs| > 0 && reqs[|reqs| - 1] == CurrentSaved(s.Layer).0 &&
           reqs[|reqs| - 1].SaveGameState? && reqs[|reqs| - 1].save.Frame == s.Layer.Current)
  {
    var (o1, reqs1, s1) := if c.MaxPrediction == 0 then (Pass, [], s) else Corrected(c, s, confirmed);
    if o1.Fail? {
      return;
    }
    if c.MaxPrediction != 0 {
      CorrectedMeaning(c, s, confirmed);
    }
    assert s1.Layer.Current == s.Layer.Current;
    var (o2, s2) := SpectatorsServed(c, s1, confirmed);
    if o2.Fail? {
      return;
    }
    assert s2.Layer == s1.Layer;
    ConfirmedFrameSetMeaning(s2.Layer, confirmed, c.SparseSaving);
    var (o3, l3) := ConfirmedFrameSet(s2.Layer, confirmed, c.SparseSaving);
    if o3.Fail? {
      return;
    }
    assert l3.Current == s2.Layer.Current && l3.LastSaved == s2.Layer.LastSaved;
    assert ConfirmTarget(l3, confirmed, c.SparseSaving) == ConfirmTarget(s2.Layer, confirmed, c.SparseSaving);
    var s4 := WaitChecked(c, s2.(Layer := l3));
    assert s4.Layer == l3;
    assert Rolled(c, s, confirmed) == (Pass, reqs1, s4);
  }

  /** One pass of the local-input loop: the input given for `h` goes to
    * its queue and comes back stamped with the frame it landed on, which
    * also becomes the player's last frame unless the input was dropped. */
  function OneLocalInput<I(==), A>(c: Ctx<I, A>, s: Sess<I, A>, h: PlayerHandle): (r: (Outcome, Sess<I, A>))
    requires SessWf(c, s) && h.Id < c.NumPlayers
    ensures SessWf(c, r.1) && r.1.Layer == s.Layer.(Queues := r.1.Layer.Queues)
  {
    if h !in s.LocalInputs then (Fail(KeyNotFound), s)
    else
      var (actual, l1) := LocalInputAdded(s.Layer, h, s.LocalInputs[h]);
      if actual.Err? then (Fail(actual.failure), s.(Layer := l1))
      else
        var inputs := s.LocalInputs[h := s.LocalInputs[h].(Frame := actual.value)];
        var st := if actual.value != NULL_FRAME then s.Status[h.Id := s.Status[h.Id].(LastFrame := actual.value)]
                  else s.Status;
        (Pass, s.(Layer := l1, LocalInputs := inputs, Status := st))
  }

  /** The local-input loop over `hs`, stopping at the first failure. */
  function LocalInputsAdded<I(==), A>(c: Ctx<I, A>, s: Sess<I, A>, hs: seq<PlayerHandle>): (r: (Outcome, Sess<I, A>))
    requires SessWf(c, s) && forall j :: 0 <= j < |hs| ==> hs[j].Id < c.NumPlayers
    ensures SessWf(c, r.1) && r.1.Layer == s.Layer.(Queues := r.1.Layer.Queues)
    decreases |hs|
  {
    if hs == [] then (Pass, s)
    else
      var (o, s1) := LocalInputsAdded(c, s, hs[..|hs| - 1]);
      if o.Fail? then (o, s1) else OneLocalInput(c, s1, hs[|hs| - 1])
  }

  /** The loop after one more handle. */
  lemma {:induction false} LocalInputsStep<I, A>(c: Ctx<I, A>, s: Sess<I, A>, hs: seq<PlayerHandle>, j: nat)
    requires SessWf(c, s) && (forall k :: 0 <= k < |hs| ==> hs[k].Id < c.NumPlayers) && j < |hs|
    requires LocalInputsAdded(c, s, hs[..j]).0.Pass?
    ensures LocalInputsAdded(c, s, hs[..j + 1]) == OneLocalInput(c, LocalInputsAdded(c, s, hs[..j]).1, hs[j])
  {
    assert hs[..j + 1][..j] == hs[..j];
  }

  /** Once a local input fails, the later handles are not reached. */
  lemma {:induction false} LocalInputsFailureSticks<I, A>(c: Ctx<I, A>, s: Sess<I, A>, hs: seq<PlayerHandle>, i: nat)
    requires SessWf(c, s) && (forall j :: 0 <= j < |hs| ==> hs[j].Id < c.NumPlayers) && i <= |hs|
    requires LocalInputsAdded(c, s, hs[..i]).0.Fail?
    ensures LocalInputsAdded(c, s, hs) == LocalInputsAdded(c, s, hs[..i])
    decreases |hs| - i
  {
    if i == |hs| {
      assert hs[..i] == hs;
    } else {
      var init := hs[..|hs| - 1];
      assert init[..i] == hs[..i];
      LocalInputsFailureSticks(c, s, init, i);
    }
  }

  /** Local handles are players' handles. */
  lemma {:induction false} LocalIdsBelow<I, A>(c: Ctx<I, A>, s: Sess<I, A>)
    requires SessWf(c, s)
    ensures forall j :: 0 <= j < |HandlesOf(c.Handles, Local)| ==> HandlesOf(c.Handles, Local)[j].Id < c.NumPlayers
  {
    var hs := HandlesOf(c.Handles, Local);
    forall j | 0 <= j < |hs|
      ensures hs[j].Id < c.NumPlayers
    {
      HandlesOfMeaning(c.Handles, Local, hs[j]);
    }
  }

  /** `AdvanceFrame`'s loop over the local handles, each input handed to
    * the sync layer in the registry's order. */
  function LocalInputsCommitted<I(==), A>(c: Ctx<I, A>, s: Sess<I, A>): (r: (Outcome, Sess<I, A>))
    requires SessWf(c, s)
    ensures SessWf(c, r.1) && r.1.Layer == s.Layer.(Queues := r.1.Layer.Queues)
  {
    LocalIdsBelow(c, s);
    LocalInputsAdded(c, s, HandlesOf(c.Handles, Local))
  }

  /** How far the current frame is ahead of the last confirmed one, as
    * `AdvanceFrame` counts it. */
  function FramesAheadOf<I>(l: Layer<I>): int
  {
    if l.LastConfirmed == NULL_FRAME then l.Current.No else Diff(l.Current, l.LastConfirmed)
  }

  /** Whether `AdvanceFrame` advances: in lockstep only on a confirmed
    * frame, otherwise while fewer than `MaxPrediction` frames ahead. */
  predicate CanAdvance<I, A>(c: Ctx<I, A>, l: Layer<I>)
  {
    if c.MaxPrediction == 0 then l.LastConfirmed == l.Current else FramesAheadOf(l) < c.MaxPrediction
  }

  /** The end of `AdvanceFrame`: when it may advance, the synchronized
    * inputs are collected, the frame advanced, the local inputs cleared
    * and an advance asked for. */
  function Stepped<I, A>(c: Ctx<I, A>, s: Sess<I, A>): (r: (Outcome, seq<RollbackRequest<I>>, Sess<I, A>))
    requires SessWf(c, s)
    ensures SessWf(c, r.2)
  {
    if !CanAdvance(c, s.Layer) then (Pass, [], s)
    else
      StepsKeepWf(s.Layer, c.NumPlayers, c.MaxPrediction, s.Status, c.Blank);
      var (inputs, l1) := SyncedInputs(s.Layer, s.Status, c.Blank);
      StepsKeepWf(l1, c.NumPlayers, c.MaxPrediction, s.Status, c.Blank);
      if inputs.Err? then (Fail(inputs.failure), [], s.(Layer := l1))
      else (Pass, [AdvanceFrame(AdvanceFrameBody(inputs.value))], s.(Layer := FrameAdvanced(l1), LocalInputs := map[]))
  }

  /** The advance happens exactly when the session may advance; it moves
    * the frame by one, asking for that advance alone and clearing the
    * local inputs, and leaves the session within its prediction window. */
  lemma {:induction false} SteppedMeaning<I, A>(c: Ctx<I, A>, s: Sess<I, A>)
    requires SessWf(c, s)
    ensures var (o, reqs, s1) := Stepped(c, s);
      (!CanAdvance(c, s.Layer) ==> o.Pass? && reqs == [] && s1 == s) &&
      (o.Pass? && CanAdvance(c, s.Layer) ==>
         |reqs| == 1 && reqs[0].AdvanceFrame? && s1.LocalInputs == map[] &&
         s1.Layer.Current == Plus(s.Layer.Current, 1) && s1.Layer.LastConfirmed == s.Layer.LastConfirmed &&
         (c.MaxPrediction != 0 ==> FramesAheadOf(s1.Layer) <= c.MaxPrediction))
  {
  }

  /** `AdvanceFrame` up to the advance: the first save, the disconnects,
    * the rollback, the spectators, the confirmed frame and the local
    * inputs, with the requests made so far. */
  function Prepared<I(==), A(==)>(c: Ctx<I, A>, s: Sess<I, A>): (r: (Outcome, seq<RollbackRequest<I>>, Sess<I, A>))
    requires SessWf(c, s)
    ensures SessWf(c, r.2)
  {
    var (confirmed, reqs1, s1) := Begun(c, s);
    if confirmed.Err? then (Fail(confirmed.failure), reqs1, s1)
    else
      var (o2, reqs2, s2) := Rolled(c, s1, confirmed.value);
      if o2.Fail? then (o2, reqs1 + reqs2, s2)
      else
        var (o3, s3) := LocalInputsCommitted(c, s2);
        (o3, reqs1 + reqs2, s3)
  }

  /** Until the advance the frame stays; in lockstep nothing is asked for,
    * and otherwise without sparse saving the last request saves the
    * current frame. */
  lemma {:induction false} PreparedMeaning<I, A>(c: Ctx<I, A>, s: Sess<I, A>)
    requires SessWf(c, s)
    ensures var (o, reqs, s1) := Prepared(c, s);
      o.Pass? ==> PreparePromise(c, s.Layer.Current, reqs, s1)
  {
    var (confirmed, reqs1, s1) := Begun(c, s);
    if confirmed.Err? {
      return;
    }
    var (o2, reqs2, s2) := Rolled(c, s1, confirmed.value);
    if o2.Fail? {
      return;
    }
    RolledMeaning(c, s1, confirmed.value);
    assert s2.Layer.Current == s.Layer.Current;
    var (o3, s3) := LocalInputsCommitted(c, s2);
    assert s3.Layer.Current == s2.Layer.Current;
    PrepareJoined(c, s.Layer.Current, reqs1, reqs2, s3);
  }

  /** Until the advance, from frame `cur`: the frame stays, in lockstep
    * nothing is asked for, and otherwise without sparse saving the last
    * request saves the current frame. */
  predicate PreparePromise<I, A>(c: Ctx<I, A>, cur: Frame, reqs: seq<RollbackRequest<I>>, s1: Sess<I, A>)
  {
    s1.Layer.Current == cur &&
    (c.MaxPrediction == 0 ==> reqs == []) &&
    (c.MaxPrediction != 0 && !c.SparseSaving ==>
       |reqs| > 0 && reqs[|reqs| - 1].SaveGameState? && reqs[|reqs| - 1].save.Frame == cur)
  }

  lemma {:induction false} PrepareJoined<I, A>(c: Ctx<I, A>, cur: Frame, reqs1: seq<RollbackRequest<I>>, reqs2: seq<RollbackRequest<I>>,
                            s3: Sess<I, A>)
    requires s3.Layer.Current == cur && (c.MaxPrediction == 0 ==> reqs1 == [] && reqs2 == [])
    requires c.MaxPrediction != 0 && !c.SparseSaving ==>
      |reqs2| > 0 && reqs2[|reqs2| - 1].SaveGameState? && reqs2[|reqs2| - 1].save.Frame == cur
    ensures PreparePromise(c, cur, reqs1 + reqs2, s3)
  {
    var all := reqs1 + reqs2;
    if c.MaxPrediction != 0 && !c.SparseSaving {
      assert all[|all| - 1] == reqs2[|reqs2| - 1];
    }
  }

  /** `AdvanceFrame` after the checks: the preparation, the sends to the
    * remote endpoints, and the advance; what it asks for, or the failure
    * that stops it with the state it reached. */
  function Committed<I(==), A(==)>(c: Ctx<I, A>, s: Sess<I, A>): (r: (Result<seq<RollbackRequest<I>>>, Sess<I, A>))
    requires SessWf(c, s)
    ensures SessWf(c, r.1)
  {
    var (o1, reqs1, s1) := Prepared(c, s);
    if o1.Fail? then (Err(o1.failure), s1)
    else
      var sent := LocalInputsSent(s1);
      if sent.Fail? then (Err(sent.failure), s1)
      else
        var (o2, reqs2, s2) := Stepped(c, s1);
        if o2.Fail? then (Err(o2.failure), s2) else (Ok(reqs1 + reqs2), s2)
  }

  /** Whether every local player has given an input. */
  predicate InputsComplete<I, A>(c: Ctx<I, A>, s: Sess<I, A>)
  {
    forall h :: h in HandlesOf(c.Handles, Local) ==> h in s.LocalInputs
  }

  /** `AdvanceFrame`: poll, refuse unless running with every local input,
    * then go on. */
  function AdvancedFrame<I(==), A(==)>(c: Ctx<I, A>, s: Sess<I, A>, remotes: seq<Peer<A>>, spectators: seq<Peer<A>>,
                                       reports: seq<Report<I, A>>): (r: (Result<seq<RollbackRequest<I>>>, Sess<I, A>))
    requires SessWf(c, s) && PollFits(c, s, remotes, spectators)
    ensures SessWf(c, r.1)
  {
    var (o, s1) := Polled(c, s, remotes, spectators, reports);
    if o.Fail? then (Err(o.failure), s1)
    else if !s1.State.Running? || !InputsComplete(c, s1) then (Err(InvalidOperation), s1)
    else Committed(c, s1)
  }

  /** The inner steps of a successful `AdvanceFrame`.  The frame moves by
    * one or stays; when it moves, the local inputs are cleared, the last
    * request asks for that advance, the session is at most `MaxPrediction`
    * frames ahead of the confirmed frame (in lockstep the frame it left is
    * the confirmed one), and without sparse saving the request before it
    * saves the frame it left; when it stays, the session is at its
    * prediction limit.  In lockstep it asks for at most one advance and
    * nothing else. */
  lemma {:induction false} CommittedMeaning<I, A>(c: Ctx<I, A>, s: Sess<I, A>)
    requires SessWf(c, s)
    ensures var (r, s1) := Committed(c, s);
      r.Ok? ==> CommitPromise(c, s.Layer.Current, r.value, s1)
  {
    var (o1, reqs1, s1) := Prepared(c, s);
    if o1.Fail? || LocalInputsSent(s1).Fail? {
      return;
    }
    var (o2, reqs2, s2) := Stepped(c, s1);
    if o2.Fail? {
      return;
    }
    PreparedMeaning(c, s);
    SteppedMeaning(c, s1);
    CommitJoined(c, s.Layer.Current, reqs1, reqs2, s1, s2);
    assert Committed(c, s) == (Ok(reqs1 + reqs2), s2);
  }

  /** What a successful `AdvanceFrame` from frame `cur` asks for with
    * `reqs`, ending in session `s1`. */
  predicate CommitPromise<I, A>(c: Ctx<I, A>, cur: Frame, reqs: seq<RollbackRequest<I>>, s1: Sess<I, A>)
  {
    (s1.Layer.Current == cur || s1.Layer.Current == Plus(cur, 1)) &&
    (s1.Layer.Current == Plus(cur, 1) ==>
       s1.LocalInputs == map[] && |reqs| > 0 && reqs[|reqs| - 1].AdvanceFrame? &&
       (c.MaxPrediction == 0 ==> s1.Layer.LastConfirmed == cur) &&
       (c.MaxPrediction != 0 ==> FramesAheadOf(s1.Layer) <= c.MaxPrediction) &&
       (c.MaxPrediction != 0 && !c.SparseSaving ==>
          |reqs| >= 2 && reqs[|reqs| - 2].SaveGameState? && reqs[|reqs| - 2].save.Frame == cur)) &&
    (s1.Layer.Current == cur ==> !CanAdvance(c, s1.Layer)) &&
    (c.MaxPrediction == 0 ==> |reqs| <= 1 && forall k :: 0 <= k < |reqs| ==> reqs[k].AdvanceFrame?)
  }

  /** The requests and state of the preparation and the advance, joined. */
  lemma {:induction false} CommitJoined<I, A>(c: Ctx<I, A>, cur: Frame, reqs1: seq<RollbackRequest<I>>, reqs2: seq<RollbackRequest<I>>,
                           s1: Sess<I, A>, s2: Sess<I, A>)
    requires PreparePromise(c, cur, reqs1, s1)
    requires !CanAdvance(c, s1.Layer) ==> reqs2 == [] && s2 == s1
    requires CanAdvance(c, s1.Layer) ==>
      |reqs2| == 1 && reqs2[0].AdvanceFrame? && s2.LocalInputs == map[] &&
      s2.Layer.Current == Plus(cur, 1) && s2.Layer.LastConfirmed == s1.Layer.LastConfirmed &&
      (c.MaxPrediction != 0 ==> FramesAheadOf(s2.Layer) <= c.MaxPrediction)
    ensures CommitPromise(c, cur, reqs1 + reqs2, s2)
  {
    var all := reqs1 + reqs2;
    if CanAdvance(c, s1.Layer) {
      assert all[|all| - 1] == reqs2[0];
      if c.MaxPrediction != 0 && !c.SparseSaving {
        assert all[|all| - 2] == reqs1[|reqs1| - 1];
      }
      if c.MaxPrediction == 0 {
        assert all == reqs2;
      }
    } else {
      assert all == reqs1;
    }
  }

  /** The sends after the local inputs: once the preparation passes and no
    * local input was dropped, `AdvanceFrame` fails its assertion, keeping
    * the state the preparation left, exactly when a running remote endpoint
    * expects another number of local inputs than the session holds. */
  lemma {:induction false} CommitSendsChecked<I, A>(c: Ctx<I, A>, s: Sess<I, A>)
    requires SessWf(c, s)
    ensures var (o1, reqs1, s1) := Prepared(c, s);
      var mismatch := exists i :: 0 <= i < |s1.Remotes| && s1.Remotes[i].IsRunning() &&
                                  s1.Remotes[i].LocalPlayers != |s1.LocalInputs|;
      (o1.Pass? && !SomeInputDropped(s1) && mismatch ==> Committed(c, s) == (Err(AssertionFailed), s1)) &&
      (Committed(c, s).0.Ok? ==> o1.Pass? && (SomeInputDropped(s1) || !mismatch))
  {
    var (o1, reqs1, s1) := Prepared(c, s);
    if o1.Pass? && LocalInputsSent(s1).Fail? {
      assert Committed(c, s) == (Err(AssertionFailed), s1);
    }
  }

  /** `AdvanceFrame` refuses, after polling, a session that is not running
    * or lacks a local input, and goes on only from a running session with
    * every local input. */
  lemma {:induction false} AdvanceRefused<I, A>(c: Ctx<I, A>, s: Sess<I, A>, remotes: seq<Peer<A>>, spectators: seq<Peer<A>>,
                             reports: seq<Report<I, A>>)
    requires SessWf(c, s) && PollFits(c, s, remotes, spectators)
    ensures var (o, s1) := Polled(c, s, remotes, spectators, reports);
      var r := AdvancedFrame(c, s, remotes, spectators, reports);
      (o.Pass? && (!s1.State.Running? || !InputsComplete(c, s1)) ==> r == (Err(InvalidOperation), s1)) &&
      (r.0.Ok? ==> o.Pass? && s1.State.Running? && InputsComplete(c, s1) && r == Committed(c, s1))
  {
  }

  // ----- Construction and local inputs -----

  /** The constructor's loop: the queue of every handle in `hs` gets the
    * input delay. */
  function DelaysSet<I>(qs: seq<Queue<I>>, hs: seq<PlayerHandle>, delay: nat): (r: seq<Queue<I>>)
    requires forall j :: 0 <= j < |hs| ==> hs[j].Id < |qs|
    ensures |r| == |qs|
    decreases |hs|
  {
    if hs == [] then qs
    else
      var h := hs[|hs| - 1];
      var r := DelaysSet(qs, hs[..|hs| - 1], delay);
      r[h.Id := DelaySet(r[h.Id], delay)]
  }

  /** Exactly the queues of the listed handles get the delay. */
  lemma {:induction false} DelaysSetMeaning<I>(qs: seq<Queue<I>>, hs: seq<PlayerHandle>, delay: nat)
    requires forall j :: 0 <= j < |hs| ==> hs[j].Id < |qs|
    ensures forall i :: 0 <= i < |qs| ==>
              DelaysSet(qs, hs, delay)[i] == if PlayerHandle(i) in hs then DelaySet(qs[i], delay) else qs[i]
    decreases |hs|
  {
    if hs != [] {
      var init := hs[..|hs| - 1];
      DelaysSetMeaning(qs, init, delay);
      assert hs == init + [hs[|hs| - 1]];
    }
  }

  /** `new P2PSession(...)` from what `StartP2PSession` hands over:
    * statuses all default, a fresh sync layer whose local queues carry the
    * input delay, running at once when there is no endpoint, and sparse
    * saving dropped in lockstep. */
  function Started<I, A(==)>(args: Builders.P2PSessionArgs<A>, blank: I): (r: (Ctx<I, A>, Sess<I, A>))
    requires RegistryWf(args.Registry, args.NumPlayers)
    ensures SessWf(r.0, r.1)
  {
    var reg := args.Registry;
    var n := args.NumPlayers;
    LocalIdsBelow(Ctx(n, args.MaxPrediction, false, reg.Handles, blank),
                  Sess(InitialLayer(n, args.MaxPrediction, blank), reg.Remotes, reg.Spectators, Running,
                       seq(n, _ => Messages.DEFAULT_STATUS), NULL_FRAME, FIRST_FRAME, FIRST_FRAME, 0, [], map[]));
    var l := InitialLayer(n, args.MaxPrediction, blank);
    var l1 := l.(Queues := DelaysSet(l.Queues, HandlesOf(reg.Handles, Local), args.InputDelay));
    DelaysSetMeaning(l.Queues, HandlesOf(reg.Handles, Local), args.InputDelay);
    var c := Ctx(n, args.MaxPrediction, if args.MaxPrediction == 0 && args.SparseSaving then false else args.SparseSaving,
                 reg.Handles, blank);
    var state := if |reg.Remotes| + |reg.Spectators| == 0 then Running else Synchronizing;
    (c, Sess(l1, reg.Remotes, reg.Spectators, state, seq(n, _ => Messages.DEFAULT_STATUS),
             NULL_FRAME, FIRST_FRAME, FIRST_FRAME, 0, [], map[]))
  }

  /** A new session starts at the first frame with nothing confirmed, saved
    * or queued, every player connected with no frame, exactly the local
    * players' queues delayed, running exactly when it has no endpoint, and
    * sparse saving only when not in lockstep. */
  lemma {:induction false} StartedMeaning<I, A>(args: Builders.P2PSessionArgs<A>, blank: I)
    requires RegistryWf(args.Registry, args.NumPlayers)
    ensures var (c, s) := Started(args, blank);
      var n := args.NumPlayers;
      c.NumPlayers == n && c.MaxPrediction == args.MaxPrediction && c.Handles == args.Registry.Handles &&
      (c.SparseSaving <==> args.SparseSaving && args.MaxPrediction > 0) &&
      s.Layer.Current == FIRST_FRAME && s.Layer.LastConfirmed == NULL_FRAME && s.Layer.LastSaved == NULL_FRAME &&
      Untouched(s.Layer.Ring) &&
      (forall i :: 0 <= i < n ==>
         s.Layer.Queues[i] == if IsLocal(c.Handles, PlayerHandle(i)) then DelaySet(InitialQueue(blank), args.InputDelay)
                              else InitialQueue(blank)) &&
      (forall i :: 0 <= i < n ==> s.Status[i] == Messages.DEFAULT_STATUS) &&
      (s.State.Running? <==> args.Registry.Remotes == [] && args.Registry.Spectators == []) &&
      s.Remotes == args.Registry.Remotes && s.Spectators == args.Registry.Spectators &&
      s.DisconnectFrame == NULL_FRAME && s.NextSpectatorFrame == FIRST_FRAME && s.NextSleep == FIRST_FRAME &&
      s.FramesAhead == 0 && s.Events == [] && s.LocalInputs == map[]
  {
    var hs := args.Registry.Handles;
    var n := args.NumPlayers;
    var l := InitialLayer(n, args.MaxPrediction, blank);
    var s := Started(args, blank).1;
    LocalIdsBelow(Started(args, blank).0, s);
    DelaysSetMeaning(l.Queues, HandlesOf(hs, Local), args.InputDelay);
    forall i | 0 <= i < n
      ensures s.Layer.Queues[i] == if IsLocal(hs, PlayerHandle(i)) then DelaySet(InitialQueue(blank), args.InputDelay)
                                   else InitialQueue(blank)
    {
      QueriesAgree(hs, PlayerHandle(i));
      assert l.Queues[i] == InitialQueue(blank);
    }
  }

  /** `AddLocalInput`: only a local handle's input is taken, stamped with
    * the current frame, replacing any earlier one. */
  function LocalInputStored<I, A>(c: Ctx<I, A>, s: Sess<I, A>, h: PlayerHandle, input: I): (r: (Outcome, Sess<I, A>))
    ensures r.0.Pass? <==> IsLocal(c.Handles, h)
    ensures r.0.Fail? ==> r == (Fail(InvalidOperation), s)
    ensures r.0.Pass? ==> r.1 == s.(LocalInputs := s.LocalInputs[h := PlayerInput(s.Layer.Current, input)])
  {
    if !IsLocal(c.Handles, h) then (Fail(InvalidOperation), s)
    else (Pass, s.(LocalInputs := s.LocalInputs[h := PlayerInput(s.Layer.Current, input)]))
  }

  /** Once every local player has given an input in the current frame, the
    * session is ready to advance, and each input passes the sync layer's
    * check that it is for the current frame. */
  lemma {:induction false} StoredInputsFit<I, A>(c: Ctx<I, A>, s: Sess<I, A>, hs: seq<PlayerHandle>, inputs: seq<I>)
    requires |inputs| == |hs| && HandlesOf(c.Handles, Local) == hs && DistinctHandles(c.Handles)
    ensures var s1 := StoredAll(c, s, hs, inputs);
      InputsComplete(c, s1) &&
      forall h :: h in hs ==> s1.LocalInputs[h].Frame == s.Layer.Current
  {
    forall h | h in hs
      ensures IsLocal(c.Handles, h)
    {
      QueriesAgree(c.Handles, h);
    }
    StoredAllMeaning(c, s, hs, inputs);
  }

  /** `AddLocalInput` for each handle of `hs` in turn. */
  function StoredAll<I, A>(c: Ctx<I, A>, s: Sess<I, A>, hs: seq<PlayerHandle>, inputs: seq<I>): (r: Sess<I, A>)
    requires |inputs| == |hs|
    decreases |hs|
  {
    if hs == [] then s
    else LocalInputStored(c, StoredAll(c, s, hs[..|hs| - 1], inputs[..|hs| - 1]), hs[|hs| - 1], inputs[|hs| - 1]).1
  }

  lemma {:induction false} StoredAllMeaning<I, A>(c: Ctx<I, A>, s: Sess<I, A>, hs: seq<PlayerHandle>, inputs: seq<I>)
    requires |inputs| == |hs| && forall h :: h in hs ==> IsLocal(c.Handles, h)
    ensures var s1 := StoredAll(c, s, hs, inputs);
      s1.Layer == s.Layer && forall h :: h in hs ==> h in s1.LocalInputs && s1.LocalInputs[h].Frame == s.Layer.Current
    decreases |hs|
  {
    if hs != [] {
      StoredAllMeaning(c, s, hs[..|hs| - 1], inputs[..|hs| - 1]);
      assert forall h :: h in hs ==> h in hs[..|hs| - 1] || h == hs[|hs| - 1];
    }
  }
}
