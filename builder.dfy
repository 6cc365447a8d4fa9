/** `SessionBuilder` (Builder.cs): collects the players and the settings of
  * a session, validating each as it is given, and starts at most one
  * session. */
module Builders {
  import opened Outcomes
  import opened Rollback
  import opened SessionConstants
  import opened PlayerRegistries
  import Protocols

  const DEFAULT_PLAYERS: nat := 2
  const DEFAULT_SAVE_MODE: bool := false
  const DEFAULT_DESYNC_DETECTION: DesyncDetection := DesyncDetection(false, 0)
  const DEFAULT_INPUT_DELAY: nat := 0
  const DEFAULT_DISCONNECT_TIMEOUT: int := 2000
  const DEFAULT_DISCONNECT_NOTIFY_START: int := 500
  const DEFAULT_FPS: nat := 60
  const DEFAULT_MAX_PREDICTION_FRAMES: nat := 8
  const DEFAULT_CHECK_DISTANCE: nat := 2
  const DEFAULT_MAX_FRAMES_BEHIND: nat := 10
  const DEFAULT_CATCHUP_SPEED: nat := 1

  /** Every field of the builder; the two time spans in milliseconds. */
  datatype Settings<A> = Settings(
    NumPlayers: nat, LocalPlayers: nat, MaxPrediction: nat, Fps: nat, SparseSaving: bool,
    Desync: DesyncDetection, DisconnectTimeout: int, DisconnectNotifyStart: int,
    Registry: Registry<A>, InputDelay: nat, CheckDist: nat, MaxFramesBehind: nat,
    CatchupSpeed: nat, Started: bool)

  /** A fresh builder: two players, no handle, nothing started. */
  function Fresh<A>(): (s: Settings<A>)
    ensures s.NumPlayers == 2 && s.MaxPrediction == 8 && s.Fps == 60 && s.InputDelay == 0 && s.CheckDist == 2
    ensures !s.SparseSaving && !s.Desync.On && !s.Started && s.LocalPlayers == 0
    ensures s.Registry == Registry([], [], [])
  {
    Settings(DEFAULT_PLAYERS, 0, DEFAULT_MAX_PREDICTION_FRAMES, DEFAULT_FPS, DEFAULT_SAVE_MODE,
             DEFAULT_DESYNC_DETECTION, DEFAULT_DISCONNECT_TIMEOUT, DEFAULT_DISCONNECT_NOTIFY_START,
             Registry([], [], []), DEFAULT_INPUT_DELAY, DEFAULT_CHECK_DISTANCE, DEFAULT_MAX_FRAMES_BEHIND,
             DEFAULT_CATCHUP_SPEED, false)
  }

  /** What every builder keeps: the validated settings stay valid, handles
    * are distinct, the local counter counts at least the local handles,
    * and endpoints exist only once a session was started. */
  predicate BuilderWf<A>(s: Settings<A>)
  {
    s.NumPlayers <= MAX_NUM_PLAYERS && s.Fps > 0 && s.MaxFramesBehind >= 1 && s.CatchupSpeed >= 1 &&
    DistinctHandles(s.Registry.Handles) &&
    s.LocalPlayers >= |HandlesOf(s.Registry.Handles, Local)| &&
    (!s.Started ==> s.Registry.Remotes == [] && s.Registry.Spectators == [])
  }

  lemma FreshIsWf<A>()
    ensures BuilderWf(Fresh<A>())
  {
  }

  // ----- players -----

  predicate IdFits(k: PlayerKind, h: PlayerHandle, numPlayers: nat)
  {
    if k.Spectator? then h.Id >= numPlayers else h.Id < numPlayers
  }

  function Registered<A>(s: Settings<A>, h: PlayerHandle, t: PlayerType<A>): Settings<A>
  {
    s.(Registry := s.Registry.(Handles := s.Registry.Handles + [(h, t)]))
  }

  /** `AddPlayer`.  A handle already in use is refused; players take ids
    * below the player count and spectators ids from it on.  A local player
    * is counted before its id is checked, so a refused local player is
    * counted all the same. */
  function PlayerAdded<A>(s: Settings<A>, t: PlayerType<A>, h: PlayerHandle): (r: (Settings<A>, Outcome))
    ensures r.1 == Pass <==> TypeOf(s.Registry.Handles, h).None? && IdFits(t.Kind, h, s.NumPlayers)
    ensures r.1 != Pass ==> r.1 == Fail(InvalidOperation) && r.0.Registry == s.Registry
    ensures r.1 == Pass ==> r.0.Registry.Handles == s.Registry.Handles + [(h, t)]
    ensures r.0.LocalPlayers == if t.Kind.Local? && TypeOf(s.Registry.Handles, h).None? then s.LocalPlayers + 1 else s.LocalPlayers
    ensures r.0.(Registry := s.Registry, LocalPlayers := s.LocalPlayers) == s
  {
    if TypeOf(s.Registry.Handles, h).Some? then (s, Fail(InvalidOperation))
    else match t.Kind
      case Local =>
        var s1 := s.(LocalPlayers := s.LocalPlayers + 1);
        if h.Id >= s.NumPlayers then (s1, Fail(InvalidOperation)) else (Registered(s1, h, t), Pass)
      case Remote =>
        if h.Id >= s.NumPlayers then (s, Fail(InvalidOperation)) else (Registered(s, h, t), Pass)
      case Spectator =>
        if h.Id < s.NumPlayers then (s, Fail(InvalidOperation)) else (Registered(s, h, t), Pass)
  }

  lemma HandlesOfAppend<A>(hs: seq<(PlayerHandle, PlayerType<A>)>, x: (PlayerHandle, PlayerType<A>), k: PlayerKind)
    ensures HandlesOf(hs + [x], k) == HandlesOf(hs, k) + (if x.1.Kind == k then [x.0] else [])
  {
    assert (hs + [x])[..|hs|] == hs;
  }

  lemma {:induction false} PlayerAddedKeepsWf<A>(s: Settings<A>, t: PlayerType<A>, h: PlayerHandle)
    requires BuilderWf(s)
    ensures BuilderWf(PlayerAdded(s, t, h).0)
  {
    var hs := s.Registry.Handles;
    if PlayerAdded(s, t, h).1 == Pass {
      HandlesOfAppend(hs, (h, t), Local);
      var hs' := hs + [(h, t)];
      forall i, j | 0 <= i < j < |hs'|
        ensures hs'[i].0 != hs'[j].0
      {
        if j == |hs| {
          assert hs'[i] == hs[i];
        }
      }
    }
  }

  /** `WithNumPlayers`: only 0 to 16 players. */
  function NumPlayersSet<A>(s: Settings<A>, v: int): (r: (Settings<A>, Outcome))
    ensures r.1 == Pass <==> 0 <= v <= MAX_NUM_PLAYERS
    ensures r.1 == Pass ==> r.0 == s.(NumPlayers := v)
    ensures r.1 != Pass ==> r == (s, Fail(InvalidOperation))
  {
    if v < 0 || v > MAX_NUM_PLAYERS then (s, Fail(InvalidOperation)) else (s.(NumPlayers := v), Pass)
  }

  // ----- starting -----

  /** `MarkStarted`: a builder starts one session. */
  function MarkedStarted<A>(s: Settings<A>): (r: (Settings<A>, Outcome))
    ensures r.1 == Pass <==> !s.Started
    ensures r.1 != Pass ==> r == (s, Fail(InvalidOperation))
    ensures r.0 == s.(Started := true)
  {
    if s.Started then (s, Fail(InvalidOperation)) else (s.(Started := true), Pass)
  }

  /** Every player id below `n` is registered. */
  predicate AllRegistered<A>(hs: seq<(PlayerHandle, PlayerType<A>)>, n: nat)
  {
    forall i :: 0 <= i < n ==> TypeOf(hs, PlayerHandle(i)).Some?
  }

  /** An entry of `addrCount`: a remote or spectator type and the handles
    * registered with it, in registration order. */
  type Group<A> = (PlayerType<A>, seq<PlayerHandle>)

  function GroupIndex<A(==)>(gs: seq<Group<A>>, t: PlayerType<A>): (r: Option<nat>)
    ensures r.Some? ==> r.value < |gs| && gs[r.value].0 == t
    ensures r.None? <==> forall k :: 0 <= k < |gs| ==> gs[k].0 != t
  {
    if gs == [] then None
    else if gs[|gs| - 1].0 == t then Some(|gs| - 1)
    else GroupIndex(gs[..|gs| - 1], t)
  }

  /** `addrCount[playerType].Add(handle)`, creating the list when the type
    * is new. */
  function Joined<A(==)>(gs: seq<Group<A>>, t: PlayerType<A>, h: PlayerHandle): seq<Group<A>>
  {
    match GroupIndex(gs, t)
    case None => gs + [(t, [h])]
    case Some(k) => gs[k := (t, gs[k].1 + [h])]
  }

  /** The first loop of `StartP2PSession`: the remote and spectator handles
    * grouped by their player type.  Dictionary order is taken to be
    * insertion order. */
  function Grouped<A(==)>(hs: seq<(PlayerHandle, PlayerType<A>)>): seq<Group<A>>
  {
    if hs == [] then []
    else
      var last := hs[|hs| - 1];
      var gs := Grouped(hs[..|hs| - 1]);
      if last.1.Kind.Local? then gs else Joined(gs, last.1, last.0)
  }

  /** The groups have distinct types, none of them local and none empty. */
  predicate GroupsWf<A(==)>(gs: seq<Group<A>>)
  {
    (forall i, j :: 0 <= i < j < |gs| ==> gs[i].0 != gs[j].0) &&
    (forall i :: 0 <= i < |gs| ==> !gs[i].0.Kind.Local? && |gs[i].1| > 0)
  }

  /** A handle is in the group of a type exactly when it is registered with
    * that type, which is not local. */
  predicate GroupsMatch<A(==)>(gs: seq<Group<A>>, hs: seq<(PlayerHandle, PlayerType<A>)>)
  {
    (forall k, j :: 0 <= k < |gs| && 0 <= j < |gs[k].1| ==> (gs[k].1[j], gs[k].0) in hs) &&
    (forall i :: 0 <= i < |hs| && !hs[i].1.Kind.Local? ==>
       exists k :: 0 <= k < |gs| && gs[k].0 == hs[i].1 && hs[i].0 in gs[k].1)
  }

  lemma {:induction false} GroupedMeaning<A>(hs: seq<(PlayerHandle, PlayerType<A>)>)
    ensures GroupsWf(Grouped(hs)) && GroupsMatch(Grouped(hs), hs)
    decreases |hs|
  {
    if hs != [] {
      var init := hs[..|hs| - 1];
      var last := hs[|hs| - 1];
      assert hs == init + [last];
      var gs := Grouped(init);
      GroupedMeaning(init);
      if !last.1.Kind.Local? {
        JoinedMeaning(gs, init, last.1, last.0);
      } else {
        forall i | 0 <= i < |hs| && !hs[i].1.Kind.Local?
          ensures exists k :: 0 <= k < |gs| && gs[k].0 == hs[i].1 && hs[i].0 in gs[k].1
        {
          assert hs[i] == init[i];
        }
      }
    }
  }

  lemma {:induction false} JoinedMeaning<A>(gs: seq<Group<A>>, hs: seq<(PlayerHandle, PlayerType<A>)>,
                                              t: PlayerType<A>, h: PlayerHandle)
    requires GroupsWf(gs) && GroupsMatch(gs, hs) && !t.Kind.Local?
    ensures GroupsWf(Joined(gs, t, h)) && GroupsMatch(Joined(gs, t, h), hs + [(h, t)])
  {
    var js := Joined(gs, t, h);
    var hs' := hs + [(h, t)];
    match GroupIndex(gs, t)
    case None =>
      assert js == gs + [(t, [h])];
      forall i | 0 <= i < |hs'| && !hs'[i].1.Kind.Local?
        ensures exists k :: 0 <= k < |js| && js[k].0 == hs'[i].1 && hs'[i].0 in js[k].1
      {
        if i < |hs| {
          assert hs'[i] == hs[i];
          var k :| 0 <= k < |gs| && gs[k].0 == hs[i].1 && hs[i].0 in gs[k].1;
          assert js[k] == gs[k];
        } else {
          assert js[|gs|] == (t, [h]);
        }
      }
    case Some(m) =>
      forall k, j | 0 <= k < |js| && 0 <= j < |js[k].1|
        ensures (js[k].1[j], js[k].0) in hs'
      {
        if k == m && j == |gs[m].1| {
        } else {
          assert (gs[k].1[j], gs[k].0) in hs;
        }
      }
      forall i | 0 <= i < |hs'| && !hs'[i].1.Kind.Local?
        ensures exists k :: 0 <= k < |js| && js[k].0 == hs'[i].1 && hs'[i].0 in js[k].1
      {
        if i < |hs| {
          assert hs'[i] == hs[i];
          var k :| 0 <= k < |gs| && gs[k].0 == hs[i].1 && hs[i].0 in gs[k].1;
          assert js[k].0 == hs[i].1 && hs[i].0 in js[k].1;
        } else {
          assert js[m].0 == t && h in js[m].1;
        }
      }
  }

  /** The endpoint `CreateEndpoint` builds for a group, seen once it is
    * synchronizing: a spectator's endpoint counts every player as local. */
  function EndpointOf<A>(g: Group<A>, localPlayers: nat, numPlayers: nat): Peer<A>
  {
    FreshPeer(g.0.Address, g.1, if g.0.Kind.Spectator? then numPlayers else localPlayers, numPlayers)
  }

  /** One step of the second loop: `Remotes.Add` / `Spectators.Add`, which
    * refuses an address already present. */
  function EndpointAdded<A(==)>(reg: Registry<A>, localPlayers: nat, numPlayers: nat, g: Group<A>): (r: (Registry<A>, Outcome))
    ensures r.0.Handles == reg.Handles
    ensures r.1 != Pass ==> r == (reg, Fail(Argument))
  {
    match g.0.Kind
    case Local => (reg, Pass)
    case Remote =>
      if PeerIndex(reg.Remotes, g.0.Address).Some? then (reg, Fail(Argument))
      else (reg.(Remotes := reg.Remotes + [EndpointOf(g, localPlayers, numPlayers)]), Pass)
    case Spectator =>
      if PeerIndex(reg.Spectators, g.0.Address).Some? then (reg, Fail(Argument))
      else (reg.(Spectators := reg.Spectators + [EndpointOf(g, localPlayers, numPlayers)]), Pass)
  }

  /** The second loop of `StartP2PSession` over the first `|gs|` groups; it
    * stops at the first refused address, keeping what was added before. */
  function EndpointsAdded<A(==)>(reg: Registry<A>, localPlayers: nat, numPlayers: nat, gs: seq<Group<A>>): (r: (Registry<A>, Outcome))
    ensures r.0.Handles == reg.Handles
    ensures r.1 == Pass || r.1 == Fail(Argument)
  {
    if gs == [] then (reg, Pass)
    else
      var before := EndpointsAdded(reg, localPlayers, numPlayers, gs[..|gs| - 1]);
      if before.1 != Pass then before else EndpointAdded(before.0, localPlayers, numPlayers, gs[|gs| - 1])
  }

  lemma {:induction false} EndpointsStopAtError<A>(reg: Registry<A>, lp: nat, n: nat, gs: seq<Group<A>>, i: nat)
    requires i <= |gs| && EndpointsAdded(reg, lp, n, gs[..i]).1 != Pass
    ensures EndpointsAdded(reg, lp, n, gs) == EndpointsAdded(reg, lp, n, gs[..i])
    decreases |gs| - i
  {
    if i < |gs| {
      assert gs[..i + 1][..i] == gs[..i];
      EndpointsStopAtError(reg, lp, n, gs, i + 1);
    } else {
      assert gs[..i] == gs;
    }
  }

  /** The endpoints of the groups of one kind, in group order. */
  function EndpointsOf<A>(gs: seq<Group<A>>, k: PlayerKind, localPlayers: nat, numPlayers: nat): (r: seq<Peer<A>>)
    ensures |r| <= |gs|
  {
    if gs == [] then []
    else
      var rest := EndpointsOf(gs[..|gs| - 1], k, localPlayers, numPlayers);
      var g := gs[|gs| - 1];
      if g.0.Kind == k then rest + [EndpointOf(g, localPlayers, numPlayers)] else rest
  }

  /** Each endpoint listed is that of a group of the kind. */
  lemma {:induction false} EndpointsOfSound<A>(gs: seq<Group<A>>, k: PlayerKind, lp: nat, n: nat, i: nat) returns (j: nat)
    requires i < |EndpointsOf(gs, k, lp, n)|
    ensures j < |gs| && gs[j].0.Kind == k && EndpointsOf(gs, k, lp, n)[i] == EndpointOf(gs[j], lp, n)
    decreases |gs|
  {
    var init := gs[..|gs| - 1];
    if i < |EndpointsOf(init, k, lp, n)| {
      j := EndpointsOfSound(init, k, lp, n, i);
      assert init[j] == gs[j];
    } else {
      j := |gs| - 1;
    }
  }

  /** Each group of the kind has its endpoint listed. */
  lemma {:induction false} EndpointsOfComplete<A>(gs: seq<Group<A>>, k: PlayerKind, lp: nat, n: nat, j: nat)
    requires j < |gs| && gs[j].0.Kind == k
    ensures EndpointOf(gs[j], lp, n) in EndpointsOf(gs, k, lp, n)
    decreases |gs|
  {
    if j < |gs| - 1 {
      EndpointsOfComplete(gs[..|gs| - 1], k, lp, n, j);
    }
  }

  /** Starting from no endpoints, well-formed groups never clash: every
    * group gets its endpoint, remotes and spectators apart. */
  lemma {:induction false} EndpointsFromNone<A>(hs: seq<(PlayerHandle, PlayerType<A>)>, lp: nat, n: nat, gs: seq<Group<A>>)
    requires GroupsWf(gs)
    ensures EndpointsAdded(Registry(hs, [], []), lp, n, gs) ==
            (Registry(hs, EndpointsOf(gs, Remote, lp, n), EndpointsOf(gs, Spectator, lp, n)), Pass)
    decreases |gs|
  {
    if gs != [] {
      var init := gs[..|gs| - 1];
      var g := gs[|gs| - 1];
      assert GroupsWf(init) by {
        assert forall i :: 0 <= i < |init| ==> init[i] == gs[i];
      }
      EndpointsFromNone(hs, lp, n, init);
      var peers := EndpointsOf(init, g.0.Kind, lp, n);
      forall i | 0 <= i < |peers|
        ensures peers[i].Addr != g.0.Address
      {
        var j := EndpointsOfSound(init, g.0.Kind, lp, n, i);
        assert init[j] == gs[j];
      }
    }
  }

  /** The session a `StartP2PSession` hands its arguments to. */
  datatype P2PSessionArgs<A> = P2PSessionArgs(NumPlayers: nat, MaxPrediction: nat, Registry: Registry<A>,
                                              SparseSaving: bool, Desync: DesyncDetection, InputDelay: nat)

  /** `StartP2PSession`: every player id registered, one synchronizing
    * endpoint per remote or spectator type, then the session is marked
    * started; a failure keeps the endpoints already added. */
  function P2PStarted<A(==)>(s: Settings<A>): (r: (Settings<A>, Result<P2PSessionArgs<A>>))
    ensures !AllRegistered(s.Registry.Handles, s.NumPlayers) ==> r == (s, Err(InvalidOperation))
    ensures r.1.Ok? <==> AllRegistered(s.Registry.Handles, s.NumPlayers) && !s.Started &&
                         EndpointsAdded(s.Registry, s.LocalPlayers, s.NumPlayers, Grouped(s.Registry.Handles)).1 == Pass
    ensures r.1.Ok? ==> r.0.Started && r.1.value.Registry == r.0.Registry && r.1.value.NumPlayers == s.NumPlayers
    ensures r.0.(Registry := s.Registry, Started := s.Started) == s && r.0.Registry.Handles == s.Registry.Handles
  {
    if !AllRegistered(s.Registry.Handles, s.NumPlayers) then (s, Err(InvalidOperation))
    else
      var added := EndpointsAdded(s.Registry, s.LocalPlayers, s.NumPlayers, Grouped(s.Registry.Handles));
      var s1 := s.(Registry := added.0);
      if added.1.Fail? then (s1, Err(added.1.failure))
      else
        var m := MarkedStarted(s1);
        if m.1.Fail? then (m.0, Err(m.1.failure))
        else (m.0, Ok(P2PSessionArgs(s.NumPlayers, s.MaxPrediction, added.0, s.SparseSaving, s.Desync, s.InputDelay)))
  }

  /** A builder that has not started has no endpoint, so its start cannot
    * clash on an address. */
  lemma {:induction false} P2PStartedKeepsWf<A>(s: Settings<A>)
    requires BuilderWf(s)
    ensures BuilderWf(P2PStarted(s).0)
    ensures AllRegistered(s.Registry.Handles, s.NumPlayers) && !s.Started ==> P2PStarted(s).1.Ok?
  {
    if !s.Started {
      GroupedMeaning(s.Registry.Handles);
      EndpointsFromNone(s.Registry.Handles, s.LocalPlayers, s.NumPlayers, Grouped(s.Registry.Handles));
      assert s.Registry == Registry(s.Registry.Handles, [], []);
    }
  }

  /** Every remote endpoint expects `localPlayers` local inputs and every
    * spectator endpoint `numPlayers`. */
  predicate EndpointCounts<A>(reg: Registry<A>, localPlayers: nat, numPlayers: nat)
  {
    (forall i :: 0 <= i < |reg.Remotes| ==> reg.Remotes[i].LocalPlayers == localPlayers) &&
    (forall i :: 0 <= i < |reg.Spectators| ==> reg.Spectators[i].LocalPlayers == numPlayers)
  }

  /** The second loop builds remote endpoints with the builder's local
    * count and spectator endpoints with the player count. */
  lemma {:induction false} EndpointsCounted<A>(reg: Registry<A>, lp: nat, n: nat, gs: seq<Group<A>>)
    requires EndpointCounts(reg, lp, n)
    ensures EndpointCounts(EndpointsAdded(reg, lp, n, gs).0, lp, n)
    decreases |gs|
  {
    if gs != [] {
      EndpointsCounted(reg, lp, n, gs[..|gs| - 1]);
    }
  }

  /** The endpoints of a started session: each remote one expects as many
    * local inputs as the builder counted local players, refused ones
    * included, and each spectator one an input per player. */
  lemma {:induction false} StartedEndpointCounts<A>(s: Settings<A>)
    requires BuilderWf(s)
    ensures var r := P2PStarted(s).1;
      r.Ok? ==> EndpointCounts(r.value.Registry, s.LocalPlayers, s.NumPlayers)
  {
    if !s.Started {
      EndpointsCounted(s.Registry, s.LocalPlayers, s.NumPlayers, Grouped(s.Registry.Handles));
    }
  }

  /** The arguments of a sync-test session. */
  datatype SyncTestArgs = SyncTestArgs(NumPlayers: nat, MaxPrediction: nat, CheckDist: nat, InputDelay: nat)

  /** `StartSynctestSession`: the check distance must be below the
    * prediction window. */
  function SynctestStarted<A>(s: Settings<A>): (r: (Settings<A>, Result<SyncTestArgs>))
    ensures r.1.Ok? <==> s.CheckDist < s.MaxPrediction && !s.Started
    ensures r.1.Err? ==> r.1 == Err(InvalidOperation)
    ensures r.1.Ok? ==> r.0 == s.(Started := true) && r.1.value == SyncTestArgs(s.NumPlayers, s.MaxPrediction, s.CheckDist, s.InputDelay)
    ensures r.1.Err? ==> r.0 == s
  {
    if s.CheckDist >= s.MaxPrediction then (s, Err(InvalidOperation))
    else
      var m := MarkedStarted(s);
      if m.1.Fail? then (m.0, Err(m.1.failure))
      else (m.0, Ok(SyncTestArgs(s.NumPlayers, s.MaxPrediction, s.CheckDist, s.InputDelay)))
  }

  /** A builder starts at most one session: once started, nothing unstarts
    * it and every later start fails. */
  lemma {:induction false} AtMostOneSession<A>(s: Settings<A>, t: PlayerType<A>, h: PlayerHandle, v: int)
    requires s.Started
    ensures P2PStarted(s).1.Err? && SynctestStarted(s).1.Err?
    ensures P2PStarted(s).0.Started && SynctestStarted(s).0.Started
    ensures PlayerAdded(s, t, h).0.Started && NumPlayersSet(s, v).0.Started
  {
  }

  // ----- the stale handle -----

  /** A handle whose id breaks the bounds of its kind. */
  predicate HasStaleHandle<A>(s: Settings<A>)
  {
    exists i :: 0 <= i < |s.Registry.Handles| && !IdFits(s.Registry.Handles[i].1.Kind, s.Registry.Handles[i].0, s.NumPlayers)
  }

  /** A shape of builder calls that ends with a started session whose
    * remote endpoint holds a handle that is not a player's: ids are checked
    * against the player count of the moment, and lowering the count later
    * does not revisit them.  The two remotes sit behind different
    * addresses, so each endpoint holds one handle and the endpoint's
    * `Array.Sort` succeeds as written. */
  lemma {:induction false} StaleHandleStarts<A>(a: A, b: A)
    requires a != b
    ensures var s1 := NumPlayersSet(Fresh<A>(), 3).0;
      var s2 := PlayerAdded(s1, PlayerType(Local, a), PlayerHandle(0)).0;
      var s3 := PlayerAdded(s2, PlayerType(Remote, a), PlayerHandle(1)).0;
      var s4 := PlayerAdded(s3, PlayerType(Remote, b), PlayerHandle(2)).0;
      var s5 := NumPlayersSet(s4, 2).0;
      var gs := Grouped(s5.Registry.Handles);
      var r := P2PStarted(s5).1;
      (forall k :: 0 <= k < |gs| ==> Protocols.SortAsWritten(gs[k].1).Ok?) &&
      r.Ok? && r.value.NumPlayers == 2 && !RegistryWf(r.value.Registry, 2)
  {
    var s1 := NumPlayersSet(Fresh<A>(), 3).0;
    var s2 := PlayerAdded(s1, PlayerType(Local, a), PlayerHandle(0)).0;
    var s3 := PlayerAdded(s2, PlayerType(Remote, a), PlayerHandle(1)).0;
    var s4 := PlayerAdded(s3, PlayerType(Remote, b), PlayerHandle(2)).0;
    var s5 := NumPlayersSet(s4, 2).0;
    StaleCalls(a, b, s1, s2, s3, s4);
    assert s5 == s4.(NumPlayers := 2);
    StaleStart(s5, a, b);
  }

  /** The start of the builder the calls above leave. */
  lemma {:induction false} StaleStart<A>(s: Settings<A>, a: A, b: A)
    requires a != b && s.NumPlayers == 2 && s.LocalPlayers == 1 && !s.Started
    requires s.Registry == Registry([(PlayerHandle(0), PlayerType(Local, a)), (PlayerHandle(1), PlayerType(Remote, a)),
                                     (PlayerHandle(2), PlayerType(Remote, b))], [], [])
    ensures var gs := Grouped(s.Registry.Handles);
      var r := P2PStarted(s).1;
      (forall k :: 0 <= k < |gs| ==> Protocols.SortAsWritten(gs[k].1).Ok?) &&
      r.Ok? && r.value.NumPlayers == 2 && !RegistryWf(r.value.Registry, 2)
  {
    var hs := s.Registry.Handles;
    assert TypeOf(hs, PlayerHandle(0)).Some? && TypeOf(hs, PlayerHandle(1)).Some?;
    var gs := [(PlayerType(Remote, a), [PlayerHandle(1)]), (PlayerType(Remote, b), [PlayerHandle(2)])];
    StaleGrouping(hs, a, b);
    StaleEndpoints(s.Registry, a, b);
    var peer := EndpointOf(gs[1], 1, 2);
    assert peer.Handles[0].Id == 2;
  }

  lemma {:induction false} StaleCalls<A>(a: A, b: A, s1: Settings<A>, s2: Settings<A>, s3: Settings<A>, s4: Settings<A>)
    requires s1 == NumPlayersSet(Fresh<A>(), 3).0
    requires s2 == PlayerAdded(s1, PlayerType(Local, a), PlayerHandle(0)).0
    requires s3 == PlayerAdded(s2, PlayerType(Remote, a), PlayerHandle(1)).0
    requires s4 == PlayerAdded(s3, PlayerType(Remote, b), PlayerHandle(2)).0
    ensures s4.Registry == Registry([(PlayerHandle(0), PlayerType(Local, a)), (PlayerHandle(1), PlayerType(Remote, a)),
                                     (PlayerHandle(2), PlayerType(Remote, b))], [], [])
    ensures s4.LocalPlayers == 1 && !s4.Started
  {
    assert s1.NumPlayers == 3 && s1.Registry == Registry([], [], []);
    assert s2.Registry.Handles == [(PlayerHandle(0), PlayerType(Local, a))];
    assert TypeOf(s2.Registry.Handles, PlayerHandle(1)).None?;
    assert s3.Registry.Handles == s2.Registry.Handles + [(PlayerHandle(1), PlayerType(Remote, a))];
    assert TypeOf(s3.Registry.Handles, PlayerHandle(2)).None?;
  }

  lemma {:induction false} StaleGrouping<A>(hs: seq<(PlayerHandle, PlayerType<A>)>, a: A, b: A)
    requires a != b
    requires hs == [(PlayerHandle(0), PlayerType(Local, a)), (PlayerHandle(1), PlayerType(Remote, a)),
                    (PlayerHandle(2), PlayerType(Remote, b))]
    ensures Grouped(hs) == [(PlayerType(Remote, a), [PlayerHandle(1)]), (PlayerType(Remote, b), [PlayerHandle(2)])]
  {
    var ta := PlayerType(Remote, a);
    var tb := PlayerType(Remote, b);
    assert hs[..1][..0] == [] && hs[..2][..1] == hs[..1] && hs[..3] == hs && hs[..3][..2] == hs[..2];
    assert Grouped(hs[..1]) == [];
    assert Grouped(hs[..2]) == [(ta, [PlayerHandle(1)])];
    assert GroupIndex([(ta, [PlayerHandle(1)])], tb) == None;
    assert Grouped(hs) == Joined(Grouped(hs[..2]), tb, PlayerHandle(2));
  }

  lemma {:induction false} StaleEndpoints<A>(reg: Registry<A>, a: A, b: A)
    requires a != b && reg.Remotes == []
    ensures var gs := [(PlayerType(Remote, a), [PlayerHandle(1)]), (PlayerType(Remote, b), [PlayerHandle(2)])];
      EndpointsAdded(reg, 1, 2, gs) == (reg.(Remotes := [EndpointOf(gs[0], 1, 2), EndpointOf(gs[1], 1, 2)]), Pass)
  {
    var gs := [(PlayerType(Remote, a), [PlayerHandle(1)]), (PlayerType(Remote, b), [PlayerHandle(2)])];
    var pa := EndpointOf(gs[0], 1, 2);
    var pb := EndpointOf(gs[1], 1, 2);
    assert gs[..1][..0] == [] && gs[..2] == gs;
    assert EndpointsAdded(reg, 1, 2, []) == (reg, Pass);
    assert PeerIndex(reg.Remotes, a).None? && reg.Remotes + [pa] == [pa];
    assert EndpointsAdded(reg, 1, 2, gs[..1]) == (reg.(Remotes := [pa]), Pass);
    assert PeerIndex([pa], b).None?;
    assert [pa] + [pb] == [pa, pb];
  }

  /** `StartP2PSession` with the bounds checked again at the start. */
  function CheckedP2PStarted<A(==)>(s: Settings<A>): (r: (Settings<A>, Result<P2PSessionArgs<A>>))
    ensures HasStaleHandle(s) ==> r == (s, Err(InvalidOperation))
    ensures !HasStaleHandle(s) ==> r == P2PStarted(s)
  {
    if HasStaleHandle(s) then (s, Err(InvalidOperation)) else P2PStarted(s)
  }

  /** The registry of a session the checked start creates is one a session
    * can rely on. */
  lemma {:induction false} CheckedStartIsWf<A>(s: Settings<A>)
    requires BuilderWf(s) && CheckedP2PStarted(s).1.Ok?
    ensures var args := CheckedP2PStarted(s).1.value; RegistryWf(args.Registry, args.NumPlayers)
  {
    var hs := s.Registry.Handles;
    var n := s.NumPlayers;
    var lp := s.LocalPlayers;
    var gs := Grouped(hs);
    GroupedMeaning(hs);
    EndpointsFromNone(hs, lp, n, gs);
    assert s.Registry == Registry(hs, [], []);
    var reg := Registry(hs, EndpointsOf(gs, Remote, lp, n), EndpointsOf(gs, Spectator, lp, n));
    assert CheckedP2PStarted(s).1.value.Registry == reg;
    EndpointsPresent(hs, gs, lp, n, Remote);
    EndpointsPresent(hs, gs, lp, n, Spectator);
    RemoteEndpointsWf(hs, gs, lp, n);
  }

  /** Every registered remote or spectator address has its endpoint. */
  lemma {:induction false} EndpointsPresent<A>(hs: seq<(PlayerHandle, PlayerType<A>)>, gs: seq<Group<A>>, lp: nat, n: nat, k: PlayerKind)
    requires GroupsMatch(gs, hs) && !k.Local?
    ensures forall i :: 0 <= i < |hs| && hs[i].1.Kind == k ==> PeerIndex(EndpointsOf(gs, k, lp, n), hs[i].1.Address).Some?
  {
    forall i | 0 <= i < |hs| && hs[i].1.Kind == k
      ensures PeerIndex(EndpointsOf(gs, k, lp, n), hs[i].1.Address).Some?
    {
      var g :| 0 <= g < |gs| && gs[g].0 == hs[i].1 && hs[i].0 in gs[g].1;
      EndpointsOfComplete(gs, k, lp, n, g);
      var peers := EndpointsOf(gs, k, lp, n);
      var p :| 0 <= p < |peers| && peers[p] == EndpointOf(gs[g], lp, n);
      assert peers[p].Addr == hs[i].1.Address;
    }
  }

  /** With every id in the bounds of its kind, remote endpoints hold only
    * players. */
  lemma {:induction false} RemoteEndpointsWf<A>(hs: seq<(PlayerHandle, PlayerType<A>)>, gs: seq<Group<A>>, lp: nat, n: nat)
    requires GroupsMatch(gs, hs)
    requires forall i :: 0 <= i < |hs| ==> IdFits(hs[i].1.Kind, hs[i].0, n)
    ensures PeersWf(EndpointsOf(gs, Remote, lp, n), n)
  {
    var remotes := EndpointsOf(gs, Remote, lp, n);
    forall i | 0 <= i < |remotes|
      ensures |remotes[i].PeerStatus| == n
      ensures forall j :: 0 <= j < |remotes[i].Handles| ==> remotes[i].Handles[j].Id < n
    {
      var k := EndpointsOfSound(gs, Remote, lp, n, i);
      forall j | 0 <= j < |gs[k].1|
        ensures gs[k].1[j].Id < n
      {
        assert (gs[k].1[j], gs[k].0) in hs;
        var m :| 0 <= m < |hs| && hs[m] == (gs[k].1[j], gs[k].0);
        assert IdFits(hs[m].1.Kind, hs[m].0, n);
      }
    }
  }

  // ----- the builder object -----

  class SessionBuilder<A(==)> {
    /** `SpectatorConstants.SPECTATOR_BUFFER_SIZE`, defined outside the model. */
    const spectatorBufferSize: nat
    var numPlayers: nat
    var localPlayers: nat
    var maxPrediction: nat
    var fps: nat
    var sparseSaving: bool
    var desync: DesyncDetection
    var disconnectTimeout: int
    var disconnectNotifyStart: int
    var registry: Registry<A>
    var inputDelay: nat
    var checkDist: nat
    var maxFramesBehind: nat
    var catchupSpeed: nat
    var started: bool

    ghost function Snapshot(): Settings<A>
      reads this
    {
      Settings(numPlayers, localPlayers, maxPrediction, fps, sparseSaving, desync, disconnectTimeout,
               disconnectNotifyStart, registry, inputDelay, checkDist, maxFramesBehind, catchupSpeed, started)
    }

    ghost predicate Valid()
      reads this
    {
      BuilderWf(Snapshot())
    }

    constructor(bufferSize: nat)
      ensures Snapshot() == Fresh() && spectatorBufferSize == bufferSize && Valid()
    {
      spectatorBufferSize := bufferSize;
      registry := Registry([], [], []);
      localPlayers := 0;
      numPlayers := DEFAULT_PLAYERS;
      maxPrediction := DEFAULT_MAX_PREDICTION_FRAMES;
      fps := DEFAULT_FPS;
      sparseSaving := DEFAULT_SAVE_MODE;
      desync := DEFAULT_DESYNC_DETECTION;
      disconnectTimeout := DEFAULT_DISCONNECT_TIMEOUT;
      disconnectNotifyStart := DEFAULT_DISCONNECT_NOTIFY_START;
      inputDelay := DEFAULT_INPUT_DELAY;
      checkDist := DEFAULT_CHECK_DISTANCE;
      maxFramesBehind := DEFAULT_MAX_FRAMES_BEHIND;
      catchupSpeed := DEFAULT_CATCHUP_SPEED;
      started := false;
    }

    method AddPlayer(t: PlayerType<A>, h: PlayerHandle) returns (r: Outcome)
      requires Valid()
      modifies this
      ensures (Snapshot(), r) == PlayerAdded(old(Snapshot()), t, h) && Valid()
    {
      PlayerAddedKeepsWf(Snapshot(), t, h);
      if TypeOf(registry.Handles, h).Some? {
        return Fail(InvalidOperation);
      }
      match t.Kind {
        case Local =>
          localPlayers := localPlayers + 1;
          if h.Id >= numPlayers {
            return Fail(InvalidOperation);
          }
        case Remote =>
          if h.Id >= numPlayers {
            return Fail(InvalidOperation);
          }
        case Spectator =>
          if h.Id < numPlayers {
            return Fail(InvalidOperation);
          }
      }
      registry := registry.(Handles := registry.Handles + [(h, t)]);
      return Pass;
    }

    method WithMaxPredictionWindow(window: nat)
      requires Valid()
      modifies this
      ensures Snapshot() == old(Snapshot()).(MaxPrediction := window) && Valid()
    {
      maxPrediction := window;
    }

    method WithInputDelay(delay: nat)
      requires Valid()
      modifies this
      ensures Snapshot() == old(Snapshot()).(InputDelay := delay) && Valid()
    {
      inputDelay := delay;
    }

    method WithNumPlayers(v: int) returns (r: Outcome)
      requires Valid()
      modifies this
      ensures (Snapshot(), r) == NumPlayersSet(old(Snapshot()), v) && Valid()
    {
      if v < 0 || v > MAX_NUM_PLAYERS {
        return Fail(InvalidOperation);
      }
      numPlayers := v;
      return Pass;
    }

    method WithSparseSavingMode(sparse: bool)
      requires Valid()
      modifies this
      ensures Snapshot() == old(Snapshot()).(SparseSaving := sparse) && Valid()
    {
      sparseSaving := sparse;
    }

    method WithDesyncDetection(d: DesyncDetection)
      requires Valid()
      modifies this
      ensures Snapshot() == old(Snapshot()).(Desync := d) && Valid()
    {
      desync := d;
    }

    method WithDisconnectTimeout(millis: int)
      requires Valid()
      modifies this
      ensures Snapshot() == old(Snapshot()).(DisconnectTimeout := millis) && Valid()
    {
      disconnectTimeout := millis;
    }

    method WithDisconnectNotifyDelay(millis: int)
      requires Valid()
      modifies this
      ensures Snapshot() == old(Snapshot()).(DisconnectNotifyStart := millis) && Valid()
    {
      disconnectNotifyStart := millis;
    }

    /** A frame rate of 0 is refused. */
    method WithFps(v: nat) returns (r: Outcome)
      requires Valid()
      modifies this
      ensures r == Pass <==> v != 0
      ensures r != Pass ==> r == Fail(InvalidOperation) && Snapshot() == old(Snapshot())
      ensures r == Pass ==> Snapshot() == old(Snapshot()).(Fps := v)
      ensures Valid()
    {
      if v == 0 {
        return Fail(InvalidOperation);
      }
      fps := v;
      return Pass;
    }

    method WithCheckDistance(d: nat)
      requires Valid()
      modifies this
      ensures Snapshot() == old(Snapshot()).(CheckDist := d) && Valid()
    {
      checkDist := d;
    }

    /** At least one frame, and fewer than the spectator buffer holds. */
    method WithMaxFramesBehind(v: nat) returns (r: Outcome)
      requires Valid()
      modifies this
      ensures r == Pass <==> 1 <= v < spectatorBufferSize
      ensures r != Pass ==> r == Fail(InvalidOperation) && Snapshot() == old(Snapshot())
      ensures r == Pass ==> Snapshot() == old(Snapshot()).(MaxFramesBehind := v)
      ensures Valid()
    {
      if v < 1 {
        return Fail(InvalidOperation);
      }
      if v >= spectatorBufferSize {
        return Fail(InvalidOperation);
      }
      maxFramesBehind := v;
      return Pass;
    }

    /** At least one frame, and fewer than the frames a spectator may lag. */
    method WithCatchupSpeed(v: nat) returns (r: Outcome)
      requires Valid()
      modifies this
      ensures r == Pass <==> 1 <= v < old(maxFramesBehind)
      ensures r != Pass ==> r == Fail(InvalidOperation) && Snapshot() == old(Snapshot())
      ensures r == Pass ==> Snapshot() == old(Snapshot()).(CatchupSpeed := v)
      ensures Valid()
    {
      if v < 1 {
        return Fail(InvalidOperation);
      }
      if v >= maxFramesBehind {
        return Fail(InvalidOperation);
      }
      catchupSpeed := v;
      return Pass;
    }

    /** The first loop of `StartP2PSession`. */
    static method CheckRegistered(hs: seq<(PlayerHandle, PlayerType<A>)>, n: nat) returns (all: bool)
      ensures all == AllRegistered(hs, n)
    {
      for i := 0 to n
        invariant forall j :: 0 <= j < i ==> TypeOf(hs, PlayerHandle(j)).Some?
      {
        if TypeOf(hs, PlayerHandle(i)).None? {
          return false;
        }
      }
      return true;
    }

    /** The loop that fills `addrCount`. */
    static method GroupHandles(hs: seq<(PlayerHandle, PlayerType<A>)>) returns (gs: seq<Group<A>>)
      ensures gs == Grouped(hs) && GroupsWf(gs) && GroupsMatch(gs, hs)
    {
      gs := [];
      for i := 0 to |hs|
        invariant gs == Grouped(hs[..i])
      {
        assert hs[..i + 1][..i] == hs[..i];
        if hs[i].1.Kind == Remote || hs[i].1.Kind == Spectator {
          gs := Joined(gs, hs[i].1, hs[i].0);
        }
      }
      assert hs[..|hs|] == hs;
      GroupedMeaning(hs);
    }

    /** The loop over `addrCount` that creates the endpoints. */
    method AddEndpoints(gs: seq<Group<A>>) returns (o: Outcome)
      modifies this
      ensures (registry, o) == EndpointsAdded(old(registry), localPlayers, numPlayers, gs)
      ensures Snapshot() == old(Snapshot()).(Registry := registry)
    {
      ghost var start := registry;
      for i := 0 to |gs|
        invariant (registry, Pass) == EndpointsAdded(start, localPlayers, numPlayers, gs[..i])
        invariant Snapshot() == old(Snapshot()).(Registry := registry)
      {
        assert gs[..i + 1][..i] == gs[..i];
        var step := EndpointAdded(registry, localPlayers, numPlayers, gs[i]);
        if step.1.Fail? {
          EndpointsStopAtError(start, localPlayers, numPlayers, gs, i + 1);
          return step.1;
        }
        registry := step.0;
      }
      assert gs[..|gs|] == gs;
      return Pass;
    }

    method MarkStarted() returns (o: Outcome)
      modifies this
      ensures (Snapshot(), o) == MarkedStarted(old(Snapshot()))
    {
      if started {
        return Fail(InvalidOperation);
      }
      started := true;
      return Pass;
    }

    /** `StartP2PSession`, handing back what the session is built from; the
      * socket is not part of the model. */
    method StartP2PSession() returns (r: Result<P2PSessionArgs<A>>)
      requires Valid()
      modifies this
      ensures (Snapshot(), r) == P2PStarted(old(Snapshot())) && Valid()
    {
      P2PStartedKeepsWf(Snapshot());
      var all := CheckRegistered(registry.Handles, numPlayers);
      if !all {
        return Err(InvalidOperation);
      }
      var gs := GroupHandles(registry.Handles);
      var o := AddEndpoints(gs);
      if o.Fail? {
        return Err(o.failure);
      }
      o := MarkStarted();
      if o.Fail? {
        return Err(o.failure);
      }
      return Ok(P2PSessionArgs(numPlayers, maxPrediction, registry, sparseSaving, desync, inputDelay));
    }

    /** `StartSynctestSession`. */
    method StartSynctestSession() returns (r: Result<SyncTestArgs>)
      requires Valid()
      modifies this
      ensures (Snapshot(), r) == SynctestStarted(old(Snapshot())) && Valid()
    {
      if checkDist >= maxPrediction {
        return Err(InvalidOperation);
      }
      var o := MarkStarted();
      if o.Fail? {
        return Err(o.failure);
      }
      return Ok(SyncTestArgs(numPlayers, maxPrediction, checkDist, inputDelay));
    }
  }
}
