/** `PlayerRegisty` (P2PSession.cs): the registered players and the
  * endpoints a session talks to, with the queries the session makes. */
module PlayerRegistries {
  import opened Frames
  import opened Outcomes
  import opened Rollback
  import opened TimeSyncs
  import Messages
  import UdpProtocols

  type ConnectionStatus = Messages.ConnectionStatus
  type ProtocolState = UdpProtocols.ProtocolState

  /** What a session sees of one `UdpProtocol` endpoint: its address and
    * handles (fixed at construction), its protocol state, the connection
    * status its peer reported, and its `AverageFrameAdvantage`. */
  datatype Peer<A> = Peer(Addr: A, Handles: seq<PlayerHandle>, LocalPlayers: nat, State: ProtocolState,
                          PeerStatus: seq<ConnectionStatus>, Advantage: int)
  {
    predicate IsRunning() { State.Running? }

    /** The handshake is over. */
    predicate IsSynchronized() { State.Running? || State.Disconnected? || State.Shutdown? }
  }

  /** The view of an endpoint of the protocol model. */
  function ViewOf<I, A>(g: UdpProtocols.Config<I, A>, e: UdpProtocols.Endpoint<I>): Peer<A>
  {
    Peer(g.PeerAddr, g.Handles, g.LocalPlayers, e.State, e.PeerStatus, Average(e.LocalWindow, e.RemoteWindow))
  }

  /** `Disconnect` on the endpoint: nothing once it is shut down, otherwise
    * it becomes Disconnected. */
  function PeerDisconnected<A>(p: Peer<A>): (r: Peer<A>)
    ensures p.State.Shutdown? ==> r == p
    ensures !p.State.Shutdown? ==> r == p.(State := UdpProtocols.ProtocolState.Disconnected)
    ensures !r.IsRunning() && (p.IsSynchronized() || !p.State.Shutdown? ==> r.IsSynchronized())
  {
    if p.State.Shutdown? then p else p.(State := UdpProtocols.ProtocolState.Disconnected)
  }

  /** The view follows the endpoint model's `Disconnect`. */
  lemma DisconnectAgrees<I, A>(g: UdpProtocols.Config<I, A>, e: UdpProtocols.Endpoint<I>, now: int)
    ensures ViewOf(g, UdpProtocols.AfterDisconnect(e, now)) == PeerDisconnected(ViewOf(g, e))
  {
  }

  /** An endpoint as `CreateEndpoint` leaves it: synchronizing, every peer
    * status the default one, and no frame advantage yet. */
  function FreshPeer<A>(addr: A, handles: seq<PlayerHandle>, localPlayers: nat, numPlayers: nat): (r: Peer<A>)
    ensures r.State.Synchronizing? && |r.PeerStatus| == numPlayers && r.Advantage == 0
  {
    Peer(addr, handles, localPlayers, UdpProtocols.ProtocolState.Synchronizing, seq(numPlayers, _ => Messages.DEFAULT_STATUS), 0)
  }

  /** The fresh view is the view of a constructed endpoint after
    * `Synchronize`. */
  lemma {:induction false} FreshAgrees<I, A>(g: UdpProtocols.Config<I, A>, now: int, millis: int, nonce: int)
    ensures var e := UdpProtocols.AfterSynchronize(g, UdpProtocols.Initial(g, now), now, millis, nonce).0;
      ViewOf(g, e) == FreshPeer(g.PeerAddr, g.Handles, g.LocalPlayers, g.NumPlayers)
  {
    var e0 := UdpProtocols.Initial(g, now);
    var e := UdpProtocols.AfterSynchronize(g, e0, now, millis, nonce).0;
    BalancedIsZero(e0.LocalWindow, e0.RemoteWindow);
    assert e.LocalWindow == e0.LocalWindow && e.RemoteWindow == e0.RemoteWindow;
    assert e.PeerStatus == seq(g.NumPlayers, _ => Messages.DEFAULT_STATUS);
  }

  /** `Handles`, `Remotes` and `Spectators`: the first as the pairs in the
    * order they were registered, the others as endpoints keyed by their
    * address. */
  datatype Registry<A> = Registry(Handles: seq<(PlayerHandle, PlayerType<A>)>, Remotes: seq<Peer<A>>,
                                  Spectators: seq<Peer<A>>)

  /** `Handles.TryGetValue`. */
  function TypeOf<A>(hs: seq<(PlayerHandle, PlayerType<A>)>, h: PlayerHandle): (r: Option<PlayerType<A>>)
    ensures r.None? <==> forall i :: 0 <= i < |hs| ==> hs[i].0 != h
    ensures r.Some? ==> exists i :: 0 <= i < |hs| && hs[i] == (h, r.value)
  {
    if hs == [] then None
    else if hs[0].0 == h then Some(hs[0].1)
    else
      var r := TypeOf(hs[1..], h);
      assert forall i :: 1 <= i < |hs| ==> hs[i] == hs[1..][i - 1];
      r
  }

  /** No handle is registered twice. */
  predicate DistinctHandles<A>(hs: seq<(PlayerHandle, PlayerType<A>)>)
  {
    forall i, j :: 0 <= i < j < |hs| ==> hs[i].0 != hs[j].0
  }

  /** With distinct handles, the type found is the one registered. */
  lemma {:induction false} TypeOfRegistered<A>(hs: seq<(PlayerHandle, PlayerType<A>)>, i: nat)
    requires DistinctHandles(hs) && i < |hs|
    ensures TypeOf(hs, hs[i].0) == Some(hs[i].1)
  {
    var r := TypeOf(hs, hs[i].0);
    var j :| 0 <= j < |hs| && hs[j] == (hs[i].0, r.value);
    assert j == i;
  }

  predicate IsLocal<A>(hs: seq<(PlayerHandle, PlayerType<A>)>, h: PlayerHandle)
  {
    var t := TypeOf(hs, h); t.Some? && t.value.Kind == Local
  }

  predicate IsRemote<A>(hs: seq<(PlayerHandle, PlayerType<A>)>, h: PlayerHandle)
  {
    var t := TypeOf(hs, h); t.Some? && t.value.Kind == Remote
  }

  predicate IsSpectator<A>(hs: seq<(PlayerHandle, PlayerType<A>)>, h: PlayerHandle)
  {
    var t := TypeOf(hs, h); t.Some? && t.value.Kind == Spectator
  }

  /** `LocalPlayerHandles`, `RemotePlayerHandles`, `SpectatorHandles`: the
    * handles of one kind, in registration order. */
  function HandlesOf<A>(hs: seq<(PlayerHandle, PlayerType<A>)>, k: PlayerKind): (r: seq<PlayerHandle>)
    ensures |r| <= |hs|
  {
    if hs == [] then []
    else
      var rest := HandlesOf(hs[..|hs| - 1], k);
      if hs[|hs| - 1].1.Kind == k then rest + [hs[|hs| - 1].0] else rest
  }

  /** A handle is listed under a kind exactly when it is registered with
    * that kind; so, handles being distinct, under its own kind only. */
  lemma {:induction false} HandlesOfMeaning<A>(hs: seq<(PlayerHandle, PlayerType<A>)>, k: PlayerKind, h: PlayerHandle)
    ensures h in HandlesOf(hs, k) <==> exists i :: 0 <= i < |hs| && hs[i].0 == h && hs[i].1.Kind == k
    decreases |hs|
  {
    if hs != [] {
      var init := hs[..|hs| - 1];
      HandlesOfMeaning(init, k, h);
      assert forall i :: 0 <= i < |init| ==> init[i] == hs[i];
      if exists i :: 0 <= i < |hs| && hs[i].0 == h && hs[i].1.Kind == k {
        var i :| 0 <= i < |hs| && hs[i].0 == h && hs[i].1.Kind == k;
        if i < |init| {
          assert init[i].0 == h && init[i].1.Kind == k;
        }
      }
    }
  }

  /** The queries agree with the lists. */
  lemma {:induction false} QueriesAgree<A>(hs: seq<(PlayerHandle, PlayerType<A>)>, h: PlayerHandle)
    requires DistinctHandles(hs)
    ensures IsLocal(hs, h) <==> h in HandlesOf(hs, Local)
    ensures IsRemote(hs, h) <==> h in HandlesOf(hs, Remote)
    ensures IsSpectator(hs, h) <==> h in HandlesOf(hs, Spectator)
  {
    HandlesOfMeaning(hs, Local, h);
    HandlesOfMeaning(hs, Remote, h);
    HandlesOfMeaning(hs, Spectator, h);
    if TypeOf(hs, h).Some? {
      var i :| 0 <= i < |hs| && hs[i] == (h, TypeOf(hs, h).value);
      forall j | 0 <= j < |hs| && hs[j].0 == h
        ensures j == i
      {
      }
    }
  }

  /** Every registered handle is of exactly one kind. */
  lemma {:induction false} KindsPartition<A>(hs: seq<(PlayerHandle, PlayerType<A>)>)
    ensures |HandlesOf(hs, Local)| + |HandlesOf(hs, Remote)| + |HandlesOf(hs, Spectator)| == |hs|
    decreases |hs|
  {
    if hs != [] {
      KindsPartition(hs[..|hs| - 1]);
    }
  }

  /** `NumPlayers`: the local and remote handles. */
  method NumPlayers<A>(hs: seq<(PlayerHandle, PlayerType<A>)>) returns (cnt: nat)
    ensures cnt == |HandlesOf(hs, Local)| + |HandlesOf(hs, Remote)|
  {
    cnt := 0;
    for i := 0 to |hs|
      invariant cnt == |HandlesOf(hs[..i], Local)| + |HandlesOf(hs[..i], Remote)|
    {
      assert hs[..i + 1][..i] == hs[..i];
      if hs[i].1.Kind == Local || hs[i].1.Kind == Remote {
        cnt := cnt + 1;
      }
    }
    assert hs[..|hs|] == hs;
  }

  /** `NumSpectators`. */
  method NumSpectators<A>(hs: seq<(PlayerHandle, PlayerType<A>)>) returns (cnt: nat)
    ensures cnt == |HandlesOf(hs, Spectator)|
  {
    cnt := 0;
    for i := 0 to |hs|
      invariant cnt == |HandlesOf(hs[..i], Spectator)|
    {
      assert hs[..i + 1][..i] == hs[..i];
      if hs[i].1.Kind == Spectator {
        cnt := cnt + 1;
      }
    }
    assert hs[..|hs|] == hs;
  }

  /** `Remotes[addr]` / `Spectators[addr]`: where the endpoint of an address
    * is. */
  function PeerIndex<A(==)>(peers: seq<Peer<A>>, addr: A): (r: Option<nat>)
    ensures r.Some? ==> r.value < |peers| && peers[r.value].Addr == addr
    ensures r.None? <==> forall i :: 0 <= i < |peers| ==> peers[i].Addr != addr
  {
    if peers == [] then None
    else if peers[|peers| - 1].Addr == addr then Some(|peers| - 1)
    else PeerIndex(peers[..|peers| - 1], addr)
  }

  /** Both endpoint lists carry the same addresses, handles and numbers of
    * local players in the same order: what the endpoints never change. */
  predicate SameLinks<A(==)>(a: seq<Peer<A>>, b: seq<Peer<A>>)
  {
    |a| == |b| &&
    forall i :: 0 <= i < |a| ==> a[i].Addr == b[i].Addr && a[i].Handles == b[i].Handles && a[i].LocalPlayers == b[i].LocalPlayers
  }

  /** What a session relies on of its registry: distinct handles, player
    * ids below `numPlayers` and spectator ids from it on, an endpoint for
    * every remote and spectator address, and remote endpoints whose handles
    * are players and whose peer status has one entry per player. */
  predicate RegistryWf<A(==)>(r: Registry<A>, numPlayers: nat)
  {
    DistinctHandles(r.Handles) &&
    (forall i :: 0 <= i < |r.Handles| ==>
       (r.Handles[i].1.Kind.Spectator? <==> r.Handles[i].0.Id >= numPlayers)) &&
    (forall i :: 0 <= i < |r.Handles| && r.Handles[i].1.Kind.Remote? ==>
       PeerIndex(r.Remotes, r.Handles[i].1.Address).Some?) &&
    (forall i :: 0 <= i < |r.Handles| && r.Handles[i].1.Kind.Spectator? ==>
       PeerIndex(r.Spectators, r.Handles[i].1.Address).Some?) &&
    PeersWf(r.Remotes, numPlayers)
  }

  /** Remote endpoints: player handles, one peer status per player. */
  predicate PeersWf<A>(peers: seq<Peer<A>>, numPlayers: nat)
  {
    forall i :: 0 <= i < |peers| ==>
      |peers[i].PeerStatus| == numPlayers && forall j :: 0 <= j < |peers[i].Handles| ==> peers[i].Handles[j].Id < numPlayers
  }

  /** Endpoints with the same links find the same address at the same
    * place. */
  lemma {:induction false} SameLinksIndex<A>(a: seq<Peer<A>>, b: seq<Peer<A>>, addr: A)
    requires SameLinks(a, b)
    ensures PeerIndex(a, addr) == PeerIndex(b, addr)
    decreases |a|
  {
    if a != [] {
      SameLinksIndex(a[..|a| - 1], b[..|b| - 1], addr);
    }
  }

  /** Endpoints that keep their links, and remote ones that keep a status
    * per player, keep the registry well formed. */
  lemma {:induction false} RelinkedWf<A>(r: Registry<A>, remotes: seq<Peer<A>>, spectators: seq<Peer<A>>, numPlayers: nat)
    requires RegistryWf(r, numPlayers) && SameLinks(r.Remotes, remotes) && SameLinks(r.Spectators, spectators)
    requires forall i :: 0 <= i < |remotes| ==> |remotes[i].PeerStatus| == numPlayers
    ensures RegistryWf(Registry(r.Handles, remotes, spectators), numPlayers)
  {
    forall addr: A
      ensures PeerIndex(remotes, addr) == PeerIndex(r.Remotes, addr) && PeerIndex(spectators, addr) == PeerIndex(r.Spectators, addr)
    {
      SameLinksIndex(r.Remotes, remotes, addr);
      SameLinksIndex(r.Spectators, spectators, addr);
    }
  }
}
