/** The shared vocabulary of the rollback engine: player handles, inputs
  * tagged with frames, saved-state cells, and the tagged unions of events
  * and requests a session hands to the game. */
module Rollback {
  import opened Bytes
  import opened Frames
  import opened Outcomes

  datatype PlayerHandle = PlayerHandle(Id: nat)

  /** `new PlayerHandle(id)`: negative ids are rejected. */
  function NewPlayerHandle(id: int): (r: Result<PlayerHandle>)
    ensures r.Ok? <==> id >= 0
    ensures r.Ok? ==> r.value.Id == id
    ensures r.Err? ==> r.failure == ArgumentOutOfRange
  {
    if id < 0 then Err(ArgumentOutOfRange) else Ok(PlayerHandle(id))
  }

  datatype DesyncDetection = DesyncDetection(On: bool, Interval: nat)

  datatype PlayerKind = Local | Remote | Spectator

  datatype PlayerType<A> = PlayerType(Kind: PlayerKind, Address: A)

  datatype SessionState = Synchronizing | Running

  datatype InputStatus = Confirmed | Predicted | Disconnected

  /** A byte array reference that may be null. */
  datatype ByteArrayRef = NullArray | ByteArray(bytes: seq<byte>)

  /** `GameStateCtx`: a saved game state and its checksum, tagged with its frame. */
  datatype GameStateCtx = GameStateCtx(Frame: Frame, Data: ByteArrayRef, Checksum: nat)

  /** `GameStateCell<TState>`, a struct: copying a cell copies its frame tag. */
  datatype GameStateCell = GameStateCell(State: GameStateCtx)

  /** The cell of a fresh ring: tagged with the null frame, no data. */
  const EMPTY_CELL: GameStateCell := GameStateCell(GameStateCtx(NULL_FRAME, NullArray, 0))

  /** `GameStateCell.Save` with the state already serialized to `data`: the
    * buffer is reused when it is large enough, so bytes past `data` keep
    * their old values. */
  function CellSave(cell: GameStateCell, frame: Frame, data: seq<byte>, checksum: nat): (c: GameStateCell)
    ensures c.State.Frame == frame && c.State.Checksum == checksum
    ensures c.State.Data.ByteArray? && |data| <= |c.State.Data.bytes| && c.State.Data.bytes[..|data|] == data
    ensures cell.State.Data.ByteArray? && |data| <= |cell.State.Data.bytes| ==>
              |c.State.Data.bytes| == |cell.State.Data.bytes|
  {
    var buf := if cell.State.Data.NullArray? || |cell.State.Data.bytes| < |data|
               then data
               else data + cell.State.Data.bytes[|data|..];
    GameStateCell(GameStateCtx(frame, ByteArray(buf), checksum))
  }

  /** `GameStateCell.Load`, given the state type's deserializer. */
  function CellLoad<S>(cell: GameStateCell, deserialize: ByteArrayRef -> S): S
  {
    deserialize(cell.State.Data)
  }

  /** A state saved into a cell loads back, provided the deserializer reads
    * back what the serializer wrote whatever bytes follow it. */
  lemma SaveThenLoad<S>(cell: GameStateCell, frame: Frame, s: S, checksum: nat,
                        serialize: S -> seq<byte>, deserialize: ByteArrayRef -> S)
    requires forall t: S, rest: seq<byte> :: deserialize(ByteArray(serialize(t) + rest)) == t
    ensures CellLoad(CellSave(cell, frame, serialize(s), checksum), deserialize) == s
  {
    var c := CellSave(cell, frame, serialize(s), checksum);
    var rest := c.State.Data.bytes[|serialize(s)|..];
    assert c.State.Data.bytes == serialize(s) + rest;
  }

  /** `PlayerInput<TInput>`: an input for one frame. */
  datatype PlayerInput<I> = PlayerInput(Frame: Frame, Input: I)

  /** `PlayerInput.BlankInput`; `blank` is `default(TInput)`. */
  function BlankInput<I>(frame: Frame, blank: I): PlayerInput<I>
  {
    PlayerInput(frame, blank)
  }

  /** `PlayerInput.Equal`: `TInput.Equals` is value equality. */
  predicate Equal<I(==)>(a: PlayerInput<I>, b: PlayerInput<I>, inputOnly: bool)
  {
    (inputOnly || a.Frame == b.Frame) && a.Input == b.Input
  }

  lemma BlankInputFields<I>(frame: Frame, blank: I)
    ensures BlankInput(frame, blank).Frame == frame && BlankInput(frame, blank).Input == blank
  {
  }

  /** Input-only equality ignores frames, strict equality is structural, and
    * strict equality implies input-only equality. */
  lemma EqualMeaning<I>(a: PlayerInput<I>, b: PlayerInput<I>)
    ensures Equal(a, b, true) <==> a.Input == b.Input
    ensures Equal(a, b, false) <==> a == b
    ensures Equal(a, b, false) ==> Equal(a, b, true)
  {
  }

  // ----- RollbackEvent -----

  datatype RollbackEventKind =
    | SynchronizingKind | SynchronizedKind | DisconnectedKind | NetworkInterruptedKind
    | NetworkResumedKind | WaitRecommendationKind | DesyncDetectedKind

  datatype SynchronizingBody<A> = SynchronizingBody(Addr: A, Total: nat, Count: nat)
  datatype SynchronizedBody<A> = SynchronizedBody(Addr: A)
  datatype DisconnectedBody<A> = DisconnectedBody(Addr: A)
  /** `DisconnectTimeout` is in milliseconds, kept as the endpoint computes
    * it (its `ulong` conversion is not modelled). */
  datatype NetworkInterruptedBody<A> = NetworkInterruptedBody(Addr: A, DisconnectTimeout: int)
  datatype NetworkResumedBody<A> = NetworkResumedBody(Addr: A)
  datatype WaitRecommendationBody = WaitRecommendationBody(SkipFrames: nat)
  datatype DesyncDetectedBody<A> =
    DesyncDetectedBody(Frame: Frame, LocalChecksum: nat, RemoteChecksum: nat, Addr: A)

  /** `RollbackEvent<TInput, TAddress>`: one variant per `From` overload. */
  datatype RollbackEvent<A> =
    | EvSynchronizing(synchronizing: SynchronizingBody<A>)
    | EvSynchronized(synchronized: SynchronizedBody<A>)
    | EvDisconnected(disconnected: DisconnectedBody<A>)
    | EvNetworkInterrupted(networkInterrupted: NetworkInterruptedBody<A>)
    | EvNetworkResumed(networkResumed: NetworkResumedBody<A>)
    | EvWaitRecommendation(waitRecommendation: WaitRecommendationBody)
    | EvDesyncDetected(desyncDetected: DesyncDetectedBody<A>)
  {
    function Kind(): RollbackEventKind
    {
      match this
      case EvSynchronizing(_) => SynchronizingKind
      case EvSynchronized(_) => SynchronizedKind
      case EvDisconnected(_) => DisconnectedKind
      case EvNetworkInterrupted(_) => NetworkInterruptedKind
      case EvNetworkResumed(_) => NetworkResumedKind
      case EvWaitRecommendation(_) => WaitRecommendationKind
      case EvDesyncDetected(_) => DesyncDetectedKind
    }

    function GetSynchronizing(): (r: Result<SynchronizingBody<A>>)
      ensures r.Ok? <==> Kind() == SynchronizingKind
      ensures r.Err? ==> r.failure == InvalidOperation
    {
      if EvSynchronizing? then Ok(synchronizing) else Err(InvalidOperation)
    }

    function GetSynchronized(): (r: Result<SynchronizedBody<A>>)
      ensures r.Ok? <==> Kind() == SynchronizedKind
      ensures r.Err? ==> r.failure == InvalidOperation
    {
      if EvSynchronized? then Ok(synchronized) else Err(InvalidOperation)
    }

    function GetDisconnected(): (r: Result<DisconnectedBody<A>>)
      ensures r.Ok? <==> Kind() == DisconnectedKind
      ensures r.Err? ==> r.failure == InvalidOperation
    {
      if EvDisconnected? then Ok(disconnected) else Err(InvalidOperation)
    }

    function GetNetworkInterrupted(): (r: Result<NetworkInterruptedBody<A>>)
      ensures r.Ok? <==> Kind() == NetworkInterruptedKind
      ensures r.Err? ==> r.failure == InvalidOperation
    {
      if EvNetworkInterrupted? then Ok(networkInterrupted) else Err(InvalidOperation)
    }

    function GetNetworkResumed(): (r: Result<NetworkResumedBody<A>>)
      ensures r.Ok? <==> Kind() == NetworkResumedKind
      ensures r.Err? ==> r.failure == InvalidOperation
    {
      if EvNetworkResumed? then Ok(networkResumed) else Err(InvalidOperation)
    }

    function GetWaitRecommendation(): (r: Result<WaitRecommendationBody>)
      ensures r.Ok? <==> Kind() == WaitRecommendationKind
      ensures r.Err? ==> r.failure == InvalidOperation
    {
      if EvWaitRecommendation? then Ok(waitRecommendation) else Err(InvalidOperation)
    }

    function GetDesyncDetected(): (r: Result<DesyncDetectedBody<A>>)
      ensures r.Ok? <==> Kind() == DesyncDetectedKind
      ensures r.Err? ==> r.failure == InvalidOperation
    {
      if EvDesyncDetected? then Ok(desyncDetected) else Err(InvalidOperation)
    }
  }

  /** Each `From` sets the kind of its variant, and the matching getter
    * returns the body it was built from. */
  lemma EventFromGet<A>(s: SynchronizingBody<A>, y: SynchronizedBody<A>, d: DisconnectedBody<A>,
                        n: NetworkInterruptedBody<A>, m: NetworkResumedBody<A>,
                        w: WaitRecommendationBody, x: DesyncDetectedBody<A>)
    ensures EvSynchronizing(s).Kind() == SynchronizingKind && EvSynchronizing(s).GetSynchronizing() == Ok(s)
    ensures EvSynchronized(y).Kind() == SynchronizedKind && EvSynchronized(y).GetSynchronized() == Ok(y)
    ensures EvDisconnected(d).Kind() == DisconnectedKind && EvDisconnected(d).GetDisconnected() == Ok(d)
    ensures EvNetworkInterrupted(n).Kind() == NetworkInterruptedKind
            && EvNetworkInterrupted(n).GetNetworkInterrupted() == Ok(n)
    ensures EvNetworkResumed(m).Kind() == NetworkResumedKind && EvNetworkResumed(m).GetNetworkResumed() == Ok(m)
    ensures RollbackEvent<A>.EvWaitRecommendation(w).Kind() == WaitRecommendationKind
            && RollbackEvent<A>.EvWaitRecommendation(w).GetWaitRecommendation() == Ok(w)
    ensures EvDesyncDetected(x).Kind() == DesyncDetectedKind && EvDesyncDetected(x).GetDesyncDetected() == Ok(x)
  {
  }

  // ----- RollbackRequest -----

  datatype RollbackRequestKind = SaveGameStateReq | LoadGameStateReq | AdvanceFrameReq

  datatype SaveGameStateBody = SaveGameStateBody(Cell: GameStateCell, Frame: Frame)
  datatype LoadGameStateBody = LoadGameStateBody(Cell: GameStateCell, Frame: Frame)
  datatype AdvanceFrameBody<I> = AdvanceFrameBody(Inputs: seq<(I, InputStatus)>)

  /** `RollbackRequest<TState, TInput>`: what the game must do next. */
  datatype RollbackRequest<I> =
    | SaveGameState(save: SaveGameStateBody)
    | LoadGameState(load: LoadGameStateBody)
    | AdvanceFrame(advance: AdvanceFrameBody<I>)
  {
    function Kind(): RollbackRequestKind
    {
      match this
      case SaveGameState(_) => SaveGameStateReq
      case LoadGameState(_) => LoadGameStateReq
      case AdvanceFrame(_) => AdvanceFrameReq
    }

    function GetSaveGameStateReq(): (r: Result<SaveGameStateBody>)
      ensures r.Ok? <==> Kind() == SaveGameStateReq
      ensures r.Err? ==> r.failure == InvalidOperation
    {
      if SaveGameState? then Ok(save) else Err(InvalidOperation)
    }

    function GetLoadGameStateReq(): (r: Result<LoadGameStateBody>)
      ensures r.Ok? <==> Kind() == LoadGameStateReq
      ensures r.Err? ==> r.failure == InvalidOperation
    {
      if LoadGameState? then Ok(load) else Err(InvalidOperation)
    }

    function GetAdvanceFrameRequest(): (r: Result<AdvanceFrameBody<I>>)
      ensures r.Ok? <==> Kind() == AdvanceFrameReq
      ensures r.Err? ==> r.failure == InvalidOperation
    {
      if AdvanceFrame? then Ok(advance) else Err(InvalidOperation)
    }
  }

  lemma RequestFromGet<I>(s: SaveGameStateBody, l: LoadGameStateBody, a: AdvanceFrameBody<I>)
    ensures RollbackRequest<I>.SaveGameState(s).Kind() == SaveGameStateReq && RollbackRequest<I>.SaveGameState(s).GetSaveGameStateReq() == Ok(s)
    ensures RollbackRequest<I>.LoadGameState(l).Kind() == LoadGameStateReq && RollbackRequest<I>.LoadGameState(l).GetLoadGameStateReq() == Ok(l)
    ensures AdvanceFrame(a).Kind() == AdvanceFrameReq && AdvanceFrame(a).GetAdvanceFrameRequest() == Ok(a)
  {
  }

  /** Number of `AdvanceFrame` requests in a request list. */
  function CountAdvances<I>(reqs: seq<RollbackRequest<I>>): nat
  {
    if reqs == [] then 0
    else CountAdvances(reqs[..|reqs| - 1]) + (if reqs[|reqs| - 1].AdvanceFrame? then 1 else 0)
  }

  /** The count adds up over concatenation. */
  lemma {:induction false} CountAdvancesAppend<I>(a: seq<RollbackRequest<I>>, b: seq<RollbackRequest<I>>)
    ensures CountAdvances(a + b) == CountAdvances(a) + CountAdvances(b)
    decreases |b|
  {
    if b == [] {
      assert a + b == a;
    } else {
      CountAdvancesAppend(a, b[..|b| - 1]);
      assert (a + b)[..|a + b| - 1] == a + b[..|b| - 1];
    }
  }
}
