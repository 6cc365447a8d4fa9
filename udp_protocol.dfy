/** `Netcode.Rollback.Network.UdpProtocol`: the endpoint that talks to one
  * peer.  Its state moves Initializing -> Synchronizing -> Running ->
  * Disconnected -> Shutdown; it runs a nonce handshake, filters messages by
  * the peer's magic number, keeps a window of unacknowledged outputs, merges
  * the peer's view of every player's connection and delivers the peer's
  * inputs once they can be decoded.
  *
  * Clocks are integer milliseconds supplied by the caller (`now` stands for
  * `Instant.Now()`, `millis` for `Helpers.MillisSinceEpoch()`), random draws
  * are parameters, and the socket is the sequence of (address, message)
  * pairs the endpoint hands over.  Each operation is first a function on an
  * `Endpoint` value; the class's methods are proved to perform it. */
module UdpProtocols {
  import opened Bytes
  import opened Frames
  import opened Outcomes
  import opened Rollback
  import opened Messages
  import opened Compressions
  import opened TimeSyncs
  import opened Protocols
  import ModArith

  const NUM_SYNC_PACKETS: nat := 5
  const UDP_SHUTDOWN_TIMER: nat := 5000
  const PENDING_OUTPUT_SIZE: nat := 128
  const SYNC_RETRY_INTERVAL: nat := 200
  const RUNNING_RETRY_INTERVAL: nat := 200
  const KEEP_ALIVE_INTERVAL: nat := 200
  const QUALITY_REPORT_INTERVAL: nat := 200
  /** `ProtocolConstants.MAX_CHECKSUM_HISTORY_SIZE`. */
  const MAX_CHECKSUM_HISTORY_SIZE: nat := 32

  const UINT32: nat := 0x1_0000_0000

  datatype ProtocolState = Initializing | Synchronizing | Running | Disconnected | Shutdown

  /** `Event<TInput>`: what the endpoint reports to its session. */
  datatype Event<I> =
    | Synchronizing(Total: nat, Count: nat)
    | Synchronized
    | Input(Data: PlayerInput<I>, Player: PlayerHandle)
    | Disconnected
    | NetworkInterrupted(DisconnectTimeout: int)
    | NetworkResumed

  /** The constructor's arguments, which the endpoint never changes. */
  datatype Config<!I, A> = Config(
    NumPlayers: nat, LocalPlayers: nat, Handles: seq<PlayerHandle>, Codec: InputCodec<I>,
    DisconnectTimeout: int, DisconnectNotifyStart: int, Fps: nat, Magic: nat,
    PeerAddr: A, MaxPrediction: nat, Desync: DesyncDetection)

  /** Everything the endpoint changes, field by field. */
  datatype Endpoint<I> = Endpoint(
    SendQueue: seq<Message>, EventQueue: seq<Event<I>>,
    State: ProtocolState, SyncRemaining: nat, SyncRequests: set<int>,
    LastQualityReport: int, LastInputRecv: int, NotifySent: bool, EventSent: bool,
    ShutdownTimeout: int, RemoteMagic: int, PeerStatus: seq<ConnectionStatus>,
    PendingOutput: seq<InputBytes>, LastAcked: InputBytes,
    RecvInputs: map<Frame, InputBytes>, LastRecvFrame: Frame,
    LocalWindow: seq<int>, RemoteWindow: seq<int>, LocalAdvantage: int, RemoteAdvantage: int,
    StatsStart: int, PacketsSent: nat, RoundTripTime: int, LastSendTime: int, LastRecvTime: int,
    PendingChecksums: map<Frame, int>)

  /** The two time-sync windows have their fixed size. */
  predicate Windowed<I>(e: Endpoint<I>)
  {
    |e.LocalWindow| == FRAME_WINDOW_SIZE && |e.RemoteWindow| == FRAME_WINDOW_SIZE
  }

  /** The state right after the constructor, all clocks read as `now`. */
  function Initial<I, A>(g: Config<I, A>, now: int): (e: Endpoint<I>)
    ensures e.State == Initializing && e.SyncRemaining == NUM_SYNC_PACKETS && Windowed(e)
    ensures e.RecvInputs.Keys == {NULL_FRAME} && |e.RecvInputs[NULL_FRAME].Bytes| == g.Codec.Size * |g.Handles|
    ensures |e.LastAcked.Bytes| == g.Codec.Size * g.LocalPlayers && e.LastAcked.Frame == NULL_FRAME
    ensures |e.PeerStatus| == g.NumPlayers && forall i :: 0 <= i < g.NumPlayers ==> e.PeerStatus[i] == DEFAULT_STATUS
  {
    Endpoint([], [], Initializing, NUM_SYNC_PACKETS, {}, now, now, false, false, now, 0,
             seq(g.NumPlayers, _ => DEFAULT_STATUS), [], Zeroed(g.Codec, g.LocalPlayers),
             map[NULL_FRAME := Zeroed(g.Codec, |g.Handles|)], NULL_FRAME,
             seq(FRAME_WINDOW_SIZE, _ => 0), seq(FRAME_WINDOW_SIZE, _ => 0), 0, 0,
             0, 0, 0, now, now, map[])
  }

  // ----- sending -----

  /** `r` differs from `e` at most in what sending touches: the event queue,
    * the state and the notices are as they were. */
  ghost predicate Quiet<I>(e: Endpoint<I>, r: Endpoint<I>)
  {
    r.EventQueue == e.EventQueue && r.State == e.State && r.NotifySent == e.NotifySent &&
    r.EventSent == e.EventSent && r.LastRecvTime == e.LastRecvTime
  }

  /** `QueueMessage`: the body goes out under the local magic; the packet
    * counter is a 32-bit unsigned integer. */
  function Queued<I, A>(g: Config<I, A>, e: Endpoint<I>, body: MessageBody, now: int): (r: Endpoint<I>)
    ensures r.SendQueue == e.SendQueue + [Message(MessageHeader(g.Magic), body)]
    ensures r.PacketsSent == (e.PacketsSent + 1) % UINT32 && r.LastSendTime == now
    ensures r.(SendQueue := e.SendQueue, PacketsSent := e.PacketsSent, LastSendTime := e.LastSendTime) == e
    ensures Quiet(e, r)
  {
    e.(SendQueue := e.SendQueue + [Message(MessageHeader(g.Magic), body)],
       PacketsSent := (e.PacketsSent + 1) % UINT32, LastSendTime := now)
  }

  /** `SendSyncRequest`: the nonce joins the pending set and is sent. */
  function SyncRequested<I, A>(g: Config<I, A>, e: Endpoint<I>, nonce: int, now: int): (r: Endpoint<I>)
    ensures r.SyncRequests == e.SyncRequests + {nonce} && nonce in r.SyncRequests
    ensures r.SendQueue == e.SendQueue + [Message(MessageHeader(g.Magic), BodySyncRequest(SyncRequest(nonce)))]
    ensures r.State == e.State && r.EventQueue == e.EventQueue && r.SyncRemaining == e.SyncRemaining
  {
    Queued(g, e.(SyncRequests := e.SyncRequests + {nonce}), BodySyncRequest(SyncRequest(nonce)), now)
  }

  /** `Math.Clamp` to the range of a 16-bit signed integer. */
  function ClampI16(x: int): (r: int)
    ensures IsI16(r) && (IsI16(x) ==> r == x)
    ensures x < -0x8000 ==> r == -0x8000
    ensures x >= 0x8000 ==> r == 0x7fff
  {
    if x < -0x8000 then -0x8000 else if x > 0x7fff then 0x7fff else x
  }

  /** `SendQualityReport`: the local advantage, clamped, and the wall clock. */
  function QualityReported<I, A>(g: Config<I, A>, e: Endpoint<I>, now: int, millis: int): (r: Endpoint<I>)
    ensures Quiet(e, r) && r.LastQualityReport == now
    ensures r.SendQueue == e.SendQueue + [Message(MessageHeader(g.Magic), BodyQualityReport(QualityReport(ClampI16(e.LocalAdvantage), millis)))]
  {
    Queued(g, e.(LastQualityReport := now),
           BodyQualityReport(QualityReport(ClampI16(e.LocalAdvantage), millis)), now)
  }

  /** The byte arrays of the pending outputs, oldest first. */
  function BytesOf(pending: seq<InputBytes>): (r: seq<seq<byte>>)
    ensures |r| == |pending| && forall k :: 0 <= k < |pending| ==> r[k] == pending[k].Bytes
  {
    seq(|pending|, k requires 0 <= k < |pending| => pending[k].Bytes)
  }

  /** `SendPendingOutput`: every unacknowledged output, delta-encoded against
    * the last acknowledged one, in one Input message. */
  function PendingSent<I, A>(g: Config<I, A>, e: Endpoint<I>, status: seq<ConnectionStatus>, now: int): (r: (Endpoint<I>, Outcome))
    ensures r.0.EventQueue == e.EventQueue && r.0.PendingOutput == e.PendingOutput && r.0.State == e.State
    ensures e.PendingOutput == [] ==> r == (e, Pass)
    ensures r.1.Fail? ==> r.0 == e
    ensures r.1.Pass? && e.PendingOutput != [] ==>
      (Encoded(e.LastAcked.Bytes, BytesOf(e.PendingOutput)).Ok? &&
       r.0 == Queued(g, e, BodyInput(InputBody(Some(status), e.State == ProtocolState.Disconnected,
                                               e.PendingOutput[0].Frame, e.LastRecvFrame,
                                               Some(Encoded(e.LastAcked.Bytes, BytesOf(e.PendingOutput)).value))), now))
  {
    if e.PendingOutput == [] then (e, Pass)
    else
      var input := e.PendingOutput[0];
      if !(e.LastAcked.Frame == NULL_FRAME || Plus(e.LastAcked.Frame, 1) == input.Frame) then (e, Fail(AssertionFailed))
      else match Encoded(e.LastAcked.Bytes, BytesOf(e.PendingOutput))
        case Err(f) => (e, Fail(f))
        case Ok(bytes) =>
          var body := InputBody(Some(status), e.State == ProtocolState.Disconnected, input.Frame, e.LastRecvFrame, Some(bytes));
          (Queued(g, e, BodyInput(body), now), Pass)
  }

  /** `SendInput`: only while Running; pack the local inputs, record the
    * frame advantages, append to the pending window (reporting a disconnect
    * once it holds more than 128 frames) and send the window. */
  function InputSent<I, A>(g: Config<I, A>, e: Endpoint<I>, inputs: seq<PlayerInput<I>>,
                           status: seq<ConnectionStatus>, now: int): (r: (Endpoint<I>, Outcome))
    requires Windowed(e)
    ensures e.State != ProtocolState.Running ==> r == (e, Pass)
    ensures e.State == ProtocolState.Running && |inputs| != g.LocalPlayers ==> r == (e, Fail(AssertionFailed))
    ensures r.0.State == e.State
    ensures e.State == ProtocolState.Running && |inputs| == g.LocalPlayers && PackedInputs(g.Codec, inputs).Ok? &&
            PackedInputs(g.Codec, inputs).value.Frame != NULL_FRAME && SlotOf(PackedInputs(g.Codec, inputs).value.Frame) >= 0 ==>
      (r.0.PendingOutput == e.PendingOutput + [PackedInputs(g.Codec, inputs).value] &&
       r.0.EventQueue == e.EventQueue + if |e.PendingOutput| >= PENDING_OUTPUT_SIZE then [Event.Disconnected] else [])
  {
    if e.State != ProtocolState.Running then (e, Pass)
    else if |inputs| != g.LocalPlayers then (e, Fail(AssertionFailed))
    else match PackedInputs(g.Codec, inputs)
      case Err(f) => (e, Fail(f))
      case Ok(data) =>
        if data.Frame == NULL_FRAME then (e, Fail(AssertionFailed))
        else if SlotOf(data.Frame) < 0 then (e, Fail(IndexOutOfRange))
        else
          PendingSent(g, Pushed(WindowsAdvanced(e, data.Frame), data), status, now)
  }

  /** The time-sync windows record this frame's advantages. */
  function WindowsAdvanced<I>(e: Endpoint<I>, frame: Frame): (r: Endpoint<I>)
    requires Windowed(e) && 0 <= SlotOf(frame)
  {
    e.(LocalWindow := Advanced(e.LocalWindow, frame, e.LocalAdvantage),
       RemoteWindow := Advanced(e.RemoteWindow, frame, e.RemoteAdvantage))
  }

  /** The packed output joins the pending window; past 128 frames the peer
    * is reported disconnected, on every further push. */
  function Pushed<I>(e: Endpoint<I>, data: InputBytes): (r: Endpoint<I>)
    ensures r.PendingOutput == e.PendingOutput + [data]
    ensures r.EventQueue == e.EventQueue + if |e.PendingOutput| >= PENDING_OUTPUT_SIZE then [Event.Disconnected] else []
  {
    var e1 := e.(PendingOutput := e.PendingOutput + [data]);
    if |e1.PendingOutput| > PENDING_OUTPUT_SIZE then e1.(EventQueue := e1.EventQueue + [Event.Disconnected]) else e1
  }

  /** `SendAllMessages`: the queue empties; it reaches the peer's address
    * unless the endpoint is shut down, when it is dropped. */
  function AllSent<I, A>(g: Config<I, A>, e: Endpoint<I>): (r: (Endpoint<I>, seq<(A, Message)>))
    ensures r.0 == e.(SendQueue := [])
    ensures e.State == Shutdown ==> r.1 == []
    ensures e.State != Shutdown ==>
      (|r.1| == |e.SendQueue| && forall i :: 0 <= i < |e.SendQueue| ==> r.1[i] == (g.PeerAddr, e.SendQueue[i]))
  {
    (e.(SendQueue := []),
     if e.State == Shutdown then []
     else seq(|e.SendQueue|, i requires 0 <= i < |e.SendQueue| => (g.PeerAddr, e.SendQueue[i])))
  }

  // ----- lifecycle -----

  /** `Disconnect`: a shut-down endpoint stays so; otherwise it is
    * Disconnected and shuts down 5 seconds later. */
  function AfterDisconnect<I>(e: Endpoint<I>, now: int): (r: Endpoint<I>)
    ensures e.State == Shutdown ==> r == e
    ensures e.State != Shutdown ==>
      r == e.(State := ProtocolState.Disconnected, ShutdownTimeout := now + UDP_SHUTDOWN_TIMER)
  {
    if e.State == Shutdown then e
    else e.(State := ProtocolState.Disconnected, ShutdownTimeout := now + UDP_SHUTDOWN_TIMER)
  }

  /** `Synchronize`: only from Initializing; five round trips to go and the
    * first request sent. */
  function AfterSynchronize<I, A>(g: Config<I, A>, e: Endpoint<I>, now: int, millis: int, nonce: int): (r: (Endpoint<I>, Outcome))
    ensures e.State != Initializing ==> r == (e, Fail(AssertionFailed))
    ensures e.State == Initializing ==>
      (r.1 == Pass && r.0.State == ProtocolState.Synchronizing && r.0.SyncRemaining == NUM_SYNC_PACKETS &&
       r.0.StatsStart == millis && r.0.SyncRequests == e.SyncRequests + {nonce} &&
       r.0.SendQueue == e.SendQueue + [Message(MessageHeader(g.Magic), BodySyncRequest(SyncRequest(nonce)))] &&
       r.0.EventQueue == e.EventQueue)
  {
    if e.State != Initializing then (e, Fail(AssertionFailed))
    else
      var e1 := e.(State := ProtocolState.Synchronizing, SyncRemaining := NUM_SYNC_PACKETS, StatsStart := millis);
      (SyncRequested(g, e1, nonce, now), Pass)
  }

  /** `UpdateLocalFrameAdvantage`: how far the peer is estimated to be ahead
    * of `localFrame`, counting half a round trip of frames at `fps`. */
  function AdvantageUpdated<I, A>(g: Config<I, A>, e: Endpoint<I>, localFrame: Frame): (r: Endpoint<I>)
    ensures localFrame == NULL_FRAME || e.LastRecvFrame == NULL_FRAME ==> r == e
    ensures r == e.(LocalAdvantage := r.LocalAdvantage)
  {
    if localFrame == NULL_FRAME || e.LastRecvFrame == NULL_FRAME then e
    else
      var ping := TruncDiv(e.RoundTripTime, 2);
      var remoteFrame := e.LastRecvFrame.No + TruncDiv(ping * g.Fps, 1000);
      e.(LocalAdvantage := remoteFrame - localFrame.No)
  }

  /** `Poll`'s notice that the peer has been quiet for `disconnectNotifyStart`;
    * given once until a message arrives. */
  function InterruptNoticed<I, A>(g: Config<I, A>, e: Endpoint<I>, now: int): (r: Endpoint<I>)
    ensures e.NotifySent || e.LastRecvTime + g.DisconnectNotifyStart >= now ==> r == e
    ensures !e.NotifySent && e.LastRecvTime + g.DisconnectNotifyStart < now ==>
      r == e.(EventQueue := e.EventQueue + [NetworkInterrupted(g.DisconnectTimeout - g.DisconnectNotifyStart)], NotifySent := true)
  {
    if !e.NotifySent && e.LastRecvTime + g.DisconnectNotifyStart < now
    then e.(EventQueue := e.EventQueue + [NetworkInterrupted(g.DisconnectTimeout - g.DisconnectNotifyStart)], NotifySent := true)
    else e
  }

  /** `Poll`'s notice that the peer has been quiet for `disconnectTimeout`;
    * given once. */
  function DisconnectNoticed<I, A>(g: Config<I, A>, e: Endpoint<I>, now: int): (r: Endpoint<I>)
    ensures e.EventSent || e.LastRecvTime + g.DisconnectTimeout >= now ==> r == e
    ensures !e.EventSent && e.LastRecvTime + g.DisconnectTimeout < now ==>
      r == e.(EventQueue := e.EventQueue + [Event.Disconnected], EventSent := true)
  {
    if !e.EventSent && e.LastRecvTime + g.DisconnectTimeout < now
    then e.(EventQueue := e.EventQueue + [Event.Disconnected], EventSent := true)
    else e
  }

  /** The quality report and the keep-alive of `Poll`, each when due. */
  function Heartbeats<I, A>(g: Config<I, A>, e: Endpoint<I>, now: int, millis: int): (r: Endpoint<I>)
    ensures Quiet(e, r)
  {
    var e1 := if e.LastQualityReport + QUALITY_REPORT_INTERVAL < now then QualityReported(g, e, now, millis) else e;
    if e1.LastSendTime + KEEP_ALIVE_INTERVAL < now then Queued(g, e1, BodyKeepAlive, now) else e1
  }

  /** The events the two notices of `Poll` add: none that was given already. */
  function Notices<I, A>(g: Config<I, A>, e: Endpoint<I>, now: int): (r: seq<Event<I>>)
    ensures |r| <= 2
    ensures e.NotifySent ==> forall k :: 0 <= k < |r| ==> !r[k].NetworkInterrupted?
    ensures e.EventSent ==> forall k :: 0 <= k < |r| ==> !r[k].Disconnected?
  {
    (if !e.NotifySent && e.LastRecvTime + g.DisconnectNotifyStart < now
     then [NetworkInterrupted(g.DisconnectTimeout - g.DisconnectNotifyStart)] else []) +
    (if !e.EventSent && e.LastRecvTime + g.DisconnectTimeout < now then [Event.Disconnected] else [])
  }

  /** The running-state timers of `Poll` after the resend: quality report,
    * keep-alive, then the two notices. */
  function RunningTimers<I, A>(g: Config<I, A>, e: Endpoint<I>, now: int, millis: int): (r: Endpoint<I>)
    ensures r.EventQueue == e.EventQueue + Notices(g, e, now)
    ensures r.State == e.State && (e.NotifySent ==> r.NotifySent) && (e.EventSent ==> r.EventSent)
  {
    DisconnectNoticed(g, InterruptNoticed(g, Heartbeats(g, e, now, millis), now), now)
  }

  /** `Poll` while Running: resend the window when input has been quiet. */
  function PolledRunning<I, A>(g: Config<I, A>, e: Endpoint<I>, status: seq<ConnectionStatus>,
                               now: int, millis: int): (Endpoint<I>, Outcome)
  {
    if e.LastInputRecv + RUNNING_RETRY_INTERVAL < now then
      var (e1, o) := PendingSent(g, e, status, now);
      if o.Fail? then (e1, o) else (RunningTimers(g, e1.(LastInputRecv := now), now, millis), Pass)
    else (RunningTimers(g, e, now, millis), Pass)
  }

  /** `Poll`: the timers of the current state, then every queued event in
    * order, leaving the event queue empty. */
  function Polled<I, A>(g: Config<I, A>, e: Endpoint<I>, status: seq<ConnectionStatus>,
                        now: int, millis: int, nonce: int): (r: (Endpoint<I>, Outcome, seq<Event<I>>))
    ensures r.1.Pass? ==> r.0.EventQueue == [] && |e.EventQueue| <= |r.2| && r.2[..|e.EventQueue|] == e.EventQueue
    ensures r.1.Fail? ==> r.2 == [] && e.State == ProtocolState.Running
    ensures e.State == ProtocolState.Disconnected ==>
      r.1 == Pass && r.0.State == (if e.ShutdownTimeout < now then Shutdown else ProtocolState.Disconnected)
    ensures e.State == Initializing || e.State == Shutdown ==> r == (e.(EventQueue := []), Pass, e.EventQueue)
    ensures e.State != ProtocolState.Disconnected ==> r.0.State == e.State
  {
    var (e1, o) :=
      if e.State == ProtocolState.Synchronizing then
        (if e.LastSendTime + SYNC_RETRY_INTERVAL < now then SyncRequested(g, e, nonce, now) else e, Pass)
      else if e.State == ProtocolState.Running then PolledRunning(g, e, status, now, millis)
      else if e.State == ProtocolState.Disconnected then
        (if e.ShutdownTimeout < now then e.(State := Shutdown) else e, Pass)
      else (e, Pass);
    if o.Fail? then (e1, o, []) else (e1.(EventQueue := []), Pass, e1.EventQueue)
  }

  // ----- acknowledgements -----

  /** How many leading pending outputs an acknowledgement of `ack` covers. */
  function PoppedCount(pending: seq<InputBytes>, ack: Frame): (k: nat)
    ensures k <= |pending|
    ensures forall j :: 0 <= j < k ==> LessEq(pending[j].Frame, ack)
    ensures k < |pending| ==> Less(ack, pending[k].Frame)
  {
    if pending == [] || !LessEq(pending[0].Frame, ack) then 0
    else 1 + PoppedCount(pending[1..], ack)
  }

  /** `PopPendingOutput`: drop the covered outputs; the last one dropped is
    * the new reference for delta encoding. */
  function Popped<I>(e: Endpoint<I>, ack: Frame): (r: Endpoint<I>)
    ensures |r.PendingOutput| <= |e.PendingOutput|
    ensures var k := |e.PendingOutput| - |r.PendingOutput|;
      r.PendingOutput == e.PendingOutput[k..] &&
      (forall j :: 0 <= j < k ==> LessEq(e.PendingOutput[j].Frame, ack)) &&
      (k < |e.PendingOutput| ==> Less(ack, e.PendingOutput[k].Frame)) &&
      r.LastAcked == (if k > 0 then e.PendingOutput[k - 1] else e.LastAcked)
    ensures r == e.(PendingOutput := r.PendingOutput, LastAcked := r.LastAcked)
  {
    var (pending, last) := AckedWindow(e.PendingOutput, e.LastAcked, ack);
    e.(PendingOutput := pending, LastAcked := last)
  }

  /** The outputs still pending after `ack`, and the reference input. */
  function AckedWindow(pending: seq<InputBytes>, last: InputBytes, ack: Frame): (seq<InputBytes>, InputBytes)
  {
    var k := PoppedCount(pending, ack);
    (pending[k..], if k > 0 then pending[k - 1] else last)
  }

  // ----- receiving -----

  /** `OnSyncReply`: a reply counts only while Synchronizing and only for a
    * pending nonce, which it consumes.  The round-trip counter is a 32-bit
    * unsigned integer. */
  function SyncReplied<I, A>(g: Config<I, A>, e: Endpoint<I>, header: MessageHeader, reply: SyncReply,
                             nonce: int, now: int): Endpoint<I>
  {
    if e.State != ProtocolState.Synchronizing || reply.RandomReply !in e.SyncRequests then e
    else RoundTripCounted(g, e.(SyncRequests := e.SyncRequests - {reply.RandomReply}), header, nonce, now)
  }

  /** The rest of an accepted reply: one round trip fewer to go; progress
    * and the next request, or Running under the peer's magic. */
  function RoundTripCounted<I, A>(g: Config<I, A>, e: Endpoint<I>, header: MessageHeader, nonce: int, now: int): Endpoint<I>
  {
    var remaining := if e.SyncRemaining == 0 then UINT32 - 1 else e.SyncRemaining - 1;
    var e1 := e.(SyncRemaining := remaining);
    if remaining > 0 then
      var count := (NUM_SYNC_PACKETS - remaining) % UINT32;
      SyncRequested(g, e1.(EventQueue := e1.EventQueue + [Event.Synchronizing(NUM_SYNC_PACKETS, count)]), nonce, now)
    else
      e1.(State := ProtocolState.Running, EventQueue := e1.EventQueue + [Event.Synchronized], RemoteMagic := header.Magic)
  }

  /** One player's status merged with the peer's report of it. */
  function MergedStatus(mine: ConnectionStatus, theirs: ConnectionStatus): (r: ConnectionStatus)
    ensures r.Disconnected == (mine.Disconnected || theirs.Disconnected)
    ensures r.LastFrame.No >= mine.LastFrame.No && r.LastFrame.No >= theirs.LastFrame.No
    ensures r.LastFrame == mine.LastFrame || r.LastFrame == theirs.LastFrame
  {
    ConnectionStatus(theirs.Disconnected || mine.Disconnected, Max(mine.LastFrame, theirs.LastFrame))
  }

  /** The first `n` statuses merged, the rest as they were. */
  function MergedPrefix(mine: seq<ConnectionStatus>, theirs: seq<ConnectionStatus>, n: nat): (r: seq<ConnectionStatus>)
    requires n <= |mine| && n <= |theirs|
    ensures |r| == |mine|
  {
    seq(|mine|, i requires 0 <= i < |mine| => if i < n then MergedStatus(mine[i], theirs[i]) else mine[i])
  }

  /** The merge loop of `OnInput` over `numPlayers` entries: a null report
    * fails on the first entry, a short one after merging what it has. */
  function Merged(numPlayers: nat, mine: seq<ConnectionStatus>, theirs: Option<seq<ConnectionStatus>>): (r: (seq<ConnectionStatus>, Outcome))
    ensures |r.0| == |mine|
    ensures forall i :: 0 <= i < |mine| ==>
      r.0[i].LastFrame.No >= mine[i].LastFrame.No && (mine[i].Disconnected ==> r.0[i].Disconnected)
    ensures r.1.Pass? <==> numPlayers == |mine| && (numPlayers == 0 || (theirs.Some? && |theirs.value| >= numPlayers))
    ensures r.1.Pass? && theirs.Some? ==> forall i :: 0 <= i < numPlayers ==> r.0[i] == MergedStatus(mine[i], theirs.value[i])
    ensures r.1.Fail? ==> r.1.failure in {AssertionFailed, NullReference, IndexOutOfRange}
  {
    if numPlayers != |mine| then (mine, Fail(AssertionFailed))
    else if numPlayers == 0 then (mine, Pass)
    else if theirs.None? then (mine, Fail(NullReference))
    else if |theirs.value| < numPlayers then (MergedPrefix(mine, theirs.value, |theirs.value|), Fail(IndexOutOfRange))
    else (MergedPrefix(mine, theirs.value, numPlayers), Pass)
  }

  /** One `Input` event per endpoint handle, in handle order. */
  function InputEvents<I>(inputs: seq<PlayerInput<I>>, handles: seq<PlayerHandle>): (r: seq<Event<I>>)
    requires |inputs| <= |handles|
    ensures |r| == |inputs| && forall j :: 0 <= j < |inputs| ==> r[j] == Input(inputs[j], handles[j])
  {
    seq(|inputs|, j requires 0 <= j < |inputs| => Input(inputs[j], handles[j]))
  }

  /** The delivery loop of `OnInput` from the `i`-th decoded frame on:
    * frames not after the last received one are skipped; each new one is
    * buffered, advances the last received frame and yields its events. */
  function Delivered<I, A>(g: Config<I, A>, e: Endpoint<I>, start: Frame, recv: seq<seq<byte>>, i: nat): (Endpoint<I>, Outcome)
    requires i <= |recv|
    decreases |recv| - i
  {
    if i == |recv| then (e, Pass)
    else
      var f := Plus(start, i);
      if LessEq(f, e.LastRecvFrame) then Delivered(g, e, start, recv, i + 1)
      else
        var inp := InputBytes(f, recv[i]);
        var e1 := e.(RecvInputs := e.RecvInputs[f := inp], LastRecvFrame := Max(e.LastRecvFrame, f));
        match UnpackedInputs(g.Codec, inp, |g.Handles|)
        case Err(x) => (e1, Fail(x))
        case Ok(inputs) =>
          Delivered(g, e1.(EventQueue := e1.EventQueue + InputEvents(inputs, g.Handles)), start, recv, i + 1)
  }

  /** The largest of `acc` and the frames in `keys`. */
  ghost function MaxFrameOf(acc: Frame, keys: set<Frame>): (r: Frame)
    ensures r == acc || r in keys
    ensures acc.No <= r.No && forall f :: f in keys ==> f.No <= r.No
    decreases keys
  {
    if keys == {} then acc
    else
      var f :| f in keys;
      MaxFrameOf(Max(acc, f), keys - {f})
  }

  /** The entries of a frame-keyed dictionary whose frame is not before
    * `oldest`. */
  function KeptFrom<V>(m: map<Frame, V>, oldest: Frame): (r: map<Frame, V>)
    ensures forall f :: f in r <==> f in m && f.No >= oldest.No
    ensures forall f :: f in r ==> r[f] == m[f]
  {
    map f | f in m && !Less(f, oldest) :: m[f]
  }

  /** The frames `OnInput` keeps: those not older than newest - 2 * maxPrediction. */
  function KeptInputs(recv: map<Frame, InputBytes>, newest: Frame, maxPrediction: nat): (r: map<Frame, InputBytes>)
    ensures forall f :: f in r <==> f in recv && f.No >= newest.No - 2 * maxPrediction
    ensures forall f :: f in r ==> r[f] == recv[f]
  {
    KeptFrom(recv, Minus(newest, 2 * maxPrediction))
  }

  /** The maximum is determined by its defining property, whichever element
    * the recursion happens to take first. */
  lemma MaxFrameUnique(acc: Frame, keys: set<Frame>, r: Frame)
    requires r == acc || r in keys
    requires acc.No <= r.No && forall f :: f in keys ==> f.No <= r.No
    ensures r == MaxFrameOf(acc, keys)
  {
    var m := MaxFrameOf(acc, keys);
    assert r.No <= m.No && m.No <= r.No;
  }

  /** Folding in any one frame first gives the same maximum. */
  lemma MaxFrameStep(acc: Frame, keys: set<Frame>, f: Frame)
    requires f in keys
    ensures MaxFrameOf(Max(acc, f), keys - {f}) == MaxFrameOf(acc, keys)
  {
    MaxFrameUnique(acc, keys, MaxFrameOf(Max(acc, f), keys - {f}));
  }

  /** The pruning at the end of `OnInput`; the last received frame is then
    * recomputed as the newest frame still buffered (the null frame if none). */
  ghost function Pruned<I, A>(g: Config<I, A>, e: Endpoint<I>): (r: Endpoint<I>)
    ensures forall f :: f in r.RecvInputs <==> f in e.RecvInputs && f.No >= e.LastRecvFrame.No - 2 * g.MaxPrediction
    ensures forall f :: f in r.RecvInputs ==> r.RecvInputs[f] == e.RecvInputs[f] && f.No <= r.LastRecvFrame.No
    ensures r.LastRecvFrame == NULL_FRAME || r.LastRecvFrame in r.RecvInputs
    ensures r == e.(RecvInputs := r.RecvInputs, LastRecvFrame := r.LastRecvFrame)
  {
    var kept := KeptInputs(e.RecvInputs, e.LastRecvFrame, g.MaxPrediction);
    e.(RecvInputs := kept, LastRecvFrame := MaxFrameOf(NULL_FRAME, kept.Keys))
  }

  /** The frame an Input message is a delta against. */
  function DecodeFrame<I>(e: Endpoint<I>, body: InputBody): Frame
  {
    if e.LastRecvFrame == NULL_FRAME then NULL_FRAME else Minus(body.StartFrame, 1)
  }

  /** The decoding half of `OnInput`: nothing happens unless the reference
    * frame is buffered; then decode, deliver, acknowledge and prune. */
  ghost function InputDecoded<I, A>(g: Config<I, A>, e: Endpoint<I>, body: InputBody, now: int): (r: (Endpoint<I>, Outcome))
    ensures !(e.LastRecvFrame == NULL_FRAME || e.LastRecvFrame.No + 1 >= body.StartFrame.No) ==> r == (e, Fail(AssertionFailed))
    ensures DecodeFrame(e, body) !in e.RecvInputs ==> r.0 == e
  {
    if !(e.LastRecvFrame == NULL_FRAME || e.LastRecvFrame.No + 1 >= body.StartFrame.No) then (e, Fail(AssertionFailed))
    else if DecodeFrame(e, body) !in e.RecvInputs then (e, Pass)
    else
      var e1 := e.(LastInputRecv := now);
      match Compressions.Decoded(e.RecvInputs[DecodeFrame(e, body)].Bytes, Payload(body))
      case Err(f) => (e1, Fail(f))
      case Ok(recv) =>
        var (e2, o) := Delivered(g, e1, body.StartFrame, recv, 0);
        if o.Fail? then (e2, o)
        else (Pruned(g, Queued(g, e2, BodyInputAck(InputAck(e2.LastRecvFrame)), now)), Pass)
  }

  /** `OnInput`: the acknowledgement it carries, then either the peer's
    * disconnect request or its status report, then decoding. */
  ghost function InputReceived<I, A>(g: Config<I, A>, e: Endpoint<I>, body: InputBody, now: int): (Endpoint<I>, Outcome)
  {
    var (e1, o) := StatusNoted(g, Popped(e, body.AckFrame), body);
    if o.Fail? then (e1, o) else InputDecoded(g, e1, body, now)
  }

  /** The middle of `OnInput`: a disconnect request is reported once, unless
    * the endpoint is already Disconnected; otherwise the peer's statuses are
    * merged in. */
  function StatusNoted<I, A>(g: Config<I, A>, e: Endpoint<I>, body: InputBody): (r: (Endpoint<I>, Outcome))
    ensures body.DisconnectRequested ==> r.1 == Pass && r.0.PeerStatus == e.PeerStatus
    ensures !body.DisconnectRequested ==> r.0 == e.(PeerStatus := r.0.PeerStatus)
  {
    if body.DisconnectRequested then
      (if e.State != ProtocolState.Disconnected && !e.EventSent
       then e.(EventQueue := e.EventQueue + [Event.Disconnected], EventSent := true)
       else e, Pass)
    else
      var (status, o) := Merged(g.NumPlayers, e.PeerStatus, body.PeerConnectStatus);
      (e.(PeerStatus := status), o)
  }

  /** `OnChecksumReport`: at 32 or more reports, those older than the last
    * 31 intervals go first; a second report for a frame fails like
    * `Dictionary.Add`. */
  function ChecksumReported<I, A>(g: Config<I, A>, e: Endpoint<I>, c: ChecksumReport): (r: (Endpoint<I>, Outcome))
    ensures r.1.Pass? ==> c.Frame in r.0.PendingChecksums && r.0.PendingChecksums[c.Frame] == c.Checksum
    ensures r.1.Fail? ==> r.1 == Fail(Argument) && c.Frame in e.PendingChecksums
    ensures forall f :: f in r.0.PendingChecksums && f != c.Frame ==>
      f in e.PendingChecksums && r.0.PendingChecksums[f] == e.PendingChecksums[f]
    ensures r.0 == e.(PendingChecksums := r.0.PendingChecksums)
  {
    var interval := if g.Desync.On then g.Desync.Interval else 1;
    var kept :=
      if |e.PendingChecksums| >= MAX_CHECKSUM_HISTORY_SIZE then
        KeptFrom(e.PendingChecksums, Minus(c.Frame, (MAX_CHECKSUM_HISTORY_SIZE - 1) * interval))
      else e.PendingChecksums;
    if c.Frame in kept then (e.(PendingChecksums := kept), Fail(Argument))
    else (e.(PendingChecksums := kept[c.Frame := c.Checksum]), Pass)
  }

  /** `HandleMessage`: drop everything once shut down and anything under a
    * foreign magic once the peer's is known; otherwise note the arrival,
    * report a resumed connection, and dispatch on the kind. */
  ghost function Handled<I, A>(g: Config<I, A>, e: Endpoint<I>, msg: Message, now: int, millis: int, nonce: int): (r: (Endpoint<I>, Outcome))
    ensures e.State == Shutdown ==> r == (e, Pass)
    ensures e.RemoteMagic != 0 && msg.Header.Magic != e.RemoteMagic ==> r == (e, Pass)
  {
    if e.State == Shutdown || (e.RemoteMagic != 0 && msg.Header.Magic != e.RemoteMagic) then (e, Pass)
    else
      Dispatched(g, Arrived(e, now), msg, now, millis, nonce)
  }

  /** What every accepted message does first: the receive time is noted and,
    * if an interruption was reported while Running, its end is. */
  function Arrived<I>(e: Endpoint<I>, now: int): (r: Endpoint<I>)
    ensures r.LastRecvTime == now && r.State == e.State && !(r.NotifySent && r.State == ProtocolState.Running)
    ensures r.EventQueue == e.EventQueue + (if e.NotifySent && e.State == ProtocolState.Running then [NetworkResumed] else [])
  {
    var e1 := e.(LastRecvTime := now);
    if e1.NotifySent && e1.State == ProtocolState.Running
    then e1.(NotifySent := false, EventQueue := e1.EventQueue + [NetworkResumed])
    else e1
  }

  /** The handler each kind of message is passed to. */
  ghost function Dispatched<I, A>(g: Config<I, A>, e: Endpoint<I>, msg: Message, now: int, millis: int, nonce: int): (Endpoint<I>, Outcome)
  {
    if msg.Body.BodyInput? then InputReceived(g, e, msg.Body.input, now)
    else if msg.Body.BodySyncReply? then (SyncReplied(g, e, msg.Header, msg.Body.syncReply, nonce, now), Pass)
    else if msg.Body.BodySyncRequest? || msg.Body.BodyInputAck? then (Answered(g, e, msg.Body, now), Pass)
    else Reported(g, e, msg.Body, now, millis)
  }

  /** A synchronisation request is answered; a bare acknowledgement
    * releases the inputs it covers. */
  function Answered<I, A>(g: Config<I, A>, e: Endpoint<I>, b: MessageBody, now: int): (r: Endpoint<I>)
    requires b.BodySyncRequest? || b.BodyInputAck?
  {
    if b.BodySyncRequest? then Queued(g, e, BodySyncReply(SyncReply(b.syncRequest.RandomRequest)), now)
    else Popped(e, b.inputAck.AckFrame)
  }

  /** The quality, checksum, keep-alive and unknown handlers. */
  function Reported<I, A>(g: Config<I, A>, e: Endpoint<I>, b: MessageBody, now: int, millis: int): (r: (Endpoint<I>, Outcome))
    ensures b.BodyKeepAlive? || b.BodyUnknown? ==> r == (e, Pass)
    ensures b.BodyQualityReply? ==> (r.1.Fail? <==> millis < b.qualityReply.Pong)
  {
    match b
    case BodyQualityReport(q) =>
      (Queued(g, e.(RemoteAdvantage := q.FrameAdvantage), BodyQualityReply(QualityReply(q.Ping)), now), Pass)
    case BodyQualityReply(q) =>
      if millis < q.Pong then (e, Fail(AssertionFailed)) else (e.(RoundTripTime := millis - q.Pong), Pass)
    case BodyChecksumReport(q) => ChecksumReported(g, e, q)
    case _ => (e, Pass)
  }

  // ----- properties -----

  /** The event an accepted reply reports when `m` round trips were left. */
  function ProgressEvent<I>(m: nat): Event<I>
    requires 1 <= m <= NUM_SYNC_PACKETS
  {
    if m == 1 then Event.Synchronized else Event.Synchronizing(NUM_SYNC_PACKETS, NUM_SYNC_PACKETS + 1 - m)
  }

  /** The events of the rest of a handshake that has `n` round trips to go. */
  function HandshakeEvents<I>(n: nat): (r: seq<Event<I>>)
    requires n <= NUM_SYNC_PACKETS
    ensures |r| == n
  {
    seq(n, k requires 0 <= k < n => ProgressEvent(n - k))
  }

  /** A reply that is not expected, because the endpoint is not
    * Synchronizing or its nonce is not pending, changes nothing. */
  lemma SyncReplyIgnored<I, A>(g: Config<I, A>, e: Endpoint<I>, header: MessageHeader,
                               reply: SyncReply, nonce: int, now: int)
    requires e.State != ProtocolState.Synchronizing || reply.RandomReply !in e.SyncRequests
    ensures SyncReplied(g, e, header, reply, nonce, now) == e
  {
  }

  /** An accepted reply consumes its nonce, so it can never count twice, and
    * either reports progress and sends the next request or, on the last
    * round trip, enters Running under the peer's magic. */
  lemma {:induction false} SyncReplyAccepted<I, A>(g: Config<I, A>, e: Endpoint<I>, header: MessageHeader,
                                                  reply: SyncReply, nonce: int, now: int)
    requires e.State == ProtocolState.Synchronizing && reply.RandomReply in e.SyncRequests
    ensures var r := SyncReplied(g, e, header, reply, nonce, now);
      (reply.RandomReply != nonce ==> reply.RandomReply !in r.SyncRequests) &&
      (2 <= e.SyncRemaining <= NUM_SYNC_PACKETS ==>
        r.State == ProtocolState.Synchronizing && r.SyncRemaining == e.SyncRemaining - 1 &&
        r.SyncRequests == e.SyncRequests - {reply.RandomReply} + {nonce} &&
        r.EventQueue == e.EventQueue + [Event.Synchronizing(NUM_SYNC_PACKETS, NUM_SYNC_PACKETS + 1 - e.SyncRemaining)] &&
        r.SendQueue == e.SendQueue + [Message(MessageHeader(g.Magic), BodySyncRequest(SyncRequest(nonce)))]) &&
      (e.SyncRemaining == 1 ==>
        r.State == ProtocolState.Running && r.SyncRemaining == 0 && r.RemoteMagic == header.Magic &&
        r.SyncRequests == e.SyncRequests - {reply.RandomReply} &&
        r.EventQueue == e.EventQueue + [Event.Synchronized] && r.SendQueue == e.SendQueue)
  {
    if 2 <= e.SyncRemaining <= NUM_SYNC_PACKETS {
      ModArith.ModSmall(NUM_SYNC_PACKETS - (e.SyncRemaining - 1), UINT32);
    }
  }

  /** One accepted reply of a handshake, as `Handshake` uses it. */
  lemma {:induction false} AcceptedReply<I, A>(g: Config<I, A>, e: Endpoint<I>, header: MessageHeader,
                                              x: int, nonce: int, now: int)
    requires e.State == ProtocolState.Synchronizing && 1 <= e.SyncRemaining <= NUM_SYNC_PACKETS
    requires x in e.SyncRequests
    ensures var e1 := SyncReplied(g, e, header, SyncReply(x), nonce, now);
      e1.SyncRemaining == e.SyncRemaining - 1 &&
      e1.EventQueue == e.EventQueue + [ProgressEvent(e.SyncRemaining)] &&
      (e.SyncRemaining == 1 ==> e1.State == ProtocolState.Running && e1.RemoteMagic == header.Magic) &&
      (e.SyncRemaining > 1 ==> e1.State == ProtocolState.Synchronizing && nonce in e1.SyncRequests)
  {
    SyncReplyAccepted(g, e, header, SyncReply(x), nonce, now);
  }

  /** A peer that echoes every nonce completes the handshake.  `states` are
    * the endpoint's states as the remaining replies arrive, each echoing the
    * nonce the one before sent: the last is Running under the peer's magic,
    * having reported each round trip and then one Synchronized. */
  lemma {:induction false} Handshake<I, A>(g: Config<I, A>, header: MessageHeader, states: seq<Endpoint<I>>,
                                          replies: seq<int>, nonces: seq<int>, now: int)
    requires |states| == |replies| + 1 && |nonces| == |replies|
    requires states[0].State == ProtocolState.Synchronizing && 1 <= |replies| == states[0].SyncRemaining <= NUM_SYNC_PACKETS
    requires replies[0] in states[0].SyncRequests
    requires forall i :: 0 <= i < |replies| ==>
      states[i + 1] == SyncReplied(g, states[i], header, SyncReply(replies[i]), nonces[i], now)
    requires forall i :: 0 <= i < |replies| - 1 ==> replies[i + 1] == nonces[i]
    ensures states[|replies|].State == ProtocolState.Running && states[|replies|].RemoteMagic == header.Magic
    ensures states[|replies|].EventQueue == states[0].EventQueue + HandshakeEvents(|replies|)
  {
    var n := |replies|;
    var k := 0;
    while k < n
      invariant 0 <= k <= n && states[k].SyncRemaining == n - k
      invariant k < n ==> states[k].State == ProtocolState.Synchronizing && replies[k] in states[k].SyncRequests
      invariant k == n ==> states[k].State == ProtocolState.Running && states[k].RemoteMagic == header.Magic
      invariant states[k].EventQueue == states[0].EventQueue + HandshakeEvents<I>(n)[..k]
    {
      AcceptedReply(g, states[k], header, replies[k], nonces[k], now);
      assert HandshakeEvents<I>(n)[..k + 1] == HandshakeEvents<I>(n)[..k] + [ProgressEvent(n - k)];
      k := k + 1;
    }
    assert HandshakeEvents<I>(n)[..n] == HandshakeEvents(n);
  }

  /** Acknowledging `a` and then `b >= a` pops as many outputs as
    * acknowledging `b` at once. */
  lemma {:induction false} PoppedCountSplit(pending: seq<InputBytes>, a: Frame, b: Frame)
    requires LessEq(a, b)
    ensures PoppedCount(pending, a) + PoppedCount(pending[PoppedCount(pending, a)..], b) == PoppedCount(pending, b)
    decreases |pending|
  {
    if pending != [] && LessEq(pending[0].Frame, a) {
      PoppedCountSplit(pending[1..], a, b);
      assert pending[1..][PoppedCount(pending[1..], a)..] == pending[PoppedCount(pending, a)..];
    }
  }

  /** Acknowledgements compose: a later acknowledgement of a frame at least
    * as new leaves the same window and reference as that one alone. */
  lemma {:induction false} AcksCompose<I>(e: Endpoint<I>, a: Frame, b: Frame)
    requires LessEq(a, b)
    ensures Popped(Popped(e, a), b) == Popped(e, b)
  {
    WindowsCompose(e.PendingOutput, e.LastAcked, a, b);
  }

  /** `AcksCompose` on the window alone. */
  lemma {:induction false} WindowsCompose(p: seq<InputBytes>, last: InputBytes, a: Frame, b: Frame)
    requires LessEq(a, b)
    ensures var w := AckedWindow(p, last, a); AckedWindow(w.0, w.1, b) == AckedWindow(p, last, b)
  {
    PoppedCountSplit(p, a, b);
    var ka := PoppedCount(p, a);
    var k2 := PoppedCount(p[ka..], b);
    assert p[ka..][k2..] == p[ka + k2..];
    assert k2 > 0 ==> p[ka..][k2 - 1] == p[ka + k2 - 1];
  }

  /** A repeated acknowledgement changes nothing. */
  lemma {:induction false} AckRepeated<I>(e: Endpoint<I>, a: Frame)
    ensures Popped(Popped(e, a), a) == Popped(e, a)
  {
    var p := e.PendingOutput;
    PoppedCountSplit(p, a, a);
    assert PoppedCount(p[PoppedCount(p, a)..], a) == 0;
  }

  /** Merging the same report twice is merging it once. */
  lemma {:induction false} MergeIdempotent(numPlayers: nat, mine: seq<ConnectionStatus>, theirs: Option<seq<ConnectionStatus>>)
    requires Merged(numPlayers, mine, theirs).1.Pass?
    ensures Merged(numPlayers, Merged(numPlayers, mine, theirs).0, theirs) == Merged(numPlayers, mine, theirs)
  {
    var once := Merged(numPlayers, mine, theirs).0;
    var twice := Merged(numPlayers, once, theirs).0;
    if numPlayers > 0 {
      forall i | 0 <= i < |mine|
        ensures twice[i] == once[i]
      {
        MergeStatusIdempotent(mine[i], theirs.value[i]);
      }
    }
    assert twice == once;
  }

  lemma MergeStatusIdempotent(mine: ConnectionStatus, theirs: ConnectionStatus)
    ensures MergedStatus(MergedStatus(mine, theirs), theirs) == MergedStatus(mine, theirs)
  {
  }

  /** Delivered input events come in blocks, one per endpoint handle in
    * handle order, every event of a block for the same frame, each block's
    * frame after the previous one's and after `floor`. */
  ghost predicate InputBlocks<I>(evs: seq<Event<I>>, handles: seq<PlayerHandle>, floor: Frame)
    decreases |evs|
  {
    evs == [] ||
    (handles != [] && |handles| <= |evs| && evs[0].Input? && evs[0].Data.Frame.No > floor.No &&
     (forall j :: 0 <= j < |handles| ==>
        evs[j].Input? && evs[j].Player == handles[j] && evs[j].Data.Frame == evs[0].Data.Frame) &&
     InputBlocks(evs[|handles|..], handles, evs[0].Data.Frame))
  }

  /** One block for frame `f` in front of blocks after `f`. */
  lemma {:induction false} BlockThenBlocks<I>(inputs: seq<PlayerInput<I>>, handles: seq<PlayerHandle>,
                                              rest: seq<Event<I>>, floor: Frame, f: Frame)
    requires |inputs| == |handles| > 0 && f.No > floor.No
    requires forall p :: 0 <= p < |inputs| ==> inputs[p].Frame == f
    requires InputBlocks(rest, handles, f)
    ensures InputBlocks(InputEvents(inputs, handles) + rest, handles, floor)
  {
    var evs := InputEvents(inputs, handles) + rest;
    assert evs[|handles|..] == rest;
    assert evs[0] == Input(inputs[0], handles[0]);
  }

  /** `a + b` is a prefix of `r`: so is `a`, and `b` starts what follows it. */
  lemma {:induction false} PrefixExtend<T>(a: seq<T>, b: seq<T>, r: seq<T>)
    requires |a + b| <= |r| && r[..|a + b|] == a + b
    ensures |a| <= |r| && r[..|a|] == a && r[|a|..] == b + r[|a + b|..]
  {
    assert r[..|a|] == (a + b)[..|a|];
  }

  /** The delivery loop only appends, and what it appends is input blocks for
    * frames after the last received one, which never goes back. */
  lemma {:induction false} DeliveredEvents<I, A>(g: Config<I, A>, e: Endpoint<I>, start: Frame, recv: seq<seq<byte>>, i: nat)
    requires i <= |recv|
    ensures var r := Delivered(g, e, start, recv, i).0;
      |e.EventQueue| <= |r.EventQueue| && r.EventQueue[..|e.EventQueue|] == e.EventQueue &&
      InputBlocks(r.EventQueue[|e.EventQueue|..], g.Handles, e.LastRecvFrame) &&
      r.LastRecvFrame.No >= e.LastRecvFrame.No
    decreases |recv| - i
  {
    if i < |recv| {
      var f := Plus(start, i);
      if LessEq(f, e.LastRecvFrame) {
        DeliveredEvents(g, e, start, recv, i + 1);
      } else {
        var inp := InputBytes(f, recv[i]);
        var e1 := e.(RecvInputs := e.RecvInputs[f := inp], LastRecvFrame := Max(e.LastRecvFrame, f));
        var u := UnpackedInputs(g.Codec, inp, |g.Handles|);
        if u.Ok? {
          var block := InputEvents(u.value, g.Handles);
          var e2 := e1.(EventQueue := e1.EventQueue + block);
          assert Delivered(g, e, start, recv, i) == Delivered(g, e2, start, recv, i + 1);
          DeliveredEvents(g, e2, start, recv, i + 1);
          var r := Delivered(g, e2, start, recv, i + 1).0.EventQueue;
          PrefixExtend(e.EventQueue, block, r);
          BlockThenBlocks(u.value, g.Handles, r[|e2.EventQueue|..], e.LastRecvFrame, f);
        } else {
          assert e1.EventQueue[|e.EventQueue|..] == [];
        }
      }
    } else {
      assert e.EventQueue[|e.EventQueue|..] == [];
    }
  }

  /** Decoding an Input message only appends to the event queue, and what it
    * appends is one block of input events per newly received frame, each
    * after the last frame received before. */
  lemma {:induction false} DecodedEvents<I, A>(g: Config<I, A>, e: Endpoint<I>, body: InputBody, now: int)
    ensures var r := InputDecoded(g, e, body, now).0;
      |e.EventQueue| <= |r.EventQueue| && r.EventQueue[..|e.EventQueue|] == e.EventQueue &&
      InputBlocks(r.EventQueue[|e.EventQueue|..], g.Handles, e.LastRecvFrame)
  {
    assert e.EventQueue[|e.EventQueue|..] == [];
    if (e.LastRecvFrame == NULL_FRAME || e.LastRecvFrame.No + 1 >= body.StartFrame.No) && DecodeFrame(e, body) in e.RecvInputs {
      var e1 := e.(LastInputRecv := now);
      var d := Compressions.Decoded(e.RecvInputs[DecodeFrame(e, body)].Bytes, Payload(body));
      if d.Ok? {
        DeliveredEvents(g, e1, body.StartFrame, d.value, 0);
        var e2 := Delivered(g, e1, body.StartFrame, d.value, 0).0;
        var e3 := Queued(g, e2, BodyInputAck(InputAck(e2.LastRecvFrame)), now);
        assert Pruned(g, e3).EventQueue == e2.EventQueue;
      }
    }
  }

  /** Dropping one covered output leaves the same result of popping. */
  lemma PopOne<I>(e: Endpoint<I>, ack: Frame)
    requires e.PendingOutput != [] && LessEq(e.PendingOutput[0].Frame, ack)
    ensures Popped(e.(PendingOutput := e.PendingOutput[1..], LastAcked := e.PendingOutput[0]), ack) == Popped(e, ack)
  {
    WindowPopOne(e.PendingOutput, e.LastAcked, ack);
  }

  lemma WindowPopOne(pending: seq<InputBytes>, last: InputBytes, ack: Frame)
    requires pending != [] && LessEq(pending[0].Frame, ack)
    ensures AckedWindow(pending[1..], pending[0], ack) == AckedWindow(pending, last, ack)
  {
    var k := PoppedCount(pending[1..], ack);
    assert PoppedCount(pending, ack) == 1 + k;
    assert pending[1..][k..] == pending[1 + k..];
    if k > 0 {
      assert pending[1..][k - 1] == pending[k];
    }
  }

}
