/** `UdpProtocol` (Protocol.cs) as an object: the per-peer endpoint class,
  * each method proved to compute the step function of `UdpProtocols` on
  * the endpoint's fields. */
module UdpEndpoints {
  import opened Bytes
  import opened Frames
  import opened Outcomes
  import opened Rollback
  import opened Messages
  import opened Compressions
  import opened TimeSyncs
  import opened Protocols
  import opened UdpProtocols
  // ----- the endpoint object -----

  /** The `NetworkStats` struct. */
  datatype Stats = Stats(SendQueueLen: nat, Ping: int, LocalFramesBehind: int, RemoteFramesBehind: int)


  /** The two loops that prune a frame-keyed dictionary: collect the frames
    * before `oldest`, then remove them one by one. */
  method RemoveOlder<V>(m: map<Frame, V>, oldest: Frame) returns (r: map<Frame, V>)
    ensures r == KeptFrom(m, oldest)
  {
    var toRemove: set<Frame> := {};
    var keys := m.Keys;
    while keys != {}
      invariant keys <= m.Keys
      invariant toRemove == set f | f in m.Keys - keys && Less(f, oldest)
      decreases keys
    {
      var f :| f in keys;
      if Less(f, oldest) {
        toRemove := toRemove + {f};
      }
      keys := keys - {f};
    }
    r := m;
    var rest := toRemove;
    while rest != {}
      invariant rest <= toRemove
      invariant r == m - (toRemove - rest)
      decreases rest
    {
      var f :| f in rest;
      r := r - {f};
      rest := rest - {f};
    }
    assert r == KeptFrom(m, oldest);
  }

  /** The closing loop of `OnInput`: the newest buffered frame, the null
    * frame when none is. */
  method NewestFrame(keys: set<Frame>) returns (newest: Frame)
    ensures newest == MaxFrameOf(NULL_FRAME, keys)
  {
    newest := NULL_FRAME;
    var rest := keys;
    while rest != {}
      invariant MaxFrameOf(newest, rest) == MaxFrameOf(NULL_FRAME, keys)
      decreases rest
    {
      var f :| f in rest;
      MaxFrameStep(newest, rest, f);
      newest := Max(newest, f);
      rest := rest - {f};
    }
  }

  /** `UdpProtocol<TInput, TAddress>`; the two deques are sequences, oldest
    * first. */
  class UdpProtocol<I(!new), A(==)> {
    const numPlayers: nat
    const localPlayers: nat
    const handles: seq<PlayerHandle>
    const codec: InputCodec<I>
    const disconnectTimeout: int
    const disconnectNotifyStart: int
    const fps: nat
    const magic: nat
    const peerAddr: A
    const maxPrediction: nat
    const desyncDetection: DesyncDetection
    const peerConnectStatus: array<ConnectionStatus>
    const timeSyncLayer: TimeSync
    const compression: Compression

    var sendQueue: seq<Message>
    var eventQueue: seq<Event<I>>
    var state: ProtocolState
    var syncRemainingRoundtrips: nat
    var syncRandomRequests: set<int>
    var runningLastQualityReport: int
    var runningLastInputRecv: int
    var disconnectNotifySent: bool
    var disconnectEventSent: bool
    var shutdownTimeout: int
    var remoteMagic: int
    var pendingOutput: seq<InputBytes>
    var lastAckedInput: InputBytes
    var recvInputs: map<Frame, InputBytes>
    var lastRecvFrame: Frame
    var localFrameAdvantage: int
    var remoteFrameAdvantage: int
    var statsStartTime: int
    var packetsSent: nat
    var roundTripTime: int
    var lastSendTime: int
    var lastRecvTime: int
    var pendingChecksums: map<Frame, int>

    function Cfg(): Config<I, A>
    {
      Config(numPlayers, localPlayers, handles, codec, disconnectTimeout, disconnectNotifyStart,
             fps, magic, peerAddr, maxPrediction, desyncDetection)
    }

    /** The objects the endpoint owns and may change. */
    ghost function Footprint(): set<object>
    {
      {this, peerConnectStatus, timeSyncLayer.local, timeSyncLayer.remote, compression.scratch}
    }

    ghost predicate Valid()
      reads this, timeSyncLayer
    {
      peerConnectStatus.Length == numPlayers && timeSyncLayer.Valid() && compression.Valid() && FixedSize(codec)
    }

    ghost function Snapshot(): Endpoint<I>
      reads this, peerConnectStatus, timeSyncLayer.local, timeSyncLayer.remote
    {
      Endpoint(sendQueue, eventQueue, state, syncRemainingRoundtrips, syncRandomRequests,
               runningLastQualityReport, runningLastInputRecv, disconnectNotifySent, disconnectEventSent,
               shutdownTimeout, remoteMagic, peerConnectStatus[..], pendingOutput, lastAckedInput,
               recvInputs, lastRecvFrame, timeSyncLayer.local[..], timeSyncLayer.remote[..],
               localFrameAdvantage, remoteFrameAdvantage, statsStartTime, packetsSent, roundTripTime,
               lastSendTime, lastRecvTime, pendingChecksums)
    }

    /** The random draws of the constructor are `magic`, already non-zero. */
    constructor (handlesIn: seq<PlayerHandle>, peerAddr: A, numPlayers: nat, localPlayers: nat,
                 maxPrediction: nat, disconnectTimeout: int, disconnectNotifyStart: int, fps: nat,
                 desyncDetection: DesyncDetection, codec: InputCodec<I>, magic: nat, now: int)
      requires FixedSize(codec) && 0 < magic < 0x1_0000
      ensures Valid() && fresh(Footprint() - {this})
      ensures Cfg() == Config(numPlayers, localPlayers, SortedHandles(handlesIn), codec, disconnectTimeout,
                              disconnectNotifyStart, fps, magic, peerAddr, maxPrediction, desyncDetection)
      ensures Snapshot() == Initial(Cfg(), now)
    {
      var status := new ConnectionStatus[numPlayers];
      for i := 0 to numPlayers
        invariant forall j :: 0 <= j < i ==> status[j] == DEFAULT_STATUS
      {
        status[i] := DEFAULT_STATUS;
      }
      var sorted := SortedHandles(handlesIn);
      this.numPlayers := numPlayers;
      this.localPlayers := localPlayers;
      this.handles := sorted;
      this.codec := codec;
      this.disconnectTimeout := disconnectTimeout;
      this.disconnectNotifyStart := disconnectNotifyStart;
      this.fps := fps;
      this.magic := magic;
      this.peerAddr := peerAddr;
      this.maxPrediction := maxPrediction;
      this.desyncDetection := desyncDetection;
      this.peerConnectStatus := status;
      timeSyncLayer := new TimeSync();
      compression := new Compression();
      sendQueue := [];
      eventQueue := [];
      state := Initializing;
      syncRemainingRoundtrips := NUM_SYNC_PACKETS;
      syncRandomRequests := {};
      runningLastQualityReport := now;
      runningLastInputRecv := now;
      disconnectNotifySent := false;
      disconnectEventSent := false;
      shutdownTimeout := now;
      remoteMagic := 0;
      pendingOutput := [];
      lastAckedInput := Zeroed(codec, localPlayers);
      recvInputs := map[NULL_FRAME := Zeroed(codec, |sorted|)];
      lastRecvFrame := NULL_FRAME;
      localFrameAdvantage := 0;
      remoteFrameAdvantage := 0;
      statsStartTime := 0;
      packetsSent := 0;
      roundTripTime := 0;
      lastSendTime := now;
      lastRecvTime := now;
      pendingChecksums := map[];
      new;
      assert status[..] == seq(numPlayers, _ => DEFAULT_STATUS);
    }

    // --- queries ---

    /** `NetworkStats`: only while synchronizing or running, and only once a
      * whole second has passed on the 64-bit wall clock since the start. */
    function NetworkStats(millis: int): (r: Result<Stats>)
      reads this
      ensures r.Ok? <==> (state == ProtocolState.Synchronizing || state == ProtocolState.Running) &&
                         (millis - statsStartTime) % 0x1_0000_0000_0000_0000 >= 1000
      ensures r.Err? ==> r == Err(InvalidOperation)
      ensures r.Ok? ==> r.value == Stats(|pendingOutput|, roundTripTime, localFrameAdvantage, remoteFrameAdvantage)
    {
      if state != ProtocolState.Synchronizing && state != ProtocolState.Running then Err(InvalidOperation)
      else
        var secs := ((millis - statsStartTime) % 0x1_0000_0000_0000_0000) / 1000;
        if secs == 0 then Err(InvalidOperation)
        else Ok(Stats(|pendingOutput|, roundTripTime, localFrameAdvantage, remoteFrameAdvantage))
    }

    /** `IsSynchronized`: the handshake is over. */
    predicate IsSynchronized()
      reads this
      ensures IsSynchronized() <==> state != Initializing && state != ProtocolState.Synchronizing
    {
      state == ProtocolState.Running || state == ProtocolState.Disconnected || state == Shutdown
    }

    predicate IsRunning()
      reads this
    {
      state == ProtocolState.Running
    }

    predicate IsHandlingMessage(addr: A)
      reads this
    {
      peerAddr == addr
    }

    /** `PeerConnectStatus`: what the peer last reported about a player; an
      * id outside the players is out of range. */
    function PeerConnectStatus(handle: PlayerHandle): (r: Result<ConnectionStatus>)
      requires Valid()
      reads this, timeSyncLayer, peerConnectStatus
      ensures r.Ok? <==> handle.Id < numPlayers
      ensures r.Err? ==> r == Err(IndexOutOfRange)
      ensures r.Ok? ==> r.value == peerConnectStatus[..][handle.Id]
    {
      if handle.Id < peerConnectStatus.Length then Ok(peerConnectStatus[handle.Id]) else Err(IndexOutOfRange)
    }

    method AverageFrameAdvantage() returns (r: int)
      requires Valid()
      ensures r == Average(Snapshot().LocalWindow, Snapshot().RemoteWindow)
    {
      r := timeSyncLayer.AverageFrameAdvantage();
    }

    // --- sending ---

    method QueueMessage(body: MessageBody, now: int)
      requires Valid()
      modifies this
      ensures Valid() && Snapshot() == Queued(Cfg(), old(Snapshot()), body, now)
    {
      var message := Message(MessageHeader(magic), body);
      CountSend(now);
      PushMessage(message);
    }

    /** The counters of `QueueMessage`: `_packetsSent` is a 32-bit unsigned
      * integer. */
    method CountSend(now: int)
      requires Valid()
      modifies this
      ensures Valid() && Snapshot() == old(Snapshot()).(PacketsSent := (old(packetsSent) + 1) % UINT32, LastSendTime := now)
    {
      packetsSent := (packetsSent + 1) % UINT32;
      lastSendTime := now;
    }

    // --- the deques' operations ---

    /** `_sendQueue.PushBack`. */
    method PushMessage(m: Message)
      requires Valid()
      modifies this
      ensures Valid() && Snapshot() == old(Snapshot()).(SendQueue := old(sendQueue) + [m])
    {
      sendQueue := sendQueue + [m];
    }

    /** `_eventQueue.PushBack`. */
    method PushEvent(ev: Event<I>)
      requires Valid()
      modifies this
      ensures Valid() && Snapshot() == old(Snapshot()).(EventQueue := old(eventQueue) + [ev])
    {
      eventQueue := eventQueue + [ev];
    }

    /** `_pendingOutput.PopFront`, into the last acknowledged input. */
    method PopAcked()
      requires Valid() && pendingOutput != []
      modifies this
      ensures Valid() && Snapshot() == old(Snapshot()).(PendingOutput := old(pendingOutput)[1..], LastAcked := old(pendingOutput)[0])
    {
      lastAckedInput := pendingOutput[0];
      pendingOutput := pendingOutput[1..];
    }

    method SendInputAck(now: int)
      requires Valid()
      modifies this
      ensures Valid() && Snapshot() == Queued(Cfg(), old(Snapshot()), BodyInputAck(InputAck(old(lastRecvFrame))), now)
    {
      QueueMessage(BodyInputAck(InputAck(lastRecvFrame)), now);
    }

    method SendKeepAlive(now: int)
      requires Valid()
      modifies this
      ensures Valid() && Snapshot() == Queued(Cfg(), old(Snapshot()), BodyKeepAlive, now)
    {
      QueueMessage(BodyKeepAlive, now);
    }

    /** `SendSyncRequest`; `nonce` is the random 32-bit draw. */
    method SendSyncRequest(nonce: int, now: int)
      requires Valid()
      modifies this
      ensures Valid() && Snapshot() == SyncRequested(Cfg(), old(Snapshot()), nonce, now)
    {
      syncRandomRequests := syncRandomRequests + {nonce};
      QueueMessage(BodySyncRequest(SyncRequest(nonce)), now);
    }

    method SendQualityReport(now: int, millis: int)
      requires Valid()
      modifies this
      ensures Valid() && Snapshot() == QualityReported(Cfg(), old(Snapshot()), now, millis)
    {
      runningLastQualityReport := now;
      QueueMessage(BodyQualityReport(QualityReport(ClampI16(localFrameAdvantage), millis)), now);
    }

    method SendChecksumReport(frameToSend: Frame, checksum: int, now: int)
      requires Valid()
      modifies this
      ensures Valid() && Snapshot() == Queued(Cfg(), old(Snapshot()), BodyChecksumReport(ChecksumReport(checksum, frameToSend)), now)
    {
      QueueMessage(BodyChecksumReport(ChecksumReport(checksum, frameToSend)), now);
    }

    // --- lifecycle ---

    method UpdateLocalFrameAdvantage(localFrame: Frame)
      requires Valid()
      modifies this
      ensures Valid() && Snapshot() == AdvantageUpdated(Cfg(), old(Snapshot()), localFrame)
    {
      if localFrame == NULL_FRAME || lastRecvFrame == NULL_FRAME {
        return;
      }
      var ping := TruncDiv(roundTripTime, 2);
      var remoteFrame := lastRecvFrame.No + TruncDiv(ping * fps, 1000);
      localFrameAdvantage := remoteFrame - localFrame.No;
    }

    method Disconnect(now: int)
      requires Valid()
      modifies this
      ensures Valid() && Snapshot() == AfterDisconnect(old(Snapshot()), now)
    {
      if state == Shutdown {
        return;
      }
      state := ProtocolState.Disconnected;
      shutdownTimeout := now + UDP_SHUTDOWN_TIMER;
    }

    method Synchronize(now: int, millis: int, nonce: int) returns (o: Outcome)
      requires Valid()
      modifies this
      ensures Valid() && (Snapshot(), o) == AfterSynchronize(Cfg(), old(Snapshot()), now, millis, nonce)
    {
      if state != Initializing {
        return Fail(AssertionFailed);
      }
      EnterSynchronizing();
      statsStartTime := millis;
      SendSyncRequest(nonce, now);
      o := Pass;
    }

    /** The first two steps of `Synchronize`: the handshake starts with its
      * full count of round trips. */
    method EnterSynchronizing()
      requires Valid()
      modifies this
      ensures Valid() && Snapshot() == old(Snapshot()).(State := ProtocolState.Synchronizing, SyncRemaining := NUM_SYNC_PACKETS)
    {
      state := ProtocolState.Synchronizing;
      syncRemainingRoundtrips := NUM_SYNC_PACKETS;
    }

    /** `PopPendingOutput`: the loop that drops acknowledged outputs. */
    method PopPendingOutput(ackFrame: Frame)
      requires Valid()
      modifies this
      ensures Valid() && Snapshot() == Popped(old(Snapshot()), ackFrame)
    {
      while pendingOutput != []
        invariant Valid() && Popped(Snapshot(), ackFrame) == Popped(old(Snapshot()), ackFrame)
        decreases |pendingOutput|
      {
        var input := pendingOutput[0];
        if LessEq(input.Frame, ackFrame) {
          PopOne(Snapshot(), ackFrame);
          PopAcked();
        } else {
          break;
        }
      }
    }

    /** `SendAllMessages`: the queue drains to the peer's address, or is
      * dropped once shut down. */
    method SendAllMessages() returns (sent: seq<(A, Message)>)
      requires Valid()
      modifies this
      ensures Valid() && (Snapshot(), sent) == AllSent(Cfg(), old(Snapshot()))
    {
      if state == Shutdown {
        sendQueue := [];
        return [];
      }
      if sendQueue == [] {
        return [];
      }
      sent := [];
      while sendQueue != []
        invariant |sent| + |sendQueue| == |old(sendQueue)| && sendQueue == old(sendQueue)[|sent|..]
        invariant forall k :: 0 <= k < |sent| ==> sent[k] == (peerAddr, old(sendQueue)[k])
        invariant Snapshot() == old(Snapshot()).(SendQueue := sendQueue)
        decreases |sendQueue|
      {
        sent := sent + [(peerAddr, sendQueue[0])];
        sendQueue := sendQueue[1..];
      }
      assert sent == AllSent(Cfg(), old(Snapshot())).1;
    }

    /** `SendPendingOutput`. */
    method SendPendingOutput(status: seq<ConnectionStatus>, now: int) returns (o: Outcome)
      requires Valid()
      modifies this, compression.scratch
      ensures Valid() && (Snapshot(), o) == PendingSent(Cfg(), old(Snapshot()), status, now)
    {
      if pendingOutput == [] {
        return Pass;
      }
      var input := pendingOutput[0];
      if !(lastAckedInput.Frame == NULL_FRAME || Plus(lastAckedInput.Frame, 1) == input.Frame) {
        return Fail(AssertionFailed);
      }
      var bytes := compression.Encode(lastAckedInput.Bytes, BytesOf(pendingOutput));
      if bytes.Err? {
        return Fail(bytes.failure);
      }
      var body := InputBody(Some(status), state == ProtocolState.Disconnected, input.Frame, lastRecvFrame, Some(bytes.value));
      QueueMessage(BodyInput(body), now);
      o := Pass;
    }

    /** `SendInput`. */
    method SendInput(inputs: seq<PlayerInput<I>>, status: seq<ConnectionStatus>, now: int) returns (o: Outcome)
      requires Valid()
      modifies this, compression.scratch, timeSyncLayer.local, timeSyncLayer.remote
      ensures Valid() && (Snapshot(), o) == InputSent(Cfg(), old(Snapshot()), inputs, status, now)
    {
      if state != ProtocolState.Running {
        return Pass;
      }
      if |inputs| != localPlayers {
        return Fail(AssertionFailed);
      }
      var packed := FromInputs(codec, inputs);
      if packed.Err? {
        return Fail(packed.failure);
      }
      var data := packed.value;
      ghost var e0 := Snapshot();
      o := timeSyncLayer.AdvanceFrame(data.Frame, localFrameAdvantage, remoteFrameAdvantage);
      if o.Fail? {
        assert Snapshot() == e0;
        return;
      }
      assert Snapshot() == WindowsAdvanced(e0, data.Frame);
      PushPendingOutput(data);
      o := SendPendingOutput(status, now);
    }

    /** The two pushes of `SendInput` onto the pending window and, past its
      * capacity, onto the event queue. */
    method PushPendingOutput(data: InputBytes)
      requires Valid()
      modifies this
      ensures Valid() && Snapshot() == Pushed(old(Snapshot()), data)
    {
      pendingOutput := pendingOutput + [data];
      if |pendingOutput| > PENDING_OUTPUT_SIZE {
        PushEvent(Event.Disconnected);
      }
    }

    // --- polling ---

    /** The quality report and keep-alive of `Poll`, each when due. */
    method SendHeartbeats(now: int, millis: int)
      requires Valid()
      modifies this
      ensures Valid() && Snapshot() == Heartbeats(Cfg(), old(Snapshot()), now, millis)
    {
      if runningLastQualityReport + QUALITY_REPORT_INTERVAL < now {
        SendQualityReport(now, millis);
      }
      if lastSendTime + KEEP_ALIVE_INTERVAL < now {
        SendKeepAlive(now);
      }
    }

    method NoticeInterrupt(now: int)
      requires Valid()
      modifies this
      ensures Valid() && Snapshot() == InterruptNoticed(Cfg(), old(Snapshot()), now)
    {
      if !disconnectNotifySent && lastRecvTime + disconnectNotifyStart < now {
        PushEvent(NetworkInterrupted(disconnectTimeout - disconnectNotifyStart));
        disconnectNotifySent := true;
      }
    }

    method NoticeDisconnect(now: int)
      requires Valid()
      modifies this
      ensures Valid() && Snapshot() == DisconnectNoticed(Cfg(), old(Snapshot()), now)
    {
      if !disconnectEventSent && lastRecvTime + disconnectTimeout < now {
        PushEvent(Event.Disconnected);
        disconnectEventSent := true;
      }
    }

    /** The Running case of `Poll`. */
    method PollRunning(status: seq<ConnectionStatus>, now: int, millis: int) returns (o: Outcome)
      requires Valid()
      modifies this, compression.scratch
      ensures Valid() && (Snapshot(), o) == PolledRunning(Cfg(), old(Snapshot()), status, now, millis)
    {
      if runningLastInputRecv + RUNNING_RETRY_INTERVAL < now {
        o := SendPendingOutput(status, now);
        if o.Fail? {
          return;
        }
        runningLastInputRecv := now;
      }
      SendHeartbeats(now, millis);
      NoticeInterrupt(now);
      NoticeDisconnect(now);
      o := Pass;
    }

    /** The closing loop of `Poll`: every queued event, oldest first. */
    method DrainEvents() returns (events: seq<Event<I>>)
      requires Valid()
      modifies this
      ensures Valid() && Snapshot() == old(Snapshot()).(EventQueue := []) && events == old(eventQueue)
    {
      events := [];
      while eventQueue != []
        invariant events + eventQueue == old(eventQueue)
        invariant Snapshot() == old(Snapshot()).(EventQueue := eventQueue)
        decreases |eventQueue|
      {
        events := events + [eventQueue[0]];
        eventQueue := eventQueue[1..];
      }
    }

    /** `Poll`: `now` and `millis` are the clocks, `nonce` the random draw of
      * a sync retry. */
    method Poll(status: seq<ConnectionStatus>, now: int, millis: int, nonce: int) returns (o: Outcome, events: seq<Event<I>>)
      requires Valid()
      modifies this, compression.scratch
      ensures Valid() && (Snapshot(), o, events) == Polled(Cfg(), old(Snapshot()), status, now, millis, nonce)
    {
      o := Pass;
      if state == ProtocolState.Synchronizing {
        if lastSendTime + SYNC_RETRY_INTERVAL < now {
          SendSyncRequest(nonce, now);
        }
      } else if state == ProtocolState.Running {
        o := PollRunning(status, now, millis);
        if o.Fail? {
          return o, [];
        }
      } else if state == ProtocolState.Disconnected {
        if shutdownTimeout < now {
          state := Shutdown;
        }
      }
      events := DrainEvents();
    }

    // --- receiving ---

    /** `_syncRandomRequests.Remove`: whether the nonce was pending. */
    method RemoveRequest(nonce: int) returns (removed: bool)
      requires Valid()
      modifies this
      ensures Valid() && removed == (nonce in old(syncRandomRequests))
      ensures Snapshot() == old(Snapshot()).(SyncRequests := old(syncRandomRequests) - {nonce})
    {
      removed := nonce in syncRandomRequests;
      syncRandomRequests := syncRandomRequests - {nonce};
    }

    method OnSyncRequest(q: SyncRequest, now: int)
      requires Valid()
      modifies this
      ensures Valid() && Snapshot() == Queued(Cfg(), old(Snapshot()), BodySyncReply(SyncReply(q.RandomRequest)), now)
    {
      QueueMessage(BodySyncReply(SyncReply(q.RandomRequest)), now);
    }

    /** `OnSyncReply`; `nonce` is the random draw of the next request. */
    method OnSyncReply(header: MessageHeader, reply: SyncReply, nonce: int, now: int)
      requires Valid()
      modifies this
      ensures Valid() && Snapshot() == SyncReplied(Cfg(), old(Snapshot()), header, reply, nonce, now)
    {
      if state != ProtocolState.Synchronizing {
        return;
      }
      var removed := RemoveRequest(reply.RandomReply);
      if !removed {
        return;
      }
      CountRoundTrip(header, nonce, now);
    }

    /** The accepted-reply half of `OnSyncReply`; the round-trip counter is
      * a 32-bit unsigned integer. */
    method CountRoundTrip(header: MessageHeader, nonce: int, now: int)
      requires Valid()
      modifies this
      ensures Valid() && Snapshot() == RoundTripCounted(Cfg(), old(Snapshot()), header, nonce, now)
    {
      syncRemainingRoundtrips := if syncRemainingRoundtrips == 0 then UINT32 - 1 else syncRemainingRoundtrips - 1;
      if syncRemainingRoundtrips > 0 {
        PushEvent(Event.Synchronizing(NUM_SYNC_PACKETS, (NUM_SYNC_PACKETS - syncRemainingRoundtrips) % UINT32));
        SendSyncRequest(nonce, now);
      } else {
        EnterRunning(header.Magic);
      }
    }

    /** The last round trip of the handshake: Running, under the peer's
      * magic from now on. */
    method EnterRunning(peerMagic: int)
      requires Valid()
      modifies this
      ensures Valid() && Snapshot() == old(Snapshot()).(State := ProtocolState.Running,
                                                        EventQueue := old(eventQueue) + [Event.Synchronized],
                                                        RemoteMagic := peerMagic)
    {
      state := ProtocolState.Running;
      PushEvent(Event.Synchronized);
      remoteMagic := peerMagic;
    }

    /** The status loop of `OnInput`: each entry merged with the peer's
      * report, in place. */
    method MergePeerStatus(theirs: Option<seq<ConnectionStatus>>) returns (o: Outcome)
      requires Valid()
      modifies peerConnectStatus
      ensures Valid() && (peerConnectStatus[..], o) == Merged(numPlayers, old(peerConnectStatus[..]), theirs)
      ensures Snapshot() == old(Snapshot()).(PeerStatus := peerConnectStatus[..])
    {
      if numPlayers == 0 {
        return Pass;
      }
      if theirs.None? {
        return Fail(NullReference);
      }
      var ts := theirs.value;
      for i := 0 to numPlayers
        invariant i <= |ts|
        invariant peerConnectStatus[..] == MergedPrefix(old(peerConnectStatus[..]), ts, i)
      {
        if i == |ts| {
          return Fail(IndexOutOfRange);
        }
        peerConnectStatus[i] := MergedStatus(peerConnectStatus[i], ts[i]);
      }
      o := Pass;
    }

    /** `_recvInputs[f] = inp` and the advance of the last received frame. */
    method StoreInput(inp: InputBytes)
      requires Valid()
      modifies this
      ensures Valid() && Snapshot() == old(Snapshot()).(RecvInputs := old(recvInputs)[inp.Frame := inp],
                                                        LastRecvFrame := Max(old(lastRecvFrame), inp.Frame))
    {
      recvInputs := recvInputs[inp.Frame := inp];
      lastRecvFrame := Max(lastRecvFrame, inp.Frame);
    }

    /** The inner loop of `OnInput`: one event per player, in handle order. */
    method PushInputEvents(inputs: seq<PlayerInput<I>>)
      requires Valid() && |inputs| <= |handles|
      modifies this
      ensures Valid() && Snapshot() == old(Snapshot()).(EventQueue := old(eventQueue) + InputEvents(inputs, handles))
    {
      for j := 0 to |inputs|
        invariant Valid() && Snapshot() == old(Snapshot()).(EventQueue := old(eventQueue) + InputEvents(inputs[..j], handles))
      {
        assert InputEvents(inputs[..j + 1], handles) == InputEvents(inputs[..j], handles) + [Input(inputs[j], handles[j])];
        PushEvent(Input(inputs[j], handles[j]));
      }
      assert inputs[..|inputs|] == inputs;
    }

    /** The delivery loop of `OnInput` over the decoded frames. */
    method DeliverInputs(start: Frame, recv: seq<seq<byte>>) returns (o: Outcome)
      requires Valid()
      modifies this
      ensures Valid() && (Snapshot(), o) == Delivered(Cfg(), old(Snapshot()), start, recv, 0)
    {
      var i := 0;
      while i < |recv|
        invariant i <= |recv|
        invariant Valid() && Delivered(Cfg(), Snapshot(), start, recv, i) == Delivered(Cfg(), old(Snapshot()), start, recv, 0)
        decreases |recv| - i
      {
        var f := Plus(start, i);
        if LessEq(f, lastRecvFrame) {
          i := i + 1;
          continue;
        }
        var inp := InputBytes(f, recv[i]);
        StoreInput(inp);
        var inputs := ToInputs(codec, inp, |handles|);
        if inputs.Err? {
          return Fail(inputs.failure);
        }
        PushInputEvents(inputs.value);
        i := i + 1;
      }
      o := Pass;
    }

    /** The pruning of `OnInput`. */
    method PruneReceived()
      requires Valid()
      modifies this
      ensures Valid() && Snapshot() == Pruned(Cfg(), old(Snapshot()))
    {
      var kept := RemoveOlder(recvInputs, Minus(lastRecvFrame, 2 * maxPrediction));
      recvInputs := kept;
      var newest := NewestFrame(kept.Keys);
      lastRecvFrame := newest;
    }

    /** The decoding half of `OnInput`. */
    method DecodeInputs(body: InputBody, now: int) returns (o: Outcome)
      requires Valid()
      modifies this, compression.scratch
      ensures Valid() && (Snapshot(), o) == InputDecoded(Cfg(), old(Snapshot()), body, now)
    {
      if !(lastRecvFrame == NULL_FRAME || lastRecvFrame.No + 1 >= body.StartFrame.No) {
        return Fail(AssertionFailed);
      }
      var decodeFrame := if lastRecvFrame == NULL_FRAME then NULL_FRAME else Minus(body.StartFrame, 1);
      if decodeFrame !in recvInputs {
        return Pass;
      }
      var decodeInp := recvInputs[decodeFrame];
      runningLastInputRecv := now;
      var recv := compression.Decode(decodeInp.Bytes, Payload(body));
      if recv.Err? {
        return Fail(recv.failure);
      }
      o := DeliverInputs(body.StartFrame, recv.value);
      if o.Fail? {
        return;
      }
      SendInputAck(now);
      PruneReceived();
    }

    /** `OnInput`. */
    method OnInput(body: InputBody, now: int) returns (o: Outcome)
      requires Valid()
      modifies this, peerConnectStatus, compression.scratch
      ensures Valid() && (Snapshot(), o) == InputReceived(Cfg(), old(Snapshot()), body, now)
    {
      PopPendingOutput(body.AckFrame);
      o := NoteStatus(body);
      if o.Fail? {
        return;
      }
      o := DecodeInputs(body, now);
    }

    /** The disconnect request or the status merge of `OnInput`. */
    method NoteStatus(body: InputBody) returns (o: Outcome)
      requires Valid()
      modifies this, peerConnectStatus
      ensures Valid() && (Snapshot(), o) == StatusNoted(Cfg(), old(Snapshot()), body)
    {
      if body.DisconnectRequested {
        if state != ProtocolState.Disconnected && !disconnectEventSent {
          PushEvent(Event.Disconnected);
          disconnectEventSent := true;
        }
        o := Pass;
      } else {
        o := MergePeerStatus(body.PeerConnectStatus);
      }
    }

    method OnQualityReport(q: QualityReport, now: int)
      requires Valid()
      modifies this
      ensures Valid() && Snapshot() == Queued(Cfg(), old(Snapshot()).(RemoteAdvantage := q.FrameAdvantage),
                                             BodyQualityReply(QualityReply(q.Ping)), now)
    {
      remoteFrameAdvantage := q.FrameAdvantage;
      QueueMessage(BodyQualityReply(QualityReply(q.Ping)), now);
    }

    /** `OnQualityReply`; `millis` is the wall clock, which must not be
      * before the echoed ping. */
    method OnQualityReply(q: QualityReply, millis: int) returns (o: Outcome)
      requires Valid()
      modifies this
      ensures Valid() && o == (if millis < q.Pong then Fail(AssertionFailed) else Pass)
      ensures Snapshot() == if o.Fail? then old(Snapshot()) else old(Snapshot()).(RoundTripTime := millis - q.Pong)
    {
      if millis < q.Pong {
        return Fail(AssertionFailed);
      }
      roundTripTime := millis - q.Pong;
      o := Pass;
    }

    method OnChecksumReport(c: ChecksumReport) returns (o: Outcome)
      requires Valid()
      modifies this
      ensures Valid() && (Snapshot(), o) == ChecksumReported(Cfg(), old(Snapshot()), c)
    {
      var interval := if desyncDetection.On then desyncDetection.Interval else 1;
      if |pendingChecksums| >= MAX_CHECKSUM_HISTORY_SIZE {
        var kept := RemoveOlder(pendingChecksums, Minus(c.Frame, (MAX_CHECKSUM_HISTORY_SIZE - 1) * interval));
        pendingChecksums := kept;
      }
      if c.Frame in pendingChecksums {
        return Fail(Argument);
      }
      pendingChecksums := pendingChecksums[c.Frame := c.Checksum];
      o := Pass;
    }

    /** `HandleMessage`: `now` and `millis` are the clocks, `nonce` the random
      * draw of a sync request the message may cause. */
    method HandleMessage(msg: Message, now: int, millis: int, nonce: int) returns (o: Outcome)
      requires Valid()
      modifies this, peerConnectStatus, compression.scratch
      ensures Valid() && (Snapshot(), o) == Handled(Cfg(), old(Snapshot()), msg, now, millis, nonce)
    {
      if state == Shutdown {
        return Pass;
      }
      if remoteMagic != 0 && msg.Header.Magic != remoteMagic {
        return Pass;
      }
      NoteArrival(now);
      o := Dispatch(msg, now, millis, nonce);
    }

    /** The receive time, and the end of a reported interruption. */
    method NoteArrival(now: int)
      requires Valid()
      modifies this
      ensures Valid() && Snapshot() == Arrived(old(Snapshot()), now)
    {
      lastRecvTime := now;
      if disconnectNotifySent && state == ProtocolState.Running {
        disconnectNotifySent := false;
        PushEvent(NetworkResumed);
      }
    }

    /** The handler for each kind of message. */
    method Dispatch(msg: Message, now: int, millis: int, nonce: int) returns (o: Outcome)
      requires Valid()
      modifies this, peerConnectStatus, compression.scratch
      ensures Valid() && (Snapshot(), o) == Dispatched(Cfg(), old(Snapshot()), msg, now, millis, nonce)
    {
      if msg.Body.BodyInput? {
        o := OnInput(msg.Body.input, now);
      } else if msg.Body.BodySyncReply? {
        OnSyncReply(msg.Header, msg.Body.syncReply, nonce, now);
        o := Pass;
      } else if msg.Body.BodySyncRequest? || msg.Body.BodyInputAck? {
        Answer(msg.Body, now);
        o := Pass;
      } else {
        o := DispatchReport(msg.Body, now, millis);
      }
    }

    /** The reply to a synchronisation request, or a bare acknowledgement. */
    method Answer(b: MessageBody, now: int)
      requires Valid() && (b.BodySyncRequest? || b.BodyInputAck?)
      modifies this
      ensures Valid() && Snapshot() == Answered(Cfg(), old(Snapshot()), b, now)
    {
      if b.BodySyncRequest? {
        OnSyncRequest(b.syncRequest, now);
      } else {
        PopPendingOutput(b.inputAck.AckFrame);
      }
    }

    /** The quality, checksum, keep-alive and unknown handlers. */
    method DispatchReport(b: MessageBody, now: int, millis: int) returns (o: Outcome)
      requires Valid()
      modifies this
      ensures Valid() && (Snapshot(), o) == Reported(Cfg(), old(Snapshot()), b, now, millis)
    {
      o := Pass;
      match b {
        case BodyQualityReport(q) => OnQualityReport(q, now);
        case BodyQualityReply(q) => o := OnQualityReply(q, millis);
        case BodyChecksumReport(q) => o := OnChecksumReport(q);
        case _ =>
      }
    }
  }
}
