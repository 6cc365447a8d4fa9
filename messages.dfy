/** `Netcode.Rollback.Network` messages: a two-byte magic header and a body
  * made of a four-byte kind tag and that kind's payload, all integers
  * little-endian.  The serializers write into a span (an array and an
  * offset); the deserializers read a span and return what they read with
  * the number of bytes consumed. */
module Messages {
  import opened Bytes
  import opened Outcomes
  import opened Frames
  import opened SessionConstants

  // ----- ConnectionStatus -----

  datatype ConnectionStatus = ConnectionStatus(Disconnected: bool, LastFrame: Frame)

  const DEFAULT_STATUS: ConnectionStatus := ConnectionStatus(false, NULL_FRAME)
  const STATUS_SIZE: nat := 5

  /** `ConnectionStatus.Serialize`: a flag byte, then the frame. */
  function StatusBytes(s: ConnectionStatus): (r: seq<byte>)
    ensures |r| == STATUS_SIZE
  {
    [if s.Disconnected then 1 else 0] + Frames.Serialize(s.LastFrame)
  }

  /** `ConnectionStatus.Deserialize`: any non-zero flag byte reads as
    * disconnected. */
  function StatusFrom(bs: seq<byte>): (r: Result<(ConnectionStatus, nat)>)
    ensures r.Ok? <==> |bs| >= STATUS_SIZE
    ensures r.Ok? ==> r.value.1 == STATUS_SIZE
  {
    if |bs| < 1 then Err(IndexOutOfRange)
    else
      match Frames.Deserialize(bs[1..])
      case Err(f) => Err(f)
      case Ok((frame, n)) => Ok((ConnectionStatus(bs[0] != 0, frame), 1 + n))
  }

  /** The statuses one after the other. */
  function StatusesBytes(ss: seq<ConnectionStatus>): (r: seq<byte>)
    ensures |r| == 5 * |ss|
  {
    if ss == [] then [] else StatusesBytes(ss[..|ss| - 1]) + StatusBytes(ss[|ss| - 1])
  }

  /** The loop of `Input.Deserialize` over the statuses, from `ptr` on
    * with `acc` already read and `remaining` still to read. */
  function StatusesFrom(bs: seq<byte>, ptr: nat, acc: seq<ConnectionStatus>, remaining: nat)
    : (r: Result<(seq<ConnectionStatus>, nat)>)
    requires ptr <= |bs|
    ensures r.Ok? ==> r.value.1 <= |bs|
    decreases remaining
  {
    if remaining == 0 then Ok((acc, ptr))
    else
      match StatusFrom(bs[ptr..])
      case Err(f) => Err(f)
      case Ok((s, n)) => StatusesFrom(bs, ptr + n, acc + [s], remaining - 1)
  }

  // ----- the bodies -----

  const SYNC_REQUEST: int := 0
  const SYNC_REPLY: int := 1
  const INPUT: int := 2
  const INPUT_ACK: int := 3
  const QUALITY_REPORT: int := 4
  const QUALITY_REPLY: int := 5
  const CHECKSUM_REPORT: int := 6
  const KEEP_ALIVE: int := 7

  datatype SyncRequest = SyncRequest(RandomRequest: int)
  datatype SyncReply = SyncReply(RandomReply: int)
  /** `Input`; `None` stands for a null array. */
  datatype InputBody = InputBody(PeerConnectStatus: Option<seq<ConnectionStatus>>, DisconnectRequested: bool,
                                 StartFrame: Frame, AckFrame: Frame, Bytes: Option<seq<byte>>)
  datatype InputAck = InputAck(AckFrame: Frame)
  datatype QualityReport = QualityReport(FrameAdvantage: int, Ping: int)
  datatype QualityReply = QualityReply(Pong: int)
  datatype ChecksumReport = ChecksumReport(Checksum: int, Frame: Frame)

  const DEFAULT_INPUT: InputBody := InputBody(Some([]), false, NULL_FRAME, NULL_FRAME, Some([]))

  /** The statuses `Serialize` writes: none for a null array. */
  function Statuses(i: InputBody): seq<ConnectionStatus>
  {
    if i.PeerConnectStatus.Some? then i.PeerConnectStatus.value else []
  }

  /** The payload `Serialize` writes: none for a null array. */
  function Payload(i: InputBody): seq<byte>
  {
    if i.Bytes.Some? then i.Bytes.value else []
  }

  /** The input with each null array replaced by an empty one, which is
    * what reading back its bytes produces. */
  function Normalized(i: InputBody): (r: InputBody)
    ensures r.PeerConnectStatus == Some(Statuses(i)) && r.Bytes == Some(Payload(i))
    ensures i.PeerConnectStatus.Some? && i.Bytes.Some? ==> r == i
  {
    i.(PeerConnectStatus := Some(Statuses(i)), Bytes := Some(Payload(i)))
  }
  const DEFAULT_INPUT_ACK: InputAck := InputAck(NULL_FRAME)

  /** `MessageBody`: one variant per `From` overload, and the body a kind
    * tag outside the enumeration deserializes to (no payload). */
  datatype MessageBody =
    | BodySyncRequest(syncRequest: SyncRequest)
    | BodySyncReply(syncReply: SyncReply)
    | BodyInput(input: InputBody)
    | BodyInputAck(inputAck: InputAck)
    | BodyQualityReport(qualityReport: QualityReport)
    | BodyQualityReply(qualityReply: QualityReply)
    | BodyChecksumReport(checksumReport: ChecksumReport)
    | BodyKeepAlive
    | BodyUnknown(kind: int)
  {
    function Kind(): int
    {
      match this
      case BodySyncRequest(_) => SYNC_REQUEST
      case BodySyncReply(_) => SYNC_REPLY
      case BodyInput(_) => INPUT
      case BodyInputAck(_) => INPUT_ACK
      case BodyQualityReport(_) => QUALITY_REPORT
      case BodyQualityReply(_) => QUALITY_REPLY
      case BodyChecksumReport(_) => CHECKSUM_REPORT
      case BodyKeepAlive => KEEP_ALIVE
      case BodyUnknown(k) => k
    }

    function GetSyncRequest(): (r: Result<SyncRequest>)
      ensures r.Ok? <==> BodySyncRequest?
      ensures r.Err? ==> r.failure == InvalidOperation
    {
      if BodySyncRequest? then Ok(syncRequest) else Err(InvalidOperation)
    }

    function GetSyncReply(): (r: Result<SyncReply>)
      ensures r.Ok? <==> BodySyncReply?
      ensures r.Err? ==> r.failure == InvalidOperation
    {
      if BodySyncReply? then Ok(syncReply) else Err(InvalidOperation)
    }

    function GetInput(): (r: Result<InputBody>)
      ensures r.Ok? <==> BodyInput?
      ensures r.Err? ==> r.failure == InvalidOperation
    {
      if BodyInput? then Ok(input) else Err(InvalidOperation)
    }

    function GetInputAck(): (r: Result<InputAck>)
      ensures r.Ok? <==> BodyInputAck?
      ensures r.Err? ==> r.failure == InvalidOperation
    {
      if BodyInputAck? then Ok(inputAck) else Err(InvalidOperation)
    }

    function GetQualityReport(): (r: Result<QualityReport>)
      ensures r.Ok? <==> BodyQualityReport?
      ensures r.Err? ==> r.failure == InvalidOperation
    {
      if BodyQualityReport? then Ok(qualityReport) else Err(InvalidOperation)
    }

    function GetQualityReply(): (r: Result<QualityReply>)
      ensures r.Ok? <==> BodyQualityReply?
      ensures r.Err? ==> r.failure == InvalidOperation
    {
      if BodyQualityReply? then Ok(qualityReply) else Err(InvalidOperation)
    }

    function GetChecksumReport(): (r: Result<ChecksumReport>)
      ensures r.Ok? <==> BodyChecksumReport?
      ensures r.Err? ==> r.failure == InvalidOperation
    {
      if BodyChecksumReport? then Ok(checksumReport) else Err(InvalidOperation)
    }

    function GetKeepAlive(): (r: Result<()>)
      ensures r.Ok? <==> BodyKeepAlive?
      ensures r.Err? ==> r.failure == InvalidOperation
    {
      if BodyKeepAlive? then Ok(()) else Err(InvalidOperation)
    }
  }

  /** What reading back a body's bytes produces: the body, with null
    * arrays of an Input replaced by empty ones. */
  function NormalBody(b: MessageBody): (r: MessageBody)
    ensures r.Kind() == b.Kind()
    ensures !b.BodyInput? ==> r == b
  {
    if b.BodyInput? then BodyInput(Normalized(b.input)) else b
  }

  /** `Input.Serialize`: count, statuses, flag, start, ack, length, bytes. */
  function InputBodyBytes(i: InputBody): seq<byte>
  {
    WriteI32(|Statuses(i)|) + StatusesBytes(Statuses(i)) + TailBytes(i)
  }

  /** The Input layout after the count and the statuses. */
  function TailBytes(i: InputBody): (r: seq<byte>)
    ensures |r| == 13 + |Payload(i)|
  {
    [if i.DisconnectRequested then 1 else 0] + Frames.Serialize(i.StartFrame) +
    Frames.Serialize(i.AckFrame) + WriteI32(|Payload(i)|) + Payload(i)
  }

  /** The bytes `Serialize` writes after the kind tag. */
  function PayloadBytes(b: MessageBody): seq<byte>
  {
    match b
    case BodySyncRequest(x) => WriteU32(x.RandomRequest)
    case BodySyncReply(x) => WriteU32(x.RandomReply)
    case BodyInput(x) => InputBodyBytes(x)
    case BodyInputAck(x) => Frames.Serialize(x.AckFrame)
    case BodyQualityReport(x) => WriteI16(x.FrameAdvantage) + WriteU64(x.Ping)
    case BodyQualityReply(x) => WriteU64(x.Pong)
    case BodyChecksumReport(x) => WriteU64(x.Checksum) + Frames.Serialize(x.Frame)
    case BodyKeepAlive => []
    case BodyUnknown(_) => []
  }

  /** `MessageBody.Serialize`. */
  function BodyBytes(b: MessageBody): seq<byte>
  {
    WriteI32(b.Kind()) + PayloadBytes(b)
  }

  datatype MessageHeader = MessageHeader(Magic: int)
  datatype Message = Message(Header: MessageHeader, Body: MessageBody)

  function NormalMessage(m: Message): Message
  {
    m.(Body := NormalBody(m.Body))
  }

  /** `Message.Serialize`. */
  function MessageBytes(m: Message): seq<byte>
  {
    WriteU16(m.Header.Magic) + BodyBytes(m.Body)
  }

  // ----- deserializing -----

  /** What follows the statuses in `Input.Deserialize`, from `ptr` on. */
  function InputTailFrom(bs: seq<byte>, ptr: nat, statuses: seq<ConnectionStatus>): Result<(InputBody, nat)>
    requires ptr <= |bs|
  {
    if ptr >= |bs| then Err(IndexOutOfRange)
    else
      var disconnect := bs[ptr] != 0;
      match Frames.Deserialize(bs[ptr + 1..])
      case Err(f) => Err(f)
      case Ok((start, _)) =>
        match Frames.Deserialize(bs[ptr + 5..])
        case Err(f) => Err(f)
        case Ok((ack, _)) =>
          if |bs| < ptr + 13 then Err(ArgumentOutOfRange)
          else
            var numBytes := ReadI32(bs[ptr + 9..]);
            if numBytes > MAX_INPUT_PAYLOAD then Err(InvalidOperation)
            else if numBytes < 0 then Err(Overflow)
            else if |bs| < ptr + 13 + numBytes then Err(ArgumentOutOfRange)
            else Ok((InputBody(Some(statuses), disconnect, start, ack, Some(bs[ptr + 13 .. ptr + 13 + numBytes])),
                     ptr + 13 + numBytes))
  }

  /** `Input.Deserialize`: more than 16 statuses or more than 400 payload
    * bytes throw; a negative count makes the array allocation throw. */
  function InputFrom(bs: seq<byte>): Result<(InputBody, nat)>
  {
    if |bs| < 4 then Err(ArgumentOutOfRange)
    else
      var numConnStat := ReadI32(bs);
      if numConnStat > MAX_NUM_PLAYERS then Err(InvalidOperation)
      else if numConnStat < 0 then Err(Overflow)
      else
        match StatusesFrom(bs, 4, [], numConnStat)
        case Err(f) => Err(f)
        case Ok((statuses, ptr)) => InputTailFrom(bs, ptr, statuses)
  }

  /** The payload of a body of kind `kind`; a kind outside the enumeration
    * reads nothing more. */
  function PayloadFrom(kind: int, bs: seq<byte>): Result<(MessageBody, nat)>
  {
    if kind == SYNC_REQUEST then
      if |bs| < 4 then Err(ArgumentOutOfRange) else Ok((BodySyncRequest(SyncRequest(ReadU32(bs))), 4))
    else if kind == SYNC_REPLY then
      if |bs| < 4 then Err(ArgumentOutOfRange) else Ok((BodySyncReply(SyncReply(ReadU32(bs))), 4))
    else if kind == INPUT then
      match InputFrom(bs)
      case Err(f) => Err(f)
      case Ok((x, n)) => Ok((BodyInput(x), n))
    else if kind == INPUT_ACK then
      match Frames.Deserialize(bs)
      case Err(f) => Err(f)
      case Ok((f, n)) => Ok((BodyInputAck(InputAck(f)), n))
    else if kind == QUALITY_REPORT then
      if |bs| < 10 then Err(ArgumentOutOfRange)
      else Ok((BodyQualityReport(QualityReport(ReadI16(bs), ReadU64(bs[2..]))), 10))
    else if kind == QUALITY_REPLY then
      if |bs| < 8 then Err(ArgumentOutOfRange) else Ok((BodyQualityReply(QualityReply(ReadU64(bs))), 8))
    else if kind == CHECKSUM_REPORT then
      if |bs| < 8 then Err(ArgumentOutOfRange)
      else
        match Frames.Deserialize(bs[8..])
        case Err(f) => Err(f)
        case Ok((f, n)) => Ok((BodyChecksumReport(ChecksumReport(ReadU64(bs), f)), 8 + n))
    else if kind == KEEP_ALIVE then Ok((BodyKeepAlive, 0))
    else Ok((BodyUnknown(kind), 0))
  }

  /** `MessageBody.Deserialize`. */
  function BodyFrom(bs: seq<byte>): Result<(MessageBody, nat)>
  {
    if |bs| < 4 then Err(ArgumentOutOfRange)
    else
      match PayloadFrom(ReadI32(bs), bs[4..])
      case Err(f) => Err(f)
      case Ok((b, n)) => Ok((b, 4 + n))
  }

  /** `Message.Deserialize`. */
  function MessageFrom(bs: seq<byte>): Result<(Message, nat)>
  {
    if |bs| < 2 then Err(ArgumentOutOfRange)
    else
      match BodyFrom(bs[2..])
      case Err(f) => Err(f)
      case Ok((b, n)) => Ok((Message(MessageHeader(ReadU16(bs)), b), 2 + n))
  }

  // ----- the values the wire format can carry -----

  predicate StatusFits(s: ConnectionStatus)
  {
    IsI32(s.LastFrame.No)
  }

  /** Within the deserializer's caps, with 32-bit frames. */
  predicate InputFits(i: InputBody)
  {
    |Statuses(i)| <= MAX_NUM_PLAYERS && |Payload(i)| <= MAX_INPUT_PAYLOAD &&
    (forall k :: 0 <= k < |Statuses(i)| ==> StatusFits(Statuses(i)[k])) &&
    IsI32(i.StartFrame.No) && IsI32(i.AckFrame.No)
  }

  /** Every field within its C# type, and an unknown kind really unknown. */
  predicate BodyFits(b: MessageBody)
  {
    match b
    case BodySyncRequest(x) => IsU32(x.RandomRequest)
    case BodySyncReply(x) => IsU32(x.RandomReply)
    case BodyInput(x) => InputFits(x)
    case BodyInputAck(x) => IsI32(x.AckFrame.No)
    case BodyQualityReport(x) => IsI16(x.FrameAdvantage) && IsU64(x.Ping)
    case BodyQualityReply(x) => IsU64(x.Pong)
    case BodyChecksumReport(x) => IsU64(x.Checksum) && IsI32(x.Frame.No)
    case BodyKeepAlive => true
    case BodyUnknown(k) => IsI32(k) && !(SYNC_REQUEST <= k <= KEEP_ALIVE)
  }

  predicate MessageFits(m: Message)
  {
    IsU16(m.Header.Magic) && BodyFits(m.Body)
  }

  // ----- round trips -----

  /** A status reads back from its bytes, whatever follows. */
  lemma StatusRoundTrip(s: ConnectionStatus, rest: seq<byte>)
    requires StatusFits(s)
    ensures StatusFrom(StatusBytes(s) + rest) == Ok((s, STATUS_SIZE))
  {
    assert (StatusBytes(s) + rest)[1..] == Frames.Serialize(s.LastFrame) + rest;
    Frames.SerializeRoundTrip(s.LastFrame, rest);
  }

  /** Any non-zero flag byte reads as disconnected, zero as connected. */
  lemma StatusFlag(flag: byte, f: Frame, rest: seq<byte>)
    requires IsI32(f.No)
    ensures StatusFrom([flag] + Frames.Serialize(f) + rest) ==
      Ok((ConnectionStatus(flag != 0, f), STATUS_SIZE))
  {
    assert ([flag] + Frames.Serialize(f) + rest)[1..] == Frames.Serialize(f) + rest;
    Frames.SerializeRoundTrip(f, rest);
  }

  lemma {:induction false} StatusesBytesFront(ss: seq<ConnectionStatus>)
    requires ss != []
    ensures StatusesBytes(ss) == StatusBytes(ss[0]) + StatusesBytes(ss[1..])
    decreases |ss|
  {
    if |ss| > 1 {
      var init := ss[..|ss| - 1];
      StatusesBytesFront(init);
      assert init[1..] == ss[1..][..|ss| - 2];
      assert ss[1..][|ss| - 2] == ss[|ss| - 1];
    } else {
      assert ss[..0] == [] && ss[1..] == [];
    }
  }

  /** The status loop reads back what the serializer's status loop wrote. */
  lemma {:induction false} StatusesRoundTrip(bs: seq<byte>, ptr: nat, acc: seq<ConnectionStatus>,
                                             ss: seq<ConnectionStatus>, rest: seq<byte>)
    requires ptr <= |bs| && bs[ptr..] == StatusesBytes(ss) + rest
    requires forall k :: 0 <= k < |ss| ==> StatusFits(ss[k])
    ensures StatusesFrom(bs, ptr, acc, |ss|) == Ok((acc + ss, ptr + 5 * |ss|))
    decreases |ss|
  {
    if ss == [] {
      assert acc + ss == acc;
    } else {
      StatusesBytesFront(ss);
      StatusRoundTrip(ss[0], StatusesBytes(ss[1..]) + rest);
      assert bs[ptr..] == StatusBytes(ss[0]) + (StatusesBytes(ss[1..]) + rest);
      assert bs[ptr + STATUS_SIZE..] == bs[ptr..][STATUS_SIZE..];
      StatusesRoundTrip(bs, ptr + STATUS_SIZE, acc + [ss[0]], ss[1..], rest);
      assert acc + [ss[0]] + ss[1..] == acc + ss;
    }
  }

  /** The fields after the statuses read back. */
  lemma InputTailRoundTrip(i: InputBody, bs: seq<byte>, ptr: nat, rest: seq<byte>)
    requires InputFits(i) && ptr <= |bs|
    requires bs[ptr..] == TailBytes(i) + rest
    ensures InputTailFrom(bs, ptr, Statuses(i)) == Ok((Normalized(i), ptr + 13 + |Payload(i)|))
  {
    var t := bs[ptr..];
    var n := |Payload(i)|;
    assert Frames.Deserialize(bs[ptr + 1..]) == Ok((i.StartFrame, 4)) by {
      assert bs[ptr + 1..] == t[1..] == Frames.Serialize(i.StartFrame) + (t[5..]);
      Frames.SerializeRoundTrip(i.StartFrame, t[5..]);
    }
    assert Frames.Deserialize(bs[ptr + 5..]) == Ok((i.AckFrame, 4)) by {
      assert bs[ptr + 5..] == t[5..] == Frames.Serialize(i.AckFrame) + (t[9..]);
      Frames.SerializeRoundTrip(i.AckFrame, t[9..]);
    }
    assert |bs| >= ptr + 13 + n && ReadI32(bs[ptr + 9..]) == n by {
      assert bs[ptr + 9..] == t[9..] == WriteI32(n) + (Payload(i) + rest);
      ReadWriteI32(n, Payload(i) + rest);
    }
    assert bs[ptr + 13 .. ptr + 13 + n] == t[13 .. 13 + n] == Payload(i);
    assert (bs[ptr] != 0) == i.DisconnectRequested by {
      assert bs[ptr] == t[0];
    }
    InputTailParts(bs, ptr, Statuses(i), i.StartFrame, i.AckFrame, n);
  }

  /** `InputTailFrom` once each field has been read. */
  lemma InputTailParts(bs: seq<byte>, ptr: nat, ss: seq<ConnectionStatus>, start: Frame, ack: Frame, n: int)
    requires ptr < |bs|
    requires Frames.Deserialize(bs[ptr + 1..]) == Ok((start, 4))
    requires Frames.Deserialize(bs[ptr + 5..]) == Ok((ack, 4))
    requires 0 <= n <= MAX_INPUT_PAYLOAD && |bs| >= ptr + 13 + n && ReadI32(bs[ptr + 9..]) == n
    ensures InputTailFrom(bs, ptr, ss) ==
      Ok((InputBody(Some(ss), bs[ptr] != 0, start, ack, Some(bs[ptr + 13 .. ptr + 13 + n])), ptr + 13 + n))
  {
  }

  /** Within the caps, `Input.Deserialize` undoes `Input.Serialize`. */
  lemma InputRoundTrip(i: InputBody, rest: seq<byte>)
    requires InputFits(i)
    ensures InputFrom(InputBodyBytes(i) + rest) == Ok((Normalized(i), |InputBodyBytes(i)|))
  {
    InputFromAt(i, rest);
    InputTailAt(i, rest);
  }

  /** In the bytes of an Input, reading goes on after the statuses. */
  lemma InputFromAt(i: InputBody, rest: seq<byte>)
    requires |Statuses(i)| <= MAX_NUM_PLAYERS
    requires forall k :: 0 <= k < |Statuses(i)| ==> StatusFits(Statuses(i)[k])
    ensures 4 + 5 * |Statuses(i)| <= |InputBodyBytes(i) + rest|
    ensures InputFrom(InputBodyBytes(i) + rest) ==
      InputTailFrom(InputBodyBytes(i) + rest, 4 + 5 * |Statuses(i)|, Statuses(i))
  {
    var ss := Statuses(i);
    var bs := InputBodyBytes(i) + rest;
    var ptr: nat := 4 + 5 * |ss|;
    assert |bs| >= 4 && ReadI32(bs) == |ss| && StatusesFrom(bs, 4, [], |ss|) == Ok((ss, ptr)) by {
      InputHeadAt(i, rest);
    }
  }

  /** In the bytes of an Input, the count and the statuses read back. */
  lemma InputHeadAt(i: InputBody, rest: seq<byte>)
    requires |Statuses(i)| <= INT_MAX
    requires forall k :: 0 <= k < |Statuses(i)| ==> StatusFits(Statuses(i)[k])
    ensures |InputBodyBytes(i) + rest| >= 4 && ReadI32(InputBodyBytes(i) + rest) == |Statuses(i)|
    ensures StatusesFrom(InputBodyBytes(i) + rest, 4, [], |Statuses(i)|) ==
      Ok((Statuses(i), 4 + 5 * |Statuses(i)|))
  {
    var ss := Statuses(i);
    var bs := InputBodyBytes(i) + rest;
    var tail := TailBytes(i) + rest;
    InputBytesSplit(i, rest);
    ReadWriteI32(|ss|, StatusesBytes(ss) + tail);
    assert bs[4..] == StatusesBytes(ss) + tail;
    StatusesRoundTrip(bs, 4, [], ss, tail);
    assert [] + ss == ss;
  }

  /** In the bytes of an Input, the fields after the statuses read back. */
  lemma InputTailAt(i: InputBody, rest: seq<byte>)
    requires InputFits(i)
    ensures 4 + 5 * |Statuses(i)| <= |InputBodyBytes(i) + rest|
    ensures InputTailFrom(InputBodyBytes(i) + rest, 4 + 5 * |Statuses(i)|, Statuses(i)) ==
      Ok((Normalized(i), |InputBodyBytes(i)|))
  {
    var bs := InputBodyBytes(i) + rest;
    var ptr := 4 + 5 * |Statuses(i)|;
    assert |InputBodyBytes(i)| == ptr + 13 + |Payload(i)| && bs[ptr..] == TailBytes(i) + rest by {
      InputBytesSplit(i, rest);
    }
    InputTailRoundTrip(i, bs, ptr, rest);
  }

  lemma InputBytesSplit(i: InputBody, rest: seq<byte>)
    ensures InputBodyBytes(i) + rest ==
      WriteI32(|Statuses(i)|) + (StatusesBytes(Statuses(i)) + (TailBytes(i) + rest))
    ensures |InputBodyBytes(i)| == 4 + 5 * |Statuses(i)| + 13 + |Payload(i)|
  {
    Assoc(WriteI32(|Statuses(i)|), StatusesBytes(Statuses(i)), TailBytes(i), rest);
  }

  lemma Assoc(a: seq<byte>, b: seq<byte>, c: seq<byte>, d: seq<byte>)
    ensures a + b + c + d == a + (b + (c + d))
  {
  }

  /** The caps are enforced only on the way in: `Serialize` writes more than
    * 16 statuses or more than 400 payload bytes, and `Deserialize` throws on
    * them. */
  lemma InputCapsRejected(i: InputBody, rest: seq<byte>)
    requires |Statuses(i)| <= INT_MAX && |Payload(i)| <= INT_MAX
    requires forall k :: 0 <= k < |Statuses(i)| ==> StatusFits(Statuses(i)[k])
    requires IsI32(i.StartFrame.No) && IsI32(i.AckFrame.No)
    ensures |Statuses(i)| > MAX_NUM_PLAYERS ==> InputFrom(InputBodyBytes(i) + rest) == Err(InvalidOperation)
    ensures |Statuses(i)| <= MAX_NUM_PLAYERS && |Payload(i)| > MAX_INPUT_PAYLOAD ==>
      InputFrom(InputBodyBytes(i) + rest) == Err(InvalidOperation)
  {
    var ss := Statuses(i);
    var bs := InputBodyBytes(i) + rest;
    if |ss| > MAX_NUM_PLAYERS {
      assert |bs| >= 4 && ReadI32(bs) == |ss| by {
        InputBytesSplit(i, rest);
        ReadWriteI32(|ss|, StatusesBytes(ss) + (TailBytes(i) + rest));
      }
    } else {
      InputFromAt(i, rest);
      var ptr := 4 + 5 * |ss|;
      assert bs[ptr..] == TailBytes(i) + rest by {
        InputBytesSplit(i, rest);
      }
      TailCapRejected(i, bs, ptr, rest);
    }
  }

  lemma TailCapRejected(i: InputBody, bs: seq<byte>, ptr: nat, rest: seq<byte>)
    requires |Payload(i)| <= INT_MAX && IsI32(i.StartFrame.No) && IsI32(i.AckFrame.No)
    requires ptr <= |bs| && bs[ptr..] == TailBytes(i) + rest
    ensures |Payload(i)| > MAX_INPUT_PAYLOAD ==> InputTailFrom(bs, ptr, Statuses(i)) == Err(InvalidOperation)
  {
    var t := bs[ptr..];
    assert bs[ptr + 1..] == t[1..] == Frames.Serialize(i.StartFrame) + (t[5..]);
    Frames.SerializeRoundTrip(i.StartFrame, t[5..]);
    assert bs[ptr + 5..] == t[5..] == Frames.Serialize(i.AckFrame) + (t[9..]);
    Frames.SerializeRoundTrip(i.AckFrame, t[9..]);
    assert bs[ptr + 9..] == t[9..] == WriteI32(|Payload(i)|) + (Payload(i) + rest);
    ReadWriteI32(|Payload(i)|, Payload(i) + rest);
  }

  /** Within the C# types, `MessageBody.Deserialize` undoes `Serialize`. */
  lemma BodyRoundTrip(b: MessageBody, rest: seq<byte>)
    requires BodyFits(b)
    ensures BodyFrom(BodyBytes(b) + rest) == Ok((NormalBody(b), |BodyBytes(b)|))
  {
    PayloadRoundTrip(b, rest);
    BodyOfPayload(b.Kind(), PayloadBytes(b), rest, NormalBody(b), |PayloadBytes(b)|);
  }

  /** Each payload reads back under its own kind. */
  lemma PayloadRoundTrip(b: MessageBody, rest: seq<byte>)
    requires BodyFits(b)
    ensures IsI32(b.Kind())
    ensures PayloadFrom(b.Kind(), PayloadBytes(b) + rest) == Ok((NormalBody(b), |PayloadBytes(b)|))
  {
    match b
    case BodySyncRequest(x) => ReadWriteU32(x.RandomRequest, rest);
    case BodySyncReply(x) => ReadWriteU32(x.RandomReply, rest);
    case BodyInput(x) => InputRoundTrip(x, rest);
    case BodyInputAck(x) => Frames.SerializeRoundTrip(x.AckFrame, rest);
    case BodyQualityReport(x) => QualityReportRoundTrip(x, rest);
    case BodyQualityReply(x) => ReadWriteU64(x.Pong, rest);
    case BodyChecksumReport(x) => ChecksumReportRoundTrip(x, rest);
    case BodyKeepAlive =>
    case BodyUnknown(k) =>
  }

  /** The kind reads back, so a body reads back when its payload does. */
  lemma BodyOfPayload(kind: int, payload: seq<byte>, rest: seq<byte>, b: MessageBody, n: nat)
    requires IsI32(kind) && PayloadFrom(kind, payload + rest) == Ok((b, n))
    ensures BodyFrom(WriteI32(kind) + payload + rest) == Ok((b, 4 + n))
  {
    var bs := WriteI32(kind) + payload + rest;
    assert ReadI32(bs) == kind && bs[4..] == payload + rest by {
      assert bs == WriteI32(kind) + (payload + rest);
      ReadWriteI32(kind, payload + rest);
    }
  }

  lemma QualityReportRoundTrip(x: QualityReport, rest: seq<byte>)
    requires IsI16(x.FrameAdvantage) && IsU64(x.Ping)
    ensures PayloadFrom(QUALITY_REPORT, PayloadBytes(BodyQualityReport(x)) + rest) ==
      Ok((BodyQualityReport(x), 10))
  {
    var p := PayloadBytes(BodyQualityReport(x)) + rest;
    assert p == WriteI16(x.FrameAdvantage) + (WriteU64(x.Ping) + rest);
    ReadWriteI16(x.FrameAdvantage, WriteU64(x.Ping) + rest);
    assert p[2..] == WriteU64(x.Ping) + rest;
    ReadWriteU64(x.Ping, rest);
  }

  lemma ChecksumReportRoundTrip(x: ChecksumReport, rest: seq<byte>)
    requires IsU64(x.Checksum) && IsI32(x.Frame.No)
    ensures PayloadFrom(CHECKSUM_REPORT, PayloadBytes(BodyChecksumReport(x)) + rest) ==
      Ok((BodyChecksumReport(x), 12))
  {
    var p := PayloadBytes(BodyChecksumReport(x)) + rest;
    assert p == WriteU64(x.Checksum) + (Frames.Serialize(x.Frame) + rest);
    ReadWriteU64(x.Checksum, Frames.Serialize(x.Frame) + rest);
    assert p[8..] == Frames.Serialize(x.Frame) + rest;
    Frames.SerializeRoundTrip(x.Frame, rest);
  }

  /** The header is the two-byte little-endian magic. */
  lemma HeaderRoundTrip(magic: int, rest: seq<byte>)
    requires IsU16(magic)
    ensures |WriteU16(magic)| == 2 && ReadU16(WriteU16(magic) + rest) == magic
  {
    ReadWriteU16(magic, rest);
  }

  /** Within the caps and the C# types, `Message.Deserialize` undoes
    * `Message.Serialize` and consumes exactly its bytes. */
  lemma MessageRoundTrip(m: Message, rest: seq<byte>)
    requires MessageFits(m)
    ensures MessageFrom(MessageBytes(m) + rest) == Ok((NormalMessage(m), |MessageBytes(m)|))
  {
    var bs := MessageBytes(m) + rest;
    var body := BodyBytes(m.Body) + rest;
    assert ReadU16(bs) == m.Header.Magic && bs[2..] == body by {
      assert bs == WriteU16(m.Header.Magic) + body;
      HeaderRoundTrip(m.Header.Magic, body);
    }
    assert BodyFrom(body) == Ok((NormalBody(m.Body), |BodyBytes(m.Body)|)) by {
      BodyRoundTrip(m.Body, rest);
    }
    MessageFromParts(bs, NormalBody(m.Body), |BodyBytes(m.Body)|);
  }

  lemma MessageFromParts(bs: seq<byte>, b: MessageBody, n: nat)
    requires |bs| >= 2 && BodyFrom(bs[2..]) == Ok((b, n))
    ensures MessageFrom(bs) == Ok((Message(MessageHeader(ReadU16(bs)), b), 2 + n))
  {
  }

  /** A null array is written exactly as an empty one: count zero and no
    * elements. */
  lemma NullWrittenAsEmpty(i: InputBody)
    ensures InputBodyBytes(i) == InputBodyBytes(Normalized(i))
    ensures i.PeerConnectStatus.None? ==> InputBodyBytes(i)[..4] == WriteI32(0)
    ensures i.Bytes.None? ==> TailBytes(i)[9..] == WriteI32(0)
  {
  }

  /** The payload sizes of the fixed-size bodies, and the Input layout's. */
  lemma PayloadSizes(b: MessageBody)
    ensures b.BodySyncRequest? || b.BodySyncReply? || b.BodyInputAck? ==> |PayloadBytes(b)| == 4
    ensures b.BodyQualityReport? ==> |PayloadBytes(b)| == 2 + 8
    ensures b.BodyQualityReply? ==> |PayloadBytes(b)| == 8
    ensures b.BodyChecksumReport? ==> |PayloadBytes(b)| == 8 + 4
    ensures b.BodyKeepAlive? || b.BodyUnknown? ==> |PayloadBytes(b)| == 0
    ensures b.BodyInput? ==>
      |PayloadBytes(b)| == 4 + 5 * |Statuses(b.input)| + 1 + 4 + 4 + 4 + |Payload(b.input)|
    ensures |BodyBytes(b)| == 4 + |PayloadBytes(b)|
  {
  }

  // ----- the span-based implementation -----

  /** `a` with `bs` written over it from `off` on. */
  function Spliced(a: seq<byte>, off: nat, bs: seq<byte>): (r: seq<byte>)
    requires off + |bs| <= |a|
    ensures |r| == |a|
  {
    a[..off] + bs + a[off + |bs|..]
  }

  /** Writing `x` and then `y` right after it is writing `x + y`. */
  lemma SplicedTwice(a: seq<byte>, off: nat, x: seq<byte>, y: seq<byte>)
    requires off + |x| + |y| <= |a|
    ensures Spliced(Spliced(a, off, x), off + |x|, y) == Spliced(a, off, x + y)
  {
    var b := Spliced(a, off, x);
    assert b[..off + |x|] == a[..off] + x;
    assert b[off + |x| + |y|..] == a[off + |x| + |y|..];
  }

  /** A copy into the span `out[off..]`, as `BinaryPrimitives` and
    * `Span.CopyTo` do; only the copied range changes. */
  method Put(out: array<byte>, off: nat, bs: seq<byte>)
    requires off + |bs| <= out.Length
    modifies out
    ensures out[..] == Spliced(old(out[..]), off, bs)
  {
    ghost var a := out[..];
    for k := 0 to |bs|
      invariant forall j :: 0 <= j < out.Length ==> out[j] == if off <= j < off + k then bs[j - off] else a[j]
    {
      out[off + k] := bs[k];
    }
    assert forall j :: 0 <= j < out.Length ==> out[..][j] == Spliced(a, off, bs)[j];
  }

  /** `ConnectionStatus.Serialize`. */
  method SerializeStatus(s: ConnectionStatus, out: array<byte>, off: nat) returns (n: nat)
    requires off + STATUS_SIZE <= out.Length
    modifies out
    ensures n == STATUS_SIZE && out[..] == Spliced(old(out[..]), off, StatusBytes(s))
  {
    Put(out, off, [if s.Disconnected then 1 else 0]);
    Put(out, off + 1, Frames.Serialize(s.LastFrame));
    SplicedTwice(old(out[..]), off, [if s.Disconnected then 1 else 0], Frames.Serialize(s.LastFrame));
    n := STATUS_SIZE;
  }

  /** The statuses loop of `Input.Serialize`, after the count. */
  method SerializeStatuses(ss: seq<ConnectionStatus>, out: array<byte>, off: nat) returns (n: nat)
    requires off + 5 * |ss| <= out.Length
    modifies out
    ensures n == 5 * |ss| && out[..] == Spliced(old(out[..]), off, StatusesBytes(ss))
  {
    ghost var a := out[..];
    var ptr := off;
    for k := 0 to |ss|
      invariant ptr == off + 5 * k
      invariant out[..] == Spliced(a, off, StatusesBytes(ss[..k]))
    {
      assert ss[..k + 1][..k] == ss[..k];
      var m := SerializeStatus(ss[k], out, ptr);
      SplicedTwice(a, off, StatusesBytes(ss[..k]), StatusBytes(ss[k]));
      ptr := ptr + m;
    }
    assert ss[..|ss|] == ss;
    n := ptr - off;
  }

  /** The part of `Input.Serialize` after the statuses; a null payload is
    * written as length zero. */
  method SerializeTail(i: InputBody, out: array<byte>, off: nat) returns (n: nat)
    requires off + |TailBytes(i)| <= out.Length
    modifies out
    ensures n == |TailBytes(i)| && out[..] == Spliced(old(out[..]), off, TailBytes(i))
  {
    ghost var a := out[..];
    var flag: seq<byte> := [if i.DisconnectRequested then 1 else 0];
    Put(out, off, flag);
    Put(out, off + 1, Frames.Serialize(i.StartFrame));
    SplicedTwice(a, off, flag, Frames.Serialize(i.StartFrame));
    ghost var w := flag + Frames.Serialize(i.StartFrame);
    Put(out, off + 5, Frames.Serialize(i.AckFrame));
    SplicedTwice(a, off, w, Frames.Serialize(i.AckFrame));
    w := w + Frames.Serialize(i.AckFrame);
    var payload: seq<byte>;
    if i.Bytes.Some? {
      payload := i.Bytes.value;
    } else {
      payload := [];
    }
    Put(out, off + 9, WriteI32(|payload|));
    SplicedTwice(a, off, w, WriteI32(|payload|));
    w := w + WriteI32(|payload|);
    Put(out, off + 13, payload);
    SplicedTwice(a, off, w, payload);
    n := 13 + |payload|;
  }

  /** `Input.Serialize`: a null status array is written as count zero. */
  method SerializeInput(i: InputBody, out: array<byte>, off: nat) returns (n: nat)
    requires off + |InputBodyBytes(i)| <= out.Length
    modifies out
    ensures n == |InputBodyBytes(i)| && out[..] == Spliced(old(out[..]), off, InputBodyBytes(i))
  {
    ghost var a := out[..];
    InputBytesSplit(i, []);
    var ss: seq<ConnectionStatus>;
    if i.PeerConnectStatus.Some? {
      ss := i.PeerConnectStatus.value;
    } else {
      ss := [];
    }
    Put(out, off, WriteI32(|ss|));
    var m := SerializeStatuses(ss, out, off + 4);
    SplicedTwice(a, off, WriteI32(|ss|), StatusesBytes(ss));
    var t := SerializeTail(i, out, off + 4 + m);
    SplicedTwice(a, off, WriteI32(|ss|) + StatusesBytes(ss), TailBytes(i));
    n := 4 + m + t;
  }

  /** `MessageBody.Serialize`: the kind tag, then that kind's payload. */
  method SerializeBody(b: MessageBody, out: array<byte>, off: nat) returns (n: nat)
    requires off + |BodyBytes(b)| <= out.Length
    modifies out
    ensures n == |BodyBytes(b)| && out[..] == Spliced(old(out[..]), off, BodyBytes(b))
  {
    ghost var a := out[..];
    Put(out, off, WriteI32(b.Kind()));
    var m: nat;
    if b.BodyInput? {
      m := SerializeInput(b.input, out, off + 4);
    } else {
      Put(out, off + 4, PayloadBytes(b));
      m := |PayloadBytes(b)|;
    }
    SplicedTwice(a, off, WriteI32(b.Kind()), PayloadBytes(b));
    n := 4 + m;
  }

  /** `Message.Serialize`: the header, then the body. */
  method SerializeMessage(msg: Message, out: array<byte>, off: nat) returns (n: nat)
    requires off + |MessageBytes(msg)| <= out.Length
    modifies out
    ensures n == |MessageBytes(msg)| && out[..] == Spliced(old(out[..]), off, MessageBytes(msg))
  {
    ghost var a := out[..];
    Put(out, off, WriteU16(msg.Header.Magic));
    var m := SerializeBody(msg.Body, out, off + 2);
    SplicedTwice(a, off, WriteU16(msg.Header.Magic), BodyBytes(msg.Body));
    n := 2 + m;
  }

  /** `Input.Deserialize`, reading the statuses in a loop. */
  method DeserializeInput(bs: seq<byte>) returns (r: Result<(InputBody, nat)>)
    ensures r == InputFrom(bs)
  {
    if |bs| < 4 {
      return Err(ArgumentOutOfRange);
    }
    var numConnStat := ReadI32(bs);
    if numConnStat > MAX_NUM_PLAYERS {
      return Err(InvalidOperation);
    }
    if numConnStat < 0 {
      return Err(Overflow);
    }
    var ptr: nat := 4;
    var statuses: seq<ConnectionStatus> := [];
    var k := 0;
    while k < numConnStat
      invariant 0 <= k <= numConnStat && ptr <= |bs|
      invariant StatusesFrom(bs, ptr, statuses, numConnStat - k) == StatusesFrom(bs, 4, [], numConnStat)
    {
      var s := StatusFrom(bs[ptr..]);
      if s.Err? {
        return Err(s.failure);
      }
      statuses := statuses + [s.value.0];
      ptr := ptr + s.value.1;
      k := k + 1;
    }
    r := DeserializeTail(bs, ptr, statuses);
  }

  /** The part of `Input.Deserialize` after the statuses. */
  method DeserializeTail(bs: seq<byte>, ptr: nat, statuses: seq<ConnectionStatus>) returns (r: Result<(InputBody, nat)>)
    requires ptr <= |bs|
    ensures r == InputTailFrom(bs, ptr, statuses)
  {
    if ptr >= |bs| {
      return Err(IndexOutOfRange);
    }
    var disconnect := bs[ptr] != 0;
    var p := ptr + 1;
    var start := Frames.Deserialize(bs[p..]);
    if start.Err? {
      return Err(start.failure);
    }
    p := p + start.value.1;
    var ack := Frames.Deserialize(bs[p..]);
    if ack.Err? {
      return Err(ack.failure);
    }
    p := p + ack.value.1;
    if |bs| < p + 4 {
      return Err(ArgumentOutOfRange);
    }
    var numBytes := ReadI32(bs[p..]);
    p := p + 4;
    if numBytes > MAX_INPUT_PAYLOAD {
      return Err(InvalidOperation);
    }
    if numBytes < 0 {
      return Err(Overflow);
    }
    if |bs| < p + numBytes {
      return Err(ArgumentOutOfRange);
    }
    var payload := bs[p .. p + numBytes];
    r := Ok((InputBody(Some(statuses), disconnect, start.value.0, ack.value.0, Some(payload)), p + numBytes));
  }

  /** `MessageBody.Deserialize`: the kind tag, then that kind's payload. */
  method DeserializeBody(bs: seq<byte>) returns (r: Result<(MessageBody, nat)>)
    ensures r == BodyFrom(bs)
  {
    if |bs| < 4 {
      return Err(ArgumentOutOfRange);
    }
    var kind := ReadI32(bs);
    var payload: Result<(MessageBody, nat)>;
    if kind == INPUT {
      var x := DeserializeInput(bs[4..]);
      if x.Err? {
        return Err(x.failure);
      }
      payload := Ok((BodyInput(x.value.0), x.value.1));
    } else {
      payload := PayloadFrom(kind, bs[4..]);
      if payload.Err? {
        return Err(payload.failure);
      }
    }
    r := Ok((payload.value.0, 4 + payload.value.1));
  }

  /** `Message.Deserialize`: the header, then the body. */
  method DeserializeMessage(bs: seq<byte>) returns (r: Result<(Message, nat)>)
    ensures r == MessageFrom(bs)
  {
    if |bs| < 2 {
      return Err(ArgumentOutOfRange);
    }
    var magic := ReadU16(bs);
    var body := DeserializeBody(bs[2..]);
    if body.Err? {
      return Err(body.failure);
    }
    r := Ok((Message(MessageHeader(magic), body.value.0), 2 + body.value.1));
  }

  /** `Input.SerdeSize`: unlike `Serialize`, it reads the lengths of both
    * arrays without a null check, so a null array throws. */
  method InputSerdeSize(i: InputBody) returns (r: Result<nat>)
    ensures i.PeerConnectStatus.None? || i.Bytes.None? ==> r == Err(NullReference)
    ensures i.PeerConnectStatus.Some? && i.Bytes.Some? ==> r == Ok(|InputBodyBytes(i)|)
  {
    var cnt := 4;
    if i.PeerConnectStatus.None? {
      return Err(NullReference);
    }
    var ss := i.PeerConnectStatus.value;
    for k := 0 to |ss|
      invariant cnt == 4 + 5 * k
    {
      cnt := cnt + 1 + FRAME_SIZE;
    }
    cnt := cnt + 1;
    cnt := cnt + FRAME_SIZE;
    cnt := cnt + FRAME_SIZE;
    cnt := cnt + 4;
    if i.Bytes.None? {
      return Err(NullReference);
    }
    cnt := cnt + |i.Bytes.value|;
    InputBytesSplit(i, []);
    r := Ok(cnt);
  }

  /** The payload sizes the fixed-size bodies report. */
  function FixedPayloadSize(b: MessageBody): (n: nat)
    requires !b.BodyInput?
    ensures n == |PayloadBytes(b)|
  {
    match b
    case BodySyncRequest(_) => 4
    case BodySyncReply(_) => 4
    case BodyInputAck(_) => FRAME_SIZE
    case BodyQualityReport(_) => 2 + 8
    case BodyQualityReply(_) => 8
    case BodyChecksumReport(_) => 8 + FRAME_SIZE
    case BodyKeepAlive => 0
    case BodyUnknown(_) => 0
  }

  /** `MessageBody.SerdeSize`. */
  method BodySerdeSize(b: MessageBody) returns (r: Result<nat>)
    ensures r == (if b.BodyInput? && (b.input.PeerConnectStatus.None? || b.input.Bytes.None?)
                  then Err(NullReference) else Ok(|BodyBytes(b)|))
  {
    if b.BodyInput? {
      var x := InputSerdeSize(b.input);
      if x.Err? {
        return Err(x.failure);
      }
      r := Ok(4 + x.value);
    } else {
      r := Ok(4 + FixedPayloadSize(b));
    }
  }

  /** `Message.SerdeSize`: the header's two bytes and the body's size. */
  method MessageSerdeSize(msg: Message) returns (r: Result<nat>)
    ensures r == (if msg.Body.BodyInput? && (msg.Body.input.PeerConnectStatus.None? || msg.Body.input.Bytes.None?)
                  then Err(NullReference) else Ok(|MessageBytes(msg)|))
  {
    var body := BodySerdeSize(msg.Body);
    if body.Err? {
      return Err(body.failure);
    }
    r := Ok(2 + body.value);
  }
}
