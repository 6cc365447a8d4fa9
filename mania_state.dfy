/** `Game.Sim.ManiaState`: the rhythm lanes.  Each channel is a FIFO of
  * notes; every tick judges the front note of each channel against the
  * channel's key. */
module ManiaStates {
  import opened Frames
  import opened Outcomes
  import opened Bits
  import opened Bytes
  import opened GameInputs

  datatype ManiaNote = ManiaNote(Tick: Frame, Length: int)

  datatype ManiaEventKind = Hit | Missed | End

  /** `ManiaEvent`: `Offset` matters for hits and `Early` for misses; the
    * other fields keep their defaults. */
  datatype ManiaEvent = ManiaEvent(Kind: ManiaEventKind, Note: ManiaNote, Offset: int, Early: bool)

  const DEFAULT_NOTE: ManiaNote := ManiaNote(Frame(0), 0)

  function EndEvent(): ManiaEvent
  {
    ManiaEvent(End, DEFAULT_NOTE, 0, false)
  }

  function HitEvent(note: ManiaNote, offset: int): ManiaEvent
  {
    ManiaEvent(Hit, note, offset, false)
  }

  function MissEvent(note: ManiaNote, early: bool): ManiaEvent
  {
    ManiaEvent(Missed, note, 0, early)
  }

  datatype ManiaConfig = ManiaConfig(NumKeys: int, HitHalfRange: int, MissHalfRange: int)

  /** `MissTotalRange`. */
  function MissTotalRange(c: ManiaConfig): int
  {
    c.HitHalfRange + c.MissHalfRange
  }

  /** The key of each channel, `_channelInput`. */
  const CHANNEL_INPUT: seq<int> := [MANIA1, MANIA2, MANIA3, MANIA4, MANIA5, MANIA6]

  /** `Enum.HasFlag`: every bit of `flag` is set in the input. */
  predicate HasFlag(g: GameInput, flag: int)
  {
    And(Unsigned(g.Flags, 4), Unsigned(flag, 4)) == Unsigned(flag, 4)
  }

  /** `Mathsf.Abs` (not part of this model) is taken to be the absolute value. */
  function Abs(x: int): nat
  {
    if x < 0 then -x else x
  }

  /** The judgement of one channel's front note: `None` keeps the note, an
    * event pops it. */
  function Judge(c: ManiaConfig, note: ManiaNote, frame: Frame, hasInput: bool): Option<ManiaEvent>
  {
    var t := note.Tick;
    if hasInput && Less(frame, Minus(t, MissTotalRange(c))) then None
    else if hasInput && Less(frame, Minus(t, c.HitHalfRange)) then Some(MissEvent(note, true))
    else if hasInput && LessEq(frame, Plus(t, c.HitHalfRange)) then Some(HitEvent(note, Abs(Diff(frame, t))))
    else if hasInput && LessEq(frame, Plus(t, MissTotalRange(c))) then Some(MissEvent(note, false))
    else if Greater(frame, Plus(t, MissTotalRange(c))) then Some(MissEvent(note, false))
    else None
  }

  /** One iteration of `Tick`'s loop, on channel `i` holding `notes`. */
  function Step(c: ManiaConfig, notes: seq<ManiaNote>, i: nat, frame: Frame, input: GameInput): (r: (seq<ManiaNote>, seq<ManiaEvent>))
    requires i < |CHANNEL_INPUT|
  {
    if |notes| == 0 then (notes, [])
    else
      match Judge(c, notes[0], frame, HasFlag(input, CHANNEL_INPUT[i]))
      case None => (notes, [])
      case Some(e) => (notes[1..], [e])
  }

  /** The events of channels `0 .. k-1`, in channel order. */
  function NoteEvents(c: ManiaConfig, chans: seq<seq<ManiaNote>>, frame: Frame, input: GameInput, k: nat): seq<ManiaEvent>
    requires k <= |chans| <= |CHANNEL_INPUT|
  {
    if k == 0 then [] else NoteEvents(c, chans, frame, input, k - 1) + Step(c, chans[k - 1], k - 1, frame, input).1
  }

  /** The channels after every channel took its step. */
  function TickedChannels(c: ManiaConfig, chans: seq<seq<ManiaNote>>, frame: Frame, input: GameInput): (r: seq<seq<ManiaNote>>)
    requires |chans| <= |CHANNEL_INPUT|
    ensures |r| == |chans|
  {
    seq(|chans|, i requires 0 <= i < |chans| => Step(c, chans[i], i, frame, input).0)
  }

  /** The `End` event, if this is the end frame. */
  function EndEvents(frame: Frame, endFrame: Frame): seq<ManiaEvent>
  {
    if frame == endFrame then [EndEvent()] else []
  }

  predicate WellFormed(c: ManiaConfig)
  {
    0 <= c.HitHalfRange && 0 <= c.MissHalfRange
  }

  // ----- the judgement rule -----

  /** The five windows of the judgement, for a configuration with no
    * negative range. */
  lemma {:induction false} JudgeWindows(c: ManiaConfig, note: ManiaNote, frame: Frame, hasInput: bool)
    requires WellFormed(c)
    ensures hasInput && frame.No < note.Tick.No - MissTotalRange(c) ==>
      Judge(c, note, frame, hasInput) == None
    ensures hasInput && note.Tick.No - MissTotalRange(c) <= frame.No < note.Tick.No - c.HitHalfRange ==>
      Judge(c, note, frame, hasInput) == Some(MissEvent(note, true))
    ensures hasInput && Abs(frame.No - note.Tick.No) <= c.HitHalfRange ==>
      Judge(c, note, frame, hasInput) == Some(HitEvent(note, Abs(frame.No - note.Tick.No)))
    ensures hasInput && note.Tick.No + c.HitHalfRange < frame.No <= note.Tick.No + MissTotalRange(c) ==>
      Judge(c, note, frame, hasInput) == Some(MissEvent(note, false))
    ensures frame.No > note.Tick.No + MissTotalRange(c) ==>
      Judge(c, note, frame, hasInput) == Some(MissEvent(note, false))
    ensures !hasInput && frame.No <= note.Tick.No + MissTotalRange(c) ==>
      Judge(c, note, frame, hasInput) == None
  {
  }

  /** Every event of the judgement is about the judged note, and only a
    * press can hit or miss early. */
  lemma {:induction false} JudgeEvents(c: ManiaConfig, note: ManiaNote, frame: Frame, hasInput: bool)
    ensures Judge(c, note, frame, hasInput).Some? ==>
      var e := Judge(c, note, frame, hasInput).value;
      e.Note == note && e.Kind != End &&
      (e.Kind == Hit ==> hasInput && e.Offset == Abs(frame.No - note.Tick.No) <= c.HitHalfRange) &&
      (e.Early ==> hasInput && e.Kind == Missed && frame.No < note.Tick.No - c.HitHalfRange)
    ensures Judge(c, note, frame, hasInput).None? ==>
      (hasInput && frame.No < note.Tick.No - MissTotalRange(c)) || frame.No <= note.Tick.No + MissTotalRange(c)
  {
  }

  /** The channel keys are the single bits 10 .. 15, so `HasFlag` on a
    * channel key asks for one bit, the same as `HasInput`. */
  lemma {:induction false} ChannelKeyIsOneBit(g: GameInput, i: nat)
    requires i < |CHANNEL_INPUT|
    ensures CHANNEL_INPUT[i] == Pow2(i + 10)
    ensures HasFlag(g, CHANNEL_INPUT[i]) <==> Bit(Unsigned(g.Flags, 4), i + 10) == 1
    ensures HasFlag(g, CHANNEL_INPUT[i]) <==> HasInput(g, CHANNEL_INPUT[i])
  {
    assert Pow2(10) == 0x400 && Pow2(11) == 0x800 && Pow2(12) == 0x1000;
    assert Pow2(13) == 0x2000 && Pow2(14) == 0x4000 && Pow2(15) == 0x8000;
    var f := CHANNEL_INPUT[i];
    assert Unsigned(f, 4) == f;
    AndPow2(Unsigned(g.Flags, 4), i + 10);
  }

  // ----- a tick -----

  /** A channel step pops at most the front note, and reports it. */
  lemma {:induction false} StepTouchesFront(c: ManiaConfig, notes: seq<ManiaNote>, i: nat, frame: Frame, input: GameInput)
    requires i < |CHANNEL_INPUT|
    ensures var (after, es) := Step(c, notes, i, frame, input);
      (after == notes && es == []) ||
      (|notes| > 0 && after == notes[1..] && |es| == 1 && es[0].Note == notes[0] && es[0].Kind != End)
  {
    if |notes| > 0 {
      JudgeEvents(c, notes[0], frame, HasFlag(input, CHANNEL_INPUT[i]));
    }
  }

  /** Channels `0 .. k-1` produce at most one event each, none an `End`. */
  lemma {:induction false} NoteEventsBounded(c: ManiaConfig, chans: seq<seq<ManiaNote>>, frame: Frame, input: GameInput, k: nat)
    requires k <= |chans| <= |CHANNEL_INPUT|
    ensures |NoteEvents(c, chans, frame, input, k)| <= k
    ensures forall e :: e in NoteEvents(c, chans, frame, input, k) ==> e.Kind != End
    decreases k
  {
    if k > 0 {
      NoteEventsBounded(c, chans, frame, input, k - 1);
      StepTouchesFront(c, chans[k - 1], k - 1, frame, input);
    }
  }

  /** A tick with no key pressed and no note overdue changes no channel
    * and reports nothing. */
  lemma {:induction false} QuietTick(c: ManiaConfig, chans: seq<seq<ManiaNote>>, frame: Frame, input: GameInput, k: nat)
    requires k <= |chans| <= |CHANNEL_INPUT|
    requires forall i :: 0 <= i < |chans| ==> !HasFlag(input, CHANNEL_INPUT[i])
    requires forall i :: 0 <= i < |chans| && |chans[i]| > 0 ==> frame.No <= chans[i][0].Tick.No + MissTotalRange(c)
    ensures NoteEvents(c, chans, frame, input, k) == []
    ensures k == |chans| ==> TickedChannels(c, chans, frame, input) == chans
    decreases k
  {
    if k > 0 {
      QuietTick(c, chans, frame, input, k - 1);
    }
    if k == |chans| {
      var t := TickedChannels(c, chans, frame, input);
      forall i | 0 <= i < |chans| ensures t[i] == chans[i] {
      }
    }
  }

  /** `ManiaState.Create`: a negative `NumKeys` makes the allocation of the
    * channel array throw Overflow; any other gives `NumKeys` empty channels,
    * the configuration and no end frame. */
  method Create(config: ManiaConfig) returns (r: Result<ManiaState>)
    ensures r.Err? <==> config.NumKeys < 0
    ensures r.Err? ==> r.failure == Overflow
    ensures r.Ok? ==> fresh(r.value) && r.value.config == config && r.value.endFrame == NULL_FRAME
    ensures r.Ok? ==> |r.value.channels| == config.NumKeys
    ensures r.Ok? ==> forall i :: 0 <= i < |r.value.channels| ==> r.value.channels[i] == []
  {
    if config.NumKeys < 0 {
      return Err(Overflow);
    }
    var m := new ManiaState(config);
    return Ok(m);
  }

  class ManiaState {
    const config: ManiaConfig
    /** The notes of each channel's deque, front first. */
    var channels: seq<seq<ManiaNote>>
    var endFrame: Frame

    /** The body of `ManiaState.Create` once the channel array is
      * allocated (see `Create`): `NumKeys` empty channels and no end frame. */
    constructor (config: ManiaConfig)
      requires config.NumKeys >= 0
      ensures this.config == config && endFrame == NULL_FRAME
      ensures |channels| == config.NumKeys && forall i :: 0 <= i < |channels| ==> channels[i] == []
    {
      this.config := config;
      var cs: seq<seq<ManiaNote>> := [];
      for i := 0 to config.NumKeys
        invariant |cs| == i && forall j :: 0 <= j < i ==> cs[j] == []
      {
        cs := cs + [[]];
      }
      channels := cs;
      endFrame := NULL_FRAME;
    }

    method Enable(endFrame: Frame)
      modifies this
      ensures this.endFrame == endFrame && channels == old(channels)
    {
      this.endFrame := endFrame;
    }

    /** `QueueNote`: appends to the back of one channel; an index outside
      * the channel array throws. */
    method QueueNote(channel: int, note: ManiaNote) returns (o: Outcome)
      modifies this
      ensures endFrame == old(endFrame)
      ensures !(0 <= channel < old(|channels|)) ==> o == Fail(IndexOutOfRange) && channels == old(channels)
      ensures 0 <= channel < old(|channels|) ==>
        o == Pass && channels == old(channels)[channel := old(channels[channel]) + [note]]
    {
      if !(0 <= channel < |channels|) {
        return Fail(IndexOutOfRange);
      }
      channels := channels[channel := channels[channel] + [note]];
      o := Pass;
    }

    /** One round of `Tick`'s loop: judges the front note of channel `i`. */
    method TickChannel(i: nat, frame: Frame, input: GameInput) returns (es: seq<ManiaEvent>)
      requires i < |channels| <= |CHANNEL_INPUT|
      modifies this
      ensures channels == old(channels)[i := Step(config, old(channels[i]), i, frame, input).0]
      ensures es == Step(config, old(channels[i]), i, frame, input).1
      ensures endFrame == old(endFrame)
    {
      es := [];
      if |channels[i]| == 0 {
        return;
      }
      var note := channels[i][0];
      var hasInput := HasFlag(input, CHANNEL_INPUT[i]);
      var j := Judge(config, note, frame, hasInput);
      if j.Some? {
        es := [j.value];
        channels := channels[i := channels[i][1..]];
      }
    }

    /** `Tick`: the events are appended to `outEvents`. */
    method Tick(frame: Frame, input: GameInput, outEvents: seq<ManiaEvent>) returns (events: seq<ManiaEvent>)
      requires |channels| <= |CHANNEL_INPUT|
      modifies this
      ensures channels == TickedChannels(config, old(channels), frame, input)
      ensures events == outEvents + NoteEvents(config, old(channels), frame, input, |old(channels)|) +
                        EndEvents(frame, old(endFrame))
      ensures endFrame == if frame == old(endFrame) then NULL_FRAME else old(endFrame)
    {
      ghost var chans := channels;
      events := outEvents;
      for i := 0 to |channels|
        invariant |channels| == |chans| && endFrame == old(endFrame)
        invariant forall j :: 0 <= j < i ==> channels[j] == Step(config, chans[j], j, frame, input).0
        invariant forall j :: i <= j < |chans| ==> channels[j] == chans[j]
        invariant events == outEvents + NoteEvents(config, chans, frame, input, i)
      {
        var es := TickChannel(i, frame, input);
        events := events + es;
      }
      assert channels == TickedChannels(config, chans, frame, input);
      if frame == endFrame {
        events := events + [EndEvent()];
        endFrame := NULL_FRAME;
      }
    }
  }
}
