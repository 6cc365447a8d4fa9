# Hypermania rollback core in Dafny

This project models the deterministic core of Hypermania, a rhythm
fighting game written in C# for Unity, and proves properties of it. Its
centre is the rollback netcode engine. The model covers:

- the frame type and its wire form;
- the ring-buffer deque;
- the per-player input queue with frame delay, prediction and detection of
  the first wrong prediction;
- the XOR/run-length input compression;
- the time-sync window;
- the binary message format;
- the per-peer UDP protocol state machine;
- the sync layer with its save-state ring;
- the session builder, the peer-to-peer session and the sync-test session.

Around the engine it also models:

- the game input bit flags;
- the 64-entry input history and its press/release search;
- the rhythm lanes of `ManiaState`;
- the object pool;
- hitbox data and the character frame lookup;
- the move-builder editor model;
- the view-event manager;
- the lobby start message of the matchmaking client.

There is one module per source file.

- Code that computes values is modelled with datatypes and functions.
- Code that updates state in place is modelled with classes whose methods
  are proved to compute step functions on a value of the class's fields.
  That value is written `Snapshot()` or `State()`.
- Lemmas state what those step functions promise. They cover round trips of
  every codec, the invariants each structure keeps, and how requests,
  events and frames relate across a whole `AdvanceFrame`.

A C# exception, and a failed Unity `Assert`, are modelled as a failure
value. The value names the kind of exception (module `Outcomes`), and the
state is left as the C# leaves it at the throw. For `Assert` the model
follows builds that define `UNITY_ASSERTIONS` and raise an exception on a
failed check; in release player builds the checks are compiled out (see
"Left out"). `TInput` and the game state
are type parameters. Inputs are serialized by a codec of fixed size given
as a parameter. Clocks and random draws are parameters too. An endpoint
returns what it sends to the socket as a sequence. The sessions see their
endpoints only through views, so of a session's sends the model keeps the
assertions the views decide and not the messages (see "Left out").

## Model

| member | source | states |
|---|---|---|
| Frames.CompareTo | Hypermania/Assets/Scripts/Utils/Frame.cs:15 | the comparison of two frames is one of -1, 0 and 1 |
| Frames.Constants | Hypermania/Assets/Scripts/Utils/Frame.cs:11-13 | NullFrame is -1, FirstFrame 0, Infinity the largest 32-bit int, strictly ordered |
| Frames.ArithmeticShifts | Hypermania/Assets/Scripts/Utils/Frame.cs:23-27 | adding or subtracting ticks shifts the number; subtracting frames undoes adding |
| Frames.OrderIsIntegerOrder | Hypermania/Assets/Scripts/Utils/Frame.cs:15-39 | every comparison operator agrees with the order of the frame numbers; CompareTo is antisymmetric and zero only on equal frames |
| Frames.MinMaxBounds | Hypermania/Assets/Scripts/Utils/Frame.cs:41-43 | Max and Min return one of their arguments and bound both |
| Frames.Serialize | Hypermania/Assets/Scripts/Utils/Frame.cs:55-59 | a frame is written in four bytes |
| Frames.Deserialize | Hypermania/Assets/Scripts/Utils/Frame.cs:49-53 | a frame is read exactly when four bytes are present, consuming four, and its number is a 32-bit int |
| Frames.SerializeRoundTrip | Hypermania/Assets/Scripts/Utils/Frame.cs:49-59 | reading back a written frame restores it, whatever follows |
| Bytes.ReadWriteU16 | Hypermania/Assets/Scripts/Netcode/Rollback/Network/Messages.cs:55-60 | a little-endian unsigned 16-bit value reads back as written |
| Bytes.WriteReadU16 | Hypermania/Assets/Scripts/Netcode/Rollback/Network/Messages.cs:55-60 | two bytes read as an unsigned 16-bit value write back to the same bytes |
| Bytes.ReadWriteU32 | Hypermania/Assets/Scripts/Netcode/Rollback/Network/Messages.cs:74-79 | a little-endian unsigned 32-bit value reads back as written |
| Bytes.WriteReadU32 | Hypermania/Assets/Scripts/Netcode/Rollback/Network/Messages.cs:74-79 | four bytes read as an unsigned 32-bit value write back to the same bytes |
| Bytes.ReadWriteU64 | Hypermania/Assets/Scripts/Netcode/Rollback/Network/Messages.cs:264-269 | a little-endian unsigned 64-bit value reads back as written |
| Bytes.ReadWriteI16 | Hypermania/Assets/Scripts/Netcode/Rollback/Network/Messages.cs:240-249 | a two's-complement 16-bit value reads back as written |
| Bytes.ReadWriteI32 | Hypermania/Assets/Scripts/Netcode/Rollback/Network/Messages.cs:122-153 | a two's-complement 32-bit value reads back as written |
| Bytes.WriteReadI32 | Hypermania/Assets/Scripts/Netcode/Rollback/Network/Messages.cs:368-402 | four bytes read as a signed 32-bit value write back to the same bytes |
| GameInputs.Serialize | Hypermania/Assets/Scripts/Game/Sim/Input.cs:23-27 | an input is written in four bytes |
| GameInputs.Deserialize | Hypermania/Assets/Scripts/Game/Sim/Input.cs:17-21 | an input is read exactly when four bytes are present, consuming four |
| GameInputs.FlagBits | Hypermania/Assets/Scripts/Game/Sim/Input.cs:57-75 | None is 0 and the fifteen named flags are the single bits 1 to 15 in declaration order |
| GameInputs.EqualsIsIdentity | Hypermania/Assets/Scripts/Game/Sim/Input.cs:12-15 | Equals holds exactly for equal inputs |
| GameInputs.SerializeRoundTrip | Hypermania/Assets/Scripts/Game/Sim/Input.cs:17-27 | reading back a written input gives the same input and the size four |
| GameInputs.HasInputMeaning | Hypermania/Assets/Scripts/Game/Sim/Input.cs:44-47 | HasInput holds exactly when the input and the flags share a set bit |
| HitboxDatas.HitboxData.constructor | Hypermania/Assets/Scripts/Design/Animation/HitboxData.cs:85 | a new asset has no frames |
| HitboxDatas.HitboxData.EnsureSize | Hypermania/Assets/Scripts/Design/Animation/HitboxData.cs:87-97 | fewer than one tick is refused with InvalidOperation and nothing changes; otherwise the frames are cut or padded with empty frames to exactly that many, keeping the existing ones |
| HitboxDatas.Resized | Hypermania/Assets/Scripts/Design/Animation/HitboxData.cs:93-96 | the padded or cut list has the requested length, keeps the frames below it and adds empty frames above the old length |
| HitboxDatas.ResizedStable | Hypermania/Assets/Scripts/Design/Animation/HitboxData.cs:87-97 | resizing to the current size changes nothing and resizing twice equals resizing once |
| HitboxDatas.HitboxData.GetFrame | Hypermania/Assets/Scripts/Design/Animation/HitboxData.cs:99-106 | a frame is returned exactly for ticks in [0, TotalTicks), and it is the stored one |
| HitboxDatas.NearFacts | Hypermania/Assets/Scripts/Design/Animation/HitboxData.cs:32 | the vector `==` (squared distance below 1e-10) is reflexive and symmetric, and never holds between vectors a unit or more apart in either coordinate |
| HitboxDatas.PropsEqualMeaning | Hypermania/Assets/Scripts/Design/Animation/HitboxData.cs:27-33 | BoxProps.Equals holds for equal props, and exactly when the props agree on every field but the knockback and the two knockbacks are within the vector tolerance |
| HitboxDatas.PropsEqualNotIdentity | Hypermania/Assets/Scripts/Design/Animation/HitboxData.cs:32 | props whose knockbacks are a millionth apart are Equals yet different |
| HitboxDatas.EqualPropsHashEqual | Hypermania/Assets/Scripts/Design/Animation/HitboxData.cs:37 | equal props have equal hash codes |
| HitboxDatas.BoxEqualMeaning | Hypermania/Assets/Scripts/Design/Animation/HitboxData.cs:53-59 | BoxData.Equals is reflexive and symmetric, and holds exactly when the names and the other props agree and centre, size and knockback are each within the vector tolerance |
| HitboxDatas.BoxEqualNotIdentity | Hypermania/Assets/Scripts/Design/Animation/HitboxData.cs:56 | boxes whose centres are a millionth apart are Equals yet different |
| CharacterConfigs.WrapTickIsMod | Hypermania/Assets/Scripts/Design/CharacterConfig.cs:43 | the looped tick is the Euclidean remainder, inside [0, n) |
| CharacterConfigs.WrapTickFacts | Hypermania/Assets/Scripts/Design/CharacterConfig.cs:43 | ticks inside the animation are kept, ticks n apart give the same frame and tick -1 is the last frame |
| CharacterConfigs.CharacterConfig.constructor | Hypermania/Assets/Scripts/Design/CharacterConfig.cs:17-30 | the seven registered animations hold the given data |
| CharacterConfigs.CharacterConfig.GetHitboxData | Hypermania/Assets/Scripts/Design/CharacterConfig.cs:52-75 | exactly the seven registered animations have data, each its own field; any other fails with InvalidOperation |
| CharacterConfigs.CharacterConfig.GetFrameData | Hypermania/Assets/Scripts/Design/CharacterConfig.cs:38-45 | an unregistered animation fails, an animation without frames divides by zero, otherwise the frame at the tick taken modulo the frame count |
| Deques.Deque.Count | Hypermania/Assets/Scripts/Utils/Deque.cs:21 | the count is the number of elements |
| Deques.Deque.Capacity | Hypermania/Assets/Scripts/Utils/Deque.cs:22 | the capacity is a power of two, at least 2, and holds every element |
| Deques.NextPowerOfTwo | Hypermania/Assets/Scripts/Utils/Deque.cs:25 | the requested capacity is rounded up to the least power of two at or above it |
| Deques.Deque.constructor | Hypermania/Assets/Scripts/Utils/Deque.cs:24-29 | a new deque is empty with capacity the larger of 2 and the next power of two of the request |
| Deques.Deque.Get | Hypermania/Assets/Scripts/Utils/Deque.cs:35-43 | the indexer returns the element that many places from the front, and fails with ArgumentOutOfRange outside [0, Count) |
| Deques.Deque.PushFront | Hypermania/Assets/Scripts/Utils/Deque.cs:45-51 | the value is prepended; the capacity doubles exactly when the buffer was full |
| Deques.Deque.PushBack | Hypermania/Assets/Scripts/Utils/Deque.cs:53-58 | the value is appended; the capacity doubles exactly when the buffer was full |
| Deques.Deque.Front | Hypermania/Assets/Scripts/Utils/Deque.cs:60-65 | the first element, or InvalidOperation when empty |
| Deques.Deque.Back | Hypermania/Assets/Scripts/Utils/Deque.cs:67-73 | the last element, or InvalidOperation when empty |
| Deques.Deque.PopFront | Hypermania/Assets/Scripts/Utils/Deque.cs:75-84 | removes and returns the first element, or fails with InvalidOperation and changes nothing when empty |
| Deques.Deque.PopBack | Hypermania/Assets/Scripts/Utils/Deque.cs:86-95 | removes and returns the last element, or fails with InvalidOperation and changes nothing when empty |
| Deques.Deque.Clear | Hypermania/Assets/Scripts/Utils/Deque.cs:97-110 | the deque becomes empty and keeps its capacity |
| Deques.Deque.Iter | Hypermania/Assets/Scripts/Utils/Deque.cs:112-116 | the elements are produced front to back |
| Deques.Deque.EnsureCapacity | Hypermania/Assets/Scripts/Utils/Deque.cs:118-131 | the elements are kept; the buffer doubles exactly when the size exceeds it |
| Deques.Deque.Unrolled | Hypermania/Assets/Scripts/Utils/Deque.cs:123-127 | the new buffer holds the elements in order from slot 0 |
| Deques.RingPushBack | Hypermania/Assets/Scripts/Utils/Deque.cs:53-58 | writing at the slot after the last element appends it to the ring |
| Deques.RingPushFront | Hypermania/Assets/Scripts/Utils/Deque.cs:45-51 | writing at the slot before the head and moving the head there prepends to the ring |
| Deques.RingPopFront | Hypermania/Assets/Scripts/Utils/Deque.cs:75-84 | moving the head one slot on drops the first element |
| Deques.RingPopBack | Hypermania/Assets/Scripts/Utils/Deque.cs:86-95 | the last element sits at head plus count minus one, and dropping it leaves a ring |
| Pools.Pool.Capacity | Hypermania/Assets/Scripts/Game/Sim/Pool.cs:12 | the capacity is the number of slots |
| Pools.NewPool | Hypermania/Assets/Scripts/Game/Sim/Pool.cs:14-20 | a size that is not positive fails with ArgumentOutOfRange; any other gives a new pool satisfying the pool invariant with every slot free and invalid, free in index order |
| Pools.Pool.constructor | Hypermania/Assets/Scripts/Game/Sim/Pool.cs:17-19 | after the size check, the pool has every slot free and invalid, free in index order |
| Pools.FreshIsExact | Hypermania/Assets/Scripts/Game/Sim/Pool.cs:14-20 | a fresh pool satisfies the pool invariant, has no valid slot and lists every slot as free |
| Pools.Pool.Spawn | Hypermania/Assets/Scripts/Game/Sim/Pool.cs:22-34 | Spawn acts as the pure Spawned on the pool state and keeps the invariant |
| Pools.SpawnFromExact | Hypermania/Assets/Scripts/Game/Sim/Pool.cs:22-34 | under the invariant Spawn fails exactly when no slot is free, and otherwise hands out the front of the free list and makes it valid |
| Pools.SpawnKeepsExact | Hypermania/Assets/Scripts/Game/Sim/Pool.cs:22-34 | Spawn keeps the invariant that the free list holds exactly the invalid slots, each once |
| Pools.Pool.Release | Hypermania/Assets/Scripts/Game/Sim/Pool.cs:36-46 | Release acts as the pure Released on the pool state and keeps the invariant |
| Pools.ReleaseKeepsExact | Hypermania/Assets/Scripts/Game/Sim/Pool.cs:36-46 | Release keeps the pool invariant |
| Pools.DoubleFreeDetected | Hypermania/Assets/Scripts/Game/Sim/Pool.cs:36-46 | a second release of the same slot fails with InvalidOperation and changes nothing |
| Pools.Pool.Item | Hypermania/Assets/Scripts/Game/Sim/Pool.cs:48-51 | the indexer returns the slot's item for any index inside the array, valid or not |
| Pools.GetMatchesIsValid | Hypermania/Assets/Scripts/Game/Sim/Pool.cs:53-63 | Get succeeds exactly on the slots IsValid reports, with their item, failing with ArgumentOutOfRange outside the array and InvalidOperation on a free slot |
| Pools.Pool.IsValid | Hypermania/Assets/Scripts/Game/Sim/Pool.cs:62-63 | IsValid holds exactly for in-range valid slots |
| Pools.ValidPlusFree | Hypermania/Assets/Scripts/Game/Sim/Pool.cs:22-46 | under the invariant valid slots and free slots together count every slot once |
| Pools.SpawnsInFreeListOrder | Hypermania/Assets/Scripts/Game/Sim/Pool.cs:22-34 | successive spawns hand out the free list from its front |
| Pools.ReleasedReusedLast | Hypermania/Assets/Scripts/Game/Sim/Pool.cs:36-46 | a released slot is handed out only after every slot that was already free |
| InputHistories.InputHistory.constructor | Hypermania/Assets/Scripts/Game/Sim/InputHistory.cs:27-32 | a new history is empty |
| InputHistories.InputHistory.PushInput | Hypermania/Assets/Scripts/Game/Sim/InputHistory.cs:34-42 | the input is appended to the history, the ring invariant is kept and the count grows up to 64 |
| InputHistories.HoldsAfterPush | Hypermania/Assets/Scripts/Game/Sim/InputHistory.cs:34-42 | writing at the next slot and advancing it modulo 64 keeps the 64-slot ring in step with the history |
| InputHistories.SlotAfterPush | Hypermania/Assets/Scripts/Game/Sim/InputHistory.cs:36-37 | after the advance, the slot k frames ago is the old slot k - 1 frames ago, and slot 0 the one just written |
| InputHistories.InputHistory.GetInput | Hypermania/Assets/Scripts/Game/Sim/InputHistory.cs:44-52 | the input that many frames ago, with None outside the stored count |
| InputHistories.MostRecentIsLast | Hypermania/Assets/Scripts/Game/Sim/InputHistory.cs:44-52 | zero frames ago is the most recent input, or None for an empty history |
| InputHistories.InputHistory.IsHeld | Hypermania/Assets/Scripts/Game/Sim/InputHistory.cs:54-57 | IsHeld holds exactly when the most recent input has the flag |
| InputHistories.InputHistory.HasInputSequence | Hypermania/Assets/Scripts/Game/Sim/InputHistory.cs:85-100 | the scan reports the sequence exactly as the declarative SequenceFound does |
| InputHistories.SequenceFoundMeaning | Hypermania/Assets/Scripts/Game/Sim/InputHistory.cs:85-100 | the sequence is found exactly when withinFrames is inside the stored count and the inputs from withinFrames - 1 down to beforeFrames contain its entries in order |
| InputHistories.GreedySound | Hypermania/Assets/Scripts/Game/Sim/InputHistory.cs:91-99 | a successful greedy scan yields an embedding of the sequence in the window |
| InputHistories.GreedyComplete | Hypermania/Assets/Scripts/Game/Sim/InputHistory.cs:91-99 | whenever an embedding exists the greedy scan finds the whole sequence |
| InputHistories.EmptyWindow | Hypermania/Assets/Scripts/Game/Sim/InputHistory.cs:92 | a window with withinFrames not above beforeFrames finds no non-empty sequence |
| InputHistories.InputHistory.PressedRecently | Hypermania/Assets/Scripts/Game/Sim/InputHistory.cs:60-70 | PressedRecently is the scan for not-pressed then pressed |
| InputHistories.PressedMeaning | Hypermania/Assets/Scripts/Game/Sim/InputHistory.cs:60-70 | PressedRecently holds exactly when some frame in the window without the flag is followed by a more recent one with it |
| InputHistories.InputHistory.ReleasedRecently | Hypermania/Assets/Scripts/Game/Sim/InputHistory.cs:102-112 | ReleasedRecently is the scan for pressed then not-pressed |
| InputHistories.ReleasedMeaning | Hypermania/Assets/Scripts/Game/Sim/InputHistory.cs:102-112 | ReleasedRecently holds exactly when some frame in the window with the flag is followed by a more recent one without it |
| InputHistories.InputHistory.PressedAndReleasedRecently | Hypermania/Assets/Scripts/Game/Sim/InputHistory.cs:72-83 | PressedAndReleasedRecently is the scan for released, pressed, released |
| InputHistories.PressedAndReleasedMeaning | Hypermania/Assets/Scripts/Game/Sim/InputHistory.cs:72-83 | PressedAndReleasedRecently holds exactly when three frames in the window, oldest first, are without, with and without the flag |
| ManiaStates.Create | Hypermania/Assets/Scripts/Game/Sim/ManiaState.cs:111-122 | a negative NumKeys fails with Overflow from the array allocation; any other gives a new state with NumKeys empty channels, the configuration and no end frame |
| ManiaStates.ManiaState.constructor | Hypermania/Assets/Scripts/Game/Sim/ManiaState.cs:113-121 | once the array is allocated, the state has NumKeys empty channels, keeps the configuration and has no end frame |
| ManiaStates.ManiaState.Enable | Hypermania/Assets/Scripts/Game/Sim/ManiaState.cs:124-127 | the end frame is set and the channels are unchanged |
| ManiaStates.ManiaState.QueueNote | Hypermania/Assets/Scripts/Game/Sim/ManiaState.cs:129-132 | the note is appended to its channel only, or an index outside the channels fails with IndexOutOfRange and changes nothing |
| ManiaStates.ManiaState.TickChannel | Hypermania/Assets/Scripts/Game/Sim/ManiaState.cs:138-174 | one loop round replaces channel i by its judged step and returns that step's events |
| ManiaStates.ManiaState.Tick | Hypermania/Assets/Scripts/Game/Sim/ManiaState.cs:134-181 | every channel takes its step, the events are appended after the caller's in channel order followed by the end event, and the end frame is cleared exactly when reached |
| ManiaStates.TickedChannels | Hypermania/Assets/Scripts/Game/Sim/ManiaState.cs:136-175 | the tick keeps the number of channels |
| ManiaStates.JudgeWindows | Hypermania/Assets/Scripts/Game/Sim/ManiaState.cs:146-174 | the five judgement windows: too early is ignored, then early miss, hit with its offset, late miss, and an automatic miss once the note is overdue |
| ManiaStates.JudgeEvents | Hypermania/Assets/Scripts/Game/Sim/ManiaState.cs:146-174 | every judgement event concerns the front note and is no End; a hit needs a press within the hit window, an early miss a press before it |
| ManiaStates.ChannelKeyIsOneBit | Hypermania/Assets/Scripts/Game/Sim/ManiaState.cs:101-109 | the channel keys are the single bits 10 to 15, so HasFlag asks for one bit as HasInput does |
| ManiaStates.StepTouchesFront | Hypermania/Assets/Scripts/Game/Sim/ManiaState.cs:138-174 | a channel step either changes nothing or pops exactly its front note and reports it |
| ManiaStates.NoteEventsBounded | Hypermania/Assets/Scripts/Game/Sim/ManiaState.cs:136-175 | the channels produce at most one event each, none of them an End |
| ManiaStates.QuietTick | Hypermania/Assets/Scripts/Game/Sim/ManiaState.cs:136-175 | with no key pressed and no note overdue, a tick reports nothing and changes no channel |
| Compressions.Compression.constructor | Hypermania/Assets/Scripts/Netcode/Rollback/Network/Compression.cs:11 | a compressor owns a 256 KiB scratch buffer |
| Compressions.Compression.Encode | Hypermania/Assets/Scripts/Netcode/Rollback/Network/Compression.cs:13-77 | Encode returns exactly the pure Encoded of the reference and the pending inputs, including its failures |
| Compressions.Compression.FlushRun | Hypermania/Assets/Scripts/Netcode/Rollback/Network/Compression.cs:24-38 | without an open run nothing happens; an open run that does not fit fails; otherwise count and value are written and the run is closed |
| Compressions.Compression.Feed | Hypermania/Assets/Scripts/Netcode/Rollback/Network/Compression.cs:50-68 | one delta byte extends the open run or closes it and opens a new one, keeping the written bytes equal to the closed runs of the stream so far; a failure means the closed runs overflow the buffer |
| Compressions.Compression.EncodeInput | Hypermania/Assets/Scripts/Netcode/Rollback/Network/Compression.cs:42-69 | one input's deltas are fed in order; a failure names a prefix of the stream whose closed runs overflow the buffer |
| Compressions.EncodedOk | Hypermania/Assets/Scripts/Netcode/Rollback/Network/Compression.cs:13-77 | a successful Encode had a non-empty reference and inputs of its length, and returns the flattened runs of the whole delta stream, within the buffer |
| Compressions.EncodedWhole | Hypermania/Assets/Scripts/Netcode/Rollback/Network/Compression.cs:13-77 | with valid inputs Encode is the flattened runs of the delta stream unless they exceed the scratch buffer, which fails with InvalidOperation |
| Compressions.EncodeRejects | Hypermania/Assets/Scripts/Netcode/Rollback/Network/Compression.cs:16-46 | an empty reference fails the first assertion, and an input of another length makes Encode fail |
| Compressions.EncodeNothing | Hypermania/Assets/Scripts/Netcode/Rollback/Network/Compression.cs:13-77 | no pending inputs encode to nothing, given a non-empty reference |
| Compressions.EncodedShape | Hypermania/Assets/Scripts/Netcode/Rollback/Network/Compression.cs:24-72 | the output is (count, value) pairs: even length, every count 1 to 255, equal neighbouring values only after a full run, never beyond the buffer |
| Compressions.OverflowWins | Hypermania/Assets/Scripts/Netcode/Rollback/Network/Compression.cs:29-30 | once more runs are closed than the buffer holds, Encode fails with InvalidOperation whatever follows |
| Compressions.EncodeExample | Hypermania/Assets/Scripts/Netcode/Rollback/Network/Compression.cs:13-77 | reference [0,0,0,0] with inputs [0,0,0,0] and [1,0,0,0] encodes to [4,0,1,1,3,0] |
| Compressions.RunsFacts | Hypermania/Assets/Scripts/Netcode/Rollback/Network/Compression.cs:52-68 | the runs of a stream are well formed (counts 1 to 255, a new run only on a change or a full run) and expand to exactly the stream |
| Compressions.PushFacts | Hypermania/Assets/Scripts/Netcode/Rollback/Network/Compression.cs:52-68 | one byte adds exactly that byte to what the runs stand for, opening at most one run |
| Compressions.RunsGrow | Hypermania/Assets/Scripts/Netcode/Rollback/Network/Compression.cs:52-68 | a longer stream never has fewer runs |
| Compressions.CloseRun | Hypermania/Assets/Scripts/Netcode/Rollback/Network/Compression.cs:72 | the final flush writes the open run after the closed ones, completing the flattened runs |
| Compressions.Compression.Decode | Hypermania/Assets/Scripts/Netcode/Rollback/Network/Compression.cs:79-108 | Decode returns exactly the pure Decoded of the reference and the data, including its failures |
| Compressions.Compression.DecodeInput | Hypermania/Assets/Scripts/Netcode/Rollback/Network/Compression.cs:97-103 | each decoded input is the reference XORed with its slice of the scratch buffer |
| Compressions.Compression.RleDecodeToScratch | Hypermania/Assets/Scripts/Netcode/Rollback/Network/Compression.cs:110-132 | a failure is the pure decoder's; on success the length returned is the decoded length and the scratch buffer starts with the decoded bytes |
| Compressions.Compression.WriteRun | Hypermania/Assets/Scripts/Netcode/Rollback/Network/Compression.cs:127-128 | count copies of the value are written after the bytes already there |
| Compressions.RleFromFlatten | Hypermania/Assets/Scripts/Netcode/Rollback/Network/Compression.cs:110-132 | decoding well-formed runs that fit writes what they stand for |
| Compressions.RleFromBound | Hypermania/Assets/Scripts/Netcode/Rollback/Network/Compression.cs:124-125 | the decoder never writes past the scratch buffer and only appends |
| Compressions.DecodeRejects | Hypermania/Assets/Scripts/Netcode/Rollback/Network/Compression.cs:81-89 | an empty reference, odd data, a zero count or a decoded length that is not a multiple of the reference fails an assertion |
| Compressions.RoundTrip | Hypermania/Assets/Scripts/Netcode/Rollback/Network/Compression.cs:13-108 | decoding an encoding gives back every pending input in order, when the decoded bytes fit the scratch buffer |
| Compressions.SplitOfAllDeltas | Hypermania/Assets/Scripts/Netcode/Rollback/Network/Compression.cs:91-105 | cutting the XORed stream into reference-sized pieces undoes the XOR |
| Compressions.XorBytesTwice | Hypermania/Assets/Scripts/Netcode/Rollback/Network/Compression.cs:50-100 | XORing with the reference twice gives the input back |
| Messages.StatusBytes | Hypermania/Assets/Scripts/Netcode/Rollback/Network/Messages.cs:26-33 | a connection status is written in five bytes |
| Messages.StatusFrom | Hypermania/Assets/Scripts/Netcode/Rollback/Network/Messages.cs:18-25 | a status is read exactly when five bytes are present, consuming five |
| Messages.StatusFlag | Hypermania/Assets/Scripts/Netcode/Rollback/Network/Messages.cs:21 | any non-zero flag byte reads as disconnected and zero as connected |
| Messages.StatusRoundTrip | Hypermania/Assets/Scripts/Netcode/Rollback/Network/Messages.cs:18-33 | a status reads back from its bytes, whatever follows |
| Messages.StatusesRoundTrip | Hypermania/Assets/Scripts/Netcode/Rollback/Network/Messages.cs:127-130 | the status loop of Deserialize reads back what the loop of Serialize wrote, five bytes each |
| Messages.Normalized | Hypermania/Assets/Scripts/Netcode/Rollback/Network/Messages.cs:151-185 | a null array reads back as an empty one; an input without nulls is its own normal form |
| Messages.NullWrittenAsEmpty | Hypermania/Assets/Scripts/Netcode/Rollback/Network/Messages.cs:151-185 | a null status array or payload is written exactly as an empty one, with count zero |
| Messages.TailBytes | Hypermania/Assets/Scripts/Netcode/Rollback/Network/Messages.cs:167-185 | after the statuses an Input writes 13 bytes plus its payload |
| Messages.InputTailRoundTrip | Hypermania/Assets/Scripts/Netcode/Rollback/Network/Messages.cs:132-146 | the flag, both frames, the length and the payload read back after the statuses |
| Messages.InputRoundTrip | Hypermania/Assets/Scripts/Netcode/Rollback/Network/Messages.cs:119-187 | within the caps, Input.Deserialize undoes Input.Serialize, up to null arrays reading back as empty |
| Messages.InputCapsRejected | Hypermania/Assets/Scripts/Netcode/Rollback/Network/Messages.cs:124-140 | the caps are checked only when reading: more than 16 statuses or more than 400 payload bytes are written but make Deserialize fail with InvalidOperation |
| Messages.MessageBody.GetSyncRequest | Hypermania/Assets/Scripts/Netcode/Rollback/Network/Messages.cs:341-342 | the accessor succeeds exactly on a body of its kind, and fails with InvalidOperation otherwise |
| Messages.MessageBody.GetSyncReply | Hypermania/Assets/Scripts/Netcode/Rollback/Network/Messages.cs:344-345 | the accessor succeeds exactly on a body of its kind, and fails with InvalidOperation otherwise |
| Messages.MessageBody.GetInput | Hypermania/Assets/Scripts/Netcode/Rollback/Network/Messages.cs:347-348 | the accessor succeeds exactly on a body of its kind, and fails with InvalidOperation otherwise |
| Messages.MessageBody.GetInputAck | Hypermania/Assets/Scripts/Netcode/Rollback/Network/Messages.cs:350-351 | the accessor succeeds exactly on a body of its kind, and fails with InvalidOperation otherwise |
| Messages.MessageBody.GetQualityReport | Hypermania/Assets/Scripts/Netcode/Rollback/Network/Messages.cs:353-354 | the accessor succeeds exactly on a body of its kind, and fails with InvalidOperation otherwise |
| Messages.MessageBody.GetQualityReply | Hypermania/Assets/Scripts/Netcode/Rollback/Network/Messages.cs:356-357 | the accessor succeeds exactly on a body of its kind, and fails with InvalidOperation otherwise |
| Messages.MessageBody.GetChecksumReport | Hypermania/Assets/Scripts/Netcode/Rollback/Network/Messages.cs:359-360 | the accessor succeeds exactly on a body of its kind, and fails with InvalidOperation otherwise |
| Messages.MessageBody.GetKeepAlive | Hypermania/Assets/Scripts/Netcode/Rollback/Network/Messages.cs:362-363 | the accessor succeeds exactly on a body of its kind, and fails with InvalidOperation otherwise |
| Messages.NormalBody | Hypermania/Assets/Scripts/Netcode/Rollback/Network/Messages.cs:365-432 | reading back keeps a body's kind and changes only the null arrays of an Input |
| Messages.PayloadRoundTrip | Hypermania/Assets/Scripts/Netcode/Rollback/Network/Messages.cs:365-432 | each payload reads back under its own kind tag |
| Messages.QualityReportRoundTrip | Hypermania/Assets/Scripts/Netcode/Rollback/Network/Messages.cs:237-254 | a quality report reads back from its ten bytes |
| Messages.ChecksumReportRoundTrip | Hypermania/Assets/Scripts/Netcode/Rollback/Network/Messages.cs:280-295 | a checksum report reads back from its twelve bytes |
| Messages.BodyOfPayload | Hypermania/Assets/Scripts/Netcode/Rollback/Network/Messages.cs:365-370 | the kind tag reads back, so a body reads back when its payload does |
| Messages.BodyRoundTrip | Hypermania/Assets/Scripts/Netcode/Rollback/Network/Messages.cs:365-432 | within the C# types, MessageBody.Deserialize undoes Serialize and consumes its bytes |
| Messages.HeaderRoundTrip | Hypermania/Assets/Scripts/Netcode/Rollback/Network/Messages.cs:53-62 | the header is the two-byte little-endian magic and reads back |
| Messages.MessageRoundTrip | Hypermania/Assets/Scripts/Netcode/Rollback/Network/Messages.cs:473-486 | within the caps and the C# types, Message.Deserialize undoes Message.Serialize and consumes exactly its bytes |
| Messages.MessageFromParts | Hypermania/Assets/Scripts/Netcode/Rollback/Network/Messages.cs:473-479 | a message is its header followed by its body |
| Messages.PayloadSizes | Hypermania/Assets/Scripts/Netcode/Rollback/Network/Messages.cs:82-303 | the fixed payload sizes: 4 for sync and ack bodies, 10, 8 and 12 for the reports, 0 for keep-alive, and the Input layout |
| Messages.SerializeStatus | Hypermania/Assets/Scripts/Netcode/Rollback/Network/Messages.cs:26-33 | writes exactly the status's five bytes at the offset and nothing else |
| Messages.SerializeStatuses | Hypermania/Assets/Scripts/Netcode/Rollback/Network/Messages.cs:153-158 | the status loop writes all statuses in order at the offset and nothing else |
| Messages.SerializeTail | Hypermania/Assets/Scripts/Netcode/Rollback/Network/Messages.cs:167-185 | writes exactly the tail bytes, a null payload as length zero |
| Messages.SerializeInput | Hypermania/Assets/Scripts/Netcode/Rollback/Network/Messages.cs:148-187 | writes exactly the Input's bytes, a null status array as count zero |
| Messages.SerializeBody | Hypermania/Assets/Scripts/Netcode/Rollback/Network/Messages.cs:399-432 | writes the kind tag and that kind's payload, nothing else |
| Messages.SerializeMessage | Hypermania/Assets/Scripts/Netcode/Rollback/Network/Messages.cs:480-486 | writes the header and the body, nothing else |
| Messages.Put | Hypermania/Assets/Scripts/Netcode/Rollback/Network/Messages.cs:178 | a span copy changes exactly the copied range |
| Messages.SplicedTwice | Hypermania/Assets/Scripts/Netcode/Rollback/Network/Messages.cs:148-187 | writing one piece and then the next right after it is writing both at once |
| Messages.DeserializeInput | Hypermania/Assets/Scripts/Netcode/Rollback/Network/Messages.cs:119-147 | the reading loop gives exactly the pure InputFrom, including its failures |
| Messages.DeserializeTail | Hypermania/Assets/Scripts/Netcode/Rollback/Network/Messages.cs:132-146 | the fields after the statuses read as the pure InputTailFrom does |
| Messages.DeserializeBody | Hypermania/Assets/Scripts/Netcode/Rollback/Network/Messages.cs:365-398 | reads exactly as the pure BodyFrom |
| Messages.DeserializeMessage | Hypermania/Assets/Scripts/Netcode/Rollback/Network/Messages.cs:473-479 | reads exactly as the pure MessageFrom |
| Messages.InputSerdeSize | Hypermania/Assets/Scripts/Netcode/Rollback/Network/Messages.cs:188-202 | a null array makes SerdeSize fail with NullReference; otherwise it is the number of bytes Serialize writes |
| Messages.FixedPayloadSize | Hypermania/Assets/Scripts/Netcode/Rollback/Network/Messages.cs:82-303 | each fixed-size body reports the number of bytes it writes |
| Messages.BodySerdeSize | Hypermania/Assets/Scripts/Netcode/Rollback/Network/Messages.cs:433-465 | the body reports its written size, failing only on an Input with a null array |
| Messages.MessageSerdeSize | Hypermania/Assets/Scripts/Netcode/Rollback/Network/Messages.cs:487-490 | the message reports its written size, failing only on an Input with a null array |
| Protocols.UnpackedInputs | Hypermania/Assets/Scripts/Netcode/Rollback/Network/Protocol.cs:58-77 | unpacking fails its assertion exactly when the player count is zero or does not divide the byte length; otherwise one input per player, each stamped with the packet's frame |
| Protocols.Slices | Hypermania/Assets/Scripts/Netcode/Rollback/Network/Protocol.cs:64-75 | one slice per player, each with the packet's frame |
| Protocols.PackedFrameIs | Hypermania/Assets/Scripts/Netcode/Rollback/Network/Protocol.cs:38-52 | the packed frame is null exactly when every input's frame is, is otherwise some input's frame, and is every non-null frame when they agree |
| Protocols.FramesAgreeStep | Hypermania/Assets/Scripts/Netcode/Rollback/Network/Protocol.cs:47 | one more input keeps the frames agreeing exactly when it passes the assertion against the frame so far |
| Protocols.PackRejectsMixedFrames | Hypermania/Assets/Scripts/Netcode/Rollback/Network/Protocol.cs:47 | two different non-null frames fail the assertion |
| Protocols.ConcatenatedLength | Hypermania/Assets/Scripts/Netcode/Rollback/Network/Protocol.cs:39-40 | the buffer holds the default size once per input |
| Protocols.ConcatenatedSlot | Hypermania/Assets/Scripts/Netcode/Rollback/Network/Protocol.cs:49-50 | slot p of the buffer holds the bytes of input p |
| Protocols.PackStep | Hypermania/Assets/Scripts/Netcode/Rollback/Network/Protocol.cs:43-51 | each round appends one serialized input and takes its frame when non-null |
| Protocols.FromInputs | Hypermania/Assets/Scripts/Netcode/Rollback/Network/Protocol.cs:34-55 | the packing loop gives exactly the pure PackedInputs, including the failed assertion |
| Protocols.ToInputs | Hypermania/Assets/Scripts/Netcode/Rollback/Network/Protocol.cs:58-77 | the unpacking loop gives exactly the pure UnpackedInputs |
| Protocols.PackRoundTrip | Hypermania/Assets/Scripts/Netcode/Rollback/Network/Protocol.cs:34-77 | with a lawful input codec, unpacking what was packed gives the inputs back stamped with the common frame |
| Protocols.PackRoundTripSameFrame | Hypermania/Assets/Scripts/Netcode/Rollback/Network/Protocol.cs:34-77 | when all inputs carry one non-null frame the round trip is the identity |
| Protocols.SortAsWritten | Hypermania/Assets/Scripts/Netcode/Rollback/Network/Protocol.cs:192 | sorting handles with the default comparer succeeds, unchanged, only for at most one handle |
| Protocols.TwoHandlesCannotBeSorted | Hypermania/Assets/Scripts/Netcode/Rollback/Network/Protocol.cs:192 | sorting two handles fails with InvalidOperation |
| Protocols.Inserted | Hypermania/Assets/Scripts/Netcode/Rollback/Network/Protocol.cs:192 | inserting into a sorted list keeps it sorted and adds exactly that handle |
| Protocols.SortedHandles | Hypermania/Assets/Scripts/Netcode/Rollback/Network/Protocol.cs:192 | the intended sort: ordered by id and a permutation of the handles |
| Protocols.SortedHandlesExtends | Hypermania/Assets/Scripts/Netcode/Rollback/Network/Protocol.cs:192 | the intended sort agrees with the as-written one wherever that succeeds |
| TimeSyncs.TimeSync.constructor | Hypermania/Assets/Scripts/Netcode/Rollback/TimeSync.cs:9-10 | both windows start as thirty zeros |
| TimeSyncs.TimeSync.AdvanceFrame | Hypermania/Assets/Scripts/Netcode/Rollback/TimeSync.cs:12-17 | the null frame fails the assertion; otherwise the C# remainder of the frame by 30 picks the slot, and that slot of each window takes its advantage; a negative remainder, where the source writes outside its buffers unchecked, is stood in for by a failure that changes nothing (see Left out) |
| TimeSyncs.AdvancedTouchesOneSlot | Hypermania/Assets/Scripts/Netcode/Rollback/TimeSync.cs:15-16 | only the slot frame mod 30 changes |
| TimeSyncs.SharedSlots | Hypermania/Assets/Scripts/Netcode/Rollback/TimeSync.cs:15-16 | frames 30 apart share a slot, so the later value replaces the earlier |
| TimeSyncs.TimeSync.AverageFrameAdvantage | Hypermania/Assets/Scripts/Netcode/Rollback/TimeSync.cs:19-31 | the summing loop returns the truncated half difference of the window averages |
| TimeSyncs.AverageIsTruncation | Hypermania/Assets/Scripts/Netcode/Rollback/TimeSync.cs:28-30 | the result has the sign of the difference of sums and lies within one unit of that difference over 60 |
| TimeSyncs.BalancedIsZero | Hypermania/Assets/Scripts/Netcode/Rollback/TimeSync.cs:19-31 | equal sums, and in particular the initial zero windows, give no advantage |
| InputQueues.InputQueue.constructor | Hypermania/Assets/Scripts/Netcode/Rollback/InputQueue.cs:22-36 | a new queue is the initial queue: 128 blank slots for no frame, first frame pending, nothing added; it is well formed and stores nothing |
| InputQueues.InitialQueue | Hypermania/Assets/Scripts/Netcode/Rollback/InputQueue.cs:22-36 | 128 slots, each a blank input for the null frame, nothing added yet |
| InputQueues.InitialWf | Hypermania/Assets/Scripts/Netcode/Rollback/InputQueue.cs:22-36 | the initial queue is well formed and its window of stored inputs is empty |
| InputQueues.InputQueue.FirstIncorrectFrame | Hypermania/Assets/Scripts/Netcode/Rollback/InputQueue.cs:38 | the property is the first incorrect frame field |
| InputQueues.InputQueue.SetFrameDelay | Hypermania/Assets/Scripts/Netcode/Rollback/InputQueue.cs:40 | only the delay changes |
| InputQueues.DelaySet | Hypermania/Assets/Scripts/Netcode/Rollback/InputQueue.cs:40 | the queue takes the new delay |
| InputQueues.DelayKeepsWf | Hypermania/Assets/Scripts/Netcode/Rollback/InputQueue.cs:40 | changing the delay keeps the invariant and what is stored |
| InputQueues.InputQueue.ResetPrediction | Hypermania/Assets/Scripts/Netcode/Rollback/InputQueue.cs:42-47 | the queue becomes PredictionReset of the old one |
| InputQueues.ResetKeepsWf | Hypermania/Assets/Scripts/Netcode/Rollback/InputQueue.cs:42-47 | a reset keeps what is stored, ends the prediction and clears the first incorrect and last requested frames |
| InputQueues.ResetConfirms | Hypermania/Assets/Scripts/Netcode/Rollback/InputQueue.cs:42-89 | after a reset a stored frame is answered as confirmed again |
| InputQueues.InputQueue.ConfirmedInput | Hypermania/Assets/Scripts/Netcode/Rollback/InputQueue.cs:49-54 | the method gives the pure ConfirmedOf |
| InputQueues.ConfirmedOf | Hypermania/Assets/Scripts/Netcode/Rollback/InputQueue.cs:49-54 | an answer is always for the requested frame |
| InputQueues.ConfirmedOfStored | Hypermania/Assets/Scripts/Netcode/Rollback/InputQueue.cs:49-54 | in a well-formed queue an answer is for an added frame, and every stored frame is answered from the window |
| InputQueues.InputQueue.DiscardConfirmedFrames | Hypermania/Assets/Scripts/Netcode/Rollback/InputQueue.cs:56-74 | the queue becomes the pure Discarded and stays valid |
| InputQueues.DiscardBound | Hypermania/Assets/Scripts/Netcode/Rollback/InputQueue.cs:59 | the bound is the frame or the last requested frame, never past either |
| InputQueues.Discarded | Hypermania/Assets/Scripts/Netcode/Rollback/InputQueue.cs:56-74 | discarding moves only the tail and the length |
| InputQueues.DiscardAllKeepsWf | Hypermania/Assets/Scripts/Netcode/Rollback/InputQueue.cs:61-66 | delete all but most recent leaves a well-formed queue storing nothing |
| InputQueues.DiscardSomeKeepsWf | Hypermania/Assets/Scripts/Netcode/Rollback/InputQueue.cs:67-73 | moving the tail past some stored inputs drops exactly those |
| InputQueues.DiscardKeepsWf | Hypermania/Assets/Scripts/Netcode/Rollback/InputQueue.cs:56-74 | discarding keeps the invariant and drops exactly the stored inputs before the bound, all once it reaches the last added frame |
| InputQueues.InputQueue.Input | Hypermania/Assets/Scripts/Netcode/Rollback/InputQueue.cs:76-103 | the method gives the pure InputOf and keeps the queue valid |
| InputQueues.InputOf | Hypermania/Assets/Scripts/Netcode/Rollback/InputQueue.cs:76-103 | a recorded incorrect frame fails the assertion; only the last requested frame and the prediction change; a predicted answer comes with an active prediction |
| InputQueues.InputKeepsWf | Hypermania/Assets/Scripts/Netcode/Rollback/InputQueue.cs:76-103 | Input keeps the invariant and the stored inputs |
| InputQueues.InputOfStoredFrame | Hypermania/Assets/Scripts/Netcode/Rollback/InputQueue.cs:82-90 | with no prediction active, a stored frame is answered from the window as Confirmed |
| InputQueues.InputAfterDiscardAll | Hypermania/Assets/Scripts/Netcode/Rollback/InputQueue.cs:61-66 | after delete all but most recent, the frame after the last added counts as stored but its slot holds another frame, so Input fails its assertion |
| InputQueues.NewPrediction | Hypermania/Assets/Scripts/Netcode/Rollback/InputQueue.cs:92-98 | a new prediction is for a non-null frame, and is blank for frame 0 or before any add |
| InputQueues.PredictionRepeatsLast | Hypermania/Assets/Scripts/Netcode/Rollback/InputQueue.cs:91-102 | a prediction started after adds repeats the newest stored input one frame on; before any add or for frame 0 it is blank |
| InputQueues.PredictionIsStable | Hypermania/Assets/Scripts/Netcode/Rollback/InputQueue.cs:82-102 | while a prediction is active every request at or after the tail gets the same predicted input |
| InputQueues.InputQueue.AddInput | Hypermania/Assets/Scripts/Netcode/Rollback/InputQueue.cs:105-112 | the method gives the pure Added and keeps the queue valid |
| InputQueues.Added | Hypermania/Assets/Scripts/Netcode/Rollback/InputQueue.cs:105-112 | a frame out of sequence is ignored with the null frame; a returned frame is the input's frame plus the delay |
| InputQueues.AddedFirst | Hypermania/Assets/Scripts/Netcode/Rollback/InputQueue.cs:105-112 | the first add with a non-negative target stores delay blank inputs and then the input, failing exactly when that exceeds 128 inputs or a prediction does not match |
| InputQueues.AddedNext | Hypermania/Assets/Scripts/Netcode/Rollback/InputQueue.cs:105-112 | a later add in sequence stores just the input at the next frame, failing exactly when the queue is full or a prediction does not match |
| InputQueues.AddedTooEarly | Hypermania/Assets/Scripts/Netcode/Rollback/InputQueue.cs:141-143 | a first add whose target frame is negative is ignored |
| InputQueues.InputQueue.AddInputByFrame | Hypermania/Assets/Scripts/Netcode/Rollback/InputQueue.cs:114-136 | the method gives the pure AddedByFrame |
| InputQueues.InputQueue.Write | Hypermania/Assets/Scripts/Netcode/Rollback/InputQueue.cs:120-126 | the writes of the add, as Written |
| InputQueues.InputQueue.CheckAdded | Hypermania/Assets/Scripts/Netcode/Rollback/InputQueue.cs:124-135 | the checks after the write, as AddChecked |
| InputQueues.AddedByFrame | Hypermania/Assets/Scripts/Netcode/Rollback/InputQueue.cs:114-136 | a failed check changes nothing; otherwise the input, retagged with the frame, is written at head, which moves on, and one more is counted |
| InputQueues.Written | Hypermania/Assets/Scripts/Netcode/Rollback/InputQueue.cs:120-123 | the slot at head holds the input retagged with the frame |
| InputQueues.Track | Hypermania/Assets/Scripts/Netcode/Rollback/InputQueue.cs:128-135 | a confirmed input for the predicted frame records the first mismatch once and moves the prediction on, ending it when the last requested frame is confirmed correctly |
| InputQueues.AddKeepsFirstIncorrect | Hypermania/Assets/Scripts/Netcode/Rollback/InputQueue.cs:131 | a recorded first incorrect frame is never replaced |
| InputQueues.TrackAllKeepsIncorrect | Hypermania/Assets/Scripts/Netcode/Rollback/InputQueue.cs:131 | a recorded first incorrect frame survives any further confirmations |
| InputQueues.AddAllowedInWf | Hypermania/Assets/Scripts/Netcode/Rollback/InputQueue.cs:117-118 | in a well-formed queue the two checks pass exactly for the frame after the last added one |
| InputQueues.HeadOutsideWindow | Hypermania/Assets/Scripts/Netcode/Rollback/InputQueue.cs:120 | with fewer than 128 stored, slot head holds none of them |
| InputQueues.AddByFrameKeepsWf | Hypermania/Assets/Scripts/Netcode/Rollback/InputQueue.cs:114-136 | an add succeeds exactly for the next frame into a non-full queue whose prediction is for that frame; it then appends exactly the input and keeps the invariant |
| InputQueues.InputQueue.AdvanceQueueHead | Hypermania/Assets/Scripts/Netcode/Rollback/InputQueue.cs:138-155 | the method gives the pure Advanced |
| InputQueues.Advanced | Hypermania/Assets/Scripts/Netcode/Rollback/InputQueue.cs:138-155 | a target frame already past gives the null frame and changes nothing; otherwise the target frame or a failed assertion |
| InputQueues.AdvancedByFill | Hypermania/Assets/Scripts/Netcode/Rollback/InputQueue.cs:138-155 | when the target is not past, the outcome is that of the fill loop |
| InputQueues.InputQueue.Fill | Hypermania/Assets/Scripts/Netcode/Rollback/InputQueue.cs:145-150 | the loop gives the pure Filled |
| InputQueues.InputQueue.FillRound | Hypermania/Assets/Scripts/Netcode/Rollback/InputQueue.cs:147-149 | one round adds the newest input again as the expected frame, extending the forward replay by one round |
| InputQueues.Filled | Hypermania/Assets/Scripts/Netcode/Rollback/InputQueue.cs:145-150 | the fill passes or fails an assertion, keeps tail and delay, does nothing for a past target and leaves the newest slot at the frame before the target |
| InputQueues.ReplayedThenFilled | Hypermania/Assets/Scripts/Netcode/Rollback/InputQueue.cs:145-150 | after rounds that passed, what remains of the fill is the fill from where they stopped |
| InputQueues.ReplayedFails | Hypermania/Assets/Scripts/Netcode/Rollback/InputQueue.cs:145-150 | a failing round ends the fill with its own outcome and queue |
| InputQueues.ReplayedCompletes | Hypermania/Assets/Scripts/Netcode/Rollback/InputQueue.cs:145-150 | rounds that all passed up to the target are the whole fill |
| InputQueues.FilledPrefix | Hypermania/Assets/Scripts/Netcode/Rollback/InputQueue.cs:145-150 | filling a prefix queue fails exactly when more than 128 frames would be stored or a prediction does not match, and otherwise stores frames up to the target |
| InputQueues.AddedFirstSteps | Hypermania/Assets/Scripts/Netcode/Rollback/InputQueue.cs:105-112 | the first add runs the fill from frame 0 with copies of slot 127 and then adds the input at the target frame |
| InputQueues.WindowAfterAppend | Hypermania/Assets/Scripts/Netcode/Rollback/InputQueue.cs:120-126 | writing the next frame's input at head appends it to the window |
| InputQueues.WfAfterAppend | Hypermania/Assets/Scripts/Netcode/Rollback/InputQueue.cs:120-126 | writing the next frame's input at head and moving head on keeps the invariant |
| SyncLayers.CellIndex | Hypermania/Assets/Scripts/Netcode/Rollback/SyncLayer.cs:49-54 | the null frame fails the assertion; a cell index exists exactly for a non-null frame whose truncating remainder is usable, and is then that remainder |
| SyncLayers.CellOf | Hypermania/Assets/Scripts/Netcode/Rollback/SyncLayer.cs:49-54 | GetCell returns a copy of the ring cell the frame maps to |
| SyncLayers.WindowCellsDistinct | Hypermania/Assets/Scripts/Netcode/Rollback/SyncLayer.cs:30-33 | frames less than a ring length apart use different cells, so maxPrediction + 1 cells hold a whole prediction window |
| SyncLayers.SyncLayer.constructor | Hypermania/Assets/Scripts/Netcode/Rollback/SyncLayer.cs:69-82 | a new layer is the initial layer: current frame 0, nothing confirmed or saved, one initial queue per player, an untouched ring of maxPrediction + 1 cells |
| SyncLayers.InitialLayer | Hypermania/Assets/Scripts/Netcode/Rollback/SyncLayer.cs:69-82 | the initial layer is well formed with current frame 0, no confirmed or saved frame and one fresh queue per player |
| SyncLayers.SyncLayer.AdvanceFrame | Hypermania/Assets/Scripts/Netcode/Rollback/SyncLayer.cs:85 | the layer becomes FrameAdvanced of the old one |
| SyncLayers.StepsKeepWf | Hypermania/Assets/Scripts/Netcode/Rollback/SyncLayer.cs:85-145 | advancing, resetting the predictions and synchronizing inputs keep the layer well formed and leave ring, saved and confirmed frames alone |
| SyncLayers.SyncLayer.GetCell | Hypermania/Assets/Scripts/Netcode/Rollback/SyncLayer.cs:49-54 | the method gives the pure CellOf of the ring |
| SyncLayers.SyncLayer.SaveCurrentState | Hypermania/Assets/Scripts/Netcode/Rollback/SyncLayer.cs:87-95 | the method gives the pure CurrentSaved and does not touch the ring |
| SyncLayers.CurrentSaved | Hypermania/Assets/Scripts/Netcode/Rollback/SyncLayer.cs:87-95 | the save request is for the current frame, and the layer notes it as the last saved frame and changes nothing else |
| SyncLayers.SaveOfUntouchedIsEmpty | Hypermania/Assets/Scripts/Netcode/Rollback/SyncLayer.cs:87-95 | as written a save request carries only an empty cell and the ring stays untouched |
| SyncLayers.SyncLayer.SetFrameDelay | Hypermania/Assets/Scripts/Netcode/Rollback/SyncLayer.cs:97-101 | a handle outside the players fails the assertion and changes nothing; otherwise only that player's queue takes the delay |
| SyncLayers.SyncLayer.ResetPrediction | Hypermania/Assets/Scripts/Netcode/Rollback/SyncLayer.cs:103-106 | every queue's prediction is reset |
| SyncLayers.SyncLayer.LoadFrame | Hypermania/Assets/Scripts/Netcode/Rollback/SyncLayer.cs:108-123 | the method gives the pure Loaded |
| SyncLayers.Loaded | Hypermania/Assets/Scripts/Netcode/Rollback/SyncLayer.cs:108-123 | a successful load moves the current frame back to the loaded frame and changes nothing else; a failed one changes nothing |
| SyncLayers.LoadedMeaning | Hypermania/Assets/Scripts/Netcode/Rollback/SyncLayer.cs:108-123 | a load succeeds exactly for a frame of the prediction window whose cell carries its tag, and returns that cell |
| SyncLayers.LoadedKeepsWf | Hypermania/Assets/Scripts/Netcode/Rollback/SyncLayer.cs:108-123 | a load keeps the layer well formed |
| SyncLayers.LoadOfUntouchedFails | Hypermania/Assets/Scripts/Netcode/Rollback/SyncLayer.cs:108-123 | as written no load can succeed: every cell keeps the null tag, and a load changes nothing |
| SyncLayers.RingSaved | Hypermania/Assets/Scripts/Netcode/Rollback/SyncLayer.cs:12-19 | the intended save writes the frame's tag into the ring cell of that frame and leaves the other cells |
| SyncLayers.LaterSavesKeep | Hypermania/Assets/Scripts/Netcode/Rollback/SyncLayer.cs:12-19 | saves of later frames within a ring length leave a frame's cell alone |
| SyncLayers.SavedFrameLoads | Hypermania/Assets/Scripts/Netcode/Rollback/SyncLayer.cs:108-123 | with saves reaching the ring, a saved frame followed by saves of later frames of its window loads again while the current frame is within its window |
| SyncLayers.SyncLayer.AddLocalInput | Hypermania/Assets/Scripts/Netcode/Rollback/SyncLayer.cs:125-129 | the method gives the pure LocalInputAdded |
| SyncLayers.LocalInputAdded | Hypermania/Assets/Scripts/Netcode/Rollback/SyncLayer.cs:125-129 | an input for another frame than the current fails the assertion and changes nothing; otherwise as a remote input |
| SyncLayers.SyncLayer.AddRemoteInput | Hypermania/Assets/Scripts/Netcode/Rollback/SyncLayer.cs:131-134 | the method gives the pure RemoteInputAdded |
| SyncLayers.RemoteInputAdded | Hypermania/Assets/Scripts/Netcode/Rollback/SyncLayer.cs:131-134 | a handle outside the queues fails with IndexOutOfRange; otherwise only that player's queue takes the input, as its AddInput does |
| SyncLayers.SyncLayer.SynchronizedInputs | Hypermania/Assets/Scripts/Netcode/Rollback/SyncLayer.cs:136-145 | the method gives the pure SyncedInputs |
| SyncLayers.SyncLayer.SyncInput | Hypermania/Assets/Scripts/Netcode/Rollback/SyncLayer.cs:141-142 | one round appends the entry of player i and only that player's queue changes |
| SyncLayers.SyncStep | Hypermania/Assets/Scripts/Netcode/Rollback/SyncLayer.cs:139-143 | one round of the loop gives the next collected entry and the next queues |
| SyncLayers.AskedKeepsRest | Hypermania/Assets/Scripts/Netcode/Rollback/SyncLayer.cs:139-143 | the rounds so far leave the later players' queues alone |
| SyncLayers.EntryOwnQueue | Hypermania/Assets/Scripts/Netcode/Rollback/SyncLayer.cs:141-142 | a player's entry depends only on that player's queue |
| SyncLayers.SyncedEntries | Hypermania/Assets/Scripts/Netcode/Rollback/SyncLayer.cs:136-145 | one entry per status in order, each the answer of that player's queue as it was before the call; it fails exactly when some entry fails |
| SyncLayers.CollectedMeaning | Hypermania/Assets/Scripts/Netcode/Rollback/SyncLayer.cs:136-159 | a collection succeeds exactly when each of its entries does, and then holds their values in order |
| SyncLayers.CollectedStopsAtError | Hypermania/Assets/Scripts/Netcode/Rollback/SyncLayer.cs:136-159 | after a failing entry the later ones are not looked at |
| SyncLayers.SyncLayer.ConfirmedInputs | Hypermania/Assets/Scripts/Netcode/Rollback/SyncLayer.cs:147-159 | the loop gives the collected confirmations |
| SyncLayers.ConfirmedEntry | Hypermania/Assets/Scripts/Netcode/Rollback/SyncLayer.cs:150-157 | an entry is the confirmed input of the frame, or a blank input for a player cut off before it |
| SyncLayers.ConfirmedEntries | Hypermania/Assets/Scripts/Netcode/Rollback/SyncLayer.cs:147-159 | the call succeeds exactly when every entry does, one input per status in order |
| SyncLayers.SyncLayer.SetLastConfirmedFrame | Hypermania/Assets/Scripts/Netcode/Rollback/SyncLayer.cs:161-182 | the method gives the pure ConfirmedFrameSet |
| SyncLayers.MaxIncorrectIsMax | Hypermania/Assets/Scripts/Netcode/Rollback/SyncLayer.cs:163-167 | the first loop computes the maximum of the null frame and every queue's first incorrect frame |
| SyncLayers.ConfirmTarget | Hypermania/Assets/Scripts/Netcode/Rollback/SyncLayer.cs:169-170 | the confirmed frame is the argument, capped by the last saved frame in sparse mode and by the current frame |
| SyncLayers.ConfirmedFrameSetMeaning | Hypermania/Assets/Scripts/Netcode/Rollback/SyncLayer.cs:161-182 | the confirmation is refused exactly when some queue recorded a mismatch and all recorded mismatches lie before the target; on success only the confirmed frame and, past frame 0, the queues change |
| SyncLayers.SyncLayer.DiscardAll | Hypermania/Assets/Scripts/Netcode/Rollback/SyncLayer.cs:177-180 | every queue discards up to the frame |
| SyncLayers.DiscardedAll | Hypermania/Assets/Scripts/Netcode/Rollback/SyncLayer.cs:177-180 | discarding keeps the number of queues |
| SyncLayers.SyncLayer.CheckSimulationConsistency | Hypermania/Assets/Scripts/Netcode/Rollback/SyncLayer.cs:184-195 | the loop gives EarliestIncorrect |
| SyncLayers.EarliestIsMinimum | Hypermania/Assets/Scripts/Netcode/Rollback/SyncLayer.cs:184-195 | the result is the minimum of the argument and every recorded mismatch, ignoring null frames, and null only when all are |
| SyncLayers.SyncLayer.SavedStateByFrame | Hypermania/Assets/Scripts/Netcode/Rollback/SyncLayer.cs:197-202 | the method gives the pure SavedState |
| SyncLayers.SavedState | Hypermania/Assets/Scripts/Netcode/Rollback/SyncLayer.cs:197-202 | a cell is returned exactly when it is tagged with the frame; otherwise InvalidOperation, or the GetCell assertion |
| SyncLayers.SavedStateOfUntouchedFails | Hypermania/Assets/Scripts/Netcode/Rollback/SyncLayer.cs:197-202 | as written every lookup of a saved state fails |
| Rollback.NewPlayerHandle | Hypermania/Assets/Scripts/Netcode/Rollback/Rollback.cs:12-16 | a handle is built exactly for a non-negative id, keeping that id; a negative id fails with ArgumentOutOfRange |
| Rollback.CellSave | Hypermania/Assets/Scripts/Netcode/Rollback/SyncLayer.cs:12-19 | the cell takes the frame and checksum, its buffer starts with the serialized state, and a buffer already large enough keeps its length (it is reused, not reallocated) |
| Rollback.SaveThenLoad | Hypermania/Assets/Scripts/Netcode/Rollback/SyncLayer.cs:12-24 | a state saved into any cell loads back unchanged, whatever stale bytes follow it in a reused buffer, given a deserializer that ignores trailing bytes |
| Rollback.BlankInputFields | Hypermania/Assets/Scripts/Netcode/Rollback/FrameInfo.cs:16 | the blank input carries the given frame and the default input |
| Rollback.EqualMeaning | Hypermania/Assets/Scripts/Netcode/Rollback/FrameInfo.cs:17 | input-only equality holds exactly when the inputs agree, strict equality exactly when frame and input agree, and strict equality implies input-only equality |
| Rollback.RollbackEvent.GetSynchronizing | Hypermania/Assets/Scripts/Netcode/Rollback/Rollback.cs:138-139 | the getter succeeds exactly on an event of its kind and fails with InvalidOperation otherwise |
| Rollback.RollbackEvent.GetSynchronized | Hypermania/Assets/Scripts/Netcode/Rollback/Rollback.cs:141-142 | the getter succeeds exactly on an event of its kind and fails with InvalidOperation otherwise |
| Rollback.RollbackEvent.GetDisconnected | Hypermania/Assets/Scripts/Netcode/Rollback/Rollback.cs:144-145 | the getter succeeds exactly on an event of its kind and fails with InvalidOperation otherwise |
| Rollback.RollbackEvent.GetNetworkInterrupted | Hypermania/Assets/Scripts/Netcode/Rollback/Rollback.cs:147-148 | the getter succeeds exactly on an event of its kind and fails with InvalidOperation otherwise |
| Rollback.RollbackEvent.GetNetworkResumed | Hypermania/Assets/Scripts/Netcode/Rollback/Rollback.cs:150-151 | the getter succeeds exactly on an event of its kind and fails with InvalidOperation otherwise |
| Rollback.RollbackEvent.GetWaitRecommendation | Hypermania/Assets/Scripts/Netcode/Rollback/Rollback.cs:153-154 | the getter succeeds exactly on an event of its kind and fails with InvalidOperation otherwise |
| Rollback.RollbackEvent.GetDesyncDetected | Hypermania/Assets/Scripts/Netcode/Rollback/Rollback.cs:156-157 | the getter succeeds exactly on an event of its kind and fails with InvalidOperation otherwise |
| Rollback.EventFromGet | Hypermania/Assets/Scripts/Netcode/Rollback/Rollback.cs:117-157 | each `From` sets the kind of its variant, and the matching getter gives back the body it was built from |
| Rollback.RollbackRequest.GetSaveGameStateReq | Hypermania/Assets/Scripts/Netcode/Rollback/Rollback.cs:203-204 | the getter succeeds exactly on a request of its kind and fails with InvalidOperation otherwise |
| Rollback.RollbackRequest.GetLoadGameStateReq | Hypermania/Assets/Scripts/Netcode/Rollback/Rollback.cs:206-207 | the getter succeeds exactly on a request of its kind and fails with InvalidOperation otherwise |
| Rollback.RollbackRequest.GetAdvanceFrameRequest | Hypermania/Assets/Scripts/Netcode/Rollback/Rollback.cs:209-210 | the getter succeeds exactly on a request of its kind and fails with InvalidOperation otherwise |
| Rollback.RequestFromGet | Hypermania/Assets/Scripts/Netcode/Rollback/Rollback.cs:194-210 | each `From` sets the kind of its variant, and the matching getter gives back the body it was built from |
| PlayerRegistries.PeerDisconnected | Hypermania/Assets/Scripts/Netcode/Rollback/Network/Protocol.cs:268-273 | a shut-down endpoint is left alone, any other becomes Disconnected; afterwards it is not running, and it counts as synchronized unless it was a shut-down one that never synchronized |
| PlayerRegistries.DisconnectAgrees | Hypermania/Assets/Scripts/Netcode/Rollback/Network/Protocol.cs:268-273 | the registry's view of an endpoint follows the endpoint model's `Disconnect` |
| PlayerRegistries.FreshPeer | Hypermania/Assets/Scripts/Netcode/Rollback/Sessions/Builder.cs:237-252 | a new endpoint is synchronizing, holds one default status per player and has no frame advantage |
| PlayerRegistries.FreshAgrees | Hypermania/Assets/Scripts/Netcode/Rollback/Network/Protocol.cs:161-232 | the fresh view is the view of a constructed endpoint after `Synchronize` |
| PlayerRegistries.TypeOf | Hypermania/Assets/Scripts/Netcode/Rollback/Sessions/P2PSession.cs:25-27 | the lookup fails exactly when the handle is not registered, and a found type is one registered for it |
| PlayerRegistries.TypeOfRegistered | Hypermania/Assets/Scripts/Netcode/Rollback/Sessions/P2PSession.cs:25-27 | with distinct handles, the lookup gives the type the handle was registered with |
| PlayerRegistries.HandlesOf | Hypermania/Assets/Scripts/Netcode/Rollback/Sessions/P2PSession.cs:29-51 | the handles of one kind, in registration order, are no more than the registered handles |
| PlayerRegistries.HandlesOfMeaning | Hypermania/Assets/Scripts/Netcode/Rollback/Sessions/P2PSession.cs:29-51 | a handle is listed under a kind exactly when it is registered with that kind |
| PlayerRegistries.QueriesAgree | Hypermania/Assets/Scripts/Netcode/Rollback/Sessions/P2PSession.cs:25-51 | `IsLocal`, `IsRemote` and `IsSpectator` hold exactly for the handles the matching list yields |
| PlayerRegistries.KindsPartition | Hypermania/Assets/Scripts/Netcode/Rollback/Sessions/P2PSession.cs:29-71 | every registered handle is of exactly one kind: the three lists together are as long as the registration |
| PlayerRegistries.NumPlayers | Hypermania/Assets/Scripts/Netcode/Rollback/Sessions/P2PSession.cs:53-61 | the count is the number of local and remote handles |
| PlayerRegistries.NumSpectators | Hypermania/Assets/Scripts/Netcode/Rollback/Sessions/P2PSession.cs:63-71 | the count is the number of spectator handles |
| PlayerRegistries.PeerIndex | Hypermania/Assets/Scripts/Netcode/Rollback/Sessions/P2PSession.cs:15-16 | a found endpoint is one for that address, and the lookup fails exactly when no endpoint has the address |
| PlayerRegistries.SameLinksIndex | Hypermania/Assets/Scripts/Netcode/Rollback/Sessions/P2PSession.cs:15-16 | endpoints updated in place keep their addresses, so an address is found at the same place before and after |
| PlayerRegistries.RelinkedWf | Hypermania/Assets/Scripts/Netcode/Rollback/Sessions/P2PSession.cs:14-16 | updating endpoints without changing their addresses, with one status per player on each remote, keeps the registry well formed |
| UdpProtocols.Initial | Hypermania/Assets/Scripts/Netcode/Rollback/Network/Protocol.cs:161-232 | a new endpoint is Initializing with five round trips to go, the null frame buffered with zeroed inputs for every handle, a zeroed last-acknowledged input, a default status per player and empty queues |
| UdpProtocols.Queued | Hypermania/Assets/Scripts/Netcode/Rollback/Network/Protocol.cs:436-445 | the message joins the send queue under the local magic, the 32-bit packet counter wraps on overflow, the send time is now, and nothing else changes |
| UdpProtocols.SyncRequested | Hypermania/Assets/Scripts/Netcode/Rollback/Network/Protocol.cs:409-417 | the nonce joins the pending requests and a SyncRequest carrying it is queued; state, events and round trips are untouched |
| UdpProtocols.ClampI16 | Hypermania/Assets/Scripts/Netcode/Rollback/Network/Protocol.cs:424 | the result is a 16-bit value, equal to the input when that fits and the nearest bound otherwise |
| UdpProtocols.QualityReported | Hypermania/Assets/Scripts/Netcode/Rollback/Network/Protocol.cs:419-428 | a QualityReport with the clamped local advantage and the wall clock is queued, and the report time is now |
| UdpProtocols.PendingSent | Hypermania/Assets/Scripts/Netcode/Rollback/Network/Protocol.cs:373-395 | with nothing pending nothing happens; otherwise all pending outputs go in one Input message, delta-encoded against the last acknowledged one, with the ack frame, the disconnect flag and the statuses; a failed assertion changes nothing |
| UdpProtocols.InputSent | Hypermania/Assets/Scripts/Netcode/Rollback/Network/Protocol.cs:357-371 | nothing unless Running; the wrong number of local inputs fails the assertion; otherwise the packed inputs join the pending window, the time-sync slot of their frame is recorded, and the window is sent |
| UdpProtocols.Pushed | Hypermania/Assets/Scripts/Netcode/Rollback/Network/Protocol.cs:363-368 | the output joins the pending window, and a Disconnected event is queued whenever the window then holds more than 128 outputs |
| UdpProtocols.AllSent | Hypermania/Assets/Scripts/Netcode/Rollback/Network/Protocol.cs:342-355 | the send queue empties; its messages go to the peer address in order, unless the endpoint is shut down, when they are dropped |
| UdpProtocols.AfterDisconnect | Hypermania/Assets/Scripts/Netcode/Rollback/Network/Protocol.cs:268-273 | a shut-down endpoint is unchanged; any other becomes Disconnected and is due to shut down 5000 ms from now |
| UdpProtocols.AfterSynchronize | Hypermania/Assets/Scripts/Netcode/Rollback/Network/Protocol.cs:275-282 | outside Initializing the assertion fails and nothing changes; otherwise the endpoint is Synchronizing with five round trips to go, the stats clock starts and the first SyncRequest is sent |
| UdpProtocols.AdvantageUpdated | Hypermania/Assets/Scripts/Netcode/Rollback/Network/Protocol.cs:234-240 | nothing changes while either frame is null, and otherwise only the local frame advantage changes |
| UdpProtocols.InterruptNoticed | Hypermania/Assets/Scripts/Netcode/Rollback/Network/Protocol.cs:312-317 | when the peer has been quiet past the notify start and no notice was given, one NetworkInterrupted event with the remaining timeout is queued and the notice is marked given; otherwise nothing changes |
| UdpProtocols.DisconnectNoticed | Hypermania/Assets/Scripts/Netcode/Rollback/Network/Protocol.cs:319-323 | when the peer has been quiet past the timeout and no Disconnected event was given, one is queued and marked given; otherwise nothing changes |
| UdpProtocols.Heartbeats | Hypermania/Assets/Scripts/Netcode/Rollback/Network/Protocol.cs:303-310 | the quality report and keep-alive only queue messages and touch their clocks |
| UdpProtocols.Notices | Hypermania/Assets/Scripts/Netcode/Rollback/Network/Protocol.cs:312-323 | Poll adds at most two notices, and never a notice already given |
| UdpProtocols.RunningTimers | Hypermania/Assets/Scripts/Netcode/Rollback/Network/Protocol.cs:297-324 | the running timers add exactly the due notices to the event queue, keep the state and never clear a given notice |
| UdpProtocols.Polled | Hypermania/Assets/Scripts/Netcode/Rollback/Network/Protocol.cs:286-330 | Poll hands out the queued events in order after whatever the timers add and leaves the queue empty; a Disconnected endpoint shuts down once its timeout has passed; Initializing and Shutdown only drain |
| UdpProtocols.PoppedCount | Hypermania/Assets/Scripts/Netcode/Rollback/Network/Protocol.cs:334-339 | the outputs popped are exactly the leading ones whose frame is not after the acknowledged frame |
| UdpProtocols.Popped | Hypermania/Assets/Scripts/Netcode/Rollback/Network/Protocol.cs:332-340 | the covered leading outputs are dropped, the last one dropped becomes the new delta reference, and nothing else changes |
| UdpProtocols.MergedStatus | Hypermania/Assets/Scripts/Netcode/Rollback/Network/Protocol.cs:534-535 | a merged status is disconnected when either side says so and takes the later of the two last frames |
| UdpProtocols.Merged | Hypermania/Assets/Scripts/Netcode/Rollback/Network/Protocol.cs:531-536 | the merge succeeds exactly when the status array has one entry per player and the report covers them; each merged status is the per-player merge, never losing a disconnect or going back a frame |
| UdpProtocols.InputEvents | Hypermania/Assets/Scripts/Netcode/Rollback/Network/Protocol.cs:555-563 | one Input event per unpacked input, paired with the endpoint handle at the same position |
| UdpProtocols.MaxFrameOf | Hypermania/Assets/Scripts/Netcode/Rollback/Network/Protocol.cs:574-575 | the result is the largest of the start frame and the frames given, and is one of them |
| UdpProtocols.KeptFrom | Hypermania/Assets/Scripts/Netcode/Rollback/Network/Protocol.cs:609-615 | the entries kept are exactly those whose frame is not before the oldest to keep, with their values |
| UdpProtocols.KeptInputs | Hypermania/Assets/Scripts/Netcode/Rollback/Network/Protocol.cs:568-573 | the received inputs kept are exactly those not older than the newest less twice the prediction window, with their values |
| UdpProtocols.Pruned | Hypermania/Assets/Scripts/Netcode/Rollback/Network/Protocol.cs:568-575 | after pruning the buffer holds exactly the recent enough frames, and the last received frame is the newest still buffered, or the null frame |
| UdpProtocols.InputDecoded | Hypermania/Assets/Scripts/Netcode/Rollback/Network/Protocol.cs:539-576 | a start frame past the next expected one fails the assertion; a message whose reference frame is not buffered changes nothing |
| UdpProtocols.DecodedEvents | Hypermania/Assets/Scripts/Netcode/Rollback/Network/Protocol.cs:541-566 | decoding an Input message only appends to the event queue, one block of Input events per newly received frame, each after the last frame received before |
| UdpProtocols.DeliveredEvents | Hypermania/Assets/Scripts/Netcode/Rollback/Network/Protocol.cs:547-564 | the delivery loop only appends input blocks for frames after the last received one, and the last received frame never goes back |
| UdpProtocols.StatusNoted | Hypermania/Assets/Scripts/Netcode/Rollback/Network/Protocol.cs:521-537 | a disconnect request leaves the peer statuses alone; otherwise only the statuses change |
| UdpProtocols.ChecksumReported | Hypermania/Assets/Scripts/Netcode/Rollback/Network/Protocol.cs:598-618 | on success the report is recorded and every other kept entry is an old one with its old value; a second report for a frame fails as a duplicate key would |
| UdpProtocols.Handled | Hypermania/Assets/Scripts/Netcode/Rollback/Network/Protocol.cs:447-450 | a shut-down endpoint, or a message under a foreign magic once the peer's is known, changes nothing |
| UdpProtocols.Arrived | Hypermania/Assets/Scripts/Netcode/Rollback/Network/Protocol.cs:452-458 | an accepted message notes the receive time and, if an interruption was reported while Running, queues NetworkResumed and clears the notice |
| UdpProtocols.Reported | Hypermania/Assets/Scripts/Netcode/Rollback/Network/Protocol.cs:579-596 | keep-alives and unknown kinds change nothing, and a quality reply fails its assertion exactly when it is from the future |
| UdpProtocols.SyncReplyIgnored | Hypermania/Assets/Scripts/Netcode/Rollback/Network/Protocol.cs:493-496 | a reply outside Synchronizing, or with a nonce not pending, changes nothing |
| UdpProtocols.SyncReplyAccepted | Hypermania/Assets/Scripts/Netcode/Rollback/Network/Protocol.cs:493-515 | an accepted reply consumes its nonce, and either reports progress and sends the next request or, on the last round trip, enters Running under the peer's magic |
| UdpProtocols.AcceptedReply | Hypermania/Assets/Scripts/Netcode/Rollback/Network/Protocol.cs:498-514 | one accepted reply takes one round trip off, reports the progress, and on the last one enters Running under the peer's magic |
| UdpProtocols.Handshake | Hypermania/Assets/Scripts/Netcode/Rollback/Network/Protocol.cs:275-282 | a peer that echoes every nonce completes the handshake: the endpoint ends Running under the peer's magic, having reported every round trip and then Synchronized |
| UdpProtocols.AcksCompose | Hypermania/Assets/Scripts/Netcode/Rollback/Network/Protocol.cs:332-340 | acknowledging a frame and then a later one leaves the same window and reference as acknowledging the later one alone |
| UdpProtocols.AckRepeated | Hypermania/Assets/Scripts/Netcode/Rollback/Network/Protocol.cs:579-582 | a repeated acknowledgement changes nothing |
| UdpProtocols.MergeIdempotent | Hypermania/Assets/Scripts/Netcode/Rollback/Network/Protocol.cs:531-536 | merging the same status report twice is merging it once |
| UdpProtocols.MergeStatusIdempotent | Hypermania/Assets/Scripts/Netcode/Rollback/Network/Protocol.cs:534-535 | merging one player's status twice with the same report is merging it once |
| UdpEndpoints.RemoveOlder | Hypermania/Assets/Scripts/Netcode/Rollback/Network/Protocol.cs:609-615 | the two pruning loops leave exactly the entries KeptFrom describes: those not before the oldest frame to keep |
| UdpEndpoints.NewestFrame | Hypermania/Assets/Scripts/Netcode/Rollback/Network/Protocol.cs:574-575 | the loop finds the newest buffered frame, or the null frame when none is buffered |
| UdpEndpoints.UdpProtocol.constructor | Hypermania/Assets/Scripts/Netcode/Rollback/Network/Protocol.cs:161-232 | the endpoint holds its configuration with the handles sorted by the intended sort (see Left out), and its state is the initial one Initial describes |
| UdpEndpoints.UdpProtocol.NetworkStats | Hypermania/Assets/Scripts/Netcode/Rollback/Network/Protocol.cs:242-256 | the stats are given exactly while Synchronizing or Running and once a whole second has passed on the 64-bit wall clock, and hold the pending count, ping and both advantages; otherwise InvalidOperation |
| UdpEndpoints.UdpProtocol.IsSynchronized | Hypermania/Assets/Scripts/Netcode/Rollback/Network/Protocol.cs:260-261 | the endpoint is synchronized exactly when it is neither Initializing nor Synchronizing |
| UdpEndpoints.UdpProtocol.PeerConnectStatus | Hypermania/Assets/Scripts/Netcode/Rollback/Network/Protocol.cs:266 | the status is what the peer last reported for the player; an id outside the players is out of range |
| UdpEndpoints.UdpProtocol.AverageFrameAdvantage | Hypermania/Assets/Scripts/Netcode/Rollback/Network/Protocol.cs:284 | the answer is the time-sync average of the two advantage windows |
| UdpEndpoints.UdpProtocol.QueueMessage | Hypermania/Assets/Scripts/Netcode/Rollback/Network/Protocol.cs:436-445 | the new state is the one Queued describes |
| UdpEndpoints.UdpProtocol.SendInputAck | Hypermania/Assets/Scripts/Netcode/Rollback/Network/Protocol.cs:397-401 | an InputAck of the last received frame is queued, as Queued describes |
| UdpEndpoints.UdpProtocol.SendKeepAlive | Hypermania/Assets/Scripts/Netcode/Rollback/Network/Protocol.cs:403-407 | a KeepAlive is queued, as Queued describes |
| UdpEndpoints.UdpProtocol.SendSyncRequest | Hypermania/Assets/Scripts/Netcode/Rollback/Network/Protocol.cs:409-417 | the new state is the one SyncRequested describes |
| UdpEndpoints.UdpProtocol.SendQualityReport | Hypermania/Assets/Scripts/Netcode/Rollback/Network/Protocol.cs:419-428 | the new state is the one QualityReported describes |
| UdpEndpoints.UdpProtocol.SendChecksumReport | Hypermania/Assets/Scripts/Netcode/Rollback/Network/Protocol.cs:430-434 | a ChecksumReport of the frame and checksum is queued, as Queued describes |
| UdpEndpoints.UdpProtocol.UpdateLocalFrameAdvantage | Hypermania/Assets/Scripts/Netcode/Rollback/Network/Protocol.cs:234-240 | the new state is the one AdvantageUpdated describes |
| UdpEndpoints.UdpProtocol.Disconnect | Hypermania/Assets/Scripts/Netcode/Rollback/Network/Protocol.cs:268-273 | the new state is the one AfterDisconnect describes |
| UdpEndpoints.UdpProtocol.Synchronize | Hypermania/Assets/Scripts/Netcode/Rollback/Network/Protocol.cs:275-282 | the new state and outcome are those AfterSynchronize describes |
| UdpEndpoints.UdpProtocol.PopPendingOutput | Hypermania/Assets/Scripts/Netcode/Rollback/Network/Protocol.cs:332-340 | the loop leaves the state Popped describes |
| UdpEndpoints.UdpProtocol.SendAllMessages | Hypermania/Assets/Scripts/Netcode/Rollback/Network/Protocol.cs:342-355 | the new state and the messages sent are those AllSent describes |
| UdpEndpoints.UdpProtocol.SendPendingOutput | Hypermania/Assets/Scripts/Netcode/Rollback/Network/Protocol.cs:373-395 | the new state and outcome are those PendingSent describes |
| UdpEndpoints.UdpProtocol.SendInput | Hypermania/Assets/Scripts/Netcode/Rollback/Network/Protocol.cs:357-371 | the new state and outcome are those InputSent describes |
| UdpEndpoints.UdpProtocol.SendHeartbeats | Hypermania/Assets/Scripts/Netcode/Rollback/Network/Protocol.cs:303-310 | the new state is the one Heartbeats describes |
| UdpEndpoints.UdpProtocol.NoticeInterrupt | Hypermania/Assets/Scripts/Netcode/Rollback/Network/Protocol.cs:312-317 | the new state is the one InterruptNoticed describes |
| UdpEndpoints.UdpProtocol.NoticeDisconnect | Hypermania/Assets/Scripts/Netcode/Rollback/Network/Protocol.cs:319-323 | the new state is the one DisconnectNoticed describes |
| UdpEndpoints.UdpProtocol.PollRunning | Hypermania/Assets/Scripts/Netcode/Rollback/Network/Protocol.cs:297-324 | the Running case leaves the state the pure running step describes |
| UdpEndpoints.UdpProtocol.DrainEvents | Hypermania/Assets/Scripts/Netcode/Rollback/Network/Protocol.cs:329 | the events handed out are the queued ones, oldest first, and the queue is left empty |
| UdpEndpoints.UdpProtocol.Poll | Hypermania/Assets/Scripts/Netcode/Rollback/Network/Protocol.cs:286-330 | the new state, outcome and events are those Polled describes |
| UdpEndpoints.UdpProtocol.OnSyncRequest | Hypermania/Assets/Scripts/Netcode/Rollback/Network/Protocol.cs:487-491 | a SyncReply echoing the request's nonce is queued, as Queued describes |
| UdpEndpoints.UdpProtocol.OnSyncReply | Hypermania/Assets/Scripts/Netcode/Rollback/Network/Protocol.cs:493-515 | the new state is the one the pure sync-reply step describes, whose meaning SyncReplyIgnored and SyncReplyAccepted state |
| UdpEndpoints.UdpProtocol.MergePeerStatus | Hypermania/Assets/Scripts/Netcode/Rollback/Network/Protocol.cs:531-536 | the status loop leaves the statuses and outcome Merged describes, and nothing else changes |
| UdpEndpoints.UdpProtocol.PushInputEvents | Hypermania/Assets/Scripts/Netcode/Rollback/Network/Protocol.cs:556-563 | the events queued are those InputEvents describes |
| UdpEndpoints.UdpProtocol.DeliverInputs | Hypermania/Assets/Scripts/Netcode/Rollback/Network/Protocol.cs:547-564 | the delivery loop leaves the state the pure delivery step describes, whose meaning DeliveredEvents states |
| UdpEndpoints.UdpProtocol.PruneReceived | Hypermania/Assets/Scripts/Netcode/Rollback/Network/Protocol.cs:568-575 | the new state is the one Pruned describes |
| UdpEndpoints.UdpProtocol.DecodeInputs | Hypermania/Assets/Scripts/Netcode/Rollback/Network/Protocol.cs:539-576 | the new state and outcome are those InputDecoded describes |
| UdpEndpoints.UdpProtocol.OnInput | Hypermania/Assets/Scripts/Netcode/Rollback/Network/Protocol.cs:517-577 | the new state and outcome are those of the pure Input handler |
| UdpEndpoints.UdpProtocol.NoteStatus | Hypermania/Assets/Scripts/Netcode/Rollback/Network/Protocol.cs:521-537 | the new state and outcome are those StatusNoted describes |
| UdpEndpoints.UdpProtocol.OnQualityReport | Hypermania/Assets/Scripts/Netcode/Rollback/Network/Protocol.cs:584-589 | the peer's advantage is recorded and a QualityReply echoing the ping is queued |
| UdpEndpoints.UdpProtocol.OnQualityReply | Hypermania/Assets/Scripts/Netcode/Rollback/Network/Protocol.cs:591-596 | a reply from the future fails its assertion and changes nothing; otherwise the round-trip time is the wall clock less the echoed ping |
| UdpEndpoints.UdpProtocol.OnChecksumReport | Hypermania/Assets/Scripts/Netcode/Rollback/Network/Protocol.cs:598-618 | the new state and outcome are those ChecksumReported describes |
| UdpEndpoints.UdpProtocol.HandleMessage | Hypermania/Assets/Scripts/Netcode/Rollback/Network/Protocol.cs:447-485 | the new state and outcome are those Handled describes |
| UdpEndpoints.UdpProtocol.NoteArrival | Hypermania/Assets/Scripts/Netcode/Rollback/Network/Protocol.cs:452-458 | the new state is the one Arrived describes |
| UdpEndpoints.UdpProtocol.Dispatch | Hypermania/Assets/Scripts/Netcode/Rollback/Network/Protocol.cs:461-484 | each kind of message goes to its handler, as the pure dispatch describes |
| P2PSessions.Lookup | Hypermania/Assets/Scripts/Netcode/Rollback/Sessions/P2PSession.cs:286-305 | a registered handle is a spectator's exactly when its id is not a player's, and a remote or spectator handle has an endpoint for its address |
| P2PSessions.PeersKeepWf | Hypermania/Assets/Scripts/Netcode/Rollback/Sessions/P2PSession.cs:251-282 | endpoints that keep their addresses and the size of their peer statuses keep the session well formed |
| P2PSessions.ConfirmedMinIsMin | Hypermania/Assets/Scripts/Netcode/Rollback/Sessions/P2PSession.cs:327-334 | the loop's result is the least of int.MaxValue and the last frames of the connected players, and is one of them |
| P2PSessions.ConfirmedFrameMeaning | Hypermania/Assets/Scripts/Netcode/Rollback/Sessions/P2PSession.cs:325-338 | the confirmed frame exists exactly when some connected player's last frame is below int.MaxValue, and is then the least last frame of a connected player; otherwise the assertion fails |
| P2PSessions.RawAdvantageIsMax | Hypermania/Assets/Scripts/Netcode/Rollback/Sessions/P2PSession.cs:484-494 | the loop's result is the greatest of int.MinValue and the advantages of the endpoints with a connected player, and is one of them |
| P2PSessions.MaxAdvantageMeaning | Hypermania/Assets/Scripts/Netcode/Rollback/Sessions/P2PSession.cs:482-497 | the advantage is 0 when no endpoint with a connected player is above int.MinValue, and otherwise the greatest advantage of such an endpoint |
| P2PSessions.InitialSyncChecked | Hypermania/Assets/Scripts/Netcode/Rollback/Sessions/P2PSession.cs:380-392 | only the state changes; the session runs exactly when it already ran or every remote and spectator endpoint is synchronized |
| P2PSessions.MarkedDisconnected | Hypermania/Assets/Scripts/Netcode/Rollback/Sessions/P2PSession.cs:367 | exactly the listed players, and those already disconnected, are marked disconnected, and every last frame stays |
| P2PSessions.RemoteDisconnected | Hypermania/Assets/Scripts/Netcode/Rollback/Sessions/P2PSession.cs:365-370 | the remote case keeps the session well formed and changes only what a disconnect may change |
| P2PSessions.SpectatorDisconnected | Hypermania/Assets/Scripts/Netcode/Rollback/Sessions/P2PSession.cs:371-374 | the spectator case keeps the session well formed and changes only what a disconnect may change |
| P2PSessions.DisconnectedAtFrame | Hypermania/Assets/Scripts/Netcode/Rollback/Sessions/P2PSession.cs:359-378 | a disconnect at a frame keeps the session well formed and changes only the statuses, endpoints, disconnect frame and session state |
| P2PSessions.PlayerDisconnected | Hypermania/Assets/Scripts/Netcode/Rollback/Sessions/P2PSession.cs:284-306 | disconnecting a player keeps the session well formed |
| P2PSessions.DisconnectPlayerMeaning | Hypermania/Assets/Scripts/Netcode/Rollback/Sessions/P2PSession.cs:284-306 | only a connected remote player is disconnected without error; its endpoint's players go with it, the endpoint stops running, and a rollback to the frame after its last one is scheduled when that is in the past; a spectator is disconnected yet the call fails; every other case fails with InvalidOperation and changes nothing |
| P2PSessions.Trimmed | Hypermania/Assets/Scripts/Netcode/Rollback/Sessions/P2PSession.cs:578 | the queue keeps its last MAX_EVENT_QUEUE_SIZE events, dropping the oldest |
| P2PSessions.AllDisconnected | Hypermania/Assets/Scripts/Netcode/Rollback/Sessions/P2PSession.cs:554-559 | each handle of the endpoint is disconnected at its last frame, or the null frame outside the players, keeping the session well formed |
| P2PSessions.InputNoted | Hypermania/Assets/Scripts/Netcode/Rollback/Sessions/P2PSession.cs:565-575 | the input case keeps the session well formed and leaves the event queue alone |
| P2PSessions.InputReceived | Hypermania/Assets/Scripts/Netcode/Rollback/Sessions/P2PSession.cs:565-578 | the input case and the trimming keep the session well formed |
| P2PSessions.EventHandled | Hypermania/Assets/Scripts/Netcode/Rollback/Sessions/P2PSession.cs:520-579 | handling an endpoint event keeps the session well formed |
| P2PSessions.EventHandledMeaning | Hypermania/Assets/Scripts/Netcode/Rollback/Sessions/P2PSession.cs:520-579 | every event but an input is queued as its session event, then the queue is trimmed to MAX_EVENT_QUEUE_SIZE, oldest first; an accepted input leaves no more queued than that |
| P2PSessions.InputMeaning | Hypermania/Assets/Scripts/Netcode/Rollback/Sessions/P2PSession.cs:565-575 | an input from outside the players fails the assertion and changes nothing; a disconnected player's input is dropped; a connected player's input must follow its last frame, then becomes its last frame and goes to its queue |
| P2PSessions.EventsHandled | Hypermania/Assets/Scripts/Netcode/Rollback/Sessions/P2PSession.cs:274-278 | handling the events in order keeps the session well formed |
| P2PSessions.EventsFailureSticks | Hypermania/Assets/Scripts/Netcode/Rollback/Sessions/P2PSession.cs:274-278 | once an event fails, the later ones are not handled |
| P2PSessions.Polled | Hypermania/Assets/Scripts/Netcode/Rollback/Sessions/P2PSession.cs:243-282 | polling the endpoints and handling what they report keeps the session well formed |
| P2PSessions.QueueViewMeaning | Hypermania/Assets/Scripts/Netcode/Rollback/Sessions/P2PSession.cs:453-462 | the loop gives whether every running endpoint reports the player connected, and the least last frame they report, int.MaxValue when none runs |
| P2PSessions.PlayerDisconnectChecked | Hypermania/Assets/Scripts/Netcode/Rollback/Sessions/P2PSession.cs:447-479 | one player's check keeps the session well formed and changes only what a disconnect may change |
| P2PSessions.PlayerDisconnectsUpdated | Hypermania/Assets/Scripts/Netcode/Rollback/Sessions/P2PSession.cs:445-480 | the whole loop keeps the session well formed and changes only what a disconnect may change |
| P2PSessions.PlayerDisconnectMeaning | Hypermania/Assets/Scripts/Netcode/Rollback/Sessions/P2PSession.cs:464-478 | a player every running endpoint reports connected is left alone; one the session sees connected but some running endpoint reports disconnected is disconnected at the least frame the running endpoints and the session confirm |
| P2PSessions.WaitChecked | Hypermania/Assets/Scripts/Netcode/Rollback/Sessions/P2PSession.cs:499-507 | only the frames ahead, the next recommendation frame and the event queue change |
| P2PSessions.WaitSpacing | Hypermania/Assets/Scripts/Netcode/Rollback/Sessions/P2PSession.cs:499-507 | a recommendation queues one WaitRecommendation of the frames ahead, and silences the next ones for RECOMMENDATION_INTERVAL frames |
| P2PSessions.Served | Hypermania/Assets/Scripts/Netcode/Rollback/Sessions/P2PSession.cs:425-442 | each visited frame's confirmed inputs are looked up and checked and go to every running spectator endpoint, whose SendInput assertion fails unless it expects one input per player; the loop changes only the next spectator frame |
| P2PSessions.SpectatorsServed | Hypermania/Assets/Scripts/Netcode/Rollback/Sessions/P2PSession.cs:422-443 | sending to spectators, with the SendInput assertion of each running spectator endpoint, changes only the next spectator frame, and nothing without spectators |
| P2PSessions.ServedMeaning | Hypermania/Assets/Scripts/Netcode/Rollback/Sessions/P2PSession.cs:425-442 | the loop succeeds exactly when every frame it visits has its confirmed inputs, so its assertions on them hold, and, when it visits a frame, every running spectator endpoint expects one input per player; it then moves the next spectator frame past the confirmed one unless it already was |
| P2PSessions.InputsSent | Hypermania/Assets/Scripts/Netcode/Rollback/Network/Protocol.cs:357-360 | SendInput to each endpoint in turn passes exactly when every running endpoint expects as many local inputs as are given, and otherwise fails its assertion |
| P2PSessions.LocalInputsSent | Hypermania/Assets/Scripts/Netcode/Rollback/Sessions/P2PSession.cs:212-219 | the remote sends fail exactly when no local input was dropped and some running remote endpoint expects another number of local inputs than the session holds, and then with the assertion |
| P2PSessions.ResimStep | Hypermania/Assets/Scripts/Netcode/Rollback/Sessions/P2PSession.cs:407-418 | one iteration collects the current inputs, saves when due, and advances one frame asking for an advance last; the save, when made, is of the current frame |
| P2PSessions.Resimulated | Hypermania/Assets/Scripts/Netcode/Rollback/Sessions/P2PSession.cs:407-418 | the loop keeps the sync layer well formed |
| P2PSessions.ResimFailureSticks | Hypermania/Assets/Scripts/Netcode/Rollback/Sessions/P2PSession.cs:407-418 | once an iteration fails, the later ones are skipped |
| P2PSessions.ResimulatedMeaning | Hypermania/Assets/Scripts/Netcode/Rollback/Sessions/P2PSession.cs:407-418 | resimulating count frames comes back count frames later, with count advances, the last request being one |
| P2PSessions.ResimulatedSavesAll | Hypermania/Assets/Scripts/Netcode/Rollback/Sessions/P2PSession.cs:414 | without sparse saving, requests alternate save and advance, a save before every advance but the first |
| P2PSessions.ResimulatedLastSave | Hypermania/Assets/Scripts/Netcode/Rollback/Sessions/P2PSession.cs:414 | without sparse saving, the last save is of the frame before the last one simulated |
| P2PSessions.ResimulatedSavesConfirmed | Hypermania/Assets/Scripts/Netcode/Rollback/Sessions/P2PSession.cs:410-413 | with sparse saving, the only save is of the least confirmed frame, when the resimulation passes it |
| P2PSessions.GameStateAdjusted | Hypermania/Assets/Scripts/Netcode/Rollback/Sessions/P2PSession.cs:394-420 | only the sync layer changes, and on success the session is back at the frame it started from |
| P2PSessions.AdjustMeaning | Hypermania/Assets/Scripts/Netcode/Rollback/Sessions/P2PSession.cs:394-420 | the adjustment succeeds exactly when the frame to load is not after the first incorrect one, loads, and every resimulated frame has its inputs; it then asks for the load first and comes back to the starting frame |
| P2PSessions.SavedOrAdjusted | Hypermania/Assets/Scripts/Netcode/Rollback/Sessions/P2PSession.cs:513-514 | saving the confirmed current frame, or rolling back from the last save, changes only the sync layer |
| P2PSessions.LastSavedChecked | Hypermania/Assets/Scripts/Netcode/Rollback/Sessions/P2PSession.cs:509-518 | the check changes only the sync layer |
| P2PSessions.LastSavedCheckHolds | Hypermania/Assets/Scripts/Netcode/Rollback/Sessions/P2PSession.cs:516 | in sparse mode, with the last save not after the confirmed frame, the closing assertion holds: the save is of the confirmed frame, or of the current one when that is earlier |
| P2PSessions.Corrected | Hypermania/Assets/Scripts/Netcode/Rollback/Sessions/P2PSession.cs:181-193 | the rollback part changes only the sync layer and the disconnect frame |
| P2PSessions.SaveDone | Hypermania/Assets/Scripts/Netcode/Rollback/Sessions/P2PSession.cs:190-192 | the closing save changes only the sync layer |
| P2PSessions.CorrectedMeaning | Hypermania/Assets/Scripts/Netcode/Rollback/Sessions/P2PSession.cs:181-193 | the rollback part comes back to the frame it started from; without sparse saving it ends by saving that frame |
| P2PSessions.SavedKeepsFrame | Hypermania/Assets/Scripts/Netcode/Rollback/Sessions/P2PSession.cs:509-518 | the check comes back to the frame it started from, with the confirmed frame unchanged |
| P2PSessions.Begun | Hypermania/Assets/Scripts/Netcode/Rollback/Sessions/P2PSession.cs:169-180 | the first part keeps the frame, asks for nothing in lockstep, and gives the confirmed frame of the statuses it leaves |
| P2PSessions.FirstSaved | Hypermania/Assets/Scripts/Netcode/Rollback/Sessions/P2PSession.cs:172-176 | the first frame is saved exactly when the session is at the first frame and not in lockstep |
| P2PSessions.Rolled | Hypermania/Assets/Scripts/Netcode/Rollback/Sessions/P2PSession.cs:181-198 | the middle of AdvanceFrame keeps the session well formed |
| P2PSessions.RolledMeaning | Hypermania/Assets/Scripts/Netcode/Rollback/Sessions/P2PSession.cs:181-198 | the middle keeps the frame and records the confirmed frame on the sync layer; in lockstep it asks for nothing, and otherwise without sparse saving it ends by saving the current frame |
| P2PSessions.OneLocalInput | Hypermania/Assets/Scripts/Netcode/Rollback/Sessions/P2PSession.cs:202-209 | one pass of the loop changes only the input queues of the sync layer |
| P2PSessions.LocalInputsAdded | Hypermania/Assets/Scripts/Netcode/Rollback/Sessions/P2PSession.cs:200-210 | the loop changes only the input queues of the sync layer |
| P2PSessions.LocalInputsFailureSticks | Hypermania/Assets/Scripts/Netcode/Rollback/Sessions/P2PSession.cs:200-210 | once a local input fails, the later handles are not reached |
| P2PSessions.LocalInputsCommitted | Hypermania/Assets/Scripts/Netcode/Rollback/Sessions/P2PSession.cs:200-219 | handing the local inputs to the sync layer changes only its input queues |
| P2PSessions.Stepped | Hypermania/Assets/Scripts/Netcode/Rollback/Sessions/P2PSession.cs:221-238 | the closing step keeps the session well formed |
| P2PSessions.SteppedMeaning | Hypermania/Assets/Scripts/Netcode/Rollback/Sessions/P2PSession.cs:221-238 | the advance happens exactly when the session may advance; it moves the frame by one, asks for that advance alone, clears the local inputs and stays within the prediction window |
| P2PSessions.Prepared | Hypermania/Assets/Scripts/Netcode/Rollback/Sessions/P2PSession.cs:169-210 | everything before the advance keeps the session well formed |
| P2PSessions.PreparedMeaning | Hypermania/Assets/Scripts/Netcode/Rollback/Sessions/P2PSession.cs:169-210 | until the advance the frame stays; in lockstep nothing is asked for, and otherwise without sparse saving the last request saves the current frame |
| P2PSessions.Committed | Hypermania/Assets/Scripts/Netcode/Rollback/Sessions/P2PSession.cs:169-240 | AdvanceFrame after its checks, including the SendInput assertion of every running remote endpoint, keeps the session well formed |
| P2PSessions.AdvancedFrame | Hypermania/Assets/Scripts/Netcode/Rollback/Sessions/P2PSession.cs:146-241 | AdvanceFrame, including the remote and spectator SendInput assertions, keeps the session well formed |
| P2PSessions.CommittedMeaning | Hypermania/Assets/Scripts/Netcode/Rollback/Sessions/P2PSession.cs:169-240 | a successful AdvanceFrame moves the frame by one or keeps it; when it moves, the local inputs are cleared, the last request is that advance, and the session stays within the prediction window of the confirmed frame |
| P2PSessions.CommitSendsChecked | Hypermania/Assets/Scripts/Netcode/Rollback/Sessions/P2PSession.cs:212-219 | after a passing preparation with no dropped input, AdvanceFrame fails its assertion, in the state the preparation left, exactly when a running remote endpoint expects another number of local inputs; a successful AdvanceFrame had no such endpoint |
| P2PSessions.AdvanceRefused | Hypermania/Assets/Scripts/Netcode/Rollback/Sessions/P2PSession.cs:148-161 | after polling, a session that is not running or lacks a local input is refused with InvalidOperation, and one that goes on was running with every local input |
| P2PSessions.DelaysSet | Hypermania/Assets/Scripts/Netcode/Rollback/Sessions/P2PSession.cs:107-113 | setting delays keeps one queue per player |
| P2PSessions.DelaysSetMeaning | Hypermania/Assets/Scripts/Netcode/Rollback/Sessions/P2PSession.cs:107-113 | exactly the queues of the listed handles get the input delay |
| P2PSessions.Started | Hypermania/Assets/Scripts/Netcode/Rollback/Sessions/P2PSession.cs:99-130 | the new session is well formed |
| P2PSessions.StartedMeaning | Hypermania/Assets/Scripts/Netcode/Rollback/Sessions/P2PSession.cs:99-130 | a new session starts at the first frame with nothing confirmed, saved or queued, every player connected, exactly the local players' queues delayed, running exactly when there is no endpoint, and sparse saving only outside lockstep |
| P2PSessions.LocalInputStored | Hypermania/Assets/Scripts/Netcode/Rollback/Sessions/P2PSession.cs:132-144 | only a local handle's input is taken, stamped with the current frame and replacing any earlier one; any other handle fails with InvalidOperation and changes nothing |
| P2PSessions.StoredInputsFit | Hypermania/Assets/Scripts/Netcode/Rollback/Sessions/P2PSession.cs:132-161 | once every local player has given an input in the current frame, the session has every local input and each is for the current frame |
| P2PSessionObjects.P2PSession.constructor | Hypermania/Assets/Scripts/Netcode/Rollback/Sessions/P2PSession.cs:99-130 | the session's configuration and state are those Started describes, with a fresh sync layer and status array |
| P2PSessionObjects.P2PSession.AddLocalInput | Hypermania/Assets/Scripts/Netcode/Rollback/Sessions/P2PSession.cs:132-144 | the outcome and new state are those LocalInputStored describes |
| P2PSessionObjects.P2PSession.DrainEvents | Hypermania/Assets/Scripts/Netcode/Rollback/Sessions/P2PSession.cs:347-350 | the events handed out are the queued ones, from the front, and the queue is left empty |
| P2PSessionObjects.P2PSession.ConfirmedFrame | Hypermania/Assets/Scripts/Netcode/Rollback/Sessions/P2PSession.cs:325-338 | the loop gives the pure ConfirmedFrameOf of the statuses |
| P2PSessionObjects.P2PSession.MaxFrameAdvantage | Hypermania/Assets/Scripts/Netcode/Rollback/Sessions/P2PSession.cs:482-497 | the loops give the pure MaxFrameAdvantage of the endpoints and statuses |
| P2PSessionObjects.P2PSession.CheckWaitRecommendation | Hypermania/Assets/Scripts/Netcode/Rollback/Sessions/P2PSession.cs:499-507 | the new state is the one WaitChecked describes |
| P2PSessionObjects.P2PSession.CheckInitialSync | Hypermania/Assets/Scripts/Netcode/Rollback/Sessions/P2PSession.cs:380-392 | the new state is the one InitialSyncChecked describes |
| P2PSessionObjects.P2PSession.DisconnectRemote | Hypermania/Assets/Scripts/Netcode/Rollback/Sessions/P2PSession.cs:365-370 | the new state is the one RemoteDisconnected describes |
| P2PSessionObjects.SendInputs | Hypermania/Assets/Scripts/Netcode/Rollback/Sessions/P2PSession.cs:214-218 | the loop gives the pure InputsSent |
| P2PSessionObjects.MarkDisconnected | Hypermania/Assets/Scripts/Netcode/Rollback/Sessions/P2PSession.cs:367 | the status array afterwards is MarkedDisconnected of the one before: every listed player disconnected, last frames kept |
| P2PSessionObjects.P2PSession.DisconnectSpectator | Hypermania/Assets/Scripts/Netcode/Rollback/Sessions/P2PSession.cs:371-374 | only the spectator's endpoint changes, disconnected |
| P2PSessionObjects.P2PSession.DisconnectPlayerAtFrame | Hypermania/Assets/Scripts/Netcode/Rollback/Sessions/P2PSession.cs:359-378 | the new state is the one DisconnectedAtFrame describes |
| P2PSessionObjects.P2PSession.DisconnectPlayer | Hypermania/Assets/Scripts/Netcode/Rollback/Sessions/P2PSession.cs:284-306 | the outcome and new state are those PlayerDisconnected describes |
| P2PSessionObjects.P2PSession.TrimEvents | Hypermania/Assets/Scripts/Netcode/Rollback/Sessions/P2PSession.cs:578 | the loop leaves the queue Trimmed describes |
| P2PSessionObjects.P2PSession.NoteInput | Hypermania/Assets/Scripts/Netcode/Rollback/Sessions/P2PSession.cs:565-575 | the outcome and new state are those InputNoted describes |
| P2PSessionObjects.P2PSession.DisconnectAll | Hypermania/Assets/Scripts/Netcode/Rollback/Sessions/P2PSession.cs:555-559 | the loop leaves the state AllDisconnected describes |
| P2PSessionObjects.P2PSession.HandleEvent | Hypermania/Assets/Scripts/Netcode/Rollback/Sessions/P2PSession.cs:520-579 | the outcome and new state are those EventHandled describes |
| P2PSessionObjects.P2PSession.PollRemoteClients | Hypermania/Assets/Scripts/Netcode/Rollback/Sessions/P2PSession.cs:243-282 | the outcome and new state are those the pure Polled describes |
| P2PSessionObjects.P2PSession.ResimulateStep | Hypermania/Assets/Scripts/Netcode/Rollback/Sessions/P2PSession.cs:408-417 | one iteration changes only the sync layer, as ResimStep describes |
| P2PSessionObjects.P2PSession.Resimulate | Hypermania/Assets/Scripts/Netcode/Rollback/Sessions/P2PSession.cs:407-418 | the loop changes only the sync layer, as Resimulated describes |
| P2PSessionObjects.P2PSession.AdjustGameState | Hypermania/Assets/Scripts/Netcode/Rollback/Sessions/P2PSession.cs:394-420 | the outcome, requests and new state are those GameStateAdjusted describes |
| P2PSessionObjects.P2PSession.SendConfirmedInputsToSpectators | Hypermania/Assets/Scripts/Netcode/Rollback/Sessions/P2PSession.cs:422-443 | the outcome and new state are those SpectatorsServed describes, the spectator SendInput assertions included |
| P2PSessionObjects.P2PSession.CheckLastSavedState | Hypermania/Assets/Scripts/Netcode/Rollback/Sessions/P2PSession.cs:509-518 | the outcome, requests and new state are those LastSavedChecked describes |
| P2PSessionObjects.P2PSession.Begin | Hypermania/Assets/Scripts/Netcode/Rollback/Sessions/P2PSession.cs:169-180 | the confirmed frame, requests and new state are those Begun describes |
| P2PSessionObjects.P2PSession.SaveAfterRollback | Hypermania/Assets/Scripts/Netcode/Rollback/Sessions/P2PSession.cs:190-192 | the outcome, requests and new state are those SaveDone describes |
| P2PSessionObjects.P2PSession.Correct | Hypermania/Assets/Scripts/Netcode/Rollback/Sessions/P2PSession.cs:181-193 | the outcome, requests and new state are those Corrected describes |
| P2PSessionObjects.P2PSession.Roll | Hypermania/Assets/Scripts/Netcode/Rollback/Sessions/P2PSession.cs:181-198 | the outcome, requests and new state are those Rolled describes |
| P2PSessionObjects.P2PSession.CommitLocalInput | Hypermania/Assets/Scripts/Netcode/Rollback/Sessions/P2PSession.cs:202-209 | the outcome and new state are those OneLocalInput describes |
| P2PSessionObjects.P2PSession.CommitLocalInputs | Hypermania/Assets/Scripts/Netcode/Rollback/Sessions/P2PSession.cs:200-210 | the outcome and new state are those LocalInputsCommitted describes |
| P2PSessionObjects.P2PSession.Step | Hypermania/Assets/Scripts/Netcode/Rollback/Sessions/P2PSession.cs:221-238 | the outcome, requests and new state are those Stepped describes |
| P2PSessionObjects.P2PSession.Prepare | Hypermania/Assets/Scripts/Netcode/Rollback/Sessions/P2PSession.cs:169-210 | the outcome, requests and new state are those Prepared describes |
| P2PSessionObjects.P2PSession.SendLocalInputs | Hypermania/Assets/Scripts/Netcode/Rollback/Sessions/P2PSession.cs:212-219 | the outcome is that of LocalInputsSent |
| P2PSessionObjects.P2PSession.Commit | Hypermania/Assets/Scripts/Netcode/Rollback/Sessions/P2PSession.cs:169-240 | the requests and new state are those Committed describes, the remote sends included |
| P2PSessionObjects.P2PSession.AdvanceFrame | Hypermania/Assets/Scripts/Netcode/Rollback/Sessions/P2PSession.cs:146-241 | the requests and new state are those AdvancedFrame describes |
| P2PSessionObjects.P2PSession.LocalInputsComplete | Hypermania/Assets/Scripts/Netcode/Rollback/Sessions/P2PSession.cs:155-161 | the check answers yes exactly when every local handle of the registry has an input |
| P2PSessionObjects.P2PSession.UpdatePlayerDisconnects | Hypermania/Assets/Scripts/Netcode/Rollback/Sessions/P2PSession.cs:445-480 | the loop leaves the state PlayerDisconnectsUpdated describes |
| P2PSessionObjects.P2PSession.QueueOf | Hypermania/Assets/Scripts/Netcode/Rollback/Sessions/P2PSession.cs:450-462 | the inner loop gives the pure QueueView of the endpoints for the player |
| P2PSessionObjects.SetDelays | Hypermania/Assets/Scripts/Netcode/Rollback/Sessions/P2PSession.cs:107-113 | exactly the local players' queues get the input delay, as DelaysSet describes |
| P2PSessionObjects.P2PSession.QueueEvent | Hypermania/Assets/Scripts/Netcode/Rollback/Sessions/P2PSession.cs:560-563 | the session event joins the back of the queue |
| Builders.Fresh | Hypermania/Assets/Scripts/Netcode/Rollback/Sessions/Builder.cs:16-26 | a fresh builder has the defaults: two players, a prediction window of 8, 60 fps, no input delay, a check distance of 2, dense saving, desync detection off, no local player, an empty registry and nothing started |
| Builders.FreshIsWf | Hypermania/Assets/Scripts/Netcode/Rollback/Sessions/Builder.cs:43-59 | a fresh builder is well formed |
| Builders.PlayerAdded | Hypermania/Assets/Scripts/Netcode/Rollback/Sessions/Builder.cs:61-91 | a player is added exactly when its handle is unused and its id fits its kind (below the player count for players, from it on for spectators), and appended to the registry; otherwise InvalidOperation and the registry is unchanged; a local player with an unused handle is counted even when its id is refused |
| Builders.PlayerAddedKeepsWf | Hypermania/Assets/Scripts/Netcode/Rollback/Sessions/Builder.cs:61-91 | adding a player keeps the builder well formed |
| Builders.NumPlayersSet | Hypermania/Assets/Scripts/Netcode/Rollback/Sessions/Builder.cs:105-113 | the player count is set exactly when it lies in 0 to 16, and otherwise InvalidOperation with nothing changed |
| Builders.MarkedStarted | Hypermania/Assets/Scripts/Netcode/Rollback/Sessions/Builder.cs:254-258 | the builder is marked started, and a second start fails with InvalidOperation |
| Builders.GroupedMeaning | Hypermania/Assets/Scripts/Netcode/Rollback/Sessions/Builder.cs:185-197 | the grouping of the registry gives each remote or spectator type one group, holding exactly its handles in registration order |
| Builders.JoinedMeaning | Hypermania/Assets/Scripts/Netcode/Rollback/Sessions/Builder.cs:188-196 | adding one non-local handle to the groups keeps them matching the registry with that handle appended |
| Builders.EndpointAdded | Hypermania/Assets/Scripts/Netcode/Rollback/Sessions/Builder.cs:201-209 | adding an endpoint leaves the handles alone, and an address already present fails with Argument and changes nothing |
| Builders.EndpointsAdded | Hypermania/Assets/Scripts/Netcode/Rollback/Sessions/Builder.cs:199-210 | the loop leaves the handles alone and either passes or fails with Argument |
| Builders.EndpointsStopAtError | Hypermania/Assets/Scripts/Netcode/Rollback/Sessions/Builder.cs:199-210 | once an address is refused, the later groups are not reached |
| Builders.EndpointsOf | Hypermania/Assets/Scripts/Netcode/Rollback/Sessions/Builder.cs:199-210 | the endpoints of a kind are no more than the groups |
| Builders.EndpointsOfSound | Hypermania/Assets/Scripts/Netcode/Rollback/Sessions/Builder.cs:199-210 | each endpoint listed under a kind is that of a group of the kind |
| Builders.EndpointsOfComplete | Hypermania/Assets/Scripts/Netcode/Rollback/Sessions/Builder.cs:199-210 | each group of a kind has its endpoint listed under the kind |
| Builders.EndpointsFromNone | Hypermania/Assets/Scripts/Netcode/Rollback/Sessions/Builder.cs:199-210 | from no endpoints, well-formed groups never clash: every group gets its endpoint, remotes and spectators apart |
| Builders.P2PStarted | Hypermania/Assets/Scripts/Netcode/Rollback/Sessions/Builder.cs:174-214 | a start with some player id unregistered fails with InvalidOperation; it succeeds exactly when every id is registered, the builder has not started and no address clashes (endpoints sorted by the intended sort, see Left out), and then hands the registry and player count to the session and marks the builder started |
| Builders.P2PStartedKeepsWf | Hypermania/Assets/Scripts/Netcode/Rollback/Sessions/Builder.cs:174-214 | starting keeps the builder well formed, and with every id registered a first start succeeds under the intended sort (see Left out) |
| Builders.EndpointsCounted | Hypermania/Assets/Scripts/Netcode/Rollback/Sessions/Builder.cs:200-210 | the endpoint loop builds remote endpoints expecting the builder's local count and spectator endpoints expecting one input per player |
| Builders.StartedEndpointCounts | Hypermania/Assets/Scripts/Netcode/Rollback/Sessions/Builder.cs:174-214 | every remote endpoint of a started session expects the builder's count of local players, refused local players included, and every spectator endpoint one input per player |
| Builders.SynctestStarted | Hypermania/Assets/Scripts/Netcode/Rollback/Sessions/Builder.cs:228-235 | the start succeeds exactly when the check distance is below the prediction window and nothing started, handing over players, window, distance and delay; otherwise InvalidOperation with nothing changed |
| Builders.AtMostOneSession | Hypermania/Assets/Scripts/Netcode/Rollback/Sessions/Builder.cs:254-258 | once started, a builder stays started and every later start fails |
| Builders.StaleHandleStarts | Hypermania/Assets/Scripts/Netcode/Rollback/Sessions/Builder.cs:71-113 | three players added, two remotes behind different addresses, then the count lowered to two: every endpoint holds one handle, so the as-written sort passes, and the started session has a remote endpoint holding a handle that is not a player's |
| Builders.CheckedP2PStarted | Hypermania/Assets/Scripts/Netcode/Rollback/Sessions/Builder.cs:174-214 | a start with a handle out of the bounds of the current count fails with InvalidOperation, and is otherwise the plain start |
| Builders.CheckedStartIsWf | Hypermania/Assets/Scripts/Netcode/Rollback/Sessions/Builder.cs:174-214 | the registry of a session the checked start creates is well formed for its player count |
| Builders.EndpointsPresent | Hypermania/Assets/Scripts/Netcode/Rollback/Sessions/Builder.cs:199-210 | every registered remote or spectator address has its endpoint |
| Builders.RemoteEndpointsWf | Hypermania/Assets/Scripts/Netcode/Rollback/Sessions/Builder.cs:199-210 | with every id in the bounds of its kind, remote endpoints hold only players' handles |
| Builders.SessionBuilder.constructor | Hypermania/Assets/Scripts/Netcode/Rollback/Sessions/Builder.cs:43-59 | the builder is the fresh one, with the given spectator buffer size |
| Builders.SessionBuilder.AddPlayer | Hypermania/Assets/Scripts/Netcode/Rollback/Sessions/Builder.cs:61-91 | the new state and outcome are those PlayerAdded describes |
| Builders.SessionBuilder.WithMaxPredictionWindow | Hypermania/Assets/Scripts/Netcode/Rollback/Sessions/Builder.cs:93-97 | only the prediction window changes |
| Builders.SessionBuilder.WithInputDelay | Hypermania/Assets/Scripts/Netcode/Rollback/Sessions/Builder.cs:99-103 | only the input delay changes |
| Builders.SessionBuilder.WithNumPlayers | Hypermania/Assets/Scripts/Netcode/Rollback/Sessions/Builder.cs:105-113 | the new state and outcome are those NumPlayersSet describes |
| Builders.SessionBuilder.WithSparseSavingMode | Hypermania/Assets/Scripts/Netcode/Rollback/Sessions/Builder.cs:115-119 | only the saving mode changes |
| Builders.SessionBuilder.WithDesyncDetection | Hypermania/Assets/Scripts/Netcode/Rollback/Sessions/Builder.cs:121-125 | only the desync detection changes |
| Builders.SessionBuilder.WithDisconnectTimeout | Hypermania/Assets/Scripts/Netcode/Rollback/Sessions/Builder.cs:127-131 | only the disconnect timeout changes |
| Builders.SessionBuilder.WithDisconnectNotifyDelay | Hypermania/Assets/Scripts/Netcode/Rollback/Sessions/Builder.cs:133-137 | only the notify delay changes |
| Builders.SessionBuilder.WithFps | Hypermania/Assets/Scripts/Netcode/Rollback/Sessions/Builder.cs:139-144 | a frame rate of 0 is refused with InvalidOperation and nothing changes; any other is set |
| Builders.SessionBuilder.WithCheckDistance | Hypermania/Assets/Scripts/Netcode/Rollback/Sessions/Builder.cs:146-150 | only the check distance changes |
| Builders.SessionBuilder.WithMaxFramesBehind | Hypermania/Assets/Scripts/Netcode/Rollback/Sessions/Builder.cs:152-161 | the value is set exactly when it is at least 1 and below the spectator buffer size, and otherwise InvalidOperation with nothing changed |
| Builders.SessionBuilder.WithCatchupSpeed | Hypermania/Assets/Scripts/Netcode/Rollback/Sessions/Builder.cs:163-172 | the value is set exactly when it is at least 1 and below the frames a spectator may lag, and otherwise InvalidOperation with nothing changed |
| Builders.SessionBuilder.CheckRegistered | Hypermania/Assets/Scripts/Netcode/Rollback/Sessions/Builder.cs:177-183 | the loop tells whether every player id is registered |
| Builders.SessionBuilder.GroupHandles | Hypermania/Assets/Scripts/Netcode/Rollback/Sessions/Builder.cs:185-197 | the loop gives the grouping Grouped describes, each group holding exactly its type's handles |
| Builders.SessionBuilder.AddEndpoints | Hypermania/Assets/Scripts/Netcode/Rollback/Sessions/Builder.cs:199-210 | the loop leaves the registry and outcome EndpointsAdded describes |
| Builders.SessionBuilder.MarkStarted | Hypermania/Assets/Scripts/Netcode/Rollback/Sessions/Builder.cs:254-258 | the new state and outcome are those MarkedStarted describes |
| Builders.SessionBuilder.StartP2PSession | Hypermania/Assets/Scripts/Netcode/Rollback/Sessions/Builder.cs:174-214 | the new state and result are those P2PStarted describes, with its sort (see Left out) |
| Builders.SessionBuilder.StartSynctestSession | Hypermania/Assets/Scripts/Netcode/Rollback/Sessions/Builder.cs:228-235 | the new state and result are those SynctestStarted describes |
| SyncTestSessions.Started | Hypermania/Assets/Scripts/Netcode/Rollback/Sessions/SyncTestSession.cs:21-34 | a new test session is at the first frame with nothing confirmed or saved, every queue carrying the input delay, every dummy status the default one, and no history or inputs |
| SyncTestSessions.AssignedMeaning | Hypermania/Assets/Scripts/Netcode/Rollback/Sessions/SyncTestSession.cs:41 | storing an input keeps the other entries and their order, gives the handle the new input, and adds an entry only for a handle not yet present |
| SyncTestSessions.LocalInputStored | Hypermania/Assets/Scripts/Netcode/Rollback/Sessions/SyncTestSession.cs:36-42 | a handle outside the players is refused with InvalidOperation and nothing changes; otherwise the input is stored for the handle, stamped with the current frame |
| SyncTestSessions.ChecksumCheckedMeaning | Hypermania/Assets/Scripts/Netcode/Rollback/Sessions/SyncTestSession.cs:90-111 | afterwards the history holds, besides the frame checked, only what it held within the check window; a frame seen first is recorded and consistent, a missing state is consistent, and a recorded frame is consistent exactly when its checksum matches |
| SyncTestSessions.ChecksumRecheck | Hypermania/Assets/Scripts/Netcode/Rollback/Sessions/SyncTestSession.cs:90-111 | a frame found consistent stays so when checked again at once |
| SyncTestSessions.RangeCheckedInRange | Hypermania/Assets/Scripts/Netcode/Rollback/Sessions/SyncTestSession.cs:53-57 | the mismatched frames reported lie in the range checked, in increasing order |
| SyncTestSessions.RangeCheckedSticks | Hypermania/Assets/Scripts/Netcode/Rollback/Sessions/SyncTestSession.cs:53-57 | once a state lookup fails, the later frames of the range are not checked |
| SyncTestSessions.Adjusted | Hypermania/Assets/Scripts/Netcode/Rollback/Sessions/SyncTestSession.cs:113-133 | the adjustment changes only the sync layer |
| SyncTestSessions.AdjustedMeaning | Hypermania/Assets/Scripts/Netcode/Rollback/Sessions/SyncTestSession.cs:113-133 | a successful adjustment asks for one load of the target frame and then one advance per frame, with a save before each but the first, and comes back to the frame it started from |
| SyncTestSessions.RolledBack | Hypermania/Assets/Scripts/Netcode/Rollback/Sessions/SyncTestSession.cs:48-63 | the check part keeps the local inputs and the dummy statuses |
| SyncTestSessions.RolledBackMeaning | Hypermania/Assets/Scripts/Netcode/Rollback/Sessions/SyncTestSession.cs:48-63 | the check part keeps the frame and the confirmed frame; without a check it asks for nothing, with one it asks to load the frame CheckDistance back and then for the advances over the window |
| SyncTestSessions.LocalInputsFed | Hypermania/Assets/Scripts/Netcode/Rollback/Sessions/SyncTestSession.cs:66 | feeding the inputs changes only the queues, keeping one per player |
| SyncTestSessions.LocalInputsFedSticks | Hypermania/Assets/Scripts/Netcode/Rollback/Sessions/SyncTestSession.cs:66 | once an input fails, the later entries are not reached |
| SyncTestSessions.CaughtUp | Hypermania/Assets/Scripts/Netcode/Rollback/Sessions/SyncTestSession.cs:81 | every dummy status takes the frame as its last frame, and nothing else of it changes |
| SyncTestSessions.Finished | Hypermania/Assets/Scripts/Netcode/Rollback/Sessions/SyncTestSession.cs:65-82 | the rest of AdvanceFrame keeps the session well formed |
| SyncTestSessions.TestAdvanced | Hypermania/Assets/Scripts/Netcode/Rollback/Sessions/SyncTestSession.cs:44-83 | AdvanceFrame keeps the session well formed |
| SyncTestSessions.EveryPlayerHasInput | Hypermania/Assets/Scripts/Netcode/Rollback/Sessions/SyncTestSession.cs:65 | as many distinct players' handles as players means every player has an input |
| SyncTestSessions.FinishedMeaning | Hypermania/Assets/Scripts/Netcode/Rollback/Sessions/SyncTestSession.cs:65-82 | the end of a call goes on only with an input from every player, moves the frame by one asking for that advance last, confirms the frame CheckDistance back, catches every dummy status up and clears the inputs |
| SyncTestSessions.AdvanceRefused | Hypermania/Assets/Scripts/Netcode/Rollback/Sessions/SyncTestSession.cs:59-65 | a call is refused when some player gave no input, and, when it checks, whenever a frame of the window is inconsistent |
| SyncTestSessions.AdvancedMeaning | Hypermania/Assets/Scripts/Netcode/Rollback/Sessions/SyncTestSession.cs:44-83 | a successful call asks, after any load and resimulation of the window, for the save of the frame when CheckDistance is positive and its advance last; it moves the frame by one and clears the inputs |
| SyncTestSessions.SyncTestSession.constructor | Hypermania/Assets/Scripts/Netcode/Rollback/Sessions/SyncTestSession.cs:21-34 | the session's configuration and state are those Started describes |
| SyncTestSessions.SyncTestSession.AddLocalInput | Hypermania/Assets/Scripts/Netcode/Rollback/Sessions/SyncTestSession.cs:36-42 | the outcome and new state are those LocalInputStored describes |
| SyncTestSessions.SyncTestSession.ChecksumsConsistent | Hypermania/Assets/Scripts/Netcode/Rollback/Sessions/SyncTestSession.cs:90-111 | only the history changes, and the answer and new history are those the pure checksum check describes |
| SyncTestSessions.SyncTestSession.CheckRange | Hypermania/Assets/Scripts/Netcode/Rollback/Sessions/SyncTestSession.cs:53-57 | only the history changes, and the mismatches and new history are those the pure range check describes |
| SyncTestSessions.SyncTestSession.ResimulateStep | Hypermania/Assets/Scripts/Netcode/Rollback/Sessions/SyncTestSession.cs:124-130 | one iteration changes only the sync layer, as ResimStep describes |
| SyncTestSessions.SyncTestSession.Resimulate | Hypermania/Assets/Scripts/Netcode/Rollback/Sessions/SyncTestSession.cs:122-131 | the loop changes only the sync layer, as Resimulated describes |
| SyncTestSessions.SyncTestSession.AdjustGameState | Hypermania/Assets/Scripts/Netcode/Rollback/Sessions/SyncTestSession.cs:113-133 | the outcome, requests and new state are those Adjusted describes |
| SyncTestSessions.SyncTestSession.RollBack | Hypermania/Assets/Scripts/Netcode/Rollback/Sessions/SyncTestSession.cs:48-63 | the outcome, requests and new state are those RolledBack describes |
| SyncTestSessions.SyncTestSession.FeedLocalInputs | Hypermania/Assets/Scripts/Netcode/Rollback/Sessions/SyncTestSession.cs:66 | the loop changes only the sync layer, as LocalInputsFed describes |
| SyncTestSessions.SyncTestSession.CatchUp | Hypermania/Assets/Scripts/Netcode/Rollback/Sessions/SyncTestSession.cs:81 | the loop leaves the statuses CaughtUp describes |
| SyncTestSessions.SyncTestSession.Step | Hypermania/Assets/Scripts/Netcode/Rollback/Sessions/SyncTestSession.cs:69-76 | the save when checking, the collected inputs and the advance, as the sync layer's functions describe |
| SyncTestSessions.SyncTestSession.Finish | Hypermania/Assets/Scripts/Netcode/Rollback/Sessions/SyncTestSession.cs:65-82 | the requests and new state are those Finished describes |
| SyncTestSessions.SyncTestSession.AdvanceFrame | Hypermania/Assets/Scripts/Netcode/Rollback/Sessions/SyncTestSession.cs:44-83 | the requests and new state are those TestAdvanced describes |
| MoveBuilderModels.TotalTicksOf | Hypermania/Assets/Scripts/Design/Animation/Editor/MoveBuilderModel.cs:40 | the tick count is the data's when it has at least one frame, and 1 without data or frames; never below 1 |
| MoveBuilderModels.CurrentFrameOf | Hypermania/Assets/Scripts/Design/Animation/Editor/MoveBuilderModel.cs:74-79 | there is a current frame exactly when data is bound and the tick is inside its frames, and it is the frame at the tick |
| MoveBuilderModels.WithBoxes | Hypermania/Assets/Scripts/Design/Animation/Editor/MoveBuilderModel.cs:173 | after the replacement the current frame holds exactly the given boxes |
| MoveBuilderModels.BoxSelectedMeaning | Hypermania/Assets/Scripts/Design/Animation/Editor/MoveBuilderModel.cs:81-93 | the selection is never past the last box, an index up to the last box is kept as given, any other becomes -1, and nothing else changes |
| MoveBuilderModels.TickSetMeaning | Hypermania/Assets/Scripts/Design/Animation/Editor/MoveBuilderModel.cs:65-72 | with data bound the tick lands in 0 to TotalTicks - 1, on the given tick when in range, and the selection stays or becomes -1; without data nothing changes |
| MoveBuilderModels.TickSetIdempotent | Hypermania/Assets/Scripts/Design/Animation/Editor/MoveBuilderModel.cs:65-72 | setting the same tick twice is setting it once |
| MoveBuilderModels.BoxAddedMeaning | Hypermania/Assets/Scripts/Design/Animation/Editor/MoveBuilderModel.cs:95-121 | with a current frame, exactly one new box of the kind is appended with the kind's defaults, other frames are kept and the new box is selected; without one nothing changes |
| MoveBuilderModels.DuplicatedMeaning | Hypermania/Assets/Scripts/Design/Animation/Editor/MoveBuilderModel.cs:123-140 | with a valid selection, a copy of the selected box renamed with "_Copy" is appended and selected, others kept; otherwise nothing changes |
| MoveBuilderModels.DeletedMeaning | Hypermania/Assets/Scripts/Design/Animation/Editor/MoveBuilderModel.cs:142-156 | with a valid selection, exactly the selected box is removed, the others keep their order, and nothing is selected; otherwise nothing changes |
| MoveBuilderModels.AddThenDelete | Hypermania/Assets/Scripts/Design/Animation/Editor/MoveBuilderModel.cs:95-156 | deleting the box just added gives back the frames as they were |
| MoveBuilderModels.DuplicateThenDelete | Hypermania/Assets/Scripts/Design/Animation/Editor/MoveBuilderModel.cs:123-156 | deleting the copy just made gives back the frames as they were |
| MoveBuilderModels.BoxReplacedMeaning | Hypermania/Assets/Scripts/Design/Animation/Editor/MoveBuilderModel.cs:158-215 | a single-box edit changes at most the indexed box of the current frame; an index out of range, or an edited box Equals to the current one within the vector tolerance, leaves the editor as it is; otherwise the edited box is stored; either way the box ends Equals to the edited one, and the selection never moves |
| MoveBuilderModels.BoxSetMeaning | Hypermania/Assets/Scripts/Design/Animation/Editor/MoveBuilderModel.cs:198-215 | after SetBox the indexed box Equals the given one: it is the given one unless the current box already Equals it, in which case nothing changes; setting it again changes nothing |
| MoveBuilderModels.KnockbackEditedMeaning | Hypermania/Assets/Scripts/Design/Animation/Editor/MoveBuilderModel.cs:158-176 | a knockback within the vector tolerance of the current one leaves the editor as it is; any other is stored with the box's other fields kept; either way the box's knockback ends within the tolerance of the new one |
| MoveBuilderModels.CenterMovedMeaning | Hypermania/Assets/Scripts/Design/Animation/Editor/MoveBuilderModel.cs:178-196 | a centre within the vector tolerance of the current one leaves the editor as it is; any other centres the box there with its other fields kept |
| MoveBuilderModels.NearKnockbackIgnored | Hypermania/Assets/Scripts/Design/Animation/Editor/MoveBuilderModel.cs:166-168 | a knockback a millionth off the current one is a different value, yet the edit leaves the editor as it is |
| MoveBuilderModels.PreviousCopiedMeaning | Hypermania/Assets/Scripts/Design/Animation/Editor/MoveBuilderModel.cs:217-254 | the current boxes become copies of the previous frame's, other frames are kept, a selection still in range is kept and one past the end moves to the last box or -1; copying twice is copying once; on the first tick or without data nothing changes |
| MoveBuilderModels.TimelineResetMeaning | Hypermania/Assets/Scripts/Design/Animation/Editor/MoveBuilderModel.cs:331-335 | the editor goes to the first tick with nothing selected, and keeps its data |
| MoveBuilderModels.MoveBuilderModel.constructor | Hypermania/Assets/Scripts/Design/Animation/Editor/MoveBuilderModel.cs:13-16 | a new model is at tick 0 with no box selected |
| MoveBuilderModels.MoveBuilderModel.TotalTicks | Hypermania/Assets/Scripts/Design/Animation/Editor/MoveBuilderModel.cs:40 | the tick count is TotalTicksOf of the editor state |
| MoveBuilderModels.MoveBuilderModel.GetCurrentFrame | Hypermania/Assets/Scripts/Design/Animation/Editor/MoveBuilderModel.cs:74-79 | the frame is CurrentFrameOf of the editor state |
| MoveBuilderModels.MoveBuilderModel.StoreBoxes | Hypermania/Assets/Scripts/Design/Animation/Editor/MoveBuilderModel.cs:173 | the data's current frame holds the given boxes, as WithBoxes describes |
| MoveBuilderModels.MoveBuilderModel.SelectBox | Hypermania/Assets/Scripts/Design/Animation/Editor/MoveBuilderModel.cs:81-93 | the new state is the one BoxSelectedMeaning describes |
| MoveBuilderModels.MoveBuilderModel.SetTick | Hypermania/Assets/Scripts/Design/Animation/Editor/MoveBuilderModel.cs:65-72 | the new state is the one TickSetMeaning describes |
| MoveBuilderModels.MoveBuilderModel.AddBox | Hypermania/Assets/Scripts/Design/Animation/Editor/MoveBuilderModel.cs:95-121 | the new state is the one BoxAddedMeaning describes |
| MoveBuilderModels.MoveBuilderModel.DuplicateSelected | Hypermania/Assets/Scripts/Design/Animation/Editor/MoveBuilderModel.cs:123-140 | the new state is the one DuplicatedMeaning describes |
| MoveBuilderModels.MoveBuilderModel.DeleteSelected | Hypermania/Assets/Scripts/Design/Animation/Editor/MoveBuilderModel.cs:142-156 | the new state is the one DeletedMeaning describes |
| MoveBuilderModels.MoveBuilderModel.EditBoxKnockback | Hypermania/Assets/Scripts/Design/Animation/Editor/MoveBuilderModel.cs:158-176 | the new state is the one KnockbackEditedMeaning describes |
| MoveBuilderModels.MoveBuilderModel.MoveBoxCenter | Hypermania/Assets/Scripts/Design/Animation/Editor/MoveBuilderModel.cs:178-196 | the new state is the one CenterMovedMeaning describes |
| MoveBuilderModels.MoveBuilderModel.SetBox | Hypermania/Assets/Scripts/Design/Animation/Editor/MoveBuilderModel.cs:198-215 | the new state is the one BoxSetMeaning describes |
| MoveBuilderModels.MoveBuilderModel.SetBoxesFromPreviousFrame | Hypermania/Assets/Scripts/Design/Animation/Editor/MoveBuilderModel.cs:217-254 | the copy loop leaves the state PreviousCopiedMeaning describes |
| MoveBuilderModels.MoveBuilderModel.ResetTimelineSelection | Hypermania/Assets/Scripts/Design/Animation/Editor/MoveBuilderModel.cs:331-335 | the new state is the one TimelineResetMeaning describes |
| Matchmaking.Split | Hypermania/Assets/Scripts/Netcode/P2P/MatchmakingClient.cs:253 | the split gives at least one piece and no piece holds the separator |
| Matchmaking.SplitPrefix | Hypermania/Assets/Scripts/Netcode/P2P/MatchmakingClient.cs:253 | a piece without separators in front of a separator is split off whole |
| Matchmaking.SplitJoin | Hypermania/Assets/Scripts/Netcode/P2P/MatchmakingClient.cs:240-253 | joining pieces without separators and splitting the result gives the pieces back |
| Matchmaking.JoinSplit | Hypermania/Assets/Scripts/Netcode/P2P/MatchmakingClient.cs:240-253 | splitting a text and joining the pieces back gives the text |
| Matchmaking.ParseDecimal | Hypermania/Assets/Scripts/Netcode/P2P/MatchmakingClient.cs:240-260 | every id the host writes in decimal parses back as itself |
| Matchmaking.EmptyDoesNotParse | Hypermania/Assets/Scripts/Netcode/P2P/MatchmakingClient.cs:258-273 | an empty piece fails to parse |
| Matchmaking.IdsParsed | Hypermania/Assets/Scripts/Netcode/P2P/MatchmakingClient.cs:256-274 | the ids kept are no more than the pieces |
| Matchmaking.TryParseStartMessage | Hypermania/Assets/Scripts/Netcode/P2P/MatchmakingClient.cs:249-282 | the answer is true exactly when the first piece is START_MSG; then the list gains, in order, the id of each later piece that parses, and otherwise it is unchanged |
| Matchmaking.ValidIds | Hypermania/Assets/Scripts/Netcode/P2P/MatchmakingClient.cs:230-237 | the ids kept are exactly those of the valid members |
| Matchmaking.SortedIdsMeaning | Hypermania/Assets/Scripts/Netcode/P2P/MatchmakingClient.cs:238 | the sort gives the ids in ascending order, each as often as given |
| Matchmaking.Decimals | Hypermania/Assets/Scripts/Netcode/P2P/MatchmakingClient.cs:240 | each id is written in decimal, in order |
| Matchmaking.SendLobbyStartMessage | Hypermania/Assets/Scripts/Netcode/P2P/MatchmakingClient.cs:224-240 | the loop builds the message StartMessage describes: nothing for an empty lobby, else START_MSG and the sorted valid ids joined by the separator |
| Matchmaking.StartMessageRoundTrip | Hypermania/Assets/Scripts/Netcode/P2P/MatchmakingClient.cs:224-282 | a client parsing the host's message finds a start message and gets exactly the valid members' ids, in ascending order |
| Matchmaking.MessageParses | Hypermania/Assets/Scripts/Netcode/P2P/MatchmakingClient.cs:240-275 | START_MSG, the separator and the ids joined parse back as the ids |
| Matchmaking.IdsOfDecimals | Hypermania/Assets/Scripts/Netcode/P2P/MatchmakingClient.cs:256-274 | ids written in decimal all parse back, in order |
| Matchmaking.NotAStartMessage | Hypermania/Assets/Scripts/Netcode/P2P/MatchmakingClient.cs:253-254 | only a first piece equal to START_MSG starts a game: an empty first piece gives no players even when a whole start message follows |
| ViewEventManagers.EventEqualsIsIdentity | Hypermania/Assets/Scripts/Game/View/Events/ViewEventManager.cs:25-28 | two view events are equal exactly when frame, hash and event agree |
| ViewEventManagers.ConsumedMeaning | Hypermania/Assets/Scripts/Game/View/Events/ViewEventManager.cs:52-83 | every desired event ends active, keeping its effect when it survived; an event ends exactly when finished or unwanted inside the window; unfinished ones outside the window survive; nothing neither active nor wanted becomes active |
| ViewEventManagers.ConsumedQuiet | Hypermania/Assets/Scripts/Game/View/Events/ViewEventManager.cs:52-83 | with nothing wanted and nothing playing finished or inside the window, the call changes nothing |
| ViewEventManagers.ViewEventManager.constructor | Hypermania/Assets/Scripts/Game/View/Events/ViewEventManager.cs:41-45 | a new manager has no active effect and no desired event |
| ViewEventManagers.ViewEventManager.AddDesired | Hypermania/Assets/Scripts/Game/View/Events/ViewEventManager.cs:47-50 | the event joins the desired set, and the active effects are untouched |
| ViewEventManagers.ViewEventManager.Collect | Hypermania/Assets/Scripts/Game/View/Events/ViewEventManager.cs:54-65 | the events listed are exactly those Invalidated describes: unwanted and inside the window, or with a finished effect |
| ViewEventManagers.ViewEventManager.RemoveAll | Hypermania/Assets/Scripts/Game/View/Events/ViewEventManager.cs:66-72 | each listed event is removed from the active ones and its effect ended, once each, in order |
| ViewEventManagers.ViewEventManager.StartDesired | Hypermania/Assets/Scripts/Game/View/Events/ViewEventManager.cs:74-82 | each desired event not active is started once, the others keep their effects, and the desired set is cleared |
| ViewEventManagers.ViewEventManager.InvalidateAndConsume | Hypermania/Assets/Scripts/Game/View/Events/ViewEventManager.cs:52-83 | the new active effects are those Consumed describes; each ended effect belongs to an invalidated event, once each; each started event is a desired one that was not active or was invalidated |

## Left out

- Failed Unity `Assert` calls in release player builds are not modelled. Without `UNITY_ASSERTIONS` every `Assert` is compiled out and the code goes on past a failed check, for example `InputQueue.Input` with a recorded incorrect frame or `SyncLayer.GetCell` on the null frame; the model stops there with AssertionFailed.
- TimeSyncs.TimeSync.AdvanceFrame: a non-null frame whose C# remainder by 30 is negative makes the source write outside its `unsafe fixed` buffers with no bounds check, corrupting memory. The model stands this in with an IndexOutOfRange failure that writes nothing. `UdpProtocols.InputSent` and `UdpEndpoints.UdpProtocol.SendInput` inherit this stand-in.
- UdpEndpoints.UdpProtocol.constructor: the handles are sorted with the intended `Protocols.SortedHandles`. As written, `Array.Sort` throws InvalidOperation for an endpoint with two or more handles (see Findings), and the model does not promise that throw.
- Builders.P2PStarted: builds each endpoint with the intended sort, so its "succeeds exactly when" leaves out the InvalidOperation the source throws when one address holds two or more handles.
- Builders.P2PStartedKeepsWf: "with every id registered a first start succeeds" holds for the intended sort; as written a start with two or more handles behind one address throws InvalidOperation.
- Builders.SessionBuilder.StartP2PSession: is proved equal to `P2PStarted`, so it has the same gap for two or more handles behind one address.
- HitboxDatas.Near: the tolerance of the vector `==` is the exact real 1e-10 on exact real coordinates. The source compares the float squared distance with the float nearest 1e-10, so values at the very edge of the tolerance may compare differently.
- Frames.Plus: does not model 32-bit wrap-around of frame numbers. Every frame counter is unbounded, because a wrap needs 2^31 ticks. The 4-byte codec does write the number modulo 2^32, and its round trip is proved for the 32-bit range.
- Integer widths elsewhere are also unbounded. This covers the `int` casts in the sessions, the 32-bit sums in `TimeSync`, and the `ulong` conversion of the disconnect timeout.
- TimeSyncs.TimeSync.AverageFrameAdvantage: does not model the float arithmetic. The two float averages and their half difference are written as exact integer arithmetic, truncated toward zero, which approximates the `(int)` cast of the float result.
- `Mathsf.NextPowerOfTwo` and `Mathsf.Abs` are not part of this model. The first is taken to give the smallest power of two at or above its argument, the second the absolute value.
- `SpectatorConstants` and `SpectatorSession.cs` are not part of this model. `SPECTATOR_BUFFER_SIZE` is a parameter of the builder.
- ManiaStates.ManiaState.Tick: requires at most six channels. With more, the source's lookup of the channel's key throws an index exception, which the model does not represent.
- InputQueues: the branch of `DiscardConfirmedFrames` that sets the tail to the head is modelled as written.
- SyncLayers: a save lands in a copy of the ring's cell, as the source has it (see Findings).
- Each input queue is held by value inside the sync layer. The sync layer is the only owner of its queues, so no aliasing is lost. The same holds for the deques inside the pool, the rhythm channels and the protocol.
- The sessions see their endpoints through `Peer` values. A value holds the address, the handles, the number of local players the endpoint expects, the protocol state, the peer's connection statuses and the average frame advantage. The endpoint itself is modelled separately in `UdpEndpoints`. What a poll of the endpoints returns is a parameter of `PollRemoteClients`.
- P2PSessions.Committed: of the remote `SendInput` and `SendAllMessages`, only the assertion that the endpoint expects as many inputs as the session holds is represented. What the endpoint then queues and sends is outside its view, and so are the further assertions `SendInput` can fail on that hidden state (the common frame of the packed inputs, the frame after the last acknowledged one, and the checks of `Compression.Encode`). P2PSessions.AdvancedFrame and P2PSessionObjects.P2PSession.Commit and AdvanceFrame inherit this.
- P2PSessions.Served: the spectator `SendInput` is represented the same way, by its count assertion alone. P2PSessions.SpectatorsServed and P2PSessionObjects.P2PSession.SendConfirmedInputsToSpectators inherit this.
- P2PSessions.Polled: the closing `SendAllMessages` of every endpoint is not represented. It only empties the endpoints' send queues, which the views do not hold.
- The session constructor requires the registry to be well formed. The builder as written can break this; see Findings.
- `NetworkStats` of the session is not modelled. It is a diagnostic that delegates to the endpoint's `NetworkStats`, which is modelled.
- Desync detection is not modelled. `CompareLocalChecksumsAgainstPeers`, `CheckChecksumSendInterval` and the checksum messages they exchange are left out, so the session behaves as if desync detection were off.
- `NumPlayers` and `NumSpectators` on the session, and `DrainEvents`' enumeration, are plain delegations to modelled members.
- Enumeration order of `Dictionary` and `HashSet` is taken as insertion order for the registry and the endpoint grouping. The view-event manager's enumeration order is left open, with an arbitrary choice (`:|`).
- The socket, `Debug.Log`, `Instant.Now`, `MillisSinceEpoch` and `System.Random` are not modelled as services. Times and random draws are parameters, and sends are returned as sequences of (address, message).
- Within one method call the clock is read once, as a single `now`.
- The `ulong?` checksum history of the sync-test session is held as natural numbers in a map.
- Matchmaking: the Steam lobby calls, the `async` tasks, `Debug.Log`, UTF-8 conversion and the send itself are left out. `ulong.Parse` is modelled with the integer number style: white space around the number, an optional sign, then decimal digits. Culture-specific signs and white space are not modelled.
- MoveBuilderModels: `Undo`, `MarkDirty` and `SaveAsset` belong to the editor and are left out. So are `HasUnsavedChanges`, `BindDataToClipLength`, the copy and paste of boxes and frames, and `CurrentTimeSeconds`. Box coordinates and knockback are held as reals where the source has floats.
- ViewEventManagers: `OnStartEffect` and `EffectIsFinished` are function parameters. `OnEndEffect` is modelled by the sequence of effects a call returns.
- Floating-point physics, audio timing, cameras, views, editor windows, input devices, the game runners and `GameState.cs` are outside the core and are not modelled.

## Findings

| source | as written | input that shows it | evidently intended | confidence | as-written member | corrected member |
|---|---|---|---|---|---|---|
| Hypermania/Assets/Scripts/Netcode/Rollback/Network/Protocol.cs:192 | `Array.Sort` on the endpoint's handles. `PlayerHandle` implements neither `IComparable` nor `IComparable<PlayerHandle>`, so the default comparer throws for two or more handles | an endpoint for handles 1 and 0 behind one address | handles ordered by id | not executed | Protocols.SortAsWritten / Protocols.TwoHandlesCannotBeSorted | Protocols.SortedHandles / Protocols.SortedHandlesExtends |
| Hypermania/Assets/Scripts/Netcode/Rollback/SyncLayer.cs:49-54, 87-95 | `GetCell` returns the `GameStateCell` struct by value, so the game's `Save` writes into a copy and the ring keeps its empty cells | any save followed by a load of that frame: the load fails | the save reaches the ring's cell, so a saved frame loads again within the prediction window | not executed | SyncLayers.LoadOfUntouchedFails | SyncLayers.RingSaved / SyncLayers.SavedFrameLoads |
| Hypermania/Assets/Scripts/Netcode/Rollback/Sessions/Builder.cs:71-113, 174-214 | ids are checked against the player count when a player is added, and lowering the count afterwards never rechecks them | count 3; local 0 and remote 1 at address a, remote 2 at address b; count 2; start: each endpoint holds one handle, so the sort passes, and the endpoint for b holds handle 2 of a 2-player session | every handle fits the session's player count when the session starts | not executed | Builders.StaleHandleStarts | Builders.CheckedP2PStarted / Builders.CheckedStartIsWf |

The endpoints use the corrected sort. The sync layer and the sessions keep
the cell copy exactly as written, so that the rollback schedule is the
source's own. The session object requires the well-formed registry that the
checked start guarantees.
