/** `Netcode.Rollback.Network.InputBytes`: the packing of one endpoint's
  * player inputs for one frame into a single byte array, and back, plus the
  * sorting of the handles these inputs belong to. */
module Protocols {
  import opened Bytes
  import opened Frames
  import opened Outcomes
  import opened Rollback
  import opened Messages
  import opened Compressions
  import opened TimeSyncs
  import opened ModArith

  // ----- TInput serialization -----

  /** What the code uses of `TInput`: `Serializer<TInput>.DefaultSize()`,
    * `Serialize` (the bytes it writes) and `Deserialize`. */
  datatype InputCodec<!I> = InputCodec(Size: nat, Ser: I -> seq<byte>, De: seq<byte> -> I)

  /** Every input serializes to exactly `DefaultSize` bytes. */
  ghost predicate FixedSize<I(!new)>(c: InputCodec<I>)
  {
    forall x :: |c.Ser(x)| == c.Size
  }

  /** ... and those bytes deserialize to the input again. */
  ghost predicate Lawful<I(!new)>(c: InputCodec<I>)
  {
    FixedSize(c) && forall x :: c.De(c.Ser(x)) == x
  }

  // ----- InputBytes -----

  /** `InputBytes`: the inputs of one endpoint's players for one frame. */
  datatype InputBytes = InputBytes(Frame: Frame, Bytes: seq<byte>)

  /** `InputBytes.Zeroed`: the null frame and `DefaultSize * numPlayers` zero bytes. */
  function Zeroed<I>(c: InputCodec<I>, numPlayers: nat): InputBytes
  {
    InputBytes(NULL_FRAME, seq(c.Size * numPlayers, _ => 0))
  }

  /** The frame `FromInputs` settles on: the last non-null input frame. */
  function PackedFrame<I>(inputs: seq<PlayerInput<I>>): Frame
  {
    if inputs == [] then NULL_FRAME
    else if inputs[|inputs| - 1].Frame != NULL_FRAME then inputs[|inputs| - 1].Frame
    else PackedFrame(inputs[..|inputs| - 1])
  }

  /** The condition `FromInputs` asserts input by input: all non-null frames
    * are the same frame. */
  predicate FramesAgree<I>(inputs: seq<PlayerInput<I>>)
  {
    forall i, j ::
      (0 <= i < |inputs| && 0 <= j < |inputs| && inputs[i].Frame != NULL_FRAME && inputs[j].Frame != NULL_FRAME) ==>
      inputs[i].Frame == inputs[j].Frame
  }

  /** The serialized inputs side by side. */
  function Concatenated<I>(c: InputCodec<I>, inputs: seq<PlayerInput<I>>): seq<byte>
  {
    if inputs == [] then [] else Concatenated(c, inputs[..|inputs| - 1]) + c.Ser(inputs[|inputs| - 1].Input)
  }

  /** `InputBytes.FromInputs`, with `inputs` the dictionary's values in its
    * enumeration order: the frame assertion fails as soon as two non-null
    * frames differ. */
  function PackedInputs<I>(c: InputCodec<I>, inputs: seq<PlayerInput<I>>): Result<InputBytes>
  {
    if FramesAgree(inputs) then Ok(InputBytes(PackedFrame(inputs), Concatenated(c, inputs)))
    else Err(AssertionFailed)
  }

  /** Slice `p` of `size` bytes. */
  function Slice(bs: seq<byte>, size: nat, p: nat): seq<byte>
    requires (p + 1) * size <= |bs|
  {
    bs[p * size .. (p + 1) * size]
  }

  /** The players' inputs of one packet, slice by slice. */
  function Slices<I>(c: InputCodec<I>, ib: InputBytes, numPlayers: nat): (r: seq<PlayerInput<I>>)
    requires numPlayers > 0 && |ib.Bytes| % numPlayers == 0
    ensures |r| == numPlayers && forall p :: 0 <= p < numPlayers ==> r[p].Frame == ib.Frame
  {
    var size := |ib.Bytes| / numPlayers;
    seq(numPlayers, p requires 0 <= p < numPlayers =>
      ChunkBounds(|ib.Bytes|, numPlayers, p, size);
      PlayerInput(ib.Frame, c.De(Slice(ib.Bytes, size, p))))
  }

  /** `InputBytes.ToInputs`: `numPlayers` equal slices, each deserialized and
    * stamped with the packet's frame; the count must be non-zero and divide
    * the byte length. */
  function UnpackedInputs<I>(c: InputCodec<I>, ib: InputBytes, numPlayers: nat): (r: Result<seq<PlayerInput<I>>>)
    ensures r.Err? <==> numPlayers == 0 || |ib.Bytes| % numPlayers != 0
    ensures r.Err? ==> r == Err(AssertionFailed)
    ensures r.Ok? ==> |r.value| == numPlayers && forall p :: 0 <= p < numPlayers ==> r.value[p].Frame == ib.Frame
  {
    if numPlayers == 0 || |ib.Bytes| % numPlayers != 0 then Err(AssertionFailed)
    else Ok(Slices(c, ib, numPlayers))
  }

  lemma {:induction false} ChunkBounds(n: nat, parts: nat, p: nat, size: nat)
    requires parts > 0 && n % parts == 0 && p < parts && size == n / parts
    ensures (p + 1) * size <= n
  {
    assert n == parts * size;
    MulMono(p + 1, parts, size);
  }

  /** The frame is the last non-null one; when the frames agree it is every
    * non-null frame, and it is null only when all frames are. */
  lemma {:induction false} PackedFrameIs<I>(inputs: seq<PlayerInput<I>>)
    ensures PackedFrame(inputs) == NULL_FRAME <==> forall i :: 0 <= i < |inputs| ==> inputs[i].Frame == NULL_FRAME
    ensures PackedFrame(inputs) != NULL_FRAME ==> exists i :: 0 <= i < |inputs| && inputs[i].Frame == PackedFrame(inputs)
    ensures FramesAgree(inputs) ==> forall i :: 0 <= i < |inputs| && inputs[i].Frame != NULL_FRAME ==> inputs[i].Frame == PackedFrame(inputs)
    decreases |inputs|
  {
    if inputs != [] {
      var init := inputs[..|inputs| - 1];
      PackedFrameIs(init);
      assert forall i :: 0 <= i < |init| ==> init[i] == inputs[i];
      if inputs[|inputs| - 1].Frame == NULL_FRAME {
        if PackedFrame(inputs) != NULL_FRAME {
          var i :| 0 <= i < |init| && init[i].Frame == PackedFrame(init);
          assert inputs[i].Frame == PackedFrame(inputs);
        }
      }
    }
  }

  /** The step the loop takes: one more input keeps the frames agreeing
    * exactly when it passes the assertion against the frame so far. */
  lemma {:induction false} FramesAgreeStep<I>(inputs: seq<PlayerInput<I>>, k: nat)
    requires k < |inputs| && FramesAgree(inputs[..k])
    ensures var f := PackedFrame(inputs[..k]); var g := inputs[k].Frame;
      FramesAgree(inputs[..k + 1]) <==> (f == NULL_FRAME || g == NULL_FRAME || f == g)
  {
    var init := inputs[..k];
    var next := inputs[..k + 1];
    assert next[..k] == init;
    PackedFrameIs(init);
    var f := PackedFrame(init);
    var g := inputs[k].Frame;
    if f != NULL_FRAME && g != NULL_FRAME && f != g {
      var i :| 0 <= i < |init| && init[i].Frame == f;
      assert next[i].Frame == f && next[k].Frame == g;
    }
  }

  /** The concatenation is `DefaultSize` bytes per input. */
  lemma {:induction false} ConcatenatedLength<I(!new)>(c: InputCodec<I>, inputs: seq<PlayerInput<I>>)
    requires FixedSize(c)
    ensures |Concatenated(c, inputs)| == c.Size * |inputs|
    decreases |inputs|
  {
    if inputs != [] {
      ConcatenatedLength(c, inputs[..|inputs| - 1]);
      assert c.Size * |inputs| == c.Size * (|inputs| - 1) + c.Size;
    }
  }

  /** Slot `p` of the concatenation holds input `p`'s bytes. */
  lemma {:induction false} ConcatenatedSlot<I(!new)>(c: InputCodec<I>, inputs: seq<PlayerInput<I>>, p: nat)
    requires FixedSize(c) && p < |inputs|
    ensures |Concatenated(c, inputs)| == c.Size * |inputs|
    ensures (p + 1) * c.Size <= |Concatenated(c, inputs)|
    ensures Slice(Concatenated(c, inputs), c.Size, p) == c.Ser(inputs[p].Input)
    decreases |inputs|
  {
    var n := |inputs| - 1;
    var init := inputs[..n];
    var a := Concatenated(c, init);
    var b := c.Ser(inputs[n].Input);
    assert Concatenated(c, inputs) == a + b;
    ConcatenatedLength(c, init);
    SliceOfAppend(a, b, c.Size, n, p);
    if p < n {
      ConcatenatedSlot(c, init, p);
      assert init[p] == inputs[p];
    }
  }

  lemma {:induction false} SliceOfAppend(a: seq<byte>, b: seq<byte>, size: nat, n: nat, p: nat)
    requires |a| == size * n && |b| == size && p <= n
    ensures |a + b| == size * (n + 1) && (p + 1) * size <= |a + b|
    ensures p < n ==> (p + 1) * size <= |a| && Slice(a + b, size, p) == Slice(a, size, p)
    ensures p == n ==> Slice(a + b, size, p) == b
  {
    assert size * (n + 1) == size * n + size;
    MulMono(p + 1, n + 1, size);
    if p < n {
      MulMono(p + 1, n, size);
    } else {
      assert p * size == |a|;
    }
  }

  /** With a lawful codec, unpacking what `FromInputs` packed gives the
    * inputs back, each stamped with the common frame. */
  lemma {:induction false} PackRoundTrip<I(!new)>(c: InputCodec<I>, inputs: seq<PlayerInput<I>>)
    requires Lawful(c) && FramesAgree(inputs) && |inputs| > 0
    ensures PackedInputs(c, inputs).Ok?
    ensures UnpackedInputs(c, PackedInputs(c, inputs).value, |inputs|) ==
      Ok(seq(|inputs|, p requires 0 <= p < |inputs| => PlayerInput(PackedFrame(inputs), inputs[p].Input)))
  {
    var ib := PackedInputs(c, inputs).value;
    var n := |inputs|;
    ConcatenatedLength(c, inputs);
    assert |ib.Bytes| == n * c.Size;
    assert |ib.Bytes| % n == 0 && |ib.Bytes| / n == c.Size by {
      DivOfMultiple(c.Size, n);
    }
    var r := Slices(c, ib, n);
    var expected := seq(n, p requires 0 <= p < n => PlayerInput(PackedFrame(inputs), inputs[p].Input));
    forall p | 0 <= p < n
      ensures r[p] == expected[p]
    {
      ConcatenatedSlot(c, inputs, p);
      assert Slice(ib.Bytes, c.Size, p) == c.Ser(inputs[p].Input);
    }
    assert r == expected;
  }

  lemma {:induction false} DivOfMultiple(size: nat, n: nat)
    requires n > 0
    ensures (n * size) % n == 0 && (n * size) / n == size
  {
    UniqueMod(n * size, size, 0, n);
  }

  /** When every input carries the same non-null frame the round trip is
    * the identity. */
  lemma {:induction false} PackRoundTripSameFrame<I(!new)>(c: InputCodec<I>, inputs: seq<PlayerInput<I>>, f: Frame)
    requires Lawful(c) && |inputs| > 0 && f != NULL_FRAME
    requires forall p :: 0 <= p < |inputs| ==> inputs[p].Frame == f
    ensures PackedInputs(c, inputs).Ok?
    ensures UnpackedInputs(c, PackedInputs(c, inputs).value, |inputs|) == Ok(inputs)
  {
    assert FramesAgree(inputs);
    PackedFrameIs(inputs);
    assert PackedFrame(inputs) == inputs[0].Frame == f;
    PackRoundTrip(c, inputs);
    var r := UnpackedInputs(c, PackedInputs(c, inputs).value, |inputs|).value;
    assert forall p :: 0 <= p < |inputs| ==> r[p] == inputs[p];
    assert r == inputs;
  }

  /** Two non-null frames that differ fail the assertion. */
  lemma {:induction false} PackRejectsMixedFrames<I>(c: InputCodec<I>, inputs: seq<PlayerInput<I>>, i: nat, j: nat)
    requires i < |inputs| && j < |inputs|
    requires inputs[i].Frame != NULL_FRAME && inputs[j].Frame != NULL_FRAME && inputs[i].Frame != inputs[j].Frame
    ensures PackedInputs(c, inputs) == Err(AssertionFailed)
  {
  }

  /** `FromInputs`: the loop over the dictionary, serializing each input into
    * its slice of the buffer. */
  method FromInputs<I(!new)>(c: InputCodec<I>, inputs: seq<PlayerInput<I>>) returns (r: Result<InputBytes>)
    requires FixedSize(c)
    ensures r == PackedInputs(c, inputs)
  {
    var frame := NULL_FRAME;
    ghost var all := Concatenated(c, inputs);
    ConcatenatedLength(c, inputs);
    var buf := new byte[c.Size * |inputs|];
    var ptr: nat := 0;
    for k := 0 to |inputs|
      invariant buf.Length == |all|
      invariant FramesAgree(inputs[..k]) && frame == PackedFrame(inputs[..k])
      invariant ptr <= buf.Length && buf[..ptr] == Concatenated(c, inputs[..k])
    {
      var pi := inputs[k];
      FramesAgreeStep(inputs, k);
      if !(frame == NULL_FRAME || pi.Frame == NULL_FRAME || frame == pi.Frame) {
        BrokenPrefix(inputs, k + 1);
        return Err(AssertionFailed);
      }
      PackStep(c, inputs, k);
      if pi.Frame != NULL_FRAME {
        frame := pi.Frame;
      }
      ghost var before := buf[..];
      Put(buf, ptr, c.Ser(pi.Input));
      SplicedPrefix(before, ptr, c.Ser(pi.Input));
      ptr := ptr + c.Size;
    }
    assert inputs[..|inputs|] == inputs;
    assert buf[..] == buf[..ptr];
    r := Ok(InputBytes(frame, buf[..]));
  }

  /** One more input: how the frame and the bytes so far grow. */
  lemma {:induction false} PackStep<I(!new)>(c: InputCodec<I>, inputs: seq<PlayerInput<I>>, k: nat)
    requires FixedSize(c) && k < |inputs|
    ensures |Concatenated(c, inputs[..k + 1])| <= |Concatenated(c, inputs)|
    ensures PackedFrame(inputs[..k + 1]) ==
      if inputs[k].Frame != NULL_FRAME then inputs[k].Frame else PackedFrame(inputs[..k])
    ensures Concatenated(c, inputs[..k + 1]) == Concatenated(c, inputs[..k]) + c.Ser(inputs[k].Input)
  {
    assert inputs[..k + 1][..k] == inputs[..k];
    ConcatenatedLength(c, inputs[..k + 1]);
    ConcatenatedLength(c, inputs);
    MulMono(k + 1, |inputs|, c.Size);
  }

  lemma {:induction false} SplicedPrefix(a: seq<byte>, off: nat, bs: seq<byte>)
    requires off + |bs| <= |a|
    ensures Spliced(a, off, bs)[..off + |bs|] == a[..off] + bs
  {
  }

  lemma {:induction false} BrokenPrefix<I>(inputs: seq<PlayerInput<I>>, k: nat)
    requires k <= |inputs| && !FramesAgree(inputs[..k])
    ensures !FramesAgree(inputs)
  {
    var i, j :| 0 <= i < k && 0 <= j < k && inputs[..k][i].Frame != NULL_FRAME &&
      inputs[..k][j].Frame != NULL_FRAME && inputs[..k][i].Frame != inputs[..k][j].Frame;
    assert inputs[i] == inputs[..k][i] && inputs[j] == inputs[..k][j];
  }

  /** `ToInputs`: one slice per player. */
  method ToInputs<I>(c: InputCodec<I>, ib: InputBytes, numPlayers: nat) returns (r: Result<seq<PlayerInput<I>>>)
    ensures r == UnpackedInputs(c, ib, numPlayers)
  {
    if numPlayers == 0 || |ib.Bytes| % numPlayers != 0 {
      return Err(AssertionFailed);
    }
    var size := |ib.Bytes| / numPlayers;
    ghost var all := Slices(c, ib, numPlayers);
    var res: seq<PlayerInput<I>> := [];
    for p := 0 to numPlayers
      invariant res == all[..p]
    {
      ChunkBounds(|ib.Bytes|, numPlayers, p, size);
      var start := p * size;
      assert start + size == (p + 1) * size;
      var input := c.De(ib.Bytes[start .. start + size]);
      assert Slice(ib.Bytes, size, p) == ib.Bytes[start .. start + size];
      assert all[p] == PlayerInput(ib.Frame, input);
      assert all[..p + 1] == all[..p] + [PlayerInput(ib.Frame, input)];
      res := res + [PlayerInput(ib.Frame, input)];
    }
    assert all[..numPlayers] == all;
    r := Ok(res);
  }

  // ----- handle order -----

  /** Handles in ascending `Id` order. */
  predicate SortedById(hs: seq<PlayerHandle>)
  {
    forall i, j :: 0 <= i < j < |hs| ==> hs[i].Id <= hs[j].Id
  }

  /** `Array.Sort(_handles)` as written: `PlayerHandle` does not implement
    * `IComparable`, so the default comparer throws as soon as two elements
    * must be compared, that is for two or more handles. */
  function SortAsWritten(hs: seq<PlayerHandle>): (r: Result<seq<PlayerHandle>>)
    ensures r.Ok? <==> |hs| <= 1
    ensures r.Ok? ==> r.value == hs
  {
    if |hs| <= 1 then Ok(hs) else Err(InvalidOperation)
  }

  /** An endpoint for two players behind one address cannot be built. */
  lemma TwoHandlesCannotBeSorted()
    ensures SortAsWritten([PlayerHandle(1), PlayerHandle(0)]) == Err(InvalidOperation)
  {
  }

  /** `h` placed into the sorted `hs`. */
  function Inserted(h: PlayerHandle, hs: seq<PlayerHandle>): (r: seq<PlayerHandle>)
    requires SortedById(hs)
    ensures SortedById(r) && multiset(r) == multiset(hs) + multiset{h}
    ensures |r| == |hs| + 1 && (r[0] == h || (hs != [] && r[0] == hs[0]))
  {
    if hs == [] || h.Id <= hs[0].Id then
      ConsSorted(h, hs);
      [h] + hs
    else
      var tail := Inserted(h, hs[1..]);
      assert hs == [hs[0]] + hs[1..];
      ConsSorted(hs[0], tail);
      [hs[0]] + tail
  }

  lemma ConsSorted(x: PlayerHandle, t: seq<PlayerHandle>)
    requires SortedById(t) && (t == [] || x.Id <= t[0].Id)
    ensures SortedById([x] + t)
  {
  }

  /** The intended ordering: the handles sorted by `Id`. */
  function SortedHandles(hs: seq<PlayerHandle>): (r: seq<PlayerHandle>)
    ensures SortedById(r) && multiset(r) == multiset(hs)
  {
    if hs == [] then []
    else
      assert hs == hs[..|hs| - 1] + [hs[|hs| - 1]];
      Inserted(hs[|hs| - 1], SortedHandles(hs[..|hs| - 1]))
  }

  /** The intended order agrees with the one the source gets for the inputs
    * it can sort. */
  lemma {:induction false} SortedHandlesExtends(hs: seq<PlayerHandle>)
    requires SortAsWritten(hs).Ok?
    ensures SortedHandles(hs) == SortAsWritten(hs).value
  {
    if |hs| == 1 {
      assert hs[..0] == [];
    }
  }
}
