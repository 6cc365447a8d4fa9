/** `Netcode.Rollback.Network.Compression`: pending inputs are XORed
  * bytewise with a reference input, concatenated, and run-length encoded
  * as `(count, value)` byte pairs through a 256 KiB scratch buffer. */
module Compressions {
  import opened Bytes
  import opened Bits
  import opened Outcomes
  import opened ModArith

  const MAX_SCRATCH_BYTES: nat := 256 * 1024
  const MAX_RUN: byte := 255

  /** `(byte)(a ^ b)`. */
  function XorByte(a: byte, b: byte): byte
  {
    XorBound(a as nat, b as nat, 8);
    Xor(a as nat, b as nat) as byte
  }

  /** Each byte of `x` XORed with the byte of `ref` at the same place. */
  function XorBytes(ref: seq<byte>, x: seq<byte>): (r: seq<byte>)
    requires |x| == |ref|
    ensures |r| == |ref|
  {
    seq(|ref|, i requires 0 <= i < |ref| => XorByte(ref[i], x[i]))
  }

  /** The byte stream the encoder runs over: every pending input XORed with
    * the reference, in order. */
  function AllDeltas(ref: seq<byte>, pending: seq<seq<byte>>): (r: seq<byte>)
    requires forall k :: 0 <= k < |pending| ==> |pending[k]| == |ref|
    ensures |r| == |pending| * |ref|
  {
    if pending == [] then []
    else AllDeltas(ref, pending[..|pending| - 1]) + XorBytes(ref, pending[|pending| - 1])
  }

  datatype Run = Run(count: byte, value: byte)

  /** The encoder's run step: extend the open run, or start a new one when
    * the value differs or the run holds 255 bytes. */
  function Push(runs: seq<Run>, d: byte): (r: seq<Run>)
    ensures r != []
  {
    if runs != [] && runs[|runs| - 1].value == d && runs[|runs| - 1].count < MAX_RUN then
      runs[..|runs| - 1] + [Run(runs[|runs| - 1].count + 1, d)]
    else runs + [Run(1, d)]
  }

  /** The runs the encoder forms from a stream. */
  function Runs(s: seq<byte>): seq<Run>
  {
    if s == [] then [] else Push(Runs(s[..|s| - 1]), s[|s| - 1])
  }

  /** The wire form of the runs. */
  function Flatten(runs: seq<Run>): (r: seq<byte>)
    ensures |r| == 2 * |runs|
  {
    if runs == [] then [] else [runs[0].count, runs[0].value] + Flatten(runs[1..])
  }

  function Repeat(v: byte, n: nat): (r: seq<byte>)
    ensures |r| == n && forall i :: 0 <= i < n ==> r[i] == v
  {
    seq(n, _ => v)
  }

  /** What the runs stand for. */
  function Expand(runs: seq<Run>): seq<byte>
  {
    if runs == [] then [] else Repeat(runs[0].value, runs[0].count as nat) + Expand(runs[1..])
  }

  /** How many inputs, from the front, have the reference's length. */
  function FirstMismatch(ref: seq<byte>, pending: seq<seq<byte>>): (m: nat)
    ensures m <= |pending|
    ensures forall k :: 0 <= k < m ==> |pending[k]| == |ref|
    ensures m < |pending| ==> |pending[m]| != |ref|
  {
    if pending == [] || |pending[0]| != |ref| then 0
    else 1 + FirstMismatch(ref, pending[1..])
  }

  /** `Encode`.  An empty reference fails the assertion.  Otherwise the
    * deltas are fed to the run builder input by input; the first input of
    * the wrong length fails the assertion, unless closing the runs before
    * it already overflowed the scratch buffer (every closed run costs two
    * bytes, the open one is not yet written).  The final flush writes the
    * open run too. */
  function Encoded(ref: seq<byte>, pending: seq<seq<byte>>): Result<seq<byte>>
  {
    if |ref| == 0 then Err(AssertionFailed)
    else
      var m := FirstMismatch(ref, pending);
      var runs := Runs(AllDeltas(ref, pending[..m]));
      if m < |pending| then
        if 2 * (|runs| - 1) > MAX_SCRATCH_BYTES then Err(InvalidOperation) else Err(AssertionFailed)
      else if 2 * |runs| > MAX_SCRATCH_BYTES then Err(InvalidOperation)
      else Ok(Flatten(runs))
  }

  /** `RleDecodeToScratch` from `data` on, with `out` already written: a
    * zero count fails the assertion; a run that would not fit throws. */
  function RleFrom(data: seq<byte>, out: seq<byte>): Result<seq<byte>>
    decreases |data|
  {
    if |data| < 2 then Ok(out)
    else if data[0] == 0 then Err(AssertionFailed)
    else if |out| + data[0] as nat > MAX_SCRATCH_BYTES then Err(InvalidOperation)
    else RleFrom(data[2..], out + Repeat(data[1], data[0] as nat))
  }

  /** `RleDecodeToScratch`: the data must be whole pairs. */
  function RleDecoded(data: seq<byte>): Result<seq<byte>>
  {
    if |data| % 2 != 0 then Err(AssertionFailed) else RleFrom(data, [])
  }

  /** Cutting the decoded stream into inputs of the reference's length and
    * XORing each with the reference. */
  function Split(ref: seq<byte>, out: seq<byte>): (r: seq<seq<byte>>)
    requires |ref| > 0 && |out| % |ref| == 0
    ensures |r| == |out| / |ref|
  {
    seq(|out| / |ref|, k requires 0 <= k < |out| / |ref| =>
      ChunkBounds(|out|, |ref|, k);
      XorBytes(ref, out[k * |ref| .. (k + 1) * |ref|]))
  }

  /** `Decode`. */
  function Decoded(ref: seq<byte>, data: seq<byte>): Result<seq<seq<byte>>>
  {
    if |ref| == 0 then Err(AssertionFailed)
    else match RleDecoded(data)
    case Err(f) => Err(f)
    case Ok(out) => if |out| % |ref| != 0 then Err(AssertionFailed) else Ok(Split(ref, out))
  }

  lemma {:induction false} ChunkBounds(n: nat, l: nat, k: nat)
    requires l > 0 && n % l == 0 && k < n / l
    ensures 0 <= k * l <= (k + 1) * l <= n
  {
    assert n == (n / l) * l;
    MulMono(k + 1, n / l, l);
  }

  lemma {:induction false} MulMono(a: nat, b: nat, l: nat)
    requires a <= b
    ensures a * l <= b * l
  {
  }

  // ----- XOR -----

  lemma {:induction false} XorByteTwice(r: byte, x: byte)
    ensures XorByte(r, XorByte(r, x)) == x
  {
    XorBound(r as nat, x as nat, 8);
    XorCommutes(r as nat, x as nat);
    var y := Xor(x as nat, r as nat);
    XorBound(r as nat, y, 8);
    XorCommutes(r as nat, y);
    XorSelfInverse(x as nat, r as nat);
  }

  lemma {:induction false} XorBytesTwice(ref: seq<byte>, x: seq<byte>)
    requires |x| == |ref|
    ensures XorBytes(ref, XorBytes(ref, x)) == x
  {
    forall i | 0 <= i < |ref| ensures XorBytes(ref, XorBytes(ref, x))[i] == x[i] {
      XorByteTwice(ref[i], x[i]);
    }
  }

  // ----- runs -----

  /** The structure every encoder output has: counts in 1 .. 255, and two
    * neighbouring runs share a value only when the first is full. */
  ghost predicate WellFormedRuns(runs: seq<Run>)
  {
    (forall k :: 0 <= k < |runs| ==> 1 <= runs[k].count) &&
    (forall k :: 0 < k < |runs| && runs[k - 1].value == runs[k].value ==> runs[k - 1].count == MAX_RUN)
  }

  lemma {:induction false} ExpandAppend(runs: seq<Run>, r: Run)
    ensures Expand(runs + [r]) == Expand(runs) + Repeat(r.value, r.count as nat)
    decreases |runs|
  {
    if runs == [] {
      assert [r][1..] == [];
    } else {
      assert (runs + [r])[1..] == runs[1..] + [r];
      ExpandAppend(runs[1..], r);
    }
  }

  lemma {:induction false} FlattenAppend(runs: seq<Run>, r: Run)
    ensures Flatten(runs + [r]) == Flatten(runs) + [r.count, r.value]
    decreases |runs|
  {
    if runs == [] {
      assert [r][1..] == [];
    } else {
      assert (runs + [r])[1..] == runs[1..] + [r];
      FlattenAppend(runs[1..], r);
    }
  }

  /** One push adds exactly `d` to what the runs stand for, and keeps them
    * well formed. */
  lemma {:induction false} PushFacts(runs: seq<Run>, d: byte)
    requires WellFormedRuns(runs)
    ensures Expand(Push(runs, d)) == Expand(runs) + [d]
    ensures WellFormedRuns(Push(runs, d))
    ensures |runs| <= |Push(runs, d)| <= |runs| + 1
  {
    if runs != [] && runs[|runs| - 1].value == d && runs[|runs| - 1].count < MAX_RUN {
      PushExtends(runs, d);
    } else {
      PushOpens(runs, d);
    }
  }

  lemma {:induction false} PushExtends(runs: seq<Run>, d: byte)
    requires WellFormedRuns(runs)
    requires runs != [] && runs[|runs| - 1].value == d && runs[|runs| - 1].count < MAX_RUN
    ensures Expand(Push(runs, d)) == Expand(runs) + [d]
    ensures WellFormedRuns(Push(runs, d))
  {
    var n := |runs| - 1;
    var last := runs[n];
    var r := runs[..n] + [Run(last.count + 1, d)];
    assert Push(runs, d) == r;
    assert runs == runs[..n] + [last];
    ExpandAppend(runs[..n], last);
    ExpandAppend(runs[..n], Run(last.count + 1, d));
    assert Repeat(d, last.count as nat + 1) == Repeat(d, last.count as nat) + [d];
    assert forall k :: 0 <= k < n ==> r[k] == runs[k];
  }

  lemma {:induction false} PushOpens(runs: seq<Run>, d: byte)
    requires WellFormedRuns(runs)
    requires !(runs != [] && runs[|runs| - 1].value == d && runs[|runs| - 1].count < MAX_RUN)
    ensures Expand(Push(runs, d)) == Expand(runs) + [d]
    ensures WellFormedRuns(Push(runs, d))
  {
    var r := runs + [Run(1, d)];
    assert Push(runs, d) == r;
    ExpandAppend(runs, Run(1, d));
    assert Repeat(d, 1) == [d];
  }

  /** The runs of a stream are well formed and stand for exactly that
    * stream. */
  lemma {:induction false} RunsFacts(s: seq<byte>)
    ensures WellFormedRuns(Runs(s))
    ensures Expand(Runs(s)) == s
    decreases |s|
  {
    if s != [] {
      var init := s[..|s| - 1];
      RunsFacts(init);
      PushFacts(Runs(init), s[|s| - 1]);
      assert Runs(s) == Push(Runs(init), s[|s| - 1]);
      assert s == init + [s[|s| - 1]];
    }
  }

  lemma {:induction false} RunsSnoc(s: seq<byte>, d: byte)
    ensures Runs(s + [d]) == Push(Runs(s), d)
  {
    assert (s + [d])[..|s|] == s;
  }

  /** A longer stream never has fewer runs. */
  lemma {:induction false} RunsGrow(s: seq<byte>, t: seq<byte>)
    requires s <= t
    ensures |Runs(s)| <= |Runs(t)|
    decreases |t|
  {
    if |s| < |t| {
      var init := t[..|t| - 1];
      assert s == init[..|s|];
      RunsGrow(s, init);
      RunsFacts(init);
      PushFacts(Runs(init), t[|t| - 1]);
      assert Runs(t) == Push(Runs(init), t[|t| - 1]);
    } else {
      assert s == t;
    }
  }

  /** Decoding well-formed runs that fit writes what they stand for. */
  lemma {:induction false} RleFromFlatten(runs: seq<Run>, out: seq<byte>)
    requires forall k :: 0 <= k < |runs| ==> 1 <= runs[k].count
    requires |out| + |Expand(runs)| <= MAX_SCRATCH_BYTES
    ensures RleFrom(Flatten(runs), out) == Ok(out + Expand(runs))
    decreases |runs|
  {
    if runs != [] {
      var r := runs[0];
      var f := Flatten(runs);
      assert f[0] == r.count && f[1] == r.value && f[2..] == Flatten(runs[1..]);
      assert Expand(runs) == Repeat(r.value, r.count as nat) + Expand(runs[1..]);
      assert |out| + r.count as nat <= MAX_SCRATCH_BYTES;
      assert RleFrom(f, out) == RleFrom(f[2..], out + Repeat(r.value, r.count as nat));
      RleFromFlatten(runs[1..], out + Repeat(r.value, r.count as nat));
      assert out + Repeat(r.value, r.count as nat) + Expand(runs[1..]) == out + Expand(runs);
    } else {
      assert out + [] == out;
    }
  }

  lemma {:induction false} AllDeltasChunks(ref: seq<byte>, pending: seq<seq<byte>>, k: nat)
    requires |ref| > 0 && forall j :: 0 <= j < |pending| ==> |pending[j]| == |ref|
    requires k < |pending|
    ensures (k + 1) * |ref| <= |pending| * |ref|
    ensures AllDeltas(ref, pending)[k * |ref| .. (k + 1) * |ref|] == XorBytes(ref, pending[k])
    decreases |pending|
  {
    var n := |pending| - 1;
    var l := |ref|;
    var init := pending[..n];
    MulMono(k + 1, n + 1, l);
    if k < n {
      MulMono(k + 1, n, l);
      AllDeltasChunks(ref, init, k);
      assert AllDeltas(ref, pending)[..n * l] == AllDeltas(ref, init);
    } else {
      assert AllDeltas(ref, pending)[n * l ..] == XorBytes(ref, pending[n]);
      assert (n + 1) * l == |AllDeltas(ref, pending)|;
    }
  }

  // ----- the codec -----

  /** The empty list of inputs encodes to nothing. */
  lemma {:induction false} EncodeNothing(ref: seq<byte>)
    ensures Encoded(ref, []) == if |ref| == 0 then Err(AssertionFailed) else Ok([])
  {
    var none: seq<seq<byte>> := [];
    assert none[..0] == none;
  }

  /** With a non-empty reference and inputs of its length, `Encode` is the
    * flattened runs of the whole delta stream, unless they exceed the
    * scratch buffer. */
  lemma {:induction false} EncodedWhole(ref: seq<byte>, pending: seq<seq<byte>>)
    requires |ref| > 0 && forall k :: 0 <= k < |pending| ==> |pending[k]| == |ref|
    ensures Encoded(ref, pending) ==
      var runs := Runs(AllDeltas(ref, pending));
      if 2 * |runs| > MAX_SCRATCH_BYTES then Err(InvalidOperation) else Ok(Flatten(runs))
  {
    assert pending[..|pending|] == pending;
  }

  /** The assertions: an empty reference, or an input whose length differs
    * from the reference's, makes `Encode` fail. */
  lemma {:induction false} EncodeRejects(ref: seq<byte>, pending: seq<seq<byte>>, k: nat)
    requires k < |pending| && |pending[k]| != |ref|
    ensures Encoded(ref, pending).Err?
    ensures |ref| == 0 ==> Encoded(ref, pending) == Err(AssertionFailed)
  {
  }

  /** The output is `(count, value)` pairs: an even number of bytes, every
    * count between 1 and 255, equal neighbouring values only after a full
    * run, and it never exceeds the scratch buffer. */
  lemma {:induction false} EncodedShape(ref: seq<byte>, pending: seq<seq<byte>>)
    requires Encoded(ref, pending).Ok?
    ensures var e := Encoded(ref, pending).value;
      |e| % 2 == 0 && |e| <= MAX_SCRATCH_BYTES &&
      (forall j :: 0 <= j < |e| / 2 ==> 1 <= e[2 * j]) &&
      (forall j :: 0 < j < |e| / 2 && e[2 * j - 1] == e[2 * j + 1] ==> e[2 * j - 2] == MAX_RUN)
  {
    EncodedOk(ref, pending);
    var d := AllDeltas(ref, pending);
    var runs := Runs(d);
    RunsFacts(d);
    FlattenShape(runs);
    var e := Flatten(runs);
    UniqueMod(|e|, |runs|, 0, 2);
  }

  /** `Encode` succeeds only on a non-empty reference and inputs of its
    * length, and then its output is the flattened runs of the deltas. */
  lemma {:induction false} EncodedOk(ref: seq<byte>, pending: seq<seq<byte>>)
    requires Encoded(ref, pending).Ok?
    ensures |ref| > 0 && forall k :: 0 <= k < |pending| ==> |pending[k]| == |ref|
    ensures 2 * |Runs(AllDeltas(ref, pending))| <= MAX_SCRATCH_BYTES
    ensures Encoded(ref, pending).value == Flatten(Runs(AllDeltas(ref, pending)))
  {
    assert FirstMismatch(ref, pending) == |pending|;
    EncodedWhole(ref, pending);
  }

  lemma {:induction false} FlattenShape(runs: seq<Run>)
    requires WellFormedRuns(runs)
    ensures var e := Flatten(runs);
      (forall j :: 0 <= j < |e| / 2 ==> 1 <= e[2 * j]) &&
      (forall j :: 0 < j < |e| / 2 && e[2 * j - 1] == e[2 * j + 1] ==> e[2 * j - 2] == MAX_RUN)
  {
    var e := Flatten(runs);
    FlattenIndex(runs);
    assert |e| / 2 == |runs|;
    forall j | 0 < j < |e| / 2 && e[2 * j - 1] == e[2 * j + 1] ensures e[2 * j - 2] == MAX_RUN {
      assert |e| / 2 == |runs|;
      assert e[2 * (j - 1) + 1] == runs[j - 1].value && e[2 * (j - 1)] == runs[j - 1].count;
      assert e[2 * j + 1] == runs[j].value;
      assert runs[j - 1].value == runs[j].value;
    }
  }

  lemma {:induction false} FlattenIndex(runs: seq<Run>)
    ensures forall j :: 0 <= j < |runs| ==>
      Flatten(runs)[2 * j] == runs[j].count && Flatten(runs)[2 * j + 1] == runs[j].value
    decreases |runs|
  {
    if runs != [] {
      FlattenIndex(runs[1..]);
      forall j | 0 < j < |runs|
        ensures Flatten(runs)[2 * j] == runs[j].count && Flatten(runs)[2 * j + 1] == runs[j].value
      {
        assert runs[1..][j - 1] == runs[j];
        assert Flatten(runs)[2 * j] == Flatten(runs[1..])[2 * (j - 1)];
        assert Flatten(runs)[2 * j + 1] == Flatten(runs[1..])[2 * (j - 1) + 1];
      }
    }
  }

  /** Example: reference `[0,0,0,0]` with inputs `[0,0,0,0]` and
    * `[1,0,0,0]` encodes to `[4,0,1,1,3,0]`. */
  lemma {:induction false} EncodeExample(ref: seq<byte>, pending: seq<seq<byte>>)
    requires ref == [0, 0, 0, 0] && pending == [[0, 0, 0, 0], [1, 0, 0, 0]]
    ensures Encoded(ref, pending) == Ok([4, 0, 1, 1, 3, 0])
  {
    ExampleDeltas(ref, pending);
    EncodedWhole(ref, pending);
    ExampleRuns();
    assert Flatten([Run(4, 0), Run(1, 1), Run(3, 0)]) == [4, 0, 1, 1, 3, 0];
  }

  lemma {:induction false} ExampleDeltas(ref: seq<byte>, pending: seq<seq<byte>>)
    requires ref == [0, 0, 0, 0] && pending == [[0, 0, 0, 0], [1, 0, 0, 0]]
    ensures AllDeltas(ref, pending) == [0, 0, 0, 0, 1, 0, 0, 0]
  {
    assert XorByte(0, 0) == 0 && XorByte(0, 1) == 1;
    assert XorBytes(ref, [0, 0, 0, 0]) == [0, 0, 0, 0];
    assert XorBytes(ref, [1, 0, 0, 0]) == [1, 0, 0, 0];
    assert pending[..1] == [[0, 0, 0, 0]] && pending[..1][..0] == [];
  }

  /** The runs of the example's delta stream, one byte at a time. */
  lemma {:induction false} ExampleRuns()
    ensures Runs([0, 0, 0, 0, 1, 0, 0, 0]) == [Run(4, 0), Run(1, 1), Run(3, 0)]
  {
    ExampleStep([], 0, [0], []);
    ExampleStep([0], 0, [0, 0], [Run(1, 0)]);
    ExampleStep([0, 0], 0, [0, 0, 0], [Run(2, 0)]);
    ExampleStep([0, 0, 0], 0, [0, 0, 0, 0], [Run(3, 0)]);
    ExampleStep([0, 0, 0, 0], 1, [0, 0, 0, 0, 1], [Run(4, 0)]);
    ExampleStep([0, 0, 0, 0, 1], 0, [0, 0, 0, 0, 1, 0], [Run(4, 0), Run(1, 1)]);
    ExampleStep([0, 0, 0, 0, 1, 0], 0, [0, 0, 0, 0, 1, 0, 0], [Run(4, 0), Run(1, 1), Run(1, 0)]);
    ExampleStep([0, 0, 0, 0, 1, 0, 0], 0, [0, 0, 0, 0, 1, 0, 0, 0], [Run(4, 0), Run(1, 1), Run(2, 0)]);
  }

  /** One step of the example: `t` is `s` and `d`. */
  lemma {:induction false} ExampleStep(s: seq<byte>, d: byte, t: seq<byte>, r: seq<Run>)
    requires t == s + [d] && Runs(s) == r
    ensures Runs(t) == Push(r, d)
  {
    RunsSnoc(s, d);
  }

  /** Decoding an encoding gives back every pending input in order, as long
    * as the decoded bytes fit the scratch buffer. */
  lemma {:induction false} RoundTrip(ref: seq<byte>, pending: seq<seq<byte>>)
    requires |ref| > 0 && forall k :: 0 <= k < |pending| ==> |pending[k]| == |ref|
    requires |pending| * |ref| <= MAX_SCRATCH_BYTES
    requires Encoded(ref, pending).Ok?
    ensures Decoded(ref, Encoded(ref, pending).value) == Ok(pending)
  {
    EncodedWhole(ref, pending);
    var s := AllDeltas(ref, pending);
    var runs := Runs(s);
    var e := Flatten(runs);
    assert Encoded(ref, pending).value == e;
    RunsFacts(s);
    RleFromFlatten(runs, []);
    assert [] + Expand(runs) == s;
    UniqueMod(|e|, |runs|, 0, 2);
    assert RleFrom(e, []) == Ok(s);
    assert RleDecoded(e) == Ok(s);
    SplitOfAllDeltas(ref, pending);
  }

  /** Cutting the stream back into inputs undoes the XOR. */
  lemma {:induction false} SplitOfAllDeltas(ref: seq<byte>, pending: seq<seq<byte>>)
    requires |ref| > 0 && forall k :: 0 <= k < |pending| ==> |pending[k]| == |ref|
    ensures |AllDeltas(ref, pending)| % |ref| == 0
    ensures Split(ref, AllDeltas(ref, pending)) == pending
  {
    var s := AllDeltas(ref, pending);
    UniqueMod(|s|, |pending|, 0, |ref|);
    var r := Split(ref, s);
    forall k | 0 <= k < |pending| ensures r[k] == pending[k] {
      ChunkBounds(|s|, |ref|, k);
      AllDeltasChunks(ref, pending, k);
      SplitChunk(ref, s, k);
      XorBytesTwice(ref, pending[k]);
    }
  }

  lemma {:induction false} SplitChunk(ref: seq<byte>, s: seq<byte>, k: nat)
    requires |ref| > 0 && |s| % |ref| == 0 && k < |s| / |ref|
    requires 0 <= k * |ref| <= (k + 1) * |ref| <= |s|
    ensures Split(ref, s)[k] == XorBytes(ref, s[k * |ref| .. (k + 1) * |ref|])
  {
    ChunkBounds(|s|, |ref|, k);
  }

  /** Malformed data is rejected: an odd length or a zero count fails the
    * assertion. */
  lemma {:induction false} DecodeRejects(ref: seq<byte>, data: seq<byte>)
    ensures |ref| == 0 ==> Decoded(ref, data) == Err(AssertionFailed)
    ensures |data| % 2 != 0 ==> Decoded(ref, data) == Err(AssertionFailed)
    ensures |data| % 2 == 0 && |data| >= 2 && data[0] == 0 ==> Decoded(ref, data) == Err(AssertionFailed)
    ensures (|ref| > 0 && RleDecoded(data).Ok? && |RleDecoded(data).value| % |ref| != 0) ==>
      Decoded(ref, data) == Err(AssertionFailed)
  {
  }

  /** The decoder never writes more than the scratch buffer holds. */
  lemma {:induction false} RleFromBound(data: seq<byte>, out: seq<byte>)
    requires |out| <= MAX_SCRATCH_BYTES
    ensures RleFrom(data, out).Ok? ==>
      (out <= RleFrom(data, out).value && |RleFrom(data, out).value| <= MAX_SCRATCH_BYTES)
    decreases |data|
  {
    if |data| >= 2 && data[0] != 0 && |out| + data[0] as nat <= MAX_SCRATCH_BYTES {
      RleFromBound(data[2..], out + Repeat(data[1], data[0] as nat));
    }
  }

  // ----- the encoder's running state -----

  /** The encoder's locals `(hasRun, runValue, runCount)` and the bytes
    * written so far, after it has consumed the stream `p`: nothing open at
    * the start; afterwards the open run is the last run of `p`, and every
    * earlier run is already written. */
  ghost function Expected(p: seq<byte>): (bool, byte, nat, seq<byte>)
  {
    if p == [] then (false, 0, 0, [])
    else
      var runs := Runs(p);
      var n := |runs| - 1;
      (true, runs[n].value, runs[n].count as nat, Flatten(runs[..n]))
  }

  ghost predicate EncoderState(p: seq<byte>, hasRun: bool, runValue: byte, runCount: nat, written: seq<byte>)
  {
    (hasRun, runValue, runCount, written) == Expected(p)
  }

  lemma {:induction false} StartRun(d: byte)
    ensures EncoderState([d], true, d, 1, [])
  {
    RunsSnoc([], d);
    assert [] + [d] == [d];
  }

  lemma {:induction false} ExtendRun(p: seq<byte>, runValue: byte, runCount: nat, written: seq<byte>)
    requires EncoderState(p, true, runValue, runCount, written) && runCount < 255
    ensures EncoderState(p + [runValue], true, runValue, runCount + 1, written)
  {
    RunsSnoc(p, runValue);
    var runs := Runs(p);
    var n := |runs| - 1;
    assert (runs[..n] + [Run(runs[n].count + 1, runValue)])[..n] == runs[..n];
  }

  lemma {:induction false} NewRun(p: seq<byte>, d: byte, runValue: byte, runCount: nat, written: seq<byte>)
    requires EncoderState(p, true, runValue, runCount, written) && !(d == runValue && runCount < 255)
    ensures |Runs(p + [d])| == |Runs(p)| + 1 && |written| == 2 * (|Runs(p)| - 1)
    ensures EncoderState(p + [d], true, d, 1, written + [runCount as byte, runValue])
  {
    RunsSnoc(p, d);
    var runs := Runs(p);
    var n := |runs| - 1;
    assert runs == runs[..n] + [runs[n]];
    FlattenAppend(runs[..n], runs[n]);
    assert (runs + [Run(1, d)])[..n + 1] == runs;
  }

  /** The final flush writes the open run after the closed ones. */
  lemma {:induction false} CloseRun(p: seq<byte>, runValue: byte, runCount: nat, written: seq<byte>)
    requires EncoderState(p, true, runValue, runCount, written)
    ensures |written| == 2 * (|Runs(p)| - 1)
    ensures written + [runCount as byte, runValue] == Flatten(Runs(p))
  {
    var runs := Runs(p);
    var n := |runs| - 1;
    assert runs == runs[..n] + [runs[n]];
    FlattenAppend(runs[..n], runs[n]);
  }

  /** Consuming one more input of the reference's length keeps the stream
    * equal to the deltas of the inputs consumed so far. */
  lemma {:induction false} AllDeltasNext(ref: seq<byte>, pending: seq<seq<byte>>, k: nat)
    requires k < |pending| && forall j :: 0 <= j <= k ==> |pending[j]| == |ref|
    ensures AllDeltas(ref, pending[..k + 1]) == AllDeltas(ref, pending[..k]) + XorBytes(ref, pending[k])
  {
    assert pending[..k + 1][..k] == pending[..k];
  }

  lemma {:induction false} AllDeltasPrefix(ref: seq<byte>, pending: seq<seq<byte>>, a: nat, b: nat)
    requires a <= b <= |pending| && forall j :: 0 <= j < b ==> |pending[j]| == |ref|
    ensures AllDeltas(ref, pending[..a]) <= AllDeltas(ref, pending[..b])
    decreases b
  {
    if a < b {
      AllDeltasPrefix(ref, pending, a, b - 1);
      AllDeltasNext(ref, pending, b - 1);
    }
  }

  /** Once more runs are closed than the scratch buffer holds, `Encode`
    * overflows, whatever follows. */
  lemma {:induction false} OverflowWins(ref: seq<byte>, pending: seq<seq<byte>>, k: nat, q: seq<byte>)
    requires |ref| > 0 && k < |pending| && forall j :: 0 <= j <= k ==> |pending[j]| == |ref|
    requires q <= AllDeltas(ref, pending[..k + 1])
    requires 2 * (|Runs(q)| - 1) > MAX_SCRATCH_BYTES
    ensures Encoded(ref, pending) == Err(InvalidOperation)
  {
    var m := FirstMismatch(ref, pending);
    AllDeltasPrefix(ref, pending, k + 1, m);
    RunsGrow(q, AllDeltas(ref, pending[..m]));
  }

  lemma {:induction false} PrefixStep(p: seq<byte>, x: seq<byte>, i: nat)
    requires i < |x|
    ensures p + x[..i] + [x[i]] == p + x[..i + 1]
    ensures p + x[..i + 1] <= p + x
  {
    assert x[..i + 1] == x[..i] + [x[i]];
    assert (p + x)[..|p| + i + 1] == p + x[..i + 1];
  }

  /** `Compression`: its scratch buffer is shared by `Encode` and `Decode`. */
  class Compression {
    const scratch: array<byte>

    predicate Valid()
    {
      scratch.Length == MAX_SCRATCH_BYTES
    }

    constructor()
      ensures Valid() && fresh(scratch)
    {
      scratch := new byte[MAX_SCRATCH_BYTES];
    }

    /** The local `FlushRun`: write the open run as `(count, value)`, or
      * report the overflow. */
    method FlushRun(outPtr: nat, hasRun: bool, runValue: byte, runCount: nat)
      returns (ok: bool, newPtr: nat, newHasRun: bool, newValue: byte, newCount: nat)
      requires Valid() && outPtr <= scratch.Length && (hasRun ==> runCount <= 255)
      modifies scratch
      ensures !hasRun ==>
        ok && newPtr == outPtr && !newHasRun && newValue == runValue && newCount == runCount &&
        scratch[..] == old(scratch[..])
      ensures hasRun && outPtr + 2 > scratch.Length ==> !ok
      ensures hasRun && outPtr + 2 <= scratch.Length ==>
        ok && newPtr == outPtr + 2 && !newHasRun && newValue == 0 && newCount == 0 &&
        scratch[..newPtr] == old(scratch[..outPtr]) + [runCount as byte, runValue]
    {
      if !hasRun {
        return true, outPtr, hasRun, runValue, runCount;
      }
      if outPtr + 2 > scratch.Length {
        return false, outPtr, hasRun, runValue, runCount;
      }
      scratch[outPtr] := runCount as byte;
      scratch[outPtr + 1] := runValue;
      assert scratch[..outPtr + 2] == old(scratch[..outPtr]) + [runCount as byte, runValue];
      return true, outPtr + 2, false, 0, 0;
    }

    /** The body of the inner loop of `Encode`, for one delta byte. */
    method Feed(ghost p: seq<byte>, delta: byte, outPtr: nat, hasRun: bool, runValue: byte, runCount: nat)
      returns (ok: bool, newPtr: nat, newHasRun: bool, newValue: byte, newCount: nat)
      requires Valid() && outPtr <= scratch.Length
      requires EncoderState(p, hasRun, runValue, runCount, scratch[..outPtr])
      modifies scratch
      ensures ok ==>
        newPtr <= scratch.Length && EncoderState(p + [delta], newHasRun, newValue, newCount, scratch[..newPtr])
      ensures !ok ==> 2 * (|Runs(p + [delta])| - 1) > MAX_SCRATCH_BYTES
    {
      if !hasRun {
        StartRun(delta);
        assert p + [delta] == [delta];
        return true, outPtr, true, delta, 1;
      } else if delta == runValue && runCount < 255 {
        ExtendRun(p, runValue, runCount, scratch[..outPtr]);
        return true, outPtr, true, runValue, runCount + 1;
      } else {
        NewRun(p, delta, runValue, runCount, scratch[..outPtr]);
        ok, newPtr, newHasRun, newValue, newCount := FlushRun(outPtr, hasRun, runValue, runCount);
        if ok {
          newHasRun, newValue, newCount := true, delta, 1;
        }
      }
    }

    /** The inner loop of `Encode`, over the bytes of one input; on an
      * overflow, `q` is the stream whose runs no longer fit. */
    method EncodeInput(ghost p: seq<byte>, ref: seq<byte>, input: seq<byte>,
                       outPtr: nat, hasRun: bool, runValue: byte, runCount: nat)
      returns (ok: bool, newPtr: nat, newHasRun: bool, newValue: byte, newCount: nat, ghost q: seq<byte>)
      requires Valid() && |input| == |ref| && outPtr <= scratch.Length
      requires EncoderState(p, hasRun, runValue, runCount, scratch[..outPtr])
      modifies scratch
      ensures ok ==>
        newPtr <= scratch.Length &&
        EncoderState(p + XorBytes(ref, input), newHasRun, newValue, newCount, scratch[..newPtr])
      ensures !ok ==> q <= p + XorBytes(ref, input) && 2 * (|Runs(q)| - 1) > MAX_SCRATCH_BYTES
    {
      newPtr, newHasRun, newValue, newCount := outPtr, hasRun, runValue, runCount;
      ghost var x := XorBytes(ref, input);
      ghost var s := p;
      var i := 0;
      while i < |ref|
        invariant i <= |ref|
        invariant s == p + x[..i]
        invariant newPtr <= scratch.Length
        invariant EncoderState(s, newHasRun, newValue, newCount, scratch[..newPtr])
      {
        var delta := XorByte(ref[i], input[i]);
        assert delta == x[i];
        ok, newPtr, newHasRun, newValue, newCount := Feed(s, delta, newPtr, newHasRun, newValue, newCount);
        PrefixStep(p, x, i);
        if !ok {
          q := s + [delta];
          return;
        }
        s := s + [delta];
        i := i + 1;
      }
      assert x[..i] == x;
      ok, q := true, s;
    }

    /** `Encode`. */
    method Encode(ref: seq<byte>, pending: seq<seq<byte>>) returns (r: Result<seq<byte>>)
      requires Valid()
      modifies scratch
      ensures r == Encoded(ref, pending)
    {
      if |ref| == 0 {
        return Err(AssertionFailed);
      }
      var outPtr: nat := 0;
      var hasRun := false;
      var runValue: byte := 0;
      var runCount: nat := 0;
      ghost var p: seq<byte> := [];
      var k := 0;
      while k < |pending|
        invariant k <= |pending| && forall j :: 0 <= j < k ==> |pending[j]| == |ref|
        invariant p == AllDeltas(ref, pending[..k])
        invariant outPtr <= scratch.Length
        invariant EncoderState(p, hasRun, runValue, runCount, scratch[..outPtr])
      {
        if |pending[k]| != |ref| {
          assert FirstMismatch(ref, pending) == k;
          return Err(AssertionFailed);
        }
        var ok;
        ghost var q;
        ok, outPtr, hasRun, runValue, runCount, q := EncodeInput(p, ref, pending[k], outPtr, hasRun, runValue, runCount);
        AllDeltasNext(ref, pending, k);
        if !ok {
          OverflowWins(ref, pending, k, q);
          return Err(InvalidOperation);
        }
        p := p + XorBytes(ref, pending[k]);
        k := k + 1;
      }
      EncodedWhole(ref, pending);
      assert pending[..k] == pending;
      if hasRun {
        CloseRun(p, runValue, runCount, scratch[..outPtr]);
      }
      var ok;
      ok, outPtr, hasRun, runValue, runCount := FlushRun(outPtr, hasRun, runValue, runCount);
      if !ok {
        return Err(InvalidOperation);
      }
      return Ok(scratch[..outPtr]);
    }
 
    /** The inner loop of `RleDecodeToScratch`: `count` copies of `value`
      * from `outPtr` on. */
    method WriteRun(outPtr: nat, value: byte, count: nat)
      requires Valid() && outPtr + count <= scratch.Length
      modifies scratch
      ensures scratch[..outPtr + count] == old(scratch[..outPtr]) + Repeat(value, count)
    {
      var k := 0;
      while k < count
        invariant k <= count
        invariant scratch[..outPtr] == old(scratch[..outPtr])
        invariant forall j :: outPtr <= j < outPtr + k ==> scratch[j] == value
      {
        scratch[outPtr + k] := value;
        k := k + 1;
      }
      assert scratch[..outPtr + count] == old(scratch[..outPtr]) + Repeat(value, count);
    }

    /** `RleDecodeToScratch`: on success the length written, and the
      * scratch buffer starts with the decoded bytes. */
    method RleDecodeToScratch(rle: seq<byte>) returns (r: Result<nat>)
      requires Valid()
      modifies scratch
      ensures RleDecoded(rle).Err? ==> r == Err(RleDecoded(rle).failure)
      ensures RleDecoded(rle).Ok? ==>
        r == Ok(|RleDecoded(rle).value|) && |RleDecoded(rle).value| <= scratch.Length &&
        scratch[..r.value] == RleDecoded(rle).value
    {
      if |rle| % 2 != 0 {
        return Err(AssertionFailed);
      }
      var outPtr: nat := 0;
      var i := 0;
      while i < |rle|
        invariant i <= |rle| && i % 2 == 0 && outPtr <= scratch.Length
        invariant RleFrom(rle[i..], scratch[..outPtr]) == RleDecoded(rle)
        decreases |rle| - i
      {
        var count := rle[i];
        var value := rle[i + 1];
        assert rle[i..][2..] == rle[i + 2..];
        if count == 0 {
          return Err(AssertionFailed);
        }
        if outPtr + count as nat > scratch.Length {
          return Err(InvalidOperation);
        }
        WriteRun(outPtr, value, count as nat);
        outPtr := outPtr + count as nat;
        i := i + 2;
      }
      assert rle[i..] == [];
      return Ok(outPtr);
    }

    /** One decoded input: the reference XORed with the scratch bytes from
      * `srcBase` on. */
    method DecodeInput(ref: seq<byte>, srcBase: nat) returns (outInp: array<byte>)
      requires Valid() && srcBase + |ref| <= scratch.Length
      ensures fresh(outInp) && outInp[..] == XorBytes(ref, scratch[srcBase..srcBase + |ref|])
    {
      outInp := new byte[|ref|];
      for i := 0 to |ref|
        invariant forall j :: 0 <= j < i ==> outInp[j] == XorByte(ref[j], scratch[srcBase + j])
      {
        outInp[i] := XorByte(ref[i], scratch[srcBase + i]);
      }
    }

    /** `Decode`. */
    method Decode(ref: seq<byte>, data: seq<byte>) returns (r: Result<seq<seq<byte>>>)
      requires Valid()
      modifies scratch
      ensures r == Decoded(ref, data)
    {
      if |ref| == 0 {
        return Err(AssertionFailed);
      }
      var decoded := RleDecodeToScratch(data);
      if decoded.Err? {
        return Err(decoded.failure);
      }
      var decodedLen := decoded.value;
      ghost var out := scratch[..decodedLen];
      if decodedLen % |ref| != 0 {
        return Err(AssertionFailed);
      }
      var count := decodedLen / |ref|;
      var res := new seq<byte>[count];
      var srcBase := 0;
      for inp := 0 to count
        invariant srcBase == inp * |ref|
        invariant scratch[..decodedLen] == out
        invariant forall j :: 0 <= j < inp ==> res[j] == Split(ref, out)[j]
      {
        ChunkBounds(decodedLen, |ref|, inp);
        var outInp := DecodeInput(ref, srcBase);
        assert scratch[srcBase..srcBase + |ref|] == out[inp * |ref| .. (inp + 1) * |ref|];
        res[inp] := outInp[..];
        srcBase := srcBase + |ref|;
      }
      assert res[..] == Split(ref, out);
      return Ok(res[..]);
    }
  }
}
