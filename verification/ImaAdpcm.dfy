// IMA ADPCM, four bits a sample: main/ima_adpcm.c and main/ima_adpcm.h.
//
// Encoder and decoder each walk a (predictor, step index) pair.  The methods do
// so in place, on an object and on byte buffers, as the source does; the
// functions give the values they reach and the lemmas relate both directions.

module ImaAdpcm {
  import opened CString

  type Int16 = x: int | -32768 <= x <= 32767
  type Index = x: int | 0 <= x <= 88 witness 0

  // The step table, row by row as the source lays it out.
  const ROW_0: seq<int> := [7, 8, 9, 10, 11, 12, 13, 14, 16, 17, 19, 21, 23, 25, 28]
  const ROW_1: seq<int> := [31, 34, 37, 41, 45, 50, 55, 60, 66, 73, 80, 88, 97, 107, 118]
  const ROW_2: seq<int> := [130, 143, 157, 173, 190, 209, 230, 253, 279, 307, 337, 371, 408, 449, 494]
  const ROW_3: seq<int> := [544, 598, 658, 724, 796, 876, 963, 1060, 1166, 1282, 1411, 1552, 1707, 1878, 2066]
  const ROW_4: seq<int> := [2272, 2499, 2749, 3024, 3327, 3660, 4026, 4428, 4871, 5358, 5894, 6484, 7132, 7845, 8630]
  const ROW_5: seq<int> := [9493, 10442, 11487, 12635, 13899, 15289, 16818, 18500, 20350, 22385, 24623, 27086, 29794, 32767]
  const STEP_TABLE: seq<int> := ROW_0 + ROW_1 + ROW_2 + ROW_3 + ROW_4 + ROW_5
  const INDEX_TABLE: seq<int> := [-1, -1, -1, -1, 2, 4, 6, 8, -1, -1, -1, -1, 2, 4, 6, 8]

  function StepOf(i: Index): (s: int)
    ensures 7 <= s <= 32767
  {
    StepsInRange(i);
    STEP_TABLE[i]
  }

  function ClampIndex(i: int): Index {
    if i < 0 then 0 else if i > 88 then 88 else i
  }

  function ClampInt16(v: int): Int16 {
    if v > 32767 then 32767 else if v < -32768 then -32768 else v
  }

  function Abs(x: int): nat {
    if x < 0 then -x else x
  }

  /** Four bits: a sign and the weights 4, 2 and 1. */
  datatype Nibble = Nibble(sign: bool, b4: bool, b2: bool, b1: bool) {
    function Value(): (v: Byte)
      ensures v < 16
    {
      (if sign then 8 else 0) + (if b4 then 4 else 0) + (if b2 then 2 else 0) + (if b1 then 1 else 0)
    }
  }

  function NibbleOf(v: Byte): Nibble {
    Nibble(v / 8 % 2 == 1, v / 4 % 2 == 1, v / 2 % 2 == 1, v % 2 == 1)
  }

  // ---------------------------------------------------------------- one sample

  datatype State = State(predictor: Int16, index: Index) {
    function Step(): (s: int)
      ensures 7 <= s <= 32767
    {
      StepOf(index)
    }

    function Error(sample: Int16): nat {
      Abs(sample - predictor)
    }

    /** The encoder has lost track: not even the largest nibble covers the error. */
    predicate Overloaded(sample: Int16) {
      Error(sample) >= 2 * Step()
    }
  }

  /** What a nibble adds to the predictor, sign apart. */
  function Dequantised(n: Nibble, step: nat): nat {
    step / 8 + (if n.b4 then step else 0) + (if n.b2 then step / 2 else 0) + (if n.b1 then step / 4 else 0)
  }

  /** The decoder's transition. */
  function Decode(st: State, n: Nibble): State {
    var q := Dequantised(n, st.Step());
    State(ClampInt16(if n.sign then st.predictor - q else st.predictor + q),
          ClampIndex(st.index + INDEX_TABLE[n.Value()]))
  }

  /** The sign, then three magnitude bits, largest first. */
  function NibbleFor(st: State, sample: Int16): Nibble {
    var step := st.Step();
    var b4 := st.Error(sample) >= step;
    var r4 := st.Error(sample) - if b4 then step else 0;
    var b2 := r4 >= step / 2;
    var r2 := r4 - if b2 then step / 2 else 0;
    Nibble(sample < st.predictor, b4, b2, r2 >= step / 4)
  }

  /** The encoder follows the decoder it is feeding. */
  function Encode(st: State, sample: Int16): State {
    Decode(st, NibbleFor(st, sample))
  }

  class Codec {
    var predictor: Int16
    var stepIndex: Index

    constructor (first: Int16, index: Index)
      ensures Value() == State(first, index)
    {
      predictor, stepIndex := first, index;
    }

    ghost function Value(): State
      reads this
    {
      State(predictor, stepIndex)
    }

    method EncodeSample(sample: Int16) returns (nibble: Nibble)
      modifies this
      ensures nibble == NibbleFor(old(Value()), sample)
      ensures Value() == Decode(old(Value()), nibble)
    {
      StepsInRange(stepIndex);
      ghost var st := Value();
      assert STEP_TABLE[stepIndex] == st.Step();
      hide STEP_TABLE, INDEX_TABLE, StepOf, ClampInt16, ClampIndex;
      var diff := sample - predictor;
      var sign := diff < 0;
      if diff < 0 { diff := -diff; }
      var step := STEP_TABLE[stepIndex];
      nibble := Nibble(sign, false, false, false);
      var diffQ := step / 8;
      if diff >= step {
        nibble, diff, diffQ := nibble.(b4 := true), diff - step, diffQ + step;
      }
      if diff >= step / 2 {
        nibble, diff, diffQ := nibble.(b2 := true), diff - step / 2, diffQ + step / 2;
      }
      if diff >= step / 4 {
        nibble, diff, diffQ := nibble.(b1 := true), diff - step / 4, diffQ + step / 4;
      }
      predictor := ClampInt16(if sign then predictor - diffQ else predictor + diffQ);
      stepIndex := ClampIndex(stepIndex + INDEX_TABLE[nibble.Value()]);
    }

    method DecodeSample(nibble: Nibble) returns (out: Int16)
      modifies this
      ensures Value() == Decode(old(Value()), nibble) && out == predictor
    {
      StepsInRange(stepIndex);
      var step := STEP_TABLE[stepIndex];
      var diffQ := step / 8;
      if nibble.b4 { diffQ := diffQ + step; }
      if nibble.b2 { diffQ := diffQ + step / 2; }
      if nibble.b1 { diffQ := diffQ + step / 4; }
      predictor := ClampInt16(if nibble.sign then predictor - diffQ else predictor + diffQ);
      stepIndex := ClampIndex(stepIndex + INDEX_TABLE[nibble.Value()]);
      out := predictor;
    }
  }

  // ------------------------------------------------------------------ the table

  /** A step is larger than the error the next larger step leaves behind. */
  predicate Grows(a: int, b: int) {
    7 <= a < b <= 32767 && b / 8 + 2 < a
  }

  lemma RowGrowth(row: seq<int>, j: int)
    requires row in [ROW_0, ROW_1, ROW_2, ROW_3, ROW_4]
    requires 0 <= j < |row| - 1
    ensures Grows(row[j], row[j + 1])
  {
    if row == ROW_0 {} else if row == ROW_1 {} else if row == ROW_2 {} else if row == ROW_3 {} else {}
  }

  lemma TableGrowth(i: int)
    requires 0 <= i < 88
    ensures |STEP_TABLE| == 89
    ensures Grows(STEP_TABLE[i], STEP_TABLE[i + 1])
  {
    if i < 14 { RowGrowth(ROW_0, i); }
    else if i == 14 {}
    else if i < 29 { RowGrowth(ROW_1, i - 15); }
    else if i == 29 {}
    else if i < 44 { RowGrowth(ROW_2, i - 30); }
    else if i == 44 {}
    else if i < 59 { RowGrowth(ROW_3, i - 45); }
    else if i == 59 {}
    else if i < 74 { RowGrowth(ROW_4, i - 60); }
  }

  lemma StepsInRange(i: Index)
    ensures |STEP_TABLE| == 89
    ensures 7 <= STEP_TABLE[i] <= 32767
  {
    if i < 88 { TableGrowth(i); } else { TableGrowth(87); }
  }

  /** The error one step leaves behind is below the next smaller step. */
  lemma NextStep(i: Index)
    ensures i < 88 ==> StepOf(i) < StepOf(i + 1) && StepOf(i + 1) / 8 + 2 < StepOf(i)
    ensures i == 88 ==> StepOf(i) == 32767
    ensures i == 0 ==> StepOf(i) == 7
    ensures i == 1 ==> StepOf(i) == 8
  {
    if i < 88 { TableGrowth(i); }
  }

  lemma {:induction false} StepsIncrease(i: Index, j: Index)
    requires i <= j
    ensures StepOf(i) <= StepOf(j)
    decreases j - i
  {
    if i < j {
      NextStep(i);
      StepsIncrease(i + 1, j);
    }
  }

  // ------------------------------------------------------- how well it tracks

  lemma QuantisedWithin(error: nat, step: int, b4: bool, b2: bool, b1: bool)
    requires 7 <= step && error < 2 * step
    requires b4 == (error >= step)
    requires b2 == (error - (if b4 then step else 0) >= step / 2)
    requires b1 == (error - (if b4 then step else 0) - (if b2 then step / 2 else 0) >= step / 4)
    ensures Abs(error - Dequantised(Nibble(false, b4, b2, b1), step)) <= step / 8 + 2
  {
  }

  /** A sample the step can reach is reconstructed closely, clamping included. */
  lemma TracksClosely(st: State, sample: Int16)
    requires !st.Overloaded(sample)
    ensures Encode(st, sample).Error(sample) <= st.Step() / 8 + 2
  {
    var n := NibbleFor(st, sample);
    QuantisedWithin(st.Error(sample), st.Step(), n.b4, n.b2, n.b1);
  }

  /** A sample out of reach: all bits set, the error drops by exactly what they
      weigh, the predictor stays on its side of the sample, and the step jumps. */
  lemma OverloadApproaches(st: State, sample: Int16)
    requires st.Overloaded(sample)
    ensures NibbleFor(st, sample) == Nibble(sample < st.predictor, true, true, true)
    ensures var s := st.Step();
            Encode(st, sample).Error(sample) == st.Error(sample) - (s + s / 2 + s / 4 + s / 8)
    ensures if sample < st.predictor then sample <= Encode(st, sample).predictor < st.predictor
            else st.predictor < Encode(st, sample).predictor <= sample
    ensures Encode(st, sample).index == ClampIndex(st.index + 8)
  {
  }

  // ------------------------------------------------------- constant input

  /** The encoder after n samples that all equal `sample`. */
  function Hold(st: State, sample: Int16, n: nat): State {
    if n == 0 then st else Encode(Hold(st, sample, n - 1), sample)
  }

  lemma {:induction false} HoldFromFront(st: State, sample: Int16, n: nat)
    requires n > 0
    ensures Hold(st, sample, n) == Hold(Encode(st, sample), sample, n - 1)
  {
    if n > 1 { HoldFromFront(st, sample, n - 1); }
  }

  function Overloads(st: State, sample: Int16, n: nat): nat
    decreases n
  {
    if n == 0 then 0
    else (if st.Overloaded(sample) then 1 else 0) + Overloads(Encode(st, sample), sample, n - 1)
  }

  /** Within what the next larger step leaves behind: once here, always here. */
  predicate Locked(st: State, sample: Int16) {
    st.Error(sample) <= StepOf(if st.index < 88 then st.index + 1 else 88) / 8 + 2
  }

  lemma SmallErrorSinks(st: State, sample: Int16)
    requires st.Error(sample) < st.Step()
    ensures Encode(st, sample).index == if st.index == 0 then 0 else st.index - 1
  {
    assert !NibbleFor(st, sample).b4;
  }

  /** At the least step, 7, an error of 3 or less is gone in two samples. */
  lemma LeastStepSettles(st: State, sample: Int16)
    requires st.index == 0 && st.Error(sample) <= 3
    ensures Encode(st, sample).Error(sample) == if st.Error(sample) == 2 then 1 else 0
  {
    hide STEP_TABLE, INDEX_TABLE;
    NextStep(0);
  }

  lemma LockedSinks(st: State, sample: Int16)
    requires Locked(st, sample)
    ensures !st.Overloaded(sample)
    ensures Locked(Encode(st, sample), sample)
    ensures Encode(st, sample).index == if st.index == 0 then 0 else st.index - 1
    ensures st.index == 0 ==> st.Error(sample) <= 3
    ensures st.index == 0 ==> Encode(st, sample).Error(sample) == if st.Error(sample) == 2 then 1 else 0
  {
    hide Encode, STEP_TABLE;
    NextStep(st.index);
    NextStep(0);
    NextStep(1);
    TracksClosely(st, sample);
    SmallErrorSinks(st, sample);
    if st.index == 0 { LeastStepSettles(st, sample); }
  }

  lemma ReachableLocks(st: State, sample: Int16)
    requires !st.Overloaded(sample)
    ensures Locked(Encode(st, sample), sample)
  {
    TracksClosely(st, sample);
    var next := Encode(st, sample);
    StepsIncrease(st.index, if next.index < 88 then next.index + 1 else 88);
  }

  lemma {:induction false} LockedSettles(st: State, sample: Int16, n: nat)
    requires Locked(st, sample)
    ensures Overloads(st, sample, n) == 0
    ensures n >= st.index + 2 || (st.index == 0 && (n >= st.Error(sample) || st.Error(sample) == 0)) ==>
              Hold(st, sample, n) == State(sample, 0)
    decreases n
  {
    hide Encode, StepOf;
    if n > 0 {
      LockedSinks(st, sample);
      HoldFromFront(st, sample, n);
      LockedSettles(Encode(st, sample), sample, n - 1);
    }
  }

  lemma {:induction false} OverloadPhase(st: State, sample: Int16, past: nat, n: nat)
    requires past <= 11
    requires st.index >= ClampIndex(8 * past) && st.Error(sample) <= 65535 - 11 * past
    ensures Overloads(st, sample, n) <= 11 - past
    ensures n >= 102 - past ==> Hold(st, sample, n) == State(sample, 0)
    decreases n
  {
    hide Encode, StepOf;
    if n > 0 {
      HoldFromFront(st, sample, n);
      if st.Overloaded(sample) {
        NextStep(st.index);
        OverloadApproaches(st, sample);
        OverloadPhase(Encode(st, sample), sample, past + 1, n - 1);
      } else {
        ReachableLocks(st, sample);
        LockedSettles(Encode(st, sample), sample, n - 1);
      }
    }
  }

  /** From any state at all, a constant input is overloaded at most 11 times, and
      from its 102nd sample on the encoder sits on it exactly, at the least step. */
  lemma ConstantInputConverges(st: State, sample: Int16, n: nat)
    ensures Overloads(st, sample, n) <= 11
    ensures n >= 102 ==> Hold(st, sample, n) == State(sample, 0)
  {
    OverloadPhase(st, sample, 0, n);
  }

  // ------------------------------------------------------------ whole blocks

  /** The encoder's state after a run of samples. */
  function EncoderAfter(st: State, xs: seq<Int16>): State {
    if xs == [] then st else Encode(EncoderAfter(st, xs[..|xs| - 1]), xs[|xs| - 1])
  }

  /** The nibbles it emits along the way. */
  function NibblesFor(st: State, xs: seq<Int16>): (ns: seq<Nibble>)
    ensures |ns| == |xs|
  {
    if xs == [] then []
    else NibblesFor(st, xs[..|xs| - 1]) + [NibbleFor(EncoderAfter(st, xs[..|xs| - 1]), xs[|xs| - 1])]
  }

  /** The decoder's state after a run of nibbles. */
  function DecoderAfter(st: State, ns: seq<Nibble>): State {
    if ns == [] then st else Decode(DecoderAfter(st, ns[..|ns| - 1]), ns[|ns| - 1])
  }

  /** The header, and a byte for every two samples after the first, or part of two. */
  function EncodedSize(count: nat): (size: nat)
    ensures size == 0 <==> count == 0
    ensures count > 0 ==> 2 * (size - 4) - 1 <= count - 1 <= 2 * (size - 4)
  {
    if count == 0 then 0 else 4 + count / 2
  }

  function Header(first: Int16): seq<Byte> {
    [first % 256, first / 256 % 256, 0, 0]
  }

  /** Two nibbles a byte, the earlier one in the low half; an odd one out is padded with 0. */
  function Pack(ns: seq<Nibble>): seq<Byte> {
    seq((|ns| + 1) / 2, j requires 0 <= j < (|ns| + 1) / 2 => PackedByte(ns, j))
  }

  function PackedByte(ns: seq<Nibble>, j: nat): Byte
    requires 2 * j < |ns|
  {
    ns[2 * j].Value() + 16 * if 2 * j + 1 < |ns| then ns[2 * j + 1].Value() else 0
  }

  function Unpack(bytes: seq<Byte>): (ns: seq<Nibble>)
    ensures |ns| == 2 * |bytes|
  {
    seq(2 * |bytes|, t requires 0 <= t < 2 * |bytes| => NibbleOf(if t % 2 == 0 then bytes[t / 2] % 16 else bytes[t / 2] / 16))
  }

  function EncodedBytes(xs: seq<Int16>): seq<Byte>
    requires |xs| > 0
  {
    Header(xs[0]) + Pack(NibblesFor(State(xs[0], 0), xs[1..]))
  }

  /** Two bytes, low one first, in two's complement. */
  function FirstSample(low: Byte, high: Byte): Int16 {
    256 * (if high >= 128 then high - 256 else high as int) + low as int
  }

  /** The state a block header stands for. */
  function HeaderState(bytes: seq<Byte>): State
    requires |bytes| >= 4
  {
    State(FirstSample(bytes[0], bytes[1]), ClampIndex(bytes[2]))
  }

  function DecodedSamples(bytes: seq<Byte>, capacity: nat): seq<Int16> {
    if |bytes| < 4 || capacity == 0 then []
    else
      var ns := Unpack(bytes[4..]);
      var count := if capacity - 1 < |ns| then capacity else |ns| + 1;
      seq(count, k requires 0 <= k < count => DecoderAfter(HeaderState(bytes), ns[..k]).predictor)
  }

  /** The output buffer once the header and m body bytes are in it. */
  ghost predicate BodyWritten(out: seq<Byte>, before: seq<Byte>, first: Int16, ns: seq<Nibble>, m: nat)
    requires 2 * m <= |ns| + 1
  {
    && 4 + m <= |out| == |before|
    && out[..4] == Header(first)
    && (forall j :: 0 <= j < m ==> out[4 + j] == PackedByte(ns, j))
    && out[4 + m..] == before[4 + m..]
  }

  lemma BodyGrows(out: seq<Byte>, before: seq<Byte>, first: Int16, ns: seq<Nibble>, m: nat, b: Byte)
    requires 2 * m < |ns|
    requires BodyWritten(out, before, first, ns, m)
    requires 4 + m < |out|
    requires b == ns[2 * m].Value() + 16 * if 2 * m + 1 < |ns| then ns[2 * m + 1].Value() else 0
    ensures BodyWritten(out[4 + m := b], before, first, ns, m + 1)
  {
    hide Header;
    var next := out[4 + m := b];
    assert next[..4] == out[..4];
    assert next[4 + (m + 1)..] == out[4 + m..][1..];
  }

  lemma BodyComplete(out: seq<Byte>, before: seq<Byte>, first: Int16, ns: seq<Nibble>)
    requires BodyWritten(out, before, first, ns, (|ns| + 1) / 2)
    ensures out[..4 + (|ns| + 1) / 2] == Header(first) + Pack(ns)
    ensures out[4 + (|ns| + 1) / 2..] == before[4 + (|ns| + 1) / 2..]
  {
    hide PackedByte, Header;
    var block := out[..4 + (|ns| + 1) / 2];
    assert block == block[..4] + block[4..];
    assert block[..4] == out[..4];
    assert block[4..] == Pack(ns);
  }

  method EncodeBlock(input: array?<Int16>, count: nat, out: array?<Byte>, outCap: nat) returns (written: nat)
    requires input != null ==> count <= input.Length
    requires out != null ==> outCap <= out.Length
    modifies if out == null then {} else {out}
    ensures input == null || out == null || count == 0 || outCap < EncodedSize(count) ==>
              written == 0 && (out != null ==> out[..] == old(out[..]))
    ensures input != null && out != null && count > 0 && outCap >= EncodedSize(count) ==>
              && written == EncodedSize(count)
              && out[..written] == EncodedBytes(input[..count])
              && out[written..] == old(out[..])[written..]
  {
    if input == null || out == null || count == 0 { return 0; }
    if outCap < EncodedSize(count) { return 0; }
    written := EncodeInto(input, count, out);
  }

  /** k nibbles are packed: whole bytes below outIdx, and one nibble in accum if `low` is false. */
  ghost predicate Packing(
      out: seq<Byte>, before: seq<Byte>, first: Int16, ns: seq<Nibble>, k: nat, outIdx: nat, low: bool, accum: Byte)
  {
    && 4 <= outIdx && k <= |ns| && k == 2 * (outIdx - 4) + (if low then 0 else 1)
    && (!low ==> accum == ns[k - 1].Value())
    && BodyWritten(out, before, first, ns, outIdx - 4)
  }

  method PutNibble(
      nib: Nibble, out: array<Byte>, outIdx: nat, low: bool, accum: Byte,
      ghost before: seq<Byte>, ghost first: Int16, ghost ns: seq<Nibble>, ghost k: nat)
      returns (outIdx': nat, low': bool, accum': Byte)
    requires k < |ns| && nib == ns[k] && 4 + (|ns| + 1) / 2 <= out.Length
    requires Packing(out[..], before, first, ns, k, outIdx, low, accum)
    modifies out
    ensures Packing(out[..], before, first, ns, k + 1, outIdx', low', accum')
  {
    hide BodyWritten;
    if low {
      return outIdx, false, nib.Value();
    }
    BodyGrows(out[..], before, first, ns, outIdx - 4, accum + 16 * nib.Value());
    out[outIdx] := accum + 16 * nib.Value();
    return outIdx + 1, true, accum + 16 * nib.Value();
  }

  /** The last byte, if a nibble is left over. */
  method PutLast(
      out: array<Byte>, outIdx: nat, low: bool, accum: Byte,
      ghost before: seq<Byte>, ghost first: Int16, ghost ns: seq<Nibble>) returns (written: nat)
    requires 4 + (|ns| + 1) / 2 <= out.Length
    requires Packing(out[..], before, first, ns, |ns|, outIdx, low, accum)
    modifies out
    ensures written == 4 + (|ns| + 1) / 2 && BodyWritten(out[..], before, first, ns, written - 4)
  {
    hide BodyWritten;
    if low { return outIdx; }
    BodyGrows(out[..], before, first, ns, outIdx - 4, accum);
    out[outIdx] := accum;
    return outIdx + 1;
  }

  method EncodeInto(input: array<Int16>, count: nat, out: array<Byte>) returns (written: nat)
    requires 0 < count <= input.Length && EncodedSize(count) <= out.Length
    modifies out
    ensures written == EncodedSize(count)
    ensures out[..written] == EncodedBytes(input[..count])
    ensures out[written..] == old(out[..])[written..]
  {
    hide Decode, NibbleFor, Pack, Header, BodyWritten, Packing, PackedByte, StepOf, STEP_TABLE, INDEX_TABLE;
    ghost var first, xs, before := input[0], input[1..count], out[..];
    assert xs == input[..count][1..];
    ghost var start := State(first, 0);
    ghost var ns := NibblesFor(start, xs);
    var codec := new Codec(input[0], 0);
    out[0] := codec.predictor % 256;
    out[1] := codec.predictor / 256 % 256;
    out[2] := codec.stepIndex;
    out[3] := 0;
    HeaderWritten(out[..], before, first, ns);
    var outIdx, low, accum: Byte := 4, true, 0;
    NothingPacked(out[..], before, first, ns);
    for i := 1 to count
      invariant fresh(codec) && codec.Value() == EncoderAfter(start, xs[..i - 1])
      invariant Packing(out[..], before, first, ns, i - 1, outIdx, low, accum)
    {
      EncoderStep(start, xs, i - 1);
      var nib := codec.EncodeSample(input[i]);
      outIdx, low, accum := PutNibble(nib, out, outIdx, low, accum, before, first, ns, i - 1);
    }
    written := PutLast(out, outIdx, low, accum, before, first, ns);
    BodyComplete(out[..], before, first, ns);
  }

  lemma NothingPacked(out: seq<Byte>, before: seq<Byte>, first: Int16, ns: seq<Nibble>)
    requires BodyWritten(out, before, first, ns, 0)
    ensures Packing(out, before, first, ns, 0, 4, true, 0)
  {
  }

  lemma HeaderWritten(out: seq<Byte>, before: seq<Byte>, first: Int16, ns: seq<Nibble>)
    requires |out| == |before| >= 4
    requires out[0] == first % 256 && out[1] == first / 256 % 256 && out[2] == 0 && out[3] == 0
    requires out[4..] == before[4..]
    ensures BodyWritten(out, before, first, ns, 0)
  {
  }

  lemma EncoderStep(st: State, xs: seq<Int16>, k: nat)
    requires k < |xs|
    ensures NibblesFor(st, xs)[k] == NibbleFor(EncoderAfter(st, xs[..k]), xs[k])
    ensures EncoderAfter(st, xs[..k + 1]) == Encode(EncoderAfter(st, xs[..k]), xs[k])
  {
    hide Encode, NibbleFor;
    NibblesOfPrefix(st, xs, k + 1);
    assert xs[..k + 1][..k] == xs[..k];
  }

  method DecodeBlock(input: array?<Byte>, inLen: nat, out: array?<Int16>, capacity: nat) returns (count: nat)
    requires input != null ==> inLen <= input.Length
    requires out != null ==> capacity <= out.Length
    modifies if out == null then {} else {out}
    ensures input == null || out == null ==> count == 0 && (out != null ==> out[..] == old(out[..]))
    ensures input != null && out != null ==>
              && count <= out.Length
              && out[..count] == DecodedSamples(input[..inLen], capacity)
              && out[count..] == old(out[..])[count..]
  {
    if input == null || out == null || inLen < 4 { return 0; }
    count := DecodeInto(input, inLen, out, capacity);
  }

  method DecodeInto(input: array<Byte>, inLen: nat, out: array<Int16>, capacity: nat) returns (count: nat)
    requires 4 <= inLen <= input.Length && capacity <= out.Length
    modifies out
    ensures count <= out.Length
    ensures out[..count] == DecodedSamples(input[..inLen], capacity)
    ensures out[count..] == old(out[..])[count..]
  {
    hide Decode, DecoderAfter, NibbleOf, DecodedSamples, SamplesWritten, STEP_TABLE, INDEX_TABLE;
    ghost var bytes, before := input[..inLen], out[..];
    ghost var ns := Unpack(bytes[4..]);
    ghost var start := HeaderState(bytes);
    var codec := new Codec(FirstSample(input[0], input[1]), ClampIndex(input[2]));
    if capacity == 0 {
      assert DecodedSamples(bytes, capacity) == [] by { NothingDecoded(bytes); }
      return 0;
    }
    out[0] := codec.predictor;
    FirstWritten(before, bytes);
    count := 1;
    var b := 4;
    while b < inLen && count < capacity
      invariant 4 <= b <= inLen && 1 <= count <= capacity <= out.Length
      invariant count == 2 * (b - 4) + 1 || (count == 2 * (b - 4) && count == capacity)
      invariant fresh(codec) && codec.Value() == DecoderAfter(start, ns[..count - 1])
      invariant SamplesWritten(out[..], before, start, ns, count)
    {
      DecoderStep(start, bytes[4..], b - 4);
      assert bytes[4..][b - 4] == input[b];
      var y := codec.DecodeSample(NibbleOf(input[b] % 16));
      SamplesGrow(out[..], before, start, ns, count);
      out[count] := y;
      count := count + 1;
      if count >= capacity {
        b := b + 1;
        break;
      }
      y := codec.DecodeSample(NibbleOf(input[b] / 16));
      SamplesGrow(out[..], before, start, ns, count);
      out[count] := y;
      count := count + 1;
      b := b + 1;
    }
    SamplesComplete(out[..], before, bytes, capacity, count);
  }

  lemma NothingDecoded(bytes: seq<Byte>)
    ensures DecodedSamples(bytes, 0) == []
  {
  }

  ghost predicate SamplesWritten(out: seq<Int16>, before: seq<Int16>, start: State, ns: seq<Nibble>, count: nat)
    requires count <= |ns| + 1
  {
    && count <= |out| == |before|
    && (forall k :: 0 <= k < count ==> out[k] == DecoderAfter(start, ns[..k]).predictor)
    && out[count..] == before[count..]
  }

  lemma FirstWritten(before: seq<Int16>, bytes: seq<Byte>)
    requires |bytes| >= 4 && |before| > 0
    ensures var start := HeaderState(bytes);
            && start == DecoderAfter(start, Unpack(bytes[4..])[..0])
            && SamplesWritten(before[0 := start.predictor], before, start, Unpack(bytes[4..]), 1)
  {
  }

  lemma SamplesGrow(out: seq<Int16>, before: seq<Int16>, start: State, ns: seq<Nibble>, count: nat)
    requires count <= |ns| && count < |out|
    requires SamplesWritten(out, before, start, ns, count)
    ensures SamplesWritten(out[count := DecoderAfter(start, ns[..count]).predictor], before, start, ns, count + 1)
  {
    hide DecoderAfter;
    var next := out[count := DecoderAfter(start, ns[..count]).predictor];
    assert next[count + 1..] == out[count..][1..];
  }

  lemma SamplesComplete(out: seq<Int16>, before: seq<Int16>, bytes: seq<Byte>, capacity: nat, count: nat)
    requires |bytes| >= 4 && capacity > 0
    requires count == if capacity - 1 < 2 * (|bytes| - 4) then capacity else 2 * (|bytes| - 4) + 1
    requires SamplesWritten(out, before, HeaderState(bytes), Unpack(bytes[4..]), count)
    ensures out[..count] == DecodedSamples(bytes, capacity)
    ensures out[count..] == before[count..]
  {
    hide DecoderAfter, HeaderState;
  }

  lemma DecoderStep(st: State, bytes: seq<Byte>, j: nat)
    requires j < |bytes|
    ensures var ns := Unpack(bytes);
            && DecoderAfter(st, ns[..2 * j + 1]) == Decode(DecoderAfter(st, ns[..2 * j]), NibbleOf(bytes[j] % 16))
            && DecoderAfter(st, ns[..2 * j + 2]) == Decode(DecoderAfter(st, ns[..2 * j + 1]), NibbleOf(bytes[j] / 16))
  {
    hide Decode, NibbleOf;
    var ns := Unpack(bytes);
    assert ns[..2 * j + 1][..2 * j] == ns[..2 * j];
    assert ns[..2 * j + 2][..2 * j + 1] == ns[..2 * j + 1];
    assert ns[2 * j] == NibbleOf(bytes[j] % 16);
    assert ns[2 * j + 1] == NibbleOf(bytes[j] / 16);
  }

  // ----------------------------------------------------------- the round trip

  lemma {:induction false} LockStep(st: State, xs: seq<Int16>)
    ensures DecoderAfter(st, NibblesFor(st, xs)) == EncoderAfter(st, xs)
  {
    hide Decode, NibbleFor;
    if xs != [] {
      var init := xs[..|xs| - 1];
      LockStep(st, init);
      assert NibblesFor(st, xs)[..|init|] == NibblesFor(st, init);
    }
  }

  lemma {:induction false} NibblesOfPrefix(st: State, xs: seq<Int16>, k: nat)
    requires k <= |xs|
    ensures NibblesFor(st, xs)[..k] == NibblesFor(st, xs[..k])
  {
    if k < |xs| {
      NibblesOfPrefix(st, xs[..|xs| - 1], k);
      assert xs[..|xs| - 1][..k] == xs[..k];
    } else {
      assert xs[..k] == xs;
    }
  }

  lemma UnpackPack(ns: seq<Nibble>)
    ensures Unpack(Pack(ns)) == ns + if |ns| % 2 == 1 then [NibbleOf(0)] else []
  {
    hide NibbleOf;
    var pad := if |ns| % 2 == 1 then [NibbleOf(0)] else [];
    forall t | 0 <= t < |ns + pad|
      ensures Unpack(Pack(ns))[t] == (ns + pad)[t]
    {
      var j := t / 2;
      assert Pack(ns)[j] == PackedByte(ns, j);
      Halves(ns[2 * j], if 2 * j + 1 < |ns| then ns[2 * j + 1].Value() else 0);
      if 2 * j + 1 < |ns| { NibbleOfValue(ns[2 * j + 1]); }
    }
  }

  lemma Halves(low: Nibble, high: Byte)
    requires high < 16
    ensures var b: Byte := low.Value() + 16 * high; NibbleOf(b % 16) == low && b / 16 == high
  {
    NibbleOfValue(low);
  }

  lemma NibbleOfValue(n: Nibble)
    ensures NibbleOf(n.Value()) == n
  {
  }

  /** What decoding an encoded block gives, for any room in the output: as many
      samples as were encoded, one more if their number is even and there is room,
      and each of them the encoder's own predictor at that point. */
  lemma RoundTrip(xs: seq<Int16>, capacity: nat)
    requires |xs| > 0
    ensures |EncodedBytes(xs)| == EncodedSize(|xs|)
    ensures var ys := DecodedSamples(EncodedBytes(xs), capacity);
            var full := if |xs| % 2 == 0 then |xs| + 1 else |xs|;
            && |ys| == (if capacity < full then capacity else full)
            && forall k :: 0 <= k < |ys| && k < |xs| ==> ys[k] == EncoderAfter(State(xs[0], 0), xs[1..k + 1]).predictor
  {
    hide Encode, Decode, NibbleFor, NibbleOf, PackedByte, EncodedBytes, HeaderState, Pack;
    BlockParts(xs);
    var ys := DecodedSamples(EncodedBytes(xs), capacity);
    forall k | 0 <= k < |ys| && k < |xs|
      ensures ys[k] == EncoderAfter(State(xs[0], 0), xs[1..k + 1]).predictor
    {
      DecodedState(xs, k);
    }
  }

  lemma BlockParts(xs: seq<Int16>)
    requires |xs| > 0
    ensures var bytes := EncodedBytes(xs);
            && |bytes| == EncodedSize(|xs|)
            && HeaderState(bytes) == State(xs[0], 0)
            && bytes[4..] == Pack(NibblesFor(State(xs[0], 0), xs[1..]))
            && |Unpack(bytes[4..])| == 2 * (|xs| / 2)
  {
    hide NibblesFor, PackedByte, NibbleOf;
  }

  lemma DecodedState(xs: seq<Int16>, k: nat)
    requires k < |xs|
    ensures var bytes, st := EncodedBytes(xs), State(xs[0], 0);
            && |bytes| >= 4 && k <= |Unpack(bytes[4..])|
            && DecoderAfter(HeaderState(bytes), Unpack(bytes[4..])[..k]) == EncoderAfter(st, xs[1..k + 1])
  {
    var st := State(xs[0], 0);
    var ns := NibblesFor(st, xs[1..]);
    BlockParts(xs);
    UnpackPack(ns);
    NibblesOfPrefix(st, xs[1..], k);
    assert xs[1..][..k] == xs[1..k + 1];
    assert Unpack(Pack(ns))[..k] == ns[..k];
    LockStep(st, xs[1..k + 1]);
    hide EncodedBytes, Pack, Unpack, NibblesFor, DecoderAfter, EncoderAfter, HeaderState;
  }

  /** A decoded sample against its original and the decoded sample before it. */
  predicate Follows(st: State, before: Int16, after: Int16, sample: Int16) {
    if st.Overloaded(sample) then Abs(sample - after) < Abs(sample - before)
    else Abs(sample - after) <= st.Step() / 8 + 2
  }

  /** The same, as the listener hears it: every decoded sample is close to the
      original when the encoder could reach it, and closer than before when not. */
  lemma DecodedTracksOriginal(xs: seq<Int16>, k: nat)
    requires 0 < k < |xs|
    ensures var ys := DecodedSamples(EncodedBytes(xs), |xs|);
            && |ys| == |xs|
            && ys[0] == xs[0]
            && Follows(EncoderAfter(State(xs[0], 0), xs[1..k]), ys[k - 1], ys[k], xs[k])
  {
    hide Encode, Decode, NibbleFor, EncodedBytes, DecodedSamples, STEP_TABLE;
    RoundTrip(xs, |xs|);
    var st := EncoderAfter(State(xs[0], 0), xs[1..k]);
    assert xs[1..k + 1][..k - 1] == xs[1..k];
    assert xs[1..1] == [];
    assert xs[1..(k - 1) + 1] == xs[1..k];
    if st.Overloaded(xs[k]) { OverloadApproaches(st, xs[k]); } else { TracksClosely(st, xs[k]); }
  }

  lemma {:induction false} ConstantTailHolds(st: State, xs: seq<Int16>, from: nat)
    requires from <= |xs|
    requires forall i :: from <= i < |xs| ==> xs[i] == xs[from]
    ensures from < |xs| ==>
              EncoderAfter(st, xs) == Hold(EncoderAfter(st, xs[..from]), xs[from], |xs| - from)
  {
    hide Encode;
    if from < |xs| {
      ConstantTailHolds(st, xs[..|xs| - 1], from);
      assert xs[..|xs| - 1][..from] == xs[..from];
    }
  }

  /** After 102 equal samples anywhere in a block, the decoded sample is exact. */
  lemma SilenceIsExact(xs: seq<Int16>, from: nat, k: nat)
    requires 1 <= from && from + 101 <= k < |xs|
    requires forall i :: from <= i <= k ==> xs[i] == xs[from]
    ensures |DecodedSamples(EncodedBytes(xs), |xs|)| == |xs|
    ensures DecodedSamples(EncodedBytes(xs), |xs|)[k] == xs[k]
  {
    hide Encode, EncodedBytes, DecodedSamples;
    RoundTrip(xs, |xs|);
    var st, zs := State(xs[0], 0), xs[1..k + 1];
    ConstantTailHolds(st, zs, from - 1);
    ConstantInputConverges(EncoderAfter(st, zs[..from - 1]), xs[from], |zs| - (from - 1));
  }
}
