/** One UART frame: what `send` drives onto tx and how `rcv` turns eight
    sampled levels back into a value.

    A frame is a start bit (0), eight data bits least-significant first, and,
    when the transceiver is configured with `stop`, a stop bit (1). There is
    never a parity slot. Each element of an encoded frame is the level held on
    the line for one bit period.
 */
module Frame {
  import opened Bits

  /** The only data width the transceiver accepts. */
  const DataSize: nat := 8

  const StartBit: bit := 0
  const StopBit: bit := 1

  /** Number of bit periods `send` holds the line for one frame. */
  function FrameLength(stop: bool): nat
  {
    if stop then DataSize + 2 else DataSize + 1
  }

  /** The levels `send(b)` drives, in order: the argument is masked to eight
      bits, then shifted out one bit per period. */
  function Encode(b: int, stop: bool): (r: seq<bit>)
    ensures |r| == FrameLength(stop)
    ensures r[0] == StartBit
    ensures stop ==> r[DataSize + 1] == StopBit
  {
    [StartBit] + LsbBits(Mask(b), DataSize) + (if stop then [StopBit] else [])
  }

  /** Slot `i + 1` of a frame carries bit `i` of the masked argument. */
  lemma EncodeDataBits(b: int, stop: bool)
    ensures forall i :: 0 <= i < DataSize ==> Encode(b, stop)[i + 1] == BitOf(Mask(b), i)
  {
    var bits := LsbBits(Mask(b), DataSize);
    forall i | 0 <= i < DataSize
      ensures Encode(b, stop)[i + 1] == BitOf(Mask(b), i)
    {
      assert Encode(b, stop)[i + 1] == bits[i];
      LsbBitsAt(Mask(b), DataSize, i);
    }
  }

  /** The data slots of a frame: the eight levels after the start bit. */
  function DataSlots(frame: seq<bit>): seq<bit>
    requires |frame| >= DataSize + 1
  {
    frame[1..DataSize + 1]
  }

  /** The character `"{:1d}".format(level)` yields for a sampled level. */
  function Digit(x: bit): char
  {
    if x == 1 then '1' else '0'
  }

  predicate IsBinary(d: seq<char>)
  {
    forall i :: 0 <= i < |d| ==> d[i] == '0' || d[i] == '1'
  }

  /** The string `rcv` builds: every newly sampled level is prepended to the
      digits of the levels sampled before it, so the last sample ends up first. */
  function Assemble(samples: seq<bit>): (d: seq<char>)
    ensures |d| == |samples|
    ensures IsBinary(d)
    ensures forall k :: 0 <= k < |d| ==> d[k] == Digit(samples[|samples| - 1 - k])
  {
    if |samples| == 0 then []
    else [Digit(samples[|samples| - 1])] + Assemble(samples[..|samples| - 1])
  }

  /** Python's `int("0b" + d, 2)`: the digits are read most-significant first. */
  function BinaryValue(d: seq<char>): (r: nat)
    requires IsBinary(d)
    ensures r < Pow2(|d|)
  {
    if |d| == 0 then 0
    else 2 * BinaryValue(d[..|d| - 1]) + (if d[|d| - 1] == '1' then 1 else 0)
  }

  /** The value `rcv` appends to the buffer for eight sampled levels. The
      first sample is the least-significant bit. */
  function Decode(samples: seq<bit>): (r: byte)
    requires |samples| == DataSize
    ensures r == LsbValue(samples)
  {
    AssembledValue(samples);
    BinaryValue(Assemble(samples))
  }

  /** A leading digit weighs `2^(number of digits after it)`. */
  lemma {:induction false} BinaryValueCons(c: char, d: seq<char>)
    requires c == '0' || c == '1'
    requires IsBinary(d)
    ensures IsBinary([c] + d)
    ensures BinaryValue([c] + d) == (if c == '1' then Pow2(|d|) else 0) + BinaryValue(d)
  {
    var cd := [c] + d;
    if |d| > 0 {
      assert cd[..|cd| - 1] == [c] + d[..|d| - 1];
      BinaryValueCons(c, d[..|d| - 1]);
    } else {
      assert cd[..|cd| - 1] == [];
    }
  }

  /** Reading the prepended digit string most-significant first is the same
      as reading the samples least-significant first. */
  lemma {:induction false} AssembledValue(samples: seq<bit>)
    ensures BinaryValue(Assemble(samples)) == LsbValue(samples)
  {
    if |samples| > 0 {
      var n := |samples| - 1;
      var init, last := samples[..n], samples[n];
      AssembledValue(init);
      BinaryValueCons(Digit(last), Assemble(init));
      LsbValueSnoc(init, last);
      assert init + [last] == samples;
    }
  }

  /** Decoding the data slots of an encoded frame gives back the masked byte,
      with or without a stop bit. */
  lemma RoundTrip(b: int, stop: bool)
    ensures Decode(DataSlots(Encode(b, stop))) == Mask(b)
  {
    var v := Mask(b);
    var bits := LsbBits(v, DataSize);
    assert Encode(b, stop) == [StartBit] + bits + (if stop then [StopBit] else []);
    FrameSlots(bits, stop);
    LsbValueOfBits(v, DataSize);
    Pow2Eight();
    assert Mask(v) == v;
  }

  lemma Pow2Eight()
    ensures Pow2(DataSize) == 256
  {
    assert Pow2(4) == 16;
  }

  /** Encoding a decoded value reproduces the eight samples it came from, so
      `Decode` loses nothing. */
  lemma EncodeDecoded(samples: seq<bit>, stop: bool)
    requires |samples| == DataSize
    ensures DataSlots(Encode(Decode(samples), stop)) == samples
  {
    var v := Decode(samples);
    assert Encode(v, stop) == [StartBit] + LsbBits(v, DataSize) + (if stop then [StopBit] else []);
    FrameSlots(LsbBits(v, DataSize), stop);
    BitsOfLsbValue(samples);
  }

  lemma FrameSlots(bits: seq<bit>, stop: bool)
    requires |bits| == DataSize
    ensures DataSlots([StartBit] + bits + (if stop then [StopBit] else [])) == bits
  {
  }

  /** Two arguments give the same frame exactly when their low eight bits agree. */
  lemma EncodeMasks(b1: int, b2: int, stop: bool)
    ensures Encode(b1, stop) == Encode(b2, stop) <==> Mask(b1) == Mask(b2)
  {
    if Encode(b1, stop) == Encode(b2, stop) {
      RoundTrip(b1, stop);
      RoundTrip(b2, stop);
    }
  }

  /** Sending 0xB2 drives 0, then 0,1,0,0,1,1,0,1 (LSB first), then the stop bit.

      This and the other worked examples take their constant as a parameter
      pinned by a `requires` rather than writing it in the statement: with a
      literal argument the verifier unfolds `Encode`, `Receive` and their
      helpers eagerly, which costs far more than the step-by-step proofs. */
  lemma EncodeB2(b: int)
    requires b == 0xB2
    ensures Encode(b, true) == [0, 0, 1, 0, 0, 1, 1, 0, 1, 1]
    ensures Decode(DataSlots(Encode(b, true))) == b
  {
    RoundTrip(b, true);
    LevelsOfB2(b);
  }

  lemma LevelsOfB2(b: int)
    requires b == 0xB2
    ensures Encode(b, true) == [0, 0, 1, 0, 0, 1, 1, 0, 1, 1]
  {
    assert Mask(b) == 178;
    BitsOf178();
  }

  lemma BitsOf178()
    ensures LsbBits(178, DataSize) == [0, 1, 0, 0, 1, 1, 0, 1]
  {
    assert LsbBits(0, 0) == [];
    assert LsbBits(1, 1) == [1];
    assert LsbBits(2, 2) == [0, 1];
    assert LsbBits(5, 3) == [1, 0, 1];
    assert LsbBits(11, 4) == [1, 1, 0, 1];
    assert LsbBits(22, 5) == [0, 1, 1, 0, 1];
    assert LsbBits(44, 6) == [0, 0, 1, 1, 0, 1];
    assert LsbBits(89, 7) == [1, 0, 0, 1, 1, 0, 1];
  }

  /** `n` bit periods at level `x`. */
  function Repeat(x: bit, n: nat): (r: seq<bit>)
    ensures |r| == n
    ensures forall i :: 0 <= i < n ==> r[i] == x
  {
    if n == 0 then [] else [x] + Repeat(x, n - 1)
  }

  /** The first of `n` repeated levels, and what is left after it. */
  lemma RepeatCons(x: bit, n: nat, tail: seq<bit>)
    requires n >= 1
    ensures (Repeat(x, n) + tail)[0] == x
    ensures (Repeat(x, n) + tail)[1..] == Repeat(x, n - 1) + tail
  {
    assert Repeat(x, n) == [x] + Repeat(x, n - 1);
  }

  /** One `send(b)` followed by a wait of `gap` bit periods, during which tx
      keeps the last level `send` drove. */
  function SendSlots(b: int, stop: bool, gap: nat): (r: seq<bit>)
    ensures |r| == FrameLength(stop) + gap
    ensures r[..FrameLength(stop)] == Encode(b, stop)
    ensures forall i :: FrameLength(stop) <= i < |r| ==> r[i] == (if stop then StopBit else BitOf(Mask(b), DataSize - 1))
  {
    EncodeDataBits(b, stop);
    var frame := Encode(b, stop);
    frame + Repeat(frame[|frame| - 1], gap)
  }

  /** The tx trace of a run of sends, each followed by the same wait. */
  function EncodeAll(values: seq<int>, stop: bool, gap: nat): (r: seq<bit>)
    ensures r == [] <==> values == []
    ensures values != [] ==> r[0] == StartBit
  {
    if |values| == 0 then [] else SendSlots(values[0], stop, gap) + EncodeAll(values[1..], stop, gap)
  }

  lemma MulSucc(n: nat, k: nat)
    ensures (n + 1) * k == k + n * k
  {
  }

  /** Every send holds the line for one frame length plus the wait. */
  lemma {:induction false} EncodeAllLength(values: seq<int>, stop: bool, gap: nat)
    ensures |EncodeAll(values, stop, gap)| == |values| * (FrameLength(stop) + gap)
  {
    if |values| > 0 {
      EncodeAllLength(values[1..], stop, gap);
      MulSucc(|values| - 1, FrameLength(stop) + gap);
    }
  }

  /** One more send appends exactly its frame and wait to the trace. */
  lemma {:induction false} EncodeAllSnoc(values: seq<int>, v: int, stop: bool, gap: nat)
    ensures EncodeAll(values + [v], stop, gap) == EncodeAll(values, stop, gap) + SendSlots(v, stop, gap)
  {
    if |values| == 0 {
      assert values + [v] == [v];
    } else {
      assert (values + [v])[1..] == values[1..] + [v];
      EncodeAllSnoc(values[1..], v, stop, gap);
    }
  }

  /** With stop bits, the wait after a frame holds the line high. */
  lemma SendSlotsStop(b: int, gap: nat)
    ensures SendSlots(b, true, gap) == Encode(b, true) + Repeat(StopBit, gap)
  {
  }

  /** A run of sends with stop bits: the first frame, its wait, then the rest. */
  lemma EncodeAllCons(values: seq<int>, gap: nat)
    requires |values| > 0
    ensures EncodeAll(values, true, gap)
         == Encode(values[0], true) + (Repeat(StopBit, gap) + EncodeAll(values[1..], true, gap))
  {
    SendSlotsStop(values[0], gap);
    AppendAssoc(Encode(values[0], true), Repeat(StopBit, gap), EncodeAll(values[1..], true, gap));
  }

  /** What follows a frame does not change its data slots. */
  lemma DataSlotsPrefix(frame: seq<bit>, rest: seq<bit>)
    requires |frame| >= DataSize + 1
    ensures DataSlots(frame + rest) == DataSlots(frame)
  {
  }

  /** Sending 0x0D drives 0, then 1,0,1,1,0,0,0,0 (LSB first), then the stop bit. */
  lemma LevelsOfCR(b: int)
    requires b == 0x0D
    ensures Encode(b, true) == [0, 1, 0, 1, 1, 0, 0, 0, 0, 1]
  {
    assert Mask(b) == 13;
    assert LsbBits(0, 4) == [0, 0, 0, 0];
    assert LsbBits(1, 5) == [1, 0, 0, 0, 0];
    assert LsbBits(3, 6) == [1, 1, 0, 0, 0, 0];
    assert LsbBits(6, 7) == [0, 1, 1, 0, 0, 0, 0];
  }
}
