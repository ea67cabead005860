/** The `Uart` transceiver object: construction-time validation of its
    configuration, the received-value buffer, the receive loop over the rx
    line, and sending a command string on tx.

    Simulated time is abstracted to bit periods ("slots"): a line is the
    sequence of levels it holds, one per bit period, and the receiver looks
    at each slot once.
 */
module Transceiver {
  import opened Bits
  import Frame
  import RxText

  datatype Config = Config(speed: int, parity: bool, datasize: int, stop: bool)

  datatype ConfigError =
    | ZeroSpeed                       // `10**9/speed` divides by zero
    | ParityNotImplemented
    | UnsupportedDataSize(datasize: int)

  datatype Result<T> = Ok(value: T) | Err(error: ConfigError)

  /** A constructed transceiver: its configuration and `rx_buf`. */
  datatype Uart = Uart(config: Config, rxBuf: seq<byte>)

  /** The configurations construction accepts. */
  predicate Valid(c: Config)
  {
    c.speed != 0 && !c.parity && c.datasize == Frame.DataSize
  }

  /** `Uart(...)`: the bit period is computed first, then parity is refused,
      then any data width other than eight; a new object starts with an empty
      buffer. */
  function New(speed: int, parity: bool, datasize: int, stop: bool): (r: Result<Uart>)
    ensures r.Ok? <==> Valid(Config(speed, parity, datasize, stop))
    ensures r.Ok? ==> r.value.config == Config(speed, parity, datasize, stop) && r.value.rxBuf == []
    ensures speed == 0 ==> r == Err(ZeroSpeed)
    ensures speed != 0 && parity ==> r == Err(ParityNotImplemented)
    ensures speed != 0 && !parity && datasize != Frame.DataSize ==> r == Err(UnsupportedDataSize(datasize))
  {
    if speed == 0 then Err(ZeroSpeed)
    else if parity then Err(ParityNotImplemented)
    else if datasize != Frame.DataSize then Err(UnsupportedDataSize(datasize))
    else Ok(Uart(Config(speed, parity, datasize, stop), []))
  }

  /** Whether construction succeeds depends on parity and data width only
      (given a non-zero speed): `stop` and the value of the speed play no part. */
  lemma NewIgnoresSpeedAndStop(s1: int, s2: int, parity: bool, datasize: int, stop1: bool, stop2: bool)
    requires s1 != 0 && s2 != 0
    ensures New(s1, parity, datasize, stop1).Ok? == New(s2, parity, datasize, stop2).Ok?
    ensures New(s1, parity, datasize, stop1).Ok? <==> !parity && datasize == Frame.DataSize
  {
  }

  /** `init`: the one operation that empties the buffer. */
  function Init(u: Uart): (r: Uart)
    ensures r.config == u.config
    ensures r.rxBuf == []
  {
    u.(rxBuf := [])
  }

  /** End of one frame in `rcv`: the eight sampled levels are decoded and the
      value appended; earlier entries stay as they were. */
  function FrameReceived(u: Uart, samples: seq<bit>): (r: Uart)
    requires |samples| == Frame.DataSize
    ensures r.config == u.config
    ensures |r.rxBuf| == |u.rxBuf| + 1
    ensures r.rxBuf[..|u.rxBuf|] == u.rxBuf
    ensures r.rxBuf[|u.rxBuf|] == LsbValue(samples)
  {
    u.(rxBuf := u.rxBuf + [Frame.Decode(samples)])
  }

  /** Slots a frame occupies on the receiving side: start, eight data bits,
      and the stop slot, which is waited out but never sampled. */
  const RxFrameSlots: nat := Frame.DataSize + 2

  /** The `rcv` loop over the rx line, one level per slot; `prev` is the level
      of the slot before the first one. In IDLE, a slot at 0 after a slot at 1
      is a falling edge, the start of a frame, and the next eight slots are
      sampled. The wait for the stop slot is a race between a timer 300 ns
      longer than a bit period and any edge, so an edge at the end of the stop
      slot ends that wait instead of reaching the IDLE wait: the loop resumes
      with the slot after the one following the stop slot. A frame that the
      line ends in the middle of appends nothing. */
  function Receive(line: seq<bit>, prev: bit): (r: seq<byte>)
    ensures (RxFrameSlots + 1) * |r| <= |line| + 1
    decreases |line|
  {
    if |line| == 0 then []
    else if prev == 1 && line[0] == 0 then
      if |line| < RxFrameSlots then []
      else if |line| == RxFrameSlots then [Frame.Decode(Frame.DataSlots(line))]
      else [Frame.Decode(Frame.DataSlots(line))] + Receive(line[RxFrameSlots + 1..], line[RxFrameSlots])
    else Receive(line[1..], line[0])
  }

  /** The receive loop as it is evidently meant to work: the stop-slot wait
      ends with the stop slot, so a start bit right after it is seen by the
      IDLE wait. */
  function ReceiveResync(line: seq<bit>, prev: bit): (r: seq<byte>)
    ensures RxFrameSlots * |r| <= |line|
    decreases |line|
  {
    if |line| == 0 then []
    else if prev == 1 && line[0] == 0 then
      if |line| < RxFrameSlots then []
      else [Frame.Decode(Frame.DataSlots(line))] + ReceiveResync(line[RxFrameSlots..], line[RxFrameSlots - 1])
    else ReceiveResync(line[1..], line[0])
  }

  /** The transceiver listening to `line` from the idle-high state: every
      completed frame adds one value at the end of the buffer. */
  function Listen(u: Uart, line: seq<bit>): (r: Uart)
    ensures r.config == u.config
    ensures |u.rxBuf| <= |r.rxBuf|
    ensures r.rxBuf[..|u.rxBuf|] == u.rxBuf
  {
    u.(rxBuf := u.rxBuf + Receive(line, 1))
  }

  /** Idle-high slots seen in IDLE start nothing, for either receiver. */
  lemma {:induction false} ReceiveIdle(n: nat, rest: seq<bit>)
    ensures Receive(Frame.Repeat(1, n) + rest, 1) == Receive(rest, 1)
    ensures ReceiveResync(Frame.Repeat(1, n) + rest, 1) == ReceiveResync(rest, 1)
  {
    if n > 0 {
      var line := Frame.Repeat(1, n) + rest;
      assert line[0] == 1;
      assert line[1..] == Frame.Repeat(1, n - 1) + rest;
      ReceiveIdle(n - 1, rest);
    } else {
      assert Frame.Repeat(1, 0) + rest == rest;
    }
  }

  /** A frame with a stop bit is received as its masked value; whatever edge
      follows the stop slot is consumed by the stop-slot wait, so reception
      goes on from the slot after the next one. */
  lemma ReceiveFrame(b: int, rest: seq<bit>)
    ensures Receive(Frame.Encode(b, true) + rest, 1)
         == [Mask(b)] + (if |rest| == 0 then [] else Receive(rest[1..], rest[0]))
  {
    ReceiveAfter(Frame.Encode(b, true), rest);
    Frame.RoundTrip(b, true);
  }

  /** Whatever follows a frame's ten slots: the frame is decoded and the slot
      after it is consumed with the stop-slot wait. */
  lemma ReceiveAfter(frame: seq<bit>, rest: seq<bit>)
    requires |frame| == RxFrameSlots && frame[0] == 0
    ensures Receive(frame + rest, 1)
         == [Frame.Decode(Frame.DataSlots(frame))] + (if |rest| == 0 then [] else Receive(rest[1..], rest[0]))
  {
    var line := frame + rest;
    Frame.DataSlotsPrefix(frame, rest);
    if |rest| > 0 {
      ReceiveStart(line);
      assert line[RxFrameSlots] == rest[0];
      assert line[RxFrameSlots + 1..] == rest[1..];
    } else {
      assert line == frame;
      ReceiveLast(line);
    }
  }

  /** A falling edge with more than a frame's slots behind it. */
  lemma ReceiveStart(line: seq<bit>)
    requires |line| > RxFrameSlots && line[0] == 0
    ensures Receive(line, 1)
         == [Frame.Decode(Frame.DataSlots(line))] + Receive(line[RxFrameSlots + 1..], line[RxFrameSlots])
  {
  }

  /** A falling edge with exactly a frame's slots behind it. */
  lemma ReceiveLast(line: seq<bit>)
    requires |line| == RxFrameSlots && line[0] == 0
    ensures Receive(line, 1) == [Frame.Decode(Frame.DataSlots(line))]
  {
  }

  /** The intended receiver takes a frame with a stop bit and is back in IDLE,
      with the line high, for whatever follows. */
  lemma ReceiveResyncFrame(b: int, rest: seq<bit>)
    ensures ReceiveResync(Frame.Encode(b, true) + rest, 1) == [Mask(b)] + ReceiveResync(rest, 1)
  {
    var frame := Frame.Encode(b, true);
    var line := frame + rest;
    Frame.DataSlotsPrefix(frame, rest);
    Frame.RoundTrip(b, true);
    assert line[0] == 0;
    assert line[RxFrameSlots..] == rest;
    assert line[RxFrameSlots - 1] == 1;
  }

  /** Frames with stop bits separated by at least one idle bit period are all
      received, in order, each the masked value that was sent. */
  lemma {:induction false} ReceiveSpaced(values: seq<int>, gap: nat)
    requires gap >= 1
    ensures Receive(Frame.EncodeAll(values, true, gap), 1) == MaskAll(values)
  {
    if |values| > 0 {
      var next := Frame.EncodeAll(values[1..], true, gap);
      var rest := Frame.Repeat(1, gap) + next;
      Frame.EncodeAllCons(values, gap);
      ReceiveFrame(values[0], rest);
      Frame.RepeatCons(1, gap, next);
      ReceiveIdle(gap - 1, next);
      ReceiveSpaced(values[1..], gap);
    }
  }

  /** The intended receiver takes every frame with a stop bit, whatever the
      gap between frames, back-to-back frames included. */
  lemma {:induction false} ReceiveAll(values: seq<int>, gap: nat)
    ensures ReceiveResync(Frame.EncodeAll(values, true, gap), 1) == MaskAll(values)
  {
    if |values| > 0 {
      var next := Frame.EncodeAll(values[1..], true, gap);
      var rest := Frame.Repeat(1, gap) + next;
      Frame.EncodeAllCons(values, gap);
      ReceiveResyncFrame(values[0], rest);
      ReceiveIdle(gap, next);
      ReceiveAll(values[1..], gap);
    }
  }

  /** A single frame is received whatever the stop setting, as long as the
      line is high for the stop slot. */
  lemma ReceiveSingle(b: int, stop: bool)
    ensures Receive(Frame.Encode(b, stop) + [1], 1) == [Mask(b)]
  {
    var line := Frame.Encode(b, stop) + [1];
    assert line[0] == 0;
    assert Frame.DataSlots(line) == Frame.DataSlots(Frame.Encode(b, stop));
    Frame.RoundTrip(b, stop);
    if stop {
      assert line[RxFrameSlots + 1..] == [];
    }
  }

  /** Listening to an idle stretch, a frame with a stop bit and one idle slot
      is `FrameReceived` on the frame's data slots, then listening on. */
  lemma ListenFrame(u: Uart, n: nat, b: int, rest: seq<bit>)
    ensures Listen(u, Frame.Repeat(1, n) + Frame.Encode(b, true) + [1] + rest)
         == Listen(FrameReceived(u, Frame.DataSlots(Frame.Encode(b, true))), rest)
  {
    var idle, frame, tail := Frame.Repeat(1, n), Frame.Encode(b, true), [1] + rest;
    AppendAssoc(idle + frame, [1], rest);
    AppendAssoc(idle, frame, tail);
    ReceiveIdle(n, frame + tail);
    ReceiveFrame(b, tail);
    assert tail[1..] == rest;
    Frame.RoundTrip(b, true);
    AppendAssoc(u.rxBuf, [Mask(b)], Receive(rest, 1));
  }

  function MaskAll(values: seq<int>): (r: seq<byte>)
    ensures |r| == |values|
    ensures forall i :: 0 <= i < |values| ==> r[i] == Mask(values[i])
  {
    if |values| == 0 then [] else [Mask(values[0])] + MaskAll(values[1..])
  }

  /** Python's `ord` of every character of a command: one Unicode code point
      per character, which `send` masks to its low eight bits. */
  function Codes(cmd: string): (r: seq<int>)
    ensures |r| == |cmd|
    ensures forall i :: 0 <= i < |cmd| ==> 0 <= r[i] < 0x11_0000 && r[i] == cmd[i] as int
  {
    seq(|cmd|, i requires 0 <= i < |cmd| => cmd[i] as int)
  }

  /** `sendcmd`: one `send` per character, in string order, each followed by
      the inter-character wait, here `gap` whole bit periods. The trace is the
      frames of the characters' code points, each masked to eight bits. With
      stop bits, the `rcv` loop on that trace buffers exactly those masked
      code points when the wait is at least one bit period, and always the
      first of them; the intended receiver buffers them all for any wait. */
  method SendCmd(u: Uart, cmd: string, gap: nat) returns (trace: seq<bit>)
    ensures |trace| == |cmd| * (Frame.FrameLength(u.config.stop) + gap)
    ensures trace == Frame.EncodeAll(Codes(cmd), u.config.stop, gap)
    ensures u.config.stop && gap >= 1 ==> Receive(trace, 1) == MaskAll(Codes(cmd))
    ensures u.config.stop && |cmd| > 0 ==> |Receive(trace, 1)| > 0 && Receive(trace, 1)[0] == Mask(cmd[0] as int)
    ensures u.config.stop ==> ReceiveResync(trace, 1) == MaskAll(Codes(cmd))
  {
    var codes := Codes(cmd);
    trace := [];
    var i := 0;
    while i < |cmd|
      invariant 0 <= i <= |cmd|
      invariant trace == Frame.EncodeAll(codes[..i], u.config.stop, gap)
    {
      var word := cmd[i] as int;
      SendStep(codes, i, u.config.stop, gap);
      trace := trace + Frame.SendSlots(word, u.config.stop, gap);
      i := i + 1;
    }
    assert codes[..i] == codes;
    Frame.EncodeAllLength(codes, u.config.stop, gap);
    if u.config.stop {
      LoopbackReceived(codes, gap);
    }
  }

  /** The trace of the first `i + 1` characters extends that of the first `i`
      by one send and its wait. */
  lemma SendStep(codes: seq<int>, i: nat, stop: bool, gap: nat)
    requires i < |codes|
    ensures Frame.EncodeAll(codes[..i + 1], stop, gap) == Frame.EncodeAll(codes[..i], stop, gap) + Frame.SendSlots(codes[i], stop, gap)
  {
    Frame.EncodeAllSnoc(codes[..i], codes[i], stop, gap);
    assert codes[..i + 1] == codes[..i] + [codes[i]];
  }

  /** What both receivers buffer from the trace of a run of sends with stop bits. */
  lemma LoopbackReceived(values: seq<int>, gap: nat)
    ensures gap >= 1 ==> Receive(Frame.EncodeAll(values, true, gap), 1) == MaskAll(values)
    ensures |values| > 0 ==> |Receive(Frame.EncodeAll(values, true, gap), 1)| > 0
    ensures |values| > 0 ==> Receive(Frame.EncodeAll(values, true, gap), 1)[0] == Mask(values[0])
    ensures ReceiveResync(Frame.EncodeAll(values, true, gap), 1) == MaskAll(values)
  {
    ReceiveAll(values, gap);
    if gap >= 1 {
      ReceiveSpaced(values, gap);
    }
    if |values| > 0 {
      ReceiveHead(values, gap);
    }
  }

  /** The first frame of a run of sends with stop bits is always received. */
  lemma ReceiveHead(values: seq<int>, gap: nat)
    requires |values| > 0
    ensures |Receive(Frame.EncodeAll(values, true, gap), 1)| > 0
    ensures Receive(Frame.EncodeAll(values, true, gap), 1)[0] == Mask(values[0])
  {
    var rest := Frame.Repeat(1, gap) + Frame.EncodeAll(values[1..], true, gap);
    Frame.EncodeAllCons(values, gap);
    ReceiveFrame(values[0], rest);
  }

  /** Sending "A\r" with at least one bit period between the characters
      buffers 0x41 and then 0x0D at the other end of the line. (The command is
      a pinned parameter for the reason given at `Frame.EncodeB2`.) */
  lemma SendCommandExample(cmd: string, gap: nat)
    requires cmd == "A\r" && gap >= 1
    ensures Receive(Frame.EncodeAll(Codes(cmd), true, gap), 1) == [0x41, 0x0D]
  {
    MaskedCodesExample(cmd);
    ReceiveSpaced(Codes(cmd), gap);
  }

  lemma MaskedCodesExample(cmd: string)
    requires cmd == "A\r"
    ensures MaskAll(Codes(cmd)) == [0x41, 0x0D]
  {
    var codes := Codes(cmd);
    assert codes[0] == 0x41 && codes[1] == 0x0D;
    var masked := MaskAll(codes);
    assert masked[0] == Mask(codes[0]) && masked[1] == Mask(codes[1]);
  }

  /** Sent back to back ("A\r" with no wait, then the line idling high), the
      second frame's start bit is swallowed by the first frame's stop-slot
      wait; its data bit 1 is taken for a start bit, and 0xC3 is buffered
      where 0x0D was sent. */
  lemma BackToBackLost(cmd: string)
    requires cmd == "A\r"
    ensures Receive(Frame.EncodeAll(Codes(cmd), true, 0) + Frame.Repeat(1, 2), 1) == [0x41, 0xC3]
  {
    var codes := Codes(cmd);
    assert codes[0] == 0x41 && codes[1] == 0x0D;
    var a, c := codes[0], codes[1];
    TwoFrames(codes);
    var rest := Frame.Encode(c, true) + Frame.Repeat(1, 2);
    AppendAssoc(Frame.Encode(a, true), Frame.Encode(c, true), Frame.Repeat(1, 2));
    LateFrame(c, rest);
    var late := Receive(rest[1..], rest[0]);
    ReceiveFrame(a, rest);
    assert Receive(Frame.Encode(a, true) + rest, 1) == [Mask(a)] + late;

    var line := Frame.EncodeAll(codes, true, 0) + Frame.Repeat(1, 2);
    assert line == Frame.Encode(a, true) + rest;
    assert Receive(line, 1) == [0x41, 0xC3];
  }

  /** Two sends with no wait between them are their two frames. */
  lemma TwoFrames(codes: seq<int>)
    requires |codes| == 2
    ensures Frame.EncodeAll(codes, true, 0) == Frame.Encode(codes[0], true) + Frame.Encode(codes[1], true)
  {
    var tail := codes[1..];
    assert tail[1..] == [];
    Frame.EncodeAllCons(codes, 0);
    Frame.EncodeAllCons(tail, 0);
  }

  /** What the receiver makes of a carriage-return frame whose start bit it
      missed, with the line idling high after it: data bit 1 is taken for a
      start bit, and the value read is 0xC3. */
  lemma LateFrame(c: int, rest: seq<bit>)
    requires c == 0x0D
    requires rest == Frame.Encode(c, true) + Frame.Repeat(1, 2)
    ensures |rest| > 0
    ensures Receive(rest[1..], rest[0]) == [0xC3]
  {
    Frame.LevelsOfCR(c);
    assert Frame.Repeat(1, 2) == [1, 1];
    assert rest[0] == 0;
    LateLine(rest[1..]);
  }

  lemma LateLine(line: seq<bit>)
    requires line == [1, 0, 1, 1, 0, 0, 0, 0, 1, 1, 1]
    ensures Receive(line, 0) == [0xC3]
  {
    var tail := line[1..];
    assert tail == [0, 1, 1, 0, 0, 0, 0, 1, 1, 1];
    var samples := Frame.DataSlots(tail);
    assert samples == tail[1..9];
    ValueC3(samples);
  }

  lemma ValueC3(samples: seq<bit>)
    requires samples == [1, 1, 0, 0, 0, 0, 1, 1]
    ensures LsbValue(samples) == 0xC3
  {
    assert LsbValue(samples[7..]) == 1;
    assert LsbValue(samples[6..]) == 3;
    assert LsbValue(samples[5..]) == 6;
    assert LsbValue(samples[4..]) == 12;
    assert LsbValue(samples[3..]) == 24;
    assert LsbValue(samples[2..]) == 48;
    assert LsbValue(samples[1..]) == 97;
  }
}
