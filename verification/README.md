# UART transceiver for cocotb simulations: verified model of its bit-level core

`uart/uart.py` defines `Uart`, a software UART used in digital-design
simulations: `send` drives a byte onto the tx line one bit period at a time,
`sendcmd` sends a string character by character, and a background `rcv`
coroutine watches the rx line, samples eight data bits after every falling
edge and appends the decoded value to `rx_buf`, whose text view `rx_str`
splits the received characters on carriage returns.

This project models the logic underneath the simulator plumbing, with
simulated time reduced to bit periods ("slots"):

- `Bits` — line levels, byte values, Python's `(v >> i) & 1` (`BitOf`), its
  `& 0xFF` mask (`Mask`), and the LSB-first value of a bit sequence
  (`LsbValue`) with its inverse `LsbBits`.
- `Frame` — the frame `send` drives (`Encode`: start bit 0, eight data bits
  LSB first, stop bit 1 when configured; never a parity slot), the digit
  string `rcv` builds by prepending every sample (`Assemble`) and Python's
  `int(…, 2)` on it (`BinaryValue`), giving `Decode`; and the tx trace of a
  run of sends, each followed by a wait of whole bit periods (`EncodeAll`).
- `RxText` — `rx_str`: `SplitOnCR` with Python `str.split` conventions, its
  inverse `JoinWithCR`, and the character view `RxStr`.
- `Transceiver` — construction with its error cases (`New`), `init`
  (`Init`), the append at the end of a frame (`FrameReceived`), the receive
  loop over a slot-level rx line as written (`Receive`, `Listen`) and as
  evidently intended (`ReceiveResync`), and `sendcmd` (`SendCmd`).

The main laws: decoding the data slots of `Encode(b, stop)` gives `b & 0xFF`
whatever `stop` is, and encoding a decoded value gives the samples back;
`Decode` equals the sum of `samples[i] * 2^i`; frames with stop bits that are
separated by at least one idle bit period are received one value per frame,
in order, while a frame that follows the previous stop bit immediately loses
its start bit to the previous frame's stop-slot wait (see "## Findings");
`SplitOnCR` and
`JoinWithCR` are inverse, no piece holds a carriage return, and there is one
piece more than there are carriage returns; construction succeeds exactly when
the configuration is valid.

The bit period `10**9/speed` (uart/uart.py:33) is computed before the parity
and data-size checks, so a speed of 0 makes construction fail with
`ZeroDivisionError`. `New` returns `Err(ZeroSpeed)` for it; every other speed,
negative ones included, is accepted, as in the code.

The receive loop waits out the stop slot with the same race as the data slots
(uart/uart.py:74): a timer 300 ns longer than a bit period (uart/uart.py:61)
against any edge of rx. That wait starts no earlier than the start of the stop
slot, so an edge less than 300 ns after the stop slot ends it, and the IDLE
wait (uart/uart.py:65) then only sees a later falling edge. At slot level:
after a frame the receiver resumes two slots after the stop slot's start, the
edge between them having been consumed. `Receive` models this.

Python's `b & 0xFF` is written `b % 256`: for every Python integer, negative
ones included, both give the same value in 0..255.

## Model

| member | source | states |
|---|---|---|
| Frame.Encode | uart/uart.py:85-98 | the frame has 10 slots with stop bits and 9 without, so there is never a parity slot; slot 0 is the start bit 0, and with stop bits the last slot is the stop bit 1 |
| Frame.EncodeDataBits | uart/uart.py:91-95 | for every i in 0..7, slot i+1 of the frame is `(b & 0xFF) >> i & 1`: data bits go out least-significant first |
| Frame.EncodeMasks | uart/uart.py:91 | two arguments produce the same frame if and only if they agree in their low eight bits, so `send(b)` and `send(b & 0xFF)` drive the same levels |
| Frame.EncodeB2 | uart/uart.py:92-95 | 0xB2 is driven as 0, 0,1,0,0,1,1,0,1, 1 and decodes back to 0xB2 (bit order check) |
| Frame.Assemble | uart/uart.py:68-70 | prepending each new sample's digit leaves the samples in reverse order: digit k of the string is the digit of sample n-1-k |
| Frame.BinaryValue | uart/uart.py:75-76 | `int("0b" + d, 2)` of n binary digits is a value below 2^n |
| Frame.Decode | uart/uart.py:68-76 | the value appended for eight samples is their LSB-first weighted sum: the first sample is bit 0, the eighth bit 7, and the result lies in 0..255 |
| Frame.AssembledValue | uart/uart.py:68-76 | reading the prepended digit string most-significant digit first equals reading the samples least-significant first |
| Frame.BinaryValueCons | uart/uart.py:75-76 | in `int(…, 2)` a leading digit weighs 2 to the number of digits after it |
| Frame.RoundTrip | uart/uart.py:89-95 | decoding slots 1..8 of a frame gives back the sent value masked to eight bits, with or without a stop bit |
| Frame.EncodeDecoded | uart/uart.py:68-76 | re-encoding a decoded value reproduces the eight samples in its data slots, so decoding loses nothing |
| Frame.SendSlots | uart/uart.py:109-110 | one send followed by its wait is the frame and then `gap` slots at the level `send` left on tx: the stop bit 1 with stop bits, otherwise data bit 7 |
| Frame.EncodeAll | uart/uart.py:105-110 | the trace of a command is empty exactly when the command is, and otherwise begins with the first frame's start bit |
| Frame.EncodeAllLength | uart/uart.py:105-110 | the trace of n sends, each followed by a wait of `gap` bit periods, is n times (frame length + gap) long |
| Frame.EncodeAllSnoc | uart/uart.py:105-110 | sending one more character appends exactly its frame and its wait to the trace |
| Bits.Mask | uart/uart.py:91 | `b & 0xff` is the one value in 0..255 that differs from `b` by a multiple of 256, and leaves values already in 0..255 unchanged |
| Bits.BitOf | uart/uart.py:93-94 | the level driven for data bit i, `(b >> i) & 1`, is the digit that extends the low i bits of b to its low i+1 bits |
| Bits.LsbValue | uart/uart.py:75-76 | an n-bit sample sequence reads as a value below 2^n |
| Bits.LsbBitsAt | uart/uart.py:92-94 | the i-th level shifted out of v is `(v >> i) & 1` |
| Bits.LsbValueOfBits | uart/uart.py:91-95 | reading back the n bits shifted out of v gives v modulo 2^n |
| Bits.BitsOfLsbValue | uart/uart.py:68-76 | shifting out the value of a bit sequence gives the sequence back |
| Bits.LsbValueSnoc | uart/uart.py:70 | one more sampled level adds its weight at the next more significant position |
| RxText.SplitOnCR | uart/uart.py:47 | the buffer splits into one more piece than it has carriage returns, so an empty buffer gives one empty piece |
| RxText.SplitPiecesHaveNoCR | uart/uart.py:47 | no piece of the split contains 0x0D |
| RxText.JoinSplit | uart/uart.py:47 | joining the pieces with 0x0D between neighbours gives the buffer back |
| RxText.SplitJoin | uart/uart.py:47 | splitting a join of CR-free pieces gives those pieces back, so split and join are inverse |
| RxText.SplitPiece | uart/uart.py:47 | a CR-free prefix becomes the start of the first piece and leaves the other pieces alone |
| RxText.SplitPieceStep | uart/uart.py:47 | a byte other than CR in front of a buffer joins the first piece of its split |
| RxText.Chr | uart/uart.py:47 | `chr` of a received value is the character whose code point is that value, the inverse of `ord` |
| RxText.ToText | uart/uart.py:47 | the joined text of a piece has one character per received value, each with that value as its code point |
| RxText.RxStr | uart/uart.py:45-47 | `rx_str` has one more line than the buffer has carriage returns, and no line contains `'\r'` |
| RxText.RxStrExample | uart/uart.py:47 | the buffer 0x41, 0x42, 0x0D, 0x43 reads as the lines "AB" and "C" |
| RxText.RxStrEdges | uart/uart.py:47 | an empty buffer reads as one empty line, and a buffer ending in a carriage return ends with an empty line |
| RxText.LastPieceAfterCR | uart/uart.py:47 | a buffer ending in 0x0D splits into at least two pieces, the last one empty |
| Transceiver.New | uart/uart.py:33-43 | construction succeeds if and only if speed is non-zero, parity is off and the data size is 8; the errors come in the order the code raises them; a new object stores its configuration and an empty buffer |
| Transceiver.NewIgnoresSpeedAndStop | uart/uart.py:37-42 | for any non-zero speed and either stop setting, construction succeeds exactly when parity is off and the data size is 8 |
| Transceiver.Init | uart/uart.py:50-53 | `init` empties the buffer and keeps the configuration |
| Transceiver.FrameReceived | uart/uart.py:68-76 | a completed frame appends exactly one value, the LSB-first value of its samples, and leaves earlier entries and the configuration unchanged |
| Transceiver.Receive | uart/uart.py:64-76 | the receive loop as written buffers at most one value per frame, every frame but the last taking 11 slots: the stop slot and the slot after it, which the stop-slot wait runs into and whose leading edge, if any, it consumes |
| Transceiver.ReceiveResync | uart/uart.py:64-76 | the intended receive loop, back in IDLE as soon as the stop slot ends, buffers at most one value per 10 slots |
| Transceiver.Listen | uart/uart.py:64-76 | listening to the line only ever appends: the previous buffer is a prefix of the new one |
| Transceiver.ListenFrame | uart/uart.py:64-76 | listening to idle slots, a frame with a stop bit and one more idle slot is exactly `FrameReceived` on the frame's data slots, after which listening goes on unchanged |
| Transceiver.ReceiveIdle | uart/uart.py:64-65 | any number of idle-high slots seen in IDLE produce nothing and change nothing that follows, for both receivers |
| Transceiver.ReceiveFrame | uart/uart.py:64-76 | a frame with a stop bit yields exactly the masked sent value, and whatever level follows the stop slot is consumed with it: reception resumes after that slot, so a start bit there is never seen |
| Transceiver.ReceiveAfter | uart/uart.py:64-76 | for any ten slots starting low and anything after them, the loop as written appends the value of slots 1..8 and resumes one slot after the stop slot, at the level of that slot, so an edge between the stop slot and the next one is never seen |
| Transceiver.ReceiveResyncFrame | uart/uart.py:64-76 | the intended receiver yields the masked value of a frame with a stop bit and is back in IDLE with the line high for whatever follows |
| Transceiver.ReceiveSpaced | uart/uart.py:64-76 | frames with stop bits separated by at least one idle bit period are all received by the loop as written, one value per frame, in order, each the masked sent value |
| Transceiver.ReceiveAll | uart/uart.py:64-76 | the intended receiver takes every frame with a stop bit, in order, for any gap between frames including none |
| Transceiver.ReceiveHead | uart/uart.py:64-76 | the first of a run of frames with stop bits is always received correctly, whatever the gap |
| Transceiver.ReceiveSingle | uart/uart.py:64-76 | a lone frame followed by a high line is received as its masked value whether or not it carries a stop bit |
| Transceiver.BackToBackLost | uart/uart.py:61-76 | "A\r" sent with no wait and then idle is buffered as 0x41, 0xC3: the second frame's start bit is consumed by the first frame's stop-slot wait and its data bit 1 is taken for a start bit |
| Transceiver.Codes | uart/uart.py:105-108 | `ord` gives one code point per character of the command, in order, each in 0..0x10FFFF (commands of Unicode scalar values; see "Left out") |
| Transceiver.SendCmd | uart/uart.py:104-110 | `sendcmd` emits one frame per character in string order, each followed by its wait, the trace being those frames of the masked code points; with stop bits, the loop as written buffers exactly the masked code points when the wait is at least one bit period and always buffers the first one correctly, and the intended receiver buffers them all for any wait |
| Transceiver.SendCommandExample | uart/uart.py:104-110 | sending "A\r" with a wait of at least one bit period buffers 0x41 then 0x0D at the receiving end |

## Findings

| source | as written | input that shows it | evidently intended | confidence | as-written member | corrected member |
|---|---|---|---|---|---|---|
| uart/uart.py:61-74 | the stop-slot wait races a timer of a bit period plus 300 ns against any edge, so the next frame's start edge, when it comes within 300 ns of the stop slot's end, ends that wait and the IDLE wait never sees it | "A\r" through `sendcmd` with the default 10 ns `intertime`, rx looped to tx, line idle afterwards: buffers 0x41, 0xC3 | every frame received, back-to-back ones included: 0x41, 0x0D | medium, not executed | Transceiver.BackToBackLost | Transceiver.ReceiveAll |

## Left out

- Simulated time: `Timer`, the bit period `10**9/speed` as a duration, the 300 ns guard on the receive timer and the clock synchronisation in `init` are reduced to one line level per bit period; kept are the division by zero in computing the period and the guard's one slot-level effect, that the stop-slot wait swallows an edge at its end.
- Transceiver.Receive: the three-way race (timer, falling edge, rising edge) is modelled as "advance one slot", so the receiver samples slot i+1 for data bit i exactly. The source drifts deterministically: every slot whose race ends on the timer (no edge at its start) makes the receiver 300 ns later, because of the code's own `+ 300` on the timer, and an edge resets the drift. The drift reaches 2.4 µs at the sample of bit 7 (for 0x00) and 2.7 µs at the end of the stop-slot wait (for 0xFF), so the slot model, and with it the `gap >= 1` clauses of ReceiveSpaced and SendCmd, holds only when the bit period exceeds about 2.7 µs, speeds below about 370 kbaud; the default 57600 gives about 17.4 µs. Spurious edges are not modelled, and the source has no framing-error detection to model.
- Transceiver.Receive: the rx line is taken to be high before the first slot; the level it had when the coroutine was forked is not modelled.
- `cocotb.fork` and the coroutine scheduling of `rcv` next to `send`: the receive loop is a function of a given rx line, and the tx and rx lines are independent sequences.
- Transceiver.SendCmd: the inter-character delay (`intertime`, `units`) is a whole number of bit periods, `gap`. The stop-slot wait ends 300 ns × (1 + k) after the stop slot when nothing else ends it, where k is the number of consecutive 1 bits ending at bit 7 of the masked code point: 300 ns when bit 7 is 0, up to 2.7 µs after 0xFF. A delay shorter than that, such as the default 10 ns, behaves as no delay, since the next start edge falls inside that wait. A delay of at least a bit period behaves as one or more idle slots. A delay between the two, after which the source does receive the next frame, has no slot count, and for a wait under one bit period the contract states only what the first character and the intended receiver give, with BackToBackLost showing what the loop as written does.
- Transceiver.Codes: a command is a Dafny `string`, a sequence of Unicode scalar values, so a command holding a lone surrogate (code points 0xD800–0xDFFF, which a Python `str` may hold and `ord` returns) is not modelled.
- Transceiver.SendCmd: for the same reason, commands with lone surrogates are not modelled; the source would send each such code point masked to its low eight bits like any other.
- Transceiver.Init: each `init` forks another `rcv` (uart/uart.py:54) and never stops the earlier one, so after a second `init` every frame would be appended once per running monitor; the model assumes exactly one monitor, that is, `init` called once.
- Logging (`_log.info`, the `log` argument of `sendcmd`, the special message for 0x0D) is output only.
- The tx signal assignments and `rx.value.integer` are simulator handles; they appear as elements of level sequences. Unresolved levels (X, Z), which make `rx.value.integer` raise, are not modelled.
- `Exception()` at construction carries no message in the source; the model distinguishes the two causes (and the division by zero) by error value.
