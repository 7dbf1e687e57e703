# GameCube/N64 controller frame codec in Dafny

This project models the frame codec of the GameCube/N64 controller library
(`src/Gamecube_N64.c`). The protocol runs over one bidirectional data pin:

- the host sends a command frame: 8 data bits per byte, most significant bit
  first, then one stop pulse;
- the controller then answers with a report frame;
- `gc_n64_get` decodes the answer into the caller's buffer in place and
  returns the number of complete bytes.

The project has three modules:

- `Bits` (`bits.dfy`): bytes and bits. It has the shift operators
  `x >> k` and `x << k` and the MSB-first extraction `(b >> (7 - j)) % 2`
  used when sending. It also has the packing `b += bit << (7 - j)` used when
  receiving, and the byte-level round trip between the two.
- `Pin` (`pin.dfy`): the data pin as a `Pin` object, plus the bit codec
  `write_bit`, `write_stop_bit` and `read_bit`.
  - Its `trace` records, in order, every `pinMode`, `digitalWrite`, delay
    and `read_bit` call the firmware performs; a read is recorded with its
    timeout.
  - Its `line` is what the controller does for each successive `read_bit`
    call: whether the two edge waits succeeded, and the two `micros()`
    readings.
  - `polled` counts the `read_bit` calls made so far.
  - Time is not simulated.
- `Frame` (`frame.dfy`): `gc_n64_send`, `gc_n64_get` and `gc_n64_send_get`
  as methods with loops over Dafny arrays. Each is proved against
  specification functions:
  - `SendTrace` is the send trace;
  - `FirstTimeout`, `Received` and `ReadsMade` give the closed forms of a
    receive, and `Samples` the reads it records on the trace;
  - `Fill` gives the buffer contents after a receive.

  Lemmas then relate these functions to the properties the protocol relies
  on.

## Model

| member | source | states |
|---|---|---|
| Bits.Shr | src/Gamecube_N64.c:138 | the right shift `x >> k` is division by 2^k |
| Bits.Shl | src/Gamecube_N64.c:175 | the left shift `x << k` is multiplication by 2^k |
| Bits.BitAt | src/Gamecube_N64.c:137-138 | `(b >> (7 - j)) % 2` is the binary digit of b of weight 2^(7 - j), a 0 or a 1 |
| Bits.BitsOf | src/Gamecube_N64.c:135-138 | the eight bits the send loop extracts from a byte, in the order it sends them: entry j is `(b >> (7 - j)) % 2` |
| Bits.Pack | src/Gamecube_N64.c:175 | packing bits MSB first with `bit << (7 - j)` leaves room for every later bit: the value plus 2^(8 - number of bits) is at most 256, so a packed byte is below 256 |
| Bits.PackPrefix | src/Gamecube_N64.c:138 | packing the first j bits extracted from b with `(b >> (7 - j)) % 2` gives b with its low 8 - j bits cleared |
| Bits.PackBitsOf | src/Gamecube_N64.c:138-175 | byte-level round trip: packing the eight bits the send loop extracts from b gives back b |
| Bits.UnpackPack | src/Gamecube_N64.c:138-175 | the other round trip: extracting MSB first the bits of a byte packed from eight bits gives back those bits, and the packed byte is below 256 |
| Pin.Classify | src/Gamecube_N64.c:66-77 | `read_bit` returns 2 exactly when an edge wait failed, 1 exactly when both succeeded and `end - start <= 2`, 0 exactly when both succeeded and `end - start > 2`; the result is at most 2 |
| Pin.BitWaveform | src/Gamecube_N64.c:79-92 | a data bit is low, hold, high, hold; the two holds are 1000 and 2750 ns and sum to the 3750 ns period; the low phase is the shorter one exactly when the bit is 1 |
| Pin.StopWaveform | src/Gamecube_N64.c:95-100 | the stop pulse is the waveform of a 1 bit without its trailing hold: low, 1000 ns, high |
| Pin.WriteBit | src/Gamecube_N64.c:79-92 | `write_bit` appends exactly the waveform of its bit to the trace and changes nothing else |
| Pin.WriteStopBit | src/Gamecube_N64.c:95-100 | `write_stop_bit` appends exactly the stop pulse to the trace and changes nothing else |
| Pin.SetPinMode | src/Gamecube_N64.c:133 | `pinMode` sets the direction and records it in the trace; no read is made |
| Pin.ReadBit | src/Gamecube_N64.c:66-77 | `read_bit` returns the classification of the controller's next pulse, consumes exactly that one pulse, and appends one read with its timeout to the trace; the mode is unchanged |
| Frame.Serialize | src/Gamecube_N64.c:134-143 | a frame of n bytes has 8n data bits |
| Frame.SerializeAt | src/Gamecube_N64.c:134-143 | data bit 8i + j is `(bs[i] >> (7 - j)) % 2`, i.e. bytes in order and bits MSB first |
| Frame.Pulses | src/Gamecube_N64.c:134-143 | n data bits take 4n trace events |
| Frame.PulsesOnWire | src/Gamecube_N64.c:134-143 | the data pulses only drive and hold the line |
| Frame.PulsesAt | src/Gamecube_N64.c:134-143 | events 4k to 4k + 3 of the data pulses are exactly the `write_bit` waveform of bit k |
| Frame.SendTrace | src/Gamecube_N64.c:133-144 | a sent frame of n bytes is 32n + 5 events long, starts by switching the pin to OUTPUT and ends by switching it to INPUT_PULLUP |
| Frame.DataPulseAt | src/Gamecube_N64.c:134-143 | in a sent frame, data pulse 8i + j is the waveform of bit j (MSB first) of byte i |
| Frame.SendTraceShape | src/Gamecube_N64.c:133-144 | between the two mode changes a sent frame is exactly 8n data pulses, pulse 8i + j carrying bit j of byte i, then exactly one stop pulse; it only drives and holds the line, so a send makes no read |
| Frame.Send | src/Gamecube_N64.c:130-146 | `gc_n64_send` appends exactly `SendTrace(buff[..len])` to the trace, leaves the pin in INPUT_PULLUP mode and consumes no pulse of the controller |
| Frame.ReadAt | src/Gamecube_N64.c:66-77 | a read of the answer yields at most 2, and every read past the end of what the controller sends times out |
| Frame.TimeoutFrom | src/Gamecube_N64.c:163-176 | the first timing-out read at or after k: it times out, every read from k up to it decodes a bit, and it lies within the answer |
| Frame.FirstTimeout | src/Gamecube_N64.c:163-176 | the index of the first read that times out; every earlier read decodes a bit |
| Frame.Received | src/Gamecube_N64.c:159-188 | the count is at most len; all 8 reads of every counted byte decode; if fewer than len bytes are counted, the first timeout falls in the next byte |
| Frame.ReadsMade | src/Gamecube_N64.c:163-176 | the number of `read_bit` calls is at most 8·len and never goes past the first timeout. It is 8·len when no read times out and first timeout + 1 otherwise, so len = 0 makes no read |
| Frame.BitRead | src/Gamecube_N64.c:170-175 | before the first timeout, the bit added to the byte is exactly what `read_bit` returned |
| Frame.ReadBits | src/Gamecube_N64.c:165-175 | the j reads of a byte, in order, taken as data bits |
| Frame.Accumulated | src/Gamecube_N64.c:164-175 | the byte after j reads, zeroed and then `+= bit << (7 - j)`, is those bits packed MSB first; it stays below 256 and leaves room for the remaining bits |
| Frame.ByteRead | src/Gamecube_N64.c:164-175 | a byte read in full is below 256 and its bits, extracted MSB first as the send loop does, are exactly its eight reads in order |
| Frame.Samples | src/Gamecube_N64.c:156-170 | the reads of a receive, in order: the first with the caller's initial timeout and every later one with 7 |
| Frame.Fill | src/Gamecube_N64.c:163-183 | the buffer after `gc_n64_get`: same length; every counted byte is its eight reads packed MSB first; the byte in which the first timeout fell (below len) was zeroed and holds the bits read before the timeout; every later byte, and every byte from len on, is unchanged |
| Frame.AccumulateNextBit | src/Gamecube_N64.c:175 | the `uint8_t` addition `buff[i] += bit << (7 - j)` never wraps: modulo 256 it equals the exact packed value of one more bit |
| Frame.ReadBitInto | src/Gamecube_N64.c:166-176 | one pass of the inner loop records exactly one read on the trace, with the timeout the source chooses; a decoded bit is added at position 7 - j, a timeout leaves the byte as it was, and no other byte changes |
| Frame.ReadByteInto | src/Gamecube_N64.c:163-177 | one pass of the outer loop zeroes byte i and reads it. With no timeout it records 8 reads and the byte is the packed value. With a timeout it stops right after the first timeout and the byte holds the bits read before it. No other byte changes |
| Frame.Get | src/Gamecube_N64.c:153-189 | `gc_n64_get` returns `Received`; the buffer becomes exactly `Fill` of its old contents; the trace gains the switch to INPUT_PULLUP and then, after it, exactly the `Samples` reads, `ReadsMade` of them; the pin is left in INPUT_PULLUP mode |
| Frame.SendGet | src/Gamecube_N64.c:30-41 | `gc_n64_send_get` appends, in this order, the send trace of the command, the switch to INPUT_PULLUP and the reads of the answer with a 100 µs first-bit timeout; the report becomes `Fill` of its old contents and the count is returned unchanged |
| Frame.ReceivedIff | src/Gamecube_N64.c:163-183 | byte i < len is counted exactly when all reads up to and including its eighth decode a bit |
| Frame.ReceiveResponse | src/Gamecube_N64.c:134-175 | an answer whose reads carry the serialised bits of bs, and which then fills the buffer or times out within the next byte, is counted as exactly the length of bs, and the buffer after the receive starts with exactly bs |

## Left out

- `wait_for_edge`, `wait_for_down_edge` and `wait_for_up_edge` (src/Gamecube_N64.c:45-64) are left out. They poll the pin against `micros()`, which the model does not simulate. Only their boolean outcomes are kept, as the `fell` and `rose` fields of each controller pulse. The unhandled wraparound of `micros()` at line 47 is left out with them.
- The two `micros()` readings of `read_bit` are unbounded integers carried by the pulse. The conversion of the clock value to `int`, and any overflow of `end - start`, are not modelled.
- `pinMode`, `digitalWrite`, `delayMicroseconds` and `delayNanoseconds` are Arduino/Teensy hardware calls. Each is recorded as a trace event. `delayMicroseconds(1)` is recorded as a 1000 ns hold. How long the firmware really takes between events is not modelled.
- Pin.ReadBit: the timeout argument does not change the outcome of the read. The controller's pulse list is taken to already reflect whether each edge came within the timeout. The timeout is only recorded with the read in the trace, so that the timeout choice of `gc_n64_get` can be stated.
- `expect_bit` and `expect_stop_bit` (src/Gamecube_N64.c:102-115) are left out. They do nothing unless `debug` is set, and line 43 sets it to false.
- `print_buffer` (src/Gamecube_N64.c:117-126) is left out. It only prints to the serial port.
- `Gamecube_N64.h` is not part of this model.
- The pulse-level round trip is not claimed: a 2750 ns low phase measured with the integer-microsecond `micros()` need not exceed 2. Frame.ReceiveResponse is stated at byte level. It assumes the reads return the sent bits and proves the count and contents that follow.
- Frame.ReadBitInto and Frame.ReadByteInto are the bodies of the inner and outer loops of `gc_n64_get`, split out as methods. They run the same statements in the same order.
