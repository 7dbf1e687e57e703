/** The frame transceiver of the GameCube/N64 protocol: `gc_n64_send`
    serialises a command buffer MSB first and ends it with a stop pulse;
    `gc_n64_get` deserialises the controller's answer into a report buffer
    in place and stops at the first timeout; `gc_n64_send_get` is one
    exchange. */
module Frame {
  import opened Bits
  import opened Pin

  /** The timeout, in microseconds, of every bit read but the first. */
  const BitTimeout := 7

  /** The timeout of the first bit of the controller's answer. */
  const ResponseTimeout := 100

  // ---------------------------------------------------------------------
  // Send side
  // ---------------------------------------------------------------------

  /** The data bits of a frame: each byte, most significant bit first. */
  function Serialize(bs: seq<Byte>): (r: seq<Bit>)
    ensures |r| == 8 * |bs|
  {
    if bs == [] then [] else Serialize(bs[..|bs| - 1]) + BitsOf(bs[|bs| - 1])
  }

  /** Data bit 8 * i + j of a frame is bit j, counted from the most
      significant end, of byte i. */
  lemma {:induction false} SerializeAt(bs: seq<Byte>, i: nat, j: nat)
    requires i < |bs| && j < 8
    ensures Serialize(bs)[8 * i + j] == BitAt(bs[i], j)
  {
    var last := |bs| - 1;
    if i < last {
      SerializeAt(bs[..last], i, j);
      assert bs[..last][i] == bs[i];
    }
  }

  /** The events of the first n data bits of a frame, one `write_bit`
      call each. */
  function Pulses(bits: seq<Bit>, n: nat): (r: seq<Event>)
    requires n <= |bits|
    ensures |r| == 4 * n
  {
    if n == 0 then [] else Pulses(bits, n - 1) + BitWaveform(bits[n - 1] == 1)
  }

  /** Data pulses only drive and hold the line. */
  lemma {:induction false} PulsesOnWire(bits: seq<Bit>, n: nat)
    requires n <= |bits|
    ensures forall k :: 0 <= k < 4 * n ==> Pulses(bits, n)[k].Drive? || Pulses(bits, n)[k].Hold?
  {
    if n > 0 {
      PulsesOnWire(bits, n - 1);
    }
  }

  /** The four events of data bit k are those `write_bit` emits for it. */
  lemma {:induction false} PulsesAt(bits: seq<Bit>, n: nat, k: nat)
    requires k < n <= |bits|
    ensures Pulses(bits, n)[4 * k .. 4 * k + 4] == BitWaveform(bits[k] == 1)
  {
    if k < n - 1 {
      PulsesAt(bits, n - 1, k);
      assert Pulses(bits, n)[4 * k .. 4 * k + 4] == Pulses(bits, n - 1)[4 * k .. 4 * k + 4];
    }
  }

  /** Everything `gc_n64_send` does to the pin: output mode, the data bits,
      the stop pulse, input-with-pull-up mode. In between the two mode
      changes the pin is only driven and held: a send makes no read. */
  function SendTrace(bs: seq<Byte>): (r: seq<Event>)
    ensures |r| == 32 * |bs| + 5
    ensures r[0] == SetMode(Output) && r[|r| - 1] == SetMode(InputPullup)
  {
    [SetMode(Output)] + Pulses(Serialize(bs), 8 * |bs|) + StopWaveform() + [SetMode(InputPullup)]
  }

  /** The trace of a send, appended to what the pin saw before, in the
      order `gc_n64_send` produces it. */
  lemma SendTraceAppend(before: seq<Event>, bs: seq<Byte>)
    ensures before + SendTrace(bs) ==
      (((before + [SetMode(Output)]) + Pulses(Serialize(bs), 8 * |bs|)) + StopWaveform()) + [SetMode(InputPullup)]
  {
    var o, p, s, n := [SetMode(Output)], Pulses(Serialize(bs), 8 * |bs|), StopWaveform(), [SetMode(InputPullup)];
    calc {
      before + SendTrace(bs);
      before + (((o + p) + s) + n);
      { Assoc(before, (o + p) + s, n); }
      (before + ((o + p) + s)) + n;
      { Assoc(before, o + p, s); }
      ((before + (o + p)) + s) + n;
      { Assoc(before, o, p); }
      (((before + o) + p) + s) + n;
    }
  }

  /** Concatenation is associative. A separate step: the calculation in
      `SendTraceAppend` runs out of resources when it is left implicit. */
  lemma Assoc<T>(a: seq<T>, b: seq<T>, c: seq<T>)
    ensures a + (b + c) == (a + b) + c
  {
  }

  /** The four events of data pulse k of a trace that starts with a mode
      change. */
  function DataPulse(trace: seq<Event>, k: nat): seq<Event>
    requires 4 * k + 5 <= |trace|
  {
    trace[1 + 4 * k .. 5 + 4 * k]
  }

  /** Data pulse 8 * i + j of a sent frame carries bit j (MSB first) of
      byte i. */
  lemma DataPulseAt(bs: seq<Byte>, i: nat, j: nat)
    requires i < |bs| && j < 8
    ensures DataPulse(SendTrace(bs), 8 * i + j) == BitWaveform(BitAt(bs[i], j) == 1)
  {
    var k := 8 * i + j;
    var w := Pulses(Serialize(bs), 8 * |bs|);
    var head := [SetMode(Output)] + w;
    var lo, hi := 1 + 4 * k, 5 + 4 * k;
    assert DataPulse(SendTrace(bs), k) == head[lo .. hi];
    assert head[lo .. hi] == w[4 * k .. 4 * k + 4];
    PulsesAt(Serialize(bs), 8 * |bs|, k);
    SerializeAt(bs, i, j);
    assert Serialize(bs)[k] == BitAt(bs[i], j);
  }

  /** The shape of a sent frame, beyond the mode changes that open and
      close it: there are exactly 8 * |bs| data pulses, pulse 8 * i + j
      carrying bit j (MSB first) of byte i; then exactly one stop pulse; and
      in between the two mode changes the line is only driven and held, so
      a send makes no read. */
  lemma SendTraceShape(bs: seq<Byte>)
    ensures forall i, j :: 0 <= i < |bs| && 0 <= j < 8 ==>
      DataPulse(SendTrace(bs), 8 * i + j) == BitWaveform(BitAt(bs[i], j) == 1)
    ensures SendTrace(bs)[1 + 32 * |bs| .. 4 + 32 * |bs|] == StopWaveform()
    ensures forall k :: 0 < k < |SendTrace(bs)| - 1 ==> SendTrace(bs)[k].Drive? || SendTrace(bs)[k].Hold?
  {
    forall i, j | 0 <= i < |bs| && 0 <= j < 8 {
      DataPulseAt(bs, i, j);
    }
    var w := Pulses(Serialize(bs), 8 * |bs|);
    PulsesOnWire(Serialize(bs), 8 * |bs|);
    var t := SendTrace(bs);
    forall k | 0 < k < |t| - 1
      ensures t[k].Drive? || t[k].Hold?
    {
      if k <= |w| {
        assert t[k] == w[k - 1];
      } else {
        assert t[k] == StopWaveform()[k - 1 - |w|];
      }
    }
  }

  /** Sending bit j of byte i, data bit n of the frame, appends its pulse. */
  lemma SendBit(before: seq<Event>, bs: seq<Byte>, i: nat, j: nat, n: nat, bit: nat)
    requires i < |bs| && j < 8 && n == 8 * i + j && bit == BitAt(bs[i], j)
    ensures before + Pulses(Serialize(bs), n + 1) ==
      (before + Pulses(Serialize(bs), n)) + BitWaveform(bit == 1)
  {
    SerializeAt(bs, i, j);
  }

  /** `gc_n64_send`: serialise `buff[..len]` onto the pin. */
  method Send(buff: array<Byte>, len: Byte, pin: Pin)
    requires len <= buff.Length
    modifies pin
    ensures pin.trace == old(pin.trace) + SendTrace(buff[..len])
    ensures pin.mode == InputPullup
    ensures pin.polled == old(pin.polled)
  {
    SetPinMode(pin, Output);
    ghost var start := pin.trace;
    ghost var bs := buff[..len];
    ghost var n := 0;
    var i := 0;
    while i < len
      invariant 0 <= i <= len && |bs| == len && n == 8 * i
      invariant pin.trace == start + Pulses(Serialize(bs), n)
      invariant pin.polled == old(pin.polled)
    {
      var j := 0;
      while j < 8
        invariant 0 <= j <= 8 && |bs| == len && n == 8 * i + j
        invariant pin.trace == start + Pulses(Serialize(bs), n)
        invariant pin.polled == old(pin.polled)
      {
        var bit := BitAt(buff[i], j);
        WriteBit(pin, bit == 1);
        assert bs[i] == buff[i];
        SendBit(start, bs, i, j, n, bit);
        n := n + 1;
        j := j + 1;
      }
      i := i + 1;
    }
    WriteStopBit(pin);
    SetPinMode(pin, InputPullup);
    SendTraceAppend(old(pin.trace), bs);
  }

  // ---------------------------------------------------------------------
  // Receive side
  // ---------------------------------------------------------------------

  /** The result of the k-th `read_bit` call of a receive whose answer is
      `line` (silent past its end). */
  function ReadAt(line: seq<Pulse>, k: nat): (r: nat)
    ensures r <= 2
    ensures k >= |line| ==> r == Timeout
  {
    Classify(PulseAt(line, k))
  }

  /** The pulses of line after the first n. */
  function Drop(line: seq<Pulse>, n: nat): seq<Pulse>
  {
    if n <= |line| then line[n..] else []
  }

  /** What the controller on the pin has still to answer: its pulses for
      the `read_bit` calls not yet made. */
  function Unread(pin: Pin): seq<Pulse>
    reads pin
  {
    Drop(pin.line, pin.polled)
  }

  /** The first read at or after k that times out. */
  function TimeoutFrom(line: seq<Pulse>, k: nat): (r: nat)
    ensures k <= r && ReadAt(line, r) == Timeout
    ensures forall m :: k <= m < r ==> ReadAt(line, m) != Timeout
    ensures k <= |line| ==> r <= |line|
    decreases |line| - k
  {
    if ReadAt(line, k) == Timeout then k else TimeoutFrom(line, k + 1)
  }

  /** The index of the first read that times out: every earlier read
      decoded a bit. */
  function FirstTimeout(line: seq<Pulse>): (r: nat)
    ensures r <= |line| && ReadAt(line, r) == Timeout
    ensures forall m :: 0 <= m < r ==> ReadAt(line, m) != Timeout
  {
    TimeoutFrom(line, 0)
  }

  /** The count `gc_n64_get` returns when asked for len bytes: every bit of
      the counted bytes decoded, and if fewer than len bytes were counted,
      the next byte holds the first timeout. */
  function Received(line: seq<Pulse>, len: nat): (r: nat)
    ensures r <= len
    ensures 8 * r <= FirstTimeout(line)
    ensures r < len ==> FirstTimeout(line) < 8 * r + 8
  {
    var t := FirstTimeout(line);
    if t / 8 < len then t / 8 else len
  }

  /** The number of `read_bit` calls `gc_n64_get` makes when asked for len
      bytes: never more than 8 * len, never one after the first timeout,
      and all 8 * len when no read times out. */
  function ReadsMade(line: seq<Pulse>, len: nat): (n: nat)
    ensures n <= 8 * len && n <= FirstTimeout(line) + 1
    ensures FirstTimeout(line) >= 8 * len ==> n == 8 * len
    ensures FirstTimeout(line) < 8 * len ==> n == FirstTimeout(line) + 1
  {
    var t := FirstTimeout(line);
    if t < 8 * len then t + 1 else 8 * len
  }

  /** Read k taken as a data bit; before the first timeout it is exactly
      what `read_bit` returned. */
  function BitRead(line: seq<Pulse>, k: nat): (b: Bit)
    ensures k < FirstTimeout(line) ==> b == ReadAt(line, k)
  {
    if ReadAt(line, k) == 1 then 1 else 0
  }

  /** Reads from, ..., from + j - 1 taken as data bits. */
  function ReadBits(line: seq<Pulse>, from: nat, j: nat): (r: seq<Bit>)
    ensures |r| == j
    ensures forall m :: 0 <= m < j ==> r[m] == BitRead(line, from + m)
  {
    seq<Bit>(j, m requires 0 <= m < j => BitRead(line, from + m))
  }

  /** The value the receive loop has accumulated in a byte after its first
      j reads, starting at read from: those bits packed MSB first. The bound
      says the still empty low-order positions leave room for the later
      bits, so the byte stays below 256. */
  function Accumulated(line: seq<Pulse>, from: nat, j: nat): (r: nat)
    requires j <= 8
    ensures r + Pow2(8 - j) <= 256
  {
    Pack(ReadBits(line, from, j))
  }

  /** Byte m of the controller's answer: reads 8 * m to 8 * m + 7 packed
      most significant bit first. Its bits, extracted MSB first as a send
      would, are exactly those reads. */
  function ByteRead(line: seq<Pulse>, m: nat): (r: Byte)
    ensures BitsOf(r) == ReadBits(line, 8 * m, 8)
  {
    UnpackPack(ReadBits(line, 8 * m, 8));
    Accumulated(line, 8 * m, 8)
  }

  /** The reads of a receive, in order, as trace events: the first gets
      the caller's initial timeout and every later one gets 7. */
  function Samples(initial: int, n: nat): (r: seq<Event>)
    ensures |r| == n
    ensures n > 0 ==> r[0] == Sample(initial)
    ensures forall k :: 1 <= k < n ==> r[k] == Sample(BitTimeout)
  {
    seq(n, k => Sample(if k == 0 then initial else BitTimeout))
  }

  /** The report buffer after a receive of len bytes from line, given its
      contents before: every counted byte holds its 8 bits packed MSB first;
      the byte in which the first timeout fell (if it is below len) was
      zeroed and holds the bits read before the timeout; no other byte
      changed. */
  function Fill(before: seq<Byte>, line: seq<Pulse>, len: nat): (r: seq<Byte>)
    ensures |r| == |before|
    ensures forall i :: 0 <= i < Received(line, len) && i < |r| ==> r[i] == ByteRead(line, i)
    ensures var n := Received(line, len);
      n < len && n < |r| ==> r[n] == Accumulated(line, 8 * n, FirstTimeout(line) - 8 * n)
    ensures forall i :: Received(line, len) < i < |r| ==> r[i] == before[i]
    ensures forall i :: len <= i < |r| ==> r[i] == before[i]
  {
    var n := Received(line, len);
    var partial := if n < len then Accumulated(line, 8 * n, FirstTimeout(line) - 8 * n) else 0;
    assert partial < 256;
    seq<Byte>(|before|, i requires 0 <= i < |before| =>
      if i < n then ByteRead(line, i)
      else if i == n && n < len then partial
      else before[i])
  }

  /** The pin after the first n reads of a receive that began after `base`
      reads, on a trace that was t0 when it began: n more reads are made
      and recorded, with their timeouts, after t0. */
  predicate ReadsDone(pin: Pin, base: nat, t0: seq<Event>, initial: int, n: nat)
    reads pin
  {
    pin.polled == base + n && pin.trace == t0 + Samples(initial, n)
  }

  /** Read n of a receive that began after `base` reads: the pin sees
      pulse n of the answer and the read is appended to the trace. A
      separate step that keeps `ReadBitInto` within the resource limit. */
  lemma ReadStep(full: seq<Pulse>, base: nat, line: seq<Pulse>, t0: seq<Event>,
                 initial: int, n: nat, to: int)
    requires line == Drop(full, base)
    requires to == (if n == 0 then initial else BitTimeout)
    ensures Classify(PulseAt(full, base + n)) == ReadAt(line, n)
    ensures (t0 + Samples(initial, n)) + [Sample(to)] == t0 + Samples(initial, n + 1)
  {
  }

  /** The `uint8_t` addition `buff[i] += bit << (7 - j)` of the receive loop
      adds bit j to the accumulated prefix and never wraps. */
  lemma AccumulateNextBit(line: seq<Pulse>, from: nat, j: nat, bit: nat, acc: nat, v: int)
    requires j < 8 && bit == ReadAt(line, from + j) && bit != Timeout
    requires acc == Accumulated(line, from, j) && v == (acc + Shl(bit, 7 - j)) % 256
    ensures v == Accumulated(line, from, j + 1)
  {
    var bits := ReadBits(line, from, j + 1);
    assert bits[..j] == ReadBits(line, from, j);
    assert Accumulated(line, from, j + 1) == acc + Shl(bit, 7 - j);
  }

  /** The body of the inner loop of `gc_n64_get`: read j of byte i (read
      8 * i + j of the answer) with timeout `to`; a decoded bit is added to
      the byte at its position, a timeout leaves the byte as it is. */
  method ReadBitInto(buff: array<Byte>, i: nat, j: nat, pin: Pin, to: int,
                     ghost base: nat, ghost line: seq<Pulse>, ghost t0: seq<Event>,
                     ghost initial: int, ghost n: nat) returns (bit: nat)
    requires i < buff.Length && j < 8 && n == 8 * i + j
    requires to == (if n == 0 then initial else BitTimeout)
    requires line == Drop(pin.line, base) && ReadsDone(pin, base, t0, initial, n)
    requires buff[i] == Accumulated(line, 8 * i, j)
    modifies buff, pin
    ensures bit == ReadAt(line, n)
    ensures ReadsDone(pin, base, t0, initial, n + 1)
    ensures pin.mode == old(pin.mode)
    ensures bit != Timeout ==> buff[i] == Accumulated(line, 8 * i, j + 1)
    ensures bit == Timeout ==> buff[i] == old(buff[i])
    ensures forall m :: 0 <= m < buff.Length && m != i ==> buff[m] == old(buff[m])
  {
    ReadStep(pin.line, base, line, t0, initial, n, to);
    bit := ReadBit(pin, to);
    if bit != Timeout {
      var v := (buff[i] + Shl(bit, 7 - j)) % 256;
      AccumulateNextBit(line, 8 * i, j, bit, buff[i], v);
      buff[i] := v;
    }
  }

  /** One pass of the outer loop of `gc_n64_get`, for byte i: the byte is
      zeroed, then up to 8 bits are read into it MSB first, the first read
      of byte 0 with the caller's initial timeout and every other with 7,
      stopping at the first timeout. `line` is the answer as a whole, of
      which the first 8 * i reads are done; the result is the last value
      `read_bit` returned. */
  method ReadByteInto(buff: array<Byte>, i: nat, pin: Pin, initialTimeout: int,
                      ghost base: nat, ghost line: seq<Pulse>, ghost t0: seq<Event>) returns (bit: nat)
    requires i < buff.Length && 8 * i <= FirstTimeout(line)
    requires line == Drop(pin.line, base) && ReadsDone(pin, base, t0, initialTimeout, 8 * i)
    modifies buff, pin
    ensures bit != Timeout ==> 8 * i + 8 <= FirstTimeout(line) && buff[i] == ByteRead(line, i)
    ensures bit != Timeout ==> ReadsDone(pin, base, t0, initialTimeout, 8 * i + 8)
    ensures bit == Timeout ==> FirstTimeout(line) < 8 * i + 8
    ensures bit == Timeout ==> buff[i] == Accumulated(line, 8 * i, FirstTimeout(line) - 8 * i)
    ensures bit == Timeout ==> ReadsDone(pin, base, t0, initialTimeout, FirstTimeout(line) + 1)
    ensures forall m :: 0 <= m < buff.Length && m != i ==> buff[m] == old(buff[m])
    ensures pin.mode == old(pin.mode)
  {
    var timeout := BitTimeout;
    buff[i] := 0;
    ghost var n := 8 * i;
    var j := 0;
    bit := 0;
    while j < 8
      invariant 0 <= j <= 8 && n == 8 * i + j && n <= FirstTimeout(line)
      invariant ReadsDone(pin, base, t0, initialTimeout, n)
      invariant pin.mode == old(pin.mode)
      invariant buff[i] == Accumulated(line, 8 * i, j)
      invariant forall m :: 0 <= m < buff.Length && m != i ==> buff[m] == old(buff[m])
      invariant bit != Timeout
    {
      var to := if j == 0 && i == 0 then initialTimeout else timeout;
      bit := ReadBitInto(buff, i, j, pin, to, base, line, t0, initialTimeout, n);
      if bit == Timeout {
        assert FirstTimeout(line) - 8 * i == j;
        break;
      }
      n := n + 1;
      j := j + 1;
    }
  }

  /** `gc_n64_get`: switch the pin to input with pull-up, then read up to
      len bytes into buff, in place. */
  method Get(buff: array<Byte>, len: Byte, pin: Pin, initialTimeout: int) returns (received: nat)
    requires len <= buff.Length
    modifies buff, pin
    ensures received == Received(old(Unread(pin)), len)
    ensures buff[..] == Fill(old(buff[..]), old(Unread(pin)), len)
    ensures pin.polled == old(pin.polled) + ReadsMade(old(Unread(pin)), len)
    ensures pin.trace == old(pin.trace) + [SetMode(InputPullup)]
                         + Samples(initialTimeout, ReadsMade(old(Unread(pin)), len))
    ensures pin.mode == InputPullup
  {
    ghost var base := pin.polled;
    ghost var line := Unread(pin);
    SetPinMode(pin, InputPullup);
    ghost var t0 := pin.trace;
    received := 0;
    var bit: nat := 0;
    var i := 0;
    while i < len
      invariant 0 <= i <= len && received == i && 8 * i <= FirstTimeout(line)
      invariant ReadsDone(pin, base, t0, initialTimeout, 8 * i)
      invariant pin.mode == InputPullup
      invariant forall m :: 0 <= m < i ==> buff[m] == ByteRead(line, m)
      invariant forall m :: i <= m < buff.Length ==> buff[m] == old(buff[m])
    {
      bit := ReadByteInto(buff, i, pin, initialTimeout, base, line, t0);
      if bit == Timeout {
        break;
      }
      received := received + 1;
      i := i + 1;
    }
  }

  /** `gc_n64_send_get`: send the command, then read the answer with a
      100 microsecond timeout for its first bit, and return the count. Every
      read comes after the whole command and after the switch to input. */
  method SendGet(pin: Pin, command: array<Byte>, commandLen: Byte,
                 report: array<Byte>, reportLen: Byte) returns (received: nat)
    requires commandLen <= command.Length && reportLen <= report.Length
    modifies pin, report
    ensures pin.trace == old(pin.trace) + SendTrace(old(command[..commandLen])) + [SetMode(InputPullup)]
                         + Samples(ResponseTimeout, ReadsMade(old(Unread(pin)), reportLen))
    ensures received == Received(old(Unread(pin)), reportLen)
    ensures report[..] == Fill(old(report[..]), old(Unread(pin)), reportLen)
    ensures pin.polled == old(pin.polled) + ReadsMade(old(Unread(pin)), reportLen)
    ensures pin.mode == InputPullup
  {
    Send(command, commandLen, pin);
    received := Get(report, reportLen, pin, ResponseTimeout);
  }

  // ---------------------------------------------------------------------
  // Properties of a receive
  // ---------------------------------------------------------------------

  /** Byte i is counted exactly when all of its reads, and all reads before
      them, decoded a bit. */
  lemma ReceivedIff(line: seq<Pulse>, len: nat, i: nat)
    requires i < len
    ensures i < Received(line, len) <==>
      forall k :: 0 <= k < 8 * i + 8 ==> ReadAt(line, k) != Timeout
  {
  }

  /** An answer that reads as the frame of bs, and then either fills the
      report or times out within the next byte, is counted as |bs| bytes
      and the report then starts with exactly bs: the byte-level round trip
      of the send serialisation and the receive packing. */
  lemma {:induction false} ReceiveResponse(line: seq<Pulse>, bs: seq<Byte>, len: nat, t: nat,
                                           before: seq<Byte>)
    requires |bs| <= len <= |before|
    requires forall k :: 0 <= k < 8 * |bs| ==> ReadAt(line, k) == Serialize(bs)[k]
    requires |bs| == len || (t < 8 && ReadAt(line, 8 * |bs| + t) == Timeout)
    ensures Received(line, len) == |bs|
    ensures Fill(before, line, len)[..|bs|] == bs
  {
    var r := Fill(before, line, len);
    forall i | 0 <= i < |bs|
      ensures r[i] == bs[i]
    {
      forall m | 0 <= m < 8
        ensures ReadBits(line, 8 * i, 8)[m] == BitsOf(bs[i])[m]
      {
        SerializeAt(bs, i, m);
      }
      assert BitsOf(ByteRead(line, i)) == BitsOf(bs[i]);
      PackBitsOf(ByteRead(line, i));
      PackBitsOf(bs[i]);
    }
  }
}
