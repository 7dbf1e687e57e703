/** The single data pin of the GameCube/N64 protocol and the bit codec that
    runs on it: `write_bit`, `write_stop_bit` and `read_bit`.

    Time is not simulated. What the firmware does to the pin is recorded as
    a trace of events (mode changes, level changes, busy-wait delays); what
    the controller on the other end does is an oracle: for each `read_bit`
    call, the outcome of the two edge waits and the two clock readings. */
module Pin {

  /** The pin directions the codec uses (`pinMode`). */
  datatype Mode = Output | InputPullup

  /** A logic level driven with `digitalWrite`. */
  datatype Level = Low | High

  /** One effect on the pin: a `pinMode` call, a `digitalWrite` call, a
      busy-wait of the given number of nanoseconds (`delayMicroseconds(1)`
      is a wait of 1000 ns), or a `read_bit` call sampling the line with
      the given timeout. */
  datatype Event = SetMode(mode: Mode) | Drive(level: Level) | Hold(ns: nat) | Sample(timeout: int)

  /** What one `read_bit` call observes on the line: whether
      `wait_for_down_edge` saw the line fall in time, whether
      `wait_for_up_edge` then saw it rise in time (only consulted when the
      fall was seen), and the two `micros()` readings taken at the start and
      at the end of the low phase. */
  datatype Pulse = Pulse(fell: bool, rose: bool, start: int, end: int)

  /** A line nobody drives: the first edge wait already times out. */
  const Silent := Pulse(false, false, 0, 0)

  /** The sentinel `read_bit` returns when an edge wait timed out. */
  const Timeout: nat := 2

  /** The longest low phase, in microseconds, still read as a 1. */
  const OneMaxLowUs := 2

  /** Length of a data-bit period in nanoseconds (both encodings). */
  const BitPeriodNs := 3750

  /** The classification in `read_bit`: 2 when either edge wait failed,
      otherwise 1 for a short low phase and 0 for a long one. */
  function Classify(p: Pulse): (r: nat)
    ensures r <= 2
    ensures r == Timeout <==> !(p.fell && p.rose)
    ensures r == 1 <==> p.fell && p.rose && p.end - p.start <= OneMaxLowUs
    ensures r == 0 <==> p.fell && p.rose && p.end - p.start > OneMaxLowUs
  {
    if !(p.fell && p.rose) then Timeout
    else if p.end - p.start <= OneMaxLowUs then 1
    else 0
  }

  /** The events `write_bit` produces: the line is pulled low, held, released
      high and held again. A 1 is a short low phase (1000 ns) and a long high
      phase (2750 ns); a 0 the other way round; the period is the same. */
  function BitWaveform(bit: bool): (r: seq<Event>)
    ensures |r| == 4 && r[0] == Drive(Low) && r[2] == Drive(High)
    ensures r[1].Hold? && r[3].Hold? && r[1].ns + r[3].ns == BitPeriodNs
    ensures bit <==> r[1].ns < r[3].ns
    ensures r[1].ns == 1000 || r[1].ns == 2750
  {
    if bit then [Drive(Low), Hold(1000), Drive(High), Hold(2750)]
    else [Drive(Low), Hold(2750), Drive(High), Hold(1000)]
  }

  /** The events `write_stop_bit` produces: the waveform of a 1 bit without
      its trailing hold, i.e. low for 1000 ns, then released high. */
  function StopWaveform(): (r: seq<Event>)
    ensures r == BitWaveform(true)[..3]
  {
    [Drive(Low), Hold(1000), Drive(High)]
  }

  /** The pulse the controller produces for the k-th `read_bit` call on
      the pin; past the end of what it sends, the line is silent. */
  function PulseAt(line: seq<Pulse>, k: nat): Pulse
  {
    if k < |line| then line[k] else Silent
  }

  /** The pin with its observable state: its direction, every effect the
      firmware has had on it so far (reads included, in order), what the
      controller on the other end does for each `read_bit` call (fixed for
      the life of the pin) and how many `read_bit` calls have been made. */
  class Pin {
    var mode: Mode
    var trace: seq<Event>
    const line: seq<Pulse>
    var polled: nat

    constructor (mode0: Mode, line0: seq<Pulse>)
      ensures mode == mode0 && trace == [] && line == line0 && polled == 0
    {
      mode := mode0;
      trace := [];
      line := line0;
      polled := 0;
    }
  }

  /** `pinMode`. */
  method SetPinMode(pin: Pin, m: Mode)
    modifies pin
    ensures pin.mode == m && pin.trace == old(pin.trace) + [SetMode(m)]
    ensures pin.polled == old(pin.polled)
  {
    pin.mode := m;
    pin.trace := pin.trace + [SetMode(m)];
  }

  /** `write_bit`: one data bit on the wire. */
  method WriteBit(pin: Pin, bit: bool)
    modifies pin
    ensures pin.trace == old(pin.trace) + BitWaveform(bit)
    ensures pin.mode == old(pin.mode)
    ensures pin.polled == old(pin.polled)
  {
    pin.trace := pin.trace + [Drive(Low)];
    if bit {
      pin.trace := pin.trace + [Hold(1000)];
    } else {
      pin.trace := pin.trace + [Hold(2750)];
    }
    pin.trace := pin.trace + [Drive(High)];
    if bit {
      pin.trace := pin.trace + [Hold(2750)];
    } else {
      pin.trace := pin.trace + [Hold(1000)];
    }
  }

  /** `write_stop_bit`: the pulse that ends a frame. */
  method WriteStopBit(pin: Pin)
    modifies pin
    ensures pin.trace == old(pin.trace) + StopWaveform()
    ensures pin.mode == old(pin.mode)
    ensures pin.polled == old(pin.polled)
  {
    pin.trace := pin.trace + [Drive(Low), Hold(1000), Drive(High)];
  }

  /** `read_bit`: samples the line, recording the read and its timeout in
      the trace, and classifies the controller's next pulse. */
  method ReadBit(pin: Pin, timeout: int) returns (r: nat)
    modifies pin
    ensures r == Classify(PulseAt(pin.line, old(pin.polled)))
    ensures pin.polled == old(pin.polled) + 1
    ensures pin.trace == old(pin.trace) + [Sample(timeout)]
    ensures pin.mode == old(pin.mode)
  {
    var p := PulseAt(pin.line, pin.polled);
    pin.polled := pin.polled + 1;
    pin.trace := pin.trace + [Sample(timeout)];
    var worked := p.fell;
    var start := p.start;
    worked := worked && p.rose;
    var end := p.end;
    if !worked {
      return Timeout;
    }
    r := if end - start <= OneMaxLowUs then 1 else 0;
  }
}
