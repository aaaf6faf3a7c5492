/** What the serial monitor makes of the serial driver's waveform: the
    monitor, started anywhere outside a word, decodes each frame the driver
    produces into exactly the word that was sent, for every divider of at
    least one. */
module I2cRoundTrip {
  import opened Signals
  import opened I2c

  /** Running over two stretches of edges is running over the first and
      then over the second from where the first left off. */
  lemma {:induction false} RunAppend(st: MonitorState, a: seq<Sample>, b: seq<Sample>)
    ensures Run(st, a + b) == (Run(Run(st, a).0, b).0, Run(st, a).1 + Run(Run(st, a).0, b).1)
    decreases |b|
  {
    if b == [] {
      assert a + b == a;
      assert Run(Run(st, a).0, b) == (Run(st, a).0, []);
      assert Run(st, a).1 + [] == Run(st, a).1;
    } else {
      var b', last := b[..|b| - 1], b[|b| - 1];
      var mid := Run(st, a).0;
      RunAppend(st, a, b');
      assert (a + b)[..|a + b| - 1] == a + b';
      assert (a + b)[|a + b| - 1] == last;
      var before := Run(mid, b');
      var next := Step(before.0, last);
      assert Run(st, a + b) == (next.0, Run(st, a + b').1 + Emitted(next.1));
      assert Run(mid, b) == (next.0, before.1 + Emitted(next.1));
      assert Run(st, a).1 + before.1 + Emitted(next.1) == Run(st, a).1 + (before.1 + Emitted(next.1));
    }
  }

  /** Chaining two runs whose outcomes are known. */
  lemma RunChain(st: MonitorState, a: seq<Sample>, b: seq<Sample>, ab: seq<Sample>,
                 mid: MonitorState, last: MonitorState, out1: seq<int>, out2: seq<int>)
    requires ab == a + b && Run(st, a) == (mid, out1) && Run(mid, b) == (last, out2)
    ensures Run(st, ab) == (last, out1 + out2)
  {
    RunAppend(st, a, b);
  }

  /** Two stretches that emit nothing emit nothing together. */
  lemma RunQuiet(st: MonitorState, a: seq<Sample>, b: seq<Sample>, ab: seq<Sample>, mid: MonitorState, last: MonitorState)
    requires ab == a + b && Run(st, a) == (mid, []) && Run(mid, b) == (last, [])
    ensures Run(st, ab) == (last, [])
  {
    RunAppend(st, a, b);
  }

  lemma RunOne(st: MonitorState, s: Sample)
    ensures Run(st, [s]) == (Step(st, s).0, Emitted(Step(st, s).1))
  {
    assert [s][..0] == [];
    assert Run(st, [s][..0]) == (st, []);
    assert [] + Emitted(Step(st, s).1) == Emitted(Step(st, s).1);
  }

  /** SCL held low: a started monitor only records that SCL was low. */
  lemma {:induction false} RunLow(st: MonitorState, n: nat, v: Logic)
    ensures Run(st, Hold(n, Sample(Low, v))) == (if st.started && n > 0 then st.(prevScl := 0) else st, [])
  {
    if n > 0 {
      var h := Hold(n - 1, Sample(Low, v));
      RunLow(st, n - 1, v);
      RunAppend(st, h, [Sample(Low, v)]);
      RunOne(Run(st, h).0, Sample(Low, v));
    }
  }

  /** Both lines held high outside a word: the first edge notes the idle
      level, the others change nothing. */
  lemma {:induction false} RunIdleLines(st: MonitorState, n: nat)
    requires !st.started
    ensures Run(st, Hold(n, Sample(High, High))) == (if n > 0 then st.(preStarted := true) else st, [])
  {
    if n > 0 {
      var h := Hold(n - 1, Sample(High, High));
      RunIdleLines(st, n - 1);
      RunAppend(st, h, [Sample(High, High)]);
      RunOne(Run(st, h).0, Sample(High, High));
    }
  }

  /** The monitor's state at the start of iteration i >= 1 of the driver's
      bit loop: bits 0 .. i-2 collected, bit i-1 about to be sampled, SCL
      last seen low, and `ack` set exactly at a byte boundary. */
  function Entry(data: int, i: nat): MonitorState
    requires 1 <= i
  {
    MonitorState(true, false, 0, LowBits(data, i - 1), i - 1, if (i - 1) % 8 == 0 then 1 else 0)
  }

  /** A rising edge inside a word, outside an ACK slot, adds the bit on SDA
      at the position the counter names. */
  lemma StepBit(r: int, c: nat, a: int, p: Logic, r': int)
    requires c < 32 && (c % 8 != 0 || a != 0) && r' == r + Shl(SdaBit(p), c)
    ensures Step(MonitorState(true, false, 0, r, c, a), Sample(High, p)) == (MonitorState(true, false, 1, r', c + 1, 0), None)
  {
  }

  /** A rising edge at a byte boundary with `ack` clear is the ACK slot:
      only `ack` is set. */
  lemma StepAck(r: int, c: nat, p: Logic)
    requires c < 32 && c % 8 == 0
    ensures Step(MonitorState(true, false, 0, r, c, 0), Sample(High, p)) == (MonitorState(true, false, 1, r, c, 1), None)
  {
  }

  /** Bit i - 1 put on SDA extends the low i - 1 bits to the low i bits. */
  lemma LowBitsAfter(data: int, i: nat)
    requires 1 <= i <= 32
    ensures LowBits(data, i - 1) + Shl(SdaBit(DataBefore(data, i)), i - 1) == LowBits(data, i)
  {
    assert SdaBit(DataBefore(data, i)) == BitOf(data, i - 1);
  }

  /** The first edge of iteration i samples bit i - 1. */
  lemma SampleBit(data: int, i: nat)
    requires 1 <= i <= 32
    ensures Step(Entry(data, i), Sample(High, DataBefore(data, i))) == (MonitorState(true, false, 1, LowBits(data, i), i, 0), None)
  {
    LowBitsAfter(data, i);
    StepBit(LowBits(data, i - 1), i - 1, if (i - 1) % 8 == 0 then 1 else 0, DataBefore(data, i), LowBits(data, i));
  }

  /** One clock pulse whose rising edge takes a started monitor from `st`
      to `next` without emitting anything; the low edges then only record
      that SCL was low. */
  lemma Pulse(st: MonitorState, p: Logic, d: nat, w: seq<Sample>, next: MonitorState, after: MonitorState)
    requires d >= 1 && w == [Sample(High, p)] + Hold(d, Sample(Low, p))
    requires Step(st, Sample(High, p)) == (next, None) && next.started && after == next.(prevScl := 0)
    ensures Run(st, w) == (after, [])
  {
    RunOne(st, Sample(High, p));
    RunLow(next, d, p);
    RunQuiet(st, [Sample(High, p)], Hold(d, Sample(Low, p)), w, next, after);
  }

  /** Iteration i of the bit loop when no ACK pulse precedes bit i. */
  lemma CellPlain(data: int, d: nat, i: nat)
    requires 1 <= i <= 31 && d >= 1 && !HasAckPulse(i)
    ensures Run(Entry(data, i), Cell(data, d, i)) == (Entry(data, i + 1), [])
  {
    var p := DataBefore(data, i);
    var pulse := [Sample(High, p)] + Hold(d, Sample(Low, p));
    var sampled := MonitorState(true, false, 1, LowBits(data, i), i, 0);
    SampleBit(data, i);
    assert Entry(data, i + 1) == sampled.(prevScl := 0);
    assert Cell(data, d, i) == pulse;
    Pulse(Entry(data, i), p, d, pulse, sampled, Entry(data, i + 1));
  }

  /** Iteration i of the bit loop when the ACK pulse precedes bit i: the
      first pulse samples bit i - 1, the second is the ACK slot. */
  lemma CellAck(data: int, d: nat, i: nat)
    requires 1 <= i <= 31 && d >= 1 && HasAckPulse(i)
    ensures Run(Entry(data, i), Cell(data, d, i)) == (Entry(data, i + 1), [])
  {
    var p := DataBefore(data, i);
    var pulse := [Sample(High, p)] + Hold(d, Sample(Low, p));
    var sampled := MonitorState(true, false, 1, LowBits(data, i), i, 0);
    var acked := MonitorState(true, false, 1, LowBits(data, i), i, 1);
    SampleBit(data, i);
    Pulse(Entry(data, i), p, d, pulse, sampled, sampled.(prevScl := 0));
    StepAck(LowBits(data, i), i, p);
    assert Entry(data, i + 1) == acked.(prevScl := 0);
    Pulse(sampled.(prevScl := 0), p, d, pulse, acked, Entry(data, i + 1));
    assert Cell(data, d, i) == pulse + pulse;
    RunQuiet(Entry(data, i), pulse, pulse, Cell(data, d, i), sampled.(prevScl := 0), Entry(data, i + 1));
  }

  /** Iteration n - 1, for 2 <= n <= 32, moves the monitor from one entry
      state to the next without emitting anything. */
  lemma CellStep(data: int, d: nat, n: nat)
    requires 2 <= n <= 32 && d >= 1
    ensures Run(Entry(data, n - 1), Cell(data, d, n - 1)) == (Entry(data, n), [])
  {
    if HasAckPulse(n - 1) {
      CellAck(data, d, n - 1);
    } else {
      CellPlain(data, d, n - 1);
    }
  }

  lemma HeadStep(data: int, d: nat, n: nat)
    requires n >= 1
    ensures Head(data, d, n) == Head(data, d, n - 1) + Cell(data, d, n - 1)
  {
  }

  /** The idle edges and iteration 0 (start condition, SCL falling) bring a
      monitor that is outside a word to the entry state of iteration 1. */
  lemma StartStep(st: MonitorState, data: int, d: nat, n: nat)
    requires !st.started && d >= 1 && n == 1
    ensures Run(st, Head(data, d, n)) == (Entry(data, n), [])
  {
    var idle := Hold(2 * d, Sample(High, High));
    var pulse := [Sample(High, Low)] + Hold(d, Sample(Low, Low));
    var ready := st.(preStarted := true);
    var begun := MonitorState(true, false, st.prevScl, 0, 0, 1);
    RunIdleLines(st, 2 * d);
    assert Step(ready, Sample(High, Low)) == (begun, None);
    assert Entry(data, n) == begun.(prevScl := 0);
    Pulse(ready, Low, d, pulse, begun, Entry(data, n));
    HeadStep(data, d, n);
    assert Head(data, d, n) == idle + pulse;
    RunQuiet(st, idle, pulse, Head(data, d, n), ready, Entry(data, n));
  }

  /** Iteration n - 1 of the bit loop extends the run to entry state n. */
  lemma BitsExtend(st: MonitorState, data: int, d: nat, n: nat)
    requires d >= 1 && 2 <= n <= 32
    requires Run(st, Head(data, d, n - 1)) == (Entry(data, n - 1), [])
    ensures Run(st, Head(data, d, n)) == (Entry(data, n), [])
  {
    CellStep(data, d, n);
    HeadStep(data, d, n);
    RunQuiet(st, Head(data, d, n - 1), Cell(data, d, n - 1), Head(data, d, n), Entry(data, n - 1), Entry(data, n));
  }

  lemma {:induction false} BitsFrom(st: MonitorState, data: int, d: nat, n: nat)
    requires d >= 1 && 1 <= n <= 32
    requires Run(st, Head(data, d, 1)) == (Entry(data, 1), [])
    ensures Run(st, Head(data, d, n)) == (Entry(data, n), [])
  {
    if n > 1 {
      BitsFrom(st, data, d, n - 1);
      BitsExtend(st, data, d, n);
    }
  }

  lemma BitsStep(st: MonitorState, data: int, d: nat, n: nat)
    requires !st.started && d >= 1 && 1 <= n <= 32
    ensures Run(st, Head(data, d, n)) == (Entry(data, n), [])
  {
    var one := 1;
    StartStep(st, data, d, one);
    BitsFrom(st, data, d, n);
  }

  /** The second pulse of the tail: its rising edge hands over the word,
      after which the monitor ignores SCL. */
  lemma Handover(r: int, p: Logic, d: nat, w: seq<Sample>)
    requires w == [Sample(High, p)] + Hold(d, Sample(Low, p))
    ensures Run(MonitorState(true, false, 0, r, 32, 0), w) == (MonitorState(false, false, 1, r, 32, 0), [r])
  {
    var st := MonitorState(true, false, 0, r, 32, 0);
    var next := MonitorState(false, false, 1, r, 32, 0);
    RunOne(st, Sample(High, p));
    assert Step(st, Sample(High, p)) == (next, Some(r));
    RunLow(next, d, p);
    RunChain(st, [Sample(High, p)], Hold(d, Sample(Low, p)), w, next, next, [r], []);
    assert [r] + [] == [r];
  }

  /** The state the tail leaves behind: the word handed over, the monitor
      outside a word with SCL last seen high. */
  function Finished(data: int): MonitorState
  {
    MonitorState(false, false, 1, LowBits(data, 32), 32, 0)
  }

  /** The two clock pulses of the tail sample bit 31 and then hand over
      the word. */
  lemma TailPulses(data: int, d: nat, n: nat, pulse: seq<Sample>)
    requires d >= 1 && n == 32
    requires pulse == [Sample(High, DataBefore(data, n))] + Hold(d, Sample(Low, DataBefore(data, n)))
    ensures Run(Entry(data, n), pulse + pulse) == (Finished(data), [LowBits(data, n)])
  {
    var p := DataBefore(data, n);
    var sampled := MonitorState(true, false, 1, LowBits(data, n), n, 0);
    var full := MonitorState(true, false, 0, LowBits(data, n), n, 0);
    SampleBit(data, n);
    Pulse(Entry(data, n), p, d, pulse, sampled, full);
    Handover(LowBits(data, n), p, d, pulse);
    RunChain(Entry(data, n), pulse, pulse, pulse + pulse, full, Finished(data), [], [LowBits(data, n)]);
    assert [] + [LowBits(data, n)] == [LowBits(data, n)];
  }

  /** The tail samples bit 31, emits the word on the next rising edge and
      leaves the monitor outside a word, with no start condition pending. */
  lemma TailStep(data: int, d: nat, n: nat)
    requires d >= 1 && n == 32
    ensures Run(Entry(data, n), Tail(data, d)) == (Finished(data), [LowBits(data, n)])
  {
    var p := DataBefore(data, n);
    var pulse := [Sample(High, p)] + Hold(d, Sample(Low, p));
    var e := Finished(data);
    TailPulses(data, d, n, pulse);
    RunOne(e, Sample(High, Low));
    assert Step(e, Sample(High, Low)) == (e, None);
    assert Tail(data, d) == (pulse + pulse) + [Sample(High, Low)];
    RunChain(Entry(data, n), pulse + pulse, [Sample(High, Low)], Tail(data, d), e, e, [LowBits(data, n)], []);
    assert [LowBits(data, n)] + [] == [LowBits(data, n)];
  }

  /** The word the monitor assembles from 32 sampled bits is the sent word
      reduced to 32 bits. */
  lemma WordBits(data: int)
    ensures LowBits(data, 32) == data % WordModulus
  {
    LowBitsMod(data, 32);
    Pow2Of32();
  }

  /** Round trip: from any state outside a word, the monitor decodes the
      driver's frame for `data` into exactly one word, `data` reduced to 32
      bits, and ends outside a word again. */
  lemma RoundTrip(st: MonitorState, data: int, d: nat)
    requires !st.started && d >= 1
    ensures Run(st, Frame(data, d)).1 == [data % WordModulus]
    ensures var e := Run(st, Frame(data, d)).0;
            !e.started && !e.preStarted && e.prevScl == 1
  {
    var n := 32;
    BitsStep(st, data, d, n);
    TailStep(data, d, n);
    WordBits(data);
    RunChain(st, Head(data, d, n), Tail(data, d), Frame(data, d), Entry(data, n), Finished(data), [], [LowBits(data, n)]);
    assert [] + [LowBits(data, n)] == [data % WordModulus];
  }

  /** The headline case: every 32-bit word survives the trip unchanged. */
  lemma WordRoundTrip(data: int, d: nat)
    requires 0 <= data < WordModulus && d >= 1
    ensures Run(Idle, Frame(data, d)).1 == [data]
  {
    RoundTrip(Idle, data, d);
  }

  /** The driver only ever drives SCL to a logic level. */
  lemma HoldResolved(n: nat, s: Sample)
    requires s.scl != Indeterminate
    ensures LiveUpTo(Hold(n, s), n)
  {
    forall k | 0 <= k < n
      ensures Hold(n, s)[k].scl != Indeterminate
    {
      HoldIndex(n, s, k);
    }
  }

  lemma {:induction false} HeadResolved(data: int, d: nat, n: nat)
    ensures LiveUpTo(Head(data, d, n), |Head(data, d, n)|)
  {
    HoldResolved(2 * d, Sample(High, High));
    if n > 0 {
      HeadResolved(data, d, n - 1);
      HoldResolved(d, Sample(Low, DataBefore(data, n - 1)));
    }
  }

  /** Every edge of a frame has SCL at a logic level, so the monitor lives
      through all of it. */
  lemma FrameResolved(data: int, d: nat)
    ensures LiveUpTo(Frame(data, d), |Frame(data, d)|)
    ensures Alive(Frame(data, d)) == Frame(data, d)
  {
    HeadResolved(data, d, 32);
    HoldResolved(d, Sample(Low, Level(BitOf(data, 31))));
    AliveUpTo(Frame(data, d), |Frame(data, d)|);
  }

  /** The driver and the monitor connected to the same two lines: sending
      a transaction makes the monitor receive exactly one read transaction
      carrying the same word (reduced to 32 bits). */
  method SendThenMonitor(t: Transaction) returns (received: seq<Transaction>)
    requires t.divider >= 1
    ensures received == [Transaction(t.data % WordModulus, false, 1)]
    ensures 0 <= t.data < WordModulus ==> Equal(received[0], t)
  {
    var wave, lines := Send(t);
    received := Monitor(wave);
    FrameReceived(t.data, RangeLen(t.divider));
    if 0 <= t.data < WordModulus {
      DivModUnique(t.data, WordModulus, 0, t.data);
    }
  }

  /** The monitor lives through a whole frame and receives its word. */
  lemma FrameReceived(data: int, d: nat)
    requires d >= 1
    ensures Received(Run(Idle, Alive(Frame(data, d))).1) == [Transaction(data % WordModulus, false, 1)]
  {
    FrameResolved(data, d);
    RoundTrip(Idle, data, d);
  }

  /** The frames of several words sent back to back. */
  function Frames(words: seq<int>, d: nat): seq<Sample>
  {
    if words == [] then [] else Frames(words[..|words| - 1], d) + Frame(words[|words| - 1], d)
  }

  function Low32(words: seq<int>): (r: seq<int>)
    ensures |r| == |words|
    ensures forall k :: 0 <= k < |words| ==> r[k] == words[k] % WordModulus
  {
    if words == [] then [] else Low32(words[..|words| - 1]) + [words[|words| - 1] % WordModulus]
  }

  /** Words sent back to back are received in order, one per frame. */
  lemma {:induction false} FramesRoundTrip(st: MonitorState, words: seq<int>, d: nat)
    requires !st.started && d >= 1
    ensures Run(st, Frames(words, d)).1 == Low32(words)
    ensures !Run(st, Frames(words, d)).0.started
  {
    if words != [] {
      var init := words[..|words| - 1];
      var w := words[|words| - 1];
      FramesRoundTrip(st, init, d);
      RoundTrip(Run(st, Frames(init, d)).0, w, d);
      RunAppend(st, Frames(init, d), Frame(w, d));
    }
  }

  /** The number of extra clock pulses in the first n iterations. */
  function Pulses(n: nat): nat
  {
    if n == 0 then 0 else Pulses(n - 1) + (if HasAckPulse(n - 1) then 1 else 0)
  }

  lemma {:induction false} PulsesCount(n: nat)
    ensures Pulses(n) == if n == 0 then 0 else (n - 1) / 8
  {
    if n > 1 {
      PulsesCount(n - 1);
    }
  }

  lemma {:induction false} HeadLength(data: int, d: nat, n: nat)
    ensures |Head(data, d, n)| == 2 * d + (n + Pulses(n)) * (d + 1)
  {
    if n > 0 {
      var k := if HasAckPulse(n - 1) then 1 else 0;
      HeadLength(data, d, n - 1);
      assert |Cell(data, d, n - 1)| == (1 + k) * (d + 1);
      Distribute(n - 1 + Pulses(n - 1), 1 + k, d + 1);
    }
  }

  lemma Distribute(x: nat, y: nat, m: nat)
    ensures x * m + y * m == (x + y) * m
  {
  }

  /** A frame lasts 2d idle edges, 35 clock periods of d + 1 edges (32 bits
      and 3 extra pulses) and a tail of 2d + 3 edges. */
  lemma FrameLength(data: int, d: nat)
    ensures |Frame(data, d)| == 39 * d + 38
  {
    var bits := 32;
    HeadLength(data, d, bits);
    PulsesCount(bits);
    assert |Tail(data, d)| == 2 * d + 3;
  }
}
