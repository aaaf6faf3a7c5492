/** The serial-bus agent of the testbench (tb/i2c.py): the word
    transaction, the driver that turns a word into a clock-edge waveform of
    the two lines, and the monitor that decodes such a waveform back into
    words.

    Timing: one sample per rising clock edge. A value written after edge k
    is the value the monitor reads, after the values settle, at edge k. The
    driver therefore records the lines each time it waits for the next
    edge: that closes the sample of the edge it has been writing into. */
module I2c {
  import opened Signals

  /** A serial word. Only `data` takes part in comparisons. */
  datatype Transaction = Transaction(data: int, write: bool, divider: int)

  /** `__eq__`: two transactions are equal when their data words are. */
  predicate Equal(a: Transaction, b: Transaction)
  {
    a.data == b.data
  }

  /** `__ne__` */
  predicate NotEqual(a: Transaction, b: Transaction)
  {
    a.data != b.data
  }

  /** The comparison ignores direction and divider, is an equivalence, and
      `__ne__` is its negation. */
  lemma EqualityIsOnDataOnly(a: Transaction, b: Transaction, c: Transaction)
    ensures NotEqual(a, b) <==> !Equal(a, b)
    ensures Equal(a, a)
    ensures Equal(a, b) ==> Equal(b, a)
    ensures Equal(a, b) && Equal(b, c) ==> Equal(a, c)
    ensures Equal(a.(write := true, divider := b.divider), a.(write := false, divider := c.divider))
  {
  }

  /** `post_randomize`: `drawn` is the value `random.randint(0, 0xFFFFFFFF)`
      returned; only the data word changes. */
  function PostRandomize(t: Transaction, drawn: int): (r: Transaction)
    requires 0 <= drawn <= 0xFFFF_FFFF
    ensures 0 <= r.data < WordModulus
    ensures r.write == t.write && r.divider == t.divider
    ensures Equal(r, Transaction(drawn, false, 1))
  {
    t.(data := drawn)
  }

  // ---------------------------------------------------------------------
  // Waveform

  /** The two lines at one clock edge. */
  datatype Sample = Sample(scl: Logic, sda: Logic)

  /** The data line while the clock is low before bit i: the start
      condition's 0 before bit 0, the previous bit after it. */
  function DataBefore(data: int, i: nat): Logic
  {
    if i == 0 then Low else Level(BitOf(data, i - 1))
  }

  /** Bits 8, 16 and 24 are preceded by an extra clock pulse. */
  predicate HasAckPulse(i: nat)
  {
    i % 8 == 0 && i > 0
  }

  /** The edges driven in iteration i of the bit loop: the edge that
      presents the previous bit (or the start condition) with SCL high, `d`
      edges with SCL low and, before bits 8, 16 and 24, one more high edge
      and `d` more low edges. */
  function Cell(data: int, d: nat, i: nat): seq<Sample>
  {
    var p := DataBefore(data, i);
    [Sample(High, p)] + Hold(d, Sample(Low, p))
    + (if HasAckPulse(i) then [Sample(High, p)] + Hold(d, Sample(Low, p)) else [])
  }

  /** The edges up to the end of the first `n` iterations of the bit loop:
      2d idle edges with both lines high, then one cell per iteration. */
  function Head(data: int, d: nat, n: nat): seq<Sample>
  {
    if n == 0 then Hold(2 * d, Sample(High, High)) else Head(data, d, n - 1) + Cell(data, d, n - 1)
  }

  /** After the bit loop: the edge presenting bit 31, two more clock
      pulses, and the edge with SDA pulled low under a high SCL. */
  function Tail(data: int, d: nat): seq<Sample>
  {
    var p := Level(BitOf(data, 31));
    [Sample(High, p)] + Hold(d, Sample(Low, p))
    + [Sample(High, p)] + Hold(d, Sample(Low, p))
    + [Sample(High, Low)]
  }

  /** The waveform of one word: the idle edges, the 32 iterations of the
      bit loop and the tail. */
  function Frame(data: int, d: nat): seq<Sample>
  {
    Head(data, d, 32) + Tail(data, d)
  }

  /** `for j in range(n): yield RisingEdge(clock)` with the lines at `s`. */
  method WaitEdges(wave: seq<Sample>, s: Sample, n: nat) returns (w: seq<Sample>)
    ensures w == wave + Hold(n, s)
  {
    w := wave;
    for j := 0 to n
      invariant w == wave + Hold(j, s)
    {
      w := w + [s];
    }
  }

  /** One iteration of the bit loop, entered with SCL high and SDA at `p`:
      the edge that closes the previous phase, SCL low for `d` edges and,
      before bits 8, 16 and 24, one more high edge and `d` more low edges. */
  method ClockBit(wave: seq<Sample>, p: Logic, data: int, d: nat, i: nat) returns (w: seq<Sample>)
    requires p == DataBefore(data, i)
    ensures w == wave + Cell(data, d, i)
  {
    var scl, sda := High, p;
    w := wave + [Sample(scl, sda)];
    scl := Low;
    w := WaitEdges(w, Sample(scl, sda), d);
    if i % 8 == 0 && i > 0 {
      scl := High;
      w := w + [Sample(scl, sda)];
      scl := Low;
      w := WaitEdges(w, Sample(scl, sda), d);
    }
  }

  /** Lines 149-160: two more clock pulses after bit 31, then SDA pulled
      low under a high SCL. */
  method ClockTail(wave: seq<Sample>, p: Logic, data: int, d: nat) returns (w: seq<Sample>)
    requires p == Level(BitOf(data, 31))
    ensures w == wave + Tail(data, d)
  {
    var scl, sda := High, p;
    w := wave + [Sample(scl, sda)];
    scl := Low;
    w := WaitEdges(w, Sample(scl, sda), d);
    scl := High;
    w := w + [Sample(scl, sda)];
    scl := Low;
    w := WaitEdges(w, Sample(scl, sda), d);
    scl := High;
    sda := Low;
    w := w + [Sample(scl, sda)];
  }

  /** `I2CDriver.send`. Returns the lines at every edge from the one at
      which the call starts writing up to the last edge it waits for, and
      the level it leaves driven afterwards (both lines high), which is the
      first sample of whatever comes next. */
  method Send(t: Transaction) returns (wave: seq<Sample>, lines: Sample)
    ensures wave == Frame(t.data, RangeLen(t.divider))
    ensures lines == Sample(High, High)
  {
    var d := RangeLen(t.divider);
    var sda := High;
    wave := WaitEdges([], Sample(High, sda), 2 * d);
    assert wave == Head(t.data, d, 0);
    sda := Low;
    for i := 0 to 32
      invariant wave == Head(t.data, d, i)
      invariant sda == DataBefore(t.data, i)
    {
      wave := ClockBit(wave, sda, t.data, d, i);
      sda := Level(BitOf(t.data, i));
    }
    wave := ClockTail(wave, sda, t.data, d);
    sda := High;
    lines := Sample(High, sda);
  }

  // ---------------------------------------------------------------------
  // Monitor

  /** The locals of `I2CMonitor._monitor_recv`. */
  datatype MonitorState = MonitorState(
    started: bool, preStarted: bool, prevScl: int,
    rdata: int, dataCnt: nat, ack: int)

  /** The state at simulation start. `rdata`, `data_cnt` and `ack` are not
      yet bound there; they are only read after a start condition sets
      them, so their initial values here are immaterial. */
  const Idle := MonitorState(false, false, 1, 0, 0, 0)

  /** `sda` as the monitor reads it: 'x' and values that are not integers
      read as 0. */
  function SdaBit(v: Logic): (b: int)
    ensures b == 0 || b == 1
    ensures b == 1 <==> v == High
  {
    if v == High then 1 else 0
  }

  /** While a word is being received, the bit counter stays within 32 and
      the accumulated word has no bit at or above the counter. */
  predicate Inv(st: MonitorState)
  {
    && (st.started ==> st.dataCnt <= 32 && 0 <= st.rdata < Pow2(st.dataCnt) && (st.ack == 0 || st.ack == 1))
    && !(st.started && st.preStarted)
  }

  /** One iteration of the monitor's loop: the state after the edge and the
      word passed to `_recv`, if any. */
  function Step(st: MonitorState, s: Sample): (MonitorState, Option<int>)
  {
    var sda := SdaBit(s.sda);
    if s.scl == High then
      if !st.started && !st.preStarted && sda == 1 then
        (st.(preStarted := true), None)
      else if !st.started && st.preStarted && sda == 0 then
        (st.(started := true, preStarted := false, rdata := 0, dataCnt := 0, ack := 1), None)
      else if st.started && st.prevScl == 0 then
        if st.dataCnt == 32 then
          (st.(prevScl := 1, started := false), Some(st.rdata))
        else if st.dataCnt % 8 != 0 || st.ack != 0 then
          (st.(prevScl := 1, ack := 0, rdata := st.rdata + Shl(sda, st.dataCnt), dataCnt := st.dataCnt + 1), None)
        else
          (st.(prevScl := 1, ack := 1), None)
      else
        (st, None)
    else if st.started then
      (st.(prevScl := 0), None)
    else
      (st, None)
  }

  /** What one edge does to the monitor. */
  lemma StepSpec(st: MonitorState, s: Sample)
    // a word is emitted exactly on the first rising edge after 32 bits
    ensures Step(st, s).1.Some? <==> st.started && s.scl == High && st.prevScl == 0 && st.dataCnt == 32
    ensures Step(st, s).1.Some? ==> Step(st, s).1.value == st.rdata && !Step(st, s).0.started
    // once started, only an SCL-high sample following an SCL-low one is acted on
    ensures st.started && !(s.scl == High && st.prevScl == 0) ==>
              Step(st, s) == (st.(prevScl := if s.scl == High then st.prevScl else 0), None)
    // a rising edge is an ACK slot exactly at a byte boundary with ack clear
    ensures st.started && s.scl == High && st.prevScl == 0 && st.dataCnt != 32 ==>
              (Step(st, s).0.dataCnt == st.dataCnt <==> st.dataCnt % 8 == 0 && st.ack == 0)
    // a bit is accumulated at the position the counter names
    ensures st.started && s.scl == High && st.prevScl == 0 && st.dataCnt != 32 && (st.dataCnt % 8 != 0 || st.ack != 0) ==>
              Step(st, s).0.rdata == st.rdata + Shl(SdaBit(s.sda), st.dataCnt)
    // a start condition is high SDA, then low SDA, both under a high SCL
    ensures !st.started ==>
              (Step(st, s).0.started <==> s.scl == High && st.preStarted && s.sda != High)
  {
  }

  /** Every edge keeps the monitor's invariant. */
  lemma StepKeepsInv(st: MonitorState, s: Sample)
    requires Inv(st)
    ensures Inv(Step(st, s).0)
  {
    ShlBit(SdaBit(s.sda), st.dataCnt);
  }

  function Emitted(o: Option<int>): seq<int>
  {
    if o.Some? then [o.value] else []
  }

  /** The monitor run over `samples` from `st`: the final state and the
      words emitted, in order. */
  function Run(st: MonitorState, samples: seq<Sample>): (MonitorState, seq<int>)
    decreases |samples|
  {
    if samples == [] then (st, [])
    else
      var prev := Run(st, samples[..|samples| - 1]);
      var next := Step(prev.0, samples[|samples| - 1]);
      (next.0, prev.1 + Emitted(next.1))
  }

  /** The monitor's invariant holds throughout a run, and every word it
      emits fits in 32 bits. */
  lemma {:induction false} RunSpec(st: MonitorState, samples: seq<Sample>)
    requires Inv(st)
    ensures Inv(Run(st, samples).0)
    ensures forall w :: w in Run(st, samples).1 ==> 0 <= w < Pow2(32)
    decreases |samples|
  {
    if samples != [] {
      var prev := Run(st, samples[..|samples| - 1]);
      RunSpec(st, samples[..|samples| - 1]);
      StepSpec(prev.0, samples[|samples| - 1]);
      StepKeepsInv(prev.0, samples[|samples| - 1]);
    }
  }

  /** The transactions `_recv` receives for emitted words. */
  function Received(words: seq<int>): (r: seq<Transaction>)
    ensures |r| == |words|
    ensures forall k :: 0 <= k < |words| ==> r[k] == Transaction(words[k], false, 1)
  {
    if words == [] then [] else Received(words[..|words| - 1]) + [Transaction(words[|words| - 1], false, 1)]
  }

  /** Running over one more edge is one more step. */
  lemma RunSnoc(st: MonitorState, samples: seq<Sample>, k: nat)
    requires k < |samples|
    ensures Run(st, samples[..k + 1])
         == (Step(Run(st, samples[..k]).0, samples[k]).0,
             Run(st, samples[..k]).1 + Emitted(Step(Run(st, samples[..k]).0, samples[k]).1))
  {
    assert samples[..k + 1][..k] == samples[..k];
  }

  lemma ReceivedSnoc(words: seq<int>, o: Option<int>)
    ensures Received(words + Emitted(o)) == Received(words) + (if o.Some? then [Transaction(o.value, false, 1)] else [])
  {
    if o.Some? {
      assert (words + [o.value])[..|words|] == words;
    } else {
      assert words + [] == words;
    }
  }

  /** The body of `_monitor_recv`'s loop for one edge, on the locals in
      `st`: returns the new locals and the word handed to `_recv`, if any. */
  method OnEdge(st: MonitorState, s: Sample) returns (next: MonitorState, word: Option<int>)
    ensures (next, word) == Step(st, s)
  {
    var started, preStarted, prevScl := st.started, st.preStarted, st.prevScl;
    var rdata, dataCnt, ack := st.rdata, st.dataCnt, st.ack;
    word := None;
    var sda := if s.sda == High then 1 else 0;
    if s.scl == High {
      if !started && !preStarted && sda == 1 {
        preStarted := true;
      } else if !started && preStarted && sda == 0 {
        started, preStarted := true, false;
        rdata, dataCnt, ack := 0, 0, 1;
      } else if started && prevScl == 0 {
        prevScl := 1;
        if dataCnt == 32 {
          started := false;
          word := Some(rdata);
        } else if dataCnt % 8 != 0 || ack != 0 {
          ack := 0;
          rdata := rdata + Shl(sda, dataCnt);
          dataCnt := dataCnt + 1;
        } else {
          ack := 1;
        }
      }
    } else if started {
      prevScl := 0;
    }
    next := MonitorState(started, preStarted, prevScl, rdata, dataCnt, ack);
  }

  /** The edges the monitor lives through: comparing an SCL value that is
      not a logic level with 1 raises, outside the `try` that guards the
      SDA read, and ends the monitor's coroutine at that edge. */
  function Alive(samples: seq<Sample>): (r: seq<Sample>)
    ensures |r| <= |samples|
    ensures forall k :: 0 <= k < |r| ==> r[k] == samples[k] && samples[k].scl != Indeterminate
    ensures |r| < |samples| ==> samples[|r|].scl == Indeterminate
  {
    if samples == [] || samples[0].scl == Indeterminate then []
    else [samples[0]] + Alive(samples[1..])
  }

  /** `I2CMonitor._monitor_recv` over the edges of `samples` from simulation
      start; returns the transactions it passed to `_recv` before it
      stopped. */
  method Monitor(samples: seq<Sample>) returns (received: seq<Transaction>)
    ensures received == Received(Run(Idle, Alive(samples)).1)
    ensures forall k :: 0 <= k < |received| ==> !received[k].write && 0 <= received[k].data < Pow2(32)
  {
    var st := Idle;
    received := [];
    var k := 0;
    while k < |samples| && samples[k].scl != Indeterminate
      invariant 0 <= k <= |samples|
      invariant LiveUpTo(samples, k)
      invariant st == Run(Idle, samples[..k]).0
      invariant received == Received(Run(Idle, samples[..k]).1)
    {
      ghost var before := st;
      var word;
      st, word := OnEdge(st, samples[k]);
      MonitorEdge(samples, k, before, received, st, word);
      LiveStep(samples, k);
      if word.Some? {
        received := received + [Transaction(word.value, false, 1)];
      }
      k := k + 1;
    }
    MonitorStops(samples, k, received);
  }

  /** Where the monitor's loop stops, it has received the words of the run
      over the edges it lived through. */
  lemma MonitorStops(samples: seq<Sample>, k: nat, received: seq<Transaction>)
    requires k <= |samples| && LiveUpTo(samples, k) && (k == |samples| || samples[k].scl == Indeterminate)
    requires received == Received(Run(Idle, samples[..k]).1)
    ensures received == Received(Run(Idle, Alive(samples)).1)
    ensures forall j :: 0 <= j < |received| ==> !received[j].write && 0 <= received[j].data < Pow2(32)
  {
    AliveUpTo(samples, k);
    ReceivedBounded(samples[..k]);
  }

  /** No SCL value before edge `k` stops the monitor. */
  predicate LiveUpTo(samples: seq<Sample>, k: nat)
  {
    forall j :: 0 <= j < k && j < |samples| ==> samples[j].scl != Indeterminate
  }

  /** One iteration of the monitor's loop advances its run by one edge. */
  lemma MonitorEdge(samples: seq<Sample>, k: nat, st: MonitorState, received: seq<Transaction>,
                    next: MonitorState, word: Option<int>)
    requires k < |samples|
    requires st == Run(Idle, samples[..k]).0 && received == Received(Run(Idle, samples[..k]).1)
    requires (next, word) == Step(st, samples[k])
    ensures next == Run(Idle, samples[..k + 1]).0
    ensures (if word.Some? then received + [Transaction(word.value, false, 1)] else received)
         == Received(Run(Idle, samples[..k + 1]).1)
  {
    RunSnoc(Idle, samples, k);
    ReceivedSnoc(Run(Idle, samples[..k]).1, word);
  }

  /** A resolved SCL at edge `k` lets the monitor live through it. */
  lemma LiveStep(samples: seq<Sample>, k: nat)
    requires LiveUpTo(samples, k) && k < |samples| && samples[k].scl != Indeterminate
    ensures LiveUpTo(samples, k + 1)
  {
  }

  /** The monitor lives through exactly the edges before the first SCL
      value that is not a logic level. */
  lemma AliveUpTo(samples: seq<Sample>, k: nat)
    requires k <= |samples|
    requires LiveUpTo(samples, k)
    requires k == |samples| || samples[k].scl == Indeterminate
    ensures Alive(samples) == samples[..k]
  {
  }

  /** Every transaction the monitor receives is a read of a 32-bit word. */
  lemma ReceivedBounded(samples: seq<Sample>)
    ensures forall k :: 0 <= k < |Received(Run(Idle, samples).1)| ==>
              !Received(Run(Idle, samples).1)[k].write && 0 <= Received(Run(Idle, samples).1)[k].data < Pow2(32)
  {
    var words := Run(Idle, samples).1;
    RunSpec(Idle, samples);
    forall k | 0 <= k < |Received(words)|
      ensures !Received(words)[k].write && 0 <= Received(words)[k].data < Pow2(32)
    {
      assert words[k] in words;
    }
  }
}
