/** The APB agent of the testbench (tb/apb.py): the transfer request, the
    driver that performs a transfer as the bus master, and the monitor that
    reconstructs transfers from the bus.

    Timing: one value per rising clock edge, as in the serial agent. The
    master's signals at edge k are the ones the driver has written after
    that edge; the slave's `PREADY`/`PRDATA` at edge k are supplied by the
    environment (the controller under test is not part of this model). */
module Apb {
  import opened Signals

  /** `APBTransaction`: a request (or an observation) of one transfer. */
  datatype Transaction = Transaction(addr: int, data: BusValue, write: bool, delay: int)

  /** A new request: `delay` defaults to 1. */
  function NewTransaction(addr: int, data: BusValue, write: bool): (t: Transaction)
    ensures t.addr == addr && t.data == data && t.write == write
    ensures t.delay == 1
  {
    Transaction(addr, data, write, 1)
  }

  /** `randomize()`: `delay` is the only random variable, drawn from
      `range(0, 10)`; `pick` is the value drawn. */
  function Randomize(t: Transaction, pick: int): (r: Transaction)
    requires 0 <= pick < 10
    ensures 0 <= r.delay <= 9 && RangeLen(r.delay) == r.delay
    ensures r.addr == t.addr && r.data == t.data && r.write == t.write
  {
    t.(delay := pick)
  }

  /** The signals the master drives. */
  datatype Master = Master(paddr: int, pwdata: BusValue, psel: int, pwrite: int, penable: int)

  /** The signals the slave drives; `PREADY` may be unresolved. */
  datatype Slave = Slave(pready: Logic, prdata: BusValue)

  /** The driver's `if PREADY.value:` holds only for a 1; a 0 and an
      unresolved value both read as not ready. */
  predicate Ready(s: Slave)
  {
    s.pready == High
  }

  /** All master signals at 0: their value at start and after a transfer. */
  const Released := Master(0, Resolved(0), 0, 0, 0)

  /** The first edge of a transfer: address, write data and select are
      driven; `PENABLE` keeps the value it had. `PWRITE` is driven to 1 for
      a write only: the conditional binds looser than the `<=` assignment,
      so for a read the statement evaluates `0` and `PWRITE` keeps the value
      it had. */
  function Setup(bus: Master, t: Transaction): Master
  {
    Master(t.addr, t.data, 1, if t.write then 1 else bus.pwrite, bus.penable)
  }

  /** From the second edge on, `PENABLE` is asserted as well. */
  function Access(bus: Master, t: Transaction): Master
  {
    Setup(bus, t).(penable := 1)
  }

  /** The first edge at or after `from` at which the slave is ready. */
  function FirstReady(env: seq<Slave>, from: nat): (r: Option<nat>)
    ensures r.Some? ==> from <= r.value < |env| && Ready(env[r.value])
    ensures r.Some? ==> forall j :: from <= j < r.value ==> !Ready(env[j])
    ensures r.None? ==> forall j :: from <= j < |env| ==> !Ready(env[j])
    decreases |env| - from
  {
    if from >= |env| then None
    else if Ready(env[from]) then Some(from)
    else FirstReady(env, from + 1)
  }

  /** The master's signals over the edges of `send`, edge 0 being the one it
      first waits for. The slave is polled from edge 1 on; on the edge it is
      first ready the transfer completes, one edge later every signal is
      released, and `delay` more edges follow. Within the edges `env`
      covers, a slave that is never ready keeps the driver polling. */
  function SendWave(bus: Master, t: Transaction, env: seq<Slave>): seq<Master>
  {
    if |env| == 0 then []
    else match FirstReady(env, 1)
      case Some(k) => [Setup(bus, t)] + Hold(k, Access(bus, t)) + Hold(1 + RangeLen(t.delay), Released)
      case None => [Setup(bus, t)] + Hold(|env| - 1, Access(bus, t))
  }

  /** `APBSlave.send`: `env[k]` is what the slave drives at edge k of the
      call. Returns `PRDATA` from the edge the handshake completes (None
      while the slave has not been ready within `env`) and the master's
      signals at every edge of the call. */
  method Send(bus: Master, t: Transaction, env: seq<Slave>) returns (rval: Option<BusValue>, wave: seq<Master>)
    ensures wave == SendWave(bus, t, env)
    ensures rval.Some? <==> |env| > 0 && FirstReady(env, 1).Some?
    ensures rval.Some? ==> rval.value == env[FirstReady(env, 1).value].prdata
  {
    rval := None;
    wave := [];
    if |env| == 0 {
      return;
    }
    var b := bus;
    b := b.(paddr := t.addr, pwdata := t.data, psel := 1);
    if t.write {
      b := b.(pwrite := 1);
    }
    wave := wave + [b];
    b := b.(penable := 1);
    var k := 1;
    while k < |env| && env[k].pready != High
      invariant 1 <= k <= |env|
      invariant b == Access(bus, t)
      invariant wave == [Setup(bus, t)] + Hold(k - 1, b)
      invariant FirstReady(env, k) == FirstReady(env, 1)
    {
      wave := wave + [b];
      k := k + 1;
    }
    if k == |env| {
      return;
    }
    wave := wave + [b];
    rval := Some(env[k].prdata);
    b := Released;
    wave := wave + [b];
    for i := 0 to RangeLen(t.delay)
      invariant wave == [Setup(bus, t)] + Hold(k, Access(bus, t)) + Hold(1 + i, Released)
    {
      wave := wave + [b];
    }
  }

  // ---------------------------------------------------------------------
  // Monitor

  /** Master and slave signals at one edge, as the monitor reads them. */
  datatype Edge = Edge(master: Master, slave: Slave)

  /** A transfer completes at an edge where `PENABLE` is 1 and `PREADY` is
      high. */
  predicate Handshake(e: Edge)
  {
    e.master.penable == 1 && e.slave.pready == High
  }

  /** One iteration of `_monitor_recv`: the new idle-edge count and the
      transaction passed to `_recv`, if any. */
  function Step(delay: nat, e: Edge): (nat, Option<Transaction>)
  {
    if Handshake(e) then
      var data := if e.master.pwrite != 0 then e.master.pwdata else e.slave.prdata;
      (0, Some(Transaction(e.master.paddr, data, e.master.pwrite == 1, delay)))
    else
      (delay + 1, None)
  }

  function Emitted(o: Option<Transaction>): seq<Transaction>
  {
    if o.Some? then [o.value] else []
  }

  /** The monitor over `edges` from idle-edge count `delay`: the final
      count and the transactions observed, in order. */
  function Run(delay: nat, edges: seq<Edge>): (nat, seq<Transaction>)
    decreases |edges|
  {
    if edges == [] then (delay, [])
    else
      var prev := Run(delay, edges[..|edges| - 1]);
      var next := Step(prev.0, edges[|edges| - 1]);
      (next.0, prev.1 + Emitted(next.1))
  }

  /** Running over one more edge is one more step. */
  lemma RunSnoc(delay: nat, edges: seq<Edge>, k: nat)
    requires k < |edges|
    ensures Run(delay, edges[..k + 1])
         == (Step(Run(delay, edges[..k]).0, edges[k]).0,
             Run(delay, edges[..k]).1 + Emitted(Step(Run(delay, edges[..k]).0, edges[k]).1))
  {
    assert edges[..k + 1][..k] == edges[..k];
  }

  /** The edges the monitor lives through: comparing a `PREADY` that does
      not resolve to an integer with 1 raises, on every edge since `&` does
      not short-circuit, and nothing catches it, so the monitor's coroutine
      ends at that edge. */
  function Alive(edges: seq<Edge>): (r: seq<Edge>)
    ensures |r| <= |edges|
    ensures forall k :: 0 <= k < |r| ==> r[k] == edges[k] && edges[k].slave.pready != Indeterminate
    ensures |r| < |edges| ==> edges[|r|].slave.pready == Indeterminate
  {
    if edges == [] || edges[0].slave.pready == Indeterminate then []
    else [edges[0]] + Alive(edges[1..])
  }

  /** `APBSlave._monitor_recv` over `edges` from monitor start; returns the
      transactions it passed to `_recv` before it stopped. */
  method Monitor(edges: seq<Edge>) returns (observed: seq<Transaction>)
    ensures observed == Run(0, Alive(edges)).1
    ensures |observed| == |set k | 0 <= k < |Alive(edges)| && Handshake(Alive(edges)[k])|
  {
    var delay := 0;
    observed := [];
    var k := 0;
    while k < |edges| && edges[k].slave.pready != Indeterminate
      invariant 0 <= k <= |edges|
      invariant LiveUpTo(edges, k)
      invariant (delay, observed) == Run(0, edges[..k])
    {
      RunSnoc(0, edges, k);
      var e := edges[k];
      ghost var next := Step(delay, e);
      ghost var before := observed;
      if e.master.penable == 1 && e.slave.pready == High {
        var data := if e.master.pwrite != 0 then e.master.pwdata else e.slave.prdata;
        observed := observed + [Transaction(e.master.paddr, data, e.master.pwrite == 1, delay)];
        delay := 0;
      } else {
        delay := delay + 1;
      }
      assert delay == next.0 && observed == before + Emitted(next.1);
      LiveStep(edges, k);
      k := k + 1;
    }
    MonitorStops(edges, k, delay, observed);
  }

  /** Where the monitor's loop stops, it has observed the run over the
      edges it lived through. */
  lemma MonitorStops(edges: seq<Edge>, k: nat, delay: nat, observed: seq<Transaction>)
    requires k <= |edges| && LiveUpTo(edges, k) && (k == |edges| || edges[k].slave.pready == Indeterminate)
    requires (delay, observed) == Run(0, edges[..k])
    ensures observed == Run(0, Alive(edges)).1
    ensures |observed| == |set j | 0 <= j < |Alive(edges)| && Handshake(Alive(edges)[j])|
  {
    AliveUpTo(edges, k);
    ObservationCount(0, edges[..k]);
  }

  /** No `PREADY` value before edge `k` stops the monitor. */
  predicate LiveUpTo(edges: seq<Edge>, k: nat)
  {
    forall j :: 0 <= j < k && j < |edges| ==> edges[j].slave.pready != Indeterminate
  }

  /** A resolved `PREADY` at edge `k` lets the monitor live through it. */
  lemma LiveStep(edges: seq<Edge>, k: nat)
    requires LiveUpTo(edges, k) && k < |edges| && edges[k].slave.pready != Indeterminate
    ensures LiveUpTo(edges, k + 1)
  {
  }

  /** The monitor lives through exactly the edges before the first
      unresolved `PREADY`. */
  lemma AliveUpTo(edges: seq<Edge>, k: nat)
    requires k <= |edges|
    requires LiveUpTo(edges, k)
    requires k == |edges| || edges[k].slave.pready == Indeterminate
    ensures Alive(edges) == edges[..k]
  {
  }

  /** A slave that never leaves `PREADY` unresolved keeps the monitor alive
      over every edge, so `Monitor` reports the whole run. */
  lemma AliveWhole(edges: seq<Edge>)
    requires forall k :: 0 <= k < |edges| ==> edges[k].slave.pready != Indeterminate
    ensures Alive(edges) == edges
  {
  }

  /** Observations happen exactly at handshakes: one per handshake edge. */
  lemma {:induction false} ObservationCount(delay: nat, edges: seq<Edge>)
    ensures |Run(delay, edges).1| == |set k | 0 <= k < |edges| && Handshake(edges[k])|
    decreases |edges|
  {
    if edges != [] {
      var n := |edges| - 1;
      var init := edges[..n];
      ObservationCount(delay, init);
      var before := set k | 0 <= k < n && Handshake(init[k]);
      var after := set k | 0 <= k < |edges| && Handshake(edges[k]);
      if Handshake(edges[n]) {
        assert after == before + {n};
      } else {
        assert after == before;
      }
    }
  }

  /** Running over two stretches of edges is running over the first and then
      over the second. */
  lemma {:induction false} RunAppend(delay: nat, a: seq<Edge>, b: seq<Edge>)
    ensures Run(delay, a + b) == (Run(Run(delay, a).0, b).0, Run(delay, a).1 + Run(Run(delay, a).0, b).1)
    decreases |b|
  {
    if b == [] {
      assert a + b == a;
      assert Run(Run(delay, a).0, b) == (Run(delay, a).0, []);
      assert Run(delay, a).1 + [] == Run(delay, a).1;
    } else {
      var b', last := b[..|b| - 1], b[|b| - 1];
      var mid := Run(delay, a).0;
      RunAppend(delay, a, b');
      assert (a + b)[..|a + b| - 1] == a + b';
      assert (a + b)[|a + b| - 1] == last;
      var before := Run(mid, b');
      var next := Step(before.0, last);
      assert Run(delay, a + b) == (next.0, Run(delay, a + b').1 + Emitted(next.1));
      assert Run(mid, b) == (next.0, before.1 + Emitted(next.1));
      assert Run(delay, a).1 + before.1 + Emitted(next.1) == Run(delay, a).1 + (before.1 + Emitted(next.1));
    }
  }

  /** Edges without a handshake only count: the emitted delay is the number
      of edges since the previous observation. */
  lemma {:induction false} RunQuiet(delay: nat, edges: seq<Edge>)
    requires forall k :: 0 <= k < |edges| ==> !Handshake(edges[k])
    ensures Run(delay, edges) == (delay + |edges|, [])
    decreases |edges|
  {
    if edges != [] {
      var init := edges[..|edges| - 1];
      assert forall k :: 0 <= k < |init| ==> init[k] == edges[k];
      RunQuiet(delay, init);
      var last := edges[|edges| - 1];
      assert !Handshake(last);
      assert Step(delay + |init|, last) == (delay + |edges|, None);
      assert Run(delay, edges) == (delay + |edges|, Run(delay, init).1 + Emitted(None));
      var none: seq<Transaction> := [];
      assert Run(delay, init).1 + Emitted(None) == none;
    } else {
      assert Run(delay, edges) == (delay, []);
    }
  }

  /** A handshake edge reports the count so far and resets it. */
  lemma RunHandshake(delay: nat, e: Edge)
    requires Handshake(e)
    ensures Run(delay, [e]).0 == 0
    ensures Run(delay, [e]).1 == [Transaction(e.master.paddr,
                                   if e.master.pwrite != 0 then e.master.pwdata else e.slave.prdata,
                                   e.master.pwrite == 1, delay)]
  {
    assert [e][..0] == [];
  }

  /** The edges the monitor sees while the driver runs against `env`. */
  function Zip(wave: seq<Master>, env: seq<Slave>): (r: seq<Edge>)
    requires |env| >= |wave|
    ensures |r| == |wave|
    ensures forall k :: 0 <= k < |wave| ==> r[k] == Edge(wave[k], env[k])
  {
    seq(|wave|, k requires 0 <= k < |wave| => Edge(wave[k], env[k]))
  }

  lemma ZipAppend(a: seq<Master>, b: seq<Master>, env: seq<Slave>, m: nat)
    requires |env| >= |a| + |b| && m == |a|
    ensures Zip(a + b, env) == Zip(a, env) + Zip(b, env[m..])
  {
    assert |Zip(a + b, env)| == |Zip(a, env) + Zip(b, env[|a|..])|;
    forall k | 0 <= k < |a| + |b|
      ensures Zip(a + b, env)[k] == (Zip(a, env) + Zip(b, env[|a|..]))[k]
    {
      if k >= |a| {
        assert env[|a|..][k - |a|] == env[k];
      }
    }
  }

  /** Chaining two runs whose outcomes are known. */
  lemma RunChain(delay: nat, a: seq<Edge>, b: seq<Edge>, ab: seq<Edge>,
                 mid: nat, last: nat, out1: seq<Transaction>, out2: seq<Transaction>, out: seq<Transaction>)
    requires ab == a + b && Run(delay, a) == (mid, out1) && Run(mid, b) == (last, out2) && out == out1 + out2
    ensures Run(delay, ab) == (last, out)
  {
    RunAppend(delay, a, b);
  }

  /** The edges of `send` up to, not including, the handshake edge k: the
      setup edge and k - 1 polling edges. */
  function Polling(bus: Master, t: Transaction, k: nat): (r: seq<Master>)
    requires k >= 1
    ensures |r| == k
  {
    [Setup(bus, t)] + Hold(k - 1, Access(bus, t))
  }

  /** While the driver polls, no transfer completes: the setup edge has
      `PENABLE` low and the slave is not ready before edge k. */
  lemma PollingQuiet(bus: Master, t: Transaction, env: seq<Slave>, delay: nat, k: nat)
    requires bus.penable == 0 && FirstReady(env, 1) == Some(k)
    ensures Run(delay, Zip(Polling(bus, t, k), env)) == (delay + k, [])
  {
    var edges := Zip(Polling(bus, t, k), env);
    forall j | 0 <= j < |edges|
      ensures !Handshake(edges[j])
    {
      if j > 0 {
        HoldIndex(k - 1, Access(bus, t), j - 1);
      }
    }
    RunQuiet(delay, edges);
  }

  /** After the handshake every signal is released, so nothing completes. */
  lemma ReleaseQuiet(n: nat, env: seq<Slave>)
    requires |env| >= n
    ensures Run(0, Zip(Hold(n, Released), env)) == (n, [])
  {
    var edges := Zip(Hold(n, Released), env);
    forall j | 0 <= j < |edges|
      ensures !Handshake(edges[j])
    {
      HoldIndex(n, Released, j);
    }
    RunQuiet(0, edges);
  }

  /** What the monitor reports for a transfer whose handshake is at edge
      k, `delay` edges after the previous report. */
  function Observed(t: Transaction, env: seq<Slave>, delay: nat, k: nat): Transaction
    requires k < |env|
  {
    Transaction(t.addr, if t.write then t.data else env[k].prdata, t.write, delay + k)
  }

  /** The polling edges and then the handshake edge: one report. */
  lemma UpToHandshake(bus: Master, t: Transaction, env: seq<Slave>, delay: nat, k: nat)
    requires bus.penable == 0 && bus.pwrite == 0 && FirstReady(env, 1) == Some(k)
    ensures Run(delay, Zip(Polling(bus, t, k) + [Access(bus, t)], env)) == (0, [Observed(t, env, delay, k)])
  {
    var access := Access(bus, t);
    var polling := Polling(bus, t, k);
    ZipAppend(polling, [access], env, k);
    var hs := Zip([access], env[k..]);
    assert hs == [Edge(access, env[k])];
    PollingQuiet(bus, t, env, delay, k);
    RunHandshake(delay + k, Edge(access, env[k]));
    assert [] + [Observed(t, env, delay, k)] == [Observed(t, env, delay, k)];
    RunChain(delay, Zip(polling, env), hs, Zip(polling + [access], env), delay + k, 0, [], [Observed(t, env, delay, k)], [Observed(t, env, delay, k)]);
  }

  /** The edges of a transfer that completes at edge k, cut after the
      handshake. */
  lemma ZipWave(bus: Master, t: Transaction, env: seq<Slave>, k: nat)
    requires FirstReady(env, 1) == Some(k) && |env| >= |SendWave(bus, t, env)|
    ensures |env| >= k + 1 + (1 + RangeLen(t.delay))
    ensures Zip(SendWave(bus, t, env), env)
         == Zip(Polling(bus, t, k) + [Access(bus, t)], env) + Zip(Hold(1 + RangeLen(t.delay), Released), env[k + 1..])
  {
    var head := Polling(bus, t, k) + [Access(bus, t)];
    var n := 1 + RangeLen(t.delay);
    assert Hold(k, Access(bus, t)) == Hold(k - 1, Access(bus, t)) + [Access(bus, t)];
    assert SendWave(bus, t, env) == head + Hold(n, Released);
    ZipAppend(head, Hold(n, Released), env, k + 1);
  }

  /** A read started while `PWRITE` is still 1 leaves it at 1, so the
      monitor reports the handshake as a write carrying `PWDATA`: the
      direction reported for a read depends on the bus being released
      beforehand. */
  lemma ReadOnStalePwrite(bus: Master, t: Transaction, s: Slave, delay: nat)
    requires !t.write && bus.pwrite == 1 && Ready(s)
    ensures Step(delay, Edge(Access(bus, t), s)) == (0, Some(Transaction(t.addr, t.data, true, delay)))
  {
  }

  /** One transfer seen by the monitor: with `PENABLE` and `PWRITE` low
      beforehand (as at start and after every transfer, `SendReleases`) and
      the slave first ready at edge
      k, the monitor reports exactly one transaction, at edge k. It carries
      the request's address and direction, the written data for a write and
      the data `send` returns for a read, and a delay of the edges since
      the previous observation; afterwards the count restarts from the
      release edge. */
  lemma SendObserved(bus: Master, t: Transaction, env: seq<Slave>, delay: nat, k: nat)
    requires bus.penable == 0 && bus.pwrite == 0 && FirstReady(env, 1) == Some(k)
    requires |env| >= |SendWave(bus, t, env)|
    ensures Run(delay, Zip(SendWave(bus, t, env), env)) == (1 + RangeLen(t.delay), [Observed(t, env, delay, k)])
  {
    var head := Polling(bus, t, k) + [Access(bus, t)];
    var n := 1 + RangeLen(t.delay);
    var obs := Observed(t, env, delay, k);
    ZipWave(bus, t, env, k);
    var first := Zip(head, env);
    var rest := Zip(Hold(n, Released), env[k + 1..]);
    UpToHandshake(bus, t, env, delay, k);
    ReleaseQuiet(n, env[k + 1..]);
    assert [obs] + [] == [obs];
    RunChain(delay, first, rest, Zip(SendWave(bus, t, env), env), 0, n, [obs], [], [obs]);
  }

  /** A transfer leaves every master signal released, so the next transfer
      again starts with `PENABLE` low. */
  lemma SendReleases(bus: Master, t: Transaction, env: seq<Slave>)
    requires |env| > 0 && FirstReady(env, 1).Some?
    ensures |SendWave(bus, t, env)| == 2 + FirstReady(env, 1).value + RangeLen(t.delay)
    ensures SendWave(bus, t, env)[|SendWave(bus, t, env)| - 1] == Released
  {
    var k := FirstReady(env, 1).value;
    HoldIndex(1 + RangeLen(t.delay), Released, RangeLen(t.delay));
  }
}
