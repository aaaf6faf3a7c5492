/** The coverage-closure test (tb/test_i2c.py): how an I2C operation is
    drawn, which operations the constraint still admits, the mode word that
    selects direction and clock divider, the two scoreboards that judge an
    operation, and the bookkeeping of the main loop (checkpoints, covered
    operations, completed operations). Random choices are parameters, and so
    is everything the controller under test does (INT_TX, the words seen on
    the I2C lines, the words read back over APB, its register state). */
module Closure {
  import opened Signals
  import I2c
  import I2cRoundTrip
  import Coverage
  import Checkpoint

  // ---------------------------------------------------------------------
  // I2C operations and their randomization

  type Range = (int, int)

  /** The six ranges `repeat_range` and `divider_range` are drawn from. */
  const Ranges: seq<Range> := [(1, 3), (4, 7), (8, 11), (12, 15), (16, 23), (24, 31)]

  /** The directions `direction` is drawn from. */
  const Directions: seq<string> := ["write", "read"]

  /** An I2C operation: a direction, a number of words, a clock divider and
      the ranges the last two were drawn from. */
  datatype Operation = Operation(direction: string, repeat: int, divider: int, repeatRange: Range, dividerRange: Range)

  /** What the constraint and `already_covered` remember of an operation. */
  datatype Key = Key(direction: string, repeatRange: Range, dividerRange: Range)

  function KeyOf(op: Operation): Key
  {
    Key(op.direction, op.repeatRange, op.dividerRange)
  }

  /** A key the first randomization stage can produce. */
  predicate ValidKey(k: Key)
  {
    k.direction in Directions && k.repeatRange in Ranges && k.dividerRange in Ranges
  }

  predicate InRange(v: int, r: Range)
  {
    r.0 <= v <= r.1
  }

  /** The state every drawn operation is in: a valid key and values taken
      from its ranges. */
  predicate Drawn(op: Operation)
  {
    ValidKey(KeyOf(op)) && InRange(op.repeat, op.repeatRange) && InRange(op.divider, op.dividerRange)
  }

  /** A fresh `I2C_Operation()`: a write of one word, divider 1, both
      ranges (1,3). */
  function NewOperation(): (op: Operation)
    ensures Drawn(op)
    ensures op.direction == "write" && op.repeat == 1 && op.divider == 1
  {
    Operation("write", 1, 1, (1, 3), (1, 3))
  }

  /** The first stage: direction and ranges take the chosen key. */
  function Randomize(op: Operation, k: Key): (r: Operation)
    requires ValidKey(k)
    ensures KeyOf(r) == k
    ensures r.repeat == op.repeat && r.divider == op.divider
  {
    op.(direction := k.direction, repeatRange := k.repeatRange, dividerRange := k.dividerRange)
  }

  /** The second stage, `post_randomize`: repeat and divider take values
      drawn inclusively from the ranges of the first stage. */
  function PostRandomize(op: Operation, repeat: int, divider: int): (r: Operation)
    requires InRange(repeat, op.repeatRange) && InRange(divider, op.dividerRange)
    ensures KeyOf(r) == KeyOf(op)
    ensures r.repeat == repeat && r.divider == divider
  {
    op.(repeat := repeat, divider := divider)
  }

  /** Both stages together always leave a drawn operation. */
  lemma RandomizedIsDrawn(op: Operation, k: Key, repeat: int, divider: int)
    requires ValidKey(k) && InRange(repeat, k.repeatRange) && InRange(divider, k.dividerRange)
    ensures Drawn(PostRandomize(Randomize(op, k), repeat, divider))
  {
  }

  /** Every range lies within 1..31. */
  lemma RangesWithin(r: Range)
    requires r in Ranges
    ensures 1 <= r.0 <= r.1 <= 31
  {
  }

  /** A drawn operation is a read or a write of 1 to 31 words with a
      divider of 1 to 31, and so hits exactly one bin of each of
      `op.direction`, `op.repeat` and `op.divider`. */
  lemma DrawnHitsCoverage(op: Operation)
    requires Drawn(op)
    ensures 1 <= op.repeat <= 31 && 1 <= op.divider <= 31
    ensures op.direction == "read" || op.direction == "write"
    ensures Coverage.EqualHits(Coverage.DirectionBins, op.direction) == 1
    ensures Coverage.ClosedHits(Coverage.RepeatBins, op.repeat) == 1
    ensures Coverage.ClosedHits(Coverage.DividerBins, op.divider) == 1
  {
    RangesWithin(op.repeatRange);
    RangesWithin(op.dividerRange);
    Coverage.DirectionHits(op.direction);
    Coverage.RangePartition(Coverage.RepeatBins, op.repeat);
    Coverage.RangePartition(Coverage.DividerBins, op.divider);
  }

  /** The randomization ranges refine the coverage bins: each lies inside
      one `op.repeat` (and `op.divider`) bin. */
  lemma RangesRefineBins(r: Range)
    requires r in Ranges
    ensures exists i :: 0 <= i < |Coverage.RepeatBins| && Coverage.RepeatBins[i].lo <= r.0 && r.1 <= Coverage.RepeatBins[i].hi
  {
    if r.1 <= 3 {
      assert Coverage.RepeatBins[0].lo <= r.0 && r.1 <= Coverage.RepeatBins[0].hi;
    } else if r.1 <= 7 {
      assert Coverage.RepeatBins[1].lo <= r.0 && r.1 <= Coverage.RepeatBins[1].hi;
    } else if r.1 <= 15 {
      assert Coverage.RepeatBins[2].lo <= r.0 && r.1 <= Coverage.RepeatBins[2].hi;
    } else {
      assert Coverage.RepeatBins[3].lo <= r.0 && r.1 <= Coverage.RepeatBins[3].hi;
    }
  }

  // ---------------------------------------------------------------------
  // The "not already covered" constraint

  /** `op_constraint`: the combination has not been run yet. */
  predicate OpConstraint(covered: seq<Key>, direction: string, dividerRange: Range, repeatRange: Range)
  {
    Key(direction, repeatRange, dividerRange) !in covered
  }

  /** Every key the first stage can produce, 2 x 6 x 6 of them. */
  function AllKeys(): (r: seq<Key>)
    ensures |r| == 72
    ensures forall i :: 0 <= i < |r| ==> ValidKey(r[i])
  {
    seq(72, i requires 0 <= i < 72 => Key(Directions[i / 36], Ranges[(i / 6) % 6], Ranges[i % 6]))
  }

  /** Every valid key is among the 72. */
  lemma AllKeysComplete(k: Key)
    requires ValidKey(k)
    ensures k in AllKeys()
  {
    var d :| 0 <= d < 2 && Directions[d] == k.direction;
    var r :| 0 <= r < 6 && Ranges[r] == k.repeatRange;
    var v :| 0 <= v < 6 && Ranges[v] == k.dividerRange;
    var i := 36 * d + 6 * r + v;
    DivModUnique(i, 36, d, 6 * r + v);
    DivModUnique(i, 6, 6 * d + r, v);
    DivModUnique(6 * d + r, 6, d, r);
    assert AllKeys()[i] == k;
  }

  /** Once all 72 combinations are covered the constraint admits nothing,
      so `randomize_with` cannot succeed and the plain draw is taken. */
  lemma ExhaustedConstraint(covered: seq<Key>, k: Key)
    requires forall i :: 0 <= i < 72 ==> AllKeys()[i] in covered
    requires ValidKey(k)
    ensures !OpConstraint(covered, k.direction, k.dividerRange, k.repeatRange)
  {
    AllKeysComplete(k);
    var i :| 0 <= i < 72 && AllKeys()[i] == k;
  }

  /** Admission only shrinks: a key run once is rejected from then on. */
  lemma CoveredStaysRejected(covered: seq<Key>, more: seq<Key>, k: Key)
    requires !OpConstraint(covered, k.direction, k.dividerRange, k.repeatRange)
    ensures !OpConstraint(covered + more, k.direction, k.dividerRange, k.repeatRange)
  {
    var i :| 0 <= i < |covered| && covered[i] == k;
    assert (covered + more)[i] == k;
  }

  /** The key of the operation run next. In tree mode `randomize_with`
      either returns a key the constraint admits (`solved`) or raises, and
      then the plain draw `fallback` is used; otherwise the plain draw is
      used directly. */
  function ChosenKey(tree: bool, covered: seq<Key>, solved: Option<Key>, fallback: Key): (k: Key)
    requires ValidKey(fallback)
    requires solved.Some? ==> ValidKey(solved.value) && OpConstraint(covered, solved.value.direction, solved.value.dividerRange, solved.value.repeatRange)
    ensures ValidKey(k)
    ensures tree && solved.Some? ==> k !in covered
    ensures !tree ==> k == fallback
  {
    if tree && solved.Some? then solved.value else fallback
  }

  // ---------------------------------------------------------------------
  // The mode register

  /** The word written to the mode register (address 8): bit 0 selects a
      write, bit 1 a read, the divider sits from bit 2 up. The fields do
      not overlap, so the bitwise or is their sum. */
  function ModeWord(read: bool, divider: int): (w: int)
  {
    (if read then 2 else 1) + Shl(divider, 2)
  }

  /** The low two bits give the direction back and the word shifted right
      by two gives the divider, for every divider. */
  lemma ModeDecode(read: bool, divider: int)
    ensures ModeWord(read, divider) % 4 == if read then 2 else 1
    ensures ModeWord(read, divider) / 4 == divider
  {
    ShlIsMul(divider, 2);
    assert Pow2(2) == 4;
    DivModUnique(ModeWord(read, divider), 4, divider, if read then 2 else 1);
  }

  /** Different directions or dividers give different mode words. */
  lemma ModeWordInjective(r1: bool, d1: int, r2: bool, d2: int)
    requires ModeWord(r1, d1) == ModeWord(r2, d2)
    ensures r1 == r2 && d1 == d2
  {
    ModeDecode(r1, d1);
    ModeDecode(r2, d2);
  }

  // ---------------------------------------------------------------------
  // Write scoreboard

  /** Python's `xs[-n:]`: for n > 0 the last n elements (all of them when
      there are fewer), for n == 0 the whole list, for n < 0 all but the
      first -n. */
  function LastN<T>(xs: seq<T>, n: int): (r: seq<T>)
    ensures |r| <= |xs| && r == xs[|xs| - |r|..]
    ensures n == 0 ==> r == xs
    ensures n > 0 ==> |r| == if n <= |xs| then n else |xs|
    ensures n < 0 ==> |r| == if -n <= |xs| then |xs| + n else 0
  {
    var start := if n == 0 then 0 else if n > 0 then (if n <= |xs| then |xs| - n else 0) else (if -n <= |xs| then -n else |xs|);
    xs[start..]
  }

  /** The data words drawn for an operation as the transactions they
      become (`I2CTransaction(0, write=…)` then `randomize()`). */
  function Expected(draws: seq<int>, write: bool): (r: seq<I2c.Transaction>)
    requires forall i :: 0 <= i < |draws| ==> 0 <= draws[i] <= 0xFFFF_FFFF
    ensures |r| == |draws|
    ensures forall i :: 0 <= i < |r| ==> r[i].data == draws[i] && r[i].write == write
  {
    seq(|draws|, i requires 0 <= i < |draws| => I2c.PostRandomize(I2c.Transaction(0, write, 1), draws[i]))
  }

  /** The last `repeat` transactions seen on the I2C lines are at least
      `repeat` and equal the expected ones pairwise. */
  predicate WriteMatch(received: seq<I2c.Transaction>, expected: seq<I2c.Transaction>, repeat: int)
    requires repeat <= |expected|
  {
    var tail := LastN(received, repeat);
    |tail| >= repeat && forall i :: 0 <= i < repeat ==> I2c.Equal(tail[i], expected[i])
  }

  /** For an operation of at least one word: the received list ends with
      words equal, in order, to the expected ones. */
  lemma WriteMatchIsSuffix(received: seq<I2c.Transaction>, expected: seq<I2c.Transaction>)
    requires |expected| >= 1
    ensures WriteMatch(received, expected, |expected|) <==>
      |received| >= |expected| &&
      forall i :: 0 <= i < |expected| ==> received[|received| - |expected| + i].data == expected[i].data
  {
  }

  /** Comparing the received tail with the expected words, stopping at the
      first difference. */
  method WriteScoreboard(received: seq<I2c.Transaction>, expected: seq<I2c.Transaction>, repeat: int) returns (ok: bool)
    requires repeat <= |expected|
    ensures ok == WriteMatch(received, expected, repeat)
  {
    ok := true;
    var receivedXactions := LastN(received, repeat);
    if |receivedXactions| < repeat {
      ok := false;
    } else {
      var i := 0;
      while i < repeat
        invariant 0 <= i <= repeat || (repeat < 0 && i == 0)
        invariant ok && forall j :: 0 <= j < i ==> I2c.Equal(receivedXactions[j], expected[j])
      {
        if I2c.NotEqual(receivedXactions[i], expected[i]) {
          ok := false;
          break;
        }
        i := i + 1;
      }
    }
  }

  /** The number of edges the wait for an empty transmit FIFO may take. */
  const HangUpGuard: nat := 50000

  /** INT_TX stays low for the whole guard: the controller hung. */
  predicate TimedOut(intTx: nat -> bool)
  {
    forall k: nat :: k < HangUpGuard ==> !intTx(k)
  }

  /** Waiting for INT_TX, where `intTx(k)` is its value after k edges. */
  method WaitTransmitDone(intTx: nat -> bool) returns (edges: nat, timedOut: bool)
    ensures timedOut == TimedOut(intTx)
    ensures timedOut ==> edges == HangUpGuard
    ensures !timedOut ==> edges < HangUpGuard && intTx(edges) && forall k: nat :: k < edges ==> !intTx(k)
  {
    edges := 0;
    timedOut := false;
    while !intTx(edges)
      invariant edges < HangUpGuard
      invariant forall k: nat :: k < edges ==> !intTx(k)
      decreases HangUpGuard - edges
    {
      edges := edges + 1;
      if edges == HangUpGuard {
        timedOut := true;
        break;
      }
    }
  }

  /** The write segment's verdict as written: the guard's `ok = False` is
      overwritten before the comparison, so a hang-up never fails. */
  method WriteOperationAsWritten(intTx: nat -> bool, received: seq<I2c.Transaction>, expected: seq<I2c.Transaction>, repeat: int)
    returns (ok: bool)
    requires repeat <= |expected|
    ensures ok == WriteMatch(received, expected, repeat)
  {
    var edges, timedOut := WaitTransmitDone(intTx);
    if timedOut {
      ok := false;
    }
    ok := WriteScoreboard(received, expected, repeat);
  }

  /** The write segment's verdict: a hang-up fails the operation, otherwise
      the scoreboard decides. */
  method WriteOperation(intTx: nat -> bool, received: seq<I2c.Transaction>, expected: seq<I2c.Transaction>, repeat: int)
    returns (ok: bool)
    requires repeat <= |expected|
    ensures ok == (!TimedOut(intTx) && WriteMatch(received, expected, repeat))
  {
    var edges, timedOut := WaitTransmitDone(intTx);
    if timedOut {
      ok := false;
    } else {
      ok := WriteScoreboard(received, expected, repeat);
    }
  }

  /** Words equal to the expected ones arriving last pass the write
      scoreboard, whatever was received before them. */
  lemma ArrivedLastPasses(earlier: seq<I2c.Transaction>, got: seq<I2c.Transaction>, expected: seq<I2c.Transaction>)
    requires |got| == |expected| >= 1
    requires forall i :: 0 <= i < |got| ==> got[i].data == expected[i].data
    ensures WriteMatch(earlier + got, expected, |expected|)
  {
    var received := earlier + got;
    forall i | 0 <= i < |expected|
      ensures received[|received| - |expected| + i].data == expected[i].data
    {
      assert received[|received| - |expected| + i] == got[i];
    }
    WriteMatchIsSuffix(received, expected);
  }

  /** The transactions of in-range words are those words. */
  lemma ReceivedWords(draws: seq<int>)
    requires forall i :: 0 <= i < |draws| ==> 0 <= draws[i] <= 0xFFFF_FFFF
    ensures |I2c.Received(I2cRoundTrip.Low32(draws))| == |draws|
    ensures forall i :: 0 <= i < |draws| ==> I2c.Received(I2cRoundTrip.Low32(draws))[i].data == draws[i]
  {
    var low := I2cRoundTrip.Low32(draws);
    forall i | 0 <= i < |draws|
      ensures I2c.Received(low)[i].data == draws[i]
    {
      assert low[i] == draws[i] % WordModulus;
      DivModUnique(draws[i], WordModulus, 0, draws[i]);
    }
  }

  /** The monitor turns frames of 32-bit words back into those words. */
  lemma FramesReceived(st: I2c.MonitorState, draws: seq<int>, d: nat)
    requires !st.started && d >= 1
    requires forall i :: 0 <= i < |draws| ==> 0 <= draws[i] <= 0xFFFF_FFFF
    ensures var got := I2c.Received(I2c.Run(st, I2cRoundTrip.Frames(draws, d)).1);
      |got| == |draws| && forall i :: 0 <= i < |draws| ==> got[i].data == draws[i]
  {
    I2cRoundTrip.FramesRoundTrip(st, draws, d);
    ReceivedWords(draws);
  }

  /** When the controller puts the expected words on the I2C lines as
      frames of any divider, the monitor's transactions pass the write
      scoreboard, whatever was received before. */
  lemma FramesPassWriteScoreboard(earlier: seq<I2c.Transaction>, st: I2c.MonitorState, draws: seq<int>, d: nat)
    requires !st.started && d >= 1 && |draws| >= 1
    requires forall i :: 0 <= i < |draws| ==> 0 <= draws[i] <= 0xFFFF_FFFF
    ensures WriteMatch(earlier + I2c.Received(I2c.Run(st, I2cRoundTrip.Frames(draws, d)).1), Expected(draws, false), |draws|)
  {
    FramesReceived(st, draws, d);
    ArrivedLastPasses(earlier, I2c.Received(I2c.Run(st, I2cRoundTrip.Frames(draws, d)).1), Expected(draws, false));
  }

  // ---------------------------------------------------------------------
  // Read scoreboard

  /** The read segment's scoreboard as written: every iteration evaluates
      an undefined name before any APB read is issued, the bare `except`
      catches the error and clears `ok`. Returns the verdict and the number
      of reads issued. */
  method ReadScoreboardAsWritten(repeat: int) returns (ok: bool, issued: nat)
    ensures ok <==> repeat <= 0
    ensures issued == 0
  {
    ok := true;
    issued := 0;
    var i := 0;
    while i < repeat
      invariant i <= repeat || (repeat < 0 && i == 0)
      invariant ok <==> i == 0
    {
      ok := false;
      i := i + 1;
    }
  }

  /** Every word read back is a resolved value equal to the word sent. */
  predicate ReadMatch(readBack: seq<BusValue>, expected: seq<I2c.Transaction>, repeat: int)
    requires repeat <= |readBack| && repeat <= |expected|
  {
    forall i :: 0 <= i < repeat ==> readBack[i] == Resolved(expected[i].data)
  }

  /** The read scoreboard with the transaction that was built for it:
      `readBack[i]` is what the i-th APB read of the FIFO returns. A value with
      'x' or 'z' bits cannot be compared; the `except` branch clears `ok`.
      Every read is issued, a mismatch does not stop the loop. */
  method ReadScoreboard(readBack: seq<BusValue>, expected: seq<I2c.Transaction>, repeat: int) returns (ok: bool)
    requires repeat <= |readBack| && repeat <= |expected|
    ensures ok == ReadMatch(readBack, expected, repeat)
  {
    ok := true;
    var i := 0;
    while i < repeat
      invariant i <= repeat || (repeat < 0 && i == 0)
      invariant 0 <= i
      decreases repeat - i
      invariant ok == forall j :: 0 <= j < i ==> readBack[j] == Resolved(expected[j].data)
    {
      match readBack[i] {
        case Unresolved =>
          ok := false;
        case Resolved(rdata) =>
          if rdata != expected[i].data {
            ok := false;
          }
      }
      i := i + 1;
    }
  }

  // ---------------------------------------------------------------------
  // One operation

  /** What the controller does during one operation, and the random words
      drawn for it. `intTx(k)` is INT_TX after k edges of the wait,
      `received` the transactions the I2C monitor has caught so far,
      `readBack` what the FIFO reads over APB return. */
  datatype Segment = Segment(draws: seq<int>, intTx: nat -> bool, received: seq<I2c.Transaction>, readBack: seq<BusValue>)

  /** The segment supplies a word per repeat and a read result per word. */
  predicate SegmentFits(seg: Segment, repeat: int)
  {
    |seg.draws| == RangeLen(repeat) && RangeLen(repeat) <= |seg.readBack| &&
    forall i :: 0 <= i < |seg.draws| ==> 0 <= seg.draws[i] <= 0xFFFF_FFFF
  }

  /** The verdict the program records for an operation, as written: a
      read of at least one word always fails, and a write is judged by the
      comparison alone, whatever INT_TX did. */
  predicate Verdict(op: Operation, seg: Segment)
    requires SegmentFits(seg, op.repeat)
  {
    if op.direction == "read" then op.repeat <= 0
    else WriteMatch(seg.received, Expected(seg.draws, false), op.repeat)
  }

  /** The verdict the two segments evidently intend: the read scoreboard
      for reads; for writes, a hang-up fails and otherwise the comparison
      decides. */
  predicate IntendedVerdict(op: Operation, seg: Segment)
    requires SegmentFits(seg, op.repeat)
  {
    if op.direction == "read" then ReadMatch(seg.readBack, Expected(seg.draws, true), op.repeat)
    else !TimedOut(seg.intTx) && WriteMatch(seg.received, Expected(seg.draws, false), op.repeat)
  }

  /** The recorded verdict departs from the intended one exactly in the two
      defective cases: a read whose words all come back right, and a write
      whose words arrived although the controller hung. */
  lemma VerdictsDiffer(op: Operation, seg: Segment)
    requires SegmentFits(seg, op.repeat)
    ensures Verdict(op, seg) != IntendedVerdict(op, seg) <==>
      (op.direction == "read" && op.repeat >= 1 && ReadMatch(seg.readBack, Expected(seg.draws, true), op.repeat)) ||
      (op.direction != "read" && TimedOut(seg.intTx) && WriteMatch(seg.received, Expected(seg.draws, false), op.repeat))
  {
  }

  /** Even when the FIFO returns exactly the words sent, the read segment
      fails as written, though the read scoreboard passes it. */
  lemma ReadAsWrittenRejectsCorrectReads(op: Operation, seg: Segment)
    requires SegmentFits(seg, op.repeat) && op.direction == "read" && op.repeat >= 1
    requires forall i :: 0 <= i < |seg.draws| ==> seg.readBack[i] == Resolved(seg.draws[i])
    ensures IntendedVerdict(op, seg) && !Verdict(op, seg)
  {
    var expected := Expected(seg.draws, true);
    forall i | 0 <= i < op.repeat
      ensures seg.readBack[i] == Resolved(expected[i].data)
    {
      assert expected[i].data == seg.draws[i];
    }
  }

  /** A controller whose last transactions on the I2C lines carry the
      drawn words, but which never raises INT_TX, passes the write segment
      as written and fails it as intended. */
  lemma HangUpPassesAsWritten(op: Operation, seg: Segment)
    requires SegmentFits(seg, op.repeat) && op.direction == "write" && op.repeat >= 1
    requires TimedOut(seg.intTx)
    requires |seg.received| >= |seg.draws|
    requires forall i :: 0 <= i < |seg.draws| ==> seg.received[|seg.received| - |seg.draws| + i].data == seg.draws[i]
    ensures Verdict(op, seg) && !IntendedVerdict(op, seg)
  {
  }

  /** A hang-up fails a write under the intended verdict, whatever was
      received. */
  lemma HangUpFails(op: Operation, seg: Segment)
    requires SegmentFits(seg, op.repeat) && op.direction == "write"
    requires forall k: nat :: k < HangUpGuard ==> !seg.intTx(k)
    ensures !IntendedVerdict(op, seg)
  {
  }

  /** Runs the segment the operation's direction selects, as written;
      returns the mode word it writes and the verdict it records. */
  method RunSegment(op: Operation, seg: Segment) returns (mode: int, ok: bool)
    requires SegmentFits(seg, op.repeat)
    ensures mode == ModeWord(op.direction == "read", op.divider)
    ensures ok == Verdict(op, seg)
  {
    mode := ModeWord(op.direction == "read", op.divider);
    if op.direction == "read" {
      var issued;
      ok, issued := ReadScoreboardAsWritten(op.repeat);
    } else {
      ok := WriteOperationAsWritten(seg.intTx, seg.received, Expected(seg.draws, false), op.repeat);
    }
  }

  // ---------------------------------------------------------------------
  // The closure loop

  /** A checkpoint: the register snapshot and the operation after which it
      was taken (none for the one taken after reset). */
  type Saved = (map<Checkpoint.Path, BusValue>, Option<Operation>)

  /** `op.order` is sampled with every consecutive pair of completed
      operations, in completion order. */
  predicate OrderTracks(completed: seq<(Operation, bool)>, samples: seq<(Operation, Operation)>)
  {
    |samples| == (if completed == [] then 0 else |completed| - 1) &&
    forall i :: 0 <= i < |samples| ==> samples[i] == (completed[i].0, completed[i + 1].0)
  }

  /** Recording an operation keeps the order samples in step. */
  lemma OrderStep(completed: seq<(Operation, bool)>, samples: seq<(Operation, Operation)>, entry: (Operation, bool))
    requires OrderTracks(completed, samples)
    ensures OrderTracks(completed + [entry],
      samples + (if |completed + [entry]| > 1 then [((completed + [entry])[|completed + [entry]| - 2].0, entry.0)] else []))
  {
  }

  /** The covered keys begin with the keys of the completed operations. */
  predicate CoveredMatches(covered: seq<Key>, completed: seq<(Operation, bool)>)
  {
    |completed| <= |covered| && forall i :: 0 <= i < |completed| ==> covered[i] == KeyOf(completed[i].0)
  }

  /** The state the main loop keeps between iterations. */
  class ClosureLoop {
    /** The simulation: collected registers and register values. */
    var sim: Checkpoint.Session
    /** `checkpoints`: name to snapshot and the operation it follows. */
    var checkpoints: map<string, Saved>
    /** `already_covered` */
    var alreadyCovered: seq<Key>
    /** `operations_completed`: each operation with its verdict. */
    var operationsCompleted: seq<(Operation, bool)>
    /** The pairs `op.order` has been sampled with. */
    var orderSamples: seq<(Operation, Operation)>

    /** '0' is always a checkpoint; every checkpoint holds exactly the
        collected registers and, past the initial one, follows an operation
        that passed. */
    predicate CheckpointsValid()
      reads this, sim
    {
      "0" in checkpoints && sim.Valid() &&
      (forall n :: n in checkpoints ==> checkpoints[n].0.Keys == set i | 0 <= i < |sim.hier| :: sim.hier[i]) &&
      (forall n :: n in checkpoints && checkpoints[n].1.Some? ==> (checkpoints[n].1.value, true) in operationsCompleted)
    }

    /** The checkpoints are valid, one key is covered per completed
        operation and order samples follow completion order. */
    predicate Valid()
      reads this, sim
    {
      CheckpointsValid() &&
      |alreadyCovered| == |operationsCompleted| && CoveredMatches(alreadyCovered, operationsCompleted) &&
      OrderTracks(operationsCompleted, orderSamples)
    }

    /** Between drawing `op` and completing it: its key is covered, its
        verdict not yet recorded. */
    predicate Pending(op: Operation)
      reads this, sim
    {
      CheckpointsValid() &&
      |alreadyCovered| == |operationsCompleted| + 1 && CoveredMatches(alreadyCovered, operationsCompleted) &&
      alreadyCovered[|operationsCompleted|] == KeyOf(op) &&
      OrderTracks(operationsCompleted, orderSamples)
    }

    /** After reset and the collection of the registers: the checkpoint '0'
        and nothing done yet. */
    constructor (s: Checkpoint.Session)
      requires s.Valid()
      ensures sim == s && Valid()
      ensures checkpoints == map["0" := (Checkpoint.Snapshot(s.regs, s.hier), None)]
      ensures alreadyCovered == [] && operationsCompleted == [] && orderSamples == []
    {
      sim := s;
      var data := s.Checkpoint();
      checkpoints := map["0" := (data, None)];
      alreadyCovered := [];
      operationsCompleted := [];
      orderSamples := [];
    }

    /** `sample_operation`: records the operation and, once there are two,
        samples the order of the last two. */
    method SampleOperation(op: Operation, ok: bool)
      modifies this
      ensures operationsCompleted == old(operationsCompleted) + [(op, ok)]
      ensures orderSamples == old(orderSamples) +
        (if |operationsCompleted| > 1 then [(operationsCompleted[|operationsCompleted| - 2].0, op)] else [])
      ensures sim == old(sim) && checkpoints == old(checkpoints) && alreadyCovered == old(alreadyCovered)
    {
      operationsCompleted := operationsCompleted + [(op, ok)];
      if |operationsCompleted| > 1 {
        orderSamples := orderSamples + [(operationsCompleted[|operationsCompleted| - 2].0, operationsCompleted[|operationsCompleted| - 1].0)];
      }
    }

    /** Restores the checkpoint `pick` (any existing one) in tree mode, '0'
        otherwise. */
    method RestoreCheckpoint(tree: bool, pick: string) returns (name: string)
      requires Valid()
      requires pick in checkpoints
      modifies sim
      ensures Valid()
      ensures name in checkpoints && (tree ==> name == pick) && (!tree ==> name == "0")
      ensures sim.regs == old(sim.regs) + checkpoints[name].0
      ensures sim.hier == old(sim.hier)
    {
      name := if tree then pick else "0";
      sim.Restore(checkpoints[name].0);
    }

    /** The first half of an iteration: restore a checkpoint, draw an
        operation and record it as covered. */
    method Prepare(tree: bool, pick: string, solved: Option<Key>, fallback: Key, repeat: int, divider: int)
      returns (restored: string, op: Operation)
      requires Valid()
      requires pick in checkpoints
      requires ValidKey(fallback)
      requires solved.Some? ==> ValidKey(solved.value) && OpConstraint(alreadyCovered, solved.value.direction, solved.value.dividerRange, solved.value.repeatRange)
      requires InRange(repeat, ChosenKey(tree, alreadyCovered, solved, fallback).repeatRange)
      requires InRange(divider, ChosenKey(tree, alreadyCovered, solved, fallback).dividerRange)
      modifies this, sim
      ensures Pending(op) && sim == old(sim)
      ensures restored in old(checkpoints) && (tree ==> restored == pick) && (!tree ==> restored == "0")
      ensures sim.regs == old(sim.regs) + old(checkpoints)[restored].0 && sim.hier == old(sim.hier)
      ensures Drawn(op) && op.repeat == repeat && op.divider == divider
      ensures KeyOf(op) == ChosenKey(tree, old(alreadyCovered), solved, fallback)
      ensures alreadyCovered == old(alreadyCovered) + [KeyOf(op)]
      ensures checkpoints == old(checkpoints) && operationsCompleted == old(operationsCompleted) && orderSamples == old(orderSamples)
    {
      restored := RestoreCheckpoint(tree, pick);
      var k := ChosenKey(tree, alreadyCovered, solved, fallback);
      op := PostRandomize(Randomize(NewOperation(), k), repeat, divider);
      alreadyCovered := alreadyCovered + [KeyOf(op)];
    }

    /** The second half: run the operation (the controller leaves its
        registers at `after`), record its verdict and, if it passed, take a
        checkpoint named `stamp`. */
    method Finish(op: Operation, seg: Segment, after: map<Checkpoint.Path, BusValue>, stamp: string) returns (ok: bool)
      requires Pending(op)
      requires SegmentFits(seg, op.repeat)
      requires forall i :: 0 <= i < |sim.hier| ==> sim.hier[i] in after
      modifies this, sim
      ensures Valid() && sim == old(sim)
      ensures ok == Verdict(op, seg)
      ensures sim.regs == after && sim.hier == old(sim.hier)
      ensures alreadyCovered == old(alreadyCovered)
      ensures operationsCompleted == old(operationsCompleted) + [(op, ok)]
      ensures checkpoints == if ok then old(checkpoints)[stamp := (Checkpoint.Snapshot(after, sim.hier), Some(op))] else old(checkpoints)
    {
      var mode;
      mode, ok := RunSegment(op, seg);
      sim.regs := after;
      ghost var completed := operationsCompleted;
      ghost var samples := orderSamples;
      SampleOperation(op, ok);
      OrderStep(completed, samples, (op, ok));
      assert CoveredMatches(alreadyCovered, operationsCompleted);
      if ok {
        assert operationsCompleted[|operationsCompleted| - 1] == (op, true);
        TakeCheckpoint(op, stamp);
      }
    }

    /** Saves the present register values as checkpoint `stamp`, after the
        operation `op`, which passed. */
    method TakeCheckpoint(op: Operation, stamp: string)
      requires Valid()
      requires (op, true) in operationsCompleted
      modifies this
      ensures Valid()
      ensures checkpoints == old(checkpoints)[stamp := (Checkpoint.Snapshot(sim.regs, sim.hier), Some(op))]
      ensures sim == old(sim) && alreadyCovered == old(alreadyCovered)
      ensures operationsCompleted == old(operationsCompleted) && orderSamples == old(orderSamples)
    {
      var data := sim.Checkpoint();
      checkpoints := checkpoints[stamp := (data, Some(op))];
    }

    /** One iteration of the main loop. As written, a read operation never
        passes, so no checkpoint ever follows one. */
    method Iterate(tree: bool, pick: string, solved: Option<Key>, fallback: Key, repeat: int, divider: int,
                   seg: Segment, after: map<Checkpoint.Path, BusValue>, stamp: string)
      returns (restored: string, op: Operation, ok: bool)
      requires Valid()
      requires pick in checkpoints
      requires ValidKey(fallback)
      requires solved.Some? ==> ValidKey(solved.value) && OpConstraint(alreadyCovered, solved.value.direction, solved.value.dividerRange, solved.value.repeatRange)
      requires InRange(repeat, ChosenKey(tree, alreadyCovered, solved, fallback).repeatRange)
      requires InRange(divider, ChosenKey(tree, alreadyCovered, solved, fallback).dividerRange)
      requires SegmentFits(seg, repeat)
      requires forall i :: 0 <= i < |sim.hier| ==> sim.hier[i] in after
      modifies this, sim
      ensures Valid() && sim == old(sim)
      ensures restored in old(checkpoints) && (tree ==> restored == pick) && (!tree ==> restored == "0")
      ensures Drawn(op) && op.repeat == repeat && op.divider == divider
      ensures KeyOf(op) == ChosenKey(tree, old(alreadyCovered), solved, fallback)
      ensures alreadyCovered == old(alreadyCovered) + [KeyOf(op)]
      ensures operationsCompleted == old(operationsCompleted) + [(op, ok)]
      ensures ok == Verdict(op, seg)
      ensures sim.regs == after && sim.hier == old(sim.hier)
      ensures checkpoints == if ok then old(checkpoints)[stamp := (Checkpoint.Snapshot(after, sim.hier), Some(op))] else old(checkpoints)
      ensures op.direction == "read" ==> !ok && checkpoints == old(checkpoints)
    {
      restored, op := Prepare(tree, pick, solved, fallback, repeat, divider);
      RangesWithin(op.repeatRange);
      ok := Finish(op, seg, after, stamp);
    }
  }
}
