# apbi2c testbench in Dafny

A model of the cocotb testbench of an APB-to-I2C controller, with proofs about it.
The model covers the testbench's own logic. It leaves out the simulator, the controller under test, and the randomization and coverage libraries.

- **`Signals`** (`signals.dfy`): logic levels, bus values that may be unresolved ('x'/'z'), repetition of a value over edges, powers of two, and the shift and bit-extraction arithmetic the agents use.
- **`I2c`** (`i2c.dfy`): the I2C agent of `tb/i2c.py`.
  - `I2CTransaction` with its data-only equality.
  - The driver `I2CDriver.send`, a method that writes the (SCL, SDA) lines edge by edge. It is proved to produce exactly `Frame(data, d)`.
  - The monitor `_monitor_recv`: a step function `Step` over the state `started`, `pre_started`, `prev_scl`, `rdata`, `data_cnt`, `ack`, and a method `Monitor` that loops over the samples until an SCL value that is not a logic level ends it.
- **`I2cRoundTrip`** (`i2c_roundtrip.dfy`): the frame-level proofs.
  - Decoding a frame of any word with any divider d ≥ 1 gives back the word modulo 2^32.
  - Back-to-back frames decode to the words in order.
  - A frame lasts 39d + 38 edges.
- **`Apb`** (`apb.dfy`): the APB agent of `tb/apb.py`.
  - The driver `APBSlave.send`, a method that runs against the slave's per-edge `PREADY`/`PRDATA`.
  - The monitor `_monitor_recv`, as a step function and a loop that an unresolved `PREADY` ends.
  - The proof that the monitor reports each transfer exactly once, with its address, direction, data and idle count.
- **`Coverage`** (`coverage.dfy`): the bin lists and `rel` predicates of `tb/coverage.py`. It proves partition and dead-value facts, and the sizes and memberships of the two crosses.
- **`Checkpoint`** (`checkpoint.dfy`): the register walk, snapshot and restore of `tb/checkpoint.py`, over a tree of simulator objects.
  - A `Session` holds the collected register list and the simulator's register values.
- **`Closure`** (`closure.dfy`): the closure test of `tb/test_i2c.py`.
  - Operation randomization and the "not already covered" constraint with its fallback.
  - The mode word written to address 8.
  - The write and read scoreboards, as written and as evidently intended (see "## Findings"). The loop records the verdict as written.
  - The main loop's bookkeeping, as a class `ClosureLoop`.

Timing convention: one sample per rising clock edge. A line the driver writes after edge k is what a monitor reads at edge k.

## Model

| member | source | states |
|---|---|---|
| I2c.EqualityIsOnDataOnly | tb/i2c.py:54-59 | `__ne__` is the negation of `__eq__`; equality is an equivalence that ignores `write` and `divider` |
| I2c.PostRandomize | tb/i2c.py:51-52 | the drawn data is in [0, 2^32); `write` and `divider` are kept |
| I2c.WaitEdges | tb/i2c.py:133-134 | holding the lines for n edges appends n copies of the present sample |
| I2c.Cell | tb/i2c.py:136-148 | defines the edges one iteration of the bit loop drives: the edge presenting the previous bit (or the start condition) with SCL high, d edges with SCL low, and before bits 8, 16 and 24 one more high edge and d low edges |
| I2c.Head | tb/i2c.py:131-148 | defines the edges up to the end of the first n bit-loop iterations: 2d idle edges with both lines high, then one cell per iteration |
| I2c.Tail | tb/i2c.py:149-160 | defines the edges after the bit loop: the edge presenting bit 31, two more clock pulses, and the edge with SDA pulled low under a high SCL |
| I2c.Frame | tb/i2c.py:130-161 | defines the waveform of one word: `Head` for all 32 iterations followed by `Tail` |
| I2c.ClockBit | tb/i2c.py:136-148 | one loop iteration appends exactly `Cell(i)`: a high edge that still shows the SDA level set before the call (`DataBefore`: the start condition's 0 for bit 0, bit i-1 after it), SCL low for d edges, and the extra pulse before bits 8, 16 and 24; bit i itself is put on SDA by `Send` after the call |
| I2c.ClockTail | tb/i2c.py:149-160 | after bit 31: two pulses, then SDA pulled low under a high SCL |
| I2c.Send | tb/i2c.py:130-161 | the samples written are exactly `Frame(data, d)` (2d idle edges, start, 32 LSB-first bits with extra pulses, tail); the lines end high |
| I2c.SdaBit | tb/i2c.py:80-83 | SDA reads as 1 exactly when the line is high; 'x' and any other unresolved value read as 0 |
| I2c.Step | tb/i2c.py:84-108 | defines one iteration of the monitor's loop on an edge whose SCL is a logic level: the new locals and the word handed to `_recv`, if any |
| I2c.StepSpec | tb/i2c.py:84-108 | a word is emitted exactly on the first SCL rise after 32 bits, and then the monitor stops; while started, only an SCL-high sample after an SCL-low one is acted on; a rise is an ACK slot exactly when `data_cnt % 8 == 0` and `ack == 0`; a bit adds `sda << data_cnt`; a start is SDA high then low under a high SCL |
| I2c.StepKeepsInv | tb/i2c.py:91-106 | the step keeps `data_cnt ≤ 32`, `0 ≤ rdata < 2^data_cnt` and ack ∈ {0,1} |
| I2c.Run | tb/i2c.py:77-108 | defines the monitor's loop over a sequence of edges: the locals after the last edge and the words emitted, in order |
| I2c.RunSpec | tb/i2c.py:77-108 | over any samples, the monitor's invariant holds and every emitted word is below 2^32 |
| I2c.OnEdge | tb/i2c.py:78-108 | one loop iteration of the monitor, on local copies of its variables, computes exactly `Step` |
| I2c.Alive | tb/i2c.py:78-84 | the monitor lives through the edges before the first SCL value that is not a logic level: comparing such a value with 1 raises outside the `try` and ends the coroutine |
| I2c.Monitor | tb/i2c.py:73-108 | the transactions reported are the words of the run from idle over the edges the monitor lives through, as reads (`write=False`), each below 2^32; nothing is reported after an unresolved SCL |
| I2c.ReceivedBounded | tb/i2c.py:99 | every reported transaction has `write=False` and data in [0, 2^32) |
| I2cRoundTrip.SampleBit | tb/i2c.py:101-104 | sampling bit i of a word at the counter's position extends `rdata` to the low i+1 bits of the word |
| I2cRoundTrip.CellStep | tb/i2c.py:95-106 | one bit cell, including the skipped ACK-slot pulse before bits 8, 16 and 24, advances the monitor by exactly one bit and emits nothing |
| I2cRoundTrip.BitsStep | tb/i2c.py:84-106 | idle edges, start and 32 bit cells leave the monitor holding the low 32 bits of the word, without emitting |
| I2cRoundTrip.TailStep | tb/i2c.py:95-100 | the tail's first rise emits the word and stops the monitor |
| I2cRoundTrip.RoundTrip | tb/i2c.py:73-108 | from any monitor state that is not started, the frame of `data` with divider d ≥ 1 emits exactly one word, `data mod 2^32`, and leaves the monitor not started |
| I2cRoundTrip.WordRoundTrip | tb/i2c.py:130-161 | for data < 2^32 and d ≥ 1, decoding the frame from idle gives exactly `[data]` |
| I2cRoundTrip.FrameResolved | tb/i2c.py:130-161 | the driver only drives SCL to 0 or 1, so the monitor lives through a whole frame |
| I2cRoundTrip.SendThenMonitor | tb/i2c.py:130-161 | the monitor reading what `send` writes reports exactly one transaction, equal to the one sent when its data fits 32 bits |
| I2cRoundTrip.FramesRoundTrip | tb/i2c.py:73-108 | frames sent back to back are decoded to their words, in order |
| I2cRoundTrip.PulsesCount | tb/i2c.py:141 | the extra pulse occurs before bits 8, 16 and 24 only: `(n-1)/8` of them in the first n bits |
| I2cRoundTrip.FrameLength | tb/i2c.py:133-160 | a frame lasts 39d + 38 edges |
| Apb.NewTransaction | tb/apb.py:44-49 | a request keeps address, data and direction; its delay is 1 |
| Apb.Randomize | tb/apb.py:51-52 | the drawn delay is in 0..9; nothing else changes |
| Apb.Setup | tb/apb.py:78-82 | defines the master's signals on the first edge of a transfer: address, write data and select driven, `PWRITE` driven to 1 for a write and left as it was for a read (the conditional expression covers the whole assignment), `PENABLE` as it was |
| Apb.Access | tb/apb.py:83-84 | defines the master's signals from the second edge on: those of `Setup` with `PENABLE` at 1 |
| Apb.FirstReady | tb/apb.py:85-90 | finds the first edge from the given one on where `PREADY` is 1, or reports that there is none; a 0 and an unresolved `PREADY` both read as not ready, as the driver's truth test does |
| Apb.SendWave | tb/apb.py:76-99 | defines the master's signals over the edges of `send`: one setup edge, access edges up to and including the first ready edge from edge 1 on, then 1 + delay released edges; only access edges while the slave is never ready |
| Apb.Send | tb/apb.py:76-99 | the driven signals are exactly `SendWave`; it returns `PRDATA` from the first ready edge from the access edge on, and returns nothing while the slave never becomes ready |
| Apb.SendReleases | tb/apb.py:91-98 | a completed transfer lasts 2 + k + delay edges, where k is the handshake edge, and ends with every master signal at 0 |
| Apb.Step | tb/apb.py:108-114 | defines one iteration of the monitor's loop: on a handshake, a report with address, direction, data chosen by direction and the idle count, which restarts at 0; otherwise the idle count grows by one |
| Apb.Run | tb/apb.py:104-114 | defines the monitor's loop over a sequence of edges: the final idle count and the reports, in order |
| Apb.Alive | tb/apb.py:108 | gives the edges before the first unresolved `PREADY`, where the comparison `PREADY.value == 1` raises and ends the monitor |
| Apb.Monitor | tb/apb.py:103-114 | the reports are those of the step function's run over the edges the monitor lives through (`Alive`), one per edge with `PENABLE=1` and `PREADY=1` among them |
| Apb.AliveWhole | tb/apb.py:103-114 | a slave that never leaves `PREADY` unresolved keeps the monitor running over every edge |
| Apb.ObservationCount | tb/apb.py:108-114 | the number of reports equals the number of handshake edges |
| Apb.RunQuiet | tb/apb.py:113-114 | edges without a handshake emit nothing and add one each to the idle count |
| Apb.RunHandshake | tb/apb.py:108-112 | a handshake edge reports address, direction, `PWDATA` for writes or `PRDATA` for reads, and the idle count, then resets the count to 0 |
| Apb.UpToHandshake | tb/apb.py:78-90 | with `PENABLE` and `PWRITE` low beforehand, the setup edge, the polling edges and the handshake edge of `send` produce exactly one report |
| Apb.ReadOnStalePwrite | tb/apb.py:82-110 | a read whose transfer starts with `PWRITE` still 1 is reported by the monitor as a write carrying `PWDATA` |
| Apb.SendObserved | tb/apb.py:76-114 | with `PENABLE` and `PWRITE` low before the call (as after `__init__` and after every release), the monitor reading what `send` drives reports exactly one transfer: the request's address and direction, its data for writes or the `PRDATA` that `send` returns for reads, and the idle edges before it; the idle count ends at 1 + delay |
| Coverage.StrictHits | tb/coverage.py:40-43 | counts the bins a value hits under strict bounds; zero exactly when no bin contains the value |
| Coverage.ClosedHits | tb/coverage.py:52-56 | counts the bins a value hits under inclusive bounds; zero exactly when no bin contains the value |
| Coverage.EqualHits | tb/coverage.py:45-46 | counts the bins equal to a value; zero exactly when the value is not a bin |
| Coverage.DelayHits | tb/coverage.py:40-44 | delays 1-4, 6-9 and 11-14 hit exactly one `apb.delay` bin; 0, 5, 10, values of 15 and above, and negative values hit none |
| Coverage.DataPartition | tb/coverage.py:52-56 | every value in [0, 0xFFFFFFFF] hits exactly one `i2c.data` bin; no other value hits any |
| Coverage.RangePartition | tb/coverage.py:66-75 | the `op.repeat` and `op.divider` bins are disjoint and cover exactly 1..31 |
| Coverage.AddrHits | tb/coverage.py:45 | 0, 4, 8 and 12 each hit one `apb.addr` bin; nothing else hits any |
| Coverage.WriteHits | tb/coverage.py:46 | each direction flag hits exactly one `apb.write` bin |
| Coverage.DirectionHits | tb/coverage.py:62-65 | 'read' and 'write' each hit one `op.direction` bin; no other string hits any |
| Coverage.OrderHits | tb/coverage.py:81-84 | any ordered pair of directions hits exactly one `op.order` bin; a pair with any other string in it hits none |
| Coverage.Cross | tb/coverage.py:47 | a cross has \|xs\|·\|ys\| bins, and a pair is among them exactly when each part is a bin of its item |
| Coverage.OpCross | tb/coverage.py:76 | `op.cross` has 2 × 4 × 4 = 32 bins |
| Coverage.WriteXDelay | tb/coverage.py:47 | `apb.writeXdelay` has 3 × 2 = 6 bins |
| Coverage.OpCrossHit | tb/coverage.py:62-76 | an operation falls into an `op.cross` bin exactly when its direction is 'read' or 'write' and its repeat and divider are in 1..31 |
| Coverage.WriteXDelayHit | tb/coverage.py:40-47 | a transfer falls into an `apb.writeXdelay` bin exactly when its delay hits an `apb.delay` bin |
| Checkpoint.ChildPath | tb/checkpoint.py:54 | a child's path begins with the parent's path and a dot |
| Checkpoint.Collected | tb/checkpoint.py:46-61 | defines the register paths the walk finds beneath a scope, in iteration order: MODULE, NETARRAY and GENARRAY objects are entered depth first, REG objects are listed, other objects are skipped |
| Checkpoint.CollectedBeneath | tb/checkpoint.py:46-61 | every collected register path lies beneath the scope it was collected from |
| Checkpoint.CollectedFlat | tb/checkpoint.py:56-61 | among objects that are not scopes, exactly the REG objects are collected, one path each, in order; nothing beneath them is visited |
| Checkpoint.CollectedAppend | tb/checkpoint.py:47-53 | collecting consecutive objects concatenates their collections in iteration order |
| Checkpoint.Session.GetCheckpointHier | tb/checkpoint.py:46-61 | the walk appends exactly `Collected` (the REG objects reached through MODULE, NETARRAY and GENARRAY objects, in order) to the list, and leaves the register values alone; a second walk appends the registers again |
| Checkpoint.Snapshot | tb/checkpoint.py:65-70 | the snapshot's keys are exactly the collected registers, each mapped to its present value |
| Checkpoint.Session.Checkpoint | tb/checkpoint.py:65-70 | the loop builds exactly the snapshot of the collected registers |
| Checkpoint.Session.Restore | tb/checkpoint.py:73-75 | every register in the checkpoint takes the checkpoint's value and every other register keeps its value; the register list is unchanged |
| Checkpoint.RestoreOwnSnapshot | tb/checkpoint.py:65-75 | restoring a checkpoint of the present values changes no register |
| Checkpoint.RestoreRewinds | tb/checkpoint.py:68-75 | whatever changed since, restoring puts every checkpointed register back to its saved value and leaves the others as they are now |
| Checkpoint.RestoreIdempotent | tb/checkpoint.py:73-75 | restoring the same checkpoint twice is restoring it once |
| Closure.NewOperation | tb/test_i2c.py:119-125 | a fresh operation is a write of one word with divider 1, already in the drawn state |
| Closure.Randomize | tb/test_i2c.py:128-134 | the first stage sets direction and both ranges to the chosen key and keeps repeat and divider |
| Closure.PostRandomize | tb/test_i2c.py:137-143 | the second stage sets repeat and divider to values drawn inclusively from the ranges |
| Closure.RandomizedIsDrawn | tb/test_i2c.py:128-143 | after both stages, direction and ranges come from the lists and repeat and divider lie in their ranges |
| Closure.DrawnHitsCoverage | tb/test_i2c.py:128-143 | a drawn operation has repeat and divider in 1..31 and direction 'read' or 'write', so it hits one bin each of `op.direction`, `op.repeat` and `op.divider` |
| Closure.RangesRefineBins | tb/test_i2c.py:130 | each of the six randomization ranges lies within one coverage bin |
| Closure.AllKeys | tb/test_i2c.py:128-134 | there are 72 (direction, repeat range, divider range) combinations, all valid |
| Closure.AllKeysComplete | tb/test_i2c.py:128-134 | every valid combination is one of the 72 |
| Closure.OpConstraint | tb/test_i2c.py:286-287 | defines `op_constraint`: a combination is admitted exactly when it is not in `already_covered` |
| Closure.ExhaustedConstraint | tb/test_i2c.py:286-287 | once all 72 combinations are covered, `op_constraint` admits none |
| Closure.CoveredStaysRejected | tb/test_i2c.py:286-287 | a combination rejected once stays rejected as `already_covered` grows |
| Closure.ChosenKey | tb/test_i2c.py:313-319 | in tree mode a successful `randomize_with` gives a combination not yet covered, and otherwise the plain draw is used; outside tree mode the plain draw is always used |
| Closure.ModeWord | tb/test_i2c.py:176 | defines the mode word: 1 for a write or 2 for a read, plus the divider shifted left by two (the `0x0002` variant at tb/test_i2c.py:216) |
| Closure.ModeDecode | tb/test_i2c.py:176 | the mode word's low two bits are 1 for a write and 2 for a read, and the word shifted right by two is the divider |
| Closure.ModeWordInjective | tb/test_i2c.py:216 | different directions or dividers give different mode words |
| Closure.LastN | tb/test_i2c.py:201 | `xs[-n:]` is a suffix of xs: the last n elements for n > 0 (all of them when fewer), the whole list for n == 0, all but the first -n for n < 0 |
| Closure.Expected | tb/test_i2c.py:179-186 | the expected transactions carry the drawn data words, in order |
| Closure.WriteMatch | tb/test_i2c.py:201-208 | defines the write comparison: at least `repeat` transactions in `received[-repeat:]`, each equal to the expected one at its position |
| Closure.WriteMatchIsSuffix | tb/test_i2c.py:201-208 | for repeat ≥ 1 the comparison passes exactly when at least repeat transactions were received and the last repeat of them have the expected data, in order |
| Closure.WriteScoreboard | tb/test_i2c.py:200-208 | the comparison loop, stopping at the first mismatch, returns exactly `WriteMatch` |
| Closure.TimedOut | tb/test_i2c.py:189-196 | defines a hang-up: INT_TX stays low for the whole 50000-edge guard |
| Closure.WaitTransmitDone | tb/test_i2c.py:189-196 | the wait ends at the first edge with INT_TX high, or times out after 50000 edges exactly when INT_TX stays low that long |
| Closure.WriteOperationAsWritten | tb/test_i2c.py:189-208 | as written, the verdict is the comparison alone, whatever INT_TX does |
| Closure.WriteOperation | tb/test_i2c.py:189-208 | the verdict fails on a hang-up and is otherwise the comparison |
| Closure.ArrivedLastPasses | tb/test_i2c.py:201-208 | words equal to the expected ones, arriving last, pass whatever came before |
| Closure.FramesReceived | tb/test_i2c.py:83-90 | the I2C catcher receives the words of frames sent back to back, in order |
| Closure.FramesPassWriteScoreboard | tb/test_i2c.py:174-208 | when the controller puts the expected words on the I2C lines as frames of any divider, the write scoreboard passes |
| Closure.ReadScoreboardAsWritten | tb/test_i2c.py:228-238 | as written, the read verdict is true exactly when repeat ≤ 0, and no APB read is issued |
| Closure.ReadMatch | tb/test_i2c.py:227-234 | defines the intended read comparison: every word read back is a resolved value equal to the word sent |
| Closure.ReadScoreboard | tb/test_i2c.py:227-238 | every read is issued, and the verdict is true exactly when every read returned a resolved value equal to the word sent |
| Closure.Verdict | tb/test_i2c.py:174-241 | defines the verdict the program records, as written: for 'read', true exactly when repeat ≤ 0; otherwise the write comparison alone |
| Closure.IntendedVerdict | tb/test_i2c.py:174-241 | defines the verdict the segments evidently intend: the read comparison for 'read'; otherwise no hang-up and the write comparison |
| Closure.VerdictsDiffer | tb/test_i2c.py:193-238 | the recorded and the intended verdict differ exactly for a read of at least one word whose words all come back right, and for a write whose words arrived although INT_TX never rose |
| Closure.ReadAsWrittenRejectsCorrectReads | tb/test_i2c.py:228-238 | a read of at least one word whose FIFO returns exactly the words drawn passes the intended verdict and fails the recorded one |
| Closure.HangUpPassesAsWritten | tb/test_i2c.py:189-208 | a write whose last received transactions carry the drawn words, while INT_TX never rises, passes as written and fails as intended |
| Closure.HangUpFails | tb/test_i2c.py:189-196 | under the intended verdict a hang-up fails a write whatever was received; this follows from the definition of `IntendedVerdict`, and the method that computes that verdict is `Closure.WriteOperation` |
| Closure.RunSegment | tb/test_i2c.py:174-241 | the segment writes the mode word for the operation's direction and divider, and returns exactly the verdict the program records |
| Closure.OrderStep | tb/test_i2c.py:155-160 | recording an operation keeps `op.order` sampled with every consecutive pair, in completion order |
| Closure.ClosureLoop.CheckpointsValid | tb/test_i2c.py:275-335 | defines the checkpoint invariant: '0' is a checkpoint, every checkpoint holds exactly the collected registers, and every checkpoint after '0' follows an operation recorded as passed |
| Closure.ClosureLoop.Valid | tb/test_i2c.py:295-335 | defines the loop invariant: the checkpoint invariant, one covered combination per completed operation in the same order, and order samples following completion order |
| Closure.ClosureLoop.constructor | tb/test_i2c.py:275-282 | the loop starts with checkpoint '0', the snapshot after reset, and nothing covered or completed |
| Closure.ClosureLoop.SampleOperation | tb/test_i2c.py:155-160 | appends exactly one completed entry; once two exist, samples the order of the last two |
| Closure.ClosureLoop.RestoreCheckpoint | tb/test_i2c.py:298-307 | restores an existing checkpoint: the chosen one in tree mode, '0' otherwise |
| Closure.ClosureLoop.Prepare | tb/test_i2c.py:298-322 | restores, draws the operation and appends exactly its combination to `already_covered` |
| Closure.ClosureLoop.Finish | tb/test_i2c.py:324-335 | runs the operation, records the verdict the program records, and adds a checkpoint only if that verdict is a pass |
| Closure.ClosureLoop.TakeCheckpoint | tb/test_i2c.py:330-335 | adds a checkpoint of the present registers under the time stamp, after an operation that passed |
| Closure.ClosureLoop.Iterate | tb/test_i2c.py:295-335 | one iteration keeps the loop invariant: '0' stays a checkpoint, checkpoints only grow and only after passing operations, `already_covered` gains exactly one entry whatever the outcome, and `operations_completed` one entry; as written, a read operation never passes, so no checkpoint follows one |

## Left out

- The cocotb scheduler (`RisingEdge`, `ReadOnly`, `Timer`, `Clock`, coroutines, callbacks) is not modelled. Its role is taken by explicit per-edge sample sequences and step functions.
- The controller under test is not modelled. `PREADY`, `PRDATA`, INT_TX, the words on the I2C lines and the register values after an operation are parameters.
- Randomness is not modelled. `random.randint`, `random.choice`, `randomize`, `randomize_with` and `get_sim_time` give their results as parameters, and no claim about distributions is made.
- The coverage library (hit counting, `coverage_db`, the coverage percentage and the loop's exit test `cov_op < 90`) is not modelled, because it is not part of the repository and uses floats. So `Closure.ClosureLoop.Iterate` models one iteration, not the loop's termination.
- The simulator's object iteration (`simulator.iterate`, `next`, `get_type`, `get_name_string`, `SimHandle`) is a foreign API. It is modelled as a tree of objects with kinds.
- `tb/test_i2c.py:44` imports the external `cocotb_checkpoint` package, which is not part of this model. The model follows `tb/checkpoint.py`, whose import is commented out at tb/test_i2c.py:47.
- The APB transfers of the closure test are not modelled as transfers: the mode write of `config_write` (tb/test_i2c.py:77-80), the FIFO-fill writes of the write segment (tb/test_i2c.py:179-186) and `segment_apb_rw` (tb/test_i2c.py:244-265). The word the mode write carries is modelled as a value (`Closure.ModeWord`, returned by `Closure.RunSegment`), and the FIFO-fill words are the segment's drawn words. The only check among these transfers is a log message in `segment_apb_rw`.
- Logging, the summary printing and `LOG_XACTION_ENABLE` are not modelled, because they are presentation only.
- Closure.ModeWord: the bitwise or of `0x1`/`0x2` with `divider << 2` is written as a sum. The two fields occupy disjoint bits, and `ModeDecode` recovers both.
- Apb.Send: the driver polls `PREADY` without a bound. The model runs on the finite edge sequence it is given, and reports no return value when the slave is never ready within it.
- Closure.RunSegment: the I2C frames of the read segment are driven with divider 1 (the `I2CTransaction` default, tb/test_i2c.py:220), whatever the operation's divider. The model takes the words the FIFO returns as parameters and does not connect them to those frames.
- Closure.ClosureLoop.Finish: `sample_operation` passes objects to cover points whose `xf` functions expect other arguments (tb/test_i2c.py:150-160 against tb/coverage.py:63 and tb/coverage.py:82). The model records which values are sampled but does not claim that the library counts hits for them.
- An unresolved `PREADY` reads as not ready in the driver (`Apb.FirstReady`) and ends the APB monitor (`Apb.Alive`); which values the simulator reports as unresolved is not modelled.
- The SDA value read by the monitor is taken as a logic level. A value that is neither 0 nor 1 reads as 0, as the `except` branch does. An SCL value that is neither 0 nor 1 ends the monitor (`I2c.Alive`); which values the simulator reports as unresolved is not modelled.

## Findings

| source | as written | input that shows it | evidently intended | confidence | as-written member | corrected member |
|---|---|---|---|---|---|---|
| tb/test_i2c.py:232 | `apb.send(xaction)` names a variable that does not exist in the read segment. The bare `except` turns the resulting error into `ok = False`, and no APB read is ever issued. | repeat = 1, and the FIFO would return exactly the word sent | `apb.send(apb_xaction)`: read each word and compare it with the word sent | high; not executed | Closure.ReadScoreboardAsWritten, Closure.ReadAsWrittenRejectsCorrectReads | Closure.ReadScoreboard, Closure.IntendedVerdict |
| tb/test_i2c.py:193-200 | the hang-up guard sets `ok = False` and breaks, but line 200 sets `ok = True` before the comparison, so a hung controller is never failed | INT_TX never rises, and the expected word was already received | a hang-up fails the operation | medium; not executed | Closure.WriteOperationAsWritten, Closure.HangUpPassesAsWritten | Closure.WriteOperation, Closure.IntendedVerdict |
