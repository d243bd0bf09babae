# MetricsFileTailer, modelled in Dafny

Accumulo's integration tests check that metrics reach a file-based sink with
`MetricsFileTailer`. This class tails a metrics file from a background thread.
Every five seconds its `run()` loop compares the file's length with the byte
position it has consumed so far:

- If the file got shorter, it clears its ring of four lines and starts again from position 0.
- If the file grew, it reads every new line into the ring, stamps a freshness
  marker (`getLastUpdate()`) and moves the position to the file pointer.
- If the length is unchanged, it does nothing.

`getLast()` returns the line in the ring slot before the next one to be written.
`close()` clears the `running` flag that the loop tests.

This project models that state machine in three modules:

- `TailSpec` (tail_spec.dfy) gives the state as a value `TailState`. It defines:
  - one append, `Store` (MetricsFileTailer.java:227);
  - a batch of appends, `StoreAll` (:226-228);
  - a separate closed-form description of the ring, `Window`;
  - the slot `getLast()` reads, `LastSlot` and `Latest` (:166-178);
  - the truncation check, `Truncate` (:206-216);
  - the growth step, `Grow` (:219-236);
  - one loop cycle after the sleep, `Cycle` (:201-240);
  - `close()`, `Close` (:245-247);
  - the loop, `RunLoop` (:191-241), and `run()` itself, `Run` (:185-242).
- `TailProperties` (tail_properties.dfy) proves what `MetricsFileTailer` does:
  - where each line lands;
  - that the ring holds the last four lines;
  - what `getLast()` returns;
  - what a truncation, a growth cycle and an idle cycle do;
  - when the marker changes;
  - that the loop runs no cycle after a stop.
- `Tailer` (metrics_file_tailer.dfy) holds the class `MetricsFileTailer`. Its
  `lineBuffer` is an array updated in place by the same loops as in Java: the
  clearing loop and the `readLine` loop. Every method is proved to produce the
  `TailSpec` state, so all of `TailProperties` applies to the object. The
  method `TwoCyclesThenClose` is a usage example, not part of the source: it
  drives an object through two growth cycles and two `close()` calls and
  derives what `getLast()` returns from the contracts alone.

Inputs that stand in for I/O:

- a cycle gets the file length `len`;
- it gets a `Read`: either `Lines(lines, endPos)`, the lines `readLine` returned
  and the final file pointer, or `Failed(linesBefore)`, the lines read before an
  exception;
- it gets an opaque timestamp `now`;
- `Run` gets a sequence of wake-ups, which fixes one interleaving of the loop
  with `close()` calls and interrupts.

What the code does, which the model follows:

- A truncation resets `lineCounter` to 0 (MetricsFileTailer.java:213). The
  lines read afterwards start again at slot 0, so the ring's phase is not kept
  across a reset (`TruncationResets`, `TruncationScenario`).
- `readLine` also returns a final line that has no terminator. Such a line is
  stored, and the position moves past it, so nothing holds back a partial line.
  The model's `Lines(lines, endPos)` includes that line.
- The marker is stamped in every growth cycle whose read reaches the end, even
  if that read returned no line (`MarkerStampedOnGrowth`).
- `File.length()` returns 0 for a missing file. Once something has been
  consumed, a missing file therefore looks like a truncation and clears the
  ring.
- The ring starts as Java `null`s, and a truncation fills it with `""`.
  `getLast()` returns `None` before any line is read (`InitialHoldsNothing`)
  and `Some("")` after a reset that read nothing.

## Model

| member | source | states |
|---|---|---|
| TailSpec.SlotOf | test/src/main/java/org/apache/accumulo/test/metrics/MetricsFileTailer.java:227 | the slot a line with a given sequence number is written to is always one of the BUFFER_SIZE = 4 slots |
| TailSpec.LastSlot | test/src/main/java/org/apache/accumulo/test/metrics/MetricsFileTailer.java:170-173 | the index `getLast()` computes is in 0..3; it is the slot of line `lineCounter - 1` when lines were stored, and slot 3 when the counter is 0 |
| TailSpec.Store | test/src/main/java/org/apache/accumulo/test/metrics/MetricsFileTailer.java:227 | an append writes the line into slot `lineCounter mod 4` and leaves the other three slots unchanged |
| TailProperties.StoreAllIsWindow | test/src/main/java/org/apache/accumulo/test/metrics/MetricsFileTailer.java:226-228 | after n appends, each slot holds the most recent line whose sequence number is congruent to it, or its old content if none of the n lines went there |
| TailProperties.StoreAllConcat | test/src/main/java/org/apache/accumulo/test/metrics/MetricsFileTailer.java:226-228 | appending two batches in successive cycles leaves the same ring as appending their concatenation; the counter carries the phase from one cycle to the next |
| TailProperties.StoreAllKeepsLastLines | test/src/main/java/org/apache/accumulo/test/metrics/MetricsFileTailer.java:48 | each of the last (at most) four lines appended sits at slot (its sequence number) mod 4; a slot that none of them reached is unchanged |
| TailProperties.EvictsOlderLines | test/src/main/java/org/apache/accumulo/test/metrics/MetricsFileTailer.java:59 | after four or more appends, every slot holds one of the last four lines, so every older line is overwritten |
| TailProperties.LatestIsLastStored | test/src/main/java/org/apache/accumulo/test/metrics/MetricsFileTailer.java:166-174 | after one or more appends, the slot `getLast()` reads holds the last line appended |
| TailProperties.InitialHoldsNothing | test/src/main/java/org/apache/accumulo/test/metrics/MetricsFileTailer.java:58-59 | a new tailer has stored no line and `getLast()` returns null |
| TailProperties.CycleHolds | test/src/main/java/org/apache/accumulo/test/metrics/MetricsFileTailer.java:206-236 | every cycle keeps the ring equal to the lines read since the last reset, appended from slot 0 to the reset's fill; a truncation starts a new history, growth extends it by the lines read, also when an error cut the read short |
| TailProperties.HeldLatest | test/src/main/java/org/apache/accumulo/test/metrics/MetricsFileTailer.java:166-174 | `getLast()` returns the last line read since the last reset, or the reset's fill value if there is none |
| TailProperties.IdleCycleChangesNothing | test/src/main/java/org/apache/accumulo/test/metrics/MetricsFileTailer.java:206-219 | when the length equals the consumed position, a cycle leaves the ring, counter, position and marker unchanged |
| TailProperties.TruncationResets | test/src/main/java/org/apache/accumulo/test/metrics/MetricsFileTailer.java:206-235 | a shorter file sets the position to 0, every slot to "" and the counter to 0 before growth handling; lines read next start at slot 0; the final position is 0 for an empty file or a failed read and the final file pointer after a complete read; with no lines read `getLast()` returns "" |
| TailProperties.GrowthAppends | test/src/main/java/org/apache/accumulo/test/metrics/MetricsFileTailer.java:206-236 | a growth cycle, also one right after a truncation in the same poll, appends every line read to the ring and counter left by the truncation check; a complete read stamps the marker and moves the position to the final file pointer, a read cut short by an exception does neither |
| TailProperties.GrowthLatest | test/src/main/java/org/apache/accumulo/test/metrics/MetricsFileTailer.java:219-228 | after a growth cycle that read at least one line, `getLast()` returns the last line of that cycle |
| TailProperties.MarkerStampedOnGrowth | test/src/main/java/org/apache/accumulo/test/metrics/MetricsFileTailer.java:224-235 | the marker becomes `now` exactly in a cycle whose read of new content reached its end; in every other cycle it keeps its value |
| TailProperties.CloseIdempotent | test/src/main/java/org/apache/accumulo/test/metrics/MetricsFileTailer.java:245-247 | `close()` only clears `running`, and a second call changes nothing |
| TailProperties.StoppedLoopDoesNothing | test/src/main/java/org/apache/accumulo/test/metrics/MetricsFileTailer.java:191 | a loop that finds `running` false performs no cycle |
| TailProperties.NoCycleAfterStop | test/src/main/java/org/apache/accumulo/test/metrics/MetricsFileTailer.java:191-199 | after an interrupted sleep, or once the `running` check finds the flag cleared by `close()`, no later wake-up changes the state; the result is the state before the stop with `running` cleared |
| TailProperties.CloseDuringSleep | test/src/main/java/org/apache/accumulo/test/metrics/MetricsFileTailer.java:191-201 | a `close()` during the sleep does not prevent that sleep's cycle: the cycle runs, then the loop stops at the `running` check |
| TailProperties.TicksKeepRunning | test/src/main/java/org/apache/accumulo/test/metrics/MetricsFileTailer.java:191-241 | cycles alone never clear `running` |
| TailProperties.TwoCycleScenario | test/src/main/java/org/apache/accumulo/test/metrics/MetricsFileTailer.java:226-227 | when "A","B","C" are read in one cycle and "D","E" in the next, `getLast()` returns "E" and the ring holds E, B, C, D in slots 0..3 |
| TailProperties.TruncationScenario | test/src/main/java/org/apache/accumulo/test/metrics/MetricsFileTailer.java:206-228 | when ten lines are read and the file is then truncated to length zero, `getLast()` returns ""; after "X" is written it returns "X", from slot 0 |
| Tailer.MetricsFileTailer.constructor | test/src/main/java/org/apache/accumulo/test/metrics/MetricsFileTailer.java:103-106 | the tailer keeps the given prefix and file name and starts with every slot null, counter, position and marker 0, running |
| Tailer.MetricsFileTailer.GetLastUpdate | test/src/main/java/org/apache/accumulo/test/metrics/MetricsFileTailer.java:157-159 | returns the marker last stamped by a cycle (when that happens: MarkerStampedOnGrowth) |
| Tailer.MetricsFileTailer.GetLast | test/src/main/java/org/apache/accumulo/test/metrics/MetricsFileTailer.java:166-178 | returns the slot of line `lineCounter - 1`, or slot 3 when the counter is 0; this is the state machine's `Latest` |
| Tailer.MetricsFileTailer.ClearBuffer | test/src/main/java/org/apache/accumulo/test/metrics/MetricsFileTailer.java:210-212 | the clearing loop sets all four slots to "" |
| Tailer.MetricsFileTailer.Append | test/src/main/java/org/apache/accumulo/test/metrics/MetricsFileTailer.java:226-228 | the read loop leaves the array equal to `StoreAll` of its old contents and counter, and adds the number of lines to the counter |
| Tailer.MetricsFileTailer.Poll | test/src/main/java/org/apache/accumulo/test/metrics/MetricsFileTailer.java:201-240 | one cycle updates the object exactly as `Cycle` updates the state |
| Tailer.MetricsFileTailer.Close | test/src/main/java/org/apache/accumulo/test/metrics/MetricsFileTailer.java:245-247 | clears `running` and changes nothing else |
| Tailer.MetricsFileTailer.Run | test/src/main/java/org/apache/accumulo/test/metrics/MetricsFileTailer.java:185-242 | the loop starts from position 0 and leaves the object in the state `Run` gives for the same wake-ups |

## Left out

- The constructor that takes only a metrics prefix, and `loadMetricsConfig()`
  (MetricsFileTailer.java:70-149), are not modelled. They look up a properties
  file on the classpath through Apache Commons Configuration, a foreign
  library. The model starts from the constructor that is given the file name.
- `ReentrantLock`, `AtomicBoolean` and `AtomicLong` are not modelled. A single
  sequential caller drives the model, and each locked region is one atomic
  step. A concurrent interrupt, or the loop's `running` check finding the flag
  cleared by a concurrent `close()`, appears as a wake-up in the sequence given
  to `Run`.
- A `close()` during the sleep does not interrupt it (MetricsFileTailer.java:194,
  246), so one more full cycle follows and may append lines and stamp the
  marker after `close()` returned. The model writes this as `Tick` then
  `CloseCalled` (`CloseDuringSleep`); `CloseCalled` stands for the moment the
  check at line 191 sees the flag, not for the call of `close()`.
- `Thread.sleep` is not modelled. A sleep that ends is a `Tick`. An interrupted
  sleep is `Interrupted`; it clears `running` and ends the loop, and
  re-asserting the thread's interrupt status is not modelled.
- `File`, `RandomAccessFile`, `seek`, the byte semantics of `readLine` and
  `getFilePointer` are replaced by the inputs `len` and `Read`. The model does
  not relate the lines read to the file's bytes.
- `Read` does not cover an exception from `getFilePointer` after the marker was
  stamped, which would leave the position unchanged. An exception from
  `raf.close()` after the position moved has no effect on the state, so
  `Lines` already covers it.
- `System.nanoTime() - startTime` is the opaque `now`. Whether two stamps
  differ depends on the clock, so the model proves only that the marker is set
  to `now`.
- Logging is not modelled.
- TailSpec.LastSlot: assumes `lineCounter` is unbounded (`nat`). Java's `int`
  counter wraps to a negative value after 2^31 appends. From then on, the
  append at MetricsFileTailer.java:227 computes a negative index (-3, -2 or
  -1) for three of every four counter values and throws, after `lineCounter++`
  has already run. The catch at :238 absorbs the exception, so that cycle
  neither stamps the marker nor moves the position. `getLast()` does not fail:
  its index at :170 is then in -4..-1, and :171-172 turn it into slot 3.
- Tailer.MetricsFileTailer.Run: handles a finite sequence of wake-ups, while
  the Java loop runs until it is stopped.
