/**
  MetricsFileTailer as an object: the ring `lineBuffer` is an array updated
  in place, and the loop's state lives in fields. Each method is proved
  against the state machine of TailSpec through State(), so everything
  TailProperties proves about the cycle holds of the object.

  The lock, the atomics, the sleep and the file are not modelled: a single
  caller drives the object, each method runs as one atomic step, and a cycle
  receives the file length and the outcome of its read as arguments.
 */
module Tailer {
  import opened TailSpec
  import TailProperties

  class MetricsFileTailer {
    const metricsPrefix: string
    const metricsFilename: string

    /** `lineBuffer`, BUFFER_SIZE slots; `None` is a slot never written (Java `null`). */
    const lineBuffer: array<Option<string>>
    var lineCounter: nat
    /** The consumed position, a local of `run()` kept here between cycles. */
    var filePos: nat
    var lastUpdate: int
    var running: bool

    ghost predicate Valid()
      reads this
    {
      lineBuffer.Length == BufferSize
    }

    /** The object's state as a value of the state machine. */
    ghost function State(): TailState
      reads this, lineBuffer
      requires Valid()
    {
      TailState(lineBuffer[..], lineCounter, filePos, lastUpdate, running)
    }

    /** The constructor that is given the file name directly: nothing read yet, running. */
    constructor (metricsPrefix: string, filename: string)
      ensures Valid() && fresh(lineBuffer)
      ensures this.metricsPrefix == metricsPrefix && metricsFilename == filename
      ensures State() == Initial
    {
      this.metricsPrefix := metricsPrefix;
      metricsFilename := filename;
      lineBuffer := new Option<string>[BufferSize](_ => None);
      lineCounter, filePos, lastUpdate, running := 0, 0, 0, true;
      new;
      assert lineBuffer[..] == Unset;
    }

    /** `getLastUpdate()`: the freshness marker. */
    function GetLastUpdate(): (marker: int)
      reads this, lineBuffer
      requires Valid()
      ensures marker == State().lastUpdate
    {
      lastUpdate
    }

    /** `getLast()`: the line in the slot before the next one to be written. */
    function GetLast(): (line: Option<string>)
      reads this, lineBuffer
      requires Valid()
      ensures line == Latest(State())
      ensures lineCounter > 0 ==> line == lineBuffer[SlotOf(lineCounter - 1)]
      ensures lineCounter == 0 ==> line == lineBuffer[BufferSize - 1]
    {
      lineBuffer[LastSlot(lineCounter)]
    }

    /** The clearing loop of the truncation branch. */
    method ClearBuffer()
      requires Valid()
      modifies lineBuffer
      ensures lineBuffer[..] == Cleared
    {
      for i := 0 to BufferSize
        invariant forall k :: 0 <= k < i ==> lineBuffer[k] == Some("")
      {
        lineBuffer[i] := Some("");
      }
    }

    /** The read loop of the growth branch: every line goes to the next slot of the ring. */
    method Append(lines: seq<string>)
      requires Valid()
      modifies this`lineCounter, lineBuffer
      ensures Valid()
      ensures lineBuffer[..] == StoreAll(old(lineBuffer[..]), old(lineCounter), lines)
      ensures lineCounter == old(lineCounter) + |lines|
    {
      ghost var before: Ring := lineBuffer[..];
      ghost var counter0 := lineCounter;
      var k := 0;
      while k < |lines|
        invariant 0 <= k <= |lines|
        invariant lineCounter == counter0 + k
        invariant lineBuffer[..] == StoreAll(before, counter0, lines[..k])
      {
        assert lines[..k + 1][..k] == lines[..k];
        lineBuffer[lineCounter % BufferSize] := Some(lines[k]);
        lineCounter := lineCounter + 1;
        k := k + 1;
      }
      assert lines[..k] == lines;
    }

    /** One cycle of `run()` after its sleep, when the file has length `len`. */
    method Poll(len: nat, read: Read, now: int)
      requires Valid()
      modifies this`lineCounter, this`filePos, this`lastUpdate, lineBuffer
      ensures Valid()
      ensures State() == Cycle(old(State()), len, read, now)
    {
      if len < filePos {
        filePos := 0;
        ClearBuffer();
        lineCounter := 0;
      }
      if len > filePos {
        Append(LinesOf(read));
        match read
        case Lines(_, endPos) =>
          lastUpdate := now;
          filePos := endPos;
        case Failed(_) =>
      }
    }

    /** `close()`. */
    method Close()
      requires Valid()
      modifies this`running
      ensures Valid()
      ensures State() == TailSpec.Close(old(State()))
    {
      running := false;
    }

    /**
      `run()`, given the wake-ups it meets in order: a finished sleep followed
      by a cycle, an interrupted sleep, or the check of `running` finding it
      cleared by a `close()` from another thread.
     */
    method Run(wakeups: seq<Wakeup>)
      requires Valid()
      modifies this`lineCounter, this`filePos, this`lastUpdate, this`running, lineBuffer
      ensures Valid()
      ensures State() == TailSpec.Run(old(State()), wakeups)
    {
      filePos := 0;
      var i := 0;
      while running && i < |wakeups|
        invariant Valid() && 0 <= i <= |wakeups|
        invariant RunLoop(State(), wakeups[i..]) == TailSpec.Run(old(State()), wakeups)
        decreases |wakeups| - i
      {
        match wakeups[i] {
          case Interrupted =>
            running := false;
            return;
          case CloseCalled =>
            Close();
          case Tick(len, read, now) =>
            Poll(len, read, now);
        }
        i := i + 1;
      }
    }
  }

  /**
    A caller's view: two growth cycles, then two calls of `close()`; the
    contracts above are all it needs to know what `getLast()` returns.
   */
  method TwoCyclesThenClose()
  {
    var tailer := new MetricsFileTailer("accumulo", "/tmp/metrics.txt");
    tailer.Poll(6, Lines(["A", "B", "C"], 6), 1);
    tailer.Poll(10, Lines(["D", "E"], 10), 2);
    TailProperties.TwoCycleScenario();
    var last := tailer.GetLast();
    assert last == Some("E");
    assert tailer.GetLastUpdate() == 2;
    tailer.Close();
    tailer.Close();
    assert !tailer.running && tailer.GetLast() == Some("E");
  }
}
