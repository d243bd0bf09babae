/**
  The tailing state machine of MetricsFileTailer, as values.

  The poller keeps a fixed ring of BUFFER_SIZE = 4 line slots, a counter of
  the lines stored since the last reset, the byte position up to which the
  file has been consumed, a freshness marker and a running flag. One cycle
  of the polling loop compares the file length with the consumed position,
  clears the ring on truncation, and appends every line read on growth.

  The file itself is abstracted: a cycle is given the file length and the
  outcome of reading from the consumed position (the lines `readLine`
  returned and the final file pointer, or the lines read before an I/O
  error). The clock is abstracted as an opaque `now` value.
 */
module TailSpec {

  datatype Option<T> = None | Some(value: T)

  /** BUFFER_SIZE: how many lines the ring keeps. */
  const BufferSize: nat := 4

  /** The ring `lineBuffer`; a Java `null` slot is `None`. */
  type Ring = s: seq<Option<string>> | |s| == BufferSize witness [None, None, None, None]

  /** The ring as allocated by `new String[BUFFER_SIZE]`: every slot null. */
  const Unset: Ring := [None, None, None, None]

  /** The ring after the truncation reset: every slot the empty string. */
  const Cleared: Ring := [Some(""), Some(""), Some(""), Some("")]

  /** The slot that the line with sequence number `seqNo` is written to. */
  function SlotOf(seqNo: nat): (k: nat)
    ensures k < BufferSize
  {
    seqNo % BufferSize
  }

  /**
    The slot `getLast()` reads: `(lineCounter % BUFFER_SIZE) - 1`, or
    BUFFER_SIZE - 1 when that is negative. The counter is never negative
    here, so Java's remainder and Dafny's agree.
   */
  function LastSlot(lineCounter: nat): (k: nat)
    ensures k < BufferSize
    ensures lineCounter > 0 ==> k == SlotOf(lineCounter - 1)
    ensures lineCounter == 0 ==> k == BufferSize - 1
  {
    var last := lineCounter % BufferSize - 1;
    if last < 0 then BufferSize - 1 else last
  }

  /** One append, `lineBuffer[lineCounter++ % BUFFER_SIZE] = line`, on the ring alone. */
  function Store(buf: Ring, lineCounter: nat, line: string): (r: Ring)
    ensures r[SlotOf(lineCounter)] == Some(line)
    ensures forall i :: 0 <= i < BufferSize && i != SlotOf(lineCounter) ==> r[i] == buf[i]
  {
    buf[SlotOf(lineCounter) := Some(line)]
  }

  /** The ring after appending `lines` in order, the first one with sequence number `lineCounter`. */
  function StoreAll(buf: Ring, lineCounter: nat, lines: seq<string>): Ring
    decreases |lines|
  {
    if lines == [] then buf
    else
      var n := |lines| - 1;
      Store(StoreAll(buf, lineCounter, lines[..n]), lineCounter + n, lines[n])
  }

  /**
    An independent description of the ring after `lines` were appended from
    sequence number `lineCounter`: slot `i` was last written `age` appends
    ago, where `age` is the distance back to the most recent sequence number
    congruent to `i`; if that goes back before the first of `lines`, the slot
    still holds what it held before.
   */
  function Window(buf: Ring, lineCounter: nat, lines: seq<string>): Ring
  {
    seq(BufferSize, i requires 0 <= i < BufferSize =>
      var age := SlotAge(lineCounter + |lines|, i);
      if age < |lines| then Some(lines[|lines| - 1 - age]) else buf[i])
  }

  /**
    How many appends ago slot `i` was last written, once `lineCounter` lines
    have been appended in all: 0 for the slot of the most recent line.
   */
  function SlotAge(lineCounter: nat, i: nat): nat
    requires i < BufferSize
  {
    (lineCounter + BufferSize - 1 - i) % BufferSize
  }

  /** The state the tailer keeps between two cycles of its loop. */
  datatype TailState = TailState(
    buf: Ring,           // lineBuffer
    lineCounter: nat,    // lines stored since construction or the last truncation
    filePos: nat,        // bytes of the file consumed by the loop
    lastUpdate: int,     // the freshness marker
    running: bool)       // cleared by close() or an interrupted sleep

  /** The state of a new tailer (before its loop starts). */
  const Initial: TailState := TailState(Unset, 0, 0, 0, true)

  /** `getLast()`: the slot that holds the most recently appended line. */
  function Latest(s: TailState): Option<string>
  {
    s.buf[LastSlot(s.lineCounter)]
  }

  /**
    What reading the file from `filePos` produced: either every line up to
    end of file and the final file pointer, or the lines read before an
    I/O error (none, if the file could not even be opened).
   */
  datatype Read = Lines(lines: seq<string>, endPos: nat) | Failed(linesBefore: seq<string>)

  function LinesOf(read: Read): seq<string>
  {
    match read
    case Lines(lines, _) => lines
    case Failed(lines) => lines
  }

  /** The truncation check of a cycle: `len < filePos` resets the position, the ring and the counter. */
  function Truncate(s: TailState, len: nat): TailState
  {
    if len < s.filePos then s.(filePos := 0, buf := Cleared, lineCounter := 0) else s
  }

  /** The growth step of a cycle, on a state already past the truncation check. */
  function Grow(t: TailState, len: nat, read: Read, now: int): TailState
  {
    if len > t.filePos then
      var lines := LinesOf(read);
      var appended := t.(buf := StoreAll(t.buf, t.lineCounter, lines),
                         lineCounter := t.lineCounter + |lines|);
      match read
      case Lines(_, endPos) => appended.(lastUpdate := now, filePos := endPos)
      case Failed(_) => appended
    else t
  }

  /** One cycle of the loop after its sleep: the file has length `len`. */
  function Cycle(s: TailState, len: nat, read: Read, now: int): TailState
  {
    Grow(Truncate(s, len), len, read, now)
  }

  /** `close()`. */
  function Close(s: TailState): TailState
  {
    s.(running := false)
  }

  /**
    One interleaving of the loop with its surroundings: the loop's sleep
    ends and a cycle runs (`Tick`), the sleep is interrupted (`Interrupted`),
    or the `while (running.get())` check finds `running` cleared by a
    `close()` from another thread (`CloseCalled`). `close()` does not cut a
    sleep short, so a `close()` that arrives during a sleep is followed by
    that sleep's cycle: it is written `Tick` then `CloseCalled`.
   */
  datatype Wakeup = Tick(len: nat, read: Read, now: int) | Interrupted | CloseCalled

  /** The `while (running.get())` loop, fed the wake-ups in order; it stops once `running` is false. */
  function RunLoop(s: TailState, wakeups: seq<Wakeup>): TailState
    decreases |wakeups|
  {
    if !s.running || wakeups == [] then s
    else
      match wakeups[0]
      case Interrupted => Close(s)
      case CloseCalled => RunLoop(Close(s), wakeups[1..])
      case Tick(len, read, now) => RunLoop(Cycle(s, len, read, now), wakeups[1..])
  }

  /** `run()`: its local `filePos` starts at 0. */
  function Run(s: TailState, wakeups: seq<Wakeup>): TailState
  {
    RunLoop(s.(filePos := 0), wakeups)
  }
}
