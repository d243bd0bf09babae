/**
  What the tailing state machine guarantees: where each appended line
  lands in the ring, which lines survive, what `getLast()` returns, what a
  truncation, a growth and an idle cycle do, and how shutdown stops the loop.
 */
module TailProperties {
  import opened TailSpec

  // ---------------------------------------------------------------------------
  // The ring

  /** Appending `lines` one by one leaves the ring described by Window. */
  lemma {:induction false} StoreAllIsWindow(buf: Ring, lineCounter: nat, lines: seq<string>)
    ensures StoreAll(buf, lineCounter, lines) == Window(buf, lineCounter, lines)
    decreases |lines|
  {
    if lines != [] {
      var n := |lines| - 1;
      StoreAllIsWindow(buf, lineCounter, lines[..n]);
      forall i | 0 <= i < BufferSize
        ensures Store(Window(buf, lineCounter, lines[..n]), lineCounter + n, lines[n])[i]
             == Window(buf, lineCounter, lines)[i]
      {
        WindowStep(buf, lineCounter, lines, i);
      }
    }
  }

  /** Slot `i` of the window after one more append. */
  lemma WindowStep(buf: Ring, lineCounter: nat, lines: seq<string>, i: nat)
    requires lines != [] && i < BufferSize
    ensures var n := |lines| - 1;
      Store(Window(buf, lineCounter, lines[..n]), lineCounter + n, lines[n])[i]
        == Window(buf, lineCounter, lines)[i]
  {
    var n := |lines| - 1;
    var age := SlotAge(lineCounter + n + 1, i);
    var prevAge := SlotAge(lineCounter + n, i);
    AgeAdvances(lineCounter + n, i);
    if i != SlotOf(lineCounter + n) && prevAge < n {
      assert lines[..n][n - 1 - prevAge] == lines[n - age];
    }
  }

  /**
    One more append makes every slot one append older, except the slot it
    writes, whose age becomes zero.
   */
  lemma AgeAdvances(seqNo: nat, i: nat)
    requires i < BufferSize
    ensures i == SlotOf(seqNo) ==> SlotAge(seqNo + 1, i) == 0
    ensures i != SlotOf(seqNo) ==> SlotAge(seqNo + 1, i) == SlotAge(seqNo, i) + 1
  {
    var q := seqNo / BufferSize;
    var k := seqNo % BufferSize;
    assert seqNo == BufferSize * q + k;
    if i <= k {
      assert seqNo + BufferSize - i == BufferSize * (q + 1) + (k - i);
    } else {
      assert seqNo + BufferSize - i == BufferSize * q + (BufferSize + k - i);
    }
  }

  /** Appending two batches in turn is appending their concatenation. */
  lemma {:induction false} StoreAllConcat(buf: Ring, lineCounter: nat, first: seq<string>, second: seq<string>)
    ensures StoreAll(buf, lineCounter, first + second)
         == StoreAll(StoreAll(buf, lineCounter, first), lineCounter + |first|, second)
    decreases |second|
  {
    if second == [] {
      assert first + second == first;
    } else {
      var n := |second| - 1;
      assert (first + second)[..|first| + n] == first + second[..n];
      StoreAllConcat(buf, lineCounter, first, second[..n]);
    }
  }

  /**
    After `lines` are appended from sequence number `lineCounter`, each of
    the last (at most) four of them sits in the slot of its sequence number,
    and a slot that none of them reached keeps its former content.
   */
  lemma StoreAllKeepsLastLines(buf: Ring, lineCounter: nat, lines: seq<string>)
    ensures var r := StoreAll(buf, lineCounter, lines);
      forall j :: 0 <= j < |lines| && |lines| - j <= BufferSize ==> r[SlotOf(lineCounter + j)] == Some(lines[j])
    ensures var r := StoreAll(buf, lineCounter, lines);
      forall i :: 0 <= i < BufferSize && SlotAge(lineCounter + |lines|, i) >= |lines| ==> r[i] == buf[i]
  {
    StoreAllIsWindow(buf, lineCounter, lines);
    var r := StoreAll(buf, lineCounter, lines);
    forall j | 0 <= j < |lines| && |lines| - j <= BufferSize
      ensures r[SlotOf(lineCounter + j)] == Some(lines[j])
    {
      AgeOfRecentLine(lineCounter + j, lineCounter + |lines|);
    }
    forall i | 0 <= i < BufferSize && SlotAge(lineCounter + |lines|, i) >= |lines|
      ensures r[i] == buf[i]
    {
    }
  }

  /** The slot of one of the last four lines was last written by that line. */
  lemma AgeOfRecentLine(seqNo: nat, total: nat)
    requires seqNo < total <= seqNo + BufferSize
    ensures SlotAge(total, SlotOf(seqNo)) == total - 1 - seqNo
  {
    var q := seqNo / BufferSize;
    var k := seqNo % BufferSize;
    assert seqNo == BufferSize * q + k;
    assert total + BufferSize - 1 - k == BufferSize * q + BufferSize + (total - 1 - seqNo);
  }

  /**
    Once four or more lines have been appended, every slot holds one of the
    last four of them: all older lines are overwritten.
   */
  lemma EvictsOlderLines(buf: Ring, lineCounter: nat, lines: seq<string>)
    requires |lines| >= BufferSize
    ensures var r := StoreAll(buf, lineCounter, lines);
      forall i :: 0 <= i < BufferSize ==>
        exists j :: |lines| - BufferSize <= j < |lines| && r[i] == Some(lines[j])
  {
    StoreAllIsWindow(buf, lineCounter, lines);
    var r := StoreAll(buf, lineCounter, lines);
    forall i | 0 <= i < BufferSize
      ensures exists j :: |lines| - BufferSize <= j < |lines| && r[i] == Some(lines[j])
    {
      var age := SlotAge(lineCounter + |lines|, i);
      var j := |lines| - 1 - age;
      assert r[i] == Some(lines[j]);
    }
  }

  /** The slot `getLast()` reads after some appends holds the last line appended. */
  lemma LatestIsLastStored(buf: Ring, lineCounter: nat, lines: seq<string>)
    requires lines != []
    ensures StoreAll(buf, lineCounter, lines)[LastSlot(lineCounter + |lines|)] == Some(lines[|lines| - 1])
  {
  }

  // ---------------------------------------------------------------------------
  // The lines stored since the last reset

  /**
    `s` holds `history`, the lines appended since the ring was last filled
    with `base` (at construction or by a truncation): the counter is their
    number and the ring is what appending them to `base` from slot 0 gives.
   */
  ghost predicate Holds(s: TailState, base: Ring, history: seq<string>)
  {
    s.lineCounter == |history| && s.buf == StoreAll(base, 0, history)
  }

  lemma InitialHoldsNothing()
    ensures Holds(Initial, Unset, [])
    ensures Latest(Initial) == None
  {
  }

  /**
    A cycle keeps the state tied to the lines since the last reset: a
    truncation starts a new history over the cleared ring, and growth
    extends it by the lines read (also when an I/O error cut the read short).
   */
  lemma CycleHolds(s: TailState, base: Ring, history: seq<string>, len: nat, read: Read, now: int)
    requires Holds(s, base, history)
    ensures var truncated := len < s.filePos;
      var grew := len > Truncate(s, len).filePos;
      Holds(Cycle(s, len, read, now),
            if truncated then Cleared else base,
            (if truncated then [] else history) + (if grew then LinesOf(read) else []))
  {
    var t := Truncate(s, len);
    var h := if len < s.filePos then [] else history;
    var b := if len < s.filePos then Cleared else base;
    assert Holds(t, b, h);
    if len > t.filePos {
      StoreAllConcat(b, 0, h, LinesOf(read));
    } else {
      assert h + [] == h;
    }
  }

  /** What `getLast()` returns: the last line since the last reset, or the reset's fill value. */
  lemma HeldLatest(s: TailState, base: Ring, history: seq<string>)
    requires Holds(s, base, history)
    ensures history == [] ==> Latest(s) == base[BufferSize - 1]
    ensures history != [] ==> Latest(s) == Some(history[|history| - 1])
  {
  }

  // ---------------------------------------------------------------------------
  // One cycle of the polling loop

  /** When the length equals the consumed position, a cycle changes nothing. */
  lemma IdleCycleChangesNothing(s: TailState, len: nat, read: Read, now: int)
    requires len == s.filePos
    ensures Cycle(s, len, read, now) == s
  {
  }

  /**
    A shorter file resets the position, the ring and the counter before any
    growth handling: lines read next start again at slot 0, and if none are
    read `getLast()` returns the empty string.
   */
  lemma TruncationResets(s: TailState, len: nat, read: Read, now: int)
    requires len < s.filePos
    ensures var t := Cycle(s, len, read, now);
      var lines := if len > 0 then LinesOf(read) else [];
      t.buf == StoreAll(Cleared, 0, lines) && t.lineCounter == |lines| && t.running == s.running
    ensures len == 0 ==> Cycle(s, len, read, now).filePos == 0
    ensures len > 0 && read.Lines? ==> Cycle(s, len, read, now).filePos == read.endPos
    ensures len > 0 && read.Failed? ==> Cycle(s, len, read, now).filePos == 0
    ensures len == 0 || LinesOf(read) == [] ==> Latest(Cycle(s, len, read, now)) == Some("")
  {
  }

  /**
    A growth cycle, also one that follows a truncation in the same poll,
    appends every line read after those left by the truncation check; a
    complete read stamps the freshness marker with `now` and moves the
    position to the final file pointer, an interrupted one does neither
    (the position stays where the truncation check left it).
   */
  lemma GrowthAppends(s: TailState, len: nat, read: Read, now: int)
    requires len > Truncate(s, len).filePos
    ensures var t0 := Truncate(s, len);
      var t := Cycle(s, len, read, now);
      t.buf == StoreAll(t0.buf, t0.lineCounter, LinesOf(read))
      && t.lineCounter == t0.lineCounter + |LinesOf(read)|
      && t.running == s.running
      && (read.Lines? ==> t.lastUpdate == now && t.filePos == read.endPos)
      && (read.Failed? ==> t.lastUpdate == s.lastUpdate && t.filePos == t0.filePos)
  {
  }

  /** After a growth cycle that read at least one line, `getLast()` returns the last of them. */
  lemma GrowthLatest(s: TailState, len: nat, read: Read, now: int)
    requires len > Truncate(s, len).filePos
    requires LinesOf(read) != []
    ensures Latest(Cycle(s, len, read, now)) == Some(LinesOf(read)[|LinesOf(read)| - 1])
  {
  }

  /**
    The freshness marker is set to `now` exactly in a cycle whose read of
    new content ran to the end, and otherwise keeps its value.
   */
  lemma MarkerStampedOnGrowth(s: TailState, len: nat, read: Read, now: int)
    ensures Cycle(s, len, read, now).lastUpdate
         == if len > Truncate(s, len).filePos && read.Lines? then now else s.lastUpdate
  {
  }

  // ---------------------------------------------------------------------------
  // Shutdown

  /** `close()` only clears `running`, and a second call has no further effect. */
  lemma CloseIdempotent(s: TailState)
    ensures !Close(s).running
    ensures Close(s) == s.(running := false)
    ensures Close(Close(s)) == Close(s)
  {
  }

  /** A loop that finds `running` false performs no cycle. */
  lemma StoppedLoopDoesNothing(s: TailState, wakeups: seq<Wakeup>)
    requires !s.running
    ensures RunLoop(s, wakeups) == s
  {
  }

  /**
    Once the loop has been interrupted or closed, it performs no further
    cycle: whatever wake-ups follow, the result is the state reached before
    the stop, with `running` cleared.
   */
  lemma {:induction false} NoCycleAfterStop(s: TailState, before: seq<Wakeup>, stop: Wakeup, after: seq<Wakeup>)
    requires stop.Interrupted? || stop.CloseCalled?
    ensures RunLoop(s, before + [stop] + after) == Close(RunLoop(s, before))
    decreases |before|
  {
    var all := before + [stop] + after;
    if !s.running {
    } else if before == [] {
      assert all[0] == stop && all[1..] == after;
    } else {
      assert all[0] == before[0];
      assert all[1..] == before[1..] + [stop] + after;
      match before[0]
      case Interrupted =>
      case CloseCalled =>
        StoppedLoopDoesNothing(Close(s), before[1..] + [stop] + after);
      case Tick(len, read, now) =>
        NoCycleAfterStop(Cycle(s, len, read, now), before[1..], stop, after);
    }
  }

  /**
    A `close()` that arrives while the loop sleeps does not stop the cycle
    after that sleep: the cycle runs, then the loop stops.
   */
  lemma CloseDuringSleep(s: TailState, len: nat, read: Read, now: int, after: seq<Wakeup>)
    requires s.running
    ensures RunLoop(s, [Tick(len, read, now), CloseCalled] + after) == Close(Cycle(s, len, read, now))
  {
    NoCycleAfterStop(s, [Tick(len, read, now)], CloseCalled, after);
  }

  /** Cycles alone never clear `running`: while no stop arrives the loop keeps going. */
  lemma {:induction false} TicksKeepRunning(s: TailState, wakeups: seq<Wakeup>)
    requires s.running
    requires forall k :: 0 <= k < |wakeups| ==> wakeups[k].Tick?
    ensures RunLoop(s, wakeups).running
    decreases |wakeups|
  {
    if wakeups != [] {
      var w := wakeups[0];
      TicksKeepRunning(Cycle(s, w.len, w.read, w.now), wakeups[1..]);
    }
  }

  // ---------------------------------------------------------------------------
  // Two scenarios

  /**
    An empty file gains "A", "B", "C" in one cycle and "D", "E" in the next:
    `getLast()` returns "E" and the ring holds B, C, D, E (A is evicted).
   */
  lemma TwoCycleScenario()
    ensures var s1 := Cycle(Initial, 6, Lines(["A", "B", "C"], 6), 1);
      var s2 := Cycle(s1, 10, Lines(["D", "E"], 10), 2);
      Latest(s2) == Some("E") && s2.buf == [Some("E"), Some("B"), Some("C"), Some("D")]
      && s2.lineCounter == 5 && s2.filePos == 10 && s2.lastUpdate == 2
  {
    var abc := ["A", "B", "C"];
    var de := ["D", "E"];
    StoreAllIsWindow(Unset, 0, abc);
    var b1 := StoreAll(Unset, 0, abc);
    assert b1 == [Some("A"), Some("B"), Some("C"), None];
    StoreAllIsWindow(b1, 3, de);
    assert StoreAll(b1, 3, de) == [Some("E"), Some("B"), Some("C"), Some("D")];
  }

  /**
    Ten lines are read, then the file is truncated to length zero: `getLast()`
    returns "" after the reset cycle, and once "X" is written it returns "X",
    which lands in slot 0 because the counter was reset.
   */
  lemma TruncationScenario(ten: seq<string>)
    requires |ten| == 10
    ensures var s1 := Cycle(Initial, 100, Lines(ten, 100), 1);
      var s2 := Cycle(s1, 0, Failed([]), 2);
      var s3 := Cycle(s2, 2, Lines(["X"], 2), 3);
      Latest(s2) == Some("") && Latest(s3) == Some("X") && s3.buf[0] == Some("X") && s3.lineCounter == 1
  {
  }
}
