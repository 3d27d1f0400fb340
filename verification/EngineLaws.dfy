/** The engine as a machine of what its users see: writes, memtables, and the snapshots they hold. */
module EngineLaws {
  import opened Options
  import opened Bytes
  import opened WriteBatches
  import opened WriteQueueSpec
  import opened WriteQueueLaws
  import opened EngineSpec
  import CompactionRuns
  import Overlap

  // A step of the write queue, of the background thread, or of a holder of snapshots.
  datatype EngineStep =
    | Queue(step: Step)
    | FlushMemTable(limits: CompactionRuns.Limits)
    | PickedCompaction(level: nat, which: nat, limits: CompactionRuns.Limits, shouldStopBefore: nat -> bool, bigEnough: nat -> bool)
    | RangeCompaction(level: nat, range: Overlap.Range, limits: CompactionRuns.Limits, shouldStopBefore: nat -> bool, bigEnough: nat -> bool)
    | TakeSnapshot
    | Release(which: nat)

  // The queue of writers, how many entries are in earlier memtables and how many of those are in tables, and the
  // snapshots that are held, oldest first.
  datatype EngineState = EngineState(queue: State, older: nat, flushed: nat, held: seq<nat>)

  const FRESH := EngineState(START, 0, 0, [])

  // What a step does. The memtable is not changed for another while there is one to be written out.
  function EngineNext(s: EngineState, step: EngineStep): (r: EngineState)
    requires s.queue.Sane()
    ensures r.queue.Sane()
  {
    match step
    case Queue(q) =>
      if q.Front? && q.switchMemTable && s.flushed < s.older then s
      else s.(queue := Next(s.queue, q), older := if Switches(s.queue, q) then |s.queue.entries| else s.older)
    case FlushMemTable(_) => s.(flushed := s.older)
    case TakeSnapshot => s.(held := s.held + [s.queue.last])
    case Release(which) => if which < |s.held| then s.(held := s.held[..which] + s.held[which + 1..]) else s
    case _ => s
  }

  function EngineAfter(s: EngineState, steps: seq<EngineStep>): (r: EngineState)
    requires s.queue.Sane()
    ensures r.queue.Sane()
  {
    if steps == [] then s else EngineNext(EngineAfter(s, steps[..|steps| - 1]), steps[|steps| - 1])
  }

  lemma {:induction false} EngineAfterConcat(s: EngineState, a: seq<EngineStep>, b: seq<EngineStep>)
    requires s.queue.Sane()
    ensures EngineAfter(s, a + b) == EngineAfter(EngineAfter(s, a), b)
  {
    hide EngineNext;
    if b == [] {
      assert a + b == a;
    } else {
      var n := |b| - 1;
      assert (a + b)[..|a| + n] == a + b[..n];
      EngineAfterConcat(s, a, b[..n]);
    }
  }

  // ----- writes -----

  predicate AllSmooth(steps: seq<EngineStep>) {
    forall i :: 0 <= i < |steps| && steps[i].Queue? ==> Smooth(steps[i].step)
  }

  /** No write fails unless something does. */
  lemma {:induction false} NoWriteFails(s: EngineState, steps: seq<EngineStep>)
    requires s.queue.Sane() && AllWell(s.queue) && AllSmooth(steps)
    ensures AllWell(EngineAfter(s, steps).queue)
  {
    hide Next;
    if steps != [] {
      var n := |steps| - 1;
      NoWriteFails(s, steps[..n]);
      if steps[n].Queue? {
        SmoothStep(EngineAfter(s, steps[..n]).queue, steps[n].step);
      }
    }
  }

  // ----- snapshots -----

  predicate NoRelease(steps: seq<EngineStep>) {
    forall i :: 0 <= i < |steps| ==> !steps[i].Release?
  }

  // What is written later has larger numbers than what anyone can see by now.
  ghost predicate OnlyLater(s: State, r: State) {
    && s.last <= r.last && s.entries <= r.entries
    && forall i :: |s.entries| <= i < |r.entries| ==> r.entries[i].0 > s.last
  }

  lemma LaterStep(s: State, step: Step)
    requires s.Sane()
    ensures OnlyLater(s, Next(s, step))
  {
    hide Led;
    if step.Apply? && s.group.Group? && s.group.stage == Synced {
      var more := Applied(s.group.status, s.last + 1, s.Updates());
      NumbersFrom(s.group.status, s.last + 1, s.Updates());
      assert Next(s, step).entries == s.entries + more;
    }
    LeadsKeep(s, step);
  }

  lemma LeadsKeep(s: State, step: Step)
    requires s.Sane()
    ensures step.Front? && s.waiting != [] ==> Led(s, step.room).entries == s.entries && Led(s, step.room).last == s.last
  {
  }

  lemma NumbersFrom(status: Status, s: nat, ops: seq<Op>)
    ensures forall i :: 0 <= i < |Applied(status, s, ops)| ==> Applied(status, s, ops)[i].0 >= s
  {
  }

  // Snapshots that are held stay held, and what is written has larger numbers.
  lemma {:induction false} StillHeld(s: EngineState, steps: seq<EngineStep>)
    requires s.queue.Sane() && NoRelease(steps)
    ensures s.held <= EngineAfter(s, steps).held && OnlyLater(s.queue, EngineAfter(s, steps).queue)
  {
    hide Next, Led;
    if steps != [] {
      var n := |steps| - 1;
      StillHeld(s, steps[..n]);
      var r := EngineAfter(s, steps[..n]);
      if steps[n].Queue? {
        LaterStep(r.queue, steps[n].step);
        LaterTwice(s.queue, r.queue, Next(r.queue, steps[n].step));
      }
    }
  }

  lemma LaterTwice(s: State, r: State, t: State)
    requires OnlyLater(s, r) && OnlyLater(r, t)
    ensures OnlyLater(s, t)
  {
  }

  lemma {:induction false} LaterWritesUnseen(ws: seq<Write>, more: seq<Write>, key: seq<Byte>, s: nat)
    requires forall i :: 0 <= i < |more| ==> more[i].0 > s
    ensures LastWrite(ws + more, key, s) == LastWrite(ws, key, s)
  {
    if more == [] {
      assert ws + more == ws;
    } else {
      var n := |more| - 1;
      assert (ws + more)[..|ws| + n] == ws + more[..n];
      LaterWritesUnseen(ws, more[..n], key, s);
    }
  }

  lemma Taken(s: EngineState, before: seq<EngineStep>) returns (r: EngineState)
    requires s.queue.Sane()
    ensures r == EngineAfter(s, before + [TakeSnapshot])
    ensures var b := EngineAfter(s, before); r == b.(held := b.held + [b.queue.last])
  {
    assert (before + [TakeSnapshot])[..|before|] == before;
    r := EngineNext(EngineAfter(s, before), TakeSnapshot);
  }

  /** A snapshot that is taken is held until one is released, with the number of the last write that had ended; and what is
      read at it stays what it was, whatever is written, flushed or compacted meanwhile. */
  lemma SnapshotReads(before: seq<EngineStep>, later: seq<EngineStep>, key: seq<Byte>)
    requires NoRelease(later)
    ensures var taken, now := EngineAfter(FRESH, before), EngineAfter(FRESH, before + [TakeSnapshot] + later);
            && |taken.held| < |now.held| && now.held[|taken.held|] == taken.queue.last
            && LastWrite(now.queue.entries, key, taken.queue.last) == LastWrite(taken.queue.entries, key, taken.queue.last)
  {
    hide EngineAfter, EngineNext, Next, LastWrite;
    var taken := EngineAfter(FRESH, before);
    var s := Taken(FRESH, before);
    EngineAfterConcat(FRESH, before + [TakeSnapshot], later);
    StillHeld(s, later);
    var now := EngineAfter(s, later);
    var more := now.queue.entries[|taken.queue.entries|..];
    assert now.queue.entries == taken.queue.entries + more;
    LaterWritesUnseen(taken.queue.entries, more, key, taken.queue.last);
  }

  /** Releasing one lets exactly it go. */
  lemma ReleasedIsGone(s: EngineState, which: nat)
    requires s.queue.Sane() && which < |s.held|
    ensures var r := EngineNext(s, Release(which));
            r.queue == s.queue && |r.held| == |s.held| - 1 && forall i :: 0 <= i < |r.held| ==> r.held[i] == s.held[if i < which then i else i + 1]
  {
  }
}
