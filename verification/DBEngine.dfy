/** The whole engine: the write queue with its memtables, the tables below them, compactions and snapshots. */
module Engines {
  import opened Options
  import opened Bytes
  import opened WriteBatches
  import opened WriteQueueSpec
  import opened WriteQueue
  import opened ByteOrder
  import opened InternalKeys
  import opened LsmTree
  import opened CompactionSpec
  import opened CompactionRuns
  import opened Flushes
  import opened NextVersions
  import opened EngineSpec
  import opened EngineLaws
  import opened WriteQueueLaws
  import opened TablesSpec
  import Overlap
  import CompactionReads

  class Engine {
    const db: DBImpl
    var version: Version
    var flushed: nat       // how many of the earlier memtables' entries are in tables
    var nextFile: nat
    var held: seq<nat>     // the snapshots, oldest first
    ghost var low: nat     // no compaction has dropped what can be seen from here on

    ghost predicate Valid()
      reads this, db, db.batches, db.tmpBatch, db.mem
    {
      && db.Valid() && flushed <= |db.older|
      && Tabled(version, EntriesOf(db.older[..flushed]), low) && NumbersBelow(version, nextFile)
      && low <= db.lastSequence && HeldOk(held, low, db.lastSequence)
    }

    // What the engine is as a machine.
    ghost function Machine(): EngineState
      reads this, db, db.mem
    {
      EngineState(db.Machine(), |db.older|, flushed, held)
    }

    constructor ()
      ensures Machine() == FRESH
      ensures Valid() && db.History() == [] && held == [] && db.lastSequence == 0
      ensures fresh(db) && fresh(db.tmpBatch) && fresh(db.mem) && db.batches == {}
    {
      hide DBImpl.Valid, Tabled, NumbersBelow;
      db := new DBImpl();
      version, flushed, nextFile, held, low := EMPTY_VERSION, 0, 0, [], 0;
      new;
      NothingTabled();
      assert EntriesOf(db.older[..0]) == [];
    }

    // ----- reading -----

    // What a read finds: in the memtable, else in the one that is to be written out, else in the tables.
    ghost function ReadAt(key: seq<Byte>, s: nat): Option<InternalKeys.Bytes>
      reads this, db, db.mem
      requires flushed <= |db.older| && Searchable(version)
    {
      var k := Rank(key);
      var inMem, inImm := Probe(FileOf(0, EntriesOf(db.mem.entries)), k, s), Probe(FileOf(0, EntriesOf(db.older[flushed..])), k, s);
      ReadOf(if inMem.Some? then inMem else if inImm.Some? then inImm else SearchFrom(version, 0, k, s))
    }

    method Get(key: seq<Byte>, s: nat) returns (r: Option<InternalKeys.Bytes>)
      requires Valid()
      ensures Searchable(version) && r == ReadAt(key, s)
    {
      hide Probe, SearchFrom, Rank, Tidy, ReadsAgree, NumbersBelow, DBImpl.Valid;
      TidyShape(version);
      var found := Probe(FileOf(0, EntriesOf(db.mem.entries)), Rank(key), s);
      if found.None? {
        found := Probe(FileOf(0, EntriesOf(db.older[flushed..])), Rank(key), s);
      }
      if found.None? {
        found := SearchFrom(version, 0, Rank(key), s);
      }
      r := ReadOf(found);
    }

    /** A read finds the last write of the key in the serial history, for every number that is still good. */
    lemma ReadsAreSerial(key: seq<Byte>, s: nat)
      requires Valid() && low <= s <= db.lastSequence
      ensures Searchable(version) && ReadAt(key, s) == LastWrite(Serial(db.done), key, s)
    {
      hide Serial, LastWrite, LastSeen, Probe, SearchFrom, Rank, Tidy, ReadsAgree, NumbersBelow, DBImpl.Valid, ByKey, Rising;
      MemtablesRise();
      ProbeIsLast(0, EntriesOf(db.mem.entries), Rank(key), s);
      ProbeIsLast(0, EntriesOf(db.older[flushed..]), Rank(key), s);
      ReadIsSerial(key, s);
    }

    lemma ReadOfHolder(key: seq<Byte>, s: nat)
      requires Valid() && (s == db.lastSequence || s in held)
      ensures Searchable(version) && flushed <= |db.older|
      ensures ReadAt(key, s) == LastWrite(Serial(db.done), key, s) == LastWrite(db.Entries(), key, s)
    {
      hide Serial, LastWrite, DBImpl.Valid, Tabled, NumbersBelow, ReadAt;
      ReadsAreSerial(key, s);
      SerialIsAll(key, s);
    }

    // What the group being written has added does not matter.
    lemma SerialIsAll(key: seq<Byte>, s: nat)
      requires Valid() && s <= db.lastSequence
      ensures LastWrite(db.Entries(), key, s) == LastWrite(Serial(db.done), key, s)
    {
      hide Serial, LastWrite, DBImpl.Valid, Tabled, NumbersBelow;
      db.EntriesInOrder();
      var serial, all := Serial(db.done), db.Entries();
      var behind := all[|serial|..];
      assert all == serial + behind;
      LaterWritesUnseen(serial, behind, key, s);
    }

    lemma MemtablesRise()
      requires Valid()
      ensures Rising(EntriesOf(db.older)) && Rising(EntriesOf(db.mem.entries)) && Rising(EntriesOf(db.older[flushed..]))
      ensures EntriesOf(db.older) == EntriesOf(db.older[..flushed]) + EntriesOf(db.older[flushed..])
    {
      hide DBImpl.Valid, Tabled, NumbersBelow, Rising;
      db.EntriesInOrder();
      IncreaseIsRising(db.Entries());
      EntriesConcat(db.older, db.mem.entries);
      RisingParts(EntriesOf(db.older), EntriesOf(db.mem.entries));
      assert db.older == db.older[..flushed] + db.older[flushed..];
      EntriesConcat(db.older[..flushed], db.older[flushed..]);
      RisingParts(EntriesOf(db.older[..flushed]), EntriesOf(db.older[flushed..]));
    }

    lemma ReadIsSerial(key: seq<Byte>, s: nat)
      requires Valid() && low <= s <= db.lastSequence
      ensures Searchable(version)
      ensures var k := Rank(key);
              LastWrite(Serial(db.done), key, s) ==
              ReadOf(if LastSeen(EntriesOf(db.mem.entries), k, s).Some? then LastSeen(EntriesOf(db.mem.entries), k, s)
                     else if LastSeen(EntriesOf(db.older[flushed..]), k, s).Some? then LastSeen(EntriesOf(db.older[flushed..]), k, s)
                     else SearchFrom(version, 0, k, s))
    {
      hide Serial, LastWrite, LastSeen, Rank, DBImpl.Valid, Tidy, NumbersBelow, SearchFrom;
      var k := Rank(key);
      db.EntriesInOrder();
      TidyShape(version);
      var serial, all := Serial(db.done), db.Entries();
      var behind := all[|serial|..];
      assert all == serial + behind;
      EntriesConcat(serial, behind);
      LaterUnseen(EntriesOf(serial), EntriesOf(behind), k, s);
      LastSeenIsWrite(serial, key, s);
      MemtablesRise();
      EntriesConcat(db.older, db.mem.entries);
      LastSeenConcat(EntriesOf(db.older), EntriesOf(db.mem.entries), k, s);
      LastSeenConcat(EntriesOf(db.older[..flushed]), EntriesOf(db.older[flushed..]), k, s);
      assert LsmTree.Get(version, k, s) == ReadOf(LastSeen(EntriesOf(db.older[..flushed]), k, s));
    }

    // ----- steps -----

    // A step of the write queue. The memtable is not changed for another while there is one to be written out.
    method TakeQueueStep(step: Step)
      requires Valid() && Callable(step) && db.lastSequence + 0x8000_0001 < LIMIT
      modifies db, db.tmpBatch, db.mem, db.batches
      ensures Valid() && old(db.lastSequence) <= db.lastSequence <= old(db.lastSequence) + 0x8000_0000
      ensures db.History() == old(db.History()) + match step case Call(ops, sync) => [Request(ops, sync)] case _ => []
      ensures fresh({db.mem} - old({db.mem})) && fresh(db.batches - old(db.batches))
      ensures old(db.Machine()).Sane() && Machine() == EngineNext(old(Machine()), Queue(step))
    {
      hide DBImpl.Valid, Tabled, NumbersBelow, Next;
      db.MachineSane();
      if step.Front? && step.switchMemTable && flushed < |db.older| {
        return;
      }
      TakeStep(db, step);
      assert db.older[..flushed] == old(db.older)[..flushed];
    }

    // Write the earlier memtable out.
    method Flush(limits: Limits) returns (level: nat)
      requires Valid() && db.lastSequence + 0x8000_0000 <= MAX_SEQUENCE
      modifies this`version, this`flushed, this`nextFile
      ensures Valid() && flushed == |db.older| && old(flushed) <= |db.older| && |old(version)| == NUM_LEVELS
      ensures old(flushed) == |db.older| ==> version == old(version) && nextFile == old(nextFile)
      ensures old(flushed) < |db.older| ==>
                && level < NUM_LEVELS && nextFile == old(nextFile) + 1 && Overlap.Nonempty(old(version)[level])
                && FileOf(old(nextFile), EntriesOf(db.older[old(flushed)..])).entries != []
                && version == WithFile(old(version), FileOf(old(nextFile), EntriesOf(db.older[old(flushed)..])), level)
      ensures VersionAfter(old(version), old(nextFile), EntriesOf(old(db.older[flushed..])), old(SmallestSnapshot()), FlushMemTable(limits), version)
    {
      hide DBImpl.Valid, Tidy, NumbersBelow, Rising, ReadsAgree, ByKey, WithFile, Clear;
      level := 0;
      TidyShape(version);
      if flushed == |db.older| {
        return;
      }
      ghost var es := EntriesOf(db.older[..flushed]);
      var more := EntriesOf(db.older[flushed..]);
      MemtablesRise();
      FileIsOk(nextFile, more);
      TablesFit();
      var f := FileOf(nextFile, more);
      level := PickLevelForMemTableOutput(version, KeyRange(f), limits.fileSize, limits.grandparents);
      FlushedIsTabled(version, es, low, more, nextFile, level);
      version := WithFile(version, f, level);
      flushed := |db.older|;
      nextFile := nextFile + 1;
      assert db.older[..flushed] == db.older;
    }

    lemma TablesFit()
      requires Valid() && db.lastSequence + 0x8000_0000 <= MAX_SEQUENCE
      ensures NumbersFit(version)
    {
      hide DBImpl.Valid, Tidy, NumbersBelow, ReadsAgree;
      db.EntriesInOrder();
      var es := EntriesOf(db.older[..flushed]);
      forall i | 0 <= i < |es|
        ensures 0 < es[i].key.sequence <= MAX_SEQUENCE
      {
        assert db.Entries()[i] == db.older[i];
      }
      TidyShape(version);
      EntriesAreThese(version, es);
    }

    // The oldest snapshot's number, or the last one given when there is none.
    function SmallestSnapshot(): nat
      reads this, db
    {
      if held == [] then db.lastSequence else held[0]
    }

    // A compaction in the background, taken when it cuts its outputs between user keys.
    method Compact(level: nat, trigger: Trigger, limits: Limits, shouldStopBefore: nat -> bool, bigEnough: nat -> bool)
        returns (c: Option<Compacted>, done: bool)
      requires Valid() && level + 1 < NUM_LEVELS && db.lastSequence + 0x8000_0000 <= MAX_SEQUENCE
      requires |version| == NUM_LEVELS && (trigger.Automatic? ==> trigger.picked in version[level])
      modifies this`version, this`nextFile, this`low
      ensures Valid()
      // It is not done only when there is nothing to do, or it would cut inside a user key.
      ensures if done then c.Some? && CompactionRuns.Step(old(version), c.value, version) else version == old(version)
      ensures !done && c.Some? ==> LevelOk(c.value.outputs) && !CutBetweenKeys(c.value.outputs)
      ensures CompactedTo(old(version), level, trigger, limits, old(SmallestSnapshot()), shouldStopBefore, bigEnough, old(nextFile), version)
      ensures trigger.Automatic? ==> c.Some? && trigger.picked in c.value.inputs0
      ensures c.None? ==> Overlap.Nonempty(old(version)[level]) && Overlap.Touching(old(version)[level], trigger.range) == []
    {
      hide DBImpl.Valid, Tabled, NumbersBelow, Shape, Compacts, CompactionReads.Inputs, Overlap.Chosen, WritingAfter, WithCompacted, CutBetweenKeys, Tidy, AskedFor, CompactionRuns.Step;
      VersionShape();
      var snap := SmallestSnapshot();
      var moved;
      c, moved := BackgroundCompaction(version, level, trigger, limits, snap, shouldStopBefore, bigEnough, nextFile);
      done := false;
      if c.None? {
        return;
      }
      if moved {
        Move(level, trigger.picked);
        OneFileIsCut(old(version), level, trigger.picked, version);
        done := true;
      } else {
        done := Replace(c.value, nextFile);
      }
    }

    lemma FlushedBefore()
      requires Valid()
      ensures flushed <= |db.older|
    {
    }

    lemma SaneToo()
      requires Valid()
      ensures db.Machine().Sane()
    {
      db.MachineSane();
    }

    lemma VersionShape()
      requires Valid()
      ensures Shape(version) && |version| == NUM_LEVELS && Tidy(version)
    {
      TidyShape(version);
    }

    // The file goes to the next level.
    method Move(level: nat, f: File)
      requires Valid() && level + 1 < NUM_LEVELS == |version| && db.lastSequence + 0x8000_0000 <= MAX_SEQUENCE
      requires CompactionReads.Inputs(version, level, [f], []) && Overlap.Chosen(version, level, [f])
      modifies this`version
      ensures Valid() && CompactionRuns.Step(old(version), Moved(level, f), version)
    {
      hide DBImpl.Valid, Tabled, NumbersBelow, CompactionRuns.Step, WithCompacted, Compacts;
      var c := Moved(level, f);
      AllNumbered(level, f);
      MoveIsCompaction(version, level, f);
      NotBelowToo(version, level, f);
      CompactedIsInstalled(version, c);
      var next := WithCompacted(version, c);
      CompactedIsTabled(version, EntriesOf(db.older[..flushed]), low, c, next, low);
      MovedNumber(level, f);
      CompactedNumbers(version, c, next, nextFile, nextFile);
      version := next;
    }

    lemma AllNumbered(level: nat, f: File)
      requires Valid() && level < NUM_LEVELS == |version| && f in version[level] && db.lastSequence + 0x8000_0000 <= MAX_SEQUENCE
      ensures forall i :: 0 <= i < |f.entries| ==> f.entries[i].key.sequence > 0
    {
      hide DBImpl.Valid, Tidy, NumbersBelow, ReadsAgree;
      db.EntriesInOrder();
      var es := EntriesOf(db.older[..flushed]);
      forall i | 0 <= i < |f.entries|
        ensures f.entries[i].key.sequence > 0
      {
        EntriesFromIn(version, 0, f.entries[i]);
        assert f.entries[i] in f.entries;
        assert f.entries[i] in LevelEntries(version[level]);
        assert f.entries[i] in Elements(es);
        var j :| 0 <= j < |es| && es[j] == f.entries[i];
        assert db.Entries()[j] == db.older[j];
      }
    }

    lemma MovedNumber(level: nat, f: File)
      requires NumbersBelow(version, nextFile) && level < |version| && f in version[level]
      ensures f.number < nextFile
    {
    }

    // The inputs give way to the outputs, if those are cut between user keys.
    method Replace(c: Compacted, number: nat) returns (done: bool)
      requires Valid() && |version| == NUM_LEVELS && Compacts(version, c) && number == nextFile && c.snap == SmallestSnapshot()
      requires c.level + 1 < NUM_LEVELS && exists pieces :: c.outputs == Named(pieces, number)
      modifies this`version, this`nextFile, this`low
      ensures Valid() && LevelOk(c.outputs) && (done <==> CutBetweenKeys(c.outputs))
      ensures if done then CompactionRuns.Step(old(version), c, version) && nextFile == old(nextFile) + |c.outputs| else version == old(version)
    {
      hide DBImpl.Valid, Tidy, ReadsAgree, NumbersBelow, CompactionRuns.Step, WithCompacted, Compacts, CutBetweenKeys;
      OutputsAreNew(version, c, number);
      CompactedIsInstalled(version, c);
      var next := WithCompacted(version, c);
      OutputsOk(version, c, next);
      done := CutsBetweenKeys(c.outputs);
      if !done {
        return;
      }
      ghost var low' := if c.snap > low then c.snap else low;
      CompactedIsTabled(version, EntriesOf(db.older[..flushed]), low, c, next, low');
      CompactedNumbers(version, c, next, nextFile, nextFile + |c.outputs|);
      version := next;
      nextFile := nextFile + |c.outputs|;
      low := low';
    }

    // Readers may come back to what they see now.
    method GetSnapshot() returns (s: nat)
      requires Valid()
      modifies this`held
      ensures Valid() && s == db.lastSequence && held == old(held) + [s]
    {
      s := db.lastSequence;
      held := held + [s];
    }

    method ReleaseSnapshot(i: nat)
      requires Valid() && i < |held|
      modifies this`held
      ensures Valid() && held == old(held[..i] + held[i + 1..])
    {
      hide DBImpl.Valid, Tabled, NumbersBelow;
      held := held[..i] + held[i + 1..];
    }
  }

  ghost predicate AllNonempty(v: Version) {
    |v| == NUM_LEVELS && forall l :: 0 <= l < NUM_LEVELS ==> Overlap.Nonempty(v[l])
  }

  // A compaction in the background is put in the version, if there is one and it cuts its outputs between user keys.
  ghost predicate CompactedTo(v: Version, level: nat, trigger: Trigger, limits: Limits, snap: nat,
                              stop: nat -> bool, big: nat -> bool, number: nat, v': Version)
    requires level + 1 < NUM_LEVELS
  {
    AllNonempty(v) && exists c {:trigger Background(v, level, trigger, limits, snap, stop, big, number, c)} ::
      && Background(v, level, trigger, limits, snap, stop, big, number, c)
      && if c.Some? && LevelOk(c.value.outputs) && CutBetweenKeys(c.value.outputs) then CompactionRuns.Step(v, c.value, v') else v' == v
  }

  // The memtable to be written out becomes a file, if there is one.
  ghost predicate FlushedTo(v: Version, number: nat, imm: seq<Entry>, limits: Limits, v': Version) {
    if imm == [] then v' == v
    else
      && AllNonempty(v) && FileOf(number, imm).entries != []
      && (exists level {:trigger WithFile(v, FileOf(number, imm), level)} ::
            && 0 <= level < NUM_LEVELS && v' == WithFile(v, FileOf(number, imm), level)
            && IsLevelFor(v, KeyRange(FileOf(number, imm)), limits.fileSize, limits.grandparents, level))
  }

  // What a step makes of the version, with the number of the next file, the memtable to be written out, and the
  // smallest snapshot. Steps that name no file or level that there is do nothing.
  ghost predicate VersionAfter(v: Version, number: nat, imm: seq<Entry>, snap: nat, step: EngineStep, v': Version) {
    match step
    case FlushMemTable(limits) => FlushedTo(v, number, imm, limits, v')
    case PickedCompaction(level, which, limits, stop, big) =>
      if level + 1 < NUM_LEVELS && level < |v| && which < |v[level]| then
        CompactedTo(v, level, Automatic(v[level][which]), limits, snap, stop, big, number, v')
      else v' == v
    case RangeCompaction(level, range, limits, stop, big) =>
      if level + 1 < NUM_LEVELS then CompactedTo(v, level, Manual(range), limits, snap, stop, big, number, v') else v' == v
    case _ => v' == v
  }

  // Snapshots are in order, between the two numbers.
  ghost predicate HeldOk(held: seq<nat>, low: nat, last: nat) {
    && (forall i :: 0 <= i < |held| ==> low <= held[i] <= last)
    && (forall i, j :: 0 <= i < j < |held| ==> held[i] <= held[j])
  }

  lemma IncreaseIsRising(ws: seq<Write>)
    requires NumbersIncrease(ws)
    ensures Rising(EntriesOf(ws))
  {
  }

  lemma EntriesAreThese(v: Version, es: seq<Entry>)
    requires |v| == NUM_LEVELS && AllEntries(v) <= Elements(es) && forall i :: 0 <= i < |es| ==> es[i].key.sequence <= MAX_SEQUENCE
    ensures NumbersFit(v)
  {
    forall l, i, j | 0 <= l < |v| && 0 <= i < |v[l]| && 0 <= j < |v[l][i].entries|
      ensures v[l][i].entries[j].key.sequence <= MAX_SEQUENCE
    {
      var e := v[l][i].entries[j];
      EntriesFromIn(v, 0, e);
      assert v[l][i] in v[l] && e in v[l][i].entries;
      assert e in LevelEntries(v[l]);
      assert e in Elements(es);
    }
  }

  // ----- what a compaction puts in -----

  lemma NotNewerThanItself(f: File)
    requires f.entries != []
    ensures !NewerFile(f, f)
  {
    assert f.entries[0] in f.entries;
  }

  lemma NotBelowToo(v: Version, level: nat, f: File)
    requires Shape(v) && level + 1 < NUM_LEVELS == |v| && CompactionReads.Inputs(v, level, [f], [])
    ensures OutputsNew(v, Moved(level, f))
  {
    OneInputIsOk(v, level, f);
    NotNewerThanItself(f);
    assert f in [f];
    assert NewerLevel(v[level], v[level + 1]);
  }

  lemma OutputsAreNew(v: Version, c: Compacted, number: nat)
    requires NumbersBelow(v, number) && |v| == NUM_LEVELS && c.level + 1 < NUM_LEVELS && exists pieces :: c.outputs == Named(pieces, number)
    ensures OutputsNew(v, c) && forall f :: f in c.outputs ==> f.number < number + |c.outputs|
  {
  }

  lemma OutputsOk(v: Version, c: Compacted, v': Version)
    requires Tidy(v) && CompactionRuns.Step(v, c, v')
    ensures LevelOk(c.outputs)
  {
    TidyStep(v, c, v');
  }

  lemma OneFileIsCut(v: Version, level: nat, f: File, v': Version)
    requires Tidy(v) && CompactionRuns.Step(v, Moved(level, f), v')
    ensures LevelOk([f]) && CutBetweenKeys([f])
  {
    OutputsOk(v, Moved(level, f), v');
  }

  method CutsBetweenKeys(outputs: Level) returns (clean: bool)
    requires LevelOk(outputs)
    ensures clean <==> CutBetweenKeys(outputs)
  {
    for i := 0 to |outputs|
      invariant forall j, next {:trigger outputs[j], outputs[next]} :: 0 <= j && next == j + 1 < |outputs| && next < i ==>
                  outputs[j].Largest().userKey != outputs[next].Smallest().userKey
    {
      if i > 0 && outputs[i - 1].Largest().userKey == outputs[i].Smallest().userKey {
        return false;
      }
    }
    return true;
  }

  // ----- every run -----

  function CallsAmong(steps: seq<EngineStep>): seq<Request> {
    if steps == [] then []
    else
      var n := |steps| - 1;
      CallsAmong(steps[..n]) + if steps[n].Queue? && steps[n].step.Call? then [Request(steps[n].step.ops, steps[n].step.sync)] else []
  }

  method TakeEngineStep(e: Engine, step: EngineStep)
    requires e.Valid() && (step.Queue? ==> Callable(step.step)) && e.db.lastSequence + 0x8000_0001 <= MAX_SEQUENCE
    modifies e, e.db, e.db.tmpBatch, e.db.mem, e.db.batches
    ensures e.Valid() && old(e.db.lastSequence) <= e.db.lastSequence <= old(e.db.lastSequence) + 0x8000_0000
    ensures e.db.History() == old(e.db.History()) + if step.Queue? && step.step.Call? then [Request(step.step.ops, step.step.sync)] else []
    ensures fresh({e.db.mem} - old({e.db.mem})) && fresh(e.db.batches - old(e.db.batches))
    ensures old(e.Machine()).queue.Sane() && e.Machine() == EngineNext(old(e.Machine()), step)
    ensures old(e.flushed <= |e.db.older|)
    ensures VersionAfter(old(e.version), old(e.nextFile), EntriesOf(old(e.db.older[e.flushed..])), old(e.SmallestSnapshot()), step, e.version)
  {
    hide Engine.Valid, DBImpl.Valid, Next, CompactedTo, FlushedTo;
    e.FlushedBefore();
    e.SaneToo();
    match step {
      case Queue(s) =>
        e.TakeQueueStep(s);
      case FlushMemTable(limits) =>
        var _ := e.Flush(limits);
      case PickedCompaction(level, which, limits, stop, big) =>
        e.VersionShape();
        if level + 1 < NUM_LEVELS && which < |e.version[level]| {
          var _, _ := e.Compact(level, Automatic(e.version[level][which]), limits, stop, big);
        }
      case RangeCompaction(level, range, limits, stop, big) =>
        e.VersionShape();
        if level + 1 < NUM_LEVELS {
          var _, _ := e.Compact(level, Manual(range), limits, stop, big);
        }
      case TakeSnapshot =>
        var _ := e.GetSnapshot();
      case Release(which) =>
        if which < |e.held| {
          e.ReleaseSnapshot(which);
        }
    }
  }

  /** Any run of writes, memtable flushes, compactions that cut between user keys, and snapshots: which snapshots are held
      and what is written is what the steps say, and a read now, or at any snapshot that is held, finds the last write of
      its key up to that number, among the successful writes in the order they were made. */
  method Run(steps: seq<EngineStep>) returns (e: Engine)
    requires |steps| < 0x1FF_FFFF && forall i :: 0 <= i < |steps| && steps[i].Queue? ==> Callable(steps[i].step)
    ensures fresh(e) && e.Valid() && Searchable(e.version) && e.db.History() == CallsAmong(steps)
    ensures e.Machine() == EngineAfter(FRESH, steps) && (AllSmooth(steps) ==> AllOk(e.db.results))
    ensures forall key, s {:trigger e.ReadAt(key, s)} :: s == e.db.lastSequence || s in e.held ==>
              e.ReadAt(key, s) == LastWrite(Serial(e.db.done), key, s) && e.ReadAt(key, s) == LastWrite(EngineAfter(FRESH, steps).queue.entries, key, s)
  {
    hide Serial, LastWrite, DBImpl.Valid, Tabled, NumbersBelow, Callable, EngineNext, Engine.Valid, Engine.ReadAt, AllSmooth, VersionAfter;
    e := new Engine();
    var i := 0;
    while i < |steps|
      invariant i <= |steps| && fresh(e) && fresh(e.db) && fresh(e.db.tmpBatch) && fresh(e.db.mem) && fresh(e.db.batches)
      invariant e.Valid() && e.db.lastSequence <= i * 0x8000_0000 && e.db.History() == CallsAmong(steps[..i])
      invariant e.Machine() == EngineAfter(FRESH, steps[..i])
    {
      assert steps[..i + 1][..i] == steps[..i];
      TakeEngineStep(e, steps[i]);
      i := i + 1;
    }
    assert steps[..|steps|] == steps;
    e.VersionShape();
    e.FlushedBefore();
    if AllSmooth(steps) {
      NoWriteFails(FRESH, steps);
    }
    forall key, s {:trigger e.ReadAt(key, s)} | s == e.db.lastSequence || s in e.held
      ensures e.ReadAt(key, s) == LastWrite(Serial(e.db.done), key, s) && e.ReadAt(key, s) == LastWrite(EngineAfter(FRESH, steps).queue.entries, key, s)
    {
      e.ReadOfHolder(key, s);
    }
  }
}
