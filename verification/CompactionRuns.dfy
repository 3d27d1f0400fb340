/** Compactions as the database runs them, one after another. */
module CompactionRuns {
  import opened Options
  import opened InternalKeys
  import opened LsmTree
  import opened CompactionSpec
  import opened CompactionReads
  import opened CompactionExact
  import opened Compactions
  import opened Overlap
  import opened MergeSpec
  import opened VersionIterators

  datatype Compacted = Compacted(level: nat, snap: nat, inputs0: Level, inputs1: Level, merged: seq<Entry>, outputs: Level)

  // What a compaction of a version reads and writes.
  ghost predicate Compacts(v: Version, c: Compacted) {
    && c.snap < MAX_SEQUENCE && Inputs(v, c.level, c.inputs0, c.inputs1) && MergedInput(c.inputs0, c.inputs1, c.merged)
    && Outputs(v, c.level, c.snap, c.merged, c.outputs) && Chosen(v, c.level, c.inputs0) && InOrderOf(v[c.level + 1], c.inputs1)
  }

  ghost predicate Step(v: Version, c: Compacted, v': Version) {
    Compacts(v, c) && Installed(v, c.level, c.inputs0, c.inputs1, c.outputs, v')
  }

  lemma StepSets(v: Version, c: Compacted, v': Version)
    requires Step(v, c, v')
    ensures Setting(v, c.level, c.snap, c.inputs0, c.inputs1, c.merged, c.outputs, v') && Shape(v) && c.level + 1 < NUM_LEVELS == |v'|
  {
  }

  // ----- what the code compacts -----

  function Named(pieces: seq<seq<Entry>>, number: nat): (files: Level)
    ensures |files| == |pieces| && forall i :: 0 <= i < |files| ==> files[i] == File(number + i, pieces[i])
  {
    seq(|pieces|, i requires 0 <= i < |pieces| => File(number + i, pieces[i]))
  }

  lemma InOrderIsPart(v: Version, l: nat, files: Level)
    requires Shape(v) && l < NUM_LEVELS && InOrderOf(v[l], files)
    ensures PartOfLevel(v, l, files)
  {
    var at := InOrderPlaces(v[l], files);
    forall i | 0 <= i < |files|
      ensures files[i] in v[l] && files[i].Ok()
    {
      assert v[l][at[i]] == files[i];
    }
    forall i, j | 0 <= i < j < |files|
      ensures if l == 0 then files[i].number != files[j].number else Before(files[i].Largest(), files[j].Smallest())
    {
      assert files[i] == v[l][at[i]] && files[j] == v[l][at[j]] && at[i] < at[j];
    }
  }

  // Sizes of files, and the limits that the options set on them.
  datatype Limits = Limits(fileSize: File -> nat, expanded: nat, grandparents: nat, range: nat)

  // The files two levels down that the file overlaps.
  function Grandparents(v: Version, level: nat, f: File): Level
    requires |v| == NUM_LEVELS && f.entries != [] && (level + 2 < NUM_LEVELS ==> Nonempty(v[level + 2]))
  {
    if level + 2 < NUM_LEVELS then Touching(v[level + 2], Range(Some(f.Smallest().userKey), Some(f.Largest().userKey))) else []
  }

  lemma LevelsNonempty(v: Version)
    requires Shape(v)
    ensures |v| == NUM_LEVELS && forall l :: 0 <= l < NUM_LEVELS ==> Nonempty(v[l])
  {
    forall l | 0 <= l < NUM_LEVELS
      ensures Nonempty(v[l])
    {
      FilesOkay(v, l);
    }
  }

  // Merge the inputs that the first ones lead to, and write what is kept.
  method Merge(v: Version, level: nat, inputs0: Level, inputs1: Level, snap: nat,
               shouldStopBefore: nat -> bool, bigEnough: nat -> bool, number: nat) returns (c: Compacted)
    requires Shape(v) && level + 1 < NUM_LEVELS && snap < MAX_SEQUENCE
    requires Inputs(v, level, inputs0, inputs1) && Chosen(v, level, inputs0) && InOrderOf(v[level + 1], inputs1)
    ensures Compacts(v, c) && c.level == level && c.snap == snap && c.inputs0 == inputs0 && c.inputs1 == inputs1
    ensures c.merged == Union(LevelLists(level, inputs0) + LevelLists(level + 1, inputs1))
    ensures c.outputs == Named(WritingAfter(v, level, snap, c.merged, shouldStopBefore, bigEnough, |c.merged|).Close().closed, number)
  {
    hide Kept, Concat, WritingAfter, LevelLists, Union, Shape, Chosen, InOrderOf, PartOfLevel;
    ChosenInOrder(v, level, inputs0);
    InOrderIsPart(v, level, inputs0);
    InOrderIsPart(v, level + 1, inputs1);
    CompactionMerges(v, level, inputs0, inputs1);
    var merged := Union(LevelLists(level, inputs0) + LevelLists(level + 1, inputs1));
    var compaction := new Compaction(level, v);
    var pieces := DoCompactionWork(compaction, merged, snap, shouldStopBefore, bigEnough);
    c := Compacted(level, snap, inputs0, inputs1, merged, Named(pieces, number));
    assert Contents(c.outputs) == pieces;
  }

  // One file that has nothing to merge with, and not too much two levels down.
  predicate Trivial(v: Version, level: nat, inputs0: Level, inputs1: Level, limits: Limits)
    requires |v| == NUM_LEVELS && (level + 2 < NUM_LEVELS ==> Nonempty(v[level + 2])) && Nonempty(inputs0)
  {
    |inputs0| == 1 && inputs1 == [] && TotalFileSize(Grandparents(v, level, inputs0[0]), limits.fileSize) <= limits.grandparents
  }

  // What starts a compaction: a file that was picked, or a request for a range.
  datatype Trigger = Automatic(picked: File) | Manual(range: Range)

  // The first inputs: the file picked, on level 0 with all that it leads to; or files that overlap the range.
  ghost predicate FirstFor(v: Version, level: nat, trigger: Trigger, limits: Limits, first: Level)
    requires level < |v| && Nonempty(v[level])
  {
    match trigger
    case Automatic(picked) =>
      picked.entries != [] && if level == 0 then IsOverlapping(v[0], 0, SpanOfFile(picked), first) else first == [picked]
    case Manual(range) => FrontOf(v, level, range, limits.fileSize, limits.range, first)
  }

  // A compaction of these inputs, grown; or none, when there is none to begin with.
  ghost predicate Chooses(v: Version, level: nat, trigger: Trigger, limits: Limits, first: Level, g: Growth, c: Option<Compacted>)
    requires level + 1 < |v| && Nonempty(v[level])
  {
    && FirstFor(v, level, trigger, limits, first) && (c.None? <==> first == [])
    && (c.Some? ==>
          c.value.level == level && GrownAs(v, level, first, g, limits.fileSize, limits.expanded, c.value.inputs0, c.value.inputs1))
  }

  ghost predicate AskedFor(v: Version, level: nat, trigger: Trigger, limits: Limits, c: Option<Compacted>)
    requires level + 1 < |v| && Nonempty(v[level])
  {
    exists first, g {:trigger Chooses(v, level, trigger, limits, first, g, c)} :: Chooses(v, level, trigger, limits, first, g, c)
  }

  lemma NothingAskedFor(v: Version, level: nat, trigger: Trigger, limits: Limits)
    requires level + 1 < |v| && Nonempty(v[level]) && FirstFor(v, level, trigger, limits, [])
    ensures AskedFor(v, level, trigger, limits, None)
  {
    hide FirstFor, GrownAs;
    assert Chooses(v, level, trigger, limits, [], Growth([], [], []), None);
  }

  lemma ChoiceIsAskedFor(v: Version, level: nat, trigger: Trigger, limits: Limits, first: Level, g: Growth, c: Compacted)
    requires level + 1 < |v| && Nonempty(v[level]) && FirstFor(v, level, trigger, limits, first) && first != [] && c.level == level
    requires GrownAs(v, level, first, g, limits.fileSize, limits.expanded, c.inputs0, c.inputs1)
    ensures AskedFor(v, level, trigger, limits, Some(c))
  {
    hide FirstFor, GrownAs;
    assert Chooses(v, level, trigger, limits, first, g, Some(c));
  }

  // The compaction that a move is.
  function Moved(level: nat, f: File): Compacted {
    Compacted(level, 0, [f], [], f.entries, [f])
  }

  // What a compaction in the background does: the move of the file picked, when that is all there is to it, or what
  // comes of merging the inputs.
  ghost predicate Background(v: Version, level: nat, trigger: Trigger, limits: Limits, snap: nat,
                             shouldStopBefore: nat -> bool, bigEnough: nat -> bool, number: nat, c: Option<Compacted>)
    requires |v| == NUM_LEVELS && level + 1 < NUM_LEVELS && forall l :: 0 <= l < NUM_LEVELS ==> Nonempty(v[l])
  {
    && AskedFor(v, level, trigger, limits, c)
    && (c.Some? ==>
          Nonempty(c.value.inputs0) &&
          if trigger.Automatic? && Trivial(v, level, c.value.inputs0, c.value.inputs1, limits) then c.value == Moved(level, trigger.picked)
          else
            && c.value.snap == snap
            && c.value.merged == Union(LevelLists(level, c.value.inputs0) + LevelLists(level + 1, c.value.inputs1))
            && c.value.outputs ==
               Named(WritingAfter(v, level, snap, c.value.merged, shouldStopBefore, bigEnough, |c.value.merged|).Close().closed, number))
  }

  /** One compaction in the background. The inputs come from the file picked or the range asked for. What was picked
      and has nothing to merge with is moved; everything else is merged. */
  method BackgroundCompaction(v: Version, level: nat, trigger: Trigger, limits: Limits, snap: nat,
                              shouldStopBefore: nat -> bool, bigEnough: nat -> bool, number: nat)
      returns (c: Option<Compacted>, moved: bool)
    requires Shape(v) && level + 1 < NUM_LEVELS && snap < MAX_SEQUENCE && (trigger.Automatic? ==> trigger.picked in v[level])
    ensures |v| == NUM_LEVELS && forall l :: 0 <= l < NUM_LEVELS ==> Nonempty(v[l])
    ensures Background(v, level, trigger, limits, snap, shouldStopBefore, bigEnough, number, c)
    ensures c.None? ==> trigger.Manual? && Touching(v[level], trigger.range) == [] && !moved
    ensures c.Some? && trigger.Automatic? ==>
              trigger.picked in c.value.inputs0 && (level > 0 && c.value.inputs1 == [] ==> c.value.inputs0 == [trigger.picked])
    ensures moved ==> trigger.Automatic? && c == Some(Moved(level, trigger.picked)) && Inputs(v, level, [trigger.picked], []) && Chosen(v, level, [trigger.picked])
    ensures c.Some? && !moved ==> Compacts(v, c.value) && c.value.level == level && c.value.snap == snap
    ensures c.Some? && !moved ==>
              c.value.outputs == Named(WritingAfter(v, level, snap, c.value.merged, shouldStopBefore, bigEnough, |c.value.merged|).Close().closed, number)
    ensures c.Some? ==> Nonempty(c.value.inputs0) && (moved <==> trigger.Automatic? && Trivial(v, level, c.value.inputs0, c.value.inputs1, limits))
  {
    hide Kept, Concat, WritingAfter, LevelLists, Union, Shape, Chosen, Inputs, InOrderOf, Compacts, AskedFor, GrownAs;
    LevelsNonempty(v);
    var chosen: Level;
    match trigger {
      case Automatic(picked) => chosen := PickInputs(v, level, picked);
      case Manual(range) => chosen := CompactRange(v, level, range, limits.fileSize, limits.range);
    }
    if chosen == [] {
      c, moved := None, false;
      NothingAskedFor(v, level, trigger, limits);
      return;
    }
    var inputs0, inputs1, grown := SetupOtherInputs(v, level, chosen, limits.fileSize, limits.expanded);
    ChosenNonempty(v, level, inputs0);
    moved := trigger.Automatic? && Trivial(v, level, inputs0, inputs1, limits);
    if moved {
      assert inputs0 == [inputs0[0]] && trigger.picked == inputs0[0];
      c := Some(Moved(level, inputs0[0]));
    } else {
      var merged := Merge(v, level, inputs0, inputs1, snap, shouldStopBefore, bigEnough, number);
      c := Some(merged);
    }
    ChoiceIsAskedFor(v, level, trigger, limits, chosen, grown, c.value);
  }

  lemma ChosenNonempty(v: Version, level: nat, inputs: Level)
    requires level < |v| && Chosen(v, level, inputs)
    ensures Nonempty(inputs)
  {
  }

  lemma ChosenInOrder(v: Version, level: nat, inputs: Level)
    requires Shape(v) && level < NUM_LEVELS && Chosen(v, level, inputs)
    ensures InOrderOf(v[level], inputs)
  {
  }

  // ----- user keys stay apart -----

  // No output file begins with the user key that the one before it ends with.
  ghost predicate CutBetweenKeys(outputs: Level)
    requires LevelOk(outputs)
  {
    forall i, next {:trigger outputs[i], outputs[next]} :: 0 <= i && next == i + 1 < |outputs| ==>
      outputs[i].Largest().userKey != outputs[next].Smallest().userKey
  }

  lemma SharedAcrossCut(outputs: Level, i: nat, j: nat, e: Entry, d: Entry)
    requires LevelOk(outputs) && LevelSorted(outputs) && i < j < |outputs|
    requires e in outputs[i].entries && d in outputs[j].entries && e.key.userKey == d.key.userKey
    ensures !CutBetweenKeys(outputs)
  {
    EntryInFile(outputs[i], e);
    EntryInFile(outputs[j], d);
    assert Before(outputs[i].Largest(), outputs[j].Smallest());
    if i + 1 < j {
      assert Before(outputs[i].Largest(), outputs[i + 1].Smallest());
      EntryInFile(outputs[i + 1], outputs[i + 1].entries[0]);
      assert Before(outputs[i + 1].Largest(), outputs[j].Smallest());
    }
    assert outputs[i].Largest().userKey == outputs[i + 1].Smallest().userKey;
  }

  lemma OutputsApartIff(outputs: Level)
    requires LevelOk(outputs) && LevelSorted(outputs)
    ensures UserKeysApart(outputs) <==> CutBetweenKeys(outputs)
  {
    if !CutBetweenKeys(outputs) {
      var i, next :| 0 <= i && next == i + 1 < |outputs| && outputs[i].Largest().userKey == outputs[next].Smallest().userKey;
      var f, g := outputs[i], outputs[next];
      assert Before(f.Largest(), g.Smallest());
      assert f in outputs && g in outputs && f.entries[|f.entries| - 1] in f.entries && g.entries[0] in g.entries;
      EntryInFile(f, f.entries[0]);
      assert f != g && !NoSharedKey(f, g);
    }
    forall f, g {:trigger NoSharedKey(f, g)} | CutBetweenKeys(outputs) && f in outputs && g in outputs && f != g
      ensures NoSharedKey(f, g)
    {
      var i :| 0 <= i < |outputs| && outputs[i] == f;
      var j :| 0 <= j < |outputs| && outputs[j] == g;
      forall e, d | e in f.entries && d in g.entries
        ensures e.key.userKey != d.key.userKey
      {
        if e.key.userKey == d.key.userKey {
          if i < j {
            SharedAcrossCut(outputs, i, j, e, d);
          } else {
            SharedAcrossCut(outputs, j, i, d, e);
          }
        }
      }
    }
  }

  // What is written shares no user key with the files left out of the output level.
  lemma OutputUnshared(v: Version, c: Compacted, f: File, g: File)
    requires Compacts(v, c) && UserKeysApart(v[c.level + 1]) && f in c.outputs && g in v[c.level + 1] && g !in c.inputs1
    ensures NoSharedKey(f, g) && NoSharedKey(g, f)
  {
    InputFiles(v, c.level, c.inputs0, c.inputs1);
    MemberOk(v[c.level + 1], g);
    assert !OverlapsSpan(c.inputs0, g);
    forall e, d | e in f.entries && d in g.entries
      ensures e.key.userKey != d.key.userKey
    {
      OutputEntries(v, c.level, c.snap, c.merged, c.outputs, e);
      var h := FromInput(c.inputs0, c.inputs1, c.merged, e);
      EntryInFile(h, e);
      EntryInFile(g, d);
      if h in c.inputs1 {
        assert NoSharedKey(h, g);
      }
    }
  }

  /** The user keys of the output level's files stay apart exactly when no output is cut inside a user key. */
  lemma OutputLevelApartIff(v: Version, c: Compacted, v': Version)
    requires Step(v, c, v') && UserKeysApart(v[c.level + 1])
    ensures LevelOk(c.outputs) && (UserKeysApart(v'[c.level + 1]) <==> CutBetweenKeys(c.outputs))
  {
    OutputsAreFiles(v, c.level, c.snap, c.inputs0, c.inputs1, c.merged, c.outputs);
    OutputsApartIff(c.outputs);
    var files := v'[c.level + 1];
    if UserKeysApart(c.outputs) {
      forall f, g {:trigger NoSharedKey(f, g)} | f in files && g in files && f != g
        ensures NoSharedKey(f, g)
      {
        if f in c.outputs && g !in c.outputs {
          OutputUnshared(v, c, f, g);
        } else if g in c.outputs && f !in c.outputs {
          OutputUnshared(v, c, g, f);
        }
      }
    }
  }

  // ----- runs -----

  // A version in which the files of each level above 0 hold different user keys.
  ghost predicate Tidy(v: Version) {
    Shape(v) && forall l {:trigger UserKeysApart(v[l])} :: 1 <= l < NUM_LEVELS ==> UserKeysApart(v[l])
  }

  lemma TidyUnshared(v: Version, c: Compacted)
    requires Tidy(v) && Compacts(v, c)
    ensures Unshared(v, c.level, c.inputs0, c.inputs1) && UserKeysApart(v[c.level + 1])
  {
    assert UserKeysApart(v[c.level + 1]) && (c.level > 0 ==> UserKeysApart(v[c.level]));
    ChosenUnshared(v, c.level, c.inputs0, c.inputs1);
  }

  // A compaction leaves the levels above its outputs' as tidy as they were, and those below.
  lemma OtherLevelsApart(v: Version, c: Compacted, v': Version, l: nat)
    requires Step(v, c, v') && 1 <= l < NUM_LEVELS && l != c.level + 1 && UserKeysApart(v[l])
    ensures UserKeysApart(v'[l])
  {
  }

  /** A compaction of a tidy version keeps its shape and every live read; and it leaves a tidy version exactly when
      it cuts its outputs between user keys. */
  lemma TidyStep(v: Version, c: Compacted, v': Version)
    requires Tidy(v) && Step(v, c, v')
    ensures Shape(v') && forall k, s {:trigger Get(v', k, s)} :: s >= c.snap ==> Get(v', k, s) == Get(v, k, s)
    ensures LevelOk(c.outputs) && (Tidy(v') <==> CutBetweenKeys(c.outputs))
  {
    hide UserKeysApart, Shape, Setting, Inputs, CutBetweenKeys, Step, Compacts, Unshared, Get;
    TidyParts(v);
    StepSets(v, c, v');
    StepCompacts(v, c, v');
    TidyUnshared(v, c);
    UnsharedParts(v, c);
    CompactionKeepsShape(v, c.level, c.snap, c.inputs0, c.inputs1, c.merged, c.outputs, v');
    forall k, s {:trigger Get(v', k, s)} | s >= c.snap
      ensures Get(v', k, s) == Get(v, k, s)
    {
      CompactionKeepsReads(v, c.level, c.snap, c.inputs0, c.inputs1, c.merged, c.outputs, v', k, s);
    }
    OutputLevelApartIff(v, c, v');
    forall l {:trigger UserKeysApart(v'[l])} | 1 <= l < NUM_LEVELS && l != c.level + 1
      ensures UserKeysApart(v'[l])
    {
      assert UserKeysApart(v[l]);
      OtherLevelsApart(v, c, v', l);
    }
  }

  lemma TidyParts(v: Version)
    requires Tidy(v)
    ensures Shape(v) && |v| == NUM_LEVELS
  {
  }

  lemma StepCompacts(v: Version, c: Compacted, v': Version)
    requires Step(v, c, v')
    ensures Compacts(v, c) && c.snap < MAX_SEQUENCE
  {
  }

  lemma UnsharedParts(v: Version, c: Compacted)
    requires c.level + 1 < |v| && Unshared(v, c.level, c.inputs0, c.inputs1)
    ensures KeysNotShared(v[c.level], c.inputs0)
  {
  }

  ghost predicate Run(vs: seq<Version>, cs: seq<Compacted>) {
    |vs| == |cs| + 1 && forall i, next {:trigger Step(vs[i], cs[i], vs[next])} :: 0 <= i < |cs| && next == i + 1 ==> Step(vs[i], cs[i], vs[next])
  }

  // Every compaction but the last cuts its outputs between user keys.
  ghost predicate CleanCuts(cs: seq<Compacted>) {
    forall i {:trigger cs[i]} :: 0 <= i < |cs| - 1 ==> LevelOk(cs[i].outputs) && CutBetweenKeys(cs[i].outputs)
  }

  /** Every run of compactions keeps every live read, as long as none but the last is cut inside a user key. */
  lemma {:induction false} RunKeepsReads(vs: seq<Version>, cs: seq<Compacted>, k: UserKey, s: nat)
    requires Run(vs, cs) && Tidy(vs[0]) && CleanCuts(cs) && forall i :: 0 <= i < |cs| ==> cs[i].snap <= s
    ensures Shape(vs[|cs|]) && Get(vs[|cs|], k, s) == Get(vs[0], k, s)
    ensures cs == [] || (LevelOk(cs[|cs| - 1].outputs) && (Tidy(vs[|cs|]) <==> CutBetweenKeys(cs[|cs| - 1].outputs)))
    decreases |cs|
  {
    hide Step, Get, CutBetweenKeys, Shape, Tidy;
    TidyParts(vs[0]);
    if cs != [] {
      var n := |cs| - 1;
      assert Step(vs[n], cs[n], vs[n + 1]);
      RunFront(vs, cs);
      RunKeepsReads(vs[..n + 1], cs[..n], k, s);
      assert n > 0 ==> LevelOk(cs[n - 1].outputs) && CutBetweenKeys(cs[n - 1].outputs);
      TidyStep(vs[n], cs[n], vs[n + 1]);
    }
  }

  lemma RunFront(vs: seq<Version>, cs: seq<Compacted>)
    requires Run(vs, cs) && CleanCuts(cs) && cs != []
    ensures var n := |cs| - 1; Run(vs[..n + 1], cs[..n]) && CleanCuts(cs[..n])
  {
    var n := |cs| - 1;
    var front, steps := vs[..n + 1], cs[..n];
    forall i, next {:trigger Step(front[i], steps[i], front[next])} | 0 <= i < n && next == i + 1
      ensures Step(front[i], steps[i], front[next])
    {
      assert Step(vs[i], cs[i], vs[next]);
    }
  }

  // ----- moving a file -----

  lemma {:induction false} NothingDropped(v: Version, level: nat, merged: seq<Entry>, n: nat)
    requires Shape(v) && n <= |merged| && forall i :: 0 <= i < |merged| ==> merged[i].key.sequence > 0
    ensures Kept(v, level, 0, merged, n) == merged[..n]
  {
    if n > 0 {
      NothingDropped(v, level, merged, n - 1);
      assert merged[..n] == merged[..n - 1] + [merged[n - 1]];
    }
  }

  /** Moving a file down that overlaps nothing in the next level is a compaction that drops nothing. */
  lemma MoveIsCompaction(v: Version, level: nat, f: File)
    requires Inputs(v, level, [f], []) && Chosen(v, level, [f]) && forall i :: 0 <= i < |f.entries| ==> f.entries[i].key.sequence > 0
    ensures Compacts(v, Compacted(level, 0, [f], [], f.entries, [f])) && LevelOk([f]) && CutBetweenKeys([f])
  {
    hide Kept, Concat, Chosen, Shape, OverlapsSpan;
    OneInputIsOk(v, level, f);
    InputsShape(v, level, [f], []);
    NoneInOrder(v[level + 1]);
    NothingDropped(v, level, f.entries, |f.entries|);
    OneFileMerged(f);
    assert f.entries[..|f.entries|] == f.entries;
  }

  lemma OneInputIsOk(v: Version, level: nat, f: File)
    requires Inputs(v, level, [f], [])
    ensures f.Ok() && level + 1 < |v|
  {
    InputFiles(v, level, [f], []);
    assert f in [f];
  }

  lemma OneFileMerged(f: File)
    requires f.Ok()
    ensures MergedInput([f], [], f.entries) && Concat(Contents([f])) == f.entries
  {
    assert Contents([f]) == [f.entries];
    OneList(f.entries);
    assert f in [f];
  }

  lemma OneList(es: seq<Entry>)
    requires es != []
    ensures Union([es]) == es && Concat([es]) == es
  {
    assert [es][1..] == [] && [es][..0] == [];
  }
}
