/** How a deleted value can be read again: a compaction cuts its outputs between a deletion and the value that it
    deletes, and the file of the deletion is moved below that of the value. */
module DeletedValues {
  import opened Options
  import opened InternalKeys
  import opened LsmTree
  import opened CompactionSpec
  import opened CompactionReads
  import opened CompactionExact
  import opened Compactions
  import opened Overlap
  import opened MergeSpec
  import opened VersionIterators
  import opened CompactionRuns
  import opened Flushes
  import opened NextVersions

  const BELOW := Entry(InternalKey(-1.0, 1, TYPE_VALUE), [1])
  const ABOVE := Entry(InternalKey(1.0, 2, TYPE_VALUE), [2])
  const DELETED_VALUE := Entry(InternalKey(0.0, 3, TYPE_VALUE), [7])
  const DELETION := Entry(InternalKey(0.0, 5, TYPE_DELETION), [])

  const OLD := File(1, [BELOW, ABOVE])
  const YOUNG := File(2, [DELETION, DELETED_VALUE])
  const DELETION_FILE := File(3, [BELOW, DELETION])
  const VALUE_FILE := File(4, [DELETED_VALUE, ABOVE])
  const MERGED := [BELOW, DELETION, DELETED_VALUE, ABOVE]

  const NOTHING: Version := [[], [], [], [], [], [], []]
  const ONE_FLUSHED: Version := [[], [], [OLD], [], [], [], []]
  const TWO_FLUSHED: Version := [[], [YOUNG], [OLD], [], [], [], []]
  const SPLIT: Version := [[], [], [DELETION_FILE, VALUE_FILE], [], [], [], []]
  const AFTER_MOVE: Version := [[], [], [VALUE_FILE], [DELETION_FILE], [], [], []]

  // Any limits that let the files through.
  const LIMITS := Limits((f: File) => 1, 100, 100, 100)

  // ----- the files and versions -----

  lemma FilesAreOk()
    ensures OLD.Ok() && YOUNG.Ok() && DELETION_FILE.Ok() && VALUE_FILE.Ok()
    ensures Before(DELETION_FILE.Largest(), VALUE_FILE.Smallest())
  {
  }

  lemma NoneShared()
    ensures NewerFile(YOUNG, OLD) && NoSharedKey(YOUNG, OLD)
  {
  }

  lemma FlushedShape()
    requires OLD.Ok() && YOUNG.Ok()
    ensures Tidy(NOTHING) && Tidy(ONE_FLUSHED) && Tidy(TWO_FLUSHED)
  {
    hide *;
    NothingIsTidy();
    OneFlushedIsTidy();
    TwoFlushedIsTidy();
  }

  lemma NothingIsTidy()
    ensures Tidy(NOTHING)
  {
    hide File.Ok, NewerFile;
  }

  lemma OneFlushedIsTidy()
    requires OLD.Ok()
    ensures Tidy(ONE_FLUSHED)
  {
    hide File.Ok, NewerFile, NoSharedKey;
  }

  lemma TwoFlushedIsTidy()
    requires OLD.Ok() && YOUNG.Ok()
    ensures Tidy(TWO_FLUSHED)
  {
    hide File.Ok, NewerFile, NoSharedKey;
    NoneShared();
    assert NewerLevel([YOUNG], [OLD]);
  }

  lemma SplitShape()
    requires DELETION_FILE.Ok() && VALUE_FILE.Ok() && Before(DELETION_FILE.Largest(), VALUE_FILE.Smallest())
    ensures Shape(SPLIT) && Searchable(AFTER_MOVE)
  {
    hide File.Ok, NewerFile;
  }

  lemma SplitShares()
    ensures !UserKeysApart(SPLIT[2])
  {
    var f, g := DELETION_FILE, VALUE_FILE;
    assert f in SPLIT[2] && g in SPLIT[2] && f.entries[1] == DELETION && g.entries[0] == DELETED_VALUE;
    assert DELETION in f.entries && DELETED_VALUE in g.entries;
    assert !NoSharedKey(f, g);
  }

  // ----- two memtables -----

  lemma FirstRange()
    ensures KeyRange(OLD) == Range(Some(-1.0), Some(1.0)) && KeyRange(YOUNG) == Range(Some(0.0), Some(0.0))
    ensures !Clear([OLD], KeyRange(YOUNG)) && Touching([OLD], KeyRange(YOUNG)) == [OLD]
  {
    assert KeyRange(YOUNG).Touches([OLD][0]);
    assert [OLD][..0] == [];
  }

  lemma NothingTouches(r: Range)
    ensures Clear([], r) && Touching([], r) == [] && TotalFileSize([], LIMITS.fileSize) == 0
  {
  }

  lemma SmallEnough()
    ensures TotalFileSize([OLD], LIMITS.fileSize) == 1
  {
    assert [OLD][..0] == [];
  }

  lemma NumbersAreSmall()
    ensures NumbersFit(NOTHING) && NumbersFit(ONE_FLUSHED)
  {
  }

  lemma Placed()
    ensures WithFile(NOTHING, OLD, 2) == ONE_FLUSHED && WithFile(ONE_FLUSHED, YOUNG, 1) == TWO_FLUSHED
  {
    assert InsertFile(OLD, []) == [OLD] && InsertFile(YOUNG, []) == [YOUNG];
    assert NOTHING[2 := [OLD]] == ONE_FLUSHED;
    assert ONE_FLUSHED[1 := [YOUNG]] == TWO_FLUSHED;
  }

  // The first file goes to level 2, the second to level 1, for it overlaps the first.
  method FlushTwo() returns (first: Version, second: Version)
    requires Shape(NOTHING) && Shape(ONE_FLUSHED)
    ensures first == ONE_FLUSHED && second == TWO_FLUSHED
  {
    hide Shape, Clear, Touching, TotalFileSize, KeyRange, WithFile, NumbersFit;
    NumbersAreSmall();
    FirstRange();
    NothingTouches(KeyRange(OLD));
    NothingTouches(KeyRange(YOUNG));
    SmallEnough();
    Placed();
    var level := PickLevelForMemTableOutput(NOTHING, KeyRange(OLD), LIMITS.fileSize, LIMITS.grandparents);
    first := WithFile(NOTHING, OLD, level);
    level := PickLevelForMemTableOutput(ONE_FLUSHED, KeyRange(YOUNG), LIMITS.fileSize, LIMITS.grandparents);
    second := WithFile(ONE_FLUSHED, YOUNG, level);
  }

  // ----- the merge, cut inside the key -----

  lemma OnlyOneOf(f: File, part: Level)
    requires InOrderOf([f], part) && part != []
    ensures part == [f]
  {
    var m := |part| - 1;
    assert [f][..0] == [];
    assert part == part[..m] + [part[m]];
  }

  // What there is to merge.
  lemma BothFiles(c: Compacted)
    requires Shape(TWO_FLUSHED) && Compacts(TWO_FLUSHED, c) && c.level == 1
    ensures c.inputs0 == [YOUNG] && c.inputs1 == [OLD]
  {
    hide Shape, Kept, Concat, KeysNotShared, Outputs, MergedInput;
    ChosenInOrder(TWO_FLUSHED, 1, c.inputs0);
    OnlyOneOf(YOUNG, c.inputs0);
    assert YOUNG in [YOUNG] && OLD in [OLD];
    assert YOUNG.Smallest().userKey <= OLD.Largest().userKey && OLD.Smallest().userKey <= YOUNG.Largest().userKey;
    assert OverlapsSpan([YOUNG], OLD);
    assert OLD in c.inputs1;
    OnlyOneOf(OLD, c.inputs1);
  }

  lemma TheMerge()
    ensures Union(LevelLists(1, [YOUNG]) + LevelLists(2, [OLD])) == MERGED
  {
    var young, old_ := [DELETION, DELETED_VALUE], [BELOW, ABOVE];
    assert Contents([YOUNG]) == [young] && Contents([OLD]) == [old_];
    OneList(young);
    OneList(old_);
    assert LevelLists(1, [YOUNG]) + LevelLists(2, [OLD]) == [young, old_];
    assert [young, old_][1..] == [old_];
    FirstBelow(young, old_);
    assert MergeSpec.Merge([DELETED_VALUE], [ABOVE]) == [DELETED_VALUE] + MergeSpec.Merge([], [ABOVE]) by {
      assert [DELETED_VALUE][1..] == [];
    }
    assert MergeSpec.Merge(young, [ABOVE]) == [DELETION] + MergeSpec.Merge([DELETED_VALUE], [ABOVE]) by {
      assert young[1..] == [DELETED_VALUE];
    }
  }

  lemma FirstBelow(young: seq<Entry>, old_: seq<Entry>)
    requires young == [DELETION, DELETED_VALUE] && old_ == [BELOW, ABOVE]
    ensures MergeSpec.Merge(young, old_) == [BELOW] + MergeSpec.Merge(young, [ABOVE])
  {
    assert old_[1..] == [ABOVE];
  }

  lemma NotDropped(i: nat)
    requires Shape(TWO_FLUSHED) && i < 4
    ensures !Dropped(TWO_FLUSHED, 1, 4, MERGED, i)
  {
    hide Shape, BaseLevel;
  }

  // All four entries are kept, and the file is cut after the deletion.
  lemma TheWriting(stop: nat -> bool, big: nat -> bool)
    requires Shape(TWO_FLUSHED) && forall i :: 0 <= i < 4 ==> !stop(i) && (big(i) <==> i == 1)
    ensures WritingAfter(TWO_FLUSHED, 1, 4, MERGED, stop, big, 4).Close().closed == [[BELOW, DELETION], [DELETED_VALUE, ABOVE]]
  {
    hide Shape, Dropped;
    var none: seq<seq<Entry>> := [];
    NotDropped(0);
    NotDropped(1);
    NotDropped(2);
    NotDropped(3);
    assert WritingAfter(TWO_FLUSHED, 1, 4, MERGED, stop, big, 0) == Writing(none, []);
    assert WritingAfter(TWO_FLUSHED, 1, 4, MERGED, stop, big, 1) == Writing(none, [BELOW]) by {
      assert [] + [BELOW] == [BELOW];
    }
    assert WritingAfter(TWO_FLUSHED, 1, 4, MERGED, stop, big, 2) == Writing([[BELOW, DELETION]], []) by {
      assert [BELOW] + [DELETION] == [BELOW, DELETION] && none + [[BELOW, DELETION]] == [[BELOW, DELETION]];
    }
    assert WritingAfter(TWO_FLUSHED, 1, 4, MERGED, stop, big, 3) == Writing([[BELOW, DELETION]], [DELETED_VALUE]) by {
      assert [] + [DELETED_VALUE] == [DELETED_VALUE];
    }
    assert WritingAfter(TWO_FLUSHED, 1, 4, MERGED, stop, big, 4) == Writing([[BELOW, DELETION]], [DELETED_VALUE, ABOVE]) by {
      assert [DELETED_VALUE] + [ABOVE] == [DELETED_VALUE, ABOVE];
    }
  }

  lemma TheSplit(c: Compacted, stop: nat -> bool, big: nat -> bool)
    requires Shape(TWO_FLUSHED) && Compacts(TWO_FLUSHED, c) && c.level == 1 && c.snap == 4
    requires forall i :: 0 <= i < 4 ==> !stop(i) && (big(i) <==> i == 1)
    requires c.merged == Union(LevelLists(1, c.inputs0) + LevelLists(2, c.inputs1))
    requires c.outputs == Named(WritingAfter(TWO_FLUSHED, 1, 4, c.merged, stop, big, |c.merged|).Close().closed, 3)
    ensures Step(TWO_FLUSHED, c, SPLIT) && c.outputs == [DELETION_FILE, VALUE_FILE]
    ensures LevelOk(c.outputs) && !CutBetweenKeys(c.outputs)
  {
    hide Shape, WritingAfter, Union, LevelLists, Concat, Kept, OverlapsSpan, KeysNotShared, Chosen, InOrderOf;
    BothFiles(c);
    TheMerge();
    TheWriting(stop, big);
    assert c.outputs == [DELETION_FILE, VALUE_FILE];
    SplitInstalled();
    CutInside();
  }

  lemma SplitInstalled()
    ensures Installed(TWO_FLUSHED, 1, [YOUNG], [OLD], [DELETION_FILE, VALUE_FILE], SPLIT)
  {
    BeforeIsStrictTotalOrder(DELETION_FILE.Smallest(), VALUE_FILE.Smallest(), DELETION_FILE.Smallest());
    assert DELETION_FILE != VALUE_FILE;
  }

  lemma CutInside()
    ensures LevelOk([DELETION_FILE, VALUE_FILE]) && !CutBetweenKeys([DELETION_FILE, VALUE_FILE])
  {
    FilesAreOk();
    var outputs := [DELETION_FILE, VALUE_FILE];
    var next := 1;
    assert outputs[0].Largest().userKey == outputs[next].Smallest().userKey;
  }

  // ----- the move -----

  // What there is to merge, when the next level is empty.
  lemma OnlyTheFirst(v: Version, c: Compacted)
    requires |v| == NUM_LEVELS && Shape(v) && Compacts(v, c) && c.level + 1 < NUM_LEVELS && v[c.level + 1] == []
    ensures c.inputs1 == []
  {
    hide Shape, Kept, Concat, Chosen, OverlapsSpan;
    PartOf(c.inputs1, v[c.level + 1]);
  }

  lemma PartOf(part: Level, files: Level)
    requires forall f :: f in part ==> f in files
    ensures part == [] || files != []
  {
    if part != [] {
      assert part[0] in files;
    }
  }

  // With nothing in the two levels below, what is picked is moved.
  lemma MustMove(c: Compacted, moved: bool)
    requires Shape(SPLIT) && Nonempty(SPLIT[4]) && Nonempty(c.inputs0) && (moved <==> Trivial(SPLIT, 2, c.inputs0, c.inputs1, LIMITS))
    requires !moved ==> Compacts(SPLIT, c) && c.level == 2
    requires c.inputs1 == [] ==> c.inputs0 == [DELETION_FILE]
    ensures moved
  {
    hide Shape, Compacts;
    if !moved {
      OnlyTheFirst(SPLIT, c);
    }
  }

  lemma MovedThere()
    requires Shape(SPLIT) && Searchable(AFTER_MOVE) && Compacts(SPLIT, Moved(2, DELETION_FILE))
    ensures Step(SPLIT, Moved(2, DELETION_FILE), AFTER_MOVE)
  {
    hide Shape, Compacts, Searchable;
    assert DELETION_FILE != VALUE_FILE;
  }

  // ----- what is read -----

  lemma ReadsThere(v: Version, l: nat, s: nat, e: Entry)
    requires Searchable(v) && l < NUM_LEVELS && forall j :: 0 <= j < l ==> v[j] == []
    requires Newest(LevelEntries(v[l]), 0.0, s, Some(e))
    ensures Get(v, 0.0, s) == ReadOf(Some(e))
  {
    FoundAt(v, l, 0.0, s, e);
  }

  lemma TheNewest()
    ensures Newest(LevelEntries(TWO_FLUSHED[1]), 0.0, 5, Some(DELETION))
    ensures Newest(LevelEntries(SPLIT[2]), 0.0, 5, Some(DELETION))
    ensures Newest(LevelEntries(AFTER_MOVE[2]), 0.0, 5, Some(DELETED_VALUE))
  {
    assert YOUNG in TWO_FLUSHED[1] && YOUNG.entries[0] == DELETION && DELETION in YOUNG.entries;
    assert DELETION_FILE in SPLIT[2] && DELETION_FILE.entries[1] == DELETION && DELETION in DELETION_FILE.entries;
    assert VALUE_FILE in AFTER_MOVE[2] && VALUE_FILE.entries[0] == DELETED_VALUE && DELETED_VALUE in VALUE_FILE.entries;
  }

  lemma TheReads()
    requires Searchable(TWO_FLUSHED) && Searchable(SPLIT) && Searchable(AFTER_MOVE)
    ensures Get(TWO_FLUSHED, 0.0, 5) == Get(SPLIT, 0.0, 5) == None && Get(AFTER_MOVE, 0.0, 5) == Some([7])
  {
    hide Searchable, Newest, Get;
    TheNewest();
    ReadsThere(TWO_FLUSHED, 1, 5, DELETION);
    ReadsThere(SPLIT, 2, 5, DELETION);
    ReadsThere(AFTER_MOVE, 2, 5, DELETED_VALUE);
  }

  /** Two memtables are written out, the second on top of the first. With a snapshot at 4 the compaction of the second
      keeps the deletion at 5 and the value at 3 that it deletes, and an output that is big enough after two entries is
      cut between them. The next compaction picks the first of the two files, which nothing below overlaps: it is moved
      down, and the deleted value is found above its deletion. */
  method DeletedValueReturns() returns (first: Version, flushed: Version, split: Compacted, move: Compacted)
    ensures first == ONE_FLUSHED && flushed == TWO_FLUSHED && Tidy(flushed)
    ensures Step(flushed, split, SPLIT) && LevelOk(split.outputs) && !CutBetweenKeys(split.outputs) && Shape(SPLIT) && !UserKeysApart(SPLIT[2])
    ensures Step(SPLIT, move, AFTER_MOVE) && move == Moved(2, DELETION_FILE) && Searchable(AFTER_MOVE)
    ensures Searchable(flushed) && Get(flushed, 0.0, 5) == Get(SPLIT, 0.0, 5) == None && Get(AFTER_MOVE, 0.0, 5) == Some([7])
    ensures !KeepsRead(SPLIT, 2, 0, [DELETION_FILE], [], 0.0, 5)
  {
    hide Compacts, Step, Shape, Searchable, Tidy, UserKeysApart, KeepsRead, Get, CutBetweenKeys, WritingAfter, Union, LevelLists, Chosen,
         Inputs, File.Ok;
    FilesAreOk();
    FlushedShape();
    TidyParts(NOTHING);
    TidyParts(ONE_FLUSHED);
    TidyParts(TWO_FLUSHED);
    SplitShape();
    SplitShares();
    first, flushed := FlushTwo();
    var never, afterTwo := (n: nat) => false, (n: nat) => n == 1;
    var picked, moved := BackgroundCompaction(TWO_FLUSHED, 1, Automatic(YOUNG), LIMITS, 4, never, afterTwo, 3);
    split := picked.value;
    MustMerge(split, moved);
    TheSplit(split, never, afterTwo);
    picked, moved := BackgroundCompaction(SPLIT, 2, Automatic(DELETION_FILE), LIMITS, 5, never, never, 5);
    move := picked.value;
    MustMove(move, moved);
    MoveIsCompaction(SPLIT, 2, DELETION_FILE);
    MovedThere();
    ShapesSearchable();
    TheReads();
    StepSets(SPLIT, move, AFTER_MOVE);
    ReadKeptIff(SPLIT, 2, 0, [DELETION_FILE], [], move.merged, move.outputs, AFTER_MOVE, 0.0, 5);
  }

  lemma ShapesSearchable()
    requires Shape(TWO_FLUSHED) && Shape(SPLIT)
    ensures Searchable(TWO_FLUSHED) && Searchable(SPLIT)
  {
  }

  // A file that something below overlaps is not moved.
  lemma MustMerge(c: Compacted, moved: bool)
    requires Shape(TWO_FLUSHED)
    requires moved ==> Inputs(TWO_FLUSHED, 1, [YOUNG], [])
    ensures !moved
  {
    hide Shape;
    assert YOUNG in [YOUNG] && OLD in TWO_FLUSHED[2];
    assert YOUNG.Smallest().userKey <= OLD.Largest().userKey && OLD.Smallest().userKey <= YOUNG.Largest().userKey;
    FilesAreOk();
    assert OverlapsSpan([YOUNG], OLD);
  }
}
