/** Writing a memtable out: the level its file goes to, and what reads find afterwards. */
module Flushes {
  import opened Options
  import opened InternalKeys
  import opened LsmTree
  import opened CompactionSpec
  import opened CompactionReads
  import opened CompactionRuns
  import opened Overlap

  const MAX_MEM_COMPACT_LEVEL := 2

  function KeyRange(f: File): Range
    requires f.entries != []
  {
    Range(Some(f.Smallest().userKey), Some(f.Largest().userKey))
  }

  // No file of the level overlaps the range.
  ghost predicate Clear(files: Level, r: Range) {
    forall i :: 0 <= i < |files| && files[i].entries != [] ==> !r.Touches(files[i])
  }

  // The sequence numbers are such as there are.
  ghost predicate NumbersFit(v: Version) {
    forall l, i, j :: 0 <= l < |v| && 0 <= i < |v[l]| && 0 <= j < |v[l][i].entries| ==> v[l][i].entries[j].key.sequence <= MAX_SEQUENCE
  }

  method OverlapInLevel(v: Version, level: nat, r: Range) returns (overlaps: bool)
    requires Shape(v) && level < NUM_LEVELS && NumbersFit(v)
    ensures overlaps <==> !Clear(v[level], r)
  {
    overlaps := SomeFileOverlapsRange(level > 0, v[level], r.begin, r.limit);
  }

  // Too much for a file of the level above lies two levels down.
  predicate TooMuch(v: Version, l: nat, r: Range, fileSize: File -> nat, limit: nat)
    requires l < |v| && Nonempty(v[l])
  {
    TotalFileSize(Touching(v[l], r), fileSize) > limit
  }

  method GrandparentsTooMuch(v: Version, l: nat, r: Range, fileSize: File -> nat, limit: nat) returns (much: bool)
    requires Shape(v) && 0 < l < NUM_LEVELS
    ensures |v| == NUM_LEVELS && Nonempty(v[l]) && (much <==> TooMuch(v, l, r, fileSize, limit))
  {
    FilesOkay(v, l);
    ghost var range;
    var grandparents;
    grandparents, range := GetOverlappingInputs(v[l], l, r);
    much := TotalFileSize(grandparents, fileSize) > limit;
  }

  // As deep as there is no overlap on the way, and not too much two levels further down; and no less deep.
  ghost predicate IsLevelFor(v: Version, r: Range, fileSize: File -> nat, limit: nat, level: nat)
    requires |v| == NUM_LEVELS && forall l :: 0 <= l < NUM_LEVELS ==> Nonempty(v[l])
  {
    && level <= MAX_MEM_COMPACT_LEVEL
    && (level > 0 ==> forall l :: 0 <= l <= level ==> Clear(v[l], r))
    && (forall l :: 2 <= l <= level + 1 ==> !TooMuch(v, l, r, fileSize, limit))
    && (Clear(v[0], r) && level < MAX_MEM_COMPACT_LEVEL ==> !Clear(v[level + 1], r) || TooMuch(v, level + 2, r, fileSize, limit))
  }

  /** The level for the file of a memtable: as deep as there is no overlap on the way, and not too much two levels
      further down. */
  method PickLevelForMemTableOutput(v: Version, r: Range, fileSize: File -> nat, limit: nat) returns (level: nat)
    requires Shape(v) && NumbersFit(v)
    ensures |v| == NUM_LEVELS && (forall l :: 0 <= l < NUM_LEVELS ==> Nonempty(v[l]))
    ensures level <= MAX_MEM_COMPACT_LEVEL && IsLevelFor(v, r, fileSize, limit, level)
    ensures level > 0 ==> forall l :: 0 <= l <= level ==> Clear(v[l], r)
  {
    hide Shape, NumbersFit, Clear, Nonempty, TooMuch;
    LevelsNonempty(v);
    level := 0;
    var overlaps := OverlapInLevel(v, 0, r);
    if !overlaps {
      while level < MAX_MEM_COMPACT_LEVEL
        invariant level <= MAX_MEM_COMPACT_LEVEL
        invariant forall l :: 0 <= l <= level ==> Clear(v[l], r)
        invariant forall l :: 2 <= l <= level + 1 ==> !TooMuch(v, l, r, fileSize, limit)
      {
        var more := OverlapInLevel(v, level + 1, r);
        if more {
          break;
        }
        var much := GrandparentsTooMuch(v, level + 2, r, fileSize, limit);
        if much {
          break;
        }
        level := level + 1;
      }
    }
  }

  // The version with the file added to a level.
  ghost predicate Flushed(v: Version, f: File, level: nat, v': Version) {
    && |v| == |v'| == NUM_LEVELS && level < NUM_LEVELS
    && (forall l :: 0 <= l < NUM_LEVELS && l != level ==> v'[l] == v[l])
    && (forall g :: g in v'[level] <==> g in v[level] || g == f)
    && (forall l :: 1 <= l < NUM_LEVELS && LevelOk(v'[l]) ==> SortedBySmallest(v'[l]))
    && (forall i, j :: 0 <= i < j < |v'[0]| ==> v'[0][i].number != v'[0][j].number)
  }

  // What a file from a memtable is: newer than all that is there, in its number too, and in the way of nothing above it.
  ghost predicate FitsIn(v: Version, f: File, level: nat)
    requires |v| == NUM_LEVELS
  {
    && f.Ok()
    && (forall l, g {:trigger g in v[l]} :: 0 <= l < NUM_LEVELS && g in v[l] ==> NewerFile(f, g))
    && (forall g :: g in v[0] ==> g.number < f.number)
    && (level > 0 ==> forall l :: 0 <= l <= level && l < NUM_LEVELS ==> Clear(v[l], KeyRange(f)))
  }

  // Files with ranges apart share no user key and are in order.
  lemma ClearApart(files: Level, f: File, g: File)
    requires f.Ok() && LevelOk(files) && Clear(files, KeyRange(f)) && g in files
    ensures g.Ok() && NoSharedKey(f, g) && NoSharedKey(g, f) && NewerFile(g, f) && Apart(f, g) && Apart(g, f) && f != g
  {
    var i :| 0 <= i < |files| && files[i] == g;
    assert !KeyRange(f).Touches(g);
    forall e, d | e in f.entries && d in g.entries
      ensures e.key.userKey != d.key.userKey
    {
      KeyInRange(f, e);
      KeyInRange(g, d);
    }
    EntryInFile(f, f.entries[0]);
    EntryInFile(g, g.entries[0]);
  }

  lemma FlushedLevel(v: Version, f: File, level: nat, v': Version)
    requires Shape(v) && |v| == NUM_LEVELS && Flushed(v, f, level, v') && FitsIn(v, f, level)
    ensures LevelOk(v'[level]) && (level > 0 ==> LevelSorted(v'[level]))
  {
    var files := v'[level];
    assert LevelOk(v[level]);
    forall i | 0 <= i < |files|
      ensures files[i].Ok()
    {
      assert files[i] in files;
      if files[i] != f {
        MemberOk(v[level], files[i]);
      }
    }
    if level > 0 {
      assert LevelSorted(v[level]) && Clear(v[level], KeyRange(f));
      forall i, j | 0 <= i < j < |files|
        ensures Apart(files[i], files[j])
      {
        assert files[i] in files && files[j] in files && files[i] != files[j];
        if files[i] == f {
          ClearApart(v[level], f, files[j]);
        } else if files[j] == f {
          ClearApart(v[level], f, files[i]);
        } else {
          SortedFilesApart(v[level], files[i], files[j]);
        }
      }
      ApartFilesSorted(files);
    }
  }

  lemma FlushedOrder(v: Version, f: File, level: nat, v': Version, a: nat, b: nat)
    requires Shape(v) && |v| == NUM_LEVELS && Flushed(v, f, level, v') && FitsIn(v, f, level) && a < b < NUM_LEVELS
    ensures NewerLevel(v'[a], v'[b])
  {
    assert NewerLevel(v[a], v[b]);
    forall g, h {:trigger NewerFile(g, h)} | g in v'[a] && h in v'[b]
      ensures NewerFile(g, h)
    {
      if a == level && g == f {
      } else if b == level && h == f {
        ClearApart(v[a], f, g);
      }
    }
  }

  lemma FlushedZero(v: Version, f: File, level: nat, v': Version)
    requires Shape(v) && |v| == NUM_LEVELS && Flushed(v, f, level, v') && FitsIn(v, f, level)
    ensures forall g, h {:trigger NewerFile(g, h)} :: g in v'[0] && h in v'[0] && g.number > h.number ==> NewerFile(g, h)
  {
  }

  lemma FlushedApart(v: Version, f: File, level: nat, v': Version)
    requires Shape(v) && |v| == NUM_LEVELS && Flushed(v, f, level, v') && FitsIn(v, f, level) && level > 0 && UserKeysApart(v[level])
    ensures UserKeysApart(v'[level])
  {
    forall g, h {:trigger NoSharedKey(g, h)} | g in v'[level] && h in v'[level] && g != h
      ensures NoSharedKey(g, h)
    {
      if g == f {
        ClearApart(v[level], f, h);
      } else if h == f {
        ClearApart(v[level], f, g);
      }
    }
  }

  /** A version that gets the file of a memtable stays tidy. */
  lemma FlushKeepsTidy(v: Version, f: File, level: nat, v': Version)
    requires Tidy(v) && |v| == NUM_LEVELS && Flushed(v, f, level, v') && FitsIn(v, f, level)
    ensures Tidy(v')
  {
    hide FitsIn, UserKeysApart, NewerLevel, LevelOk, LevelSorted, SortedBySmallest;
    FlushedLevel(v, f, level, v');
    FlushedZero(v, f, level, v');
    forall a, b {:trigger NewerLevel(v'[a], v'[b])} | 0 <= a < b < NUM_LEVELS
      ensures NewerLevel(v'[a], v'[b])
    {
      FlushedOrder(v, f, level, v', a, b);
    }
    if level > 0 {
      FlushedApart(v, f, level, v');
    }
    forall l {:trigger UserKeysApart(v'[l])} | 1 <= l < NUM_LEVELS
      ensures UserKeysApart(v'[l])
    {
      assert UserKeysApart(v[l]);
    }
  }

  lemma FlushedEntries(v: Version, f: File, level: nat, v': Version)
    requires |v| == NUM_LEVELS && Flushed(v, f, level, v')
    ensures AllEntries(v') == FileEntries(f) + AllEntries(v)
  {
    forall e
      ensures e in AllEntries(v') <==> e in FileEntries(f) + AllEntries(v)
    {
      EntriesFromIn(v', 0, e);
      EntriesFromIn(v, 0, e);
      assert e in LevelEntries(v'[level]) <==> e in f.entries || e in LevelEntries(v[level]);
    }
  }

  lemma NewerThanAll(v: Version, f: File, level: nat, e: Entry, d: Entry)
    requires |v| == NUM_LEVELS && FitsIn(v, f, level) && e in FileEntries(f) && d in AllEntries(v) && e.key.userKey == d.key.userKey
    ensures Newer(e.key, d.key)
  {
    EntriesFromIn(v, 0, d);
    var l :| 0 <= l < NUM_LEVELS && d in LevelEntries(v[l]);
    var g :| g in v[l] && d in g.entries;
    assert NewerFile(f, g);
  }

  /** Reads find what is in the file, and below it what they found before. */
  lemma FlushReads(v: Version, f: File, level: nat, v': Version, k: UserKey, s: nat)
    requires Tidy(v) && |v| == NUM_LEVELS && Flushed(v, f, level, v') && FitsIn(v, f, level)
    ensures Shape(v) && Shape(v')
    ensures SearchFrom(v', 0, k, s) == if Probe(f, k, s).Some? then Probe(f, k, s) else SearchFrom(v, 0, k, s)
  {
    hide SearchFrom, Probe, Newest, Flushed, UserKeysApart;
    FlushKeepsTidy(v, f, level, v');
    ProbeIsNewest(f, k, s);
    SearchIsNewest(v, k, s);
    SearchIsNewest(v', k, s);
    FlushedEntries(v, f, level, v');
    forall e, d | e in FileEntries(f) && d in AllEntries(v) && e.key.userKey == d.key.userKey
      ensures Newer(e.key, d.key)
    {
      NewerThanAll(v, f, level, e, d);
    }
    SearchInOrder(FileEntries(f), AllEntries(v), k, s, Probe(f, k, s), SearchFrom(v, 0, k, s));
    NewestUnique(AllEntries(v'), k, s, SearchFrom(v', 0, k, s), if Probe(f, k, s).Some? then Probe(f, k, s) else SearchFrom(v, 0, k, s));
  }
}
