/** What installing a compaction changes: exactly when no read at or above the smallest live snapshot. */
module CompactionReads {
  import opened Options
  import opened InternalKeys
  import opened LsmTree
  import opened CompactionSpec

  ghost predicate FilesOk(files: Level) {
    forall f :: f in files ==> f.entries != [] && f.Ok()
  }

  // g overlaps the range of user keys that the inputs span.
  ghost predicate OverlapsSpan(inputs: Level, g: File)
    requires g.Ok() && FilesOk(inputs)
  {
    (exists f :: f in inputs && f.Smallest().userKey <= g.Largest().userKey) &&
    (exists f :: f in inputs && g.Smallest().userKey <= f.Largest().userKey)
  }

  // No user key is both in a chosen file and in one of the level's other files.
  ghost predicate KeysNotShared(files: Level, chosen: Level) {
    forall f, g {:trigger NoSharedKey(f, g)} :: f in chosen && g in files && g !in chosen ==> NoSharedKey(f, g)
  }

  ghost predicate NoSharedKey(f: File, g: File) {
    forall e, d :: e in f.entries && d in g.entries ==> e.key.userKey != d.key.userKey
  }

  /** The inputs: some files of one level, and exactly the files of the next level that overlap their range. */
  ghost predicate Inputs(v: Version, level: nat, inputs0: Level, inputs1: Level) {
    Shape(v) && level + 1 < NUM_LEVELS &&
    (forall f :: f in inputs0 ==> f in v[level]) && FilesOk(inputs0) && FilesOk(v[level + 1]) &&
    (forall g :: g in inputs1 <==> g in v[level + 1] && OverlapsSpan(inputs0, g))
  }

  // No user key is shared with a file left out of either level.
  ghost predicate Unshared(v: Version, level: nat, inputs0: Level, inputs1: Level)
    requires level + 1 < |v|
  {
    KeysNotShared(v[level], inputs0) && KeysNotShared(v[level + 1], inputs1)
  }

  ghost predicate MergedInput(inputs0: Level, inputs1: Level, merged: seq<Entry>) {
    Sorted(merged) && forall e :: e in merged <==> e in LevelEntries(inputs0) + LevelEntries(inputs1)
  }

  // Different files, by smallest key.
  ghost predicate SortedBySmallest(files: Level)
    requires LevelOk(files)
  {
    forall i, j :: 0 <= i < j < |files| ==> files[i] != files[j] && !Before(files[j].Smallest(), files[i].Smallest())
  }

  // The version after the edit: inputs deleted, outputs added to the next level, levels sorted.
  ghost predicate Installed(v: Version, level: nat, inputs0: Level, inputs1: Level, outputs: Level, v': Version)
    requires |v| == NUM_LEVELS && level + 1 < NUM_LEVELS
  {
    |v'| == NUM_LEVELS &&
    (forall l :: 0 <= l < NUM_LEVELS && l != level && l != level + 1 ==> v'[l] == v[l]) &&
    (forall f :: f in v'[level] <==> f in v[level] && f !in inputs0) &&
    (forall f :: f in v'[level + 1] <==> (f in v[level + 1] && f !in inputs1) || f in outputs) &&
    (forall l :: 1 <= l < NUM_LEVELS && LevelOk(v'[l]) ==> SortedBySmallest(v'[l])) &&
    (forall i, j :: 0 <= i < j < |v'[0]| ==> v'[0][i].number != v'[0][j].number)
  }

  // The outputs cut the kept entries into files.
  ghost predicate Outputs(v: Version, level: nat, smallestSnapshot: nat, merged: seq<Entry>, outputs: Level)
    requires Shape(v)
  {
    (forall i :: 0 <= i < |outputs| ==> outputs[i].entries != []) &&
    Concat(Contents(outputs)) == Kept(v, level, smallestSnapshot, merged, |merged|)
  }

  function Contents(files: Level): seq<seq<Entry>> {
    seq(|files|, i requires 0 <= i < |files| => files[i].entries)
  }

  // ----- the kept entries -----

  lemma {:induction false} KeptElements(v: Version, level: nat, snap: nat, merged: seq<Entry>, n: nat, e: Entry)
    requires Shape(v) && n <= |merged|
    ensures e in Kept(v, level, snap, merged, n) <==>
            exists i :: 0 <= i < n && merged[i] == e && !Dropped(v, level, snap, merged, i)
  {
    if n > 0 {
      KeptElements(v, level, snap, merged, n - 1, e);
    }
  }

  lemma {:induction false} KeptSorted(v: Version, level: nat, snap: nat, merged: seq<Entry>, n: nat)
    requires Shape(v) && n <= |merged| && Sorted(merged)
    ensures Sorted(Kept(v, level, snap, merged, n))
  {
    if n > 0 {
      KeptSorted(v, level, snap, merged, n - 1);
      var before := Kept(v, level, snap, merged, n - 1);
      forall i | 0 <= i < |before| ensures Before(before[i].key, merged[n - 1].key) {
        assert before[i] in before;
        KeptElements(v, level, snap, merged, n - 1, before[i]);
      }
    }
  }

  // ----- cutting into files -----

  lemma {:induction false} ConcatElements(pieces: seq<seq<Entry>>, e: Entry)
    ensures e in Concat(pieces) <==> exists i :: 0 <= i < |pieces| && e in pieces[i]
  {
    if pieces != [] {
      ConcatElements(pieces[..|pieces| - 1], e);
    }
  }

  ghost predicate AllBefore(a: seq<Entry>, b: seq<Entry>) {
    forall p, q :: 0 <= p < |a| && 0 <= q < |b| ==> Before(a[p].key, b[q].key)
  }

  lemma SplitSorted(a: seq<Entry>, b: seq<Entry>)
    requires Sorted(a + b)
    ensures Sorted(a) && Sorted(b) && AllBefore(a, b)
  {
    var all := a + b;
    assert forall i :: 0 <= i < |a| ==> all[i] == a[i];
    forall j | 0 <= j < |b| ensures all[|a| + j] == b[j] {}
    forall i, j | 0 <= i < j < |b| ensures Before(b[i].key, b[j].key) {
      assert Before(all[|a| + i].key, all[|a| + j].key);
    }
    forall p, q | 0 <= p < |a| && 0 <= q < |b| ensures Before(a[p].key, b[q].key) {
      assert Before(all[p].key, all[|a| + q].key);
    }
  }

  lemma PieceBefore(pieces: seq<seq<Entry>>, last: seq<Entry>, i: nat)
    requires AllBefore(Concat(pieces), last) && i < |pieces|
    ensures AllBefore(pieces[i], last)
  {
    forall p, q | 0 <= p < |pieces[i]| && 0 <= q < |last| ensures Before(pieces[i][p].key, last[q].key) {
      ConcatElements(pieces, pieces[i][p]);
    }
  }

  lemma {:induction false} ConcatSorted(pieces: seq<seq<Entry>>)
    requires Sorted(Concat(pieces))
    ensures forall i :: 0 <= i < |pieces| ==> Sorted(pieces[i])
    ensures forall i, j :: 0 <= i < j < |pieces| ==> AllBefore(pieces[i], pieces[j])
  {
    if pieces != [] {
      var init, last := pieces[..|pieces| - 1], pieces[|pieces| - 1];
      SplitSorted(Concat(init), last);
      ConcatSorted(init);
      forall i | 0 <= i < |init| ensures AllBefore(pieces[i], last) {
        PieceBefore(init, last, i);
      }
    }
  }

  // ----- the input files -----

  lemma InputFiles(v: Version, level: nat, inputs0: Level, inputs1: Level)
    requires Inputs(v, level, inputs0, inputs1)
    ensures FilesOk(inputs0) && forall f :: f in inputs0 ==> f in v[level]
    ensures FilesOk(inputs1) && forall f :: f in inputs1 ==> f in v[level + 1]
  {
    assert LevelOk(v[level]) && LevelOk(v[level + 1]);
  }

  // Every merged entry comes from an input file.
  lemma FromInput(inputs0: Level, inputs1: Level, merged: seq<Entry>, e: Entry) returns (f: File)
    requires MergedInput(inputs0, inputs1, merged) && e in merged
    ensures e in f.entries && (f in inputs0 || f in inputs1)
  {
    if e in LevelEntries(inputs0) {
      f :| f in inputs0 && e in f.entries;
    } else {
      f :| f in inputs1 && e in f.entries;
    }
  }

  lemma MergedParses(v: Version, level: nat, inputs0: Level, inputs1: Level, merged: seq<Entry>, e: Entry)
    requires Inputs(v, level, inputs0, inputs1) && MergedInput(inputs0, inputs1, merged) && e in merged
    ensures e.key.Parses()
  {
    InputFiles(v, level, inputs0, inputs1);
    var f := FromInput(inputs0, inputs1, merged, e);
  }

  // ----- the output files -----

  lemma OutputEntries(v: Version, level: nat, snap: nat, merged: seq<Entry>, outputs: Level, e: Entry)
    requires Shape(v) && Outputs(v, level, snap, merged, outputs)
    ensures e in LevelEntries(outputs) <==> exists i :: 0 <= i < |merged| && merged[i] == e && !Dropped(v, level, snap, merged, i)
  {
    var pieces := Contents(outputs);
    ConcatElements(pieces, e);
    KeptElements(v, level, snap, merged, |merged|, e);
    if e in LevelEntries(outputs) {
      var f :| f in outputs && e in f.entries;
      var i :| 0 <= i < |outputs| && outputs[i] == f;
      assert e in pieces[i];
    }
    if i :| 0 <= i < |pieces| && e in pieces[i] {
      assert outputs[i] in outputs && e in outputs[i].entries;
    }
  }

  // Every output is a proper file, and an earlier output lies before a later one.
  lemma OutputsAreFiles(v: Version, level: nat, snap: nat, inputs0: Level, inputs1: Level, merged: seq<Entry>, outputs: Level)
    requires Inputs(v, level, inputs0, inputs1) && MergedInput(inputs0, inputs1, merged)
    requires Outputs(v, level, snap, merged, outputs)
    ensures LevelOk(outputs) && LevelSorted(outputs)
  {
    var pieces := Contents(outputs);
    KeptSorted(v, level, snap, merged, |merged|);
    ConcatSorted(pieces);
    forall i | 0 <= i < |outputs| ensures outputs[i].Ok() {
      assert pieces[i] == outputs[i].entries;
      forall p | 0 <= p < |outputs[i].entries| ensures outputs[i].entries[p].key.Parses() {
        var e := outputs[i].entries[p];
        assert outputs[i] in outputs && e in outputs[i].entries;
        OutputEntries(v, level, snap, merged, outputs, e);
        MergedParses(v, level, inputs0, inputs1, merged, e);
      }
    }
    forall i, j | 0 <= i < j < |outputs| ensures Before(outputs[i].Largest(), outputs[j].Smallest()) {
      assert AllBefore(pieces[i], pieces[j]);
    }
  }

  // ----- the new version keeps the shape -----

  lemma MemberOk(files: Level, f: File)
    requires LevelOk(files) && f in files
    ensures f.entries != [] && f.Ok()
  {
  }

  lemma EntryInFile(f: File, e: Entry)
    requires f.Ok() && e in f.entries
    ensures !Before(e.key, f.Smallest()) && !Before(f.Largest(), e.key)
    ensures f.Smallest().userKey <= e.key.userKey <= f.Largest().userKey
  {
    var j :| 0 <= j < |f.entries| && f.entries[j] == e;
  }

  ghost predicate Apart(f: File, g: File)
    requires f.entries != [] && g.entries != []
  {
    Before(f.Largest(), g.Smallest()) || Before(g.Largest(), f.Smallest())
  }

  lemma SortedFilesApart(files: Level, f: File, g: File)
    requires LevelOk(files) && LevelSorted(files) && f in files && g in files && f != g
    ensures f.Ok() && g.Ok() && Apart(f, g)
  {
    var i :| 0 <= i < |files| && files[i] == f;
    var j :| 0 <= j < |files| && files[j] == g;
  }

  // A file left out of the output level, wholly below or above the keys of the input level.
  ghost predicate Below(inputs0: Level, g: File)
    requires g.Ok() && FilesOk(inputs0)
  {
    forall f :: f in inputs0 ==> g.Largest().userKey < f.Smallest().userKey
  }

  ghost predicate Above(inputs0: Level, g: File)
    requires g.Ok() && FilesOk(inputs0)
  {
    forall f :: f in inputs0 ==> f.Largest().userKey < g.Smallest().userKey
  }

  lemma LeftOut(v: Version, level: nat, inputs0: Level, inputs1: Level, g: File)
    requires Inputs(v, level, inputs0, inputs1) && g in v[level + 1] && g !in inputs1
    ensures g.Ok() && FilesOk(inputs0) && FilesOk(inputs1)
    ensures Below(inputs0, g) || Above(inputs0, g)
    ensures forall f :: f in inputs1 ==> OverlapsSpan(inputs0, f) && Apart(f, g)
  {
    InputFiles(v, level, inputs0, inputs1);
    assert LevelOk(v[level + 1]) && LevelSorted(v[level + 1]) && g.Ok();
    assert !OverlapsSpan(inputs0, g);
    forall f | f in inputs1 ensures Apart(f, g) {
      SortedFilesApart(v[level + 1], f, g);
    }
  }

  lemma OneSideOf(inputs0: Level, inputs1: Level, merged: seq<Entry>, g: File, e: Entry)
    requires MergedInput(inputs0, inputs1, merged) && e in merged
    requires g.Ok() && FilesOk(inputs0) && FilesOk(inputs1)
    requires forall f :: f in inputs1 ==> OverlapsSpan(inputs0, f) && Apart(f, g)
    ensures Below(inputs0, g) ==> Before(g.Largest(), e.key)
    ensures Above(inputs0, g) ==> Before(e.key, g.Smallest())
  {
    var f := FromInput(inputs0, inputs1, merged, e);
    EntryInFile(f, e);
    if f !in inputs0 {
      if Below(inputs0, g) {
        OverlapNotBefore(inputs0, f, g);
      }
      if Above(inputs0, g) {
        OverlapNotAfter(inputs0, f, g);
      }
    }
  }

  // Such a file lies wholly before or wholly after everything compacted.
  lemma OneSide(v: Version, level: nat, inputs0: Level, inputs1: Level, merged: seq<Entry>, g: File)
    requires Inputs(v, level, inputs0, inputs1) && MergedInput(inputs0, inputs1, merged)
    requires g in v[level + 1] && g !in inputs1
    ensures g.Ok()
    ensures (forall e :: e in merged ==> Before(g.Largest(), e.key)) || (forall e :: e in merged ==> Before(e.key, g.Smallest()))
  {
    LeftOut(v, level, inputs0, inputs1, g);
    forall e | e in merged
      ensures if Below(inputs0, g) then Before(g.Largest(), e.key) else Before(e.key, g.Smallest())
    {
      OneSideOf(inputs0, inputs1, merged, g, e);
    }
  }

  lemma OverlapNotBefore(inputs0: Level, f: File, g: File)
    requires FilesOk(inputs0) && f.Ok() && g.Ok() && OverlapsSpan(inputs0, f)
    requires Below(inputs0, g)
    ensures !Before(f.Largest(), g.Smallest())
  {
    EntryInFile(g, g.entries[0]);
    EntryInFile(f, f.entries[0]);
  }

  lemma OverlapNotAfter(inputs0: Level, f: File, g: File)
    requires FilesOk(inputs0) && f.Ok() && g.Ok() && OverlapsSpan(inputs0, f)
    requires Above(inputs0, g)
    ensures !Before(g.Largest(), f.Smallest())
  {
    EntryInFile(g, g.entries[0]);
    EntryInFile(f, f.entries[0]);
  }

  lemma ApartFilesSorted(files: Level)
    requires LevelOk(files) && SortedBySmallest(files)
    requires forall i, j :: 0 <= i < j < |files| ==> Apart(files[i], files[j])
    ensures LevelSorted(files)
  {
    forall i, j | 0 <= i < j < |files| ensures Before(files[i].Largest(), files[j].Smallest()) {
      EntryInFile(files[j], files[j].entries[|files[j].entries| - 1]);
    }
  }

  // What the rest of the proof needs of one installed compaction.
  ghost predicate Setting(v: Version, level: nat, snap: nat, inputs0: Level, inputs1: Level, merged: seq<Entry>,
                          outputs: Level, v': Version)
  {
    Inputs(v, level, inputs0, inputs1) && MergedInput(inputs0, inputs1, merged) &&
    Outputs(v, level, snap, merged, outputs) && Installed(v, level, inputs0, inputs1, outputs, v')
  }

  lemma OutputApart(v: Version, level: nat, snap: nat, inputs0: Level, inputs1: Level, merged: seq<Entry>, outputs: Level,
                    f: File, g: File)
    requires Inputs(v, level, inputs0, inputs1) && MergedInput(inputs0, inputs1, merged)
    requires Outputs(v, level, snap, merged, outputs)
    requires f in outputs && f.Ok() && g in v[level + 1] && g !in inputs1
    ensures g.Ok() && Apart(f, g) && Apart(g, f)
  {
    OneSide(v, level, inputs0, inputs1, merged, g);
    assert f.entries[0] in f.entries && f.entries[|f.entries| - 1] in f.entries;
    OutputEntries(v, level, snap, merged, outputs, f.entries[0]);
    OutputEntries(v, level, snap, merged, outputs, f.entries[|f.entries| - 1]);
  }

  lemma OutputLevelSorted(v: Version, level: nat, snap: nat, inputs0: Level, inputs1: Level, merged: seq<Entry>,
                          outputs: Level, v': Version)
    requires Setting(v, level, snap, inputs0, inputs1, merged, outputs, v')
    ensures LevelOk(v'[level + 1]) && LevelSorted(v'[level + 1])
  {
    var files := v'[level + 1];
    OutputsAreFiles(v, level, snap, inputs0, inputs1, merged, outputs);
    assert LevelOk(v[level + 1]) && LevelSorted(v[level + 1]);
    forall i | 0 <= i < |files| ensures files[i].Ok() {
      assert files[i] in files;
      MemberOk(if files[i] in outputs then outputs else v[level + 1], files[i]);
    }
    forall i, j | 0 <= i < j < |files| ensures Apart(files[i], files[j]) {
      var f, g := files[i], files[j];
      assert f in files && g in files && f != g;
      if f in outputs && g in outputs {
        SortedFilesApart(outputs, f, g);
      } else if f in outputs {
        OutputApart(v, level, snap, inputs0, inputs1, merged, outputs, f, g);
      } else if g in outputs {
        OutputApart(v, level, snap, inputs0, inputs1, merged, outputs, g, f);
      } else {
        SortedFilesApart(v[level + 1], f, g);
      }
    }
    ApartFilesSorted(files);
  }

  lemma InputLevelSorted(v: Version, level: nat, snap: nat, inputs0: Level, inputs1: Level, merged: seq<Entry>,
                         outputs: Level, v': Version)
    requires Setting(v, level, snap, inputs0, inputs1, merged, outputs, v')
    ensures LevelOk(v'[level]) && (level > 0 ==> LevelSorted(v'[level]))
  {
    var files := v'[level];
    assert LevelOk(v[level]);
    forall i | 0 <= i < |files| ensures files[i].Ok() {
      assert files[i] in files;
      MemberOk(v[level], files[i]);
    }
    if level > 0 {
      forall i, j | 0 <= i < j < |files| ensures Apart(files[i], files[j]) {
        assert files[i] in files && files[j] in files && files[i] != files[j];
        SortedFilesApart(v[level], files[i], files[j]);
      }
      ApartFilesSorted(files);
    }
  }

  // An output entry is as old as the input file it came from, so it stays older than what lies above.
  lemma OutputBelow(v: Version, level: nat, snap: nat, inputs0: Level, inputs1: Level, merged: seq<Entry>, outputs: Level,
                    a: nat, f: File, g: File)
    requires Inputs(v, level, inputs0, inputs1) && MergedInput(inputs0, inputs1, merged)
    requires Outputs(v, level, snap, merged, outputs)
    requires KeysNotShared(v[level], inputs0) && a <= level && f in v[a] && (a == level ==> f !in inputs0) && g in outputs
    ensures NewerFile(f, g)
  {
    InputFiles(v, level, inputs0, inputs1);
    assert a == level ==> forall h :: h in inputs0 ==> NoSharedKey(h, f);
    forall e, d | e in f.entries && d in g.entries && e.key.userKey == d.key.userKey ensures Newer(e.key, d.key) {
      OutputEntries(v, level, snap, merged, outputs, d);
      var h := FromInput(inputs0, inputs1, merged, d);
      if a < level || h in inputs1 {
        assert NewerLevel(v[a], v[if h in inputs0 then level else level + 1]) && NewerFile(f, h);
      }
    }
  }

  lemma OutputAbove(v: Version, level: nat, snap: nat, inputs0: Level, inputs1: Level, merged: seq<Entry>, outputs: Level,
                    b: nat, f: File, g: File)
    requires Inputs(v, level, inputs0, inputs1) && MergedInput(inputs0, inputs1, merged)
    requires Outputs(v, level, snap, merged, outputs)
    requires level + 1 < b < NUM_LEVELS && f in outputs && g in v[b]
    ensures NewerFile(f, g)
  {
    InputFiles(v, level, inputs0, inputs1);
    forall e, d | e in f.entries && d in g.entries && e.key.userKey == d.key.userKey ensures Newer(e.key, d.key) {
      OutputEntries(v, level, snap, merged, outputs, e);
      var h := FromInput(inputs0, inputs1, merged, e);
      assert NewerLevel(v[if h in inputs0 then level else level + 1], v[b]) && NewerFile(h, g);
    }
  }

  /** Every level of the new version can be searched. */
  lemma CompactionKeepsSearchable(v: Version, level: nat, snap: nat, inputs0: Level, inputs1: Level, merged: seq<Entry>,
                                  outputs: Level, v': Version)
    requires Setting(v, level, snap, inputs0, inputs1, merged, outputs, v')
    ensures Searchable(v')
  {
    OutputLevelSorted(v, level, snap, inputs0, inputs1, merged, outputs, v');
    InputLevelSorted(v, level, snap, inputs0, inputs1, merged, outputs, v');
  }

  /** The new version has newer data above older again, when the inputs share no user key with a file left out
      of their level. */
  lemma CompactionKeepsShape(v: Version, level: nat, snap: nat, inputs0: Level, inputs1: Level, merged: seq<Entry>,
                             outputs: Level, v': Version)
    requires Setting(v, level, snap, inputs0, inputs1, merged, outputs, v') && KeysNotShared(v[level], inputs0)
    ensures Shape(v')
  {
    CompactionKeepsSearchable(v, level, snap, inputs0, inputs1, merged, outputs, v');
    forall a, b | 0 <= a < b < NUM_LEVELS ensures NewerLevel(v'[a], v'[b]) {
      assert NewerLevel(v[a], v[b]);
      forall f, g | f in v'[a] && g in v'[b] ensures NewerFile(f, g) {
        if b == level + 1 && g in outputs {
          OutputBelow(v, level, snap, inputs0, inputs1, merged, outputs, a, f, g);
        } else if a == level + 1 && f in outputs {
          OutputAbove(v, level, snap, inputs0, inputs1, merged, outputs, b, f, g);
        }
      }
    }
  }

  // ----- reads -----

  // Where an entry of the new version was in the old one.
  lemma NewEntryIsOld(v: Version, level: nat, snap: nat, inputs0: Level, inputs1: Level, merged: seq<Entry>,
                      outputs: Level, v': Version, e: Entry) returns (l: nat, f: File)
    requires Setting(v, level, snap, inputs0, inputs1, merged, outputs, v') && e in AllEntries(v')
    ensures l < NUM_LEVELS && f in v'[l] && e in f.entries && e in AllEntries(v)
    ensures (l == level + 1 && f in outputs) || (f in v[l] && (l == level ==> f !in inputs0) && (l == level + 1 ==> f !in inputs1))
  {
    EntriesFromIn(v', 0, e);
    l :| 0 <= l < |v'| && e in LevelEntries(v'[l]);
    f :| f in v'[l] && e in f.entries;
    if l == level + 1 && f in outputs {
      OutputEntries(v, level, snap, merged, outputs, e);
      MergedIsOld(v, level, inputs0, inputs1, merged, e);
    } else {
      assert e in LevelEntries(v[l]);
      EntriesFromIn(v, 0, e);
    }
  }

  // What the new version lacks was in the merged input and dropped.
  lemma LostIsDropped(v: Version, level: nat, snap: nat, inputs0: Level, inputs1: Level, merged: seq<Entry>,
                      outputs: Level, v': Version, e: Entry) returns (i: nat)
    requires Setting(v, level, snap, inputs0, inputs1, merged, outputs, v')
    requires e in AllEntries(v) && e !in AllEntries(v')
    ensures i < |merged| && merged[i] == e && Dropped(v, level, snap, merged, i)
  {
    EntriesFromIn(v, 0, e);
    EntriesFromIn(v', 0, e);
    var l :| 0 <= l < |v| && e in LevelEntries(v[l]);
    var f :| f in v[l] && e in f.entries;
    assert f !in v'[l];
    assert e in LevelEntries(inputs0) + LevelEntries(inputs1);
    OutputEntries(v, level, snap, merged, outputs, e);
    assert e !in LevelEntries(v'[level + 1]) && forall g :: g in outputs ==> g in v'[level + 1];
    assert e in merged && e !in LevelEntries(outputs);
    i :| 0 <= i < |merged| && merged[i] == e;
  }

  // After an entry of a user key at or below the snapshot, the older entries of that key are dropped.
  lemma OlderAreDropped(v: Version, level: nat, snap: nat, merged: seq<Entry>, i: nat, j: nat)
    requires Shape(v) && Sorted(merged) && i < j < |merged|
    requires merged[i].key.userKey == merged[j].key.userKey && merged[i].key.sequence <= snap
    requires forall m :: 0 <= m < |merged| ==> merged[m].key.Parses()
    ensures Dropped(v, level, snap, merged, j)
  {
    var m := j - 1;
    assert merged[m].key.userKey == merged[j].key.userKey by {
      if i < m {
        assert Before(merged[i].key, merged[m].key) && Before(merged[m].key, merged[j].key);
      }
    }
    if i < m {
      assert Before(merged[i].key, merged[m].key);
    }
  }

  // An output holds nothing older than an entry of its user key at or below the snapshot.
  lemma NothingOlderInOutputs(v: Version, level: nat, snap: nat, inputs0: Level, inputs1: Level, merged: seq<Entry>,
                              outputs: Level, i: nat, d: Entry)
    requires Inputs(v, level, inputs0, inputs1) && MergedInput(inputs0, inputs1, merged)
    requires Outputs(v, level, snap, merged, outputs)
    requires i < |merged| && merged[i].key.sequence <= snap
    requires d.key.userKey == merged[i].key.userKey && Newer(merged[i].key, d.key)
    ensures d !in LevelEntries(outputs)
  {
    OutputEntries(v, level, snap, merged, outputs, d);
    forall m | 0 <= m < |merged| ensures merged[m].key.Parses() {
      assert merged[m] in merged;
      MergedParses(v, level, inputs0, inputs1, merged, merged[m]);
    }
    forall j | 0 <= j < |merged| && merged[j] == d ensures Dropped(v, level, snap, merged, j) {
      assert Before(merged[i].key, merged[j].key);
      OlderAreDropped(v, level, snap, merged, i, j);
    }
  }

  // The newest visible entry of its key is only ever dropped as an obsolete deletion marker.
  lemma NewestDropIsDeletion(v: Version, level: nat, snap: nat, inputs0: Level, inputs1: Level, merged: seq<Entry>,
                             i: nat, k: UserKey, s: nat)
    requires Inputs(v, level, inputs0, inputs1) && MergedInput(inputs0, inputs1, merged)
    requires snap <= s && snap < MAX_SEQUENCE && i < |merged| && Dropped(v, level, snap, merged, i)
    requires Newest(AllEntries(v), k, s, Some(merged[i]))
    ensures merged[i].key.tag == TYPE_DELETION && merged[i].key.sequence <= snap
    ensures BaseLevel(v, level, merged[i].key.userKey)
  {
    if 0 < i {
      assert merged[i - 1] in merged && Before(merged[i - 1].key, merged[i].key);
      MergedIsOld(v, level, inputs0, inputs1, merged, merged[i - 1]);
    }
  }

  lemma MergedIsOld(v: Version, level: nat, inputs0: Level, inputs1: Level, merged: seq<Entry>, e: Entry)
    requires Inputs(v, level, inputs0, inputs1) && MergedInput(inputs0, inputs1, merged) && e in merged
    ensures e in AllEntries(v)
  {
    InputFiles(v, level, inputs0, inputs1);
    var h := FromInput(inputs0, inputs1, merged, e);
    assert e in LevelEntries(v[if h in inputs0 then level else level + 1]);
    EntriesFromIn(v, 0, e);
  }
}
