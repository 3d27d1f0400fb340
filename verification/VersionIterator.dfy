/** What iterators over a version, or over the inputs of a compaction, merge. */
module VersionIterators {
  import opened Options
  import opened InternalKeys
  import opened LsmTree
  import opened CompactionSpec
  import opened CompactionReads
  import opened MergeSpec
  import opened TwoLevelSpec

  // Level-0 files are merged one by one; the files of another level follow one another.
  function LevelLists(level: nat, files: Level): seq<seq<Entry>> {
    if files == [] then [] else if level == 0 then Contents(files) else [Concat(Contents(files))]
  }

  // What the iterator over levels l and deeper merges.
  function VersionLists(v: Version, l: nat): seq<seq<Entry>>
    decreases |v| - l
  {
    if l >= |v| then [] else LevelLists(l, v[l]) + VersionLists(v, l + 1)
  }

  // Some files of a level, in its order.
  ghost predicate PartOfLevel(v: Version, l: nat, files: Level)
    requires Shape(v) && l < NUM_LEVELS
  {
    && (forall f :: f in files ==> f in v[l]) && LevelOk(files)
    && (if l == 0 then forall i, j :: 0 <= i < j < |files| ==> files[i].number != files[j].number else LevelSorted(files))
  }

  ghost predicate InLists(lists: seq<seq<Entry>>, e: Entry) {
    exists i :: 0 <= i < |lists| && e in lists[i]
  }

  // ----- one level -----

  // Files in order, one behind the other, are in order.
  lemma {:induction false} FilesInOrder(files: Level)
    requires LevelOk(files) && LevelSorted(files)
    ensures Sorted(Concat(Contents(files)))
  {
    if files != [] {
      var n := |files| - 1;
      var init, last := files[..n], files[n];
      FilesInOrder(init);
      assert Contents(files) == Contents(init) + [last.entries];
      assert Contents(files)[..n] == Contents(init);
      var a := Concat(Contents(init));
      forall i | 0 <= i < |a|
        ensures Before(a[i].key, last.Smallest())
      {
        ConcatElements(Contents(init), a[i]);
        var m :| 0 <= m < |Contents(init)| && a[i] in Contents(init)[m];
        EntryBelowLargest(files[m], a[i]);
        BeforeIsStrictTotalOrder(a[i].key, files[m].Largest(), last.Smallest());
      }
      SortedBehind(a, last.entries);
    }
  }

  lemma EntryBelowLargest(f: File, e: Entry)
    requires f.Ok() && e in f.entries
    ensures e.key == f.Largest() || Before(e.key, f.Largest())
  {
    var i :| 0 <= i < |f.entries| && f.entries[i] == e;
  }

  lemma SortedBehind(a: seq<Entry>, b: seq<Entry>)
    requires Sorted(a) && Sorted(b) && b != [] && forall i :: 0 <= i < |a| ==> Before(a[i].key, b[0].key)
    ensures Sorted(a + b)
  {
    forall i, j | 0 <= i < |a| && 0 <= j < |b|
      ensures Before(a[i].key, b[j].key)
    {
      BeforeIsStrictTotalOrder(a[i].key, b[0].key, b[j].key);
    }
  }

  lemma LevelMergeable(v: Version, l: nat, files: Level)
    requires Shape(v) && l < NUM_LEVELS && PartOfLevel(v, l, files)
    ensures Mergeable(LevelLists(l, files))
  {
    if files != [] && l > 0 {
      FilesInOrder(files);
    } else if files != [] {
      forall i, j | 0 <= i < j < |files|
        ensures DisjointKeys(files[i].entries, files[j].entries)
      {
        ApartInLevelZero(v, files[i], files[j]);
      }
    }
  }

  lemma ApartInLevelZero(v: Version, f: File, g: File)
    requires Shape(v) && f in v[0] && g in v[0] && f.number != g.number
    ensures DisjointKeys(f.entries, g.entries)
  {
    assert NewerFile(f, g) || NewerFile(g, f);
  }

  // The lists of a level hold its entries.
  lemma LevelHolds(l: nat, files: Level, e: Entry)
    ensures InLists(LevelLists(l, files), e) <==> e in LevelEntries(files)
  {
    ConcatElements(Contents(files), e);
    if e in LevelEntries(files) {
      var f :| f in files && e in f.entries;
      var i :| 0 <= i < |files| && files[i] == f;
      assert e in Contents(files)[i];
      assert e in LevelLists(l, files)[if l == 0 then i else 0];
    }
  }

  // ----- several levels -----

  lemma BothHold(a: seq<seq<Entry>>, b: seq<seq<Entry>>, e: Entry)
    ensures InLists(a + b, e) <==> InLists(a, e) || InLists(b, e)
  {
    if InLists(a, e) {
      var i :| 0 <= i < |a| && e in a[i];
      assert e in (a + b)[i];
    }
    if InLists(b, e) {
      var i :| 0 <= i < |b| && e in b[i];
      assert e in (a + b)[|a| + i];
    }
  }

  // No key is in a list here and in one there.
  ghost predicate Apart(a: seq<seq<Entry>>, b: seq<seq<Entry>>) {
    forall e, d :: InLists(a, e) && InLists(b, d) ==> e.key != d.key
  }

  lemma BothMergeable(a: seq<seq<Entry>>, b: seq<seq<Entry>>)
    requires Mergeable(a) && Mergeable(b) && Apart(a, b)
    ensures Mergeable(a + b)
  {
    forall i, j | 0 <= i < |a| && 0 <= j < |b|
      ensures DisjointKeys(a[i], b[j])
    {
      forall p, q | 0 <= p < |a[i]| && 0 <= q < |b[j]|
        ensures a[i][p].key != b[j][q].key
      {
        assert InLists(a, a[i][p]) && InLists(b, b[j][q]);
      }
    }
  }

  // ----- the inputs of a compaction -----

  /** The merging iterator over a compaction's inputs yields its merged input. */
  lemma CompactionMerges(v: Version, level: nat, inputs0: Level, inputs1: Level)
    requires Inputs(v, level, inputs0, inputs1) && PartOfLevel(v, level, inputs0) && PartOfLevel(v, level + 1, inputs1)
    ensures var lists := LevelLists(level, inputs0) + LevelLists(level + 1, inputs1);
            Mergeable(lists) && MergedInput(inputs0, inputs1, Union(lists))
  {
    hide Inputs, Mergeable, InLists, LevelLists, Union, PartOfLevel, Shape;
    var a, b := LevelLists(level, inputs0), LevelLists(level + 1, inputs1);
    InputsShape(v, level, inputs0, inputs1);
    LevelMergeable(v, level, inputs0);
    LevelMergeable(v, level + 1, inputs1);
    InputsApart(v, level, inputs0, inputs1);
    BothMergeable(a, b);
    UnionHolds(a + b);
    forall e
      ensures InLists(a + b, e) <==> e in LevelEntries(inputs0) + LevelEntries(inputs1)
    {
      BothHold(a, b, e);
      LevelHolds(level, inputs0, e);
      LevelHolds(level + 1, inputs1, e);
    }
  }

  lemma InputsShape(v: Version, level: nat, inputs0: Level, inputs1: Level)
    requires Inputs(v, level, inputs0, inputs1)
    ensures Shape(v) && level + 1 < NUM_LEVELS
  {
  }

  // What the merging iterator yields is what its lists hold.
  lemma UnionHolds(lists: seq<seq<Entry>>)
    requires Mergeable(lists)
    ensures Sorted(Union(lists)) && forall e :: e in Union(lists) <==> InLists(lists, e)
  {
    UnionIsSortedUnion(lists);
  }

  // Entries of different levels have different keys.
  lemma LevelsApart(v: Version, l: nat, m: nat, e: Entry, d: Entry)
    requires Shape(v) && l < m < NUM_LEVELS && e in LevelEntries(v[l]) && d in LevelEntries(v[m])
    ensures e.key != d.key
  {
    EntriesFromIn(v, l + 1, d);
    if e.key == d.key {
      NewerThanBelow(v, l, e, d);
      assert false;
    }
  }

  lemma PartEntries(v: Version, l: nat, files: Level, e: Entry)
    requires Shape(v) && l < NUM_LEVELS && PartOfLevel(v, l, files) && e in LevelEntries(files)
    ensures e in LevelEntries(v[l])
  {
    var f :| f in files && e in f.entries;
    assert f in v[l];
  }

  lemma InputsApart(v: Version, level: nat, inputs0: Level, inputs1: Level)
    requires Shape(v) && level + 1 < NUM_LEVELS && PartOfLevel(v, level, inputs0) && PartOfLevel(v, level + 1, inputs1)
    ensures Apart(LevelLists(level, inputs0), LevelLists(level + 1, inputs1))
  {
    hide InLists, LevelLists, PartOfLevel, Shape;
    forall e, d | InLists(LevelLists(level, inputs0), e) && InLists(LevelLists(level + 1, inputs1), d)
      ensures e.key != d.key
    {
      LevelHolds(level, inputs0, e);
      LevelHolds(level + 1, inputs1, d);
      PartEntries(v, level, inputs0, e);
      PartEntries(v, level + 1, inputs1, d);
      LevelsApart(v, level, level + 1, e, d);
    }
  }

  // ----- a whole version -----

  lemma {:induction false} VersionHolds(v: Version, l: nat, e: Entry)
    ensures InLists(VersionLists(v, l), e) <==> e in EntriesFrom(v, l)
    decreases |v| - l
  {
    hide InLists, LevelLists;
    if l < |v| {
      VersionHolds(v, l + 1, e);
      LevelHolds(l, v[l], e);
      BothHold(LevelLists(l, v[l]), VersionLists(v, l + 1), e);
    } else {
      NoLists(e);
    }
  }

  lemma NoLists(e: Entry)
    ensures !InLists([], e)
  {
  }

  lemma WholeLevel(v: Version, l: nat)
    requires Shape(v) && l < NUM_LEVELS
    ensures PartOfLevel(v, l, v[l])
  {
  }

  lemma NothingToMerge()
    ensures Mergeable([])
  {
  }

  lemma {:induction false} VersionMergeable(v: Version, l: nat)
    requires Shape(v) && l <= NUM_LEVELS
    ensures Mergeable(VersionLists(v, l))
    decreases NUM_LEVELS - l
  {
    hide InLists, LevelLists, PartOfLevel, Mergeable, Apart;
    if l < NUM_LEVELS {
      VersionMergeable(v, l + 1);
      WholeLevel(v, l);
      LevelMergeable(v, l, v[l]);
      BelowApart(v, l);
      BothMergeable(LevelLists(l, v[l]), VersionLists(v, l + 1));
    } else {
      NothingToMerge();
    }
  }

  lemma BelowApart(v: Version, l: nat)
    requires Shape(v) && l < NUM_LEVELS
    ensures Apart(LevelLists(l, v[l]), VersionLists(v, l + 1))
  {
    hide InLists, LevelLists, VersionLists;
    forall e, d | InLists(LevelLists(l, v[l]), e) && InLists(VersionLists(v, l + 1), d)
      ensures e.key != d.key
    {
      LevelHolds(l, v[l], e);
      VersionHolds(v, l + 1, d);
      if e.key == d.key {
        NewerThanBelow(v, l, e, d);
        assert false;
      }
    }
  }

  // In a sorted list, the first visible entry of a user key is its newest.
  lemma FirstVisibleIsNewest(es: seq<Entry>, k: UserKey, s: nat)
    requires Sorted(es) && forall i :: 0 <= i < |es| ==> es[i].key.Parses()
    ensures Newest((set e | e in es), k, s, FirstVisible(es, s, k))
  {
    var i := FirstVisibleDecides(es, s, k);
    var r := FirstVisible(es, s, k);
    forall e | e in es && Seen(e, k, s)
      ensures r.Some? && (e == r.value || Newer(r.value.key, e.key))
    {
      var j :| 0 <= j < |es| && es[j] == e;
      assert Visible(es, s, j);
    }
  }

  /** Iterators and point reads agree: what an iterator over a version sees of a user key at a sequence number is
      what a point read that stops at the first file with data returns. */
  lemma IteratorsAgreeWithGet(v: Version, k: UserKey, s: nat)
    requires Shape(v)
    ensures Sorted(Union(VersionLists(v, 0))) && Lookup(Union(VersionLists(v, 0)), s, k) == Get(v, k, s)
  {
    hide Mergeable, InLists, VersionLists, Union, Newest, FirstVisible, Shape;
    var es := Union(VersionLists(v, 0));
    VersionMergeable(v, 0);
    UnionHolds(VersionLists(v, 0));
    forall e
      ensures e in es <==> e in AllEntries(v)
    {
      VersionHolds(v, 0, e);
    }
    assert (set e | e in es) == AllEntries(v);
    AllParse(v);
    FirstVisibleIsNewest(es, k, s);
    NewestIsGet(v, es, k, s);
  }

  lemma NewestIsGet(v: Version, es: seq<Entry>, k: UserKey, s: nat)
    requires Shape(v) && Newest(AllEntries(v), k, s, FirstVisible(es, s, k))
    ensures Lookup(es, s, k) == Get(v, k, s)
  {
    hide Newest, FirstVisible;
    SearchIsNewest(v, k, s);
    NewestUnique(AllEntries(v), k, s, FirstVisible(es, s, k), SearchFrom(v, 0, k, s));
  }

  lemma AllParse(v: Version)
    requires Shape(v)
    ensures forall e :: e in AllEntries(v) ==> e.key.Parses()
  {
    forall e | e in AllEntries(v)
      ensures e.key.Parses()
    {
      EntriesFromIn(v, 0, e);
      var m :| 0 <= m < |v| && e in LevelEntries(v[m]);
      var f :| f in v[m] && e in f.entries;
    }
  }

  // ----- files one behind the other -----

  // The index of a level's files: their largest keys, and how to find them.
  function FileIndexOf(files: Level, handle: File -> Bytes): seq<Entry>
    requires forall i :: 0 <= i < |files| ==> files[i].entries != []
  {
    seq(|files|, i requires 0 <= i < |files| => Entry(files[i].Largest(), handle(files[i])))
  }

  /** The files of a sorted level, indexed by their largest keys, can be iterated over as blocks. */
  lemma FilesAreIndexed(files: Level, handle: File -> Bytes)
    requires LevelOk(files) && LevelSorted(files)
    requires forall i, j :: 0 <= i < j < |files| ==> handle(files[i]) != handle(files[j])
    ensures Indexed(FileIndexOf(files, handle), Contents(files))
  {
    var index, blocks := FileIndexOf(files, handle), Contents(files);
    forall i {:trigger Separates(index, blocks, i)} | 0 <= i < |index|
      ensures Separates(index, blocks, i)
    {
      FileSeparates(files, handle, i);
    }
    forall i, j | 0 <= i < j < |index|
      ensures Before(index[i].key, index[j].key)
    {
      assert Separates(index, blocks, i);
      EntryBelowLargest(files[j], files[j].entries[0]);
      BeforeIsStrictTotalOrder(index[i].key, files[j].Smallest(), index[j].key);
    }
  }

  lemma FileSeparates(files: Level, handle: File -> Bytes, i: nat)
    requires LevelOk(files) && LevelSorted(files) && i < |files|
    ensures Separates(FileIndexOf(files, handle), Contents(files), i)
  {
    var index: seq<Entry> := FileIndexOf(files, handle);
    var blocks: seq<seq<Entry>> := Contents(files);
    forall q: nat | q < |blocks[i]|
      ensures !Before(index[i].key, blocks[i][q].key)
    {
      EntryBelowLargest(files[i], files[i].entries[q]);
      BeforeIsStrictTotalOrder(files[i].entries[q].key, files[i].Largest(), files[i].entries[q].key);
    }
    forall j: nat, q: nat | i < j < |blocks| && q < |blocks[j]|
      ensures Before(index[i].key, blocks[j][q].key)
    {
      BeforeIsStrictTotalOrder(files[i].Largest(), files[j].Smallest(), files[j].entries[q].key);
    }
  }

  /** Seeking among the files is the binary search for the file. */
  lemma {:induction false} SeekIsFindFile(files: Level, handle: File -> Bytes, target: InternalKey)
    requires forall i :: 0 <= i < |files| ==> files[i].entries != []
    ensures LowerBound(FileIndexOf(files, handle), target) == FileIndex(files, target)
  {
    if files != [] {
      SeekIsFindFile(files[1..], handle, target);
      assert FileIndexOf(files, handle)[1..] == FileIndexOf(files[1..], handle);
    }
  }
}
