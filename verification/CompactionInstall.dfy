/** Installing a compaction by way of the files' metadata: what the version edit and the builder make of it. */
module CompactionInstalls {
  import opened Options
  import opened Bytes
  import opened WriteBatches
  import opened ByteOrder
  import opened InternalKeyBytes
  import opened RankedKeys
  import opened ManifestFormat
  import opened VersionEdits
  import opened VersionSpec
  import opened Versions
  import InternalKeys
  import Tree = LsmTree
  import Reads = CompactionReads
  import Runs = CompactionRuns

  // ----- the order of the builder -----

  // The order of internal keys; byte strings too short to be one come first.
  predicate KeyLess(a: seq<Byte>, b: seq<Byte>) {
    if IsInternal(a) && IsInternal(b) then Precedes(a, b)
    else if IsInternal(a) || IsInternal(b) then IsInternal(b)
    else ByteOrder.Less(a, b)
  }

  lemma Halves(low: Word, high: Word)
    ensures (low + 0x1_0000_0000 * high) % 0x1_0000_0000 == low && (low + 0x1_0000_0000 * high) / 0x1_0000_0000 == high
  {
  }

  lemma DecodeIsExact(s: seq<Byte>)
    requires |s| == 8
    ensures Fixed64(DecodeFixed64(s)) == s
  {
    hide Fixed32, DecodeFixed32;
    DecodeRoundTrip(s[..4]);
    DecodeRoundTrip(s[4..8]);
    Halves(DecodeFixed32(s[..4]), DecodeFixed32(s[4..8]));
  }

  lemma KeyIsParts(a: seq<Byte>, b: seq<Byte>)
    requires IsInternal(a) && IsInternal(b) && ExtractUserKey(a) == ExtractUserKey(b) && Packed(a) == Packed(b)
    ensures a == b
  {
    DecodeIsExact(a[|a| - 8..]);
    DecodeIsExact(b[|b| - 8..]);
    assert a == a[..|a| - 8] + a[|a| - 8..] && b == b[..|b| - 8] + b[|b| - 8..];
  }

  lemma KeyLessOrders(a: seq<Byte>, b: seq<Byte>, c: seq<Byte>)
    ensures !KeyLess(a, a)
    ensures KeyLess(a, b) || a == b || KeyLess(b, a)
    ensures KeyLess(a, b) && KeyLess(b, c) ==> KeyLess(a, c)
  {
    hide ByteOrder.Less, ExtractUserKey, Packed;
    LessIsStrictTotalOrder(a, b, c);
    if IsInternal(a) {
      LessIsStrictTotalOrder(ExtractUserKey(a), ExtractUserKey(a), ExtractUserKey(a));
      if IsInternal(b) {
        LessIsStrictTotalOrder(ExtractUserKey(a), ExtractUserKey(b), ExtractUserKey(a));
        if ExtractUserKey(a) == ExtractUserKey(b) && Packed(a) == Packed(b) {
          KeyIsParts(a, b);
        }
        if IsInternal(c) {
          LessIsStrictTotalOrder(ExtractUserKey(a), ExtractUserKey(b), ExtractUserKey(c));
        }
      }
    }
  }

  lemma KeyLessIsTotal()
    ensures TotalOrder(KeyLess)
  {
    hide KeyLess;
    forall a, b, c
      ensures !KeyLess(a, a) && (KeyLess(a, b) || a == b || KeyLess(b, a)) && (KeyLess(a, b) && KeyLess(b, c) ==> KeyLess(a, c))
    {
      KeyLessOrders(a, b, c);
    }
  }

  // ----- files by their metadata -----

  // The table file with a number.
  type Directory = Sequence -> Tree.File

  // The metadata is that of the table file with its number.
  ghost predicate Describes(dir: Directory, m: FileMeta) {
    var f := dir(m.number);
    && f.number == m.number && f.entries != []
    && IsInternal(m.smallest) && KeyOf(m.smallest) == f.Smallest()
    && IsInternal(m.largest) && KeyOf(m.largest) == f.Largest()
  }

  function Opened(dir: Directory, ms: seq<FileMeta>): (files: Tree.Level)
    ensures |files| == |ms| && forall i {:trigger files[i]} :: 0 <= i < |ms| ==> files[i] == dir(ms[i].number)
  {
    seq(|ms|, i requires 0 <= i < |ms| => dir(ms[i].number))
  }

  function VersionIn(dir: Directory, v: Levels): (files: Tree.Version)
    ensures |files| == NUM_LEVELS && forall l: LevelNumber :: files[l] == Opened(dir, v[l])
  {
    seq(NUM_LEVELS, l requires 0 <= l < NUM_LEVELS => Opened(dir, v[l]))
  }

  // Files of a level have different numbers.
  ghost predicate NumbersTell(files: set<FileMeta>) {
    forall m, n :: m in files && n in files && m.number == n.number ==> m == n
  }

  ghost predicate LevelKnown(dir: Directory, ms: seq<FileMeta>) {
    SortedFiles(KeyLess, ms) && NumbersTell(Elements(ms)) && forall m :: m in ms ==> Describes(dir, m)
  }

  ghost predicate Known(dir: Directory, v: Levels) {
    forall l: LevelNumber {:trigger v[l]} :: LevelKnown(dir, v[l])
  }

  // A compaction of files of a level and the next, into others.
  datatype Compacted = Compacted(level: LevelNumber, inputs0: seq<FileMeta>, inputs1: seq<FileMeta>, outputs: seq<FileMeta>)

  // The inputs are in the version, and the outputs are described and new to their level.
  ghost predicate Compacts(dir: Directory, v: Levels, c: Compacted) {
    && c.level + 1 < NUM_LEVELS
    && Elements(c.inputs0) <= Elements(v[c.level]) && Elements(c.inputs1) <= Elements(v[c.level + 1])
    && (forall m :: m in c.outputs ==> Describes(dir, m))
    && (forall i, j :: 0 <= i < j < |c.outputs| ==> c.outputs[i].number != c.outputs[j].number)
    && Numbers(Elements(v[c.level + 1])) !! Numbers(Elements(c.outputs))
  }

  // The edit deletes the inputs and adds the outputs to the next level.
  ghost predicate Records(e: Edit, c: Compacted)
    requires c.level + 1 < NUM_LEVELS
  {
    && (forall l: LevelNumber, n: Sequence :: (l, n) in e.deletedFiles <==>
          (l == c.level && n in Numbers(Elements(c.inputs0))) || (l == c.level + 1 && n in Numbers(Elements(c.inputs1))))
    && |e.newFiles| == |c.outputs| && forall i :: 0 <= i < |c.outputs| ==> e.newFiles[i] == (c.level + 1, c.outputs[i])
  }

  // What is in a level after the edit.
  lemma EditedLevel(v: Levels, e: Edit, c: Compacted, l: LevelNumber, m: FileMeta)
    requires c.level + 1 < NUM_LEVELS && Records(e, c)
    requires Numbers(Elements(v[c.level + 1])) !! Numbers(Elements(c.outputs)) && Elements(c.inputs1) <= Elements(v[c.level + 1])
    ensures m in VersionSpec.Applied(Elements(v[l]), e, l) <==>
              || (m in v[l] && (l == c.level ==> m.number !in Numbers(Elements(c.inputs0)))
                            && (l == c.level + 1 ==> m.number !in Numbers(Elements(c.inputs1))))
              || (l == c.level + 1 && m in c.outputs)
  {
    AddedOutputs(e, c, l);
    DeletedInputs(e, c, l);
    if l == c.level + 1 && m in c.outputs {
      assert m in Elements(c.outputs) && m.number in Numbers(Elements(c.outputs));
    }
    if m in v[l] {
      assert m in Elements(v[l]) && m.number in Numbers(Elements(v[l]));
    }
  }

  lemma AddedOutputs(e: Edit, c: Compacted, l: LevelNumber)
    requires c.level + 1 < NUM_LEVELS && Records(e, c)
    ensures Additions(e, l) == if l == c.level + 1 then Elements(c.outputs) else {}
  {
    forall m
      ensures m in Additions(e, l) <==> l == c.level + 1 && m in c.outputs
    {
      if m in Additions(e, l) {
        var i :| 0 <= i < |e.newFiles| && e.newFiles[i] == (l, m);
        assert e.newFiles[i] == (c.level + 1, c.outputs[i]);
      }
      if l == c.level + 1 && m in c.outputs {
        var i :| 0 <= i < |c.outputs| && c.outputs[i] == m;
        assert e.newFiles[i] == (l, m) && (l, m) in e.newFiles;
      }
    }
  }

  lemma DeletedInputs(e: Edit, c: Compacted, l: LevelNumber)
    requires c.level + 1 < NUM_LEVELS && Records(e, c)
    ensures Deletions(e, l) == if l == c.level then Numbers(Elements(c.inputs0)) else if l == c.level + 1 then Numbers(Elements(c.inputs1)) else {}
  {
    forall n: Sequence
      ensures n in Deletions(e, l) <==> (l, n) in e.deletedFiles
    {
      if (l, n) in e.deletedFiles {
        assert (l, n).1 in Deletions(e, l);
      }
    }
  }

  // ----- the new version -----

  // A file is in an opened level as its metadata is in the level.
  lemma OpenedHas(dir: Directory, ms: seq<FileMeta>, f: Tree.File) returns (m: FileMeta)
    requires forall x :: x in ms ==> Describes(dir, x)
    requires f in Opened(dir, ms)
    ensures m in ms && dir(m.number) == f && m.number == f.number
  {
    var i :| 0 <= i < |ms| && dir(ms[i].number) == f;
    m := ms[i];
  }

  lemma OpensIn(dir: Directory, ms: seq<FileMeta>, m: FileMeta)
    requires m in ms
    ensures dir(m.number) in Opened(dir, ms)
  {
    var i :| 0 <= i < |ms| && ms[i] == m;
    assert Opened(dir, ms)[i] == dir(m.number);
  }

  // Among the files of one level, a file is an input when its number is an input's.
  lemma NumberTellsInput(dir: Directory, ms: seq<FileMeta>, ins: seq<FileMeta>, m: FileMeta)
    requires LevelKnown(dir, ms) && Elements(ins) <= Elements(ms) && m in ms
    ensures dir(m.number) in Opened(dir, ins) <==> m.number in Numbers(Elements(ins))
  {
    assert forall x :: x in ins ==> x in Elements(ins) && x in Elements(ms);
    if m.number in Numbers(Elements(ins)) {
      var n :| n in Elements(ins) && n.number == m.number;
      OpensIn(dir, ins, n);
    }
    if dir(m.number) in Opened(dir, ins) {
      var n := OpenedHas(dir, ins, dir(m.number));
      assert n in Elements(ins);
    }
  }

  // What a version is made into: the inputs are gone and the outputs are in the next level.
  ghost predicate Edited(v: Levels, c: Compacted, w: Levels, l: LevelNumber)
    requires c.level + 1 < NUM_LEVELS
  {
    forall m :: m in w[l] <==>
      || (m in v[l] && (l == c.level ==> m.number !in Numbers(Elements(c.inputs0))) && (l == c.level + 1 ==> m.number !in Numbers(Elements(c.inputs1))))
      || (l == c.level + 1 && m in c.outputs)
  }

  lemma SavedIsEdited(dir: Directory, v: Levels, e: Edit, c: Compacted, w: Levels, l: LevelNumber)
    requires Compacts(dir, v, c) && Records(e, c) && Elements(w[l]) == VersionSpec.Applied(Elements(v[l]), e, l)
    ensures Edited(v, c, w, l)
  {
    hide VersionSpec.Applied, Records;
    forall m
      ensures m in w[l] <==> m in VersionSpec.Applied(Elements(v[l]), e, l)
    {
      assert m in w[l] <==> m in Elements(w[l]);
    }
    forall m {
      EditedLevel(v, e, c, l, m);
    }
  }

  lemma HasNumber(ms: seq<FileMeta>, m: FileMeta)
    requires m in ms
    ensures m in Elements(ms) && m.number in Numbers(Elements(ms))
  {
  }

  lemma OutputsTell(ms: seq<FileMeta>, m: FileMeta, n: FileMeta)
    requires forall i, j :: 0 <= i < j < |ms| ==> ms[i].number != ms[j].number
    requires m in ms && n in ms && m.number == n.number
    ensures m == n
  {
  }

  lemma EditedIsKnown(dir: Directory, v: Levels, c: Compacted, w: Levels, l: LevelNumber)
    requires Compacts(dir, v, c) && LevelKnown(dir, v[l]) && SortedFiles(KeyLess, w[l]) && Edited(v, c, w, l)
    ensures LevelKnown(dir, w[l])
  {
    hide SortedFiles, Describes, KeyLess, Numbers, Elements;
    forall m, n | m in Elements(w[l]) && n in Elements(w[l]) && m.number == n.number
      ensures m == n
    {
      InElements(w[l], m);
      InElements(w[l], n);
      SameNumber(dir, v, c, w, l, m, n);
    }
  }

  lemma InElements(ms: seq<FileMeta>, m: FileMeta)
    ensures m in Elements(ms) <==> m in ms
  {
  }

  lemma SameNumber(dir: Directory, v: Levels, c: Compacted, w: Levels, l: LevelNumber, m: FileMeta, n: FileMeta)
    requires Compacts(dir, v, c) && NumbersTell(Elements(v[l])) && Edited(v, c, w, l) && m in w[l] && n in w[l] && m.number == n.number
    ensures m == n
  {
    hide Describes, Numbers, Elements;
    if m in v[l] {
      HasNumber(v[l], m);
    } else {
      HasNumber(c.outputs, m);
    }
    if n in v[l] {
      HasNumber(v[l], n);
    } else {
      HasNumber(c.outputs, n);
    }
    if m in c.outputs && n in c.outputs {
      OutputsTell(c.outputs, m, n);
    }
  }

  lemma OtherLevel(v: Levels, c: Compacted, w: Levels, l: LevelNumber)
    requires c.level + 1 < NUM_LEVELS && Edited(v, c, w, l) && l != c.level && l != c.level + 1
    requires SortedFiles(KeyLess, v[l]) && SortedFiles(KeyLess, w[l])
    ensures w[l] == v[l]
  {
    KeyLessIsTotal();
    assert Elements(w[l]) == Elements(v[l]);
    SortedIsUnique(KeyLess, v[l], w[l]);
  }

  lemma InputLevelFiles(dir: Directory, v: Levels, c: Compacted, w: Levels, f: Tree.File)
    requires Compacts(dir, v, c) && LevelKnown(dir, v[c.level]) && LevelKnown(dir, w[c.level]) && Edited(v, c, w, c.level)
    ensures f in Opened(dir, w[c.level]) <==> f in Opened(dir, v[c.level]) && f !in Opened(dir, c.inputs0)
  {
    var l := c.level;
    if f in Opened(dir, w[l]) {
      var m := OpenedHas(dir, w[l], f);
      NumberTellsInput(dir, v[l], c.inputs0, m);
      OpensIn(dir, v[l], m);
    }
    if f in Opened(dir, v[l]) && f !in Opened(dir, c.inputs0) {
      var m := OpenedHas(dir, v[l], f);
      NumberTellsInput(dir, v[l], c.inputs0, m);
      OpensIn(dir, w[l], m);
    }
  }

  lemma OutputLevelFiles(dir: Directory, v: Levels, c: Compacted, w: Levels, f: Tree.File)
    requires c.level + 1 < NUM_LEVELS
    requires Compacts(dir, v, c) && LevelKnown(dir, v[c.level + 1]) && LevelKnown(dir, w[c.level + 1]) && Edited(v, c, w, c.level + 1)
    ensures f in Opened(dir, w[c.level + 1]) <==>
              (f in Opened(dir, v[c.level + 1]) && f !in Opened(dir, c.inputs1)) || f in Opened(dir, c.outputs)
  {
    hide Describes, Numbers, Elements, Opened, SortedFiles, NumbersTell;
    var l := c.level + 1;
    if f in Opened(dir, w[l]) {
      var m := OpenedHas(dir, w[l], f);
      if m in c.outputs {
        OpensIn(dir, c.outputs, m);
      } else {
        NumberTellsInput(dir, v[l], c.inputs1, m);
        OpensIn(dir, v[l], m);
      }
    }
    if f in Opened(dir, v[l]) && f !in Opened(dir, c.inputs1) {
      var m := OpenedHas(dir, v[l], f);
      NumberTellsInput(dir, v[l], c.inputs1, m);
      OpensIn(dir, w[l], m);
    }
    if f in Opened(dir, c.outputs) {
      var m := OpenedHas(dir, c.outputs, f);
      OpensIn(dir, w[l], m);
    }
  }

  // Files in the order of the builder are different files, by smallest key.
  lemma OpenedSorted(dir: Directory, ms: seq<FileMeta>, i: nat, j: nat)
    requires LevelKnown(dir, ms) && i < j < |ms|
    ensures Describes(dir, ms[i]) && Describes(dir, ms[j])
    ensures dir(ms[i].number).number != dir(ms[j].number).number
    ensures !InternalKeys.Before(dir(ms[j].number).Smallest(), dir(ms[i].number).Smallest())
  {
    hide KeyOf;
    var m, n := ms[i], ms[j];
    assert m in ms && n in ms && Describes(dir, m) && Describes(dir, n);
    assert InOrder(KeyLess, ms, i, j);
    BytesOrderKeys(m.smallest, n.smallest);
    BytesOrderKeys(n.smallest, m.smallest);
    KeyLessOrders(m.smallest, n.smallest, m.smallest);
    HasNumber(ms, m);
    HasNumber(ms, n);
    KeyLessIsTotal();
    OrderIsStrict(KeyLess, m, n, m);
  }

  lemma EditedIsInstalled(dir: Directory, v: Levels, c: Compacted, w: Levels)
    requires Known(dir, v) && Known(dir, w) && c.level + 1 < NUM_LEVELS && Compacts(dir, v, c)
    requires forall l: LevelNumber {:trigger Edited(v, c, w, l)} :: Edited(v, c, w, l)
    ensures Reads.Installed(VersionIn(dir, v), c.level, Opened(dir, c.inputs0), Opened(dir, c.inputs1), Opened(dir, c.outputs), VersionIn(dir, w))
  {
    hide Compacts, Edited, LevelKnown, Opened, VersionIn;
    var from, to := VersionIn(dir, v), VersionIn(dir, w);
    forall l: LevelNumber | l != c.level && l != c.level + 1
      ensures to[l] == from[l]
    {
      assert Edited(v, c, w, l) && LevelKnown(dir, v[l]) && LevelKnown(dir, w[l]);
      KnownSorted(dir, v[l]);
      KnownSorted(dir, w[l]);
      OtherLevel(v, c, w, l);
    }
    assert Edited(v, c, w, c.level) && Edited(v, c, w, c.level + 1);
    var next: LevelNumber := c.level + 1;
    assert LevelKnown(dir, v[c.level]) && LevelKnown(dir, w[c.level]) && LevelKnown(dir, v[next]) && LevelKnown(dir, w[next]);
    forall f: Tree.File
      ensures f in to[c.level] <==> f in from[c.level] && f !in Opened(dir, c.inputs0)
    {
      InputLevelFiles(dir, v, c, w, f);
    }
    forall f: Tree.File
      ensures f in to[next] <==> (f in from[next] && f !in Opened(dir, c.inputs1)) || f in Opened(dir, c.outputs)
    {
      OutputLevelFiles(dir, v, c, w, f);
    }
    forall l: LevelNumber, i, j | 0 <= i < j < |w[l]|
      ensures to[l][i].entries != [] && to[l][j].entries != []
      ensures to[l][i].number != to[l][j].number && !InternalKeys.Before(to[l][j].Smallest(), to[l][i].Smallest())
    {
      assert LevelKnown(dir, w[l]);
      OpenedSorted(dir, w[l], i, j);
    }
  }

  lemma KnownSorted(dir: Directory, ms: seq<FileMeta>)
    requires LevelKnown(dir, ms)
    ensures SortedFiles(KeyLess, ms)
  {
  }

  /** What the builder makes of a compaction's edit is the version with the inputs gone and the outputs in. */
  lemma SavedIsInstalled(dir: Directory, v: Levels, e: Edit, c: Compacted, w: Levels)
    requires Known(dir, v) && c.level + 1 < NUM_LEVELS && Compacts(dir, v, c) && Records(e, c) && AllSorted(KeyLess, w)
    requires forall l: LevelNumber :: Elements(w[l]) == VersionSpec.Applied(Elements(v[l]), e, l)
    ensures Known(dir, w)
    ensures Reads.Installed(VersionIn(dir, v), c.level, Opened(dir, c.inputs0), Opened(dir, c.inputs1), Opened(dir, c.outputs), VersionIn(dir, w))
  {
    hide VersionSpec.Applied, Records, Compacts, Edited, LevelKnown, Opened;
    forall l: LevelNumber
      ensures LevelKnown(dir, w[l]) && Edited(v, c, w, l)
    {
      assert LevelKnown(dir, v[l]);
      SavedIsEdited(dir, v, e, c, w, l);
      EditedIsKnown(dir, v, c, w, l);
    }
    EditedIsInstalled(dir, v, c, w);
  }

  // ----- recording a compaction, and installing it -----

  lemma NumbersMore(ms: seq<FileMeta>, i: nat)
    requires i < |ms|
    ensures Numbers(Elements(ms[..i + 1])) == Numbers(Elements(ms[..i])) + {ms[i].number}
  {
    assert ms[..i + 1] == ms[..i] + [ms[i]];
    assert Elements(ms[..i + 1]) == Elements(ms[..i]) + {ms[i]};
  }

  // Some inputs of a level are among an edit's deletions.
  method DeleteFiles(e: Edit, level: LevelNumber, ms: seq<FileMeta>) returns (more: Edit)
    ensures more == e.(deletedFiles := more.deletedFiles)
    ensures forall l: LevelNumber, n: Sequence :: (l, n) in more.deletedFiles <==> (l, n) in e.deletedFiles || (l == level && n in Numbers(Elements(ms)))
  {
    more := e;
    for i := 0 to |ms|
      invariant more == e.(deletedFiles := more.deletedFiles)
      invariant forall l: LevelNumber, n: Sequence ::
                  (l, n) in more.deletedFiles <==> (l, n) in e.deletedFiles || (l == level && n in Numbers(Elements(ms[..i])))
    {
      NumbersMore(ms, i);
      more := With(more, DeletedFile(level, ms[i].number));
    }
    assert ms[..|ms|] == ms;
  }

  method RecordCompaction(c: Compacted) returns (e: Edit)
    requires c.level + 1 < NUM_LEVELS
    ensures Records(e, c)
  {
    e := DeleteFiles(EMPTY, c.level, c.inputs0);
    e := DeleteFiles(e, c.level + 1, c.inputs1);
    for i := 0 to |c.outputs|
      invariant |e.newFiles| == i && forall j :: 0 <= j < i ==> e.newFiles[j] == (c.level + 1, c.outputs[j])
      invariant forall l: LevelNumber, n: Sequence :: (l, n) in e.deletedFiles <==>
                  (l == c.level && n in Numbers(Elements(c.inputs0))) || (l == c.level + 1 && n in Numbers(Elements(c.inputs1)))
    {
      e := With(e, NewFile(c.level + 1, c.outputs[i]));
    }
  }

  lemma RecordIsFresh(builder: Builder, dir: Directory, c: Compacted, e: Edit)
    requires builder.edits == [] && c.level + 1 < NUM_LEVELS && Compacts(dir, builder.base, c) && Records(e, c)
    ensures builder.Fresh(e)
  {
    hide Numbers, Elements, Describes, AddedBy;
    forall l: LevelNumber {:trigger Additions(e, l)}
      ensures Numbers(Elements(builder.base[l]) + AddedBy(builder.edits, l)) !! Numbers(Additions(e, l))
    {
      AddedOutputs(e, c, l);
      NoneAddedYet(l);
      assert Elements(builder.base[l]) + {} == Elements(builder.base[l]);
      NoNumbers();
    }
  }

  lemma NoneAddedYet(l: LevelNumber)
    ensures AddedBy([], l) == {}
  {
  }

  lemma NoNumbers()
    ensures Numbers({}) == {}
  {
  }

  lemma OneApplied(files: set<FileMeta>, e: Edit, l: LevelNumber)
    ensures AppliedAll(files, [e], l) == VersionSpec.Applied(files, e, l)
  {
    assert [e][..0] == [];
  }

  /** Installing a compaction's results: the version changes as the theorems about compactions say it does, and can be
      compacted again. */
  method InstallCompactionResults(v: Levels, c: Compacted, ghost dir: Directory) returns (w: Levels)
    requires Known(dir, v) && c.level + 1 < NUM_LEVELS && Compacts(dir, v, c)
    ensures Known(dir, w)
    ensures Reads.Installed(VersionIn(dir, v), c.level, Opened(dir, c.inputs0), Opened(dir, c.inputs1), Opened(dir, c.outputs), VersionIn(dir, w))
  {
    hide Known, LevelKnown, Compacts, Records, Builder.Fresh, Builder.Valid, TotalOrder, Elements, VersionSpec.Applied, AppliedAll;
    KeyLessIsTotal();
    KnownIsSorted(dir, v);
    var builder := new Builder(KeyLess, v);
    var e := RecordCompaction(c);
    RecordIsFresh(builder, dir, c, e);
    builder.Apply(e);
    assert builder.edits == [e];
    w := builder.SaveTo();
    forall l: LevelNumber
      ensures Elements(w[l]) == VersionSpec.Applied(Elements(v[l]), e, l)
    {
      OneApplied(Elements(v[l]), e, l);
    }
    SavedIsInstalled(dir, v, e, c, w);
  }

  lemma KnownIsSorted(dir: Directory, v: Levels)
    requires Known(dir, v)
    ensures AllSorted(KeyLess, v)
  {
  }

  /** Installed in a tidy version, a compaction keeps every live read. */
  lemma InstalledKeepsReads(v: Levels, c: Compacted, w: Levels, dir: Directory, r: Runs.Compacted)
    requires Runs.Tidy(VersionIn(dir, v)) && Runs.Compacts(VersionIn(dir, v), r)
    requires r.level == c.level && r.inputs0 == Opened(dir, c.inputs0) && r.inputs1 == Opened(dir, c.inputs1) && r.outputs == Opened(dir, c.outputs)
    requires c.level + 1 < NUM_LEVELS
    requires Reads.Installed(VersionIn(dir, v), c.level, Opened(dir, c.inputs0), Opened(dir, c.inputs1), Opened(dir, c.outputs), VersionIn(dir, w))
    ensures Tree.Shape(VersionIn(dir, w))
    ensures forall k, s {:trigger Tree.Get(VersionIn(dir, w), k, s)} :: s >= r.snap ==>
              Tree.Get(VersionIn(dir, w), k, s) == Tree.Get(VersionIn(dir, v), k, s)
  {
    hide Runs.Tidy, Runs.Compacts, Reads.Installed, Tree.Get, Tree.Shape, VersionIn, Opened;
    Runs.TidyStep(VersionIn(dir, v), r, VersionIn(dir, w));
  }
}
