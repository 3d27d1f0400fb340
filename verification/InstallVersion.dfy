/** The next version: files deleted from levels, and files added in order. */
module NextVersions {
  import opened Options
  import opened InternalKeys
  import opened LsmTree
  import opened CompactionSpec
  import opened CompactionReads
  import opened CompactionRuns
  import opened Overlap
  import opened Flushes
  import opened VersionIterators

  // The files without those given.
  function Minus(files: Level, gone: Level): (r: Level)
    ensures forall f :: f in r <==> f in files && f !in gone
  {
    if files == [] then []
    else
      var n := |files| - 1;
      Minus(files[..n], gone) + (if files[n] in gone then [] else [files[n]])
  }

  // One file more, by smallest key.
  function InsertFile(f: File, files: Level): (r: Level)
    requires f.entries != [] && Nonempty(files)
    ensures Nonempty(r) && forall g :: g in r <==> g == f || g in files
  {
    if files == [] || Before(f.Smallest(), files[0].Smallest()) then [f] + files else [files[0]] + InsertFile(f, files[1..])
  }

  function InsertAll(more: Level, files: Level): (r: Level)
    requires Nonempty(more) && Nonempty(files)
    ensures Nonempty(r) && forall g :: g in r <==> g in more || g in files
  {
    if more == [] then files else InsertFile(more[|more| - 1], InsertAll(more[..|more| - 1], files))
  }

  // Different files, by smallest key.
  ghost predicate InPlace(files: Level)
    requires Nonempty(files)
  {
    forall i, j :: 0 <= i < j < |files| ==> files[i] != files[j] && !Before(files[j].Smallest(), files[i].Smallest())
  }

  ghost predicate NumbersDiffer(files: Level) {
    forall i, j :: 0 <= i < j < |files| ==> files[i].number != files[j].number
  }

  // Where the files are that stay.
  lemma {:induction false} MinusPlaces(files: Level, gone: Level) returns (at: seq<nat>)
    ensures |at| == |Minus(files, gone)| && forall i :: 0 <= i < |at| ==> at[i] < |files| && files[at[i]] == Minus(files, gone)[i]
    ensures forall i, j :: 0 <= i < j < |at| ==> at[i] < at[j]
  {
    if files == [] {
      at := [];
    } else {
      var n := |files| - 1;
      var front := MinusPlaces(files[..n], gone);
      at := if files[n] in gone then front else front + [n];
    }
  }

  lemma MinusInPlace(files: Level, gone: Level)
    requires Nonempty(files)
    ensures Nonempty(Minus(files, gone)) && (InPlace(files) ==> InPlace(Minus(files, gone)))
    ensures NumbersDiffer(files) ==> NumbersDiffer(Minus(files, gone))
  {
    hide Minus;
    var at := MinusPlaces(files, gone);
  }

  lemma {:induction false} InsertInPlace(f: File, files: Level)
    requires f.entries != [] && Nonempty(files) && InPlace(files) && f !in files
    ensures InPlace(InsertFile(f, files))
  {
    if files != [] {
      var first, rest := files[0], files[1..];
      if Before(f.Smallest(), first.Smallest()) {
        forall j | 0 <= j < |files|
          ensures f != files[j] && !Before(files[j].Smallest(), f.Smallest())
        {
          BeforeIsStrictTotalOrder(files[j].Smallest(), f.Smallest(), first.Smallest());
          BeforeIsStrictTotalOrder(first.Smallest(), first.Smallest(), first.Smallest());
        }
      } else {
        InsertInPlace(f, rest);
        var more := InsertFile(f, rest);
        forall j | 0 <= j < |more|
          ensures first != more[j] && !Before(more[j].Smallest(), first.Smallest())
        {
          assert more[j] in more;
          if more[j] != f {
            var i :| 0 <= i < |rest| && rest[i] == more[j];
            assert files[i + 1] == more[j];
          } else {
            assert first in files;
          }
        }
      }
    }
  }

  lemma {:induction false} InsertAllInPlace(more: Level, files: Level)
    requires Nonempty(more) && Nonempty(files) && InPlace(files)
    requires forall i :: 0 <= i < |more| ==> more[i] !in files
    requires forall i, j :: 0 <= i < j < |more| ==> more[i] != more[j]
    ensures InPlace(InsertAll(more, files))
  {
    if more != [] {
      var n := |more| - 1;
      InsertAllInPlace(more[..n], files);
      assert more[n] !in more[..n];
      InsertInPlace(more[n], InsertAll(more[..n], files));
    }
  }

  lemma SortedIsInPlace(files: Level)
    requires LevelOk(files) && LevelSorted(files)
    ensures Nonempty(files) && InPlace(files)
  {
    forall i, j | 0 <= i < j < |files|
      ensures files[i] != files[j] && !Before(files[j].Smallest(), files[i].Smallest())
    {
      EntryInFile(files[i], files[i].entries[0]);
      EntryInFile(files[i], files[i].entries[|files[i].entries| - 1]);
      BeforeIsStrictTotalOrder(files[i].Largest(), files[j].Smallest(), files[i].Smallest());
      BeforeIsStrictTotalOrder(files[i].Largest(), files[i].Smallest(), files[i].Smallest());
    }
  }

  // ----- a compaction -----

  // The version without the inputs and with the outputs.
  function WithCompacted(v: Version, c: Compacted): (v': Version)
    requires |v| == NUM_LEVELS && c.level + 1 < NUM_LEVELS && Nonempty(c.outputs) && Nonempty(Minus(v[c.level + 1], c.inputs1))
    ensures |v'| == NUM_LEVELS
  {
    v[c.level := Minus(v[c.level], c.inputs0)][c.level + 1 := InsertAll(c.outputs, Minus(v[c.level + 1], c.inputs1))]
  }

  // Its outputs are not there yet.
  ghost predicate OutputsNew(v: Version, c: Compacted)
    requires |v| == NUM_LEVELS && c.level + 1 < NUM_LEVELS
  {
    && (forall f :: f in c.outputs ==> f !in v[c.level + 1])
    && (forall i, j :: 0 <= i < j < |c.outputs| ==> c.outputs[i] != c.outputs[j])
  }

  lemma ShapeInPlace(v: Version, l: nat)
    requires Shape(v) && l < NUM_LEVELS
    ensures |v| == NUM_LEVELS && Nonempty(v[l]) && (l > 0 ==> InPlace(v[l])) && NumbersDiffer(v[0])
  {
    FilesOkay(v, l);
    if l > 0 {
      SortedIsInPlace(v[l]);
    }
  }

  lemma WithCompactedInPlace(v: Version, c: Compacted, l: nat)
    requires Shape(v) && |v| == NUM_LEVELS && c.level + 1 < NUM_LEVELS && OutputsNew(v, c) && Nonempty(c.outputs) && l < NUM_LEVELS
    ensures Nonempty(Minus(v[c.level + 1], c.inputs1))
    ensures Nonempty(WithCompacted(v, c)[l]) && (l > 0 ==> InPlace(WithCompacted(v, c)[l])) && NumbersDiffer(WithCompacted(v, c)[0])
  {
    hide Shape, InPlace, NumbersDiffer, Minus, InsertAll;
    ShapeInPlace(v, l);
    ShapeInPlace(v, c.level);
    ShapeInPlace(v, c.level + 1);
    MinusInPlace(v[c.level], c.inputs0);
    MinusInPlace(v[c.level + 1], c.inputs1);
    OutputsInPlace(c.outputs, Minus(v[c.level + 1], c.inputs1));
  }

  lemma OutputsInPlace(outputs: Level, rest: Level)
    requires Nonempty(outputs) && Nonempty(rest) && (forall f :: f in outputs ==> f !in rest)
    requires forall i, j :: 0 <= i < j < |outputs| ==> outputs[i] != outputs[j]
    ensures InPlace(rest) ==> InPlace(InsertAll(outputs, rest))
  {
    if InPlace(rest) {
      forall i | 0 <= i < |outputs|
        ensures outputs[i] !in rest
      {
        assert outputs[i] in outputs;
      }
      InsertAllInPlace(outputs, rest);
    }
  }

  /** That is the version a compaction installs. */
  lemma CompactedIsInstalled(v: Version, c: Compacted)
    requires Compacts(v, c) && c.level + 1 < NUM_LEVELS == |v| && OutputsNew(v, c)
    ensures Nonempty(c.outputs) && Nonempty(Minus(v[c.level + 1], c.inputs1)) && Step(v, c, WithCompacted(v, c))
  {
    hide Kept, Concat, Shape, OverlapsSpan, Chosen, InOrderOf, Minus, InsertAll;
    assert Nonempty(c.outputs);
    InputsShape(v, c.level, c.inputs0, c.inputs1);
    forall l | 0 <= l < NUM_LEVELS
      ensures Nonempty(Minus(v[c.level + 1], c.inputs1))
      ensures Nonempty(WithCompacted(v, c)[l]) && (l > 0 ==> InPlace(WithCompacted(v, c)[l])) && NumbersDiffer(WithCompacted(v, c)[0])
    {
      WithCompactedInPlace(v, c, l);
    }
    MinusInPlace(v[c.level + 1], c.inputs1);
  }

  // ----- a flush -----

  // The version with one more file.
  function WithFile(v: Version, f: File, level: nat): (v': Version)
    requires |v| == NUM_LEVELS && level < NUM_LEVELS && f.entries != [] && Nonempty(v[level])
    ensures |v'| == NUM_LEVELS
  {
    v[level := if level == 0 then v[0] + [f] else InsertFile(f, v[level])]
  }

  lemma WithFileIsFlushed(v: Version, f: File, level: nat)
    requires Shape(v) && |v| == NUM_LEVELS && level < NUM_LEVELS && f.entries != [] && f !in v[level] && (forall g :: g in v[0] ==> g.number < f.number)
    ensures Nonempty(v[level]) && Flushed(v, f, level, WithFile(v, f, level))
  {
    hide Shape;
    ShapeInPlace(v, level);
    var v' := WithFile(v, f, level);
    if level > 0 {
      InsertInPlace(f, v[level]);
    }
    forall l | 1 <= l < NUM_LEVELS && LevelOk(v'[l])
      ensures SortedBySmallest(v'[l])
    {
      ShapeInPlace(v, l);
    }
    forall i, j | 0 <= i < j < |v'[0]|
      ensures v'[0][i].number != v'[0][j].number
    {
      assert v'[0][i] in v'[0] && v'[0][j] in v'[0];
      if level == 0 {
        assert i < |v[0]| && v'[0][i] == v[0][i] && v[0][i] in v[0];
      }
    }
  }
}
