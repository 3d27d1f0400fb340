/** Exactly when a compaction keeps a read. */
module CompactionExact {
  import opened Options
  import opened InternalKeys
  import opened LsmTree
  import opened CompactionSpec
  import opened CompactionReads

  // The entries of the files that are not chosen.
  ghost function LeftEntries(files: Level, chosen: Level): set<Entry> {
    set f, e | f in files && f !in chosen && e in f.entries :: e
  }

  // A deletion that no snapshot needs, with no file below the output level in reach.
  ghost predicate Obsolete(v: Version, level: nat, snap: nat, n: Entry)
    requires Shape(v)
  {
    n.key.tag == TYPE_DELETION && n.key.sequence <= snap && BaseLevel(v, level, n.key.userKey)
  }

  // The newest of the entries that are seen, if there is one, reads as given.
  ghost predicate NewestReadsAs(es: set<Entry>, k: UserKey, s: nat, r: Option<Bytes>) {
    forall a {:trigger Newest(es, k, s, Some(a))} :: Newest(es, k, s, Some(a)) ==> ReadOf(Some(a)) == r
  }

  /** What decides whether a read survives, from the files as they are before the compaction. An entry taken from
      the input level uncovers what the level's other files hold of its key; an obsolete deletion taken from the
      output level uncovers what that level's other files hold of it. */
  ghost predicate KeepsRead(v: Version, level: nat, snap: nat, inputs0: Level, inputs1: Level, k: UserKey, s: nat)
    requires Shape(v) && level + 1 < NUM_LEVELS
  {
    match SearchFrom(v, 0, k, s)
    case None => true
    case Some(n) =>
      && (n in LevelEntries(inputs0) ==> NewestReadsAs(LeftEntries(v[level], inputs0), k, s, ReadOf(Some(n))))
      && (n in LevelEntries(inputs1) && Obsolete(v, level, snap, n) ==> NewestReadsAs(LeftEntries(v[level + 1], inputs1), k, s, None))
  }

  // ----- the levels of the new version -----

  lemma LevelsAfter(v: Version, level: nat, snap: nat, inputs0: Level, inputs1: Level, merged: seq<Entry>, outputs: Level, v': Version)
    requires Setting(v, level, snap, inputs0, inputs1, merged, outputs, v')
    ensures |v'| == NUM_LEVELS
    ensures forall l {:trigger LevelEntries(v'[l])} :: 0 <= l < NUM_LEVELS && l != level && l != level + 1 ==> LevelEntries(v'[l]) == LevelEntries(v[l])
    ensures LevelEntries(v'[level]) == LeftEntries(v[level], inputs0)
    ensures LevelEntries(v'[level + 1]) == LeftEntries(v[level + 1], inputs1) + LevelEntries(outputs)
  {
  }

  lemma LevelBefore(files: Level, chosen: Level, others: Level)
    requires forall f :: f in chosen ==> f in files
    ensures LevelEntries(files) == LeftEntries(files, chosen) + LevelEntries(chosen)
  {
  }

  // Outputs hold nothing new.
  lemma OutputsAreOld(v: Version, level: nat, snap: nat, inputs0: Level, inputs1: Level, merged: seq<Entry>, outputs: Level, e: Entry)
    requires Inputs(v, level, inputs0, inputs1) && MergedInput(inputs0, inputs1, merged) && Outputs(v, level, snap, merged, outputs)
    requires e in LevelEntries(outputs)
    ensures e in LevelEntries(v[level]) || e in LevelEntries(v[level + 1])
  {
    OutputEntries(v, level, snap, merged, outputs, e);
    InputFiles(v, level, inputs0, inputs1);
    var f := FromInput(inputs0, inputs1, merged, e);
  }

  // Above the level of the newest entry, nothing is seen.
  lemma NoneAbove(v: Version, l: nat, k: UserKey, s: nat, n: Entry, j: nat)
    requires Shape(v) && j < l < NUM_LEVELS && n in LevelEntries(v[l]) && Newest(AllEntries(v), k, s, Some(n))
    ensures NoneSeen(LevelEntries(v[j]), k, s)
  {
    forall e | e in LevelEntries(v[j])
      ensures !Seen(e, k, s)
    {
      var f :| f in v[j] && e in f.entries;
      var g :| g in v[l] && n in g.entries;
      EntriesFromIn(v, 0, e);
      assert NewerLevel(v[j], v[l]) && NewerFile(f, g);
    }
  }

  lemma NewestInLevel(v: Version, l: nat, k: UserKey, s: nat, n: Entry, es: set<Entry>)
    requires l < |v| && Newest(AllEntries(v), k, s, Some(n)) && n in es && forall e :: e in es ==> e in AllEntries(v)
    ensures Newest(es, k, s, Some(n))
  {
  }

  lemma LevelIsOld(v: Version, l: nat)
    requires l < |v|
    ensures LevelEntries(v[l]) <= AllEntries(v)
  {
    forall e | e in LevelEntries(v[l])
      ensures e in AllEntries(v)
    {
      EntriesFromIn(v, 0, e);
    }
  }

  // Where the newest entry dropped, nothing of its key is left in the outputs or below.
  lemma DroppedLeavesNone(v: Version, level: nat, snap: nat, inputs0: Level, inputs1: Level, merged: seq<Entry>, outputs: Level,
                          k: UserKey, s: nat, i: nat)
    requires Inputs(v, level, inputs0, inputs1) && MergedInput(inputs0, inputs1, merged) && Outputs(v, level, snap, merged, outputs)
    requires snap <= s && snap < MAX_SEQUENCE && i < |merged| && Newest(AllEntries(v), k, s, Some(merged[i]))
    requires Dropped(v, level, snap, merged, i)
    ensures Obsolete(v, level, snap, merged[i]) && NoneSeen(LevelEntries(outputs), k, s)
    ensures forall j {:trigger LevelEntries(v[j])} :: level + 2 <= j < NUM_LEVELS ==> NoneSeen(LevelEntries(v[j]), k, s)
  {
    var n := merged[i];
    NewestDropIsDeletion(v, level, snap, inputs0, inputs1, merged, i, k, s);
    forall e | e in LevelEntries(outputs)
      ensures !Seen(e, k, s)
    {
      OutputNotSeen(v, level, snap, inputs0, inputs1, merged, outputs, k, s, i, e);
    }
    forall j {:trigger LevelEntries(v[j])} | level + 2 <= j < NUM_LEVELS
      ensures NoneSeen(LevelEntries(v[j]), k, s)
    {
      OutOfReach(v, level, k, s, j);
    }
  }

  lemma OutputNotSeen(v: Version, level: nat, snap: nat, inputs0: Level, inputs1: Level, merged: seq<Entry>, outputs: Level,
                      k: UserKey, s: nat, i: nat, e: Entry)
    requires Inputs(v, level, inputs0, inputs1) && MergedInput(inputs0, inputs1, merged) && Outputs(v, level, snap, merged, outputs)
    requires i < |merged| && merged[i].key.sequence <= snap && Newest(AllEntries(v), k, s, Some(merged[i]))
    requires Dropped(v, level, snap, merged, i) && e in LevelEntries(outputs)
    ensures !Seen(e, k, s)
  {
    OutputsAreOld(v, level, snap, inputs0, inputs1, merged, outputs, e);
    LevelIsOld(v, level);
    LevelIsOld(v, level + 1);
    if Seen(e, k, s) {
      OutputEntries(v, level, snap, merged, outputs, e);
      if e != merged[i] {
        NothingOlderInOutputs(v, level, snap, inputs0, inputs1, merged, outputs, i, e);
      }
      assert e == merged[i];
      OnePlace(merged, e, i);
    }
  }

  // An entry of a sorted list is at one place.
  lemma OnePlace(merged: seq<Entry>, e: Entry, i: nat)
    requires Sorted(merged) && i < |merged| && merged[i] == e
    ensures forall j :: 0 <= j < |merged| && merged[j] == e ==> j == i
  {
    forall j | 0 <= j < |merged| && merged[j] == e
      ensures j == i
    {
      BeforeIsStrictTotalOrder(e.key, e.key, e.key);
    }
  }

  lemma OutOfReach(v: Version, level: nat, k: UserKey, s: nat, j: nat)
    requires Shape(v) && BaseLevel(v, level, k) && level + 2 <= j < NUM_LEVELS
    ensures NoneSeen(LevelEntries(v[j]), k, s)
  {
    forall e | e in LevelEntries(v[j])
      ensures !Seen(e, k, s)
    {
      var f :| f in v[j] && e in f.entries;
      var q :| 0 <= q < |v[j]| && v[j][q] == f;
      EntryInFile(f, e);
    }
  }

  // A file left out of the output level holds no key that was taken from the input level.
  lemma LeftOutHasNone(v: Version, level: nat, inputs0: Level, inputs1: Level, k: UserKey, s: nat, n: Entry)
    requires Inputs(v, level, inputs0, inputs1) && n in LevelEntries(inputs0) && n.key.userKey == k
    ensures NoneSeen(LeftEntries(v[level + 1], inputs1), k, s)
  {
    InputFiles(v, level, inputs0, inputs1);
    var f :| f in inputs0 && n in f.entries;
    EntryInFile(f, n);
    forall e | e in LeftEntries(v[level + 1], inputs1)
      ensures !Seen(e, k, s)
    {
      var g :| g in v[level + 1] && g !in inputs1 && e in g.entries;
      MemberOk(v[level + 1], g);
      EntryInFile(g, e);
      assert !OverlapsSpan(inputs0, g);
    }
  }

  // ----- reads of the new version -----

  lemma AfterIsOld(v: Version, level: nat, snap: nat, inputs0: Level, inputs1: Level, merged: seq<Entry>, outputs: Level, v': Version, j: nat)
    requires Setting(v, level, snap, inputs0, inputs1, merged, outputs, v') && j < NUM_LEVELS
    ensures |v'| == NUM_LEVELS && LevelEntries(v'[j]) <= AllEntries(v)
    ensures j != level + 1 ==> LevelEntries(v'[j]) <= LevelEntries(v[j])
    ensures j == level + 1 ==> LevelEntries(v'[j]) <= LevelEntries(v[level]) + LevelEntries(v[j])
  {
    LevelsAfter(v, level, snap, inputs0, inputs1, merged, outputs, v');
    LevelIsOld(v, j);
    LevelIsOld(v, level);
    forall e | e in LevelEntries(v'[j])
      ensures e in (if j == level + 1 then LevelEntries(v[level]) else {}) + LevelEntries(v[j])
    {
      if j == level + 1 && e in LevelEntries(outputs) {
        OutputsAreOld(v, level, snap, inputs0, inputs1, merged, outputs, e);
      }
    }
  }

  lemma NoneAboveAfter(v: Version, level: nat, snap: nat, inputs0: Level, inputs1: Level, merged: seq<Entry>, outputs: Level, v': Version,
                       l: nat, k: UserKey, s: nat, n: Entry)
    requires Setting(v, level, snap, inputs0, inputs1, merged, outputs, v')
    requires l < NUM_LEVELS && n in LevelEntries(v[l]) && Newest(AllEntries(v), k, s, Some(n))
    ensures |v'| == NUM_LEVELS
    ensures forall j {:trigger LevelEntries(v'[j])} :: 0 <= j < l ==> NoneSeen(LevelEntries(v'[j]), k, s)
  {
    forall j {:trigger LevelEntries(v'[j])} | 0 <= j < l
      ensures NoneSeen(LevelEntries(v'[j]), k, s)
    {
      AfterIsOld(v, level, snap, inputs0, inputs1, merged, outputs, v', j);
      NoneAbove(v, l, k, s, n, j);
      if j == level + 1 {
        NoneAbove(v, l, k, s, n, level);
      }
    }
  }

  // The newest entry is found wherever it is now, when nothing is seen above.
  lemma StillFound(v: Version, level: nat, snap: nat, inputs0: Level, inputs1: Level, merged: seq<Entry>, outputs: Level, v': Version,
                   l: nat, k: UserKey, s: nat, n: Entry)
    requires Setting(v, level, snap, inputs0, inputs1, merged, outputs, v') && Searchable(v')
    requires l < NUM_LEVELS && n in LevelEntries(v'[l]) && Newest(AllEntries(v), k, s, Some(n))
    requires forall j {:trigger LevelEntries(v'[j])} :: 0 <= j < l ==> NoneSeen(LevelEntries(v'[j]), k, s)
    ensures SearchFrom(v', 0, k, s) == Some(n)
  {
    AfterIsOld(v, level, snap, inputs0, inputs1, merged, outputs, v', l);
    NewestInLevel(v, l, k, s, n, LevelEntries(v'[l]));
    FoundAt(v', l, k, s, n);
  }

  lemma NewestReadsAsIts(es: set<Entry>, k: UserKey, s: nat, a: Entry, r: Option<Bytes>)
    requires Newest(es, k, s, Some(a))
    ensures NewestReadsAs(es, k, s, r) <==> ReadOf(Some(a)) == r
  {
    forall b {:trigger Newest(es, k, s, Some(b))} | Newest(es, k, s, Some(b))
      ensures a == b
    {
      NewestUnique(es, k, s, Some(a), Some(b));
    }
  }

  lemma NoneReadsAsAny(es: set<Entry>, k: UserKey, s: nat, r: Option<Bytes>)
    requires NoneSeen(es, k, s)
    ensures NewestReadsAs(es, k, s, r)
  {
  }

  // Either the outputs have the merged entry, or it was dropped.
  lemma KeptOrDropped(v: Version, level: nat, snap: nat, inputs0: Level, inputs1: Level, merged: seq<Entry>, outputs: Level, n: Entry)
      returns (i: nat)
    requires Inputs(v, level, inputs0, inputs1) && MergedInput(inputs0, inputs1, merged) && Outputs(v, level, snap, merged, outputs)
    requires n in LevelEntries(inputs0) || n in LevelEntries(inputs1)
    ensures i < |merged| && merged[i] == n && (n in LevelEntries(outputs) <==> !Dropped(v, level, snap, merged, i))
  {
    assert n in merged;
    i :| 0 <= i < |merged| && merged[i] == n;
    OnePlace(merged, n, i);
    OutputEntries(v, level, snap, merged, outputs, n);
  }

  // The newest entry was taken from the input level.
  lemma TakenFromInput(v: Version, level: nat, snap: nat, inputs0: Level, inputs1: Level, merged: seq<Entry>, outputs: Level, v': Version,
                       k: UserKey, s: nat, n: Entry)
    requires Setting(v, level, snap, inputs0, inputs1, merged, outputs, v') && Searchable(v') && snap <= s && snap < MAX_SEQUENCE
    requires Newest(AllEntries(v), k, s, Some(n)) && n in LevelEntries(inputs0)
    ensures ReadOf(SearchFrom(v', 0, k, s)) == ReadOf(Some(n)) <==> NewestReadsAs(LeftEntries(v[level], inputs0), k, s, ReadOf(Some(n)))
  {
    hide Setting, Newest, NoneSeen, NewestReadsAs, LeftEntries;
    SettingParts(v, level, snap, inputs0, inputs1, merged, outputs, v');
    LevelsAfter(v, level, snap, inputs0, inputs1, merged, outputs, v');
    InputInLevel(v, level, inputs0, inputs1, n);
    NoneAboveAfter(v, level, snap, inputs0, inputs1, merged, outputs, v', level, k, s, n);
    var left, r := LeftEntries(v[level], inputs0), SearchLevel(v', level, k, s);
    LevelIsNewest(v', level, k, s);
    if r.Some? {
      FoundAt(v', level, k, s, r.value);
      NewestReadsAsIts(left, k, s, r.value, ReadOf(Some(n)));
    } else {
      NoneIsNewest(left, k, s);
      NoneReadsAsAny(left, k, s, ReadOf(Some(n)));
      var i := KeptOrDropped(v, level, snap, inputs0, inputs1, merged, outputs, n);
      if n in LevelEntries(outputs) {
        StillFound(v, level, snap, inputs0, inputs1, merged, outputs, v', level + 1, k, s, n);
      } else {
        DroppedLeavesNone(v, level, snap, inputs0, inputs1, merged, outputs, k, s, i);
        SeenIs(AllEntries(v), k, s, n);
        LeftOutHasNone(v, level, inputs0, inputs1, k, s, n);
        BothNone(LeftEntries(v[level + 1], inputs1), LevelEntries(outputs), k, s);
        NotFound(v', k, s);
      }
    }
  }

  lemma SettingParts(v: Version, level: nat, snap: nat, inputs0: Level, inputs1: Level, merged: seq<Entry>, outputs: Level, v': Version)
    requires Setting(v, level, snap, inputs0, inputs1, merged, outputs, v')
    ensures Inputs(v, level, inputs0, inputs1) && MergedInput(inputs0, inputs1, merged) && Outputs(v, level, snap, merged, outputs)
    ensures Shape(v) && level + 1 < NUM_LEVELS == |v'| == |v|
  {
  }

  lemma InputInLevel(v: Version, level: nat, inputs0: Level, inputs1: Level, n: Entry)
    requires Inputs(v, level, inputs0, inputs1)
    ensures n in LevelEntries(inputs0) ==> n in LevelEntries(v[level])
    ensures n in LevelEntries(inputs1) ==> n in LevelEntries(v[level + 1])
  {
    InputFiles(v, level, inputs0, inputs1);
  }

  lemma SeenIs(es: set<Entry>, k: UserKey, s: nat, n: Entry)
    requires Newest(es, k, s, Some(n))
    ensures n.key.userKey == k
  {
  }

  lemma BothNone(a: set<Entry>, b: set<Entry>, k: UserKey, s: nat)
    requires NoneSeen(a, k, s) && NoneSeen(b, k, s)
    ensures NoneSeen(a + b, k, s)
  {
  }

  // The newest entry was taken from the output level.
  lemma TakenFromOutput(v: Version, level: nat, snap: nat, inputs0: Level, inputs1: Level, merged: seq<Entry>, outputs: Level, v': Version,
                        k: UserKey, s: nat, n: Entry)
    requires Setting(v, level, snap, inputs0, inputs1, merged, outputs, v') && Searchable(v') && snap <= s && snap < MAX_SEQUENCE
    requires Newest(AllEntries(v), k, s, Some(n)) && n in LevelEntries(inputs1)
    ensures Shape(v) && level + 1 < NUM_LEVELS
    ensures ReadOf(SearchFrom(v', 0, k, s)) == ReadOf(Some(n)) <==>
            (Obsolete(v, level, snap, n) ==> NewestReadsAs(LeftEntries(v[level + 1], inputs1), k, s, None))
  {
    hide Setting, Newest, NoneSeen, NewestReadsAs, LeftEntries;
    SettingParts(v, level, snap, inputs0, inputs1, merged, outputs, v');
    LevelsAfter(v, level, snap, inputs0, inputs1, merged, outputs, v');
    InputInLevel(v, level, inputs0, inputs1, n);
    NoneAboveAfter(v, level, snap, inputs0, inputs1, merged, outputs, v', level + 1, k, s, n);
    var i := KeptOrDropped(v, level, snap, inputs0, inputs1, merged, outputs, n);
    if n in LevelEntries(outputs) {
      StillFound(v, level, snap, inputs0, inputs1, merged, outputs, v', level + 1, k, s, n);
      ObsoleteIsDropped(v, level, snap, inputs0, inputs1, merged, i);
    } else {
      DroppedLeavesNone(v, level, snap, inputs0, inputs1, merged, outputs, k, s, i);
      UncoveredRead(v, level, snap, inputs0, inputs1, merged, outputs, v', k, s, n);
    }
  }

  lemma ObsoleteIsDropped(v: Version, level: nat, snap: nat, inputs0: Level, inputs1: Level, merged: seq<Entry>, i: nat)
    requires Inputs(v, level, inputs0, inputs1) && MergedInput(inputs0, inputs1, merged) && i < |merged|
    ensures Obsolete(v, level, snap, merged[i]) ==> Dropped(v, level, snap, merged, i)
  {
    assert merged[i] in merged;
    MergedParses(v, level, inputs0, inputs1, merged, merged[i]);
  }

  // With the deletion gone, what the files left out of the output level hold is read.
  lemma UncoveredRead(v: Version, level: nat, snap: nat, inputs0: Level, inputs1: Level, merged: seq<Entry>, outputs: Level, v': Version,
                      k: UserKey, s: nat, n: Entry)
    requires Setting(v, level, snap, inputs0, inputs1, merged, outputs, v') && Searchable(v') && Obsolete(v, level, snap, n)
    requires |v| == NUM_LEVELS && level + 1 < NUM_LEVELS && NoneSeen(LevelEntries(outputs), k, s)
    requires forall j {:trigger LevelEntries(v'[j])} :: 0 <= j < level + 1 ==> NoneSeen(LevelEntries(v'[j]), k, s)
    requires forall j {:trigger LevelEntries(v[j])} :: level + 2 <= j < NUM_LEVELS ==> NoneSeen(LevelEntries(v[j]), k, s)
    ensures ReadOf(SearchFrom(v', 0, k, s)) == ReadOf(Some(n)) <==> NewestReadsAs(LeftEntries(v[level + 1], inputs1), k, s, None)
  {
    hide Setting, Newest, NoneSeen, NewestReadsAs, LeftEntries;
    LevelsAfter(v, level, snap, inputs0, inputs1, merged, outputs, v');
    var left, r := LeftEntries(v[level + 1], inputs1), SearchLevel(v', level + 1, k, s);
    LevelIsNewest(v', level + 1, k, s);
    WithNone(left, LevelEntries(outputs), k, s, r);
    if r.Some? {
      FoundAt(v', level + 1, k, s, r.value);
      NewestReadsAsIts(left, k, s, r.value, None);
    } else {
      NoneIsNewest(left, k, s);
      NoneReadsAsAny(left, k, s, None);
      NoneIsNewest(left + LevelEntries(outputs), k, s);
      NotFound(v', k, s);
    }
  }

  // Entries that are not seen do not count.
  lemma WithNone(a: set<Entry>, b: set<Entry>, k: UserKey, s: nat, r: Option<Entry>)
    requires Newest(a + b, k, s, r) && NoneSeen(b, k, s)
    ensures Newest(a, k, s, r)
  {
  }

  // The newest entry stays where it was.
  lemma StaysWhereItWas(v: Version, level: nat, snap: nat, inputs0: Level, inputs1: Level, merged: seq<Entry>, outputs: Level, v': Version,
                        k: UserKey, s: nat, n: Entry)
    requires Setting(v, level, snap, inputs0, inputs1, merged, outputs, v') && Searchable(v')
    requires Newest(AllEntries(v), k, s, Some(n)) && n !in LevelEntries(inputs0) && n !in LevelEntries(inputs1)
    ensures SearchFrom(v', 0, k, s) == Some(n)
  {
    hide Setting, Newest, NoneSeen, LevelEntries, LeftEntries;
    SettingParts(v, level, snap, inputs0, inputs1, merged, outputs, v');
    LevelsAfter(v, level, snap, inputs0, inputs1, merged, outputs, v');
    NewestIsIn(AllEntries(v), k, s, n);
    EntriesFromIn(v, 0, n);
    var l :| 0 <= l < |v| && n in LevelEntries(v[l]);
    NoneAboveAfter(v, level, snap, inputs0, inputs1, merged, outputs, v', l, k, s, n);
    LevelBeforeCompaction(v, level, inputs0, inputs1);
    StillFound(v, level, snap, inputs0, inputs1, merged, outputs, v', l, k, s, n);
  }

  lemma NewestIsIn(es: set<Entry>, k: UserKey, s: nat, n: Entry)
    requires Newest(es, k, s, Some(n))
    ensures n in es
  {
  }

  lemma LevelBeforeCompaction(v: Version, level: nat, inputs0: Level, inputs1: Level)
    requires Inputs(v, level, inputs0, inputs1)
    ensures LevelEntries(v[level]) == LeftEntries(v[level], inputs0) + LevelEntries(inputs0)
    ensures LevelEntries(v[level + 1]) == LeftEntries(v[level + 1], inputs1) + LevelEntries(inputs1)
  {
    InputFiles(v, level, inputs0, inputs1);
    LevelBefore(v[level], inputs0, inputs0);
    LevelBefore(v[level + 1], inputs1, inputs1);
  }

  // An entry is in files of one level only.
  lemma NotInBoth(v: Version, level: nat, inputs0: Level, inputs1: Level, n: Entry)
    requires Inputs(v, level, inputs0, inputs1)
    ensures !(n in LevelEntries(inputs0) && n in LevelEntries(inputs1))
  {
    InputFiles(v, level, inputs0, inputs1);
    if n in LevelEntries(inputs0) {
      var f :| f in inputs0 && n in f.entries;
      forall g | g in inputs1
        ensures n !in g.entries
      {
        NotBelow(v, level, f, g, n);
      }
    }
  }

  lemma NotBelow(v: Version, level: nat, f: File, g: File, n: Entry)
    requires Shape(v) && level + 1 < NUM_LEVELS && f in v[level] && g in v[level + 1] && n in f.entries
    ensures n !in g.entries
  {
    assert NewerLevel(v[level], v[level + 1]) && NewerFile(f, g);
  }

  /** A compaction keeps a read, at or above the smallest snapshot, exactly when the files say so. */
  lemma ReadKeptIff(v: Version, level: nat, snap: nat, inputs0: Level, inputs1: Level, merged: seq<Entry>, outputs: Level, v': Version,
                    k: UserKey, s: nat)
    requires Setting(v, level, snap, inputs0, inputs1, merged, outputs, v') && snap <= s && snap < MAX_SEQUENCE
    ensures Searchable(v') && (Get(v', k, s) == Get(v, k, s) <==> KeepsRead(v, level, snap, inputs0, inputs1, k, s))
  {
    hide Setting, Newest, NoneSeen, NewestReadsAs, LeftEntries, LevelEntries, Obsolete;
    SettingParts(v, level, snap, inputs0, inputs1, merged, outputs, v');
    CompactionKeepsSearchable(v, level, snap, inputs0, inputs1, merged, outputs, v');
    SearchIsNewest(v, k, s);
    match SearchFrom(v, 0, k, s) {
      case None =>
        NothingToRead(v, level, snap, inputs0, inputs1, merged, outputs, v', k, s);
      case Some(n) =>
        NotInBoth(v, level, inputs0, inputs1, n);
        if n in LevelEntries(inputs0) {
          TakenFromInput(v, level, snap, inputs0, inputs1, merged, outputs, v', k, s, n);
        } else if n in LevelEntries(inputs1) {
          TakenFromOutput(v, level, snap, inputs0, inputs1, merged, outputs, v', k, s, n);
        } else {
          StaysWhereItWas(v, level, snap, inputs0, inputs1, merged, outputs, v', k, s, n);
        }
    }
  }

  lemma NothingToRead(v: Version, level: nat, snap: nat, inputs0: Level, inputs1: Level, merged: seq<Entry>, outputs: Level, v': Version,
                      k: UserKey, s: nat)
    requires Setting(v, level, snap, inputs0, inputs1, merged, outputs, v') && Searchable(v') && Newest(AllEntries(v), k, s, None)
    ensures SearchFrom(v', 0, k, s) == None
  {
    forall j {:trigger LevelEntries(v'[j])} | 0 <= j < NUM_LEVELS
      ensures NoneSeen(LevelEntries(v'[j]), k, s)
    {
      AfterIsOld(v, level, snap, inputs0, inputs1, merged, outputs, v', j);
    }
    NotFound(v', k, s);
  }

  /** All live reads survive a compaction exactly when each of them does by the files. */
  lemma AllReadsKeptIff(v: Version, level: nat, snap: nat, inputs0: Level, inputs1: Level, merged: seq<Entry>, outputs: Level, v': Version)
    requires Setting(v, level, snap, inputs0, inputs1, merged, outputs, v') && snap < MAX_SEQUENCE
    ensures Searchable(v') && Shape(v) && level + 1 < NUM_LEVELS
    ensures (forall k, s {:trigger Get(v', k, s)} :: s >= snap ==> Get(v', k, s) == Get(v, k, s)) <==>
            (forall k, s {:trigger KeepsRead(v, level, snap, inputs0, inputs1, k, s)} :: s >= snap ==> KeepsRead(v, level, snap, inputs0, inputs1, k, s))
  {
    hide Setting, Shape, Searchable, Get, KeepsRead;
    SettingParts(v, level, snap, inputs0, inputs1, merged, outputs, v');
    CompactionKeepsSearchable(v, level, snap, inputs0, inputs1, merged, outputs, v');
    forall k, s | s >= snap
      ensures Get(v', k, s) == Get(v, k, s) <==> KeepsRead(v, level, snap, inputs0, inputs1, k, s)
    {
      ReadKeptIff(v, level, snap, inputs0, inputs1, merged, outputs, v', k, s);
    }
  }

  // ----- when no user key is shared -----

  lemma UnsharedKeeps(v: Version, level: nat, snap: nat, inputs0: Level, inputs1: Level, k: UserKey, s: nat)
    requires Inputs(v, level, inputs0, inputs1) && Unshared(v, level, inputs0, inputs1)
    ensures KeepsRead(v, level, snap, inputs0, inputs1, k, s)
  {
    SearchIsNewest(v, k, s);
    if n :| SearchFrom(v, 0, k, s) == Some(n) {
      if n in LevelEntries(inputs0) {
        NotAlsoLeft(v[level], inputs0, n, s);
        NoneReadsAsAny(LeftEntries(v[level], inputs0), k, s, ReadOf(Some(n)));
      }
      if n in LevelEntries(inputs1) {
        NotAlsoLeft(v[level + 1], inputs1, n, s);
        NoneReadsAsAny(LeftEntries(v[level + 1], inputs1), k, s, None);
      }
    }
  }

  lemma NotAlsoLeft(files: Level, chosen: Level, n: Entry, s: nat)
    requires KeysNotShared(files, chosen) && n in LevelEntries(chosen)
    ensures NoneSeen(LeftEntries(files, chosen), n.key.userKey, s)
  {
    var f :| f in chosen && n in f.entries;
    forall e | e in LeftEntries(files, chosen)
      ensures !Seen(e, n.key.userKey, s)
    {
      var g :| g in files && g !in chosen && e in g.entries;
      assert NoSharedKey(f, g);
    }
  }

  /** Compaction keeps every live read, when no user key is shared with a file left out: at every sequence number at
      or above the smallest snapshot, every user key reads the same before and after the compaction is installed. */
  lemma CompactionKeepsReads(v: Version, level: nat, snap: nat, inputs0: Level, inputs1: Level, merged: seq<Entry>,
                             outputs: Level, v': Version, k: UserKey, s: nat)
    requires Setting(v, level, snap, inputs0, inputs1, merged, outputs, v') && Unshared(v, level, inputs0, inputs1)
    requires snap <= s && snap < MAX_SEQUENCE
    ensures Shape(v') && Get(v', k, s) == Get(v, k, s)
  {
    CompactionKeepsShape(v, level, snap, inputs0, inputs1, merged, outputs, v');
    UnsharedKeeps(v, level, snap, inputs0, inputs1, k, s);
    ReadKeptIff(v, level, snap, inputs0, inputs1, merged, outputs, v', k, s);
  }
}
