/** Choosing the inputs of a compaction: files that overlap a range, and how far that range grows. */
module Overlap {
  import opened Options
  import opened InternalKeys
  import opened LsmTree
  import opened CompactionSpec
  import opened CompactionReads

  // A range of user keys; None is before all keys, or after all.
  datatype Range = Range(begin: Option<UserKey>, limit: Option<UserKey>) {
    // The file overlaps the range.
    predicate Touches(f: File)
      requires f.entries != []
    {
      !AfterFile(begin, f) && !BeforeFile(limit, f)
    }

    // The file lies within the range.
    predicate Covers(f: File)
      requires f.entries != []
    {
      && (begin.Some? ==> begin.value <= f.Smallest().userKey)
      && (limit.Some? ==> f.Largest().userKey <= limit.value)
    }

    // This range lies within another.
    predicate Within(outer: Range) {
      && (outer.begin.Some? ==> begin.Some? && outer.begin.value <= begin.value)
      && (outer.limit.Some? ==> limit.Some? && limit.value <= outer.limit.value)
    }
  }

  predicate AfterFile(key: Option<UserKey>, f: File)
    requires f.entries != []
  {
    key.Some? && key.value > f.Largest().userKey
  }

  predicate BeforeFile(key: Option<UserKey>, f: File)
    requires f.entries != []
  {
    key.Some? && key.value < f.Smallest().userKey
  }

  predicate Nonempty(files: Level) {
    forall i :: 0 <= i < |files| ==> files[i].entries != []
  }

  // The files that overlap the range, in order.
  function Touching(files: Level, r: Range): (fs: Level)
    requires Nonempty(files)
    ensures forall f :: f in fs ==> f in files
  {
    if files == [] then []
    else
      var n := |files| - 1;
      Touching(files[..n], r) + (if r.Touches(files[n]) then [files[n]] else [])
  }

  lemma {:induction false} TouchingHas(files: Level, r: Range, f: File)
    requires Nonempty(files)
    ensures f in Touching(files, r) <==> f in files && f.entries != [] && r.Touches(f)
  {
    if files != [] {
      var n := |files| - 1;
      TouchingHas(files[..n], r, f);
      assert f in files <==> f in files[..n] || f == files[n];
    }
  }

  // Every file that overlaps the range lies within it.
  predicate Closed(files: Level, r: Range)
    requires Nonempty(files)
  {
    forall i :: 0 <= i < |files| && r.Touches(files[i]) ==> r.Covers(files[i])
  }

  // ----- how often the range can grow -----

  // Files that begin before the range does.
  function Below(files: Level, begin: Option<UserKey>): nat
    requires Nonempty(files)
  {
    if files == [] then 0
    else
      var n := |files| - 1;
      Below(files[..n], begin) + if BeginsBefore(files[n], begin) then 1 else 0
  }

  predicate BeginsBefore(f: File, begin: Option<UserKey>)
    requires f.entries != []
  {
    begin.Some? && f.Smallest().userKey < begin.value
  }

  // Files that end after the range does.
  function Above(files: Level, limit: Option<UserKey>): nat
    requires Nonempty(files)
  {
    if files == [] then 0
    else
      var n := |files| - 1;
      Above(files[..n], limit) + if EndsAfter(files[n], limit) then 1 else 0
  }

  predicate EndsAfter(f: File, limit: Option<UserKey>)
    requires f.entries != []
  {
    limit.Some? && limit.value < f.Largest().userKey
  }

  lemma {:induction false} BelowDecreases(files: Level, begin: Option<UserKey>, f: File)
    requires Nonempty(files) && f.entries != [] && BeginsBefore(f, begin)
    ensures Below(files, Some(f.Smallest().userKey)) <= Below(files, begin)
    ensures f in files ==> Below(files, Some(f.Smallest().userKey)) < Below(files, begin)
  {
    if files != [] {
      BelowDecreases(files[..|files| - 1], begin, f);
    }
  }

  lemma {:induction false} AboveDecreases(files: Level, limit: Option<UserKey>, f: File)
    requires Nonempty(files) && f.entries != [] && EndsAfter(f, limit)
    ensures Above(files, Some(f.Largest().userKey)) <= Above(files, limit)
    ensures f in files ==> Above(files, Some(f.Largest().userKey)) < Above(files, limit)
  {
    if files != [] {
      AboveDecreases(files[..|files| - 1], limit, f);
    }
  }

  // ----- overlapping inputs -----

  // The range holds the request, and any closed range that holds the request holds it.
  ghost predicate Needed(files: Level, request: Range, r: Range)
    requires Nonempty(files)
  {
    request.Within(r) && forall wide: Range {:trigger request.Within(wide)} :: request.Within(wide) && Closed(files, wide) ==> r.Within(wide)
  }

  // Every closed range that holds the request overlaps the file.
  ghost predicate Reached(files: Level, request: Range, f: File)
    requires Nonempty(files) && f.entries != []
  {
    forall wide: Range {:trigger request.Within(wide)} :: request.Within(wide) && Closed(files, wide) ==> wide.Touches(f)
  }

  // The least closed range overlaps exactly the files that all of them do.
  lemma LeastTouches(files: Level, request: Range, least: Range)
    requires Nonempty(files) && Closed(files, least) && Needed(files, request, least)
    ensures forall f :: f in Touching(files, least) <==> f in files && Reached(files, request, f)
  {
    forall f
      ensures f in Touching(files, least) <==> f in files && Reached(files, request, f)
    {
      TouchingHas(files, least, f);
      if f in files && least.Touches(f) {
        forall wide: Range {:trigger request.Within(wide)} | request.Within(wide) && Closed(files, wide)
          ensures wide.Touches(f)
        {
          assert least.Within(wide);
        }
      }
    }
  }

  // Growing the range to cover a file that it overlaps is needed.
  lemma GrowingIsNeeded(files: Level, request: Range, r: Range, i: nat, grown: Range)
    requires Nonempty(files) && Needed(files, request, r) && i < |files| && r.Touches(files[i])
    requires files[i].Smallest().userKey <= files[i].Largest().userKey
    requires || (r.begin.Some? && grown == r.(begin := Some(files[i].Smallest().userKey)) && BeginsBefore(files[i], r.begin))
             || (r.limit.Some? && grown == r.(limit := Some(files[i].Largest().userKey)) && EndsAfter(files[i], r.limit))
    ensures Needed(files, request, grown)
  {
    forall wide: Range {:trigger request.Within(wide)} | request.Within(wide) && Closed(files, wide)
      ensures grown.Within(wide)
    {
      assert r.Within(wide);
      assert wide.Touches(files[i]) && wide.Covers(files[i]);
    }
  }

  // Files of the level whose ends are in order.
  ghost predicate Spans(files: Level) {
    forall i :: 0 <= i < |files| ==> files[i].entries != [] && files[i].Smallest().userKey <= files[i].Largest().userKey
  }

  /** The files of a level that overlap a range. On level 0 the range grows, and the search starts over,
      until it covers every file it overlaps; it ends as the smallest range that does and holds the request. */
  method GetOverlappingInputs(files: Level, level: nat, request: Range) returns (inputs: Level, ghost range: Range)
    requires Spans(files)
    ensures inputs == Touching(files, range)
    ensures level > 0 ==> range == request && inputs == Touching(files, request)
    ensures level == 0 ==> Closed(files, range) && Needed(files, request, range)
    ensures level == 0 ==> forall f :: f in inputs <==> f in files && Reached(files, request, f)
  {
    var r, i := request, 0;
    inputs := [];
    while i < |files|
      invariant i <= |files| && inputs == Touching(files[..i], r)
      invariant level > 0 ==> r == request
      invariant level == 0 ==> Closed(files[..i], r) && Needed(files, request, r)
      decreases Below(files, r.begin) + Above(files, r.limit), |files| - i
    {
      var f := files[i];
      assert files[..i + 1][..i] == files[..i] && files[..i + 1][i] == f;
      i := i + 1;
      if r.Touches(f) {
        inputs := inputs + [f];
        if level == 0 {
          if BeginsBefore(f, r.begin) {
            var grown := r.(begin := Some(f.Smallest().userKey));
            GrowingIsNeeded(files, request, r, i - 1, grown);
            BelowDecreases(files, r.begin, f);
            r, inputs, i := grown, [], 0;
          } else if EndsAfter(f, r.limit) {
            var grown := r.(limit := Some(f.Largest().userKey));
            GrowingIsNeeded(files, request, r, i - 1, grown);
            AboveDecreases(files, r.limit, f);
            r, inputs, i := grown, [], 0;
          }
        }
      }
    }
    assert files[..|files|] == files;
    range := r;
    if level == 0 {
      LeastTouches(files, request, range);
    }
  }

  /** Whether any file overlaps a range, by looking at all of them or, when they are sorted and do not
      overlap, by binary search. */
  method SomeFileOverlapsRange(disjointSortedFiles: bool, files: Level, smallest: Option<UserKey>, largest: Option<UserKey>)
      returns (overlaps: bool)
    requires LevelOk(files) && (disjointSortedFiles ==> LevelSorted(files))
    requires forall i, j :: 0 <= i < |files| && 0 <= j < |files[i].entries| ==> files[i].entries[j].key.sequence <= MAX_SEQUENCE
    ensures overlaps <==> exists i :: 0 <= i < |files| && files[i].entries != [] && Range(smallest, largest).Touches(files[i])
  {
    if !disjointSortedFiles {
      var i := 0;
      while i < |files|
        invariant i <= |files| && forall j :: 0 <= j < i ==> files[j].entries != [] && !Range(smallest, largest).Touches(files[j])
      {
        var f := files[i];
        if !(AfterFile(smallest, f) || BeforeFile(largest, f)) {
          return true;
        }
        i := i + 1;
      }
      return false;
    }
    var index := 0;
    if smallest.Some? {
      index := FindFile(files, InternalKey(smallest.value, MAX_SEQUENCE, TYPE_FOR_SEEK));
    }
    if index >= |files| {
      return false;
    }
    return !BeforeFile(largest, files[index]);
  }

  // ----- the inputs of a compaction -----

  // The user keys from the first of any of the files to the last.
  ghost predicate SpanOf(files: Level, r: Range)
    requires Nonempty(files)
  {
    && r.begin.Some? && r.limit.Some? && (forall i :: 0 <= i < |files| ==> r.Covers(files[i]))
    && (exists i :: 0 <= i < |files| && files[i].Smallest().userKey == r.begin.value)
    && (exists i :: 0 <= i < |files| && files[i].Largest().userKey == r.limit.value)
  }

  method GetRange(files: Level) returns (r: Range)
    requires files != [] && Nonempty(files)
    ensures SpanOf(files, r)
  {
    var smallest, largest := files[0].Smallest(), files[0].Largest();
    ghost var a, b := 0, 0;
    for i := 1 to |files|
      invariant 0 <= a < i && 0 <= b < i && smallest == files[a].Smallest() && largest == files[b].Largest()
      invariant forall j :: 0 <= j < i ==> smallest.userKey <= files[j].Smallest().userKey
      invariant forall j :: 0 <= j < i ==> files[j].Largest().userKey <= largest.userKey
    {
      if Before(files[i].Smallest(), smallest) {
        smallest := files[i].Smallest();
        a := i;
      }
      if Before(largest, files[i].Largest()) {
        largest := files[i].Largest();
        b := i;
      }
    }
    r := Range(Some(smallest.userKey), Some(largest.userKey));
  }

  // No two files of the level hold the same user key.
  ghost predicate UserKeysApart(files: Level) {
    forall f, g {:trigger NoSharedKey(f, g)} :: f in files && g in files && f != g ==> NoSharedKey(f, g)
  }

  // Files chosen from level 0 by a closed range share no user key with the rest.
  lemma ClosedKeepsKeysApart(files: Level, r: Range)
    requires LevelOk(files) && Nonempty(files) && Closed(files, r)
    ensures KeysNotShared(files, Touching(files, r))
  {
    forall f, g {:trigger NoSharedKey(f, g)} | f in Touching(files, r) && g in files && g !in Touching(files, r)
      ensures NoSharedKey(f, g)
    {
      TouchingHas(files, r, f);
      TouchingHas(files, r, g);
      forall e, d | e in f.entries && d in g.entries
        ensures e.key.userKey != d.key.userKey
      {
        KeyInRange(f, e);
        KeyInRange(g, d);
      }
    }
  }

  // Files chosen from a level, in its order; those of level 0 share no user key with the rest.
  ghost predicate Chosen(v: Version, level: nat, inputs: Level)
    requires level < |v|
  {
    && inputs != [] && (forall f :: f in inputs ==> f in v[level] && f.entries != [])
    && (level == 0 ==> KeysNotShared(v[0], inputs)) && InOrderOf(v[level], inputs)
  }

  // Some of the files, in the same order.
  ghost predicate InOrderOf(files: Level, part: Level) {
    if part == [] then true
    else if files == [] then false
    else
      var m, n := |part| - 1, |files| - 1;
      InOrderOf(files[..n], part) || (part[m] == files[n] && InOrderOf(files[..n], part[..m]))
  }

  lemma {:induction false} TouchingInOrder(files: Level, r: Range)
    requires Nonempty(files)
    ensures InOrderOf(files, Touching(files, r))
  {
    if files != [] {
      var n := |files| - 1;
      TouchingInOrder(files[..n], r);
      var part, front := Touching(files, r), Touching(files[..n], r);
      if r.Touches(files[n]) {
        assert part == front + [files[n]];
        assert part[..|part| - 1] == front && InOrderOf(files[..n], part[..|part| - 1]);
      } else {
        assert part == front;
      }
    }
  }

  lemma {:induction false} NoneInOrder(files: Level)
    ensures InOrderOf(files, [])
  {
  }

  lemma {:induction false} OneInOrder(files: Level, f: File)
    requires f in files
    ensures InOrderOf(files, [f])
  {
    var n := |files| - 1;
    if files[n] == f {
      assert [f][..0] == [];
      NoneInOrder(files[..n]);
    } else {
      OneInOrder(files[..n], f);
    }
  }

  // What holds of every two files of a level holds of every two of a part in order.
  lemma {:induction false} InOrderPlaces(files: Level, part: Level) returns (at: seq<nat>)
    requires InOrderOf(files, part)
    ensures |at| == |part| && forall i :: 0 <= i < |at| ==> at[i] < |files| && files[at[i]] == part[i]
    ensures forall i, j :: 0 <= i < j < |at| ==> at[i] < at[j]
  {
    if part == [] {
      at := [];
    } else {
      var m, n := |part| - 1, |files| - 1;
      if InOrderOf(files[..n], part) {
        at := InOrderPlaces(files[..n], part);
      } else {
        var front := InOrderPlaces(files[..n], part[..m]);
        at := front + [n];
      }
    }
  }

  lemma FilesOkay(v: Version, level: nat)
    requires Shape(v) && level < NUM_LEVELS
    ensures Spans(v[level]) && Nonempty(v[level]) && FilesOk(v[level])
  {
    forall f | f in v[level]
      ensures f.entries != [] && f.Ok()
    {
      var i :| 0 <= i < |v[level]| && v[level][i] == f;
    }
    forall i | 0 <= i < |v[level]|
      ensures v[level][i].Smallest().userKey <= v[level][i].Largest().userKey
    {
      var f := v[level][i];
      assert f.Ok();
      if |f.entries| > 1 {
        assert Before(f.entries[0].key, f.entries[|f.entries| - 1].key);
      }
    }
  }

  // The files of a level that overlap a request, in order; on level 0 with all that these lead to.
  ghost predicate IsOverlapping(files: Level, level: nat, request: Range, inputs: Level) {
    && Nonempty(files) && InOrderOf(files, inputs)
    && forall f {:trigger f in inputs} :: f in inputs <==>
         f in files && f.entries != [] && if level == 0 then Reached(files, request, f) else request.Touches(f)
  }

  lemma TouchingIsOverlapping(files: Level, level: nat, request: Range, inputs: Level)
    requires level > 0 && Nonempty(files) && InOrderOf(files, inputs) && inputs == Touching(files, request)
    ensures IsOverlapping(files, level, request, inputs)
  {
    forall f {:trigger f in inputs}
      ensures f in inputs <==> f in files && f.entries != [] && request.Touches(f)
    {
      TouchingHas(files, request, f);
    }
  }

  // Overlapping files of a level are a good choice.
  method ChooseOverlapping(v: Version, level: nat, request: Range) returns (inputs: Level, ghost range: Range)
    requires Shape(v) && level < NUM_LEVELS
    ensures Nonempty(v[level]) && inputs == Touching(v[level], range) && (level > 0 ==> range == request)
    ensures level == 0 ==> request.Within(range)
    ensures inputs != [] ==> Chosen(v, level, inputs)
    ensures IsOverlapping(v[level], level, request, inputs)
  {
    hide Touching, Reached;
    FilesOkay(v, level);
    inputs, range := GetOverlappingInputs(v[level], level, request);
    TouchingInOrder(v[level], range);
    if level == 0 {
      ClosedKeepsKeysApart(v[0], range);
    } else {
      TouchingIsOverlapping(v[level], level, request, inputs);
    }
  }

  lemma OverlapsSpanIsTouching(inputs: Level, r: Range, g: File)
    requires FilesOk(inputs) && g.entries != [] && g.Ok() && Nonempty(inputs) && SpanOf(inputs, r)
    ensures OverlapsSpan(inputs, g) <==> r.Touches(g)
  {
    var a :| 0 <= a < |inputs| && inputs[a].Smallest().userKey == r.begin.value;
    var b :| 0 <= b < |inputs| && inputs[b].Largest().userKey == r.limit.value;
    assert inputs[a] in inputs && inputs[b] in inputs;
    forall f | f in inputs
      ensures r.Covers(f)
    {
      var i :| 0 <= i < |inputs| && inputs[i] == f;
    }
  }

  // The overlapping files of the next level complete the inputs.
  method CompleteInputs(v: Version, level: nat, inputs0: Level) returns (inputs1: Level)
    requires Shape(v) && level + 1 < NUM_LEVELS && Chosen(v, level, inputs0)
    ensures Inputs(v, level, inputs0, inputs1) && InOrderOf(v[level + 1], inputs1)
  {
    FilesOkay(v, level);
    FilesOkay(v, level + 1);
    var r := GetRange(inputs0);
    ghost var range;
    inputs1, range := GetOverlappingInputs(v[level + 1], level + 1, r);
    TouchingInOrder(v[level + 1], r);
    forall g
      ensures g in inputs1 <==> g in v[level + 1] && OverlapsSpan(inputs0, g)
    {
      TouchingHas(v[level + 1], r, g);
      if g in v[level + 1] {
        OverlapsSpanIsTouching(inputs0, r, g);
      }
    }
  }

  // The user keys that a file spans.
  function SpanOfFile(f: File): Range
    requires f.entries != []
  {
    Range(Some(f.Smallest().userKey), Some(f.Largest().userKey))
  }

  /** The first inputs of a compaction: the file picked, with all that it leads to on level 0. */
  method PickInputs(v: Version, level: nat, picked: File) returns (inputs: Level)
    requires Shape(v) && level < NUM_LEVELS && picked in v[level]
    ensures Chosen(v, level, inputs) && picked in inputs && (level > 0 ==> inputs == [picked]) && picked.entries != []
    ensures level == 0 ==> IsOverlapping(v[0], 0, SpanOfFile(picked), inputs)
  {
    FilesOkay(v, level);
    OneInOrder(v[level], picked);
    inputs := [picked];
    if level == 0 {
      var r := GetRange(inputs);
      assert r.Covers(inputs[0]);
      ghost var range;
      inputs, range := ChooseOverlapping(v, 0, r);
      TouchingHas(v[0], range, picked);
      Spanned(v[0], picked);
    }
  }

  // Part of what is in order is in order.
  lemma {:induction false} FrontInOrder(files: Level, part: Level, n: nat)
    requires InOrderOf(files, part) && n <= |part|
    ensures InOrderOf(files, part[..n])
  {
    if n < |part| {
      var m, k := |part| - 1, |files| - 1;
      assert part[..m][..n] == part[..n];
      if InOrderOf(files[..k], part) {
        FrontInOrder(files[..k], part, n);
      } else {
        FrontInOrder(files[..k], part[..m], n);
      }
      if n > 0 {
        StillInOrder(files, part[..n]);
      }
    } else {
      assert part[..n] == part;
    }
  }

  lemma StillInOrder(files: Level, part: Level)
    requires files != [] && InOrderOf(files[..|files| - 1], part)
    ensures InOrderOf(files, part)
  {
  }

  // On level 0 the files that overlap a range with all that they lead to; on others the least number of files that
  // overlap it, from the first on, that reaches a size, or all of them.
  ghost predicate FrontOf(v: Version, level: nat, request: Range, fileSize: File -> nat, limit: nat, inputs: Level)
    requires level < |v| && Nonempty(v[level])
  {
    if level == 0 then IsOverlapping(v[0], 0, request, inputs)
    else
      && inputs <= Touching(v[level], request)
      && (|inputs| < |Touching(v[level], request)| ==> inputs != [] && TotalFileSize(inputs, fileSize) >= limit)
      && (|inputs| > 1 ==> TotalFileSize(inputs[..|inputs| - 1], fileSize) < limit)
  }

  /** The first inputs of a compaction that was asked for: the files that overlap the range, above level 0 no more
      than it takes to reach the size given. */
  method CompactRange(v: Version, level: nat, request: Range, fileSize: File -> nat, limit: nat) returns (inputs: Level)
    requires Shape(v) && level < NUM_LEVELS
    ensures inputs != [] ==> Chosen(v, level, inputs)
    ensures Nonempty(v[level]) && (Touching(v[level], request) != [] ==> inputs != [])
    ensures FrontOf(v, level, request, fileSize, limit, inputs)
  {
    hide Reached, IsOverlapping;
    var files;
    ghost var range;
    files, range := ChooseOverlapping(v, level, request);
    if level == 0 && Touching(v[0], request) != [] {
      ghost var f := Touching(v[0], request)[0];
      TouchingHas(v[0], request, f);
      TouchingHas(v[0], range, f);
    }
    if level == 0 || files == [] {
      return files;
    }
    var total, n := 0, |files|;
    for i := 0 to |files|
      invariant n == |files| && total == TotalFileSize(files[..i], fileSize) && (i > 0 ==> total < limit)
    {
      assert files[..i + 1][..i] == files[..i];
      total := total + fileSize(files[i]);
      if total >= limit {
        n := i + 1;
        break;
      }
    }
    FrontInOrder(v[level], files, n);
    assert n > 0 ==> files[..n][..n - 1] == files[..n - 1];
    assert files[..|files|] == files;
    return files[..n];
  }

  lemma Spanned(files: Level, f: File)
    requires Spans(files) && f in files
    ensures f.entries != [] && f.Smallest().userKey <= f.Largest().userKey
  {
    var i :| 0 <= i < |files| && files[i] == f;
  }

  function TotalFileSize(files: Level, fileSize: File -> nat): nat {
    if files == [] then 0 else TotalFileSize(files[..|files| - 1], fileSize) + fileSize(files[|files| - 1])
  }

  // Everything chosen is among the files that overlap a range that covers all of it.
  lemma StillChosen(v: Version, level: nat, inputs: Level, others: Level, request: Range, range: Range, f: File)
    requires Shape(v) && level < NUM_LEVELS && Chosen(v, level, inputs) && Nonempty(v[level]) && Nonempty(inputs + others)
    requires SpanOf(inputs + others, request) && request.Within(range) && f in inputs
    ensures f in Touching(v[level], range)
  {
    FilesOkay(v, level);
    Spanned(v[level], f);
    var i :| 0 <= i < |inputs| && inputs[i] == f;
    assert (inputs + others)[i] == f;
    TouchingHas(v[level], range, f);
  }

  // The files of the level that overlap all of the inputs, from their first user key to their last.
  ghost predicate IsWider(v: Version, level: nat, inputs0: Level, inputs1: Level, wider: Level)
    requires level < |v|
  {
    Nonempty(inputs0 + inputs1) && exists r {:trigger SpanOf(inputs0 + inputs1, r)} ::
      SpanOf(inputs0 + inputs1, r) && IsOverlapping(v[level], level, r, wider)
  }

  // How the inputs grow: the second ones, the files of the level that overlap all of them, and the files of the
  // next level that overlap these.
  datatype Growth = Growth(second: Level, wider: Level, others: Level)

  /** The second inputs, and more of the first if that adds none to the second and stays small: the wider ones are
      taken exactly when there are more of them, all files are smaller than the limit together, and as many files of
      the next level overlap them. */
  ghost predicate GrownAs(v: Version, level: nat, first: Level, g: Growth, fileSize: File -> nat, limit: nat,
                          inputs0: Level, inputs1: Level)
    requires level + 1 < |v|
  {
    var more := && g.second != [] && |g.wider| > |first|
                && TotalFileSize(g.second, fileSize) + TotalFileSize(g.wider, fileSize) < limit;
    && Inputs(v, level, first, g.second) && InOrderOf(v[level + 1], g.second)
    && (g.second != [] ==> IsWider(v, level, first, g.second, g.wider))
    && (more ==> Inputs(v, level, g.wider, g.others) && InOrderOf(v[level + 1], g.others))
    && (inputs0, inputs1) == if more && |g.others| == |g.second| then (g.wider, g.others) else (first, g.second)
  }

  method SetupOtherInputs(v: Version, level: nat, first: Level, fileSize: File -> nat, limit: nat)
      returns (inputs0: Level, inputs1: Level, ghost g: Growth)
    requires Shape(v) && level + 1 < NUM_LEVELS && Chosen(v, level, first)
    ensures |v| == NUM_LEVELS && GrownAs(v, level, first, g, fileSize, limit, inputs0, inputs1)
    ensures Inputs(v, level, inputs0, inputs1) && Chosen(v, level, inputs0) && InOrderOf(v[level + 1], inputs1)
    ensures forall f :: f in first ==> f in inputs0
    ensures inputs1 == [] ==> inputs0 == first
  {
    hide *;
    HasAllLevels(v);
    inputs0 := first;
    inputs1 := CompleteInputs(v, level, inputs0);
    g := Growth(inputs1, [], []);
    if inputs1 == [] {
      NotGrown(v, level, first, g, fileSize, limit);
      return;
    }
    var expanded0, _ := Expand(v, level, inputs0, inputs1);
    g := g.(wider := expanded0);
    if |expanded0| > |inputs0| && TotalFileSize(inputs1, fileSize) + TotalFileSize(expanded0, fileSize) < limit {
      var expanded1 := CompleteInputs(v, level, expanded0);
      g := g.(others := expanded1);
      if |expanded1| == |inputs1| {
        inputs0, inputs1 := expanded0, expanded1;
      }
    }
    GrownOne(v, level, first, g, fileSize, limit, inputs0, inputs1);
  }

  lemma HasAllLevels(v: Version)
    requires Shape(v)
    ensures |v| == NUM_LEVELS
  {
  }

  lemma NotGrown(v: Version, level: nat, first: Level, g: Growth, fileSize: File -> nat, limit: nat)
    requires level + 1 < |v| && Inputs(v, level, first, g.second) && InOrderOf(v[level + 1], g.second) && g.second == []
    ensures GrownAs(v, level, first, g, fileSize, limit, first, [])
  {
    hide Inputs, InOrderOf;
  }

  lemma GrownOne(v: Version, level: nat, first: Level, g: Growth, fileSize: File -> nat, limit: nat,
                 inputs0: Level, inputs1: Level)
    requires level + 1 < |v| && Inputs(v, level, first, g.second) && InOrderOf(v[level + 1], g.second)
    requires g.second != [] && IsWider(v, level, first, g.second, g.wider)
    requires var more := |g.wider| > |first| && TotalFileSize(g.second, fileSize) + TotalFileSize(g.wider, fileSize) < limit;
             && (more ==> Inputs(v, level, g.wider, g.others) && InOrderOf(v[level + 1], g.others))
             && (inputs0, inputs1) == if more && |g.others| == |g.second| then (g.wider, g.others) else (first, g.second)
    ensures GrownAs(v, level, first, g, fileSize, limit, inputs0, inputs1)
  {
    hide Inputs, InOrderOf, IsWider, TotalFileSize;
  }

  /** Where the files of a level hold different user keys, what is chosen shares none with what is left out. */
  lemma ChosenUnshared(v: Version, level: nat, inputs0: Level, inputs1: Level)
    requires Inputs(v, level, inputs0, inputs1) && Chosen(v, level, inputs0)
    requires (level > 0 ==> UserKeysApart(v[level])) && UserKeysApart(v[level + 1])
    ensures Unshared(v, level, inputs0, inputs1)
  {
  }

  // The files of the level that overlap the whole range of the inputs.
  method Expand(v: Version, level: nat, inputs0: Level, inputs1: Level) returns (expanded0: Level, ghost range: Range)
    requires Inputs(v, level, inputs0, inputs1) && Chosen(v, level, inputs0)
    ensures Chosen(v, level, expanded0) && forall f :: f in inputs0 ==> f in expanded0
    ensures IsWider(v, level, inputs0, inputs1, expanded0)
  {
    FilesOkay(v, level);
    var both := inputs0 + inputs1;
    forall i | 0 <= i < |both|
      ensures both[i].entries != []
    {
      assert both[i] in inputs0 || both[i] in inputs1;
    }
    var r := GetRange(both);
    expanded0, range := ChooseOverlapping(v, level, r);
    forall f | f in inputs0
      ensures f in expanded0
    {
      StillChosen(v, level, inputs0, inputs1, r, range, f);
    }
    assert inputs0[0] in expanded0;
  }
}
