/** Recovering the version from the manifest: it is the version that the edits built one at a time. */
module ManifestRecovery {
  import opened Options
  import opened Bytes
  import opened WriteBatches
  import opened ManifestFormat
  import opened VersionEdits
  import opened VersionSpec
  import opened Versions

  // The edit that a record holds, when it is well formed and of the right comparator.
  function EditIn(record: seq<Byte>, comparator: seq<Byte>): Option<Edit> {
    match FieldsIn(record)
    case None => None
    case Some(fs) =>
      var e := WithAll(EMPTY, fs);
      if e.comparator.Some? && e.comparator.value != comparator then None else Some(e)
  }

  // The edits up to the first record that does not hold one.
  function EditsIn(records: seq<seq<Byte>>, comparator: seq<Byte>): (es: seq<Edit>)
    ensures |es| <= |records|
  {
    if records == [] then []
    else
      var n := |records| - 1;
      var es := EditsIn(records[..n], comparator);
      if |es| < n then es
      else match EditIn(records[n], comparator) case None => es case Some(e) => es + [e]
  }

  // The record is well formed, and no other comparator's.
  ghost predicate Suits(record: seq<Byte>, comparator: seq<Byte>) {
    && FieldsIn(record).Some?
    && forall name :: Names(FieldsIn(record).value, name) ==> name == comparator
  }

  // The last comparator's name among the fields.
  ghost predicate Names(fs: seq<Field>, name: seq<Byte>) {
    LastOf(Some(name), fs, (f: Field) => if f.ComparatorName? then Some(f.name) else None)
  }

  lemma LastIsUnique<E, T>(a: Option<T>, b: Option<T>, things: seq<E>, given: E -> Option<T>)
    requires LastOf(a, things, given) && LastOf(b, things, given)
    ensures a == b
  {
    if a.Some? && b.Some? {
      var i :| 0 <= i < |things| && given(things[i]) == a && forall k :: i < k < |things| ==> given(things[k]).None?;
      var j :| 0 <= j < |things| && given(things[j]) == b && forall k :: j < k < |things| ==> given(things[k]).None?;
      assert i == j;
    }
  }

  /** All records hold an edit exactly when each of them suits. */
  lemma {:induction false} AllEditsIff(records: seq<seq<Byte>>, comparator: seq<Byte>)
    ensures |EditsIn(records, comparator)| == |records| <==> forall i :: 0 <= i < |records| ==> Suits(records[i], comparator)
  {
    hide Suits, EditIn;
    if records != [] {
      var n := |records| - 1;
      AllEditsIff(records[..n], comparator);
      EditInIff(records[n], comparator);
      assert forall i :: 0 <= i < n ==> records[..n][i] == records[i];
    }
  }

  lemma EditInIff(record: seq<Byte>, comparator: seq<Byte>)
    ensures EditIn(record, comparator).Some? <==> Suits(record, comparator)
  {
    hide LastOf, WithAll;
    if FieldsIn(record).Some? {
      var fs := FieldsIn(record).value;
      LastFieldCounts(fs);
      var e := WithAll(EMPTY, fs);
      assert e.comparator.Some? ==> Names(fs, e.comparator.value);
      forall name | Names(fs, name)
        ensures WithAll(EMPTY, fs).comparator == Some(name)
      {
        LastIsUnique(Some(name), WithAll(EMPTY, fs).comparator, fs, (f: Field) => if f.ComparatorName? then Some(f.name) else None);
      }
    }
  }

  ghost predicate AllNew(es: seq<Edit>) {
    && (forall i :: 0 <= i < |es| ==> AddsOnce(es[i]))
    && forall l: LevelNumber {:trigger NeverAgain({}, es, l)} :: NeverAgain({}, es, l)
  }

  // The last of the values given.
  function Latest<T>(before: Option<T>, now: Option<T>): Option<T> {
    if now.Some? then now else before
  }

  // The numbers that the edits leave behind.
  datatype NumbersLeft = NumbersLeft(log: Option<Sequence>, prevLog: Option<Sequence>, nextFile: Option<Sequence>, lastSequence: Option<Sequence>)

  function Left(es: seq<Edit>): NumbersLeft {
    if es == [] then NumbersLeft(None, None, None, None)
    else
      var e, before := es[|es| - 1], Left(es[..|es| - 1]);
      NumbersLeft(Latest(before.log, e.logNumber), Latest(before.prevLog, e.prevLogNumber),
                  Latest(before.nextFile, e.nextFileNumber), Latest(before.lastSequence, e.lastSequence))
  }

  lemma LeftMore(es: seq<Edit>, e: Edit)
    ensures var before := Left(es);
            Left(es + [e]) == NumbersLeft(Latest(before.log, e.logNumber), Latest(before.prevLog, e.prevLogNumber),
                                          Latest(before.nextFile, e.nextFileNumber), Latest(before.lastSequence, e.lastSequence))
  {
    assert (es + [e])[..|es|] == es;
  }

  // Each of the numbers is the last that any edit gives.
  ghost predicate LastNumbers(numbers: NumbersLeft, es: seq<Edit>) {
    && LastOf(numbers.log, es, (e: Edit) => e.logNumber) && LastOf(numbers.prevLog, es, (e: Edit) => e.prevLogNumber)
    && LastOf(numbers.nextFile, es, (e: Edit) => e.nextFileNumber) && LastOf(numbers.lastSequence, es, (e: Edit) => e.lastSequence)
  }

  /** The last value of each number is what is left. */
  lemma {:induction false} LeftIsLast(es: seq<Edit>)
    ensures LastNumbers(Left(es), es)
  {
    hide LastOf;
    NothingGiven<Edit, Sequence>((e: Edit) => e.logNumber);
    NothingGiven<Edit, Sequence>((e: Edit) => e.prevLogNumber);
    NothingGiven<Edit, Sequence>((e: Edit) => e.nextFileNumber);
    NothingGiven<Edit, Sequence>((e: Edit) => e.lastSequence);
    if es != [] {
      var e, before := es[|es| - 1], es[..|es| - 1];
      assert es == before + [e];
      LeftIsLast(before);
      LastOfMore(Left(before).log, before, (e: Edit) => e.logNumber, e);
      LastOfMore(Left(before).prevLog, before, (e: Edit) => e.prevLogNumber, e);
      LastOfMore(Left(before).nextFile, before, (e: Edit) => e.nextFileNumber, e);
      LastOfMore(Left(before).lastSequence, before, (e: Edit) => e.lastSequence, e);
    }
  }

  const NO_FILES: Levels := [[], [], [], [], [], [], []]

  // The version is what the edits make of no files at all.
  ghost predicate VersionOf(less: Less, v: Levels, es: seq<Edit>) {
    AllSorted(less, v) && forall l: LevelNumber {:trigger Elements(v[l])} :: Elements(v[l]) == AppliedAll({}, es, l)
  }

  /** Two versions of the same edits are the same, file by file. */
  lemma VersionIsUnique(less: Less, v: Levels, w: Levels, es: seq<Edit>)
    requires TotalOrder(less) && VersionOf(less, v, es) && VersionOf(less, w, es)
    ensures v == w
  {
    forall l: LevelNumber
      ensures v[l] == w[l]
    {
      assert Elements(v[l]) == Elements(w[l]);
      SortedIsUnique(less, v[l], w[l]);
    }
  }

  lemma NeverAgainPrefix(es: seq<Edit>, n: nat, l: LevelNumber)
    requires n <= |es| && NeverAgain({}, es, l)
    ensures NeverAgain({}, es[..n], l)
    decreases |es|
  {
    if n < |es| {
      assert es[..|es| - 1][..n] == es[..n];
      NeverAgainPrefix(es[..|es| - 1], n, l);
    } else {
      assert es[..n] == es;
    }
  }

  // The next edit of a list that never adds a number again.
  lemma NextIsNew(es: seq<Edit>, n: nat, l: LevelNumber)
    requires n < |es| && NeverAgain({}, es, l)
    ensures Numbers({} + AddedBy(es[..n], l)) !! Numbers(Additions(es[n], l))
  {
    NeverAgainPrefix(es, n + 1, l);
    assert es[..n + 1][..n] == es[..n];
  }

  // ----- recovering -----

  method DecodeRecord(record: seq<Byte>, comparator: seq<Byte>) returns (r: Option<Edit>)
    ensures r == EditIn(record, comparator)
  {
    var edit := new VersionEdit();
    var ok := edit.DecodeFrom(record);
    assert EMPTY.(compactPointers := []) == EMPTY;
    if !ok || (edit.edit.comparator.Some? && edit.edit.comparator.value != comparator) {
      return None;
    }
    return Some(edit.edit);
  }

  lemma EditsMore(records: seq<seq<Byte>>, n: nat, comparator: seq<Byte>)
    requires n < |records| && |EditsIn(records[..n], comparator)| == n
    ensures EditsIn(records[..n + 1], comparator) == EditsIn(records[..n], comparator) +
            match EditIn(records[n], comparator) case None => [] case Some(e) => [e]
  {
    assert records[..n + 1][..n] == records[..n];
  }

  lemma {:induction false} EditsStop(records: seq<seq<Byte>>, n: nat, comparator: seq<Byte>)
    requires n <= |records| && |EditsIn(records[..n], comparator)| < n
    ensures EditsIn(records, comparator) == EditsIn(records[..n], comparator)
  {
    if n < |records| {
      assert records[..|records| - 1][..n] == records[..n];
      EditsStop(records[..|records| - 1], n, comparator);
    } else {
      assert records[..n] == records;
    }
  }

  // The first i records have been replayed; `es` are the edits in all of them.
  ghost predicate Replayed(builder: Builder, less: Less, records: seq<seq<Byte>>, comparator: seq<Byte>, es: seq<Edit>, i: nat, numbers: NumbersLeft)
    reads builder
  {
    && i <= |records| && i <= |es| && es == EditsIn(records, comparator) && EditsIn(records[..i], comparator) == es[..i]
    && builder.less == less && builder.base == NO_FILES && builder.edits == es[..i] && numbers == Left(es[..i])
  }

  lemma ReplayStep(records: seq<seq<Byte>>, comparator: seq<Byte>, es: seq<Edit>, i: nat, e: Option<Edit>)
    requires i < |records| && i <= |es| && es == EditsIn(records, comparator) && EditsIn(records[..i], comparator) == es[..i]
    requires e == EditIn(records[i], comparator)
    ensures e.None? ==> |es| < |records|
    ensures e.Some? ==> i < |es| && es[i] == e.value && EditsIn(records[..i + 1], comparator) == es[..i + 1] == es[..i] + [e.value]
  {
    hide EditsIn, EditIn;
    EditsMore(records, i, comparator);
    if e.None? {
      EditsStop(records, i + 1, comparator);
    } else {
      EditsGrow(records, i + 1, comparator);
    }
  }

  method ReplayRecord(builder: Builder, less: Less, records: seq<seq<Byte>>, comparator: seq<Byte>, ghost es: seq<Edit>, i: nat, before: NumbersLeft)
      returns (ok: bool, numbers: NumbersLeft)
    requires builder.Valid() && AllNew(es) && i < |records| && Replayed(builder, less, records, comparator, es, i, before)
    modifies builder
    ensures ok ==> builder.Valid() && Replayed(builder, less, records, comparator, es, i + 1, numbers)
    ensures !ok ==> |es| < |records|
  {
    hide AllNew, EditIn, Builder.Fresh, Builder.Valid, Left, EditsIn;
    numbers := before;
    var e := DecodeRecord(records[i], comparator);
    ReplayStep(records, comparator, es, i, e);
    if e.None? {
      return false, numbers;
    }
    NextEditIsFresh(builder, es, i);
    LeftMore(es[..i], e.value);
    builder.Apply(e.value);
    numbers := NumbersLeft(Latest(numbers.log, e.value.logNumber), Latest(numbers.prevLog, e.value.prevLogNumber),
                           Latest(numbers.nextFile, e.value.nextFileNumber), Latest(numbers.lastSequence, e.value.lastSequence));
    return true, numbers;
  }

  /** Replay the manifest: all of its edits go into one builder, which is saved once. */
  method Recover(less: Less, records: seq<seq<Byte>>, comparator: seq<Byte>) returns (ok: bool, v: Levels, numbers: NumbersLeft)
    requires TotalOrder(less) && AllNew(EditsIn(records, comparator))
    ensures ok <==> |EditsIn(records, comparator)| == |records| && Left(EditsIn(records, comparator)).nextFile.Some?
                    && Left(EditsIn(records, comparator)).log.Some? && Left(EditsIn(records, comparator)).lastSequence.Some?
    ensures ok ==> forall i :: 0 <= i < |records| ==> Suits(records[i], comparator)
    ensures ok ==> VersionOf(less, v, EditsIn(records, comparator)) && numbers == Left(EditsIn(records, comparator))
    ensures ok ==> LastNumbers(numbers, EditsIn(records, comparator))
  {
    hide *;
    ghost var es := EditsIn(records, comparator);
    v, numbers := NO_FILES, NumbersLeft(None, None, None, None);
    NoFilesSorted(less);
    LeftIsLast(es);
    AllEditsIff(records, comparator);
    var builder := new Builder(less, NO_FILES);
    NothingReplayed(builder, less, records, comparator, es);
    var i := 0;
    while i < |records|
      invariant i <= |records| && fresh(builder) && builder.Valid() && Replayed(builder, less, records, comparator, es, i, numbers)
    {
      ok, numbers := ReplayRecord(builder, less, records, comparator, es, i, numbers);
      if !ok {
        return false, v, numbers;
      }
      i := i + 1;
    }
    AllReplayed(builder, less, records, comparator, es, numbers);
    if numbers.nextFile.None? || numbers.log.None? || numbers.lastSequence.None? {
      return false, v, numbers;
    }
    v := builder.SaveTo();
    FromNothing(less, v, es);
    ok := true;
  }

  lemma NothingReplayed(builder: Builder, less: Less, records: seq<seq<Byte>>, comparator: seq<Byte>, es: seq<Edit>)
    requires builder.less == less && builder.base == NO_FILES && builder.edits == [] && es == EditsIn(records, comparator)
    ensures Replayed(builder, less, records, comparator, es, 0, NumbersLeft(None, None, None, None))
  {
  }

  lemma AllReplayed(builder: Builder, less: Less, records: seq<seq<Byte>>, comparator: seq<Byte>, es: seq<Edit>, numbers: NumbersLeft)
    requires Replayed(builder, less, records, comparator, es, |records|, numbers)
    ensures |es| == |records| && builder.less == less && builder.base == NO_FILES && builder.edits == es && numbers == Left(es)
  {
    assert records[..|records|] == records && es[..|records|] == es;
  }

  lemma NoFilesSorted(less: Less)
    ensures AllSorted(less, NO_FILES)
  {
  }

  lemma FromNothing(less: Less, v: Levels, es: seq<Edit>)
    requires AllSorted(less, v) && forall l: LevelNumber :: Elements(v[l]) == AppliedAll(Elements(NO_FILES[l]), es, l)
    ensures VersionOf(less, v, es)
  {
    assert forall l: LevelNumber :: Elements(NO_FILES[l]) == {};
  }

  lemma {:induction false} EditsGrow(records: seq<seq<Byte>>, n: nat, comparator: seq<Byte>)
    requires n <= |records|
    ensures EditsIn(records[..n], comparator) <= EditsIn(records, comparator)
  {
    if n < |records| {
      assert records[..|records| - 1][..n] == records[..n];
      EditsGrow(records[..|records| - 1], n, comparator);
    } else {
      assert records[..n] == records;
    }
  }

  lemma NextEditIsFresh(builder: Builder, es: seq<Edit>, n: nat)
    requires AllNew(es) && n < |es| && builder.base == NO_FILES && builder.edits == es[..n]
    ensures builder.Fresh(es[n])
  {
    forall l: LevelNumber {:trigger Additions(es[n], l)}
      ensures Numbers(Elements(builder.base[l]) + AddedBy(builder.edits, l)) !! Numbers(Additions(es[n], l))
    {
      assert Elements(builder.base[l]) == {};
      assert NeverAgain({}, es, l);
      NextIsNew(es, n, l);
    }
  }

  // ----- one edit at a time -----

  // A file of the version was added by one of the edits.
  lemma {:induction false} FilesWereAdded(es: seq<Edit>, l: LevelNumber)
    ensures AppliedAll({}, es, l) <= AddedBy(es, l)
  {
    if es != [] {
      FilesWereAdded(es[..|es| - 1], l);
    }
  }

  lemma FirstIsFresh(builder: Builder, less: Less, es: seq<Edit>, e: Edit)
    requires VersionOf(less, builder.base, es) && AllNew(es + [e]) && builder.edits == []
    ensures builder.Fresh(e)
  {
    hide AppliedAll, AddedBy, NeverAgain;
    var n, all := |es|, es + [e];
    assert all[..n] == es && all[n] == e;
    forall l: LevelNumber {:trigger Additions(e, l)}
      ensures Numbers(Elements(builder.base[l]) + AddedBy(builder.edits, l)) !! Numbers(Additions(e, l))
    {
      assert NeverAgain({}, all, l);
      NextIsNew(all, n, l);
      FilesWereAdded(es, l);
      NoneAdded(l);
      assert Numbers(Elements(builder.base[l]) + {}) <= Numbers({} + AddedBy(es, l));
    }
  }

  lemma NoneAdded(l: LevelNumber)
    ensures AddedBy([], l) == {}
  {
  }

  lemma OneEdit(less: Less, v: Levels, w: Levels, es: seq<Edit>, e: Edit)
    requires VersionOf(less, v, es) && AllSorted(less, w)
    requires forall l: LevelNumber :: Elements(w[l]) == AppliedAll(Elements(v[l]), [e], l)
    ensures VersionOf(less, w, es + [e])
  {
    var all := es + [e];
    assert all[..|es|] == es && [e][..0] == [];
    forall l: LevelNumber {:trigger Elements(w[l])}
      ensures Elements(w[l]) == AppliedAll({}, all, l)
    {
      assert AppliedAll(Elements(v[l]), [e], l) == VersionSpec.Applied(Elements(v[l]), e, l);
    }
  }

  /** Apply one edit to a version, as each change of the database does: the manifest gets the edit's record. */
  method LogAndApply(less: Less, v: Levels, e: VersionEdit, ghost es: seq<Edit>) returns (w: Levels, record: seq<Byte>)
    requires TotalOrder(less) && VersionOf(less, v, es) && EditFits(e.edit) && AllNew(es + [e.edit])
    ensures VersionOf(less, w, es + [e.edit])
    ensures FieldsIn(record).Some? && WithAll(EMPTY, FieldsIn(record).value) == e.edit
  {
    hide AllNew, AppliedAll, EditFits, WithAll, FieldsIn, TotalOrder, Elements, Builder.Fresh, Builder.Valid;
    var builder := new Builder(less, v);
    FirstIsFresh(builder, less, es, e.edit);
    builder.Apply(e.edit);
    assert builder.edits == [e.edit];
    w := builder.SaveTo();
    OneEdit(less, v, w, es, e.edit);
    record := e.EncodeTo();
  }

  // ----- all edits, then recovery -----

  lemma NoEdits(comparator: seq<Byte>)
    ensures EditsIn([], comparator) == []
  {
  }

  lemma {:induction false} RecordsHold(records: seq<seq<Byte>>, es: seq<Edit>, comparator: seq<Byte>)
    requires |records| == |es| && forall i :: 0 <= i < |es| ==> EditIn(records[i], comparator) == Some(es[i])
    ensures EditsIn(records, comparator) == es
  {
    hide EditIn, EditsIn;
    NoEdits(comparator);
    if es != [] {
      var n := |es| - 1;
      RecordsHold(records[..n], es[..n], comparator);
      EditsMore(records, n, comparator);
      assert records[..n + 1] == records;
      assert es == es[..n] + [es[n]];
    }
  }

  lemma AllNewPrefix(es: seq<Edit>, n: nat)
    requires AllNew(es) && n <= |es|
    ensures AllNew(es[..n])
  {
    forall l: LevelNumber {:trigger NeverAgain({}, es[..n], l)}
      ensures NeverAgain({}, es[..n], l)
    {
      assert NeverAgain({}, es, l);
      NeverAgainPrefix(es, n, l);
    }
  }

  lemma HoldsIt(record: seq<Byte>, e: Edit, comparator: seq<Byte>)
    requires FieldsIn(record).Some? && WithAll(EMPTY, FieldsIn(record).value) == e && (e.comparator.Some? ==> e.comparator.value == comparator)
    ensures EditIn(record, comparator) == Some(e)
  {
  }

  lemma NoEditsYet(less: Less)
    requires AllSorted(less, NO_FILES)
    ensures VersionOf(less, NO_FILES, [])
  {
    FromNothing(less, NO_FILES, []);
  }

  /** The version recovered from the manifest is the one that the edits, applied one at a time, had built. */
  method LogThenRecover(less: Less, es: seq<Edit>, comparator: seq<Byte>) returns (v: Levels, ok: bool, recovered: Levels)
    requires TotalOrder(less) && AllNew(es)
    requires forall i :: 0 <= i < |es| ==> EditFits(es[i]) && (es[i].comparator.Some? ==> es[i].comparator.value == comparator)
    requires Left(es).nextFile.Some? && Left(es).log.Some? && Left(es).lastSequence.Some?
    ensures ok && recovered == v
  {
    hide *;
    v := NO_FILES;
    NoFilesSorted(less);
    NoEditsYet(less);
    var records: seq<seq<Byte>> := [];
    var i := 0;
    while i < |es|
      invariant i <= |es| == |es| && |records| == i && VersionOf(less, v, es[..i])
      invariant forall j :: 0 <= j < i ==> EditIn(records[j], comparator) == Some(es[j])
    {
      var e := new VersionEdit();
      e.edit := es[i];
      AllNewPrefix(es, i + 1);
      assert es[..i + 1] == es[..i] + [es[i]];
      var record;
      v, record := LogAndApply(less, v, e, es[..i]);
      HoldsIt(record, es[i], comparator);
      records := records + [record];
      i := i + 1;
    }
    assert es[..|es|] == es;
    RecordsHold(records, es, comparator);
    var numbers;
    ok, recovered, numbers := Recover(less, records, comparator);
    VersionIsUnique(less, v, recovered, es);
  }
}
