/** Applying edits to a version, one at a time or all at once. */
module VersionSpec {
  import opened Options
  import opened Bytes
  import opened WriteBatches
  import opened ManifestFormat
  import opened VersionEdits

  // A comparator of internal keys, as the order it defines: total and strict.
  type Less = (seq<Byte>, seq<Byte>) -> bool

  ghost predicate TotalOrder(less: Less) {
    && (forall a {:trigger less(a, a)} :: !less(a, a))
    && (forall a, b {:trigger less(a, b)} :: less(a, b) || a == b || less(b, a))
    && (forall a, b, c {:trigger less(a, b), less(b, c)} :: less(a, b) && less(b, c) ==> less(a, c))
  }

  // By smallest key, ties broken by file number.
  predicate BySmallestKey(less: Less, f: FileMeta, g: FileMeta) {
    less(f.smallest, g.smallest) || (!less(g.smallest, f.smallest) && f.number < g.number)
  }

  ghost predicate SortedFiles(less: Less, files: seq<FileMeta>) {
    forall i, j {:trigger InOrder(less, files, i, j)} :: 0 <= i < j < |files| ==> InOrder(less, files, i, j)
  }

  ghost predicate InOrder(less: Less, files: seq<FileMeta>, i: nat, j: nat)
    requires i < j < |files|
  {
    BySmallestKey(less, files[i], files[j])
  }

  lemma OrderIsStrict(less: Less, f: FileMeta, g: FileMeta, h: FileMeta)
    requires TotalOrder(less)
    ensures !BySmallestKey(less, f, f)
    ensures BySmallestKey(less, f, g) && BySmallestKey(less, g, h) ==> BySmallestKey(less, f, h)
    ensures f.number != g.number ==> BySmallestKey(less, f, g) || BySmallestKey(less, g, f)
    ensures !(BySmallestKey(less, f, g) && BySmallestKey(less, g, f))
  {
  }

  function Elements(files: seq<FileMeta>): set<FileMeta> {
    set f | f in files
  }

  // ----- sets of files -----

  function Deletions(e: Edit, l: LevelNumber): set<Sequence> {
    set d | d in e.deletedFiles && d.0 == l :: d.1
  }

  function Additions(e: Edit, l: LevelNumber): set<FileMeta> {
    set n | n in e.newFiles && n.0 == l :: n.1
  }

  function Numbers(files: set<FileMeta>): set<Sequence> {
    set f | f in files :: f.number
  }

  // The deleted numbers after an edit: a number that it adds is deleted no longer.
  function DeletedAfter(deleted: set<Sequence>, e: Edit, l: LevelNumber): set<Sequence> {
    deleted + Deletions(e, l) - Numbers(Additions(e, l))
  }

  function Without(files: set<FileMeta>, deleted: set<Sequence>): set<FileMeta> {
    set f | f in files && f.number !in deleted
  }

  // One level after a single edit.
  function Applied(files: set<FileMeta>, e: Edit, l: LevelNumber): set<FileMeta> {
    Without(files + Additions(e, l), DeletedAfter({}, e, l))
  }

  function AppliedAll(files: set<FileMeta>, es: seq<Edit>, l: LevelNumber): set<FileMeta> {
    if es == [] then files else Applied(AppliedAll(files, es[..|es| - 1], l), es[|es| - 1], l)
  }

  // What a builder that is fed all the edits has collected.
  function AddedBy(es: seq<Edit>, l: LevelNumber): set<FileMeta> {
    if es == [] then {} else AddedBy(es[..|es| - 1], l) + Additions(es[|es| - 1], l)
  }

  function DeletedBy(es: seq<Edit>, l: LevelNumber): set<Sequence> {
    if es == [] then {} else DeletedAfter(DeletedBy(es[..|es| - 1], l), es[|es| - 1], l)
  }

  // ----- one at a time or all at once -----

  /** One more edit in the builder is one more edit of the version, exactly when it brings back no number of
      a deleted file (with a different file). */
  lemma OneMoreEdit(base: set<FileMeta>, added: set<FileMeta>, deleted: set<Sequence>, e: Edit, l: LevelNumber)
    ensures Without(base + (added + Additions(e, l)), DeletedAfter(deleted, e, l)) == Applied(Without(base + added, deleted), e, l)
       <==> forall f :: f in base + added && f.number in deleted && f.number in Numbers(Additions(e, l)) ==> f in Additions(e, l)
  {
    var news := Additions(e, l);
    var together, apart := Without(base + (added + news), DeletedAfter(deleted, e, l)), Applied(Without(base + added, deleted), e, l);
    forall f
      ensures f in together <==> (f in news || (f in base + added && (f.number in Numbers(news) || (f.number !in deleted && f.number !in Deletions(e, l)))))
      ensures f in apart <==> (f in news || (f in base + added && f.number !in deleted && (f.number in Numbers(news) || f.number !in Deletions(e, l))))
    {
      assert f in news ==> f.number in Numbers(news);
    }
    if together == apart {
      forall f | f in base + added && f.number in deleted && f.number in Numbers(news)
        ensures f in news
      {
        assert f in together;
      }
    }
  }

  // One builder for all the edits gives what applying them one at a time gives.
  ghost predicate Agrees(base: set<FileMeta>, es: seq<Edit>, l: LevelNumber) {
    Without(base + AddedBy(es, l), DeletedBy(es, l)) == AppliedAll(base, es, l)
  }

  // The edit adds no number of a deleted file, unless it is that file's again.
  ghost predicate BringsBackNone(base: set<FileMeta>, added: set<FileMeta>, deleted: set<Sequence>, e: Edit, l: LevelNumber) {
    forall f :: f in base + added && f.number in deleted && f.number in Numbers(Additions(e, l)) ==> f in Additions(e, l)
  }

  ghost predicate NoneBroughtBack(base: set<FileMeta>, es: seq<Edit>, l: LevelNumber) {
    es != [] ==>
      var init, e := es[..|es| - 1], es[|es| - 1];
      NoneBroughtBack(base, init, l) && BringsBackNone(base, AddedBy(init, l), DeletedBy(init, l), e, l)
  }

  /** All at once agrees with one at a time after every edit, exactly when no edit brings back a deleted number with a
      different file. */
  lemma {:induction false} EveryPrefixAgreesIff(base: set<FileMeta>, es: seq<Edit>, l: LevelNumber)
    ensures NoneBroughtBack(base, es, l) <==> forall n {:trigger es[..n]} :: 0 <= n <= |es| ==> Agrees(base, es[..n], l)
  {
    hide Agrees, BringsBackNone;
    assert es[..|es|] == es;
    if es == [] {
      NoEditsAgree(base, l);
    } else {
      var k := |es| - 1;
      var init := es[..k];
      EveryPrefixAgreesIff(base, init, l);
      assert init[..k] == init;
      if Agrees(base, init, l) {
        OneMoreAgrees(base, es, l);
      }
      if NoneBroughtBack(base, es, l) {
        assert Agrees(base, init[..k], l);
        forall n {:trigger es[..n]} | 0 <= n <= |es|
          ensures Agrees(base, es[..n], l)
        {
          assert n <= k ==> es[..n] == init[..n];
        }
      }
      if forall n {:trigger es[..n]} :: 0 <= n <= |es| ==> Agrees(base, es[..n], l) {
        forall n {:trigger init[..n]} | 0 <= n <= k
          ensures Agrees(base, init[..n], l)
        {
          assert es[..n] == init[..n];
        }
        assert Agrees(base, es[..k], l) && Agrees(base, es[..|es|], l);
      }
    }
  }

  lemma NoEditsAgree(base: set<FileMeta>, l: LevelNumber)
    ensures Agrees(base, [], l)
  {
    assert Without(base + {}, {}) == base;
  }

  lemma OneMoreAgrees(base: set<FileMeta>, es: seq<Edit>, l: LevelNumber)
    requires es != [] && Agrees(base, es[..|es| - 1], l)
    ensures var init := es[..|es| - 1];
            Agrees(base, es, l) <==> BringsBackNone(base, AddedBy(init, l), DeletedBy(init, l), es[|es| - 1], l)
  {
    var init := es[..|es| - 1];
    OneMoreEdit(base, AddedBy(init, l), DeletedBy(init, l), es[|es| - 1], l);
  }

  // No edit adds a number that the base or an earlier edit has at that level.
  ghost predicate NeverAgain(base: set<FileMeta>, es: seq<Edit>, l: LevelNumber) {
    es != [] ==>
      && NeverAgain(base, es[..|es| - 1], l)
      && Numbers(base + AddedBy(es[..|es| - 1], l)) !! Numbers(Additions(es[|es| - 1], l))
  }

  lemma {:induction false} NewNumbersBringBackNone(base: set<FileMeta>, es: seq<Edit>, l: LevelNumber)
    requires NeverAgain(base, es, l)
    ensures NoneBroughtBack(base, es, l)
  {
    if es != [] {
      var init := es[..|es| - 1];
      NewNumbersBringBackNone(base, init, l);
      assert forall f :: f in base + AddedBy(init, l) ==> f.number in Numbers(base + AddedBy(init, l));
    }
  }

  /** Replaying all edits into one builder gives the level that applying them one at a time gives. */
  lemma ReplayIsStepwise(base: set<FileMeta>, es: seq<Edit>, l: LevelNumber)
    requires NeverAgain(base, es, l)
    ensures Without(base + AddedBy(es, l), DeletedBy(es, l)) == AppliedAll(base, es, l)
  {
    hide NoneBroughtBack, NeverAgain, Without, AddedBy, DeletedBy, AppliedAll;
    NewNumbersBringBackNone(base, es, l);
    EveryPrefixAgreesIff(base, es, l);
    assert es[..|es|] == es;
    assert Agrees(base, es[..|es|], l);
  }

  /** When a number is added again, the two differ: the file deleted before comes back. */
  lemma AddedAgainDiffers()
    ensures var f, g := FileMeta(5, 0, [], []), FileMeta(5, 0, [1], []);
            var es := [EMPTY.(deletedFiles := {(0, 5)}), EMPTY.(newFiles := [(0, g)])];
            f in Without({f} + AddedBy(es, 0), DeletedBy(es, 0)) && f !in AppliedAll({f}, es, 0)
  {
    var f, g := FileMeta(5, 0, [], []), FileMeta(5, 0, [1], []);
    var e1, e2 := EMPTY.(deletedFiles := {(0, 5)}), EMPTY.(newFiles := [(0, g)]);
    var es := [e1, e2];
    assert es[..1] == [e1] && [e1][..0] == [];
    assert (0, 5) in e1.deletedFiles && 5 in Deletions(e1, 0);
    assert (0, g) in e2.newFiles && g in Additions(e2, 0) && 5 in Numbers(Additions(e2, 0));
    assert 5 in DeletedAfter({}, e1, 0) && 5 in DeletedBy([e1], 0);
    assert 5 !in DeletedBy(es, 0);
    assert AppliedAll({f}, [e1], 0) == Applied({f}, e1, 0) && f !in Applied({f}, e1, 0);
    assert f !in Additions(e2, 0);
  }

  /** A level in order is determined by what is in it. */
  lemma {:induction false} SortedIsUnique(less: Less, a: seq<FileMeta>, b: seq<FileMeta>)
    requires TotalOrder(less) && SortedFiles(less, a) && SortedFiles(less, b) && Elements(a) == Elements(b)
    ensures a == b
  {
    assert b != [] ==> b[0] in Elements(b);
    if a != [] {
      assert a[0] in Elements(b) && a[0] in b;
      assert b[0] in Elements(b) && b[0] in a;
      FirstIsLeast(less, a, b[0]);
      FirstIsLeast(less, b, a[0]);
      OrderIsStrict(less, a[0], b[0], a[0]);
      RestSorted(less, a);
      RestSorted(less, b);
      assert Elements(a[1..]) == Elements(a) - {a[0]};
      SortedIsUnique(less, a[1..], b[1..]);
      assert a == [a[0]] + a[1..] && b == [b[0]] + b[1..];
    }
  }

  lemma FirstIsLeast(less: Less, a: seq<FileMeta>, f: FileMeta)
    requires SortedFiles(less, a) && f in a
    ensures a[0] == f || BySmallestKey(less, a[0], f)
  {
    var i :| 0 <= i < |a| && a[i] == f;
    assert i > 0 ==> InOrder(less, a, 0, i);
  }

  lemma RestSorted(less: Less, a: seq<FileMeta>)
    requires TotalOrder(less) && a != [] && SortedFiles(less, a)
    ensures SortedFiles(less, a[1..]) && Elements(a[1..]) == Elements(a) - {a[0]}
  {
    forall i, j {:trigger InOrder(less, a[1..], i, j)} | 0 <= i < j < |a| - 1
      ensures InOrder(less, a[1..], i, j)
    {
      assert InOrder(less, a, i + 1, j + 1);
    }
    forall f
      ensures f in a[1..] <==> f in a && f != a[0]
    {
      if f in a[1..] {
        var i :| 0 <= i < |a| - 1 && a[1..][i] == f;
        assert InOrder(less, a, 0, i + 1);
        OrderIsStrict(less, f, f, f);
      }
      if f in a && f != a[0] {
        var i :| 0 <= i < |a| && a[i] == f;
        assert a[1..][i - 1] == f;
      }
    }
  }
}

module Versions {
  import opened Options
  import opened Bytes
  import opened WriteBatches
  import opened ManifestFormat
  import opened VersionEdits
  import opened VersionSpec

  // The files of a version, level by level.
  type Levels = fs: seq<seq<FileMeta>> | |fs| == NUM_LEVELS witness [[], [], [], [], [], [], []]
  type DeletedNumbers = ds: seq<set<Sequence>> | |ds| == NUM_LEVELS witness [{}, {}, {}, {}, {}, {}, {}]

  // ----- inserting into an ordered set of files -----

  // The comparator does not tell the files apart.
  predicate Equivalent(less: Less, f: FileMeta, g: FileMeta) {
    !BySmallestKey(less, f, g) && !BySmallestKey(less, g, f)
  }

  // Insert a file where it belongs, unless one that the comparator does not tell apart is there.
  method InsertFile(less: Less, files: seq<FileMeta>, f: FileMeta) returns (more: seq<FileMeta>)
    requires TotalOrder(less) && SortedFiles(less, files)
    ensures SortedFiles(less, more)
    ensures (exists g :: g in files && Equivalent(less, g, f)) ==> more == files
    ensures (forall g :: g in files ==> g.number != f.number) ==> Elements(more) == Elements(files) + {f}
  {
    var i := 0;
    while i < |files| && BySmallestKey(less, files[i], f)
      invariant i <= |files| && forall j :: 0 <= j < i ==> BySmallestKey(less, files[j], f)
    {
      i := i + 1;
    }
    if i < |files| && !BySmallestKey(less, f, files[i]) {
      assert files[i] in files;
      return files;
    }
    more := files[..i] + [f] + files[i..];
    forall a, b {:trigger InOrder(less, more, a, b)} | 0 <= a < b < |more|
      ensures InOrder(less, more, a, b)
    {
      InsertedInOrder(less, files, f, i, a, b);
    }
    forall g | g in files
      ensures !Equivalent(less, g, f)
    {
      var k :| 0 <= k < |files| && files[k] == g;
      if i < k {
        assert InOrder(less, files, i, k);
        OrderIsStrict(less, f, files[i], g);
      }
    }
    assert files == files[..i] + files[i..];
  }

  lemma InsertedInOrder(less: Less, files: seq<FileMeta>, f: FileMeta, i: nat, a: nat, b: nat)
    requires TotalOrder(less) && SortedFiles(less, files) && i <= |files| && a < b <= |files|
    requires forall j :: 0 <= j < i ==> BySmallestKey(less, files[j], f)
    requires i < |files| ==> BySmallestKey(less, f, files[i])
    ensures var more := files[..i] + [f] + files[i..]; BySmallestKey(less, more[a], more[b])
  {
    var more := files[..i] + [f] + files[i..];
    var a', b' := if a < i then a else a - 1, if b < i then b else b - 1;
    if a == i {
      if b' > i {
        assert InOrder(less, files, i, b');
        OrderIsStrict(less, f, files[i], files[b']);
      }
    } else if b != i {
      assert InOrder(less, files, a', b');
    }
  }

  // ----- merging -----

  // The order goes from any file of the first list to any of the second.
  ghost predicate AllBefore(less: Less, fs: seq<FileMeta>, gs: seq<FileMeta>) {
    forall f, g {:trigger f in fs, g in gs} :: f in fs && g in gs ==> BySmallestKey(less, f, g)
  }

  lemma AppendSorted(less: Less, files: seq<FileMeta>, f: FileMeta)
    requires SortedFiles(less, files) && AllBefore(less, files, [f])
    ensures SortedFiles(less, files + [f])
  {
    forall i, j {:trigger InOrder(less, files + [f], i, j)} | 0 <= i < j < |files| + 1
      ensures InOrder(less, files + [f], i, j)
    {
      if j < |files| {
        assert InOrder(less, files, i, j);
      } else {
        assert files[i] in files && f in [f];
      }
    }
  }

  lemma HeadBefore(less: Less, fs: seq<FileMeta>)
    requires SortedFiles(less, fs) && fs != []
    ensures AllBefore(less, [fs[0]], fs[1..])
  {
    forall f, g | f in [fs[0]] && g in fs[1..]
      ensures BySmallestKey(less, f, g)
    {
      var i :| 0 <= i < |fs[1..]| && fs[1..][i] == g;
      assert InOrder(less, fs, 0, i + 1);
    }
  }

  // What a merge has written: the files taken so far that are not deleted, all before those to come.
  ghost predicate Merged(less: Less, files: seq<FileMeta>, taken: set<FileMeta>, deleted: set<Sequence>, bs: seq<FileMeta>, as_: seq<FileMeta>) {
    && SortedFiles(less, files) && Elements(files) == Without(taken, deleted)
    && SortedFiles(less, bs) && SortedFiles(less, as_)
    && AllBefore(less, files, bs) && AllBefore(less, files, as_)
  }

  // The file is added unless it is deleted.
  method MaybeAddFile(less: Less, files: seq<FileMeta>, f: FileMeta, deleted: set<Sequence>, ghost taken: set<FileMeta>,
                      ghost bs: seq<FileMeta>, ghost as_: seq<FileMeta>)
      returns (more: seq<FileMeta>)
    requires Merged(less, files, taken, deleted, bs, as_) && AllBefore(less, files, [f])
    requires AllBefore(less, [f], bs) && AllBefore(less, [f], as_)
    ensures Merged(less, more, taken + {f}, deleted, bs, as_)
  {
    if f.number in deleted {
      more := files;
      assert Without(taken + {f}, deleted) == Without(taken, deleted);
    } else {
      AppendSorted(less, files, f);
      more := files + [f];
      assert forall g :: g in more ==> g in files || g in [f];
      assert Without(taken + {f}, deleted) == Without(taken, deleted) + {f};
      assert Elements(more) == Elements(files) + {f};
    }
  }

  // The rest of a list in order.
  lemma RestOf(less: Less, fs: seq<FileMeta>)
    requires TotalOrder(less) && SortedFiles(less, fs) && fs != []
    ensures SortedFiles(less, fs[1..]) && AllBefore(less, [fs[0]], fs[1..]) && Elements(fs) == Elements(fs[1..]) + {fs[0]}
    ensures forall f :: f in fs[1..] ==> f in fs
  {
    HeadBefore(less, fs);
    RestSorted(less, fs);
  }

  // The comparator tells files with different numbers apart.
  lemma NotAfterIsBefore(less: Less, f: FileMeta, gs: seq<FileMeta>)
    requires TotalOrder(less) && SortedFiles(less, gs) && gs != [] && f.number != gs[0].number && !BySmallestKey(less, gs[0], f)
    ensures AllBefore(less, [f], gs)
  {
    RestOf(less, gs);
    forall g | g in gs
      ensures BySmallestKey(less, f, g)
    {
      OrderIsStrict(less, f, gs[0], g);
      assert gs[0] in [gs[0]] && (g == gs[0] || g in gs[1..]);
    }
  }

  ghost predicate NumbersApart(fs: seq<FileMeta>, gs: seq<FileMeta>) {
    forall f, g {:trigger f in fs, g in gs} :: f in fs && g in gs ==> f.number != g.number
  }

  // Take files of the base up to the last that is not after f.
  method TakeSmaller(less: Less, files0: seq<FileMeta>, bs0: seq<FileMeta>, as_: seq<FileMeta>, deleted: set<Sequence>, ghost taken0: set<FileMeta>)
      returns (files: seq<FileMeta>, bs: seq<FileMeta>, ghost taken: set<FileMeta>)
    requires TotalOrder(less) && Merged(less, files0, taken0, deleted, bs0, as_) && NumbersApart(bs0, as_) && as_ != []
    ensures Merged(less, files, taken, deleted, bs, as_) && NumbersApart(bs, as_)
    ensures taken + Elements(bs) == taken0 + Elements(bs0)
    ensures AllBefore(less, [as_[0]], bs)
  {
    files, bs, taken := files0, bs0, taken0;
    while bs != [] && !BySmallestKey(less, as_[0], bs[0])
      invariant Merged(less, files, taken, deleted, bs, as_) && NumbersApart(bs, as_)
      invariant taken + Elements(bs) == taken0 + Elements(bs0)
      decreases |bs|
    {
      RestOf(less, bs);
      assert bs[0] in bs && as_[0] in as_;
      NotAfterIsBefore(less, bs[0], as_);
      files := MaybeAddFile(less, files, bs[0], deleted, taken, bs[1..], as_);
      taken := taken + {bs[0]};
      bs := bs[1..];
    }
    if bs != [] {
      assert bs[0] in bs && as_[0] in as_;
      NotAfterIsBefore(less, as_[0], bs);
    }
  }

  /** Merge the added files into those of the base, both in order, leaving out what is deleted. */
  method MergeLevel(less: Less, base: seq<FileMeta>, added: seq<FileMeta>, deleted: set<Sequence>) returns (files: seq<FileMeta>)
    requires TotalOrder(less) && SortedFiles(less, base) && SortedFiles(less, added) && NumbersApart(base, added)
    ensures SortedFiles(less, files) && Elements(files) == Without(Elements(base) + Elements(added), deleted)
  {
    var bs, as_ := base, added;
    ghost var taken: set<FileMeta> := {};
    files := [];
    assert Elements([]) == {};
    while as_ != []
      invariant Merged(less, files, taken, deleted, bs, as_) && NumbersApart(bs, as_)
      invariant taken + Elements(bs) + Elements(as_) == Elements(base) + Elements(added)
      decreases |as_|
    {
      files, bs, taken := TakeSmaller(less, files, bs, as_, deleted, taken);
      RestOf(less, as_);
      assert as_[0] in as_;
      files := MaybeAddFile(less, files, as_[0], deleted, taken, bs, as_[1..]);
      taken := taken + {as_[0]};
      as_ := as_[1..];
    }
    while bs != []
      invariant Merged(less, files, taken, deleted, bs, [])
      invariant taken + Elements(bs) == Elements(base) + Elements(added)
      decreases |bs|
    {
      RestOf(less, bs);
      assert bs[0] in bs;
      files := MaybeAddFile(less, files, bs[0], deleted, taken, bs[1..], []);
      taken := taken + {bs[0]};
      bs := bs[1..];
    }
  }

  // ----- the builder -----

  // No two additions of an edit to one level have the same number.
  ghost predicate AddsOnce(e: Edit) {
    forall i, j :: 0 <= i < j < |e.newFiles| && e.newFiles[i].0 == e.newFiles[j].0 ==> e.newFiles[i].1.number != e.newFiles[j].1.number
  }

  // The additions among the first n of an edit's new files.
  function AdditionsUpTo(e: Edit, l: LevelNumber, n: nat): set<FileMeta>
    requires n <= |e.newFiles|
  {
    set m | m in e.newFiles[..n] && m.0 == l :: m.1
  }

  ghost predicate AllSorted(less: Less, levels: Levels) {
    forall l: LevelNumber {:trigger levels[l]} :: SortedFiles(less, levels[l])
  }

  class Builder {
    const less: Less
    const base: Levels
    var deleted: DeletedNumbers
    var added: Levels           // in order
    ghost var edits: seq<Edit>  // applied so far

    ghost predicate Valid()
      reads this
    {
      && TotalOrder(less) && AllSorted(less, base)
      && (forall l: LevelNumber {:trigger Collected(l)} :: Collected(l))
      && (forall l: LevelNumber {:trigger NeverAgain(Elements(base[l]), edits, l)} :: NeverAgain(Elements(base[l]), edits, l))
    }

    // What has been collected for a level.
    ghost predicate Collected(l: LevelNumber)
      reads this
    {
      SortedFiles(less, added[l]) && Elements(added[l]) == AddedBy(edits, l) && deleted[l] == DeletedBy(edits, l)
    }

    constructor (less: Less, base: Levels)
      requires TotalOrder(less) && AllSorted(less, base)
      ensures Valid() && edits == [] && this.less == less && this.base == base
    {
      this.less, this.base := less, base;
      deleted := [{}, {}, {}, {}, {}, {}, {}];
      added := [[], [], [], [], [], [], []];
      edits := [];
    }

    // The edit adds no number that its level has had.
    ghost predicate Fresh(e: Edit)
      reads this
    {
      AddsOnce(e) &&
      forall l: LevelNumber {:trigger Additions(e, l)} :: Numbers(Elements(base[l]) + AddedBy(edits, l)) !! Numbers(Additions(e, l))
    }

    // After an edit's deletions and the first n of its additions.
    ghost predicate Midway(e: Edit, n: nat, l: LevelNumber)
      reads this
      requires n <= |e.newFiles|
    {
      && SortedFiles(less, added[l]) && Elements(added[l]) == AddedBy(edits, l) + AdditionsUpTo(e, l, n)
      && deleted[l] == DeletedBy(edits, l) + Deletions(e, l) - Numbers(AdditionsUpTo(e, l, n))
    }

    // An edit's deletions.
    method DeleteFiles(e: Edit)
      requires forall l: LevelNumber {:trigger Collected(l)} :: Collected(l)
      modifies this`deleted
      ensures forall l: LevelNumber {:trigger Midway(e, 0, l)} :: Midway(e, 0, l)
    {
      hide AddedBy, DeletedBy, SortedFiles, Elements;
      var left := e.deletedFiles;
      while left != {}
        invariant left <= e.deletedFiles
        invariant forall l: LevelNumber {:trigger deleted[l]} ::
                    deleted[l] == old(deleted)[l] + set d | d in e.deletedFiles && d !in left && d.0 == l :: d.1
        decreases |left|
      {
        var d :| d in left;
        deleted := deleted[d.0 := deleted[d.0] + {d.1}];
        left := left - {d};
      }
      forall l: LevelNumber {:trigger Midway(e, 0, l)}
        ensures Midway(e, 0, l)
      {
        assert old(Collected(l));
        assert AdditionsUpTo(e, l, 0) == {} && Numbers({}) == {};
      }
    }

    // The i-th of an edit's additions.
    method AddFile(e: Edit, i: nat, ghost next: nat)
      requires i < |e.newFiles| && next == i + 1 && TotalOrder(less) && Fresh(e)
      requires forall l: LevelNumber {:trigger Midway(e, i, l)} :: Midway(e, i, l)
      modifies this`deleted, this`added
      ensures forall l: LevelNumber {:trigger Midway(e, next, l)} :: Midway(e, next, l)
    {
      var (level, f) := e.newFiles[i];
      assert Midway(e, i, level);
      NumberIsNew(e, i);
      deleted := deleted[level := deleted[level] - {f.number}];
      var more := InsertFile(less, added[level], f);
      added := added[level := more];
      forall l: LevelNumber {:trigger Midway(e, next, l)}
        ensures Midway(e, next, l)
      {
        assert old(Midway(e, i, l));
        AdditionsNext(e, l, i);
      }
    }

    // The next addition's number is not among those collected for its level.
    lemma NumberIsNew(e: Edit, i: nat)
      requires i < |e.newFiles| && Fresh(e)
      ensures var (level, f) := e.newFiles[i];
              forall g :: g in AddedBy(edits, level) + AdditionsUpTo(e, level, i) ==> g.number != f.number
    {
      var (level, f) := e.newFiles[i];
      assert e.newFiles[i] in e.newFiles && f in Additions(e, level) && f.number in Numbers(Additions(e, level));
      forall g | g in AddedBy(edits, level) + AdditionsUpTo(e, level, i)
        ensures g.number != f.number
      {
        if g in AddedBy(edits, level) {
          assert g.number in Numbers(Elements(base[level]) + AddedBy(edits, level));
        } else {
          var m :| m in e.newFiles[..i] && m.0 == level && m.1 == g;
          var j :| 0 <= j < i && e.newFiles[j] == m;
        }
      }
    }

    // All of the edit has been collected.
    ghost method Collect(e: Edit)
      requires Fresh(e) && forall l: LevelNumber {:trigger Midway(e, |e.newFiles|, l)} :: Midway(e, |e.newFiles|, l)
      requires forall l: LevelNumber {:trigger NeverAgain(Elements(base[l]), edits, l)} :: NeverAgain(Elements(base[l]), edits, l)
      modifies this`edits
      ensures edits == old(edits) + [e]
      ensures forall l: LevelNumber {:trigger Collected(l)} :: Collected(l)
      ensures forall l: LevelNumber {:trigger NeverAgain(Elements(base[l]), edits, l)} :: NeverAgain(Elements(base[l]), edits, l)
    {
      edits := edits + [e];
      assert edits[..|edits| - 1] == old(edits);
      forall l: LevelNumber
        ensures Collected(l) && NeverAgain(Elements(base[l]), edits, l)
      {
        assert old(Midway(e, |e.newFiles|, l)) && old(NeverAgain(Elements(base[l]), edits, l));
        AllAdditions(e, l);
        assert Additions(e, l) == Additions(edits[|edits| - 1], l);
      }
    }

    /** Collect the deletions and additions of an edit. */
    method Apply(e: Edit)
      requires Valid() && Fresh(e)
      modifies this
      ensures Valid() && edits == old(edits) + [e]
    {
      DeleteFiles(e);
      var i := 0;
      while i < |e.newFiles|
        invariant i <= |e.newFiles| && edits == old(edits) && Fresh(e)
        invariant forall l: LevelNumber {:trigger Midway(e, i, l)} :: Midway(e, i, l)
      {
        ghost var next := i + 1;
        AddFile(e, i, next);
        i := i + 1;
      }
      Collect(e);
    }

    /** The version that the edits collected make of the base. */
    method SaveTo() returns (v: Levels)
      requires Valid()
      ensures AllSorted(less, v)
      ensures forall l: LevelNumber :: Elements(v[l]) == AppliedAll(Elements(base[l]), edits, l)
    {
      v := [[], [], [], [], [], [], []];
      for level := 0 to NUM_LEVELS
        invariant forall l: LevelNumber {:trigger v[l]} :: l < level ==>
                    SortedFiles(less, v[l]) && Elements(v[l]) == AppliedAll(Elements(base[l]), edits, l)
      {
        assert Collected(level);
        ReplayIsStepwise(Elements(base[level]), edits, level);
        AddedApart(Elements(base[level]), edits, level);
        var files := MergeLevel(less, base[level], added[level], deleted[level]);
        v := v[level := files];
      }
    }
  }

  lemma AdditionsNext(e: Edit, l: LevelNumber, i: nat)
    requires i < |e.newFiles|
    ensures AdditionsUpTo(e, l, i + 1) == AdditionsUpTo(e, l, i) + (if e.newFiles[i].0 == l then {e.newFiles[i].1} else {})
  {
    assert e.newFiles[..i + 1] == e.newFiles[..i] + [e.newFiles[i]];
  }

  lemma AllAdditions(e: Edit, l: LevelNumber)
    ensures AdditionsUpTo(e, l, |e.newFiles|) == Additions(e, l)
  {
    assert e.newFiles[..|e.newFiles|] == e.newFiles;
  }

  lemma {:induction false} AddedApart(base: set<FileMeta>, es: seq<Edit>, l: LevelNumber)
    requires NeverAgain(base, es, l)
    ensures forall f, g :: f in base && g in AddedBy(es, l) ==> f.number != g.number
  {
    if es != [] {
      var init, news := es[..|es| - 1], Additions(es[|es| - 1], l);
      AddedApart(base, init, l);
      forall f, g | f in base && g in news
        ensures f.number != g.number
      {
        assert f.number in Numbers(base + AddedBy(init, l)) && g.number in Numbers(news);
      }
    }
  }
}
