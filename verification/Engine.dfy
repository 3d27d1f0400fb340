/** What has been written, as reads see it: the last write of a key, and memtables in order. */
module EngineSpec {
  import opened Options
  import opened Bytes
  import opened WriteBatches
  import opened InternalKeys
  import opened LsmTree
  import opened ByteOrder

  // A numbered update.
  type Write = (nat, Op)

  /** The specification of a read: the value of the last write of the key up to the sequence number, None when that is
      a deletion or there is none. */
  function LastWrite(ws: seq<Write>, key: seq<Byte>, s: nat): Option<seq<Byte>> {
    if ws == [] then None
    else
      var n := |ws| - 1;
      if ws[n].0 <= s && ws[n].1.key == key then (if ws[n].1.Put? then Some(ws[n].1.value) else None)
      else LastWrite(ws[..n], key, s)
  }

  // The entry that a memtable gets for a write.
  function Entered(w: Write): Entry {
    Entry(InternalKey(Rank(w.1.key), w.0, if w.1.Put? then TYPE_VALUE else TYPE_DELETION), if w.1.Put? then w.1.value else [])
  }

  function EntriesOf(ws: seq<Write>): (es: seq<Entry>)
    ensures |es| == |ws| && forall i {:trigger es[i]} :: 0 <= i < |ws| ==> es[i] == Entered(ws[i])
  {
    seq(|ws|, i requires 0 <= i < |ws| => Entered(ws[i]))
  }

  lemma EntriesConcat(a: seq<Write>, b: seq<Write>)
    ensures EntriesOf(a + b) == EntriesOf(a) + EntriesOf(b)
  {
  }

  // The last entry of the user key up to the sequence number.
  function LastSeen(es: seq<Entry>, k: UserKey, s: nat): Option<Entry> {
    if es == [] then None
    else if LsmTree.Seen(es[|es| - 1], k, s) then Some(es[|es| - 1])
    else LastSeen(es[..|es| - 1], k, s)
  }

  /** The last entry of a key is the last write of its bytes. */
  lemma {:induction false} LastSeenIsWrite(ws: seq<Write>, key: seq<Byte>, s: nat)
    ensures ReadOf(LastSeen(EntriesOf(ws), Rank(key), s)) == LastWrite(ws, key, s)
  {
    if ws != [] {
      var n := |ws| - 1;
      RankOrders(ws[n].1.key, key);
      assert EntriesOf(ws)[..n] == EntriesOf(ws[..n]);
      LastSeenIsWrite(ws[..n], key, s);
    }
  }

  lemma {:induction false} LastSeenConcat(a: seq<Entry>, b: seq<Entry>, k: UserKey, s: nat)
    ensures LastSeen(a + b, k, s) == if LastSeen(b, k, s).Some? then LastSeen(b, k, s) else LastSeen(a, k, s)
  {
    if b == [] {
      assert a + b == a;
    } else {
      var n := |b| - 1;
      assert (a + b)[..|a| + n] == a + b[..n];
      LastSeenConcat(a, b[..n], k, s);
    }
  }

  // What is not seen yet does not matter.
  lemma {:induction false} LaterUnseen(a: seq<Entry>, b: seq<Entry>, k: UserKey, s: nat)
    requires forall i :: 0 <= i < |b| ==> b[i].key.sequence > s
    ensures LastSeen(a + b, k, s) == LastSeen(a, k, s)
  {
    LastSeenConcat(a, b, k, s);
    NoneSeenIn(b, k, s);
  }

  lemma {:induction false} NoneSeenIn(b: seq<Entry>, k: UserKey, s: nat)
    requires forall i :: 0 <= i < |b| ==> b[i].key.sequence > s
    ensures LastSeen(b, k, s) == None
  {
    if b != [] {
      NoneSeenIn(b[..|b| - 1], k, s);
    }
  }

  ghost predicate Rising(es: seq<Entry>) {
    forall i, j :: 0 <= i < j < |es| ==> es[i].key.sequence < es[j].key.sequence
  }

  ghost function Elements(es: seq<Entry>): set<Entry> {
    set e | e in es
  }

  lemma {:induction false} LastSeenIsNewest(es: seq<Entry>, k: UserKey, s: nat)
    requires Rising(es)
    ensures Newest(Elements(es), k, s, LastSeen(es, k, s))
  {
    if es != [] {
      var n := |es| - 1;
      LastSeenIsNewest(es[..n], k, s);
      assert Elements(es) == Elements(es[..n]) + {es[n]};
    }
  }

  // ----- a memtable in order -----

  function InsertEntry(e: Entry, es: seq<Entry>): (r: seq<Entry>)
    ensures |r| == |es| + 1 && forall x :: x in r <==> x == e || x in es
  {
    if es == [] || Before(e.key, es[0].key) then [e] + es else [es[0]] + InsertEntry(e, es[1..])
  }

  function ByKey(es: seq<Entry>): (r: seq<Entry>)
    ensures |r| == |es| && forall x :: x in r <==> x in es
  {
    if es == [] then [] else InsertEntry(es[|es| - 1], ByKey(es[..|es| - 1]))
  }

  lemma {:induction false} InsertKeepsSorted(e: Entry, es: seq<Entry>)
    requires Sorted(es) && forall x :: x in es ==> x.key != e.key
    ensures Sorted(InsertEntry(e, es))
  {
    if es != [] {
      BeforeIsStrictTotalOrder(e.key, es[0].key, e.key);
      assert es[0] in es;
      if Before(e.key, es[0].key) {
        forall j | 0 < j < |es|
          ensures Before(e.key, es[j].key)
        {
          BeforeIsStrictTotalOrder(e.key, es[0].key, es[j].key);
        }
      } else {
        InsertKeepsSorted(e, es[1..]);
        var r := InsertEntry(e, es[1..]);
        forall j | 0 <= j < |r|
          ensures Before(es[0].key, r[j].key)
        {
          assert r[j] in r;
          if r[j] != e {
            var i :| 0 <= i < |es| - 1 && es[1..][i] == r[j];
            assert es[1 + i] == r[j];
          }
        }
      }
    }
  }

  lemma {:induction false} ByKeyIsSorted(es: seq<Entry>)
    requires Rising(es)
    ensures Sorted(ByKey(es))
  {
    if es != [] {
      var n := |es| - 1;
      ByKeyIsSorted(es[..n]);
      forall x | x in ByKey(es[..n])
        ensures x.key != es[n].key
      {
        var i :| 0 <= i < n && es[..n][i] == x;
      }
      InsertKeepsSorted(es[n], ByKey(es[..n]));
    }
  }

  // A file of what was written.
  function FileOf(number: nat, es: seq<Entry>): File {
    File(number, ByKey(es))
  }

  /** Seeking in a memtable finds the last entry of the key. */
  lemma ProbeIsLast(number: nat, es: seq<Entry>, k: UserKey, s: nat)
    requires Rising(es) && forall i :: 0 <= i < |es| ==> es[i].key.Parses()
    ensures Probe(FileOf(number, es), k, s) == LastSeen(es, k, s)
  {
    hide Newest, Probe, LastSeen, ByKey;
    var f := FileOf(number, es);
    ByKeyIsSorted(es);
    LastSeenIsNewest(es, k, s);
    if es != [] {
      forall i | 0 <= i < |f.entries|
        ensures f.entries[i].key.Parses()
      {
        assert f.entries[i] in es;
      }
      assert f.entries != [];
      ProbeIsNewest(f, k, s);
      assert FileEntries(f) == Elements(es);
      NewestUnique(Elements(es), k, s, Probe(f, k, s), LastSeen(es, k, s));
    } else {
      NothingThere(number, k, s);
    }
  }

  lemma NothingThere(number: nat, k: UserKey, s: nat)
    ensures Probe(FileOf(number, []), k, s) == None == LastSeen([], k, s)
  {
  }

  lemma FileIsOk(number: nat, es: seq<Entry>)
    requires Rising(es) && es != [] && forall i :: 0 <= i < |es| ==> es[i].key.Parses()
    ensures FileOf(number, es).Ok() && FileEntries(FileOf(number, es)) == Elements(es)
  {
    hide ByKey;
    var f := FileOf(number, es);
    ByKeyIsSorted(es);
    forall i | 0 <= i < |f.entries|
      ensures f.entries[i].key.Parses()
    {
      assert f.entries[i] in es;
    }
  }
}

/** What the tables hold: some first part of what was written, as reads at or above some number can tell. */
module TablesSpec {
  import opened Options
  import opened Bytes
  import opened InternalKeys
  import opened CompactionSpec
  import opened CompactionReads
  import opened CompactionRuns
  import opened Flushes
  import opened NextVersions
  import opened Overlap
  import opened EngineSpec
  import opened LsmTree

  ghost predicate ReadsAgree(v: Version, es: seq<Entry>, low: nat)
    requires Searchable(v)
  {
    forall k, s {:trigger Get(v, k, s)} :: s >= low ==> Get(v, k, s) == ReadOf(LastSeen(es, k, s))
  }

  // The version holds nothing but these entries, and reads from `low` on find the last of them.
  ghost predicate Tabled(v: Version, es: seq<Entry>, low: nat) {
    Tidy(v) && AllEntries(v) <= Elements(es) && ReadsAgree(v, es, low)
  }

  // Every file has a number below the next one.
  ghost predicate NumbersBelow(v: Version, next: nat) {
    forall l, f {:trigger f in v[l]} :: 0 <= l < |v| && f in v[l] ==> f.number < next
  }

  const EMPTY_VERSION: Version := [[], [], [], [], [], [], []]

  lemma NothingTabled()
    ensures Tabled(EMPTY_VERSION, [], 0) && NumbersBelow(EMPTY_VERSION, 0)
  {
    hide Tidy, Searchable, SearchFrom, LevelEntries, EntriesFrom;
    var v := EMPTY_VERSION;
    EmptyIsTidy();
    TidyShape(v);
    EmptyHolds();
    forall k, s {:trigger Get(v, k, s)} | s >= 0
      ensures Get(v, k, s) == None
    {
      NotFound(v, k, s);
    }
  }

  lemma EmptyIsTidy()
    ensures Tidy(EMPTY_VERSION)
  {
  }

  lemma EmptyHolds()
    ensures AllEntries(EMPTY_VERSION) == {} && forall j {:trigger LevelEntries(EMPTY_VERSION[j])} :: 0 <= j < NUM_LEVELS ==> LevelEntries(EMPTY_VERSION[j]) == {}
  {
    forall e
      ensures e !in AllEntries(EMPTY_VERSION)
    {
      EntriesFromIn(EMPTY_VERSION, 0, e);
    }
  }

  // ----- flushing -----

  // What comes later is newer than all that the version holds.
  lemma LaterIsNewer(v: Version, es: seq<Entry>, more: seq<Entry>, number: nat, l: nat, g: File)
    requires |v| == NUM_LEVELS && AllEntries(v) <= Elements(es) && Rising(es + more) && l < NUM_LEVELS && g in v[l]
    ensures NewerFile(FileOf(number, more), g)
  {
    hide ByKey;
    var f := FileOf(number, more);
    forall e, d | e in f.entries && d in g.entries && e.key.userKey == d.key.userKey
      ensures Newer(e.key, d.key)
    {
      assert d in LevelEntries(v[l]);
      EntriesFromIn(v, 0, d);
      assert d in Elements(es) && e in more;
      var i :| 0 <= i < |es| && es[i] == d;
      var j :| 0 <= j < |more| && more[j] == e;
      assert (es + more)[i] == d && (es + more)[|es| + j] == e;
    }
  }

  lemma RisingParts(a: seq<Entry>, b: seq<Entry>)
    requires Rising(a + b)
    ensures Rising(a) && Rising(b)
  {
    forall i, j | 0 <= i < j < |a|
      ensures a[i].key.sequence < a[j].key.sequence
    {
      assert (a + b)[i] == a[i] && (a + b)[j] == a[j];
    }
    forall i, j | 0 <= i < j < |b|
      ensures b[i].key.sequence < b[j].key.sequence
    {
      assert (a + b)[|a| + i] == b[i] && (a + b)[|a| + j] == b[j];
    }
  }

  // A memtable's file fits where nothing overlaps it on the way.
  lemma MemtableFits(v: Version, es: seq<Entry>, low: nat, more: seq<Entry>, number: nat, level: nat)
    requires Tabled(v, es, low) && Rising(es + more) && more != [] && (forall i :: 0 <= i < |more| ==> more[i].key.Parses())
    requires |v| == NUM_LEVELS && NumbersBelow(v, number)
    requires FileOf(number, more).entries != [] && (level > 0 ==> forall l :: 0 <= l <= level && l < NUM_LEVELS ==> Clear(v[l], KeyRange(FileOf(number, more))))
    ensures FitsIn(v, FileOf(number, more), level)
  {
    hide Tidy, NewerFile, Clear, ByKey, ReadsAgree;
    RisingParts(es, more);
    FileIsOk(number, more);
    forall l, g {:trigger g in v[l]} | 0 <= l < NUM_LEVELS && g in v[l]
      ensures NewerFile(FileOf(number, more), g)
    {
      LaterIsNewer(v, es, more, number, l, g);
    }
  }

  /** With a memtable's file added, the tables hold what it held too. */
  lemma FlushedIsTabled(v: Version, es: seq<Entry>, low: nat, more: seq<Entry>, number: nat, level: nat)
    requires Tabled(v, es, low) && Rising(es + more) && more != [] && (forall i :: 0 <= i < |more| ==> more[i].key.Parses())
    requires |v| == NUM_LEVELS && NumbersBelow(v, number) && level < NUM_LEVELS
    requires FileOf(number, more).entries != [] && (level > 0 ==> forall l :: 0 <= l <= level && l < NUM_LEVELS ==> Clear(v[l], KeyRange(FileOf(number, more))))
    ensures Nonempty(v[level])
    ensures Tabled(WithFile(v, FileOf(number, more), level), es + more, low) && NumbersBelow(WithFile(v, FileOf(number, more), level), number + 1)
  {
    hide Clear, ByKey, WithFile, FitsIn, Get, ReadOf, LastSeen, Probe, Flushed, UserKeysApart, Rising;
    var f := FileOf(number, more);
    MemtableFits(v, es, low, more, number, level);
    TidyShape(v);
    NotThereYet(v, f, level);
    WithFileIsFlushed(v, f, level);
    var v' := WithFile(v, f, level);
    FlushKeepsTidy(v, f, level, v');
    FlushedEntries(v, f, level, v');
    RisingParts(es, more);
    FileIsOk(number, more);
    ElementsConcat(es, more);
    FlushedNumbers(v, f, level, v', number);
    forall k, s {:trigger Get(v', k, s)} | s >= low
      ensures Get(v', k, s) == ReadOf(LastSeen(es + more, k, s))
    {
      FlushedRead(v, es, low, more, number, level, v', k, s);
    }
  }

  lemma TidyShape(v: Version)
    requires Tidy(v)
    ensures Shape(v) && Searchable(v) && |v| == NUM_LEVELS
  {
  }

  lemma NotThereYet(v: Version, f: File, level: nat)
    requires |v| == NUM_LEVELS && level < NUM_LEVELS && NumbersBelow(v, f.number)
    ensures f !in v[level] && forall g :: g in v[0] ==> g.number < f.number
  {
  }

  lemma ElementsConcat(a: seq<Entry>, b: seq<Entry>)
    ensures Elements(a + b) == Elements(a) + Elements(b)
  {
  }

  lemma FlushedNumbers(v: Version, f: File, level: nat, v': Version, number: nat)
    requires |v| == NUM_LEVELS && NumbersBelow(v, number) && f.number == number && Flushed(v, f, level, v')
    ensures NumbersBelow(v', number + 1)
  {
  }

  lemma FlushedRead(v: Version, es: seq<Entry>, low: nat, more: seq<Entry>, number: nat, level: nat, v': Version, k: UserKey, s: nat)
    requires Tabled(v, es, low) && Rising(es + more) && (forall i :: 0 <= i < |more| ==> more[i].key.Parses())
    requires |v| == NUM_LEVELS && Flushed(v, FileOf(number, more), level, v') && FitsIn(v, FileOf(number, more), level) && s >= low
    ensures Searchable(v') && Get(v', k, s) == ReadOf(LastSeen(es + more, k, s))
  {
    hide Flushed, FitsIn, Tidy, LastSeen, Probe, ByKey, SearchFrom, Rising;
    TidyShape(v);
    RisingParts(es, more);
    FlushReads(v, FileOf(number, more), level, v', k, s);
    ProbeIsLast(number, more, k, s);
    LastSeenConcat(es, more, k, s);
    assert Get(v, k, s) == ReadOf(LastSeen(es, k, s));
  }

  // ----- compacting -----

  // Every entry of the new version was in the old one.
  lemma CompactedFrom(v: Version, c: Compacted, v': Version, m: nat, f: File, e: Entry)
    requires Step(v, c, v') && c.level + 1 < NUM_LEVELS == |v| == |v'| && Shape(v) && m < NUM_LEVELS && f in v'[m] && e in f.entries
    ensures e in AllEntries(v)
  {
    hide Shape, Chosen, InOrderOf, OverlapsSpan, Kept, Dropped, Concat;
    EntriesFromIn(v, 0, e);
    if f in v[m] {
      assert e in LevelEntries(v[m]);
    } else {
      assert m == c.level + 1 && f in c.outputs && e in LevelEntries(c.outputs);
      OutputEntries(v, c.level, c.snap, c.merged, c.outputs, e);
      var g := FromInput(c.inputs0, c.inputs1, c.merged, e);
      if g in c.inputs0 {
        assert e in LevelEntries(v[c.level]);
      } else {
        assert e in LevelEntries(v[c.level + 1]);
      }
    }
  }

  lemma NothingNew(v: Version, c: Compacted, v': Version)
    requires Step(v, c, v') && c.level + 1 < NUM_LEVELS == |v| == |v'| && Shape(v)
    ensures AllEntries(v') <= AllEntries(v)
  {
    hide Step, Shape;
    forall e | e in AllEntries(v')
      ensures e in AllEntries(v)
    {
      EntriesFromIn(v', 0, e);
      var m :| 0 <= m < NUM_LEVELS && e in LevelEntries(v'[m]);
      var f :| f in v'[m] && e in f.entries;
      CompactedFrom(v, c, v', m, f, e);
    }
  }

  /** A compaction that cuts between user keys changes nothing that reads can tell, from its smallest snapshot on. */
  lemma CompactedIsTabled(v: Version, es: seq<Entry>, low: nat, c: Compacted, v': Version, low': nat)
    requires Tabled(v, es, low) && Step(v, c, v') && LevelOk(c.outputs) && CutBetweenKeys(c.outputs) && low' >= low && low' >= c.snap
    ensures Tabled(v', es, low')
  {
    hide Tidy, Step, Get, ReadOf, LastSeen, CutBetweenKeys;
    TidyShape(v);
    StepSets(v, c, v');
    TidyStep(v, c, v');
    NothingNew(v, c, v');
    TidyShape(v');
    forall k, s {:trigger Get(v', k, s)} | s >= low'
      ensures Get(v', k, s) == ReadOf(LastSeen(es, k, s))
    {
      assert Get(v, k, s) == ReadOf(LastSeen(es, k, s));
    }
  }

  lemma CompactedNumbers(v: Version, c: Compacted, v': Version, next: nat, next': nat)
    requires Step(v, c, v') && |v| == |v'| == NUM_LEVELS && c.level + 1 < NUM_LEVELS && NumbersBelow(v, next) && next <= next'
    requires forall f :: f in c.outputs ==> f.number < next'
    ensures NumbersBelow(v', next')
  {
    hide Compacts;
  }
}
