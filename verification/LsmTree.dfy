/** A version of the database: levels of sorted files, and how a point read searches them. */
module LsmTree {
  import opened Options
  import opened InternalKeys

  const NUM_LEVELS := 7

  // A table file; smallest and largest are the keys of its first and last entry.
  datatype File = File(number: nat, entries: seq<Entry>) {
    ghost predicate Ok() {
      entries != [] && Sorted(entries) && forall i :: 0 <= i < |entries| ==> entries[i].key.Parses()
    }

    function Smallest(): InternalKey
      requires entries != []
    {
      entries[0].key
    }

    function Largest(): InternalKey
      requires entries != []
    {
      entries[|entries| - 1].key
    }

    // The file's range of user keys reaches k.
    predicate Reaches(k: UserKey)
      requires entries != []
    {
      Smallest().userKey <= k <= Largest().userKey
    }
  }

  type Level = seq<File>
  type Version = seq<Level>

  predicate Newer(a: InternalKey, b: InternalKey) {
    a.Packed() > b.Packed()
  }

  // Entries of one user key in file f are all newer than those in file g.
  ghost predicate NewerFile(f: File, g: File) {
    forall e, d :: e in f.entries && d in g.entries && e.key.userKey == d.key.userKey ==> Newer(e.key, d.key)
  }

  ghost predicate NewerLevel(above: Level, below: Level) {
    forall f, g {:trigger NewerFile(f, g)} :: f in above && g in below ==> NewerFile(f, g)
  }

  ghost predicate LevelOk(files: Level) {
    forall i :: 0 <= i < |files| ==> files[i].Ok()
  }

  // Files of a level above 0 are sorted and do not overlap as ranges of internal keys.
  ghost predicate LevelSorted(files: Level)
    requires LevelOk(files)
  {
    forall i, j :: 0 <= i < j < |files| ==> Before(files[i].Largest(), files[j].Smallest())
  }

  // Each level can be searched: its files are sorted or, on level 0, carry larger numbers when they are newer.
  ghost predicate Searchable(v: Version) {
    |v| == NUM_LEVELS &&
    (forall l :: 0 <= l < NUM_LEVELS ==> LevelOk(v[l])) &&
    (forall l :: 1 <= l < NUM_LEVELS ==> LevelSorted(v[l])) &&
    (forall i, j :: 0 <= i < j < |v[0]| ==> v[0][i].number != v[0][j].number) &&
    (forall f, g {:trigger NewerFile(f, g)} :: f in v[0] && g in v[0] && f.number > g.number ==> NewerFile(f, g))
  }

  // What the database keeps true of every version: levels that can be searched, and newer data in higher levels.
  ghost predicate Shape(v: Version) {
    && Searchable(v)
    && (forall a, b {:trigger NewerLevel(v[a], v[b])} :: 0 <= a < b < NUM_LEVELS ==> NewerLevel(v[a], v[b]))
  }

  ghost function LevelEntries(files: Level): set<Entry> {
    set f, e | f in files && e in f.entries :: e
  }

  ghost function EntriesFrom(v: Version, l: nat): set<Entry>
    decreases |v| - l
  {
    if l >= |v| then {} else LevelEntries(v[l]) + EntriesFrom(v, l + 1)
  }

  ghost function AllEntries(v: Version): set<Entry> {
    EntriesFrom(v, 0)
  }

  // A sequence number reaches the entry.
  predicate Seen(e: Entry, k: UserKey, s: nat) {
    e.key.userKey == k && e.key.sequence <= s
  }

  // ----- a point read -----

  // The lookup key of user key k at sequence number s.
  function LookupKey(k: UserKey, s: nat): InternalKey {
    InternalKey(k, s, TYPE_FOR_SEEK)
  }

  // Seek in one table: the entry found there, when it is one of k.
  function Probe(f: File, k: UserKey, s: nat): (r: Option<Entry>) {
    var i := LowerBound(f.entries, LookupKey(k, s));
    if i < |f.entries| && f.entries[i].key.userKey == k then Some(f.entries[i]) else None
  }

  // Index of the first file whose largest key is at or after the target.
  function FileIndex(files: Level, target: InternalKey): (n: nat)
    requires forall i :: 0 <= i < |files| ==> files[i].entries != []
    ensures n <= |files|
    ensures forall i :: 0 <= i < n ==> Before(files[i].Largest(), target)
    ensures n < |files| ==> !Before(files[n].Largest(), target)
  {
    if files != [] && Before(files[0].Largest(), target) then 1 + FileIndex(files[1..], target) else 0
  }

  /** Binary search for the first file whose largest key is at or after the target. */
  method FindFile(files: Level, target: InternalKey) returns (index: nat)
    requires forall i :: 0 <= i < |files| ==> files[i].entries != []
    requires forall i, j :: 0 <= i < j < |files| ==> Before(files[i].Largest(), files[j].Largest())
    ensures index == FileIndex(files, target)
  {
    var left, right := 0, |files|;
    while left < right
      invariant 0 <= left <= right <= |files|
      invariant forall i :: 0 <= i < left ==> Before(files[i].Largest(), target)
      invariant forall i :: right <= i < |files| ==> !Before(files[i].Largest(), target)
    {
      var mid := (left + right) / 2;
      if Before(files[mid].Largest(), target) {
        left := mid + 1;
      } else {
        right := mid;
      }
    }
    assert right < |files| ==> !Before(files[right].Largest(), target);
    index := right;
  }

  // Level 0: the overlapping files, newest first.
  function InsertByNumber(f: File, files: Level): Level {
    if files == [] || f.number > files[0].number then [f] + files
    else [files[0]] + InsertByNumber(f, files[1..])
  }

  function NewestFirst(files: Level, k: UserKey): Level
    requires forall i :: 0 <= i < |files| ==> files[i].entries != []
  {
    if files == [] then []
    else if files[0].Reaches(k) then InsertByNumber(files[0], NewestFirst(files[1..], k))
    else NewestFirst(files[1..], k)
  }

  function ProbeAll(files: Level, k: UserKey, s: nat): Option<Entry> {
    if files == [] then None
    else
      var r := Probe(files[0], k, s);
      if r.Some? then r else ProbeAll(files[1..], k, s)
  }

  function SearchLevel(v: Version, l: nat, k: UserKey, s: nat): Option<Entry>
    requires l < |v| && forall i :: 0 <= i < |v[l]| ==> v[l][i].entries != []
  {
    if l == 0 then ProbeAll(NewestFirst(v[0], k), k, s)
    else
      var i := FileIndex(v[l], LookupKey(k, s));
      if i < |v[l]| && v[l][i].Smallest().userKey <= k then Probe(v[l][i], k, s) else None
  }

  // Level by level; the first level with data for k decides.
  function SearchFrom(v: Version, l: nat, k: UserKey, s: nat): Option<Entry>
    requires |v| == NUM_LEVELS && forall m, i :: 0 <= m < |v| && 0 <= i < |v[m]| ==> v[m][i].entries != []
    decreases NUM_LEVELS - l
  {
    if l >= NUM_LEVELS then None
    else
      var r := SearchLevel(v, l, k, s);
      if r.Some? then r else SearchFrom(v, l + 1, k, s)
  }

  // The value a read returns, None when the key is absent or deleted.
  function ReadOf(r: Option<Entry>): Option<Bytes> {
    if r.Some? && r.value.key.tag == TYPE_VALUE then Some(r.value.value) else None
  }

  ghost function Get(v: Version, k: UserKey, s: nat): Option<Bytes>
    requires Searchable(v)
  {
    ReadOf(SearchFrom(v, 0, k, s))
  }

  // ----- the search finds the newest visible entry -----

  // r is the newest entry of k in es up to sequence number s.
  ghost predicate Newest(es: set<Entry>, k: UserKey, s: nat, r: Option<Entry>) {
    match r
    case None => forall e :: e in es ==> !Seen(e, k, s)
    case Some(n) =>
      n in es && Seen(n, k, s) && forall e :: e in es && Seen(e, k, s) ==> e == n || Newer(n.key, e.key)
  }

  // Searching a, then b when a has nothing, where all of a is newer than b.
  lemma SearchInOrder(a: set<Entry>, b: set<Entry>, k: UserKey, s: nat, ra: Option<Entry>, rb: Option<Entry>)
    requires Newest(a, k, s, ra) && Newest(b, k, s, rb)
    requires forall e, d :: e in a && d in b && e.key.userKey == d.key.userKey ==> Newer(e.key, d.key)
    ensures Newest(a + b, k, s, if ra.Some? then ra else rb)
  {
  }

  ghost function FileEntries(f: File): set<Entry> {
    set e | e in f.entries
  }

  lemma ProbeIsNewest(f: File, k: UserKey, s: nat)
    requires f.Ok()
    ensures Newest(FileEntries(f), k, s, Probe(f, k, s))
  {
    var t := LookupKey(k, s);
    var i := LowerBound(f.entries, t);
    forall e | e in f.entries && Seen(e, k, s)
      ensures i < |f.entries| && f.entries[i].key.userKey == k && (e == f.entries[i] || Newer(f.entries[i].key, e.key))
    {
      var j :| 0 <= j < |f.entries| && f.entries[j] == e;
      assert !Before(e.key, t);
    }
  }

  lemma SortedLevelIsNewest(v: Version, l: nat, k: UserKey, s: nat)
    requires Searchable(v) && 1 <= l < NUM_LEVELS
    ensures Newest(LevelEntries(v[l]), k, s, SearchLevel(v, l, k, s))
  {
    var files, t := v[l], LookupKey(k, s);
    var i := FileIndex(files, t);
    var r := SearchLevel(v, l, k, s);
    forall f, e | f in files && e in f.entries && Seen(e, k, s)
      ensures r.Some? && (e == r.value || Newer(r.value.key, e.key))
    {
      var j :| 0 <= j < |files| && files[j] == f;
      var q :| 0 <= q < |f.entries| && f.entries[q] == e;
      assert !Before(e.key, t);
      assert i <= j by {
        if j < i {
          BeforeIsStrictTotalOrder(e.key, f.Largest(), t);
        }
      }
      ProbeIsNewest(files[i], k, s);
      if i < j {
        LaterFile(files, i, j, q, k, s);
      } else {
        assert e in FileEntries(files[i]);
      }
    }
    if r.Some? {
      ProbeIsNewest(files[i], k, s);
      assert files[i] in files;
    }
  }

  // An entry of k in a later file is older than what the file found by the search has.
  lemma LaterFile(files: Level, i: nat, j: nat, q: nat, k: UserKey, s: nat)
    requires LevelOk(files) && LevelSorted(files) && i < j < |files| && q < |files[j].entries|
    requires !Before(files[i].Largest(), LookupKey(k, s)) && Seen(files[j].entries[q], k, s)
    ensures files[i].Smallest().userKey <= k
    ensures Probe(files[i], k, s).Some? && Newer(Probe(files[i], k, s).value.key, files[j].entries[q].key)
  {
    var f, e, t := files[i], files[j].entries[q], LookupKey(k, s);
    var n := LowerBound(f.entries, t);
    assert n < |f.entries|;
    BeforeIsStrictTotalOrder(files[i].Largest(), files[j].Smallest(), e.key);
    BeforeIsStrictTotalOrder(f.entries[n].key, f.Largest(), e.key);
  }

  // ----- level 0 -----

  ghost predicate NewestFirstOrder(files: Level) {
    forall i, j :: 0 <= i < j < |files| ==> NewerFile(files[i], files[j])
  }

  lemma {:induction false} InsertOk(f: File, files: Level)
    ensures forall g :: g in InsertByNumber(f, files) <==> g == f || g in files
    ensures (forall i, j :: 0 <= i < j < |files| ==> files[i].number > files[j].number) &&
            (forall g :: g in files ==> g.number != f.number) ==>
              forall i, j :: 0 <= i < j < |InsertByNumber(f, files)| ==>
                InsertByNumber(f, files)[i].number > InsertByNumber(f, files)[j].number
  {
    var r := InsertByNumber(f, files);
    if files != [] && f.number <= files[0].number {
      InsertOk(f, files[1..]);
      assert files == [files[0]] + files[1..];
      forall j | 0 < j < |r| ensures r[j] in InsertByNumber(f, files[1..]) {
        assert r[j] == InsertByNumber(f, files[1..])[j - 1];
      }
    }
  }

  lemma {:induction false} NewestFirstOk(files: Level, k: UserKey)
    requires forall i :: 0 <= i < |files| ==> files[i].entries != []
    ensures forall g :: g in NewestFirst(files, k) <==> g in files && g.Reaches(k)
    ensures (forall i, j :: 0 <= i < j < |files| ==> files[i].number != files[j].number) ==>
              forall i, j :: 0 <= i < j < |NewestFirst(files, k)| ==>
                NewestFirst(files, k)[i].number > NewestFirst(files, k)[j].number
  {
    if files != [] {
      NewestFirstOk(files[1..], k);
      InsertOk(files[0], NewestFirst(files[1..], k));
      assert files == [files[0]] + files[1..];
      forall g | g in files[1..] && (forall i, j :: 0 <= i < j < |files| ==> files[i].number != files[j].number)
        ensures g.number != files[0].number
      {
        var j :| 0 <= j < |files[1..]| && files[1..][j] == g;
        assert files[j + 1] == g;
      }
    }
  }

  lemma {:induction false} ProbeAllIsNewest(files: Level, k: UserKey, s: nat)
    requires LevelOk(files) && NewestFirstOrder(files)
    ensures Newest(LevelEntries(files), k, s, ProbeAll(files, k, s))
  {
    if files != [] {
      ProbeIsNewest(files[0], k, s);
      ProbeAllIsNewest(files[1..], k, s);
      assert files == [files[0]] + files[1..];
      assert LevelEntries(files) == FileEntries(files[0]) + LevelEntries(files[1..]);
      SearchInOrder(FileEntries(files[0]), LevelEntries(files[1..]), k, s, Probe(files[0], k, s), ProbeAll(files[1..], k, s));
    }
  }

  lemma LevelZeroIsNewest(v: Version, k: UserKey, s: nat)
    requires Searchable(v)
    ensures Newest(LevelEntries(v[0]), k, s, SearchLevel(v, 0, k, s))
  {
    var files := NewestFirst(v[0], k);
    NewestFirstOk(v[0], k);
    forall i, j | 0 <= i < j < |files| ensures NewerFile(files[i], files[j]) {
      assert files[i] in files && files[j] in files;
    }
    forall i | 0 <= i < |files| ensures files[i].Ok() {
      assert files[i] in files;
    }
    ProbeAllIsNewest(files, k, s);
    forall f, e | f in v[0] && e in f.entries && e.key.userKey == k ensures f in files {
      KeyInRange(f, e);
    }
  }

  lemma KeyInRange(f: File, e: Entry)
    requires f.Ok() && e in f.entries
    ensures f.Reaches(e.key.userKey)
  {
    var j :| 0 <= j < |f.entries| && f.entries[j] == e;
  }

  lemma {:induction false} EntriesFromIn(v: Version, l: nat, e: Entry)
    ensures e in EntriesFrom(v, l) <==> exists m :: l <= m < |v| && e in LevelEntries(v[m])
    decreases |v| - l
  {
    if l < |v| {
      EntriesFromIn(v, l + 1, e);
    }
  }

  // Entries of a level are newer than those of the levels below it.
  lemma NewerThanBelow(v: Version, l: nat, e: Entry, d: Entry)
    requires Shape(v) && l < NUM_LEVELS && e in LevelEntries(v[l]) && d in EntriesFrom(v, l + 1) && e.key.userKey == d.key.userKey
    ensures Newer(e.key, d.key)
  {
    EntriesFromIn(v, l + 1, d);
    var m :| l + 1 <= m < |v| && d in LevelEntries(v[m]);
    var f :| f in v[l] && e in f.entries;
    var g :| g in v[m] && d in g.entries;
    assert NewerLevel(v[l], v[m]) && NewerFile(f, g);
  }

  lemma AllNewerThanBelow(v: Version, l: nat)
    requires Shape(v) && l < NUM_LEVELS
    ensures forall e, d :: e in LevelEntries(v[l]) && d in EntriesFrom(v, l + 1) && e.key.userKey == d.key.userKey ==> Newer(e.key, d.key)
  {
    hide LevelEntries, EntriesFrom, Newer;
    forall e, d | e in LevelEntries(v[l]) && d in EntriesFrom(v, l + 1) && e.key.userKey == d.key.userKey
      ensures Newer(e.key, d.key)
    {
      NewerThanBelow(v, l, e, d);
    }
  }

  lemma {:induction false} SearchFromIsNewest(v: Version, l: nat, k: UserKey, s: nat)
    requires Shape(v) && l <= NUM_LEVELS
    ensures Newest(EntriesFrom(v, l), k, s, SearchFrom(v, l, k, s))
    decreases NUM_LEVELS - l
  {
    hide Newest, SearchLevel, LevelEntries, Newer;
    if l < NUM_LEVELS {
      LevelIsNewest(v, l, k, s);
      SearchFromIsNewest(v, l + 1, k, s);
      AllNewerThanBelow(v, l);
      SearchInOrder(LevelEntries(v[l]), EntriesFrom(v, l + 1), k, s, SearchLevel(v, l, k, s), SearchFrom(v, l + 1, k, s));
    } else {
      NoneIsNewest({}, k, s);
    }
  }

  /** A point read that stops at the first file with data returns the newest entry of the whole
      version that its sequence number can see. */
  lemma SearchIsNewest(v: Version, k: UserKey, s: nat)
    requires Shape(v)
    ensures Newest(AllEntries(v), k, s, SearchFrom(v, 0, k, s))
  {
    SearchFromIsNewest(v, 0, k, s);
  }

  // ----- which level decides -----

  // No entry of k is seen at sequence number s.
  ghost predicate NoneSeen(es: set<Entry>, k: UserKey, s: nat) {
    forall e :: e in es ==> !Seen(e, k, s)
  }

  lemma LevelIsNewest(v: Version, l: nat, k: UserKey, s: nat)
    requires Searchable(v) && l < NUM_LEVELS
    ensures Newest(LevelEntries(v[l]), k, s, SearchLevel(v, l, k, s))
  {
    if l == 0 {
      LevelZeroIsNewest(v, k, s);
    } else {
      SortedLevelIsNewest(v, l, k, s);
    }
  }

  // Two newest entries among the same ones are the same.
  lemma NewestUnique(es: set<Entry>, k: UserKey, s: nat, a: Option<Entry>, b: Option<Entry>)
    requires Newest(es, k, s, a) && Newest(es, k, s, b)
    ensures a == b
  {
  }

  lemma NoneIsNewest(es: set<Entry>, k: UserKey, s: nat)
    ensures NoneSeen(es, k, s) <==> Newest(es, k, s, None)
  {
  }

  // A search goes on past levels where it sees nothing.
  lemma {:induction false} SearchSkips(v: Version, l: nat, m: nat, k: UserKey, s: nat)
    requires Searchable(v) && l <= m <= NUM_LEVELS
    requires forall j {:trigger LevelEntries(v[j])} :: l <= j < m ==> NoneSeen(LevelEntries(v[j]), k, s)
    ensures SearchFrom(v, l, k, s) == SearchFrom(v, m, k, s)
    decreases m - l
  {
    hide Newest, NoneSeen, LevelEntries, SearchLevel;
    if l < m {
      LevelIsNewest(v, l, k, s);
      NoneIsNewest(LevelEntries(v[l]), k, s);
      NewestUnique(LevelEntries(v[l]), k, s, SearchLevel(v, l, k, s), None);
      SearchSkips(v, l + 1, m, k, s);
    }
  }

  // The first level that sees an entry of k decides, by the newest that it sees.
  lemma FoundAt(v: Version, l: nat, k: UserKey, s: nat, r: Entry)
    requires Searchable(v) && l < NUM_LEVELS && Newest(LevelEntries(v[l]), k, s, Some(r))
    requires forall j {:trigger LevelEntries(v[j])} :: 0 <= j < l ==> NoneSeen(LevelEntries(v[j]), k, s)
    ensures SearchFrom(v, 0, k, s) == Some(r)
  {
    hide Newest, NoneSeen, LevelEntries, SearchLevel;
    SearchSkips(v, 0, l, k, s);
    LevelIsNewest(v, l, k, s);
    NewestUnique(LevelEntries(v[l]), k, s, SearchLevel(v, l, k, s), Some(r));
  }

  lemma NotFound(v: Version, k: UserKey, s: nat)
    requires Searchable(v)
    requires forall j {:trigger LevelEntries(v[j])} :: 0 <= j < NUM_LEVELS ==> NoneSeen(LevelEntries(v[j]), k, s)
    ensures SearchFrom(v, 0, k, s) == None
  {
    hide NoneSeen, LevelEntries, SearchLevel;
    SearchSkips(v, 0, NUM_LEVELS, k, s);
  }
}
