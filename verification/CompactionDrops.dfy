/** What a compaction leaves out, said of the entries alone: what a newer entry hides from everyone, and deletions that have
    nothing left to delete. */
module CompactionDrops {
  import opened Options
  import opened InternalKeys
  import opened LsmTree
  import opened CompactionSpec
  import opened CompactionReads

  // A newer entry of the user key can be seen by everyone who can still read.
  ghost predicate Hidden(merged: seq<Entry>, e: Entry, smallestSnapshot: nat) {
    exists d :: d in merged && d.key.userKey == e.key.userKey && Before(d.key, e.key) && d.key.sequence <= smallestSnapshot
  }

  // Some file two or more levels further down may hold the user key.
  ghost predicate HeldBelow(v: Version, level: nat, k: UserKey)
    requires Searchable(v)
  {
    exists l, i :: level + 1 < l < NUM_LEVELS && 0 <= i < |v[l]| && v[l][i].Smallest().userKey <= k <= v[l][i].Largest().userKey
  }

  // A deletion that everyone can see, of a key that is nowhere below.
  ghost predicate Obsolete(v: Version, level: nat, e: Entry, smallestSnapshot: nat)
    requires Searchable(v)
  {
    e.key.tag == TYPE_DELETION && e.key.sequence <= smallestSnapshot && !HeldBelow(v, level, e.key.userKey)
  }

  ghost predicate AllParse(merged: seq<Entry>) {
    forall i :: 0 <= i < |merged| ==> merged[i].key.Parses()
  }

  lemma NotAfterIsNotNewer(a: InternalKey, b: InternalKey)
    requires Before(a, b) && a.userKey == b.userKey
    ensures a.sequence >= b.sequence
  {
    assert a.Packed() == a.sequence * 256 + a.tag && b.Packed() == b.sequence * 256 + b.tag;
  }

  // Of the newer entries of a user key the last is the one before.
  lemma HiddenByPrevious(merged: seq<Entry>, i: nat, snap: nat)
    requires Sorted(merged) && AllParse(merged) && i < |merged| && snap < MAX_SEQUENCE
    ensures PreviousSequence(merged, i) <= snap <==> Hidden(merged, merged[i], snap)
  {
    var e := merged[i];
    if PreviousSequence(merged, i) <= snap {
      var d := merged[i - 1];
      assert d in merged && Before(d.key, e.key);
    }
    if d :| d in merged && d.key.userKey == e.key.userKey && Before(d.key, e.key) && d.key.sequence <= snap {
      var j :| 0 <= j < |merged| && merged[j] == d;
      BeforeIsStrictTotalOrder(d.key, e.key, d.key);
      assert j < i;
      var p := merged[i - 1];
      if j < i - 1 {
        Between(d.key, p.key, e.key);
        NotAfterIsNotNewer(d.key, p.key);
      }
    }
  }

  lemma Between(a: InternalKey, b: InternalKey, c: InternalKey)
    requires Before(a, b) && Before(b, c) && a.userKey == c.userKey
    ensures b.userKey == a.userKey
  {
  }

  lemma BaseIsNotBelow(v: Version, level: nat, k: UserKey)
    requires Shape(v)
    ensures BaseLevel(v, level, k) <==> !HeldBelow(v, level, k)
  {
    if !BaseLevel(v, level, k) {
      var l, i :| level + 2 <= l < NUM_LEVELS && 0 <= i < |v[l]| && v[l][i].Reaches(k);
      assert v[l][i].Smallest().userKey <= k <= v[l][i].Largest().userKey;
    }
    if HeldBelow(v, level, k) {
      var l, i :| level + 1 < l < NUM_LEVELS && 0 <= i < |v[l]| && v[l][i].Smallest().userKey <= k <= v[l][i].Largest().userKey;
      assert v[l][i].Reaches(k);
    }
  }

  /** An entry is left out exactly when it is hidden or obsolete. */
  lemma DroppedIff(v: Version, level: nat, snap: nat, merged: seq<Entry>, i: nat)
    requires Shape(v) && Sorted(merged) && AllParse(merged) && i < |merged| && snap < MAX_SEQUENCE
    ensures Dropped(v, level, snap, merged, i) <==> Hidden(merged, merged[i], snap) || Obsolete(v, level, merged[i], snap)
  {
    hide BaseLevel, HeldBelow, Hidden, PreviousSequence, Sorted;
    HiddenByPrevious(merged, i, snap);
    BaseIsNotBelow(v, level, merged[i].key.userKey);
  }

  /** What is kept is what is neither hidden nor obsolete. */
  lemma KeptIff(v: Version, level: nat, snap: nat, merged: seq<Entry>, e: Entry)
    requires Shape(v) && Sorted(merged) && AllParse(merged) && snap < MAX_SEQUENCE
    ensures e in Kept(v, level, snap, merged, |merged|) <==> e in merged && !Hidden(merged, e, snap) && !Obsolete(v, level, e, snap)
  {
    hide Searchable, Hidden, Obsolete, Dropped, Kept, Sorted, AllParse;
    KeptElements(v, level, snap, merged, |merged|, e);
    forall i | 0 <= i < |merged|
      ensures Dropped(v, level, snap, merged, i) <==> Hidden(merged, merged[i], snap) || Obsolete(v, level, merged[i], snap)
    {
      DroppedIff(v, level, snap, merged, i);
    }
  }

  /** When every entry can be seen by everyone and nothing lies further down, a compaction leaves exactly the newest entry of
      each user key that is not deleted. */
  lemma OnlyNewestValues(v: Version, level: nat, snap: nat, merged: seq<Entry>, e: Entry)
    requires Shape(v) && Sorted(merged) && AllParse(merged) && snap < MAX_SEQUENCE
    requires (forall l :: level + 1 < l < NUM_LEVELS ==> v[l] == []) && forall i :: 0 <= i < |merged| ==> merged[i].key.sequence <= snap
    ensures e in Kept(v, level, snap, merged, |merged|) <==>
            e in merged && e.key.tag == TYPE_VALUE && forall d :: d in merged && d.key.userKey == e.key.userKey ==> d == e || Before(e.key, d.key)
  {
    hide Shape, Kept, Obsolete;
    KeptIff(v, level, snap, merged, e);
    if e in merged {
      NothingBelow(v, level, e, snap);
      var i :| 0 <= i < |merged| && merged[i] == e;
      forall d | d in merged && d.key.userKey == e.key.userKey
        ensures d == e || Before(e.key, d.key) || Before(d.key, e.key)
      {
        var j :| 0 <= j < |merged| && merged[j] == d;
      }
      forall d | d in merged
        ensures !(Before(d.key, e.key) && (d == e || Before(e.key, d.key)))
      {
        BeforeIsStrictTotalOrder(d.key, e.key, d.key);
      }
    }
  }

  lemma NothingBelow(v: Version, level: nat, e: Entry, snap: nat)
    requires Shape(v) && (forall l :: level + 1 < l < NUM_LEVELS ==> v[l] == []) && e.key.sequence <= snap && e.key.Parses()
    ensures Obsolete(v, level, e, snap) <==> e.key.tag != TYPE_VALUE
  {
  }
}
