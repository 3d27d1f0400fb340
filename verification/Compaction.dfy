/** Compaction: which entries it drops, and why no live read can tell. */
module CompactionSpec {
  import opened Options
  import opened InternalKeys
  import opened LsmTree

  const MAX_SEQUENCE: nat := 0xFF_FFFF_FFFF_FFFF

  // No file below the output level has a range that reaches user key k.
  ghost predicate BaseLevel(v: Version, level: nat, k: UserKey)
    requires Shape(v)
  {
    forall l, i :: level + 2 <= l < NUM_LEVELS && 0 <= i < |v[l]| ==> !v[l][i].Reaches(k)
  }

  // The sequence number of the preceding entry of the same user key, when there is one.
  function PreviousSequence(merged: seq<Entry>, i: nat): nat
    requires i < |merged|
  {
    if i == 0 || !merged[i - 1].key.Parses() || merged[i - 1].key.userKey != merged[i].key.userKey
    then MAX_SEQUENCE else merged[i - 1].key.sequence
  }

  // The compaction leaves out entry i of its merged input.
  ghost predicate Dropped(v: Version, level: nat, smallestSnapshot: nat, merged: seq<Entry>, i: nat)
    requires Shape(v) && i < |merged|
  {
    var key := merged[i].key;
    key.Parses() &&
    (|| PreviousSequence(merged, i) <= smallestSnapshot
     || (key.tag == TYPE_DELETION && key.sequence <= smallestSnapshot && BaseLevel(v, level, key.userKey)))
  }

  // The first n entries of the merged input without the dropped ones.
  ghost function Kept(v: Version, level: nat, smallestSnapshot: nat, merged: seq<Entry>, n: nat): seq<Entry>
    requires Shape(v) && n <= |merged|
  {
    if n == 0 then []
    else Kept(v, level, smallestSnapshot, merged, n - 1) +
         (if Dropped(v, level, smallestSnapshot, merged, n - 1) then [] else [merged[n - 1]])
  }

  function Concat(pieces: seq<seq<Entry>>): seq<Entry> {
    if pieces == [] then [] else Concat(pieces[..|pieces| - 1]) + pieces[|pieces| - 1]
  }

  lemma ConcatMore(pieces: seq<seq<Entry>>, last: seq<Entry>)
    ensures Concat(pieces + [last]) == Concat(pieces) + last
  {
    assert (pieces + [last])[..|pieces|] == pieces;
  }

  // ----- where output files are cut -----

  // The output files that are closed, and the entries of the one that is open, if any.
  datatype Writing = Writing(closed: seq<seq<Entry>>, open: seq<Entry>) {
    function Close(): (w: Writing)
      ensures w.open == []
    {
      if open == [] then this else Writing(closed + [open], [])
    }

    function Add(e: Entry, full: bool): Writing {
      if full then Writing(closed, open + [e]).Close() else Writing(closed, open + [e])
    }

    ghost predicate NoneEmpty() {
      forall i :: 0 <= i < |closed| ==> closed[i] != []
    }

    lemma CloseKeeps()
      ensures Concat(Close().closed) == Concat(closed) + open
      ensures NoneEmpty() ==> Close().NoneEmpty()
    {
      ConcatMore(closed, open);
    }
  }

  // A file is closed before an entry that reaches over too much of the level two further down, and after one that
  // makes it big enough.
  ghost function WritingAfter(v: Version, level: nat, smallestSnapshot: nat, merged: seq<Entry>,
                              shouldStopBefore: nat -> bool, bigEnough: nat -> bool, n: nat): Writing
    requires Shape(v) && n <= |merged|
  {
    if n == 0 then Writing([], [])
    else
      var w := WritingAfter(v, level, smallestSnapshot, merged, shouldStopBefore, bigEnough, n - 1);
      var w' := if shouldStopBefore(n - 1) then w.Close() else w;
      if Dropped(v, level, smallestSnapshot, merged, n - 1) then w' else w'.Add(merged[n - 1], bigEnough(n - 1))
  }

  // However the files are cut, they hold the entries that are kept, in order.
  lemma {:induction false} WritingHoldsKept(v: Version, level: nat, smallestSnapshot: nat, merged: seq<Entry>,
                                            shouldStopBefore: nat -> bool, bigEnough: nat -> bool, n: nat)
    requires Shape(v) && n <= |merged|
    ensures var w := WritingAfter(v, level, smallestSnapshot, merged, shouldStopBefore, bigEnough, n);
            Concat(w.closed) + w.open == Kept(v, level, smallestSnapshot, merged, n) && w.NoneEmpty()
  {
    hide Dropped, Concat, Shape;
    if n > 0 {
      WritingHoldsKept(v, level, smallestSnapshot, merged, shouldStopBefore, bigEnough, n - 1);
      var w := WritingAfter(v, level, smallestSnapshot, merged, shouldStopBefore, bigEnough, n - 1);
      w.CloseKeeps();
      var w' := if shouldStopBefore(n - 1) then w.Close() else w;
      Writing(w'.closed, w'.open + [merged[n - 1]]).CloseKeeps();
      Regroup(Concat(w'.closed), w'.open, merged[n - 1]);
    } else {
      ConcatNothing();
    }
  }

  lemma Regroup(a: seq<Entry>, b: seq<Entry>, e: Entry)
    ensures a + (b + [e]) == a + b + [e] && a + b + [] == a + b
  {
  }

  lemma ConcatNothing()
    ensures Concat([]) + [] == []
  {
  }
}

module Compactions {
  import opened Options
  import opened InternalKeys
  import opened LsmTree
  import opened CompactionSpec
  import opened CompactionDrops

  class Compaction {
    const level: nat
    const inputVersion: Version
    const levelPtrs: array<nat>
    ghost var asked: Option<UserKey>  // the last key IsBaseLevelForKey was asked about

    constructor (level: nat, version: Version)
      requires Shape(version) && level + 1 < NUM_LEVELS
      ensures Valid() && fresh(levelPtrs) && this.level == level && inputVersion == version && asked.None?
    {
      this.level := level;
      inputVersion := version;
      levelPtrs := new nat[NUM_LEVELS](_ => 0);
      asked := None;
    }

    // Files before a pointer end below every key asked so far.
    ghost predicate Valid()
      reads this, levelPtrs
    {
      Shape(inputVersion) && level + 1 < NUM_LEVELS == levelPtrs.Length &&
      forall l :: 1 <= l < NUM_LEVELS ==>
        levelPtrs[l] <= |inputVersion[l]| &&
        forall i :: 0 <= i < levelPtrs[l] ==> asked.Some? && inputVersion[l][i].Largest().userKey < asked.value
    }

    lemma ValidShape()
      requires Valid()
      ensures Shape(inputVersion)
    {
    }

    // Move one level's pointer up to the key; tell whether a file of the level reaches it.
    method LevelReaches(lvl: nat, userKey: UserKey) returns (reached: bool)
      requires Valid() && 1 <= lvl < NUM_LEVELS && asked == Some(userKey)
      modifies levelPtrs
      ensures Valid()
      ensures reached == exists i :: 0 <= i < |inputVersion[lvl]| && inputVersion[lvl][i].Reaches(userKey)
    {
      var files := inputVersion[lvl];
      while levelPtrs[lvl] < |files|
        invariant Valid()
        decreases |files| - levelPtrs[lvl]
      {
        var f := files[levelPtrs[lvl]];
        if userKey <= f.Largest().userKey {
          // Far enough: the key falls in this file's range or in the gap before it.
          reached := userKey >= f.Smallest().userKey;
          forall j | levelPtrs[lvl] < j < |files| ensures !files[j].Reaches(userKey) || reached {
            assert Before(f.Largest(), files[j].Smallest());
          }
          return;
        }
        levelPtrs[lvl] := levelPtrs[lvl] + 1;
      }
      reached := false;
    }

    /** For non-decreasing keys, the moving pointers answer exactly whether some deeper file's
        range reaches the key. */
    method IsBaseLevelForKey(userKey: UserKey) returns (base: bool)
      requires Valid() && (asked.Some? ==> asked.value <= userKey)
      modifies levelPtrs, `asked
      ensures Valid() && asked == Some(userKey)
      ensures base == BaseLevel(inputVersion, level, userKey)
    {
      asked := Some(userKey);
      var lvl := level + 2;
      while lvl < NUM_LEVELS
        invariant Valid() && level + 2 <= lvl <= NUM_LEVELS && asked == Some(userKey)
        invariant forall l, i :: level + 2 <= l < lvl && 0 <= i < |inputVersion[l]| ==> !inputVersion[l][i].Reaches(userKey)
      {
        var reached := LevelReaches(lvl, userKey);
        if reached {
          return false;
        }
        lvl := lvl + 1;
      }
      base := true;
    }

    // Drop rule for the entry at n, given what the loop remembers about the entries before it.
    method ShouldDrop(merged: seq<Entry>, n: nat, smallestSnapshot: nat, hasCurrent: bool, current: UserKey, last: nat)
      returns (drop: bool, hasCurrent': bool, current': UserKey, last': nat)
      requires Valid() && Sorted(merged) && n < |merged| && smallestSnapshot < MAX_SEQUENCE
      requires asked.Some? ==> asked.value <= merged[n].key.userKey
      requires Remembers(merged, n, hasCurrent, current, last)
      modifies levelPtrs, `asked
      ensures Valid() && (asked == old(asked) || asked == Some(merged[n].key.userKey))
      ensures drop == Dropped(inputVersion, level, smallestSnapshot, merged, n)
      ensures Remembers(merged, n + 1, hasCurrent', current', last')
    {
      var key := merged[n].key;
      drop, hasCurrent', current', last' := false, hasCurrent, current, last;
      if !key.Parses() {
        // Do not hide error keys
        hasCurrent' := false;
        last' := MAX_SEQUENCE;
      } else {
        if !hasCurrent || key.userKey != current {
          // First occurrence of this user key
          current' := key.userKey;
          hasCurrent' := true;
          last' := MAX_SEQUENCE;
        }
        if last' <= smallestSnapshot {
          // Hidden by a newer entry for the same user key
          drop := true;
        } else if key.tag == TYPE_DELETION && key.sequence <= smallestSnapshot {
          drop := IsBaseLevelForKey(key.userKey);
        }
        last' := key.sequence;
      }
    }
  }

  // What the loop knows of the entry before n: its user key and sequence number, unless it is unreadable.
  ghost predicate Remembers(merged: seq<Entry>, n: nat, hasCurrent: bool, current: UserKey, last: nat)
    requires n <= |merged|
  {
    hasCurrent == (n > 0 && merged[n - 1].key.Parses()) &&
    (hasCurrent ==> current == merged[n - 1].key.userKey && last == merged[n - 1].key.sequence)
  }

  /** The compaction loop: the output files are those that the cutting decisions make of the entries kept. */
  method DoCompactionWork(c: Compaction, merged: seq<Entry>, smallestSnapshot: nat,
                          shouldStopBefore: nat -> bool, bigEnough: nat -> bool)
    returns (outputs: seq<seq<Entry>>)
    requires c.Valid() && c.asked.None? && Sorted(merged) && smallestSnapshot < MAX_SEQUENCE
    modifies c, c.levelPtrs
    ensures outputs == WritingAfter(c.inputVersion, c.level, smallestSnapshot, merged, shouldStopBefore, bigEnough, |merged|).Close().closed
    ensures Concat(outputs) == Kept(c.inputVersion, c.level, smallestSnapshot, merged, |merged|)
    ensures forall i :: 0 <= i < |outputs| ==> outputs[i] != []
    ensures AllParse(merged) ==> forall e {:trigger e in Concat(outputs)} :: e in Concat(outputs) <==>
              e in merged && !Hidden(merged, e, smallestSnapshot) && !Obsolete(c.inputVersion, c.level, e, smallestSnapshot)
  {
    hide Dropped, Kept, Concat, Compaction.Valid, Remembers, Hidden, Obsolete;
    var w := Writing([], []);
    var hasCurrent, current, last := false, 0.0, MAX_SEQUENCE;
    NothingRemembered(merged);
    c.ValidShape();
    for n := 0 to |merged|
      invariant c.Valid() && Shape(c.inputVersion)
      invariant c.asked.Some? ==> n > 0 && c.asked.value <= merged[n - 1].key.userKey
      invariant w == WritingAfter(c.inputVersion, c.level, smallestSnapshot, merged, shouldStopBefore, bigEnough, n)
      invariant Remembers(merged, n, hasCurrent, current, last)
    {
      if shouldStopBefore(n) && w.open != [] {
        w := w.Close();
      }
      var drop;
      drop, hasCurrent, current, last := c.ShouldDrop(merged, n, smallestSnapshot, hasCurrent, current, last);
      if !drop {
        w := Writing(w.closed, w.open + [merged[n]]);
        if bigEnough(n) {
          w := w.Close();
        }
      }
    }
    WritingHoldsKept(c.inputVersion, c.level, smallestSnapshot, merged, shouldStopBefore, bigEnough, |merged|);
    w.CloseKeeps();
    if w.open != [] {
      w := w.Close();
    }
    outputs := w.closed;
    if AllParse(merged) {
      forall e {:trigger e in Concat(outputs)}
        ensures e in Concat(outputs) <==> e in merged && !Hidden(merged, e, smallestSnapshot) && !Obsolete(c.inputVersion, c.level, e, smallestSnapshot)
      {
        KeptIff(c.inputVersion, c.level, smallestSnapshot, merged, e);
      }
    }
  }

  lemma NothingRemembered(merged: seq<Entry>)
    ensures Remembers(merged, 0, false, 0.0, MAX_SEQUENCE)
  {
  }
}
