/** The user-visible iterator: it hides superseded, deleted and too-new entries of a sorted
    list of internal entries, in both directions and across reversals. */
module DBIterSpec {
  import opened Options
  import opened InternalKeys

  datatype Pair = Pair(key: UserKey, value: Bytes)

  // The key-value list a snapshot at sequence number s sees in the first n entries.
  ghost function View(es: seq<Entry>, s: nat, n: nat): (v: seq<Pair>)
    requires n <= |es|
    ensures |v| <= n
  {
    if n == 0 then []
    else View(es, s, n - 1) + (if Live(es, s, n - 1) then [Pair(es[n - 1].key.userKey, es[n - 1].value)] else [])
  }

  ghost function FullView(es: seq<Entry>, s: nat): seq<Pair> {
    View(es, s, |es|)
  }

  lemma {:induction false} ViewIsPrefix(es: seq<Entry>, s: nat, m: nat, n: nat)
    requires m <= n <= |es|
    ensures View(es, s, m) <= View(es, s, n)
    decreases n
  {
    if m < n {
      ViewIsPrefix(es, s, m, n - 1);
    }
  }

  // A live entry i shows up in the view at position |View(es, s, i)|.
  lemma LiveIsShown(es: seq<Entry>, s: nat, i: nat)
    requires i < |es| && Live(es, s, i)
    ensures |View(es, s, i)| < |FullView(es, s)|
    ensures FullView(es, s)[|View(es, s, i)|] == Pair(es[i].key.userKey, es[i].value)
  {
    ViewIsPrefix(es, s, i + 1, |es|);
  }

  // A stretch without live entries adds nothing to the view.
  lemma {:induction false} DeadStretch(es: seq<Entry>, s: nat, m: nat, n: nat)
    requires m <= n <= |es|
    requires forall i :: m <= i < n ==> !Live(es, s, i)
    ensures View(es, s, m) == View(es, s, n)
    decreases n
  {
    if m < n {
      DeadStretch(es, s, m, n - 1);
    }
  }

  // The next live entry is the next position of the view.
  lemma NextLive(es: seq<Entry>, s: nat, i: nat, j: nat)
    requires i < j <= |es| && Live(es, s, i)
    requires forall m :: i < m < j ==> !Live(es, s, m)
    ensures |View(es, s, j)| == |View(es, s, i)| + 1
  {
    DeadStretch(es, s, i + 1, j);
  }

  // Every position of the view comes from a live entry.
  lemma {:induction false} ShownIsLive(es: seq<Entry>, s: nat, n: nat, p: nat) returns (i: nat)
    requires n <= |es| && p < |View(es, s, n)|
    ensures i < n && Live(es, s, i) && |View(es, s, i)| == p
    ensures View(es, s, n)[p] == Pair(es[i].key.userKey, es[i].value)
    decreases n
  {
    if p < |View(es, s, n - 1)| {
      i := ShownIsLive(es, s, n - 1, p);
    } else {
      i := n - 1;
    }
  }

  /** The view is the sorted map of the snapshot: strictly increasing keys, and exactly the
      key-value pairs that point reads at the same sequence number return. */
  lemma ViewIsSnapshotMap(es: seq<Entry>, s: nat, k: UserKey, v: Bytes)
    requires Sorted(es)
    ensures forall p, q :: 0 <= p < q < |FullView(es, s)| ==> FullView(es, s)[p].key < FullView(es, s)[q].key
    ensures Pair(k, v) in FullView(es, s) <==> Lookup(es, s, k) == Some(v)
  {
    var view := FullView(es, s);
    forall p, q | 0 <= p < q < |view| ensures view[p].key < view[q].key {
      var i := ShownIsLive(es, s, |es|, p);
      var j := ShownIsLive(es, s, |es|, q);
      if j <= i {
        ViewIsPrefix(es, s, j, i);
      }
      assert Before(es[i].key, es[j].key);
    }
    var d := FirstVisibleDecides(es, s, k);
    if Pair(k, v) in view {
      var p :| 0 <= p < |view| && view[p] == Pair(k, v);
      var i := ShownIsLive(es, s, |es|, p);
      assert Visible(es, s, i) && es[i].key.userKey == k;
      assert d == i;
    }
    if Lookup(es, s, k) == Some(v) {
      LiveIsShown(es, s, d);
    }
  }

  // ----- the forward scan -----

  // The key to skip, when skipping.
  function Skip(skipping: bool, skip: Option<UserKey>): Option<UserKey> {
    if skipping then skip else None
  }

  predicate Skipped(skip: Option<UserKey>, k: UserKey) {
    skip.Some? && k <= skip.value
  }

  // Before a scan from index `from`: a later entry of a user key that was decided before `from` is
  // skipped, and nothing visible from there on lies below the key to skip.
  ghost predicate CanScan(es: seq<Entry>, s: nat, from: nat, skip: Option<UserKey>)
  {
    (forall i, j :: 0 <= j < from <= i < |es| && Visible(es, s, j) && es[j].key.userKey == es[i].key.userKey
                    ==> Skipped(skip, es[i].key.userKey)) &&
    (forall i :: from <= i < |es| && Visible(es, s, i) && skip.Some? ==> es[i].key.userKey >= skip.value)
  }

  // Among the entries in [from, to), only skipped ones are live.
  ghost predicate PassedOver(es: seq<Entry>, s: nat, from: nat, to: nat, skip: Option<UserKey>)
  {
    forall i :: 0 <= i < |es| && from <= i < to && Live(es, s, i) ==> Skipped(skip, es[i].key.userKey)
  }

  // The scan from `from` with key `skip` to pass over can go on at `pos` with key `skip'`.
  ghost predicate Scanning(es: seq<Entry>, s: nat, from: nat, skip: Option<UserKey>, pos: nat, skip': Option<UserKey>)
  {
    PassedOver(es, s, from, pos, skip) && CanScan(es, s, pos, skip') &&
    (skip.Some? ==> skip'.Some? && skip'.value >= skip.value) &&
    forall i :: pos <= i < |es| && Live(es, s, i) && Skipped(skip', es[i].key.userKey) ==> Skipped(skip, es[i].key.userKey)
  }

  lemma ScanStarts(es: seq<Entry>, s: nat, from: nat, skip: Option<UserKey>)
    requires CanScan(es, s, from, skip)
    ensures Scanning(es, s, from, skip, from, skip)
  {
  }

  lemma ScanEnds(es: seq<Entry>, s: nat, from: nat, skip: Option<UserKey>, pos: nat, skip': Option<UserKey>)
    requires Scanning(es, s, from, skip, pos, skip')
    ensures PassedOver(es, s, from, pos, skip)
  {
  }

  lemma PassDeletion(es: seq<Entry>, s: nat, from: nat, skip: Option<UserKey>, pos: nat, skip': Option<UserKey>)
    requires Sorted(es) && pos < |es| && Scanning(es, s, from, skip, pos, skip')
    requires Visible(es, s, pos) && es[pos].key.tag == TYPE_DELETION
    ensures Scanning(es, s, from, skip, pos + 1, Some(es[pos].key.userKey))
  {
  }

  lemma PassHidden(es: seq<Entry>, s: nat, from: nat, skip: Option<UserKey>, pos: nat, skip': Option<UserKey>)
    requires Sorted(es) && pos < |es| && Scanning(es, s, from, skip, pos, skip')
    requires !Visible(es, s, pos) || Skipped(skip', es[pos].key.userKey)
    ensures Scanning(es, s, from, skip, pos + 1, skip')
  {
  }

  lemma FoundLive(es: seq<Entry>, s: nat, from: nat, skip: Option<UserKey>, pos: nat, skip': Option<UserKey>)
    requires Sorted(es) && pos < |es| && Scanning(es, s, from, skip, pos, skip')
    requires Visible(es, s, pos) && es[pos].key.tag == TYPE_VALUE && !Skipped(skip', es[pos].key.userKey)
    ensures Live(es, s, pos) && !Skipped(skip, es[pos].key.userKey)
  {
  }

  // ----- the backward scan -----

  // The scan back from `from` has reached q; `kept` is the entry whose key and value are saved.
  ghost predicate Backing(es: seq<Entry>, s: nat, from: int, q: int, kept: Option<int>)
    requires -1 <= q <= from < |es|
  {
    match kept
    case None => forall j :: q < j <= from ==> !Live(es, s, j)
    case Some(i) =>
      q < i <= from && Visible(es, s, i) && es[i].key.tag == TYPE_VALUE &&
      (forall j :: i < j <= from ==> !Live(es, s, j)) &&
      (forall j :: q < j < i ==> !Visible(es, s, j))
  }

  lemma BackOverHidden(es: seq<Entry>, s: nat, from: int, q: int, kept: Option<int>)
    requires 0 <= q <= from < |es| && Backing(es, s, from, q, kept) && !Visible(es, s, q)
    ensures Backing(es, s, from, q - 1, kept)
  {
  }

  // A visible entry of the same key takes the place of the saved one.
  lemma BackOverVisible(es: seq<Entry>, s: nat, from: int, q: int, kept: Option<int>)
    requires Sorted(es) && 0 <= q <= from < |es| && Backing(es, s, from, q, kept) && Visible(es, s, q)
    requires kept.Some? ==> es[q].key.userKey >= es[kept.value].key.userKey
    ensures Backing(es, s, from, q - 1, if es[q].key.tag == TYPE_VALUE then Some(q) else None)
  {
  }

  // The scan stops at the start, or at a visible entry of a smaller key: what is saved is live.
  lemma BackStop(es: seq<Entry>, s: nat, from: int, q: int, i: int)
    requires Sorted(es) && -1 <= q <= from < |es| && Backing(es, s, from, q, Some(i))
    requires 0 <= q ==> Visible(es, s, q) && es[q].key.userKey < es[i].key.userKey
    ensures Live(es, s, i)
  {
  }

  // ----- the abstract cursor over the view -----

  datatype Op = Seek(target: UserKey) | SeekToFirst | SeekToLast | Next | Prev

  // First position whose key is not below the target.
  function FirstAtLeast(view: seq<Pair>, target: UserKey): (p: nat)
    ensures p <= |view|
    ensures forall q :: 0 <= q < p ==> view[q].key < target
    ensures p < |view| ==> target <= view[p].key
  {
    if view != [] && view[0].key < target then 1 + FirstAtLeast(view[1..], target) else 0
  }

  function At(view: seq<Pair>, p: int): Option<nat> {
    if 0 <= p < |view| then Some(p) else None
  }

  // Next and Prev may only be called on a valid cursor.
  predicate Legal(op: Op, st: Option<nat>) {
    (op.Next? || op.Prev?) ==> st.Some?
  }

  function Move(view: seq<Pair>, st: Option<nat>, op: Op): (st': Option<nat>)
    requires Legal(op, st)
  {
    match op
    case Seek(t) => At(view, FirstAtLeast(view, t))
    case SeekToFirst => At(view, 0)
    case SeekToLast => At(view, |view| - 1)
    case Next => At(view, st.value + 1)
    case Prev => At(view, st.value - 1)
  }

  function Shown(view: seq<Pair>, st: Option<nat>): Option<Pair>
    requires st.Some? ==> st.value < |view|
  {
    if st.Some? then Some(view[st.value]) else None
  }

  // What a caller sees after each operation; an illegal call ends the observation.
  function Observe(view: seq<Pair>, st: Option<nat>, ops: seq<Op>): (obs: seq<Option<Pair>>)
    requires st.Some? ==> st.value < |view|
    decreases |ops|
  {
    if ops == [] || !Legal(ops[0], st) then []
    else
      var st' := Move(view, st, ops[0]);
      [Shown(view, st')] + Observe(view, st', ops[1..])
  }

  lemma ObserveFrom(view: seq<Pair>, st: Option<nat>, ops: seq<Op>, n: nat)
    requires (st.Some? ==> st.value < |view|) && n < |ops|
    ensures Observe(view, st, ops[n..]) ==
            if !Legal(ops[n], st) then []
            else [Shown(view, Move(view, st, ops[n]))] + Observe(view, Move(view, st, ops[n]), ops[n + 1..])
  {
    assert ops[n..][1..] == ops[n + 1..];
  }
}

module DBIters {
  import opened Options
  import opened InternalKeys
  import opened Cursors
  import opened DBIterSpec

  datatype Direction = Forward | Reverse

  class DBIter {
    const iter: Cursor
    const sequence: nat
    var savedKey: Option<UserKey>  // None once cleared; the current key when moving backwards
    var savedValue: Bytes
    var direction: Direction
    var valid: bool
    var corrupted: bool            // the sticky status: an entry with an unknown type was met
    ghost var shown: int           // the index of the entry that key() and value() show

    constructor (iter: Cursor, s: nat)
      requires Sorted(iter.entries)
      ensures Inv() && this.iter == iter && sequence == s && Position().None? && !corrupted
    {
      this.iter := iter;
      sequence := s;
      savedKey := None;
      savedValue := [];
      direction := Forward;
      valid := false;
      corrupted := false;
      shown := 0;
    }

    // The entry the iterator shows.
    ghost predicate Shows(i: int)
      reads this, iter
    {
      0 <= i < |iter.entries| && Live(iter.entries, sequence, i) &&
      match direction
      case Forward => iter.pos == i
      case Reverse =>
        savedKey == Some(iter.entries[i].key.userKey) && savedValue == iter.entries[i].value &&
        // The internal cursor stands before the entry, with nothing visible in between.
        (iter.Valid() ==> iter.pos < i) &&
        (forall j :: (if iter.Valid() then iter.pos else -1) < j < i ==> !Visible(iter.entries, sequence, j))
    }

    // Corruption is only reported when there is an entry that does not parse.
    ghost predicate Base()
      reads this
    {
      Sorted(iter.entries) &&
      (corrupted ==> exists i :: 0 <= i < |iter.entries| && !iter.entries[i].key.Parses())
    }

    ghost predicate Inv()
      reads this, iter
    {
      Base() && (valid ==> Shows(shown))
    }

    // The position in the snapshot's view, None when the iterator is not valid.
    ghost function Position(): (p: Option<nat>)
      requires Inv()
      reads this, iter
    {
      if valid then Some(|View(iter.entries, sequence, shown)|) else None
    }

    ghost function TheView(): seq<Pair> {
      FullView(iter.entries, sequence)
    }

    lemma PositionIsShown()
      requires Inv() && valid
      ensures Position().value < |TheView()|
      ensures TheView()[Position().value] == Pair(iter.entries[shown].key.userKey, iter.entries[shown].value)
    {
      LiveIsShown(iter.entries, sequence, shown);
    }

    method Valid() returns (b: bool)
      requires Inv()
      ensures b == Position().Some?
    {
      b := valid;
    }

    method Key() returns (k: UserKey)
      requires Inv() && Position().Some?
      ensures Position().value < |TheView()| && k == TheView()[Position().value].key
    {
      PositionIsShown();
      k := if direction.Forward? then iter.Key().userKey else savedKey.value;
    }

    method Value() returns (v: Bytes)
      requires Inv() && Position().Some?
      ensures Position().value < |TheView()| && v == TheView()[Position().value].value
    {
      PositionIsShown();
      v := if direction.Forward? then iter.Value() else savedValue;
    }

    // Remember that an unreadable entry was met; tell whether the current one can be read.
    method ParseKey() returns (ok: bool)
      requires Base() && iter.Valid()
      modifies `corrupted
      ensures Base() && ok == iter.Key().Parses()
    {
      ok := iter.Key().Parses();
      if !ok {
        corrupted := true;
      }
    }

    ghost predicate NoneLive(from: int, to: int)
      reads this
    {
      forall i :: 0 <= i < |iter.entries| && from <= i < to ==> !Live(iter.entries, sequence, i)
    }

    /** Scan forward for the first live entry at or after the cursor, skipping (when asked) the
        entries whose user key is at most `skip`. */
    method FindNextUserEntry(skipping: bool, skip: Option<UserKey>)
      requires Base() && direction.Forward? && iter.Valid()
      requires skipping ==> skip.Some?
      requires CanScan(iter.entries, sequence, iter.pos, Skip(skipping, skip))
      modifies this, iter
      ensures Inv() && direction.Forward?
      ensures PassedOver(iter.entries, sequence, old(iter.pos), if valid then iter.pos else |iter.entries|, Skip(skipping, skip))
      ensures valid ==> old(iter.pos) <= iter.pos == shown
      ensures valid ==> !Skipped(Skip(skipping, skip), iter.entries[iter.pos].key.userKey)
    {
      hide CanScan, PassedOver, Scanning, Live;
      ghost var es, s, from, given := iter.entries, sequence, iter.pos, Skip(skipping, skip);
      ScanStarts(es, s, from, given);
      var skipping, skip := skipping, skip;
      while iter.Valid()
        invariant Base() && direction.Forward? && from <= iter.pos <= |es|
        invariant skipping ==> skip.Some?
        invariant Scanning(es, s, from, given, iter.pos, Skip(skipping, skip))
        decreases |es| - iter.pos
      {
        var ok := ParseKey();
        if ok && iter.Key().sequence <= sequence {
          if iter.Key().tag == TYPE_DELETION {
            PassDeletion(es, s, from, given, iter.pos, Skip(skipping, skip));
            skip := Some(iter.Key().userKey);
            skipping := true;
          } else if skipping && iter.Key().userKey <= skip.value {
            PassHidden(es, s, from, given, iter.pos, Skip(skipping, skip));
          } else {
            FoundLive(es, s, from, given, iter.pos, Skip(skipping, skip));
            ScanEnds(es, s, from, given, iter.pos, Skip(skipping, skip));
            valid := true;
            savedKey := None;
            shown := iter.pos;
            return;
          }
        } else {
          PassHidden(es, s, from, given, iter.pos, Skip(skipping, skip));
        }
        iter.Next();
      }
      ScanEnds(es, s, from, given, iter.pos, Skip(skipping, skip));
      savedKey := None;
      valid := false;
    }

    /** Scan backward for the last live entry at or before the cursor. */
    method FindPrevUserEntry()
      requires Base() && direction.Reverse?
      modifies this, iter
      ensures Inv()
      ensures var from := old(BackPos());
              if valid then direction.Reverse? && shown <= from && NoneLive(shown + 1, from + 1)
              else NoneLive(0, from + 1)
    {
      ghost var es, s, from, q := iter.entries, sequence, BackPos(), BackPos();
      var valueType: Tag := TYPE_DELETION;
      while iter.Valid()
        invariant Base() && direction.Reverse? && q == BackPos() <= from && valueType <= TYPE_VALUE
        invariant Backing(es, s, from, q, if valueType == TYPE_VALUE then Some(shown) else None)
        invariant valueType == TYPE_VALUE ==>
                    savedKey == Some(es[shown].key.userKey) && savedValue == es[shown].value
        decreases q + 1
      {
        var ok := ParseKey();
        if ok && iter.Key().sequence <= sequence {
          if valueType != TYPE_DELETION && iter.Key().userKey < savedKey.value {
            // A value was found among the entries of the later key.
            break;
          }
          BackOverVisible(es, s, from, q, if valueType == TYPE_VALUE then Some(shown) else None);
          valueType := iter.Key().tag;
          if valueType == TYPE_DELETION {
            savedKey := None;
            savedValue := [];
          } else {
            savedKey := Some(iter.Key().userKey);
            savedValue := iter.Value();
            shown := iter.pos;
          }
        } else {
          BackOverHidden(es, s, from, q, if valueType == TYPE_VALUE then Some(shown) else None);
        }
        iter.Prev();
        q := q - 1;
      }
      if valueType == TYPE_DELETION {
        valid := false;
        savedKey := None;
        savedValue := [];
        direction := Forward;
      } else {
        BackStop(es, s, from, q, shown);
        valid := true;
      }
    }

    // The cursor's position for a backward scan: -1 when it is not valid.
    ghost function BackPos(): int
      reads iter
    {
      if iter.Valid() then iter.pos else -1
    }

    method Next()
      requires Inv() && Position().Some?
      modifies this, iter
      ensures Inv() && Position() == Move(TheView(), old(Position()), Op.Next)
    {
      ghost var i := shown;
      PositionIsShown();
      if direction.Reverse? {
        direction := Forward;
        // The cursor stands before the entries of the current key: step into them.
        if !iter.Valid() {
          iter.SeekToFirst();
        } else {
          iter.Next();
        }
        // savedKey already holds the key to skip past.
        HiddenBehind(i, iter.pos);
      } else {
        savedKey := Some(iter.Key().userKey);
        HiddenBehind(i, iter.pos);
      }
      ghost var from := iter.pos;
      FindNextUserEntry(true, savedKey);
      ForwardPosition(i, from);
    }

    // Scan backwards from the shown entry until the user key changes.
    method LeaveKey(ghost i: int)
      requires Base() && direction.Forward? && Shows(i)
      modifies `savedKey, iter
      ensures iter.Valid() ==> iter.pos < i
      ensures forall j :: (if iter.Valid() then iter.pos else -1) < j < i ==> !Live(iter.entries, sequence, j)
    {
      savedKey := Some(iter.Key().userKey);
      while true
        invariant iter.Valid() && iter.pos <= i
        invariant savedKey == Some(iter.entries[i].key.userKey)
        invariant forall j :: iter.pos <= j <= i ==> iter.entries[j].key.userKey == savedKey.value
        decreases iter.pos
      {
        iter.Prev();
        if !iter.Valid() || iter.Key().userKey < savedKey.value {
          return;
        }
      }
    }

    method Prev()
      requires Inv() && Position().Some?
      modifies this, iter
      ensures Inv() && Position() == Move(TheView(), old(Position()), Op.Prev)
    {
      ghost var i := shown;
      PositionIsShown();
      if direction.Forward? {
        LeaveKey(i);
        if !iter.Valid() {
          valid := false;
          savedKey := None;
          savedValue := [];
          BackwardPosition(i, -1);
          return;
        }
        direction := Reverse;
      }
      ghost var from := BackPos();
      FindPrevUserEntry();
      BackwardPosition(i, from);
    }

    method Seek(target: UserKey)
      requires Inv()
      modifies this, iter
      ensures Inv() && Position() == Move(TheView(), old(Position()), Op.Seek(target))
    {
      direction := Forward;
      savedValue := [];
      savedKey := None;
      iter.Seek(InternalKey(target, sequence, TYPE_FOR_SEEK));
      ghost var from := iter.pos;
      if iter.Valid() {
        FindNextUserEntry(false, savedKey);
      } else {
        valid := false;
      }
      SeekPosition(target, from);
    }

    method SeekToFirst()
      requires Inv()
      modifies this, iter
      ensures Inv() && Position() == Move(TheView(), old(Position()), Op.SeekToFirst)
    {
      direction := Forward;
      savedValue := [];
      iter.SeekToFirst();
      if iter.Valid() {
        FindNextUserEntry(false, savedKey);
      } else {
        valid := false;
      }
      FirstPosition();
    }

    method SeekToLast()
      requires Inv()
      modifies this, iter
      ensures Inv() && Position() == Move(TheView(), old(Position()), Op.SeekToLast)
    {
      direction := Reverse;
      savedValue := [];
      iter.SeekToLast();
      FindPrevUserEntry();
      LastPosition();
    }

    // ----- why the internal scans land on the right position of the view -----

    // Stepping into or past the entries of the shown key leaves only keys above it undecided.
    lemma HiddenBehind(i: int, from: nat)
      requires Sorted(iter.entries) && 0 <= i < |iter.entries| && from <= i
      requires forall j :: from <= j < i ==> !Visible(iter.entries, sequence, j)
      ensures CanScan(iter.entries, sequence, from, Some(iter.entries[i].key.userKey))
    {
    }

    // The forward scan from the shown entry i ends on the next live entry.
    lemma ForwardPosition(i: nat, from: nat)
      requires Inv() && i < |iter.entries| && Live(iter.entries, sequence, i) && from <= i
      requires direction.Forward?
      requires valid ==> iter.entries[shown].key.userKey > iter.entries[i].key.userKey
      requires PassedOver(iter.entries, sequence, from, if valid then iter.pos else |iter.entries|,
                          Some(iter.entries[i].key.userKey))
      ensures Position() == At(TheView(), |View(iter.entries, sequence, i)| + 1)
    {
      NextLive(iter.entries, sequence, i, if valid then shown else |iter.entries|);
      if valid {
        PositionIsShown();
      }
    }

    // The backward scan that starts below the shown entry i ends on the previous live entry.
    lemma BackwardPosition(i: nat, from: int)
      requires Inv() && i < |iter.entries| && Live(iter.entries, sequence, i) && -1 <= from < i
      requires forall j :: from < j < i ==> !Live(iter.entries, sequence, j)
      requires if valid then shown <= from && NoneLive(shown + 1, from + 1) else NoneLive(0, from + 1)
      ensures |View(iter.entries, sequence, i)| <= |TheView()|
      ensures Position() == At(TheView(), |View(iter.entries, sequence, i)| - 1)
    {
      LiveIsShown(iter.entries, sequence, i);
      if valid {
        NextLive(iter.entries, sequence, shown, i);
      } else {
        DeadStretch(iter.entries, sequence, 0, i);
      }
    }

    lemma SeekPosition(target: UserKey, from: nat)
      requires Inv() && direction.Forward?
      requires from == LowerBound(iter.entries, InternalKey(target, sequence, TYPE_FOR_SEEK))
      requires if valid then from <= shown && NoneLive(from, shown) else NoneLive(from, |iter.entries|)
      ensures Position() == At(TheView(), FirstAtLeast(TheView(), target))
    {
      var es, n := iter.entries, FirstAtLeast(TheView(), target);
      if valid {
        PositionIsShown();
        if n < Position().value {
          var j := ShownIsLive(es, sequence, |es|, n);
          ViewOrder(j, shown);
        }
      } else if n < |TheView()| {
        var j := ShownIsLive(es, sequence, |es|, n);
      }
    }

    lemma FirstPosition()
      requires Inv() && direction.Forward?
      requires if valid then NoneLive(0, shown) else NoneLive(0, |iter.entries|)
      ensures Position() == At(TheView(), 0)
    {
      DeadStretch(iter.entries, sequence, 0, if valid then shown else |iter.entries|);
      if valid {
        PositionIsShown();
      }
    }

    lemma LastPosition()
      requires Inv()
      requires if valid then NoneLive(shown + 1, |iter.entries|) else NoneLive(0, |iter.entries|)
      ensures Position() == At(TheView(), |TheView()| - 1)
    {
      if valid {
        NextLive(iter.entries, sequence, shown, |iter.entries|);
      } else {
        DeadStretch(iter.entries, sequence, 0, |iter.entries|);
      }
    }

    lemma ViewOrder(i: nat, j: nat)
      requires i < |iter.entries| && j < |iter.entries|
      requires |View(iter.entries, sequence, i)| < |View(iter.entries, sequence, j)|
      ensures i < j
    {
      if j <= i {
        ViewIsPrefix(iter.entries, sequence, j, i);
      }
    }
  }

  method Look(it: DBIter) returns (shown: Option<Pair>)
    requires it.Inv()
    ensures it.Position().Some? ==> it.Position().value < |it.TheView()|
    ensures shown == Shown(it.TheView(), it.Position())
  {
    if it.valid { it.PositionIsShown(); }
    shown := None;
    var valid := it.Valid();
    if valid {
      var k := it.Key();
      var v := it.Value();
      shown := Some(Pair(k, v));
    }
  }

  method Apply(it: DBIter, op: Op) returns (shown: Option<Pair>)
    requires it.Inv() && Legal(op, it.Position())
    modifies it, it.iter
    ensures it.Inv() && it.Position() == Move(it.TheView(), old(it.Position()), op)
    ensures it.Position().Some? ==> it.Position().value < |it.TheView()|
    ensures shown == Shown(it.TheView(), it.Position())
  {
    match op {
      case Seek(t) => it.Seek(t);
      case SeekToFirst => it.SeekToFirst();
      case SeekToLast => it.SeekToLast();
      case Next => it.Next();
      case Prev => it.Prev();
    }
    shown := Look(it);
  }

  /** Any sequence of operations, as long as it is legal, shows exactly what the same operations
      show on a cursor over the snapshot's sorted key-value list. */
  method Run(it: DBIter, ops: seq<Op>) returns (obs: seq<Option<Pair>>)
    requires it.Inv() && (it.Position().Some? ==> it.Position().value < |it.TheView()|)
    modifies it, it.iter
    ensures it.Inv()
    ensures obs == old(Observe(it.TheView(), it.Position(), ops))
  {
    obs := [];
    ghost var view, start := it.TheView(), it.Position();
    for n := 0 to |ops|
      invariant it.Inv() && view == it.TheView()
      invariant it.Position().Some? ==> it.Position().value < |view|
      invariant obs + Observe(view, it.Position(), ops[n..]) == Observe(view, start, ops)
    {
      ObserveFrom(view, it.Position(), ops, n);
      var valid := it.Valid();
      if (ops[n].Next? || ops[n].Prev?) && !valid {
        return;
      }
      var now := Apply(it, ops[n]);
      obs := obs + [now];
    }
  }
}
