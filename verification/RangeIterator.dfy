/** The binding's iterator over a snapshot: bounds, direction, limit, seeking, and reading in chunks. */
module RangeSpec {
  import opened Options
  import opened InternalKeys
  import opened DBIterSpec

  // What an iterator is asked for. At most one of lt and lte, and of gt and gte, is given.
  datatype Settings = Settings(start: Option<UserKey>, end: Option<UserKey>, lt: Option<UserKey>, lte: Option<UserKey>,
                               gt: Option<UserKey>, gte: Option<UserKey>, reverse: bool, limit: int)
  {
    predicate Clear() {
      !(lt.Some? && lte.Some?) && !(gt.Some? && gte.Some?)
    }

    // The key is not too large. Without lt and lte, start bounds a reverse iterator from above; end
    // bounds a forward one.
    predicate UpperOk(k: UserKey) {
      && (lt.Some? ==> k < lt.value) && (lte.Some? ==> k <= lte.value)
      && (reverse && lt.None? && lte.None? && start.Some? ==> k <= start.value)
      && (!reverse && end.Some? ==> k <= end.value)
    }

    predicate LowerOk(k: UserKey) {
      && (gt.Some? ==> gt.value < k) && (gte.Some? ==> gte.value <= k)
      && (!reverse && gt.None? && gte.None? && start.Some? ==> start.value <= k)
      && (reverse && end.Some? ==> end.value <= k)
    }

    predicate InRange(k: UserKey) {
      LowerOk(k) && UpperOk(k)
    }
  }

  ghost predicate Increasing(view: seq<Pair>) {
    forall i, j :: 0 <= i < j < |view| ==> view[i].key < view[j].key
  }

  // The entries in range, in order.
  function Matching(view: seq<Pair>, s: Settings): seq<Pair> {
    if view == [] then []
    else Matching(view[..|view| - 1], s) + (if s.InRange(view[|view| - 1].key) then [view[|view| - 1]] else [])
  }

  function Reversed<T>(xs: seq<T>): (r: seq<T>)
    ensures |r| == |xs|
  {
    if xs == [] then [] else [xs[|xs| - 1]] + Reversed(xs[..|xs| - 1])
  }

  // The entries in range at or past position p in the direction of iteration, in that order; None is past
  // the end.
  function Ahead(view: seq<Pair>, s: Settings, p: Option<nat>): seq<Pair>
    requires p.Some? ==> p.value < |view|
  {
    if p.None? then []
    else if s.reverse then Reversed(Matching(view[..p.value + 1], s))
    else Matching(view[p.value..], s)
  }

  // At most as many as the limit leaves, `count` having been used up.
  function Limited(es: seq<Pair>, limit: int, count: int): (r: seq<Pair>)
  {
    if limit < 0 || |es| <= limit - count then es else if limit <= count then [] else es[..limit - count]
  }

  // The position after p in the direction of iteration.
  function Step(view: seq<Pair>, s: Settings, p: nat): Option<nat> {
    At(view, if s.reverse then p - 1 else p + 1)
  }

  lemma {:induction false} MatchingAll(view: seq<Pair>, s: Settings, i: nat)
    requires i <= |view|
    ensures Matching(view, s) == Matching(view[..i], s) + Matching(view[i..], s)
  {
    var n := |view| - 1;
    if i == |view| {
      assert view[..i] == view && Matching(view[i..], s) == [];
    } else {
      MatchingAll(view[..n], s, i);
      assert view[..n][..i] == view[..i] && view[..n][i..] == view[i..][..n - i] && view[i..][n - i] == view[n];
    }
  }

  lemma {:induction false} NoneMatching(view: seq<Pair>, s: Settings)
    requires forall i :: 0 <= i < |view| ==> !s.InRange(view[i].key)
    ensures Matching(view, s) == []
  {
    if view != [] {
      NoneMatching(view[..|view| - 1], s);
    }
  }

  lemma NothingMatches(view: seq<Pair>, s: Settings)
    ensures Matching(view[..0], s) == Matching(view[|view|..], s) == [] && Reversed<Pair>([]) == []
  {
  }

  /** What is ahead of a position in range is its entry, and what is ahead of the next position. */
  lemma AheadOfEntry(view: seq<Pair>, s: Settings, p: nat)
    requires p < |view| && s.InRange(view[p].key)
    ensures Ahead(view, s, Some(p)) == [view[p]] + Ahead(view, s, Step(view, s, p))
  {
    hide Matching, Reversed;
    NothingMatches(view, s);
    if s.reverse {
      BackwardOfEntry(view, s, p);
    } else {
      ForwardOfEntry(view, s, p);
    }
  }

  lemma BackwardOfEntry(view: seq<Pair>, s: Settings, p: nat)
    requires p < |view| && s.InRange(view[p].key)
    ensures Reversed(Matching(view[..p + 1], s)) == [view[p]] + Reversed(Matching(view[..p], s))
  {
    hide Reversed;
    assert view[..p + 1][..p] == view[..p];
    ReversedMore(Matching(view[..p], s), view[p]);
  }

  lemma ForwardOfEntry(view: seq<Pair>, s: Settings, p: nat)
    requires p < |view| && s.InRange(view[p].key)
    ensures Matching(view[p..], s) == [view[p]] + Matching(view[p + 1..], s)
  {
    hide Matching;
    MatchingAll(view[p..], s, 1);
    assert view[p..][..1] == [view[p]] && view[p..][1..] == view[p + 1..];
    MatchingOne(view[p], s);
  }

  lemma MatchingOne(e: Pair, s: Settings)
    ensures Matching([e], s) == if s.InRange(e.key) then [e] else []
  {
    assert [e][..0] == [];
  }

  lemma ReversedMore<T>(xs: seq<T>, x: T)
    ensures Reversed(xs + [x]) == [x] + Reversed(xs)
  {
    assert (xs + [x])[..|xs|] == xs;
  }

  // The bound on the side that iteration comes from, and the one on the side it goes to.
  predicate NearOk(s: Settings, k: UserKey) {
    if s.reverse then s.UpperOk(k) else s.LowerOk(k)
  }

  // The first position at or past a target in the direction of iteration.
  function Landing(view: seq<Pair>, s: Settings, target: UserKey): (p: Option<nat>)
    ensures p.Some? ==> p.value < |view|
  {
    var n := FirstAtLeast(view, target);
    if !s.reverse then At(view, n)
    else if n < |view| && view[n].key == target then Some(n)
    else At(view, n - 1)
  }

  /** Past an entry that is out of range on the far side there is nothing. */
  lemma NothingAhead(view: seq<Pair>, s: Settings, p: nat)
    requires Increasing(view) && p < |view| && !s.InRange(view[p].key) && NearOk(s, view[p].key)
    ensures Ahead(view, s, Some(p)) == []
  {
    if s.reverse {
      NoneMatching(view[..p + 1], s);
    } else {
      NoneMatching(view[p..], s);
    }
  }

  // The near bound holds from a position on in the direction of iteration.
  ghost predicate NearFrom(view: seq<Pair>, s: Settings, p: Option<nat>)
    requires p.Some? ==> p.value < |view|
  {
    p.Some? ==> NearOk(s, view[p.value].key)
  }

  // All that is in range is at or past a position in the direction of iteration.
  ghost predicate AllAhead(view: seq<Pair>, s: Settings, p: Option<nat>)
    requires p.Some? ==> p.value < |view|
  {
    forall i :: 0 <= i < |view| && s.InRange(view[i].key) ==>
      p.Some? && if s.reverse then i <= p.value else p.value <= i
  }

  // All entries in range, in the direction of iteration.
  function Whole(view: seq<Pair>, s: Settings): seq<Pair> {
    if s.reverse then Reversed(Matching(view, s)) else Matching(view, s)
  }

  // Where iteration starts: a bound on the near side replaces the start.
  function EffectiveStart(s: Settings): Option<UserKey> {
    if s.reverse then (if s.lte.Some? then s.lte else if s.lt.Some? then s.lt else s.start)
    else if s.gte.Some? then s.gte else if s.gt.Some? then s.gt else s.start
  }

  /** Iteration that begins no later than the first entry in range has them all ahead of it. */
  lemma AllIsAhead(view: seq<Pair>, s: Settings, p: Option<nat>)
    requires (p.Some? ==> p.value < |view|) && AllAhead(view, s, p)
    ensures Ahead(view, s, p) == Whole(view, s)
  {
    if p.None? {
      NoneMatching(view, s);
    } else if s.reverse {
      MatchingAll(view, s, p.value + 1);
      NoneMatching(view[p.value + 1..], s);
      assert Matching(view, s) == Matching(view[..p.value + 1], s);
    } else {
      MatchingAll(view, s, p.value);
      NoneMatching(view[..p.value], s);
    }
  }

  lemma {:induction false} MatchingHas(view: seq<Pair>, s: Settings, e: Pair)
    ensures e in Matching(view, s) <==> e in view && s.InRange(e.key)
  {
    if view != [] {
      MatchingHas(view[..|view| - 1], s, e);
      assert e in view <==> e in view[..|view| - 1] || e == view[|view| - 1];
    }
  }

  lemma {:induction false} ReversedHas<T>(xs: seq<T>, x: T)
    ensures x in Reversed(xs) <==> x in xs
  {
    if xs != [] {
      ReversedHas(xs[..|xs| - 1], x);
      assert x in xs <==> x in xs[..|xs| - 1] || x == xs[|xs| - 1];
    }
  }

  /** What is ahead after landing at a target: the entries in range at or past it, and no others. */
  lemma AheadOfLanding(view: seq<Pair>, s: Settings, target: UserKey, e: Pair)
    requires Increasing(view)
    ensures e in Ahead(view, s, Landing(view, s, target)) <==>
            e in view && s.InRange(e.key) && if s.reverse then e.key <= target else target <= e.key
  {
    hide Matching, Reversed, Landing, Increasing;
    var p := Landing(view, s, target);
    MatchingHas(Part(view, s, p), s, e);
    ReversedHas(Matching(Part(view, s, p), s), e);
    LandingParts(view, s, target, e);
  }

  // The entries, in range or not, at or past position p in the direction of iteration.
  function Part(view: seq<Pair>, s: Settings, p: Option<nat>): seq<Pair>
    requires p.Some? ==> p.value < |view|
  {
    if p.None? then [] else if s.reverse then view[..p.value + 1] else view[p.value..]
  }

  lemma LandingParts(view: seq<Pair>, s: Settings, target: UserKey, e: Pair)
    requires Increasing(view)
    ensures e in Part(view, s, Landing(view, s, target)) <==> e in view && if s.reverse then e.key <= target else target <= e.key
  {
    var n := FirstAtLeast(view, target);
    if !s.reverse {
      InTail(view, n, e);
    } else if n < |view| && view[n].key == target {
      InFront(view, n + 1, e);
    } else {
      InFront(view, n, e);
    }
  }

  // In order, what lies past a place is what has keys that do.
  lemma InTail(view: seq<Pair>, n: nat, e: Pair)
    requires n <= |view|
    ensures e in view[n..] <==> exists i :: n <= i < |view| && view[i] == e
  {
    if e in view[n..] {
      var j :| 0 <= j < |view| - n && view[n..][j] == e;
      assert view[n + j] == e;
    }
    forall i | n <= i < |view|
      ensures view[i] == view[n..][i - n]
    {
    }
  }

  lemma InFront(view: seq<Pair>, n: nat, e: Pair)
    requires n <= |view|
    ensures e in view[..n] <==> exists i :: 0 <= i < n && view[i] == e
  {
    if e in view[..n] {
      var j :| 0 <= j < n && view[..n][j] == e;
      assert view[j] == e;
    }
    forall i | 0 <= i < n
      ensures view[i] == view[..n][i]
    {
    }
  }

  // ----- what is asked for, without saying how it is found -----

  // An entry in range, and at or past the target if there is one. Past a target out of range there is nothing.
  ghost predicate Wanted(view: seq<Pair>, s: Settings, target: Option<UserKey>, e: Pair) {
    && e in view && s.InRange(e.key)
    && (target.Some? ==> s.InRange(target.value) && if s.reverse then e.key <= target.value else target.value <= e.key)
  }

  // One key comes before another in the direction of iteration.
  predicate Sooner(s: Settings, a: UserKey, b: UserKey) {
    if s.reverse then b < a else a < b
  }

  ghost predicate InDirection(es: seq<Pair>, s: Settings) {
    forall i, j {:trigger es[i], es[j]} :: 0 <= i < j < |es| ==> Sooner(s, es[i].key, es[j].key)
  }

  // Entries are those wanted, in the direction of iteration, and all of them unless the limit cuts them off:
  // then there are as many as it allows, and they come before all others.
  ghost predicate IsAnswer(es: seq<Pair>, view: seq<Pair>, s: Settings, target: Option<UserKey>) {
    && InDirection(es, s)
    && (forall e {:trigger e in es} :: e in es ==> Wanted(view, s, target, e))
    && (s.limit >= 0 ==> |es| <= s.limit)
    && (forall e {:trigger Wanted(view, s, target, e)} :: Wanted(view, s, target, e) && e !in es ==>
          s.limit >= 0 && |es| == s.limit && forall x {:trigger x in es} :: x in es ==> Sooner(s, x.key, e.key))
  }

  lemma {:induction false} MatchingIncreases(view: seq<Pair>, s: Settings)
    requires Increasing(view)
    ensures Increasing(Matching(view, s))
  {
    if view != [] {
      var n := |view| - 1;
      var m := Matching(view[..n], s);
      MatchingIncreases(view[..n], s);
      forall i | 0 <= i < |m|
        ensures m[i].key < view[n].key
      {
        MatchingHas(view[..n], s, m[i]);
        var j :| 0 <= j < n && view[..n][j] == m[i];
        assert view[j] == m[i];
      }
    }
  }

  lemma {:induction false} ReversedIndex<T>(xs: seq<T>, i: nat)
    requires i < |xs|
    ensures Reversed(xs)[i] == xs[|xs| - 1 - i]
  {
    if i > 0 {
      ReversedIndex(xs[..|xs| - 1], i - 1);
    }
  }

  lemma InDirectionOf(es: seq<Pair>, s: Settings)
    requires Increasing(es)
    ensures InDirection(if s.reverse then Reversed(es) else es, s)
  {
    hide Reversed;
    if s.reverse {
      var r := Reversed(es);
      forall i, j {:trigger r[i], r[j]} | 0 <= i < j < |r|
        ensures Sooner(s, r[i].key, r[j].key)
      {
        ReversedIndex(es, i);
        ReversedIndex(es, j);
      }
    }
  }

  // Cutting off all that is wanted at the limit gives an answer.
  lemma LimitedAnswers(all: seq<Pair>, view: seq<Pair>, s: Settings, target: Option<UserKey>)
    requires InDirection(all, s)
    requires forall e {:trigger e in all} {:trigger Wanted(view, s, target, e)} :: e in all <==> Wanted(view, s, target, e)
    ensures IsAnswer(Limited(all, s.limit, 0), view, s, target)
  {
    hide Wanted;
    var es := Limited(all, s.limit, 0);
    assert forall i {:trigger es[i]} :: 0 <= i < |es| ==> es[i] == all[i];
    forall e {:trigger e in all} | e in all && e !in es
      ensures s.limit >= 0 && |es| == s.limit && forall x {:trigger x in es} :: x in es ==> Sooner(s, x.key, e.key)
    {
      var j :| 0 <= j < |all| && all[j] == e;
      assert j >= |es|;
      forall x {:trigger x in es} | x in es
        ensures Sooner(s, x.key, e.key)
      {
        var i :| 0 <= i < |es| && es[i] == x;
        assert all[i] == x && i < j;
      }
    }
  }

  lemma WholeAnswers(view: seq<Pair>, s: Settings)
    requires Increasing(view)
    ensures IsAnswer(Limited(Whole(view, s), s.limit, 0), view, s, None)
  {
    hide Matching, Reversed, IsAnswer, Limited, InDirection, Increasing;
    forall e {:trigger e in Whole(view, s)} {:trigger Wanted(view, s, None, e)}
      ensures e in Whole(view, s) <==> Wanted(view, s, None, e)
    {
      MatchingHas(view, s, e);
      ReversedHas(Matching(view, s), e);
    }
    MatchingIncreases(view, s);
    InDirectionOf(Matching(view, s), s);
    LimitedAnswers(Whole(view, s), view, s, None);
  }

  lemma LandingAnswers(view: seq<Pair>, s: Settings, target: UserKey)
    requires Increasing(view)
    ensures IsAnswer(Limited(Ahead(view, s, if s.InRange(target) then Landing(view, s, target) else None), s.limit, 0),
                     view, s, Some(target))
  {
    hide Matching, Reversed, IsAnswer, Limited, InDirection, Landing, Ahead;
    var p := if s.InRange(target) then Landing(view, s, target) else None;
    forall e {:trigger e in Ahead(view, s, p)} {:trigger Wanted(view, s, Some(target), e)}
      ensures e in Ahead(view, s, p) <==> Wanted(view, s, Some(target), e)
    {
      if s.InRange(target) {
        AheadOfLanding(view, s, target, e);
      } else {
        NothingPastEnd(view, s);
      }
    }
    AheadInDirection(view, s, p);
    LimitedAnswers(Ahead(view, s, p), view, s, Some(target));
  }

  lemma NothingPastEnd(view: seq<Pair>, s: Settings)
    ensures Ahead(view, s, None) == []
  {
  }

  lemma AheadInDirection(view: seq<Pair>, s: Settings, p: Option<nat>)
    requires Increasing(view) && (p.Some? ==> p.value < |view|)
    ensures InDirection(Ahead(view, s, p), s)
  {
    hide Matching, Reversed, InDirection;
    if p.None? {
      NoneInDirection(s);
    } else {
      MatchingIncreases(Part(view, s, p), s);
      InDirectionOf(Matching(Part(view, s, p), s), s);
    }
  }

  lemma NoneInDirection(s: Settings)
    ensures InDirection([], s)
  {
  }

  // What a snapshot sees is in order of keys.
  lemma SnapshotIncreases(es: seq<Entry>, sequence: nat)
    requires Sorted(es)
    ensures Increasing(FullView(es, sequence))
  {
    ViewIsSnapshotMap(es, sequence, 0.0, []);
  }
}

module RangeIterators {
  import opened Options
  import opened InternalKeys
  import opened DBIterSpec
  import opened RangeSpec

  /** The contract of the database iterator over a snapshot's entries. Moving it when it is not at an
      entry is outside that contract, which the flag records. */
  class SnapshotCursor {
    const view: seq<Pair>
    var at: Option<nat>
    var misused: bool

    ghost predicate Valid()
      reads this
    {
      at.Some? ==> at.value < |view|
    }

    constructor (view: seq<Pair>)
      ensures Valid() && this.view == view && at == None && !misused
    {
      this.view, at, misused := view, None, false;
    }

    method Do(op: Op)
      requires Valid()
      modifies this
      ensures Valid() && misused == (old(misused) || !Legal(op, old(at)))
      ensures at == if Legal(op, old(at)) then Move(view, old(at), op) else None
    {
      if Legal(op, at) {
        at := Move(view, at, op);
      } else {
        misused, at := true, None;
      }
    }
  }

  function TotalSize(size: Pair -> nat, es: seq<Pair>): nat {
    if es == [] then 0 else TotalSize(size, es[..|es| - 1]) + size(es[|es| - 1])
  }

  lemma Regrouped(a: seq<Pair>, b: seq<Pair>, c: seq<Pair>)
    ensures a + (b + c) == a + b + c && a + [] == a && [] + c == c
  {
  }

  lemma TotalOfNone(size: Pair -> nat)
    ensures TotalSize(size, []) == 0
  {
  }

  lemma TotalOneMore(size: Pair -> nat, es: seq<Pair>, e: Pair)
    ensures TotalSize(size, es + [e]) == TotalSize(size, es) + size(e) && (es + [e])[..|es|] == es
  {
    assert (es + [e])[..|es|] == es;
  }

  class Iterator {
    const settings: Settings
    const size: Pair -> nat   // bytes of what is returned of an entry
    const highWaterMark: nat
    const dbIterator: SnapshotCursor
    var start: Option<UserKey>
    var isOpen: bool          // the database iterator has been made
    var seeking: bool
    var landed: bool
    var count: int

    // ----- what is still to come -----

    // The position that the next Read looks at, once the database iterator has been made.
    ghost function NextAt(): (p: Option<nat>)
      reads `seeking, dbIterator
      requires dbIterator.Valid()
      ensures p.Some? ==> p.value < |dbIterator.view|
    {
      if seeking || dbIterator.at.None? then dbIterator.at
      else Step(dbIterator.view, settings, dbIterator.at.value)
    }

    ghost function Remaining(): seq<Pair>
      reads `isOpen, `seeking, dbIterator
      requires dbIterator.Valid()
    {
      if isOpen then Ahead(dbIterator.view, settings, NextAt()) else Whole(dbIterator.view, settings)
    }

    // The entries still to come.
    ghost function Rest(): seq<Pair>
      reads `isOpen, `seeking, `count, dbIterator
      requires dbIterator.Valid()
    {
      Limited(Remaining(), settings.limit, count)
    }

    ghost predicate Valid()
      reads `isOpen, `seeking, `start, dbIterator
    {
      && dbIterator.Valid() && Increasing(dbIterator.view) && settings.Clear() && start == EffectiveStart(settings)
      && (isOpen ==> NearFrom(dbIterator.view, settings, NextAt())) && (seeking ==> isOpen)
    }

    // Reading will not move the database iterator off the end.
    ghost predicate CanRead()
      reads `isOpen, `seeking, dbIterator
    {
      !isOpen || seeking || dbIterator.at.Some?
    }

    constructor (view: seq<Pair>, settings: Settings, size: Pair -> nat, highWaterMark: nat)
      requires Increasing(view) && settings.Clear()
      ensures Valid() && CanRead() && !isOpen && count == 0 && !dbIterator.misused && fresh(dbIterator)
      ensures dbIterator.view == view && this.settings == settings
      ensures Rest() == Limited(Whole(view, settings), settings.limit, 0)
    {
      this.settings, this.size, this.highWaterMark := settings, size, highWaterMark;
      dbIterator := new SnapshotCursor(view);
      var from := settings.start;
      if settings.lt.Some? && settings.reverse {
        from := settings.lt;
      }
      if settings.lte.Some? && settings.reverse {
        from := settings.lte;
      }
      if settings.gt.Some? && !settings.reverse {
        from := settings.gt;
      }
      if settings.gte.Some? && !settings.reverse {
        from := settings.gte;
      }
      start := from;
      isOpen, seeking, landed, count := false, false, false, 0;
    }

    // ----- opening -----

    // Make the database iterator, at the first entry on the right side of the near bound.
    method GetIterator() returns (made: bool)
      requires Valid()
      modifies this`isOpen, dbIterator
      ensures Valid() && isOpen && made == !old(isOpen) && dbIterator.misused == old(dbIterator.misused)
      ensures !made ==> dbIterator.at == old(dbIterator.at)
      ensures made ==> NearFrom(dbIterator.view, settings, dbIterator.at) && AllAhead(dbIterator.view, settings, dbIterator.at)
    {
      if isOpen {
        return false;
      }
      hide Matching, Reversed;
      if start.Some? {
        dbIterator.Do(Op.Seek(start.value));
        if settings.reverse {
          StartReverse();
        } else {
          StartForward();
        }
      } else if settings.reverse {
        dbIterator.Do(Op.SeekToLast);
      } else {
        dbIterator.Do(Op.SeekToFirst);
      }
      isOpen := true;
      return true;
    }

    // From the first entry at or after the start, step past one that equals gt.
    method StartForward()
      requires dbIterator.Valid() && Increasing(dbIterator.view) && settings.Clear() && !settings.reverse
      requires start.Some? && start == EffectiveStart(settings)
      requires dbIterator.at == At(dbIterator.view, FirstAtLeast(dbIterator.view, start.value))
      modifies dbIterator
      ensures dbIterator.Valid() && dbIterator.misused == old(dbIterator.misused)
      ensures NearFrom(dbIterator.view, settings, dbIterator.at) && AllAhead(dbIterator.view, settings, dbIterator.at)
    {
      if dbIterator.at.Some? && settings.gt.Some? && settings.gt.value == dbIterator.view[dbIterator.at.value].key {
        dbIterator.Do(Op.Next);
      }
    }

    // From the first entry at or after the start, step back to the last that is not past the upper bound.
    method StartReverse()
      requires dbIterator.Valid() && Increasing(dbIterator.view) && settings.Clear() && settings.reverse
      requires start.Some? && start == EffectiveStart(settings)
      requires dbIterator.at == At(dbIterator.view, FirstAtLeast(dbIterator.view, start.value))
      modifies dbIterator
      ensures dbIterator.Valid() && dbIterator.misused == old(dbIterator.misused)
      ensures NearFrom(dbIterator.view, settings, dbIterator.at) && AllAhead(dbIterator.view, settings, dbIterator.at)
    {
      if dbIterator.at.None? {
        dbIterator.Do(Op.SeekToLast);
      } else {
        var key := dbIterator.view[dbIterator.at.value].key;
        if settings.lt.Some? {
          if settings.lt.value <= key {
            dbIterator.Do(Op.Prev);
          }
        } else if settings.lte.Some? {
          if settings.lte.value < key {
            dbIterator.Do(Op.Prev);
          }
        } else if start.value != key {
          dbIterator.Do(Op.Prev);
        }
      }
      // A second step back from an entry at or past lt is never taken.
      if dbIterator.at.Some? && settings.lt.Some? && settings.lt.value <= dbIterator.view[dbIterator.at.value].key {
        assert false;
      }
    }

    // ----- reading -----

    // The next entry, if there is one in range and the limit allows it.
    method Read() returns (r: Option<Pair>)
      requires Valid() && CanRead()
      modifies this`isOpen, this`seeking, this`count, dbIterator
      ensures Valid() && dbIterator.misused == old(dbIterator.misused)
      ensures old(Rest()) == if r.Some? then [r.value] + Rest() else []
      ensures r.Some? ==> CanRead()
    {
      hide Matching, Reversed;
      ghost var rest := Remaining();
      var made := GetIterator();
      if made {
        AllIsAhead(dbIterator.view, settings, dbIterator.at);
      } else if !seeking {
        dbIterator.Do(if settings.reverse then Op.Prev else Op.Next);
      }
      seeking := false;
      assert rest == Ahead(dbIterator.view, settings, dbIterator.at) && NearFrom(dbIterator.view, settings, dbIterator.at);
      if dbIterator.at.None? {
        return None;
      }
      r := Look();
    }

    // Return the entry at the position, unless it is past the limit or the far bound.
    method Look() returns (r: Option<Pair>)
      requires Valid() && isOpen && !seeking && dbIterator.at.Some? && NearFrom(dbIterator.view, settings, dbIterator.at)
      modifies this`count
      ensures Valid()
      ensures var all := old(Limited(Ahead(dbIterator.view, settings, dbIterator.at), settings.limit, count));
              all == if r.Some? then [r.value] + Rest() else []
    {
      hide Matching, Reversed;
      var e := dbIterator.view[dbIterator.at.value];
      var within := true;
      if settings.limit >= 0 {
        count := count + 1;
        within := count <= settings.limit;
      }
      if settings.InRange(e.key) {
        AheadOfEntry(dbIterator.view, settings, dbIterator.at.value);
      } else {
        NothingAhead(dbIterator.view, settings, dbIterator.at.value);
      }
      if within && PassesBounds(e.key) {
        return Some(e);
      }
      return None;
    }

    // The bounds that Read looks at; the position sees to the others.
    predicate PassesBounds(k: UserKey) {
      && (settings.end.None? || (if settings.reverse then settings.end.value <= k else k <= settings.end.value))
      && (if settings.lt.Some? then k < settings.lt.value else settings.lte.Some? ==> k <= settings.lte.value)
      && (if settings.gt.Some? then settings.gt.value < k else settings.gte.Some? ==> settings.gte.value <= k)
    }

    // ----- chunks -----

    /** Read until a chunk is full: one entry at first, then more than highWaterMark bytes, but no more without its
        last entry. The chunk is the front of what was to come, and all of it when reading has come to an end. */
    method IteratorNext() returns (result: seq<Pair>, ok: bool)
      requires Valid() && CanRead()
      modifies this`isOpen, this`seeking, this`count, this`landed, dbIterator
      ensures Valid() && dbIterator.misused == old(dbIterator.misused)
      ensures old(Rest()) == if ok then result + Rest() else result
      ensures ok ==> CanRead() && result != []
      ensures landed == (old(landed) || result != [])
      ensures !old(landed) ==> |result| == if ok then 1 else 0
      ensures old(landed) && ok ==> TotalSize(size, result[..|result| - 1]) <= highWaterMark < TotalSize(size, result)
      ensures old(landed) && !ok ==> TotalSize(size, result) <= highWaterMark
    {
      hide Matching, Reversed, Limited, Ahead, Whole, Increasing, NearFrom, Step, Rest, Remaining, TotalSize, EffectiveStart, SnapshotCursor.Valid;
      TotalOfNone(size);
      var bytes := 0;
      result := [];
      ghost var all := Rest();
      Regrouped(result, [], all);
      while true
        invariant Valid() && CanRead() && dbIterator.misused == old(dbIterator.misused) && all == result + Rest()
        invariant landed == old(landed) && (!landed ==> result == [])
        invariant bytes == TotalSize(size, result) <= highWaterMark
        decreases |Rest()|
      {
        var r := Read();
        if r.None? {
          Regrouped(result, [], []);
          return result, false;
        }
        Regrouped(result, [r.value], Rest());
        TotalOneMore(size, result, r.value);
        result := result + [r.value];
        if !landed {
          landed := true;
          return result, true;
        }
        bytes := bytes + size(r.value);
        if bytes > highWaterMark {
          return result, true;
        }
      }
    }

    // ----- seeking -----

    // The target is not one that iteration could return.
    predicate OutOfRange(target: UserKey)
      reads this`start
      ensures Clear(settings) && start == EffectiveStart(settings) ==> (OutOfRange(target) <==> !settings.InRange(target))
    {
      || (if settings.lt.Some? then target >= settings.lt.value
          else if settings.lte.Some? then target > settings.lte.value
          else start.Some? && settings.reverse && target > start.value)
      || (settings.end.Some? && if settings.reverse then target < settings.end.value else target > settings.end.value)
      || (if settings.gt.Some? then target <= settings.gt.value
          else if settings.gte.Some? then target < settings.gte.value
          else start.Some? && !settings.reverse && target < start.value)
    }

    static predicate Clear(s: Settings) {
      s.Clear()
    }

    /** Continue from the first entry at or past the target; from nowhere, when the target is out of range. */
    method Seek(target: UserKey)
      requires Valid()
      modifies this`isOpen, this`seeking, this`landed, dbIterator
      ensures Valid() && CanRead() && isOpen && seeking && !landed
      ensures NextAt() == if settings.InRange(target) then Landing(dbIterator.view, settings, target) else None
      ensures dbIterator.misused == (old(dbIterator.misused) || (!settings.InRange(target) && dbIterator.view == []))
    {
      hide Matching, Reversed;
      var made := GetIterator();
      dbIterator.Do(Op.Seek(target));
      seeking := true;
      landed := false;
      if OutOfRange(target) {
        if settings.reverse {
          dbIterator.Do(Op.SeekToFirst);
          dbIterator.Do(Op.Prev);
        } else {
          dbIterator.Do(Op.SeekToLast);
          dbIterator.Do(Op.Next);
        }
      } else {
        SeekInRange(target);
      }
    }

    // From the first entry at or after the target: when that is not the one, the one before it.
    method SeekInRange(target: UserKey)
      requires dbIterator.Valid() && Increasing(dbIterator.view)
      requires dbIterator.at == At(dbIterator.view, FirstAtLeast(dbIterator.view, target))
      modifies dbIterator
      ensures dbIterator.Valid() && dbIterator.misused == old(dbIterator.misused)
      ensures dbIterator.at == Landing(dbIterator.view, settings, target)
    {
      if dbIterator.at.Some? {
        var key := dbIterator.view[dbIterator.at.value].key;
        if key > target && settings.reverse {
          dbIterator.Do(Op.Prev);
        } else if key < target && !settings.reverse {
          assert false;
        }
      } else {
        dbIterator.Do(if settings.reverse then Op.SeekToLast else Op.SeekToFirst);
        if dbIterator.at.Some? {
          var key := dbIterator.view[dbIterator.at.value].key;
          if key > target && settings.reverse {
            assert false;
          } else if key < target && !settings.reverse {
            dbIterator.Do(Op.SeekToLast);
            dbIterator.Do(Op.Next);
          }
        }
      }
    }
  }

  // ----- the wrapper -----

  // What the array handed to the wrapper is made of.
  datatype Cell = KeyCell(key: UserKey) | ValueCell(value: Bytes)

  // The entries that popping a key and a value at a time gives.
  function Popped(cells: seq<Cell>): seq<Pair> {
    var n := |cells|;
    if n < 2 || !cells[n - 1].KeyCell? || !cells[n - 2].ValueCell? then []
    else [Pair(cells[n - 1].key, cells[n - 2].value)] + Popped(cells[..n - 2])
  }

  ghost predicate Paired(cells: seq<Cell>)
    decreases |cells|
  {
    var n := |cells|;
    n == 0 || (n >= 2 && cells[n - 1].KeyCell? && cells[n - 2].ValueCell? && Paired(cells[..n - 2]))
  }

  // The array for a chunk: entries from the back to the front, each with its key after its value.
  method Pack(rows: seq<Pair>) returns (cells: seq<Cell>)
    ensures Paired(cells) && Popped(cells) == rows && |cells| == 2 * |rows|
  {
    var arraySize := 2 * |rows|;
    var returned := new Cell[arraySize](_ => KeyCell(0.0));
    var idx := 0;
    while idx < |rows|
      invariant idx <= |rows|
      invariant forall i :: 0 <= i < idx ==> returned[arraySize - i * 2 - 1] == KeyCell(rows[i].key)
      invariant forall i :: 0 <= i < idx ==> returned[arraySize - i * 2 - 2] == ValueCell(rows[i].value)
    {
      returned[arraySize - idx * 2 - 1] := KeyCell(rows[idx].key);
      returned[arraySize - idx * 2 - 2] := ValueCell(rows[idx].value);
      idx := idx + 1;
    }
    cells := returned[..];
    PackedRows(cells, rows);
  }

  lemma {:induction false} PackedRows(cells: seq<Cell>, rows: seq<Pair>)
    requires |cells| == 2 * |rows|
    requires forall i :: 0 <= i < |rows| ==> cells[|cells| - i * 2 - 1] == KeyCell(rows[i].key)
    requires forall i :: 0 <= i < |rows| ==> cells[|cells| - i * 2 - 2] == ValueCell(rows[i].value)
    ensures Paired(cells) && Popped(cells) == rows
    decreases |rows|
  {
    if rows != [] {
      var n := |cells| - 2;
      assert cells[|cells| - 0 * 2 - 1] == KeyCell(rows[0].key) && cells[|cells| - 0 * 2 - 2] == ValueCell(rows[0].value);
      forall i | 0 <= i < |rows| - 1
        ensures cells[..n][n - i * 2 - 1] == KeyCell(rows[1..][i].key) && cells[..n][n - i * 2 - 2] == ValueCell(rows[1..][i].value)
      {
        assert cells[|cells| - (i + 1) * 2 - 1] == KeyCell(rows[i + 1].key);
        assert cells[|cells| - (i + 1) * 2 - 2] == ValueCell(rows[i + 1].value);
      }
      PackedRows(cells[..n], rows[1..]);
    }
  }

  /** The iterator of the JavaScript side: entries come from a chunk that is popped from its end. */
  class CachedIterator {
    const binding: Iterator
    var cache: seq<Cell>
    var finished: bool

    // The entries still to come.
    ghost function Rest(): seq<Pair>
      reads this, binding, binding.dbIterator
      requires binding.dbIterator.Valid()
    {
      Popped(cache) + if finished then [] else binding.Rest()
    }

    ghost predicate Valid()
      reads this, binding, binding.dbIterator
    {
      binding.Valid() && Paired(cache) && (!finished ==> binding.CanRead())
    }

    constructor (view: seq<Pair>, settings: Settings, size: Pair -> nat, highWaterMark: nat)
      requires Increasing(view) && settings.Clear()
      ensures Valid() && Rest() == Limited(Whole(view, settings), settings.limit, 0)
      ensures binding.settings == settings && binding.dbIterator.view == view && !binding.dbIterator.misused
      ensures fresh(binding) && fresh(binding.dbIterator) && binding.count == 0
    {
      binding := new Iterator(view, settings, size, highWaterMark);
      cache, finished := [], false;
      new;
      assert [] + binding.Rest() == binding.Rest();
    }

    // Get the next chunk.
    method Refill()
      requires Valid() && cache == [] && !finished
      modifies this, binding, binding.dbIterator
      ensures Valid() && binding.dbIterator.misused == old(binding.dbIterator.misused)
      ensures Rest() == old(Rest()) && (cache == [] ==> finished)
    {
      hide Limited, TotalSize, Iterator.Rest, Increasing;
      Regrouped([], [], binding.Rest());
      var result, ok := binding.IteratorNext();
      var count := if ok then |result| else -|result|;
      cache := Pack(result);
      finished := count <= 0;
      Regrouped(result, [], []);
    }

    method NextSync() returns (r: Option<Pair>)
      requires Valid()
      modifies this, binding, binding.dbIterator
      ensures Valid() && binding.dbIterator.misused == old(binding.dbIterator.misused)
      ensures old(Rest()) == if r.Some? then [r.value] + Rest() else []
    {
      hide Limited;
      if |cache| == 0 {
        if finished {
          return None;
        }
        Refill();
      }
      if |cache| == 0 {
        return None;
      }
      var n := |cache|;
      ghost var later := if finished then [] else binding.Rest();
      var key, value := cache[n - 1].key, cache[n - 2].value;
      cache := cache[..n - 2];
      assert [Pair(key, value)] + Popped(cache) + later == [Pair(key, value)] + (Popped(cache) + later);
      return Some(Pair(key, value));
    }

    method Seek(target: UserKey)
      requires Valid()
      modifies this, binding, binding.dbIterator
      ensures Valid() && binding.count == old(binding.count)
      ensures var s, view := binding.settings, binding.dbIterator.view;
              Rest() == Limited(Ahead(view, s, if s.InRange(target) then Landing(view, s, target) else None), s.limit, binding.count)
      ensures binding.dbIterator.misused ==
              (old(binding.dbIterator.misused) || (!binding.settings.InRange(target) && binding.dbIterator.view == []))
    {
      hide Limited, Ahead;
      cache := [];
      binding.Seek(target);
      finished := false;
      assert [] + binding.Rest() == binding.Rest();
    }
  }

  // ----- what the whole iterator does -----

  // Read to the end.
  method Drain(it: CachedIterator) returns (entries: seq<Pair>)
    requires it.Valid()
    modifies it, it.binding, it.binding.dbIterator
    ensures it.Valid() && entries == old(it.Rest()) && it.binding.dbIterator.misused == old(it.binding.dbIterator.misused)
  {
    hide CachedIterator.Rest, Limited, Popped, Paired;
    ghost var all := it.Rest();
    entries := [];
    var more := true;
    while more
      invariant it.Valid() && it.binding.dbIterator.misused == old(it.binding.dbIterator.misused)
      invariant all == entries + if more then it.Rest() else []
      decreases more, |it.Rest()|
    {
      var r := it.NextSync();
      if r.Some? {
        assert entries + ([r.value] + it.Rest()) == entries + [r.value] + it.Rest();
        entries := entries + [r.value];
      } else {
        more := false;
      }
    }
    assert entries + [] == entries;
  }

  /** From the start, or after a seek: exactly the entries in range (past the target), in order, whatever the
      chunks, and as many as the limit allows. */
  method ReadAll(view: seq<Pair>, settings: Settings, size: Pair -> nat, highWaterMark: nat, target: Option<UserKey>)
      returns (entries: seq<Pair>, misused: bool)
    requires Increasing(view) && settings.Clear()
    ensures target.None? ==> !misused && entries == Limited(Whole(view, settings), settings.limit, 0)
    ensures target.Some? ==> misused == (!settings.InRange(target.value) && view == [])
    ensures target.Some? ==>
              entries == Limited(Ahead(view, settings, if settings.InRange(target.value) then Landing(view, settings, target.value) else None),
                                 settings.limit, 0)
    ensures IsAnswer(entries, view, settings, target)
  {
    hide *;
    var it := new CachedIterator(view, settings, size, highWaterMark);
    if target.Some? {
      it.Seek(target.value);
    }
    entries := Drain(it);
    misused := it.binding.dbIterator.misused;
    if target.Some? {
      LandingAnswers(view, settings, target.value);
    } else {
      WholeAnswers(view, settings);
    }
  }
}
