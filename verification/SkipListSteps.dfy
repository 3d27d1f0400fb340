/** The keys of a skip list while one thread inserts and another searches, one store or one look at a time. */
module SkipListSteps {
  import opened InternalKeys
  import opened Options

  const LEVELS := 12

  // What happens next: an insertion begins, stores one pointer, or the search looks at one link.
  datatype Turn = Begin(key: UserKey, height: nat) | Store | Look

  // The insertion under way: the levels below `linked` have the key, and the node's link for the next one may be set.
  datatype Work = Idle | Linking(key: UserKey, height: nat, linked: nat, ownLinkSet: bool)

  // The key that the search stands on, None for the head, and its level; or the key it found.
  datatype Search = On(key: Option<UserKey>, level: nat) | Ended(result: Option<UserKey>)

  datatype State = State(levels: seq<seq<UserKey>>, work: Work, search: Search)

  predicate Proper(s: State) {
    && |s.levels| == LEVELS
    && (s.work.Linking? ==> s.work.linked < s.work.height <= LEVELS)
    && (s.search.On? ==> s.search.level < LEVELS)
  }

  // How many keys at the front come before a key.
  function CountBefore(ks: seq<UserKey>, key: UserKey): (n: nat)
    ensures n <= |ks|
  {
    if ks != [] && ks[0] < key then 1 + CountBefore(ks[1..], key) else 0
  }

  function With(ks: seq<UserKey>, key: UserKey): seq<UserKey> {
    ks[..CountBefore(ks, key)] + [key] + ks[CountBefore(ks, key)..]
  }

  // The first key past another, or past the head.
  function FirstPast(ks: seq<UserKey>, key: Option<UserKey>): (r: Option<UserKey>)
    ensures r.Some? ==> r.value in ks && (key.Some? ==> key.value < r.value)
  {
    if ks == [] then None
    else if key.None? || key.value < ks[0] then Some(ks[0])
    else FirstPast(ks[1..], key)
  }

  function Next(s: State, turn: Turn, target: UserKey): (r: State)
    requires Proper(s)
    ensures Proper(r)
  {
    match turn
    case Begin(key, height) =>
      if s.work.Idle? && 1 <= height <= LEVELS && key !in s.levels[0] then s.(work := Linking(key, height, 0, false)) else s
    case Store => if s.work.Idle? then s else Stored(s)
    case Look => if s.search.Ended? then s else s.(search := Looked(s, target))
  }

  // A store sets the node's own link, or puts the node into the level.
  function Stored(s: State): (r: State)
    requires Proper(s) && s.work.Linking?
    ensures Proper(r) && r.search == s.search
  {
    var w := s.work;
    if !w.ownLinkSet then s.(work := w.(ownLinkSet := true))
    else
      s.(levels := s.levels[w.linked := With(s.levels[w.linked], w.key)],
         work := if w.linked + 1 == w.height then Idle else w.(linked := w.linked + 1, ownLinkSet := false))
  }

  // The search goes on to the next key when that is before the target, and else down a level; at the lowest it ends.
  function Looked(s: State, target: UserKey): (r: Search)
    requires Proper(s) && s.search.On?
    ensures r.On? ==> r.level <= s.search.level
  {
    var next := FirstPast(s.levels[s.search.level], s.search.key);
    if next.Some? && next.value < target then s.search.(key := next)
    else if s.search.level == 0 then Ended(next)
    else s.search.(level := s.search.level - 1)
  }

  function After(s: State, turns: seq<Turn>, target: UserKey): (r: State)
    requires Proper(s)
    ensures Proper(r)
  {
    if turns == [] then s else Next(After(s, turns[..|turns| - 1], target), turns[|turns| - 1], target)
  }

  // ----- insertions come to an end -----

  function Repeated(turn: Turn, n: nat): (turns: seq<Turn>)
    ensures |turns| == n
  {
    seq(n, _ => turn)
  }

  // The levels below a height with a key put in, the others as they were.
  predicate LinkedBelow(levels: seq<seq<UserKey>>, was: seq<seq<UserKey>>, key: UserKey, height: nat) {
    && |levels| == |was|
    && forall l {:trigger levels[l]} :: 0 <= l < |was| ==> levels[l] == if l < height then With(was[l], key) else was[l]
  }

  lemma LinkedOneMore(levels: seq<seq<UserKey>>, was: seq<seq<UserKey>>, key: UserKey, l: nat)
    requires LinkedBelow(levels, was, key, l) && l < |levels|
    ensures LinkedBelow(levels[l := With(levels[l], key)], was, key, l + 1)
  {
    hide With;
  }

  // The state after each two stores.
  lemma {:induction false} LinksUp(s: State, key: UserKey, height: nat, l: nat, target: UserKey)
    requires Proper(s) && s.work == Linking(key, height, 0, false) && l <= height
    ensures var r := After(s, Repeated(Store, 2 * l), target);
            && LinkedBelow(r.levels, s.levels, key, l) && r.search == s.search
            && r.work == if l == height then Idle else Linking(key, height, l, false)
  {
    hide With, LinkedBelow;
    if l == 0 {
      NoneLinked(s.levels, key);
    } else {
      LinksUp(s, key, height, l - 1, target);
      var turns := Repeated(Store, 2 * l);
      var r := After(s, Repeated(Store, 2 * (l - 1)), target);
      assert turns[..2 * l - 1] == Repeated(Store, 2 * l - 1);
      assert Repeated(Store, 2 * l - 1)[..2 * (l - 1)] == Repeated(Store, 2 * (l - 1));
      LinkedOneMore(r.levels, s.levels, key, l - 1);
    }
  }

  lemma NoneLinked(levels: seq<seq<UserKey>>, key: UserKey)
    ensures LinkedBelow(levels, levels, key, 0)
  {
  }

  /** An insertion that begins with no other under way has put its key into each of its levels after two stores for
      each, and into no other. */
  lemma InsertionEnds(s: State, key: UserKey, height: nat, target: UserKey)
    requires Proper(s) && s.work.Idle? && 1 <= height <= LEVELS && key !in s.levels[0]
    ensures var r := After(s, [Begin(key, height)] + Repeated(Store, 2 * height), target);
            r.work.Idle? && r.search == s.search && LinkedBelow(r.levels, s.levels, key, height)
  {
    hide LinkedBelow, With;
    AfterFirst(s, Begin(key, height), Repeated(Store, 2 * height), target);
    LinksUp(Next(s, Begin(key, height), target), key, height, height, target);
  }

  lemma {:induction false} AfterFirst(s: State, turn: Turn, turns: seq<Turn>, target: UserKey)
    requires Proper(s)
    ensures After(s, [turn] + turns, target) == After(Next(s, turn, target), turns, target)
  {
    hide Next;
    var all := [turn] + turns;
    if turns == [] {
      assert all[..0] == [] && all[0] == turn;
    } else {
      var n := |turns| - 1;
      AfterFirst(s, turn, turns[..n], target);
      assert all[..|all| - 1] == [turn] + turns[..n];
    }
  }

  // ----- and so does a search that is left alone -----

  // How many keys are past the one that the search stands on.
  function CountPast(ks: seq<UserKey>, key: Option<UserKey>): (n: nat)
    ensures n <= |ks|
  {
    if ks == [] then 0 else (if key.None? || key.value < ks[0] then 1 else 0) + CountPast(ks[1..], key)
  }

  lemma {:induction false} FewerPast(ks: seq<UserKey>, key: Option<UserKey>, next: UserKey)
    requires key.Some? ==> key.value < next
    ensures CountPast(ks, Some(next)) <= CountPast(ks, key)
    ensures next in ks ==> CountPast(ks, Some(next)) < CountPast(ks, key)
  {
    if ks != [] {
      FewerPast(ks[1..], key, next);
    }
  }

  // Every key of a level is on the lowest one.
  ghost predicate OverLowest(levels: seq<seq<UserKey>>) {
    levels != [] && forall l, k {:trigger k in levels[l]} :: 0 <= l < |levels| && k in levels[l] ==> k in levels[0]
  }

  // The looks that a search still takes, at most.
  function LooksLeft(s: State): nat
    requires Proper(s)
  {
    if s.search.Ended? then 0 else s.search.level + 1 + CountPast(s.levels[0], s.search.key)
  }

  lemma LookGetsOn(s: State, target: UserKey)
    requires Proper(s) && OverLowest(s.levels) && s.search.On?
    ensures LooksLeft(Next(s, Look, target)) < LooksLeft(s)
  {
    hide CountPast, FirstPast;
    var next := FirstPast(s.levels[s.search.level], s.search.key);
    if next.Some? {
      FewerPast(s.levels[0], s.search.key, next.value);
    }
  }

  /** Left alone, a search ends after no more looks than there are levels below it and keys past it. */
  lemma {:induction false} SearchEnds(s: State, n: nat, target: UserKey)
    requires Proper(s) && OverLowest(s.levels)
    ensures var r := After(s, Repeated(Look, n), target);
            && r.levels == s.levels && r.work == s.work && LooksLeft(r) <= (if LooksLeft(s) < n then 0 else LooksLeft(s) - n)
            && (n >= LooksLeft(s) ==> r.search.Ended?)
  {
    hide LooksLeft, OverLowest;
    LookKeeps(After(s, Repeated(Look, n), target), target);
    if n > 0 {
      SearchEnds(s, n - 1, target);
      var r := After(s, Repeated(Look, n - 1), target);
      assert Repeated(Look, n)[..n - 1] == Repeated(Look, n - 1);
      LookKeeps(r, target);
      if r.search.On? {
        LookGetsOn(r, target);
      }
    }
  }

  lemma LookKeeps(s: State, target: UserKey)
    requires Proper(s)
    ensures var r := Next(s, Look, target); r.levels == s.levels && r.work == s.work && (s.search.Ended? ==> r == s)
    ensures LooksLeft(s) == 0 <==> s.search.Ended?
  {
  }
}
