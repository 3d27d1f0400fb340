/** A search of the skip list while another thread inserts: their steps come in any order. */
module SkipListReads {
  import opened InternalKeys
  import opened Options
  import opened SkipLists
  import opened SkipListSteps

  // The nodes of one sequence are all in another.
  ghost predicate AllIn(a: seq<Node>, b: seq<Node>) {
    forall n :: n in a ==> n in b
  }

  function LevelKeys(levels: seq<seq<Node>>): (ks: seq<seq<UserKey>>)
    ensures |ks| == |levels|
    ensures forall l {:trigger ks[l]} :: 0 <= l < |levels| ==> ks[l] == Keys(levels[l])
  {
    seq(|levels|, l requires 0 <= l < |levels| => Keys(levels[l]))
  }

  function KeyOf(n: Node?): Option<UserKey> {
    if n == null then None else Some(n.key)
  }

  lemma {:induction false} PosIsBefore(ns: seq<Node>, key: UserKey)
    ensures Pos(ns, key) == CountBefore(Keys(ns), key)
  {
    if ns != [] {
      PosIsBefore(ns[1..], key);
      assert Keys(ns)[1..] == Keys(ns[1..]);
    }
  }

  lemma LevelsWith(levels: seq<seq<Node>>, x: Node, l: nat)
    requires l < |levels|
    ensures LevelKeys(levels[l := Inserted(levels[l], x)]) == LevelKeys(levels)[l := With(LevelKeys(levels)[l], x.key)]
  {
    hide LevelKeys, Inserted, Keys;
    InsertedKeys(levels[l], x);
    PosIsBefore(levels[l], x.key);
    var r := levels[l := Inserted(levels[l], x)];
    assert forall m {:trigger LevelKeys(r)[m]} :: 0 <= m < |levels| ==> LevelKeys(r)[m] == Keys(r[m]);
  }

  predicate NotPast(ns: seq<Node>, i: nat, key: Option<UserKey>)
    requires i < |ns|
  {
    key.Some? && ns[i].key <= key.value
  }

  // The key behind position j, when that is the first position with a key past the one given.
  lemma {:induction false} FirstPastIs(ns: seq<Node>, j: nat, key: Option<UserKey>)
    requires j <= |ns| && (forall i {:trigger NotPast(ns, i, key)} :: 0 <= i < j ==> NotPast(ns, i, key))
    requires j < |ns| ==> !NotPast(ns, j, key)
    ensures FirstPast(Keys(ns), key) == if j < |ns| then Some(ns[j].key) else None
  {
    if ns != [] {
      assert Keys(ns)[1..] == Keys(ns[1..]);
      if j > 0 {
        assert NotPast(ns, 0, key);
        forall i {:trigger NotPast(ns[1..], i, key)} | 0 <= i < j - 1
          ensures NotPast(ns[1..], i, key)
        {
          assert NotPast(ns, i + 1, key);
        }
        assert j < |ns| ==> NotPast(ns[1..], j - 1, key) == NotPast(ns, j, key);
        FirstPastIs(ns[1..], j - 1, key);
      }
    }
  }

  class Interleaving {
    const list: SkipList
    const target: UserKey

    // The insertion under way, if any: its node, and how far linking it has got.
    var inserting: Node?
    var prev: seq<Node>
    var height: nat
    var linked: nat              // levels that the node is on
    var ownLinkSet: bool         // whether the node's link for the next level is set
    ghost var was: seq<seq<Node>>

    // The search: the node it stands on, on which level, and what it found.
    var at: Node
    var level: nat
    var done: bool
    var result: Node?
    ghost var seen: seq<Node>    // what was linked on level 0 when the search ended

    // ----- what holds between any two steps -----

    ghost predicate WriterOk()
      reads `inserting, `prev, `height, `linked, `ownLinkSet, `was, list, list.nodes
      requires list.Valid()
    {
      inserting != null ==>
        var x := inserting;
        && x in list.nodes && x != list.head && |x.next| == height <= list.maxHeight && linked < height
        && list.InsertedBelow(was, x, linked) && list.LinksReady(prev, x.key, linked, height)
        && (forall m :: linked <= m < MAX_HEIGHT ==> x !in list.levels[m] && NewKey(list.levels[m], x.key))
        && (ownLinkSet ==> x.next[linked] == list.NodeAt(linked, Pos(list.levels[linked], x.key)))
    }

    // The search stands on the head, or on a node before the target that is linked on its level.
    ghost predicate ReaderOk()
      reads `at, `level, `done, `result, `seen, list`levels
    {
      && level < |list.levels| && (at == list.head || (at in list.levels[level] && at.key < target))
      && (done ==> Ascending(seen) && AllIn(seen, list.levels[0]) && result == FirstAtLeast(seen, target))
    }

    ghost predicate Valid()
      reads this, list, list.nodes
    {
      list.Valid() && WriterOk() && ReaderOk()
    }

    // ----- the keys, and how far both have got -----

    ghost function WorkNow(): Work
      reads `inserting, `height, `linked, `ownLinkSet
    {
      if inserting == null then Idle else Linking(inserting.key, height, linked, ownLinkSet)
    }

    ghost function SearchNow(): Search
      reads `at, `level, `done, `result
    {
      if done then Ended(KeyOf(result)) else On(if at == list.head then None else Some(at.key), level)
    }

    ghost function Machine(): State
      reads this, list`levels
    {
      State(LevelKeys(list.levels), WorkNow(), SearchNow())
    }

    lemma IsProper()
      requires Valid()
      ensures Proper(Machine())
    {
      hide Keys;
      HasLevels();
    }

    // A search begins at the top of the list.
    constructor (list: SkipList, target: UserKey)
      requires list.Valid()
      ensures Valid() && this.list == list && this.target == target && !done && inserting == null
      ensures Machine() == State(LevelKeys(list.levels), Idle, On(None, list.maxHeight - 1))
    {
      this.list, this.target := list, target;
      inserting, prev, height, linked, ownLinkSet, was := null, [], 0, 0, false, [];
      at, level, done, result, seen := list.head, list.maxHeight - 1, false, null, [];
    }

    // ----- the insertion's steps -----

    // Find where to link, raise the list's height if need be, and allocate the node.
    method StartInsert(key: UserKey, height: nat)
      requires Valid() && inserting == null && key !in list.Contents() && 1 <= height <= MAX_HEIGHT
      modifies this`inserting, this`prev, this`height, this`linked, this`ownLinkSet, this`was, list`maxHeight, list`nodes
      ensures Valid() && fresh(list.nodes - old(list.nodes)) && WorkNow() == Linking(key, height, 0, false)
    {
      hide Pos, NewKey, FirstAtLeast, Ascending, SkipList.Valid, SkipList.LinksReady, SkipList.Contents;
      var splice := list.FindSplice(key, height);
      AllNew(key);
      HasLevels();
      Allocate(key, height, splice[..]);
    }

    method Allocate(key: UserKey, height: nat, splice: seq<Node>)
      requires list.Valid() && ReaderOk() && 1 <= height <= list.maxHeight && height <= MAX_HEIGHT == |list.levels|
      requires list.LinksReady(splice, key, 0, height) && forall m :: 0 <= m < MAX_HEIGHT ==> NewKey(list.levels[m], key)
      modifies this`inserting, this`prev, this`height, this`linked, this`ownLinkSet, this`was, list`nodes
      ensures Valid() && fresh(list.nodes - old(list.nodes)) && WorkNow() == Linking(key, height, 0, false)
    {
      hide Pos, NewKey, FirstAtLeast, Ascending, SkipList.Valid, SkipList.LinksReady;
      var x := list.AllocateNode(key, height);
      inserting, prev, this.height, linked, ownLinkSet, was := x, splice, height, 0, false, list.levels;
    }

    lemma HasLevels()
      requires list.Valid()
      ensures list.maxHeight <= MAX_HEIGHT == |list.levels|
    {
    }

    lemma AllNew(key: UserKey)
      requires list.Valid() && key !in list.Contents()
      ensures forall m :: 0 <= m < MAX_HEIGHT ==> NewKey(list.levels[m], key)
    {
      forall m | 0 <= m < MAX_HEIGHT
        ensures NewKey(list.levels[m], key)
      {
        list.NewOnAll(key, m);
      }
    }

    // The node's own link for the next level.
    method StoreOwnLink()
      requires Valid() && inserting != null && !ownLinkSet
      modifies this`ownLinkSet, inserting`next
      ensures Valid() && ownLinkSet
    {
      hide Pos, NewKey, FirstAtLeast, Ascending;
      assert list.LevelOk(linked) && list.Linked(linked, Pos(list.levels[linked], inserting.key));
      list.SetOwnLink(inserting, linked, prev[linked].next[linked]);
      ownLinkSet := true;
    }

    // The link that puts the node into the level.
    method StorePublish()
      requires Valid() && inserting != null && ownLinkSet
      modifies this`inserting, this`linked, this`ownLinkSet, list`levels, list.nodes
      ensures Valid() && AllIn(old(list.levels[0]), list.levels[0])
      ensures list.levels == old(list.levels)[old(linked) := Inserted(old(list.levels[linked]), old(inserting))]
      ensures inserting == (if old(linked) + 1 == height then null else old(inserting)) && linked == old(linked) + 1 && !ownLinkSet
    {
      hide Pos, NewKey, FirstAtLeast, Ascending, Inserted, SkipList.Valid, SkipList.LinksReady;
      ghost var l, levels := linked, list.levels;
      HasLevels();
      PublishNext();
      StillIn(levels, inserting, l);
      linked, ownLinkSet := linked + 1, false;
      if linked == height {
        inserting := null;
      }
    }

    // The list's part of that.
    method PublishNext()
      requires list.Valid() && WriterOk() && inserting != null && ownLinkSet
      modifies list`levels, list.nodes
      ensures list.Valid() && |inserting.next| == |old(inserting.next)| && list.InsertedBelow(was, inserting, linked + 1)
      ensures list.levels == old(list.levels)[linked := Inserted(old(list.levels[linked]), inserting)]
      ensures list.LinksReady(prev, inserting.key, linked + 1, height)
    {
      hide Pos, NewKey, Ascending, Inserted, SkipList.LevelOk, SkipList.Under;
      if linked > 0 {
        OnLevelBelow();
      }
      PrevIsThere();
      list.Publish(prev[linked], inserting, linked);
    }

    lemma OnLevelBelow()
      requires list.Valid() && WriterOk() && inserting != null && linked > 0
      ensures inserting in list.levels[linked - 1]
    {
      InsertedHas(was[linked - 1], inserting);
    }

    lemma PrevIsThere()
      requires list.Valid() && WriterOk() && inserting != null
      ensures linked < |prev| && prev[linked] in list.nodes
    {
      assert list.LevelOk(linked) && list.Linked(linked, Pos(list.levels[linked], inserting.key));
    }

    method StoreNext()
      requires Valid() && inserting != null
      modifies this`inserting, this`linked, this`ownLinkSet, list`levels, list.nodes
      ensures Valid() && AllIn(old(list.levels[0]), list.levels[0])
      ensures Proper(old(Machine())) && Machine() == Next(old(Machine()), Store, target)
    {
      hide Pos, NewKey, FirstAtLeast, Ascending, SkipList.LevelOk, SkipList.Under, SkipList.LinksReady, Inserted, LevelKeys, With;
      IsProper();
      if ownLinkSet {
        LevelsWith(list.levels, inserting, linked);
        StorePublish();
      } else {
        StoreOwnLink();
      }
    }

    lemma ListValid()
      requires Valid()
      ensures list.Valid()
    {
    }

    // ----- the search's step -----

    /** One turn of the search's loop: it ends, or goes down a level or on to a larger key. When it ends, it has the
        first node at or after the target of those that are linked then. */
    method LookOnce()
      requires Valid() && !done
      modifies this`at, this`level, this`done, this`result, this`seen
      ensures Valid() && (done ==> seen == list.levels[0] && result == list.NodeAt(0, Pos(list.levels[0], target)))
      ensures done || level == old(level) - 1 || (level == old(level) && at != list.head && (old(at) == list.head || old(at).key < at.key))
      ensures Proper(old(Machine())) && Machine() == Next(old(Machine()), Look, target)
    {
      hide Pos, Ascending, SkipList.Valid, WriterOk, Keys, FirstPast, LevelKeys;
      IsProper();
      ghost var j := Standing();
      BehindIt(j);
      LevelZeroAscends();
      var next := list.Follow(at, level, j, target);
      if SkipList.KeyIsAfterNode(target, next) {
        NextIsLater(j);
        at := next;
      } else if level == 0 {
        done, result, seen := true, next, list.levels[0];
      } else {
        StandsBelow();
        level := level - 1;
      }
    }

    lemma Standing() returns (j: nat)
      requires list.Valid() && ReaderOk()
      ensures list.Stands(at, level, j) && level < MAX_HEIGHT && j <= Pos(list.levels[level], target)
    {
      assert list.LevelOk(level);
      if at == list.head {
        j := 0;
      } else {
        j := Find(list.levels[level], at) + 1;
        PosSplits(list.levels[level], target, j - 1);
      }
    }

    // The search looks at the first key past the one that it stands on.
    lemma BehindIt(j: nat)
      requires list.Valid() && level < MAX_HEIGHT && list.Stands(at, level, j)
      ensures FirstPast(LevelKeys(list.levels)[level], if at == list.head then None else Some(at.key)) == KeyOf(list.NodeAt(level, j))
    {
      hide Pos, SkipList.Under;
      var ns := list.levels[level];
      assert list.LevelOk(level);
      var key := if at == list.head then None else Some(at.key);
      forall i {:trigger NotPast(ns, i, key)} | 0 <= i < j
        ensures NotPast(ns, i, key)
      {
        assert i < j - 1 ==> KeyBefore(ns, i, j - 1);
      }
      assert 0 < j < |ns| ==> KeyBefore(ns, j - 1, j);
      FirstPastIs(ns, j, key);
    }

    lemma NextIsLater(j: nat)
      requires list.Valid() && level < MAX_HEIGHT && list.Stands(at, level, j) && j < |list.levels[level]|
      ensures list.NodeAt(level, j) != list.head && (at == list.head || at.key < list.levels[level][j].key)
    {
      assert list.LevelOk(level);
      assert j > 0 ==> KeyBefore(list.levels[level], j - 1, j);
    }

    lemma LevelZeroAscends()
      requires list.Valid()
      ensures |list.levels| == MAX_HEIGHT && Ascending(list.levels[0])
    {
      assert list.LevelOk(0);
    }

    lemma StandsBelow()
      requires list.Valid() && ReaderOk() && level > 0
      ensures at == list.head || at in list.levels[level - 1]
    {
      assert list.Under(level - 1);
    }
  }

  // Nodes stay in a level that gets one more.
  lemma StillIn(levels: seq<seq<Node>>, x: Node, l: nat)
    requires l < |levels|
    ensures forall m {:trigger levels[m]} :: 0 <= m < |levels| ==> AllIn(levels[m], levels[l := Inserted(levels[l], x)][m])
  {
    InsertedHas(levels[l], x);
  }

  // The first node at or after a key, null when there is none.
  function FirstAtLeast(ns: seq<Node>, key: UserKey): Node? {
    if Pos(ns, key) < |ns| then ns[Pos(ns, key)] else null
  }

  /** The first node at or after a key is the least one: nothing before it is. */
  lemma FirstIsLeast(ns: seq<Node>, key: UserKey)
    requires Ascending(ns)
    ensures var n := FirstAtLeast(ns, key);
            && (n != null ==> n in ns && n.key >= key)
            && forall i :: 0 <= i < |ns| && ns[i].key >= key ==> n != null && n.key <= ns[i].key
  {
    forall i | 0 <= i < |ns| && ns[i].key >= key
      ensures FirstAtLeast(ns, key) != null && ns[Pos(ns, key)].key <= ns[i].key
    {
      PosSplits(ns, key, i);
      KeysAscend(ns, Pos(ns, key), i);
    }
  }

  method TakeTurn(c: Interleaving, turn: Turn)
    requires c.Valid()
    modifies c, c.list, c.list.nodes
    ensures c.Valid() && fresh(c.list.nodes - old(c.list.nodes)) && AllIn(old(c.list.levels[0]), c.list.levels[0])
    ensures old(c.done) ==> c.done && c.seen == old(c.seen) && c.result == old(c.result)
    ensures !old(c.done) && c.done ==> c.seen == old(c.list.levels[0]) == c.list.levels[0]
    ensures Proper(old(c.Machine())) && c.Machine() == Next(old(c.Machine()), turn, c.target)
  {
    hide Interleaving.Valid, Pos, SkipList.LevelOk, SkipList.Under, Keys;
    c.IsProper();
    match turn {
      case Begin(key, height) =>
        if c.inserting == null && 1 <= height <= MAX_HEIGHT {
          c.ListValid();
          var present := c.list.Contains(key);
          if !present {
            c.StartInsert(key, height);
          }
        }
      case Store =>
        if c.inserting != null {
          c.StoreNext();
        }
      case Look =>
        if !c.done {
          c.LookOnce();
        }
    }
  }

  /** A search whose steps alternate in any way with those of insertions: when it has ended, it returned the least
      key at or after the target among those linked when it reached level 0. What was linked when it began was among
      those, and all of them still are. */
  method Run(list: SkipList, target: UserKey, turns: seq<Turn>) returns (c: Interleaving)
    requires list.Valid()
    modifies list, list.nodes
    ensures c.Valid() && c.list == list && c.target == target
    ensures c.done ==> AllIn(old(list.levels[0]), c.seen) && AllIn(c.seen, list.levels[0]) && c.result == FirstAtLeast(c.seen, target)
    ensures c.done ==> c.result != null ==> c.result.key >= target && forall n :: n in c.seen && n.key >= target ==> c.result.key <= n.key
    ensures c.done && c.result == null ==> forall n :: n in c.seen ==> n.key < target
    ensures c.Machine() == After(State(LevelKeys(old(list.levels)), Idle, On(None, old(list.maxHeight) - 1)), turns, target)
  {
    hide Pos, SkipList.LevelOk, SkipList.Under, Interleaving.WriterOk, FirstAtLeast, Keys;
    c := new Interleaving(list, target);
    c.IsProper();
    ghost var start, first := list.levels[0], c.Machine();
    for i := 0 to |turns|
      invariant fresh(c) && c.list == list && c.target == target && c.Valid() && fresh(list.nodes - old(list.nodes))
      invariant AllIn(start, list.levels[0]) && (c.done ==> AllIn(start, c.seen))
      invariant c.Machine() == After(first, turns[..i], target)
    {
      TakeTurn(c, turns[i]);
      assert turns[..i + 1][..i] == turns[..i];
    }
    assert turns[..|turns|] == turns;
    if c.done {
      FirstIsLeast(c.seen, target);
    }
  }
}
