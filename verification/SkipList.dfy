/** The skip list of the memtable: searching it, and inserting a node one pointer store at a time. */
module SkipLists {
  import opened InternalKeys

  const MAX_HEIGHT := 12

  class Node {
    const key: UserKey
    // Link to the next node, at each level up to the node's height.
    var next: seq<Node?>

    constructor (key: UserKey, height: nat)
      ensures this.key == key && |next| == height
    {
      this.key := key;
      next := seq(height, _ => null);
    }
  }

  // ----- nodes of a level -----

  ghost predicate KeyBefore(ns: seq<Node>, i: nat, j: nat)
    requires i < j < |ns|
  {
    ns[i].key < ns[j].key
  }

  ghost predicate Ascending(ns: seq<Node>) {
    forall i, j {:trigger KeyBefore(ns, i, j)} :: 0 <= i < j < |ns| ==> KeyBefore(ns, i, j)
  }

  // How many nodes come before a key.
  function Pos(ns: seq<Node>, key: UserKey): (p: nat)
    ensures p <= |ns|
    ensures p < |ns| ==> key <= ns[p].key
    ensures forall i :: 0 <= i < p ==> ns[i].key < key
  {
    if ns != [] && ns[0].key < key then 1 + Pos(ns[1..], key) else 0
  }

  // In ascending order, all nodes from that position on are at or after the key.
  lemma PosSplits(ns: seq<Node>, key: UserKey, i: nat)
    requires Ascending(ns) && i < |ns|
    ensures i < Pos(ns, key) <==> ns[i].key < key
  {
    var p := Pos(ns, key);
    if p < i {
      assert KeyBefore(ns, p, i);
    }
  }

  // The nodes with one more in its place.
  function Inserted(ns: seq<Node>, x: Node): (r: seq<Node>)
    ensures |r| == |ns| + 1
  {
    var p := Pos(ns, x.key);
    ns[..p] + [x] + ns[p..]
  }

  lemma InsertedHas(ns: seq<Node>, x: Node)
    ensures x in Inserted(ns, x) && forall n :: n in Inserted(ns, x) <==> n in ns || n == x
  {
    var p := Pos(ns, x.key);
    assert ns == ns[..p] + ns[p..];
  }

  lemma InsertedAt(ns: seq<Node>, x: Node, k: nat)
    requires k <= |ns|
    ensures var p := Pos(ns, x.key); Inserted(ns, x)[k] == if k < p then ns[k] else if k == p then x else ns[k - 1]
  {
  }

  // The nodes on either side of a link, before and after the insertion: only one node's link changes.
  lemma InsertedNeighbours(ns: seq<Node>, x: Node, j: nat)
    requires Ascending(ns) && j <= |ns| + 1
    ensures var p, r := Pos(ns, x.key), Inserted(ns, x);
            && (j <= p ==> (j > 0 ==> r[j - 1] == ns[j - 1]) && (j < p ==> r[j] == ns[j]) && r[p] == x)
            && (j > p ==> (j > p + 1 ==> r[j - 1] == ns[j - 2]) && r[p] == x && (j <= |ns| ==> r[j] == ns[j - 1]))
            && (0 < j < p ==> ns[j - 1] != ns[p - 1]) && (0 < p && j > p + 1 ==> ns[j - 2] != ns[p - 1])
  {
    hide Pos, Inserted;
    var p := Pos(ns, x.key);
    InsertedAt(ns, x, p);
    InsertedAt(ns, x, if j <= |ns| then j else 0);
    InsertedAt(ns, x, if j > 0 then j - 1 else 0);
    if 0 < j < p {
      Distinct(ns, j - 1, p - 1);
    }
    if 0 < p && j > p + 1 {
      Distinct(ns, j - 2, p - 1);
    }
  }

  // Nodes before where the new one goes have smaller keys, those after it larger ones.
  lemma InsertedSplits(ns: seq<Node>, x: Node, k: nat)
    requires Ascending(ns) && NewKey(ns, x.key) && k <= |ns|
    ensures var p := Pos(ns, x.key);
            (k < p ==> Inserted(ns, x)[k].key < x.key) && (k > p ==> x.key < Inserted(ns, x)[k].key)
  {
    hide Inserted, Pos;
    var p := Pos(ns, x.key);
    InsertedAt(ns, x, k);
    assert p < k - 1 ==> KeyBefore(ns, p, k - 1);
  }

  ghost predicate NewKey(ns: seq<Node>, key: UserKey) {
    Pos(ns, key) < |ns| ==> ns[Pos(ns, key)].key != key
  }

  lemma InsertedAscends(ns: seq<Node>, x: Node)
    requires Ascending(ns) && NewKey(ns, x.key)
    ensures Ascending(Inserted(ns, x))
  {
    hide Inserted, Pos, NewKey;
    var p, r := Pos(ns, x.key), Inserted(ns, x);
    forall i, j {:trigger KeyBefore(r, i, j)} | 0 <= i < j < |r|
      ensures KeyBefore(r, i, j)
    {
      InsertedAt(ns, x, i);
      InsertedAt(ns, x, j);
      InsertedSplits(ns, x, i);
      InsertedSplits(ns, x, j);
      assert j < p ==> KeyBefore(ns, i, j);
      assert p < i ==> KeyBefore(ns, i - 1, j - 1);
    }
  }

  lemma KeysAscend(ns: seq<Node>, i: nat, j: nat)
    requires Ascending(ns) && i < |ns| && j < |ns|
    ensures i < j <==> ns[i].key < ns[j].key
  {
    assert i < j ==> KeyBefore(ns, i, j);
    assert j < i ==> KeyBefore(ns, j, i);
  }

  lemma Distinct(ns: seq<Node>, i: nat, j: nat)
    requires Ascending(ns) && i < |ns| && j < |ns| && i != j
    ensures ns[i] != ns[j]
  {
    assert i < j ==> KeyBefore(ns, i, j);
    assert j < i ==> KeyBefore(ns, j, i);
  }

  function Keys(ns: seq<Node>): (ks: seq<UserKey>)
    ensures |ks| == |ns|
  {
    seq(|ns|, i requires 0 <= i < |ns| => ns[i].key)
  }

  function Find(ns: seq<Node>, x: Node): (i: nat)
    requires x in ns
    ensures i < |ns| && ns[i] == x
  {
    if ns[0] == x then 0 else 1 + Find(ns[1..], x)
  }

  // ----- the list -----

  class SkipList {
    const head: Node
    var maxHeight: nat
    ghost var levels: seq<seq<Node>>
    ghost var nodes: set<Node>

    // The node before position j of a level, and the one at it.
    ghost function NodeBefore(l: nat, j: nat): Node
      reads `levels
      requires l < |levels| && j <= |levels[l]|
    {
      if j == 0 then head else levels[l][j - 1]
    }

    ghost function NodeAt(l: nat, j: nat): Node?
      reads `levels
      requires l < |levels| && j <= |levels[l]|
    {
      if j < |levels[l]| then levels[l][j] else null
    }

    ghost predicate Linked(l: nat, j: nat)
      reads `levels, `nodes, nodes
      requires l < |levels| && j <= |levels[l]|
    {
      NodeBefore(l, j) in nodes && l < |NodeBefore(l, j).next| && NodeBefore(l, j).next[l] == NodeAt(l, j)
    }

    ghost predicate LevelOk(l: nat)
      reads `levels, `nodes, nodes
      requires l < |levels|
    {
      && Ascending(levels[l])
      && (forall n :: n in levels[l] ==> n in nodes && n != head)
      && (forall j {:trigger Linked(l, j)} :: 0 <= j <= |levels[l]| ==> Linked(l, j))
    }

    // Every node of the level above is on this one.
    ghost predicate Under(l: nat)
      reads `levels
      requires l + 1 < |levels|
    {
      forall n :: n in levels[l + 1] ==> n in levels[l]
    }

    ghost predicate Valid()
      reads this, nodes
    {
      && |levels| == MAX_HEIGHT && 1 <= maxHeight <= MAX_HEIGHT && head in nodes && |head.next| == MAX_HEIGHT
      && (forall l {:trigger LevelOk(l)} :: 0 <= l < MAX_HEIGHT ==> LevelOk(l))
      && (forall l {:trigger Under(l)} :: 0 <= l < MAX_HEIGHT - 1 ==> Under(l))
      && (forall l :: maxHeight <= l < MAX_HEIGHT ==> levels[l] == [])
    }

    // The keys in the list, in order.
    ghost function Contents(): seq<UserKey>
      reads `levels
      requires |levels| > 0
    {
      Keys(levels[0])
    }

    constructor ()
      ensures Valid() && Contents() == [] && fresh(nodes)
    {
      head := new Node(0.0, MAX_HEIGHT);
      maxHeight := 1;
      levels := seq(MAX_HEIGHT, _ => []);
      new;
      nodes := {head};
      var i := 0;
      while i < MAX_HEIGHT
        invariant 0 <= i <= MAX_HEIGHT && |head.next| == MAX_HEIGHT && forall j :: 0 <= j < i ==> head.next[j] == null
        modifies head
      {
        head.next := head.next[i := null];
        i := i + 1;
      }
    }

    // ----- searching -----

    static predicate KeyIsAfterNode(key: UserKey, n: Node?) {
      n != null && n.key < key
    }

    // The node x is the one before position j of the level.
    ghost predicate Stands(x: Node, l: nat, j: nat)
      reads `levels
    {
      l < |levels| && j <= |levels[l]| && x == NodeBefore(l, j)
    }

    // Where a node of a level is on the level below.
    lemma OneDown(x: Node, l: nat, j: nat) returns (i: nat)
      requires Valid() && 0 < l < MAX_HEIGHT && Stands(x, l, j)
      ensures Stands(x, l - 1, i)
    {
      if j == 0 {
        i := 0;
      } else {
        assert Under(l - 1) && x in levels[l];
        i := Find(levels[l - 1], x) + 1;
      }
    }

    // The next node on the level; the key is after it just when its position is not the key's.
    method Follow(x: Node, l: nat, ghost j: nat, ghost key: UserKey) returns (next: Node?)
      requires Valid() && l < MAX_HEIGHT && Stands(x, l, j) && j <= Pos(levels[l], key)
      ensures next == NodeAt(l, j) && (next != null && next.key < key <==> j < Pos(levels[l], key))
    {
      assert LevelOk(l) && Linked(l, j);
      if j < |levels[l]| {
        PosSplits(levels[l], key, j);
      }
      next := x.next[l];
    }

    // The same node on the level below: it is not past the key there.
    lemma Descend(x: Node, l: nat, j: nat, key: UserKey) returns (i: nat)
      requires Valid() && 0 < l < MAX_HEIGHT && Stands(x, l, j) && j <= Pos(levels[l], key)
      ensures Stands(x, l - 1, i) && i <= Pos(levels[l - 1], key)
    {
      i := OneDown(x, l, j);
      assert LevelOk(l - 1);
      if i > 0 {
        PosSplits(levels[l - 1], key, i - 1);
        assert j > 0 by {
          assert LevelOk(l - 1);
        }
      }
    }

    /** The first node at or after the key, and on each level in use the node before where it belongs. */
    method FindGreaterOrEqual(key: UserKey, prev: array?<Node>) returns (n: Node?)
      requires Valid() && (prev != null ==> prev.Length == MAX_HEIGHT)
      modifies prev
      ensures n == NodeAt(0, Pos(levels[0], key))
      ensures prev != null ==> forall l :: 0 <= l < maxHeight ==> prev[l] == NodeBefore(l, Pos(levels[l], key))
    {
      hide Pos, LevelOk, Under;
      var x: Node, level: nat := head, maxHeight - 1;
      ghost var j: nat := 0;
      while true
        invariant 0 <= level < maxHeight && Stands(x, level, j) && j <= Pos(levels[level], key)
        invariant prev != null ==> forall l :: level < l < maxHeight ==> prev[l] == NodeBefore(l, Pos(levels[l], key))
        decreases level, |levels[level]| - j
      {
        var next := Follow(x, level, j, key);
        if KeyIsAfterNode(key, next) {
          x, j := next, j + 1;
        } else {
          if prev != null {
            prev[level] := x;
          }
          if level == 0 {
            return next;
          }
          j := Descend(x, level, j, key);
          level := level - 1;
        }
      }
    }

    /** The last node before the key, the head when there is none. */
    method FindLessThan(key: UserKey) returns (x: Node)
      requires Valid()
      ensures x == NodeBefore(0, Pos(levels[0], key))
    {
      hide Pos, LevelOk, Under;
      var level: nat := maxHeight - 1;
      x := head;
      ghost var j: nat := 0;
      while true
        invariant 0 <= level < maxHeight && Stands(x, level, j) && j <= Pos(levels[level], key)
        decreases level, |levels[level]| - j
      {
        var next := Follow(x, level, j, key);
        if next == null || next.key >= key {
          if level == 0 {
            return;
          }
          j := Descend(x, level, j, key);
          level := level - 1;
        } else {
          x, j := next, j + 1;
        }
      }
    }

    /** The last node, the head when the list is empty. */
    method FindLast() returns (x: Node)
      requires Valid()
      ensures x == NodeBefore(0, |levels[0]|)
    {
      hide LevelOk, Under;
      var level: nat := maxHeight - 1;
      x := head;
      ghost var j: nat := 0;
      while true
        invariant 0 <= level < maxHeight && Stands(x, level, j)
        decreases level, |levels[level]| - j
      {
        var next := Next(x, level, j);
        if next == null {
          if level == 0 {
            return;
          }
          j := OneDown(x, level, j);
          level := level - 1;
        } else {
          x, j := next, j + 1;
        }
      }
    }

    method Next(x: Node, l: nat, ghost j: nat) returns (next: Node?)
      requires Valid() && l < MAX_HEIGHT && Stands(x, l, j)
      ensures next == NodeAt(l, j)
    {
      assert LevelOk(l) && Linked(l, j);
      next := x.next[l];
    }

    method Contains(key: UserKey) returns (found: bool)
      requires Valid()
      ensures found <==> key in Contents()
    {
      assert LevelOk(0);
      var x := FindGreaterOrEqual(key, null);
      found := x != null && x.key == key;
      ghost var ns := levels[0];
      assert found ==> Contents()[Pos(ns, key)] == key;
      if key in Contents() {
        var i :| 0 <= i < |ns| && Contents()[i] == key;
        PosSplits(ns, key, i);
        KeysAscend(ns, Pos(ns, key), i);
      }
    }

    // ----- inserting -----

    // A node that is in the list up to, but not including, level l, with its link for that level set.
    ghost predicate ReadyToLink(x: Node, l: nat)
      reads this, nodes, x
      requires Valid() && l < MAX_HEIGHT
    {
      && x in nodes && x != head && l < |x.next| && l < maxHeight && x !in levels[l]
      && (l > 0 ==> x in levels[l - 1])
      && NodeAt(l, Pos(levels[l], x.key)) == x.next[l] && NewKey(levels[l], x.key)
    }

    // The first store: the new node's own link. No search can see it yet.
    method SetOwnLink(x: Node, l: nat, next: Node?)
      requires Valid() && x in nodes && x != head && l < MAX_HEIGHT && l < |x.next| && x !in levels[l]
      modifies x`next
      ensures Valid() && |x.next| == |old(x.next)| && x.next[l] == next
    {
      x.next := x.next[l := next];
      forall m {:trigger LevelOk(m)} | 0 <= m < MAX_HEIGHT
        ensures LevelOk(m)
      {
        assert old(LevelOk(m));
        forall j {:trigger Linked(m, j)} | 0 <= j <= |levels[m]|
          ensures Linked(m, j)
        {
          assert old(Linked(m, j));
          assert m == l && j > 0 ==> levels[l][j - 1] in levels[l];
        }
      }
      forall m {:trigger Under(m)} | 0 <= m < MAX_HEIGHT - 1
        ensures Under(m)
      {
        assert old(Under(m));
      }
    }

    /** The second store, which puts the node into the level. The list is as it should be before and after. */
    method Publish(before: Node, x: Node, l: nat)
      requires Valid() && l < MAX_HEIGHT && ReadyToLink(x, l) && before == NodeBefore(l, Pos(levels[l], x.key))
      modifies before`next, this`levels
      ensures Valid() && |before.next| == |old(before.next)|
      ensures levels == old(levels)[l := Inserted(old(levels[l]), x)]
    {
      hide Pos, Inserted, NewKey;
      ghost var ns, p := levels[l], Pos(levels[l], x.key);
      assert LevelOk(l) && Linked(l, p);
      before.next := before.next[l := x];
      levels := levels[l := Inserted(levels[l], x)];
      forall m {:trigger LevelOk(m)} | 0 <= m < MAX_HEIGHT && m != l
        ensures LevelOk(m)
      {
        assert old(LevelOk(m));
        forall j {:trigger Linked(m, j)} | 0 <= j <= |levels[m]|
          ensures Linked(m, j)
        {
          assert old(Linked(m, j));
        }
      }
      InsertedHas(ns, x);
      InsertedAscends(ns, x);
      forall j {:trigger Linked(l, j)} | 0 <= j <= |levels[l]|
        ensures Linked(l, j)
      {
        assert old(Linked(l, if j <= p then j else j - 1));
        InsertedNeighbours(ns, x, j);
      }
      forall m {:trigger Under(m)} | 0 <= m < MAX_HEIGHT - 1
        ensures Under(m)
      {
        assert old(Under(m));
      }
    }

    lemma OnLevelZero(n: Node, l: nat)
      requires Valid() && l < MAX_HEIGHT && n in levels[l]
      ensures n in levels[0]
    {
      if l > 0 {
        assert Under(l - 1);
        OnLevelZero(n, l - 1);
      }
    }

    // A key that is not in the list is new on every level.
    lemma NewOnAll(key: UserKey, l: nat)
      requires Valid() && l < MAX_HEIGHT && key !in Contents()
      ensures NewKey(levels[l], key)
    {
      var p := Pos(levels[l], key);
      if p < |levels[l]| {
        var n := levels[l][p];
        OnLevelZero(n, l);
        assert Contents()[Find(levels[0], n)] == n.key;
      }
    }

    // What Insert has done so far: the node is on the levels below l.
    ghost predicate InsertedBelow(was: seq<seq<Node>>, x: Node, l: nat)
      reads `levels
    {
      && |was| == |levels| == MAX_HEIGHT
      && (forall m :: 0 <= m < l && m < MAX_HEIGHT ==> levels[m] == Inserted(was[m], x))
      && (forall m :: l <= m < MAX_HEIGHT ==> levels[m] == was[m])
    }

    // The nodes to link after, on the levels still to do.
    ghost predicate LinksReady(prev: seq<Node>, key: UserKey, l: nat, height: nat)
      reads `levels
    {
      && |prev| == |levels| == MAX_HEIGHT
      && forall m :: l <= m < height && m < MAX_HEIGHT ==> prev[m] == NodeBefore(m, Pos(levels[m], key))
    }

    /** Add a key that is not in the list. Between any two stores the list is as it should be. */
    method Insert(key: UserKey, height: nat)
      requires Valid() && key !in Contents() && 1 <= height <= MAX_HEIGHT
      modifies this, nodes
      ensures Valid() && fresh(nodes - old(nodes))
      ensures var p := Pos(old(levels[0]), key); Contents() == old(Contents())[..p] + [key] + old(Contents())[p..]
    {
      hide Pos, Keys, NewKey;
      var prev := FindSplice(key, height);
      ghost var was := levels;
      var x := AllocateNode(key, height);
      ghost var links := prev[..];
      forall m | 0 <= m < MAX_HEIGHT
        ensures NewKey(levels[m], key)
      {
        NewOnAll(key, m);
      }
      var i := 0;
      while i < height
        invariant 0 <= i <= height && Valid() && x in nodes && x != head && |x.next| == height <= maxHeight && x.key == key
        invariant nodes == old(nodes) + {x} && prev[..] == links
        invariant InsertedBelow(was, x, i) && LinksReady(links, key, i, height)
        invariant forall m :: i <= m < MAX_HEIGHT ==> x !in levels[m] && NewKey(levels[m], key)
      {
        assert LevelOk(i) && Linked(i, Pos(levels[i], key)) && prev[i] == links[i];
        LinkLevel(prev[i], x, i, was);
        i := i + 1;
      }
      InsertedKeys(was[0], x);
    }

    // The nodes to link after, the head on levels that were not in use.
    method FindSplice(key: UserKey, height: nat) returns (prev: array<Node>)
      requires Valid() && 1 <= height <= MAX_HEIGHT
      modifies this`maxHeight
      ensures Valid() && height <= maxHeight && fresh(prev) && prev.Length == MAX_HEIGHT && LinksReady(prev[..], key, 0, height)
    {
      prev := new Node[MAX_HEIGHT](_ => head);
      var _ := FindGreaterOrEqual(key, prev);
      if height > maxHeight {
        for i := maxHeight to height
          invariant forall l :: 0 <= l < i ==> prev[l] == NodeBefore(l, Pos(levels[l], key))
        {
          prev[i] := head;
        }
        maxHeight := height;
      }
    }

    // A node that nothing points to changes nothing.
    method AllocateNode(key: UserKey, height: nat) returns (x: Node)
      requires Valid() && height <= MAX_HEIGHT
      modifies this`nodes
      ensures Valid() && fresh(x) && nodes == old(nodes) + {x} && x != head && |x.next| == height && x.key == key
      ensures forall m :: 0 <= m < MAX_HEIGHT ==> x !in levels[m]
    {
      x := new Node(key, height);
      forall m | 0 <= m < MAX_HEIGHT
        ensures x !in levels[m]
      {
        assert old(LevelOk(m));
      }
      nodes := nodes + {x};
      forall m {:trigger LevelOk(m)} | 0 <= m < MAX_HEIGHT
        ensures LevelOk(m)
      {
        assert old(LevelOk(m));
        forall j {:trigger Linked(m, j)} | 0 <= j <= |levels[m]|
          ensures Linked(m, j)
        {
          assert old(Linked(m, j));
        }
      }
    }

    // Both stores of one level.
    method LinkLevel(before: Node, x: Node, l: nat, ghost was: seq<seq<Node>>)
      requires Valid() && x in nodes && x != head && l < |x.next| <= maxHeight && x !in levels[l] && NewKey(levels[l], x.key)
      requires InsertedBelow(was, x, l) && before == NodeBefore(l, Pos(levels[l], x.key))
      modifies x`next, before`next, this`levels
      ensures Valid() && |x.next| == |old(x.next)| && levels == old(levels)[l := Inserted(old(levels[l]), x)]
      ensures InsertedBelow(was, x, l + 1)
    {
      ghost var p := Pos(levels[l], x.key);
      assert LevelOk(l) && Linked(l, p);
      if l > 0 {
        InsertedHas(was[l - 1], x);
      }
      SetOwnLink(x, l, before.next[l]);
      Publish(before, x, l);
    }
  }

  lemma InsertedKeys(ns: seq<Node>, x: Node)
    ensures var p := Pos(ns, x.key); Keys(Inserted(ns, x)) == Keys(ns)[..p] + [x.key] + Keys(ns)[p..]
  {
  }

  /** Iteration over the list, forwards by links and backwards by searching. */
  class Iterator {
    const list: SkipList
    var node: Node?
    ghost var pos: nat   // position of the node; the length of the list when there is none

    ghost predicate Valid()
      reads this, list, list.nodes
    {
      list.Valid() && pos <= |list.Contents()| && node == list.NodeAt(0, pos)
    }

    constructor (list: SkipList)
      requires list.Valid()
      ensures Valid() && this.list == list && pos == |list.Contents()|
    {
      this.list, node, pos := list, null, |list.Contents()|;
    }

    method SeekToFirst()
      requires Valid()
      modifies this
      ensures Valid() && pos == 0
    {
      node := list.Next(list.head, 0, 0);
      pos := 0;
    }

    method SeekToLast()
      requires Valid()
      modifies this
      ensures Valid() && pos == if |list.Contents()| == 0 then 0 else |list.Contents()| - 1
    {
      var x := list.FindLast();
      node := x;
      pos := if |list.Contents()| == 0 then 0 else |list.Contents()| - 1;
      assert list.LevelOk(0);
      if x == list.head {
        node := null;
      }
    }

    method Seek(target: UserKey)
      requires Valid()
      modifies this
      ensures Valid() && (forall i :: 0 <= i < pos ==> list.Contents()[i] < target)
      ensures pos < |list.Contents()| ==> target <= list.Contents()[pos]
    {
      node := list.FindGreaterOrEqual(target, null);
      pos := Pos(list.levels[0], target);
    }

    method Next()
      requires Valid() && node != null
      modifies this
      ensures Valid() && pos == old(pos) + 1
    {
      node := list.Next(node, 0, pos + 1);
      pos := pos + 1;
    }

    method Prev()
      requires Valid() && node != null
      modifies this
      ensures Valid() && pos == if old(pos) == 0 then |list.Contents()| else old(pos) - 1
    {
      assert list.LevelOk(0);
      var x := list.FindLessThan(node.key);
      PosOfNode(list.levels[0], pos);
      node := x;
      pos := if pos == 0 then |list.Contents()| else pos - 1;
      if x == list.head {
        node := null;
      }
    }
  }

  lemma PosOfNode(ns: seq<Node>, i: nat)
    requires Ascending(ns) && i < |ns|
    ensures Pos(ns, ns[i].key) == i
  {
    PosSplits(ns, ns[i].key, i);
    KeysAscend(ns, Pos(ns, ns[i].key), i);
  }
}
