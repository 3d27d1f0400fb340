/** The hash table of the block cache: buckets of handles chained through the handles themselves. */
module HandleTables {
  import opened Bytes
  import opened LRUHandles

  predicate Matches(e: LRUHandle, key: Key, hash: Word) {
    e.hash == hash && e.key == key
  }

  // ----- choosing a bucket -----

  predicate PowerOfTwo(n: nat) {
    n == 1 || (n > 1 && n % 2 == 0 && PowerOfTwo(n / 2))
  }

  // The bits that two numbers have in common.
  function And(x: nat, y: nat): nat {
    if x == 0 || y == 0 then 0 else (x % 2) * (y % 2) + 2 * And(x / 2, y / 2)
  }

  // Where a hash belongs, of n buckets: at its bits below n.
  function Home(hash: nat, n: nat): (b: nat)
    requires n > 0
    ensures b < n
  {
    AndIsSmall(hash, n - 1);
    And(hash, n - 1)
  }

  lemma {:induction false} AndIsSmall(x: nat, y: nat)
    ensures And(x, y) <= y
  {
    if x != 0 && y != 0 {
      AndIsSmall(x / 2, y / 2);
    }
  }

  /** With a power of two, every bucket is some hash's. */
  lemma {:induction false} EveryBucketIsHome(b: nat, n: nat)
    requires PowerOfTwo(n) && b < n
    ensures Home(b, n) == b
  {
    if b > 0 {
      assert (n - 1) % 2 == 1 && (n - 1) / 2 == n / 2 - 1;
      EveryBucketIsHome(b / 2, n / 2);
    }
  }

  // ----- chains -----

  // What the slot in front of position i of a chain holds.
  function NodeAt(c: seq<LRUHandle>, i: nat): LRUHandle? {
    if i < |c| then c[i] else null
  }

  // The node whose slot that is; the bucket's own when there is none.
  function NodeBefore(c: seq<LRUHandle>, i: nat): LRUHandle?
    requires i <= |c|
  {
    if i == 0 then null else c[i - 1]
  }

  ghost predicate LinkAt(c: seq<LRUHandle>, i: nat)
    requires i < |c|
    reads c`nextHash
  {
    c[i].nextHash == NodeAt(c, i + 1)
  }

  // The nodes from a slot that holds the first of them on.
  ghost predicate Chain(first: LRUHandle?, c: seq<LRUHandle>)
    reads c`nextHash
  {
    first == NodeAt(c, 0) && forall i {:trigger LinkAt(c, i)} :: 0 <= i < |c| ==> LinkAt(c, i)
  }

  // No two nodes are of the same key.
  predicate Different(c: seq<LRUHandle>) {
    forall i, j :: 0 <= i < j < |c| ==> !Matches(c[i], c[j].key, c[j].hash)
  }

  // The nodes belong in bucket b of n.
  predicate AtHome(c: seq<LRUHandle>, b: nat, n: nat)
    requires n > 0
  {
    forall i :: 0 <= i < |c| ==> Home(c[i].hash, n) == b
  }

  // The index of the first node of the key; the chain's length when there is none.
  function Find(c: seq<LRUHandle>, key: Key, hash: Word): (i: nat)
    ensures i <= |c| && (i < |c| ==> Matches(c[i], key, hash))
    ensures forall j :: 0 <= j < i ==> !Matches(c[j], key, hash)
  {
    if c == [] || Matches(c[0], key, hash) then 0 else 1 + Find(c[1..], key, hash)
  }

  // Follow a chain to the node of the key.
  method FindInChain(first: LRUHandle?, key: Key, hash: Word, ghost c: seq<LRUHandle>) returns (prev: LRUHandle?, at: LRUHandle?, ghost i: nat)
    requires Chain(first, c)
    ensures i == Find(c, key, hash) && at == NodeAt(c, i) && prev == NodeBefore(c, i)
  {
    prev, at, i := null, first, 0;
    while at != null && !Matches(at, key, hash)
      invariant i <= |c| && at == NodeAt(c, i) && prev == NodeBefore(c, i)
      invariant forall j :: 0 <= j < i ==> !Matches(c[j], key, hash)
      decreases |c| - i
    {
      assert LinkAt(c, i);
      prev := at;
      at := at.nextHash;
      i := i + 1;
    }
    FindIs(c, key, hash, i);
  }

  // Store v in a slot of a chain, where `tail` begins at v.
  method Link(list: array<LRUHandle?>, b: nat, prev: LRUHandle?, v: LRUHandle?, ghost c: seq<LRUHandle>, ghost i: nat, ghost tail: seq<LRUHandle>)
    requires b < list.Length && i <= |c| && prev == NodeBefore(c, i)
    requires Chain(list[b], c) && Different(c) && Chain(v, tail) && (prev != null ==> prev !in tail)
    modifies list, (if prev == null then {} else {prev})`nextHash
    ensures Chain(list[b], c[..i] + tail)
    ensures forall a :: 0 <= a < list.Length && a != b ==> list[a] == old(list[a])
    ensures prev != null ==> list[b] == old(list[b])
  {
    ghost var was := list[b];
    assert forall j :: 0 <= j < |c| ==> LinkAt(c, j);
    assert forall j :: 0 <= j < |tail| ==> LinkAt(tail, j);
    if prev == null {
      list[b] := v;
    } else {
      prev.nextHash := v;
    }
    ghost var now := c[..i] + tail;
    forall j {:trigger LinkAt(now, j)} | 0 <= j < |now|
      ensures LinkAt(now, j)
    {
      if j < i {
        assert old(LinkAt(c, j));
        assert !Matches(c[j], c[i - 1].key, c[i - 1].hash) || j == i - 1;
      } else {
        assert old(LinkAt(tail, j - i));
      }
    }
  }

  // ----- buckets -----

  ghost predicate Within(c: seq<LRUHandle>, nodes: set<LRUHandle>) {
    forall i :: 0 <= i < |c| ==> c[i] in nodes
  }

  ghost predicate BucketOk(c: seq<LRUHandle>, b: nat, n: nat, nodes: set<LRUHandle>)
    requires n > 0
  {
    Within(c, nodes) && Different(c) && AtHome(c, b, n)
  }

  // The nodes are those in the chains, each in the bucket that its hash leads to.
  ghost predicate Partition(chains: seq<seq<LRUHandle>>, nodes: set<LRUHandle>)
    requires |chains| > 0
  {
    && (forall b {:trigger chains[b]} :: 0 <= b < |chains| ==> BucketOk(chains[b], b, |chains|, nodes))
    && (forall e {:trigger e in nodes} :: e in nodes ==> e in chains[Home(e.hash, |chains|)])
  }

  // One bucket changed.
  lemma PartitionChanged(chains: seq<seq<LRUHandle>>, nodes: set<LRUHandle>, b: nat, c: seq<LRUHandle>, now: set<LRUHandle>)
    requires b < |chains| && Partition(chains, nodes) && Different(c) && AtHome(c, b, |chains|)
    requires forall e {:trigger e in now} :: e in now <==> if Home(e.hash, |chains|) == b then e in c else e in nodes
    ensures Partition(chains[b := c], now)
  {
    var chains' := chains[b := c];
    forall a {:trigger chains'[a]} | 0 <= a < |chains'|
      ensures BucketOk(chains'[a], a, |chains'|, now)
    {
      assert BucketOk(chains[a], a, |chains|, nodes);
      forall k | 0 <= k < |chains'[a]|
        ensures chains'[a][k] in now
      {
        assert chains'[a][k] in chains'[a];
      }
    }
  }

  // Buckets have no nodes in common.
  lemma Apart(chains: seq<seq<LRUHandle>>, nodes: set<LRUHandle>, a: nat, b: nat, e: LRUHandle)
    requires a < |chains| && b < |chains| && Partition(chains, nodes) && e in chains[a] && e in chains[b]
    ensures a == b
  {
    assert BucketOk(chains[a], a, |chains|, nodes) && BucketOk(chains[b], b, |chains|, nodes);
  }

  ghost predicate Linked(list: array<LRUHandle?>, chains: seq<seq<LRUHandle>>, nodes: set<LRUHandle>)
    requires list.Length == |chains|
    reads list, nodes`nextHash
  {
    forall b {:trigger chains[b]} :: 0 <= b < |chains| ==> Within(chains[b], nodes) && Chain(list[b], chains[b])
  }

  class HandleTable {
    var length: nat
    var elems: nat
    var list: array<LRUHandle?>
    ghost var chains: seq<seq<LRUHandle>>
    ghost var nodes: set<LRUHandle>

    ghost predicate Buckets()
      reads `length, `list, `chains, `nodes, list, nodes`nextHash
    {
      length == list.Length == |chains| > 0 && PowerOfTwo(length) && Linked(list, chains, nodes) && Partition(chains, nodes)
    }

    ghost predicate Valid()
      reads this, list, nodes`nextHash
    {
      Buckets() && elems == |nodes| <= length
    }

    constructor ()
      ensures Valid() && nodes == {} && fresh(list)
    {
      var newList := new LRUHandle?[4](_ => null);
      length, elems, list := 4, 0, newList;
      chains, nodes := [[], [], [], []], {};
    }

    // The slot that holds the node of the key, or the last one of its bucket.
    method FindPointer(key: Key, hash: Word) returns (b: nat, prev: LRUHandle?, at: LRUHandle?, ghost i: nat)
      requires Valid()
      ensures b == Home(hash, length) < |chains| && i == Find(chains[b], key, hash)
      ensures at == NodeAt(chains[b], i) && prev == NodeBefore(chains[b], i)
    {
      hide Partition, Chain;
      b := Home(hash, length);
      prev, at, i := FindInChain(list[b], key, hash, chains[b]);
    }

    method Lookup(key: Key, hash: Word) returns (e: LRUHandle?)
      requires Valid()
      ensures e != null ==> e in nodes && Matches(e, key, hash)
      ensures e == null ==> forall a {:trigger a in nodes} :: a in nodes ==> !Matches(a, key, hash)
    {
      var b, prev;
      ghost var i;
      b, prev, e, i := FindPointer(key, hash);
      assert BucketOk(chains[b], b, length, nodes);
      if e == null {
        NoneMatches(b, key, hash);
      }
    }

    lemma NoneMatches(b: nat, key: Key, hash: Word)
      requires Buckets() && b == Home(hash, length) && Find(chains[b], key, hash) == |chains[b]|
      ensures forall a {:trigger a in nodes} :: a in nodes ==> !Matches(a, key, hash)
    {
      forall a {:trigger a in nodes} | a in nodes
        ensures !Matches(a, key, hash)
      {
        if a.hash == hash {
          var j :| 0 <= j < |chains[b]| && chains[b][j] == a;
        }
      }
    }

    // Let the slot in front of position i of bucket b hold v, where `tail` begins; `now` are the nodes then.
    method Splice(b: nat, prev: LRUHandle?, v: LRUHandle?, ghost i: nat, ghost tail: seq<LRUHandle>, ghost now: set<LRUHandle>)
      requires Buckets() && b < |chains| && i <= |chains[b]| && prev == NodeBefore(chains[b], i)
      requires Chain(v, tail) && Different(chains[b][..i] + tail) && AtHome(chains[b][..i] + tail, b, |chains|)
      requires forall e {:trigger e in now} :: e in now <==> if Home(e.hash, |chains|) == b then e in chains[b][..i] + tail else e in nodes
      modifies `chains, `nodes, list, nodes`nextHash
      ensures Buckets() && nodes == now
    {
      hide Different, AtHome, BucketOk, Partition, Chain, Within;
      ghost var c, was, given := chains[b], chains, nodes;
      BucketParts(was, given, b);
      NotInTail(c, i, tail);
      BeforeIsWithin(c, i, given);
      Link(list, b, prev, v, c, i, tail);
      PartitionChanged(was, given, b, c[..i] + tail, now);
      forall a | 0 <= a < |was| && a != b
        ensures Chain(list[a], was[a])
      {
        if prev != null {
          NotInOthers(was, given, a, b, i, prev);
        }
        assert old(Chain(list[a], chains[a]));
      }
      chains := was[b := c[..i] + tail];
      nodes := now;
      forall a {:trigger chains[a]} | 0 <= a < |chains|
        ensures Within(chains[a], nodes) && Chain(list[a], chains[a])
      {
        BucketParts(chains, nodes, a);
        assert a != b ==> chains[a] == was[a];
      }
    }

    /** There is at most one handle of a key. */
    lemma Unique(a: LRUHandle, b: LRUHandle)
      requires Valid() && a in nodes && b in nodes && Matches(a, b.key, b.hash)
      ensures a == b
    {
      OnlyOne(chains, nodes, a, b);
    }

    /** Put a handle in, and return the one of the same key that it replaces. */
    method Insert(h: LRUHandle) returns (old_: LRUHandle?)
      requires Valid() && h !in nodes
      modifies this, list, nodes`nextHash, h`nextHash
      ensures Valid() && (list == old(list) || fresh(list))
      ensures old_ != null ==> old_ in old(nodes) && Matches(old_, h.key, h.hash) && nodes == old(nodes) - {old_} + {h}
      ensures old_ == null ==> nodes == old(nodes) + {h} && forall a {:trigger a in old(nodes)} :: a in old(nodes) ==> !Matches(a, h.key, h.hash)
    {
      hide Buckets, Find, Matches, NodeAt, NodeBefore, Home, PowerOfTwo, Partition, Linked;
      var b, prev;
      ghost var i;
      ghost var was := nodes;
      b, prev, old_, i := FindPointer(h.key, h.hash);
      Replace(b, prev, old_, h, i);
      SizeAfter(was, old_, h, nodes);
      if old_ == null {
        elems := elems + 1;
        if elems > length {
          Resize();
        }
      }
    }

    // Store a handle in a slot, in place of what it holds.
    method Replace(b: nat, prev: LRUHandle?, at: LRUHandle?, h: LRUHandle, ghost i: nat)
      requires Buckets() && h !in nodes && b == Home(h.hash, length) && i == Find(chains[b], h.key, h.hash)
      requires at == NodeAt(chains[b], i) && prev == NodeBefore(chains[b], i)
      modifies `chains, `nodes, list, nodes`nextHash, h`nextHash
      ensures Buckets() && nodes == (if at == null then old(nodes) else old(nodes) - {at}) + {h}
      ensures at != null ==> at in old(nodes) && Matches(at, h.key, h.hash)
      ensures at == null ==> forall a {:trigger a in old(nodes)} :: a in old(nodes) ==> !Matches(a, h.key, h.hash)
    {
      hide Partition, Chain, Different, AtHome, Within, Behind;
      ghost var c, tail, now := chains[b], [h] + Behind(chains[b], i), (if at == null then nodes else nodes - {at}) + {h};
      ReplacedNodes(chains, nodes, b, i, h, now);
      BehindStart(list[b], c, i);
      h.nextHash := if at == null then null else at.nextHash;
      InFront(h, Behind(c, i));
      Splice(b, prev, h, i, tail, now);
    }

    /** Take the handle of the key out. */
    method Remove(key: Key, hash: Word) returns (result: LRUHandle?)
      requires Valid()
      modifies this, list, nodes`nextHash
      ensures Valid() && list == old(list)
      ensures result != null ==> result in old(nodes) && Matches(result, key, hash) && nodes == old(nodes) - {result}
      ensures result == null ==> nodes == old(nodes)
      ensures forall a {:trigger a in nodes} :: a in nodes ==> !Matches(a, key, hash)
    {
      hide Partition, Chain, Different, AtHome, Within, Behind;
      var b, prev;
      ghost var i;
      b, prev, result, i := FindPointer(key, hash);
      if result == null {
        NoneMatches(b, key, hash);
      } else {
        ghost var chainsWas, was, now := chains, nodes, nodes - {result};
        RemovedNodes(chains, nodes, b, i, now);
        BehindStart(list[b], chains[b], i);
        Splice(b, prev, result.nextHash, i, Behind(chains[b], i), now);
        NoOther(chainsWas, was, result, now);
        elems := elems - 1;
      }
    }

    // The least power of two from 4 on that is no less than the number of elements.
    method NewLength() returns (newLength: nat)
      ensures newLength >= elems && newLength >= 4 && PowerOfTwo(newLength) && (newLength == 4 || newLength < 2 * elems)
    {
      newLength := 4;
      while newLength < elems
        invariant newLength >= 4 && PowerOfTwo(newLength) && (newLength == 4 || newLength < 2 * elems)
      {
        newLength := newLength * 2;
        assert newLength / 2 * 2 == newLength;
      }
    }

    // Spread the nodes over as many buckets as there are nodes, or a few more.
    method Resize()
      requires Buckets()
      modifies `length, `list, `chains, nodes`nextHash
      ensures Buckets() && fresh(list) && length >= elems && (length == 4 || length < 2 * elems)
    {
      hide Partition, Linked, LinkedFrom, MovedBelow, PowerOfTwo;
      var newLength := NewLength();
      var newList := new LRUHandle?[newLength](_ => null);
      ghost var moved: set<LRUHandle> := {};
      ghost var newChains: seq<seq<LRUHandle>> := seq(newLength, _ => []);
      NoNodes(newList, newChains);
      NoneMovedYet(list, chains, nodes);
      for i := 0 to length
        invariant newList.Length == |newChains| == newLength && Linked(newList, newChains, moved) && Partition(newChains, moved)
        invariant list == old(list) && chains == old(chains) && length == old(length) == list.Length == |chains|
        invariant LinkedFrom(list, chains, nodes, i) && MovedBelow(|chains|, nodes, moved, i)
      {
        newChains, moved := MoveBucket(newList, i, newChains, moved);
      }
      AllMoved(|chains|, nodes, moved);
      list, length, chains := newList, newLength, newChains;
    }

    // Move the nodes of one bucket over, each to the front of its new one.
    method MoveBucket(newList: array<LRUHandle?>, i: nat, ghost newChains: seq<seq<LRUHandle>>, ghost moved: set<LRUHandle>)
        returns (ghost newChains': seq<seq<LRUHandle>>, ghost moved': set<LRUHandle>)
      requires list.Length == |chains| > 0 && Partition(chains, nodes) && i < |chains| && newList != list
      requires newList.Length == |newChains| > 0 && PowerOfTwo(newList.Length) && Linked(newList, newChains, moved) && Partition(newChains, moved)
      requires LinkedFrom(list, chains, nodes, i) && MovedBelow(|chains|, nodes, moved, i)
      modifies newList, nodes`nextHash
      ensures |newChains'| == |newChains| && Linked(newList, newChains', moved') && Partition(newChains', moved')
      ensures LinkedFrom(list, chains, nodes, i + 1) && MovedBelow(|chains|, nodes, moved', i + 1)
    {
      hide Partition, Linked, LinkedFrom, Moved, MovedBelow;
      newChains', moved' := newChains, moved;
      var h := list[i];
      ghost var rest, n := chains[i], |chains|;
      NoneMoved(list, chains, nodes, moved, i);
      while h != null
        invariant Remaining(h, rest, nodes, i, n) && LinkedFrom(list, chains, nodes, i + 1)
        invariant Moved(n, nodes, moved', i, rest)
        invariant |newChains'| == |newChains| && Linked(newList, newChains', moved') && Partition(newChains', moved')
        decreases |rest|
      {
        newChains', moved', h, rest := MoveNode(newList, i, h, newChains', moved', rest);
      }
      BucketMoved(n, nodes, moved', i, rest);
    }

    // Move one node over.
    method MoveNode(newList: array<LRUHandle?>, i: nat, h: LRUHandle, ghost newChains: seq<seq<LRUHandle>>, ghost moved: set<LRUHandle>,
                    ghost rest: seq<LRUHandle>)
        returns (ghost newChains': seq<seq<LRUHandle>>, ghost moved': set<LRUHandle>, next: LRUHandle?, ghost rest': seq<LRUHandle>)
      requires list.Length == |chains| > 0 && Partition(chains, nodes) && i < |chains| && newList != list
      requires Remaining(h, rest, nodes, i, |chains|) && LinkedFrom(list, chains, nodes, i + 1) && Moved(|chains|, nodes, moved, i, rest)
      requires newList.Length == |newChains| > 0 && PowerOfTwo(newList.Length) && Linked(newList, newChains, moved) && Partition(newChains, moved)
      modifies newList, nodes`nextHash
      ensures Remaining(next, rest', nodes, i, |chains|) && |rest'| < |rest|
      ensures LinkedFrom(list, chains, nodes, i + 1) && Moved(|chains|, nodes, moved', i, rest')
      ensures |newChains'| == |newChains| && Linked(newList, newChains', moved') && Partition(newChains', moved')
    {
      hide Partition, Linked, Moved, Chain, Different, Within, AtHome;
      OneMoved(chains, nodes, moved, i, h, rest);
      rest', moved' := rest[1..], moved + {h};
      next := h.nextHash;
      newChains' := Push(newList, h, newChains, moved);
      forall b {:trigger chains[b]} | i + 1 <= b < |chains|
        ensures Within(chains[b], nodes) && Chain(list[b], chains[b])
      {
        OtherBucket(chains, nodes, b, h, i);
        assert old(Chain(list[b], chains[b]));
      }
    }
  }

  // The buckets from i on are as they were.
  ghost predicate LinkedFrom(list: array<LRUHandle?>, chains: seq<seq<LRUHandle>>, nodes: set<LRUHandle>, i: nat)
    requires list.Length == |chains|
    reads list, nodes`nextHash
  {
    forall b {:trigger chains[b]} :: i <= b < |chains| ==> Within(chains[b], nodes) && Chain(list[b], chains[b])
  }

  // The rest of bucket i of n.
  ghost predicate Remaining(h: LRUHandle?, rest: seq<LRUHandle>, nodes: set<LRUHandle>, i: nat, n: nat)
    requires n > 0
    reads nodes`nextHash
  {
    Within(rest, nodes) && Chain(h, rest) && Different(rest) && AtHome(rest, i, n)
  }

  // The nodes of the first i of n buckets have been moved.
  ghost predicate MovedBelow(n: nat, nodes: set<LRUHandle>, moved: set<LRUHandle>, i: nat)
    requires n > 0
  {
    moved <= nodes && forall e {:trigger e in nodes} :: e in nodes ==> (e in moved <==> Home(e.hash, n) < i)
  }

  // Of the buckets up to i, out of n, all nodes but the rest of the last one have been moved.
  ghost predicate Moved(n: nat, nodes: set<LRUHandle>, moved: set<LRUHandle>, i: nat, rest: seq<LRUHandle>)
    requires n > 0
  {
    moved <= nodes && forall e {:trigger e in nodes} :: e in nodes ==> (e in moved <==> Home(e.hash, n) < i || (Home(e.hash, n) == i && e !in rest))
  }

  lemma NoneMovedYet(list: array<LRUHandle?>, chains: seq<seq<LRUHandle>>, nodes: set<LRUHandle>)
    requires list.Length == |chains| > 0 && Linked(list, chains, nodes)
    ensures LinkedFrom(list, chains, nodes, 0) && MovedBelow(|chains|, nodes, {}, 0)
  {
  }

  lemma NoneMoved(list: array<LRUHandle?>, chains: seq<seq<LRUHandle>>, nodes: set<LRUHandle>, moved: set<LRUHandle>, i: nat)
    requires list.Length == |chains| > 0 && i < |chains| && Partition(chains, nodes)
    requires LinkedFrom(list, chains, nodes, i) && MovedBelow(|chains|, nodes, moved, i)
    ensures Remaining(list[i], chains[i], nodes, i, |chains|) && LinkedFrom(list, chains, nodes, i + 1)
    ensures Moved(|chains|, nodes, moved, i, chains[i])
  {
    assert BucketOk(chains[i], i, |chains|, nodes);
  }

  lemma BucketMoved(n: nat, nodes: set<LRUHandle>, moved: set<LRUHandle>, i: nat, rest: seq<LRUHandle>)
    requires n > 0 && Moved(n, nodes, moved, i, rest) && rest == []
    ensures MovedBelow(n, nodes, moved, i + 1)
  {
  }

  lemma AllMoved(n: nat, nodes: set<LRUHandle>, moved: set<LRUHandle>)
    requires n > 0 && MovedBelow(n, nodes, moved, n)
    ensures moved == nodes
  {
    assert forall e :: e in nodes ==> Home(e.hash, n) < n;
  }

  lemma OneMoved(chains: seq<seq<LRUHandle>>, nodes: set<LRUHandle>, moved: set<LRUHandle>, i: nat, h: LRUHandle, rest: seq<LRUHandle>)
    requires i < |chains| && Partition(chains, nodes) && Moved(|chains|, nodes, moved, i, rest)
    requires Remaining(h, rest, nodes, i, |chains|)
    ensures rest != [] && Moved(|chains|, nodes, moved + {h}, i, rest[1..])
    ensures h in nodes && h !in moved && h !in rest[1..] && Home(h.hash, |chains|) == i
    ensures Remaining(h.nextHash, rest[1..], nodes, i, |chains|)
    ensures forall a {:trigger a in moved} :: a in moved ==> !Matches(a, h.key, h.hash)
  {
    hide AtHome, Within;
    RestMoves(h, rest, nodes, i, |chains|);
    forall e {:trigger e in nodes} | e in nodes
      ensures e in moved + {h} <==> Home(e.hash, |chains|) < i || (Home(e.hash, |chains|) == i && e !in rest[1..])
    {
      assert e in rest <==> e == h || e in rest[1..];
    }
    forall a {:trigger a in moved} | a in moved && Matches(a, h.key, h.hash)
      ensures a == h
    {
      OnlyOne(chains, nodes, a, h);
    }
  }

  lemma RestMoves(h: LRUHandle, rest: seq<LRUHandle>, nodes: set<LRUHandle>, i: nat, n: nat)
    requires n > 0 && Remaining(h, rest, nodes, i, n)
    ensures rest != [] && h == rest[0] && h in nodes && h !in rest[1..] && Home(h.hash, n) == i && Remaining(h.nextHash, rest[1..], nodes, i, n)
  {
    assert rest == [h] + rest[1..] && rest[0] in rest;
    assert LinkAt(rest, 0);
    forall j {:trigger LinkAt(rest[1..], j)} | 0 <= j < |rest| - 1
      ensures LinkAt(rest[1..], j)
    {
      assert LinkAt(rest, j + 1);
    }
  }

  // There is at most one node of a key.
  lemma OnlyOne(chains: seq<seq<LRUHandle>>, nodes: set<LRUHandle>, a: LRUHandle, b: LRUHandle)
    requires |chains| > 0 && Partition(chains, nodes) && a in nodes && b in nodes && Matches(a, b.key, b.hash)
    ensures a == b
  {
    var c := chains[Home(a.hash, |chains|)];
    assert BucketOk(c, Home(a.hash, |chains|), |chains|, nodes);
    var i :| 0 <= i < |c| && c[i] == a;
    var j :| 0 <= j < |c| && c[j] == b;
  }

  lemma OtherBucket(chains: seq<seq<LRUHandle>>, nodes: set<LRUHandle>, b: nat, h: LRUHandle, i: nat)
    requires i < b < |chains| && Partition(chains, nodes) && Home(h.hash, |chains|) == i
    ensures h !in chains[b] && Within(chains[b], nodes)
  {
    assert BucketOk(chains[b], b, |chains|, nodes);
  }

  lemma NoNodes(list: array<LRUHandle?>, chains: seq<seq<LRUHandle>>)
    requires list.Length == |chains| > 0 && forall b :: 0 <= b < |chains| ==> list[b] == null && chains[b] == []
    ensures Linked(list, chains, {}) && Partition(chains, {})
  {
  }

  lemma PushedNodes(chains: seq<seq<LRUHandle>>, nodes: set<LRUHandle>, b: nat, h: LRUHandle)
    requires b < |chains| && Partition(chains, nodes) && h !in nodes && Home(h.hash, |chains|) == b
    requires forall a {:trigger a in nodes} :: a in nodes ==> !Matches(a, h.key, h.hash)
    ensures Partition(chains[b := [h] + chains[b]], nodes + {h})
    ensures forall a {:trigger chains[a]} :: 0 <= a < |chains| ==> h !in chains[a]
  {
    var c := [h] + chains[b];
    assert BucketOk(chains[b], b, |chains|, nodes);
    forall i, j | 0 <= i < j < |c|
      ensures !Matches(c[i], c[j].key, c[j].hash)
    {
      assert c[j] == chains[b][j - 1] && chains[b][j - 1] in nodes;
    }
    PartitionChanged(chains, nodes, b, c, nodes + {h});
    forall a {:trigger chains[a]} | 0 <= a < |chains|
      ensures h !in chains[a]
    {
      assert BucketOk(chains[a], a, |chains|, nodes);
    }
  }

  // Put a node at the front of its bucket.
  method Push(list: array<LRUHandle?>, h: LRUHandle, ghost chains: seq<seq<LRUHandle>>, ghost nodes: set<LRUHandle>)
      returns (ghost chains': seq<seq<LRUHandle>>)
    requires list.Length == |chains| > 0 && PowerOfTwo(list.Length) && Linked(list, chains, nodes) && Partition(chains, nodes) && h !in nodes
    requires forall a {:trigger a in nodes} :: a in nodes ==> !Matches(a, h.key, h.hash)
    modifies list, h`nextHash
    ensures |chains'| == |chains| && Linked(list, chains', nodes + {h}) && Partition(chains', nodes + {h})
  {
    hide Partition, Chain, Different, AtHome, Within;
    var b := Home(h.hash, list.Length);
    PushedNodes(chains, nodes, b, h);
    ghost var c := chains[b];
    assert Chain(list[b], c);
    h.nextHash := list[b];
    InFront(h, c);
    list[b] := h;
    chains' := chains[b := [h] + c];
    forall a {:trigger chains'[a]} | 0 <= a < |chains'|
      ensures Within(chains'[a], nodes + {h}) && Chain(list[a], chains'[a])
    {
      BucketParts(chains', nodes + {h}, a);
      if a != b {
        BucketParts(chains, nodes, a);
        assert old(Chain(list[a], chains[a]));
      }
    }
  }

  // The nodes behind position i.
  function Behind(c: seq<LRUHandle>, i: nat): seq<LRUHandle>
    requires i <= |c|
  {
    if i == |c| then [] else c[i + 1..]
  }

  // What the node at a position of a chain leads to.
  lemma BehindStart(first: LRUHandle?, c: seq<LRUHandle>, i: nat)
    requires Chain(first, c) && i <= |c|
    ensures Chain(if i < |c| then c[i].nextHash else null, Behind(c, i))
  {
    assert i < |c| ==> LinkAt(c, i);
    forall j {:trigger LinkAt(Behind(c, i), j)} | 0 <= j < |Behind(c, i)|
      ensures LinkAt(Behind(c, i), j)
    {
      assert LinkAt(c, i + 1 + j);
    }
  }

  // A node in front of a chain.
  lemma InFront(h: LRUHandle, c: seq<LRUHandle>)
    requires Chain(h.nextHash, c)
    ensures Chain(h, [h] + c)
  {
    forall j {:trigger LinkAt([h] + c, j)} | 0 <= j < |[h] + c|
      ensures LinkAt([h] + c, j)
    {
      assert j > 0 ==> LinkAt(c, j - 1);
    }
  }

  // Putting a handle at the place of its key keeps a bucket in order.
  lemma ReplacedChain(c: seq<LRUHandle>, i: nat, h: LRUHandle, b: nat, n: nat)
    requires n > 0 && Different(c) && AtHome(c, b, n) && i == Find(c, h.key, h.hash) && h !in c && Home(h.hash, n) == b
    ensures var c' := c[..i] + ([h] + Behind(c, i));
            && Different(c') && AtHome(c', b, n)
            && forall e {:trigger e in c'} :: e in c' <==> e == h || (e in c && e != NodeAt(c, i))
  {
    var c' := c[..i] + ([h] + Behind(c, i));
    forall j | 0 <= j < |c'|
      ensures c'[j] == if j == i then h else c[j]
    {
    }
    forall e {:trigger e in c'} | e in c'
      ensures e == h || (e in c && e != NodeAt(c, i))
    {
      var j :| 0 <= j < |c'| && c'[j] == e;
    }
    forall e {:trigger e in c'} | e in c && e != NodeAt(c, i)
      ensures e in c'
    {
      var j :| 0 <= j < |c| && c[j] == e;
      assert c'[j] == e;
    }
    assert c'[i] == h;
  }

  lemma ReplacedNodes(chains: seq<seq<LRUHandle>>, nodes: set<LRUHandle>, b: nat, i: nat, h: LRUHandle, now: set<LRUHandle>)
    requires b < |chains| && Partition(chains, nodes) && h !in nodes && Home(h.hash, |chains|) == b && i == Find(chains[b], h.key, h.hash)
    requires var at := NodeAt(chains[b], i); now == (if at == null then nodes else nodes - {at}) + {h}
    ensures var c' := chains[b][..i] + ([h] + Behind(chains[b], i));
            && Different(c') && AtHome(c', b, |chains|)
            && forall e {:trigger e in now} :: e in now <==> if Home(e.hash, |chains|) == b then e in c' else e in nodes
    ensures NodeAt(chains[b], i) != null ==> NodeAt(chains[b], i) in nodes
    ensures h !in Behind(chains[b], i)
    ensures NodeAt(chains[b], i) == null ==> forall a {:trigger a in nodes} :: a in nodes ==> !Matches(a, h.key, h.hash)
  {
    assert BucketOk(chains[b], b, |chains|, nodes);
    ReplacedChain(chains[b], i, h, b, |chains|);
  }

  lemma RemovedChain(c: seq<LRUHandle>, i: nat)
    requires Different(c) && i < |c|
    ensures Different(c[..i] + Behind(c, i))
    ensures forall e {:trigger e in c} :: e in c[..i] + Behind(c, i) <==> e in c && e != c[i]
  {
    var c' := c[..i] + Behind(c, i);
    forall j | 0 <= j < |c'|
      ensures c'[j] == if j < i then c[j] else c[j + 1]
    {
    }
    forall e {:trigger e in c}
      ensures e in c' <==> e in c && e != c[i]
    {
      if e in c && e != c[i] {
        var j :| 0 <= j < |c| && c[j] == e;
        assert c'[if j < i then j else j - 1] == e;
      }
    }
  }

  lemma RemovedNodes(chains: seq<seq<LRUHandle>>, nodes: set<LRUHandle>, b: nat, i: nat, now: set<LRUHandle>)
    requires b < |chains| && Partition(chains, nodes) && i < |chains[b]| && now == nodes - {chains[b][i]}
    ensures var c' := chains[b][..i] + Behind(chains[b], i);
            && Different(c') && AtHome(c', b, |chains|) && chains[b][i] in nodes
            && forall e {:trigger e in now} :: e in now <==> if Home(e.hash, |chains|) == b then e in c' else e in nodes
  {
    var c := chains[b];
    assert BucketOk(c, b, |chains|, nodes);
    RemovedChain(c, i);
    forall e {:trigger e in nodes} | e in nodes && Home(e.hash, |chains|) == b
      ensures e in c
    {
    }
  }

  lemma NoOther(chains: seq<seq<LRUHandle>>, nodes: set<LRUHandle>, e: LRUHandle, now: set<LRUHandle>)
    requires |chains| > 0 && Partition(chains, nodes) && e in nodes && now == nodes - {e}
    ensures forall a {:trigger a in now} :: a in now ==> !Matches(a, e.key, e.hash)
  {
    forall a {:trigger a in now} | a in now
      ensures !Matches(a, e.key, e.hash)
    {
      if Matches(a, e.key, e.hash) {
        OnlyOne(chains, nodes, a, e);
        assert false;
      }
    }
  }

  lemma SizeAfter(was: set<LRUHandle>, at: LRUHandle?, h: LRUHandle, now: set<LRUHandle>)
    requires h !in was && (at != null ==> at in was) && now == (if at == null then was else was - {at}) + {h}
    ensures |now| == |was| + if at == null then 1 else 0
  {
  }

  lemma BucketParts(chains: seq<seq<LRUHandle>>, nodes: set<LRUHandle>, b: nat)
    requires b < |chains| && Partition(chains, nodes)
    ensures Within(chains[b], nodes) && Different(chains[b])
  {
    assert BucketOk(chains[b], b, |chains|, nodes);
  }

  lemma BeforeIsWithin(c: seq<LRUHandle>, i: nat, nodes: set<LRUHandle>)
    requires i <= |c| && Within(c, nodes)
    ensures NodeBefore(c, i) != null ==> NodeBefore(c, i) in nodes
  {
  }

  lemma NotInOthers(chains: seq<seq<LRUHandle>>, nodes: set<LRUHandle>, a: nat, b: nat, i: nat, prev: LRUHandle)
    requires a < |chains| && b < |chains| && a != b && Partition(chains, nodes) && i <= |chains[b]| && prev == NodeBefore(chains[b], i)
    ensures prev !in chains[a]
  {
    if prev in chains[a] {
      Apart(chains, nodes, a, b, prev);
    }
  }

  lemma NotInTail(c: seq<LRUHandle>, i: nat, tail: seq<LRUHandle>)
    requires i <= |c| && Different(c[..i] + tail)
    ensures NodeBefore(c, i) != null ==> NodeBefore(c, i) !in tail
  {
    if i > 0 && c[i - 1] in tail {
      var j :| 0 <= j < |tail| && tail[j] == c[i - 1];
      assert (c[..i] + tail)[i - 1] == (c[..i] + tail)[i + j];
    }
  }

  lemma {:induction false} FindIs(c: seq<LRUHandle>, key: Key, hash: Word, i: nat)
    requires i <= |c| && (i < |c| ==> Matches(c[i], key, hash))
    requires forall j :: 0 <= j < i ==> !Matches(c[j], key, hash)
    ensures i == Find(c, key, hash)
  {
  }
}
