/** The handles of the block cache, and circular lists of them. */
module LRUHandles {
  import opened Bytes

  type Key = seq<Byte>

  class LRUHandle {
    const key: Key
    const hash: Word
    const charge: nat
    var nextHash: LRUHandle?
    var next: LRUHandle?
    var prev: LRUHandle?
    var inCache: bool
    var refs: nat               // references, the cache's own among them
    ghost var deletions: nat    // how often the deleter ran

    constructor (key: Key, hash: Word, charge: nat)
      ensures this.key == key && this.hash == hash && this.charge == charge
      ensures !inCache && refs == 1 && deletions == 0
    {
      this.key, this.hash, this.charge := key, hash, charge;
      nextHash, next, prev, inCache, refs, deletions := null, null, null, false, 1, 0;
    }
  }
}

/** Circular doubly linked lists with a dummy head, spliced in place. */
module LRULists {
  import opened LRUHandles

  // Two nodes follow one another.
  ghost predicate Joined(a: LRUHandle, b: LRUHandle)
    reads a`next, b`prev
  {
    a.next == b && b.prev == a
  }

  // The list around: its head, its nodes, and its head again.
  function Around(head: LRUHandle, nodes: seq<LRUHandle>): seq<LRUHandle> {
    [head] + nodes + [head]
  }

  predicate Distinct(nodes: seq<LRUHandle>) {
    forall i, j :: 0 <= i < j < |nodes| ==> nodes[i] != nodes[j]
  }

  ghost predicate Ring(head: LRUHandle, nodes: seq<LRUHandle>)
    reads head`next, head`prev, nodes`next, nodes`prev
  {
    && head !in nodes && Distinct(nodes)
    && var all := Around(head, nodes);
       forall i, j {:trigger Joined(all[i], all[j])} :: 0 <= i < |all| - 1 && j == i + 1 ==> Joined(all[i], all[j])
  }

  function Without(nodes: seq<LRUHandle>, k: nat): seq<LRUHandle>
    requires k < |nodes|
  {
    nodes[..k] + nodes[k + 1..]
  }

  // Nodes of a ring know their neighbours.
  lemma Neighbours(head: LRUHandle, nodes: seq<LRUHandle>, k: nat)
    requires Ring(head, nodes) && k < |nodes|
    ensures nodes[k].prev == (if k == 0 then head else nodes[k - 1])
    ensures nodes[k].next == (if k == |nodes| - 1 then head else nodes[k + 1])
  {
    var all := Around(head, nodes);
    assert Joined(all[k], all[k + 1]) && Joined(all[k + 1], all[k + 2]);
  }

  lemma Ends(head: LRUHandle, nodes: seq<LRUHandle>)
    requires Ring(head, nodes)
    ensures head.next == (if nodes == [] then head else nodes[0])
    ensures head.prev == (if nodes == [] then head else nodes[|nodes| - 1])
  {
    var all := Around(head, nodes);
    assert Joined(all[0], all[1]) && Joined(all[|nodes|], all[|nodes| + 1]);
  }

  /** Take a node out of its list. */
  method Remove(e: LRUHandle, ghost head: LRUHandle, ghost nodes: seq<LRUHandle>, ghost k: nat)
    requires Ring(head, nodes) && k < |nodes| && nodes[k] == e
    modifies {head}`next, {head}`prev, (set n | n in nodes)`next, (set n | n in nodes)`prev
    ensures Ring(head, Without(nodes, k))
  {
    Neighbours(head, nodes, k);
    ghost var all, rest := Around(head, nodes), Around(head, Without(nodes, k));
    assert forall i, j :: 0 <= i < |all| - 1 && j == i + 1 ==> Joined(all[i], all[j]);
    e.next.prev := e.prev;
    e.prev.next := e.next;
    forall i, j {:trigger Joined(rest[i], rest[j])} | 0 <= i < |rest| - 1 && j == i + 1
      ensures Joined(rest[i], rest[j])
    {
      assert rest[i] == if i <= k then all[i] else all[i + 1];
      assert rest[j] == if j <= k then all[j] else all[j + 1];
      if i < k {
        assert old(Joined(all[i], all[j]));
      } else if i > k {
        assert old(Joined(all[i + 1], all[j + 1]));
      }
    }
  }

  /** Make a node the newest, in front of the head. */
  method Append(head: LRUHandle, e: LRUHandle, ghost nodes: seq<LRUHandle>)
    requires Ring(head, nodes) && e != head && e !in nodes
    modifies {head}`next, {head}`prev, (set n | n in nodes)`next, (set n | n in nodes)`prev, e`next, e`prev
    ensures Ring(head, nodes + [e])
  {
    Ends(head, nodes);
    ghost var all, more := Around(head, nodes), Around(head, nodes + [e]);
    assert forall i, j :: 0 <= i < |all| - 1 && j == i + 1 ==> Joined(all[i], all[j]);
    e.next := head;
    e.prev := head.prev;
    e.prev.next := e;
    e.next.prev := e;
    forall i, j {:trigger Joined(more[i], more[j])} | 0 <= i < |more| - 1 && j == i + 1
      ensures Joined(more[i], more[j])
    {
      assert i <= |nodes| ==> more[i] == all[i];
      if j <= |nodes| {
        assert more[j] == all[j];
        assert old(Joined(all[i], all[j]));
      }
    }
  }
}
