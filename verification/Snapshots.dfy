/** Snapshots, oldest first, and the oldest sequence number that anyone may still read at. */
module Snapshots {
  import opened Options
  import opened InternalKeys
  import opened LsmTree
  import opened CompactionSpec
  import opened CompactionReads
  import opened CompactionExact

  class Snapshot {
    const number: nat
    var prev: Snapshot?
    var next: Snapshot?

    constructor (number: nat)
      ensures this.number == number
    {
      this.number := number;
      prev, next := null, null;
    }
  }

  // ----- the circular list -----

  ghost predicate Joined(a: Snapshot, b: Snapshot)
    reads a`next, b`prev
  {
    a.next == b && b.prev == a
  }

  // The dummy head, the snapshots, and the head again.
  function Around(head: Snapshot, list: seq<Snapshot>): seq<Snapshot> {
    [head] + list + [head]
  }

  ghost predicate Linked(head: Snapshot, list: seq<Snapshot>)
    reads head`next, head`prev, list`next, list`prev
  {
    var all := Around(head, list);
    forall i, j {:trigger Joined(all[i], all[j])} :: 0 <= i < |all| - 1 && j == i + 1 ==> Joined(all[i], all[j])
  }

  predicate Ordered(list: seq<Snapshot>) {
    forall i, j :: 0 <= i < j < |list| ==> list[i].number <= list[j].number && list[i] != list[j]
  }

  function Without(list: seq<Snapshot>, k: nat): (rest: seq<Snapshot>)
    requires k < |list|
    ensures Ordered(list) ==> Ordered(rest) && list[k] !in rest
  {
    list[..k] + list[k + 1..]
  }

  lemma WithoutAround(head: Snapshot, list: seq<Snapshot>, k: nat, i: nat)
    requires k < |list| && i < |list| + 1
    ensures Around(head, Without(list, k))[i] == Around(head, list)[if i <= k then i else i + 1]
  {
  }

  lemma AllDifferent(list: seq<Snapshot>)
    requires Ordered(list)
    ensures forall i, j :: 0 <= i < j < |list| ==> list[i] != list[j]
  {
  }

  lemma Ends(head: Snapshot, list: seq<Snapshot>)
    requires Linked(head, list)
    ensures head.next == (if list == [] then head else list[0])
    ensures head.prev == (if list == [] then head else list[|list| - 1])
  {
    var all := Around(head, list);
    assert Joined(all[0], all[1]) && Joined(all[|list|], all[|list| + 1]);
  }

  lemma Neighbours(head: Snapshot, list: seq<Snapshot>, k: nat)
    requires Linked(head, list) && k < |list|
    ensures list[k].prev == (if k == 0 then head else list[k - 1])
    ensures list[k].next == (if k == |list| - 1 then head else list[k + 1])
  {
    var all := Around(head, list);
    assert Joined(all[k], all[k + 1]) && Joined(all[k + 1], all[k + 2]);
  }

  class SnapshotList {
    const head: Snapshot
    ghost var list: seq<Snapshot>   // in the order they were taken

    ghost predicate Valid()
      reads this, head, list
    {
      head !in list && Ordered(list) && Linked(head, list)
    }

    constructor ()
      ensures Valid() && list == [] && fresh(head)
    {
      var dummy := new Snapshot(0);
      head, list := dummy, [];
      new;
      head.prev, head.next := head, head;
    }

    predicate Empty()
      reads this, head
    {
      head.next == head
    }

    function Oldest(): Snapshot?
      reads this, head
    {
      head.next
    }

    function Newest(): Snapshot?
      reads this, head
    {
      head.prev
    }

    // What the links of the head say of the list.
    lemma Heads()
      requires Valid()
      ensures Empty() <==> list == []
      ensures list != [] ==> Oldest() == list[0] && Newest() == list[|list| - 1]
    {
      Ends(head, list);
    }

    /** Take a snapshot; sequence numbers never go back. */
    method New(sequence: nat) returns (s: Snapshot)
      requires Valid() && (list != [] ==> list[|list| - 1].number <= sequence)
      modifies this`list, {head}`prev, {head}`next, (set t | t in list)`prev, (set t | t in list)`next
      ensures Valid() && fresh(s) && s.number == sequence && list == old(list) + [s]
    {
      ghost var all := Around(head, list);
      Ends(head, list);
      assert forall i, j :: 0 <= i < |all| - 1 && j == i + 1 ==> Joined(all[i], all[j]);
      s := new Snapshot(sequence);
      s.next := head;
      s.prev := head.prev;
      s.prev.next := s;
      s.next.prev := s;
      list := list + [s];
      ghost var more := Around(head, list);
      forall i, j {:trigger Joined(more[i], more[j])} | 0 <= i < |more| - 1 && j == i + 1
        ensures Joined(more[i], more[j])
      {
        assert i <= |old(list)| ==> more[i] == all[i];
        if j <= |old(list)| {
          assert more[j] == all[j];
          assert old(Joined(all[i], all[j]));
        }
      }
    }

    /** Let go of a snapshot; the others stay, in order. */
    method Delete(s: Snapshot, ghost k: nat)
      requires Valid() && k < |list| && list[k] == s
      modifies this`list, {head}`prev, {head}`next, (set t | t in list)`prev, (set t | t in list)`next
      ensures Valid() && list == Without(old(list), k) && s !in list
    {
      hide Ordered;
      ghost var all := Around(head, list);
      Neighbours(head, list, k);
      AllDifferent(list);
      assert forall i, j :: 0 <= i < |all| - 1 && j == i + 1 ==> Joined(all[i], all[j]);
      s.prev.next := s.next;
      s.next.prev := s.prev;
      list := Without(list, k);
      ghost var rest := Around(head, list);
      forall i, j {:trigger Joined(rest[i], rest[j])} | 0 <= i < |rest| - 1 && j == i + 1
        ensures Joined(rest[i], rest[j])
      {
        WithoutAround(head, old(list), k, i);
        WithoutAround(head, old(list), k, j);
        if i < k {
          assert old(Joined(all[i], all[j]));
        } else if i > k {
          assert old(Joined(all[i + 1], all[j + 1]));
        }
      }
    }

    // The sequence number below which a compaction may drop what is hidden.
    method SmallestSnapshot(lastSequence: nat) returns (smallest: nat)
      requires Valid() && (list != [] ==> list[|list| - 1].number <= lastSequence)
      ensures smallest <= lastSequence && forall s :: s in list ==> smallest <= s.number
      ensures smallest == lastSequence || exists s :: s in list && smallest == s.number
    {
      Heads();
      if Empty() {
        smallest := lastSequence;
      } else {
        smallest := Oldest().number;
      }
    }
  }

  /** A compaction that shares no user key with a file left out leaves every read as it was that a snapshot holder, or
      anyone reading now or later, may do. */
  method CompactionKeepsSnapshots(snapshots: SnapshotList, lastSequence: nat, v: Version, level: nat, inputs0: Level, inputs1: Level,
                                  merged: seq<Entry>, ghost outputs: Level, ghost v': Version) returns (smallest: nat)
    requires snapshots.Valid() && (snapshots.list != [] ==> snapshots.list[|snapshots.list| - 1].number <= lastSequence) && lastSequence < MAX_SEQUENCE
    requires Shape(v) && level + 1 < NUM_LEVELS && Unshared(v, level, inputs0, inputs1)
    ensures Setting(v, level, smallest, inputs0, inputs1, merged, outputs, v') ==>
              Shape(v') && forall k, s :: (s >= lastSequence || exists t :: t in snapshots.list && t.number == s) ==> Get(v', k, s) == Get(v, k, s)
  {
    smallest := snapshots.SmallestSnapshot(lastSequence);
    if Setting(v, level, smallest, inputs0, inputs1, merged, outputs, v') {
      CompactionKeepsShape(v, level, smallest, inputs0, inputs1, merged, outputs, v');
      forall k, s | s >= lastSequence || exists t :: t in snapshots.list && t.number == s
        ensures Get(v', k, s) == Get(v, k, s)
      {
        CompactionKeepsReads(v, level, smallest, inputs0, inputs1, merged, outputs, v', k, s);
      }
    }
  }
}
