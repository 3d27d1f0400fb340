/** Who holds what in the block cache, and the sums over it. */
module LRUCacheSpec {
  import opened LRUHandles
  import opened LRULists

  // The charges of the nodes, summed.
  function Charges(nodes: seq<LRUHandle>): nat {
    if nodes == [] then 0 else Charges(nodes[..|nodes| - 1]) + nodes[|nodes| - 1].charge
  }

  lemma {:induction false} ChargesConcat(a: seq<LRUHandle>, b: seq<LRUHandle>)
    ensures Charges(a + b) == Charges(a) + Charges(b)
  {
    if b == [] {
      assert a + b == a;
    } else {
      ChargesConcat(a, b[..|b| - 1]);
      assert (a + b)[..|a + b| - 1] == a + b[..|b| - 1];
    }
  }

  lemma ChargesWithout(nodes: seq<LRUHandle>, k: nat)
    requires k < |nodes|
    ensures Charges(nodes) == Charges(Without(nodes, k)) + nodes[k].charge
  {
    hide Charges;
    var a, e, b := nodes[..k], nodes[k], nodes[k + 1..];
    ChargesConcat(a, b);
    ChargesConcat([e], b);
    ChargesConcat(a, [e] + b);
    ChargesOne(e);
    assert nodes == a + ([e] + b);
  }

  lemma ChargesOne(e: LRUHandle)
    ensures Charges([e]) == e.charge
  {
    assert [e][..0] == [];
  }

  lemma ChargesAppend(nodes: seq<LRUHandle>, e: LRUHandle)
    ensures Charges(nodes + [e]) == Charges(nodes) + e.charge
  {
    assert (nodes + [e])[..|nodes|] == nodes;
  }

  lemma WithoutHas(nodes: seq<LRUHandle>, k: nat, x: LRUHandle)
    requires Distinct(nodes) && k < |nodes|
    ensures x in Without(nodes, k) <==> x in nodes && x != nodes[k]
  {
    var rest := Without(nodes, k);
    forall j | 0 <= j < |rest|
      ensures rest[j] == nodes[if j < k then j else j + 1]
    {
    }
    if x in nodes && x != nodes[k] {
      var j :| 0 <= j < |nodes| && nodes[j] == x;
      assert rest[if j < k then j else j - 1] == x;
    }
  }

  // The nodes without one of them.
  function Minus(nodes: seq<LRUHandle>, e: LRUHandle): seq<LRUHandle> {
    if nodes == [] then [] else if nodes[0] == e then nodes[1..] else [nodes[0]] + Minus(nodes[1..], e)
  }

  lemma {:induction false} MinusIs(nodes: seq<LRUHandle>, e: LRUHandle, k: nat)
    requires Distinct(nodes) && k < |nodes| && nodes[k] == e
    ensures Minus(nodes, e) == Without(nodes, k)
  {
    if k > 0 {
      assert nodes[0] != nodes[k];
      MinusIs(nodes[1..], e, k - 1);
      assert Without(nodes, k) == [nodes[0]] + Without(nodes[1..], k - 1);
    }
  }

  lemma {:induction false} MinusNone(nodes: seq<LRUHandle>, e: LRUHandle)
    requires e !in nodes
    ensures Minus(nodes, e) == nodes
  {
    if nodes != [] {
      MinusNone(nodes[1..], e);
    }
  }

  lemma MinusHas(nodes: seq<LRUHandle>, e: LRUHandle)
    requires Distinct(nodes)
    ensures e !in Minus(nodes, e) && Distinct(Minus(nodes, e))
    ensures forall i :: 0 <= i < |Minus(nodes, e)| ==> Minus(nodes, e)[i] in nodes
    ensures forall i :: 0 <= i < |nodes| ==> nodes[i] == e || nodes[i] in Minus(nodes, e)
  {
    if e in nodes {
      var k :| 0 <= k < |nodes| && nodes[k] == e;
      MinusIs(nodes, e, k);
      WithoutHas(nodes, k, e);
      forall i | 0 <= i < |nodes|
        ensures nodes[i] == e || nodes[i] in Minus(nodes, e)
      {
        WithoutHas(nodes, k, nodes[i]);
      }
    } else {
      MinusNone(nodes, e);
    }
  }

  lemma RingIsDistinct(head: LRUHandle, nodes: seq<LRUHandle>)
    requires Ring(head, nodes)
    ensures Distinct(nodes) && head !in nodes
  {
  }

  lemma Taken(nodes: seq<LRUHandle>, e: LRUHandle, k: nat)
    requires Distinct(nodes) && k < |nodes| && nodes[k] == e
    ensures Minus(nodes, e) == Without(nodes, k) && Charges(nodes) == Charges(Minus(nodes, e)) + e.charge
    ensures e !in Minus(nodes, e)
    ensures forall i :: 0 <= i < |Minus(nodes, e)| ==> Minus(nodes, e)[i] in nodes
  {
    hide Charges;
    MinusIs(nodes, e, k);
    ChargesWithout(nodes, k);
    MinusHas(nodes, e);
  }

  // The cache's entries are on one list or the other: the oldest unused ones first on the one, those that
  // clients hold on the other.
  ghost predicate Placed(entries: set<LRUHandle>, held: multiset<LRUHandle>, lru: seq<LRUHandle>, inUse: seq<LRUHandle>) {
    && (forall x {:trigger x in entries} :: x in entries ==> x in lru || x in inUse)
    && (forall x {:trigger x in lru} :: x in lru ==> x in entries && held[x] == 0)
    && (forall x {:trigger x in inUse} :: x in inUse ==> x in entries && held[x] > 0)
  }

  // An entry that nobody uses is on the one list, one that is used on the other.
  lemma EntryList(entries: set<LRUHandle>, held: multiset<LRUHandle>, lru: seq<LRUHandle>, inUse: seq<LRUHandle>, e: LRUHandle)
    requires Placed(entries, held, lru, inUse) && e in entries
    ensures if held[e] == 0 then e in lru && e !in inUse else e in inUse && e !in lru
  {
  }

  lemma NowUsed(entries: set<LRUHandle>, held: multiset<LRUHandle>, lru: seq<LRUHandle>, inUse: seq<LRUHandle>, e: LRUHandle)
    requires Placed(entries, held, lru, inUse) && Distinct(lru) && e in entries && e !in inUse
    ensures Minus(inUse, e) == inUse
    ensures Placed(entries, held + multiset{e}, Minus(lru, e), inUse + [e])
  {
    MinusHas(lru, e);
    MinusNone(inUse, e);
    assert forall x {:trigger x in inUse + [e]} :: x in inUse + [e] <==> x in inUse || x == e;
  }

  lemma StillUsed(entries: set<LRUHandle>, held: multiset<LRUHandle>, lru: seq<LRUHandle>, inUse: seq<LRUHandle>, e: LRUHandle)
    requires Placed(entries, held, lru, inUse) && e !in lru
    ensures Placed(entries, held + multiset{e}, lru, inUse) && Minus(lru, e) == lru
  {
    hide Minus;
    MinusNone(lru, e);
  }

  lemma NowUnused(entries: set<LRUHandle>, held: multiset<LRUHandle>, lru: seq<LRUHandle>, inUse: seq<LRUHandle>, e: LRUHandle)
    requires Placed(entries, held, lru, inUse) && Distinct(inUse) && e in entries && e !in lru && held[e] == 1
    ensures Minus(lru, e) == lru
    ensures Placed(entries, held - multiset{e}, lru + [e], Minus(inUse, e))
  {
    MinusHas(inUse, e);
    MinusNone(lru, e);
    assert forall x {:trigger x in lru + [e]} :: x in lru + [e] <==> x in lru || x == e;
  }

  lemma FirstOfLru(entries: set<LRUHandle>, held: multiset<LRUHandle>, lru: seq<LRUHandle>, inUse: seq<LRUHandle>)
    requires Placed(entries, held, lru, inUse) && lru != []
    ensures lru[0] in entries && Minus(lru, lru[0]) == lru[1..] && Minus(inUse, lru[0]) == inUse
  {
    assert lru[0] in lru;
    MinusNone(inUse, lru[0]);
  }

  lemma HeldMore(entries: set<LRUHandle>, held: multiset<LRUHandle>, lru: seq<LRUHandle>, inUse: seq<LRUHandle>, e: LRUHandle)
    requires Placed(entries, held, lru, inUse) && e !in entries
    ensures Placed(entries, held + multiset{e}, lru, inUse)
  {
  }

  lemma AddedToList(entries: set<LRUHandle>, held: multiset<LRUHandle>, lru: seq<LRUHandle>, inUse: seq<LRUHandle>, e: LRUHandle)
    requires Placed(entries, held, lru, inUse) && held[e] > 0 && e !in entries
    ensures e !in lru && e !in inUse && Placed(entries + {e}, held, lru, inUse + [e])
  {
    assert forall x {:trigger x in inUse + [e]} :: x in inUse + [e] <==> x in inUse || x == e;
  }

  lemma UsedIsHeld(entries: set<LRUHandle>, held: multiset<LRUHandle>, lru: seq<LRUHandle>, inUse: seq<LRUHandle>)
    requires Placed(entries, held, lru, inUse)
    ensures held == multiset{} ==> inUse == []
  {
    if inUse != [] {
      assert inUse[0] in inUse;
      assert inUse[0] in held;
    }
  }

  lemma TakenOut(entries: set<LRUHandle>, held: multiset<LRUHandle>, lru: seq<LRUHandle>, inUse: seq<LRUHandle>, e: LRUHandle)
    requires Placed(entries + {e}, held, lru, inUse) && Distinct(lru) && Distinct(inUse) && e !in entries
    ensures Placed(entries, held + multiset{e}, Minus(lru, e), Minus(inUse, e))
  {
    MinusHas(lru, e);
    MinusHas(inUse, e);
  }

  lemma StillPlaced(entries: set<LRUHandle>, held: multiset<LRUHandle>, lru: seq<LRUHandle>, inUse: seq<LRUHandle>, e: LRUHandle)
    requires Placed(entries, held, lru, inUse) && held[e] > 0 && (e in entries ==> held[e] > 1)
    ensures Placed(entries, held - multiset{e}, lru, inUse)
  {
  }

  // References are those of clients, and the cache's own; the deleter has run when there are none left.
  ghost predicate Counted(x: LRUHandle, clients: nat)
    reads x`refs, x`inCache, x`deletions
  {
    && x.refs == clients + (if x.inCache then 1 else 0)
    && x.deletions == (if x.refs == 0 then 1 else 0)
  }
}

/** The block cache: entries by key, evicted in order of use, and freed when nobody refers to them. */
module LRUCaches {
  import opened Bytes
  import opened LRUHandles
  import opened LRULists
  import opened LRUCacheSpec
  import opened HandleTables

  // The entry of a key among those of the table, null when there is none.
  ghost predicate Found(nodes: set<LRUHandle>, key: Key, hash: Word, e: LRUHandle?) {
    if e == null then forall a {:trigger a in nodes} :: a in nodes ==> !Matches(a, key, hash)
    else e in nodes && Matches(e, key, hash)
  }

  function Out(nodes: set<LRUHandle>, e: LRUHandle?): set<LRUHandle> {
    if e == null then nodes else nodes - {e}
  }

  function Off(list: seq<LRUHandle>, e: LRUHandle?): seq<LRUHandle> {
    if e == null then list else Minus(list, e)
  }

  function WithoutAll(nodes: set<LRUHandle>, gone: seq<LRUHandle>): set<LRUHandle> {
    set x | x in nodes && x !in gone
  }

  lemma WithoutOneMore(nodes: set<LRUHandle>, gone: seq<LRUHandle>, e: LRUHandle)
    ensures WithoutAll(nodes, gone + [e]) == WithoutAll(nodes, gone) - {e}
  {
  }

  lemma WithoutNone(nodes: set<LRUHandle>)
    ensures WithoutAll(nodes, []) == nodes
  {
  }

  class LRUCache {
    const capacity: nat
    const lru: LRUHandle      // head of the list of entries nobody uses, oldest first
    const inUse: LRUHandle    // head of the list of entries that clients hold
    const table: HandleTable
    var usage: nat
    ghost var lruList: seq<LRUHandle>
    ghost var inUseList: seq<LRUHandle>
    ghost var held: multiset<LRUHandle>    // what clients hold
    ghost var all: set<LRUHandle>          // every handle ever made

    ghost predicate Lists()
      reads `lruList, `inUseList, `all, lru`next, lru`prev, inUse`next, inUse`prev, all`next, all`prev
    {
      && lru != inUse && lru !in all && inUse !in all
      && (forall x :: x in lruList ==> x in all) && (forall x :: x in inUseList ==> x in all)
      && (forall x :: x in lruList ==> x !in inUseList)
      && Ring(lru, lruList) && Ring(inUse, inUseList)
    }

    ghost predicate Entries(entries: set<LRUHandle>)
      reads `lruList, `inUseList, `held, `all, `usage, all`inCache
    {
      && entries <= all && (forall x :: x in held ==> x in all)
      && Placed(entries, held, lruList, inUseList)
      && (forall x {:trigger x.inCache} :: x in all ==> (x.inCache <==> x in entries))
      && usage == Charges(lruList) + Charges(inUseList)
    }

    ghost predicate References()
      reads `held, `all, all`refs, all`inCache, all`deletions
    {
      forall x {:trigger x in all} {:trigger Counted(x, held[x])} :: x in all ==> Counted(x, held[x])
    }

    // In order, but for the cache's entries being those given.
    ghost predicate ValidWith(entries: set<LRUHandle>)
      reads this, lru, inUse, table, table.list, all, table.nodes
    {
      Lists() && table.Valid() && Entries(entries) && References()
    }

    ghost predicate Valid()
      reads this, lru, inUse, table, table.list, all, table.nodes
    {
      ValidWith(table.nodes)
    }

    // In order, but for an entry that is not in the table.
    ghost predicate Pending(e: LRUHandle?)
      reads this, lru, inUse, table, table.list, all, table.nodes
    {
      if e == null then Valid() else e !in table.nodes && ValidWith(table.nodes + {e})
    }

    constructor (capacity: nat)
      ensures Valid() && all == {} && held == multiset{} && usage == 0 && this.capacity == capacity
      ensures fresh(lru) && fresh(inUse) && fresh(table) && fresh(table.list)
    {
      this.capacity := capacity;
      var lruHead := new LRUHandle([], 0, 0);
      var inUseHead := new LRUHandle([], 0, 0);
      var handleTable := new HandleTable();
      lruHead.next, lruHead.prev := lruHead, lruHead;
      inUseHead.next, inUseHead.prev := inUseHead, inUseHead;
      lru, inUse, table, usage := lruHead, inUseHead, handleTable, 0;
      lruList, inUseList, held, all := [], [], multiset{}, {};
    }

    // ----- moving between the lists -----

    // Take a handle off its list.
    method LRU_Remove(e: LRUHandle)
      requires Lists() && (e in lruList || e in inUseList)
      modifies `lruList, `inUseList, lru`next, lru`prev, inUse`next, inUse`prev, all`next, all`prev
      ensures Lists() && lruList == Minus(old(lruList), e) && inUseList == Minus(old(inUseList), e)
      ensures e !in lruList && e !in inUseList
      ensures Charges(lruList) + Charges(inUseList) + e.charge == old(Charges(lruList) + Charges(inUseList))
    {
      hide Charges, Ring, Minus, Without, Distinct;
      ghost var head := if e in lruList then lru else inUse;
      ghost var nodes := if e in lruList then lruList else inUseList;
      ghost var k: nat :| k < |nodes| && nodes[k] == e;
      RingIsDistinct(head, nodes);
      Remove(e, head, nodes, k);
      Taken(nodes, e, k);
      if e in lruList {
        MinusNone(inUseList, e);
        lruList := Minus(lruList, e);
      } else {
        MinusNone(lruList, e);
        inUseList := Minus(inUseList, e);
      }
    }

    // Make a handle the newest on the list of those in use.
    method AppendToInUse(e: LRUHandle)
      requires Lists() && e in all && e !in lruList && e !in inUseList
      modifies `inUseList, inUse`next, inUse`prev, all`next, all`prev
      ensures Lists() && inUseList == old(inUseList) + [e]
      ensures Charges(inUseList) == old(Charges(inUseList)) + e.charge
    {
      hide Charges;
      Append(inUse, e, inUseList);
      ChargesAppend(inUseList, e);
      inUseList := inUseList + [e];
    }

    // Make a handle the newest on the list of those nobody uses.
    method AppendToLru(e: LRUHandle)
      requires Lists() && e in all && e !in lruList && e !in inUseList
      modifies `lruList, lru`next, lru`prev, all`next, all`prev
      ensures Lists() && lruList == old(lruList) + [e]
      ensures Charges(lruList) == old(Charges(lruList)) + e.charge
    {
      hide Charges;
      Append(lru, e, lruList);
      ChargesAppend(lruList, e);
      lruList := lruList + [e];
    }

    // ----- references -----

    // One more reference to an entry.
    method Ref(e: LRUHandle)
      requires Valid() && e in table.nodes
      modifies `lruList, `inUseList, `held, lru`next, lru`prev, inUse`next, inUse`prev, all`next, all`prev, e`refs
      ensures Valid() && held == old(held) + multiset{e}
      ensures lruList == Minus(old(lruList), e) && inUseList == old(inUseList) + if old(held[e]) == 0 then [e] else []
    {
      hide Lists, Charges, Minus, Distinct, Placed, Counted, HandleTable.Valid;
      ghost var heldWas := held;
      CountsOf(e);
      if e.refs == 1 && e.inCache {
        MoveToInUse(e);
      } else {
        EntryList(table.nodes, held, lruList, inUseList, e);
        StillUsed(table.nodes, held, lruList, inUseList, e);
      }
      AddReference(e);
    }

    lemma CountsOf(e: LRUHandle)
      requires References() && e in all
      ensures e.refs == held[e] + if e.inCache then 1 else 0
    {
      assert Counted(e, held[e]);
    }

    // An entry that somebody uses now.
    method MoveToInUse(e: LRUHandle)
      requires Lists() && Placed(table.nodes, held, lruList, inUseList) && e in table.nodes && held[e] == 0
      modifies `lruList, `inUseList, lru`next, lru`prev, inUse`next, inUse`prev, all`next, all`prev
      ensures Lists() && Placed(table.nodes, held + multiset{e}, lruList, inUseList)
      ensures lruList == Minus(old(lruList), e) && inUseList == old(inUseList) + [e]
      ensures Charges(lruList) + Charges(inUseList) == old(Charges(lruList) + Charges(inUseList))
    {
      hide Charges, Minus, Distinct, Placed, Ring;
      ghost var lruWas, inUseWas := lruList, inUseList;
      ListsDistinct();
      EntryList(table.nodes, held, lruList, inUseList, e);
      LRU_Remove(e);
      NowUsed(table.nodes, held, lruWas, inUseWas, e);
      AppendToInUse(e);
    }

    method AddReference(e: LRUHandle)
      requires References() && e in all && e.refs > 0
      modifies e`refs, `held
      ensures References() && held == old(held) + multiset{e}
    {
      assert Counted(e, held[e]);
      e.refs := e.refs + 1;
      held := held + multiset{e};
    }

    // One reference less; the last one lets go of the handle.
    method Unref(e: LRUHandle)
      requires Valid() && held[e] > 0
      modifies `lruList, `inUseList, `held, lru`next, lru`prev, inUse`next, inUse`prev, all`next, all`prev, e`refs, e`deletions
      ensures Valid() && held == old(held) - multiset{e}
      ensures lruList == old(lruList) + (if e in table.nodes && held[e] == 0 then [e] else [])
      ensures inUseList == if e in table.nodes && held[e] == 0 then Minus(old(inUseList), e) else old(inUseList)
    {
      hide Lists, Charges, Minus, Distinct, Placed, Counted, HandleTable.Valid;
      ghost var heldWas := held;
      var left := DropReference(e);
      if left != 0 && e.inCache && left == 1 {
        MoveToLru(e, heldWas);
      } else {
        StillPlaced(table.nodes, heldWas, lruList, inUseList, e);
      }
    }

    // An entry that nobody uses any more.
    method MoveToLru(e: LRUHandle, ghost heldWas: multiset<LRUHandle>)
      requires Lists() && Placed(table.nodes, heldWas, lruList, inUseList) && e in table.nodes && heldWas[e] == 1
      modifies `lruList, `inUseList, lru`next, lru`prev, inUse`next, inUse`prev, all`next, all`prev
      ensures Lists() && Placed(table.nodes, heldWas - multiset{e}, lruList, inUseList)
      ensures lruList == old(lruList) + [e] && inUseList == Minus(old(inUseList), e)
      ensures Charges(lruList) + Charges(inUseList) == old(Charges(lruList) + Charges(inUseList))
    {
      hide Charges, Minus, Distinct, Placed, Ring;
      ghost var lruWas, inUseWas := lruList, inUseList;
      ListsDistinct();
      EntryList(table.nodes, heldWas, lruList, inUseList, e);
      LRU_Remove(e);
      NowUnused(table.nodes, heldWas, lruWas, inUseWas, e);
      AppendToLru(e);
    }

    method DropReference(e: LRUHandle) returns (left: nat)
      requires References() && e in all && held[e] > 0
      modifies e`refs, e`deletions, `held
      ensures References() && held == old(held) - multiset{e} && left == held[e] + if e.inCache then 1 else 0
    {
      assert Counted(e, held[e]);
      e.refs := e.refs - 1;
      left := e.refs;
      held := held - multiset{e};
      if left == 0 {
        e.deletions := e.deletions + 1;
      }
      forall x | x in all
        ensures Counted(x, held[x])
      {
        assert old(Counted(x, held[x]));
        assert x != e ==> held[x] == old(held[x]);
      }
    }

    lemma ListsDistinct()
      requires Lists()
      ensures Distinct(lruList) && Distinct(inUseList)
    {
    }

    // ----- operations -----

    method Lookup(key: Key, hash: Word) returns (e: LRUHandle?)
      requires Valid()
      modifies this, lru, inUse, all
      ensures Valid() && table.nodes == old(table.nodes) && all == old(all) && usage == old(usage)
      ensures e != null ==> e in table.nodes && Matches(e, key, hash) && held == old(held) + multiset{e}
      ensures e == null ==> held == old(held) && forall a {:trigger a in table.nodes} :: a in table.nodes ==> !Matches(a, key, hash)
      ensures lruList == Off(old(lruList), e)
    {
      hide Lists, Charges, Minus, Distinct, Placed, Counted, HandleTable.Valid, Matches;
      e := table.Lookup(key, hash);
      if e != null {
        Ref(e);
      }
    }

    method Release(e: LRUHandle)
      requires Valid() && held[e] > 0
      modifies this, lru, inUse, all
      ensures Valid() && table.nodes == old(table.nodes) && all == old(all) && usage == old(usage)
      ensures held == old(held) - multiset{e}
      ensures lruList == old(lruList) + if e in table.nodes && held[e] == 0 then [e] else []
    {
      hide Lists, Charges, Minus, Placed, Counted, HandleTable.Valid;
      Unref(e);
    }

    // Finish taking an entry out that is no longer in the table.
    method FinishErase(e: LRUHandle?) returns (erased: bool)
      requires Pending(e)
      modifies this, lru, inUse, all
      ensures Valid() && erased == (e != null) && held == old(held) && all == old(all)
      ensures e != null ==> lruList == Minus(old(lruList), e) && inUseList == Minus(old(inUseList), e) && usage == old(usage) - e.charge
      ensures e == null ==> lruList == old(lruList) && inUseList == old(inUseList) && usage == old(usage)
    {
      hide Lists, Charges, Minus, Placed, Counted, HandleTable.Valid;
      if e != null {
        TakeOut(e);
        Unref(e);
      }
      return e != null;
    }

    // Take an entry off its list; its reference is now for the caller to drop.
    method TakeOut(e: LRUHandle)
      requires Pending(e)
      modifies `lruList, `inUseList, `held, `usage, lru`next, lru`prev, inUse`next, inUse`prev, all`next, all`prev, e`inCache
      ensures Valid() && held == old(held) + multiset{e}
      ensures lruList == Minus(old(lruList), e) && inUseList == Minus(old(inUseList), e) && usage == old(usage) - e.charge
    {
      hide Lists, Charges, Minus, Distinct, Placed, Counted, HandleTable.Valid;
      OffList(e, table.nodes);
      HandOver(e);
      usage := usage - e.charge;
    }

    method OffList(e: LRUHandle, ghost entries: set<LRUHandle>)
      requires Lists() && e !in entries && Placed(entries + {e}, held, lruList, inUseList)
      modifies `lruList, `inUseList, lru`next, lru`prev, inUse`next, inUse`prev, all`next, all`prev
      ensures Lists() && Placed(entries, held + multiset{e}, lruList, inUseList)
      ensures lruList == Minus(old(lruList), e) && inUseList == Minus(old(inUseList), e)
      ensures Charges(lruList) + Charges(inUseList) + e.charge == old(Charges(lruList) + Charges(inUseList))
    {
      hide Lists, Charges, Minus, Distinct, Placed;
      ghost var lruWas, inUseWas := lruList, inUseList;
      ListsDistinct();
      EntryList(entries + {e}, held, lruList, inUseList, e);
      LRU_Remove(e);
      TakenOut(entries, held, lruWas, inUseWas, e);
    }

    // The cache lets go of a handle; its reference stays for now.
    method HandOver(e: LRUHandle)
      requires References() && e in all && e.inCache
      modifies e`inCache, `held
      ensures References() && held == old(held) + multiset{e} && !e.inCache
    {
      assert Counted(e, held[e]);
      e.inCache := false;
      held := held + multiset{e};
    }

    /** Take the entry of a key out; it lives on while clients hold it. */
    method Erase(key: Key, hash: Word) returns (ghost gone: LRUHandle?)
      requires Valid()
      modifies this, lru, inUse, table, table.list, all
      ensures Valid() && held == old(held) && all == old(all) && table.nodes <= old(table.nodes) && table.list == old(table.list)
      ensures forall a {:trigger a in table.nodes} :: a in table.nodes ==> !Matches(a, key, hash)
      ensures forall a {:trigger a in old(table.nodes)} :: a in old(table.nodes) && !Matches(a, key, hash) ==> a in table.nodes
      ensures Found(old(table.nodes), key, hash, gone) && table.nodes == Out(old(table.nodes), gone) && lruList == Off(old(lruList), gone)
    {
      hide Lists, Charges, Minus, Placed, Counted, HandleTable.Valid, Matches;
      var e := RemoveFromTable(key, hash);
      var erased := FinishErase(e);
      gone := e;
    }

    // Take the entry of a key out of the table.
    method RemoveFromTable(key: Key, hash: Word) returns (e: LRUHandle?)
      requires Valid()
      modifies table, table.list, all`nextHash
      ensures Pending(e) && table.list == old(table.list)
      ensures table.nodes == (if e == null then old(table.nodes) else old(table.nodes) - {e})
      ensures e != null ==> e in old(table.nodes) && Matches(e, key, hash)
      ensures forall a {:trigger a in table.nodes} :: a in table.nodes ==> !Matches(a, key, hash)
    {
      hide Lists, Charges, Placed, Counted, HandleTable.Valid;
      ghost var was := table.nodes;
      e := table.Remove(key, hash);
      assert e != null ==> table.nodes + {e} == was;
    }

    // Evict the entry that has not been used for the longest time.
    method EvictOldest()
      requires Valid() && lruList != []
      modifies this, lru, inUse, table, table.list, all
      ensures Valid() && table.list == old(table.list) && held == old(held) && all == old(all)
      ensures lruList == old(lruList[1..]) && inUseList == old(inUseList) && table.nodes == old(table.nodes) - {old(lruList[0])}
      ensures usage == old(usage) - old(lruList[0]).charge
    {
      hide Lists, Charges, Placed, Counted, HandleTable.Valid, Minus;
      OldestIsNext();
      var oldest := lru.next;
      FirstOfLru(table.nodes, held, lruList, inUseList);
      var e := RemoveFromTable(oldest.key, oldest.hash);
      assert e == oldest;
      var erased := FinishErase(e);
    }

    lemma OldestIsNext()
      requires Lists()
      ensures lru.next == (if lruList == [] then lru else lruList[0]) && (lruList != [] ==> lruList[0] != lru)
    {
      Ends(lru, lruList);
    }

    // Evict entries, oldest first, for as long as the rest takes too much room.
    method EvictWhileFull() returns (ghost evicted: seq<LRUHandle>)
      requires Valid()
      modifies this, lru, inUse, table, table.list, all
      ensures Valid() && held == old(held) && all == old(all) && inUseList == old(inUseList) && table.list == old(table.list)
      ensures old(lruList) == evicted + lruList && table.nodes == WithoutAll(old(table.nodes), evicted)
      ensures usage <= capacity || lruList == []
      ensures evicted != [] ==> usage + evicted[|evicted| - 1].charge > capacity
    {
      hide Lists, Charges, Placed, Counted, HandleTable.Valid;
      evicted := [];
      OldestIsNext();
      while usage > capacity && lru.next != lru
        invariant Valid() && held == old(held) && all == old(all) && inUseList == old(inUseList) && table.list == old(table.list)
        invariant old(lruList) == evicted + lruList && table.nodes == WithoutAll(old(table.nodes), evicted)
        invariant evicted != [] ==> usage + evicted[|evicted| - 1].charge > capacity
        invariant lru.next != lru <==> lruList != []
        decreases |lruList|
      {
        WithoutOneMore(old(table.nodes), evicted, lruList[0]);
        evicted := evicted + [lruList[0]];
        EvictOldest();
        OldestIsNext();
      }
    }

    // A new handle, which the caller holds.
    method NewHandle(key: Key, hash: Word, charge: nat) returns (e: LRUHandle)
      requires Valid()
      modifies `held, `all
      ensures Valid() && fresh(e) && e.key == key && e.hash == hash && e.charge == charge && e.refs == 1 && !e.inCache
      ensures all == old(all) + {e} && held == old(held) + multiset{e} && e !in old(all)
    {
      hide Charges, Minus, Placed, HandleTable.Valid;
      e := new LRUHandle(key, hash, charge);
      HeldMore(table.nodes, held, lruList, inUseList, e);
      all := all + {e};
      held := held + multiset{e};
    }

    // Let the cache have a handle that only the caller holds; it is for the table to take in.
    method AddToList(e: LRUHandle)
      requires Valid() && e in all && e.refs == 1 && held[e] == 1 && !e.inCache
      modifies `inUseList, `usage, inUse`next, inUse`prev, all`next, all`prev, e`refs, e`inCache
      ensures Pending(e)
      ensures inUseList == old(inUseList) + [e] && usage == old(usage) + e.charge
    {
      hide Lists, Charges, Minus, Placed, HandleTable.Valid;
      AddedToList(table.nodes, held, lruList, inUseList, e);
      CountsOf(e);
      e.refs := e.refs + 1;
      e.inCache := true;
      AppendToInUse(e);
      usage := usage + e.charge;
    }

    /** Evict all that nobody uses. */
    method Prune()
      requires Valid()
      modifies this, lru, inUse, table, table.list, all
      ensures Valid() && held == old(held) && all == old(all) && lruList == [] && inUseList == old(inUseList)
      ensures table.list == old(table.list) && table.nodes == WithoutAll(old(table.nodes), old(lruList))
    {
      hide Lists, Charges, Placed, Counted, HandleTable.Valid, WithoutAll;
      ghost var pruned := [];
      WithoutNone(table.nodes);
      OldestIsNext();
      while lru.next != lru
        invariant Valid() && held == old(held) && all == old(all) && inUseList == old(inUseList) && table.list == old(table.list)
        invariant lru.next != lru <==> lruList != []
        invariant old(lruList) == pruned + lruList && table.nodes == WithoutAll(old(table.nodes), pruned)
        decreases |lruList|
      {
        WithoutOneMore(old(table.nodes), pruned, lruList[0]);
        pruned := pruned + [lruList[0]];
        EvictOldest();
        OldestIsNext();
      }
      assert pruned + [] == pruned;
    }

    // Let the table take in a handle that is on a list; the one it replaces is for the caller to finish.
    method AddToTable(e: LRUHandle) returns (replaced: LRUHandle?)
      requires Pending(e)
      modifies table, table.list, all`nextHash
      ensures Pending(replaced)
      ensures table.nodes == (if replaced == null then old(table.nodes) else old(table.nodes) - {replaced}) + {e}
      ensures Found(old(table.nodes), e.key, e.hash, replaced)
      ensures table.list == old(table.list) || fresh(table.list)
    {
      hide Lists, Charges, Placed, Counted, HandleTable.Valid, Matches;
      ghost var was := table.nodes;
      replaced := table.Insert(e);
      assert replaced != null ==> table.nodes + {replaced} == was + {e};
    }

    /** Put an entry in, in place of the one of its key, and evict the oldest ones that nobody uses until there
        is room, or none are left. */
    method Insert(key: Key, hash: Word, charge: nat) returns (e: LRUHandle, ghost replaced: LRUHandle?, ghost evicted: seq<LRUHandle>)
      requires Valid()
      modifies this, lru, inUse, table, table.list, all
      ensures Valid() && fresh(e) && e.key == key && e.hash == hash && e.charge == charge
      ensures table.list == old(table.list) || fresh(table.list)
      ensures all == old(all) + {e} && held == old(held) + multiset{e}
      ensures capacity > 0 ==> e in table.nodes
      ensures usage <= capacity || lruList == []
      ensures if capacity > 0 then Found(old(table.nodes), key, hash, replaced) else replaced == null
      ensures Off(old(lruList), replaced) == evicted + lruList
      ensures table.nodes == WithoutAll(if capacity > 0 then Out(old(table.nodes), replaced) + {e} else old(table.nodes), evicted)
      ensures evicted != [] ==> usage + evicted[|evicted| - 1].charge > capacity
    {
      hide Lists, Charges, Placed, Counted, HandleTable.Valid, Matches, Minus;
      e := NewHandle(key, hash, charge);
      replaced := null;
      if capacity > 0 {
        replaced := Cache(e);
      }
      ghost var unused := lruList;
      evicted := EvictWhileFull();
      assert e in evicted ==> e in unused;
    }

    method Cache(e: LRUHandle) returns (ghost replaced: LRUHandle?)
      requires Valid() && e in all && e.refs == 1 && held[e] == 1 && !e.inCache
      modifies this, lru, inUse, table, table.list, all
      ensures Valid() && all == old(all) && held == old(held) && (table.list == old(table.list) || fresh(table.list))
      ensures Found(old(table.nodes), e.key, e.hash, replaced) && table.nodes == Out(old(table.nodes), replaced) + {e}
      ensures lruList == Off(old(lruList), replaced)
      ensures e in inUseList && e !in lruList
    {
      hide Lists, Charges, Placed, Counted, HandleTable.Valid, Matches, Minus;
      AddToList(e);
      var other := AddToTable(e);
      var erased := FinishErase(other);
      replaced := other;
      EntryList(table.nodes, held, lruList, inUseList, e);
    }

    /** Throw the cache away, when no client holds an entry. In the end the deleter has run exactly once for every
        handle ever made that no client still holds. */
    method Destroy()
      requires Valid() && inUseList == []
      modifies this, lru, inUse, table, table.list, all
      ensures all == old(all) && held == old(held)
      ensures forall x {:trigger x in all} :: x in all ==> x.deletions == if held[x] == 0 then 1 else 0
    {
      hide Lists, References, Charges, Placed, Kept, HandleTable.Valid;
      ghost var i := 0;
      OldestIsNext();
      OnlyUnused();
      var e := lru.next;
      while e != lru
        invariant Lists() && References() && all == old(all) && held == old(held) && lruList == old(lruList)
        invariant (i < |lruList| ==> e in all && lruList[i] != lru) && i <= |lruList| && e == (if i < |lruList| then lruList[i] else lru)
        invariant Kept(i)
        decreases |lruList| - i
      {
        AfterOldest(i);
        var next := e.next;
        LetGo(e, i);
        e, i := next, i + 1;
      }
      AllLetGo(i);
    }

    // The cache still refers to the entries from position i on that nobody uses, and to no others.
    ghost predicate Kept(i: nat)
      reads `lruList, `all, all`inCache
    {
      && (forall j :: i <= j < |lruList| ==> lruList[j] in all && lruList[j].inCache)
      && (forall x {:trigger x in all} :: x in all && x.inCache ==> exists j :: i <= j < |lruList| && lruList[j] == x)
    }

    lemma OnlyUnused()
      requires Entries(table.nodes) && inUseList == []
      ensures Kept(0) && (lruList != [] ==> lruList[0] in all)
    {
      forall j | 0 <= j < |lruList|
        ensures lruList[j] in all && lruList[j].inCache
      {
        assert lruList[j] in lruList;
      }
    }

    lemma AfterOldest(i: nat)
      requires Lists() && i < |lruList|
      ensures (i + 1 < |lruList| ==> lruList[i + 1] in all) && lruList[i] in all
      ensures lruList[i].next == (if i + 1 < |lruList| then lruList[i + 1] else lru) && lruList[i] != lru
      ensures forall j :: 0 <= j < |lruList| && j != i ==> lruList[j] != lruList[i]
      ensures i + 1 < |lruList| ==> lruList[i + 1] != lru
    {
      Neighbours(lru, lruList, i);
    }

    // Drop the cache's reference.
    method LetGo(e: LRUHandle, ghost i: nat)
      requires Lists() && References() && Kept(i) && i < |lruList| && e == lruList[i]
      modifies `held, e`inCache, e`refs, e`deletions
      ensures Lists() && References() && Kept(i + 1) && held == old(held) && e in old(all)
    {
      hide Lists, Counted;
      AfterOldest(i);
      HandOver(e);
      var left := DropReference(e);
    }

    lemma AllLetGo(i: nat)
      requires References() && Kept(i) && i >= |lruList|
      ensures forall x {:trigger x in all} :: x in all ==> x.deletions == if held[x] == 0 then 1 else 0
    {
    }
  }

  // ----- every run -----

  // What a client may do: Release gives back one of the handles that it holds, counted from 0.
  datatype Op =
    | Insert(key: Key, hash: Word, charge: nat)
    | Lookup(key: Key, hash: Word)
    | Release(which: nat)
    | Erase(key: Key, hash: Word)
    | Prune

  // What a client sees of a cache: the entries in the table, and those that nobody uses, from the one that has been
  // unused for the longest time on.
  datatype View = View(nodes: set<LRUHandle>, unused: seq<LRUHandle>)

  // What an operation does to it, and to the handles that clients hold. An insertion and a lookup hand out `e`, an
  // erasure takes it out; an insertion also takes out the entry replaced, and evicts some.
  ghost predicate Did(op: Op, capacity: nat, before: View, after: View, clients: seq<LRUHandle>, clients': seq<LRUHandle>,
                      e: LRUHandle?, replaced: LRUHandle?, evicted: seq<LRUHandle>) {
    match op
    case Insert(key, hash, charge) =>
      && e != null && e.key == key && e.hash == hash && e.charge == charge && clients' == clients + [e]
      && (if capacity > 0 then Found(before.nodes, key, hash, replaced) else replaced == null)
      && Off(before.unused, replaced) == evicted + after.unused
      && after.nodes == WithoutAll(if capacity > 0 then Out(before.nodes, replaced) + {e} else before.nodes, evicted)
    case Lookup(key, hash) =>
      && Found(before.nodes, key, hash, e) && clients' == clients + (if e == null then [] else [e])
      && after == View(before.nodes, Off(before.unused, e))
    case Release(which) =>
      if which < |clients| then
        && clients' == clients[..which] + clients[which + 1..]
        && var given := clients[which];
           after == View(before.nodes, before.unused + if given in before.nodes && given !in clients' then [given] else [])
      else clients' == clients && after == before
    case Erase(key, hash) =>
      && Found(before.nodes, key, hash, e) && clients' == clients
      && after == View(Out(before.nodes, e), Off(before.unused, e))
    case Prune => clients' == clients && after == View(WithoutAll(before.nodes, before.unused), [])
  }

  method InsertFor(cache: LRUCache, key: Key, hash: Word, charge: nat, clients: seq<LRUHandle>)
      returns (clients': seq<LRUHandle>, ghost e: LRUHandle?, ghost replaced: LRUHandle?, ghost evicted: seq<LRUHandle>)
    requires cache.Valid() && cache.held == multiset(clients)
    modifies cache, cache.lru, cache.inUse, cache.table, cache.table.list, cache.all
    ensures cache.Valid() && cache.held == multiset(clients') && old(cache.all) <= cache.all
    ensures fresh(cache.all - old(cache.all)) && (cache.table.list == old(cache.table.list) || fresh(cache.table.list))
    ensures Did(Insert(key, hash, charge), cache.capacity, old(View(cache.table.nodes, cache.lruList)), View(cache.table.nodes, cache.lruList),
                clients, clients', e, replaced, evicted)
    ensures e !in old(cache.all) && cache.all == old(cache.all) + {e} && (cache.usage <= cache.capacity || cache.lruList == [])
    ensures evicted != [] ==> cache.usage + evicted[|evicted| - 1].charge > cache.capacity
  {
    hide *;
    var made;
    made, replaced, evicted := cache.Insert(key, hash, charge);
    e, clients' := made, clients + [made];
    InsertDid(cache.capacity, old(View(cache.table.nodes, cache.lruList)), View(cache.table.nodes, cache.lruList), clients, made, replaced, evicted);
  }

  lemma InsertDid(capacity: nat, before: View, after: View, clients: seq<LRUHandle>, e: LRUHandle, replaced: LRUHandle?, evicted: seq<LRUHandle>)
    requires if capacity > 0 then Found(before.nodes, e.key, e.hash, replaced) else replaced == null
    requires Off(before.unused, replaced) == evicted + after.unused
    requires after.nodes == WithoutAll(if capacity > 0 then Out(before.nodes, replaced) + {e} else before.nodes, evicted)
    ensures Did(Insert(e.key, e.hash, e.charge), capacity, before, after, clients, clients + [e], e, replaced, evicted)
  {
    hide Found, Off, WithoutAll, Out;
  }

  method LookupFor(cache: LRUCache, key: Key, hash: Word, clients: seq<LRUHandle>)
      returns (clients': seq<LRUHandle>, ghost e: LRUHandle?)
    requires cache.Valid() && cache.held == multiset(clients)
    modifies cache, cache.lru, cache.inUse, cache.table, cache.table.list, cache.all
    ensures cache.Valid() && cache.held == multiset(clients') && cache.all == old(cache.all) && cache.table.list == old(cache.table.list)
    ensures Did(Lookup(key, hash), cache.capacity, old(View(cache.table.nodes, cache.lruList)), View(cache.table.nodes, cache.lruList),
                clients, clients', e, null, [])
  {
    hide LRUCache.Valid, LRUCache.ValidWith, Matches, Minus, Off;
    var found := cache.Lookup(key, hash);
    e, clients' := found, clients;
    if found != null {
      clients' := clients + [found];
    }
    assert clients + [] == clients;
  }

  method ReleaseFor(cache: LRUCache, which: nat, clients: seq<LRUHandle>) returns (clients': seq<LRUHandle>)
    requires cache.Valid() && cache.held == multiset(clients)
    modifies cache, cache.lru, cache.inUse, cache.table, cache.table.list, cache.all
    ensures cache.Valid() && cache.held == multiset(clients') && cache.all == old(cache.all) && cache.table.list == old(cache.table.list)
    ensures Did(Release(which), cache.capacity, old(View(cache.table.nodes, cache.lruList)), View(cache.table.nodes, cache.lruList),
                clients, clients', null, null, [])
  {
    hide LRUCache.Valid, LRUCache.ValidWith;
    clients' := clients;
    if which < |clients| {
      GiveBack(clients, which);
      cache.Release(clients[which]);
      clients' := clients[..which] + clients[which + 1..];
      StillHeld(clients', clients[which]);
    }
  }

  method EraseFor(cache: LRUCache, key: Key, hash: Word, clients: seq<LRUHandle>) returns (ghost e: LRUHandle?)
    requires cache.Valid() && cache.held == multiset(clients)
    modifies cache, cache.lru, cache.inUse, cache.table, cache.table.list, cache.all
    ensures cache.Valid() && cache.held == multiset(clients) && cache.all == old(cache.all) && cache.table.list == old(cache.table.list)
    ensures Did(Erase(key, hash), cache.capacity, old(View(cache.table.nodes, cache.lruList)), View(cache.table.nodes, cache.lruList),
                clients, clients, e, null, [])
  {
    hide LRUCache.Valid, LRUCache.ValidWith, Found, Off, Out;
    e := cache.Erase(key, hash);
  }

  method TakeStep(cache: LRUCache, op: Op, clients: seq<LRUHandle>)
      returns (clients': seq<LRUHandle>, ghost e: LRUHandle?, ghost replaced: LRUHandle?, ghost evicted: seq<LRUHandle>)
    requires cache.Valid() && cache.held == multiset(clients)
    modifies cache, cache.lru, cache.inUse, cache.table, cache.table.list, cache.all
    ensures cache.Valid() && cache.held == multiset(clients') && old(cache.all) <= cache.all
    ensures fresh(cache.all - old(cache.all)) && (cache.table.list == old(cache.table.list) || fresh(cache.table.list))
    ensures Did(op, cache.capacity, old(View(cache.table.nodes, cache.lruList)), View(cache.table.nodes, cache.lruList),
                clients, clients', e, replaced, evicted)
    // An insertion evicts until there is room or nothing left to evict, and no more than that.
    ensures op.Insert? ==> e !in old(cache.all) && (cache.usage <= cache.capacity || cache.lruList == [])
    ensures op.Insert? && evicted != [] ==> cache.usage + evicted[|evicted| - 1].charge > cache.capacity
    ensures |cache.all| == |old(cache.all)| + if op.Insert? then 1 else 0
  {
    hide LRUCache.Valid, LRUCache.ValidWith, WithoutAll, Found, Off, Out;
    clients', e, replaced, evicted := clients, null, null, [];
    match op {
      case Insert(key, hash, charge) =>
        clients', e, replaced, evicted := InsertFor(cache, key, hash, charge, clients);
      case Lookup(key, hash) =>
        clients', e := LookupFor(cache, key, hash, clients);
      case Release(which) =>
        clients' := ReleaseFor(cache, which, clients);
      case Erase(key, hash) =>
        e := EraseFor(cache, key, hash, clients);
      case Prune =>
        cache.Prune();
    }
  }

  lemma GiveBack(clients: seq<LRUHandle>, which: nat)
    requires which < |clients|
    ensures multiset(clients)[clients[which]] > 0
    ensures multiset(clients[..which] + clients[which + 1..]) == multiset(clients) - multiset{clients[which]}
  {
    assert clients == clients[..which] + [clients[which]] + clients[which + 1..];
  }

  lemma StillHeld(clients: seq<LRUHandle>, e: LRUHandle)
    ensures e in clients <==> multiset(clients)[e] > 0
  {
    assert e in clients <==> e in multiset(clients);
  }

  // How many handles the operations make.
  function Inserts(ops: seq<Op>): nat {
    if ops == [] then 0 else Inserts(ops[..|ops| - 1]) + if ops[|ops| - 1].Insert? then 1 else 0
  }

  /** Whatever clients do with a cache, once they have given everything back and it is thrown away, the deleter has
      run exactly once for every handle ever made, one for each insertion. */
  method Run(capacity: nat, ops: seq<Op>) returns (cache: LRUCache)
    ensures |cache.all| == Inserts(ops)
    ensures forall x {:trigger x in cache.all} :: x in cache.all ==> x.deletions == 1
  {
    hide LRUCache.Valid, LRUCache.ValidWith;
    cache := new LRUCache(capacity);
    var clients: seq<LRUHandle> := [];
    for i := 0 to |ops|
      invariant fresh(cache) && fresh(cache.lru) && fresh(cache.inUse) && fresh(cache.table) && fresh(cache.table.list) && fresh(cache.all)
      invariant cache.Valid() && cache.held == multiset(clients) && |cache.all| == Inserts(ops[..i])
    {
      assert ops[..i + 1][..i] == ops[..i];
      ghost var e, replaced, evicted;
      clients, e, replaced, evicted := TakeStep(cache, ops[i], clients);
    }
    assert ops[..|ops|] == ops;
    while clients != []
      invariant fresh(cache) && fresh(cache.lru) && fresh(cache.inUse) && fresh(cache.table) && fresh(cache.table.list) && fresh(cache.all)
      invariant cache.Valid() && cache.held == multiset(clients) && |cache.all| == Inserts(ops)
      decreases |clients|
    {
      ghost var e, replaced, evicted;
      clients, e, replaced, evicted := TakeStep(cache, Release(0), clients);
    }
    NothingInUse(cache);
    cache.Destroy();
  }

  lemma NothingInUse(cache: LRUCache)
    requires cache.Valid() && cache.held == multiset([])
    ensures cache.inUseList == []
  {
    UsedIsHeld(cache.table.nodes, cache.held, cache.lruList, cache.inUseList);
  }
}
