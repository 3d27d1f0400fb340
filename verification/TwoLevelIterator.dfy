/** Iterating over blocks of entries through an index of them. */
module TwoLevelSpec {
  import opened Options
  import opened InternalKeys
  import opened CompactionSpec

  // Where block i begins.
  function StartOf(blocks: seq<seq<Entry>>, i: nat): nat
    requires i <= |blocks|
  {
    |Concat(blocks[..i])|
  }

  // Block i's entries are in the flat list where the block begins.
  lemma {:induction false} InFlat(blocks: seq<seq<Entry>>, i: nat)
    requires i < |blocks|
    ensures StartOf(blocks, i + 1) == StartOf(blocks, i) + |blocks[i]| <= |Concat(blocks)|
    ensures Concat(blocks)[StartOf(blocks, i)..StartOf(blocks, i + 1)] == blocks[i]
  {
    var n := |blocks| - 1;
    assert blocks[..i + 1][..i] == blocks[..i];
    if i < n {
      InFlat(blocks[..n], i);
      assert blocks[..n][..i] == blocks[..i] && blocks[..n][..i + 1] == blocks[..i + 1];
    } else {
      assert blocks[..i + 1] == blocks;
    }
  }

  // Every position of the flat list is in some block.
  lemma {:induction false} BlockOf(blocks: seq<seq<Entry>>, p: nat) returns (i: nat, q: nat)
    requires p < |Concat(blocks)|
    ensures i < |blocks| && q < |blocks[i]| && p == StartOf(blocks, i) + q && Concat(blocks)[p] == blocks[i][q]
  {
    var n := |blocks| - 1;
    if p < |Concat(blocks[..n])| {
      i, q := BlockOf(blocks[..n], p);
      assert blocks[..n][..i] == blocks[..i];
    } else {
      i, q := n, p - |Concat(blocks[..n])|;
    }
  }

  lemma StartsAscend(blocks: seq<seq<Entry>>, i: nat, j: nat)
    requires i <= j <= |blocks|
    ensures StartOf(blocks, i) <= StartOf(blocks, j)
    decreases j
  {
    if i < j {
      InFlat(blocks, j - 1);
      StartsAscend(blocks, i, j - 1);
    }
  }

  // The key of an index entry is at or after every entry of its block, and before those of later blocks.
  ghost predicate Separates(index: seq<Entry>, blocks: seq<seq<Entry>>, i: nat)
    requires i < |index| == |blocks|
  {
    && (forall q :: 0 <= q < |blocks[i]| ==> !Before(index[i].key, blocks[i][q].key))
    && (forall j, q :: i < j < |blocks| && 0 <= q < |blocks[j]| ==> Before(index[i].key, blocks[j][q].key))
  }

  ghost predicate Indexed(index: seq<Entry>, blocks: seq<seq<Entry>>) {
    && |index| == |blocks| && Sorted(index)
    && (forall i {:trigger Separates(index, blocks, i)} :: 0 <= i < |index| ==> Separates(index, blocks, i))
    && (forall i, j :: 0 <= i < j < |index| ==> index[i].value != index[j].value)
  }

  lemma LowerBoundIs(es: seq<Entry>, target: InternalKey, p: nat)
    requires p <= |es| && (forall i :: 0 <= i < p ==> Before(es[i].key, target)) && (p < |es| ==> !Before(es[p].key, target))
    ensures LowerBound(es, target) == p
  {
  }

  /** Seeking in the index and then in the block it leads to finds the place in the flat list. */
  lemma SeekInBlock(index: seq<Entry>, blocks: seq<seq<Entry>>, target: InternalKey)
    requires Indexed(index, blocks)
    ensures var i := LowerBound(index, target);
            LowerBound(Concat(blocks), target) == if i < |index| then StartOf(blocks, i) + LowerBound(blocks[i], target) else |Concat(blocks)|
  {
    var i, all := LowerBound(index, target), Concat(blocks);
    var p := if i < |index| then StartOf(blocks, i) + LowerBound(blocks[i], target) else |all|;
    if i < |index| {
      InFlat(blocks, i);
    }
    forall k | 0 <= k < p
      ensures Before(all[k].key, target)
    {
      var j, q := BlockOf(blocks, k);
      if j < i {
        assert Separates(index, blocks, j);
        BeforeIsStrictTotalOrder(all[k].key, index[j].key, target);
      } else {
        StartsAscend(blocks, i, j);
        if i < j {
          InFlat(blocks, i);
          StartsAscend(blocks, i + 1, j);
        }
      }
    }
    if p < |all| {
      var j, q := BlockOf(blocks, p);
      if j < i {
        InFlat(blocks, j);
        StartsAscend(blocks, j + 1, i);
      } else if j > i {
        assert Separates(index, blocks, i);
        BeforeIsStrictTotalOrder(index[i].key, all[p].key, target);
      }
    }
    LowerBoundIs(all, target, p);
  }
}

module TwoLevelIterators {
  import opened Options
  import opened InternalKeys
  import opened Cursors
  import opened CompactionSpec
  import opened TwoLevelSpec

  class TwoLevelIterator {
    const index: Cursor
    const blockFunction: Bytes -> seq<Entry>   // the entries of the block with a handle
    var data: Cursor?                          // a cursor over the current block
    var dataBlockHandle: Bytes                 // the handle that it was made from
    ghost const blocks: seq<seq<Entry>>

    // ----- what is iterated over -----

    ghost predicate Sound()
      reads this, index, data
    {
      && Indexed(index.entries, blocks) && index.pos <= |blocks| && index != data
      && (forall i :: 0 <= i < |blocks| ==> blockFunction(index.entries[i].value) == blocks[i])
      && (data != null ==> data.entries == blockFunction(dataBlockHandle) && data.pos <= |data.entries|)
    }

    ghost function All(): seq<Entry> {
      Concat(blocks)
    }

    // The data cursor is over the block that the index is at.
    ghost predicate OnBlock()
      reads this, index, data
    {
      && Sound() && (index.pos < |blocks| <==> data != null)
      && (data != null ==> dataBlockHandle == index.entries[index.pos].value && data.entries == blocks[index.pos])
    }

    ghost predicate Valid()
      reads this, index, data
    {
      OnBlock() && (data != null ==> data.pos < |data.entries|)
    }

    // The position in the whole list; its length when there is no current entry.
    ghost function Pos(): (p: nat)
      reads this, index, data
      requires OnBlock()
    {
      if data == null then |All()| else StartOf(blocks, index.pos) + data.pos
    }

    predicate IsValid()
      reads this, data
    {
      data != null && data.Valid()
    }

    /** The current entry is the one at the position. */
    lemma CurrentEntry()
      requires Valid()
      ensures Pos() <= |All()| && (IsValid() <==> Pos() < |All()|)
      ensures IsValid() ==> data.entries[data.pos] == All()[Pos()]
    {
      if data != null {
        InFlat(blocks, index.pos);
        assert All()[StartOf(blocks, index.pos)..StartOf(blocks, index.pos + 1)][data.pos] == blocks[index.pos][data.pos];
      }
    }

    constructor (index: Cursor, blockFunction: Bytes -> seq<Entry>, ghost blocks: seq<seq<Entry>>)
      requires Indexed(index.entries, blocks) && index.pos == |index.entries|
      requires forall i :: 0 <= i < |blocks| ==> blockFunction(index.entries[i].value) == blocks[i]
      ensures Valid() && Pos() == |All()| && this.index == index && this.blocks == blocks
    {
      this.index, this.blockFunction, this.blocks := index, blockFunction, blocks;
      data, dataBlockHandle := null, [];
    }

    // ----- moving from block to block -----

    // Have the data cursor be over the block that the index is at; one that is stays where it is.
    method InitDataBlock()
      requires Sound()
      modifies this`data, this`dataBlockHandle
      ensures OnBlock() && (data == null || data == old(data) || fresh(data))
    {
      if !index.Valid() {
        data := null;
      } else {
        var handle := index.Value();
        if data != null && handle == dataBlockHandle {
        } else {
          var cursor := new Cursor(blockFunction(handle));
          dataBlockHandle := handle;
          data := cursor;
        }
      }
    }

    // On to the first entry at or after the position.
    method SkipEmptyDataBlocksForward()
      requires OnBlock() && (data != null ==> data.pos <= |data.entries|)
      modifies this, index, data
      ensures Valid() && Pos() == old(Pos()) && (data == null || data == old(data) || fresh(data))
    {
      hide Concat, StartOf, Indexed;
      SameLength();
      ghost var p := Pos();
      while data == null || !data.Valid()
        invariant OnBlock() && Pos() == p && (data == null || data == old(data) || fresh(data))
        decreases |blocks| - index.pos, data != null
      {
        if !index.Valid() {
          data := null;
          return;
        }
        InFlat(blocks, index.pos);
        index.Next();
        InitDataBlock();
        if data != null {
          data.SeekToFirst();
        }
        NoMore();
      }
    }

    lemma SameLength()
      requires Sound()
      ensures |index.entries| == |blocks|
    {
    }

    lemma FromTheStart()
      ensures StartOf(blocks, 0) == 0
    {
      assert blocks[..0] == [];
    }

    lemma NoMore()
      ensures StartOf(blocks, |blocks|) == |All()|
    {
      assert blocks[..|blocks|] == blocks;
    }

    // Back to the last entry before block `index.pos`, or before its end when `inside`.
    method SkipEmptyDataBlocksBackward()
      requires OnBlock() && (data != null ==> data.pos <= |data.entries|)
      modifies this, index, data
      ensures Valid() && (data == null || data == old(data) || fresh(data))
      ensures old(data != null && data.pos < |data.entries|) ==> Pos() == old(Pos())
      ensures old(data != null && data.pos == |data.entries|) ==> Pos() == Before(old(StartOf(blocks, index.pos)))
      ensures old(data == null) ==> Pos() == |All()|
    {
      hide Concat, StartOf, Indexed;
      SameLength();
      FromTheStart();
      ghost var end := if data != null then StartOf(blocks, index.pos) else 0;
      while data == null || !data.Valid()
        invariant OnBlock() && (data == null || data == old(data) || fresh(data))
        invariant old(data == null) ==> data == null
        invariant old(data != null && data.pos < |data.entries|) ==> data == old(data) && data.pos == old(data.pos) && index.pos == old(index.pos)
        invariant old(data != null && data.pos == |data.entries|) ==>
                    if data == null then end == 0
                    else if data.pos == |data.entries| then StartOf(blocks, index.pos) == end
                    else StartOf(blocks, index.pos) + data.pos == end - 1
        decreases if data == null then 0 else index.pos + 1
      {
        if !index.Valid() {
          data := null;
          return;
        }
        if index.pos > 0 {
          InFlat(blocks, index.pos - 1);
        }
        index.Prev();
        InitDataBlock();
        if data != null {
          data.SeekToLast();
        }
      }
    }

    // The position before p; there is none before the first.
    ghost function Before(p: nat): nat {
      if p == 0 then |All()| else p - 1
    }

    // ----- the iterator -----

    method Seek(target: InternalKey)
      requires Valid()
      modifies this, index, data
      ensures Valid() && Pos() == LowerBound(All(), target) && (data == null || data == old(data) || fresh(data))
    {
      index.Seek(target);
      InitDataBlock();
      if data != null {
        data.Seek(target);
      }
      SeekInBlock(index.entries, blocks, target);
      SkipEmptyDataBlocksForward();
    }

    method SeekToFirst()
      requires Valid()
      modifies this, index, data
      ensures Valid() && Pos() == 0 && (data == null || data == old(data) || fresh(data))
    {
      index.SeekToFirst();
      InitDataBlock();
      if data != null {
        data.SeekToFirst();
      }
      FromTheStart();
      SkipEmptyDataBlocksForward();
    }

    method SeekToLast()
      requires Valid()
      modifies this, index, data
      ensures Valid() && Pos() == (if |All()| == 0 then 0 else |All()| - 1) && (data == null || data == old(data) || fresh(data))
    {
      hide Concat, StartOf, Indexed;
      SameLength();
      NoMore();
      FromTheStart();
      index.SeekToLast();
      InitDataBlock();
      if data != null {
        InFlat(blocks, index.pos);
        assert StartOf(blocks, index.pos) + |data.entries| == |All()|;
        data.SeekToLast();
        assert OnBlock() && data.pos <= |data.entries|;
      }
      SkipEmptyDataBlocksBackward();
    }

    method Next()
      requires Valid() && IsValid()
      modifies this, index, data
      ensures Valid() && Pos() == old(Pos()) + 1 && (data == null || data == old(data) || fresh(data))
    {
      data.Next();
      SkipEmptyDataBlocksForward();
    }

    method Prev()
      requires Valid() && IsValid()
      modifies this, index, data
      ensures Valid() && Pos() == Before(old(Pos())) && (data == null || data == old(data) || fresh(data))
    {
      data.Prev();
      SkipEmptyDataBlocksBackward();
    }
  }
}
