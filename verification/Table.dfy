/** What a table file holds: blocks of entries, an index of them, and where they are. */
module TableSpec {
  import opened Options
  import opened Bytes
  import opened Varints
  import opened InternalKeys
  import opened CompactionSpec
  import opened TwoLevelSpec
  import FilterBlocks

  const BLOCK_TRAILER_SIZE := 5

  type FilterKey = seq<Byte>

  datatype BlockHandle = BlockHandle(offset: nat, size: nat) {
    function Encode(): seq<Byte> {
      Varint(offset) + Varint(size)
    }

    predicate Fits() {
      offset < 0x1_0000_0000_0000_0000 && size < 0x1_0000_0000_0000_0000
    }

    // The offset behind the block and its trailer.
    function End(): nat {
      offset + size + BLOCK_TRAILER_SIZE
    }
  }

  type File = map<BlockHandle, seq<Entry>>

  function DecodeHandle(v: InternalKeys.Bytes): Option<BlockHandle> {
    if exists i :: 0 <= i < |v| && !(0 <= v[i] < 256) then None
    else
      var s: seq<Byte> := v;
      match VarintAt(s, 10)
      case None => None
      case Some((offset, n)) =>
        match VarintAt(s[n..], 10)
        case None => None
        case Some((size, _)) => Some(BlockHandle(offset, size))
  }

  lemma HandleRoundTrip(h: BlockHandle)
    requires h.Fits()
    ensures DecodeHandle(h.Encode()) == Some(h)
  {
    hide Varint;
    VarintLength(h.offset);
    VarintLength(h.size);
    VarintRoundTrip(h.offset, Varint(h.size), 10);
    VarintRoundTrip(h.size, [], 10);
    assert h.Encode()[|Varint(h.offset)|..] == Varint(h.size) == Varint(h.size) + [];
  }

  // ----- index keys -----

  /** A key that ends one block before the next: the last key itself, or one of a user key strictly between. */
  predicate Divides(sep: InternalKey, last: InternalKey, next: Option<InternalKey>) {
    && !Before(sep, last)
    && (sep == last || last.userKey < sep.userKey)
    && (next.Some? ==> Before(sep, next.value) && (sep == last || sep.userKey < next.value.userKey))
  }

  datatype TableOptions = TableOptions(
    blockSize: nat,
    estimate: seq<Entry> -> nat,        // the block builder's size estimate
    contentsSize: seq<Entry> -> Word,   // how long the block comes out, compressed or not
    separator: (InternalKey, InternalKey) -> InternalKey,
    successor: InternalKey -> InternalKey,
    policy: Option<FilterBlocks.Policy>,
    keyBytes: UserKey -> FilterKey)     // user keys as the filter policy gets them

  // What the comparator's shortening functions promise.
  ghost predicate Shortens(o: TableOptions) {
    && (forall a, b {:trigger o.separator(a, b)} :: Before(a, b) ==> Divides(o.separator(a, b), a, Some(b)))
    && (forall a {:trigger o.successor(a)} :: Divides(o.successor(a), a, None))
  }

  // The key is the separator of two of the entries, or the successor of one.
  ghost predicate MadeOf(o: TableOptions, key: InternalKey, all: seq<Entry>) {
    || (exists a, b {:trigger o.separator(a.key, b.key)} :: a in all && b in all && key == o.separator(a.key, b.key))
    || (exists a {:trigger o.successor(a.key)} :: a in all && key == o.successor(a.key))
  }

  ghost predicate IndexMade(o: TableOptions, index: seq<Entry>, all: seq<Entry>) {
    forall i {:trigger index[i]} :: 0 <= i < |index| ==> MadeOf(o, index[i].key, all)
  }

  lemma MadeOfMore(o: TableOptions, index: seq<Entry>, all: seq<Entry>, e: Entry)
    requires IndexMade(o, index, all)
    ensures IndexMade(o, index, all + [e])
  {
    forall i {:trigger index[i]} | 0 <= i < |index|
      ensures MadeOf(o, index[i].key, all + [e])
    {
      assert forall a :: a in all ==> a in all + [e];
      assert MadeOf(o, index[i].key, all);
    }
  }

  // ----- the contents of a table -----

  // The blocks, with the one being built.
  function Pieces(blocks: seq<seq<Entry>>, data: seq<Entry>): seq<seq<Entry>> {
    if data == [] then blocks else blocks + [data]
  }

  predicate NoneEmpty(pieces: seq<seq<Entry>>) {
    forall i :: 0 <= i < |pieces| ==> pieces[i] != []
  }

  function Last(es: seq<Entry>): InternalKey
    requires es != []
  {
    es[|es| - 1].key
  }

  // The first key of piece i, if there is such a piece.
  function First(pieces: seq<seq<Entry>>, i: nat): Option<InternalKey>
    requires NoneEmpty(pieces)
  {
    if i < |pieces| then Some(pieces[i][0].key) else None
  }

  ghost predicate DividesAt(index: seq<Entry>, pieces: seq<seq<Entry>>, i: nat, next: nat)
    requires i < |index| <= |pieces| && NoneEmpty(pieces)
  {
    Divides(index[i].key, Last(pieces[i]), First(pieces, next))
  }

  // Each index key divides its block from the next.
  ghost predicate Divided(index: seq<Entry>, pieces: seq<seq<Entry>>) {
    && |index| <= |pieces| && NoneEmpty(pieces)
    && forall i, next {:trigger DividesAt(index, pieces, i, next)} :: 0 <= i < |index| && next == i + 1 ==> DividesAt(index, pieces, i, next)
  }

  // The index entries hold the handles of the blocks.
  ghost predicate Handled(index: seq<Entry>, handles: seq<BlockHandle>) {
    |index| <= |handles| && forall i :: 0 <= i < |index| ==> index[i].value == handles[i].Encode()
  }

  ghost predicate StoredAt(blocks: seq<seq<Entry>>, handles: seq<BlockHandle>, file: File, i: nat)
    requires i < |blocks| == |handles|
  {
    handles[i] in file && file[handles[i]] == blocks[i] && handles[i].Fits()
  }

  // The blocks are in the file, one after the other, before the end.
  ghost predicate Stored(blocks: seq<seq<Entry>>, handles: seq<BlockHandle>, file: File, end: nat) {
    && |blocks| == |handles|
    && (forall i {:trigger StoredAt(blocks, handles, file, i)} :: 0 <= i < |blocks| ==> StoredAt(blocks, handles, file, i))
    && (forall i {:trigger handles[i]} :: 0 <= i < |handles| ==> handles[i].End() <= end)
    && (forall i, j :: 0 <= i < j < |handles| ==> handles[i].offset < handles[j].offset)
    && InARow(handles, end)
  }

  // From the beginning of the file on, each block with the five bytes of its trailer.
  ghost predicate InARow(handles: seq<BlockHandle>, end: nat) {
    && (if handles == [] then end == 0 else handles[0].offset == 0 && end == handles[|handles| - 1].offset + handles[|handles| - 1].size + 5)
    && forall i, next {:trigger handles[i], handles[next]} :: 0 <= i && next == i + 1 < |handles| ==>
         handles[next].offset == handles[i].offset + handles[i].size + 5
  }

  ghost predicate Built(all: seq<Entry>, index: seq<Entry>, blocks: seq<seq<Entry>>, handles: seq<BlockHandle>, file: File, end: nat) {
    && Sorted(all) && Concat(blocks) == all
    && |index| == |blocks| && Divided(index, blocks)
    && Handled(index, handles) && Stored(blocks, handles, file, end)
  }

  // ----- how large the blocks are, and which keys the index has -----

  // No entries at the front are enough for a block.
  ghost predicate NotFull(o: TableOptions, es: seq<Entry>) {
    forall k {:trigger es[..k]} :: 0 < k <= |es| ==> o.estimate(es[..k]) < o.blockSize
  }

  // The entries are enough for a block, and would not be without the last one.
  ghost predicate Full(o: TableOptions, es: seq<Entry>) {
    es != [] && o.estimate(es) >= o.blockSize && NotFull(o, es[..|es| - 1])
  }

  ghost predicate AllFull(o: TableOptions, blocks: seq<seq<Entry>>) {
    forall i {:trigger blocks[i]} :: 0 <= i < |blocks| ==> Full(o, blocks[i])
  }

  // The separator of the last key of a piece and the first of the next one, or the successor of the very last key.
  ghost predicate KeyAt(o: TableOptions, index: seq<Entry>, pieces: seq<seq<Entry>>, i: nat)
    requires i < |index| && i < |pieces|
  {
    && pieces[i] != []
    && (if i + 1 < |pieces| then pieces[i + 1] != [] && index[i].key == o.separator(Last(pieces[i]), pieces[i + 1][0].key)
        else index[i].key == o.successor(Last(pieces[i])))
  }

  ghost predicate KeyedBy(o: TableOptions, index: seq<Entry>, pieces: seq<seq<Entry>>) {
    |index| <= |pieces| && forall i {:trigger KeyAt(o, index, pieces, i)} :: 0 <= i < |index| ==> KeyAt(o, index, pieces, i)
  }

  // A finished table: every block is full but the last, which is as the entries leave it.
  ghost predicate Cut(o: TableOptions, index: seq<Entry>, blocks: seq<seq<Entry>>) {
    && |index| == |blocks| && KeyedBy(o, index, blocks)
    && (blocks != [] ==>
          var n := |blocks| - 1;
          AllFull(o, blocks[..n]) && (Full(o, blocks[n]) || NotFull(o, blocks[n])))
  }

  lemma KeyedByNext(o: TableOptions, index: seq<Entry>, blocks: seq<seq<Entry>>, sep: Entry, e: Entry)
    requires KeyedBy(o, index, blocks) && |index| == |blocks| - 1 && blocks[|index|] != []
    requires sep.key == o.separator(Last(blocks[|index|]), e.key)
    ensures KeyedBy(o, index + [sep], blocks + [[e]])
  {
    var index', pieces := index + [sep], blocks + [[e]];
    forall i {:trigger KeyAt(o, index', pieces, i)} | 0 <= i < |index'|
      ensures KeyAt(o, index', pieces, i)
    {
      assert i < |index| ==> KeyAt(o, index, blocks, i);
    }
  }

  lemma KeyedGrows(o: TableOptions, index: seq<Entry>, blocks: seq<seq<Entry>>, data: seq<Entry>, e: Entry)
    requires KeyedBy(o, index, Pieces(blocks, data)) && |index| == |blocks| && (data == [] ==> blocks == [])
    ensures KeyedBy(o, index, blocks + [data + [e]])
  {
    var pieces := blocks + [data + [e]];
    forall i {:trigger KeyAt(o, index, pieces, i)} | 0 <= i < |index|
      ensures KeyAt(o, index, pieces, i)
    {
      assert KeyAt(o, index, Pieces(blocks, data), i);
    }
  }

  lemma KeyedAtEnd(o: TableOptions, index: seq<Entry>, blocks: seq<seq<Entry>>, after: Entry)
    requires KeyedBy(o, index, blocks) && |index| == |blocks| - 1 && blocks[|index|] != []
    requires after.key == o.successor(Last(blocks[|index|]))
    ensures KeyedBy(o, index + [after], blocks)
  {
    var index' := index + [after];
    forall i {:trigger KeyAt(o, index', blocks, i)} | 0 <= i < |index'|
      ensures KeyAt(o, index', blocks, i)
    {
      assert i < |index| ==> KeyAt(o, index, blocks, i);
    }
  }

  lemma OneMoreFits(o: TableOptions, es: seq<Entry>, e: Entry)
    requires NotFull(o, es)
    ensures if o.estimate(es + [e]) < o.blockSize then NotFull(o, es + [e]) else Full(o, es + [e])
  {
    var more := es + [e];
    assert more[..|es|] == es && more[..|more|] == more;
    forall k {:trigger more[..k]} | 0 < k <= |es|
      ensures o.estimate(more[..k]) < o.blockSize
    {
      assert more[..k] == es[..k];
    }
  }

  // ----- one step of building -----

  lemma DividedByNext(index: seq<Entry>, blocks: seq<seq<Entry>>, sep: Entry, e: Entry)
    requires Divided(index, blocks) && |index| == |blocks| - 1 && Divides(sep.key, Last(blocks[|index|]), Some(e.key))
    ensures Divided(index + [sep], blocks + [[e]])
  {
    var index', pieces := index + [sep], blocks + [[e]];
    forall i, next {:trigger DividesAt(index', pieces, i, next)} | 0 <= i < |index'| && next == i + 1
      ensures DividesAt(index', pieces, i, next)
    {
      assert i < |index| ==> DividesAt(index, blocks, i, next);
    }
  }

  lemma DividedAtEnd(index: seq<Entry>, blocks: seq<seq<Entry>>, sep: Entry)
    requires Divided(index, blocks) && |index| == |blocks| - 1 && Divides(sep.key, Last(blocks[|index|]), None)
    ensures Divided(index + [sep], blocks)
  {
    var index' := index + [sep];
    forall i, next {:trigger DividesAt(index', blocks, i, next)} | 0 <= i < |index'| && next == i + 1
      ensures DividesAt(index', blocks, i, next)
    {
      assert i < |index| ==> DividesAt(index, blocks, i, next);
    }
  }

  lemma DividedGrows(index: seq<Entry>, blocks: seq<seq<Entry>>, data: seq<Entry>, e: Entry)
    requires Divided(index, Pieces(blocks, data)) && |index| == |blocks| && (data == [] ==> blocks == [])
    ensures Divided(index, Pieces(blocks, data + [e]))
  {
    var pieces, pieces' := Pieces(blocks, data), Pieces(blocks, data + [e]);
    forall i | 0 <= i < |blocks|
      ensures pieces'[i] == pieces[i] != []
    {
    }
    forall i, next {:trigger DividesAt(index, pieces', i, next)} | 0 <= i < |index| && next == i + 1
      ensures DividesAt(index, pieces', i, next)
    {
      assert DividesAt(index, pieces, i, next);
    }
  }

  lemma StoredMore(blocks: seq<seq<Entry>>, handles: seq<BlockHandle>, file: File, end: nat, block: seq<Entry>, h: BlockHandle)
    requires Stored(blocks, handles, file, end) && h.offset == end && h.Fits()
    ensures Stored(blocks + [block], handles + [h], file[h := block], h.End())
  {
    var blocks', handles', file' := blocks + [block], handles + [h], file[h := block];
    forall i {:trigger StoredAt(blocks', handles', file', i)} | 0 <= i < |blocks'|
      ensures StoredAt(blocks', handles', file', i)
    {
      if i < |blocks| {
        assert StoredAt(blocks, handles, file, i) && handles[i].End() <= end;
      }
    }
  }

  lemma HandledMore(index: seq<Entry>, handles: seq<BlockHandle>, h: BlockHandle)
    requires Handled(index, handles)
    ensures Handled(index, handles + [h])
  {
  }

  // A block that is not empty, once it is closed.
  lemma ClosesBlock(blocks: seq<seq<Entry>>, block: seq<Entry>)
    requires block != [] && |blocks| <= |Concat(blocks)|
    ensures Pieces(blocks, block) == blocks + [block] && Pieces(blocks + [block], []) == blocks + [block]
    ensures Concat(blocks + [block]) == Concat(blocks) + block && Concat(blocks + [block]) + [] == Concat(blocks) + block
    ensures |blocks + [block]| <= |Concat(blocks + [block])|
  {
    ConcatMore(blocks, block);
  }

  // ----- a table that is built is well indexed -----

  lemma SameHandle(a: BlockHandle, b: BlockHandle)
    requires a.Fits() && b.Fits() && a.Encode() == b.Encode()
    ensures a == b
  {
    HandleRoundTrip(a);
    HandleRoundTrip(b);
  }

  // Entries of the flat list by block, and in order.
  lemma FlatEntry(all: seq<Entry>, blocks: seq<seq<Entry>>, i: nat, q: nat)
    requires Concat(blocks) == all && i < |blocks| && q < |blocks[i]|
    ensures StartOf(blocks, i) + q < StartOf(blocks, i + 1) <= |all| && all[StartOf(blocks, i) + q] == blocks[i][q]
  {
    InFlat(blocks, i);
    assert all[StartOf(blocks, i)..StartOf(blocks, i + 1)][q] == blocks[i][q];
  }

  lemma InOrder(all: seq<Entry>, blocks: seq<seq<Entry>>, i: nat, q: nat, j: nat, r: nat)
    requires Sorted(all) && Concat(blocks) == all && i <= j < |blocks| && q < |blocks[i]| && r < |blocks[j]|
    requires i == j ==> q <= r
    ensures (i == j && q == r) || Before(blocks[i][q].key, blocks[j][r].key)
  {
    FlatEntry(all, blocks, i, q);
    FlatEntry(all, blocks, j, r);
    if i < j {
      StartsAscend(blocks, i + 1, j);
    }
  }

  lemma BlockSeparates(all: seq<Entry>, index: seq<Entry>, blocks: seq<seq<Entry>>, i: nat)
    requires Sorted(all) && Concat(blocks) == all && |index| == |blocks| && Divided(index, blocks) && i < |index|
    ensures Separates(index, blocks, i)
  {
    hide Before, Divides, Concat, StartOf;
    var key := index[i].key;
    assert DividesAt(index, blocks, i, i + 1);
    DividesParts(key, Last(blocks[i]), First(blocks, i + 1));
    forall q | 0 <= q < |blocks[i]|
      ensures !Before(key, blocks[i][q].key)
    {
      InOrder(all, blocks, i, q, i, |blocks[i]| - 1);
      BeforeIsStrictTotalOrder(key, blocks[i][q].key, Last(blocks[i]));
    }
    forall j, q | i < j < |blocks| && 0 <= q < |blocks[j]|
      ensures Before(key, blocks[j][q].key)
    {
      InOrder(all, blocks, i + 1, 0, j, q);
      BeforeIsStrictTotalOrder(key, blocks[i + 1][0].key, blocks[j][q].key);
    }
  }

  lemma DividesParts(sep: InternalKey, last: InternalKey, next: Option<InternalKey>)
    requires Divides(sep, last, next)
    ensures !Before(sep, last) && (next.Some? ==> Before(sep, next.value))
  {
  }

  lemma IndexSorted(index: seq<Entry>, blocks: seq<seq<Entry>>)
    requires |index| == |blocks| && NoneEmpty(blocks)
    requires forall i {:trigger Separates(index, blocks, i)} :: 0 <= i < |index| ==> Separates(index, blocks, i)
    ensures Sorted(index)
  {
    forall i, j | 0 <= i < j < |index|
      ensures Before(index[i].key, index[j].key)
    {
      assert Separates(index, blocks, i) && Separates(index, blocks, j);
      BeforeIsStrictTotalOrder(index[i].key, blocks[j][0].key, index[j].key);
      BeforeIsStrictTotalOrder(index[j].key, blocks[j][0].key, index[j].key);
    }
  }

  /** The index of a table that is built leads to the right blocks. */
  lemma BuiltIsIndexed(all: seq<Entry>, index: seq<Entry>, blocks: seq<seq<Entry>>, handles: seq<BlockHandle>, file: File, end: nat)
    requires Built(all, index, blocks, handles, file, end)
    ensures Indexed(index, blocks)
  {
    hide Separates, Divided, Concat;
    forall i {:trigger Separates(index, blocks, i)} | 0 <= i < |index|
      ensures Separates(index, blocks, i)
    {
      BlockSeparates(all, index, blocks, i);
    }
    assert NoneEmpty(blocks) by {
      DividedParts(index, blocks);
    }
    IndexSorted(index, blocks);
    forall i, j | 0 <= i < j < |index|
      ensures index[i].value != index[j].value
    {
      assert StoredAt(blocks, handles, file, i) && StoredAt(blocks, handles, file, j);
      if handles[i].Encode() == handles[j].Encode() {
        SameHandle(handles[i], handles[j]);
      }
    }
  }

  lemma DividedParts(index: seq<Entry>, pieces: seq<seq<Entry>>)
    requires Divided(index, pieces)
    ensures |index| <= |pieces| && NoneEmpty(pieces)
  {
  }

  /** Seeking in the one block that the index leads to finds the first entry at or after the target, or there
      is none of the target's user key. */
  lemma BlockDecides(all: seq<Entry>, index: seq<Entry>, blocks: seq<seq<Entry>>, handles: seq<BlockHandle>, file: File, end: nat, k: InternalKey)
    requires Built(all, index, blocks, handles, file, end)
    ensures var i, n := LowerBound(index, k), LowerBound(all, k);
            if i == |index| then n == |all|
            else
              var q := LowerBound(blocks[i], k);
              if q < |blocks[i]| then n < |all| && all[n] == blocks[i][q]
              else n < |all| ==> all[n].key.userKey != k.userKey
  {
    hide Divided, Handled, Stored, Indexed, Concat, StartOf;
    BuiltIsIndexed(all, index, blocks, handles, file, end);
    SeekInBlock(index, blocks, k);
    var i := LowerBound(index, k);
    if i < |index| {
      var q := LowerBound(blocks[i], k);
      if q < |blocks[i]| {
        FlatEntry(all, blocks, i, q);
      } else {
        InFlat(blocks, i);
        DividedParts(index, blocks);
        assert Before(blocks[i][q - 1].key, k);
        PastTheBlock(all, index, blocks, i, k);
      }
    }
  }

  // A target between a block's last entry and its index key is not of the next entry's user key.
  lemma PastTheBlock(all: seq<Entry>, index: seq<Entry>, blocks: seq<seq<Entry>>, i: nat, k: InternalKey)
    requires Concat(blocks) == all && |index| == |blocks| && Divided(index, blocks) && i < |index|
    requires Before(Last(blocks[i]), k) && !Before(index[i].key, k)
    ensures StartOf(blocks, i + 1) < |all| ==> all[StartOf(blocks, i + 1)].key.userKey != k.userKey
  {
    assert DividesAt(index, blocks, i, i + 1);
    if i + 1 < |blocks| {
      FlatEntry(all, blocks, i + 1, 0);
    } else {
      assert blocks[..i + 1] == blocks;
    }
  }
}

/** Building a table file, and reading it. */
module Tables {
  import opened Options
  import opened Bytes
  import opened InternalKeys
  import opened Cursors
  import opened CompactionSpec
  import opened TwoLevelSpec
  import opened TwoLevelIterators
  import opened TableSpec
  import Bloom
  import FilterBlocks
  import LsmTree
  import RankedKeys

  const MAX_ENTRIES := 0x8000_0000

  // A key is in the filter for a block at the offset.
  ghost predicate Given(o: TableOptions, given: set<(nat, FilterKey)>, offset: nat, block: seq<Entry>) {
    forall e {:trigger e in block} :: e in block ==> (offset, o.keyBytes(e.key.userKey)) in given
  }

  ghost predicate AllGiven(o: TableOptions, given: set<(nat, FilterKey)>, blocks: seq<seq<Entry>>, handles: seq<BlockHandle>)
    requires |blocks| == |handles|
  {
    forall i {:trigger blocks[i]} :: 0 <= i < |blocks| ==> Given(o, given, handles[i].offset, blocks[i])
  }

  // What a table file holds, as its footer and metaindex block lead to it.
  datatype Contents = Contents(file: File, index: seq<Entry>, filter: Option<seq<Byte>>)

  ghost predicate HoldsAll(o: TableOptions, filters: seq<seq<FilterKey>>, blocks: seq<seq<Entry>>, handles: seq<BlockHandle>)
    requires |blocks| == |handles|
  {
    forall i, e {:trigger e in blocks[i]} :: 0 <= i < |blocks| && e in blocks[i] ==>
      FilterBlocks.InFilter(filters, handles[i].offset, o.keyBytes(e.key.userKey))
  }

  // A filter block that holds the keys of each block where the block begins.
  ghost predicate FilterFor(o: TableOptions, filter: seq<Byte>, blocks: seq<seq<Entry>>, handles: seq<BlockHandle>)
    requires |blocks| == |handles| && o.policy.Some?
  {
    exists filters, words :: FilterBlocks.FilterBlock(o.policy.value, filter, filters, words) && HoldsAll(o, filters, blocks, handles)
  }

  // The table holds the entries.
  ghost predicate Holds(o: TableOptions, c: Contents, all: seq<Entry>, blocks: seq<seq<Entry>>, handles: seq<BlockHandle>, end: nat) {
    && Built(all, c.index, blocks, handles, c.file, end) && IndexMade(o, c.index, all)
    && (c.filter.Some? <==> o.policy.Some?)
    && (o.policy.Some? ==> FilterFor(o, c.filter.value, blocks, handles))
  }

  lemma MoreGiven(o: TableOptions, given: set<(nat, FilterKey)>, blocks: seq<seq<Entry>>, handles: seq<BlockHandle>,
                  block: seq<Entry>, h: BlockHandle, end: nat)
    requires |blocks| == |handles| && AllGiven(o, given, blocks, handles) && Given(o, given, h.offset, block)
    ensures AllGiven(o, given, blocks + [block], handles + [h]) && Given(o, given, end, [])
  {
  }

  class TableBuilder {
    const options: TableOptions
    const filterBlock: FilterBlocks.FilterBlockBuilder?
    var offset: nat
    var file: File
    var dataBlock: seq<Entry>
    var indexBlock: seq<Entry>
    var lastKey: InternalKey
    var numEntries: nat
    var pendingIndexEntry: bool    // only when the data block is empty
    var pendingHandle: BlockHandle
    var closed: bool
    ghost var blocks: seq<seq<Entry>>
    ghost var handles: seq<BlockHandle>

    // All entries added.
    ghost function All(): seq<Entry>
      reads `blocks, `dataBlock
    {
      Concat(blocks) + dataBlock
    }

    ghost predicate KeysOk()
      reads `blocks, `dataBlock, `numEntries, `lastKey
    {
      Sorted(All()) && numEntries == |All()| && (All() != [] ==> lastKey == Last(All()))
    }

    ghost predicate IndexOk()
      reads `blocks, `dataBlock, `indexBlock, `pendingIndexEntry, `pendingHandle, `handles
    {
      && Divided(indexBlock, Pieces(blocks, dataBlock)) && Handled(indexBlock, handles) && |handles| == |blocks|
      && (if pendingIndexEntry then dataBlock == [] && |indexBlock| == |blocks| - 1 && pendingHandle == handles[|indexBlock|]
          else |indexBlock| == |blocks| && (dataBlock == [] ==> blocks == []))
    }

    ghost predicate FileOk()
      reads `blocks, `handles, `file, `offset
    {
      && Stored(blocks, handles, file, offset)
      && |blocks| <= |Concat(blocks)| && offset <= 0x1_0000_0004 * |blocks|
    }

    ghost predicate FilterOk()
      reads this, filterBlock
    {
      filterBlock != null ==>
        && filterBlock.Valid() && options.policy == Some(filterBlock.policy)
        && filterBlock.blockOffset == offset && filterBlock.count == numEntries && |blocks| == |handles|
        && AllGiven(options, filterBlock.given, blocks, handles) && Given(options, filterBlock.given, offset, dataBlock)
    }

    ghost predicate Valid()
      reads this, filterBlock
    {
      && Shortens(options) && KeysOk() && IndexOk() && FileOk() && FilterOk() && (filterBlock == null <==> options.policy.None?)
      && IndexMade(options, indexBlock, All())
    }

    constructor (options: TableOptions)
      requires Shortens(options)
      ensures Valid() && !closed && All() == [] && numEntries == 0 && this.options == options && (filterBlock != null ==> fresh(filterBlock))
      ensures IsCut()
    {
      hide KeyedBy, AllFull, NotFull, Full;
      this.options := options;
      if options.policy.Some? {
        var builder := new FilterBlocks.FilterBlockBuilder(options.policy.value);
        filterBlock := builder;
      } else {
        filterBlock := null;
      }
      offset, file, dataBlock, indexBlock, numEntries, pendingIndexEntry, closed := 0, map[], [], [], 0, false, false;
      blocks, handles := [], [];
      new;
      NothingCut(options);
      if filterBlock != null {
        filterBlock.StartBlock(0);
      }
    }

    // Blocks are as long as they have to be, and the index keys what shortening gives.
    ghost predicate IsCut()
      reads `indexBlock, `blocks, `dataBlock
    {
      KeyedBy(options, indexBlock, Pieces(blocks, dataBlock)) && AllFull(options, blocks) && NotFull(options, dataBlock)
    }

    // Finish the index entry of the last block, now that the next key is known.
    method AddPendingIndexEntry(key: InternalKey, ghost value: InternalKeys.Bytes)
      requires Valid() && pendingIndexEntry && Before(lastKey, key)
      modifies `indexBlock, `pendingIndexEntry
      ensures !pendingIndexEntry && dataBlock == [] && |indexBlock| == |blocks| == |handles|
      ensures Divided(indexBlock, Pieces(blocks, dataBlock + [Entry(key, value)])) && Handled(indexBlock, handles)
      ensures IndexMade(options, indexBlock, All() + [Entry(key, value)])
      ensures blocks != [] && blocks[|blocks| - 1] != []
      ensures indexBlock == old(indexBlock) + [Entry(options.separator(Last(blocks[|blocks| - 1]), key), pendingHandle.Encode())]
    {
      hide Divided, Divides, IndexMade, Sorted, Concat;
      ghost var e := Entry(key, value);
      DividedParts(indexBlock, blocks);
      LastOfLast(blocks);
      assert All() == Concat(blocks);
      var separator := options.separator(lastKey, key);
      var entry := Entry(separator, pendingHandle.Encode());
      DividedByNext(indexBlock, blocks, entry, e);
      SeparatorMade(options, indexBlock, All(), entry, e);
      indexBlock := indexBlock + [entry];
      pendingIndexEntry := false;
      assert dataBlock + [e] == [e];
    }

    /** Add an entry; keys come in increasing order. */
    method Add(key: InternalKey, value: InternalKeys.Bytes)
      requires Valid() && !closed && numEntries < MAX_ENTRIES && (numEntries > 0 ==> Before(lastKey, key))
      modifies this, filterBlock
      ensures Valid() && !closed && All() == old(All()) + [Entry(key, value)]
      ensures lastKey == key && numEntries == old(numEntries) + 1
      ensures old(IsCut()) ==> IsCut()
    {
      hide Divided, Handled, Stored, AllGiven, Given, Concat, Sorted, Pieces, Shortens, IndexMade, KeyedBy, AllFull, NotFull, Full;
      ghost var e := Entry(key, value);
      ghost var before, was, cut, data := indexBlock, blocks, IsCut(), dataBlock;
      if pendingIndexEntry {
        AddPendingIndexEntry(key, value);
        if cut {
          NoData(blocks);
          KeyedByNext(options, before, blocks, indexBlock[|before|], e);
          assert [] + [e] == [e];
        }
      } else {
        DividedGrows(indexBlock, blocks, dataBlock, e);
        MadeOfMore(options, indexBlock, All(), e);
        if cut {
          KeyedGrows(options, indexBlock, blocks, dataBlock, e);
        }
      }
      if cut {
        OneMoreFits(options, data, e);
      }
      AddToBlock(key, value);
      var estimatedBlockSize := options.estimate(dataBlock);
      if estimatedBlockSize >= options.blockSize {
        Flush();
      }
      if cut {
        CutAfter(options, indexBlock, was, data + [e], blocks, dataBlock);
      }
    }

    method AddToBlock(key: InternalKey, value: InternalKeys.Bytes)
      requires KeysOk() && FileOk() && FilterOk() && Handled(indexBlock, handles) && !pendingIndexEntry
      requires |indexBlock| == |blocks| == |handles| && Divided(indexBlock, Pieces(blocks, dataBlock + [Entry(key, value)]))
      requires numEntries > 0 ==> Before(lastKey, key)
      modifies `lastKey, `numEntries, `dataBlock, filterBlock
      ensures KeysOk() && FileOk() && FilterOk() && IndexOk()
      ensures dataBlock == old(dataBlock) + [Entry(key, value)] && All() == old(All()) + [Entry(key, value)]
      ensures lastKey == key && numEntries == old(numEntries) + 1
    {
      hide Divided, Handled, Stored;
      var e := Entry(key, value);
      ghost var all := All();
      if filterBlock != null {
        filterBlock.AddKey(options.keyBytes(key.userKey));
      }
      lastKey := key;
      numEntries := numEntries + 1;
      dataBlock := dataBlock + [e];
      assert All() == all + [e];
      SortedMore(all, e);
    }

    /** Write the data block, and leave its index entry for later. */
    method Flush()
      requires Valid() && !closed && numEntries <= MAX_ENTRIES
      modifies this, filterBlock
      ensures Valid() && !closed && All() == old(All()) && dataBlock == [] && (blocks != [] ==> pendingIndexEntry)
      ensures lastKey == old(lastKey) && numEntries == old(numEntries) && indexBlock == old(indexBlock)
      ensures blocks == old(Pieces(blocks, dataBlock))
    {
      hide Divided, Handled, Stored, AllGiven, Given, Concat, Sorted, Shortens, IndexMade, KeysOk, FileOk;
      if dataBlock == [] {
        return;
      }
      ghost var block := dataBlock;
      WriteBlock();
      pendingIndexEntry := true;
      if filterBlock != null {
        MoreGiven(options, filterBlock.given, old(blocks), old(handles), block, pendingHandle, offset);
        filterBlock.StartBlock(offset);
      }
    }

    method WriteBlock()
      requires KeysOk() && IndexOk() && FileOk() && dataBlock != [] && numEntries <= MAX_ENTRIES
      modifies `offset, `file, `dataBlock, `pendingHandle, `blocks, `handles
      ensures KeysOk() && FileOk() && All() == old(All()) && dataBlock == [] && offset >= old(offset)
      ensures blocks == old(blocks + [dataBlock]) && handles == old(handles) + [pendingHandle] && pendingHandle.offset == old(offset)
      ensures Divided(indexBlock, blocks) && Handled(indexBlock, handles)
    {
      hide Divided, Handled, Stored, Sorted, Concat, Pieces;
      var size := options.contentsSize(dataBlock);
      pendingHandle := BlockHandle(offset, size);
      StoredMore(blocks, handles, file, offset, dataBlock, pendingHandle);
      HandledMore(indexBlock, handles, pendingHandle);
      ClosesBlock(blocks, dataBlock);
      file := file[pendingHandle := dataBlock];
      offset := offset + size + BLOCK_TRAILER_SIZE;
      handles := handles + [pendingHandle];
      blocks := blocks + [dataBlock];
      dataBlock := [];
    }

    // The index entry of the last block.
    method FinishIndex()
      requires Shortens(options) && KeysOk() && IndexOk() && pendingIndexEntry && IndexMade(options, indexBlock, All())
      modifies `indexBlock, `pendingIndexEntry
      ensures IndexMade(options, indexBlock, All())
      ensures KeysOk() && Divided(indexBlock, blocks) && Handled(indexBlock, handles) && |indexBlock| == |blocks| == |handles|
      ensures blocks != [] && blocks[|blocks| - 1] != []
      ensures indexBlock == old(indexBlock) + [Entry(options.successor(Last(blocks[|blocks| - 1])), pendingHandle.Encode())]
    {
      hide Divided, Divides, IndexMade, Sorted, Concat;
      DividedParts(indexBlock, blocks);
      LastOfLast(blocks);
      assert All() == Concat(blocks);
      var successor := options.successor(lastKey);
      var entry := Entry(successor, pendingHandle.Encode());
      DividedAtEnd(indexBlock, blocks, entry);
      SuccessorMade(options, indexBlock, All(), entry);
      indexBlock := indexBlock + [entry];
      pendingIndexEntry := false;
    }

    // The filter block, when there is a policy.
    method FinishFilter(ghost perKey: nat) returns (filter: Option<seq<Byte>>)
      requires FilterOk() && (filterBlock == null <==> options.policy.None?) && |blocks| == |handles|
      requires options.policy.Some? ==> FilterBlocks.AtMost(options.policy.value, perKey) && perKey * numEntries < 0x1_0000_0000
      modifies filterBlock
      ensures filter.Some? <==> options.policy.Some?
      ensures options.policy.Some? ==> FilterFor(options, filter.value, blocks, handles)
    {
      if filterBlock == null {
        return None;
      }
      hide FilterBlocks.FilterBlock, FilterBlocks.InFilter, FilterBlocks.AtMost, AllGiven, Given, HoldsAll;
      ghost var given := filterBlock.given;
      filterBlock.FinishFits(perKey);
      var block: seq<Byte>;
      ghost var words;
      block, words := filterBlock.Finish();
      GivenHeld(options, given, filterBlock.filters, blocks, handles);
      assert FilterBlocks.FilterBlock(options.policy.value, block, filterBlock.filters, words);
      filter := Some(block);
    }

    /** The file with its filter block and its index. */
    method Finish(ghost perKey: nat) returns (contents: Contents)
      requires Valid() && !closed && numEntries <= MAX_ENTRIES
      requires options.policy.Some? ==> FilterBlocks.AtMost(options.policy.value, perKey) && perKey * numEntries < 0x1_0000_0000
      modifies this, filterBlock
      ensures closed && Holds(options, contents, old(All()), blocks, handles, offset)
      ensures old(IsCut()) ==> Cut(options, contents.index, blocks)
    {
      hide Divided, Handled, Stored, AllGiven, Given, Sorted, IndexMade, KeyedBy, AllFull, NotFull, Full, Cut, Concat;
      ghost var was, data, cut := blocks, dataBlock, IsCut();
      Flush();
      closed := true;
      var filter := FinishFilter(perKey);
      CloseIndex();
      if cut {
        CutInTheEnd(options, was, data, indexBlock, blocks);
      }
      contents := Contents(file, indexBlock, filter);
    }

    // The index entry of the last block, if there is one.
    method CloseIndex()
      requires Shortens(options) && KeysOk() && IndexOk() && IndexMade(options, indexBlock, All()) && dataBlock == []
      requires blocks != [] ==> pendingIndexEntry
      modifies `indexBlock, `pendingIndexEntry
      ensures IndexMade(options, indexBlock, All()) && KeysOk()
      ensures Divided(indexBlock, blocks) && Handled(indexBlock, handles) && |indexBlock| == |blocks| == |handles|
      ensures old(KeyedBy(options, indexBlock, blocks)) ==> KeyedBy(options, indexBlock, blocks)
    {
      hide Divided, Handled, Sorted, IndexMade, KeyedBy;
      ghost var before, keyed := indexBlock, KeyedBy(options, indexBlock, blocks);
      if pendingIndexEntry {
        FinishIndex();
        if keyed {
          KeyedAtEnd(options, before, blocks, indexBlock[|before|]);
        }
      }
    }
  }

  // A block that is full is closed.
  lemma CutAfter(o: TableOptions, index: seq<Entry>, was: seq<seq<Entry>>, block: seq<Entry>, blocks: seq<seq<Entry>>, data: seq<Entry>)
    requires block != [] && KeyedBy(o, index, was + [block]) && AllFull(o, was)
    requires if o.estimate(block) >= o.blockSize then Full(o, block) && blocks == Pieces(was, block) && data == []
             else NotFull(o, block) && blocks == was && data == block
    ensures KeyedBy(o, index, Pieces(blocks, data)) && AllFull(o, blocks) && NotFull(o, data)
  {
    hide KeyedBy, Full;
  }

  lemma CutInTheEnd(o: TableOptions, was: seq<seq<Entry>>, data: seq<Entry>, index: seq<Entry>, blocks: seq<seq<Entry>>)
    requires AllFull(o, was) && NotFull(o, data) && blocks == Pieces(was, data) && |index| == |blocks| && KeyedBy(o, index, blocks)
    ensures Cut(o, index, blocks)
  {
    hide Full, NotFull, KeyedBy;
    if data != [] {
      assert blocks[..|was|] == was;
    } else if was != [] {
      var n := |was| - 1;
      forall i {:trigger was[..n][i]} | 0 <= i < n
        ensures Full(o, was[..n][i])
      {
        assert was[..n][i] == was[i];
      }
      assert Full(o, was[n]);
    }
  }

  lemma NothingCut(o: TableOptions)
    ensures KeyedBy(o, [], Pieces([], [])) && AllFull(o, []) && NotFull(o, [])
  {
  }

  lemma NoData(blocks: seq<seq<Entry>>)
    ensures Pieces(blocks, []) == blocks
  {
  }

  lemma SeparatorMade(o: TableOptions, index: seq<Entry>, all: seq<Entry>, sep: Entry, e: Entry)
    requires IndexMade(o, index, all) && all != [] && sep.key == o.separator(Last(all), e.key)
    ensures IndexMade(o, index + [sep], all + [e])
  {
    hide MadeOf;
    MadeOfMore(o, index, all, e);
    LastMade(o, all + [e], |all| - 1, |all|);
  }

  lemma SuccessorMade(o: TableOptions, index: seq<Entry>, all: seq<Entry>, after: Entry)
    requires IndexMade(o, index, all) && all != [] && after.key == o.successor(Last(all))
    ensures IndexMade(o, index + [after], all)
  {
    hide MadeOf;
    LastMade(o, all, |all| - 1, |all| - 1);
  }

  lemma LastMade(o: TableOptions, all: seq<Entry>, i: nat, j: nat)
    requires i < |all| && j < |all|
    ensures MadeOf(o, o.separator(all[i].key, all[j].key), all) && MadeOf(o, o.successor(all[i].key), all)
  {
    var a, b := all[i], all[j];
    assert a in all && b in all;
  }

  lemma SortedMore(all: seq<Entry>, e: Entry)
    requires Sorted(all) && (all != [] ==> Before(Last(all), e.key))
    ensures Sorted(all + [e])
  {
    forall i, j | 0 <= i < j < |all + [e]|
      ensures Before((all + [e])[i].key, (all + [e])[j].key)
    {
      if j == |all| {
        BeforeIsStrictTotalOrder(all[i].key, Last(all), e.key);
      }
    }
  }

  lemma GivenHeld(o: TableOptions, given: set<(nat, FilterKey)>, filters: seq<seq<FilterKey>>, blocks: seq<seq<Entry>>, handles: seq<BlockHandle>)
    requires |blocks| == |handles| && AllGiven(o, given, blocks, handles)
    requires forall g {:trigger g in given} :: g in given ==> FilterBlocks.InFilter(filters, g.0, g.1)
    ensures HoldsAll(o, filters, blocks, handles)
  {
    forall i, e {:trigger e in blocks[i]} | 0 <= i < |blocks| && e in blocks[i]
      ensures FilterBlocks.InFilter(filters, handles[i].offset, o.keyBytes(e.key.userKey))
    {
      assert Given(o, given, handles[i].offset, blocks[i]);
      assert (handles[i].offset, o.keyBytes(e.key.userKey)) in given;
    }
  }

  lemma LastOfLast(blocks: seq<seq<Entry>>)
    requires blocks != [] && blocks[|blocks| - 1] != []
    ensures Concat(blocks) != [] && Last(Concat(blocks)) == Last(blocks[|blocks| - 1])
  {
  }

  // ----- reading -----

  // The block that an index value leads to; one that cannot be read has no entries.
  function ReadBlock(file: File, indexValue: InternalKeys.Bytes): seq<Entry> {
    match DecodeHandle(indexValue)
    case None => []
    case Some(handle) => if handle in file then file[handle] else []
  }

  lemma IndexLeadsToBlock(index: seq<Entry>, blocks: seq<seq<Entry>>, handles: seq<BlockHandle>, file: File, end: nat, i: nat)
    requires i < |index| && Handled(index, handles) && Stored(blocks, handles, file, end)
    ensures DecodeHandle(index[i].value) == Some(handles[i]) && ReadBlock(file, index[i].value) == blocks[i]
  {
    hide DecodeHandle;
    assert StoredAt(blocks, handles, file, i);
    HandleRoundTrip(handles[i]);
  }

  class Table {
    const options: TableOptions
    const file: File
    const index: seq<Entry>
    const filter: FilterBlocks.FilterBlockReader?
    ghost const all: seq<Entry>
    ghost const blocks: seq<seq<Entry>>
    ghost const handles: seq<BlockHandle>
    ghost const end: nat

    ghost predicate Opened() {
      && Built(all, index, blocks, handles, file, end) && IndexMade(options, index, all)
      && (filter != null ==> (filter.num > 0 ==> filter.offsetArray + 4 * filter.num + 5 <= |filter.contents|) && Admits())
    }

    // The filter denies no key of a block.
    ghost predicate Admits()
      requires filter != null && (filter.num > 0 ==> filter.offsetArray + 4 * filter.num + 5 <= |filter.contents|)
      requires |blocks| <= |handles|
    {
      forall i, e {:trigger e in blocks[i]} :: 0 <= i < |blocks| && e in blocks[i] ==>
        filter.MayMatch(handles[i].offset, options.keyBytes(e.key.userKey))
    }

    constructor Open(options: TableOptions, contents: Contents,
                     ghost all: seq<Entry>, ghost blocks: seq<seq<Entry>>, ghost handles: seq<BlockHandle>, ghost end: nat)
      requires Holds(options, contents, all, blocks, handles, end)
      requires options.policy.Some? ==> FilterBlocks.NoFalseNegatives(options.policy.value)
      ensures Opened() && this.all == all && this.options == options && this.index == contents.index && this.blocks == blocks
    {
      this.options, file, index := options, contents.file, contents.index;
      this.all, this.blocks, this.handles, this.end := all, blocks, handles, end;
      if options.policy.Some? && contents.filter.Some? {
        var reader := new FilterBlocks.FilterBlockReader(options.policy.value, contents.filter.value);
        filter := reader;
      } else {
        filter := null;
      }
      new;
      if filter != null {
        FilterAdmits(contents.filter.value);
      }
    }

    lemma FilterAdmits(contents: seq<Byte>)
      requires filter != null && |blocks| == |handles| && options.policy.Some? && FilterFor(options, contents, blocks, handles)
      requires filter.policy == options.policy.value && filter.contents == contents && FilterBlocks.NoFalseNegatives(filter.policy)
      requires FilterBlocks.Opens(filter) && (filter.num > 0 ==> filter.offsetArray + 4 * filter.num + 5 <= |filter.contents|)
      ensures Admits()
    {
      hide FilterBlocks.FilterBlock, FilterBlocks.InFilter;
      var filters, words :| FilterBlocks.FilterBlock(options.policy.value, contents, filters, words) && HoldsAll(options, filters, blocks, handles);
      forall i, e {:trigger e in blocks[i]} | 0 <= i < |blocks| && e in blocks[i]
        ensures filter.MayMatch(handles[i].offset, options.keyBytes(e.key.userKey))
      {
        FilterBlocks.AddedMayMatch(filter, filters, words, handles[i].offset, options.keyBytes(e.key.userKey));
      }
    }

    // The first entry at or after the key in the block that the index leads to, none where the filter denies the key.
    ghost function InBlockOf(k: InternalKey): Option<Entry>
      requires Opened()
    {
      var i := LowerBound(index, k);
      if i == |index| || (filter != null && !filter.MayMatch(handles[i].offset, options.keyBytes(k.userKey))) then None
      else
        var q := LowerBound(blocks[i], k);
        if q < |blocks[i]| then Some(blocks[i][q]) else None
    }

    lemma AllBlocks()
      requires Opened()
      ensures |blocks| == |index| <= |handles|
    {
    }

    /** Pass on the first entry at or after the key that its block has, unless the filter denies the key: the first
        of the whole table, whenever that is one of the key's user key. */
    method InternalGet(k: InternalKey) returns (r: Option<Entry>)
      requires Opened()
      ensures var n := LowerBound(all, k);
              && (r.Some? ==> n < |all| && r.value == all[n])
              && (n < |all| && all[n].key.userKey == k.userKey ==> r == Some(all[n]))
      ensures |blocks| == |index| <= |handles| && r == InBlockOf(k)
    {
      hide Built, DecodeHandle, FilterBlocks.FilterBlockReader.MayMatch;
      AllBlocks();
      var iiter := new Cursor(index);
      iiter.Seek(k);
      BlockDecides(all, index, blocks, handles, file, end, k);
      if iiter.Valid() {
        ghost var i := iiter.pos;
        BlockAt(i);
        var handle := DecodeHandle(iiter.Value());
        if filter != null && handle.Some? {
          var mayMatch := filter.KeyMayMatch(handle.value.offset, options.keyBytes(k.userKey));
          if !mayMatch {
            DeniedIsAbsent(i, k.userKey);
            return None;
          }
        }
        var blockIter := new Cursor(ReadBlock(file, iiter.Value()));
        blockIter.Seek(k);
        if blockIter.Valid() {
          return Some(Entry(blockIter.Key(), blockIter.Value()));
        }
      }
      return None;
    }

    // A user key that the filter denies is not in the block.
    lemma DeniedIsAbsent(i: nat, k: UserKey)
      requires Opened() && filter != null && i < |blocks| <= |handles| && !filter.MayMatch(handles[i].offset, options.keyBytes(k))
      ensures forall q :: 0 <= q < |blocks[i]| ==> blocks[i][q].key.userKey != k
    {
      hide FilterBlocks.FilterBlockReader.MayMatch;
      assert forall q :: 0 <= q < |blocks[i]| ==> blocks[i][q] in blocks[i];
    }

    lemma BlockAt(i: nat)
      requires Built(all, index, blocks, handles, file, end) && i < |index|
      ensures |blocks| == |index| <= |handles| && DecodeHandle(index[i].value) == Some(handles[i]) && ReadBlock(file, index[i].value) == blocks[i]
    {
      IndexLeadsToBlock(index, blocks, handles, file, end, i);
    }

    /** A point read: what the search of a version finds in this file. */
    method Get(k: UserKey, s: nat, number: nat) returns (r: Option<Entry>)
      requires Opened()
      ensures r == LsmTree.Probe(LsmTree.File(number, all), k, s)
    {
      r := InternalGet(LsmTree.LookupKey(k, s));
      if r.Some? && r.value.key.userKey != k {
        r := None;
      }
    }

    method NewIterator() returns (it: TwoLevelIterator)
      requires Opened()
      ensures fresh(it) && fresh(it.index) && it.data == null && it.Valid() && it.All() == all && it.Pos() == |all|
    {
      var iiter := new Cursor(index);
      var f := file;
      BuiltIsIndexed(all, index, blocks, handles, file, end);
      forall i | 0 <= i < |blocks|
        ensures ReadBlock(f, index[i].value) == blocks[i]
      {
        BlockAt(i);
      }
      hide Built, ReadBlock, Indexed;
      it := new TwoLevelIterator(iiter, (v: InternalKeys.Bytes) => ReadBlock(f, v), blocks);
    }

    /** Reading a table from its first entry on yields the whole list. */
    method ReadForward() returns (entries: seq<Entry>)
      requires Opened()
      ensures entries == all
    {
      hide Concat, StartOf, Indexed, Opened, Built;
      var it := NewIterator();
      entries := [];
      it.SeekToFirst();
      it.CurrentEntry();
      while it.IsValid()
        invariant fresh(it) && fresh(it.index) && (it.data == null || fresh(it.data)) && it.All() == all
        invariant it.Valid() && it.Pos() == |entries| <= |all| && entries == all[..|entries|]
        invariant it.IsValid() <==> it.Pos() < |all|
        decreases |all| - |entries|
      {
        it.CurrentEntry();
        entries := entries + [it.data.entries[it.data.pos]];
        it.Next();
        it.CurrentEntry();
      }
    }

    /** Reading it from its last entry back yields the whole list in reverse. */
    method ReadBackward() returns (entries: seq<Entry>)
      requires Opened()
      ensures entries == all
    {
      hide Concat, StartOf, Indexed, Opened, Built;
      var it := NewIterator();
      entries := [];
      it.SeekToLast();
      it.CurrentEntry();
      while it.IsValid()
        invariant fresh(it) && fresh(it.index) && (it.data == null || fresh(it.data)) && it.All() == all
        invariant it.Valid() && |entries| <= |all| && entries == all[|all| - |entries|..]
        invariant it.Pos() == it.Before(|all| - |entries|)
        invariant it.IsValid() <==> |entries| < |all|
        decreases |all| - |entries|
      {
        it.CurrentEntry();
        entries := [it.data.entries[it.data.pos]] + entries;
        it.Prev();
        it.CurrentEntry();
      }
    }
  }

  // The table has no filters, or ones that deny no key and are short enough.
  ghost predicate FiltersOk(o: TableOptions, perKey: nat, n: nat) {
    o.policy.Some? ==>
      && FilterBlocks.NoFalseNegatives(o.policy.value) && FilterBlocks.AtMost(o.policy.value, perKey) && perKey * n < 0x1_0000_0000
  }

  /** Build a table of an increasing list, and open it. */
  method BuildTable(options: TableOptions, all: seq<Entry>, ghost perKey: nat) returns (t: Table)
    requires Shortens(options) && Sorted(all) && |all| <= MAX_ENTRIES && FiltersOk(options, perKey, |all|)
    ensures t.Opened() && t.all == all && t.options == options
    ensures Cut(options, t.index, t.blocks)
  {
    var builder := new TableBuilder(options);
    AddAll(builder, all);
    var contents := builder.Finish(perKey);
    t := new Table.Open(options, contents, all, builder.blocks, builder.handles, builder.offset);
  }

  method AddAll(builder: TableBuilder, all: seq<Entry>)
    requires builder.Valid() && !builder.closed && builder.All() == [] && builder.numEntries == 0 && Sorted(all) && |all| <= MAX_ENTRIES
    modifies builder, builder.filterBlock
    ensures builder.Valid() && !builder.closed && builder.All() == all && builder.numEntries == |all|
    ensures old(builder.IsCut()) ==> builder.IsCut()
  {
    hide *;
    for i := 0 to |all|
      invariant builder.Valid() && !builder.closed && builder.All() == all[..i] && (old(builder.IsCut()) ==> builder.IsCut())
      invariant builder.numEntries == i && (i > 0 ==> builder.lastKey == all[i - 1].key)
    {
      if i > 0 {
        SortedNext(all, i);
      }
      builder.Add(all[i].key, all[i].value);
      assert all[..i + 1] == all[..i] + [all[i]];
    }
    assert all[..|all|] == all;
  }

  lemma SortedNext(all: seq<Entry>, i: nat)
    requires Sorted(all) && 0 < i < |all|
    ensures Before(all[i - 1].key, all[i].key)
  {
  }

  /** A read of a table with shortened index keys and Bloom filters finds what a search of the whole list does. */
  method GetThroughBloom(bytes: RankedKeys.KeyBytes, blockSize: nat, estimate: seq<Entry> -> nat, contentsSize: seq<Entry> -> Word,
                         all: seq<Entry>, bitsPerKey: nat, hash: Bloom.Hash, k: UserKey, s: nat, number: nat)
    returns (r: Option<Entry>)
    requires Sorted(all) && |all| <= MAX_ENTRIES && (bitsPerKey + 9) * |all| < 0x1_0000_0000
    ensures r == LsmTree.Probe(LsmTree.File(number, all), k, s)
  {
    hide Sorted, Shortens, FilterBlocks.NoFalseNegatives, FilterBlocks.AtMost, LsmTree.Probe;
    var policy := Bloom.BloomPolicy(bitsPerKey, hash);
    Bloom.BloomNeverDenies(bitsPerKey, hash);
    Bloom.BloomIsShort(bitsPerKey, hash);
    RankedKeys.OptionsShorten(bytes, blockSize, estimate, contentsSize, Some(policy));
    var t := BuildTable(RankedKeys.OptionsFor(bytes, blockSize, estimate, contentsSize, Some(policy)), all, bitsPerKey + 9);
    r := t.Get(k, s, number);
  }
}
