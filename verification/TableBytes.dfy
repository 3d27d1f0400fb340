/** A table whose data blocks and index block are the bytes that a block builder writes, and reading through them. */
module TableBytes {
  import opened Options
  import opened Bytes
  import opened WriteBatches
  import opened BlockFormat
  import opened Blocks
  import opened ByteOrder
  import opened InternalKeyBytes
  import opened RankedKeys
  import opened TableSpec
  import InternalKeys
  import Tables
  import FilterBlocks
  import Bloom
  import LsmTree
  import CompactionSpec
  import TwoLevelSpec
  import Varints

  type InternalKey = InternalKeys.InternalKey
  type Entry = InternalKeys.Entry

  const DATA_RESTART_INTERVAL := 16
  const INDEX_RESTART_INTERVAL := 1

  // ----- entries as bytes -----

  // Every byte string is the bytes of its rank.
  ghost predicate Inverse(bytes: KeyBytes) {
    forall u: ByteOrder.Key {:trigger bytes(Rank(u))} :: bytes(Rank(u)) == u
  }

  predicate Storable(bytes: KeyBytes, k: InternalKey) {
    Holds(bytes, k.userKey) && k.sequence <= CompactionSpec.MAX_SEQUENCE
  }

  predicate AreBytes(v: InternalKeys.Bytes) {
    forall i :: 0 <= i < |v| ==> 0 <= v[i] < 256
  }

  ghost predicate EntryStorable(bytes: KeyBytes, e: Entry) {
    Storable(bytes, e.key) && AreBytes(e.value)
  }

  ghost predicate AllStorable(bytes: KeyBytes, es: seq<Entry>) {
    forall i {:trigger es[i]} :: 0 <= i < |es| ==> EntryStorable(bytes, es[i])
  }

  lemma PackedFits(bytes: KeyBytes, k: InternalKey)
    requires Storable(bytes, k)
    ensures k.Packed() < 0x1_0000_0000_0000_0000
  {
  }

  // The bytes of an internal key.
  function BytesOf(bytes: KeyBytes, k: InternalKey): (key: Key)
    requires Storable(bytes, k)
    ensures IsInternal(key)
  {
    PackedFits(bytes, k);
    bytes(k.userKey) + Fixed64(k.Packed())
  }

  lemma BytesParts(bytes: KeyBytes, k: InternalKey)
    requires Storable(bytes, k)
    ensures ExtractUserKey(BytesOf(bytes, k)) == bytes(k.userKey) && KeyOf(BytesOf(bytes, k)) == k
  {
    PackedFits(bytes, k);
    var key := BytesOf(bytes, k);
    assert key[|key| - 8..] == Fixed64(k.Packed()) && key[..|key| - 8] == bytes(k.userKey);
    Fixed64RoundTrip(k.Packed());
    Unpacked(k);
  }

  lemma Unpacked(k: InternalKey)
    ensures k.Packed() / 256 == k.sequence && k.Packed() % 256 == k.tag
  {
  }

  function ItemOf(bytes: KeyBytes, e: Entry): Item
    requires Storable(bytes, e.key) && AreBytes(e.value)
  {
    var value: seq<Byte> := e.value;
    Item(BytesOf(bytes, e.key), value)
  }

  ghost function Items(bytes: KeyBytes, es: seq<Entry>): (items: seq<Item>)
    requires AllStorable(bytes, es)
    ensures |items| == |es| && forall i :: 0 <= i < |es| ==> EntryStorable(bytes, es[i]) && items[i] == ItemOf(bytes, es[i])
  {
    seq(|es|, i requires 0 <= i < |es| => assert EntryStorable(bytes, es[i]); ItemOf(bytes, es[i]))
  }

  // The comparator of internal keys.
  predicate InternalLess(a: Key, b: Key) {
    IsInternal(a) && IsInternal(b) && InternalKeyBytes.Precedes(a, b)
  }

  lemma InternalLessOrders()
    ensures Ordered(InternalLess)
  {
    hide InternalKeyBytes.Precedes, IsInternal;
    forall a, b, c {:trigger InternalLess(a, b), InternalLess(b, c)} | InternalLess(a, b) && InternalLess(b, c)
      ensures InternalLess(a, c)
    {
      BytesOrderKeys(a, b);
      BytesOrderKeys(b, c);
      BytesOrderKeys(a, c);
      InternalKeys.BeforeIsStrictTotalOrder(KeyOf(a), KeyOf(b), KeyOf(c));
    }
    forall a {:trigger InternalLess(a, a)}
      ensures !InternalLess(a, a)
    {
      if InternalLess(a, a) {
        BytesOrderKeys(a, a);
        InternalKeys.BeforeIsStrictTotalOrder(KeyOf(a), KeyOf(a), KeyOf(a));
      }
    }
  }

  // The order of entries is that of their bytes.
  lemma LessIff(bytes: KeyBytes, a: InternalKey, b: InternalKey)
    requires Storable(bytes, a) && Storable(bytes, b)
    ensures InternalLess(BytesOf(bytes, a), BytesOf(bytes, b)) <==> InternalKeys.Before(a, b)
  {
    hide BytesOf, Storable, InternalKeyBytes.Precedes, KeyOf;
    BytesParts(bytes, a);
    BytesParts(bytes, b);
    BytesOrderKeys(BytesOf(bytes, a), BytesOf(bytes, b));
  }

  lemma SortedIncrease(bytes: KeyBytes, es: seq<Entry>)
    requires AllStorable(bytes, es) && InternalKeys.Sorted(es)
    ensures Increasing(InternalLess, Items(bytes, es))
  {
    hide InternalLess, BytesOf, InternalKeys.Before;
    var items := Items(bytes, es);
    forall i, j {:trigger Blocks.Precedes(InternalLess, items, i, j)} | 0 <= i < j < |items|
      ensures Blocks.Precedes(InternalLess, items, i, j)
    {
      LessIff(bytes, es[i].key, es[j].key);
    }
  }

  // ----- one block -----

  // The bytes are a block of the entries.
  ghost predicate Encodes(contents: seq<Byte>, bytes: KeyBytes, es: seq<Entry>) {
    AllStorable(bytes, es) && exists data, l, words :: BlockOf(contents, data, l, words) && l.items == Items(bytes, es)
  }

  // The entry at a place, if there is one.
  ghost function ItemAt(bytes: KeyBytes, es: seq<Entry>, n: nat): Option<Item>
    requires AllStorable(bytes, es)
  {
    if n < |es| then Some(Items(bytes, es)[n]) else None
  }

  // Where less and not less meet.
  lemma MeetsAt(bytes: KeyBytes, es: seq<Entry>, k: InternalKey, p: nat)
    requires AllStorable(bytes, es) && Storable(bytes, k) && p <= |es|
    requires forall i :: 0 <= i < p ==> InternalLess(Items(bytes, es)[i].key, BytesOf(bytes, k))
    requires forall i :: p <= i < |es| ==> !InternalLess(Items(bytes, es)[i].key, BytesOf(bytes, k))
    ensures p == InternalKeys.LowerBound(es, k)
  {
    hide InternalLess, BytesOf, Storable, AllStorable, InternalKeys.Before;
    var n := InternalKeys.LowerBound(es, k);
    if n < p {
      ItemLessIff(bytes, es, n, k);
    } else if p < n {
      ItemLessIff(bytes, es, p, k);
    }
  }

  lemma ItemLessIff(bytes: KeyBytes, es: seq<Entry>, i: nat, k: InternalKey)
    requires AllStorable(bytes, es) && Storable(bytes, k) && i < |es|
    ensures InternalLess(Items(bytes, es)[i].key, BytesOf(bytes, k)) <==> InternalKeys.Before(es[i].key, k)
  {
    hide InternalLess, BytesOf, Storable, InternalKeys.Before;
    assert EntryStorable(bytes, es[i]);
    LessIff(bytes, es[i].key, k);
  }

  /** Seeking in the bytes of a block finds what a search of its entries does. */
  method SeekIn(contents: seq<Byte>, target: Key, ghost bytes: KeyBytes, ghost es: seq<Entry>, ghost k: InternalKey) returns (r: Option<Item>)
    requires Encodes(contents, bytes, es) && InternalKeys.Sorted(es) && Storable(bytes, k) && target == BytesOf(bytes, k)
    ensures AllStorable(bytes, es) && r == ItemAt(bytes, es, InternalKeys.LowerBound(es, k))
  {
    hide InternalLess, BlockOf, BytesOf, AllStorable, InternalKeys.Sorted, Storable, Ordered, Increasing;
    InternalLessOrders();
    SortedIncrease(bytes, es);
    ghost var data, l, words :| BlockOf(contents, data, l, words) && l.items == Items(bytes, es);
    var it := new Iter(InternalLess, contents, data, l, words);
    it.Seek(target);
    it.Positioned();
    MeetsAt(bytes, es, k, it.pos);
    r := if it.IsValid() then Some(Item(it.key, it.contents[it.valueStart..it.valueStart + it.valueLength])) else None;
  }

  // Entries one by one as they go into a block.
  method ItemsOf(bytes: KeyBytes, es: seq<Entry>) returns (items: seq<Item>)
    requires AllStorable(bytes, es)
    ensures items == Items(bytes, es)
  {
    hide Storable, AreBytes, BytesOf;
    items := [];
    for i := 0 to |es|
      invariant |items| == i && forall j :: 0 <= j < i ==> EntryStorable(bytes, es[j]) && items[j] == ItemOf(bytes, es[j])
    {
      items := items + [ItemOf(bytes, es[i])];
    }
  }

  method Encode(bytes: KeyBytes, es: seq<Entry>, interval: nat) returns (contents: seq<Byte>)
    requires AllStorable(bytes, es) && InternalKeys.Sorted(es) && interval >= 1 && Room(Items(bytes, es)) < 0x1_0000_0000
    ensures Encodes(contents, bytes, es)
  {
    hide InternalLess, BlockOf, AllStorable, InternalKeys.Sorted, Ordered, Increasing, Room;
    var items := ItemsOf(bytes, es);
    InternalLessOrders();
    SortedIncrease(bytes, es);
    ghost var data, l, words;
    contents, data, l, words := Build(items, interval, InternalLess);
  }

  // ----- sizes -----

  // Every entry's user key and value take no more bytes than this.
  ghost predicate NoLongerThan(bytes: KeyBytes, es: seq<Entry>, size: nat) {
    forall i {:trigger es[i]} :: 0 <= i < |es| ==> |bytes(es[i].key.userKey)| + |es[i].value| <= size
  }

  lemma {:induction false} RoomOf(items: seq<Item>, size: nat)
    requires forall i :: 0 <= i < |items| ==> |items[i].key| + |items[i].value| + 15 <= size
    ensures Room(items) <= |items| * size
  {
    if items != [] {
      RoomOf(items[..|items| - 1], size);
      assert |items| * size == (|items| - 1) * size + size;
    }
  }

  lemma EntriesRoom(bytes: KeyBytes, es: seq<Entry>, size: nat, count: nat)
    requires AllStorable(bytes, es) && NoLongerThan(bytes, es, size) && |es| <= count && count * (size + 23) < 0x1_0000_0000
    ensures Room(Items(bytes, es)) < 0x1_0000_0000
  {
    hide Room, Storable;
    var items := Items(bytes, es);
    forall i | 0 <= i < |items|
      ensures |items[i].key| + |items[i].value| + 15 <= size + 23
    {
      assert EntryStorable(bytes, es[i]);
    }
    RoomOf(items, size + 23);
    assert |es| * (size + 23) <= count * (size + 23);
  }

  // ----- what a table's blocks hold -----

  // The index keys are shortened on the bytes of user keys, and filters are of those bytes.
  ghost predicate OnBytes(o: TableOptions, bytes: KeyBytes) {
    && o.keyBytes == bytes
    && (forall a, b {:trigger o.separator(a, b)} :: o.separator(a, b) == Separator(bytes, a, b))
    && (forall a {:trigger o.successor(a)} :: o.successor(a) == Successor(bytes, a))
  }

  lemma ShortenedStorable(bytes: KeyBytes, a: InternalKey, b: InternalKey)
    requires Inverse(bytes) && Storable(bytes, a)
    ensures Storable(bytes, Separator(bytes, a, b)) && |bytes(Separator(bytes, a, b).userKey)| <= |bytes(a.userKey)|
    ensures Storable(bytes, Successor(bytes, a)) && |bytes(Successor(bytes, a).userKey)| <= |bytes(a.userKey)|
  {
    hide Rank, ByteOrder.Less, ByteOrder.ShortestSeparator, ByteOrder.ShortSuccessor;
    var tmp, after := ByteOrder.ShortestSeparator(bytes(a.userKey), bytes(b.userKey)), ByteOrder.ShortSuccessor(bytes(a.userKey));
    assert bytes(Rank(tmp)) == tmp && bytes(Rank(after)) == after;
  }

  lemma MadeStorable(o: TableOptions, bytes: KeyBytes, key: InternalKey, all: seq<Entry>, size: nat)
    requires Inverse(bytes) && OnBytes(o, bytes) && MadeOf(o, key, all) && AllStorable(bytes, all) && NoLongerThan(bytes, all, size)
    ensures Storable(bytes, key) && |bytes(key.userKey)| <= size
  {
    hide Separator, Successor, Storable, Inverse;
    if a, b :| a in all && b in all && key == o.separator(a.key, b.key) {
      var i :| 0 <= i < |all| && all[i] == a;
      assert EntryStorable(bytes, all[i]);
      ShortenedStorable(bytes, a.key, b.key);
    } else {
      var a :| a in all && key == o.successor(a.key);
      var i :| 0 <= i < |all| && all[i] == a;
      assert EntryStorable(bytes, all[i]);
      ShortenedStorable(bytes, a.key, a.key);
    }
  }

  lemma HandleIsShort(h: BlockHandle)
    requires h.Fits()
    ensures |h.Encode()| <= 20 && AreBytes(h.Encode())
  {
    Varints.VarintLength(h.offset);
    Varints.VarintLength(h.size);
    var s: seq<Byte> := h.Encode();
    forall i | 0 <= i < |s|
      ensures 0 <= s[i] < 256
    {
    }
  }

  lemma IndexStorable(t: Tables.Table, bytes: KeyBytes, size: nat)
    requires t.Opened() && Inverse(bytes) && OnBytes(t.options, bytes) && AllStorable(bytes, t.all) && NoLongerThan(bytes, t.all, size)
    ensures AllStorable(bytes, t.index) && NoLongerThan(bytes, t.index, size + 20)
  {
    hide MadeOf, Storable, OnBytes, Inverse, AreBytes, InternalKeys.Sorted, CompactionSpec.Concat, Divided, Tables.Table.Admits;
    forall i {:trigger t.index[i]} | 0 <= i < |t.index|
      ensures EntryStorable(bytes, t.index[i]) && |bytes(t.index[i].key.userKey)| + |t.index[i].value| <= size + 20
    {
      MadeStorable(t.options, bytes, t.index[i].key, t.all, size);
      assert StoredAt(t.blocks, t.handles, t.file, i);
      HandleIsShort(t.handles[i]);
    }
  }

  lemma PieceStorable(all: seq<Entry>, blocks: seq<seq<Entry>>, i: nat, bytes: KeyBytes, size: nat)
    requires InternalKeys.Sorted(all) && CompactionSpec.Concat(blocks) == all && i < |blocks|
    requires AllStorable(bytes, all) && NoLongerThan(bytes, all, size)
    ensures AllStorable(bytes, blocks[i]) && NoLongerThan(bytes, blocks[i], size) && InternalKeys.Sorted(blocks[i]) && |blocks[i]| <= |all|
  {
    hide EntryStorable, CompactionSpec.Concat, TwoLevelSpec.StartOf, InternalKeys.Before;
    var es := blocks[i];
    TwoLevelSpec.InFlat(blocks, i);
    forall q {:trigger es[q]} | 0 <= q < |es|
      ensures EntryStorable(bytes, es[q]) && |bytes(es[q].key.userKey)| + |es[q].value| <= size
    {
      FlatEntry(all, blocks, i, q);
    }
    BlockIsSorted(all, blocks, i);
  }

  // There are no more blocks than entries.
  lemma {:induction false} FewPieces(blocks: seq<seq<Entry>>)
    requires NoneEmpty(blocks)
    ensures |blocks| <= |CompactionSpec.Concat(blocks)|
  {
    if blocks != [] {
      FewPieces(blocks[..|blocks| - 1]);
    }
  }

  // ----- the table -----

  // The first n blocks are in the file.
  ghost predicate Written(file: map<BlockHandle, seq<Byte>>, bytes: KeyBytes, blocks: seq<seq<Entry>>, handles: seq<BlockHandle>, n: nat)
    requires n <= |blocks| == |handles|
  {
    forall i {:trigger handles[i]} :: 0 <= i < n ==> handles[i] in file && Encodes(file[handles[i]], bytes, blocks[i])
  }

  class StoredTable {
    const index: seq<Byte>
    const file: map<BlockHandle, seq<Byte>>
    const filter: FilterBlocks.FilterBlockReader?
    ghost const table: Tables.Table
    ghost const bytes: KeyBytes

    // The bytes are those of the table's blocks and its index.
    ghost predicate Opened() {
      && table.Opened() && filter == table.filter && table.options.keyBytes == bytes
      && Inverse(bytes) && AllStorable(bytes, table.all)
      && Encodes(index, bytes, table.index)
      && |table.blocks| == |table.handles| && Written(file, bytes, table.blocks, table.handles, |table.blocks|)
    }

    constructor (t: Tables.Table, index: seq<Byte>, file: map<BlockHandle, seq<Byte>>, ghost bytes: KeyBytes)
      ensures this.table == t && this.index == index && this.file == file && this.bytes == bytes && filter == t.filter
    {
      this.table, this.index, this.file, this.bytes, filter := t, index, file, bytes, t.filter;
    }

    // The index entry's block, and that it is in order.
    lemma BlockThere(i: nat)
      requires Opened() && i < |table.index|
      ensures |table.blocks| == |table.index| <= |table.handles| && table.handles[i] in file
      ensures Encodes(file[table.handles[i]], bytes, table.blocks[i]) && InternalKeys.Sorted(table.blocks[i])
      ensures TableSpec.DecodeHandle(table.index[i].value) == Some(table.handles[i])
    {
      hide Inverse, Encodes, Tables.Table.Admits, IndexMade, AllStorable, TableSpec.DecodeHandle;
      table.BlockAt(i);
      BlockIsSorted(table.all, table.blocks, i);
    }

    lemma IndexIsSorted()
      requires table.Opened()
      ensures InternalKeys.Sorted(table.index)
    {
      BuiltIsIndexed(table.all, table.index, table.blocks, table.handles, table.file, table.end);
    }

    // An item of the index holds the handle of its block.
    lemma ItemIsEntry(es: seq<Entry>, n: nat)
      requires AllStorable(bytes, es) && n < |es|
      ensures EntryStorable(bytes, es[n]) && ItemAt(bytes, es, n) == Some(ItemOf(bytes, es[n]))
      ensures ItemOf(bytes, es[n]).value == es[n].value && ItemOf(bytes, es[n]).key == BytesOf(bytes, es[n].key)
    {
    }

    /** The same as the table's, on bytes. */
    method InternalGet(target: Key, ghost k: InternalKey) returns (r: Option<Item>)
      requires Opened() && Storable(bytes, k) && target == BytesOf(bytes, k)
      ensures var n := InternalKeys.LowerBound(table.all, k);
              && (r.Some? ==> n < |table.all| && r == ItemAt(bytes, table.all, n))
              && (n < |table.all| && table.all[n].key.userKey == k.userKey ==> r == ItemAt(bytes, table.all, n))
      ensures |table.blocks| == |table.index| <= |table.handles|
      ensures var e := table.InBlockOf(k); if e.None? then r.None? else EntryStorable(bytes, e.value) && r == Some(ItemOf(bytes, e.value))
    {
      hide Built, TableSpec.DecodeHandle, FilterBlocks.FilterBlockReader.MayMatch, Encodes, IndexMade, AllStorable, Storable, BytesOf,
           Inverse, InternalKeys.Sorted, KeyOf, ExtractUserKey, Items, ItemOf, EntryStorable;
      ghost var i, n := InternalKeys.LowerBound(table.index, k), InternalKeys.LowerBound(table.all, k);
      table.AllBlocks();
      IndexIsSorted();
      BlockDecides(table.all, table.index, table.blocks, table.handles, table.file, table.end, k);
      var found := SeekIn(index, target, bytes, table.index, k);
      if found.None? {
        return None;
      }
      BlockThere(i);
      ItemIsEntry(table.index, i);
      BytesParts(bytes, k);
      var handle := TableSpec.DecodeHandle(found.value.value).value;
      if filter != null {
        var mayMatch := filter.KeyMayMatch(handle.offset, ExtractUserKey(target));
        if !mayMatch {
          table.DeniedIsAbsent(i, k.userKey);
          return None;
        }
      }
      r := SeekIn(file[handle], target, bytes, table.blocks[i], k);
      ghost var q := InternalKeys.LowerBound(table.blocks[i], k);
      if q < |table.blocks[i]| {
        ItemIsEntry(table.blocks[i], q);
        ItemIsEntry(table.all, n);
      }
    }

    /** A point read through the bytes: what the search of a version finds in this file. */
    method Get(userKey: ByteOrder.Key, s: nat, number: nat) returns (r: Option<Item>)
      requires Opened() && s <= CompactionSpec.MAX_SEQUENCE
      ensures Found(r, LsmTree.Probe(LsmTree.File(number, table.all), Rank(userKey), s))
    {
      hide Built, Encodes, IndexMade, BytesOf, InternalKeys.Sorted, ItemOf, Rank, Tables.Table.Opened, Items;
      ghost var k := LsmTree.LookupKey(Rank(userKey), s);
      assert bytes(Rank(userKey)) == userKey;
      var target := userKey + Fixed64(s * 256 + InternalKeys.TYPE_FOR_SEEK);
      TargetIs(userKey, s);
      r := InternalGet(target, k);
      ghost var n := InternalKeys.LowerBound(table.all, k);
      if n < |table.all| {
        ItemIsEntry(table.all, n);
        SameUserKey(table.all[n].key, userKey);
      }
      if r.Some? && ExtractUserKey(r.value.key) != userKey {
        r := None;
      }
    }

    // The item is that of the entry.
    ghost predicate Found(r: Option<Item>, e: Option<Entry>) {
      if e.None? then r.None? else EntryStorable(bytes, e.value) && r == Some(ItemOf(bytes, e.value))
    }

    lemma TargetIs(userKey: ByteOrder.Key, s: nat)
      requires bytes(Rank(userKey)) == userKey && s <= CompactionSpec.MAX_SEQUENCE
      ensures var k := LsmTree.LookupKey(Rank(userKey), s);
              Storable(bytes, k) && s * 256 + InternalKeys.TYPE_FOR_SEEK < 0x1_0000_0000_0000_0000 &&
              BytesOf(bytes, k) == userKey + Fixed64(s * 256 + InternalKeys.TYPE_FOR_SEEK)
    {
      hide Rank, Fixed64;
    }

    // A user key and its bytes are the same thing.
    lemma SameUserKey(k: InternalKey, userKey: ByteOrder.Key)
      requires Inverse(bytes) && Storable(bytes, k)
      ensures IsInternal(BytesOf(bytes, k)) && (ExtractUserKey(BytesOf(bytes, k)) == userKey <==> k.userKey == Rank(userKey))
    {
      hide Rank, BytesOf;
      BytesParts(bytes, k);
      assert bytes(Rank(userKey)) == userKey;
    }
  }

  lemma BlockIsSorted(all: seq<Entry>, blocks: seq<seq<Entry>>, i: nat)
    requires InternalKeys.Sorted(all) && CompactionSpec.Concat(blocks) == all && i < |blocks|
    ensures InternalKeys.Sorted(blocks[i])
  {
    hide CompactionSpec.Concat, TwoLevelSpec.StartOf, InternalKeys.Before;
    forall q, r | 0 <= q < r < |blocks[i]|
      ensures InternalKeys.Before(blocks[i][q].key, blocks[i][r].key)
    {
      InOrder(all, blocks, i, q, i, r);
    }
  }

  // Small enough to be stored.
  ghost predicate Fits(bytes: KeyBytes, all: seq<Entry>, size: nat) {
    AllStorable(bytes, all) && NoLongerThan(bytes, all, size) && |all| * (size + 43) < 0x1_0000_0000
  }

  lemma BlockFits(t: Tables.Table, bytes: KeyBytes, size: nat, i: nat)
    requires t.Opened() && Fits(bytes, t.all, size) && i < |t.blocks|
    ensures AllStorable(bytes, t.blocks[i]) && InternalKeys.Sorted(t.blocks[i]) && Room(Items(bytes, t.blocks[i])) < 0x1_0000_0000
  {
    hide Room, InternalKeys.Sorted, IndexMade, Tables.Table.Admits, Handled, Stored, Divided, EntryStorable, CompactionSpec.Concat;
    PieceStorable(t.all, t.blocks, i, bytes, size);
    assert |t.all| * (size + 43) == |t.all| * (size + 23) + |t.all| * 20;
    EntriesRoom(bytes, t.blocks[i], size, |t.all|);
  }

  lemma IndexFits(t: Tables.Table, bytes: KeyBytes, size: nat)
    requires t.Opened() && Inverse(bytes) && OnBytes(t.options, bytes) && Fits(bytes, t.all, size)
    ensures AllStorable(bytes, t.index) && InternalKeys.Sorted(t.index) && Room(Items(bytes, t.index)) < 0x1_0000_0000
  {
    hide Room, InternalKeys.Sorted, IndexMade, Tables.Table.Admits, Handled, Stored, EntryStorable, CompactionSpec.Concat, OnBytes, Inverse;
    IndexStorable(t, bytes, size);
    BuiltIsIndexed(t.all, t.index, t.blocks, t.handles, t.file, t.end);
    DividedParts(t.index, t.blocks);
    FewPieces(t.blocks);
    EntriesRoom(bytes, t.index, size + 20, |t.all|);
  }

  lemma OneMoreWritten(t: Tables.Table, file: map<BlockHandle, seq<Byte>>, bytes: KeyBytes, i: nat, contents: seq<Byte>)
    requires t.Opened() && i < |t.blocks| == |t.handles| && Written(file, bytes, t.blocks, t.handles, i) && Encodes(contents, bytes, t.blocks[i])
    ensures Written(file[t.handles[i] := contents], bytes, t.blocks, t.handles, i + 1)
  {
    hide Encodes, IndexMade, Tables.Table.Admits, InternalKeys.Sorted, Handled, Divided, CompactionSpec.Concat;
    assert forall j {:trigger t.handles[j]} :: 0 <= j < i ==> t.handles[j] != t.handles[i];
  }

  lemma NoneWritten(file: map<BlockHandle, seq<Byte>>, bytes: KeyBytes, blocks: seq<seq<Entry>>, handles: seq<BlockHandle>)
    requires |blocks| == |handles|
    ensures Written(file, bytes, blocks, handles, 0)
  {
  }

  lemma FitsParts(bytes: KeyBytes, all: seq<Entry>, size: nat)
    requires Fits(bytes, all, size)
    ensures AllStorable(bytes, all)
  {
  }

  lemma BlockOfIndex(t: Tables.Table, i: nat)
    requires t.Opened() && i < |t.index| == |t.blocks| == |t.handles|
    ensures TableSpec.DecodeHandle(t.index[i].value) == Some(t.handles[i]) && Tables.ReadBlock(t.file, t.index[i].value) == t.blocks[i]
  {
    t.BlockAt(i);
  }

  lemma AsMany(t: Tables.Table)
    requires t.Opened()
    ensures |t.index| == |t.blocks| == |t.handles|
  {
  }

  /** Write the blocks of a table as bytes. */
  method Store(t: Tables.Table, bytes: KeyBytes, ghost size: nat) returns (s: StoredTable)
    requires t.Opened() && Inverse(bytes) && OnBytes(t.options, bytes) && Fits(bytes, t.all, size)
    ensures s.Opened() && s.table == t && s.bytes == bytes
  {
    hide Room, InternalKeys.Sorted, Tables.Table.Opened, EntryStorable, Inverse, Encodes, TableSpec.DecodeHandle, Items, Written,
         Tables.ReadBlock;
    AsMany(t);
    FitsParts(bytes, t.all, size);
    IndexFits(t, bytes, size);
    var index := Encode(bytes, t.index, INDEX_RESTART_INTERVAL);
    var file: map<BlockHandle, seq<Byte>> := map[];
    NoneWritten(file, bytes, t.blocks, t.handles);
    for i := 0 to |t.index|
      invariant Written(file, bytes, t.blocks, t.handles, i)
    {
      BlockOfIndex(t, i);
      BlockFits(t, bytes, size, i);
      var handle := TableSpec.DecodeHandle(t.index[i].value).value;
      var contents := Encode(bytes, Tables.ReadBlock(t.file, t.index[i].value), DATA_RESTART_INTERVAL);
      OneMoreWritten(t, file, bytes, i, contents);
      file := file[handle := contents];
    }
    s := new StoredTable(t, index, file, bytes);
  }

  lemma OptionsOnBytes(bytes: KeyBytes, blockSize: nat, estimate: seq<Entry> -> nat, contentsSize: seq<Entry> -> Word,
                       policy: Option<FilterBlocks.Policy>)
    ensures OnBytes(OptionsFor(bytes, blockSize, estimate, contentsSize, policy), bytes)
  {
  }

  /** For every increasing list of entries that fits, and every key: a read through the bytes of the index block, the filter
      block and the data blocks finds the bytes of what a search of the whole list finds. */
  method GetThroughBytes(bytes: KeyBytes, blockSize: nat, estimate: seq<Entry> -> nat, contentsSize: seq<Entry> -> Word, all: seq<Entry>,
                         ghost size: nat, bitsPerKey: nat, hash: Bloom.Hash, userKey: ByteOrder.Key, s: nat, number: nat)
    returns (r: Option<Item>)
    requires InternalKeys.Sorted(all) && |all| <= Tables.MAX_ENTRIES && (bitsPerKey + 9) * |all| < 0x1_0000_0000
    requires Inverse(bytes) && Fits(bytes, all, size) && s <= CompactionSpec.MAX_SEQUENCE
    ensures var e := LsmTree.Probe(LsmTree.File(number, all), Rank(userKey), s);
            if e.None? then r.None? else EntryStorable(bytes, e.value) && r == Some(ItemOf(bytes, e.value))
  {
    hide InternalKeys.Sorted, Shortens, FilterBlocks.NoFalseNegatives, FilterBlocks.AtMost, LsmTree.Probe, Inverse, Fits, OnBytes, EntryStorable,
         ItemOf, Rank, Tables.Table.Opened;
    var policy := Bloom.BloomPolicy(bitsPerKey, hash);
    Bloom.BloomNeverDenies(bitsPerKey, hash);
    Bloom.BloomIsShort(bitsPerKey, hash);
    OptionsShorten(bytes, blockSize, estimate, contentsSize, Some(policy));
    OptionsOnBytes(bytes, blockSize, estimate, contentsSize, Some(policy));
    var t := Tables.BuildTable(OptionsFor(bytes, blockSize, estimate, contentsSize, Some(policy)), all, bitsPerKey + 9);
    var stored := Store(t, bytes, size);
    r := stored.Get(userKey, s, number);
  }
}
