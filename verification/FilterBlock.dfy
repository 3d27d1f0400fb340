/** The filter block of a table: one filter for every two kilobytes of data blocks. */
module FilterBlocks {
  import opened Options
  import opened Bytes
  import opened Blocks
  import opened BlockFormat

  const FILTER_BASE_LG: Byte := 11
  const FILTER_BASE := 2048

  // A filter policy: how a filter is made of keys, and what keys it may hold.
  datatype Policy = Policy(create: seq<Key> -> seq<Byte>, mayMatch: (Key, seq<Byte>) -> bool)

  // A policy that never denies a key a filter was made of.
  ghost predicate NoFalseNegatives(p: Policy) {
    forall keys, key {:trigger p.mayMatch(key, p.create(keys))} :: key in keys ==> p.mayMatch(key, p.create(keys))
  }

  function Flat(pieces: seq<seq<Byte>>): seq<Byte> {
    if pieces == [] then [] else Flat(pieces[..|pieces| - 1]) + pieces[|pieces| - 1]
  }

  lemma {:induction false} FlatPiece(pieces: seq<seq<Byte>>, i: nat)
    requires i < |pieces|
    ensures |Flat(pieces[..i])| <= |Flat(pieces[..i + 1])| <= |Flat(pieces)|
    ensures Flat(pieces)[|Flat(pieces[..i])|..|Flat(pieces[..i + 1])|] == pieces[i]
  {
    var n := |pieces| - 1;
    assert pieces[..i + 1][..i] == pieces[..i];
    if i < n {
      FlatPiece(pieces[..n], i);
      assert pieces[..n][..i] == pieces[..i] && pieces[..n][..i + 1] == pieces[..i + 1];
    } else {
      assert pieces[..i + 1] == pieces;
    }
  }

  // The filter of some keys; there is none for no keys.
  function Piece(policy: Policy, keys: seq<Key>): seq<Byte> {
    if keys == [] then [] else policy.create(keys)
  }

  function Pieces(policy: Policy, filters: seq<seq<Key>>): (r: seq<seq<Byte>>)
    ensures |r| == |filters|
  {
    seq(|filters|, i requires 0 <= i < |filters| => Piece(policy, filters[i]))
  }

  // Where each filter begins.
  function Offsets(pieces: seq<seq<Byte>>): (r: seq<nat>)
    ensures |r| == |pieces|
  {
    seq(|pieces|, i requires 0 <= i < |pieces| => |Flat(pieces[..i])|)
  }

  lemma PiecesMore(policy: Policy, filters: seq<seq<Key>>, keys: seq<Key>)
    ensures Pieces(policy, filters + [keys]) == Pieces(policy, filters) + [Piece(policy, keys)]
    ensures Offsets(Pieces(policy, filters) + [Piece(policy, keys)]) == Offsets(Pieces(policy, filters)) + [|Flat(Pieces(policy, filters))|]
    ensures Flat(Pieces(policy, filters) + [Piece(policy, keys)]) == Flat(Pieces(policy, filters)) + Piece(policy, keys)
  {
    var pieces, piece := Pieces(policy, filters), Piece(policy, keys);
    assert (pieces + [piece])[..|pieces|] == pieces;
    forall i | 0 <= i <= |pieces|
      ensures (pieces + [piece])[..i] == pieces[..i]
    {
    }
  }

  function Total(filters: seq<seq<Key>>): nat {
    if filters == [] then 0 else Total(filters[..|filters| - 1]) + |filters[|filters| - 1]|
  }

  // No filter takes more than so many bytes for each of its keys.
  ghost predicate AtMost(policy: Policy, perKey: nat) {
    forall keys {:trigger policy.create(keys)} :: keys != [] ==> |policy.create(keys)| <= perKey * |keys|
  }

  lemma {:induction false} FiltersAreSmall(policy: Policy, perKey: nat, filters: seq<seq<Key>>)
    requires AtMost(policy, perKey)
    ensures |Flat(Pieces(policy, filters))| <= perKey * Total(filters)
  {
    if filters != [] {
      hide Piece, Flat, Pieces, AtMost;
      var n := |filters| - 1;
      FiltersAreSmall(policy, perKey, filters[..n]);
      PiecesMore(policy, filters[..n], filters[n]);
      assert filters == filters[..n] + [filters[n]];
      PieceIsSmall(policy, perKey, filters[n]);
      SumOfProducts(perKey, Total(filters[..n]), |filters[n]|);
    }
  }

  lemma PieceIsSmall(policy: Policy, perKey: nat, keys: seq<Key>)
    requires AtMost(policy, perKey)
    ensures |Piece(policy, keys)| <= perKey * |keys|
  {
  }

  lemma SumOfProducts(a: nat, b: nat, c: nat)
    ensures a * b + a * c == a * (b + c)
  {
  }

  // Keys laid end to end, and where each begins.
  ghost predicate Flattened(keys: seq<Byte>, start: seq<nat>, pending: seq<Key>) {
    && |start| == |pending| && Flat(pending) == keys
    && forall i :: 0 <= i < |start| ==> start[i] == |Flat(pending[..i])|
  }

  class FilterBlockBuilder {
    const policy: Policy
    var keys: seq<Byte>
    var start: seq<nat>
    var result: seq<Byte>
    var filterOffsets: seq<nat>
    ghost var filters: seq<seq<Key>>      // the keys of each filter made
    ghost var pending: seq<Key>           // the keys since
    ghost var blockOffset: nat            // where the current block begins
    ghost var given: set<(nat, Key)>      // every key added, with where its block begins
    ghost var count: nat                  // how many keys were added

    ghost predicate Valid()
      reads this
    {
      && Flattened(keys, start, pending)
      && result == Flat(Pieces(policy, filters)) && filterOffsets == Offsets(Pieces(policy, filters))
      && |filters| == blockOffset / FILTER_BASE && count == Total(filters) + |pending|
      && forall g {:trigger g in given} :: g in given ==> g.0 <= blockOffset && Kept(g.0, g.1)
    }

    // The key is in the filter for its block, or waiting for that to be made.
    ghost predicate Kept(offset: nat, key: Key)
      reads this
    {
      var i := offset / FILTER_BASE;
      if i < |filters| then key in filters[i] else key in pending
    }

    constructor (policy: Policy)
      ensures Valid() && given == {} && count == 0 && blockOffset == 0 && this.policy == policy
    {
      this.policy := policy;
      keys, start, result, filterOffsets := [], [], [], [];
      filters, pending, blockOffset, given, count := [], [], 0, {}, 0;
    }

    /** A data block begins at the offset: make the filters for the offsets passed over. */
    method StartBlock(offset: nat)
      requires Valid() && blockOffset <= offset
      modifies this
      ensures Valid() && blockOffset == offset && given == old(given) && count == old(count)
    {
      var index := offset / FILTER_BASE;
      while index > |filterOffsets|
        invariant Flattened(keys, start, pending) && given == old(given) && blockOffset == old(blockOffset)
        invariant count == old(count) == Total(filters) + |pending|
        invariant result == Flat(Pieces(policy, filters)) && filterOffsets == Offsets(Pieces(policy, filters))
        invariant old(blockOffset) / FILTER_BASE <= |filters| <= index
        invariant forall g {:trigger g in given} :: g in given ==> g.0 <= blockOffset && Kept(g.0, g.1)
        decreases index - |filterOffsets|
      {
        GenerateFilter();
      }
      blockOffset := offset;
    }

    method AddKey(key: Key)
      requires Valid()
      modifies this
      ensures Valid() && blockOffset == old(blockOffset) && given == old(given) + {(blockOffset, key)} && count == old(count) + 1
    {
      start := start + [|keys|];
      keys := keys + key;
      ghost var was := pending;
      pending := pending + [key];
      assert pending[..|was|] == was;
      assert forall i :: 0 <= i < |was| ==> pending[..i] == was[..i];
      given, count := given + {(blockOffset, key)}, count + 1;
    }

    // Make a filter of the keys since the last.
    method GenerateFilter()
      requires Flattened(keys, start, pending)
      requires result == Flat(Pieces(policy, filters)) && filterOffsets == Offsets(Pieces(policy, filters))
      modifies this`keys, this`start, this`result, this`filterOffsets, this`filters, this`pending
      ensures Flattened(keys, start, pending) && pending == [] && filters == old(filters) + [old(pending)]
      ensures Total(filters) == old(Total(filters)) + |old(pending)|
      ensures result == old(result) + Piece(policy, old(pending))
      ensures result == Flat(Pieces(policy, filters)) && filterOffsets == Offsets(Pieces(policy, filters))
    {
      PiecesMore(policy, filters, pending);
      if |start| == 0 {
        filterOffsets := filterOffsets + [|result|];
        filters := filters + [[]];
        assert pending == [];
        return;
      }
      var tmpKeys := Unflatten();
      filterOffsets := filterOffsets + [|result|];
      result := result + policy.create(tmpKeys);
      keys, start := [], [];
      filters := filters + [pending];
      pending := [];
    }

    // The keys, taken apart again.
    method Unflatten() returns (tmpKeys: seq<Key>)
      requires Flattened(keys, start, pending)
      ensures tmpKeys == pending
    {
      var all := start + [|keys|];
      tmpKeys := [];
      for i := 0 to |start|
        invariant tmpKeys == pending[..i]
      {
        FlatPiece(pending, i);
        assert pending[..|pending|] == pending;
        tmpKeys := tmpKeys + [keys[all[i]..all[i + 1]]];
      }
    }

    /** Filters that are short for their keys fit a filter block. */
    lemma FinishFits(perKey: nat)
      requires Valid() && AtMost(policy, perKey) && perKey * count < 0x1_0000_0000
      ensures |result| + |Piece(policy, pending)| < 0x1_0000_0000
    {
      FiltersAreSmall(policy, perKey, filters + [pending]);
      PiecesMore(policy, filters, pending);
      assert (filters + [pending])[..|filters|] == filters;
    }

    /** Make the last filter, and append where the filters begin. */
    method Finish() returns (contents: seq<Byte>, ghost words: seq<Word>)
      requires Valid() && |result| + |Piece(policy, pending)| < 0x1_0000_0000
      modifies this
      ensures FilterBlock(policy, contents, filters, words)
      ensures given == old(given) && forall g {:trigger g in given} :: g in given ==> InFilter(filters, g.0, g.1)
    {
      if |start| != 0 {
        GenerateFilter();
      }
      var arrayOffset := |result|;
      SmallOffsets(filterOffsets, Pieces(policy, filters));
      words := filterOffsets;
      contents := result + Fixed32s(filterOffsets) + Fixed32(arrayOffset) + [FILTER_BASE_LG];
      result := contents;
    }
  }

  lemma SmallOffsets(offsets: seq<nat>, pieces: seq<seq<Byte>>)
    requires offsets == Offsets(pieces) && |Flat(pieces)| < 0x1_0000_0000
    ensures forall i :: 0 <= i < |offsets| ==> offsets[i] < 0x1_0000_0000
  {
    forall i | 0 <= i < |offsets|
      ensures offsets[i] < 0x1_0000_0000
    {
      FlatPiece(pieces, i);
    }
  }

  // The bytes of a filter block.
  ghost predicate FilterBlock(policy: Policy, contents: seq<Byte>, filters: seq<seq<Key>>, words: seq<Word>) {
    var pieces := Pieces(policy, filters);
    && |Flat(pieces)| < 0x1_0000_0000 && words == Offsets(pieces)
    && contents == Flat(pieces) + Fixed32s(words) + Fixed32(|Flat(pieces)|) + [FILTER_BASE_LG]
  }

  // The key is in the filter for the block.
  ghost predicate InFilter(filters: seq<seq<Key>>, offset: nat, key: Key) {
    offset / FILTER_BASE < |filters| && key in filters[offset / FILTER_BASE]
  }

  class FilterBlockReader {
    const policy: Policy
    const contents: seq<Byte>
    const offsetArray: nat     // where the offsets begin; no filters when the block is malformed
    const num: nat
    const baseLg: nat

    constructor (policy: Policy, contents: seq<Byte>)
      ensures this.policy == policy && this.contents == contents && (num > 0 ==> offsetArray + 4 * num + 5 <= |contents|)
      ensures Opens(this)
    {
      this.policy, this.contents := policy, contents;
      offsetArray, num, baseLg := 0, 0, 0;
      var n := |contents|;
      if n >= 5 {
        var lastWord := DecodeFixed32(contents[n - 5..]);
        baseLg := contents[n - 1];
        if lastWord <= n - 5 {
          offsetArray := lastWord;
          num := (n - 5 - lastWord) / 4;
        }
      }
    }

    // A filter is asked only when there is one for the block; an empty one holds nothing.
    method KeyMayMatch(blockOffset: nat, key: Key) returns (match_: bool)
      requires num > 0 ==> offsetArray + 4 * num + 5 <= |contents|
      ensures match_ == MayMatch(blockOffset, key)
    {
      hide DecodeFixed32, ShiftRight;
      var index := ShiftRight(blockOffset, baseLg);
      if index < num {
        var start := DecodeFixed32(contents[offsetArray + 4 * index..]);
        var limit := DecodeFixed32(contents[offsetArray + 4 * index + 4..]);
        if start <= limit && limit <= offsetArray {
          return policy.mayMatch(key, contents[start..limit]);
        } else if start == limit {
          return false;
        }
      }
      return true;
    }

    ghost predicate MayMatch(blockOffset: nat, key: Key)
      requires num > 0 ==> offsetArray + 4 * num + 5 <= |contents|
    {
      var index := ShiftRight(blockOffset, baseLg);
      if index >= num then true
      else
        var at := offsetArray + 4 * index;
        var start, limit := DecodeFixed32(contents[at..]), DecodeFixed32(contents[at + 4..]);
        if start <= limit <= offsetArray then policy.mayMatch(key, contents[start..limit]) else start != limit
    }
  }

  // What the reader takes from the end of a block that is not malformed.
  ghost predicate Opens(reader: FilterBlockReader) {
    var c := reader.contents;
    |c| >= 5 && DecodeFixed32(c[|c| - 5..]) <= |c| - 5 ==>
      && reader.offsetArray == DecodeFixed32(c[|c| - 5..]) && reader.baseLg == c[|c| - 1]
      && reader.num == (|c| - 5 - reader.offsetArray) / 4
  }

  function ShiftRight(x: nat, n: nat): nat {
    if n == 0 then x else ShiftRight(x / 2, n - 1)
  }

  lemma ShiftByBase(x: nat)
    ensures ShiftRight(x, FILTER_BASE_LG) == x / FILTER_BASE
  {
    var x3 := x / 2 / 2 / 2;
    var x6 := x3 / 2 / 2 / 2;
    var x9 := x6 / 2 / 2 / 2;
    ThreeBits(x, 8);
    ThreeBits(x3, 5);
    ThreeBits(x6, 2);
    assert ShiftRight(x9, 2) == ShiftRight(x9 / 2, 1) == ShiftRight(x9 / 2 / 2, 0) == x9 / 2 / 2;
    assert x3 == x / 8 && x6 == x3 / 8 && x9 == x6 / 8;
  }

  lemma ThreeBits(x: nat, n: nat)
    ensures ShiftRight(x, n + 3) == ShiftRight(x / 2 / 2 / 2, n)
  {
    assert ShiftRight(x, n + 3) == ShiftRight(x / 2, n + 2);
    assert ShiftRight(x / 2, n + 2) == ShiftRight(x / 2 / 2, n + 1);
    assert ShiftRight(x / 2 / 2, n + 1) == ShiftRight(x / 2 / 2 / 2, n);
  }

  lemma Layout4(s: seq<Byte>, a: seq<Byte>, b: seq<Byte>, c: seq<Byte>, d: seq<Byte>)
    requires |c| == 4 && |d| == 1 && s == a + b + c + d
    ensures |s| == |a| + |b| + 5 && s[..|a|] == a && s[|a|..|a| + |b|] == b && s[|s| - 5..|s| - 1] == c && s[|s| - 1] == d[0]
  {
    assert a + b + c + d == a + (b + (c + d));
  }

  // The parts of a filter block.
  lemma BlockParts(contents: seq<Byte>, flat: seq<Byte>, words: seq<Word>)
    requires |flat| < 0x1_0000_0000 && contents == flat + Fixed32s(words) + Fixed32(|flat|) + [FILTER_BASE_LG]
    ensures |contents| == |flat| + 4 * |words| + 5 && contents[..|flat|] == flat
    ensures contents[|flat|..|flat| + 4 * |words|] == Fixed32s(words)
    ensures DecodeFixed32(contents[|contents| - 5..]) == |flat| && contents[|contents| - 1] == FILTER_BASE_LG
  {
    hide *;
    BlockEnds(contents, flat, Fixed32s(words), |flat|, |flat| + 4 * |words|);
  }

  lemma BlockEnds(contents: seq<Byte>, flat: seq<Byte>, offsets: seq<Byte>, w: Word, end: nat)
    requires contents == flat + offsets + Fixed32(w) + [FILTER_BASE_LG] && end == |flat| + |offsets|
    ensures |contents| == end + 5 && contents[..|flat|] == flat && contents[|flat|..end] == offsets
    ensures DecodeFixed32(contents[|contents| - 5..]) == w && contents[|contents| - 1] == FILTER_BASE_LG
  {
    hide *;
    Layout4(contents, flat, offsets, Fixed32(w), [FILTER_BASE_LG]);
    LastWord(contents, Fixed32(w), w);
  }

  lemma LastWord(contents: seq<Byte>, last: seq<Byte>, w: Word)
    requires |contents| >= 5 && contents[|contents| - 5..|contents| - 1] == last == Fixed32(w)
    ensures DecodeFixed32(contents[|contents| - 5..]) == w
  {
    hide *;
    WordFront(contents, |contents| - 5, w);
  }

  // The words that say where filters begin.
  lemma OffsetWord(contents: seq<Byte>, array_: nat, words: seq<Word>, i: nat, at: nat)
    requires array_ + 4 * |words| + 5 == |contents| && contents[array_..array_ + 4 * |words|] == Fixed32s(words)
    requires i < |words| && at == array_ + 4 * i
    ensures DecodeFixed32(contents[at..]) == words[i]
  {
    hide Fixed32s, Fixed32, DecodeFixed32;
    WordAt(contents, array_, words, i);
    WordFront(contents, at, words[i]);
  }

  // The two words that say where filter i is.
  lemma FilterAt(contents: seq<Byte>, array_: nat, words: seq<Word>, i: nat, at: nat)
    requires i < |words| && at == array_ + 4 * i
    requires array_ + 4 * |words| + 5 == |contents| && contents[array_..array_ + 4 * |words|] == Fixed32s(words)
    requires DecodeFixed32(contents[|contents| - 5..]) == array_
    ensures at + 8 <= |contents| && DecodeFixed32(contents[at..]) == words[i]
    ensures DecodeFixed32(contents[at + 4..]) == if i + 1 < |words| then words[i + 1] else array_
  {
    hide Fixed32s, DecodeFixed32;
    OffsetWord(contents, array_, words, i, at);
    if i + 1 < |words| {
      OffsetWord(contents, array_, words, i + 1, at + 4);
    } else {
      assert at + 4 == |contents| - 5;
    }
  }

  lemma WordFront(s: seq<Byte>, at: nat, w: Word)
    requires at + 4 <= |s| && s[at..at + 4] == Fixed32(w)
    ensures DecodeFixed32(s[at..]) == w
  {
    Fixed32RoundTrip(w);
    var t, f := s[at..], s[at..at + 4];
    assert t[0] == f[0] && t[1] == f[1] && t[2] == f[2] && t[3] == f[3];
  }

  /** A key that was added is never denied where its block begins. */
  lemma AddedMayMatch(reader: FilterBlockReader, filters: seq<seq<Key>>, words: seq<Word>, offset: nat, key: Key)
    requires FilterBlock(reader.policy, reader.contents, filters, words) && NoFalseNegatives(reader.policy)
    requires InFilter(filters, offset, key)
    requires Opens(reader)
    ensures reader.num > 0 ==> reader.offsetArray + 4 * reader.num + 5 <= |reader.contents|
    ensures reader.MayMatch(offset, key)
  {
    hide DecodeFixed32, Fixed32s, Fixed32, ShiftRight, Flat;
    var pieces, i := Pieces(reader.policy, filters), offset / FILTER_BASE;
    BlockParts(reader.contents, Flat(pieces), words);
    FilterAt(reader.contents, |Flat(pieces)|, words, i, |Flat(pieces)| + 4 * i);
    ShiftByBase(offset);
    FlatPiece(pieces, i);
    assert pieces[..|pieces|] == pieces;
    assert pieces[i] == reader.policy.create(filters[i]);
    var from, to := |Flat(pieces[..i])|, |Flat(pieces[..i + 1])|;
    assert reader.contents[from..to] == reader.contents[..|Flat(pieces)|][from..to];
  }
}
