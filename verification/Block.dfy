/** Building a table block entry by entry, and iterating over one. */
module Blocks {
  import opened Options
  import opened Bytes
  import opened Varints
  import opened BlockFormat

  // A comparator, as the strict order it defines.
  type Comparator = (Key, Key) -> bool

  ghost predicate Ordered(less: Comparator) {
    && (forall a, b, c {:trigger less(a, b), less(b, c)} :: less(a, b) && less(b, c) ==> less(a, c))
    && forall a {:trigger less(a, a)} :: !less(a, a)
  }

  ghost predicate Precedes(less: Comparator, items: seq<Item>, i: nat, j: nat)
    requires i < j < |items|
  {
    less(items[i].key, items[j].key)
  }

  ghost predicate Increasing(less: Comparator, items: seq<Item>) {
    forall i, j {:trigger Precedes(less, items, i, j)} :: 0 <= i < j < |items| ==> Precedes(less, items, i, j)
  }

  function Fixed32s(words: seq<Word>): (s: seq<Byte>)
    ensures |s| == 4 * |words|
  {
    if words == [] then [] else Fixed32s(words[..|words| - 1]) + Fixed32(words[|words| - 1])
  }

  // A finished block: entries, restart offsets, and how many of those there are.
  ghost predicate BlockOf(contents: seq<Byte>, data: seq<Byte>, l: Layout, restarts: seq<Word>) {
    && Laid(data, l) && Restarted(l, restarts) && |restarts| < 0x1_0000_0000
    && contents == data + Fixed32s(restarts) + Fixed32(|restarts|)
  }

  class BlockBuilder {
    const blockRestartInterval: nat
    const comparator: Comparator
    var buffer: seq<Byte>
    var restarts: seq<Word>
    var counter: nat
    var finished: bool
    var lastKey: Key
    ghost var layout: Layout

    ghost predicate Valid()
      reads this
    {
      && blockRestartInterval >= 1 && Ordered(comparator) && !finished
      && Laid(buffer, layout) && Increasing(comparator, layout.items)
      && Restarted(layout, restarts)
      && lastKey == (if layout.items == [] then [] else layout.items[|layout.items| - 1].key)
      && counter <= blockRestartInterval && counter + layout.restartAt[|restarts| - 1] == |layout.items|
      && Spaced(layout, blockRestartInterval)
    }

    constructor (interval: nat, less: Comparator)
      requires interval >= 1 && Ordered(less)
      ensures Valid() && layout.items == [] && blockRestartInterval == interval && comparator == less
    {
      blockRestartInterval, comparator := interval, less;
      buffer, restarts, counter, finished, lastKey := [], [0], 0, false, [];
      layout := Layout([], [], [0], [0]);
    }

    // How many bytes at the front of the key are those of the last key.
    method SharedPrefix(key: Key) returns (shared: nat)
      ensures shared <= |key| && shared <= |lastKey| && key[..shared] == lastKey[..shared]
      ensures shared < |key| && shared < |lastKey| ==> key[shared] != lastKey[shared]
    {
      shared := 0;
      var minLength := if |lastKey| < |key| then |lastKey| else |key|;
      while shared < minLength && lastKey[shared] == key[shared]
        invariant shared <= minLength && key[..shared] == lastKey[..shared]
      {
        shared := shared + 1;
      }
    }

    /** Append an entry. Its key must come after the last one's, and the block must stay below four
        gigabytes, its offsets being 32 bits wide. */
    method Add(key: Key, value: seq<Byte>)
      requires Valid() && |buffer| + |key| + |value| + 15 < 0x1_0000_0000
      requires layout.items != [] ==> comparator(lastKey, key)
      modifies this
      ensures Valid() && layout.items == old(layout.items) + [Item(key, value)]
      ensures |buffer| <= |old(buffer)| + |key| + |value| + 15
    {
      hide EntryBytes, Increasing, Shortened, Apart, RestartLaid, RestartOffset, EntryLaid, Rising;
      ghost var size := |buffer|;
      var shared := 0;
      ghost var restart := counter == blockRestartInterval;
      if counter < blockRestartInterval {
        shared := SharedPrefix(key);
      } else {
        restarts := restarts + [|buffer|];
        counter := 0;
      }
      ghost var e := Item(key, value);
      AddedIsLaid(buffer, layout, e, shared, restart);
      AddedIsRestarted(layout, old(restarts), e, shared, restart, size);
      AddedIsSpaced(layout, e, shared, restart, blockRestartInterval);
      IncreasingAppended(comparator, layout.items, e, lastKey);
      layout := Added(layout, e, shared, restart);
      AppendEntry(key, value, shared);
      counter := counter + 1;
    }

    // Append the bytes of an entry, and remember its key.
    method AppendEntry(key: Key, value: seq<Byte>, shared: nat)
      requires shared <= |lastKey| && shared <= |key| < 0x1_0000_0000 && |value| < 0x1_0000_0000 && key[..shared] == lastKey[..shared]
      modifies this`buffer, this`lastKey
      ensures buffer == old(buffer) + EntryBytes(shared, Item(key, value)) && lastKey == key
      ensures |buffer| <= |old(buffer)| + |key| + |value| + 15
    {
      var nonShared := |key| - shared;
      ghost var e := Item(key, value);
      EntryLength(e, shared);
      Appended(buffer, shared, e);
      buffer := buffer + Varint(shared) + Varint(nonShared) + Varint(|value|);
      buffer := buffer + key[shared..];
      buffer := buffer + value;
      lastKey := lastKey[..shared];
      lastKey := lastKey + key[shared..];
      assert key == key[..shared] + key[shared..];
    }

    static lemma Appended(buffer: seq<Byte>, shared: nat, e: Item)
      requires shared <= |e.key|
      ensures buffer + Varint(shared) + Varint(|e.key| - shared) + Varint(|e.value|) + e.key[shared..] + e.value
           == buffer + EntryBytes(shared, e)
    {
    }

    static lemma IncreasingAppended(less: Comparator, items: seq<Item>, e: Item, lastKey: Key)
      requires Ordered(less) && Increasing(less, items)
      requires items != [] ==> lastKey == items[|items| - 1].key && less(lastKey, e.key)
      ensures Increasing(less, items + [e])
    {
      var more, last := items + [e], |items| - 1;
      forall i, j {:trigger Precedes(less, more, i, j)} | 0 <= i < j < |more|
        ensures Precedes(less, more, i, j)
      {
        if j < |items| {
          assert Precedes(less, items, i, j);
        } else if i < last {
          assert Precedes(less, items, i, last) && less(items[i].key, lastKey);
        }
      }
    }

    /** Append the restart offsets and their number. */
    method Finish() returns (contents: seq<Byte>)
      requires Valid()
      modifies this
      ensures BlockOf(contents, old(buffer), layout, restarts) && layout == old(layout) && restarts == old(restarts)
    {
      RestartCount(buffer, layout);
      var i := 0;
      assert buffer + Fixed32s(restarts[..0]) == buffer;
      while i < |restarts|
        invariant i <= |restarts| && buffer == old(buffer) + Fixed32s(restarts[..i])
        invariant layout == old(layout) && restarts == old(restarts)
      {
        assert restarts[..i + 1][..i] == restarts[..i];
        buffer := buffer + Fixed32(restarts[i]);
        i := i + 1;
      }
      assert restarts[..|restarts|] == restarts;
      buffer := buffer + Fixed32(|restarts|);
      finished := true;
      contents := buffer;
    }
  }

  // The i-th of the words stored from `at` on.
  lemma {:induction false} WordAt(contents: seq<Byte>, at: nat, words: seq<Word>, i: nat)
    requires i < |words| && at + 4 * |words| <= |contents| && contents[at..at + 4 * |words|] == Fixed32s(words)
    ensures contents[at + 4 * i..at + 4 * i + 4] == Fixed32(words[i])
  {
    var n := |words| - 1;
    var front := Fixed32s(words[..n]);
    assert contents[at..at + 4 * n] == contents[at..at + 4 * |words|][..4 * n] == front;
    if i == n {
      assert contents[at + 4 * n..at + 4 * n + 4] == contents[at..at + 4 * |words|][4 * n..];
    } else {
      WordAt(contents, at, words[..n], i);
    }
  }

  // Open a block: where its restart offsets begin and how many there are. None when it is too small
  // to hold as many as it says.
  function Open(contents: seq<Byte>): (r: Option<(nat, nat)>)
    ensures r.Some? ==> r.value.0 + 4 * r.value.1 + 4 == |contents|
  {
    if |contents| < 4 then None
    else
      var numRestarts := DecodeFixed32(contents[|contents| - 4..]);
      if numRestarts > (|contents| - 4) / 4 then None else Some((|contents| - (1 + numRestarts) * 4, numRestarts))
  }

  lemma Opened(contents: seq<Byte>, data: seq<Byte>, l: Layout, restarts: seq<Word>)
    requires BlockOf(contents, data, l, restarts)
    ensures Open(contents) == Some((|data|, |restarts|))
    ensures contents[..|data|] == data && contents[|data|..|data| + 4 * |restarts|] == Fixed32s(restarts)
  {
    Tail(data, Fixed32s(restarts), Fixed32(|restarts|));
    Fixed32RoundTrip(|restarts|);
  }

  lemma Tail(a: seq<Byte>, b: seq<Byte>, c: seq<Byte>)
    ensures var s := a + b + c; s[|s| - |c|..] == c && s[..|a|] == a && s[|a|..|a| + |b|] == b
  {
  }

  class Iter {
    const comparator: Comparator
    const contents: seq<Byte>
    const restarts: nat       // where the restart offsets begin
    const numRestarts: nat
    ghost const layout: Layout
    ghost const offsets: seq<Word>

    var current: nat          // offset of the current entry, `restarts` when there is none
    var restartIndex: nat     // restart block the current entry is in
    var key: Key
    var valueStart: nat
    var valueLength: nat
    var corrupt: bool
    // Index of the current entry; the number of entries when there is none.
    ghost var pos: nat

    // ----- what the block holds -----

    ghost predicate Sound() {
      && Ordered(comparator) && Increasing(comparator, layout.items)
      && restarts + 4 * numRestarts <= |contents| && Laid(contents[..restarts], layout)
      && Restarted(layout, offsets) && numRestarts == |offsets|
      && contents[restarts..restarts + 4 * numRestarts] == Fixed32s(offsets)
    }

    ghost function Size(): nat {
      |layout.items|
    }

    // Entry p is the current one.
    ghost predicate On(p: nat)
      reads this
      requires Sound() && p < Size()
    {
      && current == layout.offsets[p] && key == layout.items[p].key && !corrupt
      && valueStart + valueLength == layout.offsets[p + 1] <= restarts
      && contents[valueStart..valueStart + valueLength] == layout.items[p].value
      && InRestart(p)
    }

    // Entry p lies in the current restart block or begins the next one.
    ghost predicate InRestart(p: nat)
      reads this
      requires Sound()
    {
      && restartIndex < numRestarts && layout.restartAt[restartIndex] <= p
      && (restartIndex + 1 < numRestarts ==> p <= layout.restartAt[restartIndex + 1])
    }

    ghost predicate Valid()
      reads this
    {
      && Sound() && pos <= Size() && !corrupt
      && if pos < Size() then On(pos) else current == restarts && restartIndex == numRestarts
    }

    predicate IsValid()
      reads this
    {
      current < restarts
    }

    // What IsValid means, and what the current entry is.
    lemma Positioned()
      requires Valid()
      ensures IsValid() <==> pos < Size()
      ensures IsValid() ==> key == layout.items[pos].key && valueStart + valueLength <= |contents|
                            && contents[valueStart..valueStart + valueLength] == layout.items[pos].value
    {
      OffsetAt(pos);
    }

    // Only the end of the last entry is where the restart offsets begin.
    lemma OffsetAt(p: nat)
      requires Sound() && p <= Size()
      ensures layout.offsets[p] <= restarts && (p < Size() <==> layout.offsets[p] < restarts)
    {
      RisingAt(layout.offsets, p, Size());
    }

    constructor (less: Comparator, block: seq<Byte>, ghost data: seq<Byte>, ghost l: Layout, ghost words: seq<Word>)
      requires Ordered(less) && BlockOf(block, data, l, words) && Increasing(less, l.items)
      ensures Valid() && layout == l && pos == |l.items| && comparator == less
    {
      Opened(block, data, l, words);
      var (at, n) := Open(block).value;
      comparator, contents, restarts, numRestarts := less, block, at, n;
      layout, offsets := l, words;
      current, restartIndex, key, valueStart, valueLength, corrupt := at, n, [], at, 0, false;
      pos := |l.items|;
    }

    // ----- restart points -----

    function GetRestartPoint(index: nat): (r: nat)
      requires restarts + 4 * numRestarts <= |contents| && index < numRestarts
    {
      DecodeFixed32(contents[restarts + 4 * index..restarts + 4 * index + 4])
    }

    lemma RestartPoint(index: nat)
      requires Sound() && index < numRestarts
      ensures var p := layout.restartAt[index]; p <= Size() && GetRestartPoint(index) == layout.offsets[p]
      ensures var p := layout.restartAt[index]; if Size() == 0 then p == 0 else p < Size() && layout.shared[p] == 0
    {
      WordAt(contents, restarts, offsets, index);
      Fixed32RoundTrip(offsets[index]);
      assert RestartOffset(layout, offsets, index) && RestartLaid(layout, index);
    }

    // ----- parsing -----

    function NextEntryOffset(): nat
      reads this
    {
      valueStart + valueLength
    }

    // Entry p is the next to parse.
    ghost predicate About(p: nat)
      reads this
      requires Sound()
    {
      p <= Size() && NextEntryOffset() == layout.offsets[p] && KeyBefore(layout, p, key) && !corrupt
      && restartIndex < numRestarts && layout.restartAt[restartIndex] <= p
    }

    method SeekToRestartPoint(index: nat)
      requires Sound() && index < numRestarts && !corrupt
      modifies this
      ensures About(layout.restartAt[index]) && restartIndex == index
    {
      key := [];
      restartIndex := index;
      RestartPoint(index);
      valueStart, valueLength := GetRestartPoint(index), 0;
    }

    method CorruptionError()
      modifies this
      ensures corrupt && current == restarts && restartIndex == numRestarts
    {
      current, restartIndex, corrupt, key, valueStart, valueLength := restarts, numRestarts, true, [], 0, 0;
    }

    // Move on to the restart block the current entry is in.
    method AdvanceRestartIndex(ghost p: nat)
      requires Sound() && p < Size() && current == layout.offsets[p]
      requires restartIndex < numRestarts && layout.restartAt[restartIndex] <= p
      modifies this`restartIndex
      ensures InRestart(p)
    {
      while restartIndex + 1 < numRestarts
        invariant restartIndex < numRestarts && layout.restartAt[restartIndex] <= p
        decreases numRestarts - restartIndex
      {
        RestartPoint(restartIndex + 1);
        RisingAt(layout.offsets, layout.restartAt[restartIndex + 1], p);
        if GetRestartPoint(restartIndex + 1) >= current {
          break;
        }
        restartIndex := restartIndex + 1;
      }
    }

    // Decode the lengths of the entry at p. None when it is malformed or reaches past the limit.
    method DecodeEntry(p: nat, limit: nat) returns (r: Option<Head>)
      requires p <= limit <= |contents|
      ensures r == EntryHead(contents[p..limit])
    {
      ghost var s := contents[p..limit];
      if limit - p < 3 {
        TooShort(s);
        return None;
      }
      if contents[p] < 128 && contents[p + 1] < 128 && contents[p + 2] < 128 {
        ShortLengths(s);
        r := Some(Head(contents[p] as int, contents[p + 1] as int, contents[p + 2] as int, 3));
      } else {
        r := DecodeLengths(p, limit);
        if r.None? {
          return;
        }
      }
      if (limit - (p + r.value.start)) % 0x1_0000_0000 < (r.value.nonShared as int + r.value.valueLength) % 0x1_0000_0000 {
        return None;
      }
    }

    method DecodeLengths(p: nat, limit: nat) returns (r: Option<Head>)
      requires p <= limit <= |contents|
      ensures r == Lengths(contents[p..limit])
    {
      hide Varint32At;
      var first := GetVarint32Ptr(contents, p, limit);
      if first.None? {
        return None;
      }
      var (shared, p1) := first.value;
      TailFrom(contents, p, limit, p1);
      var second := GetVarint32Ptr(contents, p1, limit);
      if second.None? {
        return None;
      }
      var (nonShared, p2) := second.value;
      TailFrom(contents, p, limit, p2);
      var third := GetVarint32Ptr(contents, p2, limit);
      if third.None? {
        return None;
      }
      var (valueLength, p3) := third.value;
      return Some(Head(shared, nonShared, valueLength, p3 - p));
    }

    // What decoding entry p gives.
    lemma EntryAt(p: nat, before: Key)
      requires Sound() && p < Size() && KeyBefore(layout, p, before)
      ensures layout.offsets[p] < layout.offsets[p + 1] <= restarts
      ensures var r := EntryHead(contents[layout.offsets[p]..restarts]);
              && r.Some? && r.value.shared == layout.shared[p] && r.value.shared <= |before|
              && var start := layout.offsets[p] + r.value.start;
              && start + r.value.nonShared + r.value.valueLength == layout.offsets[p + 1]
              && before[..r.value.shared] + contents[start..start + r.value.nonShared] == layout.items[p].key
              && contents[start + r.value.nonShared..layout.offsets[p + 1]] == layout.items[p].value
    {
      assert EntryLaid(contents[..restarts], layout, p);
      ParseEntry(contents, restarts, layout, p, before);
    }

    // Parse the next entry.
    method ParseNextKey(ghost p: nat) returns (ok: bool)
      requires Sound() && About(p)
      modifies this
      ensures Valid() && pos == p && ok == (p < Size())
    {
      current := NextEntryOffset();
      pos := p;
      OffsetAt(p);
      if current >= restarts {
        current, restartIndex := restarts, numRestarts;
        return false;
      }
      var r := DecodeEntry(current, restarts);
      ghost var before := key;
      if r.None? || |key| < r.value.shared {
        CorruptionError();
        EntryAt(p, before);
        assert false;
      } else {
        EntryAt(p, before);
        var start := current + r.value.start;
        key := key[..r.value.shared];
        key := key + contents[start..start + r.value.nonShared];
        valueStart, valueLength := start + r.value.nonShared, r.value.valueLength;
        AdvanceRestartIndex(p);
        return true;
      }
    }

    // ----- moving -----

    method SeekToFirst()
      requires Valid()
      modifies this
      ensures Valid() && pos == 0
    {
      SeekToRestartPoint(0);
      var _ := ParseNextKey(0);
    }

    method SeekToLast()
      requires Valid()
      modifies this
      ensures Valid() && pos == if Size() == 0 then 0 else Size() - 1
    {
      var last := numRestarts - 1;
      ghost var p := layout.restartAt[last];
      RestartPoint(last);
      SeekToRestartPoint(last);
      var more := ParseNextKey(p);
      while more && NextEntryOffset() < restarts
        invariant Valid() && p == pos && more == (p < Size()) && (Size() > 0 ==> more)
        decreases Size() - pos
      {
        OffsetAt(p + 1);
        p := p + 1;
        more := ParseNextKey(p);
      }
      if more {
        OffsetAt(p + 1);
      }
    }

    method Next()
      requires Valid() && IsValid()
      modifies this
      ensures Valid() && pos == old(pos) + 1
    {
      var _ := ParseNextKey(pos + 1);
    }

    method Prev()
      requires Valid() && IsValid()
      modifies this
      ensures Valid() && pos == if old(pos) == 0 then Size() else old(pos) - 1
    {
      var original := current;
      ghost var p0 := pos;
      var found := RestartBefore(original, p0);
      if !found {
        return;
      }
      ghost var p := layout.restartAt[restartIndex];
      SeekToRestartPoint(restartIndex);
      var more := ParseNextKey(p);
      while more && NextEntryOffset() < original
        invariant Valid() && pos == p < p0 && more
        decreases p0 - p
      {
        RisingAt(layout.offsets, p + 1, p0);
        p := p + 1;
        more := ParseNextKey(p);
      }
      RisingAt(layout.offsets, p + 1, p0);
    }

    // Back to the last restart point before `original`, unless that is the first entry.
    method RestartBefore(original: nat, ghost p0: nat) returns (found: bool)
      requires Valid() && p0 == pos < Size() && original == current
      modifies this
      ensures found ==> p0 > 0 && restartIndex < numRestarts && layout.restartAt[restartIndex] < p0 && !corrupt
      ensures !found ==> p0 == 0 && Valid() && pos == Size()
    {
      RestartPoint(restartIndex);
      while GetRestartPoint(restartIndex) >= original
        invariant restartIndex < numRestarts && !corrupt && current == original && layout.restartAt[restartIndex] <= Size()
        invariant GetRestartPoint(restartIndex) == layout.offsets[layout.restartAt[restartIndex]]
        decreases restartIndex
      {
        if restartIndex == 0 {
          RisingAt(layout.offsets, 0, p0);
          current, restartIndex := restarts, numRestarts;
          pos := Size();
          return false;
        }
        restartIndex := restartIndex - 1;
        RestartPoint(restartIndex);
      }
      RisingAt(layout.offsets, layout.restartAt[restartIndex], p0);
      return true;
    }

    /** Move to the first entry whose key is not before the target. */
    method Seek(target: Key)
      requires Valid()
      modifies this
      ensures Valid()
      ensures forall i :: 0 <= i < pos ==> comparator(layout.items[i].key, target)
      ensures forall i :: pos <= i < Size() ==> !comparator(layout.items[i].key, target)
    {
      var left := FindRestart(target);
      SeekToRestartPoint(left);
      ghost var p := layout.restartAt[left];
      AllBefore(left, target);
      var more := ParseNextKey(p);
      while more && comparator(key, target)
        invariant Valid() && pos == p && more == (p < Size())
        invariant forall i :: 0 <= i < p ==> comparator(layout.items[i].key, target)
        decreases Size() - p
      {
        p := p + 1;
        more := ParseNextKey(p);
      }
      if more {
        NoneBefore(p, target);
      }
    }

    // The restart at `index` is the first one or its key is before the target.
    ghost predicate StartsBefore(index: nat, target: Key)
      requires Sound() && index < numRestarts
    {
      index > 0 ==> layout.restartAt[index] < Size() && comparator(layout.items[layout.restartAt[index]].key, target)
    }

    // Binary search for the last restart whose key is before the target.
    method FindRestart(target: Key) returns (left: nat)
      requires Sound() && !corrupt
      modifies this
      ensures left < numRestarts && StartsBefore(left, target) && !corrupt
      ensures left + 1 < numRestarts ==> !StartsBefore(left + 1, target)
    {
      left := 0;
      var right := numRestarts - 1;
      while left < right
        invariant 0 <= left <= right < numRestarts && !corrupt && StartsBefore(left, target)
        invariant right + 1 < numRestarts ==> !StartsBefore(right + 1, target)
      {
        var mid := (left + right + 1) / 2;
        var smaller := RestartIsBefore(mid, target);
        if smaller {
          left := mid;
        } else {
          right := mid - 1;
        }
      }
    }

    // Compare the key at a restart point, which is there whole, with the target.
    method RestartIsBefore(mid: nat, target: Key) returns (smaller: bool)
      requires Sound() && 0 < mid < numRestarts && !corrupt
      modifies this
      ensures !corrupt && (smaller <==> StartsBefore(mid, target))
    {
      var offset := GetRestartPoint(mid);
      RestartPoint(mid);
      OffsetAt(layout.restartAt[mid]);
      var r := DecodeEntry(offset, restarts);
      if r.None? || r.value.shared != 0 {
        CorruptionError();
        RestartEntry(mid);
        assert false;
      } else {
        RestartEntry(mid);
        var start := offset + r.value.start;
        var midKey := contents[start..start + r.value.nonShared];
        smaller := comparator(midKey, target);
      }
    }

    // The whole key of the entry at a restart point is there.
    lemma RestartEntry(index: nat)
      requires Sound() && 0 < index < numRestarts
      ensures layout.restartAt[index] < Size()
      ensures var offset, p := GetRestartPoint(index), layout.restartAt[index];
              && offset <= restarts && EntryHead(contents[offset..restarts]).Some?
              && var r := EntryHead(contents[offset..restarts]).value;
              && r.shared == 0 && offset + r.start + r.nonShared <= restarts
              && contents[offset + r.start..offset + r.start + r.nonShared] == layout.items[p].key
    {
      RestartPoint(index);
      var p := layout.restartAt[index];
      RisingAt(layout.restartAt, 0, index);
      OffsetAt(p);
      EntryAt(p, []);
      var r := EntryHead(contents[layout.offsets[p]..restarts]).value;
      var start := layout.offsets[p] + r.start;
      assert contents[start..start + r.nonShared] == [][..0] + contents[start..start + r.nonShared];
    }

    lemma AllBefore(left: nat, target: Key)
      requires Sound() && left < numRestarts
      requires StartsBefore(left, target)
      ensures forall i :: 0 <= i < layout.restartAt[left] && i < Size() ==> comparator(layout.items[i].key, target)
    {
      if left > 0 {
        forall i | 0 <= i < layout.restartAt[left]
          ensures comparator(layout.items[i].key, target)
        {
          assert Precedes(comparator, layout.items, i, layout.restartAt[left]);
        }
      }
    }

    lemma NoneBefore(p: nat, target: Key)
      requires Sound() && p < Size() && !comparator(layout.items[p].key, target)
      ensures forall i :: p <= i < Size() ==> !comparator(layout.items[i].key, target)
    {
      forall i | p < i < Size()
        ensures !comparator(layout.items[i].key, target)
      {
        assert Precedes(comparator, layout.items, p, i);
      }
    }
  }

  // ----- building and reading a whole block -----

  // An upper bound on what entries take.
  function Room(items: seq<Item>): nat {
    if items == [] then 0 else Room(items[..|items| - 1]) + |items[|items| - 1].key| + |items[|items| - 1].value| + 15
  }

  lemma {:induction false} RoomGrows(items: seq<Item>, n: nat)
    requires n <= |items|
    ensures Room(items[..n]) <= Room(items)
  {
    if n < |items| {
      assert items[..|items| - 1][..n] == items[..n];
      RoomGrows(items[..|items| - 1], n);
    } else {
      assert items[..n] == items;
    }
  }

  method Build(items: seq<Item>, interval: nat, less: Comparator)
      returns (contents: seq<Byte>, ghost data: seq<Byte>, ghost l: Layout, ghost restarts: seq<Word>)
    requires interval >= 1 && Ordered(less) && Increasing(less, items) && Room(items) < 0x1_0000_0000
    ensures BlockOf(contents, data, l, restarts) && l.items == items && Spaced(l, interval)
  {
    var builder := new BlockBuilder(interval, less);
    var i := 0;
    while i < |items|
      invariant i <= |items| && fresh(builder) && builder.Valid() && builder.comparator == less && builder.blockRestartInterval == interval
      invariant builder.layout.items == items[..i] && |builder.buffer| <= Room(items[..i])
    {
      assert items[..i + 1][..i] == items[..i];
      RoomGrows(items, i + 1);
      assert i > 0 ==> Precedes(less, items, i - 1, i);
      builder.Add(items[i].key, items[i].value);
      i := i + 1;
    }
    assert items[..|items|] == items;
    data := builder.buffer;
    contents := builder.Finish();
    l, restarts := builder.layout, builder.restarts;
  }

  method ScanForward(it: Iter) returns (items: seq<Item>)
    requires it.Valid()
    modifies it
    ensures it.Valid() && items == it.layout.items
  {
    items := [];
    it.SeekToFirst();
    it.Positioned();
    while it.IsValid()
      invariant it.Valid() && (it.IsValid() <==> it.pos < it.Size()) && items == it.layout.items[..it.pos]
      decreases it.Size() - it.pos
    {
      it.Positioned();
      items := items + [Item(it.key, it.contents[it.valueStart..it.valueStart + it.valueLength])];
      it.Next();
      it.Positioned();
    }
  }

  method ScanBackward(it: Iter) returns (items: seq<Item>)
    requires it.Valid()
    modifies it
    ensures it.Valid() && |items| == it.Size() && forall i :: 0 <= i < |items| ==> items[i] == it.layout.items[|items| - 1 - i]
  {
    items := [];
    it.SeekToLast();
    it.Positioned();
    ghost var n := it.Size();
    while it.IsValid()
      invariant it.Valid() && (it.IsValid() <==> it.pos < n) && |items| <= n
      invariant it.pos == if |items| < n then n - 1 - |items| else n
      invariant forall i :: 0 <= i < |items| ==> items[i] == it.layout.items[n - 1 - i]
      decreases n - |items|
    {
      it.Positioned();
      items := items + [Item(it.key, it.contents[it.valueStart..it.valueStart + it.valueLength])];
      it.Prev();
      it.Positioned();
    }
  }

  // The first entry that is not before the target, if there is one.
  method SeekEntry(it: Iter, target: Key) returns (found: Option<Item>)
    requires it.Valid()
    modifies it
    ensures found.None? ==> forall i :: 0 <= i < it.Size() ==> it.comparator(it.layout.items[i].key, target)
    ensures found.Some? ==> exists p :: 0 <= p < it.Size() && found.value == it.layout.items[p] && !it.comparator(it.layout.items[p].key, target)
                                        && forall i :: 0 <= i < p ==> it.comparator(it.layout.items[i].key, target)
  {
    it.Seek(target);
    it.Positioned();
    found := if it.IsValid() then Some(Item(it.key, it.contents[it.valueStart..it.valueStart + it.valueLength])) else None;
  }

  /** Whatever the restart interval, a block built from increasing entries gives them back forwards and
      backwards, and seeking finds the first one that is not before the target. */
  method BuildAndRead(items: seq<Item>, interval: nat, less: Comparator, target: Key)
      returns (forwards: seq<Item>, backwards: seq<Item>, found: Option<Item>)
    requires interval >= 1 && Ordered(less) && Increasing(less, items) && Room(items) < 0x1_0000_0000
    ensures forwards == items
    ensures |backwards| == |items| && forall i :: 0 <= i < |items| ==> backwards[i] == items[|items| - 1 - i]
    ensures found.None? ==> forall i :: 0 <= i < |items| ==> less(items[i].key, target)
    ensures found.Some? ==> exists p :: 0 <= p < |items| && found.value == items[p] && !less(items[p].key, target)
                                        && forall i :: 0 <= i < p ==> less(items[i].key, target)
  {
    var contents, data, l, restarts := Build(items, interval, less);
    var it := new Iter(less, contents, data, l, restarts);
    forwards := ScanForward(it);
    backwards := ScanBackward(it);
    found := SeekEntry(it, target);
  }
}
