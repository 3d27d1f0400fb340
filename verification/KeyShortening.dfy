/** Bytewise order of keys, and finding short keys that separate two of them. */
module ByteOrder {
  import opened Bytes

  type Key = seq<Byte>

  // The order of memcmp, shorter first.
  predicate Less(a: Key, b: Key) {
    b != [] && (a == [] || a[0] < b[0] || (a[0] == b[0] && Less(a[1..], b[1..])))
  }

  lemma {:induction false} LessIsStrictTotalOrder(a: Key, b: Key, c: Key)
    ensures !Less(a, a)
    ensures Less(a, b) || a == b || Less(b, a)
    ensures Less(a, b) && Less(b, c) ==> Less(a, c)
  {
    if a != [] && b != [] && c != [] {
      LessIsStrictTotalOrder(a[1..], b[1..], c[1..]);
      assert a == [a[0]] + a[1..] && b == [b[0]] + b[1..];
    } else if a != [] {
      LessIsStrictTotalOrder(a[1..], [], []);
      if b != [] {
        LessIsStrictTotalOrder(a[1..], b[1..], []);
        assert a == [a[0]] + a[1..] && b == [b[0]] + b[1..];
      }
    }
  }

  // Keys that agree up to i are ordered by what follows.
  lemma {:induction false} LessByTail(a: Key, b: Key, i: nat)
    requires i <= |a| && i <= |b| && a[..i] == b[..i]
    ensures Less(a, b) <==> Less(a[i..], b[i..])
  {
    if i > 0 {
      assert a[0] == a[..i][0] && b[0] == b[..i][0];
      assert a[1..][..i - 1] == a[..i][1..] && b[1..][..i - 1] == b[..i][1..];
      LessByTail(a[1..], b[1..], i - 1);
      assert a[1..][i - 1..] == a[i..] && b[1..][i - 1..] == b[i..];
    } else {
      assert a[0..] == a && b[0..] == b;
    }
  }

  // How many bytes at the front agree.
  function SharedLength(a: Key, b: Key): (n: nat)
    ensures n <= |a| && n <= |b| && a[..n] == b[..n]
    ensures n < |a| && n < |b| ==> a[n] != b[n]
  {
    if a == [] || b == [] || a[0] != b[0] then 0
    else
      assert a == [a[0]] + a[1..] && b == [b[0]] + b[1..];
      1 + SharedLength(a[1..], b[1..])
  }

  lemma {:induction false} SharedLengthIs(a: Key, b: Key, n: nat)
    requires n <= |a| && n <= |b| && a[..n] == b[..n] && (n < |a| && n < |b| ==> a[n] != b[n])
    ensures n == SharedLength(a, b)
  {
    if n > 0 {
      assert a[0] == a[..n][0] && b[0] == b[..n][0];
      assert a[1..][..n - 1] == a[..n][1..] && b[1..][..n - 1] == b[..n][1..];
      SharedLengthIs(a[1..], b[1..], n - 1);
    }
  }

  // The start with the byte after what both share made one greater, if that is still below the limit's.
  function ShortestSeparator(start: Key, limit: Key): Key {
    var i := SharedLength(start, limit);
    if i < |start| && i < |limit| && start[i] < 0xff && (start[i] as int) + 1 < limit[i] as int
    then start[..i] + [start[i] + 1]
    else start
  }

  // The key up to the first byte that can be made greater, with that made one greater.
  function ShortSuccessor(key: Key): Key {
    if key == [] then [] else if key[0] != 0xff then [key[0] + 1] else [0xff] + ShortSuccessor(key[1..])
  }

  /** A separator is at or after the start and before the limit, and no longer than the start. */
  lemma SeparatorSeparates(start: Key, limit: Key)
    ensures var key := ShortestSeparator(start, limit);
            && |key| <= |start| && !Less(key, start) && (Less(start, limit) ==> Less(key, limit))
            && (key != start ==> Less(start, key) && Less(key, limit))
  {
    LessIsStrictTotalOrder(start, start, start);
    var i := SharedLength(start, limit);
    var key := ShortestSeparator(start, limit);
    if i < |start| && i < |limit| && start[i] < 0xff && (start[i] as int) + 1 < limit[i] as int {
      assert key[..i] == start[..i] == limit[..i];
      LessByTail(start, key, i);
      LessByTail(key, limit, i);
      LessByTail(key, start, i);
      assert key[i..] == [start[i] + 1];
    }
  }

  /** A successor is at or after the key, and no longer. */
  lemma {:induction false} SuccessorSucceeds(key: Key)
    ensures var after := ShortSuccessor(key);
            |after| <= |key| && !Less(after, key) && (after != key ==> Less(key, after))
  {
    if key != [] && key[0] == 0xff {
      SuccessorSucceeds(key[1..]);
      assert key == [key[0]] + key[1..];
      assert ShortSuccessor(key)[1..] == ShortSuccessor(key[1..]);
    }
  }

  // The keys differ at i, by more than one.
  predicate WellApart(start: Key, limit: Key, i: nat) {
    i < |start| && i < |limit| && start[..i] == limit[..i] && (start[i] as int) + 1 < limit[i] as int
  }

  /** Where the start and the limit differ by more than one, no key from the start up to the limit is shorter than the
      separator. Otherwise it is the start. */
  lemma SeparatorIsShortest(start: Key, limit: Key, i: nat, key: Key)
    ensures WellApart(start, limit, i) && !Less(key, start) && Less(key, limit) ==> |ShortestSeparator(start, limit)| == i + 1 <= |key|
    ensures (forall j :: !WellApart(start, limit, j)) ==> ShortestSeparator(start, limit) == start
  {
    if WellApart(start, limit, i) {
      SharedLengthIs(start, limit, i);
      if !Less(key, start) && Less(key, limit) {
        NoneShorter(start, limit, i, key);
      }
    }
    if ShortestSeparator(start, limit) != start {
      assert WellApart(start, limit, SharedLength(start, limit));
    }
  }

  lemma {:induction false} NoneShorter(start: Key, limit: Key, i: nat, key: Key)
    requires i < |start| && i < |limit| && start[..i] == limit[..i] && !Less(key, start) && Less(key, limit)
    ensures |key| > i
  {
    if i > 0 && key != [] {
      assert start[0] == start[..i][0] && limit[0] == limit[..i][0];
      assert start[1..][..i - 1] == start[..i][1..] && limit[1..][..i - 1] == limit[..i][1..];
      NoneShorter(start[1..], limit[1..], i - 1, key[1..]);
    }
  }

  /** No key from a key on is shorter than its successor. */
  lemma {:induction false} SuccessorIsShortest(key: Key, other: Key)
    requires !Less(other, key)
    ensures |ShortSuccessor(key)| <= |other|
  {
    if key != [] && key[0] == 0xff {
      SuccessorIsShortest(key[1..], other[1..]);
    }
  }

  method FindShortestSeparator(start: Key, limit: Key) returns (key: Key)
    ensures key == ShortestSeparator(start, limit)
  {
    key := start;
    var minLength := if |start| < |limit| then |start| else |limit|;
    var diffIndex := 0;
    while diffIndex < minLength && start[diffIndex] == limit[diffIndex]
      invariant diffIndex <= minLength && start[..diffIndex] == limit[..diffIndex]
    {
      diffIndex := diffIndex + 1;
    }
    SharedLengthIs(start, limit, diffIndex);
    if diffIndex < minLength {
      var diffByte := start[diffIndex] as int;
      if diffByte < 0xff && diffByte + 1 < limit[diffIndex] as int {
        key := start[..diffIndex] + [diffByte + 1];
      }
    }
  }

  method FindShortSuccessor(key: Key) returns (after: Key)
    ensures after == ShortSuccessor(key)
  {
    for i := 0 to |key|
      invariant ShortSuccessor(key) == key[..i] + ShortSuccessor(key[i..])
    {
      assert key[i..][1..] == key[i + 1..];
      if key[i] != 0xff {
        return key[..i] + [key[i] + 1];
      }
      assert key[..i] + ([0xff] + ShortSuccessor(key[i + 1..])) == key[..i + 1] + ShortSuccessor(key[i + 1..]);
    }
    assert key[|key|..] == [];
    after := key;
  }

  // ----- keys as numbers -----

  // A number for each key: its bytes, one greater each, as digits behind the point in base 257.
  function Rank(key: Key): (r: real)
    ensures 0.0 <= r < 1.0
  {
    if key == [] then 0.0 else (key[0] as real + 1.0 + Rank(key[1..])) / 257.0
  }

  /** The numbers are in the order of the keys. */
  lemma {:induction false} RankOrders(a: Key, b: Key)
    ensures Less(a, b) <==> Rank(a) < Rank(b)
    ensures a == b <==> Rank(a) == Rank(b)
  {
    if a != [] && b != [] {
      RankOrders(a[1..], b[1..]);
      assert a == [a[0]] + a[1..] && b == [b[0]] + b[1..];
      Scaled(a[0] as real + 1.0 + Rank(a[1..]), b[0] as real + 1.0 + Rank(b[1..]));
    }
  }

  lemma Scaled(x: real, y: real)
    ensures x / 257.0 < y / 257.0 <==> x < y
    ensures x / 257.0 == y / 257.0 <==> x == y
  {
  }
}

/** Internal keys as bytes: a user key, then eight bytes of sequence number and type. */
module InternalKeyBytes {
  import opened Bytes
  import opened ByteOrder
  import opened WriteBatches

  const MAX_PACKED: Sequence := 0xFF_FFFF_FFFF_FFFF * 256 + 1

  predicate IsInternal(key: Key) {
    |key| >= 8
  }

  function ExtractUserKey(key: Key): Key
    requires IsInternal(key)
  {
    key[..|key| - 8]
  }

  function Packed(key: Key): Sequence
    requires IsInternal(key)
  {
    DecodeFixed64(key[|key| - 8..])
  }

  // Increasing user key, then decreasing sequence number and type.
  predicate Precedes(a: Key, b: Key)
    requires IsInternal(a) && IsInternal(b)
  {
    Less(ExtractUserKey(a), ExtractUserKey(b)) || (ExtractUserKey(a) == ExtractUserKey(b) && Packed(a) > Packed(b))
  }

  // A key with the earliest possible number for its user key.
  function EarliestOf(userKey: Key): (key: Key)
    ensures IsInternal(key)
  {
    userKey + Fixed64(MAX_PACKED)
  }

  lemma EarliestParts(userKey: Key)
    ensures ExtractUserKey(EarliestOf(userKey)) == userKey && Packed(EarliestOf(userKey)) == MAX_PACKED
  {
    var key := EarliestOf(userKey);
    assert key[|key| - 8..] == Fixed64(MAX_PACKED) && key[..|key| - 8] == userKey;
    Fixed64RoundTrip(MAX_PACKED);
  }

  // The start itself, or the earliest key of a shorter user key between the two.
  function ShortestSeparator(start: Key, limit: Key): (key: Key)
    requires IsInternal(start) && IsInternal(limit)
    ensures IsInternal(key)
  {
    var userStart := ExtractUserKey(start);
    var tmp := ByteOrder.ShortestSeparator(userStart, ExtractUserKey(limit));
    if |tmp| < |userStart| && Less(userStart, tmp) then EarliestOf(tmp) else start
  }

  // The key itself, or the earliest key of a shorter, later user key.
  function ShortSuccessor(key: Key): (after: Key)
    requires IsInternal(key)
    ensures IsInternal(after)
  {
    var userKey := ExtractUserKey(key);
    var tmp := ByteOrder.ShortSuccessor(userKey);
    if |tmp| < |userKey| && Less(userKey, tmp) then EarliestOf(tmp) else key
  }

  /** A separator of internal keys is at or after the start and before the limit, and no longer than the start. */
  lemma InternalSeparatorSeparates(start: Key, limit: Key)
    requires IsInternal(start) && IsInternal(limit)
    ensures var key := ShortestSeparator(start, limit);
            && |key| <= |start| && !Precedes(key, start) && (Precedes(start, limit) ==> Precedes(key, limit))
            && (key != start ==> Less(ExtractUserKey(start), ExtractUserKey(key)) && Less(ExtractUserKey(key), ExtractUserKey(limit)))
  {
    var userStart, userLimit := ExtractUserKey(start), ExtractUserKey(limit);
    var tmp := ByteOrder.ShortestSeparator(userStart, userLimit);
    LessIsStrictTotalOrder(userStart, userStart, userStart);
    LessIsStrictTotalOrder(userStart, tmp, userStart);
    SeparatorSeparates(userStart, userLimit);
    EarliestParts(tmp);
  }

  /** A successor of an internal key is at or after it, and no longer. */
  lemma InternalSuccessorSucceeds(key: Key)
    requires IsInternal(key)
    ensures var after := ShortSuccessor(key);
            && |after| <= |key| && !Precedes(after, key) && (after != key ==> Less(ExtractUserKey(key), ExtractUserKey(after)))
  {
    var userKey := ExtractUserKey(key);
    var tmp := ByteOrder.ShortSuccessor(userKey);
    LessIsStrictTotalOrder(userKey, userKey, userKey);
    LessIsStrictTotalOrder(userKey, tmp, userKey);
    EarliestParts(tmp);
  }

  method FindShortestSeparator(start: Key, limit: Key) returns (key: Key)
    requires IsInternal(start) && IsInternal(limit)
    ensures key == ShortestSeparator(start, limit)
  {
    key := start;
    var tmp := ByteOrder.FindShortestSeparator(ExtractUserKey(start), ExtractUserKey(limit));
    if |tmp| < |ExtractUserKey(start)| && Less(ExtractUserKey(start), tmp) {
      key := EarliestOf(tmp);
    }
  }

  method FindShortSuccessor(key: Key) returns (after: Key)
    requires IsInternal(key)
    ensures after == ShortSuccessor(key)
  {
    after := key;
    var tmp := ByteOrder.FindShortSuccessor(ExtractUserKey(key));
    if |tmp| < |ExtractUserKey(key)| && Less(ExtractUserKey(key), tmp) {
      after := EarliestOf(tmp);
    }
  }
}

/** What the keys of tables stand for as bytes, and the comparator's shortening of them. */
module RankedKeys {
  import opened Options
  import opened Bytes
  import opened InternalKeys
  import opened CompactionSpec
  import opened TableSpec
  import opened ByteOrder
  import opened InternalKeyBytes
  import FilterBlocks

  type KeyBytes = UserKey -> Key

  // The key that an internal key's bytes hold.
  function KeyOf(key: Key): InternalKey
    requires IsInternal(key)
  {
    InternalKey(Rank(ExtractUserKey(key)), Packed(key) / 256, Packed(key) % 256)
  }

  /** The order of internal keys as bytes is the order of the keys that they hold. */
  lemma BytesOrderKeys(a: Key, b: Key)
    requires IsInternal(a) && IsInternal(b)
    ensures Precedes(a, b) <==> Before(KeyOf(a), KeyOf(b))
  {
    RankOrders(ExtractUserKey(a), ExtractUserKey(b));
    SamePacked(a);
    SamePacked(b);
  }

  lemma SamePacked(key: Key)
    requires IsInternal(key)
    ensures KeyOf(key).Packed() == Packed(key)
  {
    var p: nat := Packed(key);
    assert p / 256 * 256 + p % 256 == p;
  }

  // The bytes are those of the user key.
  predicate Holds(bytes: KeyBytes, k: UserKey) {
    Rank(bytes(k)) == k
  }

  const SHORTENED_TAG: Tag := TYPE_FOR_SEEK

  // The separator of two keys, found on their bytes.
  function Separator(bytes: KeyBytes, a: InternalKey, b: InternalKey): InternalKey {
    var start := bytes(a.userKey);
    var tmp := ByteOrder.ShortestSeparator(start, bytes(b.userKey));
    if Holds(bytes, a.userKey) && Holds(bytes, b.userKey) && |tmp| < |start| && Less(start, tmp)
    then InternalKey(Rank(tmp), MAX_SEQUENCE, SHORTENED_TAG) else a
  }

  // The successor of a key, found on its bytes.
  function Successor(bytes: KeyBytes, a: InternalKey): InternalKey {
    var tmp := ByteOrder.ShortSuccessor(bytes(a.userKey));
    if Holds(bytes, a.userKey) && |tmp| < |bytes(a.userKey)| && Less(bytes(a.userKey), tmp)
    then InternalKey(Rank(tmp), MAX_SEQUENCE, SHORTENED_TAG) else a
  }

  lemma KeyOfEarliest(userKey: Key)
    ensures KeyOf(EarliestOf(userKey)) == InternalKey(Rank(userKey), MAX_SEQUENCE, SHORTENED_TAG)
  {
    hide Rank, EarliestOf;
    EarliestParts(userKey);
  }

  /** Shortening bytes is shortening the keys that they hold. */
  lemma ShorteningCommutes(bytes: KeyBytes, start: Key, limit: Key)
    requires IsInternal(start) && IsInternal(limit)
    requires bytes(Rank(ExtractUserKey(start))) == ExtractUserKey(start) && bytes(Rank(ExtractUserKey(limit))) == ExtractUserKey(limit)
    ensures KeyOf(InternalKeyBytes.ShortestSeparator(start, limit)) == Separator(bytes, KeyOf(start), KeyOf(limit))
    ensures KeyOf(InternalKeyBytes.ShortSuccessor(start)) == Successor(bytes, KeyOf(start))
  {
    hide Rank, ExtractUserKey, Packed, EarliestOf, Less, ByteOrder.ShortestSeparator, ByteOrder.ShortSuccessor;
    KeyOfEarliest(ByteOrder.ShortestSeparator(ExtractUserKey(start), ExtractUserKey(limit)));
    KeyOfEarliest(ByteOrder.ShortSuccessor(ExtractUserKey(start)));
  }

  lemma SeparatorDivides(bytes: KeyBytes, a: InternalKey, b: InternalKey)
    requires Before(a, b)
    ensures Divides(Separator(bytes, a, b), a, Some(b))
  {
    BeforeIsStrictTotalOrder(a, a, a);
    var start, limit := bytes(a.userKey), bytes(b.userKey);
    var tmp := ByteOrder.ShortestSeparator(start, limit);
    SeparatorSeparates(start, limit);
    RankOrders(start, tmp);
    RankOrders(tmp, limit);
    LessIsStrictTotalOrder(start, start, start);
  }

  lemma SuccessorDivides(bytes: KeyBytes, a: InternalKey)
    ensures Divides(Successor(bytes, a), a, None)
  {
    BeforeIsStrictTotalOrder(a, a, a);
    RankOrders(bytes(a.userKey), ByteOrder.ShortSuccessor(bytes(a.userKey)));
  }

  // The options of a table whose user keys are the bytes given.
  function OptionsFor(bytes: KeyBytes, blockSize: nat, estimate: seq<Entry> -> nat, contentsSize: seq<Entry> -> Word,
                      policy: Option<FilterBlocks.Policy>): TableOptions {
    TableOptions(blockSize, estimate, contentsSize, (a, b) => Separator(bytes, a, b), a => Successor(bytes, a), policy, bytes)
  }

  /** The comparator keeps what a table builder asks of it. */
  lemma OptionsShorten(bytes: KeyBytes, blockSize: nat, estimate: seq<Entry> -> nat, contentsSize: seq<Entry> -> Word,
                       policy: Option<FilterBlocks.Policy>)
    ensures Shortens(OptionsFor(bytes, blockSize, estimate, contentsSize, policy))
  {
    hide Divides, Separator, Successor, Before;
    var o := OptionsFor(bytes, blockSize, estimate, contentsSize, policy);
    forall a, b {:trigger o.separator(a, b)} | Before(a, b)
      ensures Divides(o.separator(a, b), a, Some(b))
    {
      SeparatorDivides(bytes, a, b);
    }
    forall a {:trigger o.successor(a)}
      ensures Divides(o.successor(a), a, None)
    {
      SuccessorDivides(bytes, a);
    }
  }
}
