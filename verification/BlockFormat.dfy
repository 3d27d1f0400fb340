/** Table blocks: entries whose keys share prefixes, and restart points where they do not. */
module BlockFormat {
  import opened Options
  import opened Bytes
  import opened Varints

  type Key = seq<Byte>
  datatype Item = Item(key: Key, value: seq<Byte>)

  // ----- one entry -----

  // An entry whose key shares its first `shared` bytes with the key before it.
  function EntryBytes(shared: nat, e: Item): (s: seq<Byte>)
    requires shared <= |e.key|
    ensures |s| >= 3
  {
    Varint(shared) + Varint(|e.key| - shared) + Varint(|e.value|) + e.key[shared..] + e.value
  }

  // Shared and unshared lengths of the key, length of the value, and where the key's bytes begin.
  datatype Head = Head(shared: Word, nonShared: Word, valueLength: Word, start: nat)

  // The three lengths at the front of s, and where they end.
  function Lengths(s: seq<Byte>): (r: Option<Head>)
    ensures r.Some? ==> r.value.start <= |s|
  {
    match Varint32At(s)
    case None => None
    case Some((shared, n1)) =>
      match Varint32At(s[n1..])
      case None => None
      case Some((nonShared, n2)) =>
        match Varint32At(s[n1 + n2..])
        case None => None
        case Some((valueLength, n3)) => Some(Head(shared, nonShared, valueLength, n1 + n2 + n3))
  }

  // The head of the entry at the front of s; None when it is malformed or the entry does not fit.
  // Lengths are 32 bits wide.
  function EntryHead(s: seq<Byte>): (r: Option<Head>)
    ensures r.Some? ==> r.value.start <= |s|
  {
    match Lengths(s)
    case None => None
    case Some(h) =>
      if (|s| - h.start) % 0x1_0000_0000 < (h.nonShared as int + h.valueLength) % 0x1_0000_0000 then None else Some(h)
  }

  lemma TooShort(s: seq<Byte>)
    requires |s| < 3
    ensures EntryHead(s) == None
  {
  }

  // Three lengths of one byte each.
  lemma ShortLengths(s: seq<Byte>)
    requires |s| >= 3 && s[0] < 128 && s[1] < 128 && s[2] < 128
    ensures Lengths(s) == Some(Head(s[0], s[1], s[2], 3))
  {
    assert Varint32At(s) == Some((s[0] as int, 1)) && Varint32At(s[1..]) == Some((s[1] as int, 1));
    assert Varint32At(s[2..]) == Some((s[2] as int, 1));
  }

  lemma Number(v: Word, rest: seq<Byte>)
    ensures Varint32At(Varint(v) + rest) == Some((v, |Varint(v)|)) && |Varint(v)| <= 5
  {
    VarintLength(v);
    VarintRoundTrip(v, rest, 5);
  }

  lemma ThreeNumbers(a: seq<Byte>, b: seq<Byte>, c: seq<Byte>, body: seq<Byte>)
    ensures var s := a + b + c + body;
            && s == a + (b + c + body) && s[|a|..] == b + (c + body) && s[|a| + |b|..] == c + body
            && s[|a| + |b| + |c|..] == body
  {
  }

  lemma HeadByParts(s: seq<Byte>, n1: nat, n2: nat, n3: nat, shared: Word, nonShared: Word, valueLength: Word)
    requires n1 + n2 + n3 <= |s| < 0x1_0000_0000 && nonShared + valueLength <= |s| - n1 - n2 - n3
    requires Varint32At(s) == Some((shared, n1)) && Varint32At(s[n1..]) == Some((nonShared, n2))
    requires Varint32At(s[n1 + n2..]) == Some((valueLength, n3))
    ensures EntryHead(s) == Some(Head(shared, nonShared, valueLength, n1 + n2 + n3))
  {
    hide Varint32At;
  }

  // The same as Number, for byte strings that are known by other means to be such numbers.
  lemma NumberAt(s: seq<Byte>, a: seq<Byte>, v: Word, rest: seq<Byte>)
    requires a == Varint(v) && s == a + rest
    ensures Varint32At(s) == Some((v, |a|))
  {
    Number(v, rest);
  }

  lemma HeadOfNumbers(a: seq<Byte>, b: seq<Byte>, c: seq<Byte>, body: seq<Byte>, shared: Word, nonShared: Word, valueLength: Word)
    requires a == Varint(shared) && b == Varint(nonShared) && c == Varint(valueLength)
    requires |a + b + c + body| < 0x1_0000_0000 && nonShared + valueLength <= |body|
    ensures EntryHead(a + b + c + body) == Some(Head(shared, nonShared, valueLength, |a| + |b| + |c|))
  {
    hide EntryHead, Varint32At, Varint;
    var s := a + b + c + body;
    ThreeNumbers(a, b, c, body);
    NumberAt(s, a, shared, b + (c + body));
    NumberAt(s[|a|..], b, nonShared, c + body);
    NumberAt(s[|a| + |b|..], c, valueLength, body);
    HeadByParts(s, |a|, |b|, |c|, shared, nonShared, valueLength);
  }

  lemma SliceFrom(s: seq<Byte>, o: nat, limit: nat, a: nat, b: nat)
    requires a <= b && o + b <= limit <= |s|
    ensures s[o..limit][a..b] == s[o + a..o + b]
  {
    forall k | 0 <= k < b - a
      ensures s[o..limit][a..b][k] == s[o + a..o + b][k]
    {
    }
  }

  lemma TailFrom(s: seq<Byte>, o: nat, limit: nat, q: nat)
    requires o <= q <= limit <= |s|
    ensures s[o..limit][q - o..] == s[q..limit]
  {
  }

  lemma SliceOfFront(s: seq<Byte>, limit: nat, a: nat, b: nat)
    requires a <= b <= limit <= |s|
    ensures s[..limit][a..b] == s[a..b]
  {
  }

  lemma PrefixAndRest(e: Key, key: Key, n: nat)
    requires n <= |e| && n <= |key| && key[..n] == e[..n]
    ensures key[..n] + e[n..] == e
  {
  }

  lemma BodyParts(head: seq<Byte>, delta: seq<Byte>, value: seq<Byte>, rest: seq<Byte>)
    ensures var s, h, n, end := head + (delta + value + rest), |head|, |head| + |delta|, |head| + |delta| + |value|;
            s[h..n] == delta && s[n..end] == value && s == head + delta + value + rest
  {
  }

  /** Parsing an entry gives back the lengths it was written with, and its key bytes and value are
      where the head says. */
  lemma HeadOfEntry(shared: nat, e: Item, rest: seq<Byte>)
    requires shared <= |e.key| < 0x1_0000_0000 && |EntryBytes(shared, e) + rest| < 0x1_0000_0000
    ensures EntryHead(EntryBytes(shared, e) + rest).Some?
    ensures var s, h := EntryBytes(shared, e) + rest, EntryHead(EntryBytes(shared, e) + rest).value;
            && h.shared == shared && h.nonShared == |e.key| - shared && h.valueLength == |e.value|
            && h.start + h.nonShared + h.valueLength == |EntryBytes(shared, e)|
            && s[h.start..h.start + h.nonShared] == e.key[shared..]
            && s[h.start + h.nonShared..|EntryBytes(shared, e)|] == e.value
  {
    var a, b, c := Varint(shared), Varint(|e.key| - shared), Varint(|e.value|);
    BodyParts(a + b + c, e.key[shared..], e.value, rest);
    HeadOfNumbers(a, b, c, e.key[shared..] + e.value + rest, shared, |e.key| - shared, |e.value|);
  }

  // ----- a run of entries -----

  // Where the entries of a block are: entry i is `shared[i]` bytes short of its key and lies
  // between offsets i and i + 1; restart j is entry restartAt[j].
  datatype Layout = Layout(items: seq<Item>, shared: seq<nat>, offsets: seq<nat>, restartAt: seq<nat>)

  ghost predicate SharesPrefix(items: seq<Item>, i: nat, n: nat)
    requires i < |items|
  {
    n <= |items[i].key| && (n > 0 ==> i > 0 && n <= |items[i - 1].key| && items[i].key[..n] == items[i - 1].key[..n])
  }

  ghost predicate EntryLaid(data: seq<Byte>, l: Layout, i: nat)
    requires i < |l.items| == |l.shared| && |l.offsets| == |l.items| + 1
  {
    && |l.items[i].key| < 0x1_0000_0000 && SharesPrefix(l.items, i, l.shared[i])
    && l.offsets[i] + |EntryBytes(l.shared[i], l.items[i])| == l.offsets[i + 1] <= |data|
    && data[l.offsets[i]..l.offsets[i + 1]] == EntryBytes(l.shared[i], l.items[i])
  }

  ghost predicate RestartLaid(l: Layout, j: nat)
    requires j < |l.restartAt| && |l.shared| == |l.items|
  {
    if l.items == [] then l.restartAt[j] == 0 else l.restartAt[j] < |l.items| && l.shared[l.restartAt[j]] == 0
  }

  ghost predicate Less(s: seq<nat>, i: nat, j: nat)
    requires i < j < |s|
  {
    s[i] < s[j]
  }

  ghost predicate Rising(s: seq<nat>) {
    forall i, j {:trigger Less(s, i, j)} :: 0 <= i < j < |s| ==> Less(s, i, j)
  }

  lemma RisingAt(s: seq<nat>, i: nat, j: nat)
    requires Rising(s) && i < |s| && j < |s|
    ensures i < j <==> s[i] < s[j]
  {
    assert i < j ==> Less(s, i, j);
    assert j < i ==> Less(s, j, i);
  }

  // Adding something larger keeps a sequence rising.
  lemma RisingMore(s: seq<nat>, x: nat)
    requires Rising(s) && (s != [] ==> s[|s| - 1] < x)
    ensures Rising(s + [x])
  {
    forall i, j {:trigger Less(s + [x], i, j)} | 0 <= i < j < |s + [x]|
      ensures Less(s + [x], i, j)
    {
      if j < |s| {
        RisingAt(s, i, j);
      } else if i < |s| - 1 {
        RisingAt(s, i, |s| - 1);
      }
    }
  }

  ghost predicate Laid(data: seq<Byte>, l: Layout) {
    && |l.shared| == |l.items| && |l.offsets| == |l.items| + 1 && |data| < 0x1_0000_0000
    && l.offsets[0] == 0 && l.offsets[|l.items|] == |data|
    && Rising(l.offsets) && Rising(l.restartAt)
    && (forall i {:trigger EntryLaid(data, l, i)} :: 0 <= i < |l.items| ==> EntryLaid(data, l, i))
    && l.restartAt != [] && l.restartAt[0] == 0
    && (forall j {:trigger RestartLaid(l, j)} :: 0 <= j < |l.restartAt| ==> RestartLaid(l, j))
  }

  // The key before entry i, which entry i shares a prefix with unless it is a restart point.
  ghost predicate KeyBefore(l: Layout, i: nat, key: Key)
    requires i <= |l.items| == |l.shared|
  {
    i < |l.items| ==> l.shared[i] == 0 || (i > 0 && key == l.items[i - 1].key)
  }

  lemma ParseAt(s: seq<Byte>, limit: nat, o: nat, end: nat, n: nat, e: Item)
    requires n <= |e.key| < 0x1_0000_0000 && o + |EntryBytes(n, e)| == end <= limit <= |s| && limit < 0x1_0000_0000
    requires s[o..end] == EntryBytes(n, e)
    ensures EntryHead(s[o..limit]).Some?
    ensures var h := EntryHead(s[o..limit]).value; var start := o + h.start;
            && h.shared == n && start + h.nonShared + h.valueLength == end
            && s[start..start + h.nonShared] == e.key[n..] && s[start + h.nonShared..end] == e.value
  {
    hide EntryHead, EntryBytes;
    var rest := s[end..limit];
    assert s[o..limit] == s[o..end] + rest;
    HeadOfEntry(n, e, rest);
    var h := EntryHead(s[o..limit]).value;
    SliceFrom(s, o, limit, h.start, h.start + h.nonShared);
    SliceFrom(s, o, limit, h.start + h.nonShared, end - o);
  }

  /** Parsing at an entry's offset, with the key before it at hand, gives its key and its value. The
      entries end at `limit`. */
  lemma ParseEntry(s: seq<Byte>, limit: nat, l: Layout, i: nat, key: Key)
    requires limit <= |s| && limit < 0x1_0000_0000 && i < |l.items| == |l.shared| && |l.offsets| == |l.items| + 1
    requires EntryLaid(s[..limit], l, i) && KeyBefore(l, i, key)
    ensures l.offsets[i] < l.offsets[i + 1] <= limit
    ensures var r := EntryHead(s[l.offsets[i]..limit]);
            && r.Some? && r.value.shared == l.shared[i] && r.value.shared <= |key|
            && var start := l.offsets[i] + r.value.start;
            && start + r.value.nonShared + r.value.valueLength == l.offsets[i + 1]
            && key[..r.value.shared] + s[start..start + r.value.nonShared] == l.items[i].key
            && s[start + r.value.nonShared..l.offsets[i + 1]] == l.items[i].value
  {
    var e, n := l.items[i], l.shared[i];
    SliceOfFront(s, limit, l.offsets[i], l.offsets[i + 1]);
    ParseAt(s, limit, l.offsets[i], l.offsets[i + 1], n, e);
    PrefixAndRest(e.key, key, n);
  }

  // ----- adding an entry -----

  function Added(l: Layout, e: Item, shared: nat, restart: bool): Layout
    requires |l.offsets| == |l.items| + 1 && shared <= |e.key|
  {
    Layout(l.items + [e], l.shared + [shared], l.offsets + [l.offsets[|l.items|] + |EntryBytes(shared, e)|],
           if restart then l.restartAt + [|l.items|] else l.restartAt)
  }

  lemma EntryLength(e: Item, shared: nat)
    requires shared <= |e.key| < 0x1_0000_0000 && |e.value| < 0x1_0000_0000
    ensures |EntryBytes(shared, e)| <= |e.key| + |e.value| + 15
  {
    VarintLength(shared);
    VarintLength(|e.key| - shared);
    VarintLength(|e.value|);
  }

  lemma AddedIsLaid(data: seq<Byte>, l: Layout, e: Item, shared: nat, restart: bool)
    requires Laid(data, l) && |data| + |e.key| + |e.value| + 15 < 0x1_0000_0000
    requires shared <= |e.key| && SharesPrefix(l.items + [e], |l.items|, shared)
    requires if restart then shared == 0 && l.items != [] else l.items == [] ==> shared == 0
    ensures Laid(data + EntryBytes(shared, e), Added(l, e, shared, restart))
  {
    hide EntryBytes;
    var data', l' := data + EntryBytes(shared, e), Added(l, e, shared, restart);
    EntryLength(e, shared);
    forall i {:trigger EntryLaid(data', l', i)} | 0 <= i < |l'.items|
      ensures EntryLaid(data', l', i)
    {
      if i < |l.items| {
        assert EntryLaid(data, l, i);
        assert data'[l.offsets[i]..l.offsets[i + 1]] == data[l.offsets[i]..l.offsets[i + 1]];
      }
    }
    RisingMore(l.offsets, l'.offsets[|l.items| + 1]);
    if restart {
      assert RestartLaid(l, |l.restartAt| - 1);
      RisingMore(l.restartAt, |l.items|);
    }
    forall j {:trigger RestartLaid(l', j)} | 0 <= j < |l'.restartAt|
      ensures RestartLaid(l', j)
    {
      if j < |l.restartAt| {
        assert RestartLaid(l, j);
      }
    }
  }

  // ----- which entries are restart points, and how much the others share -----

  // Entry i shares all that its key has in common with the one before.
  ghost predicate SharesAll(items: seq<Item>, i: nat, n: nat)
    requires i < |items|
  {
    && i > 0 && SharesPrefix(items, i, n)
    && (n < |items[i].key| && n < |items[i - 1].key| ==> items[i].key[n] != items[i - 1].key[n])
  }

  // Unless it is a restart point.
  ghost predicate Shortened(l: Layout, i: nat)
    requires i < |l.items| == |l.shared|
  {
    i in l.restartAt || SharesAll(l.items, i, l.shared[i])
  }

  ghost predicate Apart(l: Layout, j: nat, interval: nat)
    requires j + 1 < |l.restartAt|
  {
    l.restartAt[j + 1] == l.restartAt[j] + interval
  }

  // Every so many entries there is a restart point, and all other entries share what they can.
  ghost predicate Spaced(l: Layout, interval: nat) {
    && |l.shared| == |l.items| && l.restartAt != [] && l.restartAt[0] == 0
    && (forall j {:trigger Apart(l, j, interval)} :: 0 <= j < |l.restartAt| - 1 ==> Apart(l, j, interval))
    && l.restartAt[|l.restartAt| - 1] <= |l.items| <= l.restartAt[|l.restartAt| - 1] + interval
    && (l.items != [] ==> l.restartAt[|l.restartAt| - 1] < |l.items|)
    && forall i {:trigger Shortened(l, i)} :: 0 <= i < |l.items| ==> Shortened(l, i)
  }

  lemma AddedIsSpaced(l: Layout, e: Item, shared: nat, restart: bool, interval: nat)
    requires interval > 0 && Spaced(l, interval) && |l.offsets| == |l.items| + 1 && shared <= |e.key|
    requires restart <==> |l.items| == l.restartAt[|l.restartAt| - 1] + interval
    requires !restart && l.items != [] ==> SharesAll(l.items + [e], |l.items|, shared)
    ensures Spaced(Added(l, e, shared, restart), interval)
  {
    hide EntryBytes;
    var l', n := Added(l, e, shared, restart), |l.items|;
    forall j {:trigger Apart(l', j, interval)} | 0 <= j < |l'.restartAt| - 1
      ensures Apart(l', j, interval)
    {
      if j < |l.restartAt| - 1 {
        assert Apart(l, j, interval);
      }
    }
    forall i {:trigger Shortened(l', i)} | 0 <= i < |l'.items|
      ensures Shortened(l', i)
    {
      if i < n {
        assert Shortened(l, i);
      } else if restart {
        assert l'.restartAt[|l.restartAt|] == n;
      } else if n == 0 {
        assert l'.restartAt[0] == 0;
      }
    }
  }

  /** The restart points are the entries at the multiples of the interval. */
  lemma {:induction false} RestartsEvery(l: Layout, interval: nat, j: nat)
    requires Spaced(l, interval) && j < |l.restartAt|
    ensures l.restartAt[j] == j * interval
  {
    if j > 0 {
      RestartsEvery(l, interval, j - 1);
      assert Apart(l, j - 1, interval);
    }
  }

  // ----- restart offsets -----

  ghost predicate RestartOffset(l: Layout, restarts: seq<Word>, j: nat)
    requires j < |restarts| == |l.restartAt| && |l.offsets| == |l.items| + 1
  {
    l.restartAt[j] <= |l.items| && restarts[j] == l.offsets[l.restartAt[j]]
  }

  // The restart offsets are those of the layout's restart entries.
  ghost predicate Restarted(l: Layout, restarts: seq<Word>) {
    && |restarts| == |l.restartAt| && |l.offsets| == |l.items| + 1
    && forall j {:trigger RestartOffset(l, restarts, j)} :: 0 <= j < |restarts| ==> RestartOffset(l, restarts, j)
  }

  lemma AddedIsRestarted(l: Layout, restarts: seq<Word>, e: Item, shared: nat, restart: bool, size: Word)
    requires Restarted(l, restarts) && shared <= |e.key| && size == l.offsets[|l.items|]
    ensures Restarted(Added(l, e, shared, restart), if restart then restarts + [size] else restarts)
  {
    var l', restarts' := Added(l, e, shared, restart), if restart then restarts + [size] else restarts;
    forall j {:trigger RestartOffset(l', restarts', j)} | 0 <= j < |restarts'|
      ensures RestartOffset(l', restarts', j)
    {
      if j < |restarts| {
        assert RestartOffset(l, restarts, j);
      }
    }
  }

  // Offsets and restart indices grow by at least one, so there are not many restarts.
  lemma {:induction false} Grows(s: seq<nat>, i: nat)
    requires Rising(s) && i < |s|
    ensures i <= s[i]
  {
    if i > 0 {
      RisingAt(s, i - 1, i);
      Grows(s, i - 1);
    }
  }

  lemma RestartCount(data: seq<Byte>, l: Layout)
    requires Laid(data, l)
    ensures |l.restartAt| < 0x1_0000_0000
  {
    var last := |l.restartAt| - 1;
    Grows(l.offsets, |l.items|);
    Grows(l.restartAt, last);
    assert RestartLaid(l, last);
  }
}
