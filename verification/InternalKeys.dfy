/** A value that may be absent. */
module Options {
  datatype Option<+T> = None | Some(value: T)
}

/** Internal keys of the storage engine, their order, and what a snapshot sees of a sorted
    list of entries.

    User keys are only ever compared. Any comparator over byte strings is a total order on a
    countable set, so it embeds in the order of the reals; `UserKey` stands for that order. */
module InternalKeys {

  import opened Options

  type UserKey = real
  type Tag = t: nat | t < 256
  type Bytes = seq<int>

  const TYPE_DELETION: Tag := 0
  const TYPE_VALUE: Tag := 1
  const TYPE_FOR_SEEK: Tag := TYPE_VALUE

  datatype InternalKey = InternalKey(userKey: UserKey, sequence: nat, tag: Tag) {
    // The low eight bits hold the type, the rest the sequence number.
    function Packed(): nat {
      sequence * 256 + tag
    }

    // False for a type byte that is neither a value nor a deletion.
    predicate Parses() {
      tag <= TYPE_VALUE
    }
  }

  datatype Entry = Entry(key: InternalKey, value: Bytes)

  // Increasing user key, then decreasing packed sequence number and type.
  predicate Before(a: InternalKey, b: InternalKey) {
    a.userKey < b.userKey || (a.userKey == b.userKey && a.Packed() > b.Packed())
  }

  lemma BeforeIsStrictTotalOrder(a: InternalKey, b: InternalKey, c: InternalKey)
    ensures !Before(a, a)
    ensures Before(a, b) && Before(b, c) ==> Before(a, c)
    ensures Before(a, b) || a == b || Before(b, a)
  {
    if a.userKey == b.userKey && a.Packed() == b.Packed() {
      assert a.sequence == a.Packed() / 256 && b.sequence == b.Packed() / 256;
    }
  }

  predicate Sorted(es: seq<Entry>) {
    forall i, j :: 0 <= i < j < |es| ==> Before(es[i].key, es[j].key)
  }

  // Index of the first entry at or after the target; |es| when there is none.
  function LowerBound(es: seq<Entry>, target: InternalKey): (n: nat)
    ensures n <= |es|
    ensures forall i :: 0 <= i < n ==> Before(es[i].key, target)
    ensures n < |es| ==> !Before(es[n].key, target)
  {
    if es != [] && Before(es[0].key, target) then 1 + LowerBound(es[1..], target) else 0
  }

  // ----- what a snapshot sees -----

  // Entry i can be seen at sequence number s.
  predicate Visible(es: seq<Entry>, s: nat, i: int)
    requires 0 <= i < |es|
  {
    es[i].key.Parses() && es[i].key.sequence <= s
  }

  // Entry i decides its user key at sequence number s: no visible entry of that key precedes it.
  ghost predicate Decides(es: seq<Entry>, s: nat, i: int)
    requires 0 <= i < |es|
  {
    Visible(es, s, i) &&
    forall j :: 0 <= j < i && Visible(es, s, j) ==> es[j].key.userKey != es[i].key.userKey
  }

  // Entry i is the value a read of its user key at sequence number s returns.
  ghost predicate Live(es: seq<Entry>, s: nat, i: int)
    requires 0 <= i < |es|
  {
    Decides(es, s, i) && es[i].key.tag == TYPE_VALUE
  }

  // The newest visible entry of a user key, as the first one in internal key order.
  function FirstVisible(es: seq<Entry>, s: nat, k: UserKey): (r: Option<Entry>)
  {
    if es == [] then None
    else if es[0].key.userKey == k && Visible(es, s, 0) then Some(es[0])
    else FirstVisible(es[1..], s, k)
  }

  // A point read: the value, or None for a key that is absent or deleted.
  function Lookup(es: seq<Entry>, s: nat, k: UserKey): (r: Option<Bytes>)
  {
    match FirstVisible(es, s, k)
    case Some(e) => if e.key.tag == TYPE_VALUE then Some(e.value) else None
    case None => None
  }

  lemma {:induction false} FirstVisibleDecides(es: seq<Entry>, s: nat, k: UserKey) returns (i: nat)
    ensures FirstVisible(es, s, k).None? ==>
              forall j :: 0 <= j < |es| && Visible(es, s, j) ==> es[j].key.userKey != k
    ensures FirstVisible(es, s, k).Some? ==>
              i < |es| && FirstVisible(es, s, k).value == es[i] && es[i].key.userKey == k && Decides(es, s, i)
  {
    i := 0;
    if es == [] || (es[0].key.userKey == k && Visible(es, s, 0)) {
    } else {
      var r := FirstVisibleDecides(es[1..], s, k);
      i := r + 1;
      forall j | 0 < j < |es| ensures es[j] == es[1..][j - 1] && Visible(es, s, j) == Visible(es[1..], s, j - 1) {}
    }
  }
}

/** The contract of leveldb's Iterator interface over a fixed list of entries. */
module Cursors {
  import opened InternalKeys

  class Cursor {
    const entries: seq<Entry>
    var pos: nat  // |entries| when the cursor is not valid

    constructor (es: seq<Entry>)
      ensures entries == es && pos == |es|
    {
      entries := es;
      pos := |es|;
    }

    predicate Valid()
      reads this
    {
      pos < |entries|
    }

    function Key(): InternalKey
      requires Valid()
      reads this
    {
      entries[pos].key
    }

    function Value(): Bytes
      requires Valid()
      reads this
    {
      entries[pos].value
    }

    method SeekToFirst()
      modifies this
      ensures pos == 0
    {
      pos := 0;
    }

    method SeekToLast()
      modifies this
      ensures pos == if |entries| == 0 then 0 else |entries| - 1
    {
      pos := if |entries| == 0 then 0 else |entries| - 1;
    }

    method Seek(target: InternalKey)
      modifies this
      ensures pos == LowerBound(entries, target)
    {
      pos := LowerBound(entries, target);
    }

    method Next()
      requires Valid()
      modifies this
      ensures pos == old(pos) + 1
    {
      pos := pos + 1;
    }

    method Prev()
      requires Valid()
      modifies this
      ensures pos == if old(pos) == 0 then |entries| else old(pos) - 1
    {
      pos := if pos == 0 then |entries| else pos - 1;
    }
  }
}
