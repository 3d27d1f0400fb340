/** Write batches: a byte string that holds a sequence number, a count and the updates themselves,
    and the memtable they are applied to. */
module WriteBatches {
  import opened Options
  import opened Bytes
  import opened Varints

  type Sequence = v: int | 0 <= v < 0x1_0000_0000_0000_0000

  datatype Op = Put(key: seq<Byte>, value: seq<Byte>) | Delete(key: seq<Byte>)

  const HEADER := 12
  const TAG_DELETION: Byte := 0
  const TAG_VALUE: Byte := 1

  // ----- bytes -----

  function Fixed64(v: Sequence): (s: seq<Byte>)
    ensures |s| == 8
  {
    Fixed32(v % 0x1_0000_0000) + Fixed32(v / 0x1_0000_0000)
  }

  function DecodeFixed64(s: seq<Byte>): Sequence
    requires |s| >= 8
  {
    DecodeFixed32(s[..4]) as int + 0x1_0000_0000 * DecodeFixed32(s[4..8])
  }

  lemma Fixed64RoundTrip(v: Sequence)
    ensures DecodeFixed64(Fixed64(v)) == v
  {
    var s := Fixed64(v);
    assert s[..4] == Fixed32(v % 0x1_0000_0000) && s[4..8] == Fixed32(v / 0x1_0000_0000);
    Fixed32RoundTrip(v % 0x1_0000_0000);
    Fixed32RoundTrip(v / 0x1_0000_0000);
  }

  function Prefixed(s: seq<Byte>): seq<Byte> {
    Varint(|s|) + s
  }

  // The byte string at the front of s, by its length, and how many bytes that takes.
  function PrefixedAt(s: seq<Byte>): (r: Option<(seq<Byte>, nat)>)
    ensures r.Some? ==> 1 <= r.value.1 <= |s|
  {
    match Varint32At(s)
    case None => None
    case Some((length, n)) => if length > |s| - n then None else Some((s[n..n + length], n + length))
  }

  predicate Fits(s: seq<Byte>) {
    |s| < 0x1_0000_0000
  }

  predicate OpFits(op: Op) {
    Fits(op.key) && (op.Put? ==> Fits(op.value))
  }

  function EncodeOp(op: Op): (s: seq<Byte>)
    ensures s != []
  {
    match op
    case Put(key, value) => [TAG_VALUE] + Prefixed(key) + Prefixed(value)
    case Delete(key) => [TAG_DELETION] + Prefixed(key)
  }

  function Flatten(parts: seq<seq<Byte>>): seq<Byte> {
    if parts == [] then [] else parts[0] + Flatten(parts[1..])
  }

  function Encoded(ops: seq<Op>): (r: seq<seq<Byte>>)
    ensures |r| == |ops|
  {
    seq(|ops|, i requires 0 <= i < |ops| => EncodeOp(ops[i]))
  }

  function EncodeOps(ops: seq<Op>): seq<Byte> {
    Flatten(Encoded(ops))
  }

  // How many updates there are, and the updates.
  function Body(ops: seq<Op>): (s: seq<Byte>)
    requires |ops| < 0x1_0000_0000
    ensures |s| >= 4
  {
    Fixed32(|ops|) + EncodeOps(ops)
  }

  // A batch of updates, the first of which has the given sequence number.
  function BatchBytes(sequence: Sequence, ops: seq<Op>): (s: seq<Byte>)
    requires |ops| < 0x1_0000_0000
    ensures |s| >= HEADER
  {
    Fixed64(sequence) + Body(ops)
  }

  // The update at the front of s and how many bytes it takes.
  function OpAt(s: seq<Byte>): (r: Option<(Op, nat)>)
    ensures r.Some? ==> 1 <= r.value.1 <= |s|
  {
    if s == [] then None
    else
      match PrefixedAt(s[1..])
      case None => None
      case Some((key, n)) =>
        if s[0] == TAG_DELETION then Some((Delete(key), 1 + n))
        else if s[0] != TAG_VALUE then None
        else
          match PrefixedAt(s[1 + n..])
          case None => None
          case Some((value, m)) => Some((Op.Put(key, value), 1 + n + m))
  }

  // The updates at the front of s, up to its end or the first that is malformed, and whether all of
  // it is well formed.
  function OpsIn(s: seq<Byte>): (r: (seq<Op>, bool))
    decreases |s|
  {
    if s == [] then ([], true)
    else
      match OpAt(s)
      case None => ([], false)
      case Some((op, n)) =>
        var (rest, ok) := OpsIn(s[n..]);
        ([op] + rest, ok)
  }

  // ----- round trips -----

  lemma PrefixedRoundTrip(s: seq<Byte>, rest: seq<Byte>)
    requires Fits(s)
    ensures PrefixedAt(Prefixed(s) + rest) == Some((s, |Prefixed(s)|))
  {
    var n := |Varint(|s|)|;
    assert Prefixed(s) + rest == Varint(|s|) + (s + rest);
    VarintLength(|s|);
    VarintRoundTrip(|s|, s + rest, 5);
    assert (Prefixed(s) + rest)[n..n + |s|] == s;
  }

  lemma DeleteRoundTrip(key: seq<Byte>, rest: seq<Byte>)
    requires Fits(key)
    ensures OpAt([TAG_DELETION] + Prefixed(key) + rest) == Some((Delete(key), 1 + |Prefixed(key)|))
  {
    var s := [TAG_DELETION] + Prefixed(key) + rest;
    PrefixedRoundTrip(key, rest);
    assert s[1..] == Prefixed(key) + rest;
  }

  lemma Parts(a: seq<Byte>, b: seq<Byte>, c: seq<Byte>, d: seq<Byte>)
    ensures var s := a + b + c + d; s[..|a|] == a && s[|a|..] == b + (c + d) && s[|a| + |b|..] == c + d
  {
  }

  lemma PutRoundTrip(key: seq<Byte>, value: seq<Byte>, rest: seq<Byte>)
    requires Fits(key) && Fits(value)
    ensures OpAt([TAG_VALUE] + Prefixed(key) + Prefixed(value) + rest)
         == Some((Op.Put(key, value), 1 + |Prefixed(key)| + |Prefixed(value)|))
  {
    var k, v := Prefixed(key), Prefixed(value);
    Parts([TAG_VALUE], k, v, rest);
    PrefixedRoundTrip(key, v + rest);
    PrefixedRoundTrip(value, rest);
    assert k + (v + rest) == Prefixed(key) + (v + rest);
  }

  lemma OpRoundTrip(op: Op, rest: seq<Byte>)
    requires OpFits(op)
    ensures OpAt(EncodeOp(op) + rest) == Some((op, |EncodeOp(op)|))
  {
    match op {
      case Put(key, value) => PutRoundTrip(key, value, rest);
      case Delete(key) => DeleteRoundTrip(key, rest);
    }
  }

  ghost predicate AllFit(ops: seq<Op>) {
    forall i {:trigger ops[i]} :: 0 <= i < |ops| ==> OpFits(ops[i])
  }

  lemma OpsStep(op: Op, e: seq<Byte>, tail: seq<Byte>)
    requires OpFits(op) && e == EncodeOp(op)
    ensures OpsIn(e + tail) == ([op] + OpsIn(tail).0, OpsIn(tail).1)
  {
    OpRoundTrip(op, tail);
    assert (e + tail)[|e|..] == tail;
  }

  lemma Regroup(a: seq<Byte>, b: seq<Byte>, c: seq<Byte>)
    ensures a + (b + c) == a + b + c
  {
  }

  lemma {:induction false} FlattenConcat(a: seq<seq<Byte>>, b: seq<seq<Byte>>)
    ensures Flatten(a + b) == Flatten(a) + Flatten(b)
  {
    if a == [] {
      assert a + b == b;
    } else {
      FlattenConcat(a[1..], b);
      assert (a + b)[1..] == a[1..] + b;
      Regroup(a[0], Flatten(a[1..]), Flatten(b));
    }
  }

  lemma EncodeOpsConcat(a: seq<Op>, b: seq<Op>)
    ensures EncodeOps(a + b) == EncodeOps(a) + EncodeOps(b)
  {
    assert Encoded(a + b) == Encoded(a) + Encoded(b);
    FlattenConcat(Encoded(a), Encoded(b));
  }

  lemma {:induction false} PartsAreBytes(parts: seq<seq<Byte>>)
    requires forall i :: 0 <= i < |parts| ==> parts[i] != []
    ensures |parts| <= |Flatten(parts)|
  {
    if parts != [] {
      PartsAreBytes(parts[1..]);
    }
  }

  lemma FlattenOne(part: seq<Byte>)
    ensures Flatten([part]) == part
  {
    assert [part][1..] == [];
  }

  lemma EncodeOne(op: Op)
    ensures EncodeOps([op]) == EncodeOp(op)
  {
    assert Encoded([op]) == [EncodeOp(op)];
    FlattenOne(EncodeOp(op));
  }

  lemma NoOps()
    ensures OpsIn(EncodeOps([])) == ([], true)
  {
  }

  lemma {:induction false} OpsRoundTrip(ops: seq<Op>)
    requires AllFit(ops)
    ensures OpsIn(EncodeOps(ops)) == (ops, true)
  {
    hide OpsIn, EncodeOp, Fits;
    if ops == [] {
      NoOps();
    } else {
      OpsRoundTrip(ops[1..]);
      EncodeOpsConcat(ops[..1], ops[1..]);
      EncodeOne(ops[0]);
      assert ops[..1] == [ops[0]] && ops == [ops[0]] + ops[1..];
      OpsStep(ops[0], EncodeOp(ops[0]), EncodeOps(ops[1..]));
    }
  }

  // ----- batches -----

  /** What updates are applied to: each with its sequence number, in the order of insertion. */
  class MemTable {
    var entries: seq<(nat, Op)>

    constructor ()
      ensures entries == []
    {
      entries := [];
    }

    method Add(sequence: nat, op: Op)
      modifies this
      ensures entries == old(entries) + [(sequence, op)]
    {
      entries := entries + [(sequence, op)];
    }
  }

  // Updates with consecutive sequence numbers.
  function Numbered(sequence: nat, ops: seq<Op>): (r: seq<(nat, Op)>)
    ensures |r| == |ops|
  {
    seq(|ops|, i requires 0 <= i < |ops| => (sequence + i, ops[i]))
  }

  class WriteBatch {
    var rep: seq<Byte>
    ghost var ops: seq<Op>

    ghost predicate Valid()
      reads this
    {
      |rep| >= HEADER && |ops| < 0x8000_0000 && rep[8..] == Body(ops) && AllFit(ops)
    }

    constructor ()
      ensures Valid() && ops == []
    {
      rep, ops := Fixed64(0) + Fixed32(0), [];
      new;
      assert rep[8..] == Fixed32(0) + [];
    }

    method Clear()
      modifies this
      ensures Valid() && ops == [] && |rep| == HEADER
    {
      rep, ops := Fixed64(0) + Fixed32(0), [];
      assert rep[8..] == Fixed32(0) + [];
    }

    function Count(): Word
      reads this
      requires |rep| >= HEADER
    {
      DecodeFixed32(rep[8..HEADER])
    }

    lemma CountIsExact()
      requires Valid()
      ensures Count() == |ops| && rep[HEADER..] == EncodeOps(ops)
    {
      Fixed32RoundTrip(|ops|);
      BodyParts(rep, Fixed32(|ops|), EncodeOps(ops));
    }

    static lemma BodyParts(rep: seq<Byte>, c: seq<Byte>, e: seq<Byte>)
      requires |rep| >= HEADER && |c| == 4 && rep[8..] == c + e
      ensures rep[8..HEADER] == c && rep[HEADER..] == e
    {
      assert rep[8..HEADER] == rep[8..][..4] && rep[HEADER..] == rep[8..][4..];
    }

    method SetCount(n: Word)
      requires |rep| >= HEADER
      modifies this`rep
      ensures rep == old(rep[..8]) + Fixed32(n) + old(rep[HEADER..])
    {
      rep := rep[..8] + Fixed32(n) + rep[HEADER..];
    }

    function SequenceOf(): Sequence
      reads this
      requires |rep| >= HEADER
    {
      DecodeFixed64(rep[..8])
    }

    method SetSequence(sequence: Sequence)
      requires Valid()
      modifies this`rep
      ensures Valid() && SequenceOf() == sequence && rep == BatchBytes(sequence, ops)
    {
      rep := Fixed64(sequence) + rep[8..];
      assert rep[..8] == Fixed64(sequence) && rep[8..] == old(rep[8..]);
      Fixed64RoundTrip(sequence);
    }

    method Put(key: seq<Byte>, value: seq<Byte>)
      requires Valid() && |ops| + 1 < 0x8000_0000 && Fits(key) && Fits(value)
      modifies this
      ensures Valid() && ops == old(ops) + [Op.Put(key, value)] && rep[..8] == old(rep[..8])
    {
      ghost var op := Op.Put(key, value);
      CountIsExact();
      SetCount(Count() + 1);
      rep := rep + EncodePut(key, value);
      Parts(old(rep[..8]), Fixed32(|ops| + 1), EncodeOps(ops), EncodeOp(op));
      EncodeOne(op);
      BodyOfMore(ops, [op]);
      ops := ops + [op];
    }

    static function EncodePut(key: seq<Byte>, value: seq<Byte>): (s: seq<Byte>)
      ensures s == EncodeOp(Op.Put(key, value))
    {
      [TAG_VALUE] + Prefixed(key) + Prefixed(value)
    }

    method Delete(key: seq<Byte>)
      requires Valid() && |ops| + 1 < 0x8000_0000 && Fits(key)
      modifies this
      ensures Valid() && ops == old(ops) + [Op.Delete(key)] && rep[..8] == old(rep[..8])
    {
      ghost var op := Op.Delete(key);
      CountIsExact();
      SetCount(Count() + 1);
      rep := rep + ([TAG_DELETION] + Prefixed(key));
      Parts(old(rep[..8]), Fixed32(|ops| + 1), EncodeOps(ops), EncodeOp(op));
      EncodeOne(op);
      BodyOfMore(ops, [op]);
      ops := ops + [op];
    }

    static lemma BodyOfMore(ops: seq<Op>, more: seq<Op>)
      requires |ops| + |more| < 0x8000_0000 && AllFit(ops) && AllFit(more)
      ensures Body(ops + more) == Fixed32(|ops| + |more|) + (EncodeOps(ops) + EncodeOps(more)) && AllFit(ops + more)
    {
      EncodeOpsConcat(ops, more);
    }

    // Every update takes at least a byte.
    lemma OpsAreBytes()
      requires Valid()
      ensures |ops| + HEADER <= |rep| && (ops == [] ==> |rep| == HEADER)
    {
      PartsAreBytes(Encoded(ops));
    }

    /** Take over the updates of another batch, which is left as it was. */
    method Append(src: WriteBatch)
      requires Valid() && src.Valid() && src != this && |ops| + |src.ops| < 0x8000_0000
      modifies this
      ensures Valid() && ops == old(ops) + src.ops && rep[..8] == old(rep[..8])
      ensures |rep| == |old(rep)| + |src.rep| - HEADER
    {
      CountIsExact();
      src.CountIsExact();
      SetCount(Count() + src.Count());
      rep := rep + src.rep[HEADER..];
      Parts(old(rep[..8]), Fixed32(|ops| + |src.ops|), EncodeOps(ops), EncodeOps(src.ops));
      BodyOfMore(ops, src.ops);
      ops := ops + src.ops;
    }
  }

  // Read the byte string at the front of the input.
  method GetLengthPrefixedSlice(input: seq<Byte>) returns (r: Option<(seq<Byte>, nat)>)
    ensures r == PrefixedAt(input)
  {
    var length := GetVarint32Ptr(input, 0, |input|);
    assert input[0..|input|] == input;
    if length.None? || |input| - length.value.1 < length.value.0 {
      return None;
    }
    var (n, start) := length.value;
    return Some((input[start..start + n], start + n));
  }

  /** Apply the batch in `rep` to the memtable, counting sequence numbers up from the batch's own.
      Updates before a malformed one have been applied when that is found. */
  method InsertInto(rep: seq<Byte>, mem: MemTable) returns (ok: bool)
    modifies mem
    ensures |rep| < HEADER ==> !ok && mem.entries == old(mem.entries)
    ensures |rep| >= HEADER ==>
              var (ops, complete) := OpsIn(rep[HEADER..]);
              && mem.entries == old(mem.entries) + Numbered(DecodeFixed64(rep[..8]), ops)
              && (ok <==> complete && |ops| == DecodeFixed32(rep[8..HEADER]))
  {
    if |rep| < HEADER {
      return false;
    }
    var found, complete := InsertOps(rep[HEADER..], DecodeFixed64(rep[..8]), mem);
    ok := complete && found == DecodeFixed32(rep[8..HEADER]) as int;
  }

  // Apply updates until the end or the first that is malformed.
  method InsertOps(bytes: seq<Byte>, first: nat, mem: MemTable) returns (found: nat, complete: bool)
    modifies mem
    ensures var (ops, ok) := OpsIn(bytes);
            mem.entries == old(mem.entries) + Numbered(first, ops) && complete == ok && (ok ==> found == |ops|)
  {
    var input, sequence := bytes, first;
    ghost var seen: seq<Op> := [];
    found := 0;
    SeenMore(bytes, [], bytes);
    assert old(mem.entries) + Numbered(first, []) == mem.entries;
    while input != []
      invariant |seen| == found && sequence == first + found && Seen(bytes, seen, input)
      invariant mem.entries == old(mem.entries) + Numbered(first, seen)
      decreases |input|
    {
      SeenMore(bytes, seen, input);
      var next := NextOp(input);
      if next.None? {
        return found, false;
      }
      var (op, n) := next.value;
      mem.Add(sequence, op);
      NumberedMore(old(mem.entries), first, seen, op);
      found := found + 1;
      sequence := sequence + 1;
      input := input[n..];
      seen := seen + [op];
    }
    SeenMore(bytes, seen, input);
    complete := true;
  }

  // The updates in the bytes are those seen and those in the input.
  ghost predicate Seen(bytes: seq<Byte>, seen: seq<Op>, input: seq<Byte>) {
    OpsIn(bytes).0 == seen + OpsIn(input).0 && OpsIn(bytes).1 == OpsIn(input).1
  }

  lemma SeenMore(bytes: seq<Byte>, seen: seq<Op>, input: seq<Byte>)
    ensures Seen(bytes, [], bytes)
    ensures Seen(bytes, seen, input) ==>
              if input == [] then OpsIn(bytes) == (seen, true)
              else if OpAt(input) == None then OpsIn(bytes) == (seen, false)
              else Seen(bytes, seen + [OpAt(input).value.0], input[OpAt(input).value.1..])
  {
    assert [] + OpsIn(bytes).0 == OpsIn(bytes).0 && seen + [] == seen;
    if input != [] && OpAt(input).Some? {
      var (op, n) := OpAt(input).value;
      assert seen + ([op] + OpsIn(input[n..]).0) == seen + [op] + OpsIn(input[n..]).0;
    }
  }

  lemma NumberedMore(before: seq<(nat, Op)>, first: nat, ops: seq<Op>, op: Op)
    ensures before + Numbered(first, ops) + [(first + |ops|, op)] == before + Numbered(first, ops + [op])
  {
    assert Numbered(first, ops + [op]) == Numbered(first, ops) + [(first + |ops|, op)];
  }

  lemma NumberedConcat(first: nat, a: seq<Op>, b: seq<Op>)
    ensures Numbered(first, a + b) == Numbered(first, a) + Numbered(first + |a|, b)
  {
  }

  // Read the update at the front of the input.
  method NextOp(input: seq<Byte>) returns (r: Option<(Op, nat)>)
    requires input != []
    ensures r == OpAt(input)
  {
    var tag := input[0];
    if tag == TAG_VALUE {
      var key := GetLengthPrefixedSlice(input[1..]);
      if key.None? {
        return None;
      }
      var value := GetLengthPrefixedSlice(input[1 + key.value.1..]);
      if value.None? {
        return None;
      }
      return Some((Op.Put(key.value.0, value.value.0), 1 + key.value.1 + value.value.1));
    } else if tag == TAG_DELETION {
      var key := GetLengthPrefixedSlice(input[1..]);
      if key.None? {
        return None;
      }
      return Some((Op.Delete(key.value.0), 1 + key.value.1));
    } else {
      return None;
    }
  }

  /** Reading back the bytes of a batch gives its updates, its count and its sequence number. */
  lemma BatchRoundTrip(sequence: Sequence, ops: seq<Op>)
    requires |ops| < 0x1_0000_0000 && AllFit(ops)
    ensures var s := BatchBytes(sequence, ops);
            OpsIn(s[HEADER..]) == (ops, true) && DecodeFixed32(s[8..HEADER]) == |ops| && DecodeFixed64(s[..8]) == sequence
  {
    var s := BatchBytes(sequence, ops);
    assert s[8..] == Body(ops) && s[..8] == Fixed64(sequence);
    WriteBatch.BodyParts(s, Fixed32(|ops|), EncodeOps(ops));
    OpsRoundTrip(ops);
    Fixed32RoundTrip(|ops|);
    Fixed64RoundTrip(sequence);
  }
}
