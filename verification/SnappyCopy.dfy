/** Copying within the output buffer, eight bytes at a time, and the array writer built on it. */
module SnappyCopy {
  import opened Bytes
  import opened SnappyFormat

  // Store the eight bytes at src, all loaded before the first is stored.
  method UnalignedCopy64(buf: array<Byte>, src: nat, dst: nat)
    requires src + 8 <= buf.Length && dst + 8 <= buf.Length
    modifies buf
    ensures forall k :: dst <= k < dst + 8 ==> buf[k] == old(buf[k - dst + src])
    ensures forall j :: 0 <= j < buf.Length && !(dst <= j < dst + 8) ==> buf[j] == old(buf[j])
  {
    var loaded := buf[src..src + 8];
    for k := 0 to 8
      invariant forall j :: dst <= j < dst + k ==> buf[j] == loaded[j - dst]
      invariant forall j :: 0 <= j < buf.Length && !(dst <= j < dst + k) ==> buf[j] == old(buf[j])
    {
      buf[dst + k] := loaded[k];
    }
  }

  // Every byte in [from, to) repeats the one `period` bytes before it.
  ghost predicate Repeats(s: seq<Byte>, from: int, to: int, period: nat)
  {
    1 <= period <= from && to <= |s| && forall j :: from <= j < to ==> s[j] == s[j - period]
  }

  lemma Multiples(m: nat, period: nat)
    requires 1 <= m
    ensures (m - 1) * period == m * period - period && 0 <= (m - 1) * period && (m > 1 ==> period <= (m - 1) * period)
  {
  }

  // Within a repeating stretch, bytes d apart are equal, d being m periods.
  lemma {:induction false} RepeatsFar(s: seq<Byte>, from: nat, to: nat, period: nat, m: nat, d: nat, j: nat)
    requires Repeats(s, from, to, period) && d == m * period && from + d <= j + period && j < to && period <= j
    ensures d <= j && s[j] == s[j - d]
    decreases m
  {
    if m > 0 {
      Multiples(m, period);
      RepeatsFar(s, from, to, period, m - 1, d - period, j);
      var i := j - (d - period);
      assert s[i] == s[i - period];
    }
  }

  // A stretch that repeats with a multiple of the period continues the one before it.
  lemma {:induction false} RepeatsOn(s: seq<Byte>, from: nat, op: nat, to: nat, period: nat, m: nat, d: nat)
    requires Repeats(s, from, op, period) && Repeats(s, op, to, d)
    requires 1 <= m && d == m * period && from <= op && from + d <= op + period
    ensures Repeats(s, from, to, period)
    decreases if op < to then to - op else 0
  {
    if op < to {
      Multiples(m, period);
      if m > 1 {
        RepeatsFar(s, from, op, period, m - 1, d - period, op - period);
      }
      assert s[op] == s[op - period];
      RepeatsOn(s, from, op + 1, to, period, m, d);
    }
  }

  // One byte at a time.
  method IncrementalCopySlow(buf: array<Byte>, src: nat, op: nat, opLimit: nat)
    requires src < op && opLimit <= buf.Length
    modifies buf
    ensures forall j :: 0 <= j < buf.Length && !(op <= j < opLimit) ==> buf[j] == old(buf[j])
    ensures Repeats(buf[..], op, opLimit, op - src)
  {
    var i := op;
    while i < opLimit
      invariant op <= i
      invariant forall j :: 0 <= j < buf.Length && !(op <= j < i) ==> buf[j] == old(buf[j])
      invariant forall j :: op <= j < i && j < buf.Length ==> buf[j] == buf[j - (op - src)]
      invariant i <= opLimit || i == op
    {
      buf[i] := buf[i - (op - src)];
      i := i + 1;
    }
  }

  // The bytes before op0 and from bufLimit on are as in `was`.
  ghost predicate Outside(was: seq<Byte>, now: seq<Byte>, op0: nat, bufLimit: nat) {
    |was| == |now| && forall j :: 0 <= j < |was| && !(op0 <= j < bufLimit) ==> now[j] == was[j]
  }

  lemma AfterCopy64(was: seq<Byte>, now: seq<Byte>, src: nat, op: nat, count: nat, op0: nat, period: nat)
    requires |was| == |now| && op + 8 <= |was| && src < op && src + count <= op && count <= 8 && op0 <= op
    requires forall k :: op <= k < op + 8 ==> now[k] == was[k - op + src]
    requires forall j :: 0 <= j < |was| && !(op <= j < op + 8) ==> now[j] == was[j]
    requires Repeats(was, op0, op, period)
    ensures Repeats(now, op0, op, period) && Repeats(now, op, op + count, op - src)
  {
  }

  // Copy eight bytes forward when source and destination are at least that far apart, or only
  // as many of them as they are apart count.
  method CopyStep(buf: array<Byte>, src: nat, op: nat, count: nat, ghost op0: nat, ghost bufLimit: nat, ghost period: nat, ghost m: nat)
    requires op0 <= op && op + 8 <= bufLimit <= buf.Length && src + count <= op && count <= 8
    requires Repeats(buf[..], op0, op, period) && 1 <= m && op - src == m * period && op0 <= src + period
    modifies buf
    ensures Outside(old(buf[..]), buf[..], op0, bufLimit)
    ensures Repeats(buf[..], op0, op + count, period)
  {
    ghost var was := buf[..];
    UnalignedCopy64(buf, src, op);
    AfterCopy64(was, buf[..], src, op, count, op0, period);
    hide Repeats;
    RepeatsOn(buf[..], op0, op, op + count, period, m, op - src);
  }

  // What the copying has done so far: [op0, op) repeats with the original distance, and source and
  // destination are a multiple of it apart.
  ghost predicate Copied(was: seq<Byte>, now: seq<Byte>, op0: nat, bufLimit: nat, period: nat, src: nat, op: nat, m: nat) {
    Outside(was, now, op0, bufLimit) && Repeats(now, op0, op, period) &&
    1 <= m && src < op && op0 <= op && op - src == m * period && op0 <= src + period
  }

  // Expand a pattern of less than eight bytes to at least eight.
  method ExpandPattern(buf: array<Byte>, src: nat, op0: nat, bufLimit: nat) returns (op: nat, ghost m: nat)
    requires src < op0 < src + 8 && op0 + 14 <= bufLimit <= buf.Length
    modifies buf
    ensures Copied(old(buf[..]), buf[..], op0, bufLimit, op0 - src, src, op, m) && 8 <= op - src
  {
    op, m := op0, 1;
    ghost var period := op0 - src;
    var patternSize := op - src;
    while patternSize < 8
      invariant Copied(old(buf[..]), buf[..], op0, bufLimit, period, src, op, m) && patternSize == op - src
      decreases 8 - patternSize
    {
      CopyStep(buf, src, op, patternSize, op0, bufLimit, period, m);
      op := op + patternSize;
      patternSize := patternSize * 2;
      m := m * 2;
    }
  }

  // Copy sixteen bytes at a time while there is room, then eight, then one by one.
  method CopyBlocks(buf: array<Byte>, src0: nat, start: nat, opLimit: nat, bufLimit: nat,
                    ghost was: seq<Byte>, ghost op0: nat, ghost period: nat, ghost m: nat)
    requires start <= opLimit <= bufLimit <= buf.Length
    requires Copied(was, buf[..], op0, bufLimit, period, src0, start, m) && 8 <= start - src0
    modifies buf
    ensures Outside(was, buf[..], op0, bufLimit) && Repeats(buf[..], op0, opLimit, period)
  {
    var src, op := src0, start;
    while op <= bufLimit - 16
      invariant Copied(was, buf[..], op0, bufLimit, period, src, op, m) && op - src == start - src0
    {
      CopyStep(buf, src, op, 8, op0, bufLimit, period, m);
      CopyStep(buf, src + 8, op + 8, 8, op0, bufLimit, period, m);
      src := src + 16;
      op := op + 16;
      if op >= opLimit {
        return;
      }
    }
    if op <= bufLimit - 8 {
      CopyStep(buf, src, op, 8, op0, bufLimit, period, m);
      src := src + 8;
      op := op + 8;
    }
    IncrementalCopySlow(buf, src, op, opLimit);
    if op < opLimit {
      RepeatsOn(buf[..], op0, op, opLimit, period, m, op - src);
    }
  }

  /** Fill [op, opLimit) from src, whatever the distance between them, without writing at or past
      bufLimit. The result is that of copying one byte at a time. */
  method IncrementalCopy(buf: array<Byte>, src: nat, op: nat, opLimit: nat, bufLimit: nat)
    requires src < op <= opLimit <= bufLimit <= buf.Length
    modifies buf
    ensures Outside(old(buf[..]), buf[..], op, bufLimit)
    ensures buf[..opLimit] == AppendCopy(old(buf[..op]), op - src, opLimit - op)
  {
    ghost var was := buf[..];
    if op - src < 8 {
      if op > bufLimit - 14 {
        IncrementalCopySlow(buf, src, op, opLimit);
      } else {
        var start, m := ExpandPattern(buf, src, op, bufLimit);
        if start < opLimit {
          CopyBlocks(buf, src, start, opLimit, bufLimit, was, op, op - src, m);
        }
      }
    } else {
      CopyBlocks(buf, src, op, opLimit, bufLimit, was, op, op - src, 1);
    }
    RepeatsIsCopy(was, buf[..], op, opLimit, op - src);
  }

  // A repeating stretch is what appending byte by byte gives.
  lemma {:induction false} RepeatsIsCopy(was: seq<Byte>, now: seq<Byte>, op: nat, to: nat, period: nat)
    requires |was| == |now| && op <= to <= |now| && now[..op] == was[..op] && Repeats(now, op, to, period)
    ensures now[..to] == AppendCopy(was[..op], period, to - op)
    decreases if op < to then to - op else 0
  {
    if op < to {
      assert now[op] == now[op - period] == now[..op][op - period];
      var next := now[..op] + [now[op]];
      assert now[..op + 1] == next;
      RepeatsIsCopy(now, now, op + 1, to, period);
    }
  }

  const MAXIMUM_TAG_LENGTH := 5

  /** Decompressed output in a flat array. */
  class SnappyArrayWriter {
    const buf: array<Byte>
    var op: nat
    var opLimit: nat

    ghost predicate Valid()
      reads this
    {
      op <= opLimit <= buf.Length
    }

    // Nothing at or past the limit differs from `was`.
    ghost predicate BeyondLimit(was: seq<Byte>)
      reads this, buf
    {
      |was| == buf.Length && forall j :: opLimit <= j < buf.Length ==> buf[j] == was[j]
    }

    // The bytes produced so far.
    ghost function Produced(): (s: seq<Byte>)
      reads this, buf
      requires Valid()
    {
      buf[..op]
    }

    constructor (dst: array<Byte>)
      ensures Valid() && buf == dst && op == 0 && opLimit == 0 && Produced() == []
    {
      buf, op, opLimit := dst, 0, 0;
    }

    method SetExpectedLength(length: nat)
      requires Valid() && op + length <= buf.Length
      modifies this`opLimit
      ensures Valid() && opLimit == op + length && Produced() == old(Produced())
    {
      opLimit := op + length;
    }

    predicate CheckLength()
      reads this
    {
      op == opLimit
    }

    method Append(data: seq<Byte>) returns (ok: bool)
      requires Valid()
      modifies this`op, buf
      ensures Valid() && ok == (old(op) + |data| <= opLimit)
      ensures Produced() == if ok then old(Produced()) + data else old(Produced())
      ensures BeyondLimit(old(buf[..]))
    {
      var spaceLeft := opLimit - op;
      if spaceLeft < |data| {
        return false;
      }
      forall k | 0 <= k < |data| {
        buf[op + k] := data[k];
      }
      assert buf[..op + |data|] == old(buf[..op]) + data;
      op := op + |data|;
      return true;
    }

    // Append the first `length` of the available bytes by a single copy of sixteen, or decline.
    method TryFastAppend(available: seq<Byte>, length: nat) returns (ok: bool)
      requires Valid()
      modifies this`op, buf
      ensures Valid()
      ensures ok == (length <= 16 && 16 + MAXIMUM_TAG_LENGTH <= |available| && old(op) + 16 <= opLimit)
      ensures Produced() == if ok then old(Produced()) + available[..length] else old(Produced())
      ensures BeyondLimit(old(buf[..]))
    {
      var spaceLeft := opLimit - op;
      if length <= 16 && |available| >= 16 + MAXIMUM_TAG_LENGTH && spaceLeft >= 16 {
        forall k | 0 <= k < 16 {
          buf[op + k] := available[k];
        }
        assert buf[..op + length] == old(buf[..op]) + available[..length];
        op := op + length;
        return true;
      }
      return false;
    }

    // Append a copy from earlier output. An offset of zero makes offset - 1 the largest unsigned
    // number, and so is refused by the same test as an offset beyond the start.
    method AppendFromSelf(offset: nat, length: nat) returns (ok: bool)
      requires Valid() && buf.Length < SIZE_LIMIT
      modifies this`op, buf
      ensures Valid() && ok == (1 <= offset <= |old(Produced())| && old(op) + length <= opLimit)
      ensures Produced() == if ok then AppendCopy(old(Produced()), offset, length) else old(Produced())
      ensures BeyondLimit(old(buf[..]))
    {
      var before: nat := if offset == 0 then SIZE_LIMIT - 1 else offset - 1;
      var opEnd := op + length;
      if op <= before || opEnd > opLimit {
        return false;
      }
      IncrementalCopy(buf, op - offset, op, opEnd, opLimit);
      op := opEnd;
      return true;
    }
  }

  // One more than the largest size_t.
  const SIZE_LIMIT := 0x1_0000_0000_0000_0000
}
