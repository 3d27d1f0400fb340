/** The decompressor: tags and literals read from a source whatever the regions it hands out. */
module SnappyDecompress {
  import opened Options
  import opened Bytes
  import opened SnappyFormat
  import opened SnappyCopy
  import opened SnappySource

  // The next tag is wholly in the buffer.
  predicate Ready(buffered: seq<Byte>) {
    buffered != [] && 1 + Extra(buffered[0]) <= |buffered|
  }

  // What is left of a literal is at the front of s: append it and go on.
  function AfterLiteral(s: seq<Byte>, out: seq<Byte>, length: nat, limit: nat): Option<seq<Byte>> {
    if |s| < length || |out| + length > limit then None else DecodeAll(s[length..], out + s[..length], limit)
  }

  // Part of a literal can be appended first.
  lemma PartOfLiteral(part: seq<Byte>, s: seq<Byte>, out: seq<Byte>, length: nat, limit: nat)
    requires |part| <= length
    ensures |out| + |part| > limit ==> AfterLiteral(part + s, out, length, limit) == None
    ensures |out| + |part| <= limit ==>
              AfterLiteral(part + s, out, length, limit) == AfterLiteral(s, out + part, length - |part|, limit)
  {
    if |s| >= length - |part| && |out| + length <= limit {
      assert (part + s)[length..] == s[length - |part|..];
      assert out + (part + s)[..length] == out + part + s[..length - |part|];
    }
  }

  // Unfolding the decoder at a literal and at a copy whose tags are in the buffer.
  lemma AtLiteral(buffered: seq<Byte>, later: seq<Byte>, out: seq<Byte>, limit: nat)
    requires Ready(buffered) && buffered[0] % 4 == 0
    ensures HeadOf(buffered).0.LiteralHead?
    ensures var (head, n) := HeadOf(buffered);
            DecodeAll(buffered + later, out, limit) == AfterLiteral(buffered[n..] + later, out, head.length, limit)
  {
    HeadOfFront(buffered, later);
    var (head, n) := HeadOf(buffered);
    assert (buffered + later)[n..] == buffered[n..] + later;
  }

  lemma AtCopy(buffered: seq<Byte>, later: seq<Byte>, out: seq<Byte>, limit: nat)
    requires Ready(buffered) && buffered[0] % 4 != 0
    ensures HeadOf(buffered).0.CopyHead?
    ensures var (head, n) := HeadOf(buffered);
            DecodeAll(buffered + later, out, limit) ==
            if head.offset == 0 || head.offset > |out| || |out| + head.length > limit then None
            else DecodeAll(buffered[n..] + later, AppendCopy(out, head.offset, head.length), limit)
  {
    HeadOfFront(buffered, later);
    var (head, n) := HeadOf(buffered);
    assert (buffered + later)[n..] == buffered[n..] + later;
  }

  class SnappyDecompressor {
    const reader: Source
    // The bytes between the read pointer and the end of the buffer, in a region of the reader or in
    // the scratch area.
    var buffered: seq<Byte>
    // Bytes peeked from the reader and not yet skipped.
    var peeked: nat
    var eof: bool

    ghost predicate Valid()
      reads this, reader
    {
      peeked <= |reader.rest|
    }

    // All the input that is left.
    ghost function Remaining(): seq<Byte>
      reads this, reader
      requires Valid()
    {
      buffered + reader.rest[peeked..]
    }

    // What decoding all that is left gives.
    ghost function Outcome(writer: SnappyArrayWriter): Option<seq<Byte>>
      reads this, reader, writer, writer.buf
      requires Valid() && writer.Valid()
    {
      DecodeAll(Remaining(), writer.Produced(), writer.opLimit)
    }

    constructor (source: Source)
      ensures reader == source && Valid() && Remaining() == source.rest && !eof
    {
      reader, buffered, peeked, eof := source, [], 0, false;
      new;
      assert [] + source.rest[0..] == source.rest;
    }

    // Collect the bytes of a tag that is spread over several regions.
    method Stitch(needed: nat) returns (ok: bool)
      requires Valid() && |buffered| < needed
      modifies this`buffered, this`peeked, reader
      ensures ok ==> Valid() && Remaining() == old(Remaining()) && |buffered| == needed && old(buffered) <= buffered
      ensures !ok ==> |old(Remaining())| < needed
    {
      ghost var all := Remaining();
      ghost var first := buffered;
      var scratch := buffered;
      reader.Skip(peeked);
      peeked := 0;
      while |scratch| < needed
        invariant |scratch| <= needed && first <= scratch && scratch + reader.rest == all && peeked == 0
        decreases needed - |scratch|
      {
        var src := reader.Peek();
        if |src| == 0 {
          return false;
        }
        var toAdd := if needed - |scratch| < |src| then needed - |scratch| else |src|;
        TakeFrom(scratch, reader.rest, src, toAdd);
        scratch := scratch + src[..toAdd];
        reader.Skip(toAdd);
      }
      buffered := scratch;
      assert reader.rest[0..] == reader.rest;
      return true;
    }

    static lemma TakeFrom(scratch: seq<Byte>, rest: seq<Byte>, src: seq<Byte>, n: nat)
      requires src <= rest && n <= |src|
      ensures scratch + src[..n] + rest[n..] == scratch + rest
    {
      assert src[..n] + rest[n..] == rest;
      assert scratch + src[..n] + rest[n..] == scratch + (src[..n] + rest[n..]);
    }

    // Take a whole new region, all the peeked bytes being used up.
    method Fetch()
      requires Valid() && buffered == []
      modifies this`buffered, this`peeked, reader
      ensures Valid() && Remaining() == old(Remaining()) && (buffered == [] <==> Remaining() == [])
    {
      assert Remaining() == reader.rest[peeked..];
      reader.Skip(peeked);
      var region := reader.Peek();
      peeked := |region|;
      buffered := region;
      assert region + reader.rest[peeked..] == reader.rest;
    }

    // Have the next tag wholly in the buffer, at the end of the input or not.
    method RefillTag() returns (ok: bool)
      requires Valid() && !eof
      modifies this, reader
      ensures ok ==> Valid() && Remaining() == old(Remaining()) && Ready(buffered) && !eof
      ensures !ok ==> (eof <==> old(Remaining()) == [])
      ensures !ok && !eof ==> |old(Remaining())| < 1 + Extra(old(Remaining())[0])
    {
      if buffered == [] {
        Fetch();
        eof := buffered == [];
        if eof {
          return false;
        }
      }
      assert Remaining()[0] == buffered[0];
      var needed := Extra(buffered[0]) + 1;
      if |buffered| < needed {
        ok := Stitch(needed);
        return;
      }
      if |buffered| < MAXIMUM_TAG_LENGTH {
        ghost var all := Remaining();
        reader.Skip(peeked);
        peeked := 0;
        assert reader.rest[0..] == reader.rest;
      }
      return true;
    }

    // Refill unless a whole tag of any kind is in the buffer.
    method MaybeRefill(writer: SnappyArrayWriter) returns (ok: bool)
      requires Valid() && !eof && writer.Valid()
      modifies this, reader
      ensures ok ==> Valid() && Ready(buffered) && !eof && Remaining() == old(Remaining())
      ensures !ok ==> old(Outcome(writer)) == if eof then Some(writer.Produced()) else None
    {
      ok := true;
      if |buffered| < MAXIMUM_TAG_LENGTH {
        ok := RefillTag();
      }
    }

    // Append a literal of the given length, region by region.
    method AppendLiteral(writer: SnappyArrayWriter, length: nat) returns (ok: bool)
      requires Valid() && !eof && writer.Valid()
      modifies this`buffered, this`peeked, reader, writer`op, writer.buf
      ensures writer.Valid() && writer.BeyondLimit(old(writer.buf[..]))
      ensures var after := old(AfterLiteral(Remaining(), writer.Produced(), length, writer.opLimit));
              if ok then Valid() && |Remaining()| <= |old(Remaining())| && after == Outcome(writer) else after == None
    {
      var left: nat := length;
      ghost var target := AfterLiteral(Remaining(), writer.Produced(), left, writer.opLimit);
      while |buffered| < left
        invariant Valid() && writer.Valid() && writer.BeyondLimit(old(writer.buf[..]))
        invariant target == AfterLiteral(Remaining(), writer.Produced(), left, writer.opLimit)
        invariant |Remaining()| <= |old(Remaining())|
        decreases left, |reader.rest| - (if peeked <= |reader.rest| then peeked else 0)
      {
        PartOfLiteral(buffered, reader.rest[peeked..], writer.Produced(), left, writer.opLimit);
        ok := writer.Append(buffered);
        if !ok {
          return false;
        }
        left := left - |buffered|;
        buffered := [];
        assert Remaining() == reader.rest[peeked..];
        Fetch();
        if |buffered| == 0 {
          return false;
        }
      }
      ok := AppendTail(writer, left);
    }

    // The rest of a literal is in the buffer.
    method AppendTail(writer: SnappyArrayWriter, left: nat) returns (ok: bool)
      requires Valid() && writer.Valid() && left <= |buffered|
      modifies this`buffered, writer`op, writer.buf
      ensures writer.Valid() && writer.BeyondLimit(old(writer.buf[..]))
      ensures var after := old(AfterLiteral(Remaining(), writer.Produced(), left, writer.opLimit));
              if ok then Valid() && |Remaining()| <= |old(Remaining())| && after == Outcome(writer) else after == None
    {
      ghost var later := reader.rest[peeked..];
      PartOfLiteral(buffered[..left], buffered[left..] + later, writer.Produced(), left, writer.opLimit);
      assert buffered[..left] + (buffered[left..] + later) == buffered + later;
      ok := writer.Append(buffered[..left]);
      if ok {
        buffered := buffered[left..];
        AfterNothing(Remaining(), writer.Produced(), writer.opLimit);
      }
    }

    static lemma AfterNothing(s: seq<Byte>, out: seq<Byte>, limit: nat)
      requires |out| <= limit
      ensures AfterLiteral(s, out, 0, limit) == DecodeAll(s, out, limit)
    {
      assert s[0..] == s && out + s[..0] == out;
    }

    static lemma ShortLiteral(buffered: seq<Byte>)
      requires Ready(buffered) && buffered[0] % 4 == 0 && buffered[0] / 4 < 60
      ensures HeadOf(buffered) == (LiteralHead(buffered[0] / 4 + 1), 1)
    {
    }

    // Appending the front of the window was the whole literal.
    static lemma FastStep(window: seq<Byte>, later: seq<Byte>, out: seq<Byte>, length: nat, limit: nat)
      requires length <= |window| && |out| + length <= limit
      ensures AfterLiteral(window + later, out, length, limit) == DecodeAll(window[length..] + later, out + window[..length], limit)
    {
      PartOfLiteral(window[..length], window[length..] + later, out, length, limit);
      assert window[..length] + (window[length..] + later) == window + later;
      AfterNothing(window[length..] + later, out + window[..length], limit);
    }

    // A literal short enough for the fast path, if the writer takes it.
    method FastLiteral(writer: SnappyArrayWriter) returns (ok: bool)
      requires Valid() && writer.Valid() && Ready(buffered) && buffered[0] % 4 == 0
      modifies this`buffered, writer`op, writer.buf
      ensures Valid() && writer.Valid() && writer.BeyondLimit(old(writer.buf[..]))
      ensures Outcome(writer) == old(Outcome(writer))
      ensures if ok then Ready(buffered) && |Remaining()| < |old(Remaining())|
              else buffered == old(buffered) && writer.Produced() == old(writer.Produced())
    {
      var length := buffered[0] / 4 + 1;
      var window := buffered[1..];
      ghost var later := reader.rest[peeked..];
      AtLiteral(buffered, later, writer.Produced(), writer.opLimit);
      ok := writer.TryFastAppend(window, length);
      if ok {
        ShortLiteral(buffered);
        FastStep(window, later, old(writer.Produced()), length, writer.opLimit);
        buffered := window[length..];
      }
    }

    // A literal, and whatever it takes to have the next tag in the buffer.
    method DecompressLiteral(writer: SnappyArrayWriter) returns (more: bool)
      requires Valid() && writer.Valid() && !eof && Ready(buffered) && buffered[0] % 4 == 0
      modifies this, reader, writer`op, writer.buf
      ensures writer.Valid() && writer.BeyondLimit(old(writer.buf[..]))
      ensures if more then Valid() && !eof && Ready(buffered) && Outcome(writer) == old(Outcome(writer)) && |Remaining()| < |old(Remaining())|
              else old(Outcome(writer)) == if eof then Some(writer.Produced()) else None
    {
      more := FastLiteral(writer);
      if more {
        return;
      }
      AtLiteral(buffered, reader.rest[peeked..], writer.Produced(), writer.opLimit);
      var (head, n) := HeadOf(buffered);
      buffered := buffered[n..];
      more := AppendLiteral(writer, head.length);
      if more {
        more := MaybeRefill(writer);
      }
    }

    method DecompressCopy(writer: SnappyArrayWriter) returns (more: bool)
      requires Valid() && writer.Valid() && writer.buf.Length < SIZE_LIMIT && !eof && Ready(buffered) && buffered[0] % 4 != 0
      modifies this, reader, writer`op, writer.buf
      ensures writer.Valid() && writer.BeyondLimit(old(writer.buf[..]))
      ensures if more then Valid() && !eof && Ready(buffered) && Outcome(writer) == old(Outcome(writer)) && |Remaining()| < |old(Remaining())|
              else old(Outcome(writer)) == if eof then Some(writer.Produced()) else None
    {
      AtCopy(buffered, reader.rest[peeked..], writer.Produced(), writer.opLimit);
      var (head, n) := HeadOf(buffered);
      buffered := buffered[n..];
      more := writer.AppendFromSelf(head.offset, head.length);
      if more {
        more := MaybeRefill(writer);
      }
    }

    /** Decode everything that is left: the end of the input is reached without an error exactly when
        it is well formed and fits, and then the writer holds what it stands for. */
    method DecompressAllTags(writer: SnappyArrayWriter)
      requires Valid() && writer.Valid() && writer.buf.Length < SIZE_LIMIT && !eof
      modifies this, reader, writer`op, writer.buf
      ensures writer.Valid() && writer.BeyondLimit(old(writer.buf[..]))
      ensures old(Outcome(writer)) == if eof then Some(writer.Produced()) else None
    {
      var more := MaybeRefill(writer);
      while more
        invariant writer.Valid() && writer.BeyondLimit(old(writer.buf[..]))
        invariant more ==> Valid() && !eof && Ready(buffered) && Outcome(writer) == old(Outcome(writer))
        invariant !more ==> old(Outcome(writer)) == if eof then Some(writer.Produced()) else None
        decreases more, if more then |Remaining()| else 0
      {
        if buffered[0] % 4 == 0 {
          more := DecompressLiteral(writer);
        } else {
          more := DecompressCopy(writer);
        }
      }
    }
  }
}
