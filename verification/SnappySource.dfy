/** A source of bytes, handed out a region at a time, and the length in front of a Snappy stream. */
module SnappySource {
  import opened Options
  import opened Bytes
  import opened Varints

  class Source {
    // What has not been skipped.
    var rest: seq<Byte>
    // How long the next region is, less one, when this much is left. It is not longer than that.
    const regionSize: nat -> nat

    constructor (data: seq<Byte>, regions: nat -> nat)
      ensures rest == data && regionSize == regions
    {
      rest, regionSize := data, regions;
    }

    // The next region, empty only at the end.
    method Peek() returns (region: seq<Byte>)
      ensures region <= rest && (region == [] <==> rest == [])
    {
      var n := regionSize(|rest|) + 1;
      region := if n < |rest| then rest[..n] else rest;
    }

    method Skip(n: nat)
      requires n <= |rest|
      modifies this`rest
      ensures rest == old(rest)[n..]
    {
      rest := rest[n..];
    }
  }

  lemma Shifts(v: Word)
    ensures v / 0x4000 == v / 0x80 / 0x80 && v / 0x20_0000 == v / 0x4000 / 0x80 && v / 0x1000_0000 == v / 0x20_0000 / 0x80
  {
  }

  lemma Digits(v: nat, tail: seq<Byte>)
    requires v >= 128 && Varint(v / 128) == tail
    ensures Varint(v) == [v % 128 + 128] + tail
  {
  }

  // Write v as a variable-length integer.
  method Encode32(v: Word) returns (s: seq<Byte>)
    ensures s == Varint(v)
  {
    Shifts(v);
    var v1, v2, v3, v4 := v / 0x80, v / 0x4000, v / 0x20_0000, v / 0x1000_0000;
    if v < 0x80 {
      s := [v];
    } else if v < 0x4000 {
      s := [v % 128 + 128, v1];
      Digits(v, [v1]);
    } else if v < 0x20_0000 {
      s := [v % 128 + 128, v1 % 128 + 128, v2];
      Digits(v1, [v2]);
      Digits(v, s[1..]);
    } else if v < 0x1000_0000 {
      s := [v % 128 + 128, v1 % 128 + 128, v2 % 128 + 128, v3];
      Digits(v2, [v3]);
      Digits(v1, s[2..]);
      Digits(v, s[1..]);
    } else {
      s := [v % 128 + 128, v1 % 128 + 128, v2 % 128 + 128, v3 % 128 + 128, v4];
      Digits(v3, [v4]);
      Digits(v2, s[3..]);
      Digits(v1, s[2..]);
      Digits(v, s[1..]);
    }
  }

  // The length in front of a stream, when it is one of at most five bytes and 32 bits, and how many
  // bytes it takes.
  function ReadLength(s: seq<Byte>): (r: Option<(Word, nat)>) {
    match VarintAt(s, 5)
    case None => None
    case Some((v, n)) => if v < 0x1_0000_0000 then Some((v, n)) else None
  }

  // What shifting a 32-bit number left and back leaves of it.
  function ShiftedBack(val: nat, i: nat): nat
    requires i < 5
  {
    Shift(val, i) % 0x1_0000_0000 / Shift(1, i)
  }

  // Shifting seven bits left by 7 * i in 32 bits loses none exactly when the value fits.
  lemma ShiftLosesNothing(val: nat, i: nat)
    requires val < 128 && i < 5
    ensures ShiftedBack(val, i) == val <==> Shift(val, i) < 0x1_0000_0000
    ensures Shift(val, i) < 0x1_0000_0000 ==> Shift(val, i) + Shift(1, i) <= 0x1_0000_0000
  {
    if Shift(val, i) >= 0x1_0000_0000 {
      assert i == 4;
      assert Shift(val, i) % 0x1_0000_0000 == val % 16 * 0x1000_0000;
    }
  }

  method NextByte(reader: Source) returns (c: Option<Byte>)
    modifies reader
    ensures old(reader.rest) == [] ==> c == None && reader.rest == []
    ensures old(reader.rest) != [] ==> c == Some(old(reader.rest)[0]) && reader.rest == old(reader.rest)[1..]
  {
    var region := reader.Peek();
    if |region| == 0 {
      return None;
    }
    reader.Skip(1);
    return Some(region[0]);
  }

  // The first i bytes of the number make up `value`; s is what follows them.
  ghost predicate Reading(all: Option<(nat, nat)>, value: nat, i: nat, s: seq<Byte>) {
    i <= 5 && value < Shift(1, i) && all == Extend(value, i, VarintAt(s, 5 - i))
  }

  lemma NoRoom(s: seq<Byte>)
    ensures VarintAt(s, 0) == None
  {
  }

  lemma ReadStep(all: Option<(nat, nat)>, value: nat, i: nat, s: seq<Byte>)
    requires Reading(all, value, i, s) && i < 5 && s != []
    ensures var val := s[0] % 128;
            && (if ShiftedBack(val, i) == val then value + Shift(val, i) < 0x1_0000_0000
                else all.None? || all.value.0 >= 0x1_0000_0000)
            && (if s[0] < 128 then all == Some((value + Shift(val, i), i + 1))
                else Reading(all, value + Shift(val, i), i + 1, s[1..]))
  {
    hide VarintAt;
    var val := s[0] % 128;
    OneMoreByte(value, i, s);
    ShiftLosesNothing(val, i);
    if s[0] < 128 {
      assert all == Some((value + Shift(val, i), i + 1));
    } else if i == 4 {
      NoRoom(s[1..]);
      assert all == None;
    } else {
      assert Shift(val, i) < 0x1_0000_0000;
    }
  }

  /** Read the length at the front of the source, a byte at a time. */
  method ReadUncompressedLength(reader: Source) returns (ok: bool, result: Word)
    modifies reader
    ensures ok <==> ReadLength(old(reader.rest)).Some?
    ensures ok ==> var (v, n) := ReadLength(old(reader.rest)).value; result == v && reader.rest == old(reader.rest)[n..]
  {
    ghost var data, all := reader.rest, VarintAt(reader.rest, 5);
    var value: nat, i := 0, 0;
    while 7 * i < 32
      invariant Reading(all, value, i, reader.rest) && i <= |data| && reader.rest == data[i..]
    {
      ghost var s := reader.rest;
      var c := NextByte(reader);
      if c.None? {
        return false, 0;
      }
      ReadStep(all, value, i, s);
      var val := c.value % 128;
      if ShiftedBack(val, i) != val {
        return false, 0;
      }
      value := value + Shift(val, i);
      i := i + 1;
      if c.value < 128 {
        return true, value;
      }
    }
    return false, 0;
  }
}
