/** Bytes, machine words and their little-endian encodings. */
module Bytes {
  type Byte = b: int | 0 <= b < 256
  type Word = w: int | 0 <= w < 0x1_0000_0000

  import opened Options

  function Fixed32(w: Word): (s: seq<Byte>)
    ensures |s| == 4
  {
    var w1: int := w / 256;
    var w2 := w1 / 256;
    [w % 256, w1 % 256, w2 % 256, w2 / 256]
  }

  function DecodeFixed32(s: seq<Byte>): Word
    requires |s| >= 4
  {
    s[0] as int + 256 * (s[1] as int + 256 * (s[2] as int + 256 * s[3] as int))
  }

  lemma Fixed32RoundTrip(w: Word)
    ensures DecodeFixed32(Fixed32(w)) == w
  {
    var s := Fixed32(w);
    assert s[0] == w % 256 && s[1] == w / 256 % 256 && s[2] == w / 256 / 256 % 256 && s[3] == w / 256 / 256 / 256;
  }

  lemma DecodeRoundTrip(s: seq<Byte>)
    requires |s| == 4
    ensures Fixed32(DecodeFixed32(s)) == s
  {
    var w2 := s[2] as int + 256 * s[3] as int;
    var w1 := s[1] as int + 256 * w2;
    assert DecodeFixed32(s) == s[0] as int + 256 * w1;
    assert w1 / 256 == w2 && w1 % 256 == s[1];
  }
}

/** Rotations of 32-bit words. The two halves of a rotation have no bits in common, so their union is their sum. */
module Rotations {
  import opened Bytes

  function Right15(w: Word): Word {
    w / 0x8000 + w % 0x8000 * 0x2_0000
  }

  function Right17(w: Word): Word {
    w / 0x2_0000 + w % 0x2_0000 * 0x8000
  }

  // One bit of a number, from the lowest.
  function Bit(w: nat, i: nat): nat {
    if i == 0 then w % 2 else Bit(w / 2, i - 1)
  }

  function Pow2(n: nat): (p: nat)
    ensures p > 0
  {
    if n == 0 then 1 else 2 * Pow2(n - 1)
  }

  // The bits of a number put together from two.
  lemma {:induction false} BitsOfSum(low: nat, high: nat, n: nat, i: nat)
    requires low < Pow2(n)
    ensures Bit(low + high * Pow2(n), i) == if i < n then Bit(low, i) else Bit(high, i - n)
    decreases n
  {
    if n > 0 {
      var p := Pow2(n - 1);
      Halved(low, high, p);
      if i > 0 {
        BitsOfSum(low / 2, high, n - 1, i - 1);
      }
    }
  }

  lemma Halved(low: nat, high: nat, p: nat)
    ensures (low + high * (2 * p)) % 2 == low % 2
    ensures (low + high * (2 * p)) / 2 == low / 2 + high * p
  {
    var m := high * p;
    assert high * (2 * p) == 2 * m;
  }

  lemma PowersOf2()
    ensures Pow2(15) == 0x8000 && Pow2(17) == 0x2_0000
  {
    assert Pow2(5) == 32 && Pow2(10) == 1024;
  }

  /** Rotated right by 15 bits, bit i is what bit i + 15 was; by 17 bits, what bit i + 17 was. */
  lemma TurnedBits(w: Word, i: nat)
    requires i < 32
    ensures Bit(Right15(w), i) == Bit(w, (i + 15) % 32)
    ensures Bit(Right17(w), i) == Bit(w, (i + 17) % 32)
  {
    hide Bit, Pow2;
    PowersOf2();
    BitsOfSum(w / 0x8000, w % 0x8000, 17, i);
    BitsOfSum(w % 0x8000, w / 0x8000, 15, (i + 15) % 32);
    BitsOfSum(w / 0x2_0000, w % 0x2_0000, 15, i);
    BitsOfSum(w % 0x2_0000, w / 0x2_0000, 17, (i + 17) % 32);
  }

  /** One undoes the other. */
  lemma TurnedAround(w: Word)
    ensures Right17(Right15(w)) == w && Right15(Right17(w)) == w
  {
    var r, l := Right15(w), Right17(w);
    assert r / 0x2_0000 == w % 0x8000 && r % 0x2_0000 == w / 0x8000;
    assert l / 0x8000 == w % 0x2_0000 && l % 0x8000 == w / 0x2_0000;
  }
}

/** Variable-length integers: seven bits a byte, low bits first, the top bit set on all but the last. */
module Varints {
  import opened Options
  import opened Bytes

  function Varint(v: nat): (s: seq<Byte>)
    ensures s != []
  {
    if v < 128 then [v] else [v % 128 + 128] + Varint(v / 128)
  }

  // The number at the front of s, when it ends within `room` bytes, and how many bytes it takes.
  function VarintAt(s: seq<Byte>, room: nat): (r: Option<(nat, nat)>)
    ensures r.Some? ==> 1 <= r.value.1 <= |s| && r.value.1 <= room
  {
    if s == [] || room == 0 then None
    else if s[0] < 128 then Some((s[0], 1))
    else
      match VarintAt(s[1..], room - 1)
      case None => None
      case Some((v, n)) => Some((s[0] - 128 + 128 * v, n + 1))
  }

  lemma {:induction false} VarintRoundTrip(v: nat, rest: seq<Byte>, room: nat)
    requires |Varint(v)| <= room
    ensures VarintAt(Varint(v) + rest, room) == Some((v, |Varint(v)|))
  {
    var s := Varint(v) + rest;
    if v >= 128 {
      VarintRoundTrip(v / 128, rest, room - 1);
      assert s[1..] == Varint(v / 128) + rest;
      assert v % 128 + 128 * (v / 128) == v;
    }
  }

  // A 32-bit number takes at most five bytes, a 64-bit number at most ten.
  lemma VarintLength(v: nat)
    ensures v < 0x80 ==> |Varint(v)| == 1
    ensures v < 0x1_0000_0000 ==> |Varint(v)| <= 5
    ensures v < 0x1_0000_0000_0000_0000 ==> |Varint(v)| <= 10
  {
    var v1 := v / 128;
    var v2 := v1 / 128;
    var v3 := v2 / 128;
    var v4 := v3 / 128;
    assert v < 0x1_0000_0000 ==> v4 < 128;
    if v >= 0x1_0000_0000 && v < 0x1_0000_0000_0000_0000 {
      var v5 := v4 / 128;
      var v6 := v5 / 128;
      var v7 := v6 / 128;
      var v8 := v7 / 128;
      assert v8 / 128 < 128 && |Varint(v8)| <= 2 && |Varint(v7)| <= 3 && |Varint(v6)| <= 4 && |Varint(v5)| <= 5 && |Varint(v4)| <= 6;
    }
    assert |Varint(v3)| <= 1 + |Varint(v4)| && |Varint(v2)| <= 1 + |Varint(v3)| && |Varint(v1)| <= 1 + |Varint(v2)|;
  }

  // ----- reading one byte at a time -----

  // v shifted left by i groups of seven bits.
  function Shift(v: nat, i: nat): (r: nat)
    requires i <= 5
  {
    if i == 0 then v else if i == 1 then v * 0x80 else if i == 2 then v * 0x4000 else if i == 3 then v * 0x20_0000
    else if i == 4 then v * 0x1000_0000 else v * 0x8_0000_0000
  }

  // What a number is when its first i bytes make up `low` and the rest is as given.
  function Extend(low: nat, i: nat, high: Option<(nat, nat)>): Option<(nat, nat)>
    requires i <= 5
  {
    match high
    case None => None
    case Some((v, n)) => Some((low + Shift(v, i), i + n))
  }

  lemma ShiftMore(a: nat, v: nat, i: nat)
    requires i < 5
    ensures Shift(a + 128 * v, i) == Shift(a, i) + Shift(v, i + 1)
    ensures a < 128 ==> Shift(a, i) + Shift(1, i) <= Shift(1, i + 1)
  {
  }

  lemma OneMoreByte(low: nat, i: nat, s: seq<Byte>)
    requires i < 5
    ensures Extend(low, i, VarintAt(s, 5 - i)) ==
            if s == [] then None
            else if s[0] < 128 then Some((low + Shift(s[0], i), i + 1))
            else Extend(low + Shift(s[0] - 128, i), i + 1, VarintAt(s[1..], 4 - i))
    ensures s != [] ==> Shift(s[0] % 128, i) + Shift(1, i) <= Shift(1, i + 1)
  {
    if s != [] {
      ShiftMore(s[0] % 128, 0, i);
      if s[0] >= 128 && VarintAt(s[1..], 4 - i).Some? {
        ShiftMore(s[0] - 128, VarintAt(s[1..], 4 - i).value.0, i);
      }
    }
  }

  // What the loop reads: five bytes at most, bits past the 32nd dropped.
  function Varint32At(s: seq<Byte>): (r: Option<(Word, nat)>)
    ensures r.Some? ==> 1 <= r.value.1 <= |s|
  {
    match VarintAt(s, 5)
    case None => None
    case Some((v, n)) => Some((v % 0x1_0000_0000, n))
  }

  // Where a number read from s[p..] ends up.
  function At(p: nat, r: Option<(Word, nat)>): Option<(Word, nat)> {
    match r
    case None => None
    case Some((v, n)) => Some((v, p + n))
  }

  method GetVarint32PtrFallback(s: seq<Byte>, p: nat, limit: nat) returns (r: Option<(Word, nat)>)
    requires p <= limit <= |s|
    ensures r == At(p, Varint32At(s[p..limit]))
  {
    ghost var all := VarintAt(s[p..limit], 5);
    var result: nat, i: nat := 0, 0;
    while i <= 4 && p + i < limit
      invariant i <= 5 && p + i <= limit
      invariant all == Extend(result, i, VarintAt(s[p + i..limit], 5 - i))
    {
      OneMoreByte(result, i, s[p + i..limit]);
      assert s[p + i..limit][1..] == s[p + i + 1..limit];
      var byte := s[p + i] as int;
      if byte < 128 {
        return Some(((result + Shift(byte, i)) % 0x1_0000_0000, p + i + 1));
      }
      result := result + Shift(byte - 128, i);
      i := i + 1;
    }
    return None;
  }

  /** Read a 32-bit number at p, and how far it goes. */
  method GetVarint32Ptr(s: seq<Byte>, p: nat, limit: nat) returns (r: Option<(Word, nat)>)
    requires p <= limit <= |s|
    ensures r == At(p, Varint32At(s[p..limit]))
  {
    if p < limit && s[p] < 128 {
      return Some((s[p] as int, p + 1));
    }
    r := GetVarint32PtrFallback(s, p, limit);
  }
}
