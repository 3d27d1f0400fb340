/** The Snappy stream: literals and copies, their bytes, and what a decoder makes of them
    (Snappy compressed format description, section 2). */
module SnappyFormat {
  import opened Options
  import opened Bytes

  datatype Element = Literal(data: seq<Byte>) | Copy(offset: nat, length: nat)

  // ----- meaning -----

  // Append `length` bytes, each the one `offset` bytes back, one at a time.
  function AppendCopy(out: seq<Byte>, offset: nat, length: nat): (r: seq<Byte>)
    requires 0 < offset <= |out|
    ensures |r| == |out| + length
    decreases length
  {
    if length == 0 then out else AppendCopy(out + [out[|out| - offset]], offset, length - 1)
  }

  // A literal of 1 to 65536 bytes or a copy of 4 to 64 bytes from less than 65536 bytes back:
  // what the compressor emits.
  predicate Emittable(e: Element) {
    match e
    case Literal(data) => 1 <= |data| <= 0x1_0000
    case Copy(offset, length) => 1 <= offset < 0x1_0000 && 4 <= length <= 64
  }

  predicate Applies(e: Element, out: seq<Byte>) {
    e.Literal? || 1 <= e.offset <= |out|
  }

  function Apply(e: Element, out: seq<Byte>): (r: seq<Byte>)
    requires Applies(e, out)
  {
    match e
    case Literal(data) => out + data
    case Copy(offset, length) => AppendCopy(out, offset, length)
  }

  // ----- bytes -----

  // The low n bytes of v, least significant first.
  function LowBytes(v: nat, n: nat): (s: seq<Byte>)
    ensures |s| == n
  {
    if n == 0 then [] else [v % 256] + LowBytes(v / 256, n - 1)
  }

  function FromLowBytes(s: seq<Byte>): nat {
    if s == [] then 0 else s[0] as int + 256 * FromLowBytes(s[1..])
  }

  // How many bytes the length of a long literal takes, length minus one being n.
  function LengthSize(n: nat): (c: nat)
    requires 60 <= n < 0x1_0000_0000
    ensures 1 <= c <= 4
    ensures n < 256 <==> c == 1
    ensures n < 0x1_0000 <==> c <= 2
  {
    if n < 256 then 1 else if n < 0x1_0000 then 2 else if n < 0x100_0000 then 3 else 4
  }

  function Encode(e: Element): (s: seq<Byte>)
    requires Emittable(e)
    ensures s != []
  {
    match e
    case Literal(data) =>
      var n := |data| - 1;
      if n < 60 then [n * 4] + data
      else [(59 + LengthSize(n)) * 4] + LowBytes(n, LengthSize(n)) + data
    case Copy(offset, length) =>
      if length < 12 && offset < 2048 then [1 + (length - 4) * 4 + offset / 256 * 32, offset % 256]
      else [2 + (length - 1) * 4] + LowBytes(offset, 2)
  }

  // ----- decoding -----

  // Bytes that follow the tag byte before any literal data.
  function Extra(tag: Byte): (n: nat)
    ensures n <= 4
  {
    var kind := tag % 4;
    if kind == 0 then (if tag / 4 < 60 then 0 else tag / 4 - 59)
    else if kind == 1 then 1
    else if kind == 2 then 2
    else 4
  }

  datatype Head = LiteralHead(length: nat) | CopyHead(offset: nat, length: nat)

  // What a tag and the value v of its extra bytes stand for. The length of a long literal is
  // computed in 32 bits.
  function Decode(tag: Byte, v: nat): Head {
    var kind := tag % 4;
    if kind == 0 then LiteralHead(if tag / 4 < 60 then tag / 4 + 1 else if v + 1 == 0x1_0000_0000 then 0 else v + 1)
    else if kind == 1 then CopyHead(tag / 32 * 256 + v, tag / 4 % 8 + 4)
    else CopyHead(v, tag / 4 + 1)
  }

  // What the tag and the extra bytes at the front of s stand for, and how many bytes they take.
  function HeadOf(s: seq<Byte>): (r: (Head, nat))
    requires s != [] && 1 + Extra(s[0]) <= |s|
    ensures 1 <= r.1 <= |s|
  {
    var n := Extra(s[0]);
    (Decode(s[0], FromLowBytes(s[1..1 + n])), 1 + n)
  }

  // Decode a whole stream of elements onto `out`, of which at most `limit` bytes may be produced;
  // None when the stream is malformed or produces too much.
  function DecodeAll(s: seq<Byte>, out: seq<Byte>, limit: nat): (r: Option<seq<Byte>>)
    decreases |s|
  {
    if s == [] then Some(out)
    else if |s| < 1 + Extra(s[0]) then None
    else
      var (head, n) := HeadOf(s);
      var rest := s[n..];
      match head
      case LiteralHead(length) =>
        if |rest| < length || |out| + length > limit then None
        else DecodeAll(rest[length..], out + rest[..length], limit)
      case CopyHead(offset, length) =>
        if offset == 0 || offset > |out| || |out| + length > limit then None
        else DecodeAll(rest, AppendCopy(out, offset, length), limit)
  }

  // ----- encoding and decoding one element -----

  lemma LowBytesRoundTrip(v: nat)
    ensures FromLowBytes(LowBytes(v % 0x100, 1)) == v % 0x100
    ensures v < 0x1_0000 ==> FromLowBytes(LowBytes(v, 2)) == v
  {
    assert LowBytes(v, 2)[1..] == LowBytes(v / 256, 1) == [v / 256 % 256];
    assert LowBytes(v % 0x100, 1)[1..] == [];
    assert [v / 256 % 256][1..] == [];
  }

  lemma LiteralTag(data: seq<Byte>)
    requires 1 <= |data| <= 0x1_0000
    ensures var s := Encode(Literal(data));
            && 1 + Extra(s[0]) <= |s| && HeadOf(s) == (LiteralHead(|data|), |s| - |data|)
            && s[|s| - |data|..] == data
  {
    var s, n := Encode(Literal(data)), |data| - 1;
    if n >= 60 {
      var c := LengthSize(n);
      LowBytesRoundTrip(n);
      assert s[0] == (59 + c) * 4 && Extra(s[0]) == c;
      assert s[1..1 + c] == LowBytes(n, c);
    }
  }

  lemma CopyTag(offset: nat, length: nat)
    requires Emittable(Copy(offset, length))
    ensures var s := Encode(Copy(offset, length));
            1 + Extra(s[0]) == |s| && HeadOf(s) == (CopyHead(offset, length), |s|)
  {
    var s := Encode(Copy(offset, length));
    if length < 12 && offset < 2048 {
      ShortCopyTag(offset, length);
      var low: seq<Byte> := [offset % 256];
      assert s[1..2] == low && low[1..] == [];
      assert FromLowBytes(low) == offset % 256 && offset / 256 * 256 + offset % 256 == offset;
    } else {
      LowBytesRoundTrip(offset);
      assert s[0] % 4 == 2 && s[0] / 4 == length - 1;
      assert s[1..3] == LowBytes(offset, 2);
    }
  }

  lemma ShortCopyTag(offset: nat, length: nat)
    requires 4 <= length < 12 && offset < 2048
    ensures var tag := 1 + (length - 4) * 4 + offset / 256 * 32;
            tag % 4 == 1 && tag / 32 == offset / 256 && tag / 4 % 8 == length - 4
  {
  }

  lemma DecodeTag(e: Element)
    requires Emittable(e)
    ensures var s := Encode(e);
            && 1 + Extra(s[0]) <= |s|
            && HeadOf(s).0 == (if e.Literal? then LiteralHead(|e.data|) else CopyHead(e.offset, e.length))
            && s[HeadOf(s).1..] == (if e.Literal? then e.data else [])
  {
    match e {
      case Literal(data) => LiteralTag(data);
      case Copy(offset, length) => CopyTag(offset, length);
    }
  }

  /** Decoding an encoded element applies it and goes on with the rest of the stream. */
  lemma DecodeElement(e: Element, rest: seq<Byte>, out: seq<Byte>, limit: nat)
    requires Emittable(e) && Applies(e, out) && |Apply(e, out)| <= limit
    ensures DecodeAll(Encode(e) + rest, out, limit) == DecodeAll(rest, Apply(e, out), limit)
  {
    hide Encode, HeadOf, Extra;
    var s := Encode(e);
    DecodeTag(e);
    var n := HeadOf(s).1;
    HeadOfFront(s, rest);
    assert (s + rest)[n..] == s[n..] + rest;
    if e.Literal? {
      assert (e.data + rest)[..|e.data|] == e.data && (e.data + rest)[|e.data|..] == rest;
    } else {
      assert [] + rest == rest;
    }
  }

  lemma HeadOfFront(s: seq<Byte>, rest: seq<Byte>)
    requires s != [] && 1 + Extra(s[0]) <= |s|
    ensures HeadOf(s + rest) == HeadOf(s)
  {
    var n := Extra(s[0]);
    assert (s + rest)[1..1 + n] == s[1..1 + n];
  }

  // ----- the longest literal -----

  // The length that section 2.1 of the format description gives to a literal.
  function StatedLength(s: seq<Byte>): nat
    requires s != [] && s[0] % 4 == 0 && 1 + Extra(s[0]) <= |s|
  {
    if s[0] / 4 < 60 then s[0] / 4 + 1 else FromLowBytes(s[1..1 + Extra(s[0])]) + 1
  }

  lemma {:induction false} LowBytesBound(s: seq<Byte>, bound: nat)
    requires bound == (if |s| == 0 then 1 else if |s| == 1 then 0x100 else if |s| == 2 then 0x1_0000 else if |s| == 3 then 0x100_0000 else 0x1_0000_0000)
    requires |s| <= 4
    ensures FromLowBytes(s) < bound
    ensures FromLowBytes(s) == bound - 1 <==> forall i :: 0 <= i < |s| ==> s[i] == 0xff
  {
    if s != [] {
      LowBytesBound(s[1..], bound / 256);
      assert forall i :: 0 < i < |s| ==> s[i] == s[1..][i - 1];
    }
  }

  /** The decoder takes a literal's length as the description does, exactly unless four bytes say 2 to the 32nd. */
  lemma LiteralLengthIff(s: seq<Byte>)
    requires s != [] && s[0] % 4 == 0 && 1 + Extra(s[0]) <= |s|
    ensures HeadOf(s).0 == LiteralHead(StatedLength(s)) <==> !(s[0] == 0xfc && s[1..5] == [0xff, 0xff, 0xff, 0xff])
  {
    hide FromLowBytes;
    if s[0] / 4 >= 60 {
      var low := s[1..1 + Extra(s[0])];
      LowBytesBound(low, if |low| == 1 then 0x100 else if |low| == 2 then 0x1_0000 else if |low| == 3 then 0x100_0000 else 0x1_0000_0000);
    }
  }

  /** A stream with such a literal and no data for it is accepted as empty. */
  lemma LongestLiteralIsEmpty()
    ensures var s: seq<Byte> := [0xfc, 0xff, 0xff, 0xff, 0xff];
            StatedLength(s) == 0x1_0000_0000 && DecodeAll(s, [], 0) == Some([])
  {
    var s: seq<Byte> := [0xfc, 0xff, 0xff, 0xff, 0xff];
    LowBytesBound(s[1..5], 0x1_0000_0000);
    var none: seq<Byte> := [];
    assert s[5..] == none && none[0..] == none && none + none[..0] == none;
    assert HeadOf(s) == (LiteralHead(0), 5);
    assert DecodeAll(s, none, 0) == DecodeAll(none, none, 0);
  }
}
