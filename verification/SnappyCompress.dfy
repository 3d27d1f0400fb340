/** The compressor: matching, the element writers, one fragment, and a whole input. */
module SnappyCompress {
  import opened Bytes
  import opened SnappyFormat
  import opened SnappyCopy
  import opened SnappyPlan
  import SnappyLaws

  // ----- matching -----

  // The first position, of eight, at which two words differ.
  method FirstDifference(a: seq<Byte>, b: seq<Byte>) returns (n: nat)
    requires |a| == |b| == 8 && a != b
    ensures n < 8 && a[..n] == b[..n] && a[n] != b[n]
  {
    n := 0;
    while n < 7 && a[n] == b[n]
      invariant n <= 7 && a[..n] == b[..n]
    {
      n := n + 1;
    }
    assert a == a[..7] + [a[7]] && b == b[..7] + [b[7]];
  }

  lemma RepeatsBlock(input: seq<Byte>, s2: nat, at: nat, n: nat, distance: nat)
    requires Repeats(input, s2, at, distance) && s2 <= at && at + n <= |input|
    requires input[at - distance..at - distance + n] == input[at..at + n]
    ensures Repeats(input, s2, at + n, distance)
  {
    forall j | at <= j < at + n
      ensures input[j] == input[j - distance]
    {
      assert input[j] == input[at..at + n][j - at] == input[at - distance..at - distance + n][j - at];
    }
  }

  // Compare the eight bytes after n that agree: how many of them agree too.
  method MatchBlock(input: seq<Byte>, s1: nat, s2: nat, n: nat) returns (d: nat)
    requires s1 < s2 && s2 + n + 8 <= |input| && Repeats(input, s2, s2 + n, s2 - s1)
    ensures d <= 8 && Repeats(input, s2, s2 + n + d, s2 - s1)
    ensures d == 8 || input[s1 + n + d] != input[s2 + n + d]
  {
    var a, b := input[s1 + n..s1 + n + 8], input[s2 + n..s2 + n + 8];
    if a == b {
      d := 8;
    } else {
      d := FirstDifference(a, b);
    }
    FrontOfBlock(input, s1 + n, d);
    FrontOfBlock(input, s2 + n, d);
    RepeatsBlock(input, s2, s2 + n, d, s2 - s1);
  }

  lemma FrontOfBlock(input: seq<Byte>, at: nat, d: nat)
    requires at + 8 <= |input| && d <= 8
    ensures input[at..at + 8][..d] == input[at..at + d]
  {
  }

  /** How many bytes at s1 and s2 agree, and whether that is under eight. */
  method FindMatchLength(input: seq<Byte>, s1: nat, s2: nat) returns (n: nat, short: bool)
    requires s1 < s2 <= |input|
    ensures Repeats(input, s2, s2 + n, s2 - s1)
    ensures s2 + n == |input| || input[s1 + n] != input[s2 + n]
    ensures short <==> n < 8
    ensures n == MatchLength(input, s1, s2)
  {
    n := 0;
    while s2 + n + 8 <= |input|
      invariant Repeats(input, s2, s2 + n, s2 - s1)
    {
      var d := MatchBlock(input, s1, s2, n);
      n := n + d;
      if d < 8 {
        MatchIs(input, s1, s2, n);
        return n, n < 8;
      }
    }
    while s2 + n < |input|
      invariant Repeats(input, s2, s2 + n, s2 - s1)
    {
      if input[s1 + n] != input[s2 + n] {
        MatchIs(input, s1, s2, n);
        return n, n < 8;
      }
      n := n + 1;
    }
    MatchIs(input, s1, s2, n);
    return n, n < 8;
  }

  lemma {:induction false} MatchIs(input: seq<Byte>, s1: nat, s2: nat, n: nat)
    requires s1 < s2 && s2 + n <= |input| && (s2 + n == |input| || input[s1 + n] != input[s2 + n])
    requires forall j :: s2 <= j < s2 + n ==> input[j] == input[j - (s2 - s1)]
    ensures n == MatchLength(input, s1, s2)
    decreases n
  {
    if n > 0 {
      assert input[s2] == input[s1];
      MatchIs(input, s1 + 1, s2 + 1, n - 1);
    }
  }

  // ----- writing elements -----

  // The bytes before op are as in `was`.
  ghost predicate Before(was: seq<Byte>, now: seq<Byte>, op: nat) {
    |was| == |now| && op <= |was| && now[..op] == was[..op]
  }

  method StoreBytes(out: array<Byte>, op: nat, data: seq<Byte>)
    requires op + |data| <= out.Length
    modifies out
    ensures Before(old(out[..]), out[..], op) && out[op..op + |data|] == data
  {
    forall k | 0 <= k < |data| {
      out[op + k] := data[k];
    }
  }

  // Write the length of a literal, less one, in as many bytes as it takes.
  method EmitLength(out: array<Byte>, op: nat, n0: nat) returns (end: nat, count: nat)
    requires 60 <= n0 < 0x1_0000 && op + 2 <= out.Length
    modifies out
    ensures count == LengthSize(n0) && end == op + count
    ensures Before(old(out[..]), out[..], op) && out[op..end] == LowBytes(n0, count)
  {
    var n := n0;
    end, count := op, 0;
    while n > 0
      invariant end == op + count && count <= 2 && Before(old(out[..]), out[..], op)
      invariant count == 0 ==> n == n0
      invariant count >= 1 ==> out[op] == n0 % 256 && (count == 1 ==> n == n0 / 256)
      invariant count == 2 ==> n == 0 && n0 >= 256 && out[op + 1] == n0 / 256
      decreases n
    {
      out[end] := n % 256;
      end := end + 1;
      n := n / 256;
      count := count + 1;
    }
    assert LowBytes(n0 / 256, 1) == [n0 / 256 % 256];
    assert LowBytes(n0, 1) == [n0 % 256];
    assert LowBytes(n0, 2) == [n0 % 256, n0 / 256 % 256];
  }

  // Tag byte and, for a long literal, the length after it.
  method EmitLiteralHead(out: array<Byte>, op: nat, ghost data: seq<Byte>, length: nat) returns (at: nat)
    requires 1 <= length <= 0x1_0000 && op + 3 <= out.Length && length == |data|
    modifies out
    ensures Before(old(out[..]), out[..], op) && op < at <= op + 3
    ensures at <= out.Length && out[op..at] + data == Encode(Literal(data))
  {
    var n := length - 1;
    if n < 60 {
      out[op] := n * 4;
      return op + 1;
    }
    var count;
    at, count := EmitLength(out, op + 1, n);
    ghost var low := out[op + 1..at];
    out[op] := (59 + count) * 4;
    assert out[op + 1..at] == low;
    assert out[op..at] == [out[op]] + low;
  }

  method EmitLiteral(out: array<Byte>, op: nat, input: seq<Byte>, literal: nat, length: nat, allowFastPath: bool)
      returns (end: nat)
    requires 1 <= length <= 0x1_0000 && literal + length <= |input|
    requires op + length + 3 <= out.Length && (allowFastPath && length <= 16 ==> op + 17 <= out.Length && literal + 16 <= |input|)
    modifies out
    ensures var e := Encode(Literal(input[literal..literal + length]));
            end == op + |e| && end <= out.Length && Before(old(out[..]), out[..], op) && out[op..end] == e
  {
    if allowFastPath && length <= 16 {
      SliceOfSlice(input, literal, literal + 16, 0, length);
      end := EmitShortLiteral(out, op, input[literal..literal + 16], length);
    } else {
      end := EmitLongLiteral(out, op, input[literal..literal + length]);
    }
  }

  lemma SliceOfSlice(s: seq<Byte>, from: nat, to: nat, a: nat, b: nat)
    requires from <= to <= |s| && a <= b <= to - from
    ensures s[from..to][a..b] == s[from + a..from + b]
  {
    assert |s[from..to][a..b]| == b - a == |s[from + a..from + b]|;
    forall k | 0 <= k < b - a
      ensures s[from..to][a..b][k] == s[from + a..from + b][k]
    {
    }
  }

  lemma FrontSplit(s: seq<Byte>, from: nat, to: nat)
    requires from < to <= |s|
    ensures s[from..to] == [s[from]] + s[from + 1..to]
  {
  }

  // Sixteen bytes are stored; the next element overwrites what is too much.
  method EmitShortLiteral(out: array<Byte>, op: nat, window: seq<Byte>, length: nat) returns (end: nat)
    requires 1 <= length <= 16 == |window| && op + 17 <= out.Length
    modifies out
    ensures var e := Encode(Literal(window[..length]));
            end == op + |e| && end <= out.Length && Before(old(out[..]), out[..], op) && out[op..end] == e
  {
    out[op] := (length - 1) * 4;
    ghost var was := out[..];
    StoreBytes(out, op + 1, window);
    end := op + 1 + length;
    BeforePart(was, out[..], op, op + 1);
    SliceOfSlice(out[..], op + 1, op + 17, 0, length);
    FrontSplit(out[..], op, end);
    assert was[op..op + 1] == [(length - 1) * 4];
  }

  method EmitLongLiteral(out: array<Byte>, op: nat, data: seq<Byte>) returns (end: nat)
    requires 1 <= |data| <= 0x1_0000 && op + |data| + 3 <= out.Length
    modifies out
    ensures var e := Encode(Literal(data));
            end == op + |e| && end <= out.Length && Before(old(out[..]), out[..], op) && out[op..end] == e
  {
    var at := EmitLiteralHead(out, op, data, |data|);
    ghost var was := out[..];
    StoreBytes(out, at, data);
    BeforePart(was, out[..], op, at);
    end := at + |data|;
    assert out[op..end] == out[op..at] + out[at..end];
  }

  lemma BeforePart(was: seq<Byte>, now: seq<Byte>, op: nat, at: nat)
    requires Before(was, now, at) && op <= at
    ensures Before(was, now, op) && was[op..at] == now[op..at]
  {
    assert was[op..at] == was[..at][op..] && now[op..at] == now[..at][op..];
    assert was[..op] == was[..at][..op] && now[..op] == now[..at][..op];
  }

  method EmitCopyAtMost64(out: array<Byte>, op: nat, offset: nat, length: nat, lengthUnder12: bool) returns (end: nat)
    requires Emittable(Copy(offset, length)) && op + 4 <= out.Length && lengthUnder12 == (length < 12)
    modifies out
    ensures var e := Encode(Copy(offset, length));
            end == op + |e| && |e| <= 3 && Before(old(out[..]), out[..], op) && out[op..end] == e
  {
    if lengthUnder12 && offset < 2048 {
      out[op] := 1 + (length - 4) * 4 + offset / 256 * 32;
      out[op + 1] := offset % 256;
      return op + 2;
    }
    // Four bytes are stored; the next element overwrites the last.
    var u := 2 + (length - 1) * 4 + offset * 256;
    StoreBytes(out, op, LowBytes(u, 4));
    CopyWord(offset, length);
    return op + 3;
  }

  lemma CopyWord(offset: nat, length: nat)
    requires Emittable(Copy(offset, length)) && !(length < 12 && offset < 2048)
    ensures LowBytes(2 + (length - 1) * 4 + offset * 256, 4)[..3] == Encode(Copy(offset, length))
  {
    var head := 2 + (length - 1) * 4;
    var u := head + offset * 256;
    assert u % 256 == head && u / 256 == offset;
    assert LowBytes(u, 4) == [head] + LowBytes(offset, 3);
    assert LowBytes(offset, 3) == [offset % 256] + LowBytes(offset / 256, 2);
    assert LowBytes(offset, 2) == [offset % 256] + LowBytes(offset / 256, 1);
    assert LowBytes(offset / 256, 2) == [offset / 256 % 256] + LowBytes(offset / 256 / 256, 1);
    assert LowBytes(offset / 256, 1) == [offset / 256 % 256];
  }

  // ----- what the bytes written so far stand for -----

  // A decoder that meets e after producing `before` has produced `data` once it is past it.
  ghost predicate DecodesTo(e: seq<Byte>, data: seq<Byte>, rest: seq<Byte>, before: seq<Byte>, limit: nat) {
    |before| + |data| <= limit ==> DecodeAll(e + rest, before, limit) == DecodeAll(rest, before + data, limit)
  }

  // Wherever a decoder meets e, it has produced `data` once it is past it.
  ghost predicate Codes(e: seq<Byte>, data: seq<Byte>) {
    forall rest, before, limit {:trigger DecodesTo(e, data, rest, before, limit)} :: DecodesTo(e, data, rest, before, limit)
  }

  lemma CodesNothing()
    ensures Codes([], [])
  {
    forall rest, before, limit
      ensures DecodesTo([], [], rest, before, limit)
    {
      assert [] + rest == rest && before + [] == before;
    }
  }

  lemma DecodesToConcat(e1: seq<Byte>, d1: seq<Byte>, e2: seq<Byte>, d2: seq<Byte>, rest: seq<Byte>, before: seq<Byte>, limit: nat)
    requires DecodesTo(e1, d1, e2 + rest, before, limit) && DecodesTo(e2, d2, rest, before + d1, limit)
    ensures DecodesTo(e1 + e2, d1 + d2, rest, before, limit)
  {
    assert e1 + e2 + rest == e1 + (e2 + rest) && before + (d1 + d2) == before + d1 + d2;
  }

  lemma CodesConcat(e1: seq<Byte>, d1: seq<Byte>, e2: seq<Byte>, d2: seq<Byte>)
    requires Codes(e1, d1) && Codes(e2, d2)
    ensures Codes(e1 + e2, d1 + d2)
  {
    forall rest, before, limit
      ensures DecodesTo(e1 + e2, d1 + d2, rest, before, limit)
    {
      assert DecodesTo(e1, d1, e2 + rest, before, limit) && DecodesTo(e2, d2, rest, before + d1, limit);
      DecodesToConcat(e1, d1, e2, d2, rest, before, limit);
    }
  }

  // A copy sees only what is behind it, so what comes before the data does not matter.
  lemma {:induction false} AppendCopyAfter(before: seq<Byte>, data: seq<Byte>, offset: nat, length: nat)
    requires 1 <= offset <= |data|
    ensures AppendCopy(before + data, offset, length) == before + AppendCopy(data, offset, length)
    decreases length
  {
    if length > 0 {
      var next := data + [data[|data| - offset]];
      assert before + data + [(before + data)[|before + data| - offset]] == before + next;
      AppendCopyAfter(before, next, offset, length - 1);
    }
  }

  lemma ApplyAfter(before: seq<Byte>, data: seq<Byte>, x: Element)
    requires Applies(x, data)
    ensures Applies(x, before + data) && Apply(x, before + data) == before + Apply(x, data) && |data| <= |Apply(x, data)|
  {
    if x.Copy? {
      AppendCopyAfter(before, data, x.offset, x.length);
    } else {
      assert before + data + x.data == before + (data + x.data);
    }
  }

  lemma DecodesElement(e: seq<Byte>, data: seq<Byte>, x: Element, rest: seq<Byte>, before: seq<Byte>, limit: nat)
    requires Emittable(x) && Applies(x, data) && DecodesTo(e, data, Encode(x) + rest, before, limit)
    ensures DecodesTo(e + Encode(x), Apply(x, data), rest, before, limit)
  {
    hide Encode, Apply, DecodeAll;
    ApplyAfter(before, data, x);
    assert e + Encode(x) + rest == e + (Encode(x) + rest);
    if |before| + |Apply(x, data)| <= limit {
      DecodeElement(x, rest, before + data, limit);
    }
  }

  lemma CodesElement(e: seq<Byte>, data: seq<Byte>, x: Element)
    requires Codes(e, data) && Emittable(x) && Applies(x, data)
    ensures Codes(e + Encode(x), Apply(x, data))
  {
    forall rest, before, limit
      ensures DecodesTo(e + Encode(x), Apply(x, data), rest, before, limit)
    {
      assert DecodesTo(e, data, Encode(x) + rest, before, limit);
      DecodesElement(e, data, x, rest, before, limit);
    }
  }

  // The bytes from op to end are those, and what was before op still is.
  ghost predicate Wrote(was: seq<Byte>, now: seq<Byte>, op: nat, end: nat, bytes: seq<Byte>) {
    Before(was, now, op) && end == op + |bytes| <= |now| && now[op..end] == bytes
  }

  lemma WroteNothing(out: seq<Byte>, op: nat)
    requires op <= |out|
    ensures Wrote(out, out, op, op, [])
  {
  }

  lemma WroteMore(was: seq<Byte>, then_: seq<Byte>, now: seq<Byte>, op: nat, at: nat, end: nat, a: seq<Byte>, b: seq<Byte>)
    requires Wrote(was, then_, op, at, a) && Wrote(then_, now, at, end, b)
    ensures Wrote(was, now, op, end, a + b)
  {
    BeforePart(then_, now, op, at);
    assert now[op..end] == now[op..at] + now[at..end];
  }

  // The bytes in [op0, op) stand for the first n bytes of the input, and are not many more than
  // that: a sixtieth, and one more after a literal that no copy follows.
  ghost predicate Compressed(out: seq<Byte>, op0: nat, op: nat, input: seq<Byte>, n: nat, slack: nat) {
    op0 <= op <= |out| && n <= |input| && Codes(out[op0..op], input[..n]) && 60 * (op - op0 - n) <= n + 60 * slack
  }

  lemma CompressedParts(out: seq<Byte>, op0: nat, op: nat, input: seq<Byte>, n: nat, slack: nat)
    requires Compressed(out, op0, op, input, n, slack)
    ensures op0 <= op <= |out| && n <= |input| && (slack == 0 ==> Compressed(out, op0, op, input, n, 1))
  {
  }

  // Room for the whole input, with its overhead, and for storing past the end of an element.
  ghost predicate Room(size: nat, op0: nat, n: nat) {
    60 * (size - op0 - n - 18) >= n
  }

  lemma ElementWritten(was: seq<Byte>, now: seq<Byte>, op0: nat, op: nat, end: nat, input: seq<Byte>, n: nat, to: nat, x: Element, slack: nat)
    requires Compressed(was, op0, op, input, n, slack) && Before(was, now, op) && n <= to <= |input|
    requires Emittable(x) && Applies(x, input[..n]) && Apply(x, input[..n]) == input[..to]
    requires end == op + |Encode(x)| && end <= |now| && now[op..end] == Encode(x)
    ensures Codes(now[op0..end], input[..to])
  {
    CodesElement(was[op0..op], input[..n], x);
    assert was[op0..op] == was[..op][op0..] == now[..op][op0..] == now[op0..op];
    assert now[op0..end] == now[op0..op] + now[op..end];
  }

  // What a literal takes besides its data.
  lemma LiteralOverhead(data: seq<Byte>)
    requires 1 <= |data| <= 0x1_0000
    ensures var extra := |Encode(Literal(data))| - |data|; 1 <= extra <= 3 && 60 * extra <= |data| + 60
  {
  }

  // Write input[from..ip] as a literal.
  method WriteLiteral(out: array<Byte>, op: nat, input: seq<Byte>, from: nat, ip: nat, allowFastPath: bool, ghost op0: nat)
      returns (end: nat)
    requires Room(out.Length, op0, |input|) && |input| <= 0x1_0000 && Compressed(out[..], op0, op, input, from, 0)
    requires from < ip <= |input| && (allowFastPath ==> from + 16 <= |input|)
    modifies out
    ensures Before(old(out[..]), out[..], op0) && Compressed(out[..], op0, end, input, ip, 1)
    ensures Wrote(old(out[..]), out[..], op, end, Encode(Literal(input[from..ip])))
  {
    hide Codes, Encode;
    ghost var was := out[..];
    end := EmitLiteral(out, op, input, from, ip - from, allowFastPath);
    ghost var x := Literal(input[from..ip]);
    LiteralOverhead(x.data);
    assert input[..from] + input[from..ip] == input[..ip];
    ElementWritten(was, out[..], op0, op, end, input, from, ip, x, 0);
  }

  // Write one copy of at most 64 bytes.
  method WriteCopy(out: array<Byte>, op: nat, input: seq<Byte>, ip: nat, offset: nat, length: nat, lengthUnder12: bool, ghost op0: nat)
      returns (end: nat)
    requires Room(out.Length, op0, |input|) && Compressed(out[..], op0, op, input, ip, 1)
    requires Emittable(Copy(offset, length)) && Repeats(input, ip, ip + length, offset)
    requires lengthUnder12 == (length < 12)
    modifies out
    ensures Before(old(out[..]), out[..], op0) && Compressed(out[..], op0, end, input, ip + length, 0)
    ensures Wrote(old(out[..]), out[..], op, end, Encode(Copy(offset, length)))
  {
    hide Codes, Encode;
    ghost var was := out[..];
    end := EmitCopyAtMost64(out, op, offset, length, lengthUnder12);
    RepeatsIsCopy(input, input, ip, ip + length, offset);
    ElementWritten(was, out[..], op0, op, end, input, ip, ip + length, Copy(offset, length), 1);
  }

  // Write a match of any length as copies of 4 to 64 bytes.
  method EmitCopy(out: array<Byte>, start: nat, input: seq<Byte>, ip: nat, offset: nat, length: nat, lengthUnder12: bool, ghost op0: nat)
      returns (op: nat)
    requires Room(out.Length, op0, |input|) && Compressed(out[..], op0, start, input, ip, 1)
    requires 1 <= offset < 0x1_0000 && 4 <= length && Repeats(input, ip, ip + length, offset)
    requires lengthUnder12 == (length < 12)
    modifies out
    ensures Before(old(out[..]), out[..], op0) && Compressed(out[..], op0, op, input, ip + length, 0)
    ensures Wrote(old(out[..]), out[..], start, op, CopyBytes(offset, length))
  {
    hide Compressed, Encode;
    op := start;
    if lengthUnder12 {
      op := WriteCopy(out, op, input, ip, offset, length, true, op0);
      return;
    }
    ghost var was := out[..];
    var at, left;
    op, at, left := EmitCopies64(out, start, input, ip, offset, length, op0);
    ghost var sofar, bytes := out[..], CopyBytes(offset, length)[..op - start];
    ghost var op1 := op;
    if left > 64 {
      op := WriteCopy(out, op, input, at, offset, 60, false, op0);
      WroteMore(was, sofar, out[..], start, op1, op, bytes, Encode(Copy(offset, 60)));
      CompressedParts(out[..], op0, op, input, at + 60, 0);
      bytes, sofar, op1 := bytes + Encode(Copy(offset, 60)), out[..], op;
      at, left := at + 60, left - 60;
    }
    op := WriteCopy(out, op, input, at, offset, left, left < 12, op0);
    WroteMore(was, sofar, out[..], start, op1, op, bytes, Encode(Copy(offset, left)));
  }

  lemma NextCopy(offset: nat, length: nat, written: seq<Byte>)
    requires 1 <= offset < 0x1_0000 && length >= 68
    ensures written + Encode(Copy(offset, 64)) + CopyBytes(offset, length - 64) == written + CopyBytes(offset, length)
  {
    hide Encode;
    assert CopyBytes(offset, length) == Encode(Copy(offset, 64)) + CopyBytes(offset, length - 64);
  }

  lemma RepeatsTail(input: seq<Byte>, from: nat, at: nat, to: nat, offset: nat)
    requires Repeats(input, from, to, offset) && from <= at <= to
    ensures Repeats(input, at, to, offset) && Repeats(input, from, at, offset)
  {
  }

  // Copies of 64 bytes, while that leaves at least four.
  method EmitCopies64(out: array<Byte>, start: nat, input: seq<Byte>, ip: nat, offset: nat, length: nat, ghost op0: nat)
      returns (op: nat, at: nat, left: nat)
    requires Room(out.Length, op0, |input|) && Compressed(out[..], op0, start, input, ip, 1)
    requires 1 <= offset < 0x1_0000 && 4 <= length && Repeats(input, ip, ip + length, offset)
    modifies out
    ensures Before(old(out[..]), out[..], op0) && Compressed(out[..], op0, op, input, at, 1)
    ensures 4 <= left < 68 && left <= length && ip <= at && at + left == ip + length && Repeats(input, at, at + left, offset)
    ensures start <= op && op - start + |CopyBytes(offset, left)| == |CopyBytes(offset, length)|
    ensures Wrote(old(out[..]), out[..], start, op, CopyBytes(offset, length)[..op - start])
    ensures CopyBytes(offset, length)[..op - start] + CopyBytes(offset, left) == CopyBytes(offset, length)
  {
    hide Compressed, Encode, CopyBytes, Room, Repeats;
    op, at, left := start, ip, length;
    ghost var written: seq<Byte> := [];
    ghost var all := CopyBytes(offset, length);
    CompressedParts(out[..], op0, start, input, ip, 1);
    WroteNothing(out[..], start);
    assert written + all == all;
    while left >= 68
      invariant 4 <= left <= length && at + left == ip + length && ip <= at
      invariant Before(old(out[..]), out[..], op0) && Compressed(out[..], op0, op, input, at, 1) && Repeats(input, at, at + left, offset)
      invariant Wrote(old(out[..]), out[..], start, op, written) && written + CopyBytes(offset, left) == all
    {
      ghost var sofar, op1 := out[..], op;
      RepeatsTail(input, at, at + 64, at + left, offset);
      op := WriteCopy(out, op, input, at, offset, 64, false, op0);
      CompressedParts(out[..], op0, op, input, at + 64, 0);
      WroteMore(old(out[..]), sofar, out[..], start, op1, op, written, Encode(Copy(offset, 64)));
      NextCopy(offset, left, written);
      written := written + Encode(Copy(offset, 64));
      at, left := at + 64, left - 64;
    }
    assert all[..op - start] == written;
  }

  // ----- one fragment -----

  // Look for four bytes seen before, ever less often.
  method Scan(input: seq<Byte>, start: nat, startHash: nat, table: array<Slot>, hash: Hash)
      returns (found: bool, ip: nat, candidate: nat)
    requires Hashes(hash) && 15 <= |input| <= 0x1_0000 && 1 <= start <= |input| - 4
    requires table.Length > 0 && AllBelow(table[..], start) && startHash == hash(Four(input, start), table.Length)
    modifies table
    ensures var r := ScanFrom(input, old(table[..]), hash, start, 32); if found then r == Found(ip, candidate, table[..]) else r == NoMatch
    ensures found ==> Repeats(input, ip, ip + 4, ip - candidate)
  {
    hide ScanFrom;
    ghost var r := ScanFrom(input, table[..], hash, start, 32);
    var ipLimit := |input| - INPUT_MARGIN;
    var skip, nextIp, nextHash := 32, start, startHash;
    while true
      invariant start <= nextIp <= |input| - 4 && skip >= 32 && AllBelow(table[..], nextIp)
      invariant nextHash == hash(Four(input, nextIp), table.Length)
      invariant r == ScanFrom(input, table[..], hash, nextIp, skip)
      decreases |input| - nextIp
    {
      ScanStep(input, table[..], hash, nextIp, skip);
      ip := nextIp;
      var slot := nextHash;
      var between := skip / 32;
      skip := skip + between;
      nextIp := ip + between;
      if nextIp > ipLimit {
        return false, ip, 0;
      }
      nextHash := hash(Four(input, nextIp), table.Length);
      candidate := table[slot];
      ghost var was: seq<Slot> := table[..];
      table[slot] := ip;
      assert table[..] == was[slot := ip];
      if Four(input, ip) == Four(input, candidate) {
        RepeatsBlock(input, ip, ip, 4, ip - candidate);
        return true, ip, candidate;
      }
    }
  }

  // Write the match at ip, and each match that begins where the last one ends.
  method EmitMatches(out: array<Byte>, start: nat, input: seq<Byte>, ip0: nat, candidate0: nat, table: array<Slot>,
                     hash: Hash, ghost op0: nat)
      returns (op: nat, ip: nat, done: bool, nextHash: nat, ghost bytes: seq<Byte>)
    requires Hashes(hash) && 15 <= |input| <= 0x1_0000 && table.Length > 0 && AllBelow(table[..], ip0 + 1)
    requires candidate0 < ip0 && Repeats(input, ip0, ip0 + 4, ip0 - candidate0)
    requires Room(out.Length, op0, |input|) && Compressed(out[..], op0, start, input, ip0, 1)
    modifies out, table
    ensures Before(old(out[..]), out[..], op0) && Compressed(out[..], op0, op, input, ip, 0) && ip0 < ip
    ensures done <==> ip + INPUT_MARGIN >= |input|
    ensures !done ==> AllBelow(table[..], ip + 1) && nextHash == hash(Four(input, ip + 1), table.Length)
    ensures ip <= |input| && Wrote(old(out[..]), out[..], start, op, bytes)
    ensures bytes + PlanBytes(input, if done then Tail(input, ip) else PiecesFrom(input, table[..], hash, ip)) ==
            PlanBytes(input, MatchesFrom(input, old(table[..]), hash, ip0, candidate0))
  {
    hide Compressed, Room, MatchesFrom, PiecesFrom, Tail, PlanBytes, CopyBytes, MatchLength, Wrote, Entered, Four;
    op, ip, done, nextHash, bytes := start, ip0, false, 0, [];
    ghost var all := PlanBytes(input, MatchesFrom(input, table[..], hash, ip0, candidate0));
    var candidate := candidate0;
    CompressedParts(out[..], op0, start, input, ip0, 1);
    WroteNothing(out[..], start);
    assert bytes + all == all;
    while true
      invariant ip0 <= ip && candidate < ip && Repeats(input, ip, ip + 4, ip - candidate) && AllBelow(table[..], ip + 1)
      invariant Before(old(out[..]), out[..], op0) && Compressed(out[..], op0, op, input, ip, 1)
      invariant Wrote(old(out[..]), out[..], start, op, bytes)
      invariant bytes + PlanBytes(input, MatchesFrom(input, table[..], hash, ip, candidate)) == all
      decreases |input| - ip
    {
      ghost var at, behind, sofar, op1 := ip, candidate, out[..], op;
      op, ip := EmitMatch(out, op, input, ip, candidate, op0);
      WroteMore(old(out[..]), sofar, out[..], start, op1, op, bytes, CopyBytes(at - behind, ip - at));
      MatchStep(input, table[..], hash, at, behind, bytes);
      bytes := bytes + CopyBytes(at - behind, ip - at);
      CompressedParts(out[..], op0, op, input, ip, 0);
      if ip + INPUT_MARGIN >= |input| {
        done := true;
        return;
      }
      var found;
      candidate, nextHash, found := LookUp(input, ip, table, hash);
      if !found {
        return;
      }
    }
  }

  // After a match: enter the last byte's position and the next one's, and see whether there is a
  // match there.
  method LookUp(input: seq<Byte>, ip: nat, table: array<Slot>, hash: Hash) returns (candidate: nat, nextHash: nat, found: bool)
    requires Hashes(hash) && |input| <= 0x1_0000 && table.Length > 0 && AllBelow(table[..], ip)
    requires 1 <= ip && ip + INPUT_MARGIN < |input|
    modifies table
    ensures candidate < ip && AllBelow(table[..], ip + 1)
    ensures found <==> Four(input, ip) == Four(input, candidate)
    ensures found ==> Repeats(input, ip, ip + 4, ip - candidate)
    ensures nextHash == hash(Four(input, ip + 1), table.Length)
    ensures (candidate, table[..]) == Entered(input, old(table[..]), hash, ip)
  {
    var bytes := input[ip - 1..ip + 7];
    SliceOfSlice(input, ip - 1, ip + 7, 0, 4);
    SliceOfSlice(input, ip - 1, ip + 7, 1, 5);
    SliceOfSlice(input, ip - 1, ip + 7, 2, 6);
    var previous := hash(bytes[0..4], table.Length);
    ghost var was: seq<Slot> := table[..];
    table[previous] := ip - 1;
    assert table[..] == was[previous := ip - 1];
    var current := hash(bytes[1..5], table.Length);
    candidate := table[current];
    ghost var then_: seq<Slot> := table[..];
    table[current] := ip;
    assert table[..] == then_[current := ip];
    found := bytes[1..5] == Four(input, candidate);
    if found {
      RepeatsBlock(input, ip, ip, 4, ip - candidate);
    }
    nextHash := hash(bytes[2..6], table.Length);
  }

  // Extend the match of four bytes at ip as far as it goes, and write it.
  method EmitMatch(out: array<Byte>, start: nat, input: seq<Byte>, ip0: nat, candidate: nat, ghost op0: nat)
      returns (op: nat, ip: nat)
    requires |input| <= 0x1_0000 && candidate < ip0 && Repeats(input, ip0, ip0 + 4, ip0 - candidate)
    requires Room(out.Length, op0, |input|) && Compressed(out[..], op0, start, input, ip0, 1)
    modifies out
    ensures Before(old(out[..]), out[..], op0) && Compressed(out[..], op0, op, input, ip, 0) && ip0 + 4 <= ip
    ensures ip == ip0 + 4 + MatchLength(input, candidate + 4, ip0 + 4)
    ensures ip0 - candidate < 0x1_0000 && Wrote(old(out[..]), out[..], start, op, CopyBytes(ip0 - candidate, ip - ip0))
  {
    hide Compressed, Encode, CopyBytes;
    var n, short := FindMatchLength(input, candidate + 4, ip0 + 4);
    op := EmitCopy(out, start, input, ip0, ip0 - candidate, 4 + n, short, op0);
    ip := ip0 + 4 + n;
  }

  // Write what no match covers up to a match, and the matches from there.
  method EmitFound(out: array<Byte>, op: nat, input: seq<Byte>, from: nat, at: nat, candidate: nat, table: array<Slot>, hash: Hash,
                   ghost op0: nat, ghost bytes: seq<Byte>, ghost was: seq<Byte>)
      returns (end: nat, ip: nat, done: bool, nextHash: nat, ghost more: seq<Byte>)
    requires Hashes(hash) && 15 <= |input| <= 0x1_0000 && table.Length > 0 && AllBelow(table[..], at + 1)
    requires from < at && from + 16 <= |input| && at <= |input| && candidate < at && Repeats(input, at, at + 4, at - candidate)
    requires Room(out.Length, op0, |input|) && Compressed(out[..], op0, op, input, from, 0) && Before(was, out[..], op0)
    requires Wrote(was, out[..], op0, op, bytes)
    modifies out, table
    ensures Before(was, out[..], op0) && Compressed(out[..], op0, end, input, ip, 0) && at < ip
    ensures done <==> ip + INPUT_MARGIN >= |input|
    ensures !done ==> AllBelow(table[..], ip + 1) && nextHash == hash(Four(input, ip + 1), table.Length)
    ensures ip <= |input| && Wrote(was, out[..], op0, end, bytes + Encode(Literal(input[from..at])) + more)
    ensures more + PlanBytes(input, if done then Tail(input, ip) else PiecesFrom(input, table[..], hash, ip)) ==
            PlanBytes(input, MatchesFrom(input, old(table[..]), hash, at, candidate))
  {
    hide Compressed, Room, MatchesFrom, PiecesFrom, Tail, PlanBytes, Wrote, Encode, Four, Entered, AllBelow;
    ghost var sofar := out[..];
    var mid := WriteLiteral(out, op, input, from, at, true, op0);
    WroteMore(was, sofar, out[..], op0, op, mid, bytes, Encode(Literal(input[from..at])));
    sofar := out[..];
    end, ip, done, nextHash, more := EmitMatches(out, mid, input, at, candidate, table, hash, op0);
    WroteMore(was, sofar, out[..], op0, mid, end, bytes + Encode(Literal(input[from..at])), more);
  }

  /** Compress one block of at most 65536 bytes at op: what is written are the bytes of the block's plan. They stand for the
      input, and take at most a sixtieth more, rounded, and one byte. Nothing before op changes. */
  method CompressFragment(input: seq<Byte>, out: array<Byte>, op: nat, table: array<Slot>, hash: Hash) returns (end: nat)
    requires Hashes(hash) && |input| <= 0x1_0000 && table.Length > 0 && AllBelow(table[..], 1)
    requires Room(out.Length, op, |input|)
    modifies out, table
    ensures Before(old(out[..]), out[..], op) && Compressed(out[..], op, end, input, |input|, 1)
    ensures Wrote(old(out[..]), out[..], op, end, PlanBytes(input, Plan(input, table.Length, hash)))
    // Equal bytes take at most three bytes for every 64, and five.
    ensures |input| >= 17 && (forall i :: 0 <= i < |input| ==> input[i] == input[0]) ==> end - op <= 5 + 3 * ((|input| - 1) / 64)
  {
    hide Compressed, Room, MatchesFrom, PiecesFrom, Tail, PlanBytes, Plan, Wrote, ScanFrom, Encode;
    end := op;
    var ip: nat, nextEmit: nat := 0, 0;
    ghost var all, bytes := PlanBytes(input, Plan(input, table.Length, hash)), [];
    Begins(out[..], op, input);
    assert bytes + all == all;
    PlanBegins(input, table[..], hash);
    if |input| >= INPUT_MARGIN {
      ip := 1;
      var nextHash := hash(Four(input, 1), table.Length);
      var done := false;
      while !done
        invariant nextEmit <= |input| && Before(old(out[..]), out[..], op) && Compressed(out[..], op, end, input, nextEmit, 0)
        invariant !done ==> nextEmit + 1 == ip <= |input| - 4 && AllBelow(table[..], ip)
        invariant !done ==> nextHash == hash(Four(input, ip), table.Length)
        invariant Wrote(old(out[..]), out[..], op, end, bytes)
        invariant bytes + PlanBytes(input, if done then Tail(input, nextEmit) else PiecesFrom(input, table[..], hash, nextEmit)) == all
        decreases !done, |input| - nextEmit
      {
        ghost var entered, from := table[..], nextEmit;
        var found, at, candidate := Scan(input, ip, nextHash, table, hash);
        PieceStep(input, entered, hash, from, bytes);
        if !found {
          break;
        }
        ghost var more;
        end, nextEmit, done, nextHash, more := EmitFound(out, end, input, nextEmit, at, candidate, table, hash, op, bytes, old(out[..]));
        bytes := bytes + Encode(Literal(input[from..at]));
        Assoc(bytes, more, PlanBytes(input, if done then Tail(input, nextEmit) else PiecesFrom(input, table[..], hash, nextEmit)));
        bytes := bytes + more;
        ip := nextEmit + 1;
      }
    }
    end, bytes := WriteTail(out, end, input, nextEmit, op, bytes, old(out[..]));
    EqualBytes(input, table.Length, hash, op, end, old(out[..]), out[..]);
  }

  lemma EqualBytes(input: seq<Byte>, slots: nat, hash: Hash, op: nat, end: nat, was: seq<Byte>, now: seq<Byte>)
    requires Hashes(hash) && |input| <= 0x1_0000 && slots > 0 && Wrote(was, now, op, end, PlanBytes(input, Plan(input, slots, hash)))
    ensures |input| >= 17 && (forall i :: 0 <= i < |input| ==> input[i] == input[0]) ==> end - op <= 5 + 3 * ((|input| - 1) / 64)
  {
    hide Plan, PlanBytes;
    if |input| >= 17 && forall i :: 0 <= i < |input| ==> input[i] == input[0] {
      assert input == SnappyLaws.Run(input[0], |input|);
      SnappyLaws.RunIsSmall(input[0], |input|, slots, hash);
    }
  }

  // Write what no match covers.
  method WriteTail(out: array<Byte>, op: nat, input: seq<Byte>, from: nat, ghost op0: nat, ghost bytes: seq<Byte>, ghost was: seq<Byte>)
      returns (end: nat, ghost all: seq<Byte>)
    requires Room(out.Length, op0, |input|) && |input| <= 0x1_0000 && from <= |input| && Compressed(out[..], op0, op, input, from, 0)
    requires Wrote(was, out[..], op0, op, bytes)
    modifies out
    ensures Before(was, out[..], op0) && Compressed(out[..], op0, end, input, |input|, 1)
    ensures Wrote(was, out[..], op0, end, all) && all == bytes + PlanBytes(input, Tail(input, from))
  {
    hide Compressed, Room;
    end, all := op, bytes;
    CompressedParts(out[..], op0, op, input, from, 0);
    TailBytes(input, from);
    if from < |input| {
      ghost var sofar := out[..];
      end := WriteLiteral(out, op, input, from, |input|, false, op0);
      all := bytes + Encode(Literal(input[from..|input|]));
      WroteMore(was, sofar, out[..], op0, op, end, bytes, Encode(Literal(input[from..|input|])));
    }
  }

  lemma Begins(out: seq<Byte>, op: nat, input: seq<Byte>)
    requires Room(|out|, op, |input|)
    ensures Compressed(out, op, op, input, 0, 0) && Wrote(out, out, op, op, [])
  {
    CodesNothing();
    assert out[op..op] == [] == input[..0];
  }
}
