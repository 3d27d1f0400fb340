/** The edits of the manifest: their bytes, and reading them back. */
module ManifestFormat {
  import opened Options
  import opened Bytes
  import opened Varints
  import opened WriteBatches

  const NUM_LEVELS := 7

  type LevelNumber = l: nat | l < NUM_LEVELS

  datatype FileMeta = FileMeta(number: Sequence, size: Sequence, smallest: seq<Byte>, largest: seq<Byte>)

  // One item of an encoded edit.
  datatype Field =
    | ComparatorName(name: seq<Byte>)
    | LogNumber(n: Sequence)
    | NextFileNumber(n: Sequence)
    | LastSequence(n: Sequence)
    | CompactPointer(level: LevelNumber, key: seq<Byte>)
    | DeletedFile(level: LevelNumber, number: Sequence)
    | NewFile(level: LevelNumber, file: FileMeta)
    | PrevLogNumber(n: Sequence)

  predicate FieldFits(f: Field) {
    match f
    case ComparatorName(name) => Fits(name)
    case CompactPointer(_, key) => Fits(key)
    case NewFile(_, file) => Fits(file.smallest) && Fits(file.largest)
    case _ => true
  }

  function Tag(f: Field): Byte {
    match f
    case ComparatorName(_) => 1
    case LogNumber(_) => 2
    case NextFileNumber(_) => 3
    case LastSequence(_) => 4
    case CompactPointer(_, _) => 5
    case DeletedFile(_, _) => 6
    case NewFile(_, _) => 7
    case PrevLogNumber(_) => 9
  }

  // What follows the tag.
  function Payload(f: Field): seq<Byte> {
    match f
    case ComparatorName(name) => Prefixed(name)
    case LogNumber(n) => Varint(n)
    case NextFileNumber(n) => Varint(n)
    case LastSequence(n) => Varint(n)
    case CompactPointer(level, key) => Varint(level) + Prefixed(key)
    case DeletedFile(level, number) => Varint(level) + Varint(number)
    case NewFile(level, file) =>
      Varint(level) + (Varint(file.number) + (Varint(file.size) + (Prefixed(file.smallest) + Prefixed(file.largest))))
    case PrevLogNumber(n) => Varint(n)
  }

  function EncodeField(f: Field): (s: seq<Byte>)
    ensures s != []
  {
    Varint(Tag(f)) + Payload(f)
  }

  // ----- reading -----

  // A value read from the front of a byte string, and how many bytes it takes.
  type Read<T> = Option<(T, nat)>

  function Varint64At(s: seq<Byte>): (r: Read<Sequence>)
    ensures r.Some? ==> 1 <= r.value.1 <= |s|
  {
    match VarintAt(s, 10)
    case None => None
    case Some((v, n)) => Some((v % 0x1_0000_0000_0000_0000, n))
  }

  function LevelAt(s: seq<Byte>): (r: Read<LevelNumber>)
    ensures r.Some? ==> 1 <= r.value.1 <= |s|
  {
    match Varint32At(s)
    case None => None
    case Some((v, n)) => if v < NUM_LEVELS then Some((v, n)) else None
  }

  // A field of one number.
  function NumberField(r: Read<Sequence>, make: Sequence -> Field): Read<Field> {
    match r
    case None => None
    case Some((n, size)) => Some((make(n), size))
  }

  function NewFileAt(s: seq<Byte>): (r: Read<Field>)
    ensures r.Some? ==> r.value.1 <= |s|
  {
    match LevelAt(s)
    case None => None
    case Some((level, a)) =>
      match Varint64At(s[a..])
      case None => None
      case Some((number, b)) =>
        match Varint64At(s[a..][b..])
        case None => None
        case Some((size, c)) =>
          match PrefixedAt(s[a..][b..][c..])
          case None => None
          case Some((smallest, d)) =>
            match PrefixedAt(s[a..][b..][c..][d..])
            case None => None
            case Some((largest, e)) => Some((NewFile(level, FileMeta(number, size, smallest, largest)), a + b + c + d + e))
  }

  // What follows a tag.
  function PayloadAt(tag: Word, s: seq<Byte>): (r: Read<Field>)
    ensures r.Some? ==> r.value.1 <= |s|
  {
    if tag == 1 then
      match PrefixedAt(s)
      case None => None
      case Some((name, n)) => Some((ComparatorName(name), n))
    else if tag == 2 then NumberField(Varint64At(s), (n: Sequence) => LogNumber(n))
    else if tag == 3 then NumberField(Varint64At(s), (n: Sequence) => NextFileNumber(n))
    else if tag == 4 then NumberField(Varint64At(s), (n: Sequence) => LastSequence(n))
    else if tag == 5 then
      match LevelAt(s)
      case None => None
      case Some((level, a)) =>
        match PrefixedAt(s[a..])
        case None => None
        case Some((key, b)) => Some((CompactPointer(level, key), a + b))
    else if tag == 6 then
      match LevelAt(s)
      case None => None
      case Some((level, a)) =>
        match Varint64At(s[a..])
        case None => None
        case Some((number, b)) => Some((DeletedFile(level, number), a + b))
    else if tag == 7 then NewFileAt(s)
    else if tag == 9 then NumberField(Varint64At(s), (n: Sequence) => PrevLogNumber(n))
    else None
  }

  // The field at the front of s. None when its tag cannot be read, is unknown, or what follows is malformed.
  function FieldAt(s: seq<Byte>): (r: Read<Field>)
    ensures r.Some? ==> 1 <= r.value.1 <= |s|
  {
    match Varint32At(s)
    case None => None
    case Some((tag, n)) =>
      match PayloadAt(tag, s[n..])
      case None => None
      case Some((f, m)) => Some((f, n + m))
  }

  // All the fields of an encoded edit.
  function FieldsIn(s: seq<Byte>): (r: Option<seq<Field>>)
    decreases |s|
  {
    if s == [] then Some([])
    else
      match FieldAt(s)
      case None => None
      case Some((f, n)) =>
        match FieldsIn(s[n..])
        case None => None
        case Some(fs) => Some([f] + fs)
  }

  // ----- round trip -----

  lemma Word32(v: Word, rest: seq<Byte>)
    ensures Varint32At(Varint(v) + rest) == Some((v, |Varint(v)|)) && (Varint(v) + rest)[|Varint(v)|..] == rest
  {
    VarintLength(v);
    VarintRoundTrip(v, rest, 5);
  }

  lemma Word64(v: Sequence, rest: seq<Byte>)
    ensures Varint64At(Varint(v) + rest) == Some((v, |Varint(v)|)) && (Varint(v) + rest)[|Varint(v)|..] == rest
  {
    VarintLength(v);
    VarintRoundTrip(v, rest, 10);
  }

  lemma Level(level: LevelNumber, rest: seq<Byte>)
    ensures LevelAt(Varint(level) + rest) == Some((level, |Varint(level)|)) && (Varint(level) + rest)[|Varint(level)|..] == rest
  {
    Word32(level, rest);
  }

  lemma Slice(s: seq<Byte>, rest: seq<Byte>)
    requires Fits(s)
    ensures PrefixedAt(Prefixed(s) + rest) == Some((s, |Prefixed(s)|)) && (Prefixed(s) + rest)[|Prefixed(s)|..] == rest
  {
    PrefixedRoundTrip(s, rest);
  }

  lemma Assoc(a: seq<Byte>, b: seq<Byte>, c: seq<Byte>)
    ensures a + b + c == a + (b + c)
  {
  }

  // The parts of a new-file field, one after the other.
  lemma NewFileParts(level: LevelNumber, file: FileMeta, rest: seq<Byte>)
    ensures var p5 := Prefixed(file.largest) + rest;
            var p4 := Prefixed(file.smallest) + p5;
            var p3 := Varint(file.size) + p4;
            var p2 := Varint(file.number) + p3;
            && Payload(NewFile(level, file)) + rest == Varint(level) + p2
            && |Payload(NewFile(level, file))| == |Varint(level)| + |Varint(file.number)| + |Varint(file.size)| + |Prefixed(file.smallest)| + |Prefixed(file.largest)|
  {
    hide Prefixed, Varint;
    var a, b, c, d, e := Varint(level), Varint(file.number), Varint(file.size), Prefixed(file.smallest), Prefixed(file.largest);
    Assoc(a, b + (c + (d + e)), rest);
    Assoc(b, c + (d + e), rest);
    Assoc(c, d + e, rest);
    Assoc(d, e, rest);
  }

  lemma NewFileRoundTrip(level: LevelNumber, file: FileMeta, rest: seq<Byte>)
    requires FieldFits(NewFile(level, file))
    ensures NewFileAt(Payload(NewFile(level, file)) + rest) == Some((NewFile(level, file), |Payload(NewFile(level, file))|))
  {
    hide Prefixed, Varint, Varint64At, LevelAt, PrefixedAt, Payload;
    var p5 := Prefixed(file.largest) + rest;
    var p4 := Prefixed(file.smallest) + p5;
    var p3 := Varint(file.size) + p4;
    var p2 := Varint(file.number) + p3;
    NewFileParts(level, file, rest);
    Level(level, p2);
    Word64(file.number, p3);
    Word64(file.size, p4);
    Slice(file.smallest, p5);
    Slice(file.largest, rest);
  }

  lemma PayloadRoundTrip(f: Field, rest: seq<Byte>)
    requires FieldFits(f)
    ensures PayloadAt(Tag(f), Payload(f) + rest) == Some((f, |Payload(f)|))
  {
    hide Prefixed, Varint, Varint64At, LevelAt, PrefixedAt, NewFileAt;
    match f {
      case ComparatorName(name) => Slice(name, rest);
      case CompactPointer(level, key) =>
        Assoc(Varint(level), Prefixed(key), rest);
        Level(level, Prefixed(key) + rest);
        Slice(key, rest);
      case DeletedFile(level, number) =>
        Assoc(Varint(level), Varint(number), rest);
        Level(level, Varint(number) + rest);
        Word64(number, rest);
      case NewFile(level, file) => NewFileRoundTrip(level, file, rest);
      case LogNumber(n) => Word64(n, rest);
      case NextFileNumber(n) => Word64(n, rest);
      case LastSequence(n) => Word64(n, rest);
      case PrevLogNumber(n) => Word64(n, rest);
    }
  }

  lemma FieldRoundTrip(f: Field, rest: seq<Byte>)
    requires FieldFits(f)
    ensures FieldAt(EncodeField(f) + rest) == Some((f, |EncodeField(f)|)) && (EncodeField(f) + rest)[|EncodeField(f)|..] == rest
  {
    hide Varint, Varint32At, PayloadAt, Payload;
    Assoc(Varint(Tag(f)), Payload(f), rest);
    Word32(Tag(f), Payload(f) + rest);
    PayloadRoundTrip(f, rest);
  }

  function EncodeFields(fs: seq<Field>): (s: seq<Byte>) {
    if fs == [] then [] else EncodeField(fs[0]) + EncodeFields(fs[1..])
  }

  ghost predicate AllFieldsFit(fs: seq<Field>) {
    forall i {:trigger fs[i]} :: 0 <= i < |fs| ==> FieldFits(fs[i])
  }

  /** Reading encoded fields gives them back. */
  lemma {:induction false} FieldsRoundTrip(fs: seq<Field>)
    requires AllFieldsFit(fs)
    ensures FieldsIn(EncodeFields(fs)) == Some(fs)
  {
    if fs != [] {
      FieldsRoundTrip(fs[1..]);
      FieldRoundTrip(fs[0], EncodeFields(fs[1..]));
      FieldsStep(fs[0], EncodeField(fs[0]), EncodeFields(fs[1..]), fs[1..]);
      assert [fs[0]] + fs[1..] == fs;
    }
  }

  lemma FieldsStep(f: Field, e: seq<Byte>, rest: seq<Byte>, fs: seq<Field>)
    requires e != [] && FieldAt(e + rest) == Some((f, |e|)) && (e + rest)[|e|..] == rest && FieldsIn(rest) == Some(fs)
    ensures FieldsIn(e + rest) == Some([f] + fs)
  {
    hide FieldAt;
  }

  lemma {:induction false} EncodeFieldsMore(fs: seq<Field>, f: Field)
    ensures EncodeFields(fs + [f]) == EncodeFields(fs) + EncodeField(f)
  {
    hide EncodeField;
    if fs == [] {
      assert fs + [f] == [f] && [f][1..] == [];
      assert EncodeField(f) + [] == EncodeField(f) && [] + EncodeField(f) == EncodeField(f);
    } else {
      assert (fs + [f])[1..] == fs[1..] + [f];
      EncodeFieldsMore(fs[1..], f);
      Assoc(EncodeField(fs[0]), EncodeFields(fs[1..]), EncodeField(f));
    }
  }
}

module VersionEdits {
  import opened Options
  import opened Bytes
  import opened Varints
  import opened WriteBatches
  import opened ManifestFormat

  // What an edit says.
  datatype Edit = Edit(comparator: Option<seq<Byte>>, logNumber: Option<Sequence>, prevLogNumber: Option<Sequence>,
                       nextFileNumber: Option<Sequence>, lastSequence: Option<Sequence>,
                       compactPointers: seq<(LevelNumber, seq<Byte>)>, deletedFiles: set<(LevelNumber, Sequence)>,
                       newFiles: seq<(LevelNumber, FileMeta)>)

  const EMPTY := Edit(None, None, None, None, None, [], {}, [])

  // An edit with one more field.
  function With(e: Edit, f: Field): Edit {
    match f
    case ComparatorName(name) => e.(comparator := Some(name))
    case LogNumber(n) => e.(logNumber := Some(n))
    case PrevLogNumber(n) => e.(prevLogNumber := Some(n))
    case NextFileNumber(n) => e.(nextFileNumber := Some(n))
    case LastSequence(n) => e.(lastSequence := Some(n))
    case CompactPointer(level, key) => e.(compactPointers := e.compactPointers + [(level, key)])
    case DeletedFile(level, number) => e.(deletedFiles := e.deletedFiles + {(level, number)})
    case NewFile(level, file) => e.(newFiles := e.newFiles + [(level, file)])
  }

  function WithAll(e: Edit, fs: seq<Field>): Edit {
    if fs == [] then e else With(WithAll(e, fs[..|fs| - 1]), fs[|fs| - 1])
  }

  lemma WithMore(e: Edit, fs: seq<Field>, f: Field)
    ensures WithAll(e, fs + [f]) == With(WithAll(e, fs), f)
  {
    assert (fs + [f])[..|fs|] == fs;
  }

  // The value is the last one that any of the things gives; none when none gives one.
  ghost predicate LastOf<E, T>(value: Option<T>, things: seq<E>, given: E -> Option<T>) {
    if value.None? then forall i :: 0 <= i < |things| ==> given(things[i]).None?
    else exists i :: 0 <= i < |things| && given(things[i]) == value && forall j :: i < j < |things| ==> given(things[j]).None?
  }

  lemma LastOfMore<E, T>(value: Option<T>, things: seq<E>, given: E -> Option<T>, thing: E)
    requires LastOf(value, things, given)
    ensures LastOf(if given(thing).Some? then given(thing) else value, things + [thing], given)
  {
    var more := things + [thing];
    if given(thing).Some? {
      assert given(more[|things|]) == given(thing);
    } else if value.Some? {
      var i :| 0 <= i < |things| && given(things[i]) == value && forall j :: i < j < |things| ==> given(things[j]).None?;
      assert given(more[i]) == value;
    }
  }

  /** Of several fields of a kind the last one counts. */
  lemma {:induction false} LastFieldCounts(fs: seq<Field>)
    ensures var e := WithAll(EMPTY, fs);
            && LastOf(e.comparator, fs, (f: Field) => if f.ComparatorName? then Some(f.name) else None)
            && LastOf(e.logNumber, fs, (f: Field) => if f.LogNumber? then Some(f.n) else None)
            && LastOf(e.prevLogNumber, fs, (f: Field) => if f.PrevLogNumber? then Some(f.n) else None)
            && LastOf(e.nextFileNumber, fs, (f: Field) => if f.NextFileNumber? then Some(f.n) else None)
            && LastOf(e.lastSequence, fs, (f: Field) => if f.LastSequence? then Some(f.n) else None)
  {
    hide LastOf;
    NothingGiven<Field, seq<Byte>>((f: Field) => if f.ComparatorName? then Some(f.name) else None);
    NothingGiven<Field, Sequence>((f: Field) => if f.LogNumber? then Some(f.n) else None);
    NothingGiven<Field, Sequence>((f: Field) => if f.PrevLogNumber? then Some(f.n) else None);
    NothingGiven<Field, Sequence>((f: Field) => if f.NextFileNumber? then Some(f.n) else None);
    NothingGiven<Field, Sequence>((f: Field) => if f.LastSequence? then Some(f.n) else None);
    if fs != [] {
      var before, f := fs[..|fs| - 1], fs[|fs| - 1];
      var e := WithAll(EMPTY, before);
      assert fs == before + [f];
      LastFieldCounts(before);
      LastOfMore(e.comparator, before, (f: Field) => if f.ComparatorName? then Some(f.name) else None, f);
      LastOfMore(e.logNumber, before, (f: Field) => if f.LogNumber? then Some(f.n) else None, f);
      LastOfMore(e.prevLogNumber, before, (f: Field) => if f.PrevLogNumber? then Some(f.n) else None, f);
      LastOfMore(e.nextFileNumber, before, (f: Field) => if f.NextFileNumber? then Some(f.n) else None, f);
      LastOfMore(e.lastSequence, before, (f: Field) => if f.LastSequence? then Some(f.n) else None, f);
    }
  }

  lemma NothingGiven<E, T>(given: E -> Option<T>)
    ensures LastOf(None, [], given)
  {
  }

  // Everything an edit holds can be written with 32-bit lengths.
  ghost predicate EditFits(e: Edit) {
    && (e.comparator.Some? ==> Fits(e.comparator.value))
    && (forall i :: 0 <= i < |e.compactPointers| ==> Fits(e.compactPointers[i].1))
    && (forall i :: 0 <= i < |e.newFiles| ==> Fits(e.newFiles[i].1.smallest) && Fits(e.newFiles[i].1.largest))
  }

  // ----- reading with loops -----

  // v shifted left by i groups of seven bits.
  function Shifted(v: nat, i: nat): nat {
    if i == 0 then v else 128 * Shifted(v, i - 1)
  }

  lemma {:induction false} ShiftedMore(b: nat, v: nat, i: nat)
    ensures Shifted(b + 128 * v, i) == Shifted(b, i) + Shifted(v, i + 1)
  {
    if i > 0 {
      ShiftedMore(b, v, i - 1);
    }
  }

  // What a number is when its first i bytes make up `low` and the rest is as given.
  function Extended(low: nat, i: nat, high: Option<(nat, nat)>): Option<(nat, nat)> {
    match high
    case None => None
    case Some((v, n)) => Some((low + Shifted(v, i), i + n))
  }

  lemma ByteMore(low: nat, i: nat, s: seq<Byte>)
    requires i < 10
    ensures Extended(low, i, VarintAt(s, 10 - i)) ==
            if s == [] then None
            else if s[0] < 128 then Some((low + Shifted(s[0], i), i + 1))
            else Extended(low + Shifted(s[0] - 128, i), i + 1, VarintAt(s[1..], 9 - i))
  {
    hide Shifted;
    if s != [] && s[0] >= 128 && VarintAt(s[1..], 9 - i).Some? {
      ShiftedMore(s[0] - 128, VarintAt(s[1..], 9 - i).value.0, i);
    }
  }

  /** Read a 64-bit number at the front of the input: ten bytes at most, bits past the 64th dropped. */
  method GetVarint64(input: seq<Byte>) returns (r: Read<Sequence>)
    ensures r == Varint64At(input)
  {
    hide Shifted, VarintAt, Extended;
    ghost var all := VarintAt(input, 10);
    var result: nat, i: nat := 0, 0;
    assert input[0..] == input;
    NothingRead(all);
    while i <= 9 && i < |input|
      invariant i <= 10 && i <= |input|
      invariant all == Extended(result, i, VarintAt(input[i..], 10 - i))
    {
      ByteMore(result, i, input[i..]);
      assert input[i..][1..] == input[i + 1..];
      var byte := input[i] as int;
      if byte < 128 {
        return Some(((result + Shifted(byte, i)) % 0x1_0000_0000_0000_0000, i + 1));
      }
      result := result + Shifted(byte - 128, i);
      i := i + 1;
    }
    NumberCutOff(result, i, input[i..]);
    return None;
  }

  lemma NothingRead(all: Option<(nat, nat)>)
    ensures all == Extended(0, 0, all)
  {
  }

  lemma NumberCutOff(low: nat, i: nat, s: seq<Byte>)
    requires i <= 10 && (s == [] || i == 10)
    ensures Extended(low, i, VarintAt(s, 10 - i)) == None
  {
  }

  method GetLevel(input: seq<Byte>) returns (r: Read<LevelNumber>)
    ensures r == LevelAt(input)
  {
    hide Varint32At;
    var v := GetVarint32Ptr(input, 0, |input|);
    assert input[0..|input|] == input;
    if v.None? || v.value.0 >= NUM_LEVELS {
      return None;
    }
    return Some((v.value.0, v.value.1));
  }

  // A field of one number.
  method NextNumber(input: seq<Byte>, make: Sequence -> Field) returns (r: Read<Field>)
    ensures r == NumberField(Varint64At(input), make)
  {
    hide Varint64At;
    var n := GetVarint64(input);
    if n.None? {
      return None;
    }
    return Some((make(n.value.0), n.value.1));
  }

  method NextNewFile(input: seq<Byte>) returns (r: Read<Field>)
    ensures r == NewFileAt(input)
  {
    hide Varint64At, LevelAt, PrefixedAt;
    var level := GetLevel(input);
    if level.None? {
      return None;
    }
    var left := input[level.value.1..];
    var number := GetVarint64(left);
    if number.None? {
      return None;
    }
    left := left[number.value.1..];
    var size := GetVarint64(left);
    if size.None? {
      return None;
    }
    left := left[size.value.1..];
    var smallest := GetLengthPrefixedSlice(left);
    if smallest.None? {
      return None;
    }
    left := left[smallest.value.1..];
    var largest := GetLengthPrefixedSlice(left);
    if largest.None? {
      return None;
    }
    return Some((NewFile(level.value.0, FileMeta(number.value.0, size.value.0, smallest.value.0, largest.value.0)),
                 level.value.1 + number.value.1 + size.value.1 + smallest.value.1 + largest.value.1));
  }

  method NextPointer(input: seq<Byte>) returns (r: Read<Field>)
    ensures r == PayloadAt(5, input)
  {
    hide LevelAt, PrefixedAt;
    var level := GetLevel(input);
    if level.None? {
      return None;
    }
    var key := GetLengthPrefixedSlice(input[level.value.1..]);
    if key.None? {
      return None;
    }
    return Some((CompactPointer(level.value.0, key.value.0), level.value.1 + key.value.1));
  }

  method NextDeleted(input: seq<Byte>) returns (r: Read<Field>)
    ensures r == PayloadAt(6, input)
  {
    hide LevelAt, Varint64At;
    var level := GetLevel(input);
    if level.None? {
      return None;
    }
    var number := GetVarint64(input[level.value.1..]);
    if number.None? {
      return None;
    }
    return Some((DeletedFile(level.value.0, number.value.0), level.value.1 + number.value.1));
  }

  // What follows a tag.
  method NextPayload(tag: Word, input: seq<Byte>) returns (r: Read<Field>)
    ensures r == PayloadAt(tag, input)
  {
    hide Varint64At, LevelAt, PrefixedAt, NewFileAt;
    match tag {
      case 1 =>
        var name := GetLengthPrefixedSlice(input);
        r := if name.Some? then Some((ComparatorName(name.value.0), name.value.1)) else None;
      case 2 => r := NextNumber(input, (n: Sequence) => LogNumber(n));
      case 3 => r := NextNumber(input, (n: Sequence) => NextFileNumber(n));
      case 4 => r := NextNumber(input, (n: Sequence) => LastSequence(n));
      case 5 => r := NextPointer(input);
      case 6 => r := NextDeleted(input);
      case 7 => r := NextNewFile(input);
      case 9 => r := NextNumber(input, (n: Sequence) => PrevLogNumber(n));
      case _ => r := None;
    }
  }

  class VersionEdit {
    var edit: Edit

    constructor ()
      ensures edit == EMPTY
    {
      edit := EMPTY;
    }

    // Compaction pointers stay.
    method Clear()
      modifies this
      ensures edit == EMPTY.(compactPointers := old(edit).compactPointers)
    {
      edit := EMPTY.(compactPointers := edit.compactPointers);
    }

    // The bytes written so far are fields that make up `sofar`.
    static ghost predicate Written(dst: seq<Byte>, fs: seq<Field>, sofar: Edit) {
      dst == EncodeFields(fs) && AllFieldsFit(fs) && WithAll(EMPTY, fs) == sofar
    }

    static method Put(dst: seq<Byte>, f: Field, ghost fs: seq<Field>, ghost sofar: Edit)
        returns (more: seq<Byte>, ghost fs': seq<Field>)
      requires Written(dst, fs, sofar) && FieldFits(f)
      ensures Written(more, fs', With(sofar, f))
    {
      hide EncodeField, EncodeFields, WithAll, With, FieldFits;
      more := dst + EncodeField(f);
      fs' := fs + [f];
      EncodeFieldsMore(fs, f);
      WithMore(EMPTY, fs, f);
    }

    /** Write the edit, field by field. Deleted files come in no particular order. */
    method EncodeTo() returns (dst: seq<Byte>)
      requires EditFits(edit)
      ensures FieldsIn(dst).Some? && WithAll(EMPTY, FieldsIn(dst).value) == edit
    {
      hide FieldsIn, Written, WithAll;
      ghost var fs: seq<Field>;
      dst, fs := EncodeNumbers();
      ghost var e := edit.(compactPointers := [], deletedFiles := {}, newFiles := []);
      dst, fs := EncodePointers(dst, fs, e);
      e := e.(compactPointers := edit.compactPointers);
      var left := edit.deletedFiles;
      assert edit.deletedFiles - left == {} && e.(deletedFiles := {}) == e;
      while left != {}
        invariant left <= edit.deletedFiles && Written(dst, fs, e.(deletedFiles := edit.deletedFiles - left))
        decreases |left|
      {
        var d :| d in left;
        dst, fs := Put(dst, DeletedFile(d.0, d.1), fs, e.(deletedFiles := edit.deletedFiles - left));
        assert edit.deletedFiles - left + {d} == edit.deletedFiles - (left - {d});
        left := left - {d};
      }
      assert edit.deletedFiles - {} == edit.deletedFiles;
      e := e.(deletedFiles := edit.deletedFiles);
      dst, fs := EncodeNewFiles(dst, fs, e);
      ReadBack(dst, fs, edit);
    }

    static lemma ReadBack(dst: seq<Byte>, fs: seq<Field>, e: Edit)
      requires Written(dst, fs, e)
      ensures FieldsIn(dst).Some? && WithAll(EMPTY, FieldsIn(dst).value) == e
    {
      FieldsRoundTrip(fs);
    }

    method EncodeNumbers() returns (dst: seq<Byte>, ghost fs: seq<Field>)
      requires EditFits(edit)
      ensures Written(dst, fs, edit.(compactPointers := [], deletedFiles := {}, newFiles := []))
    {
      dst, fs := [], [];
      ghost var e := EMPTY;
      if edit.comparator.Some? {
        dst, fs := Put(dst, ComparatorName(edit.comparator.value), fs, e);
        e := e.(comparator := edit.comparator);
      }
      if edit.logNumber.Some? {
        dst, fs := Put(dst, LogNumber(edit.logNumber.value), fs, e);
        e := e.(logNumber := edit.logNumber);
      }
      if edit.prevLogNumber.Some? {
        dst, fs := Put(dst, PrevLogNumber(edit.prevLogNumber.value), fs, e);
        e := e.(prevLogNumber := edit.prevLogNumber);
      }
      if edit.nextFileNumber.Some? {
        dst, fs := Put(dst, NextFileNumber(edit.nextFileNumber.value), fs, e);
        e := e.(nextFileNumber := edit.nextFileNumber);
      }
      if edit.lastSequence.Some? {
        dst, fs := Put(dst, LastSequence(edit.lastSequence.value), fs, e);
      }
    }

    method EncodePointers(before: seq<Byte>, ghost fs0: seq<Field>, ghost e: Edit) returns (dst: seq<Byte>, ghost fs: seq<Field>)
      requires EditFits(edit) && Written(before, fs0, e) && e.compactPointers == []
      ensures Written(dst, fs, e.(compactPointers := edit.compactPointers))
    {
      hide Written, FieldsIn;
      dst, fs := before, fs0;
      for i := 0 to |edit.compactPointers|
        invariant Written(dst, fs, e.(compactPointers := edit.compactPointers[..i]))
      {
        var (level, key) := edit.compactPointers[i];
        dst, fs := Put(dst, CompactPointer(level, key), fs, e.(compactPointers := edit.compactPointers[..i]));
        assert edit.compactPointers[..i + 1] == edit.compactPointers[..i] + [(level, key)];
      }
      assert edit.compactPointers[..|edit.compactPointers|] == edit.compactPointers;
    }

    method EncodeNewFiles(before: seq<Byte>, ghost fs0: seq<Field>, ghost e: Edit) returns (dst: seq<Byte>, ghost fs: seq<Field>)
      requires EditFits(edit) && Written(before, fs0, e) && e.newFiles == []
      ensures Written(dst, fs, e.(newFiles := edit.newFiles))
    {
      hide Written, FieldsIn;
      dst, fs := before, fs0;
      for i := 0 to |edit.newFiles|
        invariant Written(dst, fs, e.(newFiles := edit.newFiles[..i]))
      {
        var (level, file) := edit.newFiles[i];
        dst, fs := Put(dst, NewFile(level, file), fs, e.(newFiles := edit.newFiles[..i]));
        assert edit.newFiles[..i + 1] == edit.newFiles[..i] + [(level, file)];
      }
      assert edit.newFiles[..|edit.newFiles|] == edit.newFiles;
    }

    /** Read an edit. What is malformed is refused. Compaction pointers from before stay, so the edit should be new. */
    method DecodeFrom(src: seq<Byte>) returns (ok: bool)
      modifies this
      ensures ok <==> FieldsIn(src).Some?
      ensures ok ==> edit == WithAll(EMPTY.(compactPointers := old(edit).compactPointers), FieldsIn(src).value)
    {
      hide FieldsIn, FieldAt, With, Reading;
      Clear();
      ghost var start := edit;
      var input := src;
      ghost var fs: seq<Field> := [];
      ReadMore(src, [], src);
      while input != []
        invariant Reading(src, fs, input) && edit == WithAll(start, fs)
        decreases |input|
      {
        ReadMore(src, fs, input);
        var field := NextField(input);
        if field.None? {
          return false;
        }
        var (f, n) := field.value;
        edit := With(edit, f);
        WithMore(start, fs, f);
        input := input[n..];
        fs := fs + [f];
      }
      ReadMore(src, fs, input);
      ok := true;
    }

    // Read the field at the front of the input.
    static method NextField(input: seq<Byte>) returns (r: Option<(Field, nat)>)
      ensures r == FieldAt(input)
    {
      hide PayloadAt, Varint32At;
      var tag := GetVarint32Ptr(input, 0, |input|);
      assert input[0..|input|] == input;
      if tag.None? {
        return None;
      }
      var (t, n) := tag.value;
      var payload := NextPayload(t, input[n..]);
      if payload.None? {
        return None;
      }
      var (f, m) := payload.value;
      return Some((f, n + m));
    }

    // The fields of the source are those read and those in the input.
    static ghost predicate Reading(src: seq<Byte>, fs: seq<Field>, input: seq<Byte>) {
      FieldsIn(src) == match FieldsIn(input) case None => None case Some(rest) => Some(fs + rest)
    }

    static lemma ReadMore(src: seq<Byte>, fs: seq<Field>, input: seq<Byte>)
      ensures Reading(src, [], src)
      ensures Reading(src, fs, input) ==>
                if input == [] then FieldsIn(src) == Some(fs)
                else if FieldAt(input) == None then FieldsIn(src) == None
                else Reading(src, fs + [FieldAt(input).value.0], input[FieldAt(input).value.1..])
    {
      hide FieldAt;
      assert FieldsIn(src).Some? ==> [] + FieldsIn(src).value == FieldsIn(src).value;
      assert fs + [] == fs;
      if input != [] && FieldAt(input).Some? {
        var (f, n) := FieldAt(input).value;
        assert FieldsIn(input[n..]).Some? ==> fs + ([f] + FieldsIn(input[n..]).value) == fs + [f] + FieldsIn(input[n..]).value;
      }
    }
  }

  /** Round trip: decoding an encoded edit into a new one gives it back. */
  method EncodeThenDecode(e: VersionEdit) returns (d: VersionEdit, ok: bool)
    requires EditFits(e.edit)
    ensures ok && d.edit == e.edit
  {
    var bytes := e.EncodeTo();
    d := new VersionEdit();
    ok := d.DecodeFrom(bytes);
  }
}
