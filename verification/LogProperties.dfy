/** What the log promises: records come back, a torn tail loses only the last record, and damage to
    one block stays in that block. */
module LogProperties {
  import opened Options
  import opened Bytes
  import opened Checksums
  import opened LogFormat
  import opened Log

  // A place in the file: the start of a block and an offset in it.
  datatype Place = Place(b: nat, o: Offset) {
    function Pos(): nat {
      b + o
    }

    // The place of the next header.
    function Header(): Place {
      if BLOCK_SIZE - o < HEADER_SIZE then Place(b + BLOCK_SIZE, 0) else this
    }

    function Past(f: Physical): Place
      requires |f.payload| <= Room(o)
    {
      Place(Header().b, After(o, f))
    }

    function PastAll(fs: seq<Physical>): Place
      requires Fit(o, fs)
      decreases |fs|
    {
      if fs == [] then this else Past(fs[0]).PastAll(fs[1..])
    }
  }

  ghost predicate At(file: seq<Byte>, p: nat, bytes: seq<Byte>) {
    p + |bytes| <= |file| && file[p..p + |bytes|] == bytes
  }

  // The file ends inside the bytes, as far as they go from p.
  ghost predicate TornAt(file: seq<Byte>, p: nat, bytes: seq<Byte>) {
    p <= |file| < p + |bytes| && file[p..] <= bytes
  }

  ghost function Scan(crc: Checksum, file: seq<Byte>, q: Place): seq<Event>
    requires q.Pos() <= |file|
  {
    Events(crc, file, q.b, q.Pos())
  }

  function Found(fs: seq<Physical>): seq<Event> {
    if fs == [] then [] else [Fragment(fs[0])] + Found(fs[1..])
  }

  // ----- one physical record -----

  lemma WellFormedHeader(crc: Checksum, f: Physical, buffer: seq<Byte>)
    requires |f.payload| < 0x1_0000 && f.kind != ZERO_TYPE && Header(crc, f) + f.payload <= buffer
    ensures ProblemIn(crc, buffer) == None && PhysicalIn(buffer) == f
  {
    var all := Header(crc, f) + f.payload;
    assert buffer[..4] == all[..4] == crc([f.kind] + f.payload);
    assert buffer[4..6] == all[4..6] == LengthBytes(|f.payload|);
    assert buffer[6] == all[6] == f.kind;
    assert buffer[HEADER_SIZE..HEADER_SIZE + |f.payload|] == all[HEADER_SIZE..HEADER_SIZE + |f.payload|] == f.payload;
  }

  lemma ScanHeader(crc: Checksum, file: seq<Byte>, q: Place, f: Physical)
    requires q.o + HEADER_SIZE + |f.payload| <= BLOCK_SIZE && f.kind != ZERO_TYPE
    requires At(file, q.Pos(), Header(crc, f) + f.payload)
    ensures q.Pos() + HEADER_SIZE + |f.payload| <= |file|
    ensures Scan(crc, file, q) == [Fragment(f)] + Scan(crc, file, Place(q.b, q.o + HEADER_SIZE + |f.payload|))
  {
    var p, e := q.Pos(), BlockEnd(file, q.b);
    var all := Header(crc, f) + f.payload;
    assert file[p..e][..|all|] == file[p..p + |all|] == all;
    WellFormedHeader(crc, f, file[p..e]);
  }

  lemma ChunkParts(crc: Checksum, o: Offset, f: Physical)
    requires |f.payload| <= Room(o)
    ensures Chunk(crc, o, f) == Zeros(Pad(o)) + (Header(crc, f) + f.payload)
  {
  }

  lemma AtSecond(file: seq<Byte>, p: nat, a: seq<Byte>, b: seq<Byte>)
    requires At(file, p, a + b)
    ensures At(file, p + |a|, b) && p + |a| + |b| <= |file|
  {
    assert file[p + |a|..p + |a| + |b|] == file[p..p + |a + b|][|a|..];
  }

  // A whole physical record is found, and the scan goes on after it.
  lemma ScanChunk(crc: Checksum, file: seq<Byte>, q: Place, f: Physical)
    requires |f.payload| <= Room(q.o) && f.kind != ZERO_TYPE && At(file, q.Pos(), Chunk(crc, q.o, f))
    ensures q.Past(f).Pos() == q.Pos() + |Chunk(crc, q.o, f)| <= |file|
    ensures Scan(crc, file, q) == [Fragment(f)] + Scan(crc, file, q.Past(f))
  {
    hide Events, At;
    ChunkParts(crc, q.o, f);
    AtSecond(file, q.Pos(), Zeros(Pad(q.o)), Header(crc, f) + f.payload);
    if BLOCK_SIZE - q.o < HEADER_SIZE {
      SkipTrailer(crc, file, q.b, q.Pos());
    }
    ScanHeader(crc, file, q.Header(), f);
  }

  // A torn physical record reads as the end of the file.
  lemma ScanTorn(crc: Checksum, file: seq<Byte>, q: Place, f: Physical)
    requires |f.payload| <= Room(q.o) && f.kind != ZERO_TYPE && TornAt(file, q.Pos(), Chunk(crc, q.o, f))
    ensures Scan(crc, file, q) == []
  {
    if BLOCK_SIZE - q.o < HEADER_SIZE {
      SkipTrailer(crc, file, q.b, q.Pos());
    }
    if q.Header().Pos() <= |file| {
      TornHeader(crc, file, q, f);
    }
  }

  // A header that is whole says how long the payload is that is not.
  lemma TornLength(crc: Checksum, file: seq<Byte>, q: Place, f: Physical)
    requires |f.payload| <= Room(q.o) && TornAt(file, q.Pos(), Chunk(crc, q.o, f)) && q.Header().Pos() + HEADER_SIZE <= |file|
    ensures ProblemIn(crc, file[q.Header().Pos()..]) == Some(BadLength)
  {
    hide Events;
    var p, h := q.Pos(), q.Header();
    var chunk := Chunk(crc, q.o, f);
    var buffer := file[h.Pos()..];
    assert buffer[4..6] == file[p..][Pad(q.o) + 4..Pad(q.o) + 6] == chunk[Pad(q.o) + 4..Pad(q.o) + 6];
    assert chunk[Pad(q.o) + 4..Pad(q.o) + 6] == Header(crc, f)[4..6] == LengthBytes(|f.payload|);
  }

  lemma TornHeader(crc: Checksum, file: seq<Byte>, q: Place, f: Physical)
    requires |f.payload| <= Room(q.o) && TornAt(file, q.Pos(), Chunk(crc, q.o, f)) && q.Header().Pos() <= |file|
    ensures Scan(crc, file, q.Header()) == []
  {
    var h := q.Header();
    assert BlockEnd(file, h.b) == |file|;
    if h.Pos() + HEADER_SIZE <= |file| {
      TornLength(crc, file, q, f);
      assert file[h.Pos()..BlockEnd(file, h.b)] == file[h.Pos()..];
    }
  }

  // At the end of the file nothing is found.
  lemma ScanEnd(crc: Checksum, file: seq<Byte>, q: Place)
    requires q.Pos() == |file|
    ensures Scan(crc, file, q) == []
  {
    if q.o == BLOCK_SIZE {
      SkipTrailer(crc, file, q.b, q.Pos());
    }
  }

  // ----- the physical records of one record -----

  predicate Kinds(fs: seq<Physical>) {
    forall i :: 0 <= i < |fs| ==> fs[i].kind != ZERO_TYPE
  }

  // The kinds that the format has.
  predicate OfFormat(fs: seq<Physical>) {
    forall i :: 0 <= i < |fs| ==> FULL_TYPE <= fs[i].kind <= LAST_TYPE
  }

  lemma {:induction false} FoundGoesOn(fs: seq<Physical>)
    requires OfFormat(fs)
    ensures GoesOn(Found(fs))
  {
    if fs != [] {
      FoundGoesOn(fs[1..]);
    }
  }

  // The kinds of the fragments of one record, from its beginning or from somewhere inside.
  predicate Kinded(fs: seq<Physical>, begin: bool) {
    fs != [] && fs[0].kind == KindOf(begin, |fs| == 1) && (|fs| > 1 ==> Kinded(fs[1..], false))
  }

  function Payload(fs: seq<Physical>): Record {
    if fs == [] then [] else fs[0].payload + Payload(fs[1..])
  }

  lemma {:induction false} FragmentsCarry(o: Offset, data: Record, begin: bool)
    ensures Kinded(Fragments(o, data, begin), begin) && Payload(Fragments(o, data, begin)) == data
    decreases |data|, if Room(o) == 0 then 1 else 0
  {
    var f := FirstFragment(o, data, begin);
    var rest := data[|f.payload|..];
    FragmentsStep(o, data, begin);
    if rest != [] {
      var fs := Fragments(After(o, f), rest, false);
      FragmentsCarry(After(o, f), rest, false);
      assert ([f] + fs)[1..] == fs;
    } else {
      assert [f][1..] == [];
    }
  }

  lemma {:induction false} KindedKinds(fs: seq<Physical>, begin: bool)
    requires Kinded(fs, begin)
    ensures Kinds(fs) && OfFormat(fs)
  {
    if |fs| > 1 {
      KindedKinds(fs[1..], false);
      forall i | 1 <= i < |fs| ensures FULL_TYPE <= fs[i].kind <= LAST_TYPE {
        assert fs[i] == fs[1..][i - 1];
      }
    }
  }

  lemma FragmentKinds(o: Offset, data: Record, begin: bool)
    ensures Kinds(Fragments(o, data, begin)) && OfFormat(Fragments(o, data, begin))
  {
    FragmentsCarry(o, data, begin);
    KindedKinds(Fragments(o, data, begin), begin);
  }

  lemma SplitAt(file: seq<Byte>, p: nat, a: seq<Byte>, b: seq<Byte>)
    requires At(file, p, a + b)
    ensures At(file, p, a) && At(file, p + |a|, b)
  {
    assert file[p..p + |a|] == file[p..p + |a + b|][..|a|];
    assert file[p + |a|..p + |a| + |b|] == file[p..p + |a + b|][|a|..];
  }

  lemma SplitTorn(file: seq<Byte>, p: nat, a: seq<Byte>, b: seq<Byte>)
    requires TornAt(file, p, a + b)
    ensures |file| < p + |a| ==> TornAt(file, p, a)
    ensures |file| >= p + |a| ==> At(file, p, a) && TornAt(file, p + |a|, b)
  {
    var rest := file[p..];
    assert rest == (a + b)[..|rest|];
    if |file| >= p + |a| {
      assert file[p..p + |a|] == rest[..|a|] == a;
      assert file[p + |a|..] == rest[|a|..] == b[..|rest| - |a|];
    } else {
      assert rest == a[..|rest|];
    }
  }

  // Physical records laid out in full are all found.
  lemma {:induction false} ScanAll(crc: Checksum, file: seq<Byte>, q: Place, fs: seq<Physical>)
    requires Fit(q.o, fs) && Kinds(fs) && At(file, q.Pos(), Layout(crc, q.o, fs))
    ensures q.PastAll(fs).Pos() == q.Pos() + |Layout(crc, q.o, fs)| <= |file|
    ensures q.PastAll(fs).o == AfterAll(q.o, fs)
    ensures Scan(crc, file, q) == Found(fs) + Scan(crc, file, q.PastAll(fs))
    decreases |fs|
  {
    if fs != [] {
      var chunk, rest := Chunk(crc, q.o, fs[0]), Layout(crc, After(q.o, fs[0]), fs[1..]);
      SplitAt(file, q.Pos(), chunk, rest);
      ScanChunk(crc, file, q, fs[0]);
      ScanAll(crc, file, q.Past(fs[0]), fs[1..]);
    }
  }

  // Of a torn layout, the physical records before the tear are found.
  lemma {:induction false} ScanAllTorn(crc: Checksum, file: seq<Byte>, q: Place, fs: seq<Physical>) returns (m: nat)
    requires Fit(q.o, fs) && Kinds(fs) && TornAt(file, q.Pos(), Layout(crc, q.o, fs))
    ensures m < |fs| && Scan(crc, file, q) == Found(fs[..m])
    decreases |fs|
  {
    var chunk, rest := Chunk(crc, q.o, fs[0]), Layout(crc, After(q.o, fs[0]), fs[1..]);
    SplitTorn(file, q.Pos(), chunk, rest);
    if |file| < q.Pos() + |chunk| {
      ScanTorn(crc, file, q, fs[0]);
      m := 0;
    } else {
      ScanChunk(crc, file, q, fs[0]);
      m := ScanAllTorn(crc, file, q.Past(fs[0]), fs[1..]);
      m := m + 1;
      assert fs[..m][1..] == fs[1..][..m - 1];
    }
  }

  // ----- putting one record together -----

  // What is unfinished before a fragment: nothing, or the data got so far.
  function Got(begin: bool, got: Record): Option<Record> {
    if begin then None else Some(got)
  }

  lemma FeedFirst(e: Event, es: seq<Event>, st: Option<Record>)
    requires !Ends(e)
    ensures var (done, st1, n) := Accept(st, e);
            var (records, st2, m) := Feed(es, st1);
            Feed([e] + es, st) == ((if done.Some? then [done.value] else []) + records, st2, n + m)
  {
    assert ([e] + es)[1..] == es;
  }

  // What the first fragment of a record does.
  lemma AcceptFragment(fs: seq<Physical>, begin: bool, got: Record)
    requires Kinded(fs, begin) && (begin ==> got == [])
    ensures Accept(Got(begin, got), Fragment(fs[0])) ==
            if |fs| == 1 then (Some(got + fs[0].payload), None, 0) else (None, Some(got + fs[0].payload), 0)
  {
    assert begin ==> got + fs[0].payload == fs[0].payload;
  }

  // All fragments of a record give the record back, without a report.
  lemma {:induction false} FeedRecord(fs: seq<Physical>, begin: bool, got: Record)
    requires Kinded(fs, begin) && (begin ==> got == [])
    ensures Feed(Found(fs), Got(begin, got)) == ([got + Payload(fs)], None, 0)
  {
    var whole := got + Payload(fs);
    assert got + fs[0].payload + Payload(fs[1..]) == whole;
    AcceptFragment(fs, begin, got);
    FeedFirst(Fragment(fs[0]), Found(fs[1..]), Got(begin, got));
    if |fs| > 1 {
      FeedRecord(fs[1..], false, got + fs[0].payload);
      assert [] + [whole] == [whole];
    } else {
      assert Found(fs[1..]) == [] && Payload(fs[1..]) == [];
      assert [whole] + [] == [whole] && got + fs[0].payload == whole;
    }
  }

  // Fewer than all fragments complete nothing, and cause no report.
  lemma {:induction false} FeedCut(fs: seq<Physical>, begin: bool, got: Record, m: nat)
    requires Kinded(fs, begin) && (begin ==> got == []) && m < |fs|
    ensures var (records, _, n) := Feed(Found(fs[..m]), Got(begin, got)); records == [] && n == 0
  {
    if m > 0 {
      assert fs[..m][1..] == fs[1..][..m - 1];
      AcceptFragment(fs, begin, got);
      FeedFirst(Fragment(fs[0]), Found(fs[1..][..m - 1]), Got(begin, got));
      FeedCut(fs[1..], false, got + fs[0].payload, m - 1);
    }
  }

  // ----- a whole log -----

  // The bytes of records written one after another from offset o, and the offset after them.
  ghost function LogBytes(crc: Checksum, o: Offset, rs: seq<Record>): (r: (seq<Byte>, Offset))
    decreases |rs|
  {
    if rs == [] then ([], o)
    else
      var (bytes, end) := RecordBytes(crc, o, rs[0], true);
      var (more, end') := LogBytes(crc, end, rs[1..]);
      (bytes + more, end')
  }

  /** Writing records one by one produces their log. */
  method WriteAll(crc: Checksum, rs: seq<Record>) returns (file: seq<Byte>)
    ensures file == LogBytes(crc, 0, rs).0
  {
    hide LogBytes, RecordBytes;
    var w := new Writer(crc, []);
    ghost var all := LogBytes(crc, 0, rs).0;
    ghost var more := all;  // the bytes still to be written
    assert rs[0..] == rs;
    for n := 0 to |rs|
      invariant fresh(w) && w.crc == crc && w.dest + more == all
      invariant more == LogBytes(crc, w.blockOffset, rs[n..]).0
    {
      ghost var bytes := RecordBytes(crc, w.blockOffset, rs[n], true).0;
      LogStep(crc, w.blockOffset, rs, n);
      more := more[|bytes|..];
      assert w.dest + (bytes + more) == w.dest + bytes + more;
      w.AddRecord(rs[n]);
    }
    NoRecords(crc, w.blockOffset);
    assert rs[|rs|..] == [];
    file := w.dest;
  }

  lemma LogStep(crc: Checksum, o: Offset, rs: seq<Record>, n: nat)
    requires n < |rs|
    ensures var (bytes, end) := RecordBytes(crc, o, rs[n], true);
            LogBytes(crc, o, rs[n..]).0 == bytes + LogBytes(crc, end, rs[n + 1..]).0
  {
    assert rs[n..][0] == rs[n] && rs[n..][1..] == rs[n + 1..];
  }

  // How many records lie wholly within the first n bytes.
  ghost function WithinPrefix(crc: Checksum, o: Offset, rs: seq<Record>, n: int): (k: nat)
    ensures k <= |rs|
    decreases |rs|
  {
    if rs == [] then 0
    else
      var (bytes, end) := RecordBytes(crc, o, rs[0], true);
      if |bytes| > n then 0 else 1 + WithinPrefix(crc, end, rs[1..], n - |bytes|)
  }

  // A record that the file tears gives nothing.
  lemma TornRecord(crc: Checksum, file: seq<Byte>, q: Place, data: Record)
    requires TornAt(file, q.Pos(), RecordBytes(crc, q.o, data, true).0)
    ensures Assemble(Scan(crc, file, q), None) == [] && Reports(Scan(crc, file, q), None) == 0
  {
    RecordBytesAreLayout(crc, q.o, data, true);
    FragmentKinds(q.o, data, true);
    var m := ScanAllTorn(crc, file, q, Fragments(q.o, data, true));
    FragmentsCarry(q.o, data, true);
    FeedCut(Fragments(q.o, data, true), true, [], m);
  }

  // A whole record is read, and reading goes on after it.
  lemma WholeRecord(crc: Checksum, file: seq<Byte>, q: Place, data: Record) returns (q': Place)
    requires At(file, q.Pos(), RecordBytes(crc, q.o, data, true).0)
    ensures q'.o == RecordBytes(crc, q.o, data, true).1
    ensures q'.Pos() == q.Pos() + |RecordBytes(crc, q.o, data, true).0| <= |file|
    ensures Assemble(Scan(crc, file, q), None) == [data] + Assemble(Scan(crc, file, q'), None)
    ensures Reports(Scan(crc, file, q), None) == Reports(Scan(crc, file, q'), None)
  {
    var fs := Fragments(q.o, data, true);
    RecordBytesAreLayout(crc, q.o, data, true);
    FragmentKinds(q.o, data, true);
    ScanAll(crc, file, q, fs);
    q' := q.PastAll(fs);
    FragmentsCarry(q.o, data, true);
    FeedRecord(fs, true, []);
    FoundGoesOn(fs);
    FeedConcat(Found(fs), Scan(crc, file, q'), None);
    assert [] + data == data;
  }

  lemma NoRecords(crc: Checksum, o: Offset)
    ensures LogBytes(crc, o, []) == ([], o)
  {
  }

  lemma FirstRecord(crc: Checksum, o: Offset, rs: seq<Record>)
    requires rs != []
    ensures LogBytes(crc, o, rs).0 == RecordBytes(crc, o, rs[0], true).0 + LogBytes(crc, RecordBytes(crc, o, rs[0], true).1, rs[1..]).0
  {
    hide RecordBytes;
  }

  lemma NothingRead()
    ensures Assemble([], None) == [] && Reports([], None) == 0
  {
  }

  lemma {:induction false} PrefixFrom(crc: Checksum, file: seq<Byte>, q: Place, rs: seq<Record>)
    requires q.Pos() <= |file| && file[q.Pos()..] <= LogBytes(crc, q.o, rs).0
    ensures Assemble(Scan(crc, file, q), None) == rs[..WithinPrefix(crc, q.o, rs, |file| - q.Pos())]
    ensures Reports(Scan(crc, file, q), None) == 0
    decreases |rs|
  {
    hide RecordBytes, LogBytes, Scan, Reports, Assemble, At;
    NoRecords(crc, q.o);
    if rs == [] {
      NothingRead();
      ScanEnd(crc, file, q);
    } else {
      var (bytes, end) := RecordBytes(crc, q.o, rs[0], true);
      var more := LogBytes(crc, end, rs[1..]).0;
      FirstRecord(crc, q.o, rs);
      if |bytes| > |file| - q.Pos() {
        SplitTorn(file, q.Pos(), bytes, more);
        TornRecord(crc, file, q, rs[0]);
      } else {
        PrefixSplit(file, q.Pos(), bytes, more);
        var q' := WholeRecord(crc, file, q, rs[0]);
        PrefixFrom(crc, file, q', rs[1..]);
      }
    }
  }

  lemma PrefixSplit(file: seq<Byte>, p: nat, a: seq<Byte>, b: seq<Byte>)
    requires p + |a| <= |file| && file[p..] <= a + b
    ensures At(file, p, a) && file[p + |a|..] <= b
  {
    var rest := file[p..];
    assert rest == (a + b)[..|rest|];
    assert file[p..p + |a|] == rest[..|a|] == a;
    assert file[p + |a|..] == rest[|a|..] == b[..|rest| - |a|];
  }

  /** Crash-prefix recovery: reading any byte prefix of a log gives exactly the records that lie wholly
      inside it, in order, and reports no corruption. */
  lemma CrashPrefix(crc: Checksum, rs: seq<Record>, file: seq<Byte>)
    requires file <= LogBytes(crc, 0, rs).0
    ensures Assemble(Events(crc, file, 0, 0), None) == rs[..WithinPrefix(crc, 0, rs, |file|)]
    ensures Reports(Events(crc, file, 0, 0), None) == 0
  {
    assert file[0..] == file;
    PrefixFrom(crc, file, Place(0, 0), rs);
  }

  lemma {:induction false} AllWithin(crc: Checksum, o: Offset, rs: seq<Record>)
    ensures WithinPrefix(crc, o, rs, |LogBytes(crc, o, rs).0|) == |rs|
    decreases |rs|
  {
    if rs != [] {
      AllWithin(crc, RecordBytes(crc, o, rs[0], true).1, rs[1..]);
    }
  }

  /** Round trip: reading back a whole log gives the records written, without a report. */
  method WriteThenRead(crc: Checksum, rs: seq<Record>) returns (read: seq<Record>, reports: nat)
    ensures read == rs && reports == 0
  {
    var file := WriteAll(crc, rs);
    CrashPrefix(crc, rs, file);
    AllWithin(crc, 0, rs);
    read, reports := ReadAll(crc, file);
  }
}
