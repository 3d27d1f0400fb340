/** Damage to one block of the log loses only the records with a fragment in the damaged stretch. */
module LogDamage {
  import opened Options
  import opened Bytes
  import opened Checksums
  import opened LogFormat
  import opened Log
  import opened LogProperties

  // ----- scanning only looks ahead -----

  lemma PayloadFits(crc: Checksum, buffer: seq<Byte>)
    requires HEADER_SIZE <= |buffer| && ProblemIn(crc, buffer) == None
    ensures HEADER_SIZE + |PhysicalIn(buffer).payload| <= |buffer|
  {
  }

  // Scanning from p goes on from the end of the block or from behind the record at p.
  lemma SameEvents(crc: Checksum, f: seq<Byte>, g: seq<Byte>, b: nat, p: nat)
    requires |f| == |g| && b <= |f| && b <= p <= BlockEnd(f, b) && f[p..BlockEnd(f, b)] == g[p..BlockEnd(f, b)]
    requires FullBlock(f, b) ==> Events(crc, f, BlockEnd(f, b), BlockEnd(f, b)) == Events(crc, g, BlockEnd(f, b), BlockEnd(f, b))
    requires var buffer := f[p..BlockEnd(f, b)];
             HEADER_SIZE <= |buffer| && ProblemIn(crc, buffer) == None ==>
               var q := p + HEADER_SIZE + |PhysicalIn(buffer).payload|;
               q <= BlockEnd(f, b) && Events(crc, f, b, q) == Events(crc, g, b, q)
    ensures Events(crc, f, b, p) == Events(crc, g, b, p)
  {
    hide ProblemIn, PhysicalIn;
  }

  lemma {:induction false} EventsLookAhead(crc: Checksum, f: seq<Byte>, g: seq<Byte>, b: nat, p: nat)
    requires |f| == |g| && b <= |f| && b <= p <= BlockEnd(f, b) && f[b..] == g[b..]
    ensures Events(crc, f, b, p) == Events(crc, g, b, p)
    decreases |f| - b, |f| - p
  {
    hide ProblemIn, PhysicalIn, Events;
    var e := BlockEnd(f, b);
    SliceOfTail(f, g, b, p, e);
    if FullBlock(f, b) {
      EventsLookAhead(crc, f, g, e, e);
    }
    var buffer := f[p..e];
    if HEADER_SIZE <= |buffer| {
      var problem := ProblemIn(crc, buffer);
      if problem == None {
        PayloadFits(crc, buffer);
        EventsLookAhead(crc, f, g, b, p + HEADER_SIZE + |PhysicalIn(buffer).payload|);
      }
    }
    SameEvents(crc, f, g, b, p);
  }

  lemma SliceOfTail(f: seq<Byte>, g: seq<Byte>, b: nat, p: nat, e: nat)
    requires |f| == |g| && b <= p <= e <= |f| && f[b..] == g[b..]
    ensures f[p..e] == g[p..e] && f[e..] == g[e..]
  {
    forall i | b <= i < |f| ensures f[i] == g[i] {
      assert f[b..][i - b] == g[b..][i - b];
    }
  }

  // ----- pieces of records -----

  // Fragments that only continue a record.
  predicate Tail(fs: seq<Physical>) {
    forall i :: 0 <= i < |fs| ==> fs[i].kind == MIDDLE_TYPE || fs[i].kind == LAST_TYPE
  }

  lemma {:induction false} KindedTail(fs: seq<Physical>, begin: bool)
    requires Kinded(fs, begin)
    ensures Tail(fs[1..]) && (!begin ==> Tail(fs))
  {
    if |fs| > 1 {
      KindedTail(fs[1..], false);
      forall i | 1 <= i < |fs| ensures fs[i] == fs[1..][i - 1] {}
    }
  }

  // Without their beginning, fragments complete nothing.
  lemma {:induction false} FeedTail(fs: seq<Physical>)
    requires Tail(fs)
    ensures var (records, st, _) := Feed(Found(fs), None); records == [] && st == None
  {
    if fs != [] {
      FeedTail(fs[1..]);
    }
  }

  lemma SkipTail(fs: seq<Physical>, es: seq<Event>)
    requires Tail(fs)
    ensures Assemble(Found(fs) + es, None) == Assemble(es, None)
  {
    FeedTail(fs);
    FoundGoesOn(fs);
    FeedConcat(Found(fs), es, None);
  }

  // Cut off by a bad record, the fragments before it complete nothing.
  lemma SkipBroken(fs: seq<Physical>, m: nat, problem: Problem, es: seq<Event>)
    requires Kinded(fs, true) && m < |fs|
    ensures Assemble(Found(fs[..m]) + ([Bad(problem)] + es), None) == Assemble(es, None)
  {
    FeedCut(fs, true, [], m);
    KindedKinds(fs, true);
    FoundGoesOn(fs[..m]);
    FeedConcat(Found(fs[..m]), [Bad(problem)] + es, None);
    assert ([Bad(problem)] + es)[1..] == es;
  }

  // ----- whole records -----

  // Records that are whole in the file are read one after another.
  lemma {:induction false} WholeRecords(crc: Checksum, file: seq<Byte>, q: Place, rs: seq<Record>) returns (q': Place)
    requires q.Pos() <= |file| && At(file, q.Pos(), LogBytes(crc, q.o, rs).0)
    ensures q'.o == LogBytes(crc, q.o, rs).1 && q'.Pos() == q.Pos() + |LogBytes(crc, q.o, rs).0| <= |file|
    ensures Assemble(Scan(crc, file, q), None) == rs + Assemble(Scan(crc, file, q'), None)
    decreases |rs|
  {
    hide RecordBytes, LogBytes, At, Scan, Assemble;
    if rs == [] {
      NoRecords(crc, q.o);
      q' := q;
    } else {
      FirstRecordAt(crc, file, q, rs);
      var q1 := WholeRecord(crc, file, q, rs[0]);
      q' := WholeRecords(crc, file, q1, rs[1..]);
      Regroup(rs, Assemble(Scan(crc, file, q'), None));
    }
  }

  lemma Regroup(rs: seq<Record>, more: seq<Record>)
    requires rs != []
    ensures [rs[0]] + (rs[1..] + more) == rs + more
  {
  }

  // The first record's bytes, and those of the others behind them.
  lemma FirstRecordAt(crc: Checksum, file: seq<Byte>, q: Place, rs: seq<Record>)
    requires At(file, q.Pos(), LogBytes(crc, q.o, rs).0) && rs != []
    ensures var (bytes, end) := RecordBytes(crc, q.o, rs[0], true);
            && At(file, q.Pos(), bytes) && At(file, q.Pos() + |bytes|, LogBytes(crc, end, rs[1..]).0)
            && |LogBytes(crc, q.o, rs).0| == |bytes| + |LogBytes(crc, end, rs[1..]).0|
            && LogBytes(crc, q.o, rs).1 == LogBytes(crc, end, rs[1..]).1
  {
    hide RecordBytes, At;
    var (bytes, end) := RecordBytes(crc, q.o, rs[0], true);
    SplitAt(file, q.Pos(), bytes, LogBytes(crc, end, rs[1..]).0);
  }

  lemma AllRecords(crc: Checksum, file: seq<Byte>, q: Place, rs: seq<Record>)
    requires q.Pos() <= |file| && file[q.Pos()..] == LogBytes(crc, q.o, rs).0
    ensures Assemble(Scan(crc, file, q), None) == rs
  {
    var q' := WholeRecords(crc, file, q, rs);
    ScanEnd(crc, file, q');
  }

  // The place after one record.
  function Past(q: Place, data: Record): Place {
    FragmentsFit(q.o, data, true);
    q.PastAll(Fragments(q.o, data, true))
  }

  // How many of the records written from q on have their first header before the limit.
  function StartBefore(q: Place, rs: seq<Record>, limit: nat): (k: nat)
    ensures k <= |rs|
    decreases |rs|
  {
    if rs == [] || q.Header().Pos() >= limit then 0
    else 1 + StartBefore(Past(q, rs[0]), rs[1..], limit)
  }

  lemma PastRecord(crc: Checksum, q: Place, data: Record)
    ensures Past(q, data).o == RecordBytes(crc, q.o, data, true).1
    ensures Past(q, data).Pos() == q.Pos() + |RecordBytes(crc, q.o, data, true).0|
  {
    RecordBytesAreLayout(crc, q.o, data, true);
    FragmentsFit(q.o, data, true);
    PastLength(crc, q, Fragments(q.o, data, true));
  }

  lemma {:induction false} PastLength(crc: Checksum, q: Place, fs: seq<Physical>)
    requires Fit(q.o, fs)
    ensures q.PastAll(fs).o == AfterAll(q.o, fs)
    ensures q.PastAll(fs).Pos() == q.Pos() + |Layout(crc, q.o, fs)|
    decreases |fs|
  {
    if fs != [] {
      PastLength(crc, q.Past(fs[0]), fs[1..]);
    }
  }

  // ----- picking the log up again at the next block -----

  // The file from place q on: physical records of one record, then whole records, then the end.
  ghost predicate Remains(crc: Checksum, file: seq<Byte>, q: Place, fs: seq<Physical>, rs: seq<Record>) {
    q.Pos() <= |file| && Fit(q.o, fs) &&
    file[q.Pos()..] == Layout(crc, q.o, fs) + LogBytes(crc, AfterAll(q.o, fs), rs).0
  }

  // At the start of a block, the rest of a broken record is passed over and the whole records are read.
  lemma ResumeHere(crc: Checksum, file: seq<Byte>, q: Place, fs: seq<Physical>, rs: seq<Record>)
    requires Remains(crc, file, q, fs, rs) && Tail(fs)
    ensures Assemble(Scan(crc, file, q), None) == rs
  {
    var a, b := Layout(crc, q.o, fs), LogBytes(crc, AfterAll(q.o, fs), rs).0;
    PrefixSplit(file, q.Pos(), a, b);
    TailKinds(fs);
    ScanAll(crc, file, q, fs);
    var q' := q.PastAll(fs);
    assert file[q'.Pos()..] == file[q.Pos()..][|a|..] == b;
    SkipTail(fs, Scan(crc, file, q'));
    AllRecords(crc, file, q', rs);
  }

  lemma TailKinds(fs: seq<Physical>)
    requires Tail(fs)
    ensures Kinds(fs)
  {
  }

  lemma TailAfter(file: seq<Byte>, p: nat, a: seq<Byte>, b: seq<Byte>, c: seq<Byte>)
    requires p <= |file| && file[p..] == a + b + c
    ensures p + |a| <= |file| && file[p + |a|..] == b + c
  {
    assert a + b + c == a + (b + c);
    assert file[p + |a|..] == file[p..][|a|..];
  }

  // One physical record further.
  lemma RemainsNext(crc: Checksum, file: seq<Byte>, q: Place, fs: seq<Physical>, rs: seq<Record>)
    requires Remains(crc, file, q, fs, rs) && fs != []
    ensures Remains(crc, file, q.Past(fs[0]), fs[1..], rs)
    ensures q.Past(fs[0]).Pos() > q.Pos()
  {
    hide LogBytes, Chunk;
    TailAfter(file, q.Pos(), Chunk(crc, q.o, fs[0]), Layout(crc, After(q.o, fs[0]), fs[1..]), LogBytes(crc, AfterAll(q.o, fs), rs).0);
  }

  // The next record's physical records.
  lemma RemainsRecord(crc: Checksum, file: seq<Byte>, q: Place, rs: seq<Record>)
    requires Remains(crc, file, q, [], rs) && rs != []
    ensures Remains(crc, file, q, Fragments(q.o, rs[0], true), rs[1..])
  {
    RecordBytesAreLayout(crc, q.o, rs[0], true);
    assert [] + LogBytes(crc, q.o, rs).0 == LogBytes(crc, q.o, rs).0;
  }

  // A block has too little left for a header.
  lemma ResumeAtTrailer(crc: Checksum, file: seq<Byte>, q: Place, fs: seq<Physical>, rs: seq<Record>)
    requires Remains(crc, file, q, fs, rs) && Tail(fs) && FullBlock(file, q.b) && BLOCK_SIZE - q.o < HEADER_SIZE
    ensures Assemble(Events(crc, file, q.b + BLOCK_SIZE, q.b + BLOCK_SIZE), None) ==
            rs[StartBefore(q.PastAll(fs), rs, q.b + BLOCK_SIZE)..]
  {
    SkipTrailer(crc, file, q.b, q.Pos());
    ResumeHere(crc, file, q, fs, rs);
    NoneStartBefore(q, fs, rs, q.b + BLOCK_SIZE);
  }

  /** Whatever is left of the current block, reading from the start of the next block gives exactly the
      records that start there or later. */
  lemma {:induction false} Resume(crc: Checksum, file: seq<Byte>, q: Place, fs: seq<Physical>, rs: seq<Record>)
    requires Remains(crc, file, q, fs, rs) && Tail(fs) && FullBlock(file, q.b)
    ensures Assemble(Events(crc, file, q.b + BLOCK_SIZE, q.b + BLOCK_SIZE), None) ==
            rs[StartBefore(q.PastAll(fs), rs, q.b + BLOCK_SIZE)..]
    decreases |file| - q.Pos()
  {
    hide Events, Assemble, StartBefore;
    if BLOCK_SIZE - q.o < HEADER_SIZE {
      ResumeAtTrailer(crc, file, q, fs, rs);
    } else if fs != [] {
      RemainsNext(crc, file, q, fs, rs);
      Resume(crc, file, q.Past(fs[0]), fs[1..], rs);
    } else {
      assert rs != [];
      ResumeRecord(crc, file, q, rs);
    }
  }

  // Past a record's first fragment and then the others.
  lemma PastFirst(q: Place, data: Record)
    ensures var fs := Fragments(q.o, data, true);
            fs != [] && Fit(q.o, fs) && q.Past(fs[0]).PastAll(fs[1..]) == Past(q, data)
  {
    FragmentsFit(q.o, data, true);
  }

  lemma OneMoreStart(q: Place, rs: seq<Record>, limit: nat)
    requires rs != [] && q.Header().Pos() < limit
    ensures StartBefore(q, rs, limit) == 1 + StartBefore(Past(q, rs[0]), rs[1..], limit)
  {
  }

  lemma {:induction false} ResumeRecord(crc: Checksum, file: seq<Byte>, q: Place, rs: seq<Record>)
    requires Remains(crc, file, q, [], rs) && rs != [] && FullBlock(file, q.b) && BLOCK_SIZE - q.o >= HEADER_SIZE
    ensures Assemble(Events(crc, file, q.b + BLOCK_SIZE, q.b + BLOCK_SIZE), None) ==
            rs[StartBefore(q, rs, q.b + BLOCK_SIZE)..]
    decreases |file| - q.Pos(), 0
  {
    hide Events, Assemble, StartBefore, Remains, Kinded, Tail;
    OneMoreStart(q, rs, q.b + BLOCK_SIZE);
    var fs := Fragments(q.o, rs[0], true);
    RemainsRecord(crc, file, q, rs);
    RemainsNext(crc, file, q, fs, rs[1..]);
    FragmentsCarry(q.o, rs[0], true);
    KindedTail(fs, true);
    Resume(crc, file, q.Past(fs[0]), fs[1..], rs[1..]);
    PastFirst(q, rs[0]);
  }

  lemma {:induction false} NoneStartBefore(q: Place, fs: seq<Physical>, rs: seq<Record>, limit: nat)
    requires Fit(q.o, fs) && q.Header().Pos() >= limit
    ensures StartBefore(q.PastAll(fs), rs, limit) == 0
    decreases |fs|
  {
    if fs != [] {
      NoneStartBefore(q.Past(fs[0]), fs[1..], rs, limit);
    }
  }

  // ----- the damaged file -----

  // The place after whole records.
  function PastRecords(q: Place, rs: seq<Record>): Place
    decreases |rs|
  {
    if rs == [] then q else PastRecords(Past(q, rs[0]), rs[1..])
  }

  lemma {:induction false} PastRecordsLength(crc: Checksum, q: Place, rs: seq<Record>)
    ensures PastRecords(q, rs).o == LogBytes(crc, q.o, rs).1
    ensures PastRecords(q, rs).Pos() == q.Pos() + |LogBytes(crc, q.o, rs).0|
    decreases |rs|
  {
    if rs != [] {
      PastRecord(crc, q, rs[0]);
      PastRecordsLength(crc, Past(q, rs[0]), rs[1..]);
    }
  }

  lemma {:induction false} LogConcat(crc: Checksum, o: Offset, a: seq<Record>, b: seq<Record>)
    ensures LogBytes(crc, o, a + b).0 == LogBytes(crc, o, a).0 + LogBytes(crc, LogBytes(crc, o, a).1, b).0
    decreases |a|
  {
    if a == [] {
      assert a + b == b;
    } else {
      hide RecordBytes, LogBytes;
      var (bytes, end) := RecordBytes(crc, o, a[0], true);
      assert (a + b)[1..] == a[1..] + b;
      LogConcat(crc, end, a[1..], b);
      LogFirst(crc, o, a);
      LogFirst(crc, o, a + b);
      Grouped(bytes, LogBytes(crc, end, a[1..]).0, LogBytes(crc, LogBytes(crc, end, a[1..]).1, b).0);
    }
  }

  lemma LogFirst(crc: Checksum, o: Offset, rs: seq<Record>)
    requires rs != []
    ensures var (bytes, end) := RecordBytes(crc, o, rs[0], true);
            LogBytes(crc, o, rs).0 == bytes + LogBytes(crc, end, rs[1..]).0 && LogBytes(crc, o, rs).1 == LogBytes(crc, end, rs[1..]).1
  {
    hide RecordBytes;
  }

  lemma Grouped(a: seq<Byte>, b: seq<Byte>, c: seq<Byte>)
    ensures a + b + c == a + (b + c)
  {
  }

  lemma {:induction false} FitSplit(o: Offset, fs: seq<Physical>, k: nat)
    requires Fit(o, fs) && k <= |fs|
    ensures Fit(o, fs[..k]) && Fit(AfterAll(o, fs[..k]), fs[k..])
    ensures AfterAll(o, fs) == AfterAll(AfterAll(o, fs[..k]), fs[k..])
    decreases |fs|
  {
    if k == 0 {
      assert fs[0..] == fs;
    } else {
      FitSplit(After(o, fs[0]), fs[1..], k - 1);
      assert fs[1..][..k - 1] == fs[..k][1..] && fs[1..][k - 1..] == fs[k..];
    }
  }

  lemma {:induction false} LayoutSplit(crc: Checksum, o: Offset, fs: seq<Physical>, k: nat)
    requires k <= |fs| && Fit(o, fs) && Fit(o, fs[..k]) && Fit(AfterAll(o, fs[..k]), fs[k..])
    ensures Layout(crc, o, fs) == Layout(crc, o, fs[..k]) + Layout(crc, AfterAll(o, fs[..k]), fs[k..])
    decreases |fs|
  {
    if k == 0 {
      assert fs[0..] == fs;
    } else {
      assert fs[1..][..k - 1] == fs[..k][1..] && fs[1..][k - 1..] == fs[k..];
      LayoutSplit(crc, After(o, fs[0]), fs[1..], k - 1);
      Assoc(Chunk(crc, o, fs[0]), Layout(crc, After(o, fs[0]), fs[..k][1..]), Layout(crc, AfterAll(o, fs[..k]), fs[k..]));
    }
  }

  lemma Assoc(a: seq<Byte>, b: seq<Byte>, c: seq<Byte>)
    ensures a + (b + c) == a + b + c
  {
  }

  lemma {:induction false} PastSplit(q: Place, fs: seq<Physical>, k: nat)
    requires k <= |fs| && Fit(q.o, fs) && Fit(q.o, fs[..k]) && Fit(AfterAll(q.o, fs[..k]), fs[k..])
    ensures q.PastAll(fs[..k]).o == AfterAll(q.o, fs[..k])
    ensures q.PastAll(fs) == q.PastAll(fs[..k]).PastAll(fs[k..])
    decreases |fs|
  {
    if k == 0 {
      assert fs[0..] == fs;
    } else {
      assert fs[1..][..k - 1] == fs[..k][1..] && fs[1..][k - 1..] == fs[k..];
      PastSplit(q.Past(fs[0]), fs[1..], k - 1);
    }
  }

  // A log around one of its records, cut at the record's k-th fragment.
  ghost predicate CutAt(crc: Checksum, before: seq<Record>, data: Record, after: seq<Record>, k: nat,
                        file: seq<Byte>, q: Place, m: Place)
  {
    var fs := Fragments(q.o, data, true);
    && file == LogBytes(crc, 0, before + [data] + after).0
    && q == PastRecords(Place(0, 0), before)
    && k < |fs| && Fit(q.o, fs) && Fit(q.o, fs[..k])
    && m == q.PastAll(fs[..k])
  }

  // The log is what comes before the record, the record, and what comes after it.
  lemma LogParts(crc: Checksum, before: seq<Record>, data: Record, after: seq<Record>)
    ensures var o := LogBytes(crc, 0, before).1;
            var (bytes, end) := RecordBytes(crc, o, data, true);
            LogBytes(crc, 0, before + [data] + after).0 ==
            LogBytes(crc, 0, before).0 + bytes + LogBytes(crc, end, after).0
  {
    var (start, o) := LogBytes(crc, 0, before);
    var (bytes, end) := RecordBytes(crc, o, data, true);
    LogConcat(crc, 0, before, [data] + after);
    assert before + [data] + after == before + ([data] + after);
    assert ([data] + after)[1..] == after;
    Assoc(start, bytes, LogBytes(crc, end, after).0);
  }

  // The record's bytes, cut at its k-th fragment.
  lemma RecordParts(crc: Checksum, q: Place, data: Record, k: nat)
    requires k < |Fragments(q.o, data, true)|
    ensures var fs := Fragments(q.o, data, true);
            && Fit(q.o, fs) && Fit(q.o, fs[..k]) && Fit(AfterAll(q.o, fs[..k]), fs[k..])
            && RecordBytes(crc, q.o, data, true).0 == Layout(crc, q.o, fs[..k]) + Layout(crc, AfterAll(q.o, fs[..k]), fs[k..])
            && RecordBytes(crc, q.o, data, true).1 == AfterAll(AfterAll(q.o, fs[..k]), fs[k..])
            && q.PastAll(fs[..k]).o == AfterAll(q.o, fs[..k])
            && q.PastAll(fs[..k]).Pos() == q.Pos() + |Layout(crc, q.o, fs[..k])|
            && q.PastAll(fs[..k]).PastAll(fs[k..]) == Past(q, data)
  {
    var fs := Fragments(q.o, data, true);
    RecordBytesAreLayout(crc, q.o, data, true);
    FitSplit(q.o, fs, k);
    LayoutSplit(crc, q.o, fs, k);
    PastSplit(q, fs, k);
    PastLength(crc, q, fs[..k]);
  }

  // The file up to the k-th fragment, and from there on.
  lemma CutLayout(crc: Checksum, before: seq<Record>, data: Record, after: seq<Record>, k: nat,
                  file: seq<Byte>, q: Place, m: Place)
    requires CutAt(crc, before, data, after, k, file, q, m)
    ensures var fs := Fragments(q.o, data, true);
            && q.o == LogBytes(crc, 0, before).1 && q.Pos() <= m.Pos() <= |file|
            && file[..q.Pos()] == LogBytes(crc, 0, before).0
            && file[q.Pos()..m.Pos()] == Layout(crc, q.o, fs[..k])
            && Remains(crc, file, m, fs[k..], after)
            && m.PastAll(fs[k..]) == Past(q, data)
  {
    hide LogBytes, Layout, PastRecords, Fragments, RecordBytes;
    var fs := Fragments(q.o, data, true);
    PastRecordsLength(crc, Place(0, 0), before);
    LogParts(crc, before, data, after);
    RecordParts(crc, q, data, k);
    ThreeParts(file, LogBytes(crc, 0, before).0, Layout(crc, q.o, fs[..k]), Layout(crc, m.o, fs[k..]),
               LogBytes(crc, AfterAll(m.o, fs[k..]), after).0);
  }

  lemma ThreeParts(file: seq<Byte>, a: seq<Byte>, b: seq<Byte>, c: seq<Byte>, d: seq<Byte>)
    requires file == a + (b + c) + d
    ensures |a| + |b| <= |file| && file[..|a|] == a && file[|a|..|a| + |b|] == b && file[|a| + |b|..] == c + d
  {
    assert file == a + b + (c + d);
  }

  // In a file that is intact up to the cut, the scan reaches it.
  lemma ScanToCut(crc: Checksum, before: seq<Record>, data: Record, after: seq<Record>, k: nat,
                  file: seq<Byte>, q: Place, m: Place, damaged: seq<Byte>)
    requires CutAt(crc, before, data, after, k, file, q, m)
    requires m.Pos() <= |file| && |damaged| == |file| && damaged[..m.Pos()] == file[..m.Pos()]
    ensures Assemble(Events(crc, damaged, 0, 0), None) ==
            before + Assemble(Found(Fragments(q.o, data, true)[..k]) + Scan(crc, damaged, m), None)
  {
    var fs := Fragments(q.o, data, true)[..k];
    CutLayout(crc, before, data, after, k, file, q, m);
    SamePrefix(damaged, file, q.Pos(), m.Pos());
    WholeRecordsTo(crc, damaged, before, q);
    FragmentKinds(q.o, data, true);
    ScanAll(crc, damaged, q, fs);
    PastLength(crc, q, fs);
  }

  lemma SamePrefix(f: seq<Byte>, g: seq<Byte>, a: nat, b: nat)
    requires a <= b <= |f| && b <= |g| && f[..b] == g[..b]
    ensures f[..a] == g[..a] && f[a..b] == g[a..b]
  {
    assert f[..a] == f[..b][..a] && g[..a] == g[..b][..a];
    assert f[a..b] == f[..b][a..] && g[a..b] == g[..b][a..];
  }

  lemma AtStart(file: seq<Byte>, n: nat, bytes: seq<Byte>)
    requires n <= |file| && file[..n] == bytes
    ensures At(file, 0, bytes) && |bytes| == n
  {
  }

  lemma ScanFromStart(crc: Checksum, file: seq<Byte>)
    ensures Scan(crc, file, Place(0, 0)) == Events(crc, file, 0, 0)
  {
  }

  lemma WholeRecordsTo(crc: Checksum, file: seq<Byte>, rs: seq<Record>, q: Place)
    requires q == PastRecords(Place(0, 0), rs) && q.Pos() <= |file| && file[..q.Pos()] == LogBytes(crc, 0, rs).0
    ensures Assemble(Events(crc, file, 0, 0), None) == rs + Assemble(Scan(crc, file, q), None)
  {
    hide LogBytes, Assemble, PastRecords, At, Scan;
    PastRecordsLength(crc, Place(0, 0), rs);
    AtStart(file, q.Pos(), LogBytes(crc, 0, rs).0);
    ScanFromStart(crc, file);
    var q' := WholeRecords(crc, file, Place(0, 0), rs);
  }

  // At the damage, the scan drops the block.
  lemma ScanDamage(crc: Checksum, damaged: seq<Byte>, m: Place) returns (problem: Problem)
    requires m.Pos() <= |damaged| && FullBlock(damaged, m.Header().b)
    requires ProblemIn(crc, damaged[m.Header().Pos()..m.Header().b + BLOCK_SIZE]) != None
    ensures var e := m.Header().b + BLOCK_SIZE;
            Scan(crc, damaged, m) == [Bad(problem)] + Events(crc, damaged, e, e)
  {
    var h := m.Header();
    if h != m {
      SkipTrailer(crc, damaged, m.b, m.Pos());
    }
    problem := ProblemIn(crc, damaged[h.Pos()..h.b + BLOCK_SIZE]).value;
  }

  /** Damage stays local. The log of before, data and after is damaged inside one block that is not the
      last: everything before the header of the record's k-th fragment and everything after that block is
      as written, and that header or what follows it fails its check. Then the reader returns, in order,
      every record before the damaged one and every later record that starts after the block. No record
      is returned that was not written. */
  lemma DamageStaysLocal(crc: Checksum, before: seq<Record>, data: Record, after: seq<Record>, k: nat,
                         file: seq<Byte>, q: Place, m: Place, damaged: seq<Byte>)
    requires CutAt(crc, before, data, after, k, file, q, m)
    requires var h := m.Header();
             && h.b + BLOCK_SIZE <= |file| == |damaged|
             && damaged[..h.Pos()] == file[..h.Pos()]
             && damaged[h.b + BLOCK_SIZE..] == file[h.b + BLOCK_SIZE..]
             && ProblemIn(crc, damaged[h.Pos()..h.b + BLOCK_SIZE]) != None
    ensures Assemble(Events(crc, damaged, 0, 0), None) ==
            before + after[StartBefore(Past(q, data), after, m.Header().b + BLOCK_SIZE)..]
  {
    hide LogBytes, Events, Assemble, StartBefore, Fragments, Layout, ProblemIn, Remains, PastRecords, Fit;
    var fs := Fragments(q.o, data, true);
    var h, e := m.Header(), m.Header().b + BLOCK_SIZE;
    CutLayout(crc, before, data, after, k, file, q, m);
    assert damaged[..m.Pos()] == damaged[..h.Pos()][..m.Pos()] == file[..h.Pos()][..m.Pos()] == file[..m.Pos()];
    ScanToCut(crc, before, data, after, k, file, q, m, damaged);
    var problem := ScanDamage(crc, damaged, m);
    var es := Events(crc, damaged, e, e);
    FragmentsCarry(q.o, data, true);
    SkipBroken(fs, k, problem, es);
    EventsLookAhead(crc, damaged, file, e, e);
    RemainsNext(crc, file, m, fs[k..], after);
    RestIsTail(fs, k);
    Resume(crc, file, m.Past(fs[k]), fs[k..][1..], after);
  }

  lemma RestIsTail(fs: seq<Physical>, k: nat)
    requires Kinded(fs, true) && k < |fs|
    ensures Tail(fs[k..][1..])
  {
    KindedTail(fs, true);
    forall i | 0 <= i < |fs[k..][1..]| ensures fs[k..][1..][i] == fs[1..][k + i] {}
  }
}
