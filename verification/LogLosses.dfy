/** What is lost when bytes of the log are missing, and exactly when nothing is. */
module LogLosses {
  import opened Options
  import opened Bytes
  import opened Checksums
  import opened LogFormat
  import opened Log
  import opened LogProperties
  import opened LogDamage
  import opened LogFailures

  // ----- calls of which bytes are missing -----

  // All of a call is there but the end of its last payload.
  predicate ShortBy(o: Offset, data: Record, begin: bool, fates: nat -> Fate, i: nat, missing: nat)
    decreases |data|, if Room(o) == 0 then 1 else 0
  {
    var f := FirstFragment(o, data, begin);
    if Succeeds(fates(i), f) && |f.payload| < |data| then
      Whole(fates(i), o, f) && ShortBy(After(o, f), data[|f.payload|..], false, fates, i + 1, missing)
    else fates(i).trailer >= Pad(o) && fates(i).header >= HEADER_SIZE && fates(i).payload + missing == |f.payload| && missing > 0
  }

  // A header that says more than there is reads as the end of the file.
  lemma ScanShort(crc: Checksum, file: seq<Byte>, q: Place, f: Physical, fate: Fate, missing: nat, later: seq<Byte>)
    requires |f.payload| <= Room(q.o) && fate.trailer >= Pad(q.o) && fate.header >= HEADER_SIZE && fate.payload + missing == |f.payload|
    requires q.Pos() <= |file| && file[q.Pos()..] == KeptChunk(crc, q.o, f, fate) + later && |later| < missing
    ensures Scan(crc, file, q) == []
  {
    hide Events, Header;
    var h, tail := q.Header(), Kept(f.payload, fate.payload) + later;
    assert file[q.Pos()..] == Zeros(Pad(q.o)) + Header(crc, f) + tail;
    assert file[q.Pos()..][Pad(q.o)..] == file[h.Pos()..] == Header(crc, f) + tail;
    if BLOCK_SIZE - q.o < HEADER_SIZE {
      SkipTrailer(crc, file, q.b, q.Pos());
    }
    ShortHeader(crc, f, file[h.Pos()..], tail);
    EventHere(crc, file, h.b, h.Pos());
    assert file[h.Pos()..BlockEnd(file, h.b)] == file[h.Pos()..];
  }

  lemma ShortHeader(crc: Checksum, f: Physical, buffer: seq<Byte>, tail: seq<Byte>)
    requires |f.payload| < 0x1_0000 && buffer == Header(crc, f) + tail && |tail| < |f.payload|
    ensures ProblemIn(crc, buffer) == Some(BadLength)
  {
    assert buffer[4..6] == Header(crc, f)[4..6] == LengthBytes(|f.payload|);
  }

  lemma {:induction false} ShortCallRead(crc: Checksum, file: seq<Byte>, q: Place, data: Record, begin: bool, fates: nat -> Fate, i: nat,
                                         missing: nat, later: seq<Byte>) returns (m: nat)
    requires ShortBy(q.o, data, begin, fates, i, missing) && |later| < missing
    requires q.Pos() <= |file| && file[q.Pos()..] == CallBytes(crc, q.o, data, begin, fates, i).0 + later
    ensures m < |Fragments(q.o, data, begin)| && Scan(crc, file, q) == Found(Fragments(q.o, data, begin)[..m])
    decreases |data|, if Room(q.o) == 0 then 1 else 0
  {
    hide Scan, KeptChunk, Chunk, FirstFragment, Found;
    var f := FirstFragment(q.o, data, begin);
    var rest := data[|f.payload|..];
    FragmentsStep(q.o, data, begin);
    FoundNone();
    if Succeeds(fates(i), f) && |f.payload| < |data| {
      var more := CallBytes(crc, After(q.o, f), rest, false, fates, i + 1).0;
      AtFirst(file, q.Pos(), Chunk(crc, q.o, f), more, later);
      FragmentFacts(q.o, data, begin);
      ScanChunk(crc, file, q, f);
      m := ShortCallRead(crc, file, q.Past(f), rest, false, fates, i + 1, missing, later);
      FoundFirst(f, Fragments(After(q.o, f), rest, false), m);
      m := m + 1;
    } else {
      ScanShort(crc, file, q, f, fates(i), missing, later);
      m := 0;
    }
  }

  lemma FoundNone()
    ensures forall fs: seq<Physical> :: Found(fs[..0]) == []
  {
  }

  lemma FoundFirst(f: Physical, fs: seq<Physical>, m: nat)
    requires m <= |fs|
    ensures Found(([f] + fs)[..m + 1]) == [Fragment(f)] + Found(fs[..m])
  {
    assert ([f] + fs)[..m + 1][1..] == fs[..m];
  }

  lemma FragmentFacts(o: Offset, data: Record, begin: bool)
    ensures var f := FirstFragment(o, data, begin);
            f.kind != ZERO_TYPE && (|f.payload| < |data| ==> |f.payload| > 0 || (Room(o) == 0 && Room(After(o, f)) > 0))
  {
  }

  lemma AtFirst(file: seq<Byte>, p: nat, a: seq<Byte>, b: seq<Byte>, c: seq<Byte>)
    requires p <= |file| && file[p..] == a + b + c
    ensures At(file, p, a) && file[p + |a|..] == b + c
  {
    assert file[p..p + |a|] == file[p..][..|a|];
    assert file[p + |a|..] == file[p..][|a|..];
  }

  // The calls before, the one in the middle, and those behind it.
  lemma ThreeRuns(crc: Checksum, before: seq<Call>, call: Call, later: seq<Call>)
    ensures var (start, o) := FileOf(crc, 0, before); var (bytes, end, _) := CallBytes(crc, o, call.data, true, call.fates, 0);
            FileOf(crc, 0, before + [call] + later).0 == start + (bytes + FileOf(crc, end, later).0)
  {
    hide CallBytes;
    assert before + [call] + later == before + ([call] + later);
    FileConcat(crc, 0, before, [call] + later);
    assert ([call] + later)[1..] == later;
  }

  // What follows calls of which no byte is missing.
  lemma AfterIntact(crc: Checksum, before: seq<Call>, rest: seq<Byte>, file: seq<Byte>) returns (q: Place, st: Option<Record>)
    requires AllIntact(crc, 0, before) && file == FileOf(crc, 0, before).0 + rest
    ensures q.o == FileOf(crc, 0, before).1 && q.Pos() <= |file| && file[q.Pos()..] == rest
    ensures var (records, _, n) := Feed(Events(crc, file, 0, 0), None); var (more, _, m) := Feed(Scan(crc, file, q), st);
            records == Completed(crc, 0, before) + more && n + Count(st) <= |before| - |Completed(crc, 0, before)| + m
    ensures |Completed(crc, 0, before)| == |before| ==> st.None?
  {
    hide FileOf, AllIntact, Completed, Feed, Events;
    ScanFromStart(crc, file);
    assert file[0..0 + |FileOf(crc, 0, before).0|] == FileOf(crc, 0, before).0;
    q, st := IntactCallsRead(crc, file, Place(0, 0), None, before);
  }

  lemma FeedCutOff(fs: seq<Physical>, m: nat, st: Option<Record>)
    requires Kinded(fs, true) && m < |fs|
    ensures var (records, _, n) := Feed(Found(fs[..m]), st); records == [] && n <= Count(st)
  {
    if m > 0 {
      var _ := FeedSome(fs, m, st);
    } else {
      FoundNone();
      NothingFed(st);
    }
  }

  /** But when the end of a payload is missing, and the calls after it do not make up for it, none of them is read,
      whether they succeed or not; and no report is made that was not made for the calls before. */
  lemma LaterCallsLost(crc: Checksum, before: seq<Call>, call: Call, missing: nat, later: seq<Call>)
    requires AllIntact(crc, 0, before) && ShortBy(FileOf(crc, 0, before).1, call.data, true, call.fates, 0, missing)
    requires |FileOf(crc, CallEnd(crc, FileOf(crc, 0, before).1, call), later).0| < missing
    ensures var es := Events(crc, FileOf(crc, 0, before + [call] + later).0, 0, 0);
            Assemble(es, None) == Completed(crc, 0, before) && Reports(es, None) <= |before| - |Completed(crc, 0, before)|
  {
    hide FileOf, AllIntact, Completed, Feed, Events, ShortBy, CallBytes, Fragments;
    var file := FileOf(crc, 0, before + [call] + later).0;
    var o := FileOf(crc, 0, before).1;
    var behind := FileOf(crc, CallEnd(crc, o, call), later).0;
    ThreeRuns(crc, before, call, later);
    var q, st := AfterIntact(crc, before, CallBytes(crc, o, call.data, true, call.fates, 0).0 + behind, file);
    var m := ShortCallRead(crc, file, q, call.data, true, call.fates, 0, missing, behind);
    FragmentsCarry(o, call.data, true);
    FeedCutOff(Fragments(o, call.data, true), m, st);
    assert Completed(crc, 0, before) + [] == Completed(crc, 0, before);
  }

  /** A call whose trailer did not get there succeeds, but its record, if it is shorter than the trailer, is not read. */
  lemma TrailerLost(crc: Checksum, before: seq<Call>, call: Call)
    requires AllIntact(crc, 0, before) && |call.data| < Pad(FileOf(crc, 0, before).1)
    requires call.fates(0).trailer == 0 && Succeeds(call.fates(0), Physical(FULL_TYPE, call.data))
    ensures CallBytes(crc, FileOf(crc, 0, before).1, call.data, true, call.fates, 0).2
    ensures var es := Events(crc, FileOf(crc, 0, before + [call]).0, 0, 0);
            Assemble(es, None) == Completed(crc, 0, before) && Reports(es, None) <= |before| - |Completed(crc, 0, before)|
  {
    hide FileOf, AllIntact, Completed, Feed, Events;
    var o := FileOf(crc, 0, before).1;
    var bytes := CallBytes(crc, o, call.data, true, call.fates, 0).0;
    LastRun(crc, before, call);
    var file := FileOf(crc, 0, before + [call]).0;
    var q, st := AfterIntact(crc, before, bytes, file);
    WithoutTrailer(crc, o, call);
    SkipTrailer(crc, file, q.b, q.Pos());
    TooShort(crc, file, q.b + BLOCK_SIZE);
    NothingFed(st);
    assert Completed(crc, 0, before) + [] == Completed(crc, 0, before);
  }

  lemma WithoutTrailer(crc: Checksum, o: Offset, call: Call)
    requires |call.data| < Pad(o) && call.fates(0).trailer == 0 && Succeeds(call.fates(0), Physical(FULL_TYPE, call.data))
    ensures var (bytes, _, ok) := CallBytes(crc, o, call.data, true, call.fates, 0); ok && |bytes| == HEADER_SIZE + |call.data|
  {
    assert call.data[..|call.data|] == call.data;
    assert FirstFragment(o, call.data, true) == Physical(FULL_TYPE, call.data);
  }

  lemma TooShort(crc: Checksum, file: seq<Byte>, b: nat)
    requires b <= |file| < b + HEADER_SIZE
    ensures Events(crc, file, b, b) == []
  {
  }

  // ----- what is too short to be read -----

  // At most this much payload can be read from n bytes at the start of a block.
  function Capacity(n: nat): nat {
    if n >= BLOCK_SIZE then BLOCK_SIZE - HEADER_SIZE + Capacity(n - BLOCK_SIZE)
    else if n >= HEADER_SIZE then n - HEADER_SIZE
    else 0
  }

  function PayloadOf(e: Event): nat {
    if e.Fragment? then |e.f.payload| else 0
  }

  function TotalPayload(es: seq<Event>): nat {
    if es == [] then 0 else PayloadOf(es[0]) + TotalPayload(es[1..])
  }

  // What is left of the block from p on, and the blocks behind it.
  function Left(file: seq<Byte>, b: nat, p: nat): nat
    requires b <= |file| && b <= p <= BlockEnd(file, b)
  {
    var e := BlockEnd(file, b);
    (if p + HEADER_SIZE <= e then e - p - HEADER_SIZE else 0) + if FullBlock(file, b) then Capacity(|file| - e) else 0
  }

  lemma TotalFirst(e: Event, es: seq<Event>)
    ensures TotalPayload([e] + es) == PayloadOf(e) + TotalPayload(es) && TotalPayload([]) == 0
  {
    assert ([e] + es)[1..] == es;
  }

  lemma LeftOfBlock(file: seq<Byte>, e: nat)
    requires e <= |file|
    ensures Left(file, e, e) == Capacity(|file| - e)
  {
  }

  lemma {:induction false} PayloadBound(crc: Checksum, file: seq<Byte>, b: nat, p: nat)
    requires b <= |file| && b <= p <= BlockEnd(file, b)
    ensures TotalPayload(Events(crc, file, b, p)) <= Left(file, b, p)
    decreases |file| - b, |file| - p
  {
    hide Capacity, TotalPayload, Events, ProblemIn, PhysicalIn;
    var e := BlockEnd(file, b);
    if FullBlock(file, b) {
      PayloadBound(crc, file, e, e);
      LeftOfBlock(file, e);
    }
    TotalFirst(Bad(BadLength), []);
    if p + HEADER_SIZE > e {
      SkipTrailer(crc, file, b, p);
    } else {
      EventHere(crc, file, b, p);
      match ProblemIn(crc, file[p..e]) {
        case None =>
          PayloadFits(crc, file[p..e]);
          var f := PhysicalIn(file[p..e]);
          var next := p + HEADER_SIZE + |f.payload|;
          PayloadBound(crc, file, b, next);
          TotalFirst(Fragment(f), Events(crc, file, b, next));
        case Some(problem) =>
          TotalFirst(Bad(problem), []);
          assert [Bad(problem)] + [] == [Bad(problem)];
          if FullBlock(file, b) {
            TotalFirst(Bad(problem), Events(crc, file, e, e));
          }
      }
    }
  }

  function Length(st: Option<Record>): nat {
    if st.Some? then |st.value| else 0
  }

  function TotalLength(rs: seq<Record>): nat {
    if rs == [] then 0 else |rs[0]| + TotalLength(rs[1..])
  }

  // Records are made of what was read.
  lemma {:induction false} MadeOfPayload(es: seq<Event>, st: Option<Record>)
    ensures TotalLength(Feed(es, st).0) <= TotalPayload(es) + Length(st)
  {
    if es != [] && !Ends(es[0]) {
      var (done, st1, _) := Accept(st, es[0]);
      var records := Feed(es[1..], st1).0;
      MadeOfPayload(es[1..], st1);
      assert Length(st1) + Length(done) <= PayloadOf(es[0]) + Length(st);
      if done.Some? {
        assert ([done.value] + records)[1..] == records;
      } else {
        assert [] + records == records;
      }
    }
  }

  // A record takes so many bytes that with fewer there is no room for it.
  lemma {:induction false} NoRoom(crc: Checksum, data: Record, begin: bool, missing: nat, o: Offset)
    requires 0 < missing < HEADER_SIZE && data != [] && (o == 0 || o == BLOCK_SIZE)
    ensures |RecordBytes(crc, o, data, begin).0| >= HEADER_SIZE
    ensures Capacity(|RecordBytes(crc, o, data, begin).0| - missing) < |data|
    decreases |data|
  {
    var f := FirstFragment(o, data, begin);
    if |f.payload| < |data| {
      NoRoom(crc, data[|f.payload|..], false, missing, BLOCK_SIZE);
    }
  }

  lemma StartOfBlock(crc: Checksum, data: Record, begin: bool)
    ensures RecordBytes(crc, BLOCK_SIZE, data, begin) == RecordBytes(crc, 0, data, begin)
  {
  }

  lemma ChunkLengths(crc: Checksum, o: Offset, data: Record, begin: bool, fate: Fate)
    ensures var f := FirstFragment(o, data, begin); var kept := if fate.trailer < Pad(o) then fate.trailer else Pad(o);
            && (Succeeds(fate, f) ==> |KeptChunk(crc, o, f, fate)| == kept + HEADER_SIZE + |f.payload|)
            && f == FirstFragment(Start(o), data, begin) && |Chunk(crc, Start(o), f)| == HEADER_SIZE + |f.payload|
            && After(o, f) == After(Start(o), f) && (|f.payload| < |data| ==> After(o, f) == BLOCK_SIZE && (|f.payload| > 0 || Room(o) == 0))
  {
  }

  // Only the first physical record of a call has a trailer before it.
  lemma {:induction false} SuccessLength(crc: Checksum, o: Offset, data: Record, begin: bool, fates: nat -> Fate, i: nat)
    requires CallBytes(crc, o, data, begin, fates, i).2
    ensures var kept := if fates(i).trailer < Pad(o) then fates(i).trailer else Pad(o);
            |CallBytes(crc, o, data, begin, fates, i).0| == kept + |RecordBytes(crc, Start(o), data, begin).0|
    ensures Intact(o, data, begin, fates, i) <==> fates(i).trailer >= Pad(o)
    decreases |data|, if Room(o) == 0 then 1 else 0
  {
    hide KeptChunk, Chunk, FirstFragment;
    var f := FirstFragment(o, data, begin);
    ChunkLengths(crc, o, data, begin, fates(i));
    if |f.payload| < |data| {
      SuccessLength(crc, BLOCK_SIZE, data[|f.payload|..], false, fates, i + 1);
      StartOfBlock(crc, data[|f.payload|..], false);
    }
  }

  // A record whose trailer is missing is not read.
  lemma WithoutTrailerUnread(crc: Checksum, file: seq<Byte>, q: Place, data: Record, kept: nat)
    requires q.Pos() <= |file| && kept < Pad(q.o) && |file| == q.Pos() + kept + |RecordBytes(crc, 0, data, true).0|
    ensures Feed(Scan(crc, file, q), None).0 != [data]
  {
    hide Feed, Capacity, Events, TotalPayload, RecordBytes;
    var e, bytes, missing := q.b + BLOCK_SIZE, |RecordBytes(crc, 0, data, true).0|, Pad(q.o) - kept;
    AtLeastHeader(crc, data);
    SkipTrailer(crc, file, q.b, q.Pos());
    assert Scan(crc, file, q) == Events(crc, file, e, e) && |file| - e == bytes - missing;
    if data == [] {
      TooShort(crc, file, e);
      NothingFed(None);
    } else {
      NoRoom(crc, data, true, missing, 0);
      PayloadBound(crc, file, e, e);
      LeftOfBlock(file, e);
      MadeOfPayload(Events(crc, file, e, e), None);
      LengthOfOne(data);
    }
  }

  lemma AtLeastHeader(crc: Checksum, data: Record)
    ensures |RecordBytes(crc, 0, data, true).0| >= HEADER_SIZE && |RecordBytes(crc, 0, [], true).0| == HEADER_SIZE
  {
  }

  lemma LengthOfOne(data: Record)
    ensures TotalLength([data]) == |data|
  {
    assert [data][1..] == [];
  }

  /** On a log without a failure so far, the record of a call that succeeds is read exactly when the trailer before it,
      which nobody looks at, got there. */
  lemma SuccessIsReadIff(crc: Checksum, before: seq<Call>, call: Call)
    requires AllIntact(crc, 0, before) && |Completed(crc, 0, before)| == |before|
    requires CallBytes(crc, FileOf(crc, 0, before).1, call.data, true, call.fates, 0).2
    ensures Assemble(Events(crc, FileOf(crc, 0, before + [call]).0, 0, 0), None) == Completed(crc, 0, before) + [call.data]
            <==> call.fates(0).trailer >= Pad(FileOf(crc, 0, before).1)
  {
    hide FileOf, AllIntact, Completed, Feed, Events, CallBytes, Intact, Complete, RecordBytes;
    var o := FileOf(crc, 0, before).1;
    var bytes := CallBytes(crc, o, call.data, true, call.fates, 0).0;
    LastRun(crc, before, call);
    var file := FileOf(crc, 0, before + [call]).0;
    var q, st := AfterIntact(crc, before, bytes, file);
    SuccessLength(crc, o, call.data, true, call.fates, 0);
    if call.fates(0).trailer >= Pad(o) {
      SuccessIsComplete(crc, o, call.data, true, call.fates, 0);
      CompleteIff(o, call);
      assert At(file, q.Pos(), bytes);
      var q', st' := IntactCallRead(crc, file, q, None, call);
      ScanEnd(crc, file, q');
      NothingFed(st');
      assert [call.data] + [] == [call.data];
    } else {
      WithoutTrailerUnread(crc, file, q, call.data, call.fates(0).trailer);
      SameRest(Completed(crc, 0, before), Feed(Scan(crc, file, q), None).0, [call.data]);
    }
  }

  lemma SameRest(a: seq<Record>, b: seq<Record>, c: seq<Record>)
    ensures a + b == a + c <==> b == c
  {
    if a + b == a + c {
      assert (a + b)[|a|..] == b && (a + c)[|a|..] == c;
    }
  }

  // The calls before, and the last one.
  lemma LastRun(crc: Checksum, before: seq<Call>, call: Call)
    ensures var (start, o) := FileOf(crc, 0, before);
            FileOf(crc, 0, before + [call]).0 == start + CallBytes(crc, o, call.data, true, call.fates, 0).0
  {
    OneCallMore(crc, before, call);
  }

  // ----- when a failure does no harm -----

  // All of a call is there but so many bytes of its last payload.
  predicate LacksAtEnd(o: Offset, call: Call, missing: nat) {
    if missing == 0 then Intact(o, call.data, true, call.fates, 0) else ShortBy(o, call.data, true, call.fates, 0, missing)
  }

  // Few bytes past a physical record there is nothing to be found.
  lemma NothingBehind(crc: Checksum, file: seq<Byte>, b: nat, o: Offset)
    requires b + o <= |file| < b + o + Pad(o) + HEADER_SIZE
    ensures Events(crc, file, b, b + o) == []
    ensures FullBlock(file, b) ==> Events(crc, file, b + BLOCK_SIZE, b + BLOCK_SIZE) == []
  {
    SkipTrailer(crc, file, b, b + o);
    if FullBlock(file, b) {
      TooShort(crc, file, b + BLOCK_SIZE);
    }
  }

  // A header whose payload is filled up with bytes of what comes behind it: read as a physical record or as a bad one.
  lemma HeaderOverLater(crc: Checksum, file: seq<Byte>, h: Place, f: Physical, tail: seq<Byte>) returns (xs: seq<Event>)
    requires h.o + HEADER_SIZE + |f.payload| <= BLOCK_SIZE && f.kind != ZERO_TYPE && f.payload != []
    requires h.Pos() <= |file| && file[h.Pos()..] == Header(crc, f) + tail
    requires |f.payload| <= |tail| < |f.payload| + Pad(h.o + HEADER_SIZE + |f.payload|) + HEADER_SIZE
    ensures Scan(crc, file, h) == xs && |xs| == 1 && (xs[0].Fragment? ==> xs[0].f.payload != [])
  {
    hide Events, Header, ProblemIn;
    var e, n := BlockEnd(file, h.b), |f.payload|;
    var buffer := file[h.Pos()..e];
    NothingBehind(crc, file, h.b, h.o + HEADER_SIZE + n);
    LengthThere(crc, f, file[h.Pos()..], tail, buffer);
    EventHere(crc, file, h.b, h.Pos());
    match ProblemIn(crc, buffer) {
      case None =>
        xs := [Fragment(PhysicalIn(buffer))];
        assert xs + [] == xs;
      case Some(problem) =>
        xs := [Bad(problem)];
        assert xs + [] == xs;
    }
  }

  lemma LengthThere(crc: Checksum, f: Physical, all: seq<Byte>, tail: seq<Byte>, buffer: seq<Byte>)
    requires |f.payload| < 0x1_0000 && all == Header(crc, f) + tail && buffer <= all && HEADER_SIZE + |f.payload| <= |buffer|
    ensures LengthIn(buffer) == |f.payload| && ProblemIn(crc, buffer) != Some(BadLength)
    ensures |PhysicalIn(buffer).payload| == |f.payload|
  {
    assert buffer[4..6] == all[4..6] == Header(crc, f)[4..6] == LengthBytes(|f.payload|);
  }

  // The last physical record of a call that lacks bytes, and one empty record behind it.
  lemma ScanOver(crc: Checksum, file: seq<Byte>, q: Place, f: Physical, fate: Fate, missing: nat, later: seq<Byte>) returns (xs: seq<Event>)
    requires |f.payload| <= Room(q.o) && f.kind != ZERO_TYPE && missing > 0
    requires fate.trailer >= Pad(q.o) && fate.header >= HEADER_SIZE && fate.payload + missing == |f.payload|
    requires q.Pos() <= |file| && file[q.Pos()..] == KeptChunk(crc, q.o, f, fate) + later && |later| == Pad(After(q.o, f)) + HEADER_SIZE
    ensures Scan(crc, file, q) == xs && |xs| <= 1 && (xs != [] && xs[0].Fragment? ==> xs[0].f.payload != [])
  {
    hide Events, Header;
    if |later| < missing {
      ScanShort(crc, file, q, f, fate, missing, later);
      xs := [];
    } else {
      var h, tail := q.Header(), Kept(f.payload, fate.payload) + later;
      assert file[q.Pos()..] == Zeros(Pad(q.o)) + Header(crc, f) + tail;
      assert file[q.Pos()..][Pad(q.o)..] == file[h.Pos()..] == Header(crc, f) + tail;
      if BLOCK_SIZE - q.o < HEADER_SIZE {
        SkipTrailer(crc, file, q.b, q.Pos());
      }
      xs := HeaderOverLater(crc, file, h, f, tail);
    }
  }

  lemma {:induction false} ShortCallOver(crc: Checksum, file: seq<Byte>, q: Place, data: Record, begin: bool, fates: nat -> Fate, i: nat,
                                         missing: nat, later: seq<Byte>) returns (m: nat, xs: seq<Event>)
    requires ShortBy(q.o, data, begin, fates, i, missing)
    requires q.Pos() <= |file| && file[q.Pos()..] == CallBytes(crc, q.o, data, begin, fates, i).0 + later
    requires |later| == Pad(CallBytes(crc, q.o, data, begin, fates, i).1) + HEADER_SIZE
    ensures m < |Fragments(q.o, data, begin)| && Scan(crc, file, q) == Found(Fragments(q.o, data, begin)[..m]) + xs
    ensures |xs| <= 1 && (xs != [] && xs[0].Fragment? ==> xs[0].f.payload != [])
    decreases |data|, if Room(q.o) == 0 then 1 else 0
  {
    hide Scan, KeptChunk, Chunk, FirstFragment, Found;
    var f := FirstFragment(q.o, data, begin);
    var rest := data[|f.payload|..];
    FragmentsStep(q.o, data, begin);
    FoundNone();
    FragmentFacts(q.o, data, begin);
    if Succeeds(fates(i), f) && |f.payload| < |data| {
      var more := CallBytes(crc, After(q.o, f), rest, false, fates, i + 1).0;
      AtFirst(file, q.Pos(), Chunk(crc, q.o, f), more, later);
      ScanChunk(crc, file, q, f);
      m, xs := ShortCallOver(crc, file, q.Past(f), rest, false, fates, i + 1, missing, later);
      var fs := Fragments(After(q.o, f), rest, false);
      FoundFirst(f, fs, m);
      assert [Fragment(f)] + (Found(fs[..m]) + xs) == [Fragment(f)] + Found(fs[..m]) + xs;
      m := m + 1;
    } else {
      xs := ScanOver(crc, file, q, f, fates(i), missing, later);
      m := 0;
      assert [] + xs == xs;
    }
  }

  // What is read then is no empty record, and not two.
  lemma FeedOver(fs: seq<Physical>, m: nat, xs: seq<Event>, st: Option<Record>)
    requires Kinded(fs, true) && m < |fs| && |xs| <= 1 && (xs != [] && xs[0].Fragment? ==> xs[0].f.payload != [])
    ensures var records := Feed(Found(fs[..m]) + xs, st).0; |records| <= 1 && [] !in records
  {
    hide Feed, Kinded, Found;
    KindedKinds(fs, true);
    FoundGoesOn(fs[..m]);
    FeedConcat(Found(fs[..m]), xs, st);
    FeedCutOff(fs, m, st);
    var st1 := Feed(Found(fs[..m]), st).1;
    FeedOne(xs, st1);
    var records := Feed(xs, st1).0;
    assert [] + records == records;
  }

  lemma FeedOne(xs: seq<Event>, st: Option<Record>)
    requires |xs| <= 1 && (xs != [] && xs[0].Fragment? ==> xs[0].f.payload != [])
    ensures var records := Feed(xs, st).0; |records| <= 1 && [] !in records
  {
    if xs != [] {
      var (done, st1, _) := Accept(st, xs[0]);
      assert done.Some? ==> done.value != [];
      assert xs[1..] == [];
      NothingFed(st1);
    }
  }

  // An empty record that is written without a failure.
  function Empty(): Call {
    Call([], i => Fate(BLOCK_SIZE, HEADER_SIZE, 0, true))
  }

  lemma EmptyCall(crc: Checksum, o: Offset)
    ensures AllIntact(crc, o, [Empty()]) && Completed(crc, o, [Empty()]) == [[]] && |FileOf(crc, o, [Empty()]).0| == Pad(o) + HEADER_SIZE
  {
    var bytes := CallBytes(crc, o, [], true, Empty().fates, 0).0;
    NoCalls(crc, CallEnd(crc, o, Empty()));
    assert [Empty()][1..] == [] && bytes + [] == bytes;
    FragmentsStep(o, [], true);
    var one: seq<Record> := [[]];
    assert one + [] == one;
  }

  // Reading gives the complete calls before and behind one, and nothing else but its own record.
  ghost predicate Unharmed(crc: Checksum, before: seq<Call>, call: Call, later: seq<Call>) {
    var (_, o) := FileOf(crc, 0, before);
    var b, l, own := Completed(crc, 0, before), Completed(crc, CallEnd(crc, o, call), later), [call.data];
    var read := Assemble(Events(crc, FileOf(crc, 0, before + [call] + later).0, 0, 0), None);
    read == b + l || read == b + (own + l)
  }

  lemma WholeIsHarmless(crc: Checksum, before: seq<Call>, call: Call, later: seq<Call>)
    requires AllIntact(crc, 0, before) && Intact(FileOf(crc, 0, before).1, call.data, true, call.fates, 0)
    requires AllIntact(crc, CallEnd(crc, FileOf(crc, 0, before).1, call), later)
    ensures Unharmed(crc, before, call, later)
  {
    hide FileOf, AllIntact, Completed, Feed, Events, CallBytes, Intact, Complete;
    var o := FileOf(crc, 0, before).1;
    var bytes, behind := CallBytes(crc, o, call.data, true, call.fates, 0).0, FileOf(crc, CallEnd(crc, o, call), later).0;
    var file := FileOf(crc, 0, before + [call] + later).0;
    ThreeRuns(crc, before, call, later);
    var q, st := AfterIntact(crc, before, bytes + behind, file);
    AtBoth(file, q.Pos(), bytes, behind);
    var q1, st1 := IntactCallRead(crc, file, q, st, call);
    var q2, st2 := IntactCallsRead(crc, file, q1, st1, later);
    ScanEnd(crc, file, q2);
    NothingFed(st2);
    var l := Completed(crc, CallEnd(crc, o, call), later);
    assert l + [] == l && [] + l == l;
  }

  lemma AtBoth(file: seq<Byte>, p: nat, a: seq<Byte>, b: seq<Byte>)
    requires p <= |file| && file[p..] == a + b
    ensures At(file, p, a) && At(file, p + |a|, b) && |file| == p + |a| + |b|
  {
    assert file[p..p + |a|] == file[p..][..|a|];
    assert file[p + |a|..] == file[p..][|a|..];
    assert file[p + |a|..|file|] == file[p + |a|..];
  }

  lemma ShortHarms(crc: Checksum, before: seq<Call>, call: Call, missing: nat)
    requires AllIntact(crc, 0, before) && ShortBy(FileOf(crc, 0, before).1, call.data, true, call.fates, 0, missing)
    ensures !Unharmed(crc, before, call, [Empty()])
  {
    hide FileOf, AllIntact, Completed, Feed, Events, ShortBy, CallBytes, Fragments, Kinded;
    var o := FileOf(crc, 0, before).1;
    var later := [Empty()];
    var bytes, behind := CallBytes(crc, o, call.data, true, call.fates, 0).0, FileOf(crc, CallEnd(crc, o, call), later).0;
    var file := FileOf(crc, 0, before + [call] + later).0;
    ThreeRuns(crc, before, call, later);
    EmptyCall(crc, CallEnd(crc, o, call));
    var q, st := AfterIntact(crc, before, bytes + behind, file);
    var m, xs := ShortCallOver(crc, file, q, call.data, true, call.fates, 0, missing, behind);
    FragmentsCarry(o, call.data, true);
    FeedOver(Fragments(o, call.data, true), m, xs, st);
    NotWithEmpty(Completed(crc, 0, before), Feed(Scan(crc, file, q), st).0, call.data);
  }

  lemma NotWithEmpty(b: seq<Record>, records: seq<Record>, data: Record)
    requires |records| <= 1 && [] !in records
    ensures b + records != b + [[]] && b + records != b + ([data] + [[]])
  {
    SameRest(b, records, [[]]);
    SameRest(b, records, [data] + [[]]);
    var one: seq<Record> := [[]];
    assert one[0] in one;
  }

  /** A call that lacks bytes at the end of its last payload, or none, does no harm to any calls behind it of which no byte
      is missing, exactly when it lacks none. */
  lemma HarmlessIff(crc: Checksum, before: seq<Call>, call: Call, missing: nat)
    requires AllIntact(crc, 0, before) && LacksAtEnd(FileOf(crc, 0, before).1, call, missing)
    ensures (forall later {:trigger Unharmed(crc, before, call, later)} ::
               AllIntact(crc, CallEnd(crc, FileOf(crc, 0, before).1, call), later) ==> Unharmed(crc, before, call, later)) <==> missing == 0
  {
    hide Unharmed, AllIntact, FileOf, ShortBy, Intact;
    if missing == 0 {
      forall later {:trigger Unharmed(crc, before, call, later)} | AllIntact(crc, CallEnd(crc, FileOf(crc, 0, before).1, call), later)
        ensures Unharmed(crc, before, call, later)
      {
        WholeIsHarmless(crc, before, call, later);
      }
    } else {
      ShortHarms(crc, before, call, missing);
      EmptyCall(crc, CallEnd(crc, FileOf(crc, 0, before).1, call));
    }
  }

  // ----- at work -----

  /** A call fails with its payload not in the file; the next one succeeds; what is read is nothing, and nothing is
      reported. */
  method SuccessIsLost(crc: Checksum, big: Record, small: Record) returns (first: bool, second: bool, read: seq<Record>, reports: nat)
    requires |small| + HEADER_SIZE < |big| && |big| + |small| + 2 * HEADER_SIZE <= BLOCK_SIZE
    ensures !first && second && read == [] && reports == 0
  {
    hide Events, FileOf, Assemble, Feed;
    var w := new FallibleWriter(crc);
    var failing, working := Call(big, i => Fate(0, HEADER_SIZE, 0, true)), Call(small, i => Fate(0, HEADER_SIZE, |small|, true));
    first := w.AddRecord(failing);
    second := w.AddRecord(working);
    TwoCalls(crc, failing, working);
    assert w.dest == FileOf(crc, 0, [failing, working]).0;
    OneFragment(crc, 0, failing);
    OneFragment(crc, HEADER_SIZE + |big|, working);
    assert [] + [failing] + [working] == [failing, working];
    NoCalls(crc, 0);
    LaterCallsLost(crc, [], failing, |big|, [working]);
    read, reports := ReadAll(crc, w.dest);
  }

  lemma TwoCalls(crc: Checksum, a: Call, b: Call)
    ensures var (bytes, end, _) := CallBytes(crc, 0, a.data, true, a.fates, 0);
            FileOf(crc, end, [b]).0 == CallBytes(crc, end, b.data, true, b.fates, 0).0 &&
            FileOf(crc, 0, [a, b]).0 == bytes + CallBytes(crc, end, b.data, true, b.fates, 0).0
  {
    hide CallBytes;
    assert [a, b][1..] == [b] && [b][1..] == [];
    var (bytes, end, _) := CallBytes(crc, 0, a.data, true, a.fates, 0);
    var more := CallBytes(crc, end, b.data, true, b.fates, 0).0;
    NoCalls(crc, CallEnd(crc, end, b));
    assert more + [] == more;
  }

  // A record that fits into its block is one physical record.
  lemma OneFragment(crc: Checksum, o: Offset, call: Call)
    requires o + HEADER_SIZE + |call.data| <= BLOCK_SIZE
    ensures var f := Physical(FULL_TYPE, call.data);
            && FirstFragment(o, call.data, true) == f && |f.payload| <= Room(o)
            && CallBytes(crc, o, call.data, true, call.fates, 0) == (KeptChunk(crc, o, f, call.fates(0)), o + HEADER_SIZE + |call.data|, Succeeds(call.fates(0), f))
            && |KeptChunk(crc, o, f, call.fates(0))| <= HEADER_SIZE + |call.data|
  {
    assert call.data[..|call.data|] == call.data;
  }
}
