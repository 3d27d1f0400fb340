/** The log when appends to its file may fail: a call that fails can leave part of its record behind, and the writer
    goes on as if all of it were there. */
module LogFailures {
  import opened Options
  import opened Bytes
  import opened Checksums
  import opened LogFormat
  import opened Log
  import opened LogProperties
  import opened LogDamage

  // What becomes of one physical record: how many bytes of its trailer, header and payload get to the file if they are
  // appended, and whether flushing succeeds.
  datatype Fate = Fate(trailer: nat, header: nat, payload: nat, flushed: bool)

  // A call, with what becomes of its physical records.
  datatype Call = Call(data: Record, fates: nat -> Fate)

  function Kept(bytes: seq<Byte>, n: nat): seq<Byte> {
    if n < |bytes| then bytes[..n] else bytes
  }

  // Nobody looks at how the append of a trailer went.
  predicate Succeeds(fate: Fate, f: Physical) {
    fate.header >= HEADER_SIZE && fate.payload >= |f.payload| && fate.flushed
  }

  // All of its bytes are in the file.
  predicate Whole(fate: Fate, o: Offset, f: Physical) {
    fate.trailer >= Pad(o) && fate.header >= HEADER_SIZE && fate.payload >= |f.payload|
  }

  ghost function KeptChunk(crc: Checksum, o: Offset, f: Physical, fate: Fate): (s: seq<Byte>)
    requires |f.payload| <= Room(o)
    ensures Whole(fate, o, f) ==> s == Chunk(crc, o, f)
  {
    Kept(Zeros(Pad(o)), fate.trailer) + Kept(Header(crc, f), fate.header)
    + if fate.header >= HEADER_SIZE then Kept(f.payload, fate.payload) else []
  }

  // What a call adds to the file, the writer's offset after it, and whether it succeeds. The offset moves past every
  // physical record, however much of it is there.
  ghost function CallBytes(crc: Checksum, o: Offset, data: Record, begin: bool, fates: nat -> Fate, i: nat): (r: (seq<Byte>, Offset, bool))
    decreases |data|, if Room(o) == 0 then 1 else 0
  {
    var f := FirstFragment(o, data, begin);
    var kept := KeptChunk(crc, o, f, fates(i));
    if !Succeeds(fates(i), f) || |f.payload| == |data| then (kept, After(o, f), Succeeds(fates(i), f))
    else
      var (bytes, end, ok) := CallBytes(crc, After(o, f), data[|f.payload|..], false, fates, i + 1);
      (kept + bytes, end, ok)
  }

  class FallibleWriter {
    const crc: Checksum
    var dest: seq<Byte>
    var blockOffset: Offset

    constructor (crc: Checksum)
      ensures this.crc == crc && dest == [] && blockOffset == 0
    {
      this.crc := crc;
      dest := [];
      blockOffset := 0;
    }

    method Append(bytes: seq<Byte>, kept: nat) returns (ok: bool)
      modifies this`dest
      ensures dest == old(dest) + Kept(bytes, kept) && (ok <==> kept >= |bytes|)
    {
      dest := dest + Kept(bytes, kept);
      ok := kept >= |bytes|;
    }

    method EmitPhysicalRecord(kind: Byte, data: seq<Byte>, fate: Fate) returns (ok: bool)
      requires blockOffset + HEADER_SIZE + |data| <= BLOCK_SIZE
      modifies this
      ensures var f := Physical(kind, data);
              && dest == old(dest) + (Kept(Header(crc, f), fate.header) + if fate.header >= HEADER_SIZE then Kept(data, fate.payload) else [])
              && (ok <==> Succeeds(fate, f))
      ensures blockOffset == old(blockOffset) + HEADER_SIZE + |data|
    {
      LengthBytesExist(|data|);
      var header: seq<Byte> := crc([kind] + data) + [|data| % 256, |data| / 256] + [kind];
      assert header == Header(crc, Physical(kind, data));
      ok := Append(header, fate.header);
      if ok {
        ok := Append(data, fate.payload);
        if ok {
          ok := fate.flushed;
        }
      }
      blockOffset := blockOffset + HEADER_SIZE + |data|;
    }

    // Switch to a new block when no header fits, whether or not the trailer gets there.
    method StartBlock(trailer: nat)
      modifies this
      ensures dest == old(dest) + Kept(Zeros(Pad(old(blockOffset))), trailer) && blockOffset == Start(old(blockOffset))
    {
      var leftover := BLOCK_SIZE - blockOffset;
      if leftover < HEADER_SIZE {
        if leftover > 0 {
          var _ := Append(Zeros(leftover), trailer);
        }
        blockOffset := 0;
      }
    }

    // Emit the next fragment of a record; hand back what is left of it.
    method AddFragment(left: Record, begin: bool, fate: Fate) returns (ok: bool, left': Record)
      modifies this
      ensures var f := FirstFragment(old(blockOffset), left, begin);
              && dest == old(dest) + KeptChunk(crc, old(blockOffset), f, fate)
              && blockOffset == After(old(blockOffset), f)
              && left' == left[|f.payload|..] && (ok <==> Succeeds(fate, f))
      ensures left' != [] ==> |left'| < |left| || Room(blockOffset) > 0 == Room(old(blockOffset))
    {
      hide Kept, Header, Zeros;
      StartBlock(fate.trailer);
      var avail := BLOCK_SIZE - blockOffset - HEADER_SIZE;
      var fragmentLength := if |left| < avail then |left| else avail;
      var end := |left| == fragmentLength;
      ok := EmitPhysicalRecord(KindOf(begin, end), left[..fragmentLength], fate);
      left' := left[fragmentLength..];
    }

    /** Append one record, until it is there or something fails. */
    method AddRecord(call: Call) returns (ok: bool)
      modifies this
      ensures (dest, blockOffset, ok) == var (bytes, end, good) := CallBytes(crc, old(blockOffset), call.data, true, call.fates, 0);
                                         (old(dest) + bytes, end, good)
    {
      hide KeptChunk, Succeeds, FirstFragment;
      ok := true;
      var left, begin, more, i := call.data, true, true, 0;
      ghost var (bytes, end, good) := CallBytes(crc, blockOffset, call.data, true, call.fates, 0);
      ghost var rest := bytes;  // the bytes still to come
      while more
        invariant dest + rest == old(dest) + bytes
        invariant (rest, end, good) == if more then CallBytes(crc, blockOffset, left, begin, call.fates, i) else ([], blockOffset, ok)
        decreases more, |left|, Room(blockOffset) == 0
      {
        rest := rest[|KeptChunk(crc, blockOffset, FirstFragment(blockOffset, left, begin), call.fates(i))|..];
        ok, left := AddFragment(left, begin, call.fates(i));
        begin, i := false, i + 1;
        more := ok && |left| > 0;
      }
      assert dest + [] == dest;
    }
  }

  // ----- calls of which every byte is there -----

  // The physical records that a call emits, up to the first that fails.
  function Emits(o: Offset, data: Record, begin: bool, fates: nat -> Fate, i: nat): (fs: seq<Physical>)
    ensures fs != []
    decreases |data|, if Room(o) == 0 then 1 else 0
  {
    var f := FirstFragment(o, data, begin);
    if !Succeeds(fates(i), f) || |f.payload| == |data| then [f]
    else [f] + Emits(After(o, f), data[|f.payload|..], false, fates, i + 1)
  }

  // Every byte of them is in the file.
  predicate Intact(o: Offset, data: Record, begin: bool, fates: nat -> Fate, i: nat)
    decreases |data|, if Room(o) == 0 then 1 else 0
  {
    var f := FirstFragment(o, data, begin);
    && Whole(fates(i), o, f)
    && (Succeeds(fates(i), f) && |f.payload| < |data| ==> Intact(After(o, f), data[|f.payload|..], false, fates, i + 1))
  }

  // Its last physical record is emitted too.
  predicate Complete(o: Offset, call: Call) {
    |Emits(o, call.data, true, call.fates, 0)| == |Fragments(o, call.data, true)|
  }

  lemma {:induction false} EmitsFirst(o: Offset, data: Record, begin: bool, fates: nat -> Fate, i: nat)
    ensures Emits(o, data, begin, fates, i) <= Fragments(o, data, begin)
    decreases |data|, if Room(o) == 0 then 1 else 0
  {
    var f := FirstFragment(o, data, begin);
    FragmentsStep(o, data, begin);
    if Succeeds(fates(i), f) && |f.payload| < |data| {
      EmitsFirst(After(o, f), data[|f.payload|..], false, fates, i + 1);
    }
  }

  /** A call that succeeds has emitted all of its record. */
  lemma {:induction false} SuccessIsComplete(crc: Checksum, o: Offset, data: Record, begin: bool, fates: nat -> Fate, i: nat)
    ensures CallBytes(crc, o, data, begin, fates, i).2 ==> |Emits(o, data, begin, fates, i)| == |Fragments(o, data, begin)|
    decreases |data|, if Room(o) == 0 then 1 else 0
  {
    var f := FirstFragment(o, data, begin);
    FragmentsStep(o, data, begin);
    if Succeeds(fates(i), f) && |f.payload| < |data| {
      SuccessIsComplete(crc, After(o, f), data[|f.payload|..], false, fates, i + 1);
    }
  }

  lemma {:induction false} IntactIsLayout(crc: Checksum, o: Offset, data: Record, begin: bool, fates: nat -> Fate, i: nat)
    requires Intact(o, data, begin, fates, i)
    ensures var fs := Emits(o, data, begin, fates, i); var (bytes, end, _) := CallBytes(crc, o, data, begin, fates, i);
            Fit(o, fs) && bytes == Layout(crc, o, fs) && end == AfterAll(o, fs)
    decreases |data|, if Room(o) == 0 then 1 else 0
  {
    var f := FirstFragment(o, data, begin);
    if Succeeds(fates(i), f) && |f.payload| < |data| {
      var rest := data[|f.payload|..];
      var fs := Emits(After(o, f), rest, false, fates, i + 1);
      IntactIsLayout(crc, After(o, f), rest, false, fates, i + 1);
      FitStep(o, f, fs);
      LayoutStep(crc, o, f, fs);
    } else {
      FitStep(o, f, []);
      LayoutStep(crc, o, f, []);
      assert Chunk(crc, o, f) + [] == Chunk(crc, o, f);
    }
  }

  // ----- reading one call back -----

  // The fragments of a record up to the m-th complete it exactly when they are all of them, whatever was unfinished
  // before, and cause at most the report for that.
  lemma FeedSome(fs: seq<Physical>, m: nat, st: Option<Record>) returns (st': Option<Record>)
    requires Kinded(fs, true) && 1 <= m <= |fs|
    ensures var (records, st1, n) := Feed(Found(fs[..m]), st);
            records == (if m == |fs| then [Payload(fs)] else []) && st1 == st' && n <= Count(st)
    ensures st'.Some? <==> m < |fs|
  {
    var first, rest := fs[0], fs[..m][1..];
    assert rest == fs[1..][..m - 1];
    FeedFirst(Fragment(first), Found(rest), st);
    if |fs| == 1 {
      assert rest == [] && fs[1..] == [] && first.payload + [] == first.payload;
      assert [first.payload] + [] == [first.payload];
      st' := None;
    } else {
      st' := FeedMore(fs[1..], m - 1, first.payload);
      assert Accept(st, Fragment(first)).1 == Some(first.payload);
    }
  }

  lemma {:induction false} FeedMore(fs: seq<Physical>, m: nat, got: Record) returns (st': Option<Record>)
    requires Kinded(fs, false) && m <= |fs|
    ensures Feed(Found(fs[..m]), Some(got)) == (if m == |fs| then [got + Payload(fs)] else [], st', 0)
    ensures st'.Some? <==> m < |fs|
  {
    if m == |fs| {
      assert fs[..m] == fs;
      FeedRecord(fs, false, got);
      st' := None;
    } else if m == 0 {
      st' := Some(got);
    } else {
      assert fs[..m][1..] == fs[1..][..m - 1];
      AcceptFragment(fs, false, got);
      FeedFirst(Fragment(fs[0]), Found(fs[1..][..m - 1]), Some(got));
      st' := FeedMore(fs[1..], m - 1, got + fs[0].payload);
    }
  }

  function Count(st: Option<Record>): nat {
    if st.Some? then 1 else 0
  }

  lemma KindsOfPrefix(o: Offset, data: Record, fs: seq<Physical>)
    requires fs <= Fragments(o, data, true)
    ensures Kinds(fs) && GoesOn(Found(fs))
  {
    FragmentKinds(o, data, true);
    FoundGoesOn(fs);
  }

  // A call of which every byte is there: its record is read if it is complete, and reading goes on after it.
  lemma IntactCallRead(crc: Checksum, file: seq<Byte>, q: Place, st: Option<Record>, call: Call) returns (q': Place, st': Option<Record>)
    requires Intact(q.o, call.data, true, call.fates, 0) && At(file, q.Pos(), CallBytes(crc, q.o, call.data, true, call.fates, 0).0)
    ensures q'.o == CallBytes(crc, q.o, call.data, true, call.fates, 0).1
    ensures q'.Pos() == q.Pos() + |CallBytes(crc, q.o, call.data, true, call.fates, 0).0| <= |file|
    ensures st'.None? <==> Complete(q.o, call)
    ensures var (records, _, n) := Feed(Scan(crc, file, q), st); var (more, _, m) := Feed(Scan(crc, file, q'), st');
            records == (if Complete(q.o, call) then [call.data] else []) + more && n <= Count(st) + m
  {
    hide Scan, Feed, Layout, CallBytes, Intact, At, Emits, Fragments;
    var fs, all := Emits(q.o, call.data, true, call.fates, 0), Fragments(q.o, call.data, true);
    EmitsFirst(q.o, call.data, true, call.fates, 0);
    IntactIsLayout(crc, q.o, call.data, true, call.fates, 0);
    KindsOfPrefix(q.o, call.data, fs);
    ScanAll(crc, file, q, fs);
    q' := q.PastAll(fs);
    FragmentsCarry(q.o, call.data, true);
    assert fs == all[..|fs|];
    st' := FeedSome(all, |fs|, st);
    FeedConcat(Found(fs), Scan(crc, file, q'), st);
  }

  // ----- runs of calls -----

  ghost function CallEnd(crc: Checksum, o: Offset, call: Call): Offset {
    CallBytes(crc, o, call.data, true, call.fates, 0).1
  }

  // The bytes of calls one after another from offset o, and the offset after them.
  ghost function FileOf(crc: Checksum, o: Offset, calls: seq<Call>): (r: (seq<Byte>, Offset))
    decreases |calls|
  {
    if calls == [] then ([], o)
    else
      var (more, end) := FileOf(crc, CallEnd(crc, o, calls[0]), calls[1..]);
      (CallBytes(crc, o, calls[0].data, true, calls[0].fates, 0).0 + more, end)
  }

  // No byte of any call is missing.
  ghost predicate AllIntact(crc: Checksum, o: Offset, calls: seq<Call>)
    decreases |calls|
  {
    calls == [] || (Intact(o, calls[0].data, true, calls[0].fates, 0) && AllIntact(crc, CallEnd(crc, o, calls[0]), calls[1..]))
  }

  // The records of the complete calls.
  ghost function Completed(crc: Checksum, o: Offset, calls: seq<Call>): (rs: seq<Record>)
    ensures |rs| <= |calls|
    decreases |calls|
  {
    if calls == [] then []
    else (if Complete(o, calls[0]) then [calls[0].data] else []) + Completed(crc, CallEnd(crc, o, calls[0]), calls[1..])
  }

  lemma FirstCallAt(crc: Checksum, file: seq<Byte>, q: Place, calls: seq<Call>)
    requires calls != [] && At(file, q.Pos(), FileOf(crc, q.o, calls).0)
    ensures var bytes := CallBytes(crc, q.o, calls[0].data, true, calls[0].fates, 0).0; var more := FileOf(crc, CallEnd(crc, q.o, calls[0]), calls[1..]);
            && At(file, q.Pos(), bytes) && At(file, q.Pos() + |bytes|, more.0)
            && |FileOf(crc, q.o, calls).0| == |bytes| + |more.0| && FileOf(crc, q.o, calls).1 == more.1
  {
    hide CallBytes, At;
    SplitAt(file, q.Pos(), CallBytes(crc, q.o, calls[0].data, true, calls[0].fates, 0).0, FileOf(crc, CallEnd(crc, q.o, calls[0]), calls[1..]).0);
  }

  lemma AddSeqs(a: seq<Record>, b: seq<Record>, c: seq<Record>)
    ensures a + (b + c) == a + b + c
  {
  }

  lemma {:induction false} IntactCallsRead(crc: Checksum, file: seq<Byte>, q: Place, st: Option<Record>, calls: seq<Call>)
      returns (q': Place, st': Option<Record>)
    requires q.Pos() <= |file| && AllIntact(crc, q.o, calls) && At(file, q.Pos(), FileOf(crc, q.o, calls).0)
    ensures q'.o == FileOf(crc, q.o, calls).1 && q'.Pos() == q.Pos() + |FileOf(crc, q.o, calls).0| <= |file|
    ensures var (records, _, n) := Feed(Scan(crc, file, q), st); var (more, _, m) := Feed(Scan(crc, file, q'), st');
            records == Completed(crc, q.o, calls) + more && n + Count(st') <= |calls| - |Completed(crc, q.o, calls)| + Count(st) + m
    ensures |Completed(crc, q.o, calls)| == |calls| && st.None? ==> st'.None?
    decreases |calls|
  {
    hide CallBytes, At, Scan, Feed, Intact, Complete;
    if calls == [] {
      q', st' := q, st;
      assert [] + Feed(Scan(crc, file, q), st).0 == Feed(Scan(crc, file, q), st).0;
    } else {
      FirstCallAt(crc, file, q, calls);
      var q1, st1 := IntactCallRead(crc, file, q, st, calls[0]);
      q', st' := IntactCallsRead(crc, file, q1, st1, calls[1..]);
      AddSeqs(if Complete(q.o, calls[0]) then [calls[0].data] else [], Completed(crc, CallEnd(crc, q.o, calls[0]), calls[1..]),
              Feed(Scan(crc, file, q'), st').0);
    }
  }

  /** As long as no byte is missing, failures do no harm: whatever comes behind them, the records of the complete calls
      are read, in order. Those include all calls that succeed, and the ones of which only the last flush failed. When
      nothing comes behind them, nothing else is read, and at most the calls that are not complete are reported. */
  lemma WithoutLoss(crc: Checksum, calls: seq<Call>, file: seq<Byte>)
    requires AllIntact(crc, 0, calls) && FileOf(crc, 0, calls).0 <= file
    ensures Completed(crc, 0, calls) <= Assemble(Events(crc, file, 0, 0), None)
    ensures file == FileOf(crc, 0, calls).0 ==>
              Assemble(Events(crc, file, 0, 0), None) == Completed(crc, 0, calls) &&
              Reports(Events(crc, file, 0, 0), None) <= |calls| - |Completed(crc, 0, calls)|
  {
    hide FileOf, AllIntact, Completed, Feed, Events;
    ScanFromStart(crc, file);
    var bytes := FileOf(crc, 0, calls).0;
    assert file[0..0 + |bytes|] == bytes;
    var q, st := IntactCallsRead(crc, file, Place(0, 0), None, calls);
    if file == bytes {
      ScanEnd(crc, file, q);
      NothingFed(st);
    }
  }

  lemma NothingFed(st: Option<Record>)
    ensures Feed([], st) == ([], st, 0)
  {
  }

  lemma NoCalls(crc: Checksum, o: Offset)
    ensures FileOf(crc, o, []) == ([], o)
  {
  }

  lemma {:induction false} FileConcat(crc: Checksum, o: Offset, a: seq<Call>, b: seq<Call>)
    ensures FileOf(crc, o, a + b).0 == FileOf(crc, o, a).0 + FileOf(crc, FileOf(crc, o, a).1, b).0
    decreases |a|
  {
    hide CallBytes;
    if a == [] {
      assert a + b == b;
      assert [] + FileOf(crc, o, b).0 == FileOf(crc, o, b).0;
    } else {
      var end := CallEnd(crc, o, a[0]);
      assert (a + b)[1..] == a[1..] + b;
      FileConcat(crc, end, a[1..], b);
      Assoc(CallBytes(crc, o, a[0].data, true, a[0].fates, 0).0, FileOf(crc, end, a[1..]).0, FileOf(crc, FileOf(crc, end, a[1..]).1, b).0);
    }
  }

  lemma OneCallMore(crc: Checksum, calls: seq<Call>, call: Call)
    ensures var (start, o) := FileOf(crc, 0, calls); var (bytes, end, _) := CallBytes(crc, o, call.data, true, call.fates, 0);
            FileOf(crc, 0, calls + [call]) == (start + bytes, end)
  {
    OneCallMoreFrom(crc, 0, calls, call);
  }

  lemma {:induction false} OneCallMoreFrom(crc: Checksum, o: Offset, calls: seq<Call>, call: Call)
    ensures var (start, middle) := FileOf(crc, o, calls); var (bytes, end, _) := CallBytes(crc, middle, call.data, true, call.fates, 0);
            FileOf(crc, o, calls + [call]) == (start + bytes, end)
    decreases |calls|
  {
    hide CallBytes;
    if calls == [] {
      assert [call][1..] == [] && calls + [call] == [call];
      var bytes := CallBytes(crc, o, call.data, true, call.fates, 0).0;
      assert bytes + [] == bytes && [] + bytes == bytes;
    } else {
      var next := CallEnd(crc, o, calls[0]);
      assert (calls + [call])[1..] == calls[1..] + [call];
      OneCallMoreFrom(crc, next, calls[1..], call);
      var (more, middle) := FileOf(crc, next, calls[1..]);
      Assoc(CallBytes(crc, o, calls[0].data, true, calls[0].fates, 0).0, more, CallBytes(crc, middle, call.data, true, call.fates, 0).0);
    }
  }

  lemma CompleteIff(o: Offset, call: Call)
    ensures Complete(o, call) <==> |Emits(o, call.data, true, call.fates, 0)| == |Fragments(o, call.data, true)|
  {
  }

  /** Any run of calls, whatever becomes of their bytes: up to the first missing byte the records of the complete calls are
      read, in order, and a call that succeeds is complete. */
  method WriteThenRead(crc: Checksum, calls: seq<Call>) returns (oks: seq<bool>, read: seq<Record>, reports: nat)
    ensures |oks| == |calls| && forall i :: 0 <= i < |calls| && oks[i] ==> Complete(FileOf(crc, 0, calls[..i]).1, calls[i])
    ensures forall n {:trigger calls[..n]} :: 0 <= n <= |calls| && AllIntact(crc, 0, calls[..n]) ==> Completed(crc, 0, calls[..n]) <= read
    ensures AllIntact(crc, 0, calls) ==> read == Completed(crc, 0, calls) && reports <= |calls| - |read|
  {
    hide FileOf, Complete, AllIntact, Completed, CallBytes, Events, Feed;
    var w := new FallibleWriter(crc);
    oks := [];
    NoCalls(crc, 0);
    for i := 0 to |calls|
      invariant fresh(w) && w.crc == crc && (w.dest, w.blockOffset) == FileOf(crc, 0, calls[..i])
      invariant |oks| == i && forall j :: 0 <= j < i && oks[j] ==> Complete(FileOf(crc, 0, calls[..j]).1, calls[j])
    {
      SuccessIsComplete(crc, w.blockOffset, calls[i].data, true, calls[i].fates, 0);
      CompleteIff(w.blockOffset, calls[i]);
      assert calls[..i + 1] == calls[..i] + [calls[i]];
      OneCallMore(crc, calls[..i], calls[i]);
      var ok := w.AddRecord(calls[i]);
      oks := oks + [ok];
    }
    assert calls[..|calls|] == calls;
    read, reports := ReadAll(crc, w.dest);
    forall n {:trigger calls[..n]} | 0 <= n <= |calls| && AllIntact(crc, 0, calls[..n])
      ensures Completed(crc, 0, calls[..n]) <= read
    {
      assert calls == calls[..n] + calls[n..];
      FileConcat(crc, 0, calls[..n], calls[n..]);
      WithoutLoss(crc, calls[..n], w.dest);
    }
    if AllIntact(crc, 0, calls) {
      WithoutLoss(crc, calls, w.dest);
    }
  }
}
