/** Physical records of types that the log format does not have: what its description says of them, and what the
    reader makes of two of them. */
module LogTypes {
  import opened Options
  import opened Bytes
  import opened Checksums
  import opened LogFormat
  import opened Log
  import opened LogProperties
  import opened WriteBatches
  import Recovery

  // A physical record of a type that is not in the format.
  predicate Unknown(e: Event) {
    e.Fragment? && !(FULL_TYPE <= e.f.kind <= LAST_TYPE)
  }

  // As the description has it, a type that is not understood is skipped, and that is reported.
  function AcceptDescribed(st: Option<Record>, e: Event): (r: (Option<Record>, Option<Record>, nat)) {
    if Unknown(e) then (None, None, 1) else Accept(st, e)
  }

  // The records and the number of reports, with every type that is not understood skipped.
  function Described(es: seq<Event>, st: Option<Record>): (r: (seq<Record>, nat)) {
    if es == [] then ([], 0)
    else
      var (done, st1, n) := AcceptDescribed(st, es[0]);
      var (records, more) := Described(es[1..], st1);
      ((if done.Some? then [done.value] else []) + records, n + more)
  }

  // Nothing is taken for the end of the file, and a record is open wherever one is taken for a bad record.
  predicate NoneMistaken(es: seq<Event>, st: Option<Record>) {
    es != [] ==>
      && !Ends(es[0]) && (es[0].Fragment? && es[0].f.kind == BAD_TYPE ==> st.Some?)
      && NoneMistaken(es[1..], Accept(st, es[0]).1)
  }

  /** The reader gives the records and the reports of the description, exactly when it mistakes no physical record. */
  lemma {:induction false} ReadAsDescribedIff(es: seq<Event>, st: Option<Record>)
    ensures Reports(es, st) <= Described(es, st).1
    ensures (Assemble(es, st), Reports(es, st)) == Described(es, st) <==> NoneMistaken(es, st)
    ensures Reports(es, st) == Described(es, st).1 <==> NoneMistaken(es, st)
  {
    if es != [] && !Ends(es[0]) {
      ReadAsDescribedIff(es[1..], Accept(st, es[0]).1);
    }
  }

  // How many events come before reading ends.
  function BeforeEnd(es: seq<Event>): (n: nat)
    ensures n <= |es| && (n < |es| ==> Ends(es[n]))
  {
    if es == [] || Ends(es[0]) then 0 else 1 + BeforeEnd(es[1..])
  }

  // What a physical record of an unknown type leaves unfinished is nothing, whatever came before.
  lemma EndForgets(es: seq<Event>, st: Option<Record>)
    requires es != [] && Ends(es[0])
    ensures Described(es, st) == Described(es, None)
  {
  }

  /** The records that the reader does not give are exactly those behind where it ends. */
  lemma {:induction false} LostBehindEnd(es: seq<Event>, st: Option<Record>)
    ensures Described(es, st).0 == Assemble(es, st) + if BeforeEnd(es) < |es| then Described(es[BeforeEnd(es)..], None).0 else []
  {
    if es != [] {
      if Ends(es[0]) {
        EndForgets(es, st);
        assert es[0..] == es;
      } else {
        var (done, st1, _) := Accept(st, es[0]);
        LostBehindEnd(es[1..], st1);
        var n := BeforeEnd(es[1..]);
        assert es[1..][n..] == es[1 + n..];
        Regroup(if done.Some? then [done.value] else [], Assemble(es[1..], st1),
                if n < |es| - 1 then Described(es[1..][n..], None).0 else []);
      }
    }
  }

  lemma Regroup(a: seq<Record>, b: seq<Record>, c: seq<Record>)
    ensures a + (b + c) == a + b + c
  {
  }

  // ----- files -----

  lemma LayoutIsFound(crc: Checksum, fs: seq<Physical>)
    requires Fit(0, fs) && Kinds(fs)
    ensures Events(crc, Layout(crc, 0, fs), 0, 0) == Found(fs)
  {
    hide Events, Layout, Found;
    var file, q := Layout(crc, 0, fs), Place(0, 0);
    ScanAll(crc, file, q, fs);
    ScanEnd(crc, file, q.PastAll(fs));
  }

  // Two physical records in one block.
  function Two(kind: Byte, p: Record, data: Record): (fs: seq<Physical>)
    requires |p| + |data| + 2 * HEADER_SIZE <= BLOCK_SIZE && kind != ZERO_TYPE
    ensures Fit(0, fs) && Kinds(fs) && Found(fs) == [Fragment(Physical(kind, p)), Fragment(Physical(FULL_TYPE, data))]
  {
    var first, second := Physical(kind, p), Physical(FULL_TYPE, data);
    assert Fit(After(0, first), [second]) by {
      assert [second][1..] == [];
    }
    assert Found([second]) == [Fragment(second)] && [first, second][1..] == [second];
    [first, second]
  }

  lemma TwoEvents(a: Event, b: Event)
    ensures [a, b][1..] == [b] && [b][1..] == []
  {
  }

  lemma WholeRecordOnly(data: Record)
    ensures var es := [Fragment(Physical(FULL_TYPE, data))]; Described(es, None) == ([data], 0) && Feed(es, None) == ([data], None, 0)
  {
    var es := [Fragment(Physical(FULL_TYPE, data))];
    assert es[1..] == [] && [data] + [] == [data];
  }

  /** A physical record of the one type hides every record behind it, without a report. */
  lemma SilentEnd(crc: Checksum, p: Record, data: Record)
    requires |p| + |data| + 2 * HEADER_SIZE <= BLOCK_SIZE
    ensures var es := Events(crc, Layout(crc, 0, Two(EOF_TYPE, p, data)), 0, 0);
            Assemble(es, None) == [] && Reports(es, None) == 0 && Described(es, None) == ([data], 1) && !NoneMistaken(es, None)
  {
    hide Events, Layout, Two;
    LayoutIsFound(crc, Two(EOF_TYPE, p, data));
    TwoEvents(Fragment(Physical(EOF_TYPE, p)), Fragment(Physical(FULL_TYPE, data)));
    WholeRecordOnly(data);
    var es := [Fragment(Physical(EOF_TYPE, p)), Fragment(Physical(FULL_TYPE, data))];
    assert Ends(es[0]) && AcceptDescribed(None, es[0]) == (None, None, 1);
    assert [] + [data] == [data];
  }

  /** One of the other type is skipped, but nobody hears of it. */
  lemma SilentSkip(crc: Checksum, p: Record, data: Record)
    requires |p| + |data| + 2 * HEADER_SIZE <= BLOCK_SIZE
    ensures var es := Events(crc, Layout(crc, 0, Two(BAD_TYPE, p, data)), 0, 0);
            Assemble(es, None) == [data] && Reports(es, None) == 0 && Described(es, None) == ([data], 1)
  {
    hide Events, Layout, Two;
    LayoutIsFound(crc, Two(BAD_TYPE, p, data));
    TwoEvents(Fragment(Physical(BAD_TYPE, p)), Fragment(Physical(FULL_TYPE, data)));
    WholeRecordOnly(data);
  }

  /** A paranoid replay that succeeds has replayed what the description says is in the file, nothing of it skipped,
      exactly when the reader mistakes no physical record. */
  method ParanoidReplay(crc: Checksum, file: seq<Byte>, full: nat -> bool, maxSequence: Sequence) returns (r: Recovery.Recoverer)
    ensures fresh(r) && r.Valid() && r.paranoid
    ensures r.ok ==> ((r.replayed, 0) == Described(Events(crc, file, 0, 0), None) <==> NoneMistaken(Events(crc, file, 0, 0), None))
  {
    hide *;
    ghost var rest;
    r, rest := Recovery.RecoverLogFile(crc, file, true, full, maxSequence);
    assert r.ok ==> r.replayed + rest == r.replayed;
    ReadAsDescribedIff(Events(crc, file, 0, 0), None);
  }

  /** The replay of such a file ends well, with nothing replayed. */
  method ReplayEndsEarly(crc: Checksum, p: Record, data: Record, file: seq<Byte>, full: nat -> bool, maxSequence: Sequence)
      returns (r: Recovery.Recoverer)
    requires |p| + |data| + 2 * HEADER_SIZE <= BLOCK_SIZE && file == Layout(crc, 0, Two(EOF_TYPE, p, data))
    ensures fresh(r) && r.Valid() && r.paranoid && r.ok && r.replayed == []
  {
    hide *;
    ghost var rest;
    SilentEnd(crc, p, data);
    r, rest := Recovery.RecoverLogFile(crc, file, true, full, maxSequence);
  }
}
