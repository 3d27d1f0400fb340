/** Replaying a log file when a database is opened. */
module Recovery {
  import opened Options
  import opened Bytes
  import opened Checksums
  import opened WriteBatches
  import opened WriteQueueSpec
  import LogFormat
  import Log
  import LogProperties

  // What applying the batches in the records puts into memtables. Too small a record is skipped; of a
  // malformed batch, what comes before the malformed update is applied.
  function Replay(records: seq<seq<Byte>>): seq<(nat, Op)> {
    if records == [] then []
    else Replay(records[..|records| - 1]) + Inserted(records[|records| - 1])
  }

  function Inserted(record: seq<Byte>): seq<(nat, Op)> {
    if |record| < HEADER then [] else Numbered(DecodeFixed64(record[..8]), OpsIn(record[HEADER..]).0)
  }

  // Whether a record is a batch that InsertInto accepts.
  predicate Sound(record: seq<Byte>) {
    |record| >= HEADER && OpsIn(record[HEADER..]) == (OpsIn(record[HEADER..]).0, true)
    && |OpsIn(record[HEADER..]).0| == DecodeFixed32(record[8..HEADER])
  }

  // The largest sequence number of any batch in the records, or `from` when that is larger.
  function MaxSequence(records: seq<seq<Byte>>, from: Sequence): Sequence {
    if records == [] then from
    else
      var before, last := MaxSequence(records[..|records| - 1], from), LastSequence(records[|records| - 1]);
      if |records[|records| - 1]| >= HEADER && last > before then last else before
  }

  // A count as the code has it: 32 bits with a sign.
  function Signed(count: Word): int {
    if count < 0x8000_0000 then count else count - 0x1_0000_0000
  }

  // The number of a batch's last update, in 64 bits that wrap around.
  function LastSequence(record: seq<Byte>): Sequence {
    if |record| < HEADER then 0
    else (DecodeFixed64(record[..8]) as int + Signed(DecodeFixed32(record[8..HEADER])) - 1) % 0x1_0000_0000_0000_0000
  }

  class Recoverer {
    const paranoid: bool
    var mem: MemTable
    var tables: seq<seq<(nat, Op)>>   // memtables written out on the way
    var ok: bool
    var maxSequence: Sequence
    ghost var replayed: seq<seq<Byte>>
    ghost const before: Sequence

    // Everything recovered, wherever it is.
    ghost function Recovered(): seq<(nat, Op)>
      reads this, mem
    {
      Flat(tables) + mem.entries
    }

    ghost predicate Valid()
      reads this, mem
    {
      && Recovered() == Replay(replayed) && (ok ==> maxSequence == MaxSequence(replayed, before))
      && (ok && paranoid ==> forall i :: 0 <= i < |replayed| ==> Sound(replayed[i]))
    }

    constructor (paranoid: bool, maxSequence: Sequence)
      ensures Valid() && ok && replayed == [] && this.paranoid == paranoid && before == maxSequence && fresh(mem)
    {
      mem := new MemTable();
      this.paranoid, tables, ok, this.maxSequence, replayed, before := paranoid, [], true, maxSequence, [], maxSequence;
    }

    // Apply one record. An error stops recovery only when checks are paranoid.
    method ReplayRecord(record: seq<Byte>)
      requires Valid() && ok
      modifies this, mem
      ensures Valid() && replayed == old(replayed) + [record] && (mem == old(mem) || fresh(mem))
      ensures !paranoid ==> ok
      ensures Sound(record) ==> ok
    {
      hide Replay, MaxSequence, OpsIn, Flat, DecodeFixed64, DecodeFixed32, Numbered, Signed;
      ReplayMore(replayed, record, before);
      replayed := replayed + [record];
      if |record| < HEADER {
        Assoc(Recovered(), [], []);
        ok := !paranoid;
        return;
      }
      var inserted := InsertInto(record, mem);
      Assoc(Flat(tables), old(mem.entries), Inserted(record));
      if paranoid && !inserted {
        ok := false;
        return;
      }
      var last: Sequence := (DecodeFixed64(record[..8]) as int + Signed(DecodeFixed32(record[8..HEADER])) - 1) % 0x1_0000_0000_0000_0000;
      if last > maxSequence {
        maxSequence := last;
      }
    }

    // A damaged record, when checks are paranoid.
    method ReportCorruption()
      requires Valid()
      modifies this`ok
      ensures Valid() && !ok
    {
      ok := false;
    }

    // The memtable is full: write it out and start another.
    method WriteLevel0Table()
      requires Valid()
      modifies this`tables, this`mem
      ensures Valid() && fresh(mem)
    {
      FlatMore(tables, mem.entries);
      tables := tables + [mem.entries];
      mem := new MemTable();
    }
  }

  function Flat(tables: seq<seq<(nat, Op)>>): seq<(nat, Op)> {
    if tables == [] then [] else Flat(tables[..|tables| - 1]) + tables[|tables| - 1]
  }

  lemma FlatMore(tables: seq<seq<(nat, Op)>>, table: seq<(nat, Op)>)
    ensures Flat(tables + [table]) + [] == Flat(tables) + table
  {
    assert (tables + [table])[..|tables|] == tables;
  }

  lemma ReplayMore(records: seq<seq<Byte>>, record: seq<Byte>, from: Sequence)
    ensures Replay(records + [record]) == Replay(records) + Inserted(record)
    ensures MaxSequence(records + [record], from) ==
            var before, last := MaxSequence(records, from), LastSequence(record);
            if |record| >= HEADER && last > before then last else before
  {
    assert (records + [record])[..|records|] == records;
  }

  lemma Regroup(a: seq<seq<Byte>>, b: seq<Byte>, c: seq<seq<Byte>>)
    ensures a + ([b] + c) == a + [b] + c
  {
  }

  /** Replay a log file. A memtable is written out whenever it is full, which is for the caller to say.
      Without paranoid checks every record is applied; with them recovery stops at the first error. */
  method RecoverLogFile(crc: Checksum, file: seq<Byte>, paranoid: bool, full: nat -> bool, maxSequence: Sequence)
      returns (r: Recoverer, ghost rest: seq<seq<Byte>>)
    ensures fresh(r) && r.Valid() && r.paranoid == paranoid && r.before == maxSequence
    ensures r.replayed + rest == LogFormat.Assemble(LogFormat.Events(crc, file, 0, 0), None)
    ensures r.ok ==> rest == [] && (paranoid ==> LogFormat.Reports(LogFormat.Events(crc, file, 0, 0), None) == 0)
    ensures !r.ok ==> paranoid && (LogFormat.Reports(LogFormat.Events(crc, file, 0, 0), None) > 0 ||
                                   exists i :: 0 <= i < |r.replayed| && !Sound(r.replayed[i]))
  {
    hide *;
    r := new Recoverer(paranoid, maxSequence);
    var reader := new Log.Reader(crc, file);
    ghost var all := LogFormat.Assemble(reader.rest, None);
    ghost var reports := LogFormat.Reports(reader.rest, None);
    rest := all;
    var more, n := true, 0;
    while more && r.ok
      invariant fresh(r) && r.Valid() && r.paranoid == paranoid && r.before == maxSequence && fresh(r.mem)
      invariant reader.Valid() && fresh(reader)
      invariant r.replayed + rest == all && (r.ok ==> rest == if more then LogFormat.Assemble(reader.rest, None) else [])
      invariant r.ok ==> reader.reports + (if more then LogFormat.Reports(reader.rest, None) else 0) == reports
      invariant r.ok && paranoid ==> reader.reports == 0
      invariant !r.ok ==> paranoid && (reports > 0 || exists i :: 0 <= i < |r.replayed| && !Sound(r.replayed[i]))
      decreases more, r.ok, |rest|
    {
      var record := reader.ReadRecord();
      if paranoid && reader.reports > 0 {
        r.ReportCorruption();
      }
      if record.None? {
        more := false;
      } else if r.ok {
        ghost var before := r.replayed;
        assert rest == [record.value] + rest[1..];
        r.ReplayRecord(record.value);
        Regroup(before, record.value, rest[1..]);
        assert !r.ok ==> !Sound(r.replayed[|before|]);
        rest := rest[1..];
        n := n + 1;
        if r.ok && full(n) {
          r.WriteLevel0Table();
        }
      }
    }
  }

  // ----- recovery after a crash -----

  // What the batches with these contents put into memtables.
  function BatchEntries(contents: seq<WriteQueueSpec.Record>): seq<(nat, Op)> {
    if contents == [] then []
    else
      var c := contents[|contents| - 1];
      BatchEntries(contents[..|contents| - 1]) + Numbered(c.0, c.1)
  }

  lemma RecordIsSound(log: seq<seq<Byte>>, contents: seq<WriteQueueSpec.Record>, r: nat)
    requires Holds(log, contents) && r < |log|
    ensures Sound(log[r]) && Inserted(log[r]) == Numbered(contents[r].0, contents[r].1)
  {
    assert RecordOk(log, contents, r);
    BatchRoundTrip(contents[r].0, contents[r].1);
  }

  lemma {:induction false} ReplayOfBatches(log: seq<seq<Byte>>, contents: seq<WriteQueueSpec.Record>, k: nat)
    requires Holds(log, contents) && k <= |log|
    ensures Replay(log[..k]) == BatchEntries(contents[..k]) && forall i :: 0 <= i < k ==> Sound(log[..k][i])
  {
    if k > 0 {
      ReplayOfBatches(log, contents, k - 1);
      RecordIsSound(log, contents, k - 1);
      assert log[..k][..k - 1] == log[..k - 1] && contents[..k][..k - 1] == contents[..k - 1];
      forall i | 0 <= i < k
        ensures Sound(log[..k][i])
      {
        assert i < k - 1 ==> log[..k][i] == log[..k - 1][i];
      }
    }
  }

  // ----- the last sequence number -----

  // A batch's numbers do not wrap around.
  ghost predicate NoneWraps(contents: seq<WriteQueueSpec.Record>) {
    forall r {:trigger contents[r]} :: 0 <= r < |contents| ==> contents[r].0 + |contents[r].1| <= LIMIT
  }

  lemma LastIsLast(log: seq<seq<Byte>>, contents: seq<WriteQueueSpec.Record>, r: nat)
    requires r < |log| == |contents| && RecordOk(log, contents, r) && contents[r].0 + |contents[r].1| <= LIMIT
    ensures |log[r]| >= HEADER && LastSequence(log[r]) == contents[r].0 + |contents[r].1| - 1
  {
    hide DecodeFixed64, DecodeFixed32, OpsIn;
    BatchRoundTrip(contents[r].0, contents[r].1);
    assert DecodeFixed32(log[r][8..HEADER]) == |contents[r].1|;
  }

  lemma NumberedUpTo(s: nat, ops: seq<Op>, last: int)
    requires s + |ops| - 1 <= last
    ensures forall i :: 0 <= i < |Numbered(s, ops)| ==> Numbered(s, ops)[i].0 <= last
  {
  }

  /** No entry that is recovered has a number beyond the last sequence number recovered. */
  lemma {:induction false} NothingBeyondLast(log: seq<seq<Byte>>, contents: seq<WriteQueueSpec.Record>, k: nat, from: Sequence)
    requires Holds(log, contents) && k <= |log| && NoneWraps(contents)
    ensures from <= MaxSequence(log[..k], from)
    ensures forall i :: 0 <= i < |BatchEntries(contents[..k])| ==> BatchEntries(contents[..k])[i].0 <= MaxSequence(log[..k], from)
  {
    hide Numbered, LastSequence, MaxSequence, BatchEntries, RecordOk, Replay;
    if k > 0 {
      NothingBeyondLast(log, contents, k - 1, from);
      ReplayMore(log[..k - 1], log[k - 1], from);
      assert log[..k - 1] + [log[k - 1]] == log[..k];
      BatchMore(contents, k);
      assert RecordOk(log, contents, k - 1);
      LastIsLast(log, contents, k - 1);
      NumberedUpTo(contents[k - 1].0, contents[k - 1].1, MaxSequence(log[..k], from));
    } else {
      NothingYet(from);
    }
  }

  lemma NothingYet(from: Sequence)
    ensures MaxSequence([], from) == from && BatchEntries([]) == []
  {
  }

  lemma BatchMore(contents: seq<WriteQueueSpec.Record>, k: nat)
    requires 0 < k <= |contents|
    ensures BatchEntries(contents[..k]) == BatchEntries(contents[..k - 1]) + Numbered(contents[k - 1].0, contents[k - 1].1)
  {
    assert contents[..k][..k - 1] == contents[..k - 1];
  }

  lemma {:induction false} EntriesHave(contents: seq<WriteQueueSpec.Record>, r: nat)
    requires r < |contents|
    ensures exists p {:trigger PartOf(BatchEntries(contents), p, Numbered(contents[r].0, contents[r].1))} ::
              PartOf(BatchEntries(contents), p, Numbered(contents[r].0, contents[r].1))
  {
    hide Numbered, PartOf, BatchEntries;
    var n := |contents| - 1;
    var part := Numbered(contents[r].0, contents[r].1);
    BatchMore(contents, |contents|);
    assert contents[..|contents|] == contents;
    if r == n {
      PartAtEnd(BatchEntries(contents[..n]), part);
    } else {
      EntriesHave(contents[..n], r);
      var p :| PartOf(BatchEntries(contents[..n]), p, part);
      PartOfLonger(BatchEntries(contents[..n]), Numbered(contents[n].0, contents[n].1), p, part);
    }
  }

  lemma PartAtEnd(all: seq<(nat, Op)>, part: seq<(nat, Op)>)
    ensures PartOf(all + part, |all|, part)
  {
  }

  lemma PartOfLonger(all: seq<(nat, Op)>, more: seq<(nat, Op)>, p: int, part: seq<(nat, Op)>)
    requires PartOf(all, p, part)
    ensures PartOf(all + more, p, part)
  {
  }

  lemma PartOfPart(all: seq<(nat, Op)>, p: int, part: seq<(nat, Op)>, q: int, inner: seq<(nat, Op)>)
    requires PartOf(all, p, part) && PartOf(part, q, inner)
    ensures PartOf(all, p + q, inner)
  {
    forall i | 0 <= i < |inner|
      ensures all[p + q..p + q + |inner|][i] == inner[i]
    {
      assert inner[i] == part[q..q + |inner|][i] == part[q + i] == all[p..p + |part|][q + i];
    }
  }

  lemma NumberedPart(s: nat, all: seq<Op>, start: nat, ops: seq<Op>)
    requires InRecord((s, all), start, ops)
    ensures PartOf(Numbered(s, all), start - s, Numbered(start, ops))
  {
    forall i | 0 <= i < |ops|
      ensures Numbered(s, all)[start - s..start - s + |ops|][i] == Numbered(start, ops)[i]
    {
      assert ops[i] == all[start - s..start - s + |ops|][i];
    }
  }

  // A call that succeeded is recovered whole when its record is.
  lemma CallIsRecovered(d: Done, contents: seq<WriteQueueSpec.Record>, durable: set<nat>, k: nat)
    requires Committed(d, contents, durable) && d.request.ops.Some? && d.record < k <= |contents|
    ensures ExecutedWhole(BatchEntries(contents[..k]), d)
  {
    if d.status == Ok {
      var (s, all) := contents[d.record];
      var ops := d.request.ops.value;
      assert contents[..k][d.record] == contents[d.record];
      EntriesHave(contents[..k], d.record);
      var p :| PartOf(BatchEntries(contents[..k]), p, Numbered(s, all));
      NumberedPart(s, all, d.start, ops);
      PartOfPart(BatchEntries(contents[..k]), p, Numbered(s, all), d.start - s, Numbered(d.start, ops));
      assert PartOf(BatchEntries(contents[..k]), p + (d.start - s), Numbered(d.start, Ops(d.request)));
    }
  }

  /** Whatever prefix of the log survives a crash, replaying it recovers the batches that are wholly in
      it, each whole and in order, and nothing else, with or without paranoid checks. */
  method RecoverAfterCrash(crc: Checksum, log: seq<seq<Byte>>, ghost contents: seq<WriteQueueSpec.Record>, file: seq<Byte>,
                           paranoid: bool, full: nat -> bool, maxSequence: Sequence)
      returns (r: Recoverer)
    requires Holds(log, contents) && file <= LogProperties.LogBytes(crc, 0, log).0
    ensures fresh(r) && r.Valid() && r.ok
    ensures var k := LogProperties.WithinPrefix(crc, 0, log, |file|); k <= |log| && r.Recovered() == BatchEntries(contents[..k])
    ensures NoneWraps(contents) ==> maxSequence <= r.maxSequence && forall i :: 0 <= i < |r.Recovered()| ==> r.Recovered()[i].0 <= r.maxSequence
  {
    hide LogFormat.Assemble, LogFormat.Events, LogFormat.Reports, LogProperties.LogBytes, LogProperties.WithinPrefix, Replay, BatchEntries, Sound,
      MaxSequence, NoneWraps;
    LogProperties.CrashPrefix(crc, log, file);
    ghost var k := LogProperties.WithinPrefix(crc, 0, log, |file|);
    ReplayOfBatches(log, contents, k);
    ghost var rest;
    r, rest := RecoverLogFile(crc, file, paranoid, full, maxSequence);
    assert forall i :: 0 <= i < |r.replayed| ==> r.replayed[i] == log[..k][i];
    assert r.replayed + [] == r.replayed;
    if NoneWraps(contents) {
      NothingBeyondLast(log, contents, k, maxSequence);
      assert r.replayed == log[..k];
    }
  }
}
