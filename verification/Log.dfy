/** The log writer and reader, as they append to and consume a file. */
module Log {
  import opened Options
  import opened Bytes
  import opened Checksums
  import opened LogFormat

  // The first fragment written at offset o.
  function FirstFragment(o: Offset, data: Record, begin: bool): (f: Physical)
    ensures |f.payload| <= Room(o) && f.payload <= data
  {
    var n := if |data| < Room(o) then |data| else Room(o);
    Physical(KindOf(begin, n == |data|), data[..n])
  }

  // The fragments of a record: the first one, and those of what is left.
  lemma FragmentsStep(o: Offset, data: Record, begin: bool)
    ensures var f := FirstFragment(o, data, begin);
            var rest := data[|f.payload|..];
            Fragments(o, data, begin) == [f] + if rest == [] then [] else Fragments(After(o, f), rest, false)
  {
  }

  lemma FitStep(o: Offset, f: Physical, fs: seq<Physical>)
    ensures Fit(o, [f] + fs) <==> |f.payload| <= Room(o) && Fit(After(o, f), fs)
  {
    assert ([f] + fs)[1..] == fs;
  }

  lemma {:induction false} FragmentsFit(o: Offset, data: Record, begin: bool)
    ensures Fit(o, Fragments(o, data, begin))
    decreases |data|, if Room(o) == 0 then 1 else 0
  {
    var f := FirstFragment(o, data, begin);
    var rest := data[|f.payload|..];
    FragmentsStep(o, data, begin);
    if rest == [] {
      FitStep(o, f, []);
    } else {
      FragmentsFit(After(o, f), rest, false);
      FitStep(o, f, Fragments(After(o, f), rest, false));
    }
  }

  // The bytes that one record adds at offset o, and the offset after them.
  ghost function RecordBytes(crc: Checksum, o: Offset, data: Record, begin: bool): (r: (seq<Byte>, Offset))
    decreases |data|, if Room(o) == 0 then 1 else 0
  {
    var f := FirstFragment(o, data, begin);
    var chunk := Chunk(crc, o, f);
    if |f.payload| == |data| then (chunk, After(o, f))
    else
      var (bytes, end) := RecordBytes(crc, After(o, f), data[|f.payload|..], false);
      (chunk + bytes, end)
  }

  lemma LayoutStep(crc: Checksum, o: Offset, f: Physical, fs: seq<Physical>)
    requires Fit(o, [f] + fs)
    ensures |f.payload| <= Room(o) && Fit(After(o, f), fs)
    ensures Layout(crc, o, [f] + fs) == Chunk(crc, o, f) + Layout(crc, After(o, f), fs)
    ensures AfterAll(o, [f] + fs) == AfterAll(After(o, f), fs)
  {
    assert ([f] + fs)[1..] == fs;
  }

  lemma {:induction false} RecordBytesAreLayout(crc: Checksum, o: Offset, data: Record, begin: bool)
    ensures Fit(o, Fragments(o, data, begin))
    ensures RecordBytes(crc, o, data, begin) ==
            (Layout(crc, o, Fragments(o, data, begin)), AfterAll(o, Fragments(o, data, begin)))
    decreases |data|, if Room(o) == 0 then 1 else 0
  {
    FragmentsFit(o, data, begin);
    FragmentsStep(o, data, begin);
    var f := FirstFragment(o, data, begin);
    var rest := data[|f.payload|..];
    if rest == [] {
      LayoutStep(crc, o, f, []);
      assert Chunk(crc, o, f) + [] == Chunk(crc, o, f);
    } else {
      RecordBytesAreLayout(crc, After(o, f), rest, false);
      LayoutStep(crc, o, f, Fragments(After(o, f), rest, false));
    }
  }

  class Writer {
    const crc: Checksum
    var dest: seq<Byte>
    var blockOffset: Offset

    constructor (crc: Checksum, dest: seq<Byte>)
      ensures this.crc == crc && this.dest == dest && blockOffset == |dest| % BLOCK_SIZE
    {
      this.crc := crc;
      this.dest := dest;
      blockOffset := |dest| % BLOCK_SIZE;
    }

    method EmitPhysicalRecord(kind: Byte, data: seq<Byte>)
      requires blockOffset + HEADER_SIZE + |data| <= BLOCK_SIZE
      modifies this
      ensures dest == old(dest) + Header(crc, Physical(kind, data)) + data
      ensures blockOffset == old(blockOffset) + HEADER_SIZE + |data|
    {
      LengthBytesExist(|data|);
      var header: seq<Byte> := crc([kind] + data) + [|data| % 256, |data| / 256] + [kind];
      dest := dest + header;
      dest := dest + data;
      blockOffset := blockOffset + HEADER_SIZE + |data|;
    }

    // Emit the next fragment of a record; hand back what is left of it.
    method AddFragment(left: Record, begin: bool) returns (left': Record)
      modifies this
      ensures var f := FirstFragment(old(blockOffset), left, begin);
              && dest == old(dest) + Chunk(crc, old(blockOffset), f)
              && blockOffset == After(old(blockOffset), f)
              && left' == left[|f.payload|..]
      ensures left' != [] ==> |left'| < |left| || Room(blockOffset) > 0 == Room(old(blockOffset))
    {
      var leftover := BLOCK_SIZE - blockOffset;
      if leftover < HEADER_SIZE {
        // Switch to a new block, filling the trailer with zeros.
        if leftover > 0 {
          dest := dest + Zeros(leftover);
        }
        blockOffset := 0;
      }
      var avail := BLOCK_SIZE - blockOffset - HEADER_SIZE;
      var fragmentLength := if |left| < avail then |left| else avail;
      var end := |left| == fragmentLength;
      EmitPhysicalRecord(KindOf(begin, end), left[..fragmentLength]);
      left' := left[fragmentLength..];
    }

    /** Append one record, in as many physical records as the blocks require. */
    method AddRecord(data: Record)
      modifies this
      ensures (dest, blockOffset) == var (bytes, end) := RecordBytes(crc, old(blockOffset), data, true);
                                     (old(dest) + bytes, end)
    {
      var left, begin, more := data, true, true;
      ghost var (bytes, end) := RecordBytes(crc, blockOffset, data, true);
      ghost var rest := bytes;  // the bytes still to come
      while more
        invariant dest + rest == old(dest) + bytes
        invariant (rest, end) == if more then RecordBytes(crc, blockOffset, left, begin) else ([], blockOffset)
        decreases more, |left|, Room(blockOffset) == 0
      {
        rest := rest[|Chunk(crc, blockOffset, FirstFragment(blockOffset, left, begin))|..];
        left := AddFragment(left, begin);
        begin := false;
        more := |left| > 0;
      }
      assert dest + [] == dest;
    }
  }

  // A trailer too short for a header is skipped.
  lemma SkipTrailer(crc: Checksum, file: seq<Byte>, b: nat, p: nat)
    requires b <= |file| && b <= p <= BlockEnd(file, b) < p + HEADER_SIZE
    ensures Events(crc, file, b, p) ==
            if FullBlock(file, b) then Events(crc, file, BlockEnd(file, b), BlockEnd(file, b)) else []
  {
  }

  // The first event, when there is a whole header.
  lemma EventHere(crc: Checksum, file: seq<Byte>, b: nat, p: nat)
    requires b <= |file| && b <= p && p + HEADER_SIZE <= BlockEnd(file, b)
    ensures var e := BlockEnd(file, b);
            Events(crc, file, b, p) ==
            match ProblemIn(crc, file[p..e])
            case None =>
              var f := PhysicalIn(file[p..e]);
              [Fragment(f)] + Events(crc, file, b, p + HEADER_SIZE + |f.payload|)
            case Some(problem) =>
              if FullBlock(file, b) then [Bad(problem)] + Events(crc, file, e, e)
              else if problem == BadLength then []
              else [Bad(problem)]
  {
  }

  lemma NoEvents(st: Option<Record>)
    ensures Assemble([], st) == [] && Reports([], st) == 0
  {
  }

  lemma AcceptFirst(e: Event, es: seq<Event>, st: Option<Record>)
    requires !Ends(e)
    ensures var (done, st', n) := Accept(st, e);
            && Assemble([e] + es, st) == (if done.Some? then [done.value] else []) + Assemble(es, st')
            && Reports([e] + es, st) == n + Reports(es, st')
  {
    assert ([e] + es)[1..] == es;
  }

  // Nothing is read from where reading ends.
  lemma EndsFirst(e: Event, es: seq<Event>, st: Option<Record>)
    requires Ends(e)
    ensures Assemble([e] + es, st) == [] && Reports([e] + es, st) == 0
  {
  }

  // The unfinished record, if there is one.
  function Open(inFragmentedRecord: bool, scratch: Record): Option<Record> {
    if inFragmentedRecord then Some(scratch) else None
  }

  // Reports made while the physical record is read.
  function ReportedAt(e: Event): nat {
    if e.Bad? && e.problem != ZeroRecord then 1 else 0
  }

  class Reader {
    const crc: Checksum
    const file: seq<Byte>
    var buffer: seq<Byte>
    var eof: bool              // the last read got less than a block
    var endOfBuffer: nat       // how much of the file has been read
    var reports: nat           // corruption reports so far
    ghost var block: nat       // where the buffered block starts
    ghost var rest: seq<Event> // the physical records still to be read

    constructor (crc: Checksum, file: seq<Byte>)
      ensures Valid() && this.crc == crc && this.file == file && reports == 0
      ensures rest == Events(crc, file, 0, 0)
    {
      this.crc := crc;
      this.file := file;
      buffer := [];
      eof := false;
      endOfBuffer := 0;
      reports := 0;
      block := 0;
      rest := Events(crc, file, 0, 0);
    }

    ghost predicate Valid()
      reads this
    {
      block + |buffer| <= endOfBuffer <= |file| &&
      buffer == file[endOfBuffer - |buffer|..endOfBuffer] &&
      (|buffer| >= HEADER_SIZE ==> endOfBuffer == BlockEnd(file, block) && eof == !FullBlock(file, block)) &&
      rest == if |buffer| >= HEADER_SIZE then Events(crc, file, block, endOfBuffer - |buffer|)
              else if eof then []
              else Events(crc, file, endOfBuffer, endOfBuffer)
    }

    // Read the next block.
    method ReadBlock()
      requires Valid() && |buffer| < HEADER_SIZE && !eof
      modifies this
      ensures Valid() && rest == old(rest) && reports == old(reports)
      ensures !eof ==> endOfBuffer > old(endOfBuffer)
    {
      var n := if |file| - endOfBuffer < BLOCK_SIZE then |file| - endOfBuffer else BLOCK_SIZE;
      block := endOfBuffer;
      buffer := file[endOfBuffer..endOfBuffer + n];
      endOfBuffer := endOfBuffer + n;
      eof := n < BLOCK_SIZE;
      hide Events;
      if n < HEADER_SIZE {
        SkipTrailer(crc, file, block, block);
      }
    }

    method ReadPhysicalRecord() returns (r: Option<Event>)
      requires Valid()
      modifies this
      ensures Valid()
      ensures old(rest) == if r.Some? then [r.value] + rest else []
      ensures reports == old(reports) + (if r.Some? then ReportedAt(r.value) else 0)
    {
      while |buffer| < HEADER_SIZE
        invariant Valid() && rest == old(rest) && reports == old(reports)
        decreases !eof, |file| - endOfBuffer
      {
        if eof {
          // A truncated header at the end of the file is no error.
          buffer := [];
          return None;
        }
        ReadBlock();
      }

      r := ParsePhysicalRecord();
    }

    // Parse the header at the front of the buffer and check what follows.
    method CheckPhysicalRecord() returns (problem: Option<Problem>, f: Physical)
      requires |buffer| >= HEADER_SIZE
      ensures problem == ProblemIn(crc, buffer)
      ensures problem == None ==> f == PhysicalIn(buffer)
    {
      var length := LittleEndian(buffer[4..6]);
      var kind := buffer[6];
      f := Physical(kind, []);
      if HEADER_SIZE + length > |buffer| {
        return Some(BadLength), f;
      }
      if kind == ZERO_TYPE && length == 0 {
        return Some(ZeroRecord), f;
      }
      var payload := buffer[HEADER_SIZE..HEADER_SIZE + length];
      if buffer[..4] != crc([kind] + payload) {
        return Some(ChecksumMismatch), f;
      }
      return None, Physical(kind, payload);
    }

    method ParsePhysicalRecord() returns (r: Option<Event>)
      requires Valid() && |buffer| >= HEADER_SIZE
      modifies `buffer, `reports, `rest
      ensures Valid()
      ensures old(rest) == if r.Some? then [r.value] + rest else []
      ensures reports == old(reports) + (if r.Some? then ReportedAt(r.value) else 0)
    {
      hide Events, ProblemIn;
      EventHere(crc, file, block, endOfBuffer - |buffer|);
      var problem, f := CheckPhysicalRecord();
      if problem.Some? {
        // The length may be wrong too: drop the rest of the buffer.
        buffer := [];
        if problem.value == BadLength && eof {
          // The writer died in the middle of the record.
          return None;
        }
        if problem.value != ZeroRecord {
          reports := reports + 1;
        }
        rest := rest[1..];
        return Some(Bad(problem.value));
      }
      ghost var p := endOfBuffer - |buffer|;
      buffer := buffer[HEADER_SIZE + |f.payload|..];
      if |buffer| < HEADER_SIZE {
        SkipTrailer(crc, file, block, p + HEADER_SIZE + |f.payload|);
      }
      rest := rest[1..];
      r := Some(Fragment(f));
    }

    // Add one physical record to the unfinished record, if there is one.
    method AcceptEvent(inFragmentedRecord: bool, scratch: Record, e: Event, ghost es: seq<Event>)
      returns (done: Option<Record>, inFragmentedRecord': bool, scratch': Record)
      requires !Ends(e)
      modifies `reports
      ensures done.Some? ==> !inFragmentedRecord'
      ensures Assemble([e] + es, Open(inFragmentedRecord, scratch)) ==
              (if done.Some? then [done.value] else []) + Assemble(es, Open(inFragmentedRecord', scratch'))
      ensures ReportedAt(e) + reports + Reports(es, Open(inFragmentedRecord', scratch')) ==
              old(reports) + Reports([e] + es, Open(inFragmentedRecord, scratch))
    {
      AcceptFirst(e, es, Open(inFragmentedRecord, scratch));
      done, inFragmentedRecord', scratch' := None, inFragmentedRecord, scratch;
      match e {
        case Bad(_) =>
          if inFragmentedRecord {
            reports := reports + 1;
          }
          inFragmentedRecord', scratch' := false, [];
        case Fragment(f) =>
          if f.kind == FULL_TYPE {
            if inFragmentedRecord && scratch != [] {
              reports := reports + 1;
            }
            done, inFragmentedRecord' := Some(f.payload), false;
          } else if f.kind == FIRST_TYPE {
            if inFragmentedRecord && scratch != [] {
              reports := reports + 1;
            }
            inFragmentedRecord', scratch' := true, f.payload;
          } else if f.kind == MIDDLE_TYPE {
            if !inFragmentedRecord {
              reports := reports + 1;
            } else {
              scratch' := scratch + f.payload;
            }
          } else if f.kind == LAST_TYPE {
            if !inFragmentedRecord {
              reports := reports + 1;
            } else {
              done, inFragmentedRecord' := Some(scratch + f.payload), false;
            }
          } else if f.kind == BAD_TYPE {
            if inFragmentedRecord {
              reports := reports + 1;
            }
            inFragmentedRecord', scratch' := false, [];
          } else {
            reports := reports + 1;
            inFragmentedRecord', scratch' := false, [];
          }
      }
    }

    // Read one physical record and add it; more is false at the end of the file and at what is taken for it.
    method ReadFragment(inFragmentedRecord: bool, scratch: Record)
      returns (more: bool, done: Option<Record>, inFragmentedRecord': bool, scratch': Record)
      requires Valid()
      modifies this
      ensures Valid()
      ensures more ==> |rest| < |old(rest)|
      ensures Assemble(old(rest), Open(inFragmentedRecord, scratch)) ==
              if !more then []
              else (if done.Some? then [done.value] else []) + Assemble(rest, Open(inFragmentedRecord', scratch'))
      ensures reports + (if more then Reports(rest, Open(inFragmentedRecord', scratch')) else 0) ==
              old(reports) + Reports(old(rest), Open(inFragmentedRecord, scratch))
      ensures done.Some? ==> more && !inFragmentedRecord'
    {
      hide Assemble, Reports, Events;
      var e := ReadPhysicalRecord();
      if e.None? {
        NoEvents(Open(inFragmentedRecord, scratch));
        return false, None, inFragmentedRecord, scratch;
      }
      if e.value.Fragment? && e.value.f.kind == EOF_TYPE {
        EndsFirst(e.value, rest, Open(inFragmentedRecord, scratch));
        return false, None, false, [];
      }
      more := true;
      done, inFragmentedRecord', scratch' := AcceptEvent(inFragmentedRecord, scratch, e.value, rest);
    }

    /** Read the next logical record, None at the end of the file. */
    method ReadRecord() returns (r: Option<Record>)
      requires Valid()
      modifies this
      ensures Valid()
      ensures Assemble(old(rest), None) == if r.Some? then [r.value] + Assemble(rest, None) else []
      ensures reports + (if r.Some? then Reports(rest, None) else 0) == old(reports) + Reports(old(rest), None)
    {
      hide Assemble, Reports, Events;
      var inFragmentedRecord, scratch, more := false, [], true;
      r := None;
      while more && r.None?
        invariant Valid()
        invariant r.Some? ==> more && !inFragmentedRecord
        invariant Assemble(old(rest), None) ==
                  if !more then []
                  else (if r.Some? then [r.value] else []) + Assemble(rest, Open(inFragmentedRecord, scratch))
        invariant reports + (if more then Reports(rest, Open(inFragmentedRecord, scratch)) else 0) ==
                  old(reports) + Reports(old(rest), None)
        decreases more, |rest|
      {
        more, r, inFragmentedRecord, scratch := ReadFragment(inFragmentedRecord, scratch);
      }
    }
  }

  /** Read a whole file. */
  method ReadAll(crc: Checksum, file: seq<Byte>) returns (records: seq<Record>, reports: nat)
    ensures records == Assemble(Events(crc, file, 0, 0), None)
    ensures reports == Reports(Events(crc, file, 0, 0), None)
  {
    var reader := new Reader(crc, file);
    records := [];
    var more := true;
    while more
      invariant reader.Valid() && fresh(reader) && reader.crc == crc && reader.file == file
      invariant records + (if more then Assemble(reader.rest, None) else []) == Assemble(Events(crc, file, 0, 0), None)
      invariant reader.reports + (if more then Reports(reader.rest, None) else 0) == Reports(Events(crc, file, 0, 0), None)
      decreases more, |Assemble(reader.rest, None)|
    {
      var r := reader.ReadRecord();
      if r.Some? {
        records := records + [r.value];
      } else {
        more := false;
      }
    }
    reports := reader.reports;
  }
}
