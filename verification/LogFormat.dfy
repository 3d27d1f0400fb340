/** The write-ahead log: how records are cut into physical records, laid out in blocks, and what a
    scan of a file finds. */
module Checksums {
  import opened Options
  import opened Bytes
  import opened Rotations

  const MASK_DELTA: int := 0xa282_ead8

  // Rotate right by 15 bits and add a constant, in 32-bit arithmetic.
  function Mask(crc: Word): Word {
    (Right15(crc) + MASK_DELTA) % 0x1_0000_0000
  }

  function Unmask(masked: Word): Word {
    Right17((masked - MASK_DELTA) % 0x1_0000_0000)
  }

  lemma UnmaskMask(w: Word)
    ensures Unmask(Mask(w)) == w
  {
    hide Right15, Right17;
    TurnedAround(w);
    AddedAndTaken(Right15(w));
  }

  lemma MaskUnmask(w: Word)
    ensures Mask(Unmask(w)) == w
  {
    hide Right15, Right17;
    TurnedAround((w - MASK_DELTA) % 0x1_0000_0000);
  }

  lemma AddedAndTaken(r: Word)
    ensures ((r + MASK_DELTA) % 0x1_0000_0000 - MASK_DELTA) % 0x1_0000_0000 == r
  {
  }

  /** What a reader checks, that the unmasked stored word is the crc, is that the stored bytes are
      those of the masked crc. */
  lemma StoredIsFaithful(s: seq<Byte>, crc: Word)
    requires |s| == 4
    ensures Unmask(DecodeFixed32(s)) == crc <==> s == Fixed32(Mask(crc))
  {
    DecodeRoundTrip(s);
    Fixed32RoundTrip(Mask(crc));
    UnmaskMask(crc);
    MaskUnmask(DecodeFixed32(s));
  }

  // The four bytes stored for a byte string.
  type Four = s: seq<Byte> | |s| == 4 witness [0, 0, 0, 0]
  type Checksum = seq<Byte> -> Four

  // The checksum of a crc function. Extending the crc of a by b gives the crc of a + b, so a
  // function of the whole string covers both uses the log makes of it.
  function MaskedCrc(crc: seq<Byte> -> Word): Checksum {
    s => Fixed32(Mask(crc(s)))
  }
}

module LogFormat {
  import opened Options
  import opened Bytes
  import opened Checksums

  const BLOCK_SIZE: nat := 32768
  const HEADER_SIZE: nat := 7

  const ZERO_TYPE: Byte := 0
  const FULL_TYPE: Byte := 1
  const FIRST_TYPE: Byte := 2
  const MIDDLE_TYPE: Byte := 3
  const LAST_TYPE: Byte := 4

  // What the reader calls the end of the file and a bad record. Nothing keeps a physical record from having
  // one of these for its type.
  const EOF_TYPE: Byte := 5
  const BAD_TYPE: Byte := 6

  datatype Physical = Physical(kind: Byte, payload: seq<Byte>)

  type Record = seq<Byte>

  // ----- writing -----

  lemma LengthBytesExist(n: nat)
    requires n < 0x1_0000
    ensures |[n % 256, n / 256]| == 2 && LittleEndian([n % 256, n / 256]) == n
    ensures forall s: seq<Byte> :: |s| == 2 && LittleEndian(s) == n ==> s == [n % 256, n / 256]
  {
  }

  function LittleEndian(s: seq<Byte>): nat
    requires |s| == 2
  {
    s[0] as int + s[1] as int * 256
  }

  // A length as the two bytes that spell it.
  ghost function LengthBytes(n: nat): (s: seq<Byte>)
    requires n < 0x1_0000
    ensures |s| == 2 && LittleEndian(s) == n
  {
    LengthBytesExist(n);
    var s: seq<Byte> :| |s| == 2 && LittleEndian(s) == n;
    s
  }

  ghost function Header(crc: Checksum, f: Physical): (h: seq<Byte>)
    requires |f.payload| < 0x1_0000
    ensures |h| == HEADER_SIZE
  {
    crc([f.kind] + f.payload) + LengthBytes(|f.payload|) + [f.kind]
  }

  // An offset in a block, which may be just past its end.
  type Offset = o: nat | o <= BLOCK_SIZE

  // Bytes skipped at offset o because no header fits in the rest of the block.
  function Pad(o: Offset): nat {
    if BLOCK_SIZE - o < HEADER_SIZE then BLOCK_SIZE - o else 0
  }

  // The offset where the next header goes.
  function Start(o: Offset): Offset {
    if BLOCK_SIZE - o < HEADER_SIZE then 0 else o
  }

  // Payload bytes that fit after that header.
  function Room(o: Offset): nat {
    BLOCK_SIZE - Start(o) - HEADER_SIZE
  }

  function Zeros(n: nat): (s: seq<Byte>)
    ensures |s| == n
  {
    seq(n, _ => 0)
  }

  function KindOf(begin: bool, end: bool): Byte {
    if begin && end then FULL_TYPE
    else if begin then FIRST_TYPE
    else if end then LAST_TYPE
    else MIDDLE_TYPE
  }

  // The physical records of one record written at offset o.
  function Fragments(o: Offset, data: Record, begin: bool): (fs: seq<Physical>)
    ensures fs != []
    decreases |data|, if Room(o) == 0 then 1 else 0
  {
    var n := if |data| < Room(o) then |data| else Room(o);
    var f := Physical(KindOf(begin, n == |data|), data[..n]);
    if n == |data| then [f] else [f] + Fragments(Start(o) + HEADER_SIZE + n, data[n..], false)
  }

  // The offset after physical record f written at offset o.
  function After(o: Offset, f: Physical): Offset
    requires |f.payload| <= Room(o)
  {
    Start(o) + HEADER_SIZE + |f.payload|
  }

  // Every physical record fits in its block.
  predicate Fit(o: Offset, fs: seq<Physical>)
    decreases |fs|
  {
    fs == [] || (|fs[0].payload| <= Room(o) && Fit(After(o, fs[0]), fs[1..]))
  }

  function AfterAll(o: Offset, fs: seq<Physical>): Offset
    requires Fit(o, fs)
    decreases |fs|
  {
    if fs == [] then o else AfterAll(After(o, fs[0]), fs[1..])
  }

  // The bytes of one physical record written at offset o.
  ghost function Chunk(crc: Checksum, o: Offset, f: Physical): (s: seq<Byte>)
    requires |f.payload| <= Room(o)
    ensures |s| == Pad(o) + HEADER_SIZE + |f.payload|
  {
    Zeros(Pad(o)) + Header(crc, f) + f.payload
  }

  // The bytes of physical records laid out from offset o.
  ghost function Layout(crc: Checksum, o: Offset, fs: seq<Physical>): (s: seq<Byte>)
    requires Fit(o, fs)
    decreases |fs|
  {
    if fs == [] then [] else Chunk(crc, o, fs[0]) + Layout(crc, After(o, fs[0]), fs[1..])
  }

  // ----- reading -----

  datatype Problem = BadLength | ZeroRecord | ChecksumMismatch

  datatype Event = Fragment(f: Physical) | Bad(problem: Problem)

  // The block that starts at b is read in full.
  predicate FullBlock(file: seq<Byte>, b: nat) {
    b + BLOCK_SIZE <= |file|
  }

  // Where the data of the block that starts at b ends.
  function BlockEnd(file: seq<Byte>, b: nat): (e: nat)
    requires b <= |file|
    ensures b <= e <= |file|
  {
    if FullBlock(file, b) then b + BLOCK_SIZE else |file|
  }

  function LengthIn(buffer: seq<Byte>): nat
    requires HEADER_SIZE <= |buffer|
  {
    LittleEndian(buffer[4..6])
  }

  // The physical record at the front of the buffer, when nothing is wrong with it.
  function PhysicalIn(buffer: seq<Byte>): Physical
    requires HEADER_SIZE <= |buffer| && HEADER_SIZE + LengthIn(buffer) <= |buffer|
  {
    Physical(buffer[6], buffer[HEADER_SIZE..HEADER_SIZE + LengthIn(buffer)])
  }

  // What is wrong with the physical record at the front of the buffer, in the order of the checks.
  function ProblemIn(crc: Checksum, buffer: seq<Byte>): (r: Option<Problem>)
    requires HEADER_SIZE <= |buffer|
    ensures r != Some(BadLength) ==> HEADER_SIZE + LengthIn(buffer) <= |buffer|
  {
    if HEADER_SIZE + LengthIn(buffer) > |buffer| then Some(BadLength)
    else
      var f := PhysicalIn(buffer);
      if f == Physical(ZERO_TYPE, []) then Some(ZeroRecord)
      else if buffer[..4] != crc([f.kind] + f.payload) then Some(ChecksumMismatch)
      else None
  }

  // The physical records a scan meets from position p in the block that starts at b to the end of the file.
  function Events(crc: Checksum, file: seq<Byte>, b: nat, p: nat): (es: seq<Event>)
    requires b <= |file| && b <= p <= BlockEnd(file, b)
    decreases |file| - b, |file| - p
  {
    var e := BlockEnd(file, b);
    if p + HEADER_SIZE > e then
      // A trailer to skip, or a truncated header at the end of the file.
      if FullBlock(file, b) then Events(crc, file, e, e) else []
    else
      match ProblemIn(crc, file[p..e])
      case None =>
        var f := PhysicalIn(file[p..e]);
        [Fragment(f)] + Events(crc, file, b, p + HEADER_SIZE + |f.payload|)
      case Some(problem) =>
        // The rest of the block is dropped, unless the writer died in the middle of the record.
        if FullBlock(file, b) then [Bad(problem)] + Events(crc, file, e, e)
        else if problem == BadLength then []
        else [Bad(problem)]
  }

  // ----- putting records together -----

  // What one event does to an unfinished record st: the record it completes, if any, what is
  // unfinished after it, and how many corruption reports it causes.
  function Accept(st: Option<Record>, e: Event): (r: (Option<Record>, Option<Record>, nat)) {
    var lost := if st.Some? then 1 else 0;
    match e
    case Bad(problem) => (None, None, lost + if problem == ZeroRecord then 0 else 1)
    case Fragment(f) =>
      if f.kind == FULL_TYPE then (Some(f.payload), None, if st.Some? && st.value != [] then 1 else 0)
      else if f.kind == FIRST_TYPE then (None, Some(f.payload), if st.Some? && st.value != [] then 1 else 0)
      else if f.kind == MIDDLE_TYPE then
        if st.Some? then (None, Some(st.value + f.payload), 0) else (None, None, 1)
      else if f.kind == LAST_TYPE then
        if st.Some? then (Some(st.value + f.payload), None, 0) else (None, None, 1)
      else if f.kind == BAD_TYPE then (None, None, lost)
      else (None, None, 1)
  }

  // Reading ends here as at the end of the file.
  predicate Ends(e: Event) {
    e.Fragment? && e.f.kind == EOF_TYPE
  }

  predicate GoesOn(es: seq<Event>) {
    forall i :: 0 <= i < |es| ==> !Ends(es[i])
  }

  // Accept a list of events: the records completed, what is unfinished at the end, and the reports.
  function Feed(es: seq<Event>, st: Option<Record>): (r: (seq<Record>, Option<Record>, nat)) {
    if es == [] then ([], st, 0)
    else if Ends(es[0]) then ([], None, 0)
    else
      var (done, st1, n) := Accept(st, es[0]);
      var (records, st2, more) := Feed(es[1..], st1);
      ((if done.Some? then [done.value] else []) + records, st2, n + more)
  }

  // The records in a list of events; st holds the fragments of an unfinished record.
  function Assemble(es: seq<Event>, st: Option<Record>): seq<Record> {
    Feed(es, st).0
  }

  // How many corruption reports the events cause.
  function Reports(es: seq<Event>, st: Option<Record>): nat {
    Feed(es, st).2
  }

  lemma {:induction false} FeedConcat(a: seq<Event>, b: seq<Event>, st: Option<Record>)
    requires GoesOn(a)
    ensures var (records, st1, n) := Feed(a, st);
            var (more, st2, m) := Feed(b, st1);
            Feed(a + b, st) == (records + more, st2, n + m)
  {
    if a == [] {
      assert a + b == b;
      assert [] + Feed(b, st).0 == Feed(b, st).0;
    } else {
      var (done, st1, _) := Accept(st, a[0]);
      var first := if done.Some? then [done.value] else [];
      var (records, st2, _) := Feed(a[1..], st1);
      assert (a + b)[0] == a[0] && (a + b)[1..] == a[1..] + b;
      FeedConcat(a[1..], b, st1);
      assert first + (records + Feed(b, st2).0) == first + records + Feed(b, st2).0;
    }
  }
}
