/** Whole streams: compressing block by block, uncompressing, and the round trip. */
module SnappyStream {
  import opened Options
  import opened Bytes
  import opened Varints
  import opened SnappyFormat
  import opened SnappyCopy
  import opened SnappyPlan
  import opened SnappyCompress
  import opened SnappySource
  import opened SnappyDecompress

  const BLOCK_SIZE := 0x1_0000
  const MAX_HASH_TABLE_SIZE := 0x4000

  function MaxCompressedLength(n: nat): (r: nat)
  {
    32 + n + n / 6
  }

  // ----- compressing -----

  // The least of the powers of two from 256 on that is no smaller than the block, up to a maximum.
  function TableSize(inputSize: nat): (size: nat)
    ensures 256 <= size <= 0x4000 && (size == 256 || size < 2 * inputSize) && (size == 0x4000 || inputSize <= size)
  {
    if inputSize <= 256 then 256 else if inputSize <= 512 then 512 else if inputSize <= 1024 then 1024 else if inputSize <= 2048 then 2048
    else if inputSize <= 4096 then 4096 else if inputSize <= 8192 then 8192 else 16384
  }

  // A zeroed table.
  method GetHashTable(inputSize: nat) returns (table: array<Slot>)
    ensures fresh(table) && table.Length == TableSize(inputSize) && AllBelow(table[..], 1)
  {
    var size := 256;
    while size < MAX_HASH_TABLE_SIZE && size < inputSize
      invariant size in {256, 512, 1024, 2048, 4096, 8192, 16384} && (size == 256 || size < 2 * inputSize)
      decreases MAX_HASH_TABLE_SIZE - size
    {
      size := size * 2;
    }
    table := new Slot[size](_ => 0);
  }

  // The next n bytes of the source: in one region, not yet skipped, or gathered from several.
  method NextBlock(reader: Source, n: nat) returns (block: seq<Byte>, pending: nat)
    requires 1 <= n <= |reader.rest|
    modifies reader
    ensures |block| == n && block == old(reader.rest)[..n]
    ensures pending <= n && reader.rest == old(reader.rest)[n - pending..]
  {
    ghost var data := reader.rest;
    var region := reader.Peek();
    if |region| >= n {
      return region[..n], n;
    }
    block, pending := region, 0;
    reader.Skip(|region|);
    while |block| < n
      invariant |block| <= n && block == data[..|block|] && reader.rest == data[|block|..]
      decreases n - |block|
    {
      region := reader.Peek();
      var m := if |region| < n - |block| then |region| else n - |block|;
      assert region[..m] == reader.rest[..m] == data[|block|..|block| + m];
      block := block + region[..m];
      reader.Skip(m);
    }
  }

  // Blocks so far: all of full size but perhaps the last.
  ghost predicate Blocks(done: nat, total: nat, blocks: nat) {
    done <= total && (done == BLOCK_SIZE * blocks || (done == total && done < BLOCK_SIZE * blocks <= done + BLOCK_SIZE))
  }

  // The stream so far: preamble, then what stands for the first `done` bytes of the data.
  ghost predicate Streamed(out: seq<Byte>, written: nat, data: seq<Byte>, done: nat, blocks: nat) {
    var p := |Varint(|data|)|;
    && p <= 5 && p <= written <= |out| && out[..p] == Varint(|data|)
    && Blocks(done, |data|, blocks) && Codes(out[p..written], data[..done])
    && 60 * (written - p - done) <= done + 60 * blocks
  }

  lemma RoomForBlock(size: nat, written: nat, p: nat, done: nat, blocks: nat, total: nat, n: nat)
    requires p <= 5 && done < total && Blocks(done, total, blocks) && 60 * (written - p - done) <= done + 60 * blocks
    requires n == (if total - done < BLOCK_SIZE then total - done else BLOCK_SIZE) && MaxCompressedLength(total) <= size
    ensures Room(size, written, n) && Blocks(done + n, total, blocks + 1)
  {
    assert 6 * (total / 6) > total - 6;
  }

  lemma RoomInStream(out: seq<Byte>, written: nat, data: seq<Byte>, done: nat, blocks: nat, n: nat)
    requires Streamed(out, written, data, done, blocks) && done < |data| && MaxCompressedLength(|data|) <= |out|
    requires n == (if |data| - done < BLOCK_SIZE then |data| - done else BLOCK_SIZE)
    ensures written <= |out| && Room(|out|, written, n) && Blocks(done + n, |data|, blocks + 1)
  {
    RoomForBlock(|out|, written, |Varint(|data|)|, done, blocks, |data|, n);
  }

  lemma BlockWritten(was: seq<Byte>, now: seq<Byte>, written: nat, end: nat, data: seq<Byte>, done: nat, blocks: nat, block: seq<Byte>)
    requires Streamed(was, written, data, done, blocks) && SnappyCompress.Before(was, now, written)
    requires Compressed(now, written, end, block, |block|, 1)
    requires done + |block| <= |data| && data[done..done + |block|] == block && Blocks(done + |block|, |data|, blocks + 1)
    ensures Streamed(now, end, data, done + |block|, blocks + 1)
  {
    var p := |Varint(|data|)|;
    assert was[..p] == was[..written][..p] && now[..p] == now[..written][..p];
    assert was[p..written] == was[..written][p..] && now[p..written] == now[..written][p..];
    assert block[..|block|] == block;
    CodesConcat(now[p..written], data[..done], now[written..end], block);
    assert now[p..end] == now[p..written] + now[written..end];
    assert data[..done + |block|] == data[..done] + block;
  }

  // The bytes of the blocks of the data.
  ghost function BlockBytes(data: seq<Byte>, hash: Hash): seq<Byte>
    requires Hashes(hash)
  {
    if data == [] then []
    else
      var n := if |data| < BLOCK_SIZE then |data| else BLOCK_SIZE;
      PlanBytes(data[..n], Plan(data[..n], TableSize(n), hash)) + BlockBytes(data[n..], hash)
  }

  lemma FirstBlock(data: seq<Byte>, hash: Hash, n: nat, written: seq<Byte>)
    requires Hashes(hash) && data != [] && n == if |data| < BLOCK_SIZE then |data| else BLOCK_SIZE
    ensures written + PlanBytes(data[..n], Plan(data[..n], TableSize(n), hash)) + BlockBytes(data[n..], hash) == written + BlockBytes(data, hash)
  {
    SnappyPlan.Assoc(written, PlanBytes(data[..n], Plan(data[..n], TableSize(n), hash)), BlockBytes(data[n..], hash));
  }

  lemma WroteAfter(was: seq<Byte>, now: seq<Byte>, op: nat, end: nat, bytes: seq<Byte>)
    requires Wrote(was, now, op, end, bytes)
    ensures op <= end <= |now| == |was| && now[..end] == was[..op] + bytes
  {
    assert now[..end] == now[..op] + now[op..end];
  }

  // One block of the input.
  method CompressBlock(reader: Source, out: array<Byte>, op: nat, hash: Hash, ghost data: seq<Byte>, ghost blocks: nat)
      returns (written: nat)
    requires Hashes(hash) && reader.rest != [] && |reader.rest| <= |data| && reader.rest == data[|data| - |reader.rest|..]
    requires MaxCompressedLength(|data|) <= out.Length && Streamed(out[..], op, data, |data| - |reader.rest|, blocks)
    modifies reader, out
    ensures |reader.rest| < |old(reader.rest)| && reader.rest == data[|data| - |reader.rest|..]
    ensures Streamed(out[..], written, data, |data| - |reader.rest|, blocks + 1)
    ensures op <= out.Length && written <= out.Length && out[..written] + BlockBytes(reader.rest, hash) == old(out[..op]) + BlockBytes(old(reader.rest), hash)
  {
    hide Streamed, Compressed, Wrote, PlanBytes, Plan, BlockBytes, Room, SnappyCompress.Before, TableSize;
    ghost var done := |data| - |reader.rest|;
    var n := if |reader.rest| < BLOCK_SIZE then |reader.rest| else BLOCK_SIZE;
    var block, pending := NextBlock(reader, n);
    assert block == data[done..done + n];
    var table := GetHashTable(n);
    RoomInStream(out[..], op, data, done, blocks, n);
    ghost var was := out[..];
    written := CompressFragment(block, out, op, table, hash);
    WroteAfter(was, out[..], op, written, PlanBytes(block, Plan(block, TableSize(n), hash)));
    FirstBlock(old(reader.rest), hash, n, was[..op]);
    BlockWritten(was, out[..], op, written, data, done, blocks, block);
    reader.Skip(pending);
  }

  lemma Preamble(out: seq<Byte>, data: seq<Byte>)
    requires |data| < 0x1_0000_0000 && |Varint(|data|)| <= |out| && out[..|Varint(|data|)|] == Varint(|data|)
    ensures Streamed(out, |Varint(|data|)|, data, 0, 0)
  {
    var p := |Varint(|data|)|;
    VarintLength(|data|);
    CodesNothing();
    assert out[p..p] == [] && data[..0] == [];
  }

  // What Streamed says of a finished stream.
  lemma Finished(out: seq<Byte>, written: nat, data: seq<Byte>, blocks: nat)
    requires Streamed(out, written, data, |data|, blocks)
    ensures out[..written] == Varint(|data|) + out[|Varint(|data|)|..written] && Codes(out[|Varint(|data|)|..written], data)
    ensures written <= MaxCompressedLength(|data|)
  {
    var p := |Varint(|data|)|;
    assert data[..|data|] == data;
    assert out[..written] == out[..p] + out[p..written];
    assert 6 * (|data| / 6) > |data| - 6;
  }

  /** Compress everything the source holds, whatever regions it hands out. The buffer need only have
      the size MaxCompressedLength gives, and that much is enough for every store. */
  method Compress(reader: Source, out: array<Byte>, hash: Hash) returns (written: nat)
    requires Hashes(hash) && |reader.rest| < 0x1_0000_0000 && MaxCompressedLength(|reader.rest|) <= out.Length
    modifies reader, out
    ensures written <= MaxCompressedLength(|old(reader.rest)|) && written <= out.Length
    ensures Uncompressed(out[..written]) == Some(old(reader.rest))
    ensures out[..written] == Varint(|old(reader.rest)|) + BlockBytes(old(reader.rest), hash)
  {
    hide Streamed, BlockBytes, Uncompressed, Codes;
    ghost var data := reader.rest;
    var ulength := Encode32(|reader.rest|);
    VarintLength(|data|);
    StoreBytes(out, 0, ulength);
    written := |ulength|;
    assert out[..written] == out[0..written];
    Preamble(out[..], data);
    ghost var blocks := 0;
    assert data[0..] == data;
    while |reader.rest| > 0
      invariant |reader.rest| <= |data| && reader.rest == data[|data| - |reader.rest|..]
      invariant Streamed(out[..], written, data, |data| - |reader.rest|, blocks)
      invariant written <= out.Length && out[..written] + BlockBytes(reader.rest, hash) == ulength + BlockBytes(data, hash)
      decreases |reader.rest|
    {
      written := CompressBlock(reader, out, written, hash, data, blocks);
      blocks := blocks + 1;
    }
    NoBlocks(hash);
    assert out[..written] + [] == out[..written];
    Finished(out[..], written, data, blocks);
    StreamRoundTrip(out[|ulength|..written], data);
  }

  lemma NoBlocks(hash: Hash)
    requires Hashes(hash)
    ensures BlockBytes([], hash) == []
  {
  }

  // ----- uncompressing -----

  // What a stream stands for: its length, and elements that make up exactly that many bytes.
  function Uncompressed(s: seq<Byte>): (r: Option<seq<Byte>>) {
    match ReadLength(s)
    case None => None
    case Some((length, n)) =>
      if n > |s| then None
      else match DecodeAll(s[n..], [], length)
        case None => None
        case Some(out) => if |out| == length then Some(out) else None
  }

  lemma StreamRoundTrip(body: seq<Byte>, data: seq<Byte>)
    requires |data| < 0x1_0000_0000 && Codes(body, data)
    ensures Uncompressed(Varint(|data|) + body) == Some(data)
  {
    hide Varint, VarintAt, DecodeAll;
    var s, p := Varint(|data|) + body, |Varint(|data|)|;
    VarintLength(|data|);
    VarintRoundTrip(|data|, body, 5);
    assert s[p..] == body;
    assert DecodesTo(body, data, [], [], |data|);
    assert body + [] == body && [] + data == data;
    NothingToDecode(data, |data|);
  }

  lemma NothingToDecode(data: seq<Byte>, limit: nat)
    ensures DecodeAll([], data, limit) == Some(data)
  {
  }

  /** Uncompress into an array with room for the length the stream states: it succeeds exactly on
      well-formed streams, whatever regions the source hands out, and writes nothing past that length. */
  method RawUncompress(reader: Source, uncompressed: array<Byte>) returns (ok: bool)
    requires uncompressed.Length < SIZE_LIMIT
    requires ReadLength(reader.rest).Some? ==> ReadLength(reader.rest).value.0 <= uncompressed.Length
    modifies reader, uncompressed
    ensures ok <==> Uncompressed(old(reader.rest)).Some?
    ensures ok ==> var out := Uncompressed(old(reader.rest)).value; |out| <= uncompressed.Length && uncompressed[..|out|] == out
    ensures var length := if ReadLength(old(reader.rest)).Some? then ReadLength(old(reader.rest)).value.0 else 0;
            forall j :: length <= j < uncompressed.Length ==> uncompressed[j] == old(uncompressed[j])
  {
    var writer := new SnappyArrayWriter(uncompressed);
    var length;
    ok, length := ReadUncompressedLength(reader);
    if ok {
      ghost var was := uncompressed[..];
      writer.SetExpectedLength(length);
      var decompressor := new SnappyDecompressor(reader);
      decompressor.DecompressAllTags(writer);
      ok := decompressor.eof && writer.CheckLength();
    }
  }

  /** Uncompressing what was compressed gives the data back, for every hash and for every way the two
      sources cut their input into regions. */
  method RoundTrip(data: seq<Byte>, hash: Hash, regions1: nat -> nat, regions2: nat -> nat)
      returns (ok: bool, result: seq<Byte>)
    requires Hashes(hash) && |data| < 0x1_0000_0000
    ensures ok && result == data
  {
    var compressed := new Byte[MaxCompressedLength(|data|)](_ => 0);
    var reader := new Source(data, regions1);
    var n := Compress(reader, compressed, hash);
    reader := new Source(compressed[..n], regions2);
    LengthOf(compressed[..n]);
    var uncompressed := new Byte[|data|](_ => 0);
    ok := RawUncompress(reader, uncompressed);
    result := uncompressed[..];
  }

  lemma LengthOf(s: seq<Byte>)
    requires Uncompressed(s).Some?
    ensures ReadLength(s).Some? && ReadLength(s).value.0 == |Uncompressed(s).value|
  {
  }
}
