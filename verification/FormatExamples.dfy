/** Examples of the formats, byte by byte: what the descriptions of the formats give, and what stands for itself. */
module FormatExamples {
  import opened Options
  import opened Bytes
  import opened Varints
  import opened BlockFormat
  import opened WriteBatches
  import opened ManifestFormat
  import opened InternalKeyBytes
  import opened SnappyFormat
  import opened SnappyPlan
  import opened SnappyLaws
  import opened SnappyStream
  import FilterBlocks
  import InternalKeys
  import RankedKeys
  import TableBytes

  /** Numbers of a fixed size and of a variable one have their low bytes first. */
  lemma Numbers()
    ensures Fixed32(0x0403_0201) == [1, 2, 3, 4]
    ensures Fixed64(0x0807_0605_0403_0201) == [1, 2, 3, 4, 5, 6, 7, 8]
    ensures Varint(64) == [0x40] && Varint(300) == [0xAC, 0x02] && Varint(0x1F_FFFE) == [0xFE, 0xFF, 0x7F]
  {
    assert Varint(0x7F) == [0x7F] && Varint(0x3FFF) == [0xFF, 0x7F] && Varint(2) == [2];
  }

  lemma Short(v: Byte)
    requires v < 128
    ensures Varint(v) == [v]
  {
  }

  lemma ShortString(s: seq<Byte>)
    requires |s| < 128
    ensures Prefixed(s) == [|s|] + s
  {
    Short(|s|);
  }

  lemma Updates()
    ensures EncodeOp(Op.Put([97], [98, 99])) == [1, 1, 97, 2, 98, 99] && EncodeOp(Op.Delete([100])) == [0, 1, 100]
  {
    hide Prefixed;
    ShortString([97]);
    ShortString([98, 99]);
    ShortString([100]);
  }

  /** A batch: its sequence number, how many updates it has, and each with its type, its key and its value. */
  lemma Batch()
    ensures BatchBytes(7, [Op.Put([97], [98, 99]), Op.Delete([100])]) ==
            [7, 0, 0, 0, 0, 0, 0, 0] + [2, 0, 0, 0] + [1, 1, 97, 2, 98, 99] + [0, 1, 100]
  {
    hide EncodeOp, Flatten;
    var a, b := Op.Put([97], [98, 99]), Op.Delete([100]);
    Updates();
    assert Encoded([a, b]) == [EncodeOp(a), EncodeOp(b)];
    FlattenTwo(EncodeOp(a), EncodeOp(b));
    assert Fixed64(7) == [7, 0, 0, 0, 0, 0, 0, 0] && Fixed32(2) == [2, 0, 0, 0];
  }

  lemma FlattenTwo(a: seq<Byte>, b: seq<Byte>)
    ensures Flatten([a, b]) == a + b
  {
    assert [b][1..] == [] && Flatten([b]) == b + [];
    assert [a, b][1..] == [b];
  }

  /** The fields of a version edit, each behind its tag: those of one number, */
  lemma NumberFields(n: Byte)
    requires n < 128
    ensures EncodeField(LogNumber(n)) == [2, n] && EncodeField(PrevLogNumber(n)) == [9, n]
    ensures EncodeField(NextFileNumber(n)) == [3, n] && EncodeField(LastSequence(n)) == [4, n]
  {
    hide Varint;
    Short(n);
    Short(2);
    Short(3);
    Short(4);
    Short(9);
  }

  /** and the others. */
  lemma OtherFields(file: FileMeta)
    requires file == FileMeta(9, 100, [97], [98, 99])
    ensures EncodeField(ComparatorName([99, 109, 112])) == [1, 3, 99, 109, 112]
    ensures EncodeField(CompactPointer(2, [97])) == [5, 2, 1, 97] && EncodeField(DeletedFile(3, 8)) == [6, 3, 8]
    ensures EncodeField(NewFile(1, file)) == [7, 1, 9, 100, 1, 97, 2, 98, 99]
  {
    hide Varint, Prefixed;
    ShortString([99, 109, 112]);
    ShortString([97]);
    ShortString([98, 99]);
    Short(1);
    Short(2);
    Short(3);
    Short(5);
    Short(6);
    Short(7);
    Short(8);
    Short(9);
    Short(100);
  }

  /** An entry of a block: how many bytes of its key are those of the one before, how many follow, and how long its
      value is. */
  lemma BlockEntry()
    ensures EntryBytes(2, Item([97, 98, 99], [118, 119])) == [2, 1, 2, 99, 118, 119]
  {
    assert Varint(2) == [2] && Varint(1) == [1];
  }

  lemma LowBytesOf()
    ensures LowBytes(2048, 2) == [0, 8] && LowBytes(1, 2) == [1, 0] && LowBytes(60, 1) == [60] && LowBytes(256, 2) == [0, 1]
  {
  }

  /** Snappy literals: a short one, and ones whose lengths take one byte more, or two. */
  lemma Literals(data: seq<Byte>)
    ensures Encode(Literal([120, 97, 98])) == [8, 120, 97, 98]
    ensures |data| == 61 ==> Encode(Literal(data)) == [240, 60] + data
    ensures |data| == 257 ==> Encode(Literal(data)) == [244, 0, 1] + data
  {
    hide LowBytes;
    LowBytesOf();
    assert [240] + [60] == [240, 60] && [244] + [0, 1] == [244, 0, 1];
  }

  /** Snappy copies, with offsets of one byte and of two. */
  lemma Copies()
    ensures Encode(Copy(2, 4)) == [1, 2] && Encode(Copy(0x1FF, 11)) == [0x3D, 0xFF]
    ensures Encode(Copy(2048, 4)) == [14, 0x00, 0x08] && Encode(Copy(1, 64)) == [254, 1, 0]
  {
    hide LowBytes;
    LowBytesOf();
  }

  /** The example of the format description: a copy may be longer than how far back it begins. */
  lemma Overlapping()
    ensures Apply(Copy(2, 4), [120, 97, 98]) == [120, 97, 98, 97, 98, 97, 98]
  {
    var out: seq<Byte> := [120, 97, 98];
    assert AppendCopy(out, 2, 4) == AppendCopy(out + [97], 2, 3);
    assert AppendCopy(out + [97], 2, 3) == AppendCopy(out + [97] + [98], 2, 2);
    assert AppendCopy(out + [97] + [98], 2, 2) == AppendCopy(out + [97] + [98] + [97], 2, 1);
    assert AppendCopy(out + [97] + [98] + [97], 2, 1) == AppendCopy(out + [97] + [98] + [97] + [98], 2, 0);
  }

  /** A hundred equal bytes take nine: their number, the first of them as it is, and copies of 64 and of 35 bytes. */
  lemma HundredEqualBytes(b: Byte, hash: Hash)
    requires Hashes(hash)
    ensures Varint(100) + BlockBytes(Run(b, 100), hash) == [100, 0, b, 254, 1, 0, 138, 1, 0]
  {
    hide Plan, Run;
    var input := Run(b, 100);
    assert input[..100] == input && input[100..] == [];
    RunPlan(b, 100, TableSize(100), hash);
    RunBytes(b, input);
  }

  lemma RunBytes(b: Byte, input: seq<Byte>)
    requires |input| == 100 && input[0] == b
    ensures AllInBlock(input, [Plain(0, 1), Match(1, 0, 99)])
    ensures PlanBytes(input, [Plain(0, 1), Match(1, 0, 99)]) == [0, b, 254, 1, 0, 138, 1, 0]
  {
    var p, q := Plain(0, 1), Match(1, 0, 99);
    assert input[0..1] == [b];
    assert PieceBytes(input, p) == [0, b];
    assert LowBytes(1, 2) == [1, 0];
    assert CopyBytes(1, 35) == [138, 1, 0];
    assert PieceBytes(input, q) == [254, 1, 0] + [138, 1, 0];
    FirstPiece(input, q, []);
    FirstPiece(input, p, [q]);
  }

  /** Data is compressed in blocks of 65536 bytes, each with a table of 256 to 16384 slots: as many as it has bytes, up to
      the next power of two. */
  lemma CompressedBlocks(data: seq<Byte>, hash: Hash)
    requires Hashes(hash) && data != []
    ensures |data| <= 65536 ==> BlockBytes(data, hash) == PlanBytes(data, Plan(data, TableSize(|data|), hash))
    ensures |data| > 65536 ==>
              var first := data[..65536];
              BlockBytes(data, hash) == PlanBytes(first, Plan(first, 16384, hash)) + BlockBytes(data[65536..], hash)
    ensures TableSize(100) == 256 && TableSize(1000) == 1024 && TableSize(1025) == 2048 && TableSize(16000) == 16384
  {
    hide Plan, PlanBytes;
    if |data| <= 65536 {
      assert data[..|data|] == data && data[|data|..] == [];
      assert BlockBytes(data[|data|..], hash) == [];
    }
  }

  /** An internal key: the user key, then in eight bytes the type and the sequence number. */
  lemma InternalKey(bytes: RankedKeys.KeyBytes, userKey: InternalKeys.UserKey)
    requires bytes(userKey) == [97]
    ensures var k := InternalKeys.InternalKey(userKey, 258, InternalKeys.TYPE_VALUE);
            TableBytes.Storable(bytes, k) ==> TableBytes.BytesOf(bytes, k) == [97] + [1, 2, 1, 0, 0, 0, 0, 0]
  {
    assert Fixed64(258 * 256 + 1) == [1, 2, 1, 0, 0, 0, 0, 0];
  }

  /** A filter block ends with where its offsets begin, in four bytes, and with the binary logarithm of how many bytes of
      the file each filter is for: 2048. */
  lemma FilterBlockEnd(policy: FilterBlocks.Policy, contents: seq<Byte>, filters: seq<seq<seq<Byte>>>, words: seq<Word>,
                       offset: nat, key: seq<Byte>)
    requires FilterBlocks.FilterBlock(policy, contents, filters, words)
    ensures |contents| >= 5 && contents[|contents| - 1] == 11
    ensures FilterBlocks.InFilter(filters, offset, key) <==> offset / 2048 < |filters| && key in filters[offset / 2048]
  {
  }
}
