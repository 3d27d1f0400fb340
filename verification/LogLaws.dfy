/** The physical records that one record becomes, with their types and payloads spelled out. */
module LogLaws {
  import opened Bytes
  import opened Checksums
  import opened Log
  import opened LogFormat

  // The payload of a physical record that fills a whole block.
  const WHOLE: nat := 32761

  // Physical record i has a whole block's payload, and there is more behind it.
  predicate Middle(fs: seq<Physical>, data: Record, i: nat)
    requires i < |fs|
  {
    WHOLE * (i + 1) < |data| && fs[i] == Physical(3, data[WHOLE * i..WHOLE * (i + 1)])
  }

  // The physical records of what is left of a record, from the start of a block.
  predicate Continued(fs: seq<Physical>, data: Record) {
    && fs != []
    && (forall i {:trigger Middle(fs, data, i)} :: 0 <= i < |fs| - 1 ==> Middle(fs, data, i))
    && WHOLE * (|fs| - 1) <= |data| <= WHOLE * |fs|
    && fs[|fs| - 1] == Physical(4, data[WHOLE * (|fs| - 1)..])
  }

  lemma ContinuedLast(data: Record)
    requires |data| <= WHOLE
    ensures Continued([Physical(4, data)], data)
  {
    assert data[0..] == data;
  }

  lemma ContinuedMore(data: Record, fs: seq<Physical>)
    requires |data| > WHOLE && Continued(fs, data[WHOLE..])
    ensures Continued([Physical(3, data[..WHOLE])] + fs, data)
  {
    var rest, all := data[WHOLE..], [Physical(3, data[..WHOLE])] + fs;
    forall i {:trigger Middle(all, data, i)} | 0 <= i < |all| - 1
      ensures Middle(all, data, i)
    {
      if i > 0 {
        assert Middle(fs, rest, i - 1) && all[i] == fs[i - 1];
        assert rest[WHOLE * (i - 1)..WHOLE * i] == data[WHOLE * i..WHOLE * (i + 1)];
      }
    }
    assert rest[WHOLE * (|fs| - 1)..] == data[WHOLE * |fs|..];
    assert all[|all| - 1] == fs[|fs| - 1];
  }

  lemma {:induction false} FragmentsContinue(o: Offset, data: Record)
    requires data != [] && (o == 0 || o == BLOCK_SIZE)
    ensures Continued(Fragments(o, data, false), data)
    decreases |data|
  {
    if |data| <= WHOLE {
      assert data[..|data|] == data;
      ContinuedLast(data);
    } else {
      FragmentsContinue(BLOCK_SIZE, data[WHOLE..]);
      ContinuedMore(data, Fragments(BLOCK_SIZE, data[WHOLE..], false));
    }
  }

  // Room for a payload behind a header at offset o, or in the next block when no header fits.
  function RoomAt(o: Offset): nat {
    if o <= 32761 then 32761 - o else 32761
  }

  /** A record that fits in its block is one physical record, of type 1. Any other fills the rest of the block with
      one of type 2, every whole block with one of type 3, and ends with one of type 4. */
  lemma RecordTypes(o: Offset, data: Record)
    ensures var fs, room := Fragments(o, data, true), RoomAt(o);
            if |data| <= room then fs == [Physical(1, data)]
            else fs[0] == Physical(2, data[..room]) && Continued(fs[1..], data[room..])
  {
    hide Continued;
    var room := RoomAt(o);
    if |data| <= room {
      assert data[..|data|] == data;
    } else {
      FragmentsContinue(BLOCK_SIZE, data[room..]);
      FragmentsStep(o, data, true);
      assert Fragments(o, data, true)[1..] == Fragments(BLOCK_SIZE, data[room..], false);
    }
  }

  lemma ThreeFragments(b: Record)
    requires |b| == 97270
    ensures Fragments(1007, b, true) ==
            [Physical(2, b[..31754]), Physical(3, b[31754..64515]), Physical(4, b[64515..])]
  {
    hide Fragments;
    RecordTypes(1007, b);
    var fs, rest := Fragments(1007, b, true), b[31754..];
    assert |fs| == 3 && Middle(fs[1..], rest, 0);
    assert fs[1] == fs[1..][0] && fs[2] == fs[1..][1];
    assert rest[0..32761] == b[31754..64515] && rest[32761..] == b[64515..];
  }

  /** The example of the format's description: of records of 1000, 97270 and 8000 bytes the first is whole in the
      first block, the second is cut in three and leaves six bytes, and the third is whole in the fourth block. */
  lemma DescribedExample(a: Record, b: Record, c: Record)
    requires |a| == 1000 && |b| == 97270 && |c| == 8000
    ensures Fragments(0, a, true) == [Physical(1, a)]
    ensures Fragments(1007, b, true) ==
            [Physical(2, b[..31754]), Physical(3, b[31754..64515]), Physical(4, b[64515..])]
    ensures After(BLOCK_SIZE, Physical(4, b[64515..])) == 32762 && Pad(32762) == 6
    ensures Fragments(32762, c, true) == [Physical(1, c)] && After(32762, Physical(1, c)) == 8007
  {
    hide Fragments, Continued;
    RecordTypes(0, a);
    ThreeFragments(b);
    RecordTypes(32762, c);
  }
}
