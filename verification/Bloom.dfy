/** The Bloom filter: a key that was put in is never denied. */
module Bloom {
  import opened Bytes
  import opened BlockFormat
  import opened FilterBlocks
  import opened Rotations

  type Hash = seq<Byte> -> Word

  // Rotate right by 17 bits.
  function Delta(h: Word): Word {
    Right17(h)
  }

  // The hash after j steps, in 32 bits.
  function Probe(h: Word, j: nat): Word {
    if j == 0 then h else (Probe(h, j - 1) + Delta(h)) % 0x1_0000_0000
  }

  function Steps(h: nat, j: nat, d: nat): nat {
    h + j * d
  }

  /** Double hashing, in 32 bits: probe j is the hash plus j of those steps. */
  lemma {:induction false} ProbeIs(h: Word, j: nat)
    ensures Probe(h, j) == Steps(h, j, Delta(h)) % 0x1_0000_0000
  {
    hide Delta, Steps;
    if j > 0 {
      ProbeIs(h, j - 1);
      OneMore(h, j, Delta(h));
    } else {
      NoSteps(h, Delta(h));
    }
  }

  lemma NoSteps(h: nat, d: nat)
    ensures Steps(h, 0, d) == h
  {
  }

  lemma OneMore(h: nat, j: nat, d: nat)
    requires j > 0
    ensures (Steps(h, j - 1, d) % 0x1_0000_0000 + d) % 0x1_0000_0000 == Steps(h, j, d) % 0x1_0000_0000
  {
    assert j * d == (j - 1) * d + d;
    ModulusOnce(Steps(h, j - 1, d), d);
  }

  lemma ModulusOnce(a: nat, b: nat)
    ensures (a % 0x1_0000_0000 + b) % 0x1_0000_0000 == (a + b) % 0x1_0000_0000
  {
  }

  function Mask(bitpos: nat): bv8 {
    (1 as bv8) << (bitpos % 8)
  }

  // Whether a bit is set.
  predicate Bit(bits: seq<bv8>, bitpos: nat)
    requires bitpos < 8 * |bits|
  {
    bits[bitpos / 8] & Mask(bitpos) != 0
  }

  // One of the first j probes is at the bit, of n.
  predicate Hit(h: Word, j: nat, n: nat, bitpos: nat)
    requires n > 0
  {
    exists m :: 0 <= m < j && Probe(h, m) % n == bitpos
  }

  // One of the first k probes of some key is at the bit.
  predicate Marked(hash: Hash, keys: seq<Key>, k: nat, n: nat, bitpos: nat)
    requires n > 0
  {
    exists i :: 0 <= i < |keys| && Hit(hash(keys[i]), k, n, bitpos)
  }

  // All bits of a key's k probes are set.
  predicate HasKey(bits: seq<bv8>, hash: Hash, key: Key, k: nat)
    requires |bits| > 0
  {
    forall j :: 0 <= j < k ==> Bit(bits, Probe(hash(key), j) % (8 * |bits|))
  }

  // ----- the bits of a filter -----

  function WithBit(bits: seq<bv8>, bitpos: nat): (r: seq<bv8>)
    requires bitpos < 8 * |bits|
    ensures |r| == |bits|
  {
    bits[bitpos / 8 := bits[bitpos / 8] | Mask(bitpos)]
  }

  function WithProbes(bits: seq<bv8>, h: Word, j: nat): (r: seq<bv8>)
    requires |bits| > 0
    ensures |r| == |bits|
  {
    if j == 0 then bits else WithBit(WithProbes(bits, h, j - 1), Probe(h, j - 1) % (8 * |bits|))
  }

  function WithKeys(bits: seq<bv8>, hash: Hash, keys: seq<Key>, k: nat): (r: seq<bv8>)
    requires |bits| > 0
    ensures |r| == |bits|
  {
    if keys == [] then bits else WithProbes(WithKeys(bits, hash, keys[..|keys| - 1], k), hash(keys[|keys| - 1]), k)
  }

  lemma SettingABit(b: bv8, i: nat, j: nat)
    ensures (b | Mask(i)) & Mask(j) != 0 <==> b & Mask(j) != 0 || i % 8 == j % 8
  {
    var m, n := i % 8, j % 8;
    assert m == 0 || m == 1 || m == 2 || m == 3 || m == 4 || m == 5 || m == 6 || m == 7;
    assert n == 0 || n == 1 || n == 2 || n == 3 || n == 4 || n == 5 || n == 6 || n == 7;
  }

  lemma OneBit(bits: seq<bv8>, i: nat, j: nat)
    requires i < 8 * |bits| && j < 8 * |bits|
    ensures Bit(WithBit(bits, i), j) <==> Bit(bits, j) || i == j
  {
    SettingABit(bits[i / 8], i, j);
    assert i / 8 == j / 8 && i % 8 == j % 8 ==> i == j;
  }

  lemma HitBefore(h: Word, j: nat, n: nat, p: nat)
    requires n > 0
    ensures !Hit(h, 0, n, p)
    ensures Hit(h, j + 1, n, p) <==> Hit(h, j, n, p) || Probe(h, j) % n == p
  {
    hide Probe;
  }

  lemma {:induction false} ProbesSetBits(bits: seq<bv8>, h: Word, j: nat, p: nat)
    requires p < 8 * |bits|
    ensures Bit(WithProbes(bits, h, j), p) <==> Bit(bits, p) || Hit(h, j, 8 * |bits|, p)
  {
    hide Bit, WithBit, Probe, Hit;
    HitBefore(h, if j > 0 then j - 1 else 0, 8 * |bits|, p);
    if j > 0 {
      ProbesSetBits(bits, h, j - 1, p);
      OneBit(WithProbes(bits, h, j - 1), Probe(h, j - 1) % (8 * |bits|), p);
    }
  }

  lemma MarkedBefore(hash: Hash, keys: seq<Key>, k: nat, n: nat, p: nat)
    requires n > 0
    ensures Marked(hash, keys, k, n, p) <==>
            keys != [] && (Marked(hash, keys[..|keys| - 1], k, n, p) || Hit(hash(keys[|keys| - 1]), k, n, p))
  {
    hide Hit;
    forall i | 0 <= i < |keys| - 1
      ensures keys[..|keys| - 1][i] == keys[i]
    {
    }
  }

  /** Exactly the bits of the keys' probes get set. */
  lemma {:induction false} KeysSetBits(bits: seq<bv8>, hash: Hash, keys: seq<Key>, k: nat, p: nat)
    requires p < 8 * |bits|
    ensures Bit(WithKeys(bits, hash, keys, k), p) <==> Bit(bits, p) || Marked(hash, keys, k, 8 * |bits|, p)
  {
    hide Bit, Hit, WithProbes, Marked;
    MarkedBefore(hash, keys, k, 8 * |bits|, p);
    if keys != [] {
      var n := |keys| - 1;
      KeysSetBits(bits, hash, keys[..n], k, p);
      ProbesSetBits(WithKeys(bits, hash, keys[..n], k), hash(keys[n]), k, p);
    }
  }

  // ----- a filter as bytes: its bits, and how many probes it was made with -----

  function AsBytes(bits: seq<bv8>): (s: seq<Byte>)
    ensures |s| == |bits|
  {
    seq(|bits|, i requires 0 <= i < |bits| => bits[i] as int)
  }

  function AsBits(s: seq<Byte>): (bits: seq<bv8>)
    ensures |bits| == |s|
  {
    seq(|s|, i requires 0 <= i < |s| => s[i] as bv8)
  }

  lemma BitsRoundTrip(bits: seq<bv8>)
    ensures AsBits(AsBytes(bits)) == bits
  {
    forall i | 0 <= i < |bits|
      ensures AsBits(AsBytes(bits))[i] == bits[i]
    {
      SameByte(bits[i]);
    }
  }

  lemma SameByte(b: bv8)
    ensures b as int as bv8 == b
  {
  }

  // How many probes: about 0.69 per bit of a key, from 1 to 30.
  function Probes(bitsPerKey: nat): (k: Byte)
    ensures 1 <= k <= 30
  {
    var k := (bitsPerKey as real * 0.69).Floor;
    if k < 1 then 1 else if k > 30 then 30 else k
  }

  // How long a filter of n keys is.
  function Length(n: nat, bitsPerKey: nat): (bytes: nat)
    ensures bytes >= 8 && 8 * bytes >= n * bitsPerKey
  {
    var bits := if n * bitsPerKey < 64 then 64 else n * bitsPerKey;
    (bits + 7) / 8
  }

  /** A filter has the fewest whole bytes with that many bits for each key, eight at least, and last how many
      probes it was made with: 69 for 100 bits, rounded down, from 1 to 30. */
  lemma FilterShape(keys: seq<Key>, bitsPerKey: nat, hash: Hash)
    ensures var filter := FilterOf(keys, bitsPerKey, hash);
            var bytes, k: int := |filter| - 1, filter[|filter| - 1];
            && bytes >= 8 && 8 * bytes >= |keys| * bitsPerKey
            && (bytes > 8 ==> 8 * (bytes - 1) < |keys| * bitsPerKey)
            && (1 < k < 30 ==> 100 * k <= 69 * bitsPerKey < 100 * (k + 1))
            && (k <= 1 ==> k == 1 && 69 * bitsPerKey < 200)
            && (k >= 30 ==> k == 30 && 69 * bitsPerKey >= 3000)
  {
    hide WithKeys, AsBytes;
    ProbesAre(bitsPerKey);
  }

  lemma ProbesAre(bitsPerKey: nat)
    ensures var k: int := Probes(bitsPerKey);
            && (1 < k < 30 ==> 100 * k <= 69 * bitsPerKey < 100 * (k + 1))
            && (k <= 1 ==> 69 * bitsPerKey < 200)
            && (k >= 30 ==> 69 * bitsPerKey >= 3000)
  {
    var r := (bitsPerKey as real * 0.69).Floor;
    assert r as real <= bitsPerKey as real * 0.69 < (r + 1) as real;
    assert 100.0 * (bitsPerKey as real * 0.69) == (69 * bitsPerKey) as real;
    assert (100 * r) as real <= (69 * bitsPerKey) as real < (100 * (r + 1)) as real;
  }

  function FilterBits(keys: seq<Key>, bitsPerKey: nat, hash: Hash): (bits: seq<bv8>)
    ensures |bits| == Length(|keys|, bitsPerKey) >= 8
  {
    WithKeys(seq(Length(|keys|, bitsPerKey), _ => 0 as bv8), hash, keys, Probes(bitsPerKey))
  }

  function FilterOf(keys: seq<Key>, bitsPerKey: nat, hash: Hash): seq<Byte> {
    AsBytes(FilterBits(keys, bitsPerKey, hash)) + [Probes(bitsPerKey)]
  }

  // What a filter says of a key; one with a number of probes that is not understood denies nothing.
  predicate MayMatch(key: Key, filter: seq<Byte>, hash: Hash) {
    var n := |filter| - 1;
    n >= 1 && (filter[n] > 30 || HasKey(AsBits(filter[..n]), hash, key, filter[n]))
  }

  method CreateFilter(keys: seq<Key>, bitsPerKey: nat, hash: Hash) returns (filter: seq<Byte>)
    ensures filter == FilterOf(keys, bitsPerKey, hash)
  {
    var bits := |keys| * bitsPerKey;
    if bits < 64 {
      bits := 64;
    }
    var bytes := (bits + 7) / 8;
    bits := bytes * 8;
    var k := Probes(bitsPerKey);
    var array_ := new bv8[bytes](_ => 0);
    ghost var zeros := array_[..];
    assert zeros == seq(Length(|keys|, bitsPerKey), _ => 0 as bv8);
    for i := 0 to |keys|
      invariant array_[..] == WithKeys(zeros, hash, keys[..i], k)
    {
      AddKey(array_, hash, keys[i], k);
      assert keys[..i + 1][..i] == keys[..i];
    }
    assert keys[..|keys|] == keys;
    filter := AsBytes(array_[..]) + [k];
  }

  // Set the bits of one key's probes.
  method AddKey(array_: array<bv8>, hash: Hash, key: Key, k: nat)
    requires array_.Length > 0
    modifies array_
    ensures array_[..] == WithProbes(old(array_[..]), hash(key), k)
  {
    hide Delta;
    var bits := 8 * array_.Length;
    var h := hash(key);
    var delta := Delta(h);
    for j := 0 to k
      invariant h == Probe(hash(key), j) && array_[..] == WithProbes(old(array_[..]), hash(key), j)
    {
      var bitpos := h % bits;
      array_[bitpos / 8] := array_[bitpos / 8] | Mask(bitpos);
      h := (h + delta) % 0x1_0000_0000;
    }
  }

  method KeyMayMatch(key: Key, filter: seq<Byte>, hash: Hash) returns (match_: bool)
    ensures match_ <==> MayMatch(key, filter, hash)
  {
    hide Bit, Delta, AsBits;
    var len := |filter|;
    if len < 2 {
      return false;
    }
    var array_ := AsBits(filter[..len - 1]);
    var bits := (len - 1) * 8;
    var k := filter[len - 1];
    if k > 30 {
      return true;
    }
    var h := hash(key);
    var delta := Delta(h);
    var j := 0;
    while j < k
      invariant j <= k && h == Probe(hash(key), j) && HasKey(array_, hash, key, j)
    {
      var bitpos := h % bits;
      if !Bit(array_, bitpos) {
        return false;
      }
      h := (h + delta) % 0x1_0000_0000;
      j := j + 1;
    }
    return true;
  }

  // Each of the key's probes is a probe of some key.
  predicate AllMarked(hash: Hash, keys: seq<Key>, k: nat, n: nat, key: Key)
    requires n > 0
  {
    forall j :: 0 <= j < k ==> Marked(hash, keys, k, n, Probe(hash(key), j) % n)
  }

  lemma HasKeyIff(zeros: seq<bv8>, hash: Hash, keys: seq<Key>, k: nat, key: Key)
    requires |zeros| > 0 && forall i :: 0 <= i < |zeros| ==> zeros[i] == 0
    ensures HasKey(WithKeys(zeros, hash, keys, k), hash, key, k) <==> AllMarked(hash, keys, k, 8 * |zeros|, key)
  {
    hide Marked, Probe, Bit, WithKeys;
    var bits, n := WithKeys(zeros, hash, keys, k), 8 * |zeros|;
    forall j | 0 <= j < k
      ensures Bit(bits, Probe(hash(key), j) % n) <==> Marked(hash, keys, k, n, Probe(hash(key), j) % n)
    {
      var p := Probe(hash(key), j) % n;
      KeysSetBits(zeros, hash, keys, k, p);
      NoBit(zeros, p);
    }
  }

  /** A filter admits a key exactly when each of its probes is a probe of some key it was made of. */
  lemma MayMatchIff(keys: seq<Key>, bitsPerKey: nat, hash: Hash, key: Key)
    ensures MayMatch(key, FilterOf(keys, bitsPerKey, hash), hash) <==>
            AllMarked(hash, keys, Probes(bitsPerKey), 8 * Length(|keys|, bitsPerKey), key)
  {
    hide AllMarked, HasKey, Probes, WithKeys, AsBits, AsBytes, Length;
    var zeros, k := seq(Length(|keys|, bitsPerKey), _ => 0 as bv8), Probes(bitsPerKey);
    var bits, filter := FilterBits(keys, bitsPerKey, hash), FilterOf(keys, bitsPerKey, hash);
    BitsRoundTrip(bits);
    assert filter[..|filter| - 1] == AsBytes(bits);
    HasKeyIff(zeros, hash, keys, k, key);
  }

  lemma NoBit(zeros: seq<bv8>, p: nat)
    requires p < 8 * |zeros| && zeros[p / 8] == 0
    ensures !Bit(zeros, p)
  {
  }

  // The policy of the table's filters.
  function BloomPolicy(bitsPerKey: nat, hash: Hash): Policy {
    Policy((keys: seq<Key>) => FilterOf(keys, bitsPerKey, hash), (key: Key, filter: seq<Byte>) => MayMatch(key, filter, hash))
  }

  /** No false negatives: every key that a filter was made from may match. */
  lemma BloomNeverDenies(bitsPerKey: nat, hash: Hash)
    ensures NoFalseNegatives(BloomPolicy(bitsPerKey, hash))
  {
    hide MayMatch, FilterOf, Probe, Probes;
    var p := BloomPolicy(bitsPerKey, hash);
    forall keys: seq<Key>, key: Key {:trigger p.mayMatch(key, p.create(keys))} | key in keys
      ensures p.mayMatch(key, p.create(keys))
    {
      MayMatchIff(keys, bitsPerKey, hash, key);
      var i :| 0 <= i < |keys| && keys[i] == key;
      var n, k := 8 * Length(|keys|, bitsPerKey), Probes(bitsPerKey);
      forall j | 0 <= j < k
        ensures Marked(hash, keys, k, n, Probe(hash(key), j) % n)
      {
        assert Hit(hash(keys[i]), k, n, Probe(hash(key), j) % n);
      }
    }
  }

  lemma BloomIsShort(bitsPerKey: nat, hash: Hash)
    ensures AtMost(BloomPolicy(bitsPerKey, hash), bitsPerKey + 9)
  {
    hide FilterBits, Length, Probes;
    var p := BloomPolicy(bitsPerKey, hash);
    forall keys: seq<Key> {:trigger p.create(keys)} | keys != []
      ensures |p.create(keys)| <= (bitsPerKey + 9) * |keys|
    {
      LengthIsShort(|keys|, bitsPerKey);
    }
  }

  lemma LengthIsShort(n: nat, bitsPerKey: nat)
    requires n > 0
    ensures Length(n, bitsPerKey) + 1 <= (bitsPerKey + 9) * n
  {
    var bits := n * bitsPerKey;
    assert (bitsPerKey + 9) * n == bits + 9 * n;
  }
}
