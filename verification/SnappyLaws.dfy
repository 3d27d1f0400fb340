/** What the compressor is for: repetition takes little room. */
module SnappyLaws {
  import opened Bytes
  import opened SnappyFormat
  import opened SnappyPlan

  // The same byte over and over.
  function Run(b: Byte, n: nat): (s: seq<Byte>)
    ensures |s| == n && forall i :: 0 <= i < n ==> s[i] == b
  {
    seq(n, _ => b)
  }

  predicate AllAre(input: seq<Byte>, from: nat, to: nat, b: Byte) {
    to <= |input| && forall i :: from <= i < to ==> input[i] == b
  }

  lemma FourSame(input: seq<Byte>, from: nat, to: nat, b: Byte, i: nat, j: nat)
    requires AllAre(input, from, to, b) && from <= i && i + 4 <= to && from <= j && j + 4 <= to
    ensures Four(input, i) == Four(input, j)
  {
  }

  // A match within a run goes on to its end.
  lemma {:induction false} MatchesToEnd(input: seq<Byte>, from: nat, to: nat, b: Byte, s1: nat, s2: nat)
    requires AllAre(input, from, to, b) && from <= s1 < s2 <= to && (to < |input| ==> input[to] != b)
    ensures MatchLength(input, s1, s2) == to - s2
    decreases |input| - s2
  {
    if s2 < to {
      MatchesToEnd(input, from, to, b, s1 + 1, s2 + 1);
    }
  }

  // ----- one run -----

  /** A block of equal bytes is one byte as it is and one match. */
  lemma RunPlan(b: Byte, n: nat, slots: nat, hash: Hash)
    requires Hashes(hash) && 17 <= n <= 0x1_0000 && slots > 0
    ensures Plan(Run(b, n), slots, hash) == [Plain(0, 1), Match(1, 0, n - 1)]
  {
    hide PiecesFrom, MatchesFrom;
    var input, table := Run(b, n), seq(slots, _ => 0);
    FourSame(input, 0, n, b, 0, 1);
    var slot := hash(Four(input, 1), slots);
    var entered: seq<Slot> := table[slot := 1];
    assert ScanFrom(input, table, hash, 1, 32) == Found(1, 0, entered);
    MatchesToEnd(input, 0, n, b, 4, 5);
    OnlyMatch(input, table, hash, 0, 1, 0, entered, n);
  }

  // From `from` on: a match is found at once and covers the rest.
  lemma OnlyMatch(input: seq<Byte>, table: seq<Slot>, hash: Hash, from: nat, at: nat, candidate: nat, entered: seq<Slot>, n: nat)
    requires Hashes(hash) && 15 <= |input| <= 0x1_0000 && |table| > 0 && from + 5 <= |input| && AllBelow(table, from + 1)
    requires ScanFrom(input, table, hash, from + 1, 32) == Found(at, candidate, entered)
    requires at + 4 + MatchLength(input, candidate + 4, at + 4) == |input|
    ensures PiecesFrom(input, table, hash, from) == [Plain(from, at), Match(at, candidate, |input| - at)]
  {
    hide ScanFrom, MatchLength, MatchesFrom, PiecesFrom;
    PiecesUpTo(input, table, hash, from);
    PiecesAfterMatch(input, entered, hash, at, candidate, |input| - at);
    assert [Plain(from, at)] + ([Match(at, candidate, |input| - at)] + []) == [Plain(from, at), Match(at, candidate, |input| - at)];
  }

  // ----- two runs -----

  // The first byte of a run that follows another byte, when none of its four bytes were entered: nothing there, then a match.
  /** A byte and then a run of another one: the first two bytes as they are, and one match. */
  lemma AfterOtherPlan(a: Byte, b: Byte, n: nat, slots: nat, hash: Hash)
    requires Hashes(hash) && a != b && 17 <= n < 0x1_0000 && slots > 0
    ensures Plan([a] + Run(b, n), slots, hash) == [Plain(0, 2), Match(2, 1, n - 1)]
  {
    hide PiecesFrom, MatchesFrom, ScanFrom;
    var input, table := [a] + Run(b, n), seq(slots, _ => 0);
    var slot := hash(Four(input, 1), slots);
    var entered: seq<Slot> := table[slot := 1];
    assert Four(input, 0)[0] == a && Four(input, 1)[0] == b;
    ScanStep(input, table, hash, 1, 32);
    FourSame(input, 1, n + 1, b, 1, 2);
    ScanStep(input, entered, hash, 2, 33);
    assert AllAre(input, 1, n + 1, b);
    MatchesToEnd(input, 1, n + 1, b, 5, 6);
    OnlyMatch(input, table, hash, 0, 2, 1, entered[slot := 2], n);
  }

  /** Two runs: of each, one byte as it is and one match. */
  lemma TwoRunsPlan(a: Byte, b: Byte, n: nat, m: nat, slots: nat, hash: Hash)
    requires Hashes(hash) && a != b && 5 <= n && 17 <= m && n + m <= 0x1_0000 && slots > 0
    ensures Plan(Run(a, n) + Run(b, m), slots, hash) == [Plain(0, 1), Match(1, 0, n - 1), Plain(n, n + 1), Match(n + 1, n, m - 1)]
  {
    hide PiecesFrom, MatchesFrom, ScanFrom, MatchLength, Entered, Four;
    var input, table := Run(a, n) + Run(b, m), seq(slots, _ => 0);
    assert AllAre(input, 0, n, a) && AllAre(input, n, n + m, b);
    var t1 := FirstRun(input, a, n, table, hash);
    var (next, t2) := Entered(input, t1, hash, n);
    SecondRun(input, a, b, n, m, t1, hash);
    PiecesUpTo(input, table, hash, 0);
    PiecesAfterMatch(input, t1, hash, 1, 0, n - 1);
    TwoMore(Plain(0, 1), Match(1, 0, n - 1), PiecesFrom(input, table, hash, 0), MatchesFrom(input, t1, hash, 1, 0), PiecesFrom(input, t2, hash, n));
    MatchesToEnd(input, n, n + m, b, n + 4, n + 5);
    OnlyMatch(input, t2, hash, n, n + 1, n, t2[hash(Four(input, n + 1), slots) := n + 1], m);
  }

  lemma FirstRun(input: seq<Byte>, a: Byte, n: nat, table: seq<Slot>, hash: Hash) returns (t1: seq<Slot>)
    requires Hashes(hash) && 5 <= n && n + 17 <= |input| <= 0x1_0000 && |table| > 0 && AllBelow(table, 1)
    requires AllAre(input, 0, n, a) && input[n] != a
    ensures ScanFrom(input, table, hash, 1, 32) == Found(1, 0, t1) && 5 + MatchLength(input, 4, 5) == n
    ensures |t1| == |table| && forall k :: 0 <= k < |t1| ==> t1[k] <= 1
  {
    hide ScanFrom;
    t1 := table[hash(Four(input, 1), |table|) := 1];
    FourSame(input, 0, n, a, 0, 1);
    ScanStep(input, table, hash, 1, 32);
    MatchesToEnd(input, 0, n, a, 4, 5);
  }

  // Behind the first run nothing is found for the second, and its first position is entered.
  lemma SecondRun(input: seq<Byte>, a: Byte, b: Byte, n: nat, m: nat, t1: seq<Slot>, hash: Hash)
    requires Hashes(hash) && a != b && 5 <= n && 17 <= m && |input| == n + m <= 0x1_0000 && |t1| > 0
    requires AllAre(input, 0, n, a) && AllAre(input, n, n + m, b) && forall k :: 0 <= k < |t1| ==> t1[k] <= 1
    ensures var (next, t2) := Entered(input, t1, hash, n);
            && Four(input, n) != Four(input, next)
            && ScanFrom(input, t2, hash, n + 1, 32) == Found(n + 1, n, t2[hash(Four(input, n + 1), |t1|) := n + 1])
  {
    hide ScanFrom;
    var (next, t2) := Entered(input, t1, hash, n);
    assert next <= 1 || next == n - 1;
    assert Four(input, next)[0] == a && Four(input, n)[0] == b;
    FourSame(input, n, n + m, b, n, n + 1);
    ScanStep(input, t2, hash, n + 1, 32);
  }

  lemma TwoMore(p: Piece, q: Piece, all: seq<Piece>, some: seq<Piece>, rest: seq<Piece>)
    requires all == [p] + some && some == [q] + rest
    ensures all == [p, q] + rest
  {
  }

  // ----- how many bytes -----

  lemma {:induction false} CopiesSize(offset: nat, length: nat)
    requires 1 <= offset < 0x1_0000 && 4 <= length
    ensures |CopyBytes(offset, length)| <= 3 * (length / 64 + 1)
    decreases length
  {
    if length >= 68 {
      CopiesSize(offset, length - 64);
    }
  }

  /** A block of n equal bytes takes at most three bytes for every 64, and five. */
  lemma RunIsSmall(b: Byte, n: nat, slots: nat, hash: Hash)
    requires Hashes(hash) && 17 <= n <= 0x1_0000 && slots > 0
    ensures |PlanBytes(Run(b, n), Plan(Run(b, n), slots, hash))| <= 5 + 3 * ((n - 1) / 64)
  {
    hide Plan, Encode, CopyBytes;
    RunPlan(b, n, slots, hash);
    var input := Run(b, n);
    CopiesSize(1, n - 1);
    TwoPieces(input, Plain(0, 1), Match(1, 0, n - 1));
    ShortLiteral(input, 0, 1);
  }

  lemma ShortLiteral(input: seq<Byte>, from: nat, to: nat)
    requires from < to <= |input| && to - from <= 60
    ensures |Encode(Literal(input[from..to]))| == to - from + 1
  {
  }

  lemma TwoPieces(input: seq<Byte>, p: Piece, q: Piece)
    requires |input| <= 0x1_0000 && InBlock(input, p) && InBlock(input, q)
    ensures AllInBlock(input, [p, q]) && PlanBytes(input, [p, q]) == PieceBytes(input, p) + PieceBytes(input, q)
  {
    hide PieceBytes;
    FirstPiece(input, q, []);
    FirstPiece(input, p, [q]);
    assert [q] + [] == [q] && [p] + [q] == [p, q];
    assert PieceBytes(input, q) + [] == PieceBytes(input, q);
  }

  // ----- the steps -----

  // Where the j-th look is, and the skip then, from a look at ip with that skip.
  function Look(ip: nat, skip: nat, j: nat): (r: (nat, nat)) {
    if j == 0 then (ip, skip)
    else
      var (at, more) := Look(ip, skip, j - 1);
      (at + more / 32, more + more / 32)
  }

  /** From a skip of 32 on, the first 32 looks are at one position after the other, the next 16 at every second one. */
  lemma {:induction false} FirstLooks(start: nat, j: nat)
    requires j <= 48
    ensures Look(start, 32, j) == if j <= 32 then (start + j, 32 + j) else (start + 32 + 2 * (j - 32), 64 + 2 * (j - 32))
  {
    if j > 0 {
      FirstLooks(start, j - 1);
    }
  }

  lemma {:induction false} LookOn(ip: nat, skip: nat, j: nat)
    ensures Look(ip, skip, j + 1) == Look(ip + skip / 32, skip + skip / 32, j)
  {
    if j > 0 {
      LookOn(ip, skip, j - 1);
    }
  }

  lemma NoLooks(ip: nat, skip: nat)
    ensures Look(ip, skip, 0) == (ip, skip) && Look(ip, skip, 1) == (ip + skip / 32, skip + skip / 32)
  {
  }

  /** A match is found at a look, the first that has one; without any, the looks go on as far as they may. */
  lemma {:induction false} ScansByLooks(input: seq<Byte>, table: seq<Slot>, hash: Hash, ip: nat, skip: nat) returns (j: nat)
    requires Hashes(hash) && 15 <= |input| <= 0x1_0000 && |table| > 0 && ip + 4 <= |input| && skip >= 32 && AllBelow(table, ip)
    ensures var r := ScanFrom(input, table, hash, ip, skip);
            && (r.Found? ==> r.at == Look(ip, skip, j).0)
            && (r.NoMatch? ==> Look(ip, skip, j).0 + 4 <= |input| && Look(ip, skip, j + 1).0 > |input| - 15)
    decreases |input| - ip
  {
    hide ScanFrom, Look;
    ScanStep(input, table, hash, ip, skip);
    NoLooks(ip, skip);
    var next := ip + skip / 32;
    assert Look(ip, skip, 0) == (ip, skip) && Look(ip, skip, 1).0 == next;
    j := 0;
    if next <= |input| - INPUT_MARGIN {
      var slot := hash(Four(input, ip), |table|);
      if Four(input, ip) != Four(input, table[slot]) {
        j := ScansByLooks(input, table[slot := ip], hash, next, skip + skip / 32);
        LookOn(ip, skip, j);
        LookOn(ip, skip, j + 1);
        j := j + 1;
      }
    }
  }
}
