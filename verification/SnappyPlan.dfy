/** What the compressor finds in a block: stretches to be written as they are, and matches with what came before. */
module SnappyPlan {
  import opened Bytes
  import opened SnappyFormat

  type Slot = x: int | 0 <= x < 0x1_0000
  type Hash = (seq<Byte>, nat) -> nat

  const INPUT_MARGIN := 15

  // A hash of four bytes into a table of n slots.
  ghost predicate Hashes(hash: Hash) {
    forall w: seq<Byte>, n: nat {:trigger hash(w, n)} :: n > 0 ==> hash(w, n) < n
  }

  ghost predicate AllBelow(table: seq<Slot>, bound: int) {
    forall k :: 0 <= k < |table| ==> table[k] < bound
  }

  // The four bytes at a position.
  function Four(input: seq<Byte>, i: nat): seq<Byte>
    requires i + 4 <= |input|
  {
    input[i..i + 4]
  }

  // ----- looking for four bytes seen before -----

  datatype Scanned = NoMatch | Found(at: nat, candidate: nat, table: seq<Slot>)

  // The table has the last position entered for each hash. The longer nothing is found, the larger the steps.
  ghost function ScanFrom(input: seq<Byte>, table: seq<Slot>, hash: Hash, ip: nat, skip: nat): (r: Scanned)
    requires Hashes(hash) && 15 <= |input| <= 0x1_0000 && |table| > 0 && ip + 4 <= |input| && skip >= 32 && AllBelow(table, ip)
    ensures r.Found? ==> ip <= r.at && r.at + 1 + INPUT_MARGIN <= |input| && r.candidate < r.at && Four(input, r.at) == Four(input, r.candidate)
    ensures r.Found? ==> |r.table| == |table| && AllBelow(r.table, r.at + 1)
    decreases |input| - ip
  {
    var next := ip + skip / 32;
    if next > |input| - INPUT_MARGIN then NoMatch
    else
      var slot := hash(Four(input, ip), |table|);
      var candidate, entered := table[slot], table[slot := ip];
      if Four(input, ip) == Four(input, candidate) then Found(ip, candidate, entered)
      else ScanFrom(input, entered, hash, next, skip + skip / 32)
  }

  // How many bytes at two positions agree.
  function MatchLength(input: seq<Byte>, s1: nat, s2: nat): (n: nat)
    requires s1 < s2 <= |input|
    ensures s2 + n <= |input|
    decreases |input| - s2
  {
    if s2 == |input| || input[s1] != input[s2] then 0 else 1 + MatchLength(input, s1 + 1, s2 + 1)
  }

  // ----- the pieces of a block -----

  datatype Piece = Plain(from: nat, to: nat) | Match(at: nat, candidate: nat, length: nat)

  // A stretch of the block that is not empty, or a match of at least four bytes.
  predicate InBlock(input: seq<Byte>, p: Piece) {
    match p
    case Plain(from, to) => from < to <= |input|
    case Match(at, candidate, length) => candidate < at && at + length <= |input| && 4 <= length
  }

  predicate AllInBlock(input: seq<Byte>, ps: seq<Piece>) {
    forall i :: 0 <= i < |ps| ==> InBlock(input, ps[i])
  }

  // The rest of the block as it is.
  function Tail(input: seq<Byte>, from: nat): (ps: seq<Piece>)
    requires from <= |input|
    ensures AllInBlock(input, ps)
  {
    if from < |input| then [Plain(from, |input|)] else []
  }

  // What is found at a position behind a match, and the table when it and the one before are entered.
  ghost function Entered(input: seq<Byte>, table: seq<Slot>, hash: Hash, end: nat): (r: (nat, seq<Slot>))
    requires Hashes(hash) && |input| <= 0x1_0000 && |table| > 0 && 1 <= end && end + 4 <= |input| && AllBelow(table, end)
    ensures r.0 < end && |r.1| == |table| && AllBelow(r.1, end + 1)
  {
    var last := table[hash(Four(input, end - 1), |table|) := end - 1];
    var slot := hash(Four(input, end), |table|);
    (last[slot], last[slot := end])
  }

  // The pieces from a position on that no match covers.
  ghost function PiecesFrom(input: seq<Byte>, table: seq<Slot>, hash: Hash, from: nat): (ps: seq<Piece>)
    requires Hashes(hash) && 15 <= |input| <= 0x1_0000 && |table| > 0 && from + 5 <= |input| && AllBelow(table, from + 1)
    ensures AllInBlock(input, ps)
    decreases |input| - from, 0
  {
    match ScanFrom(input, table, hash, from + 1, 32)
    case NoMatch => Tail(input, from)
    case Found(at, candidate, entered) => [Plain(from, at)] + MatchesFrom(input, entered, hash, at, candidate)
  }

  // The pieces from a match on. It goes as far as it can; another one may follow at once.
  ghost function MatchesFrom(input: seq<Byte>, table: seq<Slot>, hash: Hash, at: nat, candidate: nat): (ps: seq<Piece>)
    requires Hashes(hash) && 15 <= |input| <= 0x1_0000 && |table| > 0 && candidate < at && at + 4 <= |input| && AllBelow(table, at + 1)
    ensures AllInBlock(input, ps)
    decreases |input| - at, 1
  {
    var n := 4 + MatchLength(input, candidate + 4, at + 4);
    var end := at + n;
    [Match(at, candidate, n)] +
    if end + INPUT_MARGIN >= |input| then Tail(input, end)
    else
      var (next, entered) := Entered(input, table, hash, end);
      if Four(input, end) == Four(input, next) then MatchesFrom(input, entered, hash, end, next)
      else PiecesFrom(input, entered, hash, end)
  }

  /** All the pieces of a block, for a table of so many slots. */
  ghost function Plan(input: seq<Byte>, slots: nat, hash: Hash): (ps: seq<Piece>)
    requires Hashes(hash) && |input| <= 0x1_0000 && slots > 0
    ensures AllInBlock(input, ps)
  {
    if |input| < INPUT_MARGIN then Tail(input, 0) else PiecesFrom(input, seq(slots, _ => 0), hash, 0)
  }

  // ----- their bytes -----

  // A match as copies of 4 to 64 bytes.
  function CopyBytes(offset: nat, length: nat): (s: seq<Byte>)
    requires 1 <= offset < 0x1_0000 && 4 <= length
  {
    if length >= 68 then Encode(Copy(offset, 64)) + CopyBytes(offset, length - 64)
    else if length > 64 then Encode(Copy(offset, 60)) + Encode(Copy(offset, length - 60))
    else Encode(Copy(offset, length))
  }

  function PieceBytes(input: seq<Byte>, p: Piece): seq<Byte>
    requires |input| <= 0x1_0000 && InBlock(input, p)
  {
    match p
    case Plain(from, to) => Encode(Literal(input[from..to]))
    case Match(at, candidate, length) => CopyBytes(at - candidate, length)
  }

  function PlanBytes(input: seq<Byte>, ps: seq<Piece>): seq<Byte>
    requires |input| <= 0x1_0000 && AllInBlock(input, ps)
  {
    if ps == [] then [] else PieceBytes(input, ps[0]) + PlanBytes(input, ps[1..])
  }

  lemma FirstPiece(input: seq<Byte>, p: Piece, ps: seq<Piece>)
    requires |input| <= 0x1_0000 && InBlock(input, p) && AllInBlock(input, ps)
    ensures AllInBlock(input, [p] + ps) && PlanBytes(input, [p] + ps) == PieceBytes(input, p) + PlanBytes(input, ps)
  {
    assert ([p] + ps)[1..] == ps;
  }

  // ----- one step further -----

  lemma ScanStep(input: seq<Byte>, table: seq<Slot>, hash: Hash, ip: nat, skip: nat)
    requires Hashes(hash) && 15 <= |input| <= 0x1_0000 && |table| > 0 && ip + 4 <= |input| && skip >= 32 && AllBelow(table, ip)
    ensures var next := ip + skip / 32;
            ScanFrom(input, table, hash, ip, skip) ==
            if next > |input| - INPUT_MARGIN then NoMatch
            else
              var slot := hash(Four(input, ip), |table|);
              if Four(input, ip) == Four(input, table[slot]) then Found(ip, table[slot], table[slot := ip])
              else ScanFrom(input, table[slot := ip], hash, next, skip + skip / 32)
  {
  }

  lemma PiecesAfterMatch(input: seq<Byte>, table: seq<Slot>, hash: Hash, at: nat, candidate: nat, n: nat)
    requires Hashes(hash) && 15 <= |input| <= 0x1_0000 && |table| > 0 && candidate < at && at + 4 <= |input| && AllBelow(table, at + 1)
    requires n == 4 + MatchLength(input, candidate + 4, at + 4)
    ensures at + n + INPUT_MARGIN >= |input| ==> MatchesFrom(input, table, hash, at, candidate) == [Match(at, candidate, n)] + Tail(input, at + n)
    ensures at + n + INPUT_MARGIN < |input| ==>
              var (next, entered) := Entered(input, table, hash, at + n);
              Four(input, at + n) != Four(input, next) ==>
                MatchesFrom(input, table, hash, at, candidate) == [Match(at, candidate, n)] + PiecesFrom(input, entered, hash, at + n)
  {
    hide Entered, MatchLength, Four, PiecesFrom, Tail;
  }

  lemma PiecesUpTo(input: seq<Byte>, table: seq<Slot>, hash: Hash, from: nat)
    requires Hashes(hash) && 15 <= |input| <= 0x1_0000 && |table| > 0 && from + 5 <= |input| && AllBelow(table, from + 1)
    ensures var r := ScanFrom(input, table, hash, from + 1, 32);
            r.Found? ==> PiecesFrom(input, table, hash, from) == [Plain(from, r.at)] + MatchesFrom(input, r.table, hash, r.at, r.candidate)
  {
    hide ScanFrom, MatchesFrom;
  }

  // The first of the pieces from a match on.
  lemma MatchStep(input: seq<Byte>, table: seq<Slot>, hash: Hash, at: nat, candidate: nat, bytes: seq<Byte>)
    requires Hashes(hash) && 15 <= |input| <= 0x1_0000 && |table| > 0 && candidate < at && at + 4 <= |input| && AllBelow(table, at + 1)
    ensures var end := at + 4 + MatchLength(input, candidate + 4, at + 4);
            bytes + PlanBytes(input, MatchesFrom(input, table, hash, at, candidate)) ==
            bytes + CopyBytes(at - candidate, end - at) + PlanBytes(input,
              if end + INPUT_MARGIN >= |input| then Tail(input, end)
              else
                var (next, entered) := Entered(input, table, hash, end);
                if Four(input, end) == Four(input, next) then MatchesFrom(input, entered, hash, end, next)
                else PiecesFrom(input, entered, hash, end))
  {
    hide CopyBytes, PlanBytes, Entered, MatchLength, Four, PiecesFrom, Tail;
    var n := 4 + MatchLength(input, candidate + 4, at + 4);
    var end := at + n;
    var rest := if end + INPUT_MARGIN >= |input| then Tail(input, end)
                else
                  var (next, entered) := Entered(input, table, hash, end);
                  if Four(input, end) == Four(input, next) then MatchesFrom(input, entered, hash, end, next)
                  else PiecesFrom(input, entered, hash, end);
    FirstPiece(input, Match(at, candidate, n), rest);
    Assoc(bytes, CopyBytes(at - candidate, n), PlanBytes(input, rest));
  }

  lemma Assoc(a: seq<Byte>, b: seq<Byte>, c: seq<Byte>)
    ensures a + (b + c) == a + b + c
  {
  }

  // The pieces from a position on: all of it, or a stretch up to a match.
  lemma PieceStep(input: seq<Byte>, table: seq<Slot>, hash: Hash, from: nat, bytes: seq<Byte>)
    requires Hashes(hash) && 15 <= |input| <= 0x1_0000 && |table| > 0 && from + 5 <= |input| && AllBelow(table, from + 1)
    ensures var r := ScanFrom(input, table, hash, from + 1, 32);
            bytes + PlanBytes(input, PiecesFrom(input, table, hash, from)) ==
            if r.NoMatch? then bytes + PlanBytes(input, Tail(input, from))
            else bytes + Encode(Literal(input[from..r.at])) + PlanBytes(input, MatchesFrom(input, r.table, hash, r.at, r.candidate))
  {
    hide PlanBytes, ScanFrom, MatchesFrom, Encode;
    var r := ScanFrom(input, table, hash, from + 1, 32);
    if r.Found? {
      var rest := MatchesFrom(input, r.table, hash, r.at, r.candidate);
      FirstPiece(input, Plain(from, r.at), rest);
      Assoc(bytes, Encode(Literal(input[from..r.at])), PlanBytes(input, rest));
    }
  }

  lemma PlanBegins(input: seq<Byte>, table: seq<Slot>, hash: Hash)
    requires Hashes(hash) && |input| <= 0x1_0000 && |table| > 0 && AllBelow(table, 1)
    ensures Plan(input, |table|, hash) == if |input| < INPUT_MARGIN then Tail(input, 0) else PiecesFrom(input, table, hash, 0)
  {
    assert table == seq(|table|, _ => 0);
  }

  lemma TailBytes(input: seq<Byte>, from: nat)
    requires from <= |input| <= 0x1_0000
    ensures PlanBytes(input, Tail(input, from)) == if from < |input| then Encode(Literal(input[from..|input|])) else []
  {
    if from < |input| {
      FirstPiece(input, Plain(from, |input|), []);
      assert [Plain(from, |input|)] + [] == [Plain(from, |input|)];
    }
  }
}
