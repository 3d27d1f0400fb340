/** What the queue of writers promises its callers: how each call ends, and what is then in the log and the memtables. */
module WriteQueueLaws {
  import opened Options
  import opened Bytes
  import opened WriteBatches
  import opened WriteQueueSpec

  // ----- without a failure -----

  // A step at which nothing fails.
  predicate Smooth(step: Step) {
    match step
    case Front(room, _) => room
    case Record(recorded) => recorded
    case SyncLog(synced) => synced
    case BackgroundError => false
    case _ => true
  }

  predicate AllOk(results: seq<Status>) {
    forall i :: 0 <= i < |results| ==> results[i] == Ok
  }

  predicate AllWell(s: State) {
    !s.bgError && AllOk(s.results) && (s.group.Group? ==> s.group.status == Ok && !s.group.syncError)
  }

  lemma SmoothStep(s: State, step: Step)
    requires s.Sane() && AllWell(s) && Smooth(step)
    ensures AllWell(Next(s, step))
  {
  }

  /** No call fails unless something does. */
  lemma {:induction false} NoneFails(s: State, steps: seq<Step>)
    requires s.Sane() && AllWell(s) && forall i :: 0 <= i < |steps| ==> Smooth(steps[i])
    ensures AllWell(After(s, steps))
  {
    if steps != [] {
      var n := |steps| - 1;
      NoneFails(s, steps[..n]);
      SmoothStep(After(s, steps[..n]), steps[n]);
    }
  }

  // ----- a group from front to end -----

  // The steps of the writer at the front.
  function Turn(recorded: bool, synced: bool): seq<Step> {
    [Front(true, false), Record(recorded), SyncLog(synced), Apply, Conclude]
  }

  lemma {:induction false} AfterConcat(s: State, a: seq<Step>, b: seq<Step>)
    requires s.Sane()
    ensures After(s, a + b) == After(After(s, a), b)
  {
    hide Next;
    if b == [] {
      assert a + b == a;
    } else {
      var n := |b| - 1;
      assert (a + b)[..|a| + n] == a + b[..n];
      AfterConcat(s, a, b[..n]);
    }
  }

  lemma OneStep(s: State, step: Step)
    requires s.Sane()
    ensures After(s, [step]) == Next(s, step)
  {
    assert [step][..0] == [];
  }

  lemma AfterTurn(s: State, recorded: bool, synced: bool)
    requires s.Sane()
    ensures After(s, Turn(recorded, synced)) ==
            Next(Next(Next(Next(Next(s, Front(true, false)), Record(recorded)), SyncLog(synced)), Apply), Conclude)
  {
    hide Next;
    var t := Turn(recorded, synced);
    assert t[..4][..3] == t[..3] && t[..3][..2] == t[..2] && t[..2][..1] == [t[0]];
    OneStep(s, t[0]);
    assert After(s, t[..2]) == Next(After(s, t[..1]), t[1]);
    assert After(s, t[..3]) == Next(After(s, t[..2]), t[2]);
    assert After(s, t[..4]) == Next(After(s, t[..3]), t[3]);
  }

  // How a turn ends for its group.
  function Ending(sync: bool, recorded: bool, synced: bool): Status {
    if recorded && (sync ==> synced) then Ok else Failed
  }

  /** What becomes of a group: all of its calls succeed or none; they succeed exactly when their record was written, and
      synced if the first of them asked for that; and then, and only then, their updates are in the memtable. A record
      that was written stays in the log, and after a sync that failed there is an error. */
  lemma TurnOf(s: State, recorded: bool, synced: bool) returns (n: nat)
    requires s.group.NoGroup? && !s.bgError && s.waiting != [] && s.waiting[0].ops.Some?
    ensures 1 <= n <= |s.waiting| && FullGroup(s.waiting, n)
    ensures var sync, ops := s.waiting[0].sync, Concat(s.waiting[..n]);
            var status := Ending(sync, recorded, synced);
            After(s, Turn(recorded, synced)) ==
            State(s.results + Repeat(status, n), s.waiting[n..], NoGroup, s.last + |ops|, s.log + if recorded then [(s.last + 1, ops)] else [],
                  s.entries + Applied(status, s.last + 1, ops), recorded && sync && !synced)
  {
    hide Concat, Applied, Repeat, FullGroup, GroupEnd, Turn, Next;
    AfterTurn(s, recorded, synced);
    GroupSized(s.waiting);
    n := GroupEnd(s.waiting, 1);
    var sync, ops := s.waiting[0].sync, Concat(s.waiting[..n]);
    var s2 := Logging(s, n, recorded);
    var s3 := s2.(group := Group(n, Synced, Ending(sync, recorded, synced), recorded && sync && !synced));
    Syncing(s2, synced);
    Applying(s3);
    assert s.log + [] == s.log;
  }

  lemma Logging(s: State, n: nat, recorded: bool) returns (r: State)
    requires s.group.NoGroup? && !s.bgError && s.waiting != [] && s.waiting[0].ops.Some? && n == GroupEnd(s.waiting, 1) <= |s.waiting|
    ensures r == Next(Next(s, Front(true, false)), Record(recorded))
    ensures r == s.(group := Group(n, Logged, if recorded then Ok else Failed, false),
                    log := if recorded then s.log + [(s.last + 1, Concat(s.waiting[..n]))] else s.log)
  {
    hide Concat, FullGroup, GroupEnd;
    GroupSized(s.waiting);
    assert Next(s, Front(true, false)) == s.(group := Group(n, Grouped, Ok, false));
    r := Next(Next(s, Front(true, false)), Record(recorded));
  }

  lemma Syncing(s: State, synced: bool)
    requires s.Sane() && s.group.Group? && s.group.stage == Logged && !s.group.syncError
    ensures var recorded, sync := s.group.status == Ok, s.waiting[0].sync;
            Next(s, SyncLog(synced)) == s.(group := Group(s.group.size, Synced, Ending(sync, recorded, synced), recorded && sync && !synced))
  {
  }

  lemma Applying(s: State)
    requires s.Sane() && s.group.Group? && s.group.stage == Synced
    ensures var g, ops := s.group, s.Updates();
            Next(Next(s, Apply), Conclude) ==
            State(s.results + Repeat(g.status, g.size), s.waiting[g.size..], NoGroup, s.last + |ops|, s.log,
                  s.entries + Applied(g.status, s.last + 1, ops), s.bgError || g.syncError)
  {
    hide Concat, Applied, Repeat;
  }

  lemma GroupSized(rs: seq<Request>)
    requires rs != [] && rs[0].ops.Some?
    ensures var n := GroupEnd(rs, 1); 1 <= n <= |rs| && FullGroup(rs, n)
  {
  }

  /** A call without updates, or one after an error, is done at the front at once. */
  /** Up to where the bytes of a group may go: 128 KiB more than its first batch when that is no larger itself, and
      1 MiB otherwise. Within that every request joins that asks for no sync that the first does not ask for. */
  lemma GroupLimits(rs: seq<Request>, n: nat)
    requires FullGroup(rs, n)
    ensures rs[0].ops.Some?
    ensures var first := 12 + |EncodeOps(rs[0].ops.value)|;
            var limit := if first <= 131072 then first + 131072 else 1048576;
            && (forall j {:trigger rs[j]} :: 1 <= j < n ==>
                  (rs[j].sync ==> rs[0].sync) && (rs[j].ops.Some? ==> Size(rs[..j + 1]) <= limit))
            && (n < |rs| ==> (rs[n].sync && !rs[0].sync) || (rs[n].ops.Some? && Size(rs[..n + 1]) > limit))
  {
    hide Size, EncodeOps;
    forall j {:trigger rs[j]} | 1 <= j < n
      ensures Joins(rs, j)
    {
    }
    assert n < |rs| ==> !Joins(rs, n);
  }

  lemma TurnWithoutGroup(s: State, recorded: bool, synced: bool)
    requires s.group.NoGroup? && s.waiting != [] && (s.bgError || s.waiting[0].ops.None?)
    ensures After(s, Turn(recorded, synced)) ==
            s.(results := s.results + [if s.bgError then Failed else Ok], waiting := s.waiting[1..])
  {
    AfterTurn(s, recorded, synced);
  }

  // ----- nobody waits forever -----

  function Turns(n: nat): seq<Step> {
    if n == 0 then [] else Turn(true, true) + Turns(n - 1)
  }

  lemma {:induction false} RepeatSum(status: Status, n: nat, m: nat)
    ensures Repeat(status, n) + Repeat(status, m) == Repeat(status, n + m)
  {
  }

  lemma {:induction false} ConcatParts(rs: seq<Request>, m: nat)
    requires m <= |rs|
    ensures Concat(rs) == Concat(rs[..m]) + Concat(rs[m..])
  {
    if m == |rs| {
      assert rs[..m] == rs && rs[m..] == [];
    } else {
      var n := |rs| - 1;
      ConcatParts(rs[..n], m);
      assert rs[..n][..m] == rs[..m] && rs[..n][m..] == rs[m..][..n - m];
      Assoc(Concat(rs[..m]), Concat(rs[m..][..n - m]), Ops(rs[n]));
    }
  }

  lemma NoOps(r: Request)
    requires r.ops.None?
    ensures Concat([r]) == []
  {
    assert [r][..0] == [];
  }

  // What one smooth turn does, and for how many calls.
  lemma OneTurn(s: State) returns (m: nat)
    requires s.group.NoGroup? && !s.bgError
    ensures m <= |s.waiting| && (s.waiting != [] ==> m >= 1)
    ensures var r := After(s, Turn(true, true)); var ops := Concat(s.waiting[..m]);
            r == State(s.results + Repeat(Ok, m), s.waiting[m..], NoGroup, s.last + |ops|, r.log, s.entries + Numbered(s.last + 1, ops), false)
  {
    hide Turn;
    if s.waiting == [] {
      m := 0;
      NothingToDo(s);
      assert s.results + [] == s.results && s.entries + [] == s.entries;
    } else if s.waiting[0].ops.None? {
      m := 1;
      TurnWithoutGroup(s, true, true);
      NoOps(s.waiting[0]);
      assert s.waiting[..1] == [s.waiting[0]] && s.entries + [] == s.entries;
      assert Repeat(Ok, 1) == [Ok];
    } else {
      m := TurnOf(s, true, true);
    }
  }

  lemma NothingToDo(s: State)
    requires s.group.NoGroup? && s.waiting == []
    ensures After(s, Turn(true, true)) == s
  {
    AfterTurn(s, true, true);
  }

  lemma TurnsStep(s: State, n: nat)
    requires s.Sane()
    ensures After(s, Turns(n)) == if n == 0 then s else After(After(s, Turn(true, true)), Turns(n - 1))
  {
    if n > 0 {
      AfterConcat(s, Turn(true, true), Turns(n - 1));
    }
  }

  // What some calls and then others come to.
  lemma InTwo(waiting: seq<Request>, m: nat, last: nat, results: seq<Status>, entries: seq<(nat, Op)>)
    requires m <= |waiting|
    ensures var a, b := Concat(waiting[..m]), Concat(waiting[m..]); var all := Concat(waiting);
            && |all| == |a| + |b| && results + Repeat(Ok, m) + Repeat(Ok, |waiting| - m) == results + Repeat(Ok, |waiting|)
            && entries + Numbered(last + 1, a) + Numbered(last + 1 + |a|, b) == entries + Numbered(last + 1, all)
  {
    hide Concat, Numbered, Repeat;
    ConcatParts(waiting, m);
    var a, b := Concat(waiting[..m]), Concat(waiting[m..]);
    NumberedConcat(last + 1, a, b);
    Assoc(entries, Numbered(last + 1, a), Numbered(last + 1 + |a|, b));
    RepeatSum(Ok, m, |waiting| - m);
    Assoc(results, Repeat(Ok, m), Repeat(Ok, |waiting| - m));
  }

  lemma NothingLeft(last: nat, results: seq<Status>, entries: seq<(nat, Op)>)
    ensures Concat([]) == [] && results + Repeat(Ok, 0) == results && entries + Numbered(last + 1, []) == entries
  {
  }

  /** With as many smooth turns as there are calls waiting, all of them succeed, and every update of theirs is in the
      memtable, numbered on in the order of the calls. */
  lemma {:induction false} Drained(s: State, n: nat)
    requires s.group.NoGroup? && !s.bgError && |s.waiting| <= n
    ensures var r := After(s, Turns(n));
            && r.results == s.results + Repeat(Ok, |s.waiting|) && r.waiting == [] && r.group.NoGroup? && !r.bgError
            && r.last == s.last + |Concat(s.waiting)| && r.entries == s.entries + Numbered(s.last + 1, Concat(s.waiting))
    decreases n
  {
    hide After, Turn, Turns, Concat, Numbered, Repeat;
    TurnsStep(s, n);
    if n == 0 {
      NothingLeft(s.last, s.results, s.entries);
    } else {
      var m := OneTurn(s);
      Drained(After(s, Turn(true, true)), n - 1);
      InTwo(s.waiting, m, s.last, s.results, s.entries);
    }
  }

  // ----- after an error -----

  /** After an error nothing more is written: what is in the log and the memtables stays, and every call that ends fails. */
  lemma {:induction false} ErrorIsFinal(s: State, steps: seq<Step>) returns (n: nat)
    requires s.group.NoGroup? && s.bgError
    ensures var r := After(s, steps);
            r.group.NoGroup? && r.bgError && r.log == s.log && r.entries == s.entries && r.last == s.last && r.results == s.results + Repeat(Failed, n)
  {
    if steps == [] {
      n := 0;
    } else {
      var k := |steps| - 1;
      n := ErrorIsFinal(s, steps[..k]);
      var r := After(s, steps[..k]);
      if steps[k].Front? && r.waiting != [] {
        assert r.results + [Failed] == s.results + Repeat(Failed, n + 1);
        n := n + 1;
      }
    }
  }
}
