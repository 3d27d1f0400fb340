/** Group commit: what every interleaving of the steps of concurrent writes does. */
module WriteQueueSpec {
  import opened Options
  import opened Bytes
  import opened WriteBatches

  datatype Status = Ok | Failed

  // One call of Write: its updates, none for a call that only forces a memtable switch.
  datatype Request = Request(ops: Option<seq<Op>>, sync: bool)

  function Ops(r: Request): seq<Op> {
    if r.ops.None? then [] else r.ops.value
  }

  function Concat(rs: seq<Request>): seq<Op> {
    if rs == [] then [] else Concat(rs[..|rs| - 1]) + Ops(rs[|rs| - 1])
  }

  // The bytes of a request's batch, and of those of several.
  function SizeOf(r: Request): nat {
    if r.ops.None? then 0 else HEADER + |EncodeOps(r.ops.value)|
  }

  function Size(rs: seq<Request>): nat {
    if rs == [] then 0 else Size(rs[..|rs| - 1]) + SizeOf(rs[|rs| - 1])
  }

  lemma SizeMore(rs: seq<Request>, r: Request)
    ensures Size(rs + [r]) == Size(rs) + SizeOf(r) && Size([]) == 0
  {
    assert (rs + [r])[..|rs|] == rs;
  }

  // How large a group may grow: not much, when its first batch is small.
  function MaxSize(first: nat): (size: nat)
    ensures size <= 0x10_0000
  {
    if first <= 0x2_0000 then first + 0x2_0000 else 0x10_0000
  }

  // Request j may join a group of those before it.
  predicate Joins(rs: seq<Request>, j: nat)
    requires 1 <= j < |rs|
  {
    !(rs[j].sync && !rs[0].sync) && (rs[j].ops.Some? ==> Size(rs[..j + 1]) <= MaxSize(SizeOf(rs[0])))
  }

  // The first n requests are a group: all that may join, up to the first that may not.
  ghost predicate FullGroup(rs: seq<Request>, n: nat) {
    1 <= n <= |rs| && rs[0].ops.Some? && (forall j :: 1 <= j < n ==> Joins(rs, j)) && (n < |rs| ==> !Joins(rs, n))
  }

  lemma GroupParts(rs: seq<Request>, n: nat)
    requires FullGroup(rs, n)
    ensures 1 <= n <= |rs| && rs[0].ops.Some?
  {
  }

  /** There is one such group. */
  lemma GroupIsUnique(rs: seq<Request>, n: nat, m: nat)
    requires FullGroup(rs, n) && FullGroup(rs, m)
    ensures n == m
  {
    var endsAtN, endsAtM := n < |rs| ==> !Joins(rs, n), m < |rs| ==> !Joins(rs, m);
    assert endsAtN && endsAtM;
  }

  lemma ConcatMore(rs: seq<Request>, r: Request)
    ensures Concat(rs + [r]) == Concat(rs) + Ops(r)
  {
    assert (rs + [r])[..|rs|] == rs;
  }

  // What a request adds when it is executed at s.
  function Applied(status: Status, s: nat, ops: seq<Op>): seq<(nat, Op)> {
    if status == Ok then Numbered(s, ops) else []
  }

  lemma AppliedConcat(status: Status, s: nat, a: seq<Op>, b: seq<Op>)
    ensures Applied(status, s, a + b) == Applied(status, s, a) + Applied(status, s + |a|, b)
  {
    NumberedConcat(s, a, b);
  }

  // A finished request: how it ended, and the number of its first update.
  datatype Done = Done(request: Request, status: Status, start: nat, record: nat)

  function Repeat(status: Status, n: nat): (r: seq<Status>)
    ensures |r| == n && forall i :: 0 <= i < n ==> r[i] == status
  {
    seq(n, i => status)
  }

  function Requests(done: seq<Done>): seq<Request> {
    seq(|done|, i requires 0 <= i < |done| => done[i].request)
  }

  function Statuses(done: seq<Done>): seq<Status> {
    seq(|done|, i requires 0 <= i < |done| => done[i].status)
  }

  // What a serial execution of the successful requests applies.
  function Serial(done: seq<Done>): seq<(nat, Op)> {
    if done == [] then []
    else
      var d := done[|done| - 1];
      Serial(done[..|done| - 1]) + Applied(d.status, d.start, Ops(d.request))
  }

  // Each successful request's numbers end before the next one's begin, and before `next`.
  ghost predicate InOrder(done: seq<Done>, next: nat) {
    forall i {:trigger EndsBefore(done, next, i)} :: 0 <= i < |done| ==> EndsBefore(done, next, i)
  }

  ghost predicate EndsBefore(done: seq<Done>, next: nat, i: nat)
    requires i < |done|
  {
    done[i].start + (if done[i].status == Ok then |Ops(done[i].request)| else 0) <= if i + 1 < |done| then done[i + 1].start else next
  }

  // The members of a group that begins at s, is in the given record and ended as given.
  function Members(group: seq<Request>, s: nat, record: nat, status: Status): (r: seq<Done>)
    ensures |r| == |group| && forall i :: 0 <= i < |r| ==> r[i].request == group[i] && r[i].status == status && r[i].record == record
  {
    if group == [] then []
    else
      var n := |group| - 1;
      Members(group[..n], s, record, status) + [Done(group[n], status, s + |Concat(group[..n])|, record)]
  }

  lemma SerialMore(done: seq<Done>, d: Done)
    ensures Serial(done + [d]) == Serial(done) + Applied(d.status, d.start, Ops(d.request))
  {
    assert (done + [d])[..|done|] == done;
  }

  lemma Assoc<T>(a: seq<T>, b: seq<T>, c: seq<T>)
    ensures a + b + c == a + (b + c) && a + [] == a
  {
  }

  lemma SerialFurther(done: seq<Done>, init: seq<Done>, d: Done, added: seq<(nat, Op)>)
    requires Serial(done + init) == Serial(done) + added
    ensures Serial(done + (init + [d])) == Serial(done) + (added + Applied(d.status, d.start, Ops(d.request)))
  {
    Assoc(done, init, [d]);
    SerialMore(done + init, d);
    Assoc(Serial(done), added, Applied(d.status, d.start, Ops(d.request)));
  }

  lemma NothingApplied(status: Status, s: nat)
    ensures Applied(status, s, []) == []
  {
  }

  /** A group executed as one is its members executed one after the other. */
  lemma {:induction false} SerialGroup(done: seq<Done>, group: seq<Request>, s: nat, record: nat, status: Status)
    ensures Serial(done + Members(group, s, record, status)) == Serial(done) + Applied(status, s, Concat(group))
  {
    hide Serial, Applied, Ops;
    if group == [] {
      NothingApplied(status, s);
      assert done + [] == done;
    } else {
      var n := |group| - 1;
      var at := s + |Concat(group[..n])|;
      SerialGroup(done, group[..n], s, record, status);
      SerialFurther(done, Members(group[..n], s, record, status), Done(group[n], status, at, record),
                    Applied(status, s, Concat(group[..n])));
      AppliedConcat(status, s, Concat(group[..n]), Ops(group[n]));
    }
  }

  lemma ConcatStep(rs: seq<Request>, j: nat)
    requires j < |rs|
    ensures |Concat(rs[..j])| + |Ops(rs[j])| == |Concat(rs[..j + 1])|
  {
    assert rs[..j + 1][..j] == rs[..j];
  }

  lemma {:induction false} MemberStart(group: seq<Request>, s: nat, record: nat, status: Status, j: nat)
    requires j < |group|
    ensures Members(group, s, record, status)[j].start == s + |Concat(group[..j])|
    ensures |Concat(group[..j])| + |Ops(group[j])| == |Concat(group[..j + 1])|
  {
    hide Concat, Ops;
    var n := |group| - 1;
    ConcatStep(group, j);
    if j < n {
      MemberStart(group[..n], s, record, status, j);
      assert group[..n][..j] == group[..j];
    }
  }

  lemma Nothing()
    ensures Concat([]) == []
  {
  }

  lemma InOrderGroup(done: seq<Done>, group: seq<Request>, s: nat, record: nat, status: Status, next: nat)
    requires InOrder(done, s) && group != []
    requires s + |Concat(group)| <= next || (status == Failed && |group| == 1 && s <= next)
    ensures InOrder(done + Members(group, s, record, status), next)
  {
    hide Members, Concat, Ops;
    var more := Members(group, s, record, status);
    Nothing();
    MemberStart(group, s, record, status, 0);
    forall i {:trigger EndsBefore(done + more, next, i)} | 0 <= i < |done + more|
      ensures EndsBefore(done + more, next, i)
    {
      if i < |done| {
        assert EndsBefore(done, s, i);
      } else {
        var j := i - |done|;
        MemberStart(group, s, record, status, j);
        if j + 1 < |group| {
          MemberStart(group, s, record, status, j + 1);
        } else {
          assert group[..j + 1] == group;
        }
      }
    }
  }

  // ----- what the log holds -----

  // A record's sequence number and updates.
  type Record = (nat, seq<Op>)

  // The updates of a request are in a record, at the number given.
  ghost predicate InRecord(record: Record, start: nat, ops: seq<Op>) {
    && record.0 <= start && start - record.0 + |ops| <= |record.1|
    && record.1[start - record.0..start - record.0 + |ops|] == ops
  }

  const LIMIT := 0x1_0000_0000_0000_0000

  ghost predicate RecordOk(log: seq<seq<Byte>>, contents: seq<Record>, r: nat)
    requires r < |log| == |contents|
  {
    && 0 < contents[r].0 < LIMIT && |contents[r].1| < 0x8000_0000 && AllFit(contents[r].1)
    && log[r] == BatchBytes(contents[r].0, contents[r].1)
  }

  // The records of a log are batches with the given contents.
  ghost predicate Holds(log: seq<seq<Byte>>, contents: seq<Record>) {
    && |log| == |contents|
    && forall r {:trigger RecordOk(log, contents, r)} :: 0 <= r < |log| ==> RecordOk(log, contents, r)
  }

  lemma HoldsMore(log: seq<seq<Byte>>, contents: seq<Record>, sequence: Sequence, ops: seq<Op>)
    requires Holds(log, contents) && 0 < sequence && |ops| < 0x8000_0000 && AllFit(ops)
    ensures Holds(log + [BatchBytes(sequence, ops)], contents + [(sequence, ops)])
  {
    var log', contents' := log + [BatchBytes(sequence, ops)], contents + [(sequence as int, ops)];
    forall r {:trigger RecordOk(log', contents', r)} | 0 <= r < |log'|
      ensures RecordOk(log', contents', r)
    {
      if r < |log| {
        assert RecordOk(log, contents, r);
      }
    }
  }

  // A successful request is in the log, and was synced if it asked for that.
  ghost predicate Committed(d: Done, contents: seq<Record>, durable: set<nat>) {
    d.status == Ok && d.request.ops.Some? ==>
      && d.record < |contents| && InRecord(contents[d.record], d.start, d.request.ops.value)
      && (d.request.sync ==> d.record in durable)
  }

  ghost predicate AllCommitted(done: seq<Done>, contents: seq<Record>, durable: set<nat>) {
    forall i {:trigger Committed(done[i], contents, durable)} :: 0 <= i < |done| ==> Committed(done[i], contents, durable)
  }

  lemma StillCommitted(done: seq<Done>, contents: seq<Record>, durable: set<nat>, more: seq<Record>, synced: set<nat>)
    requires AllCommitted(done, contents, durable) && contents <= more && durable <= synced
    ensures AllCommitted(done, more, synced)
  {
    forall i {:trigger Committed(done[i], more, synced)} | 0 <= i < |done|
      ensures Committed(done[i], more, synced)
    {
      assert Committed(done[i], contents, durable);
    }
  }

  lemma InLongerRecord(s: nat, all: seq<Op>, more: seq<Op>, start: nat, ops: seq<Op>)
    requires InRecord((s, all), start, ops)
    ensures InRecord((s, all + more), start, ops)
  {
  }

  lemma AtEndOfRecord(s: nat, all: seq<Op>, ops: seq<Op>)
    ensures InRecord((s, all + ops), s + |all|, ops)
  {
  }

  lemma {:induction false} MemberInRecord(group: seq<Request>, s: nat, record: nat, status: Status, j: nat)
    requires j < |group|
    ensures InRecord((s, Concat(group)), Members(group, s, record, status)[j].start, Ops(group[j]))
  {
    hide InRecord, Ops;
    var n := |group| - 1;
    var init := Concat(group[..n]);
    if j < n {
      MemberInRecord(group[..n], s, record, status, j);
      InLongerRecord(s, init, Ops(group[n]), Members(group[..n], s, record, status)[j].start, Ops(group[j]));
    } else {
      AtEndOfRecord(s, init, Ops(group[n]));
    }
  }

  // The updates of a successful request stand together, in order, with consecutive numbers.
  ghost predicate ExecutedWhole(entries: seq<(nat, Op)>, d: Done) {
    d.status == Ok ==> exists p {:trigger PartOf(entries, p, Numbered(d.start, Ops(d.request)))} :: PartOf(entries, p, Numbered(d.start, Ops(d.request)))
  }

  // Every successful call is in the log, synced if it asked for that, and its updates are among the entries as a whole.
  ghost predicate AllExecuted(done: seq<Done>, contents: seq<Record>, durable: set<nat>, entries: seq<(nat, Op)>) {
    forall i {:trigger done[i]} :: 0 <= i < |done| ==> Committed(done[i], contents, durable) && ExecutedWhole(entries, done[i])
  }

  // Each entry has a larger sequence number than the one before.
  ghost predicate NumbersIncrease(entries: seq<(nat, Op)>) {
    forall a, b :: 0 <= a < b < |entries| ==> entries[a].0 < entries[b].0
  }

  ghost predicate PartOf(all: seq<(nat, Op)>, p: int, part: seq<(nat, Op)>) {
    0 <= p && p + |part| <= |all| && all[p..p + |part|] == part
  }

  lemma {:induction false} SerialHas(done: seq<Done>, i: nat)
    requires i < |done|
    ensures ExecutedWhole(Serial(done), done[i])
  {
    var n := |done| - 1;
    var part := Numbered(done[i].start, Ops(done[i].request));
    if done[i].status == Ok {
      if i == n {
        assert PartOf(Serial(done), |Serial(done[..n])|, part);
      } else {
        SerialHas(done[..n], i);
        var p :| PartOf(Serial(done[..n]), p, part);
        assert Serial(done)[p..p + |part|] == Serial(done[..n])[p..p + |part|];
        assert PartOf(Serial(done), p, part);
      }
    }
  }

  /** Serial execution in order gives increasing sequence numbers: nothing is applied twice. */
  lemma {:induction false} SerialIncreases(done: seq<Done>, next: nat)
    requires InOrder(done, next)
    ensures forall a, b :: 0 <= a < b < |Serial(done)| ==> Serial(done)[a].0 < Serial(done)[b].0
    ensures forall a :: 0 <= a < |Serial(done)| ==> Serial(done)[a].0 < next
  {
    if done != [] {
      var n := |done| - 1;
      assert EndsBefore(done, next, n);
      forall i {:trigger EndsBefore(done[..n], done[n].start, i)} | 0 <= i < n
        ensures EndsBefore(done[..n], done[n].start, i)
      {
        assert EndsBefore(done, next, i);
      }
      SerialIncreases(done[..n], done[n].start);
    }
  }

  // Numbers begin at 1.
  lemma {:induction false} SerialPositive(done: seq<Done>, log: seq<seq<Byte>>, contents: seq<Record>, durable: set<nat>)
    requires Holds(log, contents) && AllCommitted(done, contents, durable)
    ensures forall a :: 0 <= a < |Serial(done)| ==> Serial(done)[a].0 > 0
  {
    hide BatchBytes;
    if done != [] {
      var n := |done| - 1;
      var d := done[n];
      forall i {:trigger Committed(done[..n][i], contents, durable)} | 0 <= i < n
        ensures Committed(done[..n][i], contents, durable)
      {
        assert Committed(done[i], contents, durable);
      }
      SerialPositive(done[..n], log, contents, durable);
      assert Committed(d, contents, durable);
      if d.status == Ok && d.request.ops.Some? {
        assert RecordOk(log, contents, d.record);
      }
    }
  }

  // ----- finishing a group -----

  function Records(from: nat, to: nat): (r: set<nat>)
    ensures forall i :: i in r <==> from <= i < to
  {
    if from >= to then {} else Records(from, to - 1) + {to - 1}
  }

  // No write that asked for a sync is in a group whose leader did not.
  ghost predicate SyncCarried(group: seq<Request>, sync: bool) {
    forall i :: 0 <= i < |group| && group[i].sync ==> sync
  }

  lemma CarriedMore(group: seq<Request>, r: Request, sync: bool)
    requires SyncCarried(group, sync) && (r.sync ==> sync)
    ensures SyncCarried(group + [r], sync)
  {
  }

  lemma CommittedToo(done: seq<Done>, more: seq<Done>, contents: seq<Record>, durable: set<nat>)
    requires AllCommitted(done, contents, durable) && AllCommitted(more, contents, durable)
    ensures AllCommitted(done + more, contents, durable)
  {
    forall i {:trigger Committed((done + more)[i], contents, durable)} | 0 <= i < |done + more|
      ensures Committed((done + more)[i], contents, durable)
    {
      if i < |done| {
        assert Committed(done[i], contents, durable);
      } else {
        assert Committed(more[i - |done|], contents, durable);
      }
    }
  }

  lemma MembersCommitted(group: seq<Request>, s: nat, record: nat, status: Status, contents: seq<Record>, durable: set<nat>, sync: bool)
    requires SyncCarried(group, sync)
    requires status == Ok ==> record < |contents| && contents[record] == (s, Concat(group)) && (sync ==> record in durable)
    ensures AllCommitted(Members(group, s, record, status), contents, durable)
  {
    var more := Members(group, s, record, status);
    forall i {:trigger Committed(more[i], contents, durable)} | 0 <= i < |more|
      ensures Committed(more[i], contents, durable)
    {
      MemberInRecord(group, s, record, status, i);
    }
  }

  // The members of a group that has been written are committed, in order after the rest.
  lemma GroupWritten(done: seq<Done>, group: seq<Request>, s: nat, record: nat, status: Status, contents: seq<Record>, durable: set<nat>,
                     sync: bool, all: seq<Done>)
    requires InOrder(done, s) && AllCommitted(done, contents, durable) && group != [] && SyncCarried(group, sync)
    requires status == Ok ==> record < |contents| && contents[record] == (s, Concat(group)) && (sync ==> record in durable)
    requires all == done + Members(group, s, record, status)
    ensures InOrder(all, s + |Concat(group)|) && AllCommitted(all, contents, durable)
    ensures Serial(all) == Serial(done) + Applied(status, s, Concat(group))
  {
    InOrderGroup(done, group, s, record, status, s + |Concat(group)|);
    SerialGroup(done, group, s, record, status);
    MembersCommitted(group, s, record, status, contents, durable, sync);
    CommittedToo(done, Members(group, s, record, status), contents, durable);
  }

  // A request that was refused, or had nothing to write, leaves everything as it is.
  lemma NothingWritten(done: seq<Done>, one: seq<Request>, s: nat, record: nat, status: Status, contents: seq<Record>, durable: set<nat>,
                       all: seq<Done>)
    requires InOrder(done, s) && AllCommitted(done, contents, durable) && |one| == 1
    requires status == Failed || one[0].ops.None?
    requires all == done + Members(one, s, record, status)
    ensures InOrder(all, s) && AllCommitted(all, contents, durable) && Serial(all) == Serial(done)
  {
    ConcatMore([], one[0]);
    assert one == [] + [one[0]];
    SerialGroup(done, one, s, record, status);
    assert Applied(status, s, Concat(one)) == [] && Serial(done) + [] == Serial(done);
    InOrderGroup(done, one, s, record, status, s);
    CommittedToo(done, Members(one, s, record, status), contents, durable);
  }

  // Results and history when the first writers of the queue are done.
  lemma Finished(done: seq<Done>, group: seq<Request>, s: nat, record: nat, status: Status, pending: seq<Request>)
    requires group <= pending
    ensures var all := done + Members(group, s, record, status);
            && Statuses(all) == Statuses(done) + Repeat(status, |group|)
            && Requests(all) + pending[|group|..] == Requests(done) + pending
  {
    hide Members;
    var all := done + Members(group, s, record, status);
    assert Requests(all) == Requests(done) + group;
    assert pending == group + pending[|group|..];
  }

  // ----- the queue as a machine -----

  // How far a group has got.
  datatype Stage = Grouped | Logged | Synced | InMemory

  // What may happen next: a call of Write, a step of the writer at the front, or a background error.
  datatype Step =
    | Call(ops: Option<seq<Op>>, sync: bool)
    | Front(room: bool, switchMemTable: bool)
    | Record(recorded: bool)
    | SyncLog(synced: bool)
    | Apply
    | Conclude
    | BackgroundError

  // A call's updates make up a batch.
  ghost predicate Callable(step: Step) {
    step.Call? && step.ops.Some? ==> AllFit(step.ops.value) && |step.ops.value| < 0x8000_0000
  }

  // The calls among the steps.
  function Calls(steps: seq<Step>): seq<Request> {
    if steps == [] then []
    else
      var n := |steps| - 1;
      Calls(steps[..n]) + match steps[n] case Call(ops, sync) => [Request(ops, sync)] case _ => []
  }

  datatype Group = NoGroup | Group(size: nat, stage: Stage, status: Status, syncError: bool)

  // How the calls that are done ended, the calls that wait, the group being written, the last sequence number, the
  // records of the log, the entries of the memtables, and whether an error stops all writing.
  datatype State = State(results: seq<Status>, waiting: seq<Request>, group: Group, last: nat, log: seq<Record>,
                         entries: seq<(nat, Op)>, bgError: bool) {
    predicate Sane() {
      group.Group? ==> 1 <= group.size <= |waiting|
    }

    // The updates of the group.
    function Updates(): seq<Op>
      requires Sane() && group.Group?
    {
      Concat(waiting[..group.size])
    }
  }

  const START := State([], [], NoGroup, 0, [], [], false)

  function GroupEnd(rs: seq<Request>, j: nat): (n: nat)
    requires 1 <= j <= |rs| && rs[0].ops.Some? && forall i :: 1 <= i < j ==> Joins(rs, i)
    ensures FullGroup(rs, n)
    decreases |rs| - j
  {
    if j < |rs| && Joins(rs, j) then GroupEnd(rs, j + 1) else j
  }

  // The first call in the queue fails, is done, or leads a group.
  function Led(s: State, room: bool): State
    requires s.waiting != []
  {
    if s.bgError || !room then s.(results := s.results + [Failed], waiting := s.waiting[1..])
    else if s.waiting[0].ops.None? then s.(results := s.results + [Ok], waiting := s.waiting[1..])
    else s.(group := Group(GroupEnd(s.waiting, 1), Grouped, Ok, false))
  }

  // The writer at the front gets a new memtable.
  predicate Switches(s: State, step: Step) {
    step.Front? && step.switchMemTable && s.group.NoGroup? && s.waiting != [] && !s.bgError && step.room
  }

  // Whether the group's sync is what fails.
  predicate SyncLost(s: State, synced: bool)
    requires s.Sane() && s.group.Group?
  {
    s.group.status == Ok && s.waiting[0].sync && !synced
  }

  // What a step does; one that cannot be taken does nothing.
  function Next(s: State, step: Step): (r: State)
    requires s.Sane()
    ensures r.Sane()
  {
    var g := s.group;
    match step
    case Call(ops, sync) => s.(waiting := s.waiting + [Request(ops, sync)])
    case Front(room, _) => if g.NoGroup? && s.waiting != [] then Led(s, room) else s
    case Record(recorded) =>
      if g.NoGroup? || g.stage != Grouped then s
      else s.(group := g.(stage := Logged, status := if recorded then Ok else Failed),
              log := if recorded then s.log + [(s.last + 1, s.Updates())] else s.log)
    case SyncLog(synced) =>
      if g.NoGroup? || g.stage != Logged then s
      else if SyncLost(s, synced) then s.(group := g.(stage := Synced, status := Failed, syncError := true))
      else s.(group := g.(stage := Synced))
    case Apply =>
      if g.NoGroup? || g.stage != Synced then s
      else s.(group := g.(stage := InMemory), entries := s.entries + Applied(g.status, s.last + 1, s.Updates()))
    case Conclude =>
      if g.NoGroup? || g.stage != InMemory then s
      else State(s.results + Repeat(g.status, g.size), s.waiting[g.size..], NoGroup, s.last + |s.Updates()|, s.log, s.entries,
                 s.bgError || g.syncError)
    case BackgroundError => s.(bgError := true)
  }

  // The state after some steps.
  function After(s: State, steps: seq<Step>): (r: State)
    requires s.Sane()
    ensures r.Sane()
  {
    if steps == [] then s else Next(After(s, steps[..|steps| - 1]), steps[|steps| - 1])
  }
}

module WriteQueue {
  import opened Options
  import opened Bytes
  import opened WriteBatches
  import opened WriteQueueSpec
  import opened WriteQueueLaws

  // A waiting call of Write. Whether it is done, and how it ended, is in the results.
  datatype Writer = Writer(batch: WriteBatch?, sync: bool)

  // What the writer at the front is writing, whether it asked for a sync, and how far it has got with its group while the mutex is free.
  datatype Phase = Idle | Working(count: nat, updates: WriteBatch, sync: bool, stage: Stage, status: Status, syncError: bool)

  ghost predicate Matches(w: Writer, r: Request, batches: set<WriteBatch>)
    reads batches
  {
    && w.sync == r.sync && (w.batch == null <==> r.ops.None?)
    && (w.batch != null ==> w.batch in batches && w.batch.Valid() && w.batch.ops == r.ops.value)
  }

  ghost predicate Queued(writers: seq<Writer>, pending: seq<Request>, batches: set<WriteBatch>)
    reads batches
  {
    && |writers| == |pending|
    && forall i {:trigger Matches(writers[i], pending[i], batches)} :: 0 <= i < |writers| ==> Matches(writers[i], pending[i], batches)
  }

  lemma QueuedMore(writers: seq<Writer>, pending: seq<Request>, batches: set<WriteBatch>, w: Writer, r: Request, more: set<WriteBatch>)
    requires Queued(writers, pending, batches) && batches <= more && Matches(w, r, more)
    ensures Queued(writers + [w], pending + [r], more)
  {
    forall i {:trigger Matches((writers + [w])[i], (pending + [r])[i], more)} | 0 <= i < |writers| + 1
      ensures Matches((writers + [w])[i], (pending + [r])[i], more)
    {
      if i < |writers| {
        assert Matches(writers[i], pending[i], batches);
      }
    }
  }

  lemma QueuedLess(writers: seq<Writer>, pending: seq<Request>, batches: set<WriteBatch>, n: nat)
    requires Queued(writers, pending, batches) && n <= |writers|
    ensures Queued(writers[n..], pending[n..], batches)
  {
    forall i {:trigger Matches(writers[n..][i], pending[n..][i], batches)} | 0 <= i < |writers| - n
      ensures Matches(writers[n..][i], pending[n..][i], batches)
    {
      assert Matches(writers[n + i], pending[n + i], batches);
    }
  }

  // The batch of the group being written.
  ghost predicate GroupBatch(updates: WriteBatch, group: seq<Request>, last: nat)
    reads updates
  {
    && updates.Valid() && updates.ops == Concat(group)
    && last + 1 + |updates.ops| < LIMIT && updates.rep == BatchBytes(last + 1, updates.ops)
  }

  // How far writing it has got.
  ghost predicate GroupStage(stage: Stage, status: Status, syncError: bool, sync: bool, record: Record,
                             contents: seq<Record>, durable: set<nat>, fileStart: nat) {
    && (stage == Grouped ==> status == Ok && !syncError)
    && (syncError ==> status == Failed)
    && (stage != Grouped && status == Ok ==> fileStart < |contents| && contents[|contents| - 1] == record)
    && ((stage == Synced || stage == InMemory) && status == Ok && sync ==> |contents| - 1 in durable)
  }

  class DBImpl {
    var writers: seq<Writer>
    var results: seq<Status>      // of the calls that are done, in the order they were made
    var lastSequence: nat
    var mem: MemTable
    var older: seq<(nat, Op)>     // entries of earlier memtables
    var log: seq<seq<Byte>>       // records of all log files
    var bgError: bool
    var phase: Phase
    const tmpBatch: WriteBatch

    ghost var done: seq<Done>
    ghost var pending: seq<Request>   // the calls that are not done
    ghost var group: seq<Request>     // those in the group being written
    ghost var contents: seq<Record>   // what the records hold
    ghost var fileStart: nat          // first record of the current log file
    ghost var durable: set<nat>       // records that were synced
    ghost var batches: set<WriteBatch>

    // Every call so far, in order.
    ghost function History(): seq<Request>
      reads this
    {
      Requests(done) + pending
    }

    // What the queue is as a machine.
    ghost function Machine(): (s: State)
      reads this, mem
    {
      State(results, pending, match phase case Idle => NoGroup case Working(count, _, _, stage, status, syncError) => Group(count, stage, status, syncError),
            lastSequence, contents, Entries(), bgError)
    }

    // ----- invariants -----

    ghost predicate QueueOk()
      reads `writers, `pending, `batches, batches, tmpBatch
    {
      tmpBatch !in batches && tmpBatch.Valid() && Queued(writers, pending, batches)
    }

    ghost predicate LogOk()
      reads `log, `contents, `fileStart
    {
      fileStart <= |log| && Holds(log, contents)
    }

    ghost predicate DoneOk()
      reads `results, `done, `lastSequence, `contents, `durable
    {
      results == Statuses(done) && InOrder(done, lastSequence + 1) && AllCommitted(done, contents, durable)
    }

    ghost predicate WritingOk()
      reads `phase, `writers, `group, `pending, `lastSequence, `batches, batches, tmpBatch
    {
      match phase
      case Idle => group == [] && tmpBatch.ops == []
      case Working(count, updates, sync, _, _, _) =>
        && updates in batches + {tmpBatch} && (updates == tmpBatch || tmpBatch.ops == []) && |group| == count && 1 <= count <= |writers|
        && group <= pending && SyncCarried(group, sync) && sync == pending[0].sync
        && GroupBatch(updates, group, lastSequence)
    }

    ghost predicate StageOk()
      reads `phase, `group, `lastSequence, `contents, `durable, `fileStart
    {
      phase.Working? ==>
        GroupStage(phase.stage, phase.status, phase.syncError, phase.sync, (lastSequence + 1, Concat(group)), contents, durable, fileStart)
    }

    // The memtables hold what a serial execution would, and what the group being written has added.
    ghost predicate EntriesOk()
      reads `phase, `lastSequence, `group, `done, `older, `mem, mem
    {
      if phase.Working? && phase.stage == InMemory
      then Entries() == Serial(done) + Applied(phase.status, lastSequence + 1, Concat(group))
      else Entries() == Serial(done)
    }

    // Everything inserted into any memtable.
    ghost function Entries(): seq<(nat, Op)>
      reads `older, `mem, mem
    {
      older + mem.entries
    }

    ghost predicate Valid()
      reads this, batches, tmpBatch, mem
    {
      QueueOk() && LogOk() && DoneOk() && WritingOk() && StageOk() && EntriesOk()
    }

    constructor ()
      ensures Valid() && History() == [] && phase == Idle && batches == {} && lastSequence == 0 && Machine() == START
      ensures fresh(tmpBatch) && fresh(mem)
    {
      tmpBatch := new WriteBatch();
      mem := new MemTable();
      writers, results, lastSequence, log, bgError, phase := [], [], 0, [], false, Idle;
      done, pending, group, older, contents, fileStart, durable, batches := [], [], [], [], [], 0, {}, {};
    }

    // ----- the steps of Write -----

    // A call of Write takes the mutex and queues up.
    method Enqueue(w: Writer)
      requires Valid() && (w.batch != null ==> w.batch.Valid() && w.batch != tmpBatch)
      modifies this`writers, this`pending, this`batches
      ensures Valid() && writers == old(writers) + [w]
      ensures pending == old(pending) + [Request(if w.batch == null then None else Some(w.batch.ops), w.sync)]
      ensures batches == old(batches) + if w.batch == null then {} else {w.batch}
      ensures Machine() == old(Machine()).(waiting := pending)
    {
      hide LogOk, DoneOk, StageOk, EntriesOk, Entries, Concat, GroupBatch;
      ghost var r := Request(if w.batch == null then None else Some(w.batch.ops), w.sync);
      ghost var more := batches + if w.batch == null then {} else {w.batch};
      QueuedMore(writers, pending, batches, w, r, more);
      writers := writers + [w];
      pending := pending + [r];
      batches := more;
    }

    // Room in the memtable, perhaps a new one with a new log file; or an error, one from before or the
    // one that no log file could be opened.
    method MakeRoomForWrite(room: bool, switchMemTable: bool) returns (status: Status)
      requires Valid() && phase == Idle
      modifies this`mem, this`older, this`fileStart
      ensures Valid() && Entries() == old(Entries()) && (mem == old(mem) || fresh(mem))
      ensures old(older) <= older && (switchMemTable || older == old(older))
      ensures status == if !bgError && room then Ok else Failed
      ensures if status == Ok && switchMemTable then mem.entries == [] && older == old(Entries()) && fileStart == |log|
              else mem == old(mem) && older == old(older) && fileStart == old(fileStart)
    {
      hide Serial, Concat, Holds, InOrder, AllCommitted, BatchBytes, GroupBatch, GroupStage, Queued;
      if bgError || !room {
        return Failed;
      }
      if switchMemTable {
        older := older + mem.entries;
        mem := new MemTable();
        fileStart := |log|;
        assert older + [] == older;
      }
      return Ok;
    }

    // Join the batches of the first writers: into the temporary batch, when there are several. A group
    // ends only at a writer that has a batch, or one that asks for a sync when the first does not.
    method BuildBatchGroup() returns (updates: WriteBatch, count: nat)
      requires QueueOk() && tmpBatch.ops == [] && writers != [] && writers[0].batch != null
      modifies tmpBatch
      ensures QueueOk()
      ensures 1 <= count <= |writers| == |pending| && updates in batches + {tmpBatch} && updates.Valid()
      ensures updates.ops == Concat(pending[..count]) && (updates == tmpBatch || tmpBatch.ops == [])
      ensures SyncCarried(pending[..count], writers[0].sync)
      ensures updates == writers[0].batch || |updates.rep| <= MaxSize(SizeOf(pending[0]))
      ensures FullGroup(pending, count)
    {
      hide Concat, Size, SizeOf, Body, Queued, SyncCarried, Joins, BatchBytes;
      MatchAt(0);
      SizeMore([], pending[0]);
      CarriesItself(pending[0]);
      updates := writers[0].batch;
      var total: nat := |updates.rep|;
      count := 1;
      ConcatMore([], pending[0]);
      assert pending[..1] == [] + [pending[0]] == [pending[0]];
      while count < |writers|
        invariant 1 <= count <= |writers| && Building(count, updates, total)
        invariant forall j :: 1 <= j < count ==> Joins(pending, j)
      {
        var stop;
        stop, updates, total := AddNext(count, updates, total);
        if stop {
          break;
        }
        count := count + 1;
      }
    }

    static lemma CarriesItself(r: Request)
      ensures SyncCarried([r], r.sync) && Concat([]) == []
    {
    }

    // A group of `count` writers.
    ghost predicate Building(count: nat, updates: WriteBatch, total: nat)
      reads this, batches, tmpBatch, updates
      requires 1 <= count <= |writers|
    {
      && QueueOk() && writers[0].batch in batches
      && |writers[0].batch.rep| == SizeOf(pending[0]) && total == Size(pending[..count])
      && Joining(writers[0].batch, updates, total, MaxSize(SizeOf(pending[0])))
      && updates.ops == Concat(pending[..count]) && SyncCarried(pending[..count], writers[0].sync)
    }

    lemma MatchAt(i: nat)
      requires QueueOk() && i < |writers|
      ensures |writers| == |pending| && Matches(writers[i], pending[i], batches)
      ensures SizeOf(pending[i]) == if writers[i].batch == null then 0 else |writers[i].batch.rep|
    {
    }

    // Add the next writer to the group, unless it is to stop here.
    method AddNext(count: nat, updates: WriteBatch, total: nat) returns (stop: bool, joined: WriteBatch, newTotal: nat)
      requires 1 <= count < |writers| && Building(count, updates, total)
      modifies tmpBatch
      ensures Building(if stop then count else count + 1, joined, newTotal)
      ensures |pending| == |writers| && (stop <==> !Joins(pending, count))
    {
      hide Concat, Queued, SyncCarried, Size, SizeOf, Body, EncodeOps, BatchBytes;
      var first, w := writers[0], writers[count];
      var maxSize := MaxSize(|first.batch.rep|);
      MatchAt(0);
      MatchAt(count);
      SizeMore(pending[..count], pending[count]);
      assert pending[..count + 1] == pending[..count] + [pending[count]];
      joined, newTotal := updates, total;
      if w.sync && !first.sync {
        return true, joined, newTotal;
      }
      if w.batch != null {
        if total + |w.batch.rep| > maxSize {
          return true, joined, newTotal;
        }
        newTotal := total + |w.batch.rep|;
        joined := Join(updates, first.batch, w.batch, newTotal, maxSize);
      }
      ConcatMore(pending[..count], pending[count]);
      CarriedMore(pending[..count], pending[count], first.sync);
      stop := false;
    }

    // The group so far: the first batch itself, or the temporary batch.
    ghost predicate Joining(first: WriteBatch, updates: WriteBatch, total: nat, maxSize: nat)
      reads first, updates, tmpBatch
    {
      && tmpBatch.Valid() && first.Valid() && first != tmpBatch && |updates.rep| <= total && maxSize <= 0x10_0000
      && ((updates == first && tmpBatch.ops == []) || (updates == tmpBatch && total <= maxSize))
    }

    // Add a batch to a group, switching to the temporary batch at the first addition.
    method Join(updates: WriteBatch, first: WriteBatch, next: WriteBatch, total: nat, maxSize: nat) returns (joined: WriteBatch)
      requires next.Valid() && next != tmpBatch && |next.rep| <= total <= maxSize
      requires Joining(first, updates, total - |next.rep|, maxSize)
      modifies tmpBatch
      ensures joined == tmpBatch && Joining(first, joined, total, maxSize) && tmpBatch.ops == old(updates.ops) + next.ops
    {
      next.OpsAreBytes();
      updates.OpsAreBytes();
      if updates == first {
        tmpBatch.OpsAreBytes();
        tmpBatch.Append(first);
      }
      tmpBatch.Append(next);
      return tmpBatch;
    }

    // The writer at the front makes room and forms its group; without room or without a batch it is done.
    method Lead(room: bool, switchMemTable: bool)
      requires Valid() && phase == Idle && writers != [] && lastSequence + 0x8000_0001 < LIMIT
      modifies this`mem, this`older, this`fileStart, this`phase, this`group, tmpBatch, batches
      modifies this`writers, this`results, this`done, this`pending
      ensures Valid() && History() == old(History()) && (mem == old(mem) || fresh(mem))
      ensures Entries() == old(Entries()) && older == if switchMemTable && room && !bgError then old(Entries()) else old(older)
      // Without room, or after an error, the first call fails; one without a batch is done; any other leads a group.
      ensures old(pending) != [] && Machine() == Led(old(Machine()), room)
    {
      hide Serial, Concat, Holds, InOrder, AllCommitted, BatchBytes, Body, FullGroup, GroupBatch, GroupStage, SyncCarried, Queued;
      MatchAt(0);
      var status := MakeRoomForWrite(room, switchMemTable);
      var w := writers[0];
      if status == Failed || w.batch == null {
        ReleaseOne(status);
      } else {
        FormGroup();
      }
    }

    lemma MachineSane()
      requires Valid()
      ensures |writers| == |pending| && Machine().Sane() && (phase.Working? ==> Machine().Updates() == Concat(group) == phase.updates.ops && phase.sync == pending[0].sync)
    {
      if phase.Working? {
        assert group == pending[..|group|];
      }
    }

    // Form the group, and give its batch the next sequence numbers.
    method FormGroup()
      requires Valid() && phase == Idle && writers != [] && writers[0].batch != null && lastSequence + 0x8000_0001 < LIMIT
      modifies this`phase, this`group, tmpBatch, batches
      ensures Valid() && pending != [] && pending[0].ops.Some?
      ensures Machine() == old(Machine()).(group := Group(GroupEnd(pending, 1), Grouped, Ok, false))
    {
      hide Serial, Concat, Holds, InOrder, AllCommitted, BatchBytes, Body, SyncCarried, Queued, FullGroup;
      var updates, count := BuildBatchGroup();
      Stamp(updates, lastSequence + 1);
      StartPhase(count, updates);
      GroupParts(pending, count);
      GroupIsUnique(pending, count, GroupEnd(pending, 1));
    }

    method StartPhase(count: nat, updates: WriteBatch)
      requires QueueOk() && LogOk() && DoneOk() && Entries() == Serial(done) && 1 <= count <= |writers|
      requires updates in batches + {tmpBatch} && (updates == tmpBatch || tmpBatch.ops == [])
      requires count <= |pending| && SyncCarried(pending[..count], writers[0].sync) && GroupBatch(updates, pending[..count], lastSequence)
      requires FullGroup(pending, count)
      modifies this`phase, this`group
      ensures Valid() && Machine() == old(Machine()).(group := Group(count, Grouped, Ok, false))
    {
      hide Serial, Concat, Holds, InOrder, AllCommitted, SyncCarried, Queued, GroupBatch, FullGroup;
      MatchAt(0);
      group := pending[..count];
      phase := Working(count, updates, writers[0].sync, Grouped, Ok, false);
    }

    // Give a batch its sequence number; its updates stay what they are.
    method Stamp(updates: WriteBatch, sequence: Sequence)
      requires QueueOk() && updates in batches + {tmpBatch} && updates.Valid()
      modifies updates`rep
      ensures QueueOk() && updates.Valid() && updates.rep == BatchBytes(sequence, updates.ops)
    {
      updates.SetSequence(sequence);
      forall i {:trigger Matches(writers[i], pending[i], batches)} | 0 <= i < |writers|
        ensures Matches(writers[i], pending[i], batches)
      {
        assert old(Matches(writers[i], pending[i], batches));
      }
    }

    // Take the first `count` writers off the queue and tell them how it ended.
    method Release(count: nat, status: Status, ghost s: nat, ghost record: nat)
      requires QueueOk() && results == Statuses(done) && count <= |writers|
      modifies this`writers, this`results, this`done, this`pending
      ensures QueueOk() && results == Statuses(done) && History() == old(History())
      ensures writers == old(writers)[count..] && pending == old(pending)[count..] && results == old(results) + Repeat(status, count)
      ensures done == old(done) + Members(old(pending)[..count], s, record, status)
    {
      QueuedLess(writers, pending, batches, count);
      Finished(done, pending[..count], s, record, status, pending);
      Pop(count, status);
      done := done + Members(pending[..count], s, record, status);
      pending := pending[count..];
    }

    method Pop(count: nat, status: Status)
      requires count <= |writers|
      modifies this`writers, this`results
      ensures writers == old(writers)[count..] && results == old(results) + Repeat(status, count)
    {
      var popped := 0;
      while popped < count
        invariant popped <= count && writers == old(writers)[popped..] && results == old(results) + Repeat(status, popped)
      {
        writers := writers[1..];
        results := results + [status];
        popped := popped + 1;
      }
    }

    // The writer at the front is done without having written.
    method ReleaseOne(status: Status)
      requires Valid() && phase == Idle && writers != [] && (status == Failed || writers[0].batch == null)
      modifies this`writers, this`results, this`done, this`pending
      ensures Valid() && History() == old(History()) && writers == old(writers)[1..]
      ensures |old(pending)| > 0 && Machine() == old(Machine()).(results := old(results) + [status], waiting := old(pending)[1..])
    {
      hide Serial, Concat, Holds, InOrder, AllCommitted, BatchBytes, Members;
      assert Matches(writers[0], pending[0], batches);
      ghost var was, one := done, pending[..1];
      Release(1, status, lastSequence + 1, 0);
      NothingWritten(was, one, lastSequence + 1, 0, status, contents, durable, done);
    }

    // The group's batch is added to the log, or that fails.
    method AddRecord(ok: bool)
      requires Valid() && phase.Working? && phase.stage == Grouped
      modifies this`phase, this`log, this`contents
      ensures Valid() && History() == old(History())
      ensures phase == old(phase).(stage := Logged, status := if ok then Ok else Failed)
      ensures log == old(log) + if ok then [phase.updates.rep] else []
      ensures Machine() == old(Machine()).(
                group := old(Machine()).group.(stage := Logged, status := if ok then Ok else Failed),
                log := if ok then old(contents) + [(lastSequence + 1, phase.updates.ops)] else old(contents))
    {
      hide Serial, Concat, Holds, InOrder, AllCommitted, BatchBytes, Queued, Body;
      if ok {
        HoldsMore(log, contents, lastSequence + 1, phase.updates.ops);
        StillCommitted(done, contents, durable, contents + [(lastSequence + 1, phase.updates.ops)], durable);
        log := log + [phase.updates.rep];
        contents := contents + [(lastSequence + 1, phase.updates.ops)];
      }
      phase := phase.(stage := Logged, status := if ok then Ok else Failed);
    }

    // The log file is synced if the leader asked for it and all is well so far, or that fails.
    method Sync(ok: bool)
      requires Valid() && phase.Working? && phase.stage == Logged
      modifies this`phase, this`durable
      ensures Valid() && History() == old(History())
      ensures var lost := old(phase.status) == Ok && old(phase.sync) && !ok;
              phase == old(phase).(stage := Synced, status := if lost then Failed else old(phase.status), syncError := old(phase.syncError) || lost)
      ensures durable == old(durable) + if old(phase.status) == Ok && phase.sync && ok then Records(fileStart, |log|) else {}
      ensures Machine() == old(Machine()).(
                group := old(Machine()).group.(stage := Synced, status := phase.status, syncError := phase.syncError))
    {
      hide Serial, Concat, InOrder, AllCommitted, BatchBytes, Queued, Body;
      if phase.status == Ok && phase.sync {
        if ok {
          ghost var more := durable + Records(fileStart, |log|);
          StillCommitted(done, contents, durable, contents, more);
          durable := more;
        } else {
          phase := phase.(status := Failed, syncError := true);
        }
      }
      phase := phase.(stage := Synced);
    }

    // A stamped batch goes into the memtable whole.
    method InsertBatch(updates: WriteBatch, ghost s: nat) returns (ok: bool)
      requires updates.Valid() && 0 < s < LIMIT && updates.rep == BatchBytes(s, updates.ops)
      modifies mem
      ensures ok && Entries() == old(Entries()) + Numbered(s, updates.ops)
    {
      BatchRoundTrip(s, updates.ops);
      ok := InsertInto(updates.rep, mem);
      Assoc(older, old(mem.entries), Numbered(s, updates.ops));
    }

    // The group's batch is applied to the memtable, if all is well so far.
    method Insert()
      requires Valid() && phase.Working? && phase.stage == Synced
      modifies this`phase, mem
      ensures Valid() && History() == old(History()) && phase == old(phase).(stage := InMemory)
      ensures Entries() == old(Entries()) + Applied(phase.status, lastSequence + 1, phase.updates.ops)
      ensures Machine() == old(Machine()).(group := old(Machine()).group.(stage := InMemory), entries := Entries())
    {
      hide Serial, Concat, Holds, InOrder, AllCommitted, BatchBytes, Queued, Body;
      ghost var serial := Serial(done);
      assert serial + [] == serial;
      var status := phase.status;
      if status == Ok {
        var inserted := InsertBatch(phase.updates, lastSequence + 1);
        status := if inserted then Ok else Failed;
      }
      phase := phase.(stage := InMemory, status := status);
    }

    // The members of the group leave the queue with its status.
    method ReleaseGroup(count: nat, status: Status, ghost sync: bool, ghost s: nat)
      requires QueueOk() && results == Statuses(done) && InOrder(done, s) && AllCommitted(done, contents, durable)
      requires |group| == count && 1 <= count <= |writers| && group <= pending && SyncCarried(group, sync)
      requires status == Ok ==> contents != [] && contents[|contents| - 1] == (s, Concat(group)) && (sync ==> |contents| - 1 in durable)
      modifies this`writers, this`results, this`done, this`pending
      ensures QueueOk() && results == Statuses(done) && History() == old(History())
      ensures InOrder(done, s + |Concat(group)|) && AllCommitted(done, contents, durable)
      ensures Serial(done) == Serial(old(done)) + Applied(status, s, Concat(group))
      ensures writers == old(writers)[count..] && pending == old(pending)[count..] && results == old(results) + Repeat(status, count)
    {
      hide Serial, Concat, Members, InOrder, AllCommitted;
      ghost var record: nat := if contents == [] then 0 else |contents| - 1;
      assert pending[..count] == group;
      Release(count, status, s, record);
      GroupWritten(old(done), group, s, record, status, contents, durable, sync, done);
    }

    // How many updates the group had. The temporary batch is free again.
    method CountAndClear(updates: WriteBatch) returns (n: nat)
      requires QueueOk() && updates.Valid() && (updates == tmpBatch || tmpBatch.ops == [])
      modifies tmpBatch
      ensures QueueOk() && n == |old(updates.ops)| && tmpBatch.ops == []
    {
      updates.CountIsExact();
      n := updates.Count();
      if updates == tmpBatch {
        tmpBatch.Clear();
      }
    }

    // The writer at the front takes the mutex again and finishes its group.
    method Finish()
      requires Valid() && phase.Working? && phase.stage == InMemory
      modifies this`phase, this`group, this`lastSequence, this`bgError, tmpBatch
      modifies this`writers, this`results, this`done, this`pending
      ensures Valid() && History() == old(History()) && phase == Idle
      ensures lastSequence == old(lastSequence) + |old(phase.updates.ops)| < old(lastSequence) + 0x8000_0000
      ensures old(phase.count) <= |old(pending)|
      ensures Machine() == old(Machine()).(results := old(results) + Repeat(old(phase.status), old(phase.count)),
                                           waiting := old(pending)[old(phase.count)..], group := NoGroup, last := lastSequence,
                                           bgError := old(bgError) || old(phase.syncError))
    {
      hide QueueOk, LogOk, DoneOk, WritingOk, StageOk, EntriesOk, Entries, Requests, Serial, InOrder, AllCommitted, Statuses, Repeat;
      var n := Dissolve();
      EndPhase(n);
    }

    // The group leaves the queue, and its batch is counted.
    method Dissolve() returns (n: nat)
      requires Valid() && phase.Working? && phase.stage == InMemory
      modifies tmpBatch, this`writers, this`results, this`done, this`pending
      ensures QueueOk() && LogOk() && results == Statuses(done) && InOrder(done, lastSequence + 1 + n) && AllCommitted(done, contents, durable)
      ensures Entries() == Serial(done) && Entries() == old(Entries()) && tmpBatch.ops == [] && History() == old(History())
      ensures n == |old(phase.updates.ops)| < 0x8000_0000
      ensures phase.count <= |old(pending)| && pending == old(pending)[phase.count..] && results == old(results) + Repeat(phase.status, phase.count)
    {
      hide Serial, Concat, Members, Holds, InOrder, AllCommitted, BatchBytes, Queued, Body, Requests, Statuses, SyncCarried, LogOk, Applied, Numbered, Repeat, Records;
      ReleaseGroup(phase.count, phase.status, phase.sync, lastSequence + 1);
      n := CountAndClear(phase.updates);
    }

    method EndPhase(n: nat)
      requires QueueOk() && LogOk() && tmpBatch.ops == [] && Entries() == Serial(done) && phase.Working?
      requires results == Statuses(done) && InOrder(done, lastSequence + 1 + n) && AllCommitted(done, contents, durable)
      modifies this`phase, this`group, this`bgError, this`lastSequence
      ensures Valid() && lastSequence == old(lastSequence) + n
      ensures Machine() == old(Machine()).(group := NoGroup, last := lastSequence, bgError := bgError)
      ensures bgError == (old(bgError) || old(phase.syncError))
    {
      hide QueueOk, LogOk, Entries, Serial, InOrder, AllCommitted, Statuses;
      bgError, lastSequence := bgError || phase.syncError, lastSequence + n;
      phase := Idle;
      group := [];
    }

    // A background thread reports an error: writes fail from then on.
    method RecordBackgroundError()
      requires Valid()
      modifies this`bgError
      ensures Valid() && bgError && History() == old(History()) && Machine() == old(Machine()).(bgError := true)
    {
      hide QueueOk, LogOk, DoneOk, WritingOk, StageOk, EntriesOk, Entries, Requests;
      bgError := true;
    }

    /** Between groups: the memtables hold exactly what executing the successful calls one after the
        other, in the order they were made, would put there, with increasing sequence numbers; and every
        successful call is in the log, synced if it asked for that. */
    lemma Serializable()
      requires Valid() && phase == Idle
      ensures Entries() == Serial(done) && results == Statuses(done) && History() == Requests(done) + pending
      ensures NumbersIncrease(Entries()) && forall a :: 0 <= a < |Entries()| ==> Entries()[a].0 <= lastSequence
      ensures AllExecuted(done, contents, durable, Entries())
    {
      SerialIncreases(done, lastSequence + 1);
      forall i {:trigger done[i]} | 0 <= i < |done|
        ensures Committed(done[i], contents, durable) && ExecutedWhole(Entries(), done[i])
      {
        assert AllCommitted(done, contents, durable);
        SerialHas(done, i);
      }
    }

    // In every state the entries are those of the serial execution, and behind them those of a group that has not
    // ended, with larger numbers.
    lemma EntriesInOrder()
      requires Valid()
      ensures NumbersIncrease(Entries()) && Serial(done) <= Entries()
      ensures forall a :: 0 <= a < |Serial(done)| ==> Entries()[a].0 <= lastSequence
      ensures forall a :: |Serial(done)| <= a < |Entries()| ==> lastSequence < Entries()[a].0 <= lastSequence + 0x8000_0000
      ensures forall a :: 0 <= a < |Entries()| ==> Entries()[a].0 > 0
    {
      hide Serial, Concat, Holds, AllCommitted, BatchBytes, Queued, Body;
      SerialIncreases(done, lastSequence + 1);
      SerialPositive(done, log, contents, durable);
    }
  }

  // ----- every run -----

  // The batch a caller makes of its updates.
  method MakeBatch(ops: seq<Op>) returns (batch: WriteBatch)
    requires AllFit(ops) && |ops| < 0x8000_0000
    ensures fresh(batch) && batch.Valid() && batch.ops == ops
  {
    hide Body;
    batch := new WriteBatch();
    var i := 0;
    while i < |ops|
      invariant i <= |ops| && batch.Valid() && fresh(batch) && batch.ops == ops[..i]
    {
      match ops[i] {
        case Put(key, value) => batch.Put(key, value);
        case Delete(key) => batch.Delete(key);
      }
      i := i + 1;
      assert ops[..i] == ops[..i - 1] + [ops[i - 1]];
    }
    assert ops[..|ops|] == ops;
  }

  // A call with these updates.
  method Submit(db: DBImpl, ops: Option<seq<Op>>, sync: bool)
    requires db.Valid() && (ops.Some? ==> AllFit(ops.value) && |ops.value| < 0x8000_0000)
    modifies db`writers, db`pending, db`batches
    ensures db.Valid() && fresh(db.batches - old(db.batches)) && db.pending == old(db.pending) + [Request(ops, sync)]
    ensures db.Machine() == old(db.Machine()).(waiting := db.pending)
  {
    hide DBImpl.Valid;
    var batch: WriteBatch? := null;
    if ops.Some? {
      batch := MakeBatch(ops.value);
    }
    db.Enqueue(Writer(batch, sync));
  }

  // The writer at the front goes on, if it can now.
  method Proceed(db: DBImpl, step: Step)
    requires db.Valid() && (step.Record? || step.SyncLog? || step.Apply? || step.Conclude?)
    modifies db`phase, db`log, db`contents, db`durable, db`group, db`lastSequence, db`bgError, db.tmpBatch, db.mem
    modifies db`writers, db`results, db`done, db`pending
    ensures db.Valid() && old(db.lastSequence) <= db.lastSequence <= old(db.lastSequence) + 0x8000_0000
    ensures old(db.Entries()) <= db.Entries() && db.History() == old(db.History())
    ensures old(db.Machine()).Sane() && db.Machine() == Next(old(db.Machine()), step)
  {
    hide DBImpl.Valid, Serial, Concat, Requests, Applied, Repeat;
    db.MachineSane();
    match step {
      case Record(recorded) =>
        if db.phase.Working? && db.phase.stage == Grouped {
          db.AddRecord(recorded);
        }
      case SyncLog(synced) =>
        if db.phase.Working? && db.phase.stage == Logged {
          db.Sync(synced);
        }
      case Apply =>
        if db.phase.Working? && db.phase.stage == Synced {
          db.Insert();
        }
      case Conclude =>
        if db.phase.Working? && db.phase.stage == InMemory {
          db.Finish();
        }
    }
  }

  // Take a step, if it can be taken now.
  method TakeStep(db: DBImpl, step: Step)
    requires db.Valid() && Callable(step) && db.lastSequence + 0x8000_0001 < LIMIT
    modifies db, db.tmpBatch, db.mem, db.batches
    ensures db.Valid() && old(db.lastSequence) <= db.lastSequence <= old(db.lastSequence) + 0x8000_0000
    ensures old(db.Entries()) <= db.Entries() && old(db.older) <= db.older
    ensures db.older == if Switches(old(db.Machine()), step) then old(db.Entries()) else old(db.older)
    ensures db.History() == old(db.History()) + match step case Call(ops, sync) => [Request(ops, sync)] case _ => []
    ensures fresh({db.mem} - old({db.mem})) && fresh(db.batches - old(db.batches))
    ensures old(db.Machine()).Sane() && db.Machine() == Next(old(db.Machine()), step)
  {
    hide DBImpl.Valid, DBImpl.QueueOk, Serial, Concat, Requests, Queued, Led;
    db.MachineSane();
    match step {
      case Call(ops, sync) =>
        Submit(db, ops, sync);
        assert db.History() == old(db.History()) + [Request(ops, sync)];
      case Front(room, switchMemTable) =>
        if db.phase == Idle && db.writers != [] {
          db.Lead(room, switchMemTable);
        }
      case BackgroundError =>
        db.RecordBackgroundError();
      case _ =>
        Proceed(db, step);
    }
  }

  /** Any interleaving of calls and steps is serial: whenever no group is being written, the memtables hold what executing
      the successful calls in the order they were made would put there, each whole and in the log, and synced if it asked
      for that; and every call has ended or still waits, in order. */
  method Run(steps: seq<Step>) returns (db: DBImpl)
    requires |steps| < 0x1_0000_0000 && forall i :: 0 <= i < |steps| ==> Callable(steps[i])
    ensures fresh(db) && db.Valid() && db.History() == Calls(steps)
    ensures db.phase == Idle ==> db.Entries() == Serial(db.done) && db.results == Statuses(db.done) && Requests(db.done) + db.pending == Calls(steps)
    ensures db.phase == Idle ==> NumbersIncrease(db.Entries()) && AllExecuted(db.done, db.contents, db.durable, db.Entries())
    ensures db.Machine() == After(START, steps)
    ensures (forall i :: 0 <= i < |steps| ==> Smooth(steps[i])) ==> AllOk(db.results) && !db.bgError
  {
    hide Next, NumbersIncrease, AllExecuted, Serial, Concat, Members, Holds, InOrder, AllCommitted, BatchBytes, Queued, Body, Requests, Statuses, DBImpl.Valid, Callable, Smooth;
    db := new DBImpl();
    var i := 0;
    while i < |steps|
      invariant i <= |steps| && fresh(db) && db.Valid() && db.History() == Calls(steps[..i])
      invariant fresh(db.tmpBatch) && fresh(db.mem) && fresh(db.batches)
      invariant db.lastSequence <= i * 0x8000_0000 && db.Machine() == After(START, steps[..i])
    {
      assert steps[..i + 1][..i] == steps[..i];
      TakeStep(db, steps[i]);
      i := i + 1;
    }
    assert steps[..|steps|] == steps;
    if forall i :: 0 <= i < |steps| ==> Smooth(steps[i]) {
      NoneFails(START, steps);
    }
    if db.phase == Idle {
      db.Serializable();
    }
  }
}
