/** Where a compaction cuts its outputs: which of the entries that it keeps share a file. */
module CompactionCuts {
  import opened InternalKeys
  import opened LsmTree
  import opened CompactionSpec

  // What is compacted, and the decisions that cut its outputs.
  datatype Job = Job(v: Version, level: nat, snap: nat, merged: seq<Entry>, stop: nat -> bool, big: nat -> bool) {
    ghost predicate Ok() {
      Shape(v)
    }

    ghost function After(n: nat): Writing
      requires Ok() && n <= |merged|
    {
      WritingAfter(v, level, snap, merged, stop, big, n)
    }

    ghost predicate Drops(i: nat)
      requires Ok() && i < |merged|
    {
      Dropped(v, level, snap, merged, i)
    }

    ghost function Outputs(): seq<seq<Entry>>
      requires Ok()
    {
      After(|merged|).Close().closed
    }

    // The number of the file that entry i is for.
    ghost function FileNumber(i: nat): nat
      requires Ok() && i < |merged|
    {
      if stop(i) then |After(i).Close().closed| else |After(i).closed|
    }

    // Entries i to n - 1 but the first are dropped.
    ghost predicate AllDropped(i: nat, n: nat)
      requires Ok() && n <= |merged|
    {
      forall k {:trigger Drops(k)} :: i <= k < n ==> Drops(k)
    }

    // The file with entry i is full with it, or one of the entries behind it, before n, is not to go over.
    ghost predicate Parted(i: nat, n: nat) {
      big(i) || exists k {:trigger stop(k)} :: i < k < n && stop(k)
    }
  }

  lemma OneStep(j: Job, n: nat)
    requires j.Ok() && n < |j.merged|
    ensures var w := if j.stop(n) then j.After(n).Close() else j.After(n);
            |w.closed| == j.FileNumber(n) && j.After(n + 1) == if j.Drops(n) then w else w.Add(j.merged[n], j.big(n))
  {
    hide Dropped;
  }

  lemma {:induction false} NothingYet(j: Job, n: nat)
    requires j.Ok() && n <= |j.merged| && j.AllDropped(0, n)
    ensures j.After(n) == Writing([], [])
  {
    hide Dropped, Job.Drops;
    if n > 0 {
      NothingYet(j, n - 1);
      assert j.Drops(n - 1);
      OneStep(j, n - 1);
    }
  }

  lemma {:induction false} BehindKept(j: Job, i: nat, n: nat)
    requires j.Ok() && i < n <= |j.merged| && !j.Drops(i) && j.AllDropped(i + 1, n)
    ensures |j.After(n).closed| == j.FileNumber(i) + (if j.Parted(i, n) then 1 else 0) && (j.After(n).open == [] <==> j.Parted(i, n))
  {
    hide Dropped, Job.Drops, Job.After, Job.FileNumber;
    OneStep(j, n - 1);
    if n > i + 1 {
      BehindKept(j, i, n - 1);
      assert j.Drops(n - 1);
      assert j.Parted(i, n) <==> j.Parted(i, n - 1) || j.stop(n - 1);
    }
  }

  /** The first entry that is kept is for the first file. The next one behind an entry that is kept is for the same
      file, unless that is full, or it or an entry dropped in between is not to go over: then for the one behind. */
  lemma CutsIff(j: Job, i: nat, next: nat)
    requires j.Ok() && i < next < |j.merged| && !j.Drops(i) && j.AllDropped(i + 1, next)
    ensures j.FileNumber(next) == j.FileNumber(i) + if j.Parted(i, next + 1) then 1 else 0
    ensures j.AllDropped(0, i) ==> j.FileNumber(i) == 0
  {
    hide Dropped, Job.Drops, Job.After;
    BehindKept(j, i, next);
    assert j.Parted(i, next + 1) <==> j.Parted(i, next) || j.stop(next);
    if j.AllDropped(0, i) {
      NothingYet(j, i);
    }
  }

  lemma {:induction false} StaysWhere(j: Job, i: nat, n: nat)
    requires j.Ok() && i < n <= |j.merged| && !j.Drops(i)
    ensures var w, f := j.After(n), j.FileNumber(i);
            if f < |w.closed| then j.merged[i] in w.closed[f] else f == |w.closed| && j.merged[i] in w.open
    decreases n
  {
    hide Dropped, Job.Drops, Job.After, Job.FileNumber;
    OneStep(j, n - 1);
    if n > i + 1 {
      StaysWhere(j, i, n - 1);
    }
  }

  /** And there it is in the end. */
  lemma InItsFile(j: Job, i: nat)
    requires j.Ok() && i < |j.merged| && !j.Drops(i)
    ensures j.FileNumber(i) < |j.Outputs()| && j.merged[i] in j.Outputs()[j.FileNumber(i)]
  {
    hide Dropped, Job.Drops, Job.After, Job.FileNumber;
    StaysWhere(j, i, |j.merged|);
  }
}
