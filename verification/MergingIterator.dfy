/** The merging iterator: one cursor over several sorted children, with direction switches. */
module MergeSpec {
  import opened Options
  import opened InternalKeys

  ghost predicate DisjointKeys(a: seq<Entry>, b: seq<Entry>) {
    forall p, q :: 0 <= p < |a| && 0 <= q < |b| ==> a[p].key != b[q].key
  }

  // No key occurs in two children, nor twice in one.
  ghost predicate Mergeable(lists: seq<seq<Entry>>) {
    (forall i :: 0 <= i < |lists| ==> Sorted(lists[i])) &&
    (forall i, j :: 0 <= i < j < |lists| ==> DisjointKeys(lists[i], lists[j]))
  }

  function Merge(a: seq<Entry>, b: seq<Entry>): (m: seq<Entry>)
    decreases |a| + |b|
  {
    if a == [] then b
    else if b == [] then a
    else if Before(a[0].key, b[0].key) then [a[0]] + Merge(a[1..], b)
    else [b[0]] + Merge(a, b[1..])
  }

  // The sorted union of the children.
  function Union(lists: seq<seq<Entry>>): (m: seq<Entry>) {
    if lists == [] then [] else Merge(lists[0], Union(lists[1..]))
  }

  lemma {:induction false} MergeElements(a: seq<Entry>, b: seq<Entry>, e: Entry)
    ensures e in Merge(a, b) <==> e in a || e in b
    decreases |a| + |b|
  {
    if a != [] && b != [] {
      if Before(a[0].key, b[0].key) {
        MergeElements(a[1..], b, e);
        assert a == [a[0]] + a[1..];
      } else {
        MergeElements(a, b[1..], e);
        assert b == [b[0]] + b[1..];
      }
    }
  }

  lemma {:induction false} MergeSorted(a: seq<Entry>, b: seq<Entry>)
    requires Sorted(a) && Sorted(b)
    requires DisjointKeys(a, b)
    ensures Sorted(Merge(a, b))
    decreases |a| + |b|
  {
    if a != [] && b != [] {
      var first, rest;
      if Before(a[0].key, b[0].key) {
        first, rest := a[0], Merge(a[1..], b);
        MergeSorted(a[1..], b);
      } else {
        first, rest := b[0], Merge(a, b[1..]);
        BeforeIsStrictTotalOrder(a[0].key, b[0].key, a[0].key);
        MergeSorted(a, b[1..]);
      }
      forall e | e in rest ensures Before(first.key, e.key) {
        if Before(a[0].key, b[0].key) {
          MergeElements(a[1..], b, e);
        } else {
          MergeElements(a, b[1..], e);
        }
      }
      assert Merge(a, b) == [first] + rest;
    }
  }

  lemma {:induction false} UnionElements(lists: seq<seq<Entry>>, e: Entry)
    ensures e in Union(lists) <==> exists i :: 0 <= i < |lists| && e in lists[i]
  {
    if lists != [] {
      MergeElements(lists[0], Union(lists[1..]), e);
      UnionElements(lists[1..], e);
      if e in Union(lists[1..]) {
        var i :| 0 <= i < |lists[1..]| && e in lists[1..][i];
        assert e in lists[i + 1];
      }
      if i :| 0 < i < |lists| && e in lists[i] {
        assert e in lists[1..][i - 1];
      }
    }
  }

  /** The union is strictly sorted and holds exactly the entries of the children. */
  lemma {:induction false} UnionIsSortedUnion(lists: seq<seq<Entry>>)
    requires Mergeable(lists)
    ensures Sorted(Union(lists))
    ensures forall e :: e in Union(lists) <==> exists i :: 0 <= i < |lists| && e in lists[i]
  {
    if lists != [] {
      var rest := Union(lists[1..]);
      UnionIsSortedUnion(lists[1..]);
      forall p, q | 0 <= p < |lists[0]| && 0 <= q < |rest| ensures lists[0][p].key != rest[q].key {
        assert rest[q] in rest;
        var i :| 0 <= i < |lists[1..]| && rest[q] in lists[1..][i];
        var r :| 0 <= r < |lists[i + 1]| && lists[i + 1][r] == rest[q];
      }
      MergeSorted(lists[0], rest);
    }
    forall e ensures e in Union(lists) <==> exists i :: 0 <= i < |lists| && e in lists[i] {
      UnionElements(lists, e);
    }
  }

  // ----- cutting the children where the union is cut -----

  // How many entries of the child es come before position p of the union m.
  function Cut(m: seq<Entry>, es: seq<Entry>, p: nat): (n: nat)
    requires p <= |m|
    ensures n <= |es|
  {
    if p < |m| then LowerBound(es, m[p].key) else |es|
  }

  // The index just before n; past the end (not valid) when there is none.
  function JustBefore(es: seq<Entry>, n: nat): nat
    requires n <= |es|
  {
    if n == 0 then |es| else n - 1
  }

  ghost predicate IsUnion(m: seq<Entry>, lists: seq<seq<Entry>>) {
    Sorted(m) && forall e :: e in m <==> exists i :: 0 <= i < |lists| && e in lists[i]
  }

  // The child that holds position p of the union, and where.
  lemma Owner(m: seq<Entry>, lists: seq<seq<Entry>>, p: nat) returns (c: nat)
    requires Mergeable(lists) && IsUnion(m, lists) && p < |m|
    ensures c < |lists| && Cut(m, lists[c], p) < |lists[c]| && lists[c][Cut(m, lists[c], p)] == m[p]
  {
    assert m[p] in m;
    c :| 0 <= c < |lists| && m[p] in lists[c];
    var q :| 0 <= q < |lists[c]| && lists[c][q] == m[p];
    AtEntry(lists[c], q);
  }

  lemma AtEntry(es: seq<Entry>, q: nat)
    requires Sorted(es) && q < |es|
    ensures LowerBound(es, es[q].key) == q
  {
  }

  // An entry of a child at or after the child's cut lies at or after the cut of the union.
  lemma CutSplits(m: seq<Entry>, lists: seq<seq<Entry>>, i: nat, q: nat, p: nat) returns (r: nat)
    requires Mergeable(lists) && IsUnion(m, lists) && p <= |m| && i < |lists| && q < |lists[i]|
    ensures r < |m| && m[r] == lists[i][q]
    ensures q < Cut(m, lists[i], p) <==> r < p
  {
    assert lists[i][q] in lists[i];
    assert lists[i][q] in m;
    r :| 0 <= r < |m| && m[r] == lists[i][q];
    if p < |m| && q >= Cut(m, lists[i], p) && q > Cut(m, lists[i], p) {
      assert Before(lists[i][Cut(m, lists[i], p)].key, lists[i][q].key);
    }
  }

  // Moving the cut past position p moves only the child that holds it.
  lemma CutStep(m: seq<Entry>, lists: seq<seq<Entry>>, i: nat, c: nat, p: nat)
    requires Mergeable(lists) && IsUnion(m, lists) && p < |m| && i < |lists| && c < |lists|
    requires Cut(m, lists[c], p) < |lists[c]| && lists[c][Cut(m, lists[c], p)] == m[p]
    ensures Cut(m, lists[i], p + 1) == Cut(m, lists[i], p) + (if i == c then 1 else 0)
  {
    var a, b := Cut(m, lists[i], p), Cut(m, lists[i], p + 1);
    var goal := a + (if i == c then 1 else 0);
    if b < goal {
      var r := CutSplits(m, lists, i, b, p + 1);
    }
    if goal < b {
      var r := CutSplits(m, lists, i, goal, p + 1);
      var r' := CutSplits(m, lists, i, goal, p);
    }
  }
}

module MergingIterators {
  import opened Options
  import opened InternalKeys
  import opened Cursors
  import opened MergeSpec

  datatype Direction = Forward | Reverse

  class MergingIterator {
    const children: seq<Cursor>
    ghost const merged: seq<Entry>
    var current: Option<nat>
    var direction: Direction
    ghost var position: Option<nat>  // where the cursor stands in the union

    ghost function Lists(): seq<seq<Entry>> {
      seq(|children|, i requires 0 <= i < |children| => children[i].entries)
    }

    constructor (children: seq<Cursor>)
      requires forall i, j :: 0 <= i < j < |children| ==> children[i] != children[j]
      requires Mergeable(seq(|children|, i requires 0 <= i < |children| => children[i].entries))
      ensures Inv() && this.children == children && position.None?
      ensures merged == Union(Lists())
    {
      this.children := children;
      current := None;
      direction := Forward;
      position := None;
      merged := Union(seq(|children|, i requires 0 <= i < |children| => children[i].entries));
      new;
      UnionIsSortedUnion(Lists());
    }

    ghost predicate Shape() {
      Mergeable(Lists()) && IsUnion(merged, Lists()) &&
      forall i, j :: 0 <= i < j < |children| ==> children[i] != children[j]
    }

    // Every child stands on its first entry at or after position p of the union.
    ghost predicate AllAt(p: nat)
      requires p <= |merged|
      reads children
    {
      forall i :: 0 <= i < |children| ==> children[i].pos == Cut(merged, children[i].entries, p)
    }

    // Every child stands on its last entry before position p of the union.
    ghost predicate AllBefore(p: nat)
      requires p <= |merged|
      reads children
    {
      forall i :: 0 <= i < |children| ==>
        children[i].pos == JustBefore(children[i].entries, Cut(merged, children[i].entries, p))
    }

    // The current child shows position p of the union.
    ghost predicate Shows(p: nat)
      reads this, children
    {
      p < |merged| && current.Some? && current.value < |children| &&
      children[current.value].Valid() && children[current.value].entries[children[current.value].pos] == merged[p] &&
      match direction
      case Forward => AllAt(p)
      case Reverse => AllBefore(p + 1)
    }

    ghost predicate Inv()
      reads this, children
    {
      Shape() && position.Some? == current.Some? && (position.Some? ==> Shows(position.value))
    }

    method FindSmallest(ghost p: nat)
      requires Shape() && p <= |merged| && AllAt(p)
      modifies `current
      ensures if p < |merged| then
                current.Some? && current.value < |children| && children[current.value].Valid() &&
                children[current.value].entries[children[current.value].pos] == merged[p]
              else current.None?
    {
      var smallest: Option<nat> := None;
      for i := 0 to |children|
        invariant smallest.None? ==> forall j :: 0 <= j < i ==> !children[j].Valid()
        invariant smallest.Some? ==>
                    smallest.value < i && children[smallest.value].Valid() &&
                    forall j :: 0 <= j < i && children[j].Valid() ==> !Before(children[j].Key(), children[smallest.value].Key())
      {
        if children[i].Valid() {
          if smallest.None? {
            smallest := Some(i);
          } else if Before(children[i].Key(), children[smallest.value].Key()) {
            smallest := Some(i);
          }
        }
      }
      current := smallest;
      SmallestIsNext(p, smallest);
    }

    lemma SmallestIsNext(p: nat, smallest: Option<nat>)
      requires Shape() && p <= |merged| && AllAt(p)
      requires smallest.None? ==> forall j :: 0 <= j < |children| ==> !children[j].Valid()
      requires smallest.Some? ==>
                 smallest.value < |children| && children[smallest.value].Valid() &&
                 forall j :: 0 <= j < |children| && children[j].Valid()
                   ==> !Before(children[j].Key(), children[smallest.value].Key())
      ensures if p < |merged| then
                smallest.Some? && children[smallest.value].entries[children[smallest.value].pos] == merged[p]
              else smallest.None?
    {
      if p < |merged| {
        var c := Owner(merged, Lists(), p);
        assert children[c].Valid();
      }
      if smallest.Some? {
        var r := CutSplits(merged, Lists(), smallest.value, children[smallest.value].pos, p);
        assert r >= p;
      }
    }

    method FindLargest(ghost p: nat)
      requires Shape() && p <= |merged| && AllBefore(p)
      modifies `current
      ensures if 0 < p then
                current.Some? && current.value < |children| && children[current.value].Valid() &&
                children[current.value].entries[children[current.value].pos] == merged[p - 1]
              else current.None?
    {
      var largest: Option<nat> := None;
      for i := |children| downto 0
        invariant largest.None? ==> forall j :: i <= j < |children| ==> !children[j].Valid()
        invariant largest.Some? ==>
                    i <= largest.value < |children| && children[largest.value].Valid() &&
                    forall j :: i <= j < |children| && children[j].Valid() ==> !Before(children[largest.value].Key(), children[j].Key())
      {
        if children[i].Valid() {
          if largest.None? {
            largest := Some(i);
          } else if Before(children[largest.value].Key(), children[i].Key()) {
            largest := Some(i);
          }
        }
      }
      current := largest;
      LargestIsPrevious(p, largest);
    }

    lemma LargestIsPrevious(p: nat, largest: Option<nat>)
      requires Shape() && p <= |merged| && AllBefore(p)
      requires largest.None? ==> forall j :: 0 <= j < |children| ==> !children[j].Valid()
      requires largest.Some? ==>
                 largest.value < |children| && children[largest.value].Valid() &&
                 forall j :: 0 <= j < |children| && children[j].Valid()
                   ==> !Before(children[largest.value].Key(), children[j].Key())
      ensures if 0 < p then
                largest.Some? && children[largest.value].entries[children[largest.value].pos] == merged[p - 1]
              else largest.None?
    {
      if 0 < p {
        var c := Owner(merged, Lists(), p - 1);
        CutStep(merged, Lists(), c, c, p - 1);
        assert children[c].Valid();
      }
      if largest.Some? {
        var i := largest.value;
        var r := CutSplits(merged, Lists(), i, children[i].pos, p);
        assert r < p;
      }
    }

    ghost function At(p: int): Option<nat> {
      if 0 <= p < |merged| then Some(p) else None
    }

    method Key() returns (k: InternalKey)
      requires Inv() && position.Some?
      ensures position.value < |merged| && k == merged[position.value].key
    {
      k := children[current.value].Key();
    }

    method Value() returns (v: Bytes)
      requires Inv() && position.Some?
      ensures position.value < |merged| && v == merged[position.value].value
    {
      v := children[current.value].Value();
    }

    method SeekToFirst()
      requires Inv()
      modifies this, children
      ensures Inv() && position == At(0)
    {
      for i := 0 to |children|
        invariant forall j :: 0 <= j < i ==> children[j].pos == 0
      {
        children[i].SeekToFirst();
      }
      assert AllAt(0) by {
        forall i | 0 <= i < |children| ensures Cut(merged, children[i].entries, 0) == 0 {
          CutOfFirst(i);
        }
      }
      FindSmallest(0);
      direction := Forward;
      position := At(0);
    }

    method SeekToLast()
      requires Inv()
      modifies this, children
      ensures Inv() && position == At(|merged| - 1)
    {
      for i := 0 to |children|
        invariant forall j :: 0 <= j < i ==> children[j].pos == JustBefore(children[j].entries, |children[j].entries|)
      {
        children[i].SeekToLast();
      }
      FindLargest(|merged|);
      direction := Reverse;
      position := At(|merged| - 1);
    }

    method Seek(target: InternalKey)
      requires Inv()
      modifies this, children
      ensures Inv() && position == At(LowerBound(merged, target))
    {
      for i := 0 to |children|
        invariant forall j :: 0 <= j < i ==> children[j].pos == LowerBound(children[j].entries, target)
      {
        children[i].Seek(target);
      }
      ghost var p := LowerBound(merged, target);
      assert AllAt(p) by {
        forall i | 0 <= i < |children| ensures Cut(merged, children[i].entries, p) == LowerBound(children[i].entries, target) {
          CutOfTarget(i, target);
        }
      }
      FindSmallest(p);
      direction := Forward;
      position := At(p);
    }

    // Position every child but the current one after the key.
    method MoveOthersAfter(ghost p: nat, c: nat, key: InternalKey)
      requires Shape() && p < |merged| && c < |children| && key == merged[p].key
      requires children[c].pos == Cut(merged, children[c].entries, p) < |children[c].entries|
      requires children[c].entries[children[c].pos] == merged[p]
      modifies children
      ensures AllAt(p) && children[c].pos == old(children[c].pos)
    {
      for i := 0 to |children|
        invariant children[c].pos == old(children[c].pos)
        invariant forall j :: 0 <= j < i ==> children[j].pos == Cut(merged, children[j].entries, p)
      {
        if i != c {
          children[i].Seek(key);
          if children[i].Valid() && key == children[i].Key() {
            children[i].Next();
          }
          NotInOther(p, c, i);
        }
      }
    }

    // Position every child but the current one before the key.
    method MoveOthersBefore(ghost p: nat, c: nat, key: InternalKey)
      requires Shape() && p < |merged| && c < |children| && key == merged[p].key
      requires children[c].pos == Cut(merged, children[c].entries, p)
      modifies children
      ensures children[c].pos == old(children[c].pos)
      ensures OthersBefore(p, c)
    {
      for i := 0 to |children|
        invariant children[c].pos == old(children[c].pos)
        invariant forall j :: 0 <= j < i && j != c ==>
                    children[j].pos == JustBefore(children[j].entries, Cut(merged, children[j].entries, p))
      {
        if i != c {
          children[i].Seek(key);
          if children[i].Valid() {
            // On the first entry at or after the key: step back to one before it.
            children[i].Prev();
          } else {
            // No entry at or after the key: take the last one.
            children[i].SeekToLast();
          }
        }
      }
    }

    method Next()
      requires Inv() && position.Some?
      modifies this, children
      ensures Inv() && position == At(old(position).value + 1)
    {
      ghost var p := position.value;
      var c := current.value;
      var key := children[c].Key();
      CurrentCut(p, c);
      if direction.Reverse? {
        MoveOthersAfter(p, c, key);
        direction := Forward;
      }
      AdvanceCurrent(p, c);
    }

    method AdvanceCurrent(ghost p: nat, c: nat)
      requires Shape() && p < |merged| && c < |children| && direction.Forward? && AllAt(p)
      requires children[c].Valid() && children[c].entries[children[c].pos] == merged[p]
      modifies `current, `position, children
      ensures Inv() && position == At(p + 1)
    {
      OnlyCurrentMoves(p, c);
      assert forall i :: 0 <= i < |children| && i != c ==> children[i] != children[c];
      children[c].Next();
      assert AllAt(p + 1);
      FindSmallest(p + 1);
      position := At(p + 1);
    }

    method Prev()
      requires Inv() && position.Some?
      modifies this, children
      ensures Inv() && position == At(old(position).value - 1)
    {
      ghost var p := position.value;
      var c := current.value;
      var key := children[c].Key();
      CurrentCut(p, c);
      OnlyCurrentMoves(p, c);
      if direction.Forward? {
        MoveOthersBefore(p, c, key);
        direction := Reverse;
      }
      StepBackCurrent(p, c);
    }

    // Every child but c stands on its last entry before position p of the union.
    ghost predicate OthersBefore(p: nat, c: nat)
      requires p <= |merged|
      reads children
    {
      forall i :: 0 <= i < |children| && i != c ==>
        children[i].pos == JustBefore(children[i].entries, Cut(merged, children[i].entries, p))
    }

    method StepBackCurrent(ghost p: nat, c: nat)
      requires Shape() && p < |merged| && c < |children| && direction.Reverse? && OthersBefore(p, c)
      requires children[c].Valid() && children[c].pos == Cut(merged, children[c].entries, p)
      modifies `current, `position, children
      ensures Inv() && position == At(p - 1)
    {
      hide Cut, IsUnion, Mergeable;
      assert forall i :: 0 <= i < |children| && i != c ==> children[i] != children[c];
      children[c].Prev();
      assert AllBefore(p);
      FindLargest(p);
      position := if p == 0 then None else Some(p - 1);
    }

    // ----- helpers -----

    lemma CutOfFirst(i: nat)
      requires Shape() && i < |children|
      ensures Cut(merged, children[i].entries, 0) == 0
    {
      if 0 < Cut(merged, children[i].entries, 0) {
        var r := CutSplits(merged, Lists(), i, 0, 0);
      }
    }

    lemma CutOfTarget(i: nat, target: InternalKey)
      requires Shape() && i < |children|
      ensures Cut(merged, children[i].entries, LowerBound(merged, target)) == LowerBound(children[i].entries, target)
    {
      var es, p := children[i].entries, LowerBound(merged, target);
      var a, b := Cut(merged, es, p), LowerBound(es, target);
      assert Lists()[i] == es;
      if a < b {
        var r := CutSplits(merged, Lists(), i, a, p);
      }
      if b < a {
        var r := CutSplits(merged, Lists(), i, b, p);
      }
    }

    // The current child stands on its cut, whichever the direction.
    lemma CurrentCut(p: nat, c: nat)
      requires Inv() && Shows(p) && current == Some(c)
      ensures c < |children| && children[c].pos == Cut(merged, children[c].entries, p) < |children[c].entries|
      ensures children[c].entries[children[c].pos] == merged[p]
    {
      AtEntry(Lists()[c], children[c].pos);
    }

    // Past position p of the union, only the cut of the child that holds p moves.
    lemma OnlyCurrentMoves(p: nat, c: nat)
      requires Shape() && p < |merged| && c < |children|
      requires Cut(merged, children[c].entries, p) < |children[c].entries|
      requires children[c].entries[Cut(merged, children[c].entries, p)] == merged[p]
      ensures forall i :: 0 <= i < |children| ==>
                Cut(merged, children[i].entries, p + 1) ==
                Cut(merged, children[i].entries, p) + (if i == c then 1 else 0)
    {
      forall i | 0 <= i < |children|
        ensures Cut(merged, children[i].entries, p + 1) == Cut(merged, children[i].entries, p) + (if i == c then 1 else 0)
      {
        CutStep(merged, Lists(), i, c, p);
      }
    }

    lemma NotInOther(p: nat, c: nat, i: nat)
      requires Shape() && p < |merged| && c < |children| && i < |children| && i != c
      requires children[c].Valid() && children[c].entries[children[c].pos] == merged[p]
      ensures forall q :: 0 <= q < |children[i].entries| ==> children[i].entries[q].key != merged[p].key
    {
      assert Lists()[c] == children[c].entries && Lists()[i] == children[i].entries;
    }
  }
}
