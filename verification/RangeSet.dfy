/** Sets of closed time ranges, src/storage/range_set.cpp: the merging pass, the class that keeps its
    ranges merged, and what the ranges mean. */
module RangeSet {
  import opened Words
  import opened Sorting

  datatype Range = Range(start: uint64, end: uint64)

  function Turned(r: Range): Range {
    if r.end < r.start then Range(r.end, r.start) else r
  }

  function ByStart(r: Range): Key {
    Key(r.start, 0, 0)
  }

  /** One turn of the merging loop; the sum wraps at 2^64. */
  function MergeOne(merged: seq<Range>, r: Range): seq<Range> {
    if |merged| == 0 || r.start > Wrap64(merged[|merged| - 1].end + 1) then merged + [r]
    else
      var back := |merged| - 1;
      merged[back := merged[back].(end := Max(merged[back].end, r.end))]
  }

  function Merged(sorted: seq<Range>): seq<Range>
    decreases |sorted|
  {
    if |sorted| == 0 then [] else MergeOne(Merged(sorted[..|sorted| - 1]), sorted[|sorted| - 1])
  }

  /** `after` can be what adding `r` makes of `ranges`: the sort leaves the order of ranges with
      equal starts open. */
  ghost predicate Adds(ranges: seq<Range>, r: Range, after: seq<Range>) {
    exists sorted :: IsSort(sorted, ranges + [Turned(r)], ByStart) && after == Merged(sorted)
  }

  // ----- meaning

  predicate Within(r: Range, t: int) {
    r.start <= t <= r.end
  }

  /** Between the two ends, whichever way round they are given. */
  predicate Between(r: Range, t: int) {
    Min(r.start, r.end) <= t <= Max(r.start, r.end)
  }

  predicate Covers(ranges: seq<Range>, t: int) {
    exists i :: 0 <= i < |ranges| && Within(ranges[i], t)
  }

  predicate Upright(ranges: seq<Range>) {
    forall i | 0 <= i < |ranges| :: ranges[i].start <= ranges[i].end
  }

  /** Ascending, with at least one time between neighbours that neither covers. */
  predicate Canonical(ranges: seq<Range>) {
    Upright(ranges) && forall i | 0 < i < |ranges| :: ranges[i - 1].end + 1 < ranges[i].start
  }

  // ----- the class

  class TimeRangeSet {
    var ranges: seq<Range>

    constructor ()
      ensures ranges == []
    {
      ranges := [];
    }

    method Add(range: Range)
      modifies this
      ensures Adds(old(ranges), range, ranges)
    {
      var added := range;
      if added.end < added.start {
        added := Range(added.end, added.start);
      }
      ranges := ranges + [added];
      Normalize();
    }

    method Normalize()
      modifies this
      ensures exists sorted :: IsSort(sorted, old(ranges), ByStart) && ranges == Merged(sorted)
    {
      var sorted := Sort(ranges, ByStart);
      SortPermutes(ranges, ByStart);
      var merged: seq<Range> := [];
      for i := 0 to |sorted|
        invariant merged == Merged(sorted[..i])
      {
        assert sorted[..i + 1][..i] == sorted[..i];
        var back := |merged| - 1;
        if |merged| == 0 || sorted[i].start > Wrap64(merged[back].end + 1) {
          merged := merged + [sorted[i]];
        } else {
          merged := merged[back := merged[back].(end := Max(merged[back].end, sorted[i].end))];
        }
      }
      assert sorted[..|sorted|] == sorted;
      ranges := merged;
    }

    method Contains(time: uint64) returns (found: bool)
      ensures found <==> Covers(ranges, time)
    {
      for i := 0 to |ranges|
        invariant !Covers(ranges[..i], time)
      {
        if time >= ranges[i].start && time <= ranges[i].end {
          assert Within(ranges[i], time);
          return true;
        }
        CoversOne(ranges[..i], ranges[i], time);
        assert ranges[..i + 1] == ranges[..i] + [ranges[i]];
      }
      assert ranges[..|ranges|] == ranges;
      found := false;
    }

    /** Whether some time lies both in the set and in the range, whichever way round it is given. */
    method Overlaps(range: Range) returns (found: bool)
      requires Upright(ranges)
      ensures found <==> exists t: int :: Between(range, t) && Covers(ranges, t)
    {
      var asked := range;
      if asked.end < asked.start {
        asked := Range(asked.end, asked.start);
      }
      for i := 0 to |ranges|
        invariant forall t: int :: Within(asked, t) ==> !Covers(ranges[..i], t)
      {
        if asked.start <= ranges[i].end && asked.end >= ranges[i].start {
          var t := Max(asked.start, ranges[i].start);
          assert Within(asked, t) && Within(ranges[i], t);
          assert Covers(ranges, t);
          return true;
        }
        forall t: int | Within(asked, t)
          ensures !Covers(ranges[..i + 1], t)
        {
          CoversOne(ranges[..i], ranges[i], t);
          assert ranges[..i + 1] == ranges[..i] + [ranges[i]];
        }
      }
      assert ranges[..|ranges|] == ranges;
      found := false;
    }

    method Clear()
      modifies this
      ensures ranges == []
    {
      ranges := [];
    }
  }

  lemma CoversOne(ranges: seq<Range>, r: Range, t: int)
    ensures Covers(ranges + [r], t) <==> Covers(ranges, t) || Within(r, t)
  {
    var all := ranges + [r];
    assert all[|ranges|] == r;
    if Covers(ranges, t) {
      var i :| 0 <= i < |ranges| && Within(ranges[i], t);
      assert Within(all[i], t);
    }
    if Covers(all, t) {
      var i :| 0 <= i < |all| && Within(all[i], t);
      assert i < |ranges| ==> Within(ranges[i], t);
    }
  }

  // ----- merging keeps what is covered

  predicate StartsInOrder(ranges: seq<Range>) {
    forall i, j | 0 <= i < j < |ranges| :: ranges[i].start <= ranges[j].start
  }

  lemma SortedStarts(ranges: seq<Range>)
    requires Sorted(ranges, ByStart)
    ensures StartsInOrder(ranges)
  {
    forall i, j | 0 <= i < j < |ranges|
      ensures ranges[i].start <= ranges[j].start
    {
      assert !Less(ByStart(ranges[j]), ByStart(ranges[i]));
    }
  }

  lemma CoversUpdate(ranges: seq<Range>, k: nat, r: Range, t: int)
    requires k < |ranges| && r.start == ranges[k].start && ranges[k].end <= r.end
    ensures Covers(ranges[k := r], t) <==> Covers(ranges, t) || Within(r, t)
  {
    if Covers(ranges, t) {
      var i :| 0 <= i < |ranges| && Within(ranges[i], t);
      assert Within(ranges[k := r][i], t);
    }
    if Within(r, t) {
      assert ranges[k := r][k] == r;
    }
    if Covers(ranges[k := r], t) {
      var i :| 0 <= i < |ranges| && Within(ranges[k := r][i], t);
      assert i != k ==> Within(ranges[i], t);
    }
  }

  /** Two ranges that touch or overlap cover together what their hull covers. */
  lemma MergeOneCovers(merged: seq<Range>, r: Range, t: int)
    requires Upright(merged) && r.start <= r.end
    requires |merged| > 0 ==> merged[|merged| - 1].start <= r.start
    ensures Covers(MergeOne(merged, r), t) <==> Covers(merged, t) || Within(r, t)
    ensures Upright(MergeOne(merged, r))
  {
    if |merged| == 0 || r.start > Wrap64(merged[|merged| - 1].end + 1) {
      CoversOne(merged, r, t);
    } else {
      var back := |merged| - 1;
      var hull := merged[back].(end := Max(merged[back].end, r.end));
      CoversUpdate(merged, back, hull, t);
      if Within(hull, t) && !Within(r, t) {
        assert Within(merged[back], t);
      }
    }
  }

  lemma {:induction false} MergedCovers(sorted: seq<Range>, t: int)
    requires StartsInOrder(sorted) && Upright(sorted)
    ensures Covers(Merged(sorted), t) <==> Covers(sorted, t)
    ensures Upright(Merged(sorted)) && (|sorted| > 0 <==> |Merged(sorted)| > 0)
    ensures |sorted| > 0 ==> Merged(sorted)[|Merged(sorted)| - 1].start <= sorted[|sorted| - 1].start
    decreases |sorted|
  {
    if |sorted| > 0 {
      var before, last := sorted[..|sorted| - 1], sorted[|sorted| - 1];
      MergedCovers(before, t);
      MergeOneCovers(Merged(before), last, t);
      CoversOne(before, last, t);
      assert sorted == before + [last];
    }
  }

  // ----- when the merged ranges are canonical

  /** A range that ends at the largest time comes before one that does not start at zero: the wrapped
      sum `end + 1` then hides that they overlap. */
  ghost predicate Wraps(sorted: seq<Range>) {
    exists i, j :: 0 <= i < j < |sorted| && sorted[i].end == MAX_64 && sorted[j].start > 0
  }

  lemma ReachesMax(ranges: seq<Range>)
    requires Upright(ranges)
    ensures Covers(ranges, MAX_64) <==> exists i :: 0 <= i < |ranges| && ranges[i].end == MAX_64
  {
    if i :| 0 <= i < |ranges| && ranges[i].end == MAX_64 {
      assert Within(ranges[i], MAX_64);
    }
  }

  lemma CanonicalAscends(ranges: seq<Range>, i: nat, j: nat)
    requires Canonical(ranges) && i < j < |ranges|
    ensures ranges[i].end + 1 < ranges[j].start
    decreases j
  {
    if i < j - 1 {
      CanonicalAscends(ranges, i, j - 1);
    }
  }

  lemma CanonicalMax(ranges: seq<Range>)
    requires Canonical(ranges) && |ranges| > 0
    ensures Covers(ranges, MAX_64) <==> ranges[|ranges| - 1].end == MAX_64
  {
    var back := |ranges| - 1;
    if ranges[back].end == MAX_64 {
      assert Within(ranges[back], MAX_64);
    }
    if Covers(ranges, MAX_64) {
      var i :| 0 <= i < |ranges| && Within(ranges[i], MAX_64);
      if i < back {
        CanonicalAscends(ranges, i, back);
      }
    }
  }

  lemma MergeOneCanonical(merged: seq<Range>, r: Range)
    requires Upright(merged) && r.start <= r.end
    requires |merged| > 0 ==> merged[|merged| - 1].start <= r.start
    ensures Canonical(MergeOne(merged, r)) <==>
      Canonical(merged) && (|merged| > 0 && merged[|merged| - 1].end == MAX_64 ==> r.start == 0)
  {
    var after := MergeOne(merged, r);
    assert forall i | 0 <= i < |merged| - 1 :: after[i] == merged[i];
    if |merged| > 0 {
      assert after[|merged| - 1].start == merged[|merged| - 1].start;
      if !Canonical(merged) {
        var i :| 0 < i < |merged| && !(merged[i - 1].end + 1 < merged[i].start);
        assert !(after[i - 1].end + 1 < after[i].start);
      }
      if |after| > |merged| {
        assert after[|merged|] == r && after[|merged| - 1] == merged[|merged| - 1];
      }
    }
  }

  lemma WrapsOne(before: seq<Range>, last: Range)
    requires Upright(before)
    ensures Wraps(before + [last]) <==> Wraps(before) || (Covers(before, MAX_64) && last.start > 0)
  {
    var all := before + [last];
    ReachesMax(before);
    assert all[|before|] == last && forall i | 0 <= i < |before| :: all[i] == before[i];
    if Wraps(before) {
      var i, j :| 0 <= i < j < |before| && before[i].end == MAX_64 && before[j].start > 0;
      assert all[i].end == MAX_64 && all[j].start > 0;
    }
    if Covers(before, MAX_64) && last.start > 0 {
      var i :| 0 <= i < |before| && before[i].end == MAX_64;
      assert all[i].end == MAX_64 && all[|before|].start > 0;
    }
  }

  lemma CanonicalOne(before: seq<Range>, last: Range)
    requires StartsInOrder(before) && (|before| > 0 ==> before[|before| - 1].start <= last.start)
    requires Upright(before) && last.start <= last.end
    requires Canonical(Merged(before)) <==> !Wraps(before)
    ensures Canonical(MergeOne(Merged(before), last)) <==> !Wraps(before + [last])
  {
    MergedCovers(before, MAX_64);
    WrapsOne(before, last);
    CanonicalStep(Merged(before), last);
  }

  /** The merged ranges are canonical except exactly when a range that ends at 2^64 - 1 is followed
      by one that starts after zero. */
  lemma {:induction false} CanonicalExactly(sorted: seq<Range>)
    requires StartsInOrder(sorted) && Upright(sorted)
    ensures Canonical(Merged(sorted)) <==> !Wraps(sorted)
    decreases |sorted|
  {
    if |sorted| > 0 {
      var before, last := sorted[..|sorted| - 1], sorted[|sorted| - 1];
      assert sorted == before + [last];
      CanonicalExactly(before);
      CanonicalOne(before, last);
    }
  }

  /** Given the ranges merged so far, the next one breaks the form only if the wrapped sum hides it. */
  lemma CanonicalStep(merged: seq<Range>, last: Range)
    requires Upright(merged) && last.start <= last.end
    requires |merged| > 0 ==> merged[|merged| - 1].start <= last.start
    ensures Canonical(MergeOne(merged, last))
        <==> Canonical(merged) && !(Covers(merged, MAX_64) && last.start > 0)
  {
    MergeOneCanonical(merged, last);
    if Canonical(merged) && |merged| > 0 {
      CanonicalMax(merged);
    }
  }

  // ----- canonical ranges are determined by what they cover

  ghost predicate SameCover(a: seq<Range>, b: seq<Range>) {
    forall t: int :: Covers(a, t) <==> Covers(b, t)
  }

  lemma StartIsLeast(ranges: seq<Range>, t: int)
    requires Canonical(ranges) && |ranges| > 0 && Covers(ranges, t)
    ensures ranges[0].start <= t
    ensures t <= ranges[0].end || ranges[0].end + 1 < t
  {
    var i :| 0 <= i < |ranges| && Within(ranges[i], t);
    if i > 0 {
      CanonicalAscends(ranges, 0, i);
    }
  }

  lemma TailCovers(ranges: seq<Range>, t: int)
    requires Canonical(ranges) && |ranges| > 0
    ensures Covers(ranges[1..], t) <==> Covers(ranges, t) && t > ranges[0].end
  {
    if Covers(ranges[1..], t) {
      var i :| 0 <= i < |ranges[1..]| && Within(ranges[1..][i], t);
      assert Within(ranges[i + 1], t);
      CanonicalAscends(ranges, 0, i + 1);
    }
    if Covers(ranges, t) && t > ranges[0].end {
      var i :| 0 <= i < |ranges| && Within(ranges[i], t);
      assert Within(ranges[1..][i - 1], t);
    }
  }

  lemma SameHead(a: seq<Range>, b: seq<Range>)
    requires Canonical(a) && Canonical(b) && SameCover(a, b) && |a| > 0
    ensures |b| > 0 && b[0].start <= a[0].start && b[0].end >= a[0].end
  {
    assert Within(a[0], a[0].start);
    assert Covers(a, a[0].start) && Covers(b, a[0].start);
    StartIsLeast(b, a[0].start);
    assert Within(b[0], b[0].start);
    assert Covers(b, b[0].start) && Covers(a, b[0].start);
    StartIsLeast(a, b[0].start);
    if b[0].end < a[0].end {
      var t := b[0].end + 1;
      assert Within(a[0], t);
      assert Covers(a, t) && Covers(b, t);
      StartIsLeast(b, t);
    }
  }

  /** Two canonical sets with the same members hold the same ranges. */
  lemma {:induction false} CanonicalUnique(a: seq<Range>, b: seq<Range>)
    requires Canonical(a) && Canonical(b) && SameCover(a, b)
    ensures a == b
    decreases |a|
  {
    if |a| == 0 {
      if |b| > 0 {
        SameHead(b, a);
      }
    } else {
      SameHead(a, b);
      SameHead(b, a);
      assert a[0] == b[0];
      forall t: int
        ensures Covers(a[1..], t) <==> Covers(b[1..], t)
      {
        TailCovers(a, t);
        TailCovers(b, t);
      }
      CanonicalUnique(a[1..], b[1..]);
      assert a == [a[0]] + a[1..] && b == [b[0]] + b[1..];
    }
  }

  // ----- every run of additions

  /** `states` runs from an empty set through the additions of `added`, in order. */
  ghost predicate IsRun(states: seq<seq<Range>>, added: seq<Range>) {
    && |states| == |added| + 1
    && states[0] == []
    && forall i | 0 <= i < |added| :: Adds(states[i], added[i], states[i + 1])
  }

  lemma SameElementsCover(a: seq<Range>, b: seq<Range>, t: int)
    requires multiset(a) == multiset(b)
    ensures Covers(a, t) <==> Covers(b, t)
    ensures Upright(a) <==> Upright(b)
  {
    assert forall r :: r in a <==> r in multiset(a);
    assert forall r :: r in b <==> r in multiset(b);
    assert forall i | 0 <= i < |a| :: a[i] in b;
    assert forall i | 0 <= i < |b| :: b[i] in a;
  }

  lemma TurnedBetween(r: Range, t: int)
    ensures Turned(r).start <= Turned(r).end && (Within(Turned(r), t) <==> Between(r, t))
  {
  }

  lemma UprightOne(ranges: seq<Range>, r: Range)
    requires Upright(ranges) && r.start <= r.end
    ensures Upright(ranges + [r])
  {
  }

  lemma AddCovers(ranges: seq<Range>, r: Range, after: seq<Range>, t: int)
    requires Upright(ranges) && Adds(ranges, r, after)
    ensures Covers(after, t) <==> Covers(ranges, t) || Between(r, t)
    ensures Upright(after)
  {
    var sorted :| IsSort(sorted, ranges + [Turned(r)], ByStart) && after == Merged(sorted);
    TurnedBetween(r, t);
    UprightOne(ranges, Turned(r));
    SortedCovers(sorted, ranges + [Turned(r)], t);
    CoversOne(ranges, Turned(r), t);
  }

  lemma SortedCovers(sorted: seq<Range>, ranges: seq<Range>, t: int)
    requires Upright(ranges) && IsSort(sorted, ranges, ByStart)
    ensures Covers(Merged(sorted), t) <==> Covers(ranges, t)
    ensures Upright(Merged(sorted))
  {
    SortedStarts(sorted);
    SameElementsCover(sorted, ranges, t);
    MergedCovers(sorted, t);
  }

  /** A time is in the set after any additions just when it lies in one of the added ranges. */
  lemma {:induction false} RunCovers(states: seq<seq<Range>>, added: seq<Range>, t: int)
    requires IsRun(states, added)
    ensures Covers(states[|added|], t) <==> exists i :: 0 <= i < |added| && Between(added[i], t)
    ensures Upright(states[|added|])
    decreases |added|
  {
    if |added| > 0 {
      var n := |added| - 1;
      assert added[..n] == added[..|added| - 1];
      RunCovers(states[..|added|], added[..n], t);
      assert states[..|added|][n] == states[n];
      AddCovers(states[n], added[n], states[|added|], t);
      assert forall i | 0 <= i < n :: added[..n][i] == added[i];
    }
  }

  predicate EndsBelowMax(ranges: seq<Range>) {
    forall i | 0 <= i < |ranges| :: Max(ranges[i].start, ranges[i].end) < MAX_64
  }

  lemma AddCanonical(ranges: seq<Range>, r: Range, after: seq<Range>)
    requires Canonical(ranges) && Adds(ranges, r, after) && Max(r.start, r.end) < MAX_64 && !Covers(ranges, MAX_64)
    ensures Canonical(after) && !Covers(after, MAX_64)
  {
    var sorted :| IsSort(sorted, ranges + [Turned(r)], ByStart) && after == Merged(sorted);
    SortedStarts(sorted);
    SameElementsCover(sorted, ranges + [Turned(r)], MAX_64);
    CoversOne(ranges, Turned(r), MAX_64);
    CanonicalExactly(sorted);
    ReachesMax(sorted);
    MergedCovers(sorted, MAX_64);
  }

  /** After any additions of ranges that end below 2^64 - 1 the set is canonical. */
  lemma {:induction false} RunCanonical(states: seq<seq<Range>>, added: seq<Range>)
    requires IsRun(states, added) && EndsBelowMax(added)
    ensures Canonical(states[|added|]) && !Covers(states[|added|], MAX_64)
    decreases |added|
  {
    if |added| > 0 {
      var n := |added| - 1;
      RunCanonical(states[..|added|], added[..n]);
      assert states[..|added|][n] == states[n];
      AddCanonical(states[n], added[n], states[|added|]);
    }
  }

  /** The order in which ranges are added, and repeats among them, leave no trace. */
  lemma OrderIrrelevant(
    states: seq<seq<Range>>, added: seq<Range>, others: seq<seq<Range>>, again: seq<Range>)
    requires IsRun(states, added) && IsRun(others, again) && EndsBelowMax(added) && EndsBelowMax(again)
    requires forall r :: r in added <==> r in again
    ensures states[|added|] == others[|again|]
  {
    RunCanonical(states, added);
    RunCanonical(others, again);
    forall t: int
      ensures Covers(states[|added|], t) <==> Covers(others[|again|], t)
    {
      RunCovers(states, added, t);
      RunCovers(others, again, t);
      assert forall i | 0 <= i < |added| :: added[i] in again;
      assert forall i | 0 <= i < |again| :: again[i] in added;
    }
    CanonicalUnique(states[|added|], others[|again|]);
  }

  // ----- and when it is not

  lemma AddsSorted(ranges: seq<Range>, r: Range)
    requires r.start <= r.end && Sorted(ranges + [r], ByStart)
    ensures Adds(ranges, r, Merged(ranges + [r]))
  {
    assert IsSort(ranges + [r], ranges + [Turned(r)], ByStart);
  }

  lemma MergedTwo(a: Range, b: Range)
    ensures Merged([a]) == [a] && Merged([a] + [b]) == MergeOne([a], b)
  {
    assert [a][..0] == [] && ([a] + [b])[..1] == [a];
  }

  lemma AddsFirst(a: Range)
    requires a.start <= a.end
    ensures Adds([], a, [a])
  {
    assert [] + [a] == [a];
    AddsSorted([], a);
    MergedTwo(a, a);
  }

  lemma AddsHidden(a: Range, b: Range)
    requires a.end == MAX_64 && a.start < b.start <= b.end
    ensures Adds([a], b, [a] + [b])
  {
    assert Wrap64(a.end + 1) == 0;
    AddsSorted([a], b);
    MergedTwo(a, b);
  }

  lemma RunOfTwo(a: Range, one: seq<Range>, b: Range, two: seq<Range>)
    requires Adds([], a, one) && Adds(one, b, two)
    ensures IsRun([[], one, two], [a, b])
  {
    var states: seq<seq<Range>> := [[], one, two];
    assert states[0] == [] && states[1] == one && states[2] == two;
  }

  lemma NotCanonical(a: Range, b: Range)
    requires a.end + 1 >= b.start
    ensures !Canonical([a] + [b])
  {
    var both := [a] + [b];
    assert both[0] == a && both[1] == b;
  }

  /** A range up to 2^64 - 1, and then any that starts later: the set holds both, though they overlap. */
  lemma OverlapIsReachable(a: Range, b: Range)
    requires a.end == MAX_64 && a.start < b.start <= b.end
    ensures IsRun([[], [a], [a] + [b]], [a, b]) && !Canonical([a] + [b])
  {
    AddsFirst(a);
    AddsHidden(a, b);
    RunOfTwo(a, [a], b, [a] + [b]);
    NotCanonical(a, b);
  }
}
