/** The occupied width counts frequencies, and merging loses none. */
module SweepTheorems {
  import opened Words
  import opened Sorting
  import opened Sweep

  // ----- the occupied width

  ghost predicate Covered(ranges: seq<FrequencyRange>, f: int) {
    exists i :: 0 <= i < |ranges| && ranges[i].Contains(f)
  }

  /** Every frequency that some range contains. */
  ghost function Frequencies(ranges: seq<FrequencyRange>): set<int>
    decreases |ranges|
  {
    if |ranges| == 0 then {} else
      var n := |ranges| - 1;
      Frequencies(ranges[..n]) + Stretch(ranges[n].lower, ranges[n].upper)
  }

  ghost function Stretch(a: int, b: int): (r: set<int>)
    ensures forall f :: f in r <==> a <= f < b
    decreases b - a
  {
    if a >= b then {} else Stretch(a, b - 1) + {b - 1}
  }

  lemma {:induction false} FrequenciesAre(ranges: seq<FrequencyRange>, f: int)
    ensures f in Frequencies(ranges) <==> Covered(ranges, f)
    decreases |ranges|
  {
    if |ranges| > 0 {
      var n := |ranges| - 1;
      FrequenciesAre(ranges[..n], f);
      if Covered(ranges[..n], f) {
        var i :| 0 <= i < n && ranges[..n][i].Contains(f);
        assert ranges[i].Contains(f);
      }
      if Covered(ranges, f) {
        var i :| 0 <= i < |ranges| && ranges[i].Contains(f);
        assert i < n ==> ranges[..n][i].Contains(f);
      }
    }
  }

  lemma {:induction false} StretchSize(a: int, b: int)
    requires a <= b
    ensures |Stretch(a, b)| == b - a
    decreases b - a
  {
    if a < b {
      StretchSize(a, b - 1);
    }
  }

  /** What has been counted, and what has been covered below the growing stretch. */
  ghost predicate Tallied(ranges: seq<FrequencyRange>, below: set<int>, t: Tally) {
    && t.total == |below|
    && Frequencies(ranges) == below + Stretch(t.current.lower, t.current.upper)
    && (forall f | f in below :: 0 <= f < t.current.lower)
    && (t.current.Empty() ==> below == {})
  }

  lemma SizeBelow(below: set<int>, limit: nat)
    requires forall f | f in below :: 0 <= f < limit
    ensures |below| <= limit
  {
    StretchSize(0, limit);
    assert Stretch(0, limit) == below + (Stretch(0, limit) - below);
    DisjointSize(below, Stretch(0, limit) - below);
  }

  lemma DisjointSize(a: set<int>, b: set<int>)
    requires a !! b
    ensures |a + b| == |a| + |b|
  {
  }

  /** Closing the growing stretch adds its width, without saturating. */
  lemma CloseStretch(below: set<int>, current: FrequencyRange, total: uint64)
    requires total == |below| && !current.Empty() && forall f | f in below :: 0 <= f < current.lower
    ensures SafeAdd(total, current.Width()) == |below + Stretch(current.lower, current.upper)|
  {
    SizeBelow(below, current.lower);
    StretchSize(current.lower, current.upper);
    DisjointSize(below, Stretch(current.lower, current.upper));
  }

  lemma FrequenciesOne(before: seq<FrequencyRange>, range: FrequencyRange)
    ensures Frequencies(before + [range]) == Frequencies(before) + Stretch(range.lower, range.upper)
  {
    assert (before + [range])[..|before|] == before;
  }

  /** A range that touches the growing stretch extends it. */
  lemma Extends(current: FrequencyRange, range: FrequencyRange)
    requires !current.Empty() && !range.Empty() && current.lower <= range.lower
    requires current.Overlaps(range) || current.upper == range.lower
    ensures var hull := Merge(current, range);
      Stretch(hull.lower, hull.upper) == Stretch(current.lower, current.upper) + Stretch(range.lower, range.upper)
  {
  }

  lemma GrowStep(before: seq<FrequencyRange>, below: set<int>, t: Tally, range: FrequencyRange)
    requires Tallied(before, below, t) && !t.current.Empty() && !range.Empty() && t.current.lower <= range.lower
    requires t.current.Overlaps(range) || t.current.upper == range.lower
    ensures Tallied(before + [range], below, t.(current := Merge(t.current, range)))
  {
    FrequenciesOne(before, range);
    Extends(t.current, range);
    UnionAssociates(below, Stretch(t.current.lower, t.current.upper), Stretch(range.lower, range.upper));
    HullStarts(t.current, range);
  }

  lemma UnionAssociates(a: set<int>, b: set<int>, c: set<int>)
    ensures a + b + c == a + (b + c)
  {
  }

  lemma HullStarts(current: FrequencyRange, range: FrequencyRange)
    requires !current.Empty() && !range.Empty() && current.lower <= range.lower
    ensures Merge(current, range).lower == current.lower && !Merge(current, range).Empty()
  {
  }

  lemma ApartStep(before: seq<FrequencyRange>, below: set<int>, t: Tally, range: FrequencyRange)
    requires Tallied(before, below, t) && !t.current.Empty() && !range.Empty() && t.current.upper < range.lower
    ensures Tallied(before + [range], below + Stretch(t.current.lower, t.current.upper),
              Tally(SafeAdd(t.total, t.current.Width()), range))
  {
    FrequenciesOne(before, range);
    CloseStretch(below, t.current, t.total);
  }

  lemma StartStep(before: seq<FrequencyRange>, below: set<int>, t: Tally, range: FrequencyRange)
    requires Tallied(before, below, t) && t.current.Empty() && !range.Empty()
    ensures Tallied(before + [range], below, t.(current := range))
  {
    FrequenciesOne(before, range);
    assert Stretch(t.current.lower, t.current.upper) == {};
  }

  lemma SkipStep(before: seq<FrequencyRange>, below: set<int>, t: Tally, range: FrequencyRange)
    requires Tallied(before, below, t) && range.Empty()
    ensures Tallied(before + [range], below, t)
  {
    FrequenciesOne(before, range);
    assert Stretch(range.lower, range.upper) == {};
  }

  lemma CountedStep(before: seq<FrequencyRange>, below: set<int>, t: Tally, range: FrequencyRange)
    returns (beyond: set<int>)
    requires Tallied(before, below, t)
    requires !t.current.Empty() ==> t.current.lower <= range.lower
    ensures Tallied(before + [range], beyond, Counted(t, range))
  {
    beyond := below;
    if range.Empty() {
      SkipStep(before, below, t, range);
    } else if t.current.Empty() {
      StartStep(before, below, t, range);
    } else if t.current.Overlaps(range) || t.current.upper == range.lower {
      GrowStep(before, below, t, range);
    } else {
      ApartStep(before, below, t, range);
      beyond := below + Stretch(t.current.lower, t.current.upper);
    }
  }

  lemma CountedStarts(t: Tally, range: FrequencyRange)
    requires !t.current.Empty() ==> t.current.lower <= range.lower
    ensures !Counted(t, range).current.Empty() ==> Counted(t, range).current.lower <= range.lower
  {
  }

  predicate LowersInOrder(ranges: seq<FrequencyRange>) {
    forall i, j | 0 <= i < j < |ranges| :: ranges[i].lower <= ranges[j].lower
  }

  lemma {:induction false} CountedTallies(ranges: seq<FrequencyRange>) returns (below: set<int>)
    requires LowersInOrder(ranges)
    ensures Tallied(ranges, below, CountedAll(ranges))
    ensures !CountedAll(ranges).current.Empty() ==>
      |ranges| > 0 && CountedAll(ranges).current.lower <= ranges[|ranges| - 1].lower
    decreases |ranges|
  {
    if |ranges| == 0 {
      below := {};
      assert Stretch(NOWHERE.lower, NOWHERE.upper) == {};
    } else {
      var n := |ranges| - 1;
      var earlier := CountedTallies(ranges[..n]);
      assert ranges == ranges[..n] + [ranges[n]];
      below := CountedStep(ranges[..n], earlier, CountedAll(ranges[..n]), ranges[n]);
      CountedStarts(CountedAll(ranges[..n]), ranges[n]);
    }
  }

  lemma SameRanges(a: seq<FrequencyRange>, b: seq<FrequencyRange>)
    requires multiset(a) == multiset(b)
    ensures Frequencies(a) == Frequencies(b)
  {
    forall f
      ensures f in Frequencies(a) <==> f in Frequencies(b)
    {
      FrequenciesAre(a, f);
      FrequenciesAre(b, f);
      assert forall r :: (r in a <==> r in multiset(a)) && (r in b <==> r in multiset(b));
      assert (forall i | 0 <= i < |a| :: a[i] in b) && forall i | 0 <= i < |b| :: b[i] in a;
    }
  }

  /** The occupied width is the number of different frequencies the ranges contain, whatever order
      the sort leaves equal ranges in; the saturating sum never saturates. */
  lemma WidthCountsFrequencies(ranges: seq<FrequencyRange>, sorted: seq<FrequencyRange>)
    requires IsSort(sorted, ranges, ByLower)
    ensures Closing(CountedAll(sorted)) == |Frequencies(ranges)|
  {
    forall i, j | 0 <= i < j < |sorted|
      ensures sorted[i].lower <= sorted[j].lower
    {
      assert !Less(ByLower(sorted[j]), ByLower(sorted[i]));
    }
    SameRanges(sorted, ranges);
    var below := CountedTallies(sorted);
    var t := CountedAll(sorted);
    if !t.current.Empty() {
      CloseStretch(below, t.current, t.total);
    } else {
      assert Stretch(t.current.lower, t.current.upper) == {};
    }
  }

  // ----- merging

  ghost predicate Reaches(segments: seq<Segment>, f: int) {
    exists i :: 0 <= i < |segments| && segments[i].range.Contains(f)
  }

  predicate InGap(left: Segment, right: Segment, binWidth: uint64, f: int) {
    left.range.upper <= f < right.range.lower && right.range.lower - left.range.upper <= 2 * binWidth
  }

  /** `f` lies between two segments of one priority and intent, at most two bins of a third apart. */
  ghost predicate Bridged(segments: seq<Segment>, f: int) {
    exists i, j, k ::
      && 0 <= i < |segments| && 0 <= j < |segments| && 0 <= k < |segments|
      && Bridge(segments[i], segments[j], segments[k], f)
  }

  predicate Bridge(left: Segment, right: Segment, first: Segment, f: int) {
    InGap(left, right, first.binWidth, f) && Kin(left, right) && Kin(first, right)
  }

  predicate Kin(a: Segment, b: Segment) {
    a.priority == b.priority && a.intent == b.intent
  }

  /** `s` starts where one of `segments` does, with its bin width, and ends where another ends. */
  ghost predicate SpannedBy(s: Segment, segments: seq<Segment>) {
    && !s.range.Empty()
    && (exists i :: 0 <= i < |segments| && StartsLike(s, segments[i]))
    && (exists j :: 0 <= j < |segments| && EndsLike(s, segments[j]))
  }

  predicate StartsLike(s: Segment, first: Segment) {
    Kin(first, s) && s.range.lower == first.range.lower && s.binWidth == first.binWidth
  }

  predicate EndsLike(s: Segment, last: Segment) {
    Kin(last, s) && s.range.upper == last.range.upper
  }

  predicate InOrder(segments: seq<Segment>) {
    Sorted(segments, ByPriority)
  }

  lemma ReachesOne(segments: seq<Segment>, s: Segment, f: int)
    ensures Reaches(segments + [s], f) <==> Reaches(segments, f) || s.range.Contains(f)
  {
    var all := segments + [s];
    assert all[|segments|] == s;
    if Reaches(segments, f) {
      var i :| 0 <= i < |segments| && segments[i].range.Contains(f);
      assert all[i].range.Contains(f);
    }
    if Reaches(all, f) {
      var i :| 0 <= i < |all| && all[i].range.Contains(f);
      assert i < |segments| ==> segments[i].range.Contains(f);
    }
  }

  lemma ReachesBack(segments: seq<Segment>, f: int)
    requires |segments| > 0
    ensures var n := |segments| - 1;
      Reaches(segments, f) <==> Reaches(segments[..n], f) || segments[n].range.Contains(f)
  {
    var n := |segments| - 1;
    assert segments == segments[..n] + [segments[n]];
    ReachesOne(segments[..n], segments[n], f);
  }

  lemma BridgedMore(before: seq<Segment>, last: Segment, f: int)
    requires Bridged(before, f)
    ensures Bridged(before + [last], f)
  {
    var i, j, k :|
      && 0 <= i < |before| && 0 <= j < |before| && 0 <= k < |before|
      && Bridge(before[i], before[j], before[k], f);
    var all := before + [last];
    assert Bridge(all[i], all[j], all[k], f);
  }

  lemma SpannedMore(s: Segment, before: seq<Segment>, last: Segment)
    requires SpannedBy(s, before)
    ensures SpannedBy(s, before + [last])
  {
    var all := before + [last];
    var i :| 0 <= i < |before| && StartsLike(s, before[i]);
    var j :| 0 <= j < |before| && EndsLike(s, before[j]);
    assert StartsLike(s, all[i]) && EndsLike(s, all[j]);
  }

  lemma SpannedNew(before: seq<Segment>, last: Segment)
    requires !last.range.Empty()
    ensures SpannedBy(last, before + [last])
  {
    assert (before + [last])[|before|] == last;
    assert StartsLike(last, (before + [last])[|before|]) && EndsLike(last, (before + [last])[|before|]);
  }

  lemma SpannedMerged(back: Segment, before: seq<Segment>, last: Segment)
    requires SpannedBy(back, before) && !last.range.Empty() && Kin(back, last)
    requires back.range.lower <= last.range.lower
    ensures SpannedBy(MergedSegment(back, last), before + [last])
  {
    SpannedMore(back, before, last);
    var all := before + [last];
    var s := MergedSegment(back, last);
    var i :| 0 <= i < |all| && StartsLike(back, all[i]);
    var j :| 0 <= j < |all| && EndsLike(back, all[j]);
    assert StartsLike(s, all[i]);
    assert all[|before|] == last;
    assert if back.range.upper >= last.range.upper then EndsLike(s, all[j]) else EndsLike(s, all[|before|]);
  }

  /** Within one priority, segments come in ascending order of their lower ends. */
  lemma BackStartsBefore(back: Segment, before: seq<Segment>, last: Segment)
    requires SpannedBy(back, before) && InOrder(before + [last]) && Kin(back, last)
    ensures back.range.lower <= last.range.lower
  {
    var all := before + [last];
    var i :| 0 <= i < |before| && StartsLike(back, before[i]);
    assert all[i] == before[i] && all[|before|] == last;
    assert !Less(ByPriority(all[|before|]), ByPriority(all[i]));
  }

  /** Merging two segments fills at most the gap between them. */
  lemma MergedReaches(back: Segment, last: Segment, span: uint64, f: int)
    requires !back.range.Empty() && !last.range.Empty() && CanMerge(back, last, span)
    requires back.range.lower <= last.range.lower
    ensures back.range.Contains(f) || last.range.Contains(f) ==> MergedSegment(back, last).range.Contains(f)
    ensures MergedSegment(back, last).range.Contains(f) ==>
      back.range.Contains(f) || last.range.Contains(f) || InGap(back, last, back.binWidth, f)
  {
  }

  lemma GapIsBridged(back: Segment, before: seq<Segment>, last: Segment, f: int)
    requires SpannedBy(back, before) && Kin(back, last) && InGap(back, last, back.binWidth, f)
    ensures Bridged(before + [last], f)
  {
    var all := before + [last];
    var i :| 0 <= i < |before| && EndsLike(back, before[i]);
    var k :| 0 <= k < |before| && StartsLike(back, before[k]);
    assert all[i] == before[i] && all[k] == before[k] && all[|before|] == last;
    assert Bridge(all[i], all[|before|], all[k], f);
  }

  /** What the merging loop keeps about the segments read so far and those kept. */
  ghost predicate Kept(segments: seq<Segment>, merged: seq<Segment>, f: int) {
    && (Reaches(segments, f) ==> Reaches(merged, f))
    && (Reaches(merged, f) ==> Reaches(segments, f) || Bridged(segments, f))
    && (|merged| > 0 ==> SpannedBy(merged[|merged| - 1], segments))
  }

  /** Replacing the last kept segment by the merged one adds what that one reaches. */
  lemma MergedBackReaches(merged: seq<Segment>, s: Segment, f: int)
    requires |merged| > 0
    requires merged[|merged| - 1].range.Contains(f) ==> s.range.Contains(f)
    ensures Reaches(merged[|merged| - 1 := s], f) <==> Reaches(merged, f) || s.range.Contains(f)
  {
    var after := merged[|merged| - 1 := s];
    ReachesBack(merged, f);
    ReachesBack(after, f);
    assert after[..|merged| - 1] == merged[..|merged| - 1];
  }

  lemma MergeKeeps(before: seq<Segment>, merged: seq<Segment>, last: Segment, span: uint64, f: int)
    requires Kept(before, merged, f) && InOrder(before + [last]) && !last.range.Empty()
    requires |merged| > 0 && CanMerge(merged[|merged| - 1], last, span)
    ensures Kept(before + [last], merged[|merged| - 1 := MergedSegment(merged[|merged| - 1], last)], f)
  {
    var back := merged[|merged| - 1];
    BackStartsBefore(back, before, last);
    SpannedMerged(back, before, last);
    MergedReaches(back, last, span, f);
    ReachesOne(before, last, f);
    ReachesBack(merged, f);
    MergedBackReaches(merged, MergedSegment(back, last), f);
    if Bridged(before, f) {
      BridgedMore(before, last, f);
    }
    if InGap(back, last, back.binWidth, f) {
      GapIsBridged(back, before, last, f);
    }
  }

  lemma AppendKeeps(before: seq<Segment>, merged: seq<Segment>, last: Segment, f: int)
    requires Kept(before, merged, f) && !last.range.Empty()
    ensures Kept(before + [last], merged + [last], f)
  {
    ReachesOne(before, last, f);
    ReachesOne(merged, last, f);
    if Bridged(before, f) {
      BridgedMore(before, last, f);
    }
    SpannedNew(before, last);
  }

  lemma SkipKeeps(before: seq<Segment>, merged: seq<Segment>, last: Segment, f: int)
    requires Kept(before, merged, f) && last.range.Empty()
    ensures Kept(before + [last], merged, f)
  {
    ReachesOne(before, last, f);
    if Bridged(before, f) {
      BridgedMore(before, last, f);
    }
    if |merged| > 0 {
      SpannedMore(merged[|merged| - 1], before, last);
    }
  }

  lemma PassKeepsOne(before: seq<Segment>, merged: seq<Segment>, last: Segment, span: uint64, f: int)
    requires Kept(before, merged, f) && InOrder(before + [last])
    ensures Kept(before + [last], PassOne(merged, last, span), f)
  {
    if last.range.Empty() {
      SkipKeeps(before, merged, last, f);
    } else if |merged| > 0 && CanMerge(merged[|merged| - 1], last, span) {
      MergeKeeps(before, merged, last, span, f);
    } else {
      AppendKeeps(before, merged, last, f);
    }
  }

  lemma {:induction false} PassKeeps(segments: seq<Segment>, span: uint64, f: int)
    requires InOrder(segments)
    ensures Kept(segments, Pass(segments, span), f)
    decreases |segments|
  {
    if |segments| > 0 {
      var n := |segments| - 1;
      PassKeeps(segments[..n], span, f);
      assert segments == segments[..n] + [segments[n]];
      PassKeepsOne(segments[..n], Pass(segments[..n], span), segments[n], span, f);
    }
  }

  lemma SameSegments(a: seq<Segment>, b: seq<Segment>)
    requires multiset(a) == multiset(b)
    ensures forall s :: s in a <==> s in b
  {
    assert forall s :: (s in a <==> s in multiset(a)) && (s in b <==> s in multiset(b));
  }

  lemma SameReach(a: seq<Segment>, b: seq<Segment>, f: int)
    requires forall s :: s in a <==> s in b
    ensures Reaches(a, f) ==> Reaches(b, f)
    ensures Bridged(a, f) ==> Bridged(b, f)
  {
    if Reaches(a, f) {
      var i :| 0 <= i < |a| && a[i].range.Contains(f);
      assert a[i] in b;
    }
    if Bridged(a, f) {
      var i, j, k :|
        && 0 <= i < |a| && 0 <= j < |a| && 0 <= k < |a|
        && Bridge(a[i], a[j], a[k], f);
      assert a[i] in b && a[j] in b && a[k] in b;
      var x :| 0 <= x < |b| && b[x] == a[i];
      var y :| 0 <= y < |b| && b[y] == a[j];
      var z :| 0 <= z < |b| && b[z] == a[k];
      assert Bridge(b[x], b[y], b[z], f);
    }
  }

  /** Optimising a plan loses no frequency, and adds only frequencies between two of its segments that
      are at most two bins apart. */
  lemma OptimizeKeepsFrequencies(segments: seq<Segment>, receiver: Receiver, plan: Plan, f: int)
    requires Optimizes(segments, receiver, plan)
    ensures Reaches(segments, f) ==> Reaches(plan.segments, f)
    ensures Reaches(plan.segments, f) ==> Reaches(segments, f) || Bridged(segments, f)
  {
    var sorted :| IsSort(sorted, segments, ByPriority) && plan.segments == Pass(sorted, EffectiveSpan(receiver));
    PassKeeps(sorted, EffectiveSpan(receiver), f);
    SameSegments(sorted, segments);
    SameReach(sorted, segments, f);
    SameReach(segments, sorted, f);
  }

  /** Every segment of the pass is one it was given, or no wider than the effective span. */
  lemma {:induction false} PassWithinSpan(segments: seq<Segment>, span: uint64, s: Segment)
    requires s in Pass(segments, span)
    ensures s in segments || s.range.Width() <= span
    decreases |segments|
  {
    var n := |segments| - 1;
    var merged := Pass(segments[..n], span);
    if s in merged {
      PassWithinSpan(segments[..n], span, s);
    } else {
      assert s == segments[n] || s == MergedSegment(merged[|merged| - 1], segments[n]);
    }
  }

  lemma OptimizeWithinSpan(segments: seq<Segment>, receiver: Receiver, plan: Plan, s: Segment)
    requires Optimizes(segments, receiver, plan) && s in plan.segments
    ensures s in segments || s.range.Width() <= EffectiveSpan(receiver)
  {
    var sorted :| IsSort(sorted, segments, ByPriority) && plan.segments == Pass(sorted, EffectiveSpan(receiver));
    PassWithinSpan(sorted, EffectiveSpan(receiver), s);
    SameSegments(sorted, segments);
  }

  /** The reported coverage is the number of frequencies the plan's segments contain. */
  lemma OptimizeCountsFrequencies(segments: seq<Segment>, receiver: Receiver, plan: Plan)
    requires Optimizes(segments, receiver, plan)
    ensures plan.covered == |Frequencies(Ranges(plan.segments))|
  {
    var ranges :| IsSort(ranges, Ranges(plan.segments), ByLower) && plan.covered == Closing(CountedAll(ranges));
    WidthCountsFrequencies(Ranges(plan.segments), ranges);
  }

  // ----- nothing is left to merge

  /** No neighbours can be merged. */
  predicate Settled(segments: seq<Segment>, span: uint64) {
    && (forall i | 0 <= i < |segments| :: !segments[i].range.Empty())
    && (forall i | 0 < i < |segments| :: !CanMerge(segments[i - 1], segments[i], span))
  }

  /** A segment that has grown at its far end is no easier to merge into its predecessor. */
  lemma GrownStaysApart(left: Segment, right: Segment, last: Segment, span: uint64)
    requires !CanMerge(left, right, span) && CanMerge(right, last, span)
    requires !left.range.Empty() && !right.range.Empty() && !last.range.Empty()
    requires right.range.lower <= last.range.lower
    ensures !CanMerge(left, MergedSegment(right, last), span)
  {
  }

  lemma SettlesOne(before: seq<Segment>, merged: seq<Segment>, last: Segment, span: uint64)
    requires InOrder(before + [last]) && Settled(merged, span)
    requires |merged| > 0 ==> SpannedBy(merged[|merged| - 1], before)
    ensures Settled(PassOne(merged, last, span), span)
  {
    var back := |merged| - 1;
    if |merged| > 0 && !last.range.Empty() && CanMerge(merged[back], last, span) {
      BackStartsBefore(merged[back], before, last);
      if back > 0 {
        GrownStaysApart(merged[back - 1], merged[back], last, span);
      }
    }
  }

  lemma {:induction false} PassSettles(segments: seq<Segment>, span: uint64)
    requires InOrder(segments)
    ensures Settled(Pass(segments, span), span)
    decreases |segments|
  {
    if |segments| > 0 {
      var n := |segments| - 1;
      assert segments == segments[..n] + [segments[n]];
      PassSettles(segments[..n], span);
      PassKeeps(segments[..n], span, 0);
      SettlesOne(segments[..n], Pass(segments[..n], span), segments[n], span);
    }
  }

  lemma SettledLast(before: seq<Segment>, last: Segment, all: seq<Segment>, span: uint64)
    requires all == before + [last] && Settled(all, span)
    ensures PassOne(before, last, span) == all
  {
    assert all[|before|] == last && (|before| > 0 ==> all[|before| - 1] == before[|before| - 1]);
  }

  lemma {:induction false} SettledPass(segments: seq<Segment>, span: uint64)
    requires Settled(segments, span)
    ensures Pass(segments, span) == segments
    decreases |segments|
  {
    if |segments| > 0 {
      var n := |segments| - 1;
      SettledPass(segments[..n], span);
      SettledLast(segments[..n], segments[n], segments, span);
    }
  }

  /** A second pass over the merged segments changes nothing. */
  lemma PassIsIdempotent(segments: seq<Segment>, span: uint64)
    requires InOrder(segments)
    ensures Pass(Pass(segments, span), span) == Pass(segments, span)
  {
    PassSettles(segments, span);
    SettledPass(Pass(segments, span), span);
  }
}
