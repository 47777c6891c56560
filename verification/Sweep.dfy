/** Sweep planning, src/rf/sweep_planner.cpp: surveying a range in segments, merging the segments of a
    plan, and the width they occupy. */
module Sweep {
  import opened Words
  import opened Wrappers
  import opened Sorting

  /** The frequencies from `lower` up to but not including `upper`. */
  datatype FrequencyRange = FrequencyRange(lower: uint64, upper: uint64) {
    predicate Empty() {
      upper <= lower
    }

    function Width(): uint64 {
      if upper > lower then upper - lower else 0
    }

    function Center(): uint64 {
      Wrap64(lower + Width() / 2)
    }

    predicate Contains(f: int) {
      lower <= f < upper
    }

    predicate Overlaps(other: FrequencyRange) {
      lower < other.upper && other.lower < upper
    }
  }

  const NOWHERE: FrequencyRange := FrequencyRange(0, 0)

  /** `usable` is the part of the receiver's span left by its usable fraction, rounded down. */
  datatype Receiver = Receiver(
    minFrequency: uint64, maxFrequency: uint64, usable: uint64, minStep: uint64, settle: uint64)

  datatype Priority = Low | Normal | High | Urgent

  datatype Segment = Segment(
    range: FrequencyRange, center: uint64, span: uint64, binWidth: uint64, dwell: uint64, priority: Priority,
    intent: nat, channel: Option<nat>, allocation: Option<string>, reason: string)

  datatype Plan = Plan(segments: seq<Segment>, duration: uint64, covered: uint64)

  function Merge(a: FrequencyRange, b: FrequencyRange): FrequencyRange {
    if a.Empty() then b
    else if b.Empty() then a
    else FrequencyRange(Min(a.lower, b.lower), Max(a.upper, b.upper))
  }

  function Clip(range: FrequencyRange, receiver: Receiver): FrequencyRange {
    FrequencyRange(Max(range.lower, receiver.minFrequency), Min(range.upper, receiver.maxFrequency))
  }

  function EffectiveSpan(receiver: Receiver): uint64 {
    Max(receiver.usable, receiver.minStep)
  }

  function AlignUp(value: uint64, step: uint64): uint64 {
    if step == 0 || value % step == 0 then value else Wrap64(value + step - value % step)
  }

  function SafeAdd(a: uint64, b: uint64): uint64 {
    if b > MAX_64 - a then MAX_64 else a + b
  }

  // ----- surveying a range

  function Surveyed(range: FrequencyRange, binWidth: uint64, dwell: uint64, priority: Priority, intent: nat): Segment {
    Segment(range, range.Center(), range.Width(), binWidth, dwell, priority, intent, None, None, "range survey")
  }

  /** Where the segment that starts at `cursor` ends. */
  function SegmentEnd(cursor: uint64, limit: uint64, span: uint64, binWidth: uint64): uint64 {
    var upper := Min(limit, SafeAdd(cursor, span));
    Min(if upper < limit then AlignUp(upper, binWidth) else upper, limit)
  }

  /** The ends of the segments from `cursor` to `limit`; the last may fail to advance. */
  function Cuts(cursor: uint64, limit: uint64, span: uint64, binWidth: uint64): seq<uint64>
    decreases limit - cursor
  {
    if cursor >= limit then [] else
      var end := SegmentEnd(cursor, limit, span, binWidth);
      if end <= cursor then [end] else [end] + Cuts(end, limit, span, binWidth)
  }

  function CutBefore(cuts: seq<uint64>, lower: uint64, i: nat): uint64
    requires i <= |cuts|
  {
    if i == 0 then lower else cuts[i - 1]
  }

  /** The segment between two neighbouring cuts. */
  function SurveyedAt(
    cuts: seq<uint64>, lower: uint64, i: nat, binWidth: uint64, dwell: uint64, priority: Priority, intent: nat): Segment
    requires i < |cuts|
  {
    Surveyed(FrequencyRange(CutBefore(cuts, lower, i), cuts[i]), binWidth, dwell, priority, intent)
  }

  lemma CutsHead(cuts: seq<uint64>, i: nat, cursor: uint64, limit: uint64, span: uint64, binWidth: uint64)
    requires i <= |cuts| && cursor < limit && cuts[i..] == Cuts(cursor, limit, span, binWidth)
    ensures i < |cuts| && cuts[i] == SegmentEnd(cursor, limit, span, binWidth)
    ensures cuts[i + 1..] == if cuts[i] <= cursor then [] else Cuts(cuts[i], limit, span, binWidth)
  {
    assert |cuts[i..]| > 0;
    assert cuts[i] == cuts[i..][0];
    assert cuts[i + 1..] == cuts[i..][1..];
  }

  /** These are the segments up to the cut they have come to. */
  ghost predicate SurveyedSoFar(
    segments: seq<Segment>, cuts: seq<uint64>, lower: uint64, binWidth: uint64, dwell: uint64, priority: Priority,
    intent: nat)
  {
    && |segments| <= |cuts|
    && forall i | 0 <= i < |segments| ::
         segments[i] == SurveyedAt(cuts, lower, i, binWidth, dwell, priority, intent)
  }

  /** These cuts are still to come. */
  ghost predicate CutsLeft(
    cuts: seq<uint64>, lower: uint64, i: nat, cursor: uint64, limit: uint64, span: uint64, binWidth: uint64)
  {
    i <= |cuts| && cuts[i..] == Cuts(cursor, limit, span, binWidth) && cursor == CutBefore(cuts, lower, i)
  }

  lemma SurveyStep(
    segments: seq<Segment>, cuts: seq<uint64>, lower: uint64, cursor: uint64, limit: uint64, span: uint64,
    binWidth: uint64, dwell: uint64, priority: Priority, intent: nat, end: uint64)
    requires SurveyedSoFar(segments, cuts, lower, binWidth, dwell, priority, intent) && cursor < limit
    requires CutsLeft(cuts, lower, |segments|, cursor, limit, span, binWidth)
    requires end == SegmentEnd(cursor, limit, span, binWidth)
    ensures var more := segments + [Surveyed(FrequencyRange(cursor, end), binWidth, dwell, priority, intent)];
      && SurveyedSoFar(more, cuts, lower, binWidth, dwell, priority, intent)
      && if end <= cursor then |more| == |cuts| else CutsLeft(cuts, lower, |more|, end, limit, span, binWidth)
  {
    CutsHead(cuts, |segments|, cursor, limit, span, binWidth);
  }

  method SegmentRange(
    range: FrequencyRange, receiver: Receiver, resolution: uint64, dwell: uint64, priority: Priority, intent: nat)
    returns (segments: seq<Segment>)
    ensures var clip, binWidth := Clip(range, receiver), Max(resolution, receiver.minStep);
      var cuts := Cuts(clip.lower, clip.upper, EffectiveSpan(receiver), binWidth);
      |segments| == |cuts| && SurveyedSoFar(segments, cuts, clip.lower, binWidth, dwell, priority, intent)
  {
    segments := [];
    var clip := Clip(range, receiver);
    if clip.Empty() {
      return;
    }
    var binWidth: uint64 := Max(resolution, receiver.minStep);
    var cursor: uint64 := clip.lower;
    ghost var cuts := Cuts(clip.lower, clip.upper, EffectiveSpan(receiver), binWidth);
    while cursor < clip.upper
      invariant SurveyedSoFar(segments, cuts, clip.lower, binWidth, dwell, priority, intent)
      invariant CutsLeft(cuts, clip.lower, |segments|, cursor, clip.upper, EffectiveSpan(receiver), binWidth)
      decreases clip.upper - cursor
    {
      var upper: uint64 := Min(clip.upper, SafeAdd(cursor, EffectiveSpan(receiver)));
      if upper < clip.upper {
        upper := AlignUp(upper, binWidth);
      }
      upper := Min(upper, clip.upper);
      SurveyStep(segments, cuts, clip.lower, cursor, clip.upper, EffectiveSpan(receiver), binWidth, dwell, priority,
        intent, upper);
      segments := segments + [Surveyed(FrequencyRange(cursor, upper), binWidth, dwell, priority, intent)];
      if upper <= cursor {
        break;
      }
      cursor := upper;
    }
  }

  // ----- the occupied width

  function ByLower(range: FrequencyRange): Key {
    Key(range.lower, 0, 0)
  }

  /** The width counted so far, and the stretch still growing. */
  datatype Tally = Tally(total: uint64, current: FrequencyRange)

  function Counted(t: Tally, range: FrequencyRange): Tally {
    if range.Empty() then t
    else if t.current.Empty() then t.(current := range)
    else if t.current.Overlaps(range) || t.current.upper == range.lower then t.(current := Merge(t.current, range))
    else Tally(SafeAdd(t.total, t.current.Width()), range)
  }

  function CountedAll(ranges: seq<FrequencyRange>): Tally
    decreases |ranges|
  {
    if |ranges| == 0 then Tally(0, NOWHERE)
    else Counted(CountedAll(ranges[..|ranges| - 1]), ranges[|ranges| - 1])
  }

  function Closing(t: Tally): uint64 {
    if t.current.Empty() then t.total else SafeAdd(t.total, t.current.Width())
  }

  function Ranges(segments: seq<Segment>): seq<FrequencyRange> {
    seq(|segments|, i requires 0 <= i < |segments| => segments[i].range)
  }

  method OccupiedWidth(segments: seq<Segment>) returns (total: uint64)
    ensures exists sorted :: IsSort(sorted, Ranges(segments), ByLower) && total == Closing(CountedAll(sorted))
  {
    var ranges: seq<FrequencyRange> := [];
    for i := 0 to |segments|
      invariant ranges == Ranges(segments)[..i]
    {
      ranges := ranges + [segments[i].range];
    }
    assert ranges == Ranges(segments);
    var sorted := Sort(ranges, ByLower);
    SortPermutes(ranges, ByLower);
    total := 0;
    var current := NOWHERE;
    for i := 0 to |sorted|
      invariant Tally(total, current) == CountedAll(sorted[..i])
    {
      assert sorted[..i + 1][..i] == sorted[..i];
      var range := sorted[i];
      if range.Empty() {
        continue;
      }
      if current.Empty() {
        current := range;
        continue;
      }
      if current.Overlaps(range) || current.upper == range.lower {
        current := Merge(current, range);
        continue;
      }
      total := SafeAdd(total, current.Width());
      current := range;
    }
    assert sorted[..|sorted|] == sorted;
    if !current.Empty() {
      total := SafeAdd(total, current.Width());
    }
  }

  // ----- merging the segments of a plan

  function Weight(p: Priority): int {
    match p
    case Low => 1
    case Normal => 2
    case High => 4
    case Urgent => 8
  }

  /** Urgent segments first, then by lower end. */
  function ByPriority(s: Segment): Key {
    Key(-Weight(s.priority), s.range.lower, 0)
  }

  predicate CanMerge(left: Segment, right: Segment, span: uint64) {
    && left.priority == right.priority
    && left.intent == right.intent
    && (left.allocation.Some? && right.allocation.Some? ==> left.allocation == right.allocation)
    && (left.range.upper < right.range.lower ==>
          right.range.lower - left.range.upper <= Wrap64(left.binWidth * 2))
    && Merge(left.range, right.range).Width() <= span
  }

  function MergedSegment(left: Segment, right: Segment): Segment {
    var range := Merge(left.range, right.range);
    left.(range := range, center := range.Center(), span := range.Width(), dwell := Max(left.dwell, right.dwell),
          reason := (if left.reason == "" then "" else left.reason + "; ") + right.reason)
  }

  function PassOne(merged: seq<Segment>, s: Segment, span: uint64): seq<Segment> {
    var back := |merged| - 1;
    if s.range.Empty() then merged
    else if |merged| > 0 && CanMerge(merged[back], s, span) then merged[back := MergedSegment(merged[back], s)]
    else merged + [s]
  }

  function Pass(segments: seq<Segment>, span: uint64): seq<Segment>
    decreases |segments|
  {
    if |segments| == 0 then []
    else PassOne(Pass(segments[..|segments| - 1], span), segments[|segments| - 1], span)
  }

  function Durations(segments: seq<Segment>, settle: uint64): uint64
    decreases |segments|
  {
    if |segments| == 0 then 0
    else
      var n := |segments| - 1;
      SafeAdd(Durations(segments[..n], settle), SafeAdd(segments[n].dwell, settle))
  }

  method EstimatePlanDuration(segments: seq<Segment>, receiver: Receiver) returns (total: uint64)
    ensures total == Durations(segments, receiver.settle)
  {
    total := 0;
    for i := 0 to |segments|
      invariant total == Durations(segments[..i], receiver.settle)
    {
      assert segments[..i + 1][..i] == segments[..i];
      total := SafeAdd(total, SafeAdd(segments[i].dwell, receiver.settle));
    }
    assert segments[..|segments|] == segments;
  }

  /** What optimising may make of the segments: both sorts leave the order of equal keys open. */
  ghost predicate Optimizes(segments: seq<Segment>, receiver: Receiver, plan: Plan) {
    && (exists sorted :: IsSort(sorted, segments, ByPriority) && plan.segments == Pass(sorted, EffectiveSpan(receiver)))
    && plan.duration == Durations(plan.segments, receiver.settle)
    && (exists ranges :: IsSort(ranges, Ranges(plan.segments), ByLower) && plan.covered == Closing(CountedAll(ranges)))
  }

  method MergeSegments(sorted: seq<Segment>, span: uint64) returns (merged: seq<Segment>)
    ensures merged == Pass(sorted, span)
  {
    merged := [];
    for i := 0 to |sorted|
      invariant merged == Pass(sorted[..i], span)
    {
      assert sorted[..i + 1][..i] == sorted[..i];
      var s := sorted[i];
      if s.range.Empty() {
        continue;
      }
      var back := |merged| - 1;
      if |merged| != 0 && CanMerge(merged[back], s, span) {
        merged := merged[back := MergedSegment(merged[back], s)];
        continue;
      }
      merged := merged + [s];
    }
    assert sorted[..|sorted|] == sorted;
  }

  method OptimizeSweepPlan(segments: seq<Segment>, receiver: Receiver) returns (plan: Plan)
    ensures Optimizes(segments, receiver, plan)
  {
    var sorted := Sort(segments, ByPriority);
    SortPermutes(segments, ByPriority);
    var merged := MergeSegments(sorted, EffectiveSpan(receiver));
    var duration := EstimatePlanDuration(merged, receiver);
    var covered := OccupiedWidth(merged);
    plan := Plan(merged, duration, covered);
  }
}
