/** What the sweep planner makes of single ranges and segments, frequency by frequency and field by field. */
module SweepDecisions {
  import opened Words
  import opened Wrappers
  import opened Sorting
  import opened Sweep

  /** Clipping leaves the frequencies of the range that the receiver can tune. */
  lemma ClippedExactly(range: FrequencyRange, receiver: Receiver, f: int)
    ensures Clip(range, receiver).Contains(f)
        <==> range.lower <= f < range.upper && receiver.minFrequency <= f < receiver.maxFrequency
  {
  }

  /** A segment may be as wide as the usable span, but no narrower than a step. */
  lemma SpanExactly(receiver: Receiver)
    ensures var span := EffectiveSpan(receiver);
      receiver.usable <= span && receiver.minStep <= span && span in {receiver.usable, receiver.minStep}
  {
  }

  /** A surveyed segment is centred on its range and spans it. */
  lemma SurveyedExactly(range: FrequencyRange, binWidth: uint64, dwell: uint64, priority: Priority, intent: nat)
    requires range.lower <= range.upper
    ensures var s := Surveyed(range, binWidth, dwell, priority, intent);
      && s.range == range && s.span == range.upper - range.lower
      && 2 * s.center <= range.lower + range.upper < 2 * s.center + 2
      && (s.binWidth, s.dwell, s.priority, s.intent) == (binWidth, dwell, priority, intent)
      && s.channel.None? && s.allocation.None?
  {
  }

  // ----- merging

  /** Segments that are not empty are merged when they are of one priority and intent, not of two allocations, with
      a gap of at most two bins of the first, and together within the span. */
  lemma MergesExactly(left: Segment, right: Segment, span: uint64)
    requires left.range.lower < left.range.upper && right.range.lower < right.range.upper
    ensures CanMerge(left, right, span)
        <==> && left.priority == right.priority && left.intent == right.intent
             && !(left.allocation.Some? && right.allocation.Some?
                  && left.allocation.value != right.allocation.value)
             && right.range.lower - left.range.upper <= left.binWidth * 2 % TWO_64
             && Max(left.range.upper, right.range.upper) - Min(left.range.lower, right.range.lower) <= span
  {
  }

  /** The merged segment spans both, stays as long as the longer, and keeps everything else of the first. */
  lemma MergedExactly(left: Segment, right: Segment)
    requires left.range.lower < left.range.upper && right.range.lower < right.range.upper
    ensures var m := MergedSegment(left, right);
      && m.range.lower == Min(left.range.lower, right.range.lower)
      && m.range.upper == Max(left.range.upper, right.range.upper)
      && m.span == m.range.upper - m.range.lower && 2 * m.center <= m.range.lower + m.range.upper < 2 * m.center + 2
      && m.dwell == Max(left.dwell, right.dwell)
      && m == left.(range := m.range, center := m.center, span := m.span, dwell := m.dwell, reason := m.reason)
      && (left.reason == "" ==> m.reason == right.reason)
      && (left.reason != "" ==> m.reason == left.reason + "; " + right.reason)
  {
  }

  function Rank(p: Priority): nat {
    match p
    case Urgent => 0
    case High => 1
    case Normal => 2
    case Low => 3
  }

  /** Segments are merged in the order urgent, high, normal, low, and from low to high frequencies in each. */
  lemma OrderedExactly(a: Segment, b: Segment)
    ensures Less(ByPriority(a), ByPriority(b))
        <==> Rank(a.priority) < Rank(b.priority) || (a.priority == b.priority && a.range.lower < b.range.lower)
  {
  }

  // ----- duration

  /** The time a receiver needs for the segments, each with its settling time. */
  function TotalTime(segments: seq<Segment>, settle: uint64): nat
    decreases |segments|
  {
    if |segments| == 0 then 0 else segments[0].dwell + settle + TotalTime(segments[1..], settle)
  }

  lemma {:induction false} TotalTimeMore(segments: seq<Segment>, s: Segment, settle: uint64)
    ensures TotalTime(segments + [s], settle) == TotalTime(segments, settle) + s.dwell + settle
    decreases |segments|
  {
    if |segments| == 0 {
      assert segments + [s] == [s] && [s][1..] == [];
    } else {
      assert (segments + [s])[1..] == segments[1..] + [s];
      TotalTimeMore(segments[1..], s, settle);
    }
  }

  /** The duration is that time, or the largest number if it is larger. */
  lemma {:induction false} DurationExactly(segments: seq<Segment>, settle: uint64)
    ensures Durations(segments, settle) == Min(TotalTime(segments, settle), 0xffff_ffff_ffff_ffff)
    decreases |segments|
  {
    if |segments| > 0 {
      var n := |segments| - 1;
      DurationExactly(segments[..n], settle);
      TotalTimeMore(segments[..n], segments[n], settle);
      assert segments[..n] + [segments[n]] == segments;
    }
  }
}
