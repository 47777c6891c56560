/** The survey of a range: when its segments tile the range, and when they stay within the span. */
module SurveyTheorems {
  import opened Words
  import opened Sweep

  // ----- aligning

  predicate Aligned(value: nat, binWidth: uint64) {
    binWidth == 0 || value % binWidth == 0
  }

  /** The largest multiple of `d` up to `n`. */
  function MultipleUpTo(n: nat, d: nat): (m: nat)
    requires d > 0
    ensures m <= n < m + d && (n >= d ==> m >= d)
  {
    assert n == d * (n / d) + n % d;
    d * (n / d)
  }

  /** The largest multiple of the bin width that 64 bits hold. */
  function TopMultiple(binWidth: uint64): (top: uint64)
    requires binWidth > 0
    ensures binWidth <= top && MAX_64 < top + binWidth
  {
    MultipleUpTo(MAX_64, binWidth)
  }

  /** Where aligning a frequency above the largest multiple ends: at less than one bin. */
  function Wrapped(binWidth: uint64): (w: uint64)
    requires binWidth > 0
    ensures w < binWidth
  {
    TopMultiple(binWidth) + binWidth - TWO_64
  }

  lemma MultipleLeavesNothing(d: nat, q: nat)
    requires d > 0
    ensures (d * q) % d == 0
  {
    QuotientIs(d * q, d, q);
    assert d * q == d * (d * q / d) + (d * q) % d;
  }

  lemma AlignedIsMultiple(value: nat, d: nat)
    requires d > 0 && value % d == 0
    ensures value == d * (value / d)
  {
    assert value == d * (value / d) + value % d;
  }

  lemma MultipleIsAligned(n: nat, d: nat)
    requires d > 0
    ensures MultipleUpTo(n, d) % d == 0
  {
    MultipleLeavesNothing(d, n / d);
  }

  lemma SmallRemainder(n: nat, d: nat)
    requires n < d
    ensures n % d == n
  {
  }

  lemma ModuloAdds(a: nat, b: nat, d: nat)
    requires d > 0 && a % d == 0
    ensures (a + b) % d == b % d
  {
    var k, q, r := a / d, b / d, b % d;
    assert a == d * k && b == d * q + r;
    assert a + b == d * (k + q) + r;
    QuotientIs(a + b, d, k + q);
    assert a + b == d * ((a + b) / d) + (a + b) % d;
  }

  lemma OneMultiple(d: nat, x: nat, y: nat, low: nat)
    requires low <= d * x < low + d && low <= d * y < low + d
    ensures x == y
  {
    MultiplyMonotone(d, x + 1, y);
    MultiplyMonotone(d, y + 1, x);
  }

  /** A stretch as long as `d` holds only one multiple of `d`. */
  lemma SameMultiple(a: nat, b: nat, d: nat, low: nat)
    requires d > 0 && a % d == 0 && b % d == 0
    requires low <= a < low + d && low <= b < low + d
    ensures a == b
  {
    AlignedIsMultiple(a, d);
    AlignedIsMultiple(b, d);
    OneMultiple(d, a / d, b / d, low);
  }

  lemma BelowTop(value: uint64, d: uint64)
    requires d > 0 && Aligned(value, d)
    ensures value <= TopMultiple(d)
  {
    if value > TopMultiple(d) {
      MultipleIsAligned(MAX_64, d);
      SameMultiple(value, TopMultiple(d), d, TopMultiple(d));
    }
  }

  /** Rounding up a value that is no multiple ends at the next one, which is not above the largest one if
      the value is not. */
  lemma NextAligned(value: uint64, step: uint64) returns (next: nat)
    requires step > 0 && value % step != 0 && value <= TopMultiple(step)
    ensures next == value + step - value % step && next % step == 0 && next <= TopMultiple(step)
  {
    var q, top := value / step, TopMultiple(step);
    next := value + step - value % step;
    assert value == step * q + value % step;
    assert next == step * (q + 1);
    MultipleLeavesNothing(step, q + 1);
    MultipleIsAligned(MAX_64, step);
    if next > top {
      SameMultiple(next - step, top, step, next - step) by {
        MultipleLeavesNothing(step, q);
      }
    }
  }

  lemma AlignUpBounds(value: uint64, step: uint64)
    requires step > 0 ==> value <= TopMultiple(step)
    ensures value <= AlignUp(value, step) && (step > 0 ==> AlignUp(value, step) < value + step)
    ensures Aligned(AlignUp(value, step), step)
    ensures AlignUp(value, step) == value <==> Aligned(value, step)
  {
    if step > 0 && value % step != 0 {
      var next := NextAligned(value, step);
      SmallWrap(next);
      assert AlignUp(value, step) == next;
    }
  }

  lemma AlignUpWraps(value: uint64, step: uint64)
    requires step > 0 && value > TopMultiple(step)
    ensures AlignUp(value, step) == Wrapped(step)
  {
    var top := TopMultiple(step);
    MultipleIsAligned(MAX_64, step);
    ModuloAdds(top, value - top, step);
    SmallRemainder(value - top, step);
    LargeWrap(top + step);
  }

  lemma SmallWrap(n: nat)
    ensures n <= MAX_64 ==> Wrap64(n) == n
  {
  }

  lemma LargeWrap(n: nat)
    ensures TWO_64 <= n < 2 * TWO_64 ==> Wrap64(n) == n - TWO_64
  {
  }

  // ----- where one segment ends

  /** The frequency lies below the end of the range but above the largest multiple of the bin width, so
      that aligning it wraps. */
  predicate Misses(target: nat, limit: uint64, binWidth: uint64) {
    binWidth > 0 && TopMultiple(binWidth) < target < limit
  }

  lemma EndCases(cursor: uint64, limit: uint64, span: uint64, binWidth: uint64)
    requires cursor < limit
    ensures var end, target := SegmentEnd(cursor, limit, span, binWidth), cursor + span;
      if target >= limit then end == limit
      else if Misses(target, limit, binWidth) then end == Wrapped(binWidth) < limit
      else
        && end == Min(AlignUp(target, binWidth), limit)
        && target <= end <= limit && end <= target + binWidth
        && (end < limit ==> Aligned(end, binWidth))
        && (end == target <==> Aligned(target, binWidth))
  {
    if cursor + span < limit {
      if Misses(cursor + span, limit, binWidth) {
        AlignUpWraps(cursor + span, binWidth);
      } else {
        AlignUpBounds(cursor + span, binWidth);
      }
    }
  }

  /** Once aligning has wrapped, the survey ends at once, or after one more segment. */
  lemma MissCuts(cursor: uint64, limit: uint64, span: uint64, binWidth: uint64)
    requires cursor < limit && Misses(cursor + span, limit, binWidth)
    ensures var w := Wrapped(binWidth);
      Cuts(cursor, limit, span, binWidth)
      == if w <= cursor then [w] else if w + span >= limit then [w] + [limit] else [w] + [w]
  {
    var w := Wrapped(binWidth);
    EndCases(cursor, limit, span, binWidth);
    if w > cursor {
      EndCases(w, limit, span, binWidth);
      assert Cuts(limit, limit, span, binWidth) == [];
    }
  }

  /** Every survey segment is at most one bin wider than the effective span, and every end but the last
      is a multiple of the bin width or the one frequency at which aligning ends when it wraps. */
  lemma {:induction false} CutsAligned(cursor: uint64, limit: uint64, span: uint64, binWidth: uint64, i: nat)
    requires cursor < limit && i < |Cuts(cursor, limit, span, binWidth)|
    ensures var cuts := Cuts(cursor, limit, span, binWidth);
      && cuts[i] - CutBefore(cuts, cursor, i) <= span + binWidth
      && (cuts[i] < limit ==>
            Aligned(cuts[i], binWidth) || (Misses(limit - 1, limit, binWidth) && cuts[i] == Wrapped(binWidth)))
    decreases limit - cursor
  {
    EndCases(cursor, limit, span, binWidth);
    if Misses(cursor + span, limit, binWidth) {
      MissCuts(cursor, limit, span, binWidth);
    } else if i > 0 {
      var end := SegmentEnd(cursor, limit, span, binWidth);
      assert cursor < end < limit;
      var cuts, later := Cuts(cursor, limit, span, binWidth), Cuts(end, limit, span, binWidth);
      assert cuts == [end] + later;
      CutsAligned(end, limit, span, binWidth, i - 1);
      assert cuts[i] == later[i - 1] && CutBefore(cuts, cursor, i) == CutBefore(later, end, i - 1);
    }
  }

  // ----- when the segments tile the range

  /** `cuts` are ascending ends of adjacent non-empty segments that lead from `lower` to `upper`. */
  predicate Tiles(cuts: seq<uint64>, lower: uint64, upper: uint64) {
    && |cuts| > 0
    && lower < cuts[0]
    && (forall i | 0 < i < |cuts| :: cuts[i - 1] < cuts[i])
    && cuts[|cuts| - 1] == upper
  }

  lemma TilesTail(end: uint64, later: seq<uint64>, lower: uint64, upper: uint64)
    requires |later| > 0 && Tiles([end] + later, lower, upper)
    ensures lower < end && Tiles(later, end, upper)
  {
    var all := [end] + later;
    assert all[0] < all[1];
    forall i | 0 < i < |later|
      ensures later[i - 1] < later[i]
    {
      assert all[i] < all[i + 1];
    }
    assert all[|later|] == upper;
  }

  lemma TilesBefore(end: uint64, later: seq<uint64>, lower: uint64, upper: uint64)
    requires lower < end && Tiles(later, end, upper)
    ensures Tiles([end] + later, lower, upper)
  {
    var all := [end] + later;
    forall i | 0 < i < |all|
      ensures all[i - 1] < all[i]
    {
      if i > 1 {
        assert later[i - 2] < later[i - 1];
      }
    }
    assert all[|later|] == upper;
  }

  lemma TilesCons(end: uint64, later: seq<uint64>, lower: uint64, upper: uint64)
    requires |later| > 0
    ensures Tiles([end] + later, lower, upper) <==> lower < end && Tiles(later, end, upper)
  {
    if Tiles([end] + later, lower, upper) {
      TilesTail(end, later, lower, upper);
    }
    if lower < end && Tiles(later, end, upper) {
      TilesBefore(end, later, lower, upper);
    }
  }

  /** From a multiple of the bin width to the next place a segment starts. */
  function Stride(span: uint64, binWidth: uint64): (stride: nat)
    requires binWidth > 0
    ensures span <= stride < span + binWidth
  {
    MultipleUpTo(span + binWidth - 1, binWidth)
  }

  lemma StrideAligns(start: uint64, span: uint64, binWidth: uint64)
    requires binWidth > 0 && Aligned(start, binWidth) && start + span <= TopMultiple(binWidth)
    ensures AlignUp(start + span, binWidth) == start + Stride(span, binWidth) <= TopMultiple(binWidth)
  {
    var next, stride := AlignUp(start + span, binWidth), Stride(span, binWidth);
    AlignUpBounds(start + span, binWidth);
    MultipleIsAligned(span + binWidth - 1, binWidth);
    ModuloAdds(start, stride, binWidth);
    SameMultiple(next, start + stride, binWidth, start + span);
    BelowTop(next, binWidth);
  }

  /** The last place at which a segment starts, going on from the multiple `start` with no regard to the
      end of the range. */
  function LastStart(start: uint64, span: uint64, binWidth: uint64): nat
    requires binWidth > 0 && start <= TopMultiple(binWidth) && span >= 1
  {
    start + MultipleUpTo(TopMultiple(binWidth) - start, Stride(span, binWidth))
  }

  lemma LastStartStep(start: uint64, span: uint64, binWidth: uint64)
    requires binWidth > 0 && span >= 1 && start <= TopMultiple(binWidth)
    ensures var next := start + Stride(span, binWidth);
      if next > TopMultiple(binWidth) then LastStart(start, span, binWidth) == start
      else LastStart(start, span, binWidth) == LastStart(next, span, binWidth) >= next
  {
    var stride, left := Stride(span, binWidth), TopMultiple(binWidth) - start;
    if left < stride {
      QuotientIs(left, stride, 0);
    } else {
      MultipleLess(left, stride);
    }
  }

  lemma MultipleLess(n: nat, d: nat)
    requires d > 0 && n >= d
    ensures MultipleUpTo(n, d) == d + MultipleUpTo(n - d, d)
  {
    var q := (n - d) / d;
    assert n - d == d * q + (n - d) % d;
    QuotientIs(n, d, q + 1);
  }

  lemma {:induction false} AlignedTiles(start: uint64, limit: uint64, span: uint64, binWidth: uint64)
    requires binWidth > 0 && 0 < start < limit && Aligned(start, binWidth) && span >= 1
    requires start <= TopMultiple(binWidth)
    ensures Tiles(Cuts(start, limit, span, binWidth), start, limit)
        <==> LastStart(start, span, binWidth) + span >= limit
    decreases limit - start
  {
    var next := start + Stride(span, binWidth);
    LastStartStep(start, span, binWidth);
    EndCases(start, limit, span, binWidth);
    assert Cuts(limit, limit, span, binWidth) == [];
    if start + span >= limit {
      assert Cuts(start, limit, span, binWidth) == [limit];
    } else if Misses(start + span, limit, binWidth) {
      MissCuts(start, limit, span, binWidth);
      NotBelowBin(start, binWidth);
    } else {
      StrideAligns(start, span, binWidth);
      if next >= limit {
        assert Cuts(start, limit, span, binWidth) == [limit];
      } else {
        AlignedTiles(next, limit, span, binWidth);
        TilesCons(next, Cuts(next, limit, span, binWidth), start, limit);
      }
    }
  }

  lemma NotBelowBin(value: nat, d: nat)
    requires d > 0 && value > 0 && value % d == 0
    ensures value >= d
  {
    AlignedIsMultiple(value, d);
    MultiplyMonotone(d, 1, value / d);
  }

  /** No bin width, one segment is enough, aligning wraps at the first segment but lands where one more
      is enough, or else the last place a segment starts is within a span of the end. */
  predicate Unbroken(lower: uint64, limit: uint64, span: uint64, binWidth: uint64)
    requires span >= 1
  {
    if binWidth == 0 || lower + span >= limit then true
    else if lower + span > TopMultiple(binWidth) then
      Wrapped(binWidth) > lower && Wrapped(binWidth) + span >= limit
    else
      AlignUpBounds(lower + span, binWidth);
      BelowTop(AlignUp(lower + span, binWidth), binWidth);
      LastStart(AlignUp(lower + span, binWidth), span, binWidth) + span >= limit
  }

  lemma {:induction false} PlainTiles(cursor: uint64, limit: uint64, span: uint64)
    requires cursor < limit && span >= 1
    ensures Tiles(Cuts(cursor, limit, span, 0), cursor, limit)
    decreases limit - cursor
  {
    EndCases(cursor, limit, span, 0);
    var end := SegmentEnd(cursor, limit, span, 0);
    if end < limit {
      PlainTiles(end, limit, span);
      TilesCons(end, Cuts(end, limit, span, 0), cursor, limit);
    } else {
      assert Cuts(limit, limit, span, 0) == [];
    }
  }

  lemma SpanTiles(lower: uint64, upper: uint64, span: uint64, binWidth: uint64)
    requires lower < upper && span >= 1
    ensures Tiles(Cuts(lower, upper, span, binWidth), lower, upper) <==> Unbroken(lower, upper, span, binWidth)
  {
    EndCases(lower, upper, span, binWidth);
    assert Cuts(upper, upper, span, binWidth) == [];
    if binWidth == 0 {
      PlainTiles(lower, upper, span);
    } else if lower + span >= upper {
      assert Cuts(lower, upper, span, binWidth) == [upper];
    } else if Misses(lower + span, upper, binWidth) {
      MissCuts(lower, upper, span, binWidth);
    } else {
      var start := AlignUp(lower + span, binWidth);
      AlignUpBounds(lower + span, binWidth);
      BelowTop(start, binWidth);
      if start >= upper {
        assert Cuts(lower, upper, span, binWidth) == [upper];
        LastStartStep(start, span, binWidth);
      } else {
        AlignedTiles(start, upper, span, binWidth);
        TilesCons(start, Cuts(start, upper, span, binWidth), lower, upper);
      }
    }
  }

  lemma NoSpanTiles(lower: uint64, upper: uint64, binWidth: uint64)
    requires lower < upper
    ensures Tiles(Cuts(lower, upper, 0, binWidth), lower, upper) <==> AlignUp(lower, binWidth) >= upper
  {
    EndCases(lower, upper, 0, binWidth);
    if Misses(lower, upper, binWidth) {
      AlignUpWraps(lower, binWidth);
      MissCuts(lower, upper, 0, binWidth);
    } else {
      var end := SegmentEnd(lower, upper, 0, binWidth);
      if lower < end < upper {
        EndCases(end, upper, 0, binWidth);
        BelowTopUnlessZero(end, binWidth);
        assert Cuts(end, upper, 0, binWidth) == [end];
      } else if end == upper {
        assert Cuts(upper, upper, 0, binWidth) == [];
      }
    }
  }

  lemma BelowTopUnlessZero(value: uint64, binWidth: uint64)
    requires Aligned(value, binWidth)
    ensures binWidth > 0 ==> value <= TopMultiple(binWidth)
  {
    if binWidth > 0 {
      BelowTop(value, binWidth);
    }
  }

  /** For every range, span and bin width: the survey tiles the range if and only if no wrap breaks it,
      or, with a span of zero, the first aligned frequency already reaches the end. */
  lemma TilesExactly(lower: uint64, upper: uint64, span: uint64, binWidth: uint64)
    requires lower < upper
    ensures Tiles(Cuts(lower, upper, span, binWidth), lower, upper)
        <==> if span == 0 then AlignUp(lower, binWidth) >= upper else Unbroken(lower, upper, span, binWidth)
  {
    if span == 0 {
      NoSpanTiles(lower, upper, binWidth);
    } else {
      SpanTiles(lower, upper, span, binWidth);
    }
  }

  /** In particular it does with any span if no frequency of the range lies above the largest multiple of
      the bin width. */
  lemma AlignableTiles(lower: uint64, upper: uint64, span: uint64, binWidth: uint64)
    requires lower < upper && span >= 1 && !Misses(upper - 1, upper, binWidth)
    ensures Tiles(Cuts(lower, upper, span, binWidth), lower, upper)
  {
    if binWidth > 0 && lower + span < upper {
      var start := AlignUp(lower + span, binWidth);
      AlignUpBounds(lower + span, binWidth);
      BelowTop(start, binWidth);
      LastStartReaches(start, span, binWidth);
    }
    SpanTiles(lower, upper, span, binWidth);
  }

  lemma LastStartReaches(start: uint64, span: uint64, binWidth: uint64)
    requires binWidth > 0 && start <= TopMultiple(binWidth) && span >= 1 && Aligned(start, binWidth)
    ensures LastStart(start, span, binWidth) + span > TopMultiple(binWidth)
  {
    var stride, top, last := Stride(span, binWidth), TopMultiple(binWidth), LastStart(start, span, binWidth);
    if last + span <= top {
      LastStartAligned(start, span, binWidth);
      StrideAligns(last, span, binWidth);
      assert false;
    }
  }

  lemma LastStartAligned(start: uint64, span: uint64, binWidth: uint64)
    requires binWidth > 0 && start <= TopMultiple(binWidth) && span >= 1 && Aligned(start, binWidth)
    ensures LastStart(start, span, binWidth) <= TopMultiple(binWidth)
    ensures Aligned(LastStart(start, span, binWidth), binWidth)
  {
    var stride, left := Stride(span, binWidth), TopMultiple(binWidth) - start;
    MultipleIsAligned(span + binWidth - 1, binWidth);
    MultipleOfMultiple(left, stride, binWidth);
    ModuloAdds(start, MultipleUpTo(left, stride), binWidth);
  }

  lemma MultipleOfMultiple(n: nat, a: nat, d: nat)
    requires d > 0 && a > 0 && a % d == 0
    ensures MultipleUpTo(n, a) % d == 0
  {
    ProductAligned(a, n / a, d);
  }

  lemma ProductAligned(a: nat, q: nat, d: nat)
    requires d > 0 && a % d == 0
    ensures (a * q) % d == 0
  {
    var k := a / d;
    AlignedIsMultiple(a, d);
    assert d * (k * q) == d * k * q;
    MultipleLeavesNothing(d, k * q);
  }

  /** Bins of 2^63 and a span one wider: the first segment wraps back to zero and the survey is over. */
  lemma SurveyStops(receiver: Receiver)
    requires receiver == Receiver(0, MAX_64, 0x8000_0000_0000_0001, 1, 0)
    ensures Cuts(0, MAX_64, EffectiveSpan(receiver), Max(0x8000_0000_0000_0000, receiver.minStep)) == [0]
  {
    assert AlignUp(0x8000_0000_0000_0001, 0x8000_0000_0000_0000) == 0;
    assert SegmentEnd(0, MAX_64, 0x8000_0000_0000_0001, 0x8000_0000_0000_0000) == 0;
  }

  // ----- when the survey stays within the effective span

  /** No segment between neighbouring cuts is wider than the span. */
  predicate WithinSpan(cuts: seq<uint64>, lower: uint64, span: uint64) {
    forall i | 0 <= i < |cuts| :: cuts[i] - CutBefore(cuts, lower, i) <= span
  }

  lemma WithinSpanCons(end: uint64, later: seq<uint64>, lower: uint64, span: uint64)
    ensures WithinSpan([end] + later, lower, span) <==> end - lower <= span && WithinSpan(later, end, span)
  {
    var all := [end] + later;
    assert all[0] - CutBefore(all, lower, 0) == end - lower;
    forall i | 0 <= i < |later|
      ensures all[i + 1] - CutBefore(all, lower, i + 1) == later[i] - CutBefore(later, end, i)
    {
    }
    if WithinSpan(all, lower, span) {
      forall i | 0 <= i < |later|
        ensures later[i] - CutBefore(later, end, i) <= span
      {
        assert all[i + 1] - CutBefore(all, lower, i + 1) <= span;
      }
    }
    if end - lower <= span && WithinSpan(later, end, span) {
      forall i | 0 <= i < |all|
        ensures all[i] - CutBefore(all, lower, i) <= span
      {
        if i > 0 {
          assert later[i - 1] - CutBefore(later, end, i - 1) <= span;
        }
      }
    }
  }

  /** The frequency is at or past the end of the range, or cannot be aligned: what starts a span below it
      is within the span. */
  predicate Past(target: nat, limit: uint64, binWidth: uint64) {
    target >= limit || Misses(target, limit, binWidth)
  }

  lemma PastWithinSpan(cursor: uint64, limit: uint64, span: uint64, binWidth: uint64)
    requires cursor < limit && Past(cursor + span, limit, binWidth)
    ensures WithinSpan(Cuts(cursor, limit, span, binWidth), cursor, span)
  {
    EndCases(cursor, limit, span, binWidth);
    if cursor + span >= limit {
      assert Cuts(limit, limit, span, binWidth) == [];
    } else {
      MissCuts(cursor, limit, span, binWidth);
    }
  }

  /** The segment from `cursor` is within the span if the survey is past it or it needs no aligning. */
  lemma FirstWithinSpan(cursor: uint64, limit: uint64, span: uint64, binWidth: uint64)
    requires cursor < limit && span >= 1
    ensures var cuts := Cuts(cursor, limit, span, binWidth);
      WithinSpan(cuts, cursor, span)
      <==> Past(cursor + span, limit, binWidth)
           || (&& Aligned(cursor + span, binWidth)
               && WithinSpan(Cuts(cursor + span, limit, span, binWidth), cursor + span, span))
  {
    if Past(cursor + span, limit, binWidth) {
      PastWithinSpan(cursor, limit, span, binWidth);
    } else {
      var end := SegmentEnd(cursor, limit, span, binWidth);
      EndCases(cursor, limit, span, binWidth);
      WithinSpanCons(end, Cuts(end, limit, span, binWidth), cursor, span);
    }
  }

  lemma AlignedStep(cursor: nat, span: nat, binWidth: uint64)
    requires Aligned(cursor, binWidth)
    ensures Aligned(cursor + span, binWidth) <==> Aligned(span, binWidth)
  {
    if binWidth > 0 {
      ModuloAdds(cursor, span, binWidth);
    }
  }

  lemma {:induction false} AlignedWithinSpan(cursor: uint64, limit: uint64, span: uint64, binWidth: uint64)
    requires cursor < limit && span >= 1 && Aligned(cursor, binWidth)
    ensures WithinSpan(Cuts(cursor, limit, span, binWidth), cursor, span)
        <==> Past(cursor + span, limit, binWidth) || Aligned(span, binWidth)
    decreases limit - cursor
  {
    FirstWithinSpan(cursor, limit, span, binWidth);
    AlignedStep(cursor, span, binWidth);
    if !Past(cursor + span, limit, binWidth) && Aligned(span, binWidth) {
      AlignedWithinSpan(cursor + span, limit, span, binWidth);
    }
  }

  lemma NoSpanWithin(lower: uint64, upper: uint64, binWidth: uint64)
    requires lower < upper && !Past(lower, upper, binWidth)
    ensures WithinSpan(Cuts(lower, upper, 0, binWidth), lower, 0) <==> Aligned(lower, binWidth)
  {
    EndCases(lower, upper, 0, binWidth);
    var end := SegmentEnd(lower, upper, 0, binWidth);
    WithinSpanCons(end, if end <= lower then [] else Cuts(end, upper, 0, binWidth), lower, 0);
  }

  /** For every range, span and bin width: every survey segment is within the effective span if and only
      if the survey is past the first, or the first ends on a multiple of the bin width and then either
      the survey is past the second or the span is a multiple too. */
  lemma WithinSpanExactly(lower: uint64, upper: uint64, span: uint64, binWidth: uint64)
    requires lower < upper
    ensures WithinSpan(Cuts(lower, upper, span, binWidth), lower, span)
        <==> Past(lower + span, upper, binWidth)
             || (&& Aligned(lower + span, binWidth)
                 && (Past(lower + 2 * span, upper, binWidth) || Aligned(span, binWidth)))
  {
    if Past(lower + span, upper, binWidth) {
      PastWithinSpan(lower, upper, span, binWidth);
    } else if span == 0 {
      NoSpanWithin(lower, upper, binWidth);
    } else {
      FirstWithinSpan(lower, upper, span, binWidth);
      if Aligned(lower + span, binWidth) {
        AlignedWithinSpan(lower + span, upper, span, binWidth);
      }
    }
  }

  /** A receiver with a span of 10 surveys 0 to 100 in bins of 15: its first segment is 15 wide. */
  lemma SurveyExceedsSpan(receiver: Receiver)
    requires receiver == Receiver(0, 100, 10, 1, 0)
    ensures var cuts := Cuts(0, 100, EffectiveSpan(receiver), Max(15, receiver.minStep));
      EffectiveSpan(receiver) == 10 && |cuts| > 0 && cuts[0] == 15 && !WithinSpan(cuts, 0, EffectiveSpan(receiver))
  {
    assert AlignUp(10, 15) == 15;
    var cuts := Cuts(0, 100, 10, 15);
    assert cuts[0] == SegmentEnd(0, 100, 10, 15) == 15;
    assert cuts[0] - CutBefore(cuts, 0, 0) == 15;
  }
}
