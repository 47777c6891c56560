/** A rotation plan partitions the sorted records, passes validation and writes its shards.  No plan
    within the limits has fewer, and it is within them itself as long as the sums it tests do not wrap. */
module RotationTheorems {
  import opened Words
  import opened Wrappers
  import opened Sorting
  import opened Rotation

  // ----- shards that meet the limits

  function TotalPayload(records: seq<Record>): nat
    decreases |records|
  {
    if |records| == 0 then 0 else TotalPayload(records[..|records| - 1]) + records[|records| - 1].payload
  }

  function FileBytes(records: seq<Record>): nat {
    HEADER_BYTES + RECORD_BYTES * |records| + TotalPayload(records)
  }

  predicate InOrder(records: seq<Record>) {
    forall i, j | 0 <= i < j < |records| :: records[i].time <= records[j].time
  }

  predicate NoIdleGap(records: seq<Record>, gap: nat) {
    forall i | 0 < i < |records| :: records[i].time - records[i - 1].time <= gap
  }

  /** Every enabled limit holds; a single record always may have an archive of its own. */
  predicate MeetsLimits(policy: Policy, records: seq<Record>) {
    |records| >= 2 ==>
      && (policy.maxRecords != 0 ==> |records| <= policy.maxRecords)
      && (policy.maxPayload != 0 ==> TotalPayload(records) <= policy.maxPayload)
      && (policy.maxSpan != 0 ==> records[|records| - 1].time - records[0].time <= policy.maxSpan)
      && (policy.maxFile != 0 ==> FileBytes(records) <= policy.maxFile)
      && (policy.idleGap != 0 ==> NoIdleGap(records, policy.idleGap))
  }

  lemma {:induction false} TotalPayloadAppend(a: seq<Record>, b: seq<Record>)
    ensures TotalPayload(a + b) == TotalPayload(a) + TotalPayload(b)
    decreases |b|
  {
    if |b| == 0 {
      assert a + b == a;
    } else {
      var n := |b| - 1;
      assert (a + b)[..|a + b| - 1] == a + b[..n];
      TotalPayloadAppend(a, b[..n]);
    }
  }

  /** A stretch of an admissible shard is admissible. */
  lemma LimitsInherited(policy: Policy, a: seq<Record>, b: seq<Record>, c: seq<Record>)
    requires InOrder(a + b + c) && MeetsLimits(policy, a + b + c)
    ensures MeetsLimits(policy, b)
  {
    var all := a + b + c;
    if |b| >= 2 {
      TotalPayloadAppend(a + b, c);
      TotalPayloadAppend(a, b);
      assert b[0] == all[|a|] && b[|b| - 1] == all[|a| + |b| - 1];
      assert all[0].time <= b[0].time && b[|b| - 1].time <= all[|all| - 1].time;
      if policy.idleGap != 0 {
        assert NoIdleGap(b, policy.idleGap) by {
          forall i | 0 < i < |b|
            ensures b[i].time - b[i - 1].time <= policy.idleGap
          {
            assert b[i] == all[|a| + i] && b[i - 1] == all[|a| + i - 1];
          }
        }
      }
    }
  }

  // ----- the limits as the planner tests them

  /** The same limits, with the sums reduced to 64 bits. */
  predicate PassesTests(policy: Policy, records: seq<Record>) {
    |records| >= 2 ==>
      && (policy.maxRecords != 0 ==> |records| <= policy.maxRecords)
      && (policy.maxPayload != 0 ==> Wrap64(TotalPayload(records)) <= policy.maxPayload)
      && (policy.maxSpan != 0 ==> records[|records| - 1].time - records[0].time <= policy.maxSpan)
      && (policy.maxFile != 0 ==> Wrap64(FileBytes(records)) <= policy.maxFile)
      && (policy.idleGap != 0 ==> NoIdleGap(records, policy.idleGap))
  }

  /** No sum that an enabled limit is compared with reaches 2^64. */
  predicate SumsFit(policy: Policy, records: seq<Record>) {
    && (policy.maxPayload != 0 ==> TotalPayload(records) < TWO_64)
    && (policy.maxFile != 0 ==> FileBytes(records) < TWO_64)
  }

  /** The tests let records through that break a limit exactly if a tested sum has wrapped to a value
      within it and every other test passes. */
  lemma TestsExactly(policy: Policy, records: seq<Record>)
    ensures MeetsLimits(policy, records) ==> PassesTests(policy, records)
    ensures PassesTests(policy, records) && !MeetsLimits(policy, records)
        <==> |records| >= 2 && PassesTests(policy, records) && !SumsFit(policy, records)
  {
    FitsOrWraps(TotalPayload(records));
    FitsOrWraps(FileBytes(records));
  }

  lemma FitsOrWraps(n: nat)
    ensures n < TWO_64 ==> Wrap64(n) == n
  {
  }

  /** A record's payload comes out of a frame of at most 2^20 bytes, so fewer than 2^43 records never
      make a sum wrap. */
  lemma RealPayloadsFit(policy: Policy, records: seq<Record>)
    requires |records| < 0x800_0000_0000
    requires forall i | 0 <= i < |records| :: records[i].payload <= LARGEST_FRAME
    ensures SumsFit(policy, records)
  {
    TotalPayloadBound(records);
  }

  const LARGEST_FRAME: nat := 0x10_0000

  lemma {:induction false} TotalPayloadBound(records: seq<Record>)
    requires forall i | 0 <= i < |records| :: records[i].payload <= LARGEST_FRAME
    ensures TotalPayload(records) <= LARGEST_FRAME * |records|
    decreases |records|
  {
    if |records| > 0 {
      TotalPayloadBound(records[..|records| - 1]);
    }
  }

  // ----- the loop's shard records what it holds

  /** The counters of a shard are those of its records, the sums reduced to 64 bits. */
  predicate Describes(shard: Shard) {
    && shard.count == |shard.records|
    && shard.payload == Wrap64(TotalPayload(shard.records))
    && shard.fileBytes == Wrap64(FileBytes(shard.records))
    && InOrder(shard.records)
    && (|shard.records| > 0 ==>
          shard.first == shard.records[0].time && shard.last == shard.records[|shard.records| - 1].time)
    && shard.first <= shard.last
  }

  lemma TotalPayloadOne(records: seq<Record>, record: Record)
    ensures TotalPayload(records + [record]) == TotalPayload(records) + record.payload
  {
    assert (records + [record])[..|records|] == records;
  }

  lemma NoIdleGapOne(records: seq<Record>, record: Record, gap: nat)
    requires |records| > 0
    ensures NoIdleGap(records + [record], gap)
        <==> NoIdleGap(records, gap) && record.time - records[|records| - 1].time <= gap
  {
    var all := records + [record];
    assert all[|records|] == record && all[|records| - 1] == records[|records| - 1];
    assert forall i | 0 <= i < |records| :: all[i] == records[i];
  }

  lemma InOrderOne(records: seq<Record>, record: Record)
    requires InOrder(records + [record])
    ensures InOrder(records) && (|records| > 0 ==> records[0].time <= records[|records| - 1].time <= record.time)
  {
    var all := records + [record];
    assert all[|records|] == record;
    assert forall i | 0 <= i < |records| :: all[i] == records[i];
  }

  lemma WrapAdds(n: nat, more: nat)
    ensures Wrap64(Wrap64(n) + more) == Wrap64(n + more)
  {
  }

  lemma SumsOne(shard: Shard, record: Record)
    requires Describes(shard)
    ensures Wrap64(shard.payload + record.payload) == Wrap64(TotalPayload(shard.records + [record]))
    ensures FileBytesAfter(shard, record) == Wrap64(FileBytes(shard.records + [record]))
  {
    TotalPayloadOne(shard.records, record);
    WrapAdds(TotalPayload(shard.records), record.payload);
    WrapAdds(FileBytes(shard.records), RECORD_BYTES + record.payload);
  }

  /** The planner starts a new shard exactly when adding the record would fail a test. */
  lemma BoundaryExactly(policy: Policy, shard: Shard, record: Record)
    requires Describes(shard) && |shard.records| > 0 && PassesTests(policy, shard.records)
    requires InOrder(shard.records + [record])
    ensures Boundary(policy, shard, record).None? <==> PassesTests(policy, shard.records + [record])
  {
    var records := shard.records;
    SumsOne(shard, record);
    InOrderOne(records, record);
    NoIdleGapOne(records, record, policy.idleGap);
    assert (records + [record])[0] == records[0] && (records + [record])[|records|] == record;
    assert |records| == 1 ==> NoIdleGap(records, policy.idleGap);
    assert SpanAfter(shard, record) == record.time - records[0].time;
  }

  lemma ExtendedCounters(shard: Shard, record: Record)
    requires Describes(shard)
    ensures var t := Extended(shard, record);
      && t.records == shard.records + [record] && t.output == shard.output && t.count == |t.records|
      && t.payload == Wrap64(TotalPayload(t.records)) && t.fileBytes == Wrap64(FileBytes(t.records))
  {
    SumsOne(shard, record);
    if shard.count == 0 {
      TotalPayloadOne(shard.records, record);
    }
  }

  lemma ExtendedTimes(shard: Shard, record: Record)
    requires Describes(shard) && InOrder(shard.records + [record])
    ensures var t := Extended(shard, record);
      t.first == t.records[0].time && t.last == t.records[|t.records| - 1].time && t.first <= t.last
  {
    InOrderOne(shard.records, record);
  }

  lemma ExtendedDescribes(shard: Shard, record: Record)
    requires Describes(shard) && InOrder(shard.records + [record])
    ensures Describes(Extended(shard, record)) && Extended(shard, record).records == shard.records + [record]
    ensures Extended(shard, record).output == shard.output
  {
    ExtendedCounters(shard, record);
    ExtendedTimes(shard, record);
  }

  // ----- the segmentation, independently of the loop's counters

  /** Segments grow while they pass the tests. */
  function Greedy(policy: Policy, current: seq<Record>, rest: seq<Record>): seq<seq<Record>>
    decreases |rest|
  {
    if |rest| == 0 then [current]
    else if |current| == 0 || PassesTests(policy, current + [rest[0]]) then
      Greedy(policy, current + [rest[0]], rest[1..])
    else [current] + Greedy(policy, [rest[0]], rest[1..])
  }

  function Flatten(segments: seq<seq<Record>>): seq<Record>
    decreases |segments|
  {
    if |segments| == 0 then [] else segments[0] + Flatten(segments[1..])
  }

  /** Consecutive non-empty stretches of `records`. */
  ghost predicate Partitions(segments: seq<seq<Record>>, records: seq<Record>) {
    Flatten(segments) == records && forall k | 0 <= k < |segments| :: |segments[k]| > 0
  }

  /** The stretches are each within the limits. */
  ghost predicate Admissible(policy: Policy, segments: seq<seq<Record>>, records: seq<Record>) {
    Partitions(segments, records) && forall k | 0 <= k < |segments| :: MeetsLimits(policy, segments[k])
  }

  ghost predicate AllPass(policy: Policy, segments: seq<seq<Record>>) {
    forall k | 0 <= k < |segments| :: PassesTests(policy, segments[k])
  }

  lemma {:induction false} GreedyPartitions(policy: Policy, current: seq<Record>, rest: seq<Record>)
    requires PassesTests(policy, current) && |current| + |rest| > 0
    ensures Partitions(Greedy(policy, current, rest), current + rest)
    ensures AllPass(policy, Greedy(policy, current, rest))
    decreases |rest|
  {
    if |rest| == 0 {
      assert [current][1..] == [];
      assert current + rest == current;
    } else if |current| == 0 || PassesTests(policy, current + [rest[0]]) {
      GreedyPartitions(policy, current + [rest[0]], rest[1..]);
      assert current + [rest[0]] + rest[1..] == current + rest;
    } else {
      GreedyPartitions(policy, [rest[0]], rest[1..]);
      var later := Greedy(policy, [rest[0]], rest[1..]);
      assert ([current] + later)[1..] == later;
      assert [rest[0]] + rest[1..] == rest;
    }
  }

  /** Where the sums of the whole fit, those of a stretch do. */
  lemma SumsFitPart(policy: Policy, a: seq<Record>, b: seq<Record>, c: seq<Record>)
    requires SumsFit(policy, a + b + c)
    ensures SumsFit(policy, b)
  {
    TotalPayloadAppend(a + b, c);
    TotalPayloadAppend(a, b);
  }

  lemma {:induction false} SegmentsFit(policy: Policy, segments: seq<seq<Record>>, k: nat)
    requires k < |segments| && SumsFit(policy, Flatten(segments))
    ensures SumsFit(policy, segments[k])
    decreases |segments|
  {
    var later := Flatten(segments[1..]);
    assert [] + segments[0] + later == Flatten(segments) && segments[0] + later + [] == Flatten(segments);
    if k == 0 {
      SumsFitPart(policy, [], segments[0], later);
    } else {
      SumsFitPart(policy, segments[0], later, []);
      SegmentsFit(policy, segments[1..], k - 1);
    }
  }

  /** If the first segment of a partition reached past `current`, then `current` could have grown. */
  lemma FirstStopsShort(
    policy: Policy, skipped: seq<Record>, current: seq<Record>, rest: seq<Record>, first: seq<Record>,
    others: seq<Record>)
    requires |rest| > 0 && !MeetsLimits(policy, current + [rest[0]])
    requires MeetsLimits(policy, first) && first + others == skipped + current + rest
    requires InOrder(skipped + current + rest)
    ensures |first| <= |skipped| + |current|
  {
    if |first| > |skipped| + |current| {
      var n := |skipped| + |current| + 1;
      assert first[..n] == (first + others)[..n] == skipped + (current + [rest[0]]);
      assert first == skipped + (current + [rest[0]]) + first[n..];
      assert InOrder(first) by {
        assert forall i | 0 <= i < |first| :: first[i] == (first + others)[i];
      }
      LimitsInherited(policy, skipped, current + [rest[0]], first[n..]);
    }
  }

  lemma InOrderSuffix(a: seq<Record>, b: seq<Record>)
    requires InOrder(a + b)
    ensures InOrder(b)
  {
    assert forall i | 0 <= i < |b| :: b[i] == (a + b)[|a| + i];
  }

  /** The greedy segmentation stays ahead: from inside or behind the first segment of any other
      partition, it needs no more segments than that partition has. */
  lemma {:induction false} GreedyStaysAhead(
    policy: Policy, skipped: seq<Record>, current: seq<Record>, rest: seq<Record>, other: seq<seq<Record>>)
    requires InOrder(skipped + current + rest) && |current| > 0
    requires Admissible(policy, other, skipped + current + rest)
    ensures |Greedy(policy, current, rest)| <= |other|
    decreases |rest|
  {
    assert |other| > 0;
    if |rest| == 0 {
      return;
    }
    assert skipped + (current + [rest[0]]) + rest[1..] == skipped + current + rest;
    TestsExactly(policy, current + [rest[0]]);
    if PassesTests(policy, current + [rest[0]]) {
      GreedyStaysAhead(policy, skipped, current + [rest[0]], rest[1..], other);
    } else {
      FirstStopsShort(policy, skipped, current, rest, other[0], Flatten(other[1..]));
      var left := (skipped + current)[|other[0]|..];
      assert left + [rest[0]] + rest[1..] == (skipped + current + rest)[|other[0]|..];
      assert Flatten(other[1..]) == (other[0] + Flatten(other[1..]))[|other[0]|..];
      assert skipped + current + rest == (skipped + current + rest)[..|other[0]|] + (left + [rest[0]] + rest[1..]);
      InOrderSuffix((skipped + current + rest)[..|other[0]|], left + [rest[0]] + rest[1..]);
      GreedyStaysAhead(policy, left, [rest[0]], rest[1..], other[1..]);
    }
  }

  // ----- the loop makes the greedy segmentation

  function Segments(shards: seq<Shard>): seq<seq<Record>> {
    seq(|shards|, i requires 0 <= i < |shards| => shards[i].records)
  }

  function Finished(p: Progress): Plan {
    Closed(p.plan, p.current, Unbounded)
  }

  /** What the plan under construction keeps. */
  ghost predicate InPlan(plan: Plan) {
    && (forall k | 0 <= k < |plan.shards| ::
          && Describes(plan.shards[k]) && |plan.shards[k].records| > 0
          && plan.shards[k].output == ShardName(plan.policy, k))
    && plan.outputRecords == Counted(plan.shards)
    && plan.skippedRecords == 0
  }

  /** What the loop keeps about the plan and the open shard. */
  ghost predicate Building(p: Progress) {
    && InPlan(p.plan)
    && p.index == |p.plan.shards|
    && Describes(p.current)
    && p.current.output == ShardName(p.plan.policy, p.index)
    && PassesTests(p.plan.policy, p.current.records)
  }

  lemma ClosedKeeps(plan: Plan, current: Shard, next: Reason)
    requires InPlan(plan) && Describes(current) && |current.records| > 0
    requires current.output == ShardName(plan.policy, |plan.shards|)
    ensures InPlan(Closed(plan, current, next))
    ensures Closed(plan, current, next).shards == plan.shards + [current.(reason := next)]
  {
    var shards := plan.shards + [current.(reason := next)];
    assert shards[..|plan.shards|] == plan.shards;
  }

  lemma SegmentsOne(shards: seq<Shard>, shard: Shard)
    ensures Segments(shards + [shard]) == Segments(shards) + [shard.records]
  {
  }

  lemma InOrderPart(a: seq<Record>, b: seq<Record>, c: seq<Record>)
    requires InOrder(a + b + c)
    ensures InOrder(a + b) && InOrder(b + c)
  {
    var all := a + b + c;
    assert forall i | 0 <= i < |a + b| :: (a + b)[i] == all[i];
    assert forall i | 0 <= i < |b + c| :: (b + c)[i] == all[|a| + i];
  }

  lemma CopiedBuilding(p: Progress, record: Record)
    requires Building(p) && InOrder(p.current.records + [record])
    requires PassesTests(p.plan.policy, p.current.records + [record])
    ensures Building(Copied(p, record)) && Copied(p, record).current.records == p.current.records + [record]
  {
    ExtendedDescribes(p.current, record);
  }

  lemma ReopenedBuilding(p: Progress, reason: Reason)
    requires Building(p) && |p.current.records| > 0
    ensures Building(Reopened(p, reason)) && Reopened(p, reason).current.records == []
    ensures Segments(Reopened(p, reason).plan.shards) == Segments(p.plan.shards) + [p.current.records]
  {
    ClosedKeeps(p.plan, p.current, reason);
    SegmentsOne(p.plan.shards, p.current.(reason := reason));
  }

  /** One turn of the loop: it keeps its invariant, and grows or closes the open shard as the
      greedy segmentation does. */
  lemma FedStep(p: Progress, record: Record)
    requires Building(p) && InOrder(p.current.records + [record])
    ensures Building(Fed(p, record)) && Fed(p, record).plan.policy == p.plan.policy
    ensures Fed(p, record).plan.inputRecords == p.plan.inputRecords
    ensures var q := Fed(p, record);
      if |p.current.records| == 0 || PassesTests(p.plan.policy, p.current.records + [record]) then
        q.current.records == p.current.records + [record] && q.plan.shards == p.plan.shards
      else
        && q.current.records == [record]
        && Segments(q.plan.shards) == Segments(p.plan.shards) + [p.current.records]
  {
    var boundary := Boundary(p.plan.policy, p.current, record);
    if |p.current.records| > 0 {
      BoundaryExactly(p.plan.policy, p.current, record);
    }
    if boundary.None? {
      CopiedBuilding(p, record);
    } else {
      assert [] + [record] == [record];
      ReopenedBuilding(p, boundary.value);
      CopiedBuilding(Reopened(p, boundary.value), record);
    }
  }

  /** From `p` on, the loop and the closing step make the greedy segmentation. */
  ghost predicate Greedily(p: Progress, rest: seq<Record>) {
    var plan := Finished(FedAll(p, rest));
    && InPlan(plan) && plan.policy == p.plan.policy && plan.inputRecords == p.plan.inputRecords
    && Segments(plan.shards) == Segments(p.plan.shards) + Greedy(p.plan.policy, p.current.records, rest)
  }

  lemma GreedilyEnds(p: Progress)
    requires Building(p) && |p.current.records| > 0
    ensures Greedily(p, [])
  {
    ClosedKeeps(p.plan, p.current, Unbounded);
    SegmentsOne(p.plan.shards, p.current.(reason := Unbounded));
  }

  lemma GreedilyStep(p: Progress, rest: seq<Record>)
    requires |rest| > 0 && Building(p) && Greedily(Fed(p, rest[0]), rest[1..])
    requires InOrder(p.current.records + [rest[0]])
    ensures Greedily(p, rest)
  {
    var records, q := p.current.records, Fed(p, rest[0]);
    FedStep(p, rest[0]);
    assert FedAll(p, rest) == FedAll(q, rest[1..]);
    if |records| > 0 && !PassesTests(p.plan.policy, records + [rest[0]]) {
      ThreeParts(Segments(p.plan.shards), records, Greedy(p.plan.policy, [rest[0]], rest[1..]));
    }
  }

  /** The records are still in order after one turn of the loop. */
  lemma LoopOrder(records: seq<Record>, rest: seq<Record>)
    requires |rest| > 0 && InOrder(records + rest)
    ensures InOrder(records + [rest[0]]) && InOrder(records + [rest[0]] + rest[1..]) && InOrder([rest[0]] + rest[1..])
  {
    assert records + rest == records + [rest[0]] + rest[1..];
    InOrderPart(records, [rest[0]], rest[1..]);
  }

  lemma {:induction false} LoopIsGreedy(p: Progress, rest: seq<Record>)
    requires Building(p) && |p.current.records| + |rest| > 0
    requires InOrder(p.current.records + rest)
    ensures Greedily(p, rest)
    decreases |rest|
  {
    if |rest| == 0 {
      GreedilyEnds(p);
    } else {
      LoopOrder(p.current.records, rest);
      FedStep(p, rest[0]);
      LoopIsGreedy(Fed(p, rest[0]), rest[1..]);
      GreedilyStep(p, rest);
    }
  }

  lemma ThreeParts<T>(a: seq<T>, b: T, c: seq<T>)
    ensures a + [b] + c == a + ([b] + c)
  {
  }

  // ----- the theorems about a whole plan

  /** What planning demands of its caller; it refuses everything else. */
  predicate Plannable(policy: Policy) {
    policy.prefix != "" && policy.extension != ""
  }

  lemma CollectedInOrder(inputs: seq<seq<Record>>)
    ensures IsStableSort(Collected(inputs), Joined(inputs), ByTime)
    ensures InOrder(Collected(inputs))
  {
    SortIsStable(Joined(inputs), ByTime);
    var out := Collected(inputs);
    forall i, j | 0 <= i < j < |out|
      ensures out[i].time <= out[j].time
    {
      assert !Less(ByTime(out[j]), ByTime(out[i]));
    }
  }

  lemma FirstBuilding(policy: Policy, archives: nat, records: nat)
    ensures Building(FirstShard(EmptyPlan(policy, archives, records)))
    ensures Segments(EmptyPlan(policy, archives, records).shards) == []
  {
  }

  lemma PlanIsGreedy(inputs: seq<seq<Record>>, policy: Policy)
    requires Plannable(policy) && |Collected(inputs)| > 0
    ensures Planned(inputs, policy).Ok?
    ensures var plan := Planned(inputs, policy).value;
      && InPlan(plan) && plan.policy == policy && plan.inputRecords == |Collected(inputs)|
      && Segments(plan.shards) == Greedy(policy, [], Collected(inputs))
  {
    CollectedInOrder(inputs);
    var records := Collected(inputs);
    var p := FirstShard(EmptyPlan(policy, |inputs|, |records|));
    assert [] + records == records;
    FirstBuilding(policy, |inputs|, |records|);
    LoopIsGreedy(p, records);
    assert Planned(inputs, policy) == Ok(Finished(FedAll(p, records)));
    assert [] + Greedy(policy, [], records) == Greedy(policy, [], records);
  }

  /** The shards are consecutive non-empty stretches of the records in time order, losing none, and
      each passes the planner's tests; without records there is at most an empty shard. */
  lemma PlanPartitions(inputs: seq<seq<Record>>, policy: Policy)
    requires Plannable(policy)
    ensures Planned(inputs, policy).Ok?
    ensures var segments := Segments(Planned(inputs, policy).value.shards);
      if |Collected(inputs)| > 0 then Partitions(segments, Collected(inputs)) && AllPass(policy, segments)
      else segments == if policy.keepEmpty then [[]] else []
  {
    var records := Collected(inputs);
    if |records| > 0 {
      PlanIsGreedy(inputs, policy);
      GreedyPartitions(policy, [], records);
      assert [] + records == records;
    }
  }

  /** Every shard meets every enabled limit, except exactly where a shard of two or more records has
      a tested sum of 2^64 or more. */
  lemma PlanMeetsLimitsExactly(inputs: seq<seq<Record>>, policy: Policy)
    requires Plannable(policy) && |Collected(inputs)| > 0
    ensures Planned(inputs, policy).Ok?
    ensures var segments := Segments(Planned(inputs, policy).value.shards);
      Admissible(policy, segments, Collected(inputs))
      <==> forall k | 0 <= k < |segments| :: |segments[k]| >= 2 ==> SumsFit(policy, segments[k])
  {
    PlanPartitions(inputs, policy);
    var segments := Segments(Planned(inputs, policy).value.shards);
    forall k | 0 <= k < |segments|
      ensures MeetsLimits(policy, segments[k]) <==> (|segments[k]| >= 2 ==> SumsFit(policy, segments[k]))
    {
      TestsExactly(policy, segments[k]);
    }
  }

  /** In particular it does if the tested sums over all records fit. */
  lemma PlanMeetsLimits(inputs: seq<seq<Record>>, policy: Policy)
    requires Plannable(policy) && |Collected(inputs)| > 0 && SumsFit(policy, Collected(inputs))
    ensures Planned(inputs, policy).Ok?
    ensures Admissible(policy, Segments(Planned(inputs, policy).value.shards), Collected(inputs))
  {
    PlanPartitions(inputs, policy);
    PlanMeetsLimitsExactly(inputs, policy);
    var segments := Segments(Planned(inputs, policy).value.shards);
    forall k | 0 <= k < |segments|
      ensures SumsFit(policy, segments[k])
    {
      SegmentsFit(policy, segments, k);
    }
  }

  /** No partition of the sorted records into consecutive shards within the limits is smaller. */
  lemma PlanIsSmallest(inputs: seq<seq<Record>>, policy: Policy, other: seq<seq<Record>>)
    requires Plannable(policy) && |Collected(inputs)| > 0
    requires Admissible(policy, other, Collected(inputs))
    ensures Planned(inputs, policy).Ok? && |Planned(inputs, policy).value.shards| <= |other|
  {
    var records := Collected(inputs);
    CollectedInOrder(inputs);
    PlanIsGreedy(inputs, policy);
    assert [] + [records[0]] == [records[0]];
    assert [] + [records[0]] + records[1..] == records;
    GreedyStaysAhead(policy, [], [records[0]], records[1..], other);
    assert |Segments(Planned(inputs, policy).value.shards)| == |Planned(inputs, policy).value.shards|;
  }

  predicate HasLimits(policy: Policy) {
    policy.maxRecords != 0 || policy.maxPayload != 0 || policy.maxSpan != 0 || policy.maxFile != 0
    || policy.idleGap != 0
  }

  /** Without limits everything goes into one shard. */
  lemma UnlimitedIsOneShard(inputs: seq<seq<Record>>, policy: Policy)
    requires Plannable(policy) && |Collected(inputs)| > 0 && !HasLimits(policy)
    ensures Planned(inputs, policy).Ok? && |Planned(inputs, policy).value.shards| == 1
  {
    var records := Collected(inputs);
    var whole := [records];
    assert whole[1..] == [] && records + [] == records;
    assert Flatten(whole) == records;
    PlanIsSmallest(inputs, policy, whole);
    PlanPartitions(inputs, policy);
  }

  // ----- names tell shards apart

  function DigitValue(c: char): int {
    c as int - '0' as int
  }

  function DecimalValue(s: string): int
    decreases |s|
  {
    if |s| == 0 then 0 else 10 * DecimalValue(s[..|s| - 1]) + DigitValue(s[|s| - 1])
  }

  lemma {:induction false} DecimalBack(n: nat)
    ensures DecimalValue(Decimal(n)) == n
    decreases n
  {
    if n < 10 {
      assert Decimal(n)[..0] == [];
    } else {
      DecimalBack(n / 10);
      assert Decimal(n)[..|Decimal(n)| - 1] == Decimal(n / 10);
    }
  }

  lemma {:induction false} LeadingZero(s: string)
    ensures DecimalValue("0" + s) == DecimalValue(s)
    decreases |s|
  {
    if |s| == 0 {
      assert "0" + s == "0" && "0"[..0] == [];
    } else {
      assert ("0" + s)[..|s|] == "0" + s[..|s| - 1];
      LeadingZero(s[..|s| - 1]);
    }
  }

  lemma {:induction false} PaddedBack(s: string, width: nat)
    ensures DecimalValue(Padded(s, width)) == DecimalValue(s)
    decreases width - |s|
  {
    if |s| < width {
      PaddedBack("0" + s, width);
      LeadingZero(s);
    }
  }

  lemma ShardNamesDiffer(policy: Policy, i: nat, j: nat)
    requires ShardName(policy, i) == ShardName(policy, j)
    ensures i == j
  {
    var a, b := Padded(Decimal(i), 6), Padded(Decimal(j), 6);
    var head := policy.prefix + "_";
    assert (head + a + policy.extension)[|head|..|head| + |a|] == a;
    assert (head + b + policy.extension)[|head|..|head| + |b|] == b;
    assert |a| == |b|;
    PaddedBack(Decimal(i), 6);
    PaddedBack(Decimal(j), 6);
    DecimalBack(i);
    DecimalBack(j);
  }

  // ----- validation

  /** A plan that may be executed. */
  ghost predicate Consistent(plan: Plan) {
    && SoundShards(plan.policy, plan.shards)
    && Counted(plan.shards) == plan.outputRecords
    && plan.outputRecords + plan.skippedRecords == plan.inputRecords
  }

  predicate SoundShard(policy: Policy, shard: Shard) {
    && shard.output != ""
    && shard.count == |shard.records|
    && (shard.count == 0 ==> policy.keepEmpty)
    && (shard.count != 0 ==> shard.first <= shard.last)
  }

  lemma ShardWarningsExactly(policy: Policy, shard: Shard, seen: set<string>)
    ensures ShardWarnings(policy, shard, seen) == [] <==> SoundShard(policy, shard) && shard.output !in seen
  {
  }

  /** Sound shards with different paths. */
  ghost predicate SoundShards(policy: Policy, shards: seq<Shard>) {
    && (forall k | 0 <= k < |shards| :: SoundShard(policy, shards[k]))
    && (forall j, k | 0 <= j < k < |shards| :: shards[j].output != shards[k].output)
  }

  lemma OutputIn(shards: seq<Shard>, output: string)
    ensures output in Outputs(shards) <==> exists j :: 0 <= j < |shards| && shards[j].output == output
  {
  }

  lemma SoundShardsOneMore(policy: Policy, shards: seq<Shard>, last: Shard)
    ensures SoundShards(policy, shards + [last])
        <==> SoundShards(policy, shards) && SoundShard(policy, last) && last.output !in Outputs(shards)
  {
    var all := shards + [last];
    assert forall k | 0 <= k < |shards| :: all[k] == shards[k];
    assert all[|shards|] == last;
    OutputIn(shards, last.output);
  }

  lemma {:induction false} WarningsFromExactly(policy: Policy, shards: seq<Shard>)
    ensures WarningsFrom(policy, shards) == [] <==> SoundShards(policy, shards)
    decreases |shards|
  {
    if |shards| > 0 {
      var n := |shards| - 1;
      assert shards == shards[..n] + [shards[n]];
      WarningsFromExactly(policy, shards[..n]);
      ShardWarningsExactly(policy, shards[n], Outputs(shards[..n]));
      SoundShardsOneMore(policy, shards[..n], shards[n]);
    }
  }

  /** Validation is silent exactly about consistent plans. */
  lemma WarningsExactly(plan: Plan)
    ensures Warnings(plan) == [] <==> Consistent(plan)
  {
    WarningsFromExactly(plan.policy, plan.shards);
  }

  lemma {:induction false} CountedIsTotal(shards: seq<Shard>)
    requires forall k | 0 <= k < |shards| :: shards[k].count == |shards[k].records|
    ensures Counted(shards) == |Flatten(Segments(shards))|
    decreases |shards|
  {
    if |shards| > 0 {
      var n := |shards| - 1;
      CountedIsTotal(shards[..n]);
      assert Segments(shards) == Segments(shards[..n]) + [shards[n].records];
      FlattenOne(Segments(shards[..n]), shards[n].records);
    }
  }

  lemma {:induction false} FlattenOne(segments: seq<seq<Record>>, last: seq<Record>)
    ensures Flatten(segments + [last]) == Flatten(segments) + last
    decreases |segments|
  {
    if |segments| == 0 {
      assert [last][1..] == [] && segments + [last] == [last];
    } else {
      assert (segments + [last])[1..] == segments[1..] + [last];
      FlattenOne(segments[1..], last);
    }
  }

  lemma BuiltIsConsistent(plan: Plan, records: seq<Record>)
    requires InPlan(plan) && plan.inputRecords == |records| && Flatten(Segments(plan.shards)) == records
    ensures Consistent(plan)
  {
    CountedIsTotal(plan.shards);
    forall j, k | 0 <= j < k < |plan.shards|
      ensures plan.shards[j].output != plan.shards[k].output
    {
      if plan.shards[j].output == plan.shards[k].output {
        ShardNamesDiffer(plan.policy, j, k);
      }
    }
  }

  /** Every plan made passes its own validation. */
  lemma PlanValidates(inputs: seq<seq<Record>>, policy: Policy)
    requires Plannable(policy)
    ensures Planned(inputs, policy).Ok? && Warnings(Planned(inputs, policy).value) == []
  {
    if |Collected(inputs)| > 0 {
      PlanIsGreedy(inputs, policy);
      PlanPartitions(inputs, policy);
      BuiltIsConsistent(Planned(inputs, policy).value, Collected(inputs));
      WarningsExactly(Planned(inputs, policy).value);
    } else {
      EmptyValidates(inputs, policy);
    }
  }

  lemma EmptyValidates(inputs: seq<seq<Record>>, policy: Policy)
    requires policy.prefix != "" && policy.extension != "" && |Collected(inputs)| == 0
    ensures Planned(inputs, policy).Ok? && Warnings(Planned(inputs, policy).value) == []
  {
    var plan := Planned(inputs, policy).value;
    assert Counted(plan.shards) == 0;
    WarningsExactly(plan);
  }

  // ----- the steps write the shards

  function Copies(shard: Shard): seq<Step> {
    seq(|shard.records|, i requires 0 <= i < |shard.records| => CopyRecord(shard.records[i], shard.output))
  }

  /** The steps that write one shard, its archive having been started for `reason`. */
  function ShardSteps(reason: Reason, shard: Shard): seq<Step> {
    [StartArchive(reason, shard.output)] + Copies(shard) + [CloseArchive(shard.reason, shard.output)]
  }

  /** A shard is started for the reason its predecessor was closed. */
  function Opening(shards: seq<Shard>): Reason {
    if |shards| == 0 then Unbounded else shards[|shards| - 1].reason
  }

  function AllSteps(shards: seq<Shard>): seq<Step>
    decreases |shards|
  {
    if |shards| == 0 then [] else
      var before := shards[..|shards| - 1];
      AllSteps(before) + ShardSteps(Opening(before), shards[|shards| - 1])
  }

  /** The steps so far write the closed shards and the open one. */
  ghost predicate Written(p: Progress) {
    p.plan.steps
    == AllSteps(p.plan.shards) + ([StartArchive(Opening(p.plan.shards), p.current.output)] + Copies(p.current))
  }

  lemma AllStepsOne(shards: seq<Shard>, shard: Shard)
    ensures AllSteps(shards + [shard]) == AllSteps(shards) + ShardSteps(Opening(shards), shard)
  {
    assert (shards + [shard])[..|shards|] == shards;
  }

  /** Closing the open shard completes its steps. */
  lemma ClosedWritten(p: Progress, next: Reason)
    requires Written(p) && (|p.current.records| > 0 || p.plan.policy.keepEmpty)
    ensures Closed(p.plan, p.current, next).steps == AllSteps(Closed(p.plan, p.current, next).shards)
    ensures Opening(Closed(p.plan, p.current, next).shards) == next
  {
    AllStepsOne(p.plan.shards, p.current.(reason := next));
    var open := [StartArchive(Opening(p.plan.shards), p.current.output)] + Copies(p.current);
    assert Copies(p.current.(reason := next)) == Copies(p.current);
    FourParts(AllSteps(p.plan.shards), open, [CloseArchive(next, p.current.output)]);
  }

  lemma FourParts<T>(a: seq<T>, b: seq<T>, c: seq<T>)
    ensures a + b + c == a + (b + c)
  {
  }

  lemma CopiesOne(shard: Shard, record: Record)
    ensures Copies(Extended(shard, record)) == Copies(shard) + [CopyRecord(record, shard.output)]
  {
  }

  lemma AppendedWritten(p: Progress, record: Record)
    requires Written(p)
    ensures Written(p.(current := Extended(p.current, record),
                       plan := p.plan.(steps := p.plan.steps + [CopyRecord(record, p.current.output)])))
  {
    CopiesOne(p.current, record);
    var start := [StartArchive(Opening(p.plan.shards), p.current.output)];
    FourParts(start, Copies(p.current), [CopyRecord(record, p.current.output)]);
    FourParts(AllSteps(p.plan.shards), start + Copies(p.current), [CopyRecord(record, p.current.output)]);
  }

  /** Closing a shard and starting the next one leaves its steps open. */
  lemma ReopenedWritten(p: Progress, reason: Reason)
    requires Written(p) && |p.current.records| > 0
    ensures Written(Reopened(p, reason))
  {
    ClosedWritten(p, reason);
    assert Copies(Reopened(p, reason).current) == [];
  }

  lemma FedWritten(p: Progress, record: Record)
    requires p.current.count == |p.current.records| && Written(p)
    ensures Written(Fed(p, record)) && Fed(p, record).current.count == |Fed(p, record).current.records|
  {
    var boundary := Boundary(p.plan.policy, p.current, record);
    if boundary.None? {
      AppendedWritten(p, record);
    } else {
      ReopenedWritten(p, boundary.value);
      AppendedWritten(Reopened(p, boundary.value), record);
    }
  }

  lemma {:induction false} LoopWritten(p: Progress, rest: seq<Record>)
    requires p.current.count == |p.current.records| && Written(p)
    requires |p.current.records| + |rest| > 0 || p.plan.policy.keepEmpty
    ensures Finished(FedAll(p, rest)).steps == AllSteps(Finished(FedAll(p, rest)).shards)
    decreases |rest|
  {
    if |rest| == 0 {
      ClosedWritten(p, Unbounded);
    } else {
      FedWritten(p, rest[0]);
      LoopWritten(Fed(p, rest[0]), rest[1..]);
    }
  }

  /** The steps of a plan start each shard's archive, copy its records in order and close it, shard
      by shard; sums may even wrap. */
  lemma StepsWriteShards(inputs: seq<seq<Record>>, policy: Policy)
    requires Planned(inputs, policy).Ok?
    ensures Planned(inputs, policy).value.steps == AllSteps(Planned(inputs, policy).value.shards)
  {
    var records := Collected(inputs);
    if |records| > 0 || policy.keepEmpty {
      var p := FirstShard(EmptyPlan(policy, |inputs|, |records|));
      assert Copies(p.current) == [];
      assert Written(p);
      LoopWritten(p, records);
    }
  }
}
