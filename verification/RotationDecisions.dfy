/** Why a rotation plan starts each archive, what it says of each, and in what order it takes the records, in
    terms of the records alone. */
module RotationDecisions {
  import opened Words
  import opened Wrappers
  import opened Sorting
  import opened Rotation
  import opened RotationTheorems

  // ----- the order of the records

  /** By time, then by source path, then by offset. */
  predicate ComesFirst(a: Record, b: Record) {
    || a.time < b.time
    || (a.time == b.time && (a.source < b.source || (a.source == b.source && a.offset <= b.offset)))
  }

  lemma CollectedExactly(inputs: seq<seq<Record>>, i: nat, j: nat)
    requires i < j < |Collected(inputs)|
    ensures ComesFirst(Collected(inputs)[i], Collected(inputs)[j])
  {
    CollectedInOrder(inputs);
    assert !Less(ByTime(Collected(inputs)[j]), ByTime(Collected(inputs)[i]));
  }

  lemma {:induction false} JoinedIsFlatten(inputs: seq<seq<Record>>)
    ensures Joined(inputs) == Flatten(inputs)
    decreases |inputs|
  {
    if |inputs| > 0 {
      var n := |inputs| - 1;
      JoinedIsFlatten(inputs[..n]);
      FlattenOne(inputs[..n], inputs[n]);
      assert inputs[..n] + [inputs[n]] == inputs;
    }
  }

  /** All the records, each as often as the inputs hold it. */
  lemma CollectedAll(inputs: seq<seq<Record>>)
    ensures multiset(Collected(inputs)) == multiset(Flatten(inputs))
  {
    JoinedIsFlatten(inputs);
    SortPermutes(Joined(inputs), ByTime);
  }

  // ----- why a record cannot join the ones before it

  /** The first limit that the record would break; the sums are taken in 64 bits, and an archive has a header of
      36 bytes and 16 bytes in front of each record. */
  function WhyApart(policy: Policy, before: seq<Record>, record: Record): Option<Reason>
    requires |before| > 0
  {
    var sum := TotalPayload(before) + record.payload;
    if policy.maxRecords != 0 && |before| + 1 > policy.maxRecords then Some(MaxRecords)
    else if policy.maxPayload != 0 && sum % TWO_64 > policy.maxPayload then Some(MaxPayload)
    else if policy.maxSpan != 0 && record.time - before[0].time > policy.maxSpan then Some(MaxSpan)
    else if policy.maxFile != 0 && (36 + 16 * (|before| + 1) + sum) % TWO_64 > policy.maxFile then Some(MaxFile)
    else if policy.idleGap != 0 && record.time - before[|before| - 1].time > policy.idleGap then Some(IdleGap)
    else None
  }

  lemma BoundaryIsWhy(policy: Policy, shard: Shard, record: Record)
    requires Describes(shard) && |shard.records| > 0 && InOrder(shard.records + [record])
    ensures Boundary(policy, shard, record) == WhyApart(policy, shard.records, record)
  {
    SumsOne(shard, record);
    TotalPayloadOne(shard.records, record);
    InOrderOne(shard.records, record);
  }

  // ----- the reasons along a plan

  /** Each shard but the last was closed because the first record of the next could not join it. */
  ghost predicate Explained(policy: Policy, shards: seq<Shard>) {
    forall k | 0 <= k < |shards| - 1 :: ClosedFor(policy, shards[k], shards[k + 1])
  }

  predicate ClosedFor(policy: Policy, shard: Shard, next: Shard) {
    && |shard.records| > 0 && |next.records| > 0
    && WhyApart(policy, shard.records, next.records[0]) == Some(shard.reason)
  }

  /** The closed shards, and the open one behind them, explain themselves. */
  ghost predicate ExplainedSoFar(p: Progress) {
    && Explained(p.plan.policy, p.plan.shards)
    && (|p.plan.shards| > 0 ==> ClosedFor(p.plan.policy, p.plan.shards[|p.plan.shards| - 1], p.current))
  }

  lemma ExplainedMore(policy: Policy, shards: seq<Shard>, shard: Shard)
    requires Explained(policy, shards)
    requires |shards| > 0 ==> ClosedFor(policy, shards[|shards| - 1], shard)
    ensures Explained(policy, shards + [shard])
  {
    var all := shards + [shard];
    forall k | 0 <= k < |all| - 1
      ensures ClosedFor(policy, all[k], all[k + 1])
    {
      assert all[k] == shards[k] && all[k + 1] == if k + 1 < |shards| then shards[k + 1] else shard;
    }
  }

  lemma FedExplained(p: Progress, record: Record)
    requires Building(p) && ExplainedSoFar(p) && InOrder(p.current.records + [record])
    ensures ExplainedSoFar(Fed(p, record))
  {
    if |p.current.records| > 0 {
      BoundaryIsWhy(p.plan.policy, p.current, record);
      var why := WhyApart(p.plan.policy, p.current.records, record);
      if why.Some? {
        var shard := p.current.(reason := why.value);
        ClosedKeeps(p.plan, p.current, why.value);
        ExplainedMore(p.plan.policy, p.plan.shards, shard);
        assert Fed(p, record).plan.shards == p.plan.shards + [shard];
        assert Fed(p, record).current.records == [record];
      }
    }
  }

  lemma {:induction false} LoopExplained(p: Progress, rest: seq<Record>)
    requires Building(p) && ExplainedSoFar(p) && |p.current.records| + |rest| > 0
    requires InOrder(p.current.records + rest)
    ensures var plan := Finished(FedAll(p, rest));
      && Explained(p.plan.policy, plan.shards) && |plan.shards| > 0
      && plan.shards[|plan.shards| - 1].reason == Unbounded
    decreases |rest|
  {
    if |rest| == 0 {
      ClosedKeeps(p.plan, p.current, Unbounded);
      ExplainedMore(p.plan.policy, p.plan.shards, p.current.(reason := Unbounded));
    } else {
      LoopOrder(p.current.records, rest);
      FedStep(p, rest[0]);
      FedExplained(p, rest[0]);
      LoopExplained(Fed(p, rest[0]), rest[1..]);
    }
  }

  /** A shard as its records, its number and its reason make it. */
  function ShardOf(policy: Policy, number: nat, records: seq<Record>, reason: Reason): Shard
    requires |records| > 0
  {
    Shard(ShardName(policy, number), reason, |records|, TotalPayload(records) % TWO_64,
          (36 + 16 * |records| + TotalPayload(records)) % TWO_64, records[0].time, records[|records| - 1].time, records)
  }

  lemma DescribedShard(policy: Policy, number: nat, shard: Shard)
    requires Describes(shard) && |shard.records| > 0 && shard.output == ShardName(policy, number)
    ensures shard == ShardOf(policy, number, shard.records, shard.reason)
  {
  }

  lemma LoopFromStart(records: seq<Record>, policy: Policy, archives: nat)
    requires |records| > 0 && InOrder(records)
    ensures var plan := Finished(FedAll(FirstShard(EmptyPlan(policy, archives, |records|)), records));
      Explained(policy, plan.shards) && |plan.shards| > 0 && plan.shards[|plan.shards| - 1].reason == Unbounded
  {
    FirstBuilding(policy, archives, |records|);
    assert [] + records == records;
    LoopExplained(FirstShard(EmptyPlan(policy, archives, |records|)), records);
  }

  lemma PlanExplained(inputs: seq<seq<Record>>, policy: Policy)
    requires policy.prefix != "" && policy.extension != "" && |Collected(inputs)| > 0
    ensures Planned(inputs, policy).Ok?
    ensures var shards := Planned(inputs, policy).value.shards;
      Explained(policy, shards) && |shards| > 0 && shards[|shards| - 1].reason == Unbounded
  {
    CollectedInOrder(inputs);
    LoopFromStart(Collected(inputs), policy, |inputs|);
  }

  /** Every shard of a plan but the last says why the next one had to be started, the last says nothing, and each
      has the name, counters and times of its records. */
  lemma ReasonsExactly(inputs: seq<seq<Record>>, policy: Policy)
    requires policy.prefix != "" && policy.extension != "" && |Collected(inputs)| > 0
    ensures Planned(inputs, policy).Ok?
    ensures var shards := Planned(inputs, policy).value.shards;
      && |shards| > 0 && Explained(policy, shards) && shards[|shards| - 1].reason == Unbounded
      && forall k | 0 <= k < |shards| :: |shards[k].records| > 0
           && shards[k] == ShardOf(policy, k, shards[k].records, shards[k].reason)
  {
    PlanExplained(inputs, policy);
    PlanIsGreedy(inputs, policy);
    var shards := Planned(inputs, policy).value.shards;
    forall k | 0 <= k < |shards|
      ensures |shards[k].records| > 0 && shards[k] == ShardOf(policy, k, shards[k].records, shards[k].reason)
    {
      DescribedShard(policy, k, shards[k]);
    }
  }

  /** Planning is refused exactly without a prefix or an extension. */
  lemma RefusedExactly(inputs: seq<seq<Record>>, policy: Policy)
    ensures Planned(inputs, policy).Err? <==> policy.prefix == "" || policy.extension == ""
    ensures Planned(inputs, policy).Err? ==> Planned(inputs, policy).error == InvalidArgument
  {
  }

  // ----- names

  predicate AllDigits(s: string) {
    forall i | 0 <= i < |s| :: '0' <= s[i] <= '9'
  }

  lemma {:induction false} DecimalDigits(n: nat)
    ensures AllDigits(Decimal(n)) && |Decimal(n)| > 0
    decreases n
  {
    if n >= 10 {
      DecimalDigits(n / 10);
    }
  }

  lemma {:induction false} PaddedDigits(s: string, width: nat)
    requires AllDigits(s)
    ensures AllDigits(Padded(s, width)) && |Padded(s, width)| == Max(|s|, width)
    decreases width - |s|
  {
    if |s| < width {
      PaddedDigits("0" + s, width);
    }
  }

  /** A shard's name is the prefix, an underscore, its number in at least six decimal digits, and the extension. */
  lemma NamedExactly(policy: Policy, number: nat)
    ensures exists digits: string ::
      && ShardName(policy, number) == policy.prefix + "_" + digits + policy.extension
      && AllDigits(digits) && DecimalValue(digits) == number && |digits| == Max(|Decimal(number)|, 6)
  {
    DecimalDigits(number);
    PaddedDigits(Decimal(number), 6);
    DecimalBack(number);
    PaddedBack(Decimal(number), 6);
  }

  // ----- counts and warnings

  /** What a plan counts. */
  lemma {:induction false} LoopCounts(p: Progress, records: seq<Record>)
    ensures var plan := FedAll(p, records).plan;
      && plan.inputArchives == p.plan.inputArchives && plan.inputRecords == p.plan.inputRecords
      && plan.skippedRecords == p.plan.skippedRecords && plan.policy == p.plan.policy
    decreases |records|
  {
    if |records| > 0 {
      LoopCounts(Fed(p, records[0]), records[1..]);
    }
  }

  lemma PlanCounts(inputs: seq<seq<Record>>, policy: Policy)
    requires Planned(inputs, policy).Ok?
    ensures var plan := Planned(inputs, policy).value;
      && plan.policy == policy && plan.inputArchives == |inputs| && plan.skippedRecords == 0
      && plan.inputRecords == |Collected(inputs)| == plan.outputRecords
  {
    var records := Collected(inputs);
    LoopCounts(FirstShard(EmptyPlan(policy, |inputs|, |records|)), records);
    PlanValidates(inputs, policy);
    WarningsExactly(Planned(inputs, policy).value);
  }

  lemma InOneOfFive<T>(a: seq<T>, b: seq<T>, c: seq<T>, d: seq<T>, e: seq<T>, x: T)
    ensures x in a + b + c + d + e <==> x in a || x in b || x in c || x in d || x in e
  {
  }

  /** The fault that the warning stands for. */
  predicate HasFault(policy: Policy, shard: Shard, seen: set<string>, w: Warning) {
    match w
    case EmptyPath => shard.output == ""
    case DuplicatePath => shard.output in seen
    case CountDiffers => shard.count != |shard.records|
    case EmptyShard => shard.count == 0 && !policy.keepEmpty
    case InvertedRange => shard.count != 0 && shard.first > shard.last
    case TotalDiffers => false
    case InputsUnaccounted => false
  }

  /** Each warning about a shard stands for its own fault. */
  lemma ShardWarnedExactly(policy: Policy, shard: Shard, seen: set<string>, w: Warning)
    ensures w in ShardWarnings(policy, shard, seen) <==> HasFault(policy, shard, seen, w)
  {
    InOneOfFive(if shard.output == "" then [EmptyPath] else [],
                if shard.output in seen then [DuplicatePath] else [],
                if shard.count != |shard.records| then [CountDiffers] else [],
                if shard.count == 0 && !policy.keepEmpty then [EmptyShard] else [],
                if shard.count != 0 && shard.first > shard.last then [InvertedRange] else [], w);
  }

  lemma {:induction false} NoTotalsFrom(policy: Policy, shards: seq<Shard>, w: Warning)
    requires w == TotalDiffers || w == InputsUnaccounted
    ensures w !in WarningsFrom(policy, shards)
    decreases |shards|
  {
    if |shards| > 0 {
      NoTotalsFrom(policy, shards[..|shards| - 1], w);
      ShardWarnedExactly(policy, shards[|shards| - 1], Outputs(shards[..|shards| - 1]), w);
    }
  }

  /** And each warning about a plan for its own. */
  lemma PlanWarnedExactly(plan: Plan)
    ensures TotalDiffers in Warnings(plan) <==> Counted(plan.shards) != plan.outputRecords
    ensures InputsUnaccounted in Warnings(plan)
        <==> plan.outputRecords + plan.skippedRecords != plan.inputRecords
  {
    NoTotalsFrom(plan.policy, plan.shards, TotalDiffers);
    NoTotalsFrom(plan.policy, plan.shards, InputsUnaccounted);
  }
}
