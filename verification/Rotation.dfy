/** Archive rotation planning and plan validation, src/storage/archive_rotation.cpp. */
module Rotation {
  import opened Words
  import opened Wrappers
  import opened Sorting

  const HEADER_BYTES: nat := 36
  const RECORD_BYTES: nat := 16

  datatype Reason = Unbounded | MaxRecords | MaxPayload | MaxSpan | MaxFile | IdleGap

  /** Zero switches a limit off. */
  datatype Policy = Policy(
    maxRecords: uint64, maxPayload: uint64, maxSpan: uint64, maxFile: uint64, idleGap: uint64,
    keepEmpty: bool, prefix: string, extension: string)

  /** `source` is the rank of the source path among all paths. */
  datatype Record = Record(
    source: nat, offset: uint64, time: uint64, payload: uint64, device: uint64, sequence: uint32)

  datatype Shard = Shard(
    output: string, reason: Reason, count: nat, payload: uint64, fileBytes: uint64, first: uint64, last: uint64,
    records: seq<Record>)

  datatype Step =
    | StartArchive(reason: Reason, output: string)
    | CopyRecord(record: Record, output: string)
    | CloseArchive(reason: Reason, output: string)

  datatype Plan = Plan(
    policy: Policy, shards: seq<Shard>, steps: seq<Step>,
    inputArchives: nat, inputRecords: nat, outputRecords: nat, skippedRecords: nat)

  datatype Warning =
    | EmptyPath
    | DuplicatePath
    | CountDiffers
    | EmptyShard
    | InvertedRange
    | TotalDiffers
    | InputsUnaccounted

  // ----- names of shards

  function Digit(d: nat): char
    requires d < 10
  {
    '0' + d as char
  }

  function Decimal(n: nat): string
    decreases n
  {
    if n < 10 then [Digit(n)] else Decimal(n / 10) + [Digit(n % 10)]
  }

  /** Filled with zeros on the left up to `width`. */
  function Padded(s: string, width: nat): string
    decreases width - |s|
  {
    if |s| >= width then s else Padded("0" + s, width)
  }

  function ShardName(policy: Policy, index: nat): string {
    policy.prefix + "_" + Padded(Decimal(index), 6) + policy.extension
  }

  // ----- one shard

  function NewShard(policy: Policy, index: nat, reason: Reason): Shard {
    Shard(ShardName(policy, index), reason, 0, 0, HEADER_BYTES, 0, 0, [])
  }

  function FileBytesAfter(shard: Shard, record: Record): uint64 {
    Wrap64(shard.fileBytes + RECORD_BYTES + record.payload)
  }

  function SpanAfter(shard: Shard, record: Record): uint64 {
    if shard.count == 0 then 0 else Max(shard.last, record.time) - Min(shard.first, record.time)
  }

  /** Why the record opens a new shard, if it does. */
  function Boundary(policy: Policy, shard: Shard, record: Record): Option<Reason> {
    if shard.count == 0 then None
    else if policy.maxRecords != 0 && shard.count >= policy.maxRecords then Some(MaxRecords)
    else if policy.maxPayload != 0 && Wrap64(shard.payload + record.payload) > policy.maxPayload then
      Some(MaxPayload)
    else if policy.maxSpan != 0 && SpanAfter(shard, record) > policy.maxSpan then Some(MaxSpan)
    else if policy.maxFile != 0 && FileBytesAfter(shard, record) > policy.maxFile then Some(MaxFile)
    else if policy.idleGap != 0 && record.time > shard.last && record.time - shard.last > policy.idleGap then
      Some(IdleGap)
    else None
  }

  function Extended(shard: Shard, record: Record): Shard {
    var base := if shard.count == 0 then HEADER_BYTES else shard.fileBytes;
    shard.(
      first := if shard.count == 0 then record.time else Min(shard.first, record.time),
      last := if shard.count == 0 then record.time else Max(shard.last, record.time),
      count := shard.count + 1,
      payload := Wrap64(shard.payload + record.payload),
      fileBytes := Wrap64(base + RECORD_BYTES + record.payload),
      records := shard.records + [record])
  }

  // ----- the plan

  function Closed(plan: Plan, current: Shard, next: Reason): Plan {
    if |current.records| == 0 && !plan.policy.keepEmpty then plan
    else plan.(
      steps := plan.steps + [CloseArchive(next, current.output)],
      outputRecords := plan.outputRecords + current.count,
      shards := plan.shards + [current.(reason := next)])
  }

  function Started(plan: Plan, index: nat, reason: Reason): Plan {
    plan.(steps := plan.steps + [StartArchive(reason, ShardName(plan.policy, index))])
  }

  datatype Progress = Progress(plan: Plan, current: Shard, index: nat)

  /** The open shard is closed, and the next one started, for one reason. */
  function Reopened(p: Progress, reason: Reason): Progress {
    Progress(
      Started(Closed(p.plan, p.current, reason), p.index + 1, reason),
      NewShard(p.plan.policy, p.index + 1, reason), p.index + 1)
  }

  /** The record is copied into the open shard. */
  function Copied(p: Progress, record: Record): Progress {
    var current := Extended(p.current, record);
    p.(current := current, plan := p.plan.(steps := p.plan.steps + [CopyRecord(record, current.output)]))
  }

  /** One turn of the planning loop. */
  function Fed(p: Progress, record: Record): Progress {
    var boundary := Boundary(p.plan.policy, p.current, record);
    Copied(if boundary.None? then p else Reopened(p, boundary.value), record)
  }

  function FedAll(p: Progress, records: seq<Record>): Progress
    decreases |records|
  {
    if |records| == 0 then p else FedAll(Fed(p, records[0]), records[1..])
  }

  function Joined(inputs: seq<seq<Record>>): seq<Record>
    decreases |inputs|
  {
    if |inputs| == 0 then [] else Joined(inputs[..|inputs| - 1]) + inputs[|inputs| - 1]
  }

  function ByTime(record: Record): Key {
    Key(record.time, record.source, record.offset)
  }

  function Collected(inputs: seq<seq<Record>>): seq<Record> {
    Sort(Joined(inputs), ByTime)
  }

  function EmptyPlan(policy: Policy, archives: nat, records: nat): Plan {
    Plan(policy, [], [], archives, records, 0, 0)
  }

  function FirstShard(plan: Plan): Progress {
    Progress(Started(plan, 0, Unbounded), NewShard(plan.policy, 0, Unbounded), 0)
  }

  function Planned(inputs: seq<seq<Record>>, policy: Policy): Result<Plan> {
    if policy.prefix == "" || policy.extension == "" then Err(InvalidArgument) else
      var records := Collected(inputs);
      var plan := EmptyPlan(policy, |inputs|, |records|);
      if |records| == 0 && !policy.keepEmpty then Ok(plan) else
        var p := FedAll(FirstShard(plan), records);
        Ok(Closed(p.plan, p.current, Unbounded))
  }

  // ----- validation

  function ShardWarnings(policy: Policy, shard: Shard, seen: set<string>): seq<Warning> {
    (if shard.output == "" then [EmptyPath] else [])
    + (if shard.output in seen then [DuplicatePath] else [])
    + (if shard.count != |shard.records| then [CountDiffers] else [])
    + (if shard.count == 0 && !policy.keepEmpty then [EmptyShard] else [])
    + (if shard.count != 0 && shard.first > shard.last then [InvertedRange] else [])
  }

  function Outputs(shards: seq<Shard>): set<string> {
    set i | 0 <= i < |shards| :: shards[i].output
  }

  function WarningsFrom(policy: Policy, shards: seq<Shard>): seq<Warning>
    decreases |shards|
  {
    if |shards| == 0 then [] else
      var before, shard := shards[..|shards| - 1], shards[|shards| - 1];
      WarningsFrom(policy, before) + ShardWarnings(policy, shard, Outputs(before))
  }

  function Counted(shards: seq<Shard>): nat
    decreases |shards|
  {
    if |shards| == 0 then 0 else Counted(shards[..|shards| - 1]) + shards[|shards| - 1].count
  }

  function Warnings(plan: Plan): seq<Warning> {
    WarningsFrom(plan.policy, plan.shards)
    + (if Counted(plan.shards) != plan.outputRecords then [TotalDiffers] else [])
    + (if plan.outputRecords + plan.skippedRecords != plan.inputRecords then [InputsUnaccounted] else [])
  }

  // ----- the planning and validation loops

  method AppendRecord(shard: Shard, record: Record) returns (r: Shard)
    ensures r == Extended(shard, record)
  {
    var first, last, base := shard.first, shard.last, shard.fileBytes;
    if shard.count == 0 {
      first, last, base := record.time, record.time, HEADER_BYTES;
    } else {
      first, last := Min(first, record.time), Max(last, record.time);
    }
    r := shard.(
      first := first, last := last, count := shard.count + 1,
      payload := Wrap64(shard.payload + record.payload),
      fileBytes := Wrap64(base + RECORD_BYTES + record.payload),
      records := shard.records + [record]);
  }

  method CollectInputs(inputs: seq<seq<Record>>) returns (records: seq<Record>)
    ensures records == Collected(inputs)
  {
    records := [];
    for i := 0 to |inputs|
      invariant records == Joined(inputs[..i])
    {
      assert inputs[..i + 1][..i] == inputs[..i];
      records := records + inputs[i];
    }
    assert inputs[..|inputs|] == inputs;
    records := Sort(records, ByTime);
  }

  method PlanArchiveRotation(inputs: seq<seq<Record>>, policy: Policy) returns (r: Result<Plan>)
    ensures r == Planned(inputs, policy)
  {
    if policy.prefix == "" || policy.extension == "" {
      return Err(InvalidArgument);
    }
    var records := CollectInputs(inputs);
    var plan := EmptyPlan(policy, |inputs|, |records|);
    if |records| == 0 {
      if policy.keepEmpty {
        plan := Started(plan, 0, Unbounded);
        plan := Closed(plan, NewShard(policy, 0, Unbounded), Unbounded);
      }
      return Ok(plan);
    }
    ghost var whole := FedAll(FirstShard(plan), records);
    var index := 0;
    plan := Started(plan, 0, Unbounded);
    var current := NewShard(policy, 0, Unbounded);
    for i := 0 to |records|
      invariant plan.policy == policy
      invariant whole == FedAll(Progress(plan, current, index), records[i..])
    {
      assert records[i..][0] == records[i] && records[i..][1..] == records[i + 1..];
      ghost var p := Progress(plan, current, index);
      var boundary := Boundary(policy, current, records[i]);
      if boundary.Some? {
        plan := Closed(plan, current, boundary.value);
        index := index + 1;
        plan := Started(plan, index, boundary.value);
        current := NewShard(policy, index, boundary.value);
      }
      current := AppendRecord(current, records[i]);
      plan := plan.(steps := plan.steps + [CopyRecord(records[i], current.output)]);
      assert Progress(plan, current, index) == Fed(p, records[i]);
    }
    plan := Closed(plan, current, Unbounded);
    r := Ok(plan);
  }

  lemma OutputsGrow(shards: seq<Shard>, shard: Shard)
    ensures Outputs(shards + [shard]) == Outputs(shards) + {shard.output}
  {
    var all := shards + [shard];
    assert all[|shards|] == shard;
    forall i | 0 <= i < |shards|
      ensures shards[i].output in Outputs(all)
    {
      assert all[i] == shards[i];
    }
  }

  /** The checks of one turn of the validation loop. */
  method CheckShard(policy: Policy, shard: Shard, seen: set<string>) returns (warnings: seq<Warning>)
    ensures warnings == ShardWarnings(policy, shard, seen)
  {
    warnings := [];
    if shard.output == "" {
      warnings := warnings + [EmptyPath];
    }
    if shard.output in seen {
      warnings := warnings + [DuplicatePath];
    }
    if shard.count != |shard.records| {
      warnings := warnings + [CountDiffers];
    }
    if shard.count == 0 && !policy.keepEmpty {
      warnings := warnings + [EmptyShard];
    }
    if shard.count != 0 && shard.first > shard.last {
      warnings := warnings + [InvertedRange];
    }
  }

  method ValidateRotationPlan(plan: Plan) returns (warnings: seq<Warning>)
    ensures warnings == Warnings(plan)
  {
    warnings := [];
    var outputs: set<string> := {};
    var counted: nat := 0;
    for i := 0 to |plan.shards|
      invariant warnings == WarningsFrom(plan.policy, plan.shards[..i])
      invariant outputs == Outputs(plan.shards[..i])
      invariant counted == Counted(plan.shards[..i])
    {
      var shard := plan.shards[i];
      var found := CheckShard(plan.policy, shard, outputs);
      warnings := warnings + found;
      OutputsGrow(plan.shards[..i], shard);
      assert plan.shards[..i + 1] == plan.shards[..i] + [shard] && plan.shards[..i + 1][..i] == plan.shards[..i];
      outputs := outputs + {shard.output};
      counted := counted + shard.count;
    }
    assert plan.shards[..|plan.shards|] == plan.shards;
    if counted != plan.outputRecords {
      warnings := warnings + [TotalDiffers];
    }
    if plan.outputRecords + plan.skippedRecords != plan.inputRecords {
      warnings := warnings + [InputsUnaccounted];
    }
  }
}
