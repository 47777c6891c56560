/** What the scheduler keeps and what it chooses. */
module SchedulerTheorems {
  import opened Words
  import opened Wrappers
  import opened OrderedMaps
  import opened Scheduler

  // ----- the running counters

  ghost function RunningOn(tasks: map<uint64, Record>, device: uint64): set<uint64> {
    set id | id in tasks && tasks[id].state == Running && tasks[id].task.device == device
  }

  /** The cached counters are the true numbers of running tasks, kept only where positive, and at
      most the burst, or one where the burst is zero. */
  ghost predicate Counted(s: State, config: Config) {
    && (forall d :: |RunningOn(s.tasks, d)| == CountOn(s.running, d))
    && (forall d | d in s.running :: 1 <= s.running[d] <= Max(1, config.perDeviceBurst))
  }

  lemma SetTask(tasks: map<uint64, Record>, id: uint64, r: Record, d: uint64)
    ensures RunningOn(tasks[id := r], d)
         == if r.state == Running && r.task.device == d then RunningOn(tasks, d) + {id}
            else RunningOn(tasks, d) - {id}
  {
  }

  /** One task leaves the running state, or another enters it, and the counter follows. */
  lemma CountSet(tasks: map<uint64, Record>, id: uint64, r: Record, d: uint64)
    ensures var before, after := RunningOn(tasks, d), RunningOn(tasks[id := r], d);
      |after| == |before| - (if id in before then 1 else 0)
                 + (if r.state == Running && r.task.device == d then 1 else 0)
  {
    SetTask(tasks, id, r, d);
    var before := RunningOn(tasks, d);
    if id in before {
      assert before == (before - {id}) + {id};
    } else {
      assert before - {id} == before;
    }
  }

  lemma ReleasedCount(s: State, config: Config, id: uint64, r: Record)
    requires Counted(s, config) && id in s.tasks && s.tasks[id].state == Running && r.state != Running
    ensures Counted(s.(tasks := s.tasks[id := r], running := Release(s.running, s.tasks[id].task.device)), config)
  {
    var device := s.tasks[id].task.device;
    assert id in RunningOn(s.tasks, device);
    forall d
      ensures |RunningOn(s.tasks[id := r], d)| == CountOn(Release(s.running, device), d)
    {
      CountSet(s.tasks, id, r, d);
    }
  }

  lemma KeptCount(s: State, config: Config, id: uint64, r: Record)
    requires Counted(s, config) && r.state != Running && (id in s.tasks ==> s.tasks[id].state != Running)
    ensures Counted(s.(tasks := s.tasks[id := r]), config)
  {
    forall d
      ensures |RunningOn(s.tasks[id := r], d)| == CountOn(s.running, d)
    {
      CountSet(s.tasks, id, r, d);
    }
  }

  lemma LeasedCount(s: State, config: Config, id: uint64, now: uint64)
    requires Counted(s, config) && Eligible(s, config, now, id)
    ensures Counted(RecordLease(s, id, now), config)
  {
    var t := RecordLease(s, id, now);
    var device := s.tasks[id].task.device;
    assert CountOn(s.running, device) + 1 <= Max(1, config.perDeviceBurst);
    forall d
      ensures |RunningOn(t.tasks, d)| == CountOn(t.running, d)
    {
      CountSet(s.tasks, id, t.tasks[id], d);
    }
  }

  lemma SameRunning(s: State, t: State, config: Config)
    requires Counted(s, config) && t.running == s.running
    requires forall d :: RunningOn(t.tasks, d) == RunningOn(s.tasks, d)
    ensures Counted(t, config)
  {
  }

  datatype Op =
    | OpEnqueue(task: Task)
    | OpLease(now: uint64)
    | OpLeaseMany(now: uint64, count: nat)
    | OpComplete(id: uint64, success: bool, retryReady: uint64)
    | OpCancel(id: uint64)
    | OpExpire(now: uint64)
    | OpClear

  function Apply(s: State, config: Config, op: Op): State {
    match op
    case OpEnqueue(t) => Enqueue(s, config, t).1
    case OpLease(now) => LeaseNext(s, config, now).1
    case OpLeaseMany(now, count) => LeaseMany(s, config, now, count).1
    case OpComplete(id, success, retryReady) => Complete(s, id, success, retryReady).1
    case OpCancel(id) => Cancel(s, id).1
    case OpExpire(now) => Expire(s, now).1
    case OpClear => ClearCompleted(s)
  }

  lemma {:induction false} ScanEligible(s: State, config: Config, now: uint64, rest: set<uint64>, best: Option<uint64>)
    requires rest <= s.tasks.Keys && (best.Some? ==> Eligible(s, config, now, best.value))
    ensures var b := Scan(s, config, now, rest, best);
      (b.Some? ==> Eligible(s, config, now, b.value))
      && (b.None? <==> best.None? && forall id | id in rest :: !Eligible(s, config, now, id))
    decreases |rest|
  {
    if rest != {} {
      var id := Least(rest);
      ScanEligible(s, config, now, rest - {id}, Better(s, config, now, best, id));
    }
  }

  lemma {:induction false} LeaseManyCounted(s: State, config: Config, now: uint64, count: nat)
    requires Counted(s, config)
    ensures Counted(LeaseMany(s, config, now, count).1, config)
    decreases count
  {
    if count > 0 {
      LeaseCounted(s, config, now);
      LeaseManyCounted(LeaseNext(s, config, now).1, config, now, count - 1);
    }
  }

  lemma LeaseCounted(s: State, config: Config, now: uint64)
    requires Counted(s, config)
    ensures Counted(LeaseNext(s, config, now).1, config)
  {
    ScanEligible(s, config, now, s.tasks.Keys, None);
    var best := Select(s, config, now);
    if best.Some? {
      LeasedCount(s, config, best.value, now);
    }
  }

  lemma ExpireCounted(s: State, config: Config, now: uint64)
    requires Counted(s, config)
    ensures Counted(Expire(s, now).1, config)
  {
    forall d
      ensures RunningOn(Expire(s, now).1.tasks, d) == RunningOn(s.tasks, d)
    {
    }
  }

  lemma ClearCounted(s: State, config: Config)
    requires Counted(s, config)
    ensures Counted(ClearCompleted(s), config)
  {
    forall d
      ensures RunningOn(ClearCompleted(s).tasks, d) == RunningOn(s.tasks, d)
    {
    }
  }

  /** Enqueueing overwrites a running task: possible only once the identifiers have wrapped. */
  predicate Clobbers(s: State, config: Config, op: Op) {
    && op.OpEnqueue? && |s.tasks| < config.maxTasks && !Rejected(s, config, op.task)
    && op.task.id == 0 && s.nextId in s.tasks && s.tasks[s.nextId].state == Running
  }

  /** Every operation keeps the counters exact, except exactly an enqueue that is handed the
      identifier of a running task. */
  lemma CountedExactly(s: State, config: Config, op: Op)
    requires Counted(s, config)
    ensures Counted(Apply(s, config, op), config) <==> !Clobbers(s, config, op)
  {
    match op
    case OpEnqueue(t) =>
      if |s.tasks| < config.maxTasks && !Rejected(s, config, t) {
        var id := AssignedId(s, t);
        var r := Record(t.(id := id), Queued, 0, 0);
        if Clobbers(s, config, op) {
          var d := s.tasks[id].task.device;
          assert id in RunningOn(s.tasks, d);
          CountSet(s.tasks, id, r, d);
        } else {
          KeptCount(s, config, id, r);
          SameRunning(s.(tasks := s.tasks[id := r]), Apply(s, config, op), config);
        }
      } else {
        SameRunning(s, Apply(s, config, op), config);
      }
    case OpLease(now) => LeaseCounted(s, config, now);
    case OpLeaseMany(now, count) => LeaseManyCounted(s, config, now, count);
    case OpComplete(id, success, retryReady) =>
      if id in s.tasks && s.tasks[id].state == Running {
        ReleasedCount(s, config, id, Apply(s, config, op).tasks[id]);
      }
    case OpCancel(id) =>
      if id in s.tasks && !Terminal(s.tasks[id].state) {
        if s.tasks[id].state == Running {
          ReleasedCount(s, config, id, Apply(s, config, op).tasks[id]);
        } else {
          KeptCount(s, config, id, Apply(s, config, op).tasks[id]);
        }
      }
    case OpExpire(now) => ExpireCounted(s, config, now);
    case OpClear => ClearCounted(s, config);
  }

  // ----- every reachable state

  /** Identifiers in use are below the next one, and records know theirs. */
  predicate IdsBelow(s: State) {
    forall id | id in s.tasks :: id < s.nextId && s.tasks[id].task.id == id
  }

  /** The identifiers do not reach the largest 64-bit number. */
  predicate RoomFor(s: State, op: Op) {
    op.OpEnqueue? ==> if op.task.id == 0 then s.nextId < MAX_64 else op.task.id < MAX_64
  }

  lemma {:induction false} LeaseManyIds(s: State, config: Config, now: uint64, count: nat)
    requires IdsBelow(s)
    ensures IdsBelow(LeaseMany(s, config, now, count).1)
    decreases count
  {
    if count > 0 {
      LeaseManyIds(LeaseNext(s, config, now).1, config, now, count - 1);
    }
  }

  lemma StepIds(s: State, config: Config, op: Op)
    requires IdsBelow(s) && RoomFor(s, op)
    ensures IdsBelow(Apply(s, config, op)) && !Clobbers(s, config, op)
  {
    match op
    case OpEnqueue(t) => assert t.id != 0 ==> Wrap64(t.id + 1) == t.id + 1;
    case OpLease(now) =>
    case OpLeaseMany(now, count) => LeaseManyIds(s, config, now, count);
    case OpComplete(id, success, retryReady) =>
    case OpCancel(id) =>
    case OpExpire(now) =>
    case OpClear =>
  }

  function RunOps(s: State, config: Config, ops: seq<Op>): State
    decreases |ops|
  {
    if |ops| == 0 then s else RunOps(Apply(s, config, ops[0]), config, ops[1..])
  }

  predicate RoomForAll(s: State, config: Config, ops: seq<Op>)
    decreases |ops|
  {
    |ops| > 0 ==> RoomFor(s, ops[0]) && RoomForAll(Apply(s, config, ops[0]), config, ops[1..])
  }

  const START: State := State(map[], map[], Stats(0, 0, 0, 0, 0, 0, 0), 1)

  lemma {:induction false} RunCounted(s: State, config: Config, ops: seq<Op>)
    requires Counted(s, config) && IdsBelow(s) && RoomForAll(s, config, ops)
    ensures Counted(RunOps(s, config, ops), config) && IdsBelow(RunOps(s, config, ops))
    decreases |ops|
  {
    if |ops| > 0 {
      StepIds(s, config, ops[0]);
      CountedExactly(s, config, ops[0]);
      RunCounted(Apply(s, config, ops[0]), config, ops[1..]);
    }
  }

  /** In every state reachable from the empty scheduler the per-device counters equal the real
      numbers of running tasks and respect the burst. */
  lemma ReachableCounted(config: Config, ops: seq<Op>)
    requires RoomForAll(START, config, ops)
    ensures Counted(RunOps(START, config, ops), config)
  {
    assert forall d :: RunningOn(START.tasks, d) == {};
    RunCounted(START, config, ops);
  }

  // ----- the operation that breaks the counters can be reached

  function Plain(id: uint64, device: uint64): Task {
    Task(id, 0, device, 0, 0, 0, 0, 1, "")
  }

  lemma RunFirst(s: State, config: Config, op: Op, ops: seq<Op>)
    ensures RunOps(s, config, [op] + ops) == RunOps(Apply(s, config, op), config, ops)
  {
    assert ([op] + ops)[1..] == ops;
  }

  lemma {:induction false} RunTwo(s: State, config: Config, a: seq<Op>, b: seq<Op>)
    ensures RunOps(s, config, a + b) == RunOps(RunOps(s, config, a), config, b)
    decreases |a|
  {
    if |a| == 0 {
      assert a + b == b;
    } else {
      assert (a + b)[0] == a[0] && (a + b)[1..] == a[1..] + b;
      RunTwo(Apply(s, config, a[0]), config, a[1..], b);
    }
  }

  lemma RunOne(s: State, config: Config, op: Op)
    ensures RunOps(s, config, [op]) == Apply(s, config, op)
  {
    assert [op][1..] == [];
    assert RunOps(Apply(s, config, op), config, []) == Apply(s, config, op);
  }

  lemma PlainEnqueue(s: State, config: Config, t: Task)
    requires |s.tasks| < config.maxTasks && t.name == "" && (t.id == 0 || t.id !in s.tasks)
    ensures var u := Apply(s, config, OpEnqueue(t));
      var id := AssignedId(s, t);
      && u.tasks == s.tasks[id := Record(t.(id := id), Queued, 0, 0)] && u.running == s.running
      && u.nextId == (if t.id == 0 then Wrap64(s.nextId + 1) else Max(s.nextId, Wrap64(t.id + 1)))
  {
  }

  lemma OnlyTaskLeased(s: State, config: Config, id: uint64, now: uint64)
    requires s.tasks.Keys == {id} && Eligible(s, config, now, id)
    ensures LeaseNext(s, config, now).1.tasks == RecordLease(s, id, now).tasks
    ensures LeaseNext(s, config, now).1.nextId == s.nextId
  {
    assert Scan(s, config, now, {}, Some(id)) == Some(id);
    assert Least({id}) == id && {id} - {id} == {};
    assert Better(s, config, now, None, id) == Some(id);
  }

  /** Task 1 runs, among no more than `count`, and this is the next identifier. */
  ghost predicate Busy(s: State, count: nat, next: uint64) {
    |s.tasks| <= count && s.nextId == next && 1 in s.tasks && s.tasks[1].state == Running
  }

  /** A first task, leased. */
  function FirstRun(device: uint64): seq<Op> {
    [OpEnqueue(Plain(0, device))] + [OpLease(0)]
  }

  lemma FirstRuns(config: Config, device: uint64)
    requires config.maxTasks > 0
    ensures var s := RunOps(START, config, FirstRun(device));
      Busy(s, 1, 2) && s.tasks.Keys == {1}
  {
    RunTwo(START, config, [OpEnqueue(Plain(0, device))], [OpLease(0)]);
    RunOne(START, config, OpEnqueue(Plain(0, device)));
    var s := Apply(START, config, OpEnqueue(Plain(0, device)));
    PlainEnqueue(START, config, Plain(0, device));
    assert s.tasks == map[1 := Record(Plain(1, device), Queued, 0, 0)];
    RunOne(s, config, OpLease(0));
    OnlyTaskLeased(s, config, 1, 0);
  }

  lemma BusyEnqueue(s: State, config: Config, count: nat, next: uint64, id: uint64, device: uint64)
    requires Busy(s, count, next) && count < config.maxTasks
    requires if id == 0 then next != 1 else id !in s.tasks
    ensures Busy(Apply(s, config, OpEnqueue(Plain(id, device))), count + 1,
              if id == 0 then Wrap64(next + 1) else Max(next, Wrap64(id + 1)))
  {
    PlainEnqueue(s, config, Plain(id, device));
    OneMoreKey(s.tasks, Apply(s, config, OpEnqueue(Plain(id, device))).tasks, if id == 0 then next else id);
  }

  lemma OneMoreKey(tasks: map<uint64, Record>, more: map<uint64, Record>, id: uint64)
    requires id in more && more == tasks[id := more[id]]
    ensures |more| <= |tasks| + 1
  {
    assert |more| == |more.Keys| && |tasks| == |tasks.Keys| && more.Keys == tasks.Keys + {id};
  }

  /** The largest identifier but one, and two tasks that take the next ones. */
  function WrappingRun(device: uint64): seq<Op> {
    [OpEnqueue(Plain(MAX_64 - 1, device))] + [OpEnqueue(Plain(0, device))] + [OpEnqueue(Plain(0, device))]
  }

  lemma RunThree(s: State, config: Config, a: Op, b: Op, c: Op)
    ensures RunOps(s, config, [a] + [b] + [c]) == Apply(Apply(Apply(s, config, a), config, b), config, c)
  {
    RunTwo(s, config, [a] + [b], [c]);
    RunTwo(s, config, [a], [b]);
    RunOne(s, config, a);
    RunOne(Apply(s, config, a), config, b);
    RunOne(Apply(Apply(s, config, a), config, b), config, c);
  }

  lemma WrapsAround(s: State, config: Config, device: uint64)
    requires Busy(s, 1, 2) && s.tasks.Keys == {1} && config.maxTasks > 4
    ensures Busy(RunOps(s, config, WrappingRun(device)), 4, 1)
  {
    var a, b := OpEnqueue(Plain(MAX_64 - 1, device)), OpEnqueue(Plain(0, device));
    BusyEnqueue(s, config, 1, 2, MAX_64 - 1, device);
    BusyEnqueue(Apply(s, config, a), config, 2, MAX_64, 0, device);
    BusyEnqueue(Apply(Apply(s, config, a), config, b), config, 3, 0, 0, device);
    RunThree(s, config, a, b, b);
  }

  /** Identifiers that wrap do hit a running task: from a new scheduler with room for five, this run
      leads to a state in which enqueueing one more task breaks the counters. */
  lemma ClobberIsReachable(config: Config, device: uint64)
    requires config.maxTasks > 4
    ensures Clobbers(RunOps(START, config, FirstRun(device) + WrappingRun(device)), config,
              OpEnqueue(Plain(0, device)))
  {
    FirstRuns(config, device);
    WrapsAround(RunOps(START, config, FirstRun(device)), config, device);
    RunTwo(START, config, FirstRun(device), WrappingRun(device));
  }

  // ----- records stand under their own identifiers

  /** Unlike `IdsBelow`, this survives identifiers that wrap. */
  predicate KeysMatch(s: State) {
    forall id | id in s.tasks :: s.tasks[id].task.id == id
  }

  lemma {:induction false} LeaseManyKeys(s: State, config: Config, now: uint64, count: nat)
    requires KeysMatch(s)
    ensures KeysMatch(LeaseMany(s, config, now, count).1)
    decreases count
  {
    if count > 0 {
      LeaseManyKeys(LeaseNext(s, config, now).1, config, now, count - 1);
    }
  }

  lemma StepKeys(s: State, config: Config, op: Op)
    requires KeysMatch(s)
    ensures KeysMatch(Apply(s, config, op))
  {
    if op.OpLeaseMany? {
      LeaseManyKeys(s, config, op.now, op.count);
    }
  }

  /** Over any run, whatever identifiers are handed out. */
  lemma {:induction false} RunKeys(s: State, config: Config, ops: seq<Op>)
    requires KeysMatch(s)
    ensures KeysMatch(RunOps(s, config, ops))
    decreases |ops|
  {
    if |ops| > 0 {
      StepKeys(s, config, ops[0]);
      RunKeys(Apply(s, config, ops[0]), config, ops[1..]);
    }
  }

  // ----- each counter counts its own kind of ending

  predicate EndsAs(a: map<uint64, Record>, b: map<uint64, Record>, end: TaskState, id: uint64) {
    id in a && id in b && !Terminal(a[id].state) && b[id].state == end
  }

  /** The live tasks of `a` that have come to `end` in `b`. */
  ghost function Ended(a: map<uint64, Record>, b: map<uint64, Record>, end: TaskState): set<uint64> {
    set id | id in a && EndsAs(a, b, end, id)
  }

  function Endings(stats: Stats, end: TaskState): nat {
    match end
    case Completed => stats.completed
    case Cancelled => stats.cancelled
    case Expired => stats.expired
    case _ => 0
  }

  /** From `s` to `t`, by `leases` leases, nothing has ended. */
  ghost predicate EndedNothing(s: State, t: State, leases: nat, end: TaskState) {
    && (forall id | id in s.tasks && id in t.tasks && Terminal(t.tasks[id].state) :: t.tasks[id] == s.tasks[id])
    && Endings(t.stats, end) == Endings(s.stats, end)
    && t.stats.leased == s.stats.leased + leases
    && s.tasks.Keys == t.tasks.Keys
  }

  lemma LeaseEndsNothing(s: State, config: Config, now: uint64, end: TaskState)
    requires Terminal(end)
    ensures var (lease, t) := LeaseNext(s, config, now);
      EndedNothing(s, t, if lease.Some? then 1 else 0, end)
  {
    ScanEligible(s, config, now, s.tasks.Keys, None);
  }

  lemma EndedNothingTwice(s: State, t: State, u: State, first: nat, more: nat, end: TaskState)
    requires EndedNothing(s, t, first, end) && EndedNothing(t, u, more, end)
    ensures EndedNothing(s, u, first + more, end)
  {
  }

  lemma {:induction false} LeasesEndNothing(s: State, config: Config, now: uint64, count: nat, end: TaskState)
    requires Terminal(end)
    ensures var (leases, t) := LeaseMany(s, config, now, count);
      EndedNothing(s, t, |leases|, end)
    decreases count
  {
    if count > 0 {
      var (lease, t) := LeaseNext(s, config, now);
      LeaseEndsNothing(s, config, now, end);
      if lease.Some? {
        LeasesEndNothing(t, config, now, count - 1, end);
        var (more, u) := LeaseMany(t, config, now, count - 1);
        EndedNothingTwice(s, t, u, 1, |more|, end);
      }
    }
  }

  ghost function AgedIn(tasks: map<uint64, Record>, rest: set<uint64>, now: uint64): map<uint64, Record> {
    map id | id in tasks :: if id in rest then Aged(tasks[id], now) else tasks[id]
  }

  lemma {:induction false} OverdueEnded(tasks: map<uint64, Record>, rest: set<uint64>, now: uint64, end: TaskState)
    requires rest <= tasks.Keys && Terminal(end)
    ensures |Ended(tasks, AgedIn(tasks, rest, now), end)|
         == if end == Expired then |OverdueTasks(tasks, rest, now)| else 0
    decreases |rest|
  {
    var aged := AgedIn(tasks, rest, now);
    if rest == {} {
      assert Ended(tasks, aged, end) == {};
    } else {
      var id := Least(rest);
      var less := AgedIn(tasks, rest - {id}, now);
      OverdueEnded(tasks, rest - {id}, now, end);
      assert !EndsAs(tasks, less, end, id);
      AgedOneMore(tasks, less, aged, id, end);
    }
  }

  lemma AgedOneMore(
    tasks: map<uint64, Record>, less: map<uint64, Record>, aged: map<uint64, Record>, id: uint64, end: TaskState)
    requires id in aged && aged == less[id := aged[id]] && id in less && !EndsAs(tasks, less, end, id)
    ensures |Ended(tasks, aged, end)| == |Ended(tasks, less, end)| + (if EndsAs(tasks, aged, end, id) then 1 else 0)
  {
    forall i | i != id
      ensures i in Ended(tasks, aged, end) <==> i in Ended(tasks, less, end)
    {
      assert EndsAs(tasks, aged, end, i) <==> EndsAs(tasks, less, end, i);
    }
    DifferAt(Ended(tasks, aged, end), Ended(tasks, less, end), id);
  }

  lemma OneEnds(s: State, config: Config, op: Op, id: uint64, end: TaskState)
    requires Terminal(end) && ((op.OpComplete? && op.id == id) || (op.OpCancel? && op.id == id))
    ensures var t := Apply(s, config, op);
      Endings(t.stats, end) == Endings(s.stats, end) + |Ended(s.tasks, t.tasks, end)|
  {
    var t := Apply(s, config, op);
    if EndsAs(s.tasks, t.tasks, end, id) {
      assert Ended(s.tasks, t.tasks, end) == {id};
    } else {
      assert Ended(s.tasks, t.tasks, end) == {};
    }
  }

  lemma NothingEnded(s: State, t: State, leases: nat, end: TaskState)
    requires Terminal(end) && EndedNothing(s, t, leases, end)
    ensures Endings(t.stats, end) == Endings(s.stats, end) + |Ended(s.tasks, t.tasks, end)|
  {
    assert Ended(s.tasks, t.tasks, end) == {};
  }

  lemma OverdueCounted(s: State, now: uint64, end: TaskState)
    requires Terminal(end)
    ensures var t := Expire(s, now).1;
      Endings(t.stats, end) == Endings(s.stats, end) + |Ended(s.tasks, t.tasks, end)|
  {
    OverdueEnded(s.tasks, s.tasks.Keys, now, end);
    assert Expire(s, now).1.tasks == AgedIn(s.tasks, s.tasks.Keys, now);
  }

  /** The counter of each terminal state grows by exactly the number of tasks that came to it. */
  lemma EndingsCounted(s: State, config: Config, op: Op, end: TaskState)
    requires Terminal(end)
    ensures var t := Apply(s, config, op);
      Endings(t.stats, end) == Endings(s.stats, end) + |Ended(s.tasks, t.tasks, end)|
  {
    var ended := Ended(s.tasks, Apply(s, config, op).tasks, end);
    match op
    case OpEnqueue(_) => assert ended == {};
    case OpLease(now) =>
      LeaseEndsNothing(s, config, now, end);
      NothingEnded(s, Apply(s, config, op), if LeaseNext(s, config, now).0.Some? then 1 else 0, end);
    case OpLeaseMany(now, count) =>
      LeasesEndNothing(s, config, now, count, end);
      NothingEnded(s, Apply(s, config, op), |LeaseMany(s, config, now, count).0|, end);
    case OpComplete(id, _, _) => OneEnds(s, config, op, id, end);
    case OpCancel(id) => OneEnds(s, config, op, id, end);
    case OpExpire(now) => OverdueCounted(s, now, end);
    case OpClear => assert ended == {};
  }
}
