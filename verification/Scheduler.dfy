/** The task scheduler of src/runtime/scheduler.cpp as transitions on values: RuntimeScheduler runs
    them, SchedulerTheorems states what they keep. */
module Scheduler {
  import opened Words
  import opened Wrappers
  import opened OrderedMaps

  datatype TaskState = Queued | Running | Completed | Cancelled | Expired

  /** Priorities are ranks: 0 low, 1 normal, 2 high, 3 critical. */
  datatype Task = Task(
    id: uint64, kind: nat, device: uint64, enqueueTime: uint64, readyTime: uint64, deadline: uint64,
    priority: uint8, cost: uint32, name: string)

  datatype Record = Record(task: Task, state: TaskState, attempts: uint32, lastLease: uint64)

  datatype Config = Config(maxTasks: nat, perDeviceBurst: uint32, fairnessWindow: uint64, rejectDuplicates: bool)

  datatype Stats = Stats(
    enqueued: nat, leased: nat, completed: nat, cancelled: nat, expired: nat, retried: nat, duplicates: nat)

  datatype State = State(
    tasks: map<uint64, Record>, running: map<uint64, uint32>, stats: Stats, nextId: uint64)

  datatype Enqueued = Throws | Returns(id: uint64)

  datatype Reason = Ready | Deadline | Priority | Fairness

  datatype Lease = Lease(task: Task, reason: Reason, time: uint64)

  predicate Terminal(s: TaskState) {
    s == Completed || s == Cancelled || s == Expired
  }

  // ----- enqueue

  predicate DuplicateLabel(tasks: map<uint64, Record>, t: Task) {
    t.name != "" && exists id :: id in tasks && SameLabel(tasks[id], t)
  }

  predicate SameLabel(r: Record, t: Task) {
    !Terminal(r.state) && r.task.device == t.device && r.task.kind == t.kind && r.task.name == t.name
  }

  /** The identifier a task gets: its own, or the next one, which wraps at 64 bits. */
  function AssignedId(s: State, t: Task): uint64 {
    if t.id == 0 then s.nextId else t.id
  }

  predicate Rejected(s: State, config: Config, t: Task) {
    (config.rejectDuplicates && DuplicateLabel(s.tasks, t)) || (t.id != 0 && t.id in s.tasks)
  }

  function Enqueue(s: State, config: Config, t: Task): (Enqueued, State) {
    if |s.tasks| >= config.maxTasks then (Throws, s)
    else if Rejected(s, config, t) then
      (Returns(0), s.(stats := s.stats.(duplicates := s.stats.duplicates + 1)))
    else
      var id := AssignedId(s, t);
      var next: nat := if t.id == 0 then Wrap64(s.nextId + 1) else Max(s.nextId, Wrap64(t.id + 1));
      (Returns(id),
       s.(tasks := s.tasks[id := Record(t.(id := id), Queued, 0, 0)], nextId := next,
          stats := s.stats.(enqueued := s.stats.enqueued + 1)))
  }

  // ----- selection

  predicate BurstAvailable(s: State, config: Config, device: uint64) {
    device in s.running ==> s.running[device] < config.perDeviceBurst
  }

  predicate Eligible(s: State, config: Config, now: uint64, id: uint64) {
    id in s.tasks && s.tasks[id].state == Queued && s.tasks[id].task.readyTime <= now
    && BurstAvailable(s, config, s.tasks[id].task.device)
  }

  /** The end of the fairness window; the sum wraps. */
  function Horizon(config: Config, now: uint64): uint64 {
    Wrap64(now + config.fairnessWindow)
  }

  predicate Due(t: Task, horizon: uint64) {
    t.deadline != 0 && t.deadline <= horizon
  }

  /** Whether the scan puts `a` in the place of the best record `b` so far. */
  predicate Replaces(a: Record, b: Record, horizon: uint64) {
    if Due(a.task, horizon) != Due(b.task, horizon) then Due(a.task, horizon)
    else if a.task.deadline != 0 && b.task.deadline != 0 && a.task.deadline != b.task.deadline then
      a.task.deadline < b.task.deadline
    else if a.task.priority != b.task.priority then a.task.priority > b.task.priority
    else if a.attempts != b.attempts then a.attempts < b.attempts
    else a.task.enqueueTime < b.task.enqueueTime
  }

  /** One turn of the scan. */
  function Better(s: State, config: Config, now: uint64, best: Option<uint64>, id: uint64): (b: Option<uint64>)
    requires id in s.tasks && (best.Some? ==> best.value in s.tasks)
    ensures b.Some? ==> b.value in s.tasks
  {
    if Eligible(s, config, now, id)
       && (best.None? || Replaces(s.tasks[id], s.tasks[best.value], Horizon(config, now)))
    then Some(id) else best
  }

  /** The scan over `rest`, in ascending order of identifiers. */
  function Scan(s: State, config: Config, now: uint64, rest: set<uint64>, best: Option<uint64>): (b: Option<uint64>)
    requires rest <= s.tasks.Keys && (best.Some? ==> best.value in s.tasks)
    ensures b.Some? ==> b.value in s.tasks
    decreases |rest|
  {
    if rest == {} then best else
      var id := Least(rest);
      Scan(s, config, now, rest - {id}, Better(s, config, now, best, id))
  }

  function Select(s: State, config: Config, now: uint64): (b: Option<uint64>)
    ensures b.Some? ==> b.value in s.tasks
  {
    Scan(s, config, now, s.tasks.Keys, None)
  }

  function PickReason(r: Record, config: Config, now: uint64): Reason {
    if Due(r.task, Horizon(config, now)) then Deadline
    else if r.task.priority >= 2 then Priority
    else if r.attempts > 0 then Fairness
    else Ready
  }

  function CountOn(running: map<uint64, uint32>, device: uint64): nat {
    if device in running then running[device] else 0
  }

  function RecordLease(s: State, id: uint64, now: uint64): State
    requires id in s.tasks
  {
    var r := s.tasks[id];
    s.(tasks := s.tasks[id := r.(state := Running, lastLease := now, attempts := Wrap32(r.attempts + 1))],
       running := s.running[r.task.device := Wrap32(CountOn(s.running, r.task.device) + 1)])
  }

  function LeaseNext(s: State, config: Config, now: uint64): (Option<Lease>, State) {
    var best := Select(s, config, now);
    if best.None? then (None, s) else
      var r := s.tasks[best.value];
      var t := RecordLease(s, best.value, now);
      (Some(Lease(r.task, PickReason(r, config, now), now)),
       t.(stats := t.stats.(leased := t.stats.leased + 1)))
  }

  function LeaseMany(s: State, config: Config, now: uint64, count: nat): (seq<Lease>, State)
    decreases count
  {
    if count == 0 then ([], s) else
      var (lease, t) := LeaseNext(s, config, now);
      if lease.None? then ([], t) else
        var (more, u) := LeaseMany(t, config, now, count - 1);
        ([lease.value] + more, u)
  }

  // ----- completion, cancellation, expiry

  function Release(running: map<uint64, uint32>, device: uint64): map<uint64, uint32> {
    if device !in running then running
    else if running[device] <= 1 then running - {device}
    else running[device := running[device] - 1]
  }

  function Complete(s: State, id: uint64, success: bool, retryReady: uint64): (bool, State) {
    if id !in s.tasks || s.tasks[id].state != Running then (false, s) else
      var r := s.tasks[id];
      var running := Release(s.running, r.task.device);
      if success then
        (true, s.(running := running, tasks := s.tasks[id := r.(state := Completed)],
                  stats := s.stats.(completed := s.stats.completed + 1)))
      else
        (true, s.(running := running,
                  tasks := s.tasks[id := r.(state := Queued, task := r.task.(readyTime := retryReady))],
                  stats := s.stats.(retried := s.stats.retried + 1)))
  }

  function Cancel(s: State, id: uint64): (bool, State) {
    if id !in s.tasks || Terminal(s.tasks[id].state) then (false, s) else
      var r := s.tasks[id];
      (true, s.(running := if r.state == Running then Release(s.running, r.task.device) else s.running,
                tasks := s.tasks[id := r.(state := Cancelled)],
                stats := s.stats.(cancelled := s.stats.cancelled + 1)))
  }

  predicate Overdue(r: Record, now: uint64) {
    r.state == Queued && r.task.deadline != 0 && now > r.task.deadline
  }

  function Aged(r: Record, now: uint64): Record {
    if Overdue(r, now) then r.(state := Expired) else r
  }

  /** The overdue tasks among `rest`, in ascending order of identifiers. */
  function OverdueTasks(tasks: map<uint64, Record>, rest: set<uint64>, now: uint64): seq<Task>
    requires rest <= tasks.Keys
    decreases |rest|
  {
    if rest == {} then [] else
      var id := Least(rest);
      (if Overdue(tasks[id], now) then [tasks[id].task] else []) + OverdueTasks(tasks, rest - {id}, now)
  }

  function Expire(s: State, now: uint64): (seq<Task>, State) {
    var expired := OverdueTasks(s.tasks, s.tasks.Keys, now);
    (expired,
     s.(tasks := map id | id in s.tasks :: Aged(s.tasks[id], now),
        stats := s.stats.(expired := s.stats.expired + |expired|)))
  }

  function ClearCompleted(s: State): State {
    s.(tasks := map id | id in s.tasks && !Terminal(s.tasks[id].state) :: s.tasks[id])
  }
}
