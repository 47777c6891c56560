/** What each scheduler operation decides, in terms of states, times and counts: which tasks may be leased, what
    becomes of a task, and that over any run none is leased before it is ready. */
module SchedulerDecisions {
  import opened Words
  import opened Wrappers
  import opened OrderedMaps
  import opened Scheduler
  import opened SchedulerTheorems
  import opened SchedulerChoice

  // ----- leasing

  /** Queued, ready by now, and on a device with nothing running or fewer than the burst. */
  predicate MayRun(s: State, config: Config, now: uint64, id: uint64) {
    && id in s.tasks && s.tasks[id].state == Queued && s.tasks[id].task.readyTime <= now
    && (s.tasks[id].task.device in s.running ==> s.running[s.tasks[id].task.device] < config.perDeviceBurst)
  }

  /** The deadline lies within the fairness window; the end of the window wraps. */
  predicate DueSoon(t: Task, config: Config, now: uint64) {
    0 < t.deadline <= (now + config.fairnessWindow) % TWO_64
  }

  /** `lease` is one of the task `id`, and `t` is `s` with that task running. */
  predicate LeasedAs(s: State, config: Config, now: uint64, id: uint64, lease: Lease, t: State)
    requires id in s.tasks
  {
    var r, device := s.tasks[id], s.tasks[id].task.device;
    && lease.task == r.task && lease.time == now
    && (lease.reason == Deadline <==> DueSoon(r.task, config, now))
    && (lease.reason == Priority <==> !DueSoon(r.task, config, now) && r.task.priority >= 2)
    && (lease.reason == Fairness <==> !DueSoon(r.task, config, now) && r.task.priority < 2 && r.attempts > 0)
    && t.tasks == s.tasks[id := Record(r.task, Running, (r.attempts + 1) % TWO_32, now)]
    && t.running.Keys == s.running.Keys + {device}
    && (forall d | d in s.running && d != device :: t.running[d] == s.running[d])
    && t.running[device] == ((if device in s.running then s.running[device] else 0) + 1) % TWO_32
    && t.stats == s.stats.(leased := s.stats.leased + 1) && t.nextId == s.nextId
  }

  /** For every state: nothing is leased if and only if no task may run, and then nothing changes. */
  lemma LeasedExactly(s: State, config: Config, now: uint64)
    ensures var (lease, t) := LeaseNext(s, config, now);
      && (lease.None? <==> forall id :: !MayRun(s, config, now, id))
      && (lease.None? ==> t == s)
      && (lease.Some? ==> exists id :: MayRun(s, config, now, id) && LeasedAs(s, config, now, id, lease.value, t))
  {
    ScanEligible(s, config, now, s.tasks.Keys, None);
    var b := Select(s, config, now);
    forall id
      ensures MayRun(s, config, now, id) <==> Eligible(s, config, now, id)
    {
    }
    if b.Some? {
      var (lease, t) := LeaseNext(s, config, now);
      assert MayRun(s, config, now, b.value) && LeasedAs(s, config, now, b.value, lease.value, t);
    }
  }

  /** Leasing many stops early only when no task may run. */
  lemma {:induction false} LeasesUntilNone(s: State, config: Config, now: uint64, count: nat)
    ensures var (leases, t) := LeaseMany(s, config, now, count);
      |leases| <= count && (|leases| < count ==> forall id :: !MayRun(t, config, now, id))
    decreases count
  {
    if count > 0 {
      LeasedExactly(s, config, now);
      LeasesUntilNone(LeaseNext(s, config, now).1, config, now, count - 1);
    }
  }

  /** Of two tasks the scheduler prefers the one that is due soon; of two with deadlines that are both or neither
      due soon the one with the earlier; and otherwise, or at the same deadline, the one of higher rank. */
  lemma OutranksExactly(s: State, config: Config, now: uint64, i: uint64, j: uint64)
    requires i in s.tasks && j in s.tasks && i != j
    ensures var a, b := s.tasks[i].task, s.tasks[j].task;
      Outranks(s, Horizon(config, now), i, j)
        == if DueSoon(a, config, now) != DueSoon(b, config, now) then DueSoon(a, config, now)
           else if a.deadline != 0 && b.deadline != 0 then DueBefore(s, i, j)
           else RanksBefore(s, i, j)
  {
  }

  // ----- what becomes of a task

  /** The identifier of the task goes to a new one: only where identifiers have wrapped. */
  predicate Overwritten(s: State, op: Op, id: uint64) {
    op.OpEnqueue? && op.task.id == 0 && s.nextId == id
  }

  /** A task is started by a lease at or after its ready time. */
  predicate StartedAt(e: Record, f: Record, now: uint64) {
    && e.state == Queued && e.task.readyTime <= now
    && f == Record(e.task, Running, (e.attempts + 1) % TWO_32, now)
  }

  lemma LeaseStarts(s: State, config: Config, now: uint64, id: uint64)
    requires id in s.tasks
    ensures var t := LeaseNext(s, config, now).1;
      id in t.tasks && (t.tasks[id] == s.tasks[id] || StartedAt(s.tasks[id], t.tasks[id], now))
  {
    LeasedExactly(s, config, now);
  }

  lemma {:induction false} LeasesStart(s: State, config: Config, now: uint64, count: nat, id: uint64)
    requires id in s.tasks
    ensures var t := LeaseMany(s, config, now, count).1;
      id in t.tasks && (t.tasks[id] == s.tasks[id] || StartedAt(s.tasks[id], t.tasks[id], now))
    decreases count
  {
    if count > 0 {
      LeaseStarts(s, config, now, id);
      LeasesStart(LeaseNext(s, config, now).1, config, now, count - 1, id);
    }
  }

  predicate IsLease(op: Op) {
    op.OpLease? || op.OpLeaseMany?
  }

  /** A failed completion of the running task `id`. */
  predicate FailsRun(e: Record, op: Op, id: uint64) {
    op.OpComplete? && op.id == id && !op.success && e.state == Running
  }

  /** For every state and operation, when the task ends and how, when it is queued again, and that nothing else
      about it ever changes but by a lease. */
  lemma TaskFate(s: State, config: Config, op: Op, id: uint64)
    requires id in s.tasks && !Overwritten(s, op, id)
    ensures var t, e := Apply(s, config, op), s.tasks[id];
      && (id in t.tasks <==> !(op.OpClear? && e.state in {Completed, Cancelled, Expired}))
      && (id in t.tasks ==>
        var f := t.tasks[id];
        && (f.state == Completed <==>
              e.state == Completed || (e.state == Running && op.OpComplete? && op.id == id && op.success))
        && (f.state == Cancelled <==>
              e.state == Cancelled || (e.state in {Queued, Running} && op.OpCancel? && op.id == id))
        && (f.state == Expired <==>
              e.state == Expired || (e.state == Queued && op.OpExpire? && 0 < e.task.deadline < op.now))
        && (f.state == Queued && e.state != Queued <==> FailsRun(e, op, id))
        && f.task == e.task.(readyTime := if FailsRun(e, op, id) then op.retryReady else e.task.readyTime)
        && ((f.attempts, f.lastLease) == (e.attempts, e.lastLease) || (IsLease(op) && StartedAt(e, f, op.now)))
        && (f.state == Running && e.state != Running ==> IsLease(op) && StartedAt(e, f, op.now)))
  {
    match op
    case OpLease(now) => LeaseStarts(s, config, now, id);
    case OpLeaseMany(now, count) => LeasesStart(s, config, now, count, id);
    case _ =>
  }

  // ----- nothing is leased before it is ready

  /** No lease of the run comes at or after `ready`, and the identifier `id` is not given again. */
  predicate LeasesBefore(s: State, config: Config, ops: seq<Op>, ready: uint64, id: uint64)
    decreases |ops|
  {
    |ops| == 0
    || (&& (IsLease(ops[0]) ==> ops[0].now < ready)
        && (ops[0].OpEnqueue? ==> AssignedId(s, ops[0].task) != id)
        && LeasesBefore(Apply(s, config, ops[0]), config, ops[1..], ready, id))
  }

  lemma {:induction false} AbsentStaysAbsent(s: State, config: Config, ops: seq<Op>, ready: uint64, id: uint64)
    requires id !in s.tasks && LeasesBefore(s, config, ops, ready, id)
    ensures id !in RunOps(s, config, ops).tasks
    decreases |ops|
  {
    if |ops| > 0 {
      AbsentStep(s, config, ops[0], id);
      AbsentStaysAbsent(Apply(s, config, ops[0]), config, ops[1..], ready, id);
    }
  }

  lemma AbsentStep(s: State, config: Config, op: Op, id: uint64)
    requires id !in s.tasks && (op.OpEnqueue? ==> AssignedId(s, op.task) != id)
    ensures id !in Apply(s, config, op).tasks
  {
    match op
    case OpLeaseMany(now, count) => LeasesKeepKeys(s, config, now, count);
    case _ =>
  }

  lemma {:induction false} LeasesKeepKeys(s: State, config: Config, now: uint64, count: nat)
    ensures LeaseMany(s, config, now, count).1.tasks.Keys == s.tasks.Keys
    decreases count
  {
    if count > 0 {
      LeasedExactly(s, config, now);
      LeasesKeepKeys(LeaseNext(s, config, now).1, config, now, count - 1);
    }
  }

  /** Over any run: a queued task has not been started until its ready time has come. */
  lemma {:induction false} NotBeforeReady(s: State, config: Config, ops: seq<Op>, id: uint64)
    requires id in s.tasks && s.tasks[id].state != Running
    requires LeasesBefore(s, config, ops, s.tasks[id].task.readyTime, id)
    ensures var t := RunOps(s, config, ops);
      id in t.tasks ==>
        t.tasks[id] == s.tasks[id].(state := t.tasks[id].state) && t.tasks[id].state != Running
    decreases |ops|
  {
    if |ops| > 0 {
      var u := Apply(s, config, ops[0]);
      var ready := s.tasks[id].task.readyTime;
      TaskFate(s, config, ops[0], id);
      if id in u.tasks {
        NotBeforeReady(u, config, ops[1..], id);
      } else {
        AbsentStaysAbsent(u, config, ops[1..], ready, id);
      }
    }
  }

  /** So a run that fails is not tried again before the time given with the failure. */
  lemma FailedRunWaits(s: State, config: Config, id: uint64, ready: uint64, ops: seq<Op>)
    requires id in s.tasks && s.tasks[id].state == Running
    requires LeasesBefore(Complete(s, id, false, ready).1, config, ops, ready, id)
    ensures var t := RunOps(s, config, [OpComplete(id, false, ready)] + ops);
      id in t.tasks ==> t.tasks[id].state != Running && t.tasks[id].attempts == s.tasks[id].attempts
  {
    var op := OpComplete(id, false, ready);
    RunFirst(s, config, op, ops);
    TaskFate(s, config, op, id);
    NotBeforeReady(Apply(s, config, op), config, ops, id);
  }

  // ----- enqueueing

  /** A task that has not ended, with the same device, kind and non-empty name. */
  predicate HasTwin(s: State, t: Task) {
    && |t.name| > 0
    && exists id | id in s.tasks :: s.tasks[id].state in {Queued, Running} && s.tasks[id].task.device == t.device
         && s.tasks[id].task.kind == t.kind && s.tasks[id].task.name == t.name
  }

  /** For every state: when a task is refused, and what taking it does. */
  lemma EnqueuedExactly(s: State, config: Config, t: Task)
    ensures var (answer, u) := Enqueue(s, config, t);
      var refused := (config.rejectDuplicates && HasTwin(s, t)) || (t.id != 0 && t.id in s.tasks);
      && (answer == Throws <==> |s.tasks| >= config.maxTasks)
      && (answer == Throws ==> u == s)
      && (answer != Throws && refused ==>
            answer == Returns(0) && u == s.(stats := s.stats.(duplicates := s.stats.duplicates + 1)))
      && (answer != Throws && !refused ==>
            var id := if t.id == 0 then s.nextId else t.id;
            && answer == Returns(id)
            && u.tasks == s.tasks[id := Record(t.(id := id), Queued, 0, 0)]
            && (t.id == 0 ==> u.nextId == (s.nextId + 1) % TWO_64)
            && (0 < t.id < MAX_64 ==> u.nextId >= s.nextId && u.nextId > t.id && u.nextId in {s.nextId, t.id + 1})
            && (t.id == MAX_64 ==> u.nextId == s.nextId)
            && u.running == s.running && u.stats == s.stats.(enqueued := s.stats.enqueued + 1))
  {
    assert HasTwin(s, t) <==> DuplicateLabel(s.tasks, t) by {
      if HasTwin(s, t) {
        var id :| id in s.tasks && s.tasks[id].state in {Queued, Running} && s.tasks[id].task.device == t.device
                  && s.tasks[id].task.kind == t.kind && s.tasks[id].task.name == t.name;
        assert SameLabel(s.tasks[id], t);
      }
    }
  }

  // ----- expiry

  /** Queued, and the deadline is past. */
  predicate Late(r: Record, now: uint64) {
    r.state == Queued && 0 < r.task.deadline < now
  }

  lemma {:induction false} LateAmong(tasks: map<uint64, Record>, rest: set<uint64>, now: uint64, t: Task)
    requires rest <= tasks.Keys
    ensures t in OverdueTasks(tasks, rest, now)
        <==> exists id :: id in rest && Late(tasks[id], now) && tasks[id].task == t
    decreases |rest|
  {
    if rest != {} {
      LateAmong(tasks, rest - {Least(rest)}, now, t);
    }
  }

  /** The tasks returned are exactly those that expire. */
  lemma ExpiredExactly(s: State, now: uint64, t: Task)
    ensures t in Expire(s, now).0 <==> exists id :: id in s.tasks && Late(s.tasks[id], now) && s.tasks[id].task == t
  {
    LateAmong(s.tasks, s.tasks.Keys, now, t);
  }

  // ----- answers and counters

  /** A completion or a cancellation says yes if and only if it changes its task, and counts it. */
  lemma EndingAnswered(s: State, id: uint64, success: bool, ready: uint64)
    ensures var (done, t) := Complete(s, id, success, ready);
      && (done <==> id in s.tasks && s.tasks[id].state == Running)
      && (!done ==> t == s)
      && t.stats == s.stats.(
           completed := s.stats.completed + (if done && success then 1 else 0),
           retried := s.stats.retried + (if done && !success then 1 else 0))
      && t.nextId == s.nextId
    ensures var (done, t) := Cancel(s, id);
      && (done <==> id in s.tasks && s.tasks[id].state in {Queued, Running})
      && (!done ==> t == s)
      && t.stats == s.stats.(cancelled := s.stats.cancelled + (if done then 1 else 0))
      && t.nextId == s.nextId
  {
  }

  /** The device of a task that stops running has one task fewer, and no other device changes. */
  lemma DeviceReleased(running: map<uint64, uint32>, device: uint64, d: uint64)
    ensures CountOn(Release(running, device), d)
         == if d == device then Max(0, CountOn(running, d) - 1) else CountOn(running, d)
    ensures d in Release(running, device) ==> d in running
  {
  }
}
