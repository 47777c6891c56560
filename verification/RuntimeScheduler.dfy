/** The scheduler class of src/runtime/scheduler.cpp, each method proved to make the transition of
    module Scheduler. */
module RuntimeSchedulerClass {
  import opened Words
  import opened Wrappers
  import opened OrderedMaps
  import opened Scheduler

  class RuntimeScheduler {
    const config: Config
    var tasks: map<uint64, Record>
    var runningByDevice: map<uint64, uint32>
    var stats: Stats
    var nextId: uint64

    ghost function Value(): State
      reads this
    {
      State(tasks, runningByDevice, stats, nextId)
    }

    constructor (config: Config)
      ensures Value() == State(map[], map[], Stats(0, 0, 0, 0, 0, 0, 0), 1) && this.config == config
    {
      this.config := config;
      tasks, runningByDevice, stats, nextId := map[], map[], Stats(0, 0, 0, 0, 0, 0, 0), 1;
    }

    method HasDuplicateLabel(t: Task) returns (found: bool)
      ensures found == DuplicateLabel(tasks, t)
    {
      if t.name == "" {
        return false;
      }
      var rest := tasks.Keys;
      while rest != {}
        invariant rest <= tasks.Keys
        invariant forall id | id in tasks && id !in rest :: !SameLabel(tasks[id], t)
        decreases |rest|
      {
        var id := Least(rest);
        if SameLabel(tasks[id], t) {
          return true;
        }
        rest := rest - {id};
      }
      found := false;
    }

    method EnqueueTask(t: Task) returns (r: Enqueued)
      modifies this
      ensures (r, Value()) == Enqueue(old(Value()), config, t)
    {
      if |tasks| >= config.maxTasks {
        return Throws;
      }
      var duplicate := HasDuplicateLabel(t);
      if (config.rejectDuplicates && duplicate) || (t.id != 0 && t.id in tasks) {
        stats := stats.(duplicates := stats.duplicates + 1);
        return Returns(0);
      }
      var id := t.id;
      if id == 0 {
        id := nextId;
        nextId := Wrap64(nextId + 1);
      } else {
        nextId := Max(nextId, Wrap64(t.id + 1));
      }
      tasks := tasks[id := Record(t.(id := id), Queued, 0, 0)];
      stats := stats.(enqueued := stats.enqueued + 1);
      r := Returns(id);
    }

    method SelectTask(now: uint64) returns (best: Option<uint64>)
      ensures best == Select(Value(), config, now)
    {
      best := None;
      var rest := tasks.Keys;
      while rest != {}
        invariant rest <= tasks.Keys && (best.Some? ==> best.value in tasks)
        invariant Scan(Value(), config, now, tasks.Keys, None) == Scan(Value(), config, now, rest, best)
        decreases |rest|
      {
        var id := Least(rest);
        var r := tasks[id];
        ghost var before := best;
        if r.state == Queued && r.task.readyTime <= now && DeviceBurstAvailable(r.task.device) {
          if best.None? || Replaces(r, tasks[best.value], Wrap64(now + config.fairnessWindow)) {
            best := Some(id);
          }
        }
        assert best == Better(Value(), config, now, before, id);
        rest := rest - {id};
      }
    }

    predicate DeviceBurstAvailable(device: uint64)
      reads this
    {
      device in runningByDevice ==> runningByDevice[device] < config.perDeviceBurst
    }

    method LeaseNextTask(now: uint64) returns (lease: Option<Lease>)
      modifies this
      ensures (lease, Value()) == LeaseNext(old(Value()), config, now)
    {
      var best := SelectTask(now);
      if best.None? {
        return None;
      }
      var id := best.value;
      var r := tasks[id];
      var reason := PickReason(r, config, now);
      tasks := tasks[id := r.(state := Running, lastLease := now, attempts := Wrap32(r.attempts + 1))];
      var count: nat := if r.task.device in runningByDevice then runningByDevice[r.task.device] else 0;
      runningByDevice := runningByDevice[r.task.device := Wrap32(count + 1)];
      stats := stats.(leased := stats.leased + 1);
      lease := Some(Lease(r.task, reason, now));
    }

    method LeaseManyTasks(now: uint64, maxCount: nat) returns (leases: seq<Lease>)
      modifies this
      ensures (leases, Value()) == LeaseMany(old(Value()), config, now, maxCount)
    {
      leases := [];
      ghost var all := LeaseMany(Value(), config, now, maxCount);
      while |leases| < maxCount
        invariant |leases| <= maxCount
        invariant LeaseMany(Value(), config, now, maxCount - |leases|).1 == all.1
        invariant leases + LeaseMany(Value(), config, now, maxCount - |leases|).0 == all.0
      {
        LeaseManyStep(leases, Value(), config, now, maxCount - |leases|);
        var lease := LeaseNextTask(now);
        if lease.None? {
          break;
        }
        leases := leases + [lease.value];
      }
      assert leases + [] == leases;
    }

    method ReleaseDevice(device: uint64)
      modifies this`runningByDevice
      ensures runningByDevice == Release(old(runningByDevice), device)
    {
      if device !in runningByDevice {
        return;
      }
      if runningByDevice[device] <= 1 {
        runningByDevice := runningByDevice - {device};
      } else {
        runningByDevice := runningByDevice[device := runningByDevice[device] - 1];
      }
    }

    method CompleteTask(id: uint64, success: bool, retryReady: uint64) returns (done: bool)
      modifies this
      ensures (done, Value()) == Complete(old(Value()), id, success, retryReady)
    {
      if id !in tasks || tasks[id].state != Running {
        return false;
      }
      var r := tasks[id];
      ReleaseDevice(r.task.device);
      if success {
        tasks := tasks[id := r.(state := Completed)];
        stats := stats.(completed := stats.completed + 1);
        return true;
      }
      tasks := tasks[id := r.(state := Queued, task := r.task.(readyTime := retryReady))];
      stats := stats.(retried := stats.retried + 1);
      done := true;
    }

    method CancelTask(id: uint64) returns (done: bool)
      modifies this
      ensures (done, Value()) == Cancel(old(Value()), id)
    {
      if id !in tasks || Terminal(tasks[id].state) {
        return false;
      }
      var r := tasks[id];
      if r.state == Running {
        ReleaseDevice(r.task.device);
      }
      tasks := tasks[id := r.(state := Cancelled)];
      stats := stats.(cancelled := stats.cancelled + 1);
      done := true;
    }

    method ExpireTasks(now: uint64) returns (expired: seq<Task>)
      modifies this
      ensures (expired, Value()) == Expire(old(Value()), now)
    {
      expired := [];
      var rest := tasks.Keys;
      ghost var was, all := tasks, OverdueTasks(tasks, rest, now);
      AgedAll(was, now);
      assert all == expired + all;
      while rest != {}
        invariant rest <= was.Keys
        invariant runningByDevice == old(runningByDevice) && nextId == old(nextId)
        invariant stats == old(stats).(expired := old(stats).expired + |expired|)
        invariant tasks == AgedOutside(was, rest, now)
        invariant all == expired + OverdueTasks(was, rest, now)
        decreases |rest|
      {
        var id := Least(rest);
        var r := tasks[id];
        AgeOne(was, rest, id, now);
        OverdueOne(was, rest, now, expired, all);
        if r.state == Queued && r.task.deadline != 0 && now > r.task.deadline {
          tasks := tasks[id := r.(state := Expired)];
          expired := expired + [r.task];
          stats := stats.(expired := stats.expired + 1);
        }
        rest := rest - {id};
      }
      OverdueNone(was, now, expired, all);
    }

    method ClearCompletedTasks()
      modifies this`tasks
      ensures Value() == ClearCompleted(old(Value()))
    {
      var rest := tasks.Keys;
      ghost var was := tasks;
      while rest != {}
        invariant rest <= was.Keys
        invariant tasks == map id | id in was && (id in rest || !Terminal(was[id].state)) :: was[id]
        decreases |rest|
      {
        var id := Least(rest);
        if Terminal(tasks[id].state) {
          tasks := tasks - {id};
        }
        rest := rest - {id};
      }
    }

    method Reset()
      modifies this
      ensures Value() == State(map[], map[], Stats(0, 0, 0, 0, 0, 0, 0), 1)
    {
      tasks, runningByDevice, stats, nextId := map[], map[], Stats(0, 0, 0, 0, 0, 0, 0), 1;
    }
  }

  lemma LeaseManyStep(before: seq<Lease>, s: State, config: Config, now: uint64, count: nat)
    requires count > 0
    ensures var (lease, t) := LeaseNext(s, config, now);
      var (more, end) := LeaseMany(s, config, now, count);
      if lease.None? then t == s && before + more == before && end == s
      else end == LeaseMany(t, config, now, count - 1).1
           && before + more == before + [lease.value] + LeaseMany(t, config, now, count - 1).0
  {
  }

  /** One step of the expiry loop: what has expired so far, and what is still to expire. */
  lemma OverdueOne(was: map<uint64, Record>, rest: set<uint64>, now: uint64, expired: seq<Task>, all: seq<Task>)
    requires rest <= was.Keys && rest != {} && all == expired + OverdueTasks(was, rest, now)
    ensures var r := was[Least(rest)];
      all == (if Overdue(r, now) then expired + [r.task] else expired) + OverdueTasks(was, rest - {Least(rest)}, now)
  {
    var r, later := was[Least(rest)], OverdueTasks(was, rest - {Least(rest)}, now);
    if Overdue(r, now) {
      assert OverdueTasks(was, rest, now) == [r.task] + later;
    } else {
      assert OverdueTasks(was, rest, now) == [] + later == later;
    }
  }

  lemma OverdueNone(was: map<uint64, Record>, now: uint64, expired: seq<Task>, all: seq<Task>)
    requires all == expired + OverdueTasks(was, {}, now)
    ensures all == expired
  {
  }

  /** The tasks when all but those of `rest` have been looked at. */
  ghost function AgedOutside(was: map<uint64, Record>, rest: set<uint64>, now: uint64): map<uint64, Record> {
    map id | id in was :: if id in rest then was[id] else Aged(was[id], now)
  }

  lemma AgeOne(was: map<uint64, Record>, rest: set<uint64>, id: uint64, now: uint64)
    requires id in rest && id in was
    ensures AgedOutside(was, rest, now)[id] == was[id]
    ensures AgedOutside(was, rest - {id}, now) == AgedOutside(was, rest, now)[id := Aged(was[id], now)]
  {
  }

  lemma AgedAll(was: map<uint64, Record>, now: uint64)
    ensures AgedOutside(was, was.Keys, now) == was
    ensures AgedOutside(was, {}, now) == map id | id in was :: Aged(was[id], now)
  {
  }
}
