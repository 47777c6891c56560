/** Which task the scheduler leases, for every queue: the task that outranks all others whenever there
    is one, and exactly when there is none. */
module SchedulerChoice {
  import opened Words
  import opened Wrappers
  import opened OrderedMaps
  import opened Scheduler
  import opened SchedulerTheorems

  // ----- the scan is a contest

  /** The eligible tasks with identifiers outside `rest`. */
  ghost function Seen(s: State, config: Config, now: uint64, rest: set<uint64>): set<uint64> {
    set id | id in s.tasks && id !in rest && Eligible(s, config, now, id)
  }

  /** Of two tasks the scan prefers `i`: it would replace `j`, or neither replaces the other and `i`
      is met first. */
  predicate Outranks(s: State, horizon: uint64, i: uint64, j: uint64)
    requires i in s.tasks && j in s.tasks
  {
    Replaces(s.tasks[i], s.tasks[j], horizon) || (!Replaces(s.tasks[j], s.tasks[i], horizon) && i < j)
  }

  lemma OneOutranks(s: State, horizon: uint64, i: uint64, j: uint64)
    requires i in s.tasks && j in s.tasks && i != j
    ensures Outranks(s, horizon, i, j) <==> !Outranks(s, horizon, j, i)
  {
  }

  ghost predicate Wins(s: State, horizon: uint64, ids: set<uint64>, w: uint64) {
    w in ids && w in s.tasks && forall i | i in ids && i in s.tasks && i != w :: Outranks(s, horizon, w, i)
  }

  /** Part-way through the scan, with `rest` still to come: a task seen so far that outranks all
      eligible ones is the best so far. */
  ghost predicate Holds(s: State, config: Config, now: uint64, rest: set<uint64>, best: Option<uint64>) {
    && rest <= s.tasks.Keys
    && (forall i, j | i in s.tasks && i !in rest && j in rest :: i < j)
    && (best.None? <==> Seen(s, config, now, rest) == {})
    && (best.Some? ==> best.value in Seen(s, config, now, rest))
    && (forall w | w in Seen(s, config, now, rest) && Wins(s, Horizon(config, now), Seen(s, config, now, {}), w) ::
          best == Some(w))
  }

  lemma SeenMore(s: State, config: Config, now: uint64, rest: set<uint64>, id: uint64)
    requires id in rest && id in s.tasks
    ensures Seen(s, config, now, rest - {id})
         == Seen(s, config, now, rest) + (if Eligible(s, config, now, id) then {id} else {})
    ensures Eligible(s, config, now, id) ==> id in Seen(s, config, now, {})
    ensures Seen(s, config, now, rest) <= Seen(s, config, now, {})
  {
  }

  lemma HoldsStep(s: State, config: Config, now: uint64, rest: set<uint64>, best: Option<uint64>)
    requires rest != {} && Holds(s, config, now, rest, best)
    ensures Holds(s, config, now, rest - {Least(rest)}, Better(s, config, now, best, Least(rest)))
  {
    var h, all, id := Horizon(config, now), Seen(s, config, now, {}), Least(rest);
    var after := Better(s, config, now, best, id);
    SeenMore(s, config, now, rest, id);
    if Eligible(s, config, now, id) && best.Some? {
      assert best.value < id;
      OneOutranks(s, h, id, best.value);
      forall w | w in Seen(s, config, now, rest - {id}) && Wins(s, h, all, w)
        ensures after == Some(w)
      {
        if w == id {
          assert Outranks(s, h, id, best.value);
        } else {
          assert Outranks(s, h, w, id);
        }
      }
    }
  }

  lemma {:induction false} ScanHolds(s: State, config: Config, now: uint64, rest: set<uint64>, best: Option<uint64>)
    requires Holds(s, config, now, rest, best)
    ensures Holds(s, config, now, {}, Scan(s, config, now, rest, best))
    decreases |rest|
  {
    if rest != {} {
      HoldsStep(s, config, now, rest, best);
      ScanHolds(s, config, now, rest - {Least(rest)}, Better(s, config, now, best, Least(rest)));
    }
  }

  /** For every state: a task is chosen if and only if one is eligible, and whenever some eligible task
      outranks every other, that is the one. */
  lemma SelectFindsWinner(s: State, config: Config, now: uint64)
    ensures var all, b := Seen(s, config, now, {}), Select(s, config, now);
      && (b.None? <==> all == {})
      && (b.Some? ==> b.value in all)
      && forall w: uint64 :: Wins(s, Horizon(config, now), all, w) ==> b == Some(w)
  {
    var none: Option<uint64> := None;
    assert Seen(s, config, now, s.tasks.Keys) == {};
    ScanHolds(s, config, now, s.tasks.Keys, none);
  }

  // ----- when some task outranks every other

  /** By higher priority, fewer attempts, earlier enqueue time, identifier. */
  predicate RanksBefore(s: State, i: uint64, j: uint64)
    requires i in s.tasks && j in s.tasks
  {
    var a, b := s.tasks[i], s.tasks[j];
    if a.task.priority != b.task.priority then a.task.priority > b.task.priority
    else if a.attempts != b.attempts then a.attempts < b.attempts
    else if a.task.enqueueTime != b.task.enqueueTime then a.task.enqueueTime < b.task.enqueueTime
    else i < j
  }

  /** By deadline, and then as above. */
  predicate DueBefore(s: State, i: uint64, j: uint64)
    requires i in s.tasks && j in s.tasks
  {
    var a, b := s.tasks[i].task, s.tasks[j].task;
    if a.deadline != b.deadline then a.deadline < b.deadline else RanksBefore(s, i, j)
  }

  lemma OutranksByRank(s: State, horizon: uint64, i: uint64, j: uint64)
    requires i in s.tasks && j in s.tasks && i != j
    requires !Due(s.tasks[i].task, horizon) && !Due(s.tasks[j].task, horizon)
    requires s.tasks[i].task.deadline == 0 || s.tasks[j].task.deadline == 0
    ensures Outranks(s, horizon, i, j) <==> RanksBefore(s, i, j)
  {
  }

  lemma OutranksByDeadline(s: State, horizon: uint64, i: uint64, j: uint64)
    requires i in s.tasks && j in s.tasks && i != j
    requires Due(s.tasks[i].task, horizon) == Due(s.tasks[j].task, horizon)
    requires s.tasks[i].task.deadline != 0 && s.tasks[j].task.deadline != 0
    ensures Outranks(s, horizon, i, j) <==> DueBefore(s, i, j)
  {
  }

  /** The tasks of `ids` with, or without, a deadline. */
  ghost function WithDeadline(s: State, ids: set<uint64>, deadline: bool): set<uint64> {
    set i | i in ids && i in s.tasks && (s.tasks[i].task.deadline != 0) == deadline
  }

  ghost predicate FirstByRank(s: State, ids: set<uint64>, m: uint64) {
    m in ids && m in s.tasks && forall i | i in ids && i in s.tasks && i != m :: RanksBefore(s, m, i)
  }

  ghost predicate FirstByDeadline(s: State, ids: set<uint64>, m: uint64) {
    m in ids && m in s.tasks && forall i | i in ids && i in s.tasks && i != m :: DueBefore(s, m, i)
  }

  lemma {:induction false} SomeFirstByRank(s: State, ids: set<uint64>) returns (m: uint64)
    requires ids != {} && ids <= s.tasks.Keys
    ensures FirstByRank(s, ids, m)
    decreases |ids|
  {
    var i := Least(ids);
    if ids == {i} {
      m := i;
    } else {
      var n := SomeFirstByRank(s, ids - {i});
      m := if RanksBefore(s, i, n) then i else n;
    }
  }

  lemma {:induction false} SomeFirstByDeadline(s: State, ids: set<uint64>) returns (m: uint64)
    requires ids != {} && ids <= s.tasks.Keys
    ensures FirstByDeadline(s, ids, m)
    decreases |ids|
  {
    var i := Least(ids);
    if ids == {i} {
      m := i;
    } else {
      var n := SomeFirstByDeadline(s, ids - {i});
      m := if DueBefore(s, i, n) then i else n;
    }
  }

  ghost predicate NoneDue(s: State, horizon: uint64, ids: set<uint64>) {
    forall i | i in ids && i in s.tasks :: !Due(s.tasks[i].task, horizon)
  }

  /** Nothing is due, and by rank the first task without a deadline lies strictly between the first
      task with one and the task with the earliest one: `first`, `open` and `soonest`. */
  ghost predicate Circles(
    s: State, horizon: uint64, ids: set<uint64>, first: uint64, open: uint64, soonest: uint64) {
    && NoneDue(s, horizon, ids)
    && FirstByRank(s, WithDeadline(s, ids, true), first)
    && FirstByRank(s, WithDeadline(s, ids, false), open)
    && FirstByDeadline(s, WithDeadline(s, ids, true), soonest)
    && RanksBefore(s, first, open) && RanksBefore(s, open, soonest)
  }

  ghost predicate Circular(s: State, horizon: uint64, ids: set<uint64>) {
    exists first, open, soonest :: Circles(s, horizon, ids, first, open, soonest)
  }

  lemma CircleHasNoWinner(
    s: State, horizon: uint64, ids: set<uint64>, first: uint64, open: uint64, soonest: uint64, w: uint64)
    requires Circles(s, horizon, ids, first, open, soonest)
    ensures !Wins(s, horizon, ids, w)
  {
    if Wins(s, horizon, ids, w) {
      if s.tasks[w].task.deadline == 0 {
        var other := if w == open then first else open;
        assert RanksBefore(s, other, w);
        OutranksByRank(s, horizon, w, other);
      } else if w == soonest {
        OutranksByRank(s, horizon, w, open);
      } else {
        OutranksByDeadline(s, horizon, w, soonest);
      }
    }
  }

  /** A due task wins if any is due. */
  lemma DueWins(s: State, horizon: uint64, ids: set<uint64>) returns (w: uint64)
    requires ids <= s.tasks.Keys && !NoneDue(s, horizon, ids)
    ensures Wins(s, horizon, ids, w)
  {
    var due := set i | i in ids && i in s.tasks && Due(s.tasks[i].task, horizon);
    var some :| some in ids && some in s.tasks && Due(s.tasks[some].task, horizon);
    assert some in due;
    w := SomeFirstByDeadline(s, due);
    assert w in due;
    forall i | i in ids && i != w
      ensures Outranks(s, horizon, w, i)
    {
      if i in due {
        OutranksByDeadline(s, horizon, w, i);
      }
    }
  }

  lemma SoonestWins(s: State, horizon: uint64, ids: set<uint64>, w: uint64)
    requires ids <= s.tasks.Keys && NoneDue(s, horizon, ids)
    requires FirstByDeadline(s, WithDeadline(s, ids, true), w)
    requires forall i | i in WithDeadline(s, ids, false) :: RanksBefore(s, w, i)
    ensures Wins(s, horizon, ids, w)
  {
    forall i | i in ids && i != w
      ensures Outranks(s, horizon, w, i)
    {
      if s.tasks[i].task.deadline == 0 {
        assert i in WithDeadline(s, ids, false);
        OutranksByRank(s, horizon, w, i);
      } else {
        assert i in WithDeadline(s, ids, true);
        OutranksByDeadline(s, horizon, w, i);
      }
    }
  }

  lemma OpenWins(s: State, horizon: uint64, ids: set<uint64>, w: uint64)
    requires ids <= s.tasks.Keys && NoneDue(s, horizon, ids)
    requires FirstByRank(s, WithDeadline(s, ids, false), w)
    requires forall i | i in WithDeadline(s, ids, true) :: RanksBefore(s, w, i)
    ensures Wins(s, horizon, ids, w)
  {
    forall i | i in ids && i != w
      ensures Outranks(s, horizon, w, i)
    {
      assert i in WithDeadline(s, ids, false) || i in WithDeadline(s, ids, true);
      OutranksByRank(s, horizon, w, i);
    }
  }

  lemma RankTransitive(s: State, i: uint64, j: uint64, k: uint64)
    requires i in s.tasks && j in s.tasks && k in s.tasks && RanksBefore(s, i, j)
    requires j == k || RanksBefore(s, j, k)
    ensures RanksBefore(s, i, k)
  {
  }

  lemma SomeoneWins(s: State, horizon: uint64, ids: set<uint64>) returns (w: uint64)
    requires ids != {} && ids <= s.tasks.Keys && !Circular(s, horizon, ids)
    ensures Wins(s, horizon, ids, w)
  {
    var dated, undated := WithDeadline(s, ids, true), WithDeadline(s, ids, false);
    assert ids == dated + undated;
    if !NoneDue(s, horizon, ids) {
      w := DueWins(s, horizon, ids);
    } else if undated == {} {
      w := SomeFirstByDeadline(s, dated);
      SoonestWins(s, horizon, ids, w);
    } else if dated == {} {
      w := SomeFirstByRank(s, undated);
      OpenWins(s, horizon, ids, w);
    } else {
      w := MixedWins(s, horizon, ids);
    }
  }

  lemma MixedWins(s: State, horizon: uint64, ids: set<uint64>) returns (w: uint64)
    requires ids <= s.tasks.Keys && NoneDue(s, horizon, ids) && !Circular(s, horizon, ids)
    requires WithDeadline(s, ids, true) != {} && WithDeadline(s, ids, false) != {}
    ensures Wins(s, horizon, ids, w)
  {
    var dated, undated := WithDeadline(s, ids, true), WithDeadline(s, ids, false);
    var first := SomeFirstByRank(s, dated);
    var open := SomeFirstByRank(s, undated);
    var soonest := SomeFirstByDeadline(s, dated);
    if RanksBefore(s, soonest, open) {
      w := soonest;
      forall i | i in undated
        ensures RanksBefore(s, w, i)
      {
        RankTransitive(s, soonest, open, i);
      }
      SoonestWins(s, horizon, ids, w);
    } else {
      w := open;
      assert !Circles(s, horizon, ids, first, open, soonest);
      assert RanksBefore(s, open, first);
      forall i | i in dated
        ensures RanksBefore(s, w, i)
      {
        RankTransitive(s, open, first, i);
      }
      OpenWins(s, horizon, ids, w);
    }
  }

  /** Whenever an eligible task is due, for every state: the lease goes to the due task of earliest
      deadline, then by rank, and the state records it as running. */
  lemma LeaseIsDueFirst(s: State, config: Config, now: uint64, due: uint64)
    requires Eligible(s, config, now, due) && Due(s.tasks[due].task, Horizon(config, now))
    ensures Select(s, config, now).Some?
    ensures var (lease, t), id := LeaseNext(s, config, now), Select(s, config, now).value;
      && Eligible(s, config, now, id) && Due(s.tasks[id].task, Horizon(config, now))
      && (forall i | Eligible(s, config, now, i) && i != id && Due(s.tasks[i].task, Horizon(config, now)) ::
            DueBefore(s, id, i))
      && lease == Some(Lease(s.tasks[id].task, Deadline, now))
      && t.tasks == s.tasks[id := s.tasks[id].(
           state := Running, lastLease := now, attempts := Wrap32(s.tasks[id].attempts + 1))]
  {
    var h, all := Horizon(config, now), Seen(s, config, now, {});
    SelectFindsWinner(s, config, now);
    assert due in all;
    var w := DueWins(s, h, all);
    assert Select(s, config, now) == Some(w);
    assert due == w || Outranks(s, h, w, due);
    forall i | Eligible(s, config, now, i) && i != w && Due(s.tasks[i].task, h)
      ensures DueBefore(s, w, i)
    {
      assert i in all;
      OutranksByDeadline(s, h, w, i);
    }
  }

  /** For every state with something eligible: the chosen task outranks every other eligible one if and
      only if the eligible tasks do not run in a circle. */
  lemma ChoiceWinsExactly(s: State, config: Config, now: uint64)
    requires Seen(s, config, now, {}) != {}
    ensures var b := Select(s, config, now);
      b.Some? && (Wins(s, Horizon(config, now), Seen(s, config, now, {}), b.value)
                  <==> !Circular(s, Horizon(config, now), Seen(s, config, now, {})))
  {
    var h, all := Horizon(config, now), Seen(s, config, now, {});
    SelectFindsWinner(s, config, now);
    if Circular(s, h, all) {
      var first, open, soonest :| Circles(s, h, all, first, open, soonest);
      CircleHasNoWinner(s, h, all, first, open, soonest, Select(s, config, now).value);
    } else {
      var w := SomeoneWins(s, h, all);
    }
  }

  // ----- a circle can be reached

  function Waiting(id: uint64, deadline: uint64, priority: uint8): Record {
    Record(Task(id, 0, id, 0, 0, deadline, priority, 1, ""), Queued, 0, 0)
  }

  function CircleRun(): seq<Op> {
    [OpEnqueue(Waiting(1, 50, 0).task)] + [OpEnqueue(Waiting(2, 0, 1).task)] + [OpEnqueue(Waiting(3, 100, 2).task)]
  }

  lemma CircleState(config: Config)
    requires config.maxTasks > 2
    ensures var s := RunOps(START, config, CircleRun());
      && s.tasks == map[1 := Waiting(1, 50, 0), 2 := Waiting(2, 0, 1), 3 := Waiting(3, 100, 2)]
      && s.running == map[]
  {
    var a, b, c := Waiting(1, 50, 0).task, Waiting(2, 0, 1).task, Waiting(3, 100, 2).task;
    var s1 := RunOps(START, config, [OpEnqueue(a)]);
    RunOne(START, config, OpEnqueue(a));
    PlainEnqueue(START, config, a);
    var s2 := RunOps(START, config, [OpEnqueue(a)] + [OpEnqueue(b)]);
    RunTwo(START, config, [OpEnqueue(a)], [OpEnqueue(b)]);
    RunOne(s1, config, OpEnqueue(b));
    PlainEnqueue(s1, config, b);
    assert s2.tasks.Keys == {1, 2};
    RunTwo(START, config, [OpEnqueue(a)] + [OpEnqueue(b)], [OpEnqueue(c)]);
    RunOne(s2, config, OpEnqueue(c));
    PlainEnqueue(s2, config, c);
  }

  /** Three tasks enqueued in a new scheduler run in a circle as long as none is due: a low one due at
      50, a normal one without a deadline and a high one due at 100. */
  lemma CircleIsReachable(config: Config, now: uint64)
    requires config.maxTasks > 2 && Horizon(config, now) < 50
    ensures var s := RunOps(START, config, CircleRun());
      Circles(s, Horizon(config, now), Seen(s, config, now, {}), 3, 2, 1)
  {
    CircleState(config);
    var s := RunOps(START, config, CircleRun());
    var all := Seen(s, config, now, {});
    assert all == {1, 2, 3};
    assert WithDeadline(s, all, true) == {1, 3} && WithDeadline(s, all, false) == {2};
  }
}
