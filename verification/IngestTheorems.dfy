/** What the ingest queue keeps, and the order in which it drains. */
module IngestTheorems {
  import opened Words
  import opened Sorting
  import opened Ingest

  // ----- the order

  /** The sort key of each drain mode: nothing for arrival order; otherwise higher priority, or
      earlier deadline with none last, and then earlier arrival. */
  function KeyOf(mode: DrainMode): Envelope -> Key {
    match mode
    case Fifo => (e: Envelope) => Key(0, 0, 0)
    case HighestPriorityFirst => (e: Envelope) => Key(255 - e.priority, e.arrival, 0)
    case EarliestDeadlineFirst => (e: Envelope) => Key(if e.deadline == 0 then TWO_64 else e.deadline, e.arrival, 0)
  }

  /** The comparison the code makes is the one on keys. */
  lemma PreferredIsLess(mode: DrainMode, a: Envelope, b: Envelope)
    ensures Preferred(mode, a, b) <==> Less(KeyOf(mode)(a), KeyOf(mode)(b))
  {
  }

  lemma {:induction false} NextIsFirstLeast(mode: DrainMode, queue: seq<Envelope>, n: nat)
    requires 0 < n <= |queue|
    ensures var key, i := KeyOf(mode), Next(mode, queue, n);
      && (forall j | 0 <= j < n :: !Less(key(queue[j]), key(queue[i])))
      && (forall j | 0 <= j < i :: Less(key(queue[i]), key(queue[j])))
    decreases n
  {
    if n > 1 {
      NextIsFirstLeast(mode, queue, n - 1);
      PreferredIsLess(mode, queue[n - 1], queue[Next(mode, queue, n - 1)]);
    }
  }

  /** The whole queue in the order in which it drains. */
  function DrainOrder(mode: DrainMode, queue: seq<Envelope>): seq<Envelope>
    decreases |queue|
  {
    if |queue| == 0 then [] else
      var i := Next(mode, queue, |queue|);
      [queue[i]] + DrainOrder(mode, Removed(queue, i))
  }

  lemma {:induction false} DrainOrderMember(mode: DrainMode, queue: seq<Envelope>, e: Envelope)
    ensures e in DrainOrder(mode, queue) <==> e in queue
    decreases |queue|
  {
    if |queue| > 0 {
      var i := Next(mode, queue, |queue|);
      DrainOrderMember(mode, Removed(queue, i), e);
      assert queue == queue[..i] + [queue[i]] + queue[i + 1..];
    }
  }

  lemma {:induction false} NoneBefore(before: seq<Envelope>, key: Envelope -> Key, k: Key)
    requires forall j | 0 <= j < |before| :: key(before[j]) != k
    ensures Filter(before, HasKey(key, k)) == []
    decreases |before|
  {
    if |before| > 0 {
      NoneBefore(before[1..], key, k);
    }
  }

  lemma FirstOfClass(a: seq<Envelope>, e: Envelope, b: seq<Envelope>, key: Envelope -> Key, k: Key)
    requires forall j | 0 <= j < |a| :: key(a[j]) != key(e)
    ensures Filter(a + [e] + b, HasKey(key, k))
         == (if key(e) == k then [e] else []) + Filter(a + b, HasKey(key, k))
  {
    FilterAround(a, e, b, HasKey(key, k));
    FilterAppend(a, b, HasKey(key, k));
    if key(e) == k {
      NoneBefore(a, key, k);
    }
  }

  lemma SplitAt(queue: seq<Envelope>, i: nat)
    requires i < |queue|
    ensures queue == queue[..i] + [queue[i]] + queue[i + 1..]
  {
  }

  /** Taking out the first element of its key takes it off the front of its class. */
  lemma RemovedFilter(queue: seq<Envelope>, i: nat, key: Envelope -> Key, k: Key)
    requires i < |queue| && forall j | 0 <= j < i :: key(queue[j]) != key(queue[i])
    ensures Filter(queue, HasKey(key, k))
         == (if key(queue[i]) == k then [queue[i]] else []) + Filter(Removed(queue, i), HasKey(key, k))
  {
    SplitAt(queue, i);
    FirstOfClass(queue[..i], queue[i], queue[i + 1..], key, k);
  }

  lemma {:induction false} DrainOrderStable(mode: DrainMode, queue: seq<Envelope>)
    ensures IsStableSort(DrainOrder(mode, queue), queue, KeyOf(mode))
    decreases |queue|
  {
    if |queue| > 0 {
      var key, i := KeyOf(mode), Next(mode, queue, |queue|);
      var rest := Removed(queue, i);
      NextIsFirstLeast(mode, queue, |queue|);
      DrainOrderStable(mode, rest);
      forall e | e in DrainOrder(mode, rest)
        ensures !Less(key(e), key(queue[i]))
      {
        DrainOrderMember(mode, rest, e);
        assert e in queue;
      }
      ConsSorted(queue[i], DrainOrder(mode, rest), key);
      forall k
        ensures Filter(DrainOrder(mode, queue), HasKey(key, k)) == Filter(queue, HasKey(key, k))
      {
        RemovedFilter(queue, i, key, k);
        assert DrainOrder(mode, queue)[1..] == DrainOrder(mode, rest);
        assert Filter(DrainOrder(mode, rest), HasKey(key, k)) == Filter(rest, HasKey(key, k));
      }
    }
  }

  /** Draining packet by packet, each time the first least one, is a stable sort by the key. */
  lemma DrainOrderIsSort(mode: DrainMode, queue: seq<Envelope>)
    ensures DrainOrder(mode, queue) == Sort(queue, KeyOf(mode))
  {
    DrainOrderStable(mode, queue);
    SortIsStable(queue, KeyOf(mode));
    StableSortUnique(DrainOrder(mode, queue), Sort(queue, KeyOf(mode)), queue, KeyOf(mode));
  }

  lemma {:induction false} DrainOrderLength(mode: DrainMode, queue: seq<Envelope>)
    ensures |DrainOrder(mode, queue)| == |queue|
    decreases |queue|
  {
    if |queue| > 0 {
      DrainOrderLength(mode, Removed(queue, Next(mode, queue, |queue|)));
    }
  }

  /** Draining `count` packets returns the beginning of the sorted queue and leaves the rest. */
  lemma {:induction false} DrainIsPrefix(s: State, config: Config, count: nat)
    ensures var (out, t) := Drain(s, config, count);
      var order := DrainOrder(config.drain, s.queue);
      && |order| == |s.queue|
      && out == order[..Min(count, |order|)]
      && DrainOrder(config.drain, t.queue) == order[Min(count, |order|)..]
    decreases count
  {
    DrainOrderLength(config.drain, s.queue);
    if count > 0 && |s.queue| > 0 {
      DrainIsPrefix(Pop(s, config).1, config, count - 1);
    }
  }

  function TotalPayload(es: seq<Envelope>): nat
    decreases |es|
  {
    if |es| == 0 then 0 else Payload(es[0]) + TotalPayload(es[1..])
  }

  /** A budget drain is a drain of as many packets as it returns. */
  lemma {:induction false} BudgetIsDrain(s: State, config: Config, budget: nat, used: nat)
    ensures var (out, t) := DrainBudget(s, config, budget, used);
      |out| <= |s.queue| && Drain(s, config, |out|) == (out, t)
    decreases |s.queue|
  {
    if |s.queue| > 0 {
      var (e, t) := Pop(s, config);
      if used + Payload(e.value) > budget {
      } else {
        BudgetIsDrain(t, config, budget, used + Payload(e.value));
      }
    }
  }

  lemma TotalCons(e: Envelope, more: seq<Envelope>)
    ensures TotalPayload([e] + more) == Payload(e) + TotalPayload(more)
  {
    assert ([e] + more)[1..] == more;
  }

  /** It stays within the budget, and stops only because the next packet would not. */
  lemma {:induction false} BudgetFits(s: State, config: Config, budget: nat, used: nat)
    requires used <= budget
    ensures var (out, t) := DrainBudget(s, config, budget, used);
      && used + TotalPayload(out) <= budget
      && (|t.queue| > 0 ==>
            used + TotalPayload(out) + Payload(t.queue[Next(config.drain, t.queue, |t.queue|)]) > budget)
    decreases |s.queue|
  {
    if |s.queue| > 0 {
      var (e, t) := Pop(s, config);
      if used + Payload(e.value) <= budget {
        BudgetFits(t, config, budget, used + Payload(e.value));
        var (more, u) := DrainBudget(t, config, budget, used + Payload(e.value));
        TotalCons(e.value, more);
      }
    }
  }

  /** A budget drain returns the longest prefix of the sorted queue whose payload fits. */
  lemma BudgetIsLongestPrefix(s: State, config: Config, budget: nat)
    ensures var (out, t) := DrainBudget(s, config, budget, 0);
      var order := DrainOrder(config.drain, s.queue);
      && |out| <= |order| && out == order[..|out|]
      && DrainOrder(config.drain, t.queue) == order[|out|..]
      && TotalPayload(out) <= budget
      && (|out| < |order| ==> TotalPayload(order[..|out| + 1]) > budget)
  {
    var (out, t) := DrainBudget(s, config, budget, 0);
    var order := DrainOrder(config.drain, s.queue);
    BudgetIsDrain(s, config, budget, 0);
    DrainIsPrefix(s, config, |out|);
    BudgetFits(s, config, budget, 0);
    if |out| < |order| {
      assert DrainOrder(config.drain, t.queue)[0] == order[|out|];
      assert order[..|out| + 1] == out + [order[|out|]];
      InsertedTotals(out, order[|out|]);
    }
  }

  // ----- what every operation keeps

  lemma {:induction false} TotalAppend(a: seq<Envelope>, b: seq<Envelope>)
    ensures TotalPayload(a + b) == TotalPayload(a) + TotalPayload(b)
    decreases |a|
  {
    if |a| == 0 {
      assert a + b == b;
    } else {
      assert (a + b)[1..] == a[1..] + b;
      TotalAppend(a[1..], b);
    }
  }

  lemma TotalAround(a: seq<Envelope>, e: Envelope, b: seq<Envelope>)
    ensures TotalPayload(a + [e] + b) == Payload(e) + TotalPayload(a + b)
  {
    TotalAppend(a + [e], b);
    InsertedTotals(a, e);
    TotalAppend(a, b);
  }

  lemma TotalRemoved(queue: seq<Envelope>, i: nat)
    requires i < |queue|
    ensures TotalPayload(queue) == Payload(queue[i]) + TotalPayload(Removed(queue, i))
  {
    SplitAt(queue, i);
    TotalAround(queue[..i], queue[i], queue[i + 1..]);
  }

  /** The bounds and counters of a queue; `cleared` packets have been thrown away by `clear`. */
  ghost predicate Balanced(s: State, config: Config, cleared: nat) {
    && |s.queue| <= config.maxPackets
    && s.stats.payloadBytes == TotalPayload(s.queue)
    && s.stats.accepted == |s.queue| + s.stats.drained + s.stats.evicted + cleared
    && s.stats.rejected == s.stats.closedRejections + s.stats.payloadRejections + s.stats.capacityRejections
    && |s.queue| <= s.stats.highWaterPackets <= config.maxPackets
    && s.stats.payloadBytes <= s.stats.highWaterBytes
    && forall i | 0 <= i < |s.queue| :: Payload(s.queue[i]) <= config.maxPacketPayloadBytes
  }

  datatype Op =
    | OpPush(envelope: Envelope)
    | OpPop
    | OpDrain(count: nat)
    | OpDrainBudget(budget: nat)
    | OpClose
    | OpReopen
    | OpClear

  function Apply(s: State, config: Config, op: Op): State {
    match op
    case OpPush(e) => Push(s, config, e).1
    case OpPop => Pop(s, config).1
    case OpDrain(count) => Drain(s, config, count).1
    case OpDrainBudget(budget) => DrainBudget(s, config, budget, 0).1
    case OpClose => s.(closed := true)
    case OpReopen => s.(closed := false)
    case OpClear => Clear(s)
  }

  function ClearedBy(s: State, op: Op): nat {
    if op.OpClear? then |s.queue| else 0
  }

  lemma PopBalanced(s: State, config: Config, cleared: nat)
    requires Balanced(s, config, cleared)
    ensures Balanced(Pop(s, config).1, config, cleared)
  {
    if |s.queue| > 0 {
      TotalRemoved(s.queue, Next(config.drain, s.queue, |s.queue|));
    }
  }

  lemma {:induction false} DrainBalanced(s: State, config: Config, count: nat, cleared: nat)
    requires Balanced(s, config, cleared)
    ensures Balanced(Drain(s, config, count).1, config, cleared)
    decreases count
  {
    if count > 0 && |s.queue| > 0 {
      PopBalanced(s, config, cleared);
      DrainBalanced(Pop(s, config).1, config, count - 1, cleared);
    }
  }

  lemma BudgetBalanced(s: State, config: Config, budget: nat, cleared: nat)
    requires Balanced(s, config, cleared)
    ensures Balanced(DrainBudget(s, config, budget, 0).1, config, cleared)
  {
    BudgetIsDrain(s, config, budget, 0);
    DrainBalanced(s, config, |DrainBudget(s, config, budget, 0).0|, cleared);
  }

  lemma InsertedTotals(queue: seq<Envelope>, e: Envelope)
    ensures TotalPayload(queue + [e]) == TotalPayload(queue) + Payload(e)
  {
    TotalAppend(queue, [e]);
    assert [e][1..] == [];
  }

  lemma InsertedBalanced(s: State, config: Config, e: Envelope, cleared: nat)
    requires Balanced(s, config, cleared) && |s.queue| < config.maxPackets
    requires Payload(e) <= config.maxPacketPayloadBytes
    ensures Balanced(Inserted(s, e), config, cleared)
  {
    InsertedTotals(s.queue, e);
  }

  lemma EvictedBalanced(s: State, config: Config, i: nat, cleared: nat)
    requires Balanced(s, config, cleared) && i < |s.queue|
    ensures var t := RemoveAt(s, i);
      Balanced(t.(stats := t.stats.(evicted := t.stats.evicted + 1)), config, cleared)
  {
    TotalRemoved(s.queue, i);
  }

  lemma PushBalanced(s: State, config: Config, e: Envelope, cleared: nat)
    requires Balanced(s, config, cleared)
    ensures Balanced(Push(s, config, e).1, config, cleared)
  {
    var r := Ranked(e);
    var victim := Victim(s, config, r);
    if Push(s, config, e).0.status in {Accepted, Replaced} {
      if victim.Some? && ExceedsCapacity(s, config, r) {
        EvictedBalanced(s, config, victim.value, cleared);
        var t := RemoveAt(s, victim.value);
        InsertedBalanced(t.(stats := t.stats.(evicted := t.stats.evicted + 1)), config, r, cleared);
      } else {
        InsertedBalanced(s, config, r, cleared);
      }
    }
  }

  lemma StepBalanced(s: State, config: Config, op: Op, cleared: nat)
    requires Balanced(s, config, cleared)
    ensures Balanced(Apply(s, config, op), config, cleared + ClearedBy(s, op))
  {
    match op
    case OpPush(e) => PushBalanced(s, config, e, cleared);
    case OpPop => PopBalanced(s, config, cleared);
    case OpDrain(count) => DrainBalanced(s, config, count, cleared);
    case OpDrainBudget(budget) => BudgetBalanced(s, config, budget, cleared);
    case OpClose =>
    case OpReopen =>
    case OpClear =>
  }

  function RunOps(s: State, config: Config, ops: seq<Op>): State
    decreases |ops|
  {
    if |ops| == 0 then s else RunOps(Apply(s, config, ops[0]), config, ops[1..])
  }

  function Cleared(s: State, config: Config, ops: seq<Op>): nat
    decreases |ops|
  {
    if |ops| == 0 then 0 else ClearedBy(s, ops[0]) + Cleared(Apply(s, config, ops[0]), config, ops[1..])
  }

  lemma {:induction false} RunBalanced(s: State, config: Config, ops: seq<Op>, cleared: nat)
    requires Balanced(s, config, cleared)
    ensures Balanced(RunOps(s, config, ops), config, cleared + Cleared(s, config, ops))
    decreases |ops|
  {
    if |ops| > 0 {
      StepBalanced(s, config, ops[0], cleared);
      RunBalanced(Apply(s, config, ops[0]), config, ops[1..], cleared + ClearedBy(s, ops[0]));
    }
  }

  /** In every reachable state: never more than the maximum number of packets, the cached bytes are
      the payload queued, and every accepted packet is queued, drained, evicted or cleared. */
  lemma ReachableBalanced(config: Config, ops: seq<Op>)
    ensures var s := State([], NO_STATS, false);
      Balanced(RunOps(s, config, ops), config, Cleared(s, config, ops))
  {
    RunBalanced(State([], NO_STATS, false), config, ops, 0);
  }

  // ----- who is evicted

  lemma {:induction false} LowestIsLeast(queue: seq<Envelope>, n: nat)
    requires 0 < n <= |queue|
    ensures var v := queue[LowestPriority(queue, n)];
      forall j | 0 <= j < n :: v.priority < queue[j].priority
        || (v.priority == queue[j].priority && v.arrival <= queue[j].arrival)
    decreases n
  {
    if n > 1 {
      LowestIsLeast(queue, n - 1);
    }
  }

  lemma {:induction false} OldestIsLeast(queue: seq<Envelope>, device: uint64, n: nat)
    requires n <= |queue|
    ensures var v := OldestOf(queue, device, n);
      && (v.None? <==> forall j | 0 <= j < n :: queue[j].packet.device != device)
      && (v.Some? ==> queue[v.value].packet.device == device)
      && (v.Some? ==>
            forall j | 0 <= j < n && queue[j].packet.device == device :: queue[v.value].arrival <= queue[j].arrival)
    decreases n
  {
    if n > 0 {
      OldestIsLeast(queue, device, n - 1);
    }
  }

  /** A packet is evicted only over capacity, and it is the one the policy names; the newcomer then
      stands at the end of the queue, in the place of no other packet. */
  lemma EvictionPolicy(s: State, config: Config, e: Envelope)
    requires Push(s, config, e).0.evicted.Some?
    ensures var (a, t) := Push(s, config, e);
      exists i :: 0 <= i < |s.queue| && s.queue[i].packet == a.evicted.value
        && t.queue == Removed(s.queue, i) + [Ranked(e)]
        && Named(s.queue, config.overflow, e.packet.device, i)
    ensures ExceedsCapacity(s, config, e)
  {
    var i := Victim(s, config, Ranked(e)).value;
    assert Payload(Ranked(e)) == Payload(e);
    LowestIsLeast(s.queue, |s.queue|);
    OldestIsLeast(s.queue, e.packet.device, |s.queue|);
    assert Named(s.queue, config.overflow, e.packet.device, i);
  }

  ghost predicate Named(queue: seq<Envelope>, policy: OverflowPolicy, device: uint64, i: nat) {
    i < |queue| &&
    match policy
    case RejectNew => false
    case DropOldest => i == 0
    case DropLowestPriority =>
      forall j | 0 <= j < |queue| :: queue[i].priority < queue[j].priority
        || (queue[i].priority == queue[j].priority && queue[i].arrival <= queue[j].arrival)
    case ReplaceSameDevice =>
      queue[i].packet.device == device
      && forall j | 0 <= j < |queue| && queue[j].packet.device == device :: queue[i].arrival <= queue[j].arrival
  }
}
