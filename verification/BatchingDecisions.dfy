/** Which packets leave together and why, in terms of the packets alone: the open batch is always what its packets
    make it, and every operation is what happens to a list of packets. */
module BatchingDecisions {
  import opened Words
  import opened Wrappers
  import opened Packets
  import opened Ingest
  import opened Batching
  import opened BatchingTheorems
  import IngestTheorems

  // ----- what the packets make of a batch

  /** The first arrival time that is not zero. */
  function FirstArrival(ps: seq<Envelope>): uint64
    decreases |ps|
  {
    if |ps| == 0 then 0 else if ps[0].arrival != 0 then ps[0].arrival else FirstArrival(ps[1..])
  }

  function LastArrival(ps: seq<Envelope>): uint64
    decreases |ps|
  {
    if |ps| == 0 then 0 else Max(ps[0].arrival, LastArrival(ps[1..]))
  }

  function HighestPriority(ps: seq<Envelope>): uint8
    decreases |ps|
  {
    if |ps| == 0 then 0 else Max(ps[0].priority, HighestPriority(ps[1..]))
  }

  /** The least deadline, zero for none. */
  function LeastDeadline(ps: seq<Envelope>): uint64
    decreases |ps|
  {
    if |ps| == 0 then 0 else
      var later := LeastDeadline(ps[1..]);
      if ps[0].deadline == 0 then later else if later == 0 then ps[0].deadline else Min(ps[0].deadline, later)
  }

  function Made(ps: seq<Envelope>, reason: CloseReason): Batch {
    Batch(ps, Window(FirstArrival(ps), LastArrival(ps), LeastDeadline(ps)), IngestTheorems.TotalPayload(ps),
          HighestPriority(ps), reason)
  }

  lemma {:induction false} MadeMore(ps: seq<Envelope>, e: Envelope)
    ensures FirstArrival(ps + [e]) == if FirstArrival(ps) == 0 then e.arrival else FirstArrival(ps)
    ensures LastArrival(ps + [e]) == Max(LastArrival(ps), e.arrival)
    ensures HighestPriority(ps + [e]) == Max(HighestPriority(ps), e.priority)
    ensures LeastDeadline(ps + [e])
         == if e.deadline == 0 then LeastDeadline(ps) else if LeastDeadline(ps) == 0 then e.deadline
            else Min(LeastDeadline(ps), e.deadline)
    decreases |ps|
  {
    if |ps| == 0 {
      assert ps + [e] == [e] && [e][1..] == [];
    } else {
      assert (ps + [e])[1..] == ps[1..] + [e] && (ps + [e])[0] == ps[0];
      MadeMore(ps[1..], e);
    }
  }

  // ----- when they leave

  function Bytes(ps: seq<Envelope>): nat {
    IngestTheorems.TotalPayload(ps)
  }

  /** The first packet that says when it came is at least as old as the policy allows. */
  predicate Old(ps: seq<Envelope>, policy: Policy, now: uint64) {
    0 < FirstArrival(ps) && FirstArrival(ps) + policy.maxAge <= now
  }

  /** Some deadline has come, the slack counted in; the sum wraps. */
  predicate Urgent(ps: seq<Envelope>, policy: Policy, now: uint64) {
    0 < LeastDeadline(ps) <= (now + policy.deadlineSlack) % TWO_64
  }

  /** Why packets that wait together must leave now, if they must. */
  function LeaveNow(ps: seq<Envelope>, policy: Policy, now: uint64): CloseReason {
    if |ps| == 0 then NoReason
    else if |ps| >= policy.maxPackets then MaxPackets
    else if Bytes(ps) >= policy.maxPayloadBytes then MaxPayloadBytes
    else if Old(ps, policy, now) then MaxAge
    else if Urgent(ps, policy, now) then DeadlineReached
    else if HighestPriority(ps) >= policy.flushThreshold then PriorityFlush
    else NoReason
  }

  predicate IsControl(e: Envelope) {
    e.packet.kind in {Control, Capabilities, Heartbeat}
  }

  /** A packet of the same device with a later sequence number is already there. */
  predicate GoesBack(ps: seq<Envelope>, e: Envelope) {
    exists i | 0 <= i < |ps| :: ps[i].packet.device == e.packet.device && ps[i].packet.sequence > e.packet.sequence
  }

  /** Why they must leave before `e` can wait for company, if they must. */
  function MakeRoom(ps: seq<Envelope>, policy: Policy, e: Envelope, now: uint64): CloseReason {
    if |ps| == 0 then NoReason
    else if LeaveNow(ps, policy, now) != NoReason then LeaveNow(ps, policy, now)
    else if Bytes(ps) + |e.packet.payload| > policy.maxPayloadBytes then MaxPayloadBytes
    else if policy.preserveOrder && GoesBack(ps, e) then ManualFlush
    else if policy.isolateControl && (IsControl(e) || IsControl(ps[0])) then PriorityFlush
    else NoReason
  }

  // ----- every operation, on lists of packets

  /** Nothing is open, or a batch that is what its packets make it. */
  predicate Honest(s: Batcher) {
    s.open.Some? ==> |s.open.value.packets| > 0 && s.open.value == Made(s.open.value.packets, NoReason)
  }

  lemma InferIsLeave(ps: seq<Envelope>, policy: Policy, now: uint64)
    ensures InferReason(Made(ps, NoReason), policy, now) == LeaveNow(ps, policy, now)
  {
  }

  lemma ControlIs(e: Envelope)
    ensures ControlLike(e.packet) <==> IsControl(e)
  {
  }

  lemma ExtendedIsMade(ps: seq<Envelope>, e: Envelope)
    ensures Extended(Made(ps, NoReason), e) == Made(ps + [e], NoReason)
  {
    MadeMore(ps, e);
    IngestTheorems.InsertedTotals(ps, e);
  }

  /** The batch of `ps`, if it leaves for that reason. */
  function Leaving(ps: seq<Envelope>, reason: CloseReason): seq<Batch> {
    if reason == NoReason then [] else [Made(ps, reason)]
  }

  lemma TickExactly(s: Batcher, policy: Policy, now: uint64)
    requires Honest(s)
    ensures var r, why := Tick(s, policy, now), LeaveNow(Held(s), policy, now);
      && Honest(r.batcher) && r.ready == Leaving(Held(s), why)
      && Held(r.batcher) == (if why == NoReason then Held(s) else [])
      && (why == NoReason ==> r.batcher == s)
  {
    if s.open.Some? {
      InferIsLeave(Held(s), policy, now);
    }
  }

  lemma FlushExactly(s: Batcher)
    requires Honest(s)
    ensures var r := Flush(s);
      && Honest(r.batcher) && Held(r.batcher) == []
      && r.ready == (if Held(s) == [] then [] else [Made(Held(s), ManualFlush)])
      && r.batcher.counters.manualFlushes == s.counters.manualFlushes + 1
  {
  }

  /** What has to leave before the packet is taken in. */
  lemma WayMade(s: Batcher, policy: Policy, e: Envelope, now: uint64)
    requires Honest(s)
    ensures var m, why := MakeWay(s, policy, e, now), MakeRoom(Held(s), policy, e, now);
      && Honest(m.batcher) && m.ready == Leaving(Held(s), why)
      && Held(m.batcher) == (if why == NoReason then Held(s) else [])
  {
    TickExactly(s, policy, now);
    ControlIs(e);
    if s.open.Some? {
      var ps := Held(s);
      ControlIs(ps[0]);
      InferIsLeave(ps, policy, now);
      assert GoesBack(ps, e) <==> OrderConflict(s.open.value, e);
    }
  }

  lemma TakenIn(s: Batcher, policy: Policy, e: Envelope, now: uint64)
    requires Honest(s)
    ensures var d, joined := TakeIn(s, policy, e, now), Held(s) + [e];
      var why := LeaveNow(joined, policy, now);
      && Honest(d.batcher) && d.ready == Leaving(joined, why)
      && Held(d.batcher) == (if why == NoReason then joined else [])
  {
    ExtendedIsMade(Held(s), e);
    assert Made([], NoReason) == EMPTY_BATCH;
    TickExactly(Appended(s, e), policy, now);
  }

  /** An offered packet is ranked if it comes with the normal priority; those that wait leave first if they
      must; and with what waits then it leaves at once, for the reason they then have, or waits. */
  lemma OfferExactly(s: Batcher, policy: Policy, offered: Envelope, now: uint64)
    requires Honest(s)
    ensures var r, e := Offer(s, policy, offered, now), Ranked(offered);
      var first := MakeRoom(Held(s), policy, e, now);
      var joined := (if first == NoReason then Held(s) else []) + [e];
      var then_ := LeaveNow(joined, policy, now);
      && Honest(r.batcher)
      && r.ready == Leaving(Held(s), first) + Leaving(joined, then_)
      && Held(r.batcher) == (if then_ == NoReason then joined else [])
  {
    var e := Ranked(offered);
    var m := MakeWay(Considered(s), policy, e, now);
    WayMade(Considered(s), policy, e, now);
    TakenIn(m.batcher, policy, e, now);
  }

  /** Closing counts no offer and no flush. */
  lemma ClosingCountsNoCall(s: Batcher, why: CloseReason)
    ensures var c := Closing(s, why).batcher.counters;
      c.considered == s.counters.considered && c.manualFlushes == s.counters.manualFlushes
  {
  }

  /** Every offer is counted as one, and no flush. */
  lemma OffersCounted(s: Batcher, policy: Policy, offered: Envelope, now: uint64)
    ensures var c := Offer(s, policy, offered, now).batcher.counters;
      c.considered == s.counters.considered + 1 && c.manualFlushes == s.counters.manualFlushes
  {
    var e, t := Ranked(offered), Considered(s);
    var a := Tick(t, policy, now);
    ClosingCountsNoCall(t, FlushReason(t, policy, now));
    var b := Closing(a.batcher, RefusalReason(a.batcher, policy, e, now));
    ClosingCountsNoCall(a.batcher, RefusalReason(a.batcher, policy, e, now));
    var c := Closing(b.batcher, IsolationReason(b.batcher, policy, e));
    ClosingCountsNoCall(b.batcher, IsolationReason(b.batcher, policy, e));
    var u := Appended(c.batcher, e);
    ClosingCountsNoCall(u, FlushReason(u, policy, now));
  }

  // ----- each counter counts its own reason

  function CountOf(ready: seq<Batch>, reason: CloseReason): nat
    decreases |ready|
  {
    if |ready| == 0 then 0 else (if ready[0].reason == reason then 1 else 0) + CountOf(ready[1..], reason)
  }

  lemma {:induction false} CountOfBoth(a: seq<Batch>, b: seq<Batch>, reason: CloseReason)
    ensures CountOf(a + b, reason) == CountOf(a, reason) + CountOf(b, reason)
    decreases |a|
  {
    if |a| == 0 {
      assert a + b == b;
    } else {
      assert (a + b)[1..] == a[1..] + b && (a + b)[0] == a[0];
      CountOfBoth(a[1..], b, reason);
    }
  }

  function CounterOf(c: Counters, reason: CloseReason): nat {
    match reason
    case MaxPackets => c.full
    case MaxPayloadBytes => c.bytes
    case MaxAge => c.age
    case DeadlineReached => c.deadline
    case PriorityFlush => c.priority
    case _ => 0
  }

  predicate HasCounter(reason: CloseReason) {
    reason in {MaxPackets, MaxPayloadBytes, MaxAge, DeadlineReached, PriorityFlush}
  }

  lemma ClosingCounts(s: Batcher, why: CloseReason, reason: CloseReason)
    requires HasCounter(reason)
    ensures var r := Closing(s, why);
      CounterOf(r.batcher.counters, reason) == CounterOf(s.counters, reason) + CountOf(r.ready, reason)
  {
    if s.open.Some? && why != NoReason {
      assert Closing(s, why).ready[1..] == [];
    }
  }

  lemma StepCounts(s: Batcher, policy: Policy, op: Op, reason: CloseReason)
    requires HasCounter(reason)
    ensures var r := Apply(s, policy, op);
      CounterOf(r.batcher.counters, reason) == CounterOf(s.counters, reason) + CountOf(r.ready, reason)
  {
    match op
    case OpTick(now) => ClosingCounts(s, FlushReason(s, policy, now), reason);
    case OpFlush => FlushCounts(s, reason);
    case OpOffer(offered, now) => OfferCounts(s, policy, offered, now, reason);
  }

  lemma FlushCounts(s: Batcher, reason: CloseReason)
    requires HasCounter(reason)
    ensures var r := Flush(s);
      CounterOf(r.batcher.counters, reason) == CounterOf(s.counters, reason) + CountOf(r.ready, reason)
  {
    var t := s.(counters := s.counters.(manualFlushes := s.counters.manualFlushes + 1));
    ClosingCounts(t, if t.open.Some? && |t.open.value.packets| > 0 then ManualFlush else NoReason, reason);
  }

  lemma OfferCounts(s: Batcher, policy: Policy, offered: Envelope, now: uint64, reason: CloseReason)
    requires HasCounter(reason)
    ensures var r := Offer(s, policy, offered, now);
      CounterOf(r.batcher.counters, reason) == CounterOf(s.counters, reason) + CountOf(r.ready, reason)
  {
    var e, t := Ranked(offered), Considered(s);
    var a := Tick(t, policy, now);
    ClosingCounts(t, FlushReason(t, policy, now), reason);
    var b := Closing(a.batcher, RefusalReason(a.batcher, policy, e, now));
    ClosingCounts(a.batcher, RefusalReason(a.batcher, policy, e, now), reason);
    var c := Closing(b.batcher, IsolationReason(b.batcher, policy, e));
    ClosingCounts(b.batcher, IsolationReason(b.batcher, policy, e), reason);
    var u := Appended(c.batcher, e);
    ClosingCounts(u, FlushReason(u, policy, now), reason);
    CountOfBoth(a.ready, b.ready, reason);
    CountOfBoth(a.ready + b.ready, c.ready, reason);
    CountOfBoth(a.ready + b.ready + c.ready, TakeIn(c.batcher, policy, e, now).ready, reason);
  }

  /** Over any run, every batch emitted is what its packets make it, and each reason's counter is the number of
      batches emitted for it. */
  lemma {:induction false} RunCounts(s: Batcher, policy: Policy, ops: seq<Op>, reason: CloseReason)
    requires HasCounter(reason) && Honest(s)
    ensures var r := RunOps(s, policy, ops);
      && Honest(r.batcher)
      && CounterOf(r.batcher.counters, reason) == CounterOf(s.counters, reason) + CountOf(r.ready, reason)
      && forall i | 0 <= i < |r.ready| :: r.ready[i] == Made(r.ready[i].packets, r.ready[i].reason)
    decreases |ops|
  {
    if |ops| > 0 {
      var first := Apply(s, policy, ops[0]);
      StepCounts(s, policy, ops[0], reason);
      StepHonest(s, policy, ops[0]);
      RunCounts(first.batcher, policy, ops[1..], reason);
      CountOfBoth(first.ready, RunOps(first.batcher, policy, ops[1..]).ready, reason);
    }
  }

  lemma StepHonest(s: Batcher, policy: Policy, op: Op)
    requires Honest(s)
    ensures var r := Apply(s, policy, op);
      Honest(r.batcher) && forall i | 0 <= i < |r.ready| :: r.ready[i] == Made(r.ready[i].packets, r.ready[i].reason)
  {
    match op
    case OpTick(now) => TickExactly(s, policy, now);
    case OpFlush => FlushExactly(s);
    case OpOffer(offered, now) => OfferExactly(s, policy, offered, now);
  }
}
