/** What the batching policy promises of every batch and over every run. */
module BatchingTheorems {
  import opened Words
  import opened Ingest
  import opened Batching
  import IngestTheorems

  /** Sequence numbers of a device never go back within the batch. */
  ghost predicate Ordered(packets: seq<Envelope>) {
    forall i, j | 0 <= i < j < |packets| && packets[i].packet.device == packets[j].packet.device ::
      packets[i].packet.sequence <= packets[j].packet.sequence
  }

  ghost predicate HoldsControl(packets: seq<Envelope>) {
    exists i | 0 <= i < |packets| :: ControlLike(packets[i].packet)
  }

  /** The least deadline of the packets that have one. */
  ghost predicate EarliestDeadline(packets: seq<Envelope>, d: uint64) {
    && (forall i | 0 <= i < |packets| && packets[i].deadline != 0 :: d != 0 && d <= packets[i].deadline)
    && (d != 0 ==> exists i | 0 <= i < |packets| :: packets[i].deadline == d)
  }

  /** A well-made batch: not empty, within its limits, in order, control packets alone. */
  ghost predicate WellMade(b: Batch, policy: Policy) {
    && 1 <= |b.packets| <= Max(1, policy.maxPackets)
    && b.payloadBytes == IngestTheorems.TotalPayload(b.packets)
    && (b.payloadBytes <= policy.maxPayloadBytes || |b.packets| == 1)
    && (policy.preserveOrder ==> Ordered(b.packets))
    && (policy.isolateControl && HoldsControl(b.packets) ==> |b.packets| == 1)
    && (forall i | 0 <= i < |b.packets| :: b.packets[i].priority <= b.highestPriority)
    && EarliestDeadline(b.packets, b.window.earliestDeadline)
  }

  ghost predicate Good(s: Batcher, policy: Policy) {
    s.open.Some? ==> WellMade(s.open.value, policy)
  }

  /** Emitted batches are well made and say why they were closed. */
  ghost predicate AllGood(ready: seq<Batch>, policy: Policy) {
    forall i | 0 <= i < |ready| :: WellMade(ready[i], policy) && ready[i].reason != NoReason
  }

  function Contents(batches: seq<Batch>): seq<Envelope>
    decreases |batches|
  {
    if |batches| == 0 then [] else batches[0].packets + Contents(batches[1..])
  }

  function Held(s: Batcher): seq<Envelope> {
    if s.open.None? then [] else s.open.value.packets
  }

  lemma Regroup(a: seq<Envelope>, b: seq<Envelope>, c: seq<Envelope>)
    ensures a + (b + c) == a + b + c
  {
  }

  lemma {:induction false} ContentsAppend(a: seq<Batch>, b: seq<Batch>)
    ensures Contents(a + b) == Contents(a) + Contents(b)
    decreases |a|
  {
    if |a| == 0 {
      assert a + b == b;
    } else {
      assert (a + b)[1..] == a[1..] + b && (a + b)[0] == a[0];
      ContentsAppend(a[1..], b);
      Regroup(a[0].packets, Contents(a[1..]), Contents(b));
    }
  }

  /** Closing moves the open packets to the output and changes nothing about them. */
  lemma ClosingKeeps(s: Batcher, reason: CloseReason, policy: Policy)
    requires Good(s, policy)
    ensures var e := Closing(s, reason);
      && Good(e.batcher, policy) && AllGood(e.ready, policy)
      && Contents(e.ready) + Held(e.batcher) == Held(s)
      && (reason != NoReason ==> e.batcher.open.None?)
      && e.batcher.counters.closed == s.counters.closed + |e.ready|
      && e.batcher.counters.batched == s.counters.batched
  {
    var e := Closing(s, reason);
    if |e.ready| == 1 {
      assert e.ready[1..] == [];
    }
  }

  /** An open batch that neither refuses nor has to make way can take the packet. */
  lemma ExtendedWellMade(b: Batch, policy: Policy, e: Envelope, now: uint64)
    requires WellMade(b, policy) && Refusal(b, policy, e, now) == NoReason
    requires !(policy.isolateControl && ControlLike(e.packet))
    ensures WellMade(Extended(b, e), policy)
  {
    var c := Extended(b, e);
    var n := |b.packets|;
    IngestTheorems.InsertedTotals(b.packets, e);
    assert forall i | 0 <= i < n :: c.packets[i] == b.packets[i];
    assert c.packets[n] == e;
    if policy.isolateControl {
      assert !ControlLike(b.packets[0].packet);
      assert !HoldsControl(b.packets);
      assert !HoldsControl(c.packets);
    }
    DeadlineExtends(b, e);
  }

  lemma DeadlineExtends(b: Batch, e: Envelope)
    requires EarliestDeadline(b.packets, b.window.earliestDeadline)
    ensures EarliestDeadline(Extended(b, e).packets, Extended(b, e).window.earliestDeadline)
  {
    var c := Extended(b, e);
    var n := |b.packets|;
    assert forall i | 0 <= i < n :: c.packets[i] == b.packets[i];
    assert c.packets[n] == e;
    var d, f := b.window.earliestDeadline, c.window.earliestDeadline;
    if f != 0 {
      if f == e.deadline {
        assert c.packets[n].deadline == f;
      } else {
        var i :| 0 <= i < n && b.packets[i].deadline == d;
        assert c.packets[i].deadline == f;
      }
    }
  }

  lemma FirstWellMade(e: Envelope, policy: Policy)
    ensures WellMade(Extended(EMPTY_BATCH, e), policy)
  {
    IngestTheorems.InsertedTotals([], e);
    assert [] + [e] == [e];
    DeadlineExtends(EMPTY_BATCH, e);
  }

  lemma AppendedGood(s: Batcher, policy: Policy, e: Envelope, now: uint64)
    requires Good(s, policy)
    requires RefusalReason(s, policy, e, now) == NoReason && IsolationReason(s, policy, e) == NoReason
    ensures Good(Appended(s, e), policy)
    ensures Held(Appended(s, e)) == Held(s) + [e]
  {
    if s.open.Some? {
      ExtendedWellMade(s.open.value, policy, e, now);
    } else {
      FirstWellMade(e, policy);
    }
  }

  lemma JoinGood(a: seq<Batch>, b: seq<Batch>, policy: Policy)
    requires AllGood(a, policy) && AllGood(b, policy)
    ensures AllGood(a + b, policy)
  {
  }

  /** One closing after another: what they emit, and what stays, is what was held. */
  lemma ThenKeeps(a: seq<Batch>, h: seq<Envelope>, b: seq<Batch>, g: seq<Envelope>, all: seq<Envelope>)
    requires Contents(a) + h == all && Contents(b) + g == h
    ensures Contents(a + b) + g == all
  {
    ContentsAppend(a, b);
    assert Contents(a) + Contents(b) + g == Contents(a) + (Contents(b) + g);
  }

  lemma MakeWayKeeps(s: Batcher, policy: Policy, e: Envelope, now: uint64)
    requires Good(s, policy)
    ensures var m := MakeWay(s, policy, e, now);
      && Good(m.batcher, policy) && AllGood(m.ready, policy)
      && Contents(m.ready) + Held(m.batcher) == Held(s)
      && RefusalReason(m.batcher, policy, e, now) == NoReason && IsolationReason(m.batcher, policy, e) == NoReason
      && m.batcher.counters.closed == s.counters.closed + |m.ready|
      && m.batcher.counters.batched == s.counters.batched
  {
    var a := Tick(s, policy, now);
    ClosingKeeps(s, FlushReason(s, policy, now), policy);
    var b := Closing(a.batcher, RefusalReason(a.batcher, policy, e, now));
    ClosingKeeps(a.batcher, RefusalReason(a.batcher, policy, e, now), policy);
    var c := Closing(b.batcher, IsolationReason(b.batcher, policy, e));
    ClosingKeeps(b.batcher, IsolationReason(b.batcher, policy, e), policy);
    JoinGood(a.ready, b.ready, policy);
    JoinGood(a.ready + b.ready, c.ready, policy);
    ThenKeeps(a.ready, Held(a.batcher), b.ready, Held(b.batcher), Held(s));
    ThenKeeps(a.ready + b.ready, Held(b.batcher), c.ready, Held(c.batcher), Held(s));
  }

  lemma TickSettles(s: Batcher, policy: Policy, now: uint64)
    ensures FlushReason(Tick(s, policy, now).batcher, policy, now) == NoReason
  {
  }

  lemma TakeInKeeps(s: Batcher, policy: Policy, e: Envelope, now: uint64)
    requires Good(s, policy)
    requires RefusalReason(s, policy, e, now) == NoReason && IsolationReason(s, policy, e) == NoReason
    ensures var d := TakeIn(s, policy, e, now);
      && Good(d.batcher, policy) && AllGood(d.ready, policy)
      && Contents(d.ready) + Held(d.batcher) == Held(s) + [e]
      && FlushReason(d.batcher, policy, now) == NoReason
      && d.batcher.counters.closed == s.counters.closed + |d.ready|
      && d.batcher.counters.batched == s.counters.batched + 1
  {
    var u := Appended(s, e);
    AppendedGood(s, policy, e, now);
    ClosingKeeps(u, FlushReason(u, policy, now), policy);
    TickSettles(u, policy, now);
  }

  /** The packets and closings of two emissions, one after the other. */
  lemma TwoEmissions(m: Emission, d: Emission, h: seq<Envelope>, e: Envelope, policy: Policy)
    requires AllGood(m.ready, policy) && AllGood(d.ready, policy)
    requires Contents(m.ready) + Held(m.batcher) == h
    requires Contents(d.ready) + Held(d.batcher) == Held(m.batcher) + [e]
    ensures AllGood(m.ready + d.ready, policy)
    ensures Contents(m.ready + d.ready) + Held(d.batcher) == h + [e]
  {
    JoinGood(m.ready, d.ready, policy);
    assert Contents(m.ready) + (Held(m.batcher) + [e]) == h + [e];
    ThenKeeps(m.ready, Held(m.batcher) + [e], d.ready, Held(d.batcher), h + [e]);
  }

  /** One offer: the emitted batches are well made, nothing is lost or reordered, the packet is
      taken in, and what stays open has no reason to close now. */
  lemma OfferKeeps(s: Batcher, policy: Policy, offered: Envelope, now: uint64)
    requires Good(s, policy)
    ensures var r := Offer(s, policy, offered, now);
      && Good(r.batcher, policy) && AllGood(r.ready, policy)
      && Contents(r.ready) + Held(r.batcher) == Held(s) + [Ranked(offered)]
      && FlushReason(r.batcher, policy, now) == NoReason
      && r.batcher.counters.closed == s.counters.closed + |r.ready|
      && r.batcher.counters.batched == s.counters.batched + 1
  {
    var e := Ranked(offered);
    var m := MakeWay(Considered(s), policy, e, now);
    MakeWayKeeps(Considered(s), policy, e, now);
    TakeInKeeps(m.batcher, policy, e, now);
    TwoEmissions(m, TakeIn(m.batcher, policy, e, now), Held(s), e, policy);
  }

  // ----- whole runs

  datatype Op = OpOffer(envelope: Envelope, now: uint64) | OpTick(now: uint64) | OpFlush

  function Apply(s: Batcher, policy: Policy, op: Op): Emission {
    match op
    case OpOffer(e, now) => Offer(s, policy, e, now)
    case OpTick(now) => Tick(s, policy, now)
    case OpFlush => Flush(s)
  }

  function RunOps(s: Batcher, policy: Policy, ops: seq<Op>): Emission
    decreases |ops|
  {
    if |ops| == 0 then Emission([], s) else
      var first := Apply(s, policy, ops[0]);
      var more := RunOps(first.batcher, policy, ops[1..]);
      Emission(first.ready + more.ready, more.batcher)
  }

  /** The packets offered, each with the priority it is batched under. */
  function OfferedBy(ops: seq<Op>): seq<Envelope>
    decreases |ops|
  {
    if |ops| == 0 then []
    else (if ops[0].OpOffer? then [Ranked(ops[0].envelope)] else []) + OfferedBy(ops[1..])
  }

  lemma StepKeeps(s: Batcher, policy: Policy, op: Op)
    requires Good(s, policy)
    ensures var r := Apply(s, policy, op);
      && Good(r.batcher, policy) && AllGood(r.ready, policy)
      && Contents(r.ready) + Held(r.batcher) == Held(s) + (if op.OpOffer? then [Ranked(op.envelope)] else [])
  {
    match op
    case OpOffer(e, now) => OfferKeeps(s, policy, e, now);
    case OpTick(now) => ClosingKeeps(s, FlushReason(s, policy, now), policy);
    case OpFlush =>
      var t := s.(counters := s.counters.(manualFlushes := s.counters.manualFlushes + 1));
      ClosingKeeps(t, if t.open.Some? && |t.open.value.packets| > 0 then ManualFlush else NoReason, policy);
  }

  lemma Reassociate(a: seq<Envelope>, b: seq<Envelope>, h0: seq<Envelope>, h1: seq<Envelope>, h2: seq<Envelope>,
                    x: seq<Envelope>, y: seq<Envelope>)
    requires a + h1 == h0 + x && b + h2 == h1 + y
    ensures a + b + h2 == h0 + (x + y)
  {
    assert a + b + h2 == a + (b + h2) == a + h1 + y;
  }

  /** Over any run of offers, ticks and flushes the batches emitted, and then the open one, hold
      exactly the packets offered, in order, and every one of those batches is well made. */
  lemma {:induction false} RunKeeps(s: Batcher, policy: Policy, ops: seq<Op>)
    requires Good(s, policy)
    ensures var r := RunOps(s, policy, ops);
      && Good(r.batcher, policy) && AllGood(r.ready, policy)
      && Contents(r.ready) + Held(r.batcher) == Held(s) + OfferedBy(ops)
    decreases |ops|
  {
    if |ops| == 0 {
      assert [] + Held(s) == Held(s) + [];
    } else {
      var first := Apply(s, policy, ops[0]);
      var more := RunOps(first.batcher, policy, ops[1..]);
      StepKeeps(s, policy, ops[0]);
      RunKeeps(first.batcher, policy, ops[1..]);
      ContentsAppend(first.ready, more.ready);
      Reassociate(Contents(first.ready), Contents(more.ready), Held(s), Held(first.batcher), Held(more.batcher),
                  if ops[0].OpOffer? then [Ranked(ops[0].envelope)] else [], OfferedBy(ops[1..]));
    }
  }
}
