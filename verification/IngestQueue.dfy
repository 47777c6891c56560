/** The ingest queue class of src/runtime/ingest_queue.cpp, each method proved to make the
    transition of module Ingest. */
module IngestQueueClass {
  import opened Words
  import opened Wrappers
  import opened Packets
  import opened Ingest

  class IngestQueue {
    const config: Config
    var queue: seq<Envelope>
    var stats: Stats
    var closed: bool

    ghost function Value(): State
      reads this
    {
      State(queue, stats, closed)
    }

    constructor (config: Config)
      ensures Value() == State([], NO_STATS, false) && this.config == config
    {
      this.config := config;
      queue, stats, closed := [], NO_STATS, false;
    }

    method ClearQueue()
      modifies this
      ensures Value() == Clear(old(Value()))
    {
      queue := [];
      stats := stats.(payloadBytes := 0);
    }

    /** `std::max_element` or `std::min_element` with the comparison of the drain mode. */
    method SelectNext() returns (best: nat)
      requires |queue| > 0
      ensures best < |queue| && best == Next(config.drain, queue, |queue|)
    {
      best := 0;
      for i := 1 to |queue|
        invariant best < i && best == Next(config.drain, queue, i)
      {
        if Preferred(config.drain, queue[i], queue[best]) {
          best := i;
        }
      }
    }

    method SelectLowestPriority() returns (best: nat)
      requires |queue| > 0
      ensures best < |queue| && best == LowestPriority(queue, |queue|)
    {
      best := 0;
      for i := 1 to |queue|
        invariant best < i && best == LowestPriority(queue, i)
      {
        var a, b := queue[i], queue[best];
        if a.priority < b.priority || (a.priority == b.priority && a.arrival < b.arrival) {
          best := i;
        }
      }
    }

    method SelectOldestOf(device: uint64) returns (candidate: Option<nat>)
      ensures candidate == OldestOf(queue, device, |queue|)
    {
      candidate := None;
      for i := 0 to |queue|
        invariant candidate == OldestOf(queue, device, i)
      {
        if queue[i].packet.device == device {
          if candidate.None? || queue[i].arrival < queue[candidate.value].arrival {
            candidate := Some(i);
          }
        }
      }
    }

    method SelectOverflowVictim(incoming: Envelope) returns (victim: Option<nat>)
      ensures victim == Victim(Value(), config, incoming)
    {
      if |queue| == 0 {
        return None;
      }
      match config.overflow {
        case RejectNew => victim := None;
        case DropOldest => victim := Some(0);
        case DropLowestPriority =>
          var i := SelectLowestPriority();
          victim := Some(i);
        case ReplaceSameDevice => victim := SelectOldestOf(incoming.packet.device);
      }
    }

    method RemoveIndex(i: nat)
      requires i < |queue|
      modifies this`queue, this`stats
      ensures Value() == RemoveAt(old(Value()), i)
    {
      var size := Payload(queue[i]);
      stats := stats.(payloadBytes := if stats.payloadBytes >= size then stats.payloadBytes - size else 0);
      queue := queue[..i] + queue[i + 1..];
    }

    method InsertBack(e: Envelope)
      modifies this`queue, this`stats
      ensures Value() == Inserted(old(Value()), e)
    {
      stats := stats.(payloadBytes := stats.payloadBytes + Payload(e));
      queue := queue + [e];
      stats := stats.(accepted := stats.accepted + 1);
      stats := stats.(highWaterPackets := Max(stats.highWaterPackets, |queue|),
                      highWaterBytes := Max(stats.highWaterBytes, stats.payloadBytes));
    }

    method PushEnvelope(offered: Envelope) returns (a: Admission)
      modifies this
      ensures (a, Value()) == Push(old(Value()), config, offered)
    {
      if closed {
        stats := stats.(rejected := stats.rejected + 1, closedRejections := stats.closedRejections + 1);
        return Admission(RejectedClosed, None);
      }
      if config.rejectEmptyPayload && Payload(offered) == 0 {
        stats := stats.(rejected := stats.rejected + 1, payloadRejections := stats.payloadRejections + 1);
        return Admission(RejectedEmpty, None);
      }
      if Payload(offered) > config.maxPacketPayloadBytes {
        stats := stats.(rejected := stats.rejected + 1, payloadRejections := stats.payloadRejections + 1);
        return Admission(RejectedTooLarge, None);
      }
      var e := offered;
      if e.priority == 1 {
        e := e.(priority := InferPriority(e.packet));
      }
      var evicted: Option<Packet> := None;
      var status := Accepted;
      if |queue| >= config.maxPackets || stats.payloadBytes + Payload(e) > config.maxPayloadBytes {
        var victim := SelectOverflowVictim(e);
        if victim.None? {
          stats := stats.(rejected := stats.rejected + 1, capacityRejections := stats.capacityRejections + 1);
          return Admission(RejectedFull, None);
        }
        evicted := Some(queue[victim.value].packet);
        RemoveIndex(victim.value);
        stats := stats.(evicted := stats.evicted + 1);
        status := if config.overflow == ReplaceSameDevice then Replaced else Accepted;
      }
      InsertBack(e);
      a := Admission(status, evicted);
    }

    method PeekEnvelope() returns (e: Option<Envelope>)
      ensures e == FrontOf(Value(), config)
    {
      if |queue| == 0 {
        return None;
      }
      var i := SelectNext();
      e := Some(queue[i]);
    }

    method PopEnvelope() returns (e: Option<Envelope>)
      modifies this
      ensures (e, Value()) == Pop(old(Value()), config)
    {
      if |queue| == 0 {
        return None;
      }
      var i := SelectNext();
      e := Some(queue[i]);
      RemoveIndex(i);
      stats := stats.(drained := stats.drained + 1);
    }

    /** One turn of the drain loop, with what has been drained so far. */
    method TakeNext(ghost packets: seq<Envelope>, ghost count: nat, ghost all: (seq<Envelope>, State))
      returns (e: Option<Envelope>)
      requires count > 0 && Continues(packets, Drain(Value(), config, count), all)
      modifies this
      ensures e.None? ==> all == (packets, Value())
      ensures e.Some? ==> Continues(packets + [e.value], Drain(Value(), config, count - 1), all)
    {
      DrainStep(packets, Value(), config, count, all);
      e := PopEnvelope();
    }

    method DrainPackets(maxPackets: nat) returns (packets: seq<Envelope>)
      modifies this
      ensures (packets, Value()) == Drain(old(Value()), config, maxPackets)
    {
      packets := [];
      ghost var all := Drain(Value(), config, maxPackets);
      ghost var left := maxPackets;
      assert all.0 == packets + all.0;
      while |packets| < maxPackets
        invariant left == maxPackets - |packets|
        invariant Continues(packets, Drain(Value(), config, left), all)
      {
        var next := TakeNext(packets, left, all);
        if next.None? {
          return;
        }
        packets := packets + [next.value];
        left := left - 1;
      }
      DrainEnds(packets, Value(), config, all);
    }

    /** Peeks, and pops unless the budget would be passed. */
    method PopWithin(first: bool, used: nat, budget: nat) returns (e: Option<Envelope>)
      requires |queue| > 0 && (first ==> used == 0)
      modifies this
      ensures if Over(old(Value()), config, budget, used) then e == None && Value() == old(Value())
              else (e, Value()) == Pop(old(Value()), config)
    {
      var next := PeekEnvelope();
      var size := Payload(next.value);
      if !first && used + size > budget {
        return None;
      }
      if first && size > budget {
        return None;
      }
      e := PopEnvelope();
    }

    /** One turn of the budget loop, with what has been drained so far. */
    method TakeWithin(packets: seq<Envelope>, used: nat, budget: nat, ghost all: (seq<Envelope>, State))
      returns (e: Option<Envelope>)
      requires |queue| > 0 && (|packets| == 0 ==> used == 0)
      requires Continues(packets, DrainBudget(Value(), config, budget, used), all)
      modifies this
      ensures e.None? ==> all == (packets, Value())
      ensures e.Some? ==> |queue| < |old(queue)|
      ensures e.Some? ==>
        Continues(packets + [e.value], DrainBudget(Value(), config, budget, used + Payload(e.value)), all)
    {
      if Over(Value(), config, budget, used) {
        BudgetStops(packets, Value(), config, budget, used, all);
      } else {
        BudgetStep(packets, Value(), config, budget, used, all);
      }
      e := PopWithin(|packets| == 0, used, budget);
    }

    method DrainPayloadBudget(maxPayloadBytes: nat) returns (packets: seq<Envelope>)
      modifies this
      ensures (packets, Value()) == DrainBudget(old(Value()), config, maxPayloadBytes, 0)
    {
      packets := [];
      var used: nat := 0;
      ghost var all := DrainBudget(Value(), config, maxPayloadBytes, 0);
      assert all.0 == packets + all.0;
      while |queue| != 0
        invariant |packets| == 0 ==> used == 0
        invariant Continues(packets, DrainBudget(Value(), config, maxPayloadBytes, used), all)
        decreases |queue|
      {
        var removed := TakeWithin(packets, used, maxPayloadBytes, all);
        if removed.None? {
          return;
        }
        used := used + Payload(removed.value);
        packets := packets + [removed.value];
      }
      BudgetStops(packets, Value(), config, maxPayloadBytes, used, all);
    }
  }

  /** What has been drained so far, and what is still to come, make up the whole drain. */
  ghost predicate Continues(sofar: seq<Envelope>, more: (seq<Envelope>, State), all: (seq<Envelope>, State)) {
    all.0 == sofar + more.0 && all.1 == more.1
  }

  lemma DrainStep(sofar: seq<Envelope>, s: State, config: Config, count: nat, all: (seq<Envelope>, State))
    requires count > 0 && Continues(sofar, Drain(s, config, count), all)
    ensures var (e, t) := Pop(s, config);
      if e.None? then all == (sofar, s) && t == s
      else Continues(sofar + [e.value], Drain(t, config, count - 1), all)
  {
    var (e, t) := Pop(s, config);
    assert sofar + [] == sofar;
    if e.Some? {
      assert sofar + ([e.value] + Drain(t, config, count - 1).0) == sofar + [e.value] + Drain(t, config, count - 1).0;
    }
  }

  lemma DrainEnds(sofar: seq<Envelope>, s: State, config: Config, all: (seq<Envelope>, State))
    requires Continues(sofar, Drain(s, config, 0), all)
    ensures all == (sofar, s)
  {
    assert sofar + [] == sofar;
  }

  function FrontOf(s: State, config: Config): (e: Option<Envelope>)
    ensures e.Some? <==> |s.queue| > 0
  {
    if |s.queue| == 0 then None else Some(s.queue[Next(config.drain, s.queue, |s.queue|)])
  }

  /** The condition on which the budget loop stops before the next packet. */
  predicate Over(s: State, config: Config, budget: nat, used: nat)
    requires |s.queue| > 0
  {
    used + Payload(FrontOf(s, config).value) > budget
  }

  lemma BudgetStops(sofar: seq<Envelope>, s: State, config: Config, budget: nat, used: nat, all: (seq<Envelope>, State))
    requires Continues(sofar, DrainBudget(s, config, budget, used), all)
    requires |s.queue| > 0 ==> Over(s, config, budget, used)
    ensures all == (sofar, s)
  {
    assert sofar + [] == sofar;
  }

  lemma BudgetStep(sofar: seq<Envelope>, s: State, config: Config, budget: nat, used: nat, all: (seq<Envelope>, State))
    requires Continues(sofar, DrainBudget(s, config, budget, used), all)
    requires |s.queue| > 0 && !Over(s, config, budget, used)
    ensures var (e, t) := Pop(s, config);
      |t.queue| < |s.queue| && e == FrontOf(s, config)
      && Continues(sofar + [e.value], DrainBudget(t, config, budget, used + Payload(e.value)), all)
  {
    var (e, t) := Pop(s, config);
    var more := DrainBudget(t, config, budget, used + Payload(e.value)).0;
    assert sofar + ([e.value] + more) == sofar + [e.value] + more;
  }
}
