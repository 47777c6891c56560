/** The batching class of src/runtime/batching_policy.cpp, each method proved to make the
    transition of module Batching. */
module BatchingPolicyClass {
  import opened Words
  import opened Wrappers
  import opened Ingest
  import opened Batching

  class BatchingPolicy {
    const policy: Policy
    var open: Option<Batch>
    var counters: Counters

    ghost function Value(): Batcher
      reads this
    {
      Batcher(open, counters)
    }

    constructor (policy: Policy)
      ensures Value() == Batcher(None, Counters(0, 0, 0, 0, 0, 0, 0, 0, 0)) && this.policy == policy
    {
      this.policy := policy;
      open, counters := None, Counters(0, 0, 0, 0, 0, 0, 0, 0, 0);
    }

    method OfferPacket(offered: Envelope, now: uint64) returns (ready: seq<Batch>)
      modifies this
      ensures Emission(ready, Value()) == Offer(old(Value()), policy, offered, now)
    {
      counters := counters.(considered := counters.considered + 1);
      assert Value() == Considered(old(Value()));
      var e := Prioritised(offered);
      ready := ClearWay(e, now);
      var last := Accept(e, now);
      ready := ready + last;
    }

    method Accept(e: Envelope, now: uint64) returns (ready: seq<Batch>)
      modifies this
      ensures Emission(ready, Value()) == TakeIn(old(Value()), policy, e, now)
    {
      Append(e);
      ready := TickAt(now);
    }

    method ClearWay(e: Envelope, now: uint64) returns (ready: seq<Batch>)
      modifies this
      ensures Emission(ready, Value()) == MakeWay(old(Value()), policy, e, now)
    {
      ready := TickAt(now);
      if open.Some? {
        var refusal := Evaluate(e, now);
        if refusal != NoReason {
          var batch := Close(refusal);
          ready := ready + [batch];
        }
      }
      if policy.isolateControl && ControlLike(e.packet) && open.Some? && |open.value.packets| != 0 {
        var batch := Close(PriorityFlush);
        ready := ready + [batch];
      }
    }

    method FlushOpen() returns (ready: seq<Batch>)
      modifies this
      ensures Emission(ready, Value()) == Flush(old(Value()))
    {
      counters := counters.(manualFlushes := counters.manualFlushes + 1);
      ready := [];
      if open.Some? && |open.value.packets| != 0 {
        var batch := Close(ManualFlush);
        ready := [batch];
      }
    }

    method TickAt(now: uint64) returns (ready: seq<Batch>)
      modifies this
      ensures Emission(ready, Value()) == Tick(old(Value()), policy, now)
    {
      ready := [];
      if open.Some? {
        var reason := InferReason(open.value, policy, now);
        if reason != NoReason {
          var batch := Close(reason);
          ready := [batch];
        }
      }
    }

    method Evaluate(e: Envelope, now: uint64) returns (refusal: CloseReason)
      requires open.Some?
      ensures refusal == Refusal(open.value, policy, e, now)
    {
      var b := open.value;
      if |b.packets| == 0 {
        return NoReason;
      }
      if |b.packets| >= policy.maxPackets {
        return MaxPackets;
      }
      if b.payloadBytes + Payload(e) > policy.maxPayloadBytes {
        return MaxPayloadBytes;
      }
      if Aged(b.window, policy, now) {
        return MaxAge;
      }
      if Pressing(b.window, policy, now) {
        return DeadlineReached;
      }
      var conflict := ConflictsWithDeviceOrder(b, e);
      if policy.preserveOrder && conflict {
        return ManualFlush;
      }
      if policy.isolateControl && ControlLike(b.packets[0].packet) != ControlLike(e.packet) {
        return PriorityFlush;
      }
      refusal := NoReason;
    }

    method Append(e: Envelope)
      modifies this
      ensures Value() == Appended(old(Value()), e)
    {
      var b := if open.Some? then open.value else EMPTY_BATCH;
      b := b.(window := Widened(b.window, e));
      b := b.(payloadBytes := b.payloadBytes + Payload(e));
      if e.priority > b.highestPriority {
        b := b.(highestPriority := e.priority);
      }
      open := Some(b.(packets := b.packets + [e]));
      counters := counters.(batched := counters.batched + 1);
    }

    method Close(reason: CloseReason) returns (batch: Batch)
      requires open.Some? && reason != NoReason
      modifies this
      ensures Emission([batch], Value()) == Closing(old(Value()), reason)
    {
      batch := open.value.(reason := reason);
      open := None;
      counters := Counted(counters, reason);
    }
  }

  method Prioritised(offered: Envelope) returns (e: Envelope)
    ensures e == Ranked(offered)
  {
    e := offered;
    if e.priority == 1 {
      e := e.(priority := InferPriority(e.packet));
    }
  }

  method ConflictsWithDeviceOrder(b: Batch, e: Envelope) returns (conflict: bool)
    ensures conflict == OrderConflict(b, e)
  {
    for i := 0 to |b.packets|
      invariant forall j | 0 <= j < i ::
        !(b.packets[j].packet.device == e.packet.device && b.packets[j].packet.sequence > e.packet.sequence)
    {
      if b.packets[i].packet.device == e.packet.device && b.packets[i].packet.sequence > e.packet.sequence {
        return true;
      }
    }
    conflict := false;
  }
}
