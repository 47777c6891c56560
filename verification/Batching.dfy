/** The batching policy of src/runtime/batching_policy.cpp as transitions on values. */
module Batching {
  import opened Words
  import opened Wrappers
  import opened Packets
  import opened Ingest

  datatype CloseReason =
    | NoReason
    | MaxPackets
    | MaxPayloadBytes
    | MaxAge
    | DeadlineReached
    | PriorityFlush
    | ManualFlush

  datatype Policy = Policy(
    maxPackets: nat, maxPayloadBytes: nat, maxAge: uint64, deadlineSlack: uint64, flushThreshold: uint8,
    isolateControl: bool, preserveOrder: bool)

  datatype Window = Window(firstArrival: uint64, lastArrival: uint64, earliestDeadline: uint64)

  datatype Batch = Batch(
    packets: seq<Envelope>, window: Window, payloadBytes: nat, highestPriority: uint8, reason: CloseReason)

  datatype Counters = Counters(
    considered: nat, batched: nat, closed: nat, manualFlushes: nat, full: nat, bytes: nat, age: nat,
    deadline: nat, priority: nat)

  datatype Batcher = Batcher(open: Option<Batch>, counters: Counters)

  const EMPTY_BATCH: Batch := Batch([], Window(0, 0, 0), 0, 0, NoReason)

  predicate ControlLike(p: Packet) {
    p.kind == Control || p.kind == Capabilities || p.kind == Heartbeat
  }

  // ----- when an open batch closes

  predicate Aged(w: Window, policy: Policy, now: uint64) {
    w.firstArrival != 0 && now >= w.firstArrival && now - w.firstArrival >= policy.maxAge
  }

  /** The sum of the time and the slack wraps. */
  predicate Pressing(w: Window, policy: Policy, now: uint64) {
    w.earliestDeadline != 0 && Wrap64(now + policy.deadlineSlack) >= w.earliestDeadline
  }

  function InferReason(b: Batch, policy: Policy, now: uint64): CloseReason {
    if |b.packets| == 0 then NoReason
    else if |b.packets| >= policy.maxPackets then MaxPackets
    else if b.payloadBytes >= policy.maxPayloadBytes then MaxPayloadBytes
    else if Aged(b.window, policy, now) then MaxAge
    else if Pressing(b.window, policy, now) then DeadlineReached
    else if b.highestPriority >= policy.flushThreshold then PriorityFlush
    else NoReason
  }

  predicate OrderConflict(b: Batch, e: Envelope) {
    exists i | 0 <= i < |b.packets| ::
      b.packets[i].packet.device == e.packet.device && b.packets[i].packet.sequence > e.packet.sequence
  }

  /** Why the open batch cannot take `e`, if it cannot. */
  function Refusal(b: Batch, policy: Policy, e: Envelope, now: uint64): CloseReason {
    if |b.packets| == 0 then NoReason
    else if |b.packets| >= policy.maxPackets then MaxPackets
    else if b.payloadBytes + Payload(e) > policy.maxPayloadBytes then MaxPayloadBytes
    else if Aged(b.window, policy, now) then MaxAge
    else if Pressing(b.window, policy, now) then DeadlineReached
    else if policy.preserveOrder && OrderConflict(b, e) then ManualFlush
    else if policy.isolateControl && ControlLike(b.packets[0].packet) != ControlLike(e.packet) then PriorityFlush
    else NoReason
  }

  // ----- the steps of an offer

  function Counted(c: Counters, reason: CloseReason): Counters {
    var d := c.(closed := c.closed + 1);
    match reason
    case NoReason => d
    case MaxPackets => d.(full := d.full + 1)
    case MaxPayloadBytes => d.(bytes := d.bytes + 1)
    case MaxAge => d.(age := d.age + 1)
    case DeadlineReached => d.(deadline := d.deadline + 1)
    case PriorityFlush => d.(priority := d.priority + 1)
    case ManualFlush => d
  }

  datatype Emission = Emission(ready: seq<Batch>, batcher: Batcher)

  /** Closing with no reason leaves the batch open. */
  function Closing(s: Batcher, reason: CloseReason): Emission {
    if s.open.None? || reason == NoReason then Emission([], s)
    else Emission([s.open.value.(reason := reason)], Batcher(None, Counted(s.counters, reason)))
  }

  function Widened(w: Window, e: Envelope): Window {
    Window(if w.firstArrival == 0 then e.arrival else w.firstArrival,
           Max(w.lastArrival, e.arrival),
           if e.deadline == 0 then w.earliestDeadline
           else if w.earliestDeadline == 0 then e.deadline
           else Min(w.earliestDeadline, e.deadline))
  }

  function Extended(b: Batch, e: Envelope): Batch {
    b.(packets := b.packets + [e], window := Widened(b.window, e), payloadBytes := b.payloadBytes + Payload(e),
       highestPriority := Max(b.highestPriority, e.priority))
  }

  function Appended(s: Batcher, e: Envelope): Batcher {
    Batcher(Some(Extended(if s.open.Some? then s.open.value else EMPTY_BATCH, e)),
            s.counters.(batched := s.counters.batched + 1))
  }

  function FlushReason(s: Batcher, policy: Policy, now: uint64): CloseReason {
    if s.open.None? then NoReason else InferReason(s.open.value, policy, now)
  }

  function RefusalReason(s: Batcher, policy: Policy, e: Envelope, now: uint64): CloseReason {
    if s.open.None? then NoReason else Refusal(s.open.value, policy, e, now)
  }

  function IsolationReason(s: Batcher, policy: Policy, e: Envelope): CloseReason {
    if policy.isolateControl && ControlLike(e.packet) && s.open.Some? && |s.open.value.packets| > 0
    then PriorityFlush else NoReason
  }

  function Tick(s: Batcher, policy: Policy, now: uint64): Emission {
    Closing(s, FlushReason(s, policy, now))
  }

  /** What happens before the offered packet is taken in: a due flush, a refusal, isolation. */
  function MakeWay(s: Batcher, policy: Policy, e: Envelope, now: uint64): Emission {
    var a := Tick(s, policy, now);
    var b := Closing(a.batcher, RefusalReason(a.batcher, policy, e, now));
    var c := Closing(b.batcher, IsolationReason(b.batcher, policy, e));
    Emission(a.ready + b.ready + c.ready, c.batcher)
  }

  /** The offered packet joins the open batch, which may be ready at once. */
  function TakeIn(s: Batcher, policy: Policy, e: Envelope, now: uint64): Emission {
    Tick(Appended(s, e), policy, now)
  }

  function Considered(s: Batcher): Batcher {
    s.(counters := s.counters.(considered := s.counters.considered + 1))
  }

  function Offer(s: Batcher, policy: Policy, offered: Envelope, now: uint64): Emission {
    var e := Ranked(offered);
    var m := MakeWay(Considered(s), policy, e, now);
    var d := TakeIn(m.batcher, policy, e, now);
    Emission(m.ready + d.ready, d.batcher)
  }

  function Flush(s: Batcher): Emission {
    var t := s.(counters := s.counters.(manualFlushes := s.counters.manualFlushes + 1));
    Closing(t, if t.open.Some? && |t.open.value.packets| > 0 then ManualFlush else NoReason)
  }
}
