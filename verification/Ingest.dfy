/** The bounded ingest queue of src/runtime/ingest_queue.cpp as transitions on values, and what
    they keep.  IngestQueue runs them. */
module Ingest {
  import opened Words
  import opened Wrappers
  import opened Packets

  /** Priorities are ranks: 0 low, 1 normal, 2 high, 3 critical. */
  datatype Envelope = Envelope(packet: Packet, arrival: uint64, deadline: uint64, priority: uint8, source: string)

  datatype OverflowPolicy = RejectNew | DropOldest | DropLowestPriority | ReplaceSameDevice

  datatype DrainMode = Fifo | HighestPriorityFirst | EarliestDeadlineFirst

  datatype Config = Config(
    maxPackets: nat, maxPayloadBytes: nat, maxPacketPayloadBytes: nat, overflow: OverflowPolicy,
    drain: DrainMode, rejectEmptyPayload: bool)

  datatype Stats = Stats(
    accepted: nat, rejected: nat, evicted: nat, drained: nat, closedRejections: nat,
    payloadRejections: nat, capacityRejections: nat, payloadBytes: nat, highWaterPackets: nat,
    highWaterBytes: nat)

  datatype State = State(queue: seq<Envelope>, stats: Stats, closed: bool)

  datatype Status = Accepted | Replaced | RejectedClosed | RejectedEmpty | RejectedTooLarge | RejectedFull

  datatype Admission = Admission(status: Status, evicted: Option<Packet>)

  const NO_STATS: Stats := Stats(0, 0, 0, 0, 0, 0, 0, 0, 0, 0)

  function Payload(e: Envelope): nat {
    |e.packet.payload|
  }

  function InferPriority(p: Packet): uint8 {
    if p.route.Some? && p.route.value.priority >= 200 then 3
    else if p.route.Some? && p.route.value.priority >= 128 then 2
    else match p.kind
      case Control => 3
      case Heartbeat => 2
      case Capabilities => 2
      case Spectrum => 1
      case Observation => 1
  }

  function Ranked(e: Envelope): Envelope {
    if e.priority == 1 then e.(priority := InferPriority(e.packet)) else e
  }

  // ----- choosing the next packet

  predicate DeadlineLess(a: Envelope, b: Envelope) {
    a.deadline != 0 && (b.deadline == 0 || a.deadline < b.deadline)
  }

  /** Whether the scan prefers `a` to `b`. */
  predicate Preferred(mode: DrainMode, a: Envelope, b: Envelope) {
    match mode
    case Fifo => false
    case HighestPriorityFirst =>
      if a.priority != b.priority then a.priority > b.priority else a.arrival < b.arrival
    case EarliestDeadlineFirst =>
      if DeadlineLess(a, b) then true else if DeadlineLess(b, a) then false else a.arrival < b.arrival
  }

  /** The index of the next packet among the first `n`: the first that none is preferred to. */
  function Next(mode: DrainMode, queue: seq<Envelope>, n: nat): (i: nat)
    requires 0 < n <= |queue|
    ensures i < n
    decreases n
  {
    if n == 1 then 0 else
      var best := Next(mode, queue, n - 1);
      if Preferred(mode, queue[n - 1], queue[best]) then n - 1 else best
  }

  function Removed(queue: seq<Envelope>, i: nat): (q: seq<Envelope>)
    requires i < |queue|
    ensures |q| == |queue| - 1
  {
    queue[..i] + queue[i + 1..]
  }

  function RemoveAt(s: State, i: nat): State
    requires i < |s.queue|
  {
    var size := Payload(s.queue[i]);
    s.(queue := Removed(s.queue, i),
       stats := s.stats.(payloadBytes := if s.stats.payloadBytes >= size then s.stats.payloadBytes - size else 0))
  }

  function Pop(s: State, config: Config): (Option<Envelope>, State) {
    if |s.queue| == 0 then (None, s) else
      var i := Next(config.drain, s.queue, |s.queue|);
      var t := RemoveAt(s, i);
      (Some(s.queue[i]), t.(stats := t.stats.(drained := t.stats.drained + 1)))
  }

  function Drain(s: State, config: Config, count: nat): (seq<Envelope>, State)
    decreases count
  {
    if count == 0 || |s.queue| == 0 then ([], s) else
      var (e, t) := Pop(s, config);
      var (more, u) := Drain(t, config, count - 1);
      ([e.value] + more, u)
  }

  /** Draining stops before the first packet that would take the total over the budget. */
  function DrainBudget(s: State, config: Config, budget: nat, used: nat): (seq<Envelope>, State)
    decreases |s.queue|
  {
    if |s.queue| == 0 then ([], s) else
      var size := Payload(s.queue[Next(config.drain, s.queue, |s.queue|)]);
      if used + size > budget then ([], s) else
        var (e, t) := Pop(s, config);
        var (more, u) := DrainBudget(t, config, budget, used + size);
        ([e.value] + more, u)
  }

  // ----- admission

  predicate ExceedsCapacity(s: State, config: Config, e: Envelope) {
    |s.queue| >= config.maxPackets || s.stats.payloadBytes + Payload(e) > config.maxPayloadBytes
  }

  /** The first of the lowest priority, earliest arrival among the first `n`. */
  function LowestPriority(queue: seq<Envelope>, n: nat): (i: nat)
    requires 0 < n <= |queue|
    ensures i < n
    decreases n
  {
    if n == 1 then 0 else
      var best := LowestPriority(queue, n - 1);
      var a, b := queue[n - 1], queue[best];
      if (if a.priority != b.priority then a.priority < b.priority else a.arrival < b.arrival) then n - 1 else best
  }

  /** The first of the earliest arrivals of a device among the first `n`. */
  function OldestOf(queue: seq<Envelope>, device: uint64, n: nat): (i: Option<nat>)
    requires n <= |queue|
    ensures i.Some? ==> i.value < n
    decreases n
  {
    if n == 0 then None else
      var best := OldestOf(queue, device, n - 1);
      var a := queue[n - 1];
      if a.packet.device == device && (best.None? || a.arrival < queue[best.value].arrival) then Some(n - 1)
      else best
  }

  function Victim(s: State, config: Config, e: Envelope): (i: Option<nat>)
    ensures i.Some? ==> i.value < |s.queue|
  {
    if |s.queue| == 0 then None else
      match config.overflow
      case RejectNew => None
      case DropOldest => Some(0)
      case DropLowestPriority => Some(LowestPriority(s.queue, |s.queue|))
      case ReplaceSameDevice => OldestOf(s.queue, e.packet.device, |s.queue|)
  }

  function Inserted(s: State, e: Envelope): State {
    var bytes := s.stats.payloadBytes + Payload(e);
    var queue := s.queue + [e];
    s.(queue := queue,
       stats := s.stats.(payloadBytes := bytes, accepted := s.stats.accepted + 1,
                         highWaterPackets := Max(s.stats.highWaterPackets, |queue|),
                         highWaterBytes := Max(s.stats.highWaterBytes, bytes)))
  }

  function Push(s: State, config: Config, offered: Envelope): (Admission, State) {
    var stats := s.stats.(rejected := s.stats.rejected + 1);
    if s.closed then
      (Admission(RejectedClosed, None), s.(stats := stats.(closedRejections := stats.closedRejections + 1)))
    else if config.rejectEmptyPayload && Payload(offered) == 0 then
      (Admission(RejectedEmpty, None), s.(stats := stats.(payloadRejections := stats.payloadRejections + 1)))
    else if Payload(offered) > config.maxPacketPayloadBytes then
      (Admission(RejectedTooLarge, None), s.(stats := stats.(payloadRejections := stats.payloadRejections + 1)))
    else
      var e := Ranked(offered);
      if !ExceedsCapacity(s, config, e) then (Admission(Accepted, None), Inserted(s, e)) else
        var victim := Victim(s, config, e);
        if victim.None? then
          (Admission(RejectedFull, None), s.(stats := stats.(capacityRejections := stats.capacityRejections + 1)))
        else
          var t := RemoveAt(s, victim.value);
          (Admission(if config.overflow == ReplaceSameDevice then Replaced else Accepted,
                     Some(s.queue[victim.value].packet)),
           Inserted(t.(stats := t.stats.(evicted := t.stats.evicted + 1)), e))
  }

  function Clear(s: State): State {
    s.(queue := [], stats := s.stats.(payloadBytes := 0))
  }
}
