/** What the ingest queue decides about a packet, in terms of sizes, priorities, times and places: whether it is
    taken, at whose expense, and whose turn it is to leave. */
module IngestDecisions {
  import opened Words
  import opened Wrappers
  import opened Packets
  import opened Sorting
  import opened Ingest
  import opened IngestTheorems

  // ----- whose turn it is

  /** The deadline of `a` comes first; no deadline comes last. */
  predicate DueBefore(a: Envelope, b: Envelope) {
    0 < a.deadline && (b.deadline == 0 || a.deadline < b.deadline)
  }

  predicate SameDeadline(a: Envelope, b: Envelope) {
    a.deadline == b.deadline
  }

  /** `a` is to leave before `b`, wherever they stand. */
  predicate Before(mode: DrainMode, a: Envelope, b: Envelope) {
    || (mode == HighestPriorityFirst
        && (a.priority > b.priority || (a.priority == b.priority && a.arrival < b.arrival)))
    || (mode == EarliestDeadlineFirst
        && (DueBefore(a, b) || (SameDeadline(a, b) && a.arrival < b.arrival)))
  }

  /** The sort key of the drain order is this order. */
  lemma OrderExactly(mode: DrainMode, a: Envelope, b: Envelope)
    ensures Before(mode, a, b) <==> Less(KeyOf(mode)(a), KeyOf(mode)(b))
    ensures Before(mode, a, b) <==> Preferred(mode, a, b)
  {
    PreferredIsLess(mode, a, b);
  }

  /** The packet at `i` is the one to leave: none is to leave before it, and each one in front of it after it. */
  ghost predicate ItsTurn(mode: DrainMode, queue: seq<Envelope>, i: nat) {
    && i < |queue|
    && (forall j | 0 <= j < |queue| :: !Before(mode, queue[j], queue[i]))
    && (forall j | 0 <= j < i :: Before(mode, queue[i], queue[j]))
  }

  lemma TurnIsUnique(mode: DrainMode, queue: seq<Envelope>, i: nat, j: nat)
    requires ItsTurn(mode, queue, i) && ItsTurn(mode, queue, j)
    ensures i == j
  {
    assert !Before(mode, queue[j], queue[i]) && !Before(mode, queue[i], queue[j]);
  }

  lemma NextIsItsTurn(mode: DrainMode, queue: seq<Envelope>)
    requires |queue| > 0
    ensures ItsTurn(mode, queue, Next(mode, queue, |queue|))
  {
    var i := Next(mode, queue, |queue|);
    NextIsFirstLeast(mode, queue, |queue|);
    forall j | 0 <= j < |queue|
      ensures !Before(mode, queue[j], queue[i]) && (j < i ==> Before(mode, queue[i], queue[j]))
    {
      OrderExactly(mode, queue[j], queue[i]);
      OrderExactly(mode, queue[i], queue[j]);
    }
  }

  /** A queue gives out the packet whose turn it is and keeps the others as they stand. */
  lemma PoppedExactly(s: State, config: Config, i: nat)
    requires ItsTurn(config.drain, s.queue, i)
    ensures var (e, t) := Pop(s, config);
      && e == Some(s.queue[i])
      && t.queue == s.queue[..i] + s.queue[i + 1..]
      && t.closed == s.closed && t.stats.drained == s.stats.drained + 1
      && t.stats.payloadBytes == (if s.stats.payloadBytes >= |s.queue[i].packet.payload|
                                  then s.stats.payloadBytes - |s.queue[i].packet.payload| else 0)
  {
    NextIsItsTurn(config.drain, s.queue);
    TurnIsUnique(config.drain, s.queue, i, Next(config.drain, s.queue, |s.queue|));
  }

  lemma DrainOrderSorted(mode: DrainMode, queue: seq<Envelope>, j: nat, k: nat)
    requires j < k < |DrainOrder(mode, queue)|
    ensures var order := DrainOrder(mode, queue);
      !Before(mode, order[k], order[j])
  {
    var order := DrainOrder(mode, queue);
    DrainOrderStable(mode, queue);
    OrderExactly(mode, order[k], order[j]);
  }

  /** What is drained comes out in order, and nothing that stays was to leave before it. */
  lemma DrainedInOrder(s: State, config: Config, count: nat)
    ensures var (out, t) := Drain(s, config, count);
      && (forall j, k | 0 <= j < k < |out| :: !Before(config.drain, out[k], out[j]))
      && (forall j, e | 0 <= j < |out| && e in t.queue :: !Before(config.drain, e, out[j]))
  {
    var (out, t) := Drain(s, config, count);
    var mode := config.drain;
    DrainIsPrefix(s, config, count);
    forall j, k | 0 <= j < k < |out|
      ensures !Before(mode, out[k], out[j])
    {
      DrainOrderSorted(mode, s.queue, j, k);
    }
    forall j, e | 0 <= j < |out| && e in t.queue
      ensures !Before(mode, e, out[j])
    {
      DrainOrderMember(mode, t.queue, e);
      StaysBehind(mode, DrainOrder(mode, s.queue), |out|, e, s.queue, j);
    }
  }

  lemma StaysBehind(mode: DrainMode, order: seq<Envelope>, n: nat, e: Envelope, queue: seq<Envelope>, j: nat)
    requires order == DrainOrder(mode, queue) && j < n <= |order| && e in order[n..]
    ensures !Before(mode, e, order[j])
  {
    var m :| 0 <= m < |order| - n && order[n..][m] == e;
    DrainOrderSorted(mode, queue, j, n + m);
  }

  // ----- what priority a packet gets

  /** A packet that comes with the normal priority is ranked by its route, and otherwise by its kind. */
  lemma RankedExactly(e: Envelope)
    ensures var r, route := Ranked(e), e.packet.route;
      && r == e.(priority := r.priority)
      && (e.priority != 1 ==> r == e)
      && (e.priority == 1 ==>
            && (r.priority == 3 <==>
                  (route.Some? && route.value.priority >= 200)
                  || (e.packet.kind == Control && !(route.Some? && 128 <= route.value.priority < 200)))
            && (r.priority == 2 <==>
                  (route.Some? && 128 <= route.value.priority < 200)
                  || (e.packet.kind in {Heartbeat, Capabilities} && !(route.Some? && route.value.priority >= 200)))
            && r.priority in {1, 2, 3})
  {
  }

  // ----- who has to make room

  /** The packet at `i` is the first of those that the policy names for a newcomer from `device`. */
  ghost predicate MakesRoom(queue: seq<Envelope>, policy: OverflowPolicy, device: uint64, i: nat) {
    && i < |queue| && policy != RejectNew
    && (policy == DropOldest ==> i == 0)
    && (policy == DropLowestPriority ==>
          && (forall j | 0 <= j < |queue| :: !Weaker(queue[j], queue[i]))
          && (forall j | 0 <= j < i :: Weaker(queue[i], queue[j])))
    && (policy == ReplaceSameDevice ==>
          && queue[i].packet.device == device
          && (forall j | 0 <= j < |queue| && queue[j].packet.device == device :: queue[i].arrival <= queue[j].arrival)
          && (forall j | 0 <= j < i && queue[j].packet.device == device :: queue[i].arrival < queue[j].arrival))
  }

  /** Of lower priority, or of the same and older. */
  predicate Weaker(a: Envelope, b: Envelope) {
    a.priority < b.priority || (a.priority == b.priority && a.arrival < b.arrival)
  }

  lemma {:induction false} WeakestIsFirst(queue: seq<Envelope>, n: nat)
    requires 0 < n <= |queue|
    ensures var i := LowestPriority(queue, n);
      && (forall j | 0 <= j < n :: !Weaker(queue[j], queue[i]))
      && (forall j | 0 <= j < i :: Weaker(queue[i], queue[j]))
    decreases n
  {
    if n > 1 {
      WeakestIsFirst(queue, n - 1);
    }
  }

  lemma {:induction false} OldestIsFirst(queue: seq<Envelope>, device: uint64, n: nat)
    requires n <= |queue|
    ensures var i := OldestOf(queue, device, n);
      && (i.None? <==> forall j | 0 <= j < n :: queue[j].packet.device != device)
      && (i.Some? ==>
            && queue[i.value].packet.device == device
            && (forall j | 0 <= j < n && queue[j].packet.device == device ::
                  queue[i.value].arrival <= queue[j].arrival)
            && (forall j | 0 <= j < i.value && queue[j].packet.device == device ::
                  queue[i.value].arrival < queue[j].arrival))
    decreases n
  {
    if n > 0 {
      OldestIsFirst(queue, device, n - 1);
    }
  }

  lemma RoomIsUnique(queue: seq<Envelope>, policy: OverflowPolicy, device: uint64, i: nat, j: nat)
    requires MakesRoom(queue, policy, device, i) && MakesRoom(queue, policy, device, j)
    ensures i == j
  {
    assert policy == DropLowestPriority ==> !Weaker(queue[j], queue[i]) && !Weaker(queue[i], queue[j]);
  }

  lemma VictimMakesRoom(s: State, config: Config, e: Envelope)
    ensures var v := Victim(s, config, e);
      && (v.Some? ==> MakesRoom(s.queue, config.overflow, e.packet.device, v.value))
      && (v.None? ==> forall i: nat :: !MakesRoom(s.queue, config.overflow, e.packet.device, i))
  {
    if |s.queue| > 0 {
      WeakestIsFirst(s.queue, |s.queue|);
      OldestIsFirst(s.queue, e.packet.device, |s.queue|);
    }
  }

  // ----- whether a packet is taken

  /** There is a place for it, and room for its payload. */
  predicate Fits(s: State, config: Config, e: Envelope) {
    |s.queue| < config.maxPackets && s.stats.payloadBytes + |e.packet.payload| <= config.maxPayloadBytes
  }

  /** Why a packet is turned away before its place is looked for. */
  function TurnedAway(s: State, config: Config, e: Envelope): Option<Status> {
    if s.closed then Some(RejectedClosed)
    else if config.rejectEmptyPayload && e.packet.payload == [] then Some(RejectedEmpty)
    else if |e.packet.payload| > config.maxPacketPayloadBytes then Some(RejectedTooLarge)
    else None
  }

  /** `t` is `s` with nothing but one more rejection, under its own head. */
  predicate OnlyRejected(s: State, t: State, status: Status) {
    && t.queue == s.queue && t.closed == s.closed
    && t.stats == s.stats.(
         rejected := s.stats.rejected + 1,
         closedRejections := s.stats.closedRejections + (if status == RejectedClosed then 1 else 0),
         payloadRejections :=
           s.stats.payloadRejections + (if status in {RejectedEmpty, RejectedTooLarge} then 1 else 0),
         capacityRejections := s.stats.capacityRejections + (if status == RejectedFull then 1 else 0))
  }

  /** `t` is `s` with the packet at the end of `queue` and counted. */
  predicate Takes(s: State, t: State, queue: seq<Envelope>, e: Envelope, evicted: nat, bytes: nat) {
    && t.queue == queue + [e] && t.closed == s.closed
    && t.stats == s.stats.(
         accepted := s.stats.accepted + 1, evicted := s.stats.evicted + evicted,
         payloadBytes := bytes + |e.packet.payload|,
         highWaterPackets := Max(s.stats.highWaterPackets, |queue| + 1),
         highWaterBytes := Max(s.stats.highWaterBytes, bytes + |e.packet.payload|))
  }

  /** For every state: a packet is turned away for the first reason that applies. */
  lemma TurnedAwayExactly(s: State, config: Config, offered: Envelope)
    ensures var (a, t) := Push(s, config, offered);
      var why := TurnedAway(s, config, offered);
      && (why.Some? ==> a == Admission(why.value, None) && OnlyRejected(s, t, why.value))
      && (a.status in {RejectedClosed, RejectedEmpty, RejectedTooLarge} <==> why.Some?)
  {
  }

  /** Otherwise it goes, ranked, to the end of the queue if it fits. */
  lemma TakenExactly(s: State, config: Config, offered: Envelope)
    requires TurnedAway(s, config, offered).None? && Fits(s, config, offered)
    ensures var (a, t) := Push(s, config, offered);
      a == Admission(Accepted, None) && Takes(s, t, s.queue, Ranked(offered), 0, s.stats.payloadBytes)
  {
  }

  /** If it does not, it takes the place of the packet that the policy names. */
  lemma ReplacesExactly(s: State, config: Config, offered: Envelope, i: nat)
    requires TurnedAway(s, config, offered).None? && !Fits(s, config, offered)
    requires MakesRoom(s.queue, config.overflow, offered.packet.device, i)
    ensures var (a, t) := Push(s, config, offered);
      && a == Admission(if config.overflow == ReplaceSameDevice then Replaced else Accepted, Some(s.queue[i].packet))
      && Takes(s, t, s.queue[..i] + s.queue[i + 1..], Ranked(offered), 1,
               Max(0, s.stats.payloadBytes - |s.queue[i].packet.payload|))
  {
    var e := Ranked(offered);
    VictimMakesRoom(s, config, e);
    RoomIsUnique(s.queue, config.overflow, offered.packet.device, i, Victim(s, config, e).value);
  }

  /** And it is rejected if the policy names none. */
  lemma RejectedFullExactly(s: State, config: Config, offered: Envelope)
    ensures var (a, t) := Push(s, config, offered);
      && (a.status == RejectedFull <==>
            && TurnedAway(s, config, offered).None? && !Fits(s, config, offered)
            && forall i: nat :: !MakesRoom(s.queue, config.overflow, offered.packet.device, i))
      && (a.status == RejectedFull ==> a.evicted.None? && OnlyRejected(s, t, RejectedFull))
  {
    VictimMakesRoom(s, config, Ranked(offered));
  }
}
