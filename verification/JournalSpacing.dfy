/** How far apart the command journal sends one command. */
module JournalSpacing {
  import opened Words
  import opened OrderedMaps
  import opened Journal
  import opened JournalTheorems

  // ----- retry delays

  predicate NeverShrinks(retry: Retry) {
    retry.scale >= retry.unit
  }

  lemma ScaledUp(v: nat, scale: nat, unit: Positive)
    requires scale >= unit
    ensures v <= v * scale / unit
  {
    MultiplyMonotone(v, unit, scale);
    var q := v * scale / unit;
    assert unit * v <= v * scale < unit * (q + 1) by {
      assert v * scale == unit * q + (v * scale) % unit;
    }
    if q + 1 <= v {
      MultiplyMonotone(unit, q + 1, v);
    }
  }

  lemma GrownBounds(v: nat, retry: Retry)
    requires NeverShrinks(retry)
    ensures Min(v, retry.maxDelay) <= Grown(v, retry) <= retry.maxDelay
  {
    if v < retry.maxDelay && v * retry.scale < retry.maxDelay * retry.unit {
      ScaledUp(v, retry.scale, retry.unit);
      ScaledDown(v, retry.scale, retry.unit, retry.maxDelay);
    }
  }

  /** Later attempts never wait less, and no attempt waits longer than the limit. */
  lemma {:induction false} DelayMonotone(retry: Retry, j: nat, k: nat)
    requires NeverShrinks(retry) && 1 <= j <= k
    ensures RetryDelay(retry, j) <= RetryDelay(retry, k) <= retry.maxDelay
    decreases k
  {
    if j < k {
      DelayMonotone(retry, j, k - 1);
      GrownBounds(RawDelay(retry, k - 1), retry);
    }
  }

  lemma ScaledBelow(v: nat, scale: nat, unit: Positive)
    requires scale < unit && v > 0
    ensures v * scale / unit < v
  {
    MultiplyMonotone(v, scale, unit - 1);
    assert v * (unit - 1) == v * unit - v;
    ScaledDown(v, scale, unit, v);
  }

  /** A multiplier below one makes a delay of two nanoseconds or more, below the limit, shrink. */
  lemma SecondShrinks(retry: Retry)
    requires !NeverShrinks(retry) && 2 <= retry.initialDelay < retry.maxDelay
    ensures RetryDelay(retry, 2) < RetryDelay(retry, 1)
  {
    var v := retry.initialDelay;
    ScaledBelow(v, retry.scale, retry.unit);
    assert RawDelay(retry, 2) == Grown(v, retry);
    MultiplyMonotone(v, retry.scale, retry.unit);
    SmallerProduct(v, retry.maxDelay, retry.scale, retry.unit);
  }

  lemma SmallerProduct(v: nat, limit: nat, scale: nat, unit: Positive)
    requires v < limit && scale < unit
    ensures v * scale < limit * unit
  {
    MultiplyMonotone(v, scale, unit);
    MultiplyMonotone(unit, v + 1, limit);
  }

  lemma {:induction false} FlatDelay(retry: Retry, k: nat)
    requires !NeverShrinks(retry) && (retry.initialDelay <= 1 || retry.initialDelay >= retry.maxDelay) && k >= 2
    ensures RawDelay(retry, k) == (if retry.initialDelay >= retry.maxDelay then retry.maxDelay else 1)
    decreases k
  {
    var v := if k == 2 then retry.initialDelay else RawDelay(retry, k - 1);
    if k > 2 {
      FlatDelay(retry, k - 1);
    }
    if v < retry.maxDelay {
      SmallerProduct(v, retry.maxDelay, retry.scale, retry.unit);
      ScaledDown(v, retry.scale, retry.unit, Max(1, v));
    }
  }

  ghost predicate DelaysGrow(retry: Retry) {
    forall j: nat, k: nat | 1 <= j <= k :: RetryDelay(retry, j) <= RetryDelay(retry, k)
  }

  /** The delays never shrink if and only if the multiplier is at least one, or the initial delay is at
      most one nanosecond or already at the limit. */
  lemma DelaysGrowExactly(retry: Retry)
    ensures DelaysGrow(retry)
        <==> NeverShrinks(retry) || retry.initialDelay <= 1 || retry.initialDelay >= retry.maxDelay
  {
    if NeverShrinks(retry) {
      forall j: nat, k: nat | 1 <= j <= k
        ensures RetryDelay(retry, j) <= RetryDelay(retry, k)
      {
        DelayMonotone(retry, j, k);
      }
    } else if retry.initialDelay <= 1 || retry.initialDelay >= retry.maxDelay {
      forall j: nat, k: nat | 1 <= j <= k
        ensures RetryDelay(retry, j) <= RetryDelay(retry, k)
      {
        if j >= 2 {
          FlatDelay(retry, j);
        }
        if k >= 2 {
          FlatDelay(retry, k);
        }
      }
    } else {
      SecondShrinks(retry);
    }
  }

  // ----- what is sent to one command

  ghost function To(log: seq<Dispatch>, id: uint64): seq<Dispatch>
    decreases |log|
  {
    if |log| == 0 then [] else (if log[0].id == id then [log[0]] else []) + To(log[1..], id)
  }

  ghost function OpSends(s: State, config: Config, op: Op, id: uint64): seq<Dispatch> {
    if op.OpDue? then To(Due(s, config, op.now, op.count).0, id) else []
  }

  /** Every dispatch of command `id` over a run, in order. */
  ghost function SendsOf(s: State, config: Config, ops: seq<Op>, id: uint64): seq<Dispatch>
    decreases |ops|
  {
    if |ops| == 0 then [] else
      OpSends(s, config, ops[0], id) + SendsOf(Apply(s, config, ops[0]), config, ops[1..], id)
  }

  lemma {:induction false} ToNone(log: seq<Dispatch>, id: uint64)
    requires forall k | 0 <= k < |log| :: log[k].id != id
    ensures To(log, id) == []
    decreases |log|
  {
    if |log| > 0 {
      ToNone(log[1..], id);
    }
  }

  lemma {:induction false} ToOne(log: seq<Dispatch>, id: uint64, k: nat)
    requires Ascending(log) && k < |log| && log[k].id == id
    ensures To(log, id) == [log[k]]
    decreases |log|
  {
    if k == 0 {
      ToNone(log[1..], id);
    } else {
      assert log[0].id < log[k].id;
      ToOne(log[1..], id, k - 1);
    }
  }

  // ----- a sent command waits for its retry delay

  predicate TimedEntry(e: Entry, config: Config) {
    1 <= e.attempts < config.retry.maxAttempts && !Terminal(e.state) ==>
      e.lastSend + RetryDelay(config.retry, e.attempts) <= e.nextAttempt
  }

  ghost predicate Timed(s: State, config: Config) {
    forall id | id in s.entries :: TimedEntry(s.entries[id], config)
  }

  /** The acknowledgement makes its command wait again. */
  predicate Reschedules(s: State, ack: Ack) {
    && ack.status.Busy? && ack.id in s.entries
    && s.entries[ack.id].command.device == ack.device && !Terminal(s.entries[ack.id].state)
  }

  /** The new wait, whose end is a sum that may wrap, does not end before the one since the last send. */
  predicate Patient(e: Entry, config: Config, ack: Ack)
    requires ack.status.Busy?
  {
    1 <= e.attempts < config.retry.maxAttempts ==>
      e.lastSend + RetryDelay(config.retry, e.attempts) <= Acked(e, config, ack).nextAttempt
  }

  /** The wait after a send at `now`, unless it is the last, does not end past the largest time. */
  predicate WaitFits(e: Entry, config: Config, now: uint64) {
    e.attempts + 1 < config.retry.maxAttempts ==>
      now + RetryDelay(config.retry, e.attempts + 1) <= MAX_64
  }

  /** The operation shortens no wait, neither by a sum that wraps nor by a busy acknowledgement. */
  predicate Calm(s: State, config: Config, op: Op) {
    match op
    case OpDue(now, _) =>
      forall id | id in s.entries && DispatchesNow(s.entries[id], config, now) :: WaitFits(s.entries[id], config, now)
    case OpAck(ack) => Reschedules(s, ack) ==> Patient(s.entries[ack.id], config, ack)
    case _ => true
  }

  /** `d` may follow the `k`-th attempt, made at time `at`. */
  predicate Follows(k: nat, at: nat, d: Dispatch, retry: Retry) {
    d.attempt == k + 1 && (k >= 1 ==> at + RetryDelay(retry, k) <= d.time)
  }

  /** What the dispatch loop has done to entry `id`, depending on whether it listed it. */
  predicate Progress(e: Entry, f: Entry, listed: bool, config: Config, now: uint64) {
    if listed then DispatchesNow(e, config, now) && f == SentEntry(e, config, now)
    else f == e || (Terminal(f.state) && f.attempts == e.attempts && f.lastSend == e.lastSend)
  }

  lemma ListsMore(d: Dispatch, out: seq<Dispatch>, id: uint64)
    ensures Lists([d] + out, id) <==> d.id == id || Lists(out, id)
  {
    var all := [d] + out;
    assert all[0] == d;
    if Lists(out, id) {
      var k :| 0 <= k < |out| && out[k].id == id;
      assert all[k + 1].id == id;
    }
  }

  lemma {:induction false} ScanProgress(
    s: State, config: Config, now: uint64, rest: set<uint64>, room: nat, id: uint64)
    requires rest <= s.entries.Keys && id in s.entries
    ensures var (out, t) := DueScan(s, config, now, rest, room);
      id in t.entries && (Lists(out, id) ==> id in rest)
      && (if id in rest then Progress(s.entries[id], t.entries[id], Lists(out, id), config, now)
          else t.entries[id] == s.entries[id])
    decreases |rest|
  {
    if rest != {} && room > 0 {
      var least := Least(rest);
      var t := DueOne(s, config, now, least);
      if DispatchesNow(s.entries[least], config, now) {
        ScanProgress(t, config, now, rest - {least}, room - 1, id);
        var f := t.entries[least];
        ListsMore(Dispatch(least, f.attempts, now, f.nextAttempt),
          DueScan(t, config, now, rest - {least}, room - 1).0, id);
      } else {
        ScanProgress(t, config, now, rest - {least}, room, id);
      }
    }
  }

  /** Where an operation leaves entry `id`: just sent, as it was, or new. */
  ghost predicate Tracks(s: State, t: State, sent: seq<Dispatch>, id: uint64, config: Config) {
    if |sent| == 0 then
      id in t.entries ==>
        t.entries[id].attempts == 0
        || (&& id in s.entries
            && t.entries[id].attempts == s.entries[id].attempts && t.entries[id].lastSend == s.entries[id].lastSend)
    else
      && |sent| == 1 && id in s.entries && id in t.entries
      && Follows(s.entries[id].attempts, s.entries[id].lastSend, sent[0], config.retry)
      && t.entries[id].attempts == sent[0].attempt && t.entries[id].lastSend == sent[0].time
  }

  lemma SentTimed(e: Entry, config: Config, now: uint64)
    requires e.attempts < config.retry.maxAttempts && WaitFits(e, config, now)
    ensures TimedEntry(SentEntry(e, config, now), config)
  {
    if e.attempts + 1 < config.retry.maxAttempts {
      NoWrap64(now + RetryDelay(config.retry, e.attempts + 1));
    }
  }

  lemma NoWrap64(n: nat)
    requires n <= MAX_64
    ensures Wrap64(n) == n
  {
  }

  lemma DueTracks(s: State, config: Config, now: uint64, count: nat, id: uint64)
    requires Timed(s, config) && Calm(s, config, OpDue(now, count))
    requires id in s.entries
    ensures Tracks(s, Due(s, config, now, count).1, OpSends(s, config, OpDue(now, count), id), id, config)
    ensures id in Due(s, config, now, count).1.entries
    ensures TimedEntry(Due(s, config, now, count).1.entries[id], config)
  {
    var (out, t) := Due(s, config, now, count);
    DueSendsFirst(s, config, now, count);
    ScanProgress(s, config, now, s.entries.Keys, count, id);
    assert TimedEntry(s.entries[id], config);
    if Lists(out, id) {
      var k :| 0 <= k < |out| && out[k].id == id;
      ToOne(out, id, k);
      assert SendsNow(out[k], s, config, now);
      SentTimed(s.entries[id], config, now);
    } else {
      ToNone(out, id);
    }
  }

  /** When the next attempt after a busy acknowledgement is due. */
  lemma BusyNext(e: Entry, config: Config, ack: Ack)
    requires ack.status.Busy? && ack.time + config.retry.maxDelay <= MAX_64
    requires 1 <= e.attempts < config.retry.maxAttempts
    ensures Acked(e, config, ack).nextAttempt == ack.time + RetryDelay(config.retry, e.attempts + 1)
  {
    DelayFits(config.retry, e.attempts + 1);
    NoWrap64(ack.time + RetryDelay(config.retry, e.attempts + 1));
    NoWrap32(e.attempts + 1);
  }

  lemma DelayFits(retry: Retry, k: nat)
    requires k >= 1
    ensures RetryDelay(retry, k) <= retry.maxDelay
  {
  }

  lemma NoWrap32(n: nat)
    requires n < TWO_32
    ensures Wrap32(n) == n
  {
  }

  /** A command that waits for its second or a later attempt, not expiring before, can be sent before
      its retry delay is over if and only if there is a delay and a busy acknowledgement shortens it. */
  lemma EarlyExactly(e: Entry, config: Config, ack: Ack)
    requires ack.status.Busy? && 1 <= e.attempts < config.retry.maxAttempts
    requires e.command.expires == 0 || e.lastSend + RetryDelay(config.retry, e.attempts) <= e.command.expires
    ensures var delay := RetryDelay(config.retry, e.attempts);
      (exists now: uint64 :: e.lastSend <= now < e.lastSend + delay
                             && DispatchesNow(Acked(e, config, ack), config, now))
      <==> delay > 0 && !Patient(e, config, ack)
  {
    var delay := RetryDelay(config.retry, e.attempts);
    var now: nat := Max(e.lastSend, Acked(e, config, ack).nextAttempt);
    if delay > 0 && !Patient(e, config, ack) {
      assert e.lastSend <= now < e.lastSend + delay && DispatchesNow(Acked(e, config, ack), config, now);
    }
  }

  lemma StepTracks(s: State, config: Config, op: Op, id: uint64)
    requires Timed(s, config) && Calm(s, config, op)
    ensures Tracks(s, Apply(s, config, op), OpSends(s, config, op, id), id, config)
    ensures id in Apply(s, config, op).entries ==> TimedEntry(Apply(s, config, op).entries[id], config)
  {
    match op
    case OpAppend(_) =>
    case OpDue(now, count) =>
      if id in s.entries {
        DueTracks(s, config, now, count, id);
      } else {
        OthersEvolve(s, config, op);
        DueSendsFirst(s, config, now, count);
        var out := Due(s, config, now, count).0;
        forall k | 0 <= k < |out|
          ensures out[k].id != id
        {
          assert SendsNow(out[k], s, config, now);
        }
        ToNone(out, id);
      }
    case OpCompact(keep) =>
      if |s.entries| > keep {
        DroppedActive(s.entries, TerminalIds(s.entries), |s.entries| - keep);
      }
    case _ =>
  }

  ghost predicate CalmRun(s: State, config: Config, ops: seq<Op>)
    decreases |ops|
  {
    |ops| == 0 || (Calm(s, config, ops[0]) && CalmRun(Apply(s, config, ops[0]), config, ops[1..]))
  }

  /** Neighbouring dispatches are successive attempts a retry delay apart, unless the second opens a
      newly appended command. */
  predicate Spaced(sends: seq<Dispatch>, retry: Retry) {
    forall i | 0 < i < |sends| ::
      sends[i].attempt == 1 || Follows(sends[i - 1].attempt, sends[i - 1].time, sends[i], retry)
  }

  predicate Opens(sends: seq<Dispatch>, s: State, id: uint64, retry: Retry) {
    |sends| == 0 || sends[0].attempt == 1
    || (id in s.entries && Follows(s.entries[id].attempts, s.entries[id].lastSend, sends[0], retry))
  }

  lemma SpacedMore(s: State, t: State, sent: seq<Dispatch>, later: seq<Dispatch>, id: uint64, config: Config)
    requires Tracks(s, t, sent, id, config)
    requires Spaced(later, config.retry) && Opens(later, t, id, config.retry)
    ensures Spaced(sent + later, config.retry) && Opens(sent + later, s, id, config.retry)
  {
    if |sent| == 0 {
      assert sent + later == later;
    } else {
      var all := sent + later;
      assert all[0] == sent[0];
      forall i | 0 < i < |all|
        ensures all[i].attempt == 1 || Follows(all[i - 1].attempt, all[i - 1].time, all[i], config.retry)
      {
        assert all[i] == later[i - 1];
        if i > 1 {
          assert all[i - 1] == later[i - 2];
        }
      }
    }
  }

  lemma {:induction false} SpacedFrom(s: State, config: Config, ops: seq<Op>, id: uint64)
    requires Timed(s, config) && CalmRun(s, config, ops)
    ensures Spaced(SendsOf(s, config, ops, id), config.retry)
    ensures Opens(SendsOf(s, config, ops, id), s, id, config.retry)
    decreases |ops|
  {
    if |ops| > 0 {
      var t := Apply(s, config, ops[0]);
      forall i | i in t.entries
        ensures TimedEntry(t.entries[i], config)
      {
        StepTracks(s, config, ops[0], i);
      }
      StepTracks(s, config, ops[0], id);
      SpacedFrom(t, config, ops[1..], id);
      SpacedMore(s, t, OpSends(s, config, ops[0], id), SendsOf(t, config, ops[1..], id), id, config);
    }
  }

  /** In every calm run of a new journal the `k`-th and the `k + 1`-st dispatch of a command are at
      least the `k`-th retry delay apart. */
  lemma SendsAreSpaced(config: Config, ops: seq<Op>, id: uint64)
    requires CalmRun(START, config, ops)
    ensures Spaced(SendsOf(START, config, ops, id), config.retry)
    ensures |SendsOf(START, config, ops, id)| > 0 ==> SendsOf(START, config, ops, id)[0].attempt == 1
  {
    SpacedFrom(START, config, ops, id);
  }

  // ----- acknowledgements dated after the send

  /** The sums do not wrap, and no device is busy before the command was sent to it. */
  predicate Dated(s: State, config: Config, op: Op) {
    match op
    case OpDue(now, _) => now + config.retry.maxDelay <= MAX_64
    case OpAck(ack) =>
      Reschedules(s, ack) ==>
        ack.time + config.retry.maxDelay <= MAX_64 && s.entries[ack.id].lastSend <= ack.time
    case _ => true
  }

  ghost predicate DatedRun(s: State, config: Config, ops: seq<Op>)
    decreases |ops|
  {
    |ops| == 0 || (Dated(s, config, ops[0]) && DatedRun(Apply(s, config, ops[0]), config, ops[1..]))
  }

  lemma DatedIsCalm(s: State, config: Config, op: Op)
    requires DelaysGrow(config.retry) && Dated(s, config, op)
    ensures Calm(s, config, op)
  {
    if op.OpAck? && Reschedules(s, op.ack) && s.entries[op.ack.id].attempts >= 1 {
      var e := s.entries[op.ack.id];
      if e.attempts < config.retry.maxAttempts {
        var k: nat := e.attempts;
        assert RetryDelay(config.retry, k) <= RetryDelay(config.retry, k + 1);
        BusyNext(e, config, op.ack);
      }
    }
    if op.OpDue? {
      forall id | id in s.entries && DispatchesNow(s.entries[id], config, op.now)
        ensures WaitFits(s.entries[id], config, op.now)
      {
        DelayFits(config.retry, s.entries[id].attempts + 1);
      }
    }
  }

  lemma {:induction false} DatedRunIsCalm(s: State, config: Config, ops: seq<Op>)
    requires DelaysGrow(config.retry) && DatedRun(s, config, ops)
    ensures CalmRun(s, config, ops)
    decreases |ops|
  {
    if |ops| > 0 {
      DatedIsCalm(s, config, ops[0]);
      DatedRunIsCalm(Apply(s, config, ops[0]), config, ops[1..]);
    }
  }

  /** With a multiplier of at least one it suffices that busy acknowledgements are not dated before the
      last send. */
  lemma DatedSendsAreSpaced(config: Config, ops: seq<Op>, id: uint64)
    requires NeverShrinks(config.retry) && DatedRun(START, config, ops)
    ensures Spaced(SendsOf(START, config, ops, id), config.retry)
  {
    DelaysGrowExactly(config.retry);
    DatedRunIsCalm(START, config, ops);
    SendsAreSpaced(config, ops, id);
  }

  // ----- a send that comes early

  lemma SendsCons(s: State, config: Config, op: Op, ops: seq<Op>, id: uint64)
    ensures SendsOf(s, config, [op] + ops, id)
         == OpSends(s, config, op, id) + SendsOf(Apply(s, config, op), config, ops, id)
  {
    assert ([op] + ops)[1..] == ops;
  }

  /** A journal whose only command, numbered 1, is due sends it. */
  lemma SingleSend(s: State, config: Config, now: uint64, e: Entry)
    requires s.entries == map[1 := e] && DispatchesNow(e, config, now)
    ensures var f := SentEntry(e, config, now);
      && Apply(s, config, OpDue(now, 1)).entries == map[1 := f]
      && OpSends(s, config, OpDue(now, 1), 1) == [Dispatch(1, f.attempts, now, f.nextAttempt)]
  {
    assert s.entries.Keys == {1};
    assert Least({1}) == 1 && {1} - {1} == {};
    var t, f := DueOne(s, config, now, 1), SentEntry(e, config, now);
    assert t.entries == map[1 := f];
    assert DueScan(t, config, now, {}, 0) == ([], t);
    var d := Dispatch(1, f.attempts, now, f.nextAttempt);
    assert Due(s, config, now, 1).0 == [d];
    ToOne([d], 1, 0);
  }

  lemma FlatRetry(retry: Retry, k: nat)
    requires retry == Retry(3, 100, 100, 1, 1) && k <= 2
    ensures RetryDelay(retry, k) == 100
  {
    if k == 2 {
      assert RawDelay(retry, 1) == 100;
    }
  }

  /** The command of the run, once appended. */
  function EarlyCommand(): Command {
    Command(1, 0, 0, 0, 0, [], "")
  }

  lemma EarlyAppend(config: Config)
    requires config == Config(1, 0, Retry(3, 100, 100, 1, 1))
    ensures Apply(START, config, OpAppend(Plain(0, 0, 0))).entries == map[1 := Entry(EarlyCommand(), Pending, 0, 0, 0)]
  {
    PlainAppend(START, config, Plain(0, 0, 0));
  }

  lemma EarlySent(config: Config, attempts: uint32, next: uint64)
    requires config == Config(1, 0, Retry(3, 100, 100, 1, 1)) && attempts < 2
    ensures SentEntry(Entry(EarlyCommand(), Pending, attempts, attempts * 1000, next), config, 1000)
         == Entry(EarlyCommand(), Sent, attempts + 1, 1000, 1100)
  {
    FlatRetry(config.retry, attempts + 1);
  }

  lemma EarlyBusy(s: State, config: Config)
    requires config == Config(1, 0, Retry(3, 100, 100, 1, 1))
    requires s.entries == map[1 := Entry(EarlyCommand(), Sent, 1, 1000, 1100)]
    ensures Apply(s, config, OpAck(Ack(1, 0, Busy, 500))).entries
         == map[1 := Entry(EarlyCommand(), Pending, 1, 1000, 600)]
  {
    FlatRetry(config.retry, 2);
  }

  /** One command, sent at 1000, found busy by an acknowledgement dated 500, and due again at 1000. */
  function EarlyRun(): seq<Op> {
    [OpAppend(Plain(0, 0, 0))] + AfterAppend()
  }

  function AfterAppend(): seq<Op> {
    [OpDue(1000, 1)] + ([OpAck(Ack(1, 0, Busy, 500))] + ([OpDue(1000, 1)] + []))
  }

  lemma SendsAfterAppend(s: State, config: Config)
    requires config == Config(1, 0, Retry(3, 100, 100, 1, 1))
    requires s.entries == map[1 := Entry(EarlyCommand(), Pending, 0, 0, 0)]
    ensures SendsOf(s, config, AfterAppend(), 1) == [Dispatch(1, 1, 1000, 1100), Dispatch(1, 2, 1000, 1100)]
  {
    var due, busy := OpDue(1000, 1), OpAck(Ack(1, 0, Busy, 500));
    EarlySent(config, 0, 0);
    SingleSend(s, config, 1000, s.entries[1]);
    var s1 := Apply(s, config, due);
    EarlyBusy(s1, config);
    var s2 := Apply(s1, config, busy);
    EarlySent(config, 1, 600);
    SingleSend(s2, config, 1000, s2.entries[1]);
    SendsCons(s2, config, due, [], 1);
    SendsCons(s1, config, busy, [due] + [], 1);
    SendsCons(s, config, due, [busy] + ([due] + []), 1);
  }

  /** The two sends of that run have no time between them, where the retry delay is 100. */
  lemma EarlyIsReachable(config: Config)
    requires config == Config(1, 0, Retry(3, 100, 100, 1, 1))
    ensures SendsOf(START, config, EarlyRun(), 1) == [Dispatch(1, 1, 1000, 1100), Dispatch(1, 2, 1000, 1100)]
    ensures !Spaced(SendsOf(START, config, EarlyRun(), 1), config.retry)
  {
    EarlyAppend(config);
    SendsAfterAppend(Apply(START, config, OpAppend(Plain(0, 0, 0))), config);
    SendsCons(START, config, OpAppend(Plain(0, 0, 0)), AfterAppend(), 1);
    FlatRetry(config.retry, 1);
    NotSpaced(Dispatch(1, 1, 1000, 1100), Dispatch(1, 2, 1000, 1100), config.retry);
  }

  lemma NotSpaced(a: Dispatch, b: Dispatch, retry: Retry)
    requires b.attempt != 1 && !Follows(a.attempt, a.time, b, retry)
    ensures !Spaced([a, b], retry)
  {
    assert [a, b][1] == b && [a, b][0] == a;
  }
}
