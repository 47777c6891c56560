/** What each journal operation decides, in terms of states, times and counts: what becomes of a command, when it
    is sent, and how long it waits. */
module JournalDecisions {
  import opened Words
  import opened Wrappers
  import opened OrderedMaps
  import opened Journal
  import opened JournalTheorems

  predicate IsActive(e: Entry) {
    e.state == Pending || e.state == Sent
  }

  predicate IsPast(e: Entry, now: uint64) {
    0 < e.command.expires <= now
  }

  /** May be sent now. */
  predicate MaySend(e: Entry, config: Config, now: uint64) {
    IsActive(e) && !IsPast(e, now) && e.nextAttempt <= now && e.attempts < config.retry.maxAttempts
  }

  /** The commands with smaller identifiers that may be sent. */
  ghost function Ahead(
    entries: map<uint64, Entry>, rest: set<uint64>, config: Config, now: uint64, id: uint64): set<uint64> {
    set i | i in rest && i in entries && i < id && MaySend(entries[i], config, now)
  }

  // ----- how far one call for due commands gets

  lemma {:induction false} DueLeaves(
    s: State, config: Config, now: uint64, rest: set<uint64>, room: nat, id: uint64)
    requires rest <= s.entries.Keys && id in s.entries && id !in rest
    ensures var t := DueScan(s, config, now, rest, room).1;
      id in t.entries && t.entries[id] == s.entries[id]
    decreases |rest|
  {
    if rest != {} && room > 0 {
      var next := Least(rest);
      var t := DueOne(s, config, now, next);
      DueLeaves(t, config, now, rest - {next},
                if DispatchesNow(s.entries[next], config, now) then room - 1 else room, id);
    }
  }

  lemma FewerAhead(s: State, t: State, rest: set<uint64>, config: Config, now: uint64, id: uint64)
    requires rest != {} && rest <= s.entries.Keys && t.entries.Keys == s.entries.Keys && Least(rest) < id
    requires forall i | i in rest - {Least(rest)} :: t.entries[i] == s.entries[i]
    ensures |Ahead(s.entries, rest, config, now, id)| == |Ahead(t.entries, rest - {Least(rest)}, config, now, id)|
                                                  + if MaySend(s.entries[Least(rest)], config, now) then 1 else 0
  {
    var next := Least(rest);
    var before, after := Ahead(s.entries, rest, config, now, id), Ahead(t.entries, rest - {next}, config, now, id);
    if MaySend(s.entries[next], config, now) {
      assert before == after + {next};
    } else {
      assert before == after;
    }
  }

  /** A call gets as far as a command if and only if fewer than the maximum before it may be sent. */
  lemma {:induction false} DueReaches(
    s: State, config: Config, now: uint64, rest: set<uint64>, room: nat, id: uint64)
    requires rest <= s.entries.Keys && id in rest
    ensures var t, e := DueScan(s, config, now, rest, room).1, s.entries[id];
      id in t.entries
      && t.entries[id] == if |Ahead(s.entries, rest, config, now, id)| < room then DueEntry(e, config, now) else e
    decreases |rest|
  {
    if room > 0 {
      var next := Least(rest);
      var t := DueOne(s, config, now, next);
      var left := if DispatchesNow(s.entries[next], config, now) then room - 1 else room;
      if id == next {
        DueLeaves(t, config, now, rest - {next}, left, id);
        assert Ahead(s.entries, rest, config, now, id) == {};
      } else {
        DueReaches(t, config, now, rest - {next}, left, id);
        FewerAhead(s, t, rest, config, now, id);
      }
    }
  }

  // ----- what becomes of a command

  /** The identifier of the command goes to a new one: only where identifiers have wrapped. */
  predicate Overwritten(s: State, op: Op, id: uint64) {
    op.OpAppend? && op.command.id == 0 && s.nextId == id
  }

  /** An acknowledgement that counts for the active command `id`. */
  predicate Answers(e: Entry, op: Op, id: uint64) {
    op.OpAck? && op.ack.id == id && op.ack.device == e.command.device && IsActive(e)
  }

  /** A call for due commands that gets as far as the active command `id`. */
  ghost predicate Visits(s: State, config: Config, op: Op, id: uint64)
    requires id in s.entries
  {
    op.OpDue? && IsActive(s.entries[id]) && |Ahead(s.entries, s.entries.Keys, config, op.now, id)| < op.count
  }

  /** The end of a wait of `delay` from `time`; the sum wraps. */
  function Later(time: uint64, delay: nat): uint64 {
    (time + delay) % TWO_64
  }

  /** How the command `id` ends, from `e` to `f`; `visited` by a call for due commands. */
  predicate Ends(e: Entry, f: Entry, config: Config, op: Op, id: uint64, visited: bool)
    requires visited ==> op.OpDue?
  {
    && (f.state == Acknowledged <==>
          e.state == Acknowledged || (Answers(e, op, id) && op.ack.status == Accepted))
    && (f.state == Failed <==>
          || e.state == Failed
          || (Answers(e, op, id) && op.ack.status in {Rejected, Malformed, UnknownCommand})
          || (visited && !IsPast(e, op.now) && e.nextAttempt <= op.now && e.attempts >= config.retry.maxAttempts))
    && (f.state == Expired <==>
          || e.state == Expired
          || (IsActive(e) && op.OpExpire? && IsPast(e, op.now))
          || (visited && IsPast(e, op.now)))
    && (f.state == Cancelled <==>
          e.state == Cancelled || (IsActive(e) && op.OpCancel? && op.id == id))
  }

  /** When it is sent, when it is to wait again, and that nothing else about it changes. */
  predicate Waits(e: Entry, f: Entry, config: Config, op: Op, id: uint64, visited: bool)
    requires visited ==> op.OpDue?
  {
    if visited && MaySend(e, config, op.now) then
      f == Entry(e.command, Sent, e.attempts + 1, op.now,
             Later(op.now, RetryDelay(config.retry, e.attempts + 1)))
    else if Answers(e, op, id) && op.ack.status == Busy then
      f == e.(state := Pending,
              nextAttempt := Later(op.ack.time, RetryDelay(config.retry, (e.attempts + 1) % TWO_32)))
    else f == e.(state := f.state) && (IsActive(f) ==> f == e)
  }

  lemma DueFate(e: Entry, config: Config, op: Op, id: uint64, visited: bool)
    requires op.OpDue? && (visited ==> IsActive(e))
    ensures var f := if visited then DueEntry(e, config, op.now) else e;
      Ends(e, f, config, op, id, visited) && Waits(e, f, config, op, id, visited)
  {
  }

  lemma AckFate(s: State, config: Config, ack: Ack, id: uint64)
    requires id in s.entries
    ensures var t, e := Acknowledge(s, config, ack).2, s.entries[id];
      && id in t.entries && Ends(e, t.entries[id], config, OpAck(ack), id, false)
      && Waits(e, t.entries[id], config, OpAck(ack), id, false)
  {
  }

  lemma OtherFate(s: State, config: Config, op: Op, id: uint64)
    requires id in s.entries && !Overwritten(s, op, id) && (op.OpAppend? || op.OpCancel? || op.OpExpire?)
    ensures var t, e := Apply(s, config, op), s.entries[id];
      && id in t.entries && Ends(e, t.entries[id], config, op, id, false)
      && Waits(e, t.entries[id], config, op, id, false)
  {
  }

  /** For every state and operation but compaction: how each command ends, when it waits again, when it is
      sent, and that nothing else about it changes. */
  lemma CommandFate(s: State, config: Config, op: Op, id: uint64)
    requires id in s.entries && !Overwritten(s, op, id) && !op.OpCompact?
    ensures var t, e, visited := Apply(s, config, op), s.entries[id], Visits(s, config, op, id);
      && id in t.entries && Ends(e, t.entries[id], config, op, id, visited)
      && Waits(e, t.entries[id], config, op, id, visited)
  {
    match op
    case OpDue(now, count) =>
      DueReaches(s, config, now, s.entries.Keys, count, id);
      DueFate(s.entries[id], config, op, id, Visits(s, config, op, id));
    case OpAck(ack) => AckFate(s, config, ack, id);
    case _ => OtherFate(s, config, op, id);
  }

  /** What the answer to an acknowledgement says. */
  lemma AnsweredExactly(s: State, config: Config, ack: Ack)
    ensures var (matched, state, t) := Acknowledge(s, config, ack);
      && (matched <==> ack.id in s.entries && s.entries[ack.id].command.device == ack.device)
      && (ack.id in s.entries ==> state == t.entries[ack.id].state)
      && (ack.id !in s.entries ==> state == Pending)
      && (!matched ==> t == s)
  {
  }

  // ----- appending

  /** An active command for the same device with the same kind, name and payload. */
  predicate HasTwin(s: State, c: Command) {
    exists id :: id in s.entries && IsTwin(s.entries[id], c)
  }

  predicate IsTwin(e: Entry, c: Command) {
    && IsActive(e) && e.command.device == c.device && e.command.kind == c.kind
    && e.command.name == c.name && e.command.payload == c.payload
  }

  /** For every state: when a command is not taken, and what taking it does. */
  lemma AppendedExactly(s: State, config: Config, c: Command)
    ensures var (answer, t) := Append(s, config, c);
      var twin := HasTwin(s, c) || (c.id != 0 && c.id in s.entries);
      && (answer.None? <==> |s.entries| >= config.maxEntries || twin)
      && (|s.entries| >= config.maxEntries ==> t == s)
      && (|s.entries| < config.maxEntries && twin ==>
            t == s.(stats := s.stats.(duplicates := s.stats.duplicates + 1)))
      && (answer.Some? ==>
            var id := if c.id == 0 then s.nextId else c.id;
            var expires := if c.expires == 0 then (c.created + config.defaultTtl) % TWO_64 else c.expires;
            && answer == Some(id)
            && t.entries == s.entries[id := Entry(c.(id := id, expires := expires), Pending, 0, 0, c.created)]
            && (c.id == 0 ==> t.nextId == (s.nextId + 1) % TWO_64)
            && (0 < c.id < MAX_64 ==> t.nextId >= s.nextId && t.nextId > c.id && t.nextId in {s.nextId, c.id + 1})
            && (c.id == MAX_64 ==> t.nextId == s.nextId)
            && t.stats == s.stats.(appended := s.stats.appended + 1))
  {
    TwinIsDuplicate(s, c);
  }

  lemma TwinIsDuplicate(s: State, c: Command)
    ensures HasTwin(s, c) <==> DuplicateActive(s.entries, c)
  {
    forall id | id in s.entries
      ensures IsTwin(s.entries[id], c) <==> ActiveTwin(s.entries[id], c)
    {
    }
  }

  // ----- retry delays

  /** The first delay is the initial one, held to the limit; each later one is the one before it times the
      multiplier, rounded down, at least one nanosecond and again held to the limit. */
  lemma DelayLaw(retry: Retry, k: nat)
    requires k >= 1
    ensures RetryDelay(retry, 0) == retry.initialDelay
    ensures RetryDelay(retry, 1) == Min(retry.initialDelay, retry.maxDelay)
    ensures var d, scaled := RetryDelay(retry, k), RetryDelay(retry, k) * retry.scale / retry.unit;
      RetryDelay(retry, k + 1) == if d == retry.maxDelay then d else Min(Max(1, scaled), retry.maxDelay)
  {
    var d := RetryDelay(retry, k);
    if d < retry.maxDelay {
      ScaledBelow(d, retry.scale, retry.unit, retry.maxDelay);
    }
  }

  /** A quotient is below a limit exactly when the product is below it. */
  lemma ScaledBelow(v: nat, scale: nat, unit: Positive, limit: nat)
    ensures v * scale / unit < limit <==> v * scale < limit * unit
  {
    var p := v * scale;
    var q := p / unit;
    assert p == unit * q + p % unit;
    if q >= limit {
      MultiplyMonotone(unit, limit, q);
    } else {
      MultiplyMonotone(unit, q + 1, limit);
    }
  }

  function Power(base: nat, k: nat): nat {
    if k == 0 then 1 else base * Power(base, k - 1)
  }

  /** With a whole multiplier the delays grow exponentially up to the limit. */
  lemma {:induction false} DelayIsExponential(retry: Retry, k: nat)
    requires k >= 1 && retry.unit == 1 && retry.scale >= 1 && retry.initialDelay >= 1 && retry.maxDelay >= 1
    ensures RetryDelay(retry, k) == Min(retry.initialDelay * Power(retry.scale, k - 1), retry.maxDelay)
    decreases k
  {
    if k == 1 {
      assert Power(retry.scale, 0) == 1;
    } else {
      DelayIsExponential(retry, k - 1);
      DelayLaw(retry, k - 1);
      var p := retry.initialDelay * Power(retry.scale, k - 2);
      ProductRegrouped(retry.initialDelay, retry.scale, Power(retry.scale, k - 2));
      PowerPositive(retry.scale, k - 2);
      GrowsOrStays(p, retry.scale, retry.maxDelay);
      MultiplyMonotone(retry.initialDelay, 1, Power(retry.scale, k - 2));
    }
  }

  lemma {:induction false} PowerPositive(base: nat, k: nat)
    requires base >= 1
    ensures Power(base, k) >= 1
    decreases k
  {
    if k > 0 {
      PowerPositive(base, k - 1);
      MultiplyMonotone(base, 1, Power(base, k - 1));
    }
  }

  lemma ProductRegrouped(a: nat, b: nat, c: nat)
    ensures a * (b * c) == (a * c) * b
  {
  }

  lemma GrowsOrStays(p: nat, scale: nat, limit: nat)
    requires p >= 1 && scale >= 1
    ensures p * scale >= p
  {
    MultiplyMonotone(p, 1, scale);
  }

  // ----- compaction

  /** Ended, in any of the four ways. */
  predicate HasEnded(e: Entry) {
    e.state in {Acknowledged, Failed, Expired, CommandState.Cancelled}
  }

  /** The ended commands with smaller identifiers. */
  ghost function EndedBelow(entries: map<uint64, Entry>, ids: set<uint64>, id: uint64): set<uint64> {
    set i | i in ids && i in entries && i < id
  }

  lemma {:induction false} DroppedExactly(entries: map<uint64, Entry>, ids: set<uint64>, count: nat, id: uint64)
    requires ids <= entries.Keys && id in entries
    ensures var kept := Dropped(entries, ids, count);
      && (id in kept <==> !(id in ids && |EndedBelow(entries, ids, id)| < count))
      && (id in kept ==> kept[id] == entries[id])
      && kept.Keys <= entries.Keys
    decreases |ids|
  {
    if ids != {} && count > 0 {
      var next := Least(ids);
      if id == next {
        assert EndedBelow(entries, ids, id) == {};
        DroppedNever(entries - {next}, ids - {next}, count - 1, id);
      } else {
        DroppedExactly(entries - {next}, ids - {next}, count - 1, id);
        if id in ids {
          assert EndedBelow(entries, ids, id) == EndedBelow(entries - {next}, ids - {next}, id) + {next};
        }
      }
    }
  }

  lemma {:induction false} DroppedNever(entries: map<uint64, Entry>, ids: set<uint64>, count: nat, id: uint64)
    requires id !in entries
    ensures id !in Dropped(entries, ids, count) && Dropped(entries, ids, count).Keys <= entries.Keys
    decreases |ids|
  {
    if ids != {} && count > 0 {
      DroppedNever(entries - {Least(ids)}, ids - {Least(ids)}, count - 1, id);
    }
  }

  /** Compaction removes a command if and only if it has ended and fewer ended ones have smaller identifiers
      than there are commands too many; it changes nothing else. */
  lemma CompactedExactly(s: State, keep: nat, id: uint64)
    requires id in s.entries
    ensures var t, ended := Compact(s, keep), set i | i in s.entries && HasEnded(s.entries[i]) && i < id;
      && (id !in t.entries <==> HasEnded(s.entries[id]) && |ended| + keep < |s.entries|)
      && (id in t.entries ==> t.entries[id] == s.entries[id])
      && t.entries.Keys <= s.entries.Keys && t.stats == s.stats && t.nextId == s.nextId
  {
    var ended := set i | i in s.entries && HasEnded(s.entries[i]) && i < id;
    if |s.entries| > keep {
      DroppedExactly(s.entries, TerminalIds(s.entries), |s.entries| - keep, id);
      assert EndedBelow(s.entries, TerminalIds(s.entries), id) == ended;
    }
  }

  // ----- answers and counters

  /** A cancellation says yes if and only if the command is active, and counts it. */
  lemma CancelAnswered(s: State, id: uint64)
    ensures var (done, t) := Cancel(s, id);
      && (done <==> id in s.entries && IsActive(s.entries[id]))
      && (!done ==> t == s)
      && t.stats == s.stats.(cancelled := s.stats.cancelled + (if done then 1 else 0))
  {
  }

  /** Every dispatch is counted. */
  lemma DispatchesCounted(s: State, config: Config, now: uint64, count: nat)
    ensures var (out, t) := Due(s, config, now, count);
      t.stats.dispatched == s.stats.dispatched + |out|
  {
    DueEndings(s, config, now, s.entries.Keys, count, Failed);
  }

  /** Active, and past its expiry. */
  predicate RunsOut(e: Entry, now: uint64) {
    IsActive(e) && IsPast(e, now)
  }

  lemma {:induction false} RunningOutAmong(entries: map<uint64, Entry>, rest: set<uint64>, now: uint64, f: Entry)
    requires rest <= entries.Keys
    ensures f in Expiring(entries, rest, now)
        <==> exists id :: id in rest && RunsOut(entries[id], now) && entries[id].(state := Expired) == f
    decreases |rest|
  {
    if rest != {} {
      RunningOutAmong(entries, rest - {Least(rest)}, now, f);
    }
  }

  /** The entries returned by a sweep are exactly those that expire, as they then are. */
  lemma ExpiredExactly(s: State, now: uint64, f: Entry)
    ensures f in Expire(s, now).0
        <==> exists id :: id in s.entries && RunsOut(s.entries[id], now) && s.entries[id].(state := Expired) == f
  {
    RunningOutAmong(s.entries, s.entries.Keys, now, f);
  }
}
