/** The journal class of src/control/command_journal.cpp, each method proved to make the transition
    of module Journal. */
module CommandJournalClass {
  import opened Words
  import opened Wrappers
  import opened OrderedMaps
  import opened Journal

  /** How far the expiry loop has come: `rest` is still to be visited. */
  ghost function Swept(entries: map<uint64, Entry>, rest: set<uint64>, now: uint64): map<uint64, Entry> {
    map id | id in entries :: if id in rest then entries[id] else Aged(entries[id], now)
  }

  lemma SweptAll(entries: map<uint64, Entry>, now: uint64)
    ensures Swept(entries, entries.Keys, now) == entries
    ensures Swept(entries, {}, now) == map id | id in entries :: Aged(entries[id], now)
  {
  }

  lemma SweptOne(entries: map<uint64, Entry>, rest: set<uint64>, now: uint64, id: uint64)
    requires id in rest && id in entries
    ensures Swept(entries, rest - {id}, now) == Swept(entries, rest, now)[id := Aged(entries[id], now)]
  {
  }

  /** One step of the expiry loop: what has gone so far, and what is still to go. */
  lemma GoneOne(entries: map<uint64, Entry>, rest: set<uint64>, now: uint64, gone: seq<Entry>, all: seq<Entry>)
    requires rest <= entries.Keys && rest != {} && all == gone + Expiring(entries, rest, now)
    ensures var e := entries[Least(rest)];
      all == (if Aged(e, now) != e then gone + [Aged(e, now)] else gone)
             + Expiring(entries, rest - {Least(rest)}, now)
  {
    var e := entries[Least(rest)];
    var later := Expiring(entries, rest - {Least(rest)}, now);
    if Aged(e, now) != e {
      assert Expiring(entries, rest, now) == [Aged(e, now)] + later;
      OneMore(gone, Aged(e, now), later);
    } else {
      assert Expiring(entries, rest, now) == [] + later == later;
    }
  }

  lemma GoneAll(entries: map<uint64, Entry>, now: uint64, gone: seq<Entry>, all: seq<Entry>)
    requires all == gone + Expiring(entries, {}, now)
    ensures all == gone
  {
  }

  lemma OneMore<T>(a: seq<T>, x: T, b: seq<T>)
    ensures a + ([x] + b) == a + [x] + b
  {
  }

  class CommandJournal {
    const config: Config
    var entries: map<uint64, Entry>
    var stats: Stats
    var nextId: uint64

    ghost function Value(): State
      reads this
    {
      State(entries, stats, nextId)
    }

    constructor (config: Config)
      ensures Value() == START && this.config == config
    {
      this.config := config;
      entries, stats, nextId := map[], NO_STATS, 1;
    }

    method SaturatingMultiply(value: uint64) returns (scaled: uint64)
      ensures scaled == Grown(value, config.retry)
    {
      var limit := config.retry.maxDelay;
      if value >= limit || value * config.retry.scale >= limit * config.retry.unit {
        return limit;
      }
      GrownFits(value, config.retry);
      scaled := Max(1, value * config.retry.scale / config.retry.unit);
    }

    method DelayFor(attempts: uint32) returns (delay: uint64)
      ensures delay == RetryDelay(config.retry, attempts)
    {
      delay := config.retry.initialDelay;
      if attempts == 0 {
        return;
      }
      for i := 1 to attempts
        invariant delay == RawDelay(config.retry, i)
      {
        delay := SaturatingMultiply(delay);
      }
      delay := Min(delay, config.retry.maxDelay);
    }

    method HasDuplicateActive(c: Command) returns (found: bool)
      ensures found == DuplicateActive(entries, c)
    {
      var rest := entries.Keys;
      while rest != {}
        invariant rest <= entries.Keys
        invariant forall id | id in entries && id !in rest :: !ActiveTwin(entries[id], c)
        decreases |rest|
      {
        var id := Least(rest);
        if !Terminal(entries[id].state) && SameIntent(entries[id].command, c) {
          assert ActiveTwin(entries[id], c);
          return true;
        }
        rest := rest - {id};
      }
      found := false;
    }

    method AppendCommand(c: Command) returns (id: Option<uint64>)
      modifies this
      ensures (id, Value()) == Append(old(Value()), config, c)
    {
      if |entries| >= config.maxEntries {
        return None;
      }
      var duplicate := HasDuplicateActive(c);
      if duplicate || (c.id != 0 && c.id in entries) {
        stats := stats.(duplicates := stats.duplicates + 1);
        return None;
      }
      var given: uint64 := c.id;
      if given == 0 {
        given := nextId;
        nextId := Wrap64(nextId + 1);
      } else {
        nextId := Max(nextId, Wrap64(given + 1));
      }
      var expires := c.expires;
      if expires == 0 {
        expires := Wrap64(c.created + config.defaultTtl);
      }
      entries := entries[given := Entry(c.(id := given, expires := expires), Pending, 0, 0, c.created)];
      stats := stats.(appended := stats.appended + 1);
      id := Some(given);
    }

    /** The body of the dispatch loop for one entry. */
    method Visit(id: uint64, now: uint64) returns (sent: Option<Dispatch>)
      requires id in entries
      modifies this
      ensures Value() == DueOne(old(Value()), config, now, id)
      ensures sent == if DispatchesNow(old(entries)[id], config, now)
        then Some(Dispatch(id, entries[id].attempts, now, entries[id].nextAttempt)) else None
    {
      var e := entries[id];
      if Terminal(e.state) {
        assert entries[id := e] == entries;
        return None;
      }
      if e.command.expires != 0 && now >= e.command.expires {
        entries := entries[id := e.(state := Expired)];
        stats := stats.(expired := stats.expired + 1);
        return None;
      }
      if e.nextAttempt > now {
        assert entries[id := e] == entries;
        return None;
      }
      if e.attempts >= config.retry.maxAttempts {
        entries := entries[id := e.(state := Failed)];
        stats := stats.(failed := stats.failed + 1);
        return None;
      }
      var delay := DelayFor(e.attempts + 1);
      var next := Wrap64(now + delay);
      entries := entries[id := e.(attempts := e.attempts + 1, state := Sent, lastSend := now, nextAttempt := next)];
      stats := stats.(dispatched := stats.dispatched + 1);
      sent := Some(Dispatch(id, e.attempts + 1, now, next));
    }

    method DueCommands(now: uint64, count: nat) returns (dispatches: seq<Dispatch>)
      modifies this
      ensures (dispatches, Value()) == Due(old(Value()), config, now, count)
    {
      dispatches := [];
      var rest := entries.Keys;
      ghost var all := Due(Value(), config, now, count);
      assert all.0 == dispatches + all.0;
      while rest != {} && |dispatches| < count
        invariant rest <= entries.Keys && |dispatches| <= count
        invariant all.0 == dispatches + DueScan(Value(), config, now, rest, count - |dispatches|).0
        invariant all.1 == DueScan(Value(), config, now, rest, count - |dispatches|).1
        decreases |rest|
      {
        var id := Least(rest);
        var sent := Visit(id, now);
        rest := rest - {id};
        if sent.Some? {
          OneMore(dispatches, sent.value, DueScan(Value(), config, now, rest, count - |dispatches| - 1).0);
          dispatches := dispatches + [sent.value];
        }
      }
      assert all.0 == dispatches;
    }

    method AcknowledgeCommand(ack: Ack) returns (matched: bool, state: CommandState)
      modifies this
      ensures (matched, state, Value()) == Acknowledge(old(Value()), config, ack)
    {
      if ack.id !in entries {
        return false, Pending;
      }
      var e := entries[ack.id];
      if e.command.device != ack.device {
        return false, e.state;
      }
      if Terminal(e.state) {
        return true, e.state;
      }
      match ack.status {
        case Accepted =>
          e := e.(state := Acknowledged);
          stats := stats.(acknowledged := stats.acknowledged + 1);
        case Busy =>
          var delay := DelayFor(Wrap32(e.attempts + 1));
          e := e.(state := Pending, nextAttempt := Wrap64(ack.time + delay));
        case _ =>
          e := e.(state := Failed);
          stats := stats.(failed := stats.failed + 1);
      }
      entries := entries[ack.id := e];
      return true, e.state;
    }

    method CancelCommand(id: uint64) returns (done: bool)
      modifies this
      ensures (done, Value()) == Cancel(old(Value()), id)
    {
      if id !in entries || Terminal(entries[id].state) {
        return false;
      }
      entries := entries[id := entries[id].(state := Cancelled)];
      stats := stats.(cancelled := stats.cancelled + 1);
      done := true;
    }

    /** The body of the expiry loop for one entry. */
    method AgeEntry(id: uint64, now: uint64) returns (gone: Option<Entry>)
      requires id in entries
      modifies this
      ensures nextId == old(nextId) && entries == old(entries)[id := Aged(old(entries)[id], now)]
      ensures gone == if Aged(old(entries)[id], now) != old(entries)[id] then Some(entries[id]) else None
      ensures stats == if gone.Some? then old(stats).(expired := old(stats).expired + 1) else old(stats)
    {
      var e := entries[id];
      if Terminal(e.state) || e.command.expires == 0 || now < e.command.expires {
        assert entries[id := e] == entries;
        return None;
      }
      e := e.(state := Expired);
      entries := entries[id := e];
      stats := stats.(expired := stats.expired + 1);
      gone := Some(e);
    }

    method ExpireCommands(now: uint64) returns (gone: seq<Entry>)
      modifies this
      ensures (gone, Value()) == Expire(old(Value()), now)
    {
      gone := [];
      var rest := entries.Keys;
      ghost var before, counted, all := entries, stats, Expiring(entries, rest, now);
      SweptAll(before, now);
      assert all == gone + all;
      while rest != {}
        invariant rest <= before.Keys && nextId == old(nextId)
        invariant entries == Swept(before, rest, now)
        invariant stats == counted.(expired := counted.expired + |gone|)
        invariant all == gone + Expiring(before, rest, now)
        decreases |rest|
      {
        var id := Least(rest);
        SweptOne(before, rest, now, id);
        GoneOne(before, rest, now, gone, all);
        assert entries[id] == before[id];
        var e := AgeEntry(id, now);
        rest := rest - {id};
        if e.Some? {
          gone := gone + [e.value];
        }
      }
      GoneAll(before, now, gone, all);
    }

    method CompactCompleted(keepRecent: nat)
      modifies this
      ensures Value() == Compact(old(Value()), keepRecent)
    {
      if |entries| <= keepRecent {
        return;
      }
      var done := set id | id in entries && Terminal(entries[id].state);
      assert done == TerminalIds(entries);
      var removable := |entries| - keepRecent;
      var removed := 0;
      while done != {} && removed < removable
        invariant removed <= removable && stats == old(stats) && nextId == old(nextId)
        invariant Compact(old(Value()), keepRecent).entries == Dropped(entries, done, removable - removed)
        decreases |done|
      {
        var id := Least(done);
        entries := entries - {id};
        done := done - {id};
        removed := removed + 1;
      }
    }

    method Clear()
      modifies this
      ensures Value() == START
    {
      entries, stats, nextId := map[], NO_STATS, 1;
    }
  }
}
