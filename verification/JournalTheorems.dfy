/** What the command journal keeps over every run, and how far apart it sends a command. */
module JournalTheorems {
  import opened Words
  import opened OrderedMaps
  import opened Journal

  datatype Op =
    | OpAppend(command: Command)
    | OpDue(now: uint64, count: nat)
    | OpAck(ack: Ack)
    | OpCancel(id: uint64)
    | OpExpire(now: uint64)
    | OpCompact(keepRecent: nat)

  function Apply(s: State, config: Config, op: Op): State {
    match op
    case OpAppend(c) => Append(s, config, c).1
    case OpDue(now, count) => Due(s, config, now, count).1
    case OpAck(ack) => Acknowledge(s, config, ack).2
    case OpCancel(id) => Cancel(s, id).1
    case OpExpire(now) => Expire(s, now).1
    case OpCompact(keep) => Compact(s, keep)
  }

  function RunOps(s: State, config: Config, ops: seq<Op>): State
    decreases |ops|
  {
    if |ops| == 0 then s else RunOps(Apply(s, config, ops[0]), config, ops[1..])
  }

  // ----- every appended command is accounted for

  ghost function Active(entries: map<uint64, Entry>): set<uint64> {
    set id | id in entries && !Terminal(entries[id].state)
  }

  /** Appended commands are active, or ended in one of the four counted ways. */
  ghost predicate Accounted(s: State) {
    s.stats.appended
    == |Active(s.entries)| + s.stats.acknowledged + s.stats.failed + s.stats.expired + s.stats.cancelled
  }

  lemma ActiveSet(entries: map<uint64, Entry>, id: uint64, e: Entry)
    ensures |Active(entries[id := e])|
         == |Active(entries)| - (if id in Active(entries) then 1 else 0) + (if Terminal(e.state) then 0 else 1)
  {
    var before, after := Active(entries), Active(entries[id := e]);
    if Terminal(e.state) {
      assert after == before - {id};
    } else {
      assert after == before + {id};
    }
  }

  lemma {:induction false} DueAccounted(s: State, config: Config, now: uint64, rest: set<uint64>, room: nat)
    requires Accounted(s) && rest <= s.entries.Keys
    ensures Accounted(DueScan(s, config, now, rest, room).1)
    decreases |rest|
  {
    if rest != {} && room > 0 {
      var id := Least(rest);
      var t := DueOne(s, config, now, id);
      ActiveSet(s.entries, id, t.entries[id]);
      assert Accounted(t);
      DueAccounted(t, config, now, rest - {id}, if DispatchesNow(s.entries[id], config, now) then room - 1 else room);
    }
  }

  /** The entries once those of `rest` have been aged. */
  ghost function AgedIn(entries: map<uint64, Entry>, rest: set<uint64>, now: uint64): map<uint64, Entry> {
    map id | id in entries :: if id in rest then Aged(entries[id], now) else entries[id]
  }

  /** Ageing moves exactly the expiring entries out of the active set. */
  lemma {:induction false} ExpiringCount(entries: map<uint64, Entry>, rest: set<uint64>, now: uint64)
    requires rest <= entries.Keys
    ensures |Active(AgedIn(entries, rest, now))| + |Expiring(entries, rest, now)| == |Active(entries)|
    decreases |rest|
  {
    if rest == {} {
      assert AgedIn(entries, rest, now) == entries;
    } else {
      var id := Least(rest);
      var fewer := AgedIn(entries, rest - {id}, now);
      var e := entries[id];
      ExpiringCount(entries, rest - {id}, now);
      assert AgedIn(entries, rest, now) == fewer[id := Aged(e, now)];
      ActiveSet(fewer, id, Aged(e, now));
      assert fewer[id] == e;
      assert Aged(e, now) != e <==> !Terminal(e.state) && PastExpiry(e, now);
      assert id in Active(fewer) <==> !Terminal(e.state);
    }
  }

  lemma {:induction false} DroppedActive(entries: map<uint64, Entry>, ids: set<uint64>, count: nat)
    requires forall id | id in ids && id in entries :: Terminal(entries[id].state)
    ensures Active(Dropped(entries, ids, count)) == Active(entries)
    ensures Dropped(entries, ids, count).Keys <= entries.Keys
    ensures forall id | id in Dropped(entries, ids, count) :: Dropped(entries, ids, count)[id] == entries[id]
    decreases |ids|
  {
    if ids != {} && count > 0 {
      DroppedActive(entries - {Least(ids)}, ids - {Least(ids)}, count - 1);
    }
  }

  /** Appending overwrites an active entry: possible only once the identifiers have wrapped. */
  predicate Clobbers(s: State, config: Config, op: Op) {
    && op.OpAppend? && |s.entries| < config.maxEntries && !Refused(s, op.command)
    && op.command.id == 0 && s.nextId in s.entries && !Terminal(s.entries[s.nextId].state)
  }

  lemma SetAccounted(s: State, id: uint64, e: Entry, stats: Stats)
    requires Accounted(s) && id in s.entries && !Terminal(s.entries[id].state) && stats.appended == s.stats.appended
    requires stats.acknowledged + stats.failed + stats.expired + stats.cancelled
          == s.stats.acknowledged + s.stats.failed + s.stats.expired + s.stats.cancelled
             + (if Terminal(e.state) then 1 else 0)
    ensures Accounted(s.(entries := s.entries[id := e], stats := stats))
  {
    ActiveSet(s.entries, id, e);
  }

  /** Every operation keeps the account, except exactly an append that is handed the identifier of
      an active command. */
  lemma AccountedExactly(s: State, config: Config, op: Op)
    requires Accounted(s)
    ensures Accounted(Apply(s, config, op)) <==> !Clobbers(s, config, op)
  {
    match op
    case OpAppend(c) =>
      if |s.entries| < config.maxEntries && !Refused(s, c) {
        var id := AssignedId(s, c);
        ActiveSet(s.entries, id, Fresh(c, id, config));
        assert id in Active(s.entries) <==> Clobbers(s, config, op);
      }
    case OpDue(now, count) => DueAccounted(s, config, now, s.entries.Keys, count);
    case OpAck(ack) =>
      if ack.id in s.entries && !Terminal(s.entries[ack.id].state) && s.entries[ack.id].command.device == ack.device {
        SetAccounted(s, ack.id, Acked(s.entries[ack.id], config, ack), AckStats(s.stats, ack.status));
      }
    case OpCancel(id) =>
      if id in s.entries && !Terminal(s.entries[id].state) {
        SetAccounted(s, id, s.entries[id].(state := Cancelled), s.stats.(cancelled := s.stats.cancelled + 1));
      }
    case OpExpire(now) =>
      ExpiringCount(s.entries, s.entries.Keys, now);
      assert Expire(s, now).1.entries == AgedIn(s.entries, s.entries.Keys, now);
    case OpCompact(keep) =>
      if |s.entries| > keep {
        DroppedActive(s.entries, TerminalIds(s.entries), |s.entries| - keep);
      }
  }

  // ----- what an operation may do to an entry

  /** An entry keeps its command, never leaves a terminal state, and is sent only below the limit. */
  predicate EntryStep(e: Entry, f: Entry, config: Config) {
    && f.command == e.command
    && (Terminal(e.state) ==> f == e)
    && (f.attempts == e.attempts || e.attempts < f.attempts <= config.retry.maxAttempts)
  }

  ghost predicate Evolves(a: map<uint64, Entry>, b: map<uint64, Entry>, config: Config) {
    b.Keys <= a.Keys && forall id | id in b :: EntryStep(a[id], b[id], config)
  }

  lemma {:induction false} DueEvolves(s: State, config: Config, now: uint64, rest: set<uint64>, room: nat)
    requires rest <= s.entries.Keys
    ensures Evolves(s.entries, DueScan(s, config, now, rest, room).1.entries, config)
    ensures DueScan(s, config, now, rest, room).1.nextId == s.nextId
    decreases |rest|
  {
    if rest != {} && room > 0 {
      var id := Least(rest);
      var t := DueOne(s, config, now, id);
      var left := if DispatchesNow(s.entries[id], config, now) then room - 1 else room;
      DueEvolves(t, config, now, rest - {id}, left);
      assert DueScan(s, config, now, rest, room).1 == DueScan(t, config, now, rest - {id}, left).1;
      assert Evolves(s.entries, t.entries, config);
    }
  }

  /** No operation but an append adds an entry, changes a command, or touches a terminal entry other
      than by removing it. */
  lemma OthersEvolve(s: State, config: Config, op: Op)
    requires !op.OpAppend?
    ensures Evolves(s.entries, Apply(s, config, op).entries, config)
    ensures Apply(s, config, op).nextId == s.nextId
  {
    match op
    case OpDue(now, count) => DueEvolves(s, config, now, s.entries.Keys, count);
    case OpCompact(keep) =>
      if |s.entries| > keep {
        DroppedActive(s.entries, TerminalIds(s.entries), |s.entries| - keep);
      }
    case _ =>
  }

  // ----- identifiers

  ghost predicate IdsBelow(s: State) {
    forall id | id in s.entries :: id < s.nextId
  }

  predicate Taken(s: State, config: Config, op: Op) {
    op.OpAppend? && |s.entries| < config.maxEntries && !Refused(s, op.command)
  }

  /** The command gets the largest identifier there is. */
  predicate ReachesTop(s: State, config: Config, op: Op) {
    Taken(s, config, op) && AssignedId(s, op.command) == MAX_64
  }

  /** Every identifier stays below the next one, except exactly when the largest is handed out. */
  lemma IdsBelowExactly(s: State, config: Config, op: Op)
    requires IdsBelow(s)
    ensures IdsBelow(Apply(s, config, op)) <==> !ReachesTop(s, config, op)
  {
    if !op.OpAppend? {
      OthersEvolve(s, config, op);
    } else if Taken(s, config, op) {
      var id := AssignedId(s, op.command);
      assert id in Apply(s, config, op).entries;
    }
  }

  // ----- everything a reachable journal satisfies

  ghost predicate NoTwins(entries: map<uint64, Entry>) {
    forall i, j | i in entries && j in entries && i != j ::
      Terminal(entries[j].state) || !ActiveTwin(entries[i], entries[j].command)
  }

  ghost predicate Tagged(entries: map<uint64, Entry>) {
    forall id | id in entries :: entries[id].command.id == id
  }

  ghost predicate AttemptsBounded(entries: map<uint64, Entry>, config: Config) {
    forall id | id in entries :: entries[id].attempts <= config.retry.maxAttempts
  }

  ghost predicate Sound(s: State, config: Config) {
    && Accounted(s)
    && IdsBelow(s)
    && NoTwins(s.entries)
    && Tagged(s.entries)
    && AttemptsBounded(s.entries, config)
  }

  lemma EvolvesKeepsTwins(a: map<uint64, Entry>, b: map<uint64, Entry>, config: Config)
    requires NoTwins(a) && Evolves(a, b, config)
    ensures NoTwins(b)
  {
    forall i, j | i in b && j in b && i != j
      ensures Terminal(b[j].state) || !ActiveTwin(b[i], b[j].command)
    {
      assert EntryStep(a[i], b[i], config) && EntryStep(a[j], b[j], config);
      assert Terminal(a[j].state) || !ActiveTwin(a[i], a[j].command);
    }
  }

  lemma AppendKeepsTwins(entries: map<uint64, Entry>, id: uint64, c: Command, config: Config)
    requires NoTwins(entries) && !DuplicateActive(entries, c)
    ensures NoTwins(entries[id := Fresh(c, id, config)])
  {
    var e := Fresh(c, id, config);
    var after := entries[id := e];
    assert SameIntent(e.command, c);
    forall i, j | i in after && j in after && i != j
      ensures Terminal(after[j].state) || !ActiveTwin(after[i], after[j].command)
    {
      if j == id {
        assert !ActiveTwin(entries[i], c);
      } else if i == id {
        assert !ActiveTwin(entries[j], c);
      } else {
        assert Terminal(entries[j].state) || !ActiveTwin(entries[i], entries[j].command);
      }
    }
  }

  lemma SoundStep(s: State, config: Config, op: Op)
    requires Sound(s, config) && !ReachesTop(s, config, op)
    ensures Sound(Apply(s, config, op), config)
  {
    AccountedExactly(s, config, op);
    IdsBelowExactly(s, config, op);
    if !op.OpAppend? {
      OthersEvolve(s, config, op);
      EvolvesKeepsTwins(s.entries, Apply(s, config, op).entries, config);
    } else if Taken(s, config, op) {
      AppendKeepsTwins(s.entries, AssignedId(s, op.command), op.command, config);
    }
  }

  ghost predicate NeverAtTop(s: State, config: Config, ops: seq<Op>)
    decreases |ops|
  {
    |ops| == 0 || (!ReachesTop(s, config, ops[0]) && NeverAtTop(Apply(s, config, ops[0]), config, ops[1..]))
  }

  lemma {:induction false} RunSoundFrom(s: State, config: Config, ops: seq<Op>)
    requires Sound(s, config) && NeverAtTop(s, config, ops)
    ensures Sound(RunOps(s, config, ops), config)
    decreases |ops|
  {
    if |ops| > 0 {
      SoundStep(s, config, ops[0]);
      RunSoundFrom(Apply(s, config, ops[0]), config, ops[1..]);
    }
  }

  /** Every run of a new journal accounts for every command, keeps identifiers below the next one,
      holds no two active commands with one intent and sends no command too often. */
  lemma RunSound(config: Config, ops: seq<Op>)
    requires NeverAtTop(START, config, ops)
    ensures Sound(RunOps(START, config, ops), config)
  {
    assert Active(START.entries) == {};
    RunSoundFrom(START, config, ops);
  }

  // ----- the operation that breaks the account can be reached

  /** Commands for different devices never have one intent. */
  function Plain(id: uint64, device: uint64, kind: nat): Command {
    Command(id, kind, device, 0, 0, [], "")
  }

  lemma {:induction false} RunTwo(s: State, config: Config, a: seq<Op>, b: seq<Op>)
    ensures RunOps(s, config, a + b) == RunOps(RunOps(s, config, a), config, b)
    decreases |a|
  {
    if |a| == 0 {
      assert a + b == b;
    } else {
      assert (a + b)[0] == a[0] && (a + b)[1..] == a[1..] + b;
      RunTwo(Apply(s, config, a[0]), config, a[1..], b);
    }
  }

  lemma RunOne(s: State, config: Config, op: Op)
    ensures RunOps(s, config, [op]) == Apply(s, config, op)
  {
    assert [op][1..] == [];
    assert RunOps(Apply(s, config, op), config, []) == Apply(s, config, op);
  }

  /** At most `devices` entries, all pending and for devices below that. */
  ghost predicate Pendings(entries: map<uint64, Entry>, devices: nat) {
    && |entries| <= devices
    && forall id | id in entries :: entries[id].command.device < devices && entries[id].state == Pending
  }

  lemma PendingsAdd(entries: map<uint64, Entry>, devices: nat, id: uint64, e: Entry)
    requires Pendings(entries, devices) && e.command.device == devices && e.state == Pending
    ensures Pendings(entries[id := e], devices + 1) && entries[id := e].Keys == entries.Keys + {id}
  {
    var more := entries[id := e];
    assert more.Keys == entries.Keys + {id} && |more| == |more.Keys| && |entries| == |entries.Keys|;
  }

  /** So the entries are, and this is the next identifier. */
  ghost predicate Filled(s: State, devices: nat, next: uint64) {
    Pendings(s.entries, devices) && s.nextId == next
  }

  lemma PlainAppend(s: State, config: Config, c: Command)
    requires |s.entries| < config.maxEntries && !DuplicateActive(s.entries, c) && (c.id == 0 || c.id !in s.entries)
    ensures var t, id := Apply(s, config, OpAppend(c)), AssignedId(s, c);
      && t.entries == s.entries[id := Fresh(c, id, config)]
      && t.nextId == (if c.id == 0 then Wrap64(s.nextId + 1) else Max(s.nextId, Wrap64(c.id + 1)))
  {
  }

  lemma FilledAppend(s: State, config: Config, device: uint64, next: uint64, id: uint64, kind: nat)
    requires Filled(s, device, next) && device < config.maxEntries && (id == 0 || id !in s.entries)
    ensures var t := Apply(s, config, OpAppend(Plain(id, device, kind)));
      && Filled(t, device + 1, if id == 0 then Wrap64(next + 1) else Max(next, Wrap64(id + 1)))
      && t.entries.Keys == s.entries.Keys + {if id == 0 then next else id}
  {
    var c := Plain(id, device, kind);
    assert !DuplicateActive(s.entries, c);
    PlainAppend(s, config, c);
    PendingsAdd(s.entries, device, AssignedId(s, c), Fresh(c, AssignedId(s, c), config));
  }

  /** One more append after a run. */
  lemma FilledNext(s: State, config: Config, ops: seq<Op>, device: uint64, next: uint64, id: uint64, kind: nat)
    requires Filled(RunOps(s, config, ops), device, next) && device < config.maxEntries
    requires id == 0 || id !in RunOps(s, config, ops).entries
    ensures var t := RunOps(s, config, ops + [OpAppend(Plain(id, device, kind))]);
      && Filled(t, device + 1, if id == 0 then Wrap64(next + 1) else Max(next, Wrap64(id + 1)))
      && t.entries.Keys == RunOps(s, config, ops).entries.Keys + {if id == 0 then next else id}
  {
    var op := OpAppend(Plain(id, device, kind));
    FilledAppend(RunOps(s, config, ops), config, device, next, id, kind);
    RunTwo(s, config, ops, [op]);
    RunOne(RunOps(s, config, ops), config, op);
  }

  /** A first command and the largest identifier but one. */
  function LargestRun(kind: nat): seq<Op> {
    [] + [OpAppend(Plain(0, 0, kind))] + [OpAppend(Plain(MAX_64 - 1, 1, kind))]
  }

  lemma LargestFilled(s: State, config: Config, kind: nat)
    requires s.entries == map[] && s.nextId == 1 && config.maxEntries > 4
    ensures Filled(RunOps(s, config, LargestRun(kind)), 2, MAX_64)
    ensures 1 in RunOps(s, config, LargestRun(kind)).entries
  {
    assert RunOps(s, config, []) == s;
    FilledNext(s, config, [], 0, 1, 0, kind);
    FilledNext(s, config, [] + [OpAppend(Plain(0, 0, kind))], 1, 2, MAX_64 - 1, kind);
  }

  /** Then a command that takes the largest identifier, and one that takes zero, so that the next is
      1 again. */
  function LastRun(kind: nat): seq<Op> {
    [OpAppend(Plain(0, 2, kind))] + [OpAppend(Plain(0, 3, kind))]
  }

  lemma LastFilled(s: State, config: Config, kind: nat)
    requires Filled(s, 2, MAX_64) && 1 in s.entries && config.maxEntries > 4
    ensures Filled(RunOps(s, config, LastRun(kind)), 4, 1) && 1 in RunOps(s, config, LastRun(kind)).entries
  {
    var a, b := OpAppend(Plain(0, 2, kind)), OpAppend(Plain(0, 3, kind));
    FilledAppend(s, config, 2, MAX_64, 0, kind);
    FilledAppend(Apply(s, config, a), config, 3, 0, 0, kind);
    RunTwo(s, config, [a], [b]);
    RunOne(s, config, a);
    RunOne(Apply(s, config, a), config, b);
  }

  lemma FilledClobbers(s: State, config: Config, device: uint64, kind: nat)
    requires Filled(s, device, 1) && 1 in s.entries && device < config.maxEntries
    ensures Clobbers(s, config, OpAppend(Plain(0, device, kind)))
  {
    assert !DuplicateActive(s.entries, Plain(0, device, kind));
  }

  /** Identifiers that wrap do hit an active command: from a new journal with room for five, this run
      leads to a state in which appending one more command breaks the account. */
  lemma ClobberIsReachable(config: Config, kind: nat)
    requires config.maxEntries > 4
    ensures Clobbers(RunOps(START, config, LargestRun(kind) + LastRun(kind)), config, OpAppend(Plain(0, 4, kind)))
  {
    LargestFilled(START, config, kind);
    LastFilled(RunOps(START, config, LargestRun(kind)), config, kind);
    RunTwo(START, config, LargestRun(kind), LastRun(kind));
    FilledClobbers(RunOps(START, config, LargestRun(kind) + LastRun(kind)), config, 4, kind);
  }

  // ----- terminal states are final

  /** No operation appends a command under the identifier `id` itself. */
  ghost predicate NeverReused(ops: seq<Op>, id: uint64) {
    forall i | 0 <= i < |ops| :: ops[i].OpAppend? ==> ops[i].command.id != id || id == 0
  }

  lemma FinalStep(s: State, config: Config, op: Op, id: uint64)
    requires IdsBelow(s) && id in s.entries && Terminal(s.entries[id].state)
    requires id in Apply(s, config, op).entries
    ensures Apply(s, config, op).entries[id] == s.entries[id]
  {
    if !op.OpAppend? {
      OthersEvolve(s, config, op);
      assert EntryStep(s.entries[id], Apply(s, config, op).entries[id], config);
    }
  }

  lemma GoneStep(s: State, config: Config, op: Op, id: uint64)
    requires IdsBelow(s) && id < s.nextId && id !in s.entries
    requires op.OpAppend? ==> op.command.id != id || id == 0
    requires !ReachesTop(s, config, op)
    ensures id !in Apply(s, config, op).entries && id < Apply(s, config, op).nextId
  {
    if !op.OpAppend? {
      OthersEvolve(s, config, op);
    }
  }

  lemma {:induction false} GoneForGood(s: State, config: Config, ops: seq<Op>, id: uint64)
    requires IdsBelow(s) && id < s.nextId && id !in s.entries
    requires NeverAtTop(s, config, ops) && NeverReused(ops, id)
    ensures id !in RunOps(s, config, ops).entries
    decreases |ops|
  {
    if |ops| > 0 {
      assert ops[0].OpAppend? ==> ops[0].command.id != id || id == 0;
      IdsBelowExactly(s, config, ops[0]);
      GoneStep(s, config, ops[0], id);
      assert NeverReused(ops[1..], id) by {
        assert forall i | 0 <= i < |ops[1..]| :: ops[1..][i] == ops[i + 1];
      }
      GoneForGood(Apply(s, config, ops[0]), config, ops[1..], id);
    }
  }

  /** A terminal entry is the same after any run that does not reuse its identifier, or it has been
      compacted away. */
  lemma {:induction false} TerminalIsFinal(s: State, config: Config, ops: seq<Op>, id: uint64)
    requires IdsBelow(s) && id in s.entries && Terminal(s.entries[id].state)
    requires NeverAtTop(s, config, ops) && NeverReused(ops, id)
    ensures var t := RunOps(s, config, ops);
      id in t.entries ==> t.entries[id] == s.entries[id]
    decreases |ops|
  {
    if |ops| > 0 {
      var t := Apply(s, config, ops[0]);
      IdsBelowExactly(s, config, ops[0]);
      assert NeverReused(ops[1..], id) by {
        assert forall i | 0 <= i < |ops[1..]| :: ops[1..][i] == ops[i + 1];
      }
      if id in t.entries {
        FinalStep(s, config, ops[0], id);
        TerminalIsFinal(t, config, ops[1..], id);
      } else {
        assert id < s.nextId;
        if !ops[0].OpAppend? {
          OthersEvolve(s, config, ops[0]);
        }
        GoneForGood(t, config, ops[1..], id);
      }
    }
  }

  // ----- which commands one call dispatches

  /** The record of sending entry `id` of `s` now. */
  ghost predicate SendsNow(d: Dispatch, s: State, config: Config, now: uint64) {
    && d.id in s.entries
    && DispatchesNow(s.entries[d.id], config, now)
    && d.time == now
    && d.attempt == s.entries[d.id].attempts + 1
    && d.nextAttempt == Wrap64(now + RetryDelay(config.retry, d.attempt))
  }

  ghost predicate Lists(out: seq<Dispatch>, id: uint64) {
    exists k :: 0 <= k < |out| && out[k].id == id
  }

  ghost predicate AllSendNow(out: seq<Dispatch>, s: State, config: Config, now: uint64, rest: set<uint64>) {
    forall k | 0 <= k < |out| :: out[k].id in rest && SendsNow(out[k], s, config, now)
  }

  ghost predicate Ascending(out: seq<Dispatch>) {
    forall j, k | 0 <= j < k < |out| :: out[j].id < out[k].id
  }

  /** Entry `id` is not passed over: it is listed, or the list is full of smaller ones. */
  ghost predicate NotSkipped(out: seq<Dispatch>, id: uint64, room: nat) {
    Lists(out, id) || (|out| == room && forall k | 0 <= k < |out| :: out[k].id < id)
  }

  ghost predicate NoneSkipped(
    out: seq<Dispatch>, s: State, config: Config, now: uint64, rest: set<uint64>, room: nat) {
    forall id | id in rest && id in s.entries :: DispatchesNow(s.entries[id], config, now) ==> NotSkipped(out, id, room)
  }

  /** `out` lists, in ascending order, the first entries among `rest` that can be sent: all of them,
      unless `room` ran out. */
  ghost predicate FirstOf(
    out: seq<Dispatch>, s: State, config: Config, now: uint64, rest: set<uint64>, room: nat) {
    && |out| <= room
    && AllSendNow(out, s, config, now, rest)
    && Ascending(out)
    && NoneSkipped(out, s, config, now, rest, room)
  }

  /** The states agree on `rest`. */
  ghost predicate Agree(s: State, t: State, rest: set<uint64>) {
    t.entries.Keys == s.entries.Keys && forall i | i in rest && i in s.entries :: t.entries[i] == s.entries[i]
  }

  lemma FirstOfSkip(
    out: seq<Dispatch>, s: State, t: State, config: Config, now: uint64, rest: set<uint64>, room: nat, id: uint64)
    requires id in rest && id in s.entries && !DispatchesNow(s.entries[id], config, now)
    requires Agree(s, t, rest - {id}) && FirstOf(out, t, config, now, rest - {id}, room)
    ensures FirstOf(out, s, config, now, rest, room)
  {
    forall i | i in rest && i in s.entries && DispatchesNow(s.entries[i], config, now)
      ensures NotSkipped(out, i, room)
    {
      assert i in rest - {id} && DispatchesNow(t.entries[i], config, now);
    }
    forall k | 0 <= k < |out|
      ensures out[k].id in rest && SendsNow(out[k], s, config, now)
    {
      assert SendsNow(out[k], t, config, now);
    }
  }

  lemma SendFirst(d: Dispatch, out: seq<Dispatch>, rest: set<uint64>)
    requires (forall i | i in rest :: d.id <= i) && Ascending(out)
    requires forall k | 0 <= k < |out| :: out[k].id in rest - {d.id}
    ensures Ascending([d] + out)
  {
  }

  lemma SendSkipsNone(d: Dispatch, out: seq<Dispatch>, id: uint64, room: nat)
    requires room > 0 && d.id <= id && (id != d.id ==> NotSkipped(out, id, room - 1))
    ensures NotSkipped([d] + out, id, room)
  {
    var all := [d] + out;
    assert all[0] == d;
    if id != d.id && Lists(out, id) {
      var k :| 0 <= k < |out| && out[k].id == id;
      assert all[k + 1].id == id;
    }
  }

  lemma FirstOfSend(
    d: Dispatch, out: seq<Dispatch>, s: State, t: State, config: Config, now: uint64, rest: set<uint64>, room: nat)
    requires d.id in rest && (forall i | i in rest :: d.id <= i) && SendsNow(d, s, config, now) && room > 0
    requires Agree(s, t, rest - {d.id}) && FirstOf(out, t, config, now, rest - {d.id}, room - 1)
    ensures FirstOf([d] + out, s, config, now, rest, room)
  {
    SendFirst(d, out, rest);
    forall i | i in rest && i in s.entries && DispatchesNow(s.entries[i], config, now)
      ensures NotSkipped([d] + out, i, room)
    {
      if i != d.id {
        assert i in rest - {d.id} && DispatchesNow(t.entries[i], config, now);
      }
      SendSkipsNone(d, out, i, room);
    }
    forall k | 0 <= k < |out|
      ensures out[k].id in rest && SendsNow(out[k], s, config, now)
    {
      assert SendsNow(out[k], t, config, now);
    }
    assert AllSendNow([d] + out, s, config, now, rest);
  }

  lemma OneAgrees(s: State, config: Config, now: uint64, id: uint64, rest: set<uint64>)
    requires id in s.entries
    ensures Agree(s, DueOne(s, config, now, id), rest - {id})
    ensures DispatchesNow(s.entries[id], config, now) ==>
      var f := DueOne(s, config, now, id).entries[id];
      SendsNow(Dispatch(id, f.attempts, now, f.nextAttempt), s, config, now)
  {
  }

  /** One call sends, in ascending order and once each, exactly the first entries that are active,
      not past their expiry, due and below the attempt limit, as many as there is room for. */
  lemma {:induction false} ScanSendsFirst(s: State, config: Config, now: uint64, rest: set<uint64>, room: nat)
    requires rest <= s.entries.Keys
    ensures FirstOf(DueScan(s, config, now, rest, room).0, s, config, now, rest, room)
    decreases |rest|
  {
    if rest == {} || room == 0 {
      assert DueScan(s, config, now, rest, room).0 == [];
    } else {
      var id := Least(rest);
      var t := DueOne(s, config, now, id);
      OneAgrees(s, config, now, id, rest);
      if DispatchesNow(s.entries[id], config, now) {
        ScanSendsFirst(t, config, now, rest - {id}, room - 1);
        var f := t.entries[id];
        var more := DueScan(t, config, now, rest - {id}, room - 1).0;
        FirstOfSend(Dispatch(id, f.attempts, now, f.nextAttempt), more, s, t, config, now, rest, room);
      } else {
        ScanSendsFirst(t, config, now, rest - {id}, room);
        FirstOfSkip(DueScan(t, config, now, rest - {id}, room).0, s, t, config, now, rest, room, id);
      }
    }
  }

  lemma DueSendsFirst(s: State, config: Config, now: uint64, count: nat)
    ensures FirstOf(Due(s, config, now, count).0, s, config, now, s.entries.Keys, count)
  {
    ScanSendsFirst(s, config, now, s.entries.Keys, count);
  }

  /** Nothing is sent at or after its expiry, and nothing past the attempt limit. */
  lemma NothingSentLate(s: State, config: Config, now: uint64, count: nat, d: Dispatch)
    requires d in Due(s, config, now, count).0
    ensures d.id in s.entries && !Terminal(s.entries[d.id].state)
    ensures s.entries[d.id].command.expires == 0 || now < s.entries[d.id].command.expires
    ensures s.entries[d.id].nextAttempt <= now && 1 <= d.attempt <= config.retry.maxAttempts
  {
    DueSendsFirst(s, config, now, count);
    var k :| 0 <= k < |Due(s, config, now, count).0| && Due(s, config, now, count).0[k] == d;
    assert SendsNow(d, s, config, now);
  }

  // ----- each counter counts its own kind of ending

  /** The active entries of `a` that have come to `end` in `b`. */
  ghost function Ended(a: map<uint64, Entry>, b: map<uint64, Entry>, end: CommandState): set<uint64> {
    set id | id in a && EndsAs(a, b, end, id)
  }

  predicate EndsAs(a: map<uint64, Entry>, b: map<uint64, Entry>, end: CommandState, id: uint64) {
    id in a && id in b && !Terminal(a[id].state) && b[id].state == end
  }

  function Endings(stats: Stats, end: CommandState): nat {
    match end
    case Acknowledged => stats.acknowledged
    case Failed => stats.failed
    case Expired => stats.expired
    case Cancelled => stats.cancelled
    case _ => 0
  }

  /** Changing one entry first accounts for that entry and leaves the others' endings alone. */
  lemma EndedStep(a: map<uint64, Entry>, id: uint64, f: Entry, b: map<uint64, Entry>, end: CommandState)
    requires id in a && id in b && Terminal(end) && (Terminal(a[id].state) ==> f == a[id])
    requires Terminal(f.state) ==> b[id] == f
    ensures |Ended(a, b, end)| == |Ended(a[id := f], b, end)| + (if f != a[id] && f.state == end then 1 else 0)
  {
    var now, later := Ended(a, b, end), Ended(a[id := f], b, end);
    forall i | i != id
      ensures i in now <==> i in later
    {
      assert EndsAs(a, b, end, i) <==> EndsAs(a[id := f], b, end, i);
    }
    if f != a[id] && f.state == end {
      DifferAt(now, later, id);
    } else {
      assert EndsAs(a, b, end, id) <==> EndsAs(a[id := f], b, end, id);
      assert now == later;
    }
  }

  /** The endings of a dispatch loop, and how many commands it sent. */
  ghost predicate DueCounted(s: State, sent: nat, t: State, end: CommandState) {
    && t.entries.Keys == s.entries.Keys
    && Endings(t.stats, end) == Endings(s.stats, end) + |Ended(s.entries, t.entries, end)|
    && t.stats.dispatched == s.stats.dispatched + sent
  }

  lemma DueOneCounts(s: State, config: Config, now: uint64, id: uint64, sent: nat, u: State, end: CommandState)
    requires id in s.entries && Terminal(end)
    requires var t := DueOne(s, config, now, id);
      id in u.entries && DueCounted(t, sent, u, end) && EntryStep(t.entries[id], u.entries[id], config)
    ensures DueCounted(s, sent + (if DispatchesNow(s.entries[id], config, now) then 1 else 0), u, end)
  {
    var e := s.entries[id];
    var f := DueEntry(e, config, now);
    EndedStep(s.entries, id, f, u.entries, end);
    assert Endings(DueStats(s.stats, e, f), end) == Endings(s.stats, end) + (if f != e && f.state == end then 1 else 0);
  }

  lemma {:induction false} DueEndings(
    s: State, config: Config, now: uint64, rest: set<uint64>, room: nat, end: CommandState)
    requires rest <= s.entries.Keys && Terminal(end)
    ensures var (out, t) := DueScan(s, config, now, rest, room);
      DueCounted(s, |out|, t, end)
    decreases |rest|
  {
    if rest == {} || room == 0 {
      assert Ended(s.entries, s.entries, end) == {};
    } else {
      var id := Least(rest);
      var t := DueOne(s, config, now, id);
      var left := if DispatchesNow(s.entries[id], config, now) then room - 1 else room;
      DueEndings(t, config, now, rest - {id}, left, end);
      DueEvolves(t, config, now, rest - {id}, left);
      var (more, u) := DueScan(t, config, now, rest - {id}, left);
      DueOneCounts(s, config, now, id, |more|, u, end);
    }
  }

  lemma {:induction false} ExpiringEnded(entries: map<uint64, Entry>, rest: set<uint64>, now: uint64, end: CommandState)
    requires rest <= entries.Keys && Terminal(end)
    ensures |Ended(entries, AgedIn(entries, rest, now), end)|
         == if end == Expired then |Expiring(entries, rest, now)| else 0
    decreases |rest|
  {
    var aged := AgedIn(entries, rest, now);
    if rest == {} {
      assert Ended(entries, aged, end) == {};
    } else {
      var id := Least(rest);
      var less := AgedIn(entries, rest - {id}, now);
      ExpiringEnded(entries, rest - {id}, now, end);
      assert !EndsAs(entries, less, end, id);
      AgedOneMore(entries, less, aged, id, end);
    }
  }

  lemma AgedOneMore(
    entries: map<uint64, Entry>, less: map<uint64, Entry>, aged: map<uint64, Entry>, id: uint64, end: CommandState)
    requires id in aged && aged == less[id := aged[id]] && id in less && !EndsAs(entries, less, end, id)
    ensures |Ended(entries, aged, end)|
         == |Ended(entries, less, end)| + (if EndsAs(entries, aged, end, id) then 1 else 0)
  {
    forall i | i != id
      ensures i in Ended(entries, aged, end) <==> i in Ended(entries, less, end)
    {
      assert EndsAs(entries, aged, end, i) <==> EndsAs(entries, less, end, i);
    }
    DifferAt(Ended(entries, aged, end), Ended(entries, less, end), id);
  }

  lemma OneEnds(s: State, config: Config, op: Op, id: uint64, end: CommandState)
    requires Terminal(end) && ((op.OpAck? && op.ack.id == id) || (op.OpCancel? && op.id == id))
    ensures var t := Apply(s, config, op);
      Endings(t.stats, end) == Endings(s.stats, end) + |Ended(s.entries, t.entries, end)|
  {
    var t := Apply(s, config, op);
    if EndsAs(s.entries, t.entries, end, id) {
      assert Ended(s.entries, t.entries, end) == {id};
    } else {
      assert Ended(s.entries, t.entries, end) == {};
    }
  }

  /** The counter of each terminal state grows by exactly the number of commands that came to it. */
  lemma EndingsCounted(s: State, config: Config, op: Op, end: CommandState)
    requires Terminal(end)
    ensures var t := Apply(s, config, op);
      Endings(t.stats, end) == Endings(s.stats, end) + |Ended(s.entries, t.entries, end)|
  {
    var ended := Ended(s.entries, Apply(s, config, op).entries, end);
    match op
    case OpAppend(_) => assert ended == {};
    case OpDue(now, count) => DueEndings(s, config, now, s.entries.Keys, count, end);
    case OpAck(ack) => OneEnds(s, config, op, ack.id, end);
    case OpCancel(id) => OneEnds(s, config, op, id, end);
    case OpExpire(now) =>
      ExpiringEnded(s.entries, s.entries.Keys, now, end);
      assert Expire(s, now).1.entries == AgedIn(s.entries, s.entries.Keys, now);
    case OpCompact(keep) =>
      if |s.entries| > keep {
        DroppedActive(s.entries, TerminalIds(s.entries), |s.entries| - keep);
      }
      assert ended == {};
  }
}
