/** The command journal of src/control/command_journal.cpp as transitions on values. */
module Journal {
  import opened Words
  import opened Wrappers
  import opened OrderedMaps

  datatype CommandState = Pending | Sent | Acknowledged | Failed | Expired | Cancelled

  datatype AckStatus = Accepted | Rejected | Busy | Malformed | UnknownCommand

  type Positive = x: int | x > 0 witness 1

  /** The multiplier is the exact fraction `scale / unit`. */
  datatype Retry = Retry(maxAttempts: uint32, initialDelay: uint64, maxDelay: uint64, scale: nat, unit: Positive)

  datatype Config = Config(maxEntries: nat, defaultTtl: uint64, retry: Retry)

  datatype Command = Command(
    id: uint64, kind: nat, device: uint64, created: uint64, expires: uint64, payload: Bytes, name: string)

  datatype Entry = Entry(
    command: Command, state: CommandState, attempts: uint32, lastSend: uint64, nextAttempt: uint64)

  datatype Stats = Stats(
    appended: nat, dispatched: nat, acknowledged: nat, failed: nat, expired: nat, cancelled: nat, duplicates: nat)

  datatype State = State(entries: map<uint64, Entry>, stats: Stats, nextId: uint64)

  datatype Ack = Ack(id: uint64, device: uint64, status: AckStatus, time: uint64)

  datatype Dispatch = Dispatch(id: uint64, attempt: uint32, time: uint64, nextAttempt: uint64)

  const NO_STATS: Stats := Stats(0, 0, 0, 0, 0, 0, 0)
  const START: State := State(map[], NO_STATS, 1)

  predicate Terminal(s: CommandState) {
    s == Acknowledged || s == Failed || s == Expired || s == Cancelled
  }

  // ----- retry delays

  /** One more multiplication, held at the limit and never below one nanosecond. */
  function Grown(value: nat, retry: Retry): nat {
    if value >= retry.maxDelay then retry.maxDelay
    else if value * retry.scale >= retry.maxDelay * retry.unit then retry.maxDelay
    else Max(1, value * retry.scale / retry.unit)
  }

  lemma ScaledDown(v: nat, scale: nat, unit: Positive, limit: nat)
    requires v * scale < limit * unit
    ensures v * scale / unit < limit
  {
    var q := v * scale / unit;
    assert unit * q <= v * scale by {
      assert v * scale == unit * q + (v * scale) % unit;
    }
    if limit <= q {
      MultiplyMonotone(unit, limit, q);
    }
  }

  lemma GrownFits(value: nat, retry: Retry)
    requires value < retry.maxDelay && value * retry.scale < retry.maxDelay * retry.unit
    ensures Grown(value, retry) <= retry.maxDelay
  {
    ScaledDown(value, retry.scale, retry.unit, retry.maxDelay);
  }

  /** The delay before it is capped, for the `k`-th attempt. */
  function RawDelay(retry: Retry, k: nat): nat
    decreases k
  {
    if k <= 1 then retry.initialDelay else Grown(RawDelay(retry, k - 1), retry)
  }

  function RetryDelay(retry: Retry, attempts: nat): nat {
    if attempts == 0 then retry.initialDelay else Min(RawDelay(retry, attempts), retry.maxDelay)
  }

  // ----- append

  predicate SameIntent(a: Command, b: Command) {
    a.device == b.device && a.kind == b.kind && a.name == b.name && a.payload == b.payload
  }

  predicate DuplicateActive(entries: map<uint64, Entry>, c: Command) {
    exists id :: id in entries && ActiveTwin(entries[id], c)
  }

  predicate ActiveTwin(e: Entry, c: Command) {
    !Terminal(e.state) && SameIntent(e.command, c)
  }

  predicate Refused(s: State, c: Command) {
    DuplicateActive(s.entries, c) || (c.id != 0 && c.id in s.entries)
  }

  function AssignedId(s: State, c: Command): uint64 {
    if c.id == 0 then s.nextId else c.id
  }

  function Fresh(c: Command, id: uint64, config: Config): Entry {
    var expires := if c.expires == 0 then Wrap64(c.created + config.defaultTtl) else c.expires;
    Entry(c.(id := id, expires := expires), Pending, 0, 0, c.created)
  }

  /** The identifier given, or zero when the command was not taken. */
  function Append(s: State, config: Config, c: Command): (Option<uint64>, State) {
    if |s.entries| >= config.maxEntries then (None, s)
    else if Refused(s, c) then (None, s.(stats := s.stats.(duplicates := s.stats.duplicates + 1)))
    else
      var id := AssignedId(s, c);
      var next: nat := if c.id == 0 then Wrap64(s.nextId + 1) else Max(s.nextId, Wrap64(c.id + 1));
      (Some(id),
       State(s.entries[id := Fresh(c, id, config)], s.stats.(appended := s.stats.appended + 1), next))
  }

  // ----- dispatch

  predicate PastExpiry(e: Entry, now: uint64) {
    e.command.expires != 0 && now >= e.command.expires
  }

  predicate DispatchesNow(e: Entry, config: Config, now: uint64) {
    !Terminal(e.state) && !PastExpiry(e, now) && e.nextAttempt <= now && e.attempts < config.retry.maxAttempts
  }

  function SentEntry(e: Entry, config: Config, now: uint64): Entry
    requires e.attempts < config.retry.maxAttempts
  {
    e.(attempts := e.attempts + 1, state := Sent, lastSend := now,
       nextAttempt := Wrap64(now + RetryDelay(config.retry, e.attempts + 1)))
  }

  /** What the dispatch loop makes of one entry. */
  function DueEntry(e: Entry, config: Config, now: uint64): Entry {
    if Terminal(e.state) then e
    else if PastExpiry(e, now) then e.(state := Expired)
    else if e.nextAttempt > now then e
    else if e.attempts >= config.retry.maxAttempts then e.(state := Failed)
    else SentEntry(e, config, now)
  }

  /** How the counters follow an entry that the dispatch loop has changed from `e` to `f`. */
  function DueStats(stats: Stats, e: Entry, f: Entry): Stats {
    if f.state == e.state && f.attempts == e.attempts then stats
    else if f.state == Expired then stats.(expired := stats.expired + 1)
    else if f.state == Failed then stats.(failed := stats.failed + 1)
    else stats.(dispatched := stats.dispatched + 1)
  }

  function DueOne(s: State, config: Config, now: uint64, id: uint64): State
    requires id in s.entries
  {
    var e := s.entries[id];
    var f := DueEntry(e, config, now);
    s.(entries := s.entries[id := f], stats := DueStats(s.stats, e, f))
  }

  /** The dispatch loop over `rest`, in ascending order, while there is room for more dispatches. */
  function DueScan(s: State, config: Config, now: uint64, rest: set<uint64>, room: nat): (seq<Dispatch>, State)
    requires rest <= s.entries.Keys
    decreases |rest|
  {
    if rest == {} || room == 0 then ([], s) else
      var id := Least(rest);
      var t := DueOne(s, config, now, id);
      if DispatchesNow(s.entries[id], config, now) then
        var f := t.entries[id];
        var (more, u) := DueScan(t, config, now, rest - {id}, room - 1);
        ([Dispatch(id, f.attempts, now, f.nextAttempt)] + more, u)
      else DueScan(t, config, now, rest - {id}, room)
  }

  function Due(s: State, config: Config, now: uint64, count: nat): (seq<Dispatch>, State) {
    DueScan(s, config, now, s.entries.Keys, count)
  }

  // ----- acknowledgement, cancellation, expiry, compaction

  function Acked(e: Entry, config: Config, ack: Ack): Entry {
    match ack.status
    case Accepted => e.(state := Acknowledged)
    case Busy =>
      e.(state := Pending,
         nextAttempt := Wrap64(ack.time + RetryDelay(config.retry, Wrap32(e.attempts + 1))))
    case Rejected => e.(state := Failed)
    case Malformed => e.(state := Failed)
    case UnknownCommand => e.(state := Failed)
  }

  function AckStats(stats: Stats, status: AckStatus): Stats {
    match status
    case Accepted => stats.(acknowledged := stats.acknowledged + 1)
    case Busy => stats
    case _ => stats.(failed := stats.failed + 1)
  }

  /** Whether the acknowledgement matched an entry, and the state that entry is then in. */
  function Acknowledge(s: State, config: Config, ack: Ack): (bool, CommandState, State) {
    if ack.id !in s.entries then (false, Pending, s) else
      var e := s.entries[ack.id];
      if e.command.device != ack.device then (false, e.state, s)
      else if Terminal(e.state) then (true, e.state, s)
      else
        var f := Acked(e, config, ack);
        (true, f.state, s.(entries := s.entries[ack.id := f], stats := AckStats(s.stats, ack.status)))
  }

  function Cancel(s: State, id: uint64): (bool, State) {
    if id !in s.entries || Terminal(s.entries[id].state) then (false, s)
    else
      (true, s.(entries := s.entries[id := s.entries[id].(state := Cancelled)],
                stats := s.stats.(cancelled := s.stats.cancelled + 1)))
  }

  function Aged(e: Entry, now: uint64): Entry {
    if !Terminal(e.state) && PastExpiry(e, now) then e.(state := Expired) else e
  }

  /** The entries that expire among `rest`, in ascending order. */
  function Expiring(entries: map<uint64, Entry>, rest: set<uint64>, now: uint64): seq<Entry>
    requires rest <= entries.Keys
    decreases |rest|
  {
    if rest == {} then [] else
      var id := Least(rest);
      (if Aged(entries[id], now) != entries[id] then [Aged(entries[id], now)] else [])
      + Expiring(entries, rest - {id}, now)
  }

  function Expire(s: State, now: uint64): (seq<Entry>, State) {
    var gone := Expiring(s.entries, s.entries.Keys, now);
    (gone, s.(entries := map id | id in s.entries :: Aged(s.entries[id], now),
              stats := s.stats.(expired := s.stats.expired + |gone|)))
  }

  function TerminalIds(entries: map<uint64, Entry>): set<uint64> {
    set id | id in entries && Terminal(entries[id].state)
  }

  /** The entries without the first `count` of `ids`. */
  function Dropped(entries: map<uint64, Entry>, ids: set<uint64>, count: nat): map<uint64, Entry>
    decreases |ids|
  {
    if ids == {} || count == 0 then entries
    else Dropped(entries - {Least(ids)}, ids - {Least(ids)}, count - 1)
  }

  function Compact(s: State, keepRecent: nat): State {
    if |s.entries| <= keepRecent then s
    else s.(entries := Dropped(s.entries, TerminalIds(s.entries), |s.entries| - keepRecent))
  }
}
