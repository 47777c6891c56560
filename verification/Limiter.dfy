/** The token buckets and leases of src/control/device_limiter.cpp as transitions on values;
    DeviceLimiter proves the class that runs them, LimiterTheorems what they guarantee. */
module Limiter {
  import opened Words
  import opened Wrappers
  import opened OrderedMaps

  const ONE_SECOND: nat := 1_000_000_000

  datatype Limit = Limit(burst: uint32, refillPerSecond: uint32, minimumTokens: uint32)

  datatype Mode = Shared | Exclusive

  datatype Lease = Lease(id: uint64, device: uint64, mode: Mode, acquired: uint64, expires: uint64, owner: string)

  datatype Bucket = Bucket(limit: Limit, tokens: uint32, lastRefill: uint64, leases: seq<Lease>)

  datatype Config = Config(defaultLimit: Limit, defaultLeaseTtl: uint64, allowUnknown: bool)

  datatype Stats = Stats(allowed: nat, locked: nat, rateLimited: nat, granted: nat, released: nat, expired: nat)

  datatype State = State(devices: map<uint64, Bucket>, stats: Stats, nextLeaseId: uint64)

  datatype Decision = Allowed | Locked | RateLimited | UnknownDevice

  datatype Verdict = Verdict(decision: Decision, retryAfter: uint64)

  const NO_STATS: Stats := Stats(0, 0, 0, 0, 0, 0)

  function Normalized(limit: Limit): Limit {
    var burst := if limit.burst == 0 then 1 else limit.burst;
    var refill := if limit.refillPerSecond == 0 then 1 else limit.refillPerSecond;
    var minimum := if limit.minimumTokens == 0 then 1 else limit.minimumTokens;
    Limit(burst, refill, if minimum > burst then burst else minimum)
  }

  // ----- one bucket

  /** Tokens gained over `elapsed` nanoseconds; the 64-bit product wraps. */
  function Gained(elapsed: nat, rate: uint32): nat {
    Wrap64(elapsed * rate) / ONE_SECOND
  }

  /** A refill at `now` that comes to `gained` tokens; with none gained the clock is left alone.  A
      last refill time of zero means there was none yet. */
  function RefilledBy(b: Bucket, now: uint64, gained: nat): Bucket {
    if b.lastRefill == 0 then b.(lastRefill := now, tokens := if b.tokens == 0 then b.limit.burst else b.tokens)
    else if now <= b.lastRefill || gained == 0 then b
    else b.(tokens := Min(b.limit.burst, Wrap32(b.tokens + Min(gained, b.limit.burst))), lastRefill := now)
  }

  function Refilled(b: Bucket, now: uint64): Bucket {
    RefilledBy(b, now, if now <= b.lastRefill then 0 else Gained(now - b.lastRefill, b.limit.refillPerSecond))
  }

  predicate Conflict(leases: seq<Lease>, mode: Mode) {
    |leases| > 0 && (mode == Exclusive || exists i | 0 <= i < |leases| :: leases[i].mode == Exclusive)
  }

  function Live(leases: seq<Lease>, now: uint64): (live: seq<Lease>)
    ensures |live| <= |leases|
    decreases |leases|
  {
    if |leases| == 0 then []
    else (if leases[0].expires <= now then [] else [leases[0]]) + Live(leases[1..], now)
  }

  function Without(leases: seq<Lease>, id: uint64): seq<Lease>
    decreases |leases|
  {
    if |leases| == 0 then []
    else (if leases[0].id == id then [] else [leases[0]]) + Without(leases[1..], id)
  }

  function EffectiveCost(b: Bucket, cost: uint32): uint32 {
    Max(cost, b.limit.minimumTokens)
  }

  function RetryAfter(b: Bucket, cost: uint32): uint64 {
    if b.limit.refillPerSecond == 0 then ONE_SECOND
    else if cost <= b.tokens then 0
    else
      var rate := b.limit.refillPerSecond;
      RetryFits(cost - b.tokens, rate);
      ((cost - b.tokens) * ONE_SECOND + rate - 1) / rate
  }

  lemma RetryFits(missing: uint32, rate: uint32)
    requires rate > 0
    ensures 0 <= (missing * ONE_SECOND + rate - 1) / rate < TWO_64
  {
    DivideDown(missing * ONE_SECOND + rate - 1, rate);
  }

  // ----- the whole limiter

  function DropDead(b: Bucket, now: uint64): Bucket {
    b.(leases := Live(b.leases, now))
  }

  /** How many leases of each device have run out. */
  function Dead(devices: map<uint64, Bucket>, now: uint64): map<uint64, nat> {
    map d | d in devices :: |devices[d].leases| - |Live(devices[d].leases, now)|
  }

  function Expired(s: State, now: uint64): State {
    s.(devices := map d | d in s.devices :: DropDead(s.devices[d], now),
       stats := s.stats.(expired := s.stats.expired + Total(Dead(s.devices, now))))
  }

  function Registered(s: State, config: Config, device: uint64, limit: Limit): State {
    var chosen := if limit.burst == 0 && limit.refillPerSecond == 0 then config.defaultLimit else limit;
    var b := if device in s.devices then s.devices[device] else Bucket(Limit(16, 16, 1), 0, 0, []);
    var l := Normalized(chosen);
    s.(devices := s.devices[device := b.(limit := l, tokens := l.burst)])
  }

  function Known(s: State, config: Config, device: uint64): State {
    if device in s.devices then s else Registered(s, config, device, config.defaultLimit)
  }

  function Limited(s: State, device: uint64, limit: Limit): State {
    var b := if device in s.devices then s.devices[device] else Bucket(Limit(16, 16, 1), 0, 0, []);
    var l := Normalized(limit);
    s.(devices := s.devices[device := b.(limit := l, tokens := Min(b.tokens, l.burst))])
  }

  function Refreshed(s: State, device: uint64, now: uint64): State
    requires device in s.devices
  {
    var t := Expired(s, now);
    t.(devices := t.devices[device := Refilled(t.devices[device], now)])
  }

  /** The answer for a bucket whose dead leases are gone and which has just been refilled. */
  function VerdictOn(b: Bucket, config: Config, cost: uint32): Verdict {
    if Conflict(b.leases, Shared) then Verdict(Locked, config.defaultLeaseTtl)
    else if b.tokens < EffectiveCost(b, cost) then Verdict(RateLimited, RetryAfter(b, EffectiveCost(b, cost)))
    else Verdict(Allowed, 0)
  }

  function Counted(stats: Stats, decision: Decision): Stats {
    match decision
    case Allowed => stats.(allowed := stats.allowed + 1)
    case RateLimited => stats.(rateLimited := stats.rateLimited + 1)
    case Locked => stats.(locked := stats.locked + 1)
    case UnknownDevice => stats.(locked := stats.locked + 1)
  }

  function Check(s: State, config: Config, device: uint64, cost: uint32, now: uint64): (Verdict, State) {
    if device !in s.devices && !config.allowUnknown then
      (Verdict(UnknownDevice, 0), s.(stats := Counted(s.stats, UnknownDevice)))
    else
      var t := Refreshed(Known(s, config, device), device, now);
      var v := VerdictOn(t.devices[device], config, cost);
      (v, t.(stats := Counted(t.stats, v.decision)))
  }

  /** Taking tokens clamps at zero. */
  function Spent(b: Bucket, cost: uint32): Bucket {
    b.(tokens := if b.tokens >= EffectiveCost(b, cost) then b.tokens - EffectiveCost(b, cost) else 0)
  }

  function Consume(s: State, config: Config, device: uint64, cost: uint32, now: uint64): (Verdict, State) {
    var (v, t) := Check(s, config, device, cost, now);
    if v.decision == Allowed && device in t.devices then
      (v, t.(devices := t.devices[device := Spent(t.devices[device], cost)]))
    else (v, t)
  }

  datatype Request = Request(device: uint64, mode: Mode, now: uint64, ttl: uint64, owner: string)

  function NewLease(id: uint64, config: Config, r: Request): Lease {
    var ttl := if r.ttl == 0 then config.defaultLeaseTtl else r.ttl;
    Lease(id, r.device, r.mode, r.now, Wrap64(r.now + ttl), r.owner)
  }

  /** Granting a lease once the dead ones are gone. */
  function Grant(t: State, config: Config, r: Request): (Option<Lease>, State)
    requires r.device in t.devices
  {
    var b := t.devices[r.device];
    if Conflict(b.leases, r.mode) then (None, t.(stats := t.stats.(locked := t.stats.locked + 1))) else
      var lease := NewLease(t.nextLeaseId, config, r);
      (Some(lease),
       State(t.devices[r.device := b.(leases := b.leases + [lease])],
             t.stats.(granted := t.stats.granted + 1), Wrap64(t.nextLeaseId + 1)))
  }

  function Acquire(s: State, config: Config, r: Request): (Option<Lease>, State) {
    if r.device !in s.devices && !config.allowUnknown then (None, s)
    else Grant(Expired(Known(s, config, r.device), r.now), config, r)
  }

  /** The first device among `rest`, in key order, that holds the lease. */
  function Holder(devices: map<uint64, Bucket>, rest: set<uint64>, id: uint64): (d: Option<uint64>)
    requires rest <= devices.Keys
    ensures d.Some? ==> d.value in devices
    decreases |rest|
  {
    if rest == {} then None else
      var k := Least(rest);
      if |Without(devices[k].leases, id)| != |devices[k].leases| then Some(k)
      else Holder(devices, rest - {k}, id)
  }

  function Release(s: State, id: uint64): (bool, State) {
    var d := Holder(s.devices, s.devices.Keys, id);
    if d.None? then (false, s) else
      var b := s.devices[d.value];
      (true, s.(devices := s.devices[d.value := b.(leases := Without(b.leases, id))],
                stats := s.stats.(released := s.stats.released + 1)))
  }
}
