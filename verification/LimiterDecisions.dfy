/** When the limiter grants a lease and what a check answers, in terms of lease modes and times. */
module LimiterDecisions {
  import opened Words
  import opened OrderedMaps
  import opened Limiter
  import opened LimiterTheorems

  // ----- leases

  /** Every lease that has not run out admits one of this mode beside it. */
  predicate Admits(leases: seq<Lease>, mode: Mode, now: uint64) {
    forall i | 0 <= i < |leases| :: leases[i].expires > now ==> mode == Shared && leases[i].mode == Shared
  }

  lemma AdmitsIsNoConflict(leases: seq<Lease>, mode: Mode, now: uint64)
    ensures !Conflict(Live(leases, now), mode) <==> Admits(leases, mode, now)
  {
    var live := Live(leases, now);
    if Conflict(live, mode) {
      var l := if mode == Exclusive then live[0] else
        var i :| 0 <= i < |live| && live[i].mode == Exclusive; live[i];
      assert l in live;
      LiveMember(leases, now, l);
    } else if i :| 0 <= i < |leases| && leases[i].expires > now && !(mode == Shared && leases[i].mode == Shared) {
      LiveMember(leases, now, leases[i]);
    }
  }

  /** For every state: a lease is granted if and only if the device is served and its leases that have not
      run out are none, or the request and all of them are shared. */
  lemma GrantedExactly(s: State, config: Config, r: Request)
    ensures Acquire(s, config, r).0.Some?
        <==> if r.device in s.devices then Admits(s.devices[r.device].leases, r.mode, r.now) else config.allowUnknown
  {
    if r.device in s.devices {
      AdmitsIsNoConflict(s.devices[r.device].leases, r.mode, r.now);
    }
  }

  /** A granted lease carries its request, under the next identifier, ends at the request's time plus its
      own or the default time to live, and joins those of the device that have not run out. */
  lemma GrantedLease(s: State, config: Config, r: Request)
    requires Acquire(s, config, r).0.Some?
    ensures var (lease, t) := Acquire(s, config, r);
      && lease.value.id == s.nextLeaseId && lease.value.device == r.device && lease.value.mode == r.mode
      && lease.value.acquired == r.now && lease.value.owner == r.owner
      && lease.value.expires == (r.now + (if r.ttl == 0 then config.defaultLeaseTtl else r.ttl)) % TWO_64
      && r.device in t.devices && |t.devices[r.device].leases| > 0
      && var leases := t.devices[r.device].leases;
         leases[|leases| - 1] == lease.value
         && forall l :: l in leases[..|leases| - 1]
              <==> r.device in s.devices && l in s.devices[r.device].leases && l.expires > r.now
  {
    forall l: Lease
      ensures r.device in s.devices ==>
        (l in Live(s.devices[r.device].leases, r.now) <==> l in s.devices[r.device].leases && l.expires > r.now)
    {
      if r.device in s.devices {
        LiveMember(s.devices[r.device].leases, r.now, l);
      }
    }
  }

  // ----- checks

  /** For every state: what a check answers.  A device that is not known and not to be taken on is unknown;
      one with an exclusive lease that has not run out is locked; otherwise the tokens after the refill
      decide, and the device's least cost is charged for anything cheaper. */
  lemma AnsweredExactly(s: State, config: Config, device: uint64, cost: uint32, now: uint64)
    ensures var answer := Check(s, config, device, cost, now).0.decision;
      && (answer == UnknownDevice <==> device !in s.devices && !config.allowUnknown)
      && (answer == Locked <==> device in s.devices && LockedAt(s.devices[device].leases, now))
      && (answer in {Allowed, RateLimited} ==>
            var b := Decided(s, config, device, now);
            answer == Allowed <==> cost <= b.tokens && b.limit.minimumTokens <= b.tokens)
  {
    if Served(s, config, device) {
      CheckBuckets(s, config, device, cost, now);
      var k := Known(s, config, device);
      LockedIsConflict(k.devices[device].leases, now);
    }
  }

  /** A device taken on by its first use starts with the default limit and a full bucket; a limit that is
      registered has its zeros replaced by one and its least cost held to the burst. */
  lemma RegisteredExactly(s: State, config: Config, device: uint64, limit: Limit)
    ensures var t := Registered(s, config, device, limit);
      var wanted := if limit.burst == 0 && limit.refillPerSecond == 0 then config.defaultLimit else limit;
      && t.devices.Keys == s.devices.Keys + {device}
      && (forall d | d in s.devices && d != device :: t.devices[d] == s.devices[d])
      && var b := t.devices[device];
         && b.tokens == b.limit.burst && LimitOk(b.limit)
         && (wanted.burst > 0 ==> b.limit.burst == wanted.burst)
         && (wanted.burst == 0 ==> b.limit.burst == 1)
         && (wanted.refillPerSecond > 0 ==> b.limit.refillPerSecond == wanted.refillPerSecond)
         && (wanted.refillPerSecond == 0 ==> b.limit.refillPerSecond == 1)
         && (0 < wanted.minimumTokens <= b.limit.burst ==> b.limit.minimumTokens == wanted.minimumTokens)
         && (wanted.minimumTokens == 0 ==> b.limit.minimumTokens == 1)
         && (wanted.minimumTokens > b.limit.burst ==> b.limit.minimumTokens == b.limit.burst)
         && b.leases == (if device in s.devices then s.devices[device].leases else [])
         && b.lastRefill == (if device in s.devices then s.devices[device].lastRefill else 0)
  {
  }

  // ----- tokens

  /** The bucket of a device that is served: as it stands, or new with the default limit and full. */
  function BucketOf(s: State, config: Config, device: uint64): Bucket
    requires Served(s, config, device)
  {
    if device in s.devices then s.devices[device] else Known(s, config, device).devices[device]
  }

  /** The tokens of a bucket after a refill: full if it was empty and never refilled, and otherwise with as many
      more, up to the burst, as the rate yields in whole tokens; product and sum are taken in 64 and 32 bits. */
  function TokensAt(b: Bucket, now: uint64): nat {
    if b.lastRefill == 0 then (if b.tokens == 0 then b.limit.burst else b.tokens)
    else if now <= b.lastRefill then b.tokens
    else
      var gained := (now - b.lastRefill) * b.limit.refillPerSecond % TWO_64 / 1_000_000_000;
      if gained == 0 then b.tokens else Min(b.limit.burst, (b.tokens + Min(gained, b.limit.burst)) % TWO_32)
  }

  /** The clock moves only with a token gained, so that no part of one is lost. */
  function ClockAt(b: Bucket, now: uint64): uint64 {
    if b.lastRefill == 0 then now
    else if now > b.lastRefill
            && (now - b.lastRefill) * b.limit.refillPerSecond % TWO_64 / 1_000_000_000 > 0 then now
    else b.lastRefill
  }

  lemma RefilledExactly(b: Bucket, now: uint64)
    ensures var r := Refilled(b, now);
      r.tokens == TokensAt(b, now) && r.lastRefill == ClockAt(b, now) && r.limit == b.limit && r.leases == b.leases
  {
  }

  /** Dropping leases leaves the tokens alone. */
  lemma PurseKept(b: Bucket, now: uint64)
    ensures TokensAt(DropDead(b, now), now) == TokensAt(b, now) && ClockAt(DropDead(b, now), now) == ClockAt(b, now)
  {
  }

  lemma TouchedExactly(b: Bucket, now: uint64)
    ensures var c := Touched(b, now);
      c.limit == b.limit && KeepsLive(b, c, now) && c.tokens == TokensAt(b, now) && c.lastRefill == ClockAt(b, now)
  {
    RefilledExactly(DropDead(b, now), now);
    PurseKept(b, now);
    LiveIsKept(b, now);
  }

  /** `c` has the leases of `b` that have not run out. */
  ghost predicate KeepsLive(b: Bucket, c: Bucket, now: uint64) {
    forall l :: l in c.leases <==> l in b.leases && l.expires > now
  }

  lemma LiveIsKept(b: Bucket, now: uint64)
    ensures KeepsLive(b, DropDead(b, now), now)
  {
    forall l: Lease
      ensures l in Live(b.leases, now) <==> l in b.leases && l.expires > now
    {
      LiveMember(b.leases, now, l);
    }
  }

  /** For every state: what a check leaves of every bucket, and what it says how long to wait. */
  lemma CheckedExactly(s: State, config: Config, device: uint64, cost: uint32, now: uint64, d: uint64)
    requires Served(s, config, device) && (d in s.devices || d == device)
    ensures var (answer, t) := Check(s, config, device, cost, now);
      var b := if d == device then BucketOf(s, config, d) else s.devices[d];
      && d in t.devices && t.devices[d].limit == b.limit && KeepsLive(b, t.devices[d], now)
      && t.devices[d].tokens == (if d == device then TokensAt(b, now) else b.tokens)
      && t.devices[d].lastRefill == (if d == device then ClockAt(b, now) else b.lastRefill)
      && (answer.decision == Locked ==> answer.retryAfter == config.defaultLeaseTtl)
      && (answer.decision == Allowed ==> answer.retryAfter == 0)
  {
    CheckBuckets(s, config, device, cost, now);
    if d == device {
      TouchedExactly(BucketOf(s, config, d), now);
    } else {
      LiveIsKept(s.devices[d], now);
    }
  }

  /** An allowed consumption takes the cost, and the least cost for anything cheaper; one that is not allowed
      takes nothing. */
  lemma ConsumedExactly(s: State, config: Config, device: uint64, cost: uint32, now: uint64)
    requires Served(s, config, device)
    ensures var (answer, t) := Consume(s, config, device, cost, now);
      var b := BucketOf(s, config, device);
      && answer == Check(s, config, device, cost, now).0
      && device in t.devices
      && t.devices[device].tokens
         == TokensAt(b, now) - (if answer.decision == Allowed then Max(cost, b.limit.minimumTokens) else 0)
      && t.devices[device].lastRefill == ClockAt(b, now)
  {
    CheckBuckets(s, config, device, cost, now);
    TouchedExactly(BucketOf(s, config, device), now);
  }

  /** A sweep keeps the leases that have not run out, and everything else. */
  lemma SweptExactly(s: State, now: uint64, d: uint64)
    requires d in s.devices
    ensures var t := Expired(s, now);
      && t.devices.Keys == s.devices.Keys
      && t.devices[d] == s.devices[d].(leases := t.devices[d].leases) && KeepsLive(s.devices[d], t.devices[d], now)
  {
    LiveIsKept(s.devices[d], now);
  }

  /** A new limit is cut to sense as at registration, and the tokens to its burst. */
  lemma LimitSetExactly(s: State, config: Config, device: uint64, limit: Limit)
    ensures var t := Apply(s, config, OpSetLimit(device, limit));
      && t.devices.Keys == s.devices.Keys + {device}
      && (forall d | d in s.devices && d != device :: t.devices[d] == s.devices[d])
      && LimitOk(t.devices[device].limit)
      && (LimitOk(limit) ==> t.devices[device].limit == limit)
      && (device in s.devices ==>
            t.devices[device] == s.devices[device].(
              limit := t.devices[device].limit,
              tokens := Min(s.devices[device].tokens, t.devices[device].limit.burst)))
      && (device !in s.devices ==> t.devices[device] == Bucket(t.devices[device].limit, 0, 0, []))
  {
  }

  // ----- releasing

  predicate Holds(b: Bucket, id: uint64) {
    exists i | 0 <= i < |b.leases| :: b.leases[i].id == id
  }

  lemma {:induction false} WithoutMember(leases: seq<Lease>, id: uint64, l: Lease)
    ensures l in Without(leases, id) <==> l in leases && l.id != id
    ensures |Without(leases, id)| <= |leases|
    ensures |Without(leases, id)| == |leases| <==> forall i | 0 <= i < |leases| :: leases[i].id != id
    decreases |leases|
  {
    if |leases| > 0 {
      WithoutMember(leases[1..], id, l);
      assert forall i | 1 <= i < |leases| :: leases[i] == leases[1..][i - 1];
    }
  }

  lemma HoldsIsShorter(b: Bucket, id: uint64)
    ensures |Without(b.leases, id)| != |b.leases| <==> Holds(b, id)
  {
    if |b.leases| > 0 {
      WithoutMember(b.leases, id, b.leases[0]);
    }
  }

  lemma {:induction false} HolderIsFirst(devices: map<uint64, Bucket>, rest: set<uint64>, id: uint64)
    requires rest <= devices.Keys
    ensures var d := Holder(devices, rest, id);
      && (d.None? <==> forall k | k in rest :: !Holds(devices[k], id))
      && (d.Some? ==> d.value in rest && Holds(devices[d.value], id)
                      && forall k | k in rest && Holds(devices[k], id) :: d.value <= k)
    decreases |rest|
  {
    if rest != {} {
      var k := Least(rest);
      HoldsIsShorter(devices[k], id);
      HolderIsFirst(devices, rest - {k}, id);
    }
  }

  /** A release fails if and only if no device holds a lease of that identifier, and then changes nothing. */
  lemma ReleaseFails(s: State, id: uint64)
    ensures !Release(s, id).0 <==> forall d | d in s.devices :: !Holds(s.devices[d], id)
    ensures !Release(s, id).0 ==> Release(s, id).1 == s
  {
    HolderIsFirst(s.devices, s.devices.Keys, id);
  }

  /** Otherwise it takes the lease from the first device that holds one, and from no other. */
  lemma ReleasedFromFirst(s: State, id: uint64, d: uint64)
    requires d in s.devices && Holds(s.devices[d], id)
    requires forall k | k in s.devices && Holds(s.devices[k], id) :: d <= k
    ensures var t := Release(s, id).1;
      && t.devices.Keys == s.devices.Keys
      && (forall k | k in s.devices && k != d :: t.devices[k] == s.devices[k])
      && t.devices[d] == s.devices[d].(leases := t.devices[d].leases)
      && forall l :: l in t.devices[d].leases <==> l in s.devices[d].leases && l.id != id
  {
    HolderIsFirst(s.devices, s.devices.Keys, id);
    var leases := s.devices[d].leases;
    forall l: Lease
      ensures l in Without(leases, id) <==> l in leases && l.id != id
    {
      WithoutMember(leases, id, l);
    }
    assert Release(s, id).1.devices == s.devices[d := s.devices[d].(leases := Without(leases, id))];
  }

  // ----- counters

  /** Every answer is counted as what it is, an unknown device as locked. */
  lemma AnswersCounted(s: State, config: Config, device: uint64, cost: uint32, now: uint64)
    ensures var (answer, t) := Check(s, config, device, cost, now);
      && t.stats.allowed == s.stats.allowed + (if answer.decision == Allowed then 1 else 0)
      && t.stats.rateLimited == s.stats.rateLimited + (if answer.decision == RateLimited then 1 else 0)
      && t.stats.locked == s.stats.locked + (if answer.decision in {Locked, UnknownDevice} then 1 else 0)
      && (answer.decision == UnknownDevice ==> answer.retryAfter == 0 && t.devices == s.devices)
    ensures var (answer, t) := Consume(s, config, device, cost, now);
      (answer, t.stats) == (Check(s, config, device, cost, now).0, Check(s, config, device, cost, now).1.stats)
  {
  }

  /** A lease that is granted is counted and moves the next identifier on; one that meets a conflict is counted
      as locked, and one for a device that is not served not at all. */
  lemma GrantsCounted(s: State, config: Config, r: Request)
    ensures var (lease, t) := Acquire(s, config, r);
      && t.stats.granted == s.stats.granted + (if lease.Some? then 1 else 0)
      && t.nextLeaseId == (if lease.Some? then (s.nextLeaseId + 1) % TWO_64 else s.nextLeaseId)
      && t.stats.locked == s.stats.locked + (if lease.None? && Served(s, config, r.device) then 1 else 0)
      && (!Served(s, config, r.device) ==> lease.None? && t == s)
  {
  }
}
