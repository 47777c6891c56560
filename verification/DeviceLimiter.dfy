/** The limiter class of src/control/device_limiter.cpp, each method proved to make the transition
    of module Limiter. */
module DeviceLimiterClass {
  import opened Words
  import opened Wrappers
  import opened OrderedMaps
  import opened Limiter

  class DeviceLimiter {
    const config: Config
    var devices: map<uint64, Bucket>
    var stats: Stats
    var nextLeaseId: uint64

    ghost function Value(): State
      reads this
    {
      State(devices, stats, nextLeaseId)
    }

    constructor (config: Config)
      ensures Value() == State(map[], NO_STATS, 1)
      ensures this.config == config.(defaultLimit := Normalized(config.defaultLimit))
    {
      this.config := config.(defaultLimit := Normalized(config.defaultLimit));
      devices, stats, nextLeaseId := map[], NO_STATS, 1;
    }

    method RegisterDevice(device: uint64, limit: Limit)
      modifies this
      ensures Value() == Registered(old(Value()), config, device, limit)
    {
      var chosen := limit;
      if limit.burst == 0 && limit.refillPerSecond == 0 {
        chosen := config.defaultLimit;
      }
      var b := if device in devices then devices[device] else Bucket(Limit(16, 16, 1), 0, 0, []);
      b := b.(limit := Normalized(chosen));
      devices := devices[device := b.(tokens := b.limit.burst)];
    }

    method UnregisterDevice(device: uint64)
      modifies this`devices
      ensures devices == old(devices) - {device}
    {
      devices := devices - {device};
    }

    method Reset()
      modifies this
      ensures Value() == State(map[], NO_STATS, 1)
    {
      devices, stats, nextLeaseId := map[], NO_STATS, 1;
    }

    method SetLimit(device: uint64, limit: Limit)
      modifies this
      ensures Value() == Limited(old(Value()), device, limit)
    {
      var b := if device in devices then devices[device] else Bucket(Limit(16, 16, 1), 0, 0, []);
      b := b.(limit := Normalized(limit));
      devices := devices[device := b.(tokens := Min(b.tokens, b.limit.burst))];
    }

    method Expire(now: uint64) returns (expired: nat)
      modifies this
      ensures Value() == Expired(old(Value()), now)
      ensures stats.expired == old(stats.expired) + expired
    {
      expired := 0;
      var rest := devices.Keys;
      ghost var was := devices;
      while rest != {}
        invariant rest <= was.Keys && stats == old(stats) && nextLeaseId == old(nextLeaseId)
        invariant devices == Swept(was, rest, now)
        invariant expired == Total(DeadOutside(was, rest, now))
        decreases |rest|
      {
        var k := Least(rest);
        var b := devices[k];
        var live := DropExpired(b.leases, now);
        SweepOne(was, rest, k, now);
        expired := expired + (|b.leases| - |live|);
        devices := devices[k := b.(leases := live)];
        rest := rest - {k};
      }
      SweepAll(was, now);
      stats := stats.(expired := stats.expired + expired);
    }

    method Refill(device: uint64, now: uint64)
      requires device in devices
      modifies this`devices
      ensures devices == old(devices)[device := Refilled(old(devices)[device], now)]
    {
      var b := devices[device];
      if b.lastRefill == 0 {
        b := b.(lastRefill := now);
        if b.tokens == 0 {
          b := b.(tokens := b.limit.burst);
        }
      } else if now > b.lastRefill {
        var elapsed := now - b.lastRefill;
        var gained := Wrap64(elapsed * b.limit.refillPerSecond) / ONE_SECOND;
        if gained != 0 {
          b := b.(tokens := Min(b.limit.burst, Wrap32(b.tokens + Min(gained, b.limit.burst))), lastRefill := now);
        }
      }
      devices := devices[device := b];
    }

    /** Decides on a bucket that has just been refilled, and counts the decision. */
    method Decide(device: uint64, cost: uint32) returns (v: Verdict)
      requires device in devices
      modifies this`stats
      ensures v == VerdictOn(devices[device], config, cost) && stats == Counted(old(stats), v.decision)
    {
      var b := devices[device];
      if Conflict(b.leases, Shared) {
        stats := stats.(locked := stats.locked + 1);
        return Verdict(Locked, config.defaultLeaseTtl);
      }
      var effective := Max(cost, b.limit.minimumTokens);
      if b.tokens < effective {
        stats := stats.(rateLimited := stats.rateLimited + 1);
        return Verdict(RateLimited, RetryAfter(b, effective));
      }
      stats := stats.(allowed := stats.allowed + 1);
      v := Verdict(Allowed, 0);
    }

    method CheckDevice(device: uint64, cost: uint32, now: uint64) returns (v: Verdict)
      modifies this
      ensures (v, Value()) == Check(old(Value()), config, device, cost, now)
    {
      if device !in devices {
        if !config.allowUnknown {
          stats := stats.(locked := stats.locked + 1);
          return Verdict(UnknownDevice, 0);
        }
        RegisterDevice(device, config.defaultLimit);
      }
      assert Value() == Known(old(Value()), config, device);
      var _ := Expire(now);
      Refill(device, now);
      assert Value() == Refreshed(Known(old(Value()), config, device), device, now);
      v := Decide(device, cost);
    }

    method ConsumeTokens(device: uint64, cost: uint32, now: uint64) returns (v: Verdict)
      modifies this
      ensures (v, Value()) == Consume(old(Value()), config, device, cost, now)
    {
      v := CheckDevice(device, cost, now);
      if v.decision != Allowed || device !in devices {
        return;
      }
      devices := devices[device := Spent(devices[device], cost)];
    }

    method AcquireLease(r: Request) returns (lease: Option<Lease>)
      modifies this
      ensures (lease, Value()) == Acquire(old(Value()), config, r)
    {
      if r.device !in devices {
        if !config.allowUnknown {
          return None;
        }
        RegisterDevice(r.device, config.defaultLimit);
      }
      assert Value() == Known(old(Value()), config, r.device);
      var _ := Expire(r.now);
      assert Value() == Expired(Known(old(Value()), config, r.device), r.now);
      lease := GrantLease(r);
    }

    method GrantLease(r: Request) returns (lease: Option<Lease>)
      requires r.device in devices
      modifies this
      ensures (lease, Value()) == Grant(old(Value()), config, r)
    {
      var b := devices[r.device];
      if Conflict(b.leases, r.mode) {
        stats := stats.(locked := stats.locked + 1);
        return None;
      }
      var granted := NewLease(nextLeaseId, config, r);
      nextLeaseId := Wrap64(nextLeaseId + 1);
      devices := devices[r.device := b.(leases := b.leases + [granted])];
      stats := stats.(granted := stats.granted + 1);
      lease := Some(granted);
    }

    method ReleaseLease(id: uint64) returns (released: bool)
      modifies this
      ensures (released, Value()) == Release(old(Value()), id)
    {
      var rest := devices.Keys;
      while rest != {}
        invariant Value() == old(Value()) && rest <= devices.Keys
        invariant Holder(devices, devices.Keys, id) == Holder(devices, rest, id)
        decreases |rest|
      {
        var k := Least(rest);
        var b := devices[k];
        var kept := EraseLease(b.leases, id);
        if |kept| != |b.leases| {
          devices := devices[k := b.(leases := kept)];
          stats := stats.(released := stats.released + 1);
          return true;
        }
        rest := rest - {k};
      }
      released := false;
    }
  }

  /** The devices when only those of `rest` still have their dead leases. */
  ghost function Swept(was: map<uint64, Bucket>, rest: set<uint64>, now: uint64): map<uint64, Bucket> {
    map d | d in was :: if d in rest then was[d] else DropDead(was[d], now)
  }

  ghost function DeadOutside(was: map<uint64, Bucket>, rest: set<uint64>, now: uint64): map<uint64, nat> {
    map d | d in was && d !in rest :: |was[d].leases| - |Live(was[d].leases, now)|
  }

  lemma SweepOne(was: map<uint64, Bucket>, rest: set<uint64>, k: uint64, now: uint64)
    requires k in rest && k in was
    ensures Swept(was, rest - {k}, now) == Swept(was, rest, now)[k := DropDead(was[k], now)]
    ensures Total(DeadOutside(was, rest - {k}, now))
         == Total(DeadOutside(was, rest, now)) + |was[k].leases| - |Live(was[k].leases, now)|
  {
    var few, more := DeadOutside(was, rest, now), DeadOutside(was, rest - {k}, now);
    var dead := |was[k].leases| - |Live(was[k].leases, now)|;
    assert more == few[k := dead];
    TotalUpdate(few, k, dead);
  }

  lemma SweepAll(was: map<uint64, Bucket>, now: uint64)
    ensures Swept(was, {}, now) == map d | d in was :: DropDead(was[d], now)
    ensures DeadOutside(was, {}, now) == Dead(was, now)
  {
  }

  method DropExpired(leases: seq<Lease>, now: uint64) returns (live: seq<Lease>)
    ensures live == Live(leases, now) && |live| <= |leases|
  {
    live := [];
    for i := 0 to |leases|
      invariant live + Live(leases[i..], now) == Live(leases, now) && |live| <= i
    {
      assert leases[i..][1..] == leases[i + 1..];
      if leases[i].expires > now {
        live := live + [leases[i]];
      }
    }
    assert leases[|leases|..] == [];
  }

  /** One turn of the erasing loop: what is kept so far, and what the rest will keep. */
  lemma WithoutStep(leases: seq<Lease>, i: nat, id: uint64, kept: seq<Lease>)
    requires i < |leases|
    ensures kept + Without(leases[i..], id)
         == (if leases[i].id != id then kept + [leases[i]] else kept) + Without(leases[i + 1..], id)
  {
    var rest := Without(leases[i + 1..], id);
    assert leases[i..][1..] == leases[i + 1..];
    assert kept + ([leases[i]] + rest) == kept + [leases[i]] + rest;
    assert [] + rest == rest;
  }

  method EraseLease(leases: seq<Lease>, id: uint64) returns (kept: seq<Lease>)
    ensures kept == Without(leases, id)
  {
    kept := [];
    for i := 0 to |leases|
      invariant kept + Without(leases[i..], id) == Without(leases, id)
    {
      WithoutStep(leases, i, id, kept);
      if leases[i].id != id {
        kept := kept + [leases[i]];
      }
    }
    assert leases[|leases|..] == [];
  }
}
