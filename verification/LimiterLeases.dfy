/** Where the limiter's leases go: every lease granted is held, released or expired. */
module LimiterLeases {
  import opened Words
  import opened OrderedMaps
  import opened Limiter
  import opened LimiterTheorems

  function Held(devices: map<uint64, Bucket>): map<uint64, nat> {
    map d | d in devices :: |devices[d].leases|
  }

  ghost predicate LeasesBalanced(s: State) {
    s.stats.granted == s.stats.released + s.stats.expired + Total(Held(s.devices))
  }

  lemma {:induction false} TotalSum(a: map<uint64, nat>, b: map<uint64, nat>, c: map<uint64, nat>)
    requires a.Keys == b.Keys == c.Keys && forall k | k in c :: c[k] == a[k] + b[k]
    ensures Total(c) == Total(a) + Total(b)
    decreases |c|
  {
    if c == map[] {
      assert a == map[] && b == map[];
    } else {
      var k := Least(c.Keys);
      TotalSum(a - {k}, b - {k}, c - {k});
      TotalSplit(a, k);
      TotalSplit(b, k);
      TotalSplit(c, k);
    }
  }

  lemma HeldPut(devices: map<uint64, Bucket>, d: uint64, b: Bucket)
    ensures Total(Held(devices[d := b])) + (if d in devices then |devices[d].leases| else 0)
         == Total(Held(devices)) + |b.leases|
  {
    assert Held(devices[d := b]) == Held(devices)[d := |b.leases|];
    TotalUpdate(Held(devices), d, |b.leases|);
  }

  lemma ExpiredBalanced(s: State, now: uint64)
    requires LeasesBalanced(s)
    ensures LeasesBalanced(Expired(s, now))
  {
    TotalSum(Held(Expired(s, now).devices), Dead(s.devices, now), Held(s.devices));
  }

  lemma KnownBalanced(s: State, config: Config, device: uint64)
    requires LeasesBalanced(s)
    ensures LeasesBalanced(Known(s, config, device))
  {
    if device !in s.devices {
      HeldPut(s.devices, device, Known(s, config, device).devices[device]);
    }
  }

  lemma RefreshedBalanced(k: State, device: uint64, now: uint64)
    requires LeasesBalanced(k) && device in k.devices
    ensures LeasesBalanced(Refreshed(k, device, now))
  {
    ExpiredBalanced(k, now);
    var t := Expired(k, now);
    HeldPut(t.devices, device, Refilled(t.devices[device], now));
  }

  /** A check refreshes the limiter, and beyond that only counts its decision. */
  lemma CheckRefreshes(s: State, config: Config, device: uint64, cost: uint32, now: uint64) returns (d: Decision)
    requires Served(s, config, device)
    ensures var t := Refreshed(Known(s, config, device), device, now);
      Check(s, config, device, cost, now).1 == t.(stats := Counted(t.stats, d))
  {
    d := Check(s, config, device, cost, now).0.decision;
  }

  lemma CheckBalanced(s: State, config: Config, device: uint64, cost: uint32, now: uint64)
    requires LeasesBalanced(s)
    ensures LeasesBalanced(Check(s, config, device, cost, now).1)
  {
    if !Served(s, config, device) {
      CountedBalanced(s, UnknownDevice);
      return;
    }
    KnownBalanced(s, config, device);
    RefreshedBalanced(Known(s, config, device), device, now);
    var d := CheckRefreshes(s, config, device, cost, now);
    CountedBalanced(Refreshed(Known(s, config, device), device, now), d);
  }

  lemma CountedBalanced(t: State, d: Decision)
    requires LeasesBalanced(t)
    ensures LeasesBalanced(t.(stats := Counted(t.stats, d)))
  {
  }

  lemma ConsumeBalanced(s: State, config: Config, device: uint64, cost: uint32, now: uint64)
    requires LeasesBalanced(s)
    ensures LeasesBalanced(Consume(s, config, device, cost, now).1)
  {
    CheckBalanced(s, config, device, cost, now);
    var (v, t) := Check(s, config, device, cost, now);
    if v.decision == Allowed && device in t.devices {
      HeldPut(t.devices, device, Spent(t.devices[device], cost));
    }
  }

  lemma AcquireBalanced(s: State, config: Config, r: Request)
    requires LeasesBalanced(s)
    ensures LeasesBalanced(Acquire(s, config, r).1)
  {
    if !Served(s, config, r.device) {
      return;
    }
    var k := Known(s, config, r.device);
    KnownBalanced(s, config, r.device);
    ExpiredBalanced(k, r.now);
    var t := Expired(k, r.now);
    var (lease, u) := Grant(t, config, r);
    if lease.Some? {
      HeldPut(t.devices, r.device, u.devices[r.device]);
    }
  }

  /** Leases vanish uncounted: with an unregistered device, or when one identifier stands for several
      leases of the device it is released from. */
  ghost predicate Loses(s: State, op: Op) {
    match op
    case OpUnregister(d) => d in s.devices && |s.devices[d].leases| > 0
    case OpRelease(id) =>
      var d := Holder(s.devices, s.devices.Keys, id);
      d.Some? && |Without(s.devices[d.value].leases, id)| != |s.devices[d.value].leases| - 1
    case _ => false
  }

  lemma LimitsBalanced(s: State, config: Config, device: uint64, limit: Limit)
    requires LeasesBalanced(s)
    ensures LeasesBalanced(Registered(s, config, device, limit)) && LeasesBalanced(Limited(s, device, limit))
  {
    HeldPut(s.devices, device, Registered(s, config, device, limit).devices[device]);
    HeldPut(s.devices, device, Limited(s, device, limit).devices[device]);
  }

  lemma UnregisterExactly(s: State, d: uint64)
    requires LeasesBalanced(s)
    ensures LeasesBalanced(s.(devices := s.devices - {d})) <==> !(d in s.devices && |s.devices[d].leases| > 0)
  {
    assert Held(s.devices - {d}) == Held(s.devices) - {d};
    if d in s.devices {
      TotalSplit(Held(s.devices), d);
    } else {
      assert s.devices - {d} == s.devices;
    }
  }

  lemma ReleaseExactly(s: State, id: uint64)
    requires LeasesBalanced(s)
    ensures LeasesBalanced(Release(s, id).1) <==> !Loses(s, OpRelease(id))
  {
    var d := Holder(s.devices, s.devices.Keys, id);
    if d.Some? {
      HeldPut(s.devices, d.value, s.devices[d.value].(leases := Without(s.devices[d.value].leases, id)));
    }
  }

  lemma OthersBalanced(s: State, config: Config, op: Op)
    requires LeasesBalanced(s) && !op.OpUnregister? && !op.OpRelease?
    ensures LeasesBalanced(Apply(s, config, op))
  {
    match op
    case OpRegister(d, limit) => LimitsBalanced(s, config, d, limit);
    case OpSetLimit(d, limit) => LimitsBalanced(s, config, d, limit);
    case OpAcquire(r) => AcquireBalanced(s, config, r);
    case OpExpire(now) => ExpiredBalanced(s, now);
    case OpCheck(d, cost, now) => CheckBalanced(s, config, d, cost, now);
    case OpConsume(d, cost, now) => ConsumeBalanced(s, config, d, cost, now);
  }

  /** Every operation keeps the account of leases, except exactly those two. */
  lemma LeasesBalancedExactly(s: State, config: Config, op: Op)
    requires LeasesBalanced(s)
    ensures LeasesBalanced(Apply(s, config, op)) <==> !Loses(s, op)
  {
    if op.OpUnregister? {
      UnregisterExactly(s, op.device);
    } else if op.OpRelease? {
      ReleaseExactly(s, op.id);
    } else {
      OthersBalanced(s, config, op);
    }
  }

  // ----- identifiers stay distinct, so a release removes one lease

  predicate Numbered(leases: seq<Lease>, next: nat) {
    && (forall i | 0 <= i < |leases| :: leases[i].id < next)
    && (forall i, j | 0 <= i < j < |leases| :: leases[i].id < leases[j].id)
  }

  ghost predicate AllNumbered(s: State) {
    forall d | d in s.devices :: Numbered(s.devices[d].leases, s.nextLeaseId)
  }

  /** A sublist of a numbered list is numbered. */
  lemma {:induction false} LiveNumbered(leases: seq<Lease>, next: nat, now: uint64)
    requires Numbered(leases, next)
    ensures Numbered(Live(leases, now), next)
    ensures forall i | 0 <= i < |Live(leases, now)| :: |leases| > 0 && leases[0].id <= Live(leases, now)[i].id
    decreases |leases|
  {
    if |leases| > 0 {
      LiveNumbered(leases[1..], next, now);
      assert |leases| > 1 ==> leases[0].id < leases[1..][0].id;
    }
  }

  lemma {:induction false} WithoutNumbered(leases: seq<Lease>, next: nat, id: uint64)
    requires Numbered(leases, next)
    ensures Numbered(Without(leases, id), next)
    ensures forall i | 0 <= i < |Without(leases, id)| :: |leases| > 0 && leases[0].id <= Without(leases, id)[i].id
    decreases |leases|
  {
    if |leases| > 0 {
      WithoutNumbered(leases[1..], next, id);
      assert |leases| > 1 ==> leases[0].id < leases[1..][0].id;
    }
  }

  lemma {:induction false} WithoutNone(leases: seq<Lease>, id: uint64)
    requires forall i | 0 <= i < |leases| :: leases[i].id != id
    ensures Without(leases, id) == leases
    decreases |leases|
  {
    if |leases| > 0 {
      WithoutNone(leases[1..], id);
    }
  }

  /** A numbered list loses at most one lease. */
  lemma {:induction false} WithoutOnce(leases: seq<Lease>, next: nat, id: uint64)
    requires Numbered(leases, next)
    ensures |leases| - 1 <= |Without(leases, id)| <= |leases|
    decreases |leases|
  {
    if |leases| > 0 {
      if leases[0].id == id {
        WithoutNone(leases[1..], id);
      } else {
        WithoutOnce(leases[1..], next, id);
      }
    }
  }

  lemma GrantNumbered(t: State, config: Config, r: Request)
    requires AllNumbered(t) && r.device in t.devices && t.nextLeaseId < MAX_64
    ensures AllNumbered(Grant(t, config, r).1)
  {
  }

  lemma ExpiredNumbered(s: State, now: uint64)
    requires AllNumbered(s)
    ensures AllNumbered(Expired(s, now))
  {
    forall d | d in s.devices
      ensures Numbered(Live(s.devices[d].leases, now), s.nextLeaseId)
    {
      LiveNumbered(s.devices[d].leases, s.nextLeaseId, now);
    }
  }

  lemma RefreshedNumbered(k: State, device: uint64, now: uint64)
    requires AllNumbered(k) && device in k.devices
    ensures AllNumbered(Refreshed(k, device, now))
  {
    ExpiredNumbered(k, now);
    assert Numbered(Expired(k, now).devices[device].leases, k.nextLeaseId);
  }

  lemma CheckNumbered(s: State, config: Config, device: uint64, cost: uint32, now: uint64)
    requires AllNumbered(s)
    ensures AllNumbered(Check(s, config, device, cost, now).1)
  {
    if !Served(s, config, device) {
      return;
    }
    assert AllNumbered(Known(s, config, device));
    RefreshedNumbered(Known(s, config, device), device, now);
    var d := CheckRefreshes(s, config, device, cost, now);
  }

  lemma ConsumeNumbered(s: State, config: Config, device: uint64, cost: uint32, now: uint64)
    requires AllNumbered(s)
    ensures AllNumbered(Consume(s, config, device, cost, now).1)
  {
    CheckNumbered(s, config, device, cost, now);
  }

  lemma AcquireNumbered(s: State, config: Config, r: Request)
    requires AllNumbered(s) && s.nextLeaseId < MAX_64
    ensures AllNumbered(Acquire(s, config, r).1)
  {
    if Served(s, config, r.device) {
      assert AllNumbered(Known(s, config, r.device));
      ExpiredNumbered(Known(s, config, r.device), r.now);
      GrantNumbered(Expired(Known(s, config, r.device), r.now), config, r);
    }
  }

  lemma ReleaseNumbered(s: State, id: uint64)
    requires AllNumbered(s)
    ensures AllNumbered(Release(s, id).1)
  {
    var d := Holder(s.devices, s.devices.Keys, id);
    if d.Some? {
      WithoutNumbered(s.devices[d.value].leases, s.nextLeaseId, id);
    }
  }

  lemma LimitsNumbered(s: State, config: Config, device: uint64, limit: Limit)
    requires AllNumbered(s)
    ensures AllNumbered(Registered(s, config, device, limit)) && AllNumbered(Limited(s, device, limit))
  {
  }

  lemma StepNumbered(s: State, config: Config, op: Op)
    requires AllNumbered(s) && s.nextLeaseId < MAX_64
    ensures AllNumbered(Apply(s, config, op))
  {
    match op
    case OpRegister(d, limit) => LimitsNumbered(s, config, d, limit);
    case OpSetLimit(d, limit) => LimitsNumbered(s, config, d, limit);
    case OpUnregister(d) =>
    case OpAcquire(r) => AcquireNumbered(s, config, r);
    case OpRelease(id) => ReleaseNumbered(s, id);
    case OpExpire(now) => ExpiredNumbered(s, now);
    case OpCheck(d, cost, now) => CheckNumbered(s, config, d, cost, now);
    case OpConsume(d, cost, now) => ConsumeNumbered(s, config, d, cost, now);
  }

  lemma {:induction false} HolderHolds(devices: map<uint64, Bucket>, rest: set<uint64>, id: uint64)
    requires rest <= devices.Keys
    ensures var d := Holder(devices, rest, id);
      d.Some? ==> |Without(devices[d.value].leases, id)| != |devices[d.value].leases|
    decreases |rest|
  {
    if rest != {} {
      HolderHolds(devices, rest - {Least(rest)}, id);
    }
  }

  /** The run never unregisters a device that holds leases, nor exhausts the lease identifiers. */
  ghost predicate KeepsDevices(s: State, config: Config, ops: seq<Op>)
    decreases |ops|
  {
    |ops| == 0 ||
    (&& s.nextLeaseId < MAX_64
     && (ops[0].OpUnregister? && ops[0].device in s.devices ==> s.devices[ops[0].device].leases == [])
     && KeepsDevices(Apply(s, config, ops[0]), config, ops[1..]))
  }

  lemma {:induction false} RunBalanced(s: State, config: Config, ops: seq<Op>)
    requires LeasesBalanced(s) && AllNumbered(s) && KeepsDevices(s, config, ops)
    ensures LeasesBalanced(RunOps(s, config, ops))
    decreases |ops|
  {
    if |ops| > 0 {
      if ops[0].OpRelease? {
        var d := Holder(s.devices, s.devices.Keys, ops[0].id);
        HolderHolds(s.devices, s.devices.Keys, ops[0].id);
        if d.Some? {
          WithoutOnce(s.devices[d.value].leases, s.nextLeaseId, ops[0].id);
        }
      }
      LeasesBalancedExactly(s, config, ops[0]);
      StepNumbered(s, config, ops[0]);
      RunBalanced(Apply(s, config, ops[0]), config, ops[1..]);
    }
  }

  /** From a new limiter on, granted leases are those released, those expired and those held. */
  lemma ReachableBalanced(config: Config, ops: seq<Op>)
    requires KeepsDevices(START, config, ops)
    ensures LeasesBalanced(RunOps(START, config, ops))
  {
    assert Held(map[]) == map[];
    RunBalanced(START, config, ops);
  }
}
