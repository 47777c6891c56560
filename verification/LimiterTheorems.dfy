/** What the limiter guarantees over whole runs: exclusion of leases, a bound on the tokens spent, and
    an exact retry time. */
module LimiterTheorems {
  import opened Words
  import opened Limiter

  datatype Op =
    | OpRegister(device: uint64, limit: Limit)
    | OpSetLimit(device: uint64, limit: Limit)
    | OpUnregister(device: uint64)
    | OpAcquire(request: Request)
    | OpRelease(id: uint64)
    | OpExpire(now: uint64)
    | OpCheck(device: uint64, cost: uint32, now: uint64)
    | OpConsume(device: uint64, cost: uint32, now: uint64)

  function Apply(s: State, config: Config, op: Op): State {
    match op
    case OpRegister(d, limit) => Registered(s, config, d, limit)
    case OpSetLimit(d, limit) => Limited(s, d, limit)
    case OpUnregister(d) => s.(devices := s.devices - {d})
    case OpAcquire(r) => Acquire(s, config, r).1
    case OpRelease(id) => Release(s, id).1
    case OpExpire(now) => Expired(s, now)
    case OpCheck(d, cost, now) => Check(s, config, d, cost, now).1
    case OpConsume(d, cost, now) => Consume(s, config, d, cost, now).1
  }

  function RunOps(s: State, config: Config, ops: seq<Op>): State
    decreases |ops|
  {
    if |ops| == 0 then s else RunOps(Apply(s, config, ops[0]), config, ops[1..])
  }

  const START: State := State(map[], NO_STATS, 1)

  // ----- leases exclude one another

  predicate LimitOk(limit: Limit) {
    limit.burst > 0 && limit.refillPerSecond > 0 && 0 < limit.minimumTokens <= limit.burst
  }

  /** An exclusive lease is alone. */
  predicate Excluding(leases: seq<Lease>) {
    forall i | 0 <= i < |leases| :: leases[i].mode == Exclusive ==> |leases| == 1
  }

  predicate BucketOk(b: Bucket) {
    LimitOk(b.limit) && b.tokens <= b.limit.burst && Excluding(b.leases)
  }

  predicate Safe(s: State) {
    forall d | d in s.devices :: BucketOk(s.devices[d])
  }

  predicate AllShared(leases: seq<Lease>) {
    forall i | 0 <= i < |leases| :: leases[i].mode == Shared
  }

  /** Leases are exclusive of one another when they are all shared or only one. */
  lemma ExcludingMeans(leases: seq<Lease>)
    ensures Excluding(leases) <==> AllShared(leases) || |leases| == 1
  {
    if Excluding(leases) && |leases| != 1 {
      forall i | 0 <= i < |leases|
        ensures leases[i].mode == Shared
      {
      }
    }
  }

  lemma {:induction false} LiveShared(leases: seq<Lease>, now: uint64)
    requires AllShared(leases)
    ensures AllShared(Live(leases, now))
    decreases |leases|
  {
    if |leases| > 0 {
      LiveShared(leases[1..], now);
    }
  }

  lemma {:induction false} WithoutShared(leases: seq<Lease>, id: uint64)
    requires AllShared(leases)
    ensures AllShared(Without(leases, id))
    decreases |leases|
  {
    if |leases| > 0 {
      WithoutShared(leases[1..], id);
    }
  }

  lemma LiveKeeps(leases: seq<Lease>, now: uint64)
    requires Excluding(leases)
    ensures Excluding(Live(leases, now))
  {
    ExcludingMeans(leases);
    ExcludingMeans(Live(leases, now));
    if AllShared(leases) {
      LiveShared(leases, now);
    } else {
      assert leases[1..] == [];
    }
  }

  lemma WithoutKeeps(leases: seq<Lease>, id: uint64)
    requires Excluding(leases)
    ensures Excluding(Without(leases, id))
  {
    ExcludingMeans(leases);
    ExcludingMeans(Without(leases, id));
    if AllShared(leases) {
      WithoutShared(leases, id);
    } else {
      assert leases[1..] == [];
    }
  }

  lemma DropDeadOk(b: Bucket, now: uint64)
    requires BucketOk(b)
    ensures BucketOk(DropDead(b, now))
  {
    LiveKeeps(b.leases, now);
  }

  lemma SafeExpired(s: State, now: uint64)
    requires Safe(s)
    ensures Safe(Expired(s, now))
  {
    forall d | d in s.devices
      ensures BucketOk(DropDead(s.devices[d], now))
    {
      DropDeadOk(s.devices[d], now);
    }
  }

  lemma GrantKeeps(leases: seq<Lease>, l: Lease)
    requires Excluding(leases) && !Conflict(leases, l.mode)
    ensures Excluding(leases + [l])
  {
    ExcludingMeans(leases);
    if |leases| > 0 {
      assert l.mode == Shared;
      assert forall i | 0 <= i < |leases| :: leases[i].mode == Shared;
    }
  }

  lemma RefilledOk(b: Bucket, now: uint64)
    requires BucketOk(b)
    ensures BucketOk(Refilled(b, now))
  {
  }

  /** What a check makes of the bucket it is for. */
  function Touched(b: Bucket, now: uint64): Bucket {
    Refilled(DropDead(b, now), now)
  }

  predicate Served(s: State, config: Config, device: uint64) {
    device in s.devices || config.allowUnknown
  }

  /** A check touches its own bucket, and drops dead leases everywhere. */
  lemma CheckBuckets(s: State, config: Config, device: uint64, cost: uint32, now: uint64)
    requires Served(s, config, device)
    ensures var k := Known(s, config, device);
      var (v, t) := Check(s, config, device, cost, now);
      && t.devices.Keys == k.devices.Keys
      && device in t.devices && t.devices[device] == Touched(k.devices[device], now)
      && (forall d | d in k.devices && d != device :: t.devices[d] == DropDead(k.devices[d], now))
      && v == VerdictOn(t.devices[device], config, cost)
  {
  }

  lemma SafeCheck(s: State, config: Config, device: uint64, cost: uint32, now: uint64)
    requires Safe(s)
    ensures Safe(Check(s, config, device, cost, now).1)
  {
    if Served(s, config, device) {
      var k := Known(s, config, device);
      CheckBuckets(s, config, device, cost, now);
      forall d | d in k.devices
        ensures BucketOk(Check(s, config, device, cost, now).1.devices[d])
      {
        DropDeadOk(k.devices[d], now);
        RefilledOk(DropDead(k.devices[d], now), now);
      }
    }
  }

  lemma SafeAcquire(s: State, config: Config, r: Request)
    requires Safe(s)
    ensures Safe(Acquire(s, config, r).1)
  {
    if Served(s, config, r.device) {
      SafeExpired(Known(s, config, r.device), r.now);
      var (lease, t) := Acquire(s, config, r);
      if lease.Some? {
        GrantKeeps(Expired(Known(s, config, r.device), r.now).devices[r.device].leases, lease.value);
      }
    }
  }

  /** Whatever is done, no exclusive lease ever stands beside another lease of its device, and no
      bucket ever holds more than its burst. */
  lemma SafeStep(s: State, config: Config, op: Op)
    requires Safe(s)
    ensures Safe(Apply(s, config, op))
  {
    match op
    case OpRegister(d, limit) =>
    case OpSetLimit(d, limit) =>
    case OpUnregister(d) =>
    case OpAcquire(r) =>
      SafeAcquire(s, config, r);
    case OpRelease(id) =>
      var d := Holder(s.devices, s.devices.Keys, id);
      if d.Some? {
        WithoutKeeps(s.devices[d.value].leases, id);
      }
    case OpExpire(now) => SafeExpired(s, now);
    case OpCheck(d, cost, now) => SafeCheck(s, config, d, cost, now);
    case OpConsume(d, cost, now) => SafeCheck(s, config, d, cost, now);
  }

  lemma {:induction false} SafeRun(s: State, config: Config, ops: seq<Op>)
    requires Safe(s)
    ensures Safe(RunOps(s, config, ops))
    decreases |ops|
  {
    if |ops| > 0 {
      SafeStep(s, config, ops[0]);
      SafeRun(Apply(s, config, ops[0]), config, ops[1..]);
    }
  }

  // ----- the token bucket conforms to its limit

  predicate Reconfigures(op: Op, device: uint64) {
    match op
    case OpRegister(d, _) => d == device
    case OpSetLimit(d, _) => d == device
    case OpUnregister(d) => d == device
    case _ => false
  }

  /** Tokens of `device` that an operation grants: the effective cost of an allowed `consume`. */
  function Granted(s: State, config: Config, op: Op, device: uint64): nat {
    if op.OpConsume? && op.device == device && device in s.devices then
      var (v, t) := Check(s, config, device, op.cost, op.now);
      if v.decision == Allowed && device in t.devices then EffectiveCost(t.devices[device], op.cost) else 0
    else 0
  }

  function GrantedBy(s: State, config: Config, ops: seq<Op>, device: uint64): nat
    decreases |ops|
  {
    if |ops| == 0 then 0
    else Granted(s, config, ops[0], device) + GrantedBy(Apply(s, config, ops[0]), config, ops[1..], device)
  }

  /** What a bucket holds, less all that its rate has yielded up to its last refill. */
  function Balance(b: Bucket): int {
    ONE_SECOND * b.tokens - b.lastRefill * b.limit.refillPerSecond
  }

  /** From `b` to `c` the limit stayed, the clock did not go back, and what was granted is covered. */
  ghost predicate Paid(b: Bucket, c: Bucket, granted: nat) {
    c.limit == b.limit && c.lastRefill >= b.lastRefill && Balance(c) + ONE_SECOND * granted <= Balance(b)
  }

  lemma GainedBound(from: uint64, now: uint64, rate: uint32)
    requires from <= now
    ensures ONE_SECOND * Gained(now - from, rate) <= now * rate - from * rate
  {
    assert (now - from) * rate == now * rate - from * rate;
    WrapDown((now - from) * rate);
  }

  lemma WrapDown(n: nat)
    ensures Wrap64(n) <= n && ONE_SECOND * (Wrap64(n) / ONE_SECOND) <= n
  {
  }

  lemma CreditBound(b: Bucket, now: uint64, gained: nat)
    requires b.lastRefill > 0 && b.tokens <= b.limit.burst
    ensures var r := RefilledBy(b, now, gained);
      r.limit == b.limit && r.leases == b.leases && b.tokens <= r.limit.burst
      && (r == b || (r.lastRefill == now > b.lastRefill && r.tokens <= b.tokens + gained))
  {
  }

  /** A refill credits at most what the elapsed time allows, even when its product wraps. */
  lemma RefillBound(b: Bucket, now: uint64)
    requires b.lastRefill > 0 && b.tokens <= b.limit.burst
    ensures Paid(b, Refilled(b, now), 0)
  {
    if now > b.lastRefill {
      var gained := Gained(now - b.lastRefill, b.limit.refillPerSecond);
      CreditBound(b, now, gained);
      GainedBound(b.lastRefill, now, b.limit.refillPerSecond);
    }
  }

  predicate SamePurse(b: Bucket, c: Bucket) {
    c.limit == b.limit && c.tokens == b.tokens && c.lastRefill == b.lastRefill
  }

  predicate Touches(op: Op, device: uint64) {
    (op.OpCheck? || op.OpConsume?) && op.device == device
  }

  lemma AcquireLeavesPurse(s: State, config: Config, r: Request, device: uint64)
    requires device in s.devices
    ensures var t := Acquire(s, config, r).1;
      device in t.devices && SamePurse(s.devices[device], t.devices[device])
  {
  }

  /** Only a check or a consume of the device itself moves its tokens. */
  lemma OthersLeavePurse(s: State, config: Config, op: Op, device: uint64)
    requires device in s.devices && !Reconfigures(op, device) && !Touches(op, device)
    ensures var t := Apply(s, config, op);
      device in t.devices && SamePurse(s.devices[device], t.devices[device])
  {
    match op
    case OpRegister(d, limit) =>
    case OpSetLimit(d, limit) =>
    case OpUnregister(d) =>
    case OpAcquire(r) => AcquireLeavesPurse(s, config, r, device);
    case OpRelease(id) =>
    case OpExpire(now) =>
    case OpCheck(d, cost, now) =>
      if Served(s, config, d) {
        CheckBuckets(s, config, d, cost, now);
      }
    case OpConsume(d, cost, now) =>
      if Served(s, config, d) {
        CheckBuckets(s, config, d, cost, now);
      }
  }

  /** The bucket's clock has started, or it holds tokens it can neither spend nor be refilled. */
  predicate Started(b: Bucket) {
    b.lastRefill > 0 || 0 < b.tokens < b.limit.minimumTokens
  }

  lemma TouchedPaid(b: Bucket, now: uint64)
    requires Started(b) && BucketOk(b)
    ensures Paid(b, Touched(b, now), 0)
    ensures Started(Touched(b, now)) && Touched(b, now).lastRefill >= b.lastRefill
  {
    if b.lastRefill > 0 {
      RefillBound(DropDead(b, now), now);
    }
  }

  lemma SpentPaid(b: Bucket, c: Bucket, cost: uint32)
    requires Paid(b, c, 0) && c.tokens >= EffectiveCost(c, cost)
    ensures Paid(b, Spent(c, cost), EffectiveCost(c, cost))
  {
  }

  lemma PaidAdds(b: Bucket, c: Bucket, e: Bucket, first: nat, second: nat)
    requires Paid(b, c, first) && Paid(c, e, second)
    ensures Paid(b, e, first + second)
  {
  }

  /** What a consume makes of its own bucket. */
  lemma ConsumeBucket(s: State, config: Config, device: uint64, cost: uint32, now: uint64)
    requires device in s.devices
    ensures var c := Touched(s.devices[device], now);
      var t := Consume(s, config, device, cost, now).1;
      var allowed := VerdictOn(c, config, cost).decision == Allowed;
      && device in t.devices
      && t.devices[device] == (if allowed then Spent(c, cost) else c)
      && Granted(s, config, OpConsume(device, cost, now), device) == (if allowed then EffectiveCost(c, cost) else 0)
      && (allowed ==> c.tokens >= EffectiveCost(c, cost))
  {
    CheckBuckets(s, config, device, cost, now);
  }

  /** A bucket that spends has its clock started: fewer tokens than the minimum pay for nothing. */
  lemma SpentStarted(b: Bucket, cost: uint32)
    requires Started(b) && b.tokens >= EffectiveCost(b, cost)
    ensures Started(Spent(b, cost))
  {
  }

  lemma StepPaid(s: State, config: Config, op: Op, device: uint64)
    requires Safe(s) && device in s.devices && Started(s.devices[device])
    requires !Reconfigures(op, device)
    ensures var t := Apply(s, config, op);
      && device in t.devices && Started(t.devices[device])
      && Paid(s.devices[device], t.devices[device], Granted(s, config, op, device))
  {
    var b := s.devices[device];
    if Touches(op, device) {
      TouchedPaid(b, op.now);
      if op.OpConsume? {
        ConsumeBucket(s, config, device, op.cost, op.now);
        if Granted(s, config, op, device) > 0 {
          SpentPaid(b, Touched(b, op.now), op.cost);
          SpentStarted(Touched(b, op.now), op.cost);
        }
      } else {
        CheckBuckets(s, config, device, op.cost, op.now);
      }
    } else {
      OthersLeavePurse(s, config, op, device);
    }
  }

  lemma {:induction false} RunPaid(s: State, config: Config, ops: seq<Op>, device: uint64)
    requires Safe(s) && device in s.devices && Started(s.devices[device])
    requires forall i | 0 <= i < |ops| :: !Reconfigures(ops[i], device)
    ensures var t := RunOps(s, config, ops);
      device in t.devices && Paid(s.devices[device], t.devices[device], GrantedBy(s, config, ops, device))
    decreases |ops|
  {
    if |ops| > 0 {
      var m := Apply(s, config, ops[0]);
      StepPaid(s, config, ops[0], device);
      SafeStep(s, config, ops[0]);
      RunPaid(m, config, ops[1..], device);
      PaidAdds(s.devices[device], m.devices[device], RunOps(s, config, ops).devices[device],
               Granted(s, config, ops[0], device), GrantedBy(m, config, ops[1..], device));
    }
  }

  /** What the rate of `b` yields between the last refills of `b` and of `c`, in billionths. */
  function Yielded(b: Bucket, c: Bucket): int {
    (c.lastRefill - b.lastRefill) * b.limit.refillPerSecond
  }

  lemma PaidMeans(b: Bucket, c: Bucket, granted: nat)
    requires Paid(b, c, granted)
    ensures ONE_SECOND * (c.tokens + granted) <= ONE_SECOND * b.tokens + Yielded(b, c)
  {
    assert (c.lastRefill - b.lastRefill) * b.limit.refillPerSecond
        == c.lastRefill * b.limit.refillPerSecond - b.lastRefill * b.limit.refillPerSecond;
  }

  /** The tokens granted over the run plus those held after it exceed the burst by no more than what
      the rate yields between the two refill times. */
  predicate WithinRate(s: State, config: Config, ops: seq<Op>, device: uint64) {
    var t := RunOps(s, config, ops);
    device in s.devices && device in t.devices
    && ONE_SECOND * (t.devices[device].tokens + GrantedBy(s, config, ops, device))
       <= ONE_SECOND * s.devices[device].limit.burst + Yielded(s.devices[device], t.devices[device])
  }

  /** Conformance: once its clock has started, and as long as it is not reconfigured, a device stays
      within its rate, whatever else the limiter does, at whatever timestamps, in any order. */
  lemma Conformance(s: State, config: Config, ops: seq<Op>, device: uint64)
    requires Safe(s) && device in s.devices && Started(s.devices[device])
    requires forall i | 0 <= i < |ops| :: !Reconfigures(ops[i], device)
    ensures WithinRate(s, config, ops, device)
  {
    RunPaid(s, config, ops, device);
    PaidMeans(s.devices[device], RunOps(s, config, ops).devices[device], GrantedBy(s, config, ops, device));
  }

  // ----- exactly when it conforms

  /** The same, counted from the tokens held before the run. */
  ghost predicate Conforms(s: State, config: Config, ops: seq<Op>, device: uint64) {
    var t := RunOps(s, config, ops);
    device in s.devices && device in t.devices
    && Paid(s.devices[device], t.devices[device], GrantedBy(s, config, ops, device))
  }

  ghost predicate Undisturbed(ops: seq<Op>, device: uint64) {
    forall i | 0 <= i < |ops| :: !Reconfigures(ops[i], device)
  }

  ghost predicate AlwaysConforms(s: State, config: Config, device: uint64) {
    forall ops: seq<Op> | Undisturbed(ops, device) :: Conforms(s, config, ops, device)
  }

  ghost predicate AlwaysWithinRate(s: State, config: Config, device: uint64) {
    forall ops: seq<Op> | Undisturbed(ops, device) :: WithinRate(s, config, ops, device)
  }

  lemma RunFirst(s: State, config: Config, op: Op, ops: seq<Op>, device: uint64)
    ensures RunOps(s, config, [op] + ops) == RunOps(Apply(s, config, op), config, ops)
    ensures GrantedBy(s, config, [op] + ops, device)
         == Granted(s, config, op, device) + GrantedBy(Apply(s, config, op), config, ops, device)
  {
    assert ([op] + ops)[1..] == ops;
  }

  lemma {:induction false} NoneLive(leases: seq<Lease>)
    ensures Live(leases, MAX_64) == []
    decreases |leases|
  {
    if |leases| > 0 {
      NoneLive(leases[1..]);
    }
  }

  /** What can be spent at once at time zero while the clock has not started: an empty bucket fills up. */
  function Spendable(b: Bucket): uint32 {
    if b.tokens == 0 then b.limit.burst else b.tokens
  }

  lemma SpentAtZero(s: State, config: Config, device: uint64)
    requires device in s.devices && LimitOk(s.devices[device].limit)
    requires var b := s.devices[device];
      b.leases == [] && b.lastRefill == 0 && (b.tokens == 0 || b.tokens >= b.limit.minimumTokens)
    ensures var b := s.devices[device];
      var op := OpConsume(device, Spendable(b), 0);
      && Granted(s, config, op, device) == Spendable(b)
      && device in Apply(s, config, op).devices && Apply(s, config, op).devices[device] == b.(tokens := 0)
  {
    var b := s.devices[device];
    ConsumeBucket(s, config, device, Spendable(b), 0);
    assert Touched(b, 0) == b.(tokens := Spendable(b));
    assert VerdictOn(Touched(b, 0), config, Spendable(b)).decision == Allowed;
  }

  /** The run that shows it: drop all leases, then spend everything twice at time zero. */
  function TwiceAtZero(b: Bucket, device: uint64): seq<Op> {
    [OpExpire(MAX_64)] + ([OpConsume(device, Spendable(b), 0)] + ([OpConsume(device, b.limit.burst, 0)] + []))
  }

  lemma TwiceGranted(s: State, config: Config, device: uint64)
    requires Safe(s) && device in s.devices && !Started(s.devices[device])
    ensures var b := s.devices[device];
      var ops := TwiceAtZero(b, device);
      && GrantedBy(s, config, ops, device) == Spendable(b) + b.limit.burst
      && device in RunOps(s, config, ops).devices
      && RunOps(s, config, ops).devices[device] == b.(tokens := 0, leases := [])
  {
    var b := s.devices[device];
    var first, second := OpConsume(device, Spendable(b), 0), OpConsume(device, b.limit.burst, 0);
    NoneLive(b.leases);
    var s1 := Apply(s, config, OpExpire(MAX_64));
    assert s1.devices[device] == b.(leases := []);
    SpentAtZero(s1, config, device);
    var s2 := Apply(s1, config, first);
    SpentAtZero(s2, config, device);
    var s3 := Apply(s2, config, second);
    RunFirst(s2, config, second, [], device);
    RunFirst(s1, config, first, [second] + [], device);
    RunFirst(s, config, OpExpire(MAX_64), [first] + ([second] + []), device);
    assert RunOps(s3, config, []) == s3 && GrantedBy(s3, config, [], device) == 0;
    assert Granted(s, config, OpExpire(MAX_64), device) == 0;
  }

  lemma TooMuchSpent(b: Bucket, granted: nat)
    requires LimitOk(b.limit) && b.lastRefill == 0 && granted == Spendable(b) + b.limit.burst
    ensures !Paid(b, b.(tokens := 0, leases := []), granted)
    ensures ONE_SECOND * granted > ONE_SECOND * b.limit.burst + Yielded(b, b.(tokens := 0, leases := []))
  {
    assert Yielded(b, b.(tokens := 0, leases := [])) == 0;
  }

  /** Any run that grants that much and leaves that little breaks both bounds. */
  lemma BreaksBoth(s: State, config: Config, ops: seq<Op>, device: uint64)
    requires device in s.devices && LimitOk(s.devices[device].limit) && s.devices[device].lastRefill == 0
    requires var b := s.devices[device];
      && GrantedBy(s, config, ops, device) == Spendable(b) + b.limit.burst
      && device in RunOps(s, config, ops).devices
      && RunOps(s, config, ops).devices[device] == b.(tokens := 0, leases := [])
    ensures !Conforms(s, config, ops, device) && !WithinRate(s, config, ops, device)
  {
    TooMuchSpent(s.devices[device], GrantedBy(s, config, ops, device));
  }

  lemma TwiceUndisturbed(b: Bucket, device: uint64)
    ensures Undisturbed(TwiceAtZero(b, device), device)
  {
  }

  /** For every state: a device always conforms if and only if its last refill has a positive time, or
      its tokens lie strictly between zero and the least cost.  Otherwise zero, the mark of "never
      refilled", lets an empty bucket fill up again at time zero. */
  lemma ConformsExactly(s: State, config: Config, device: uint64)
    requires Safe(s) && device in s.devices
    ensures AlwaysConforms(s, config, device) <==> Started(s.devices[device])
    ensures AlwaysWithinRate(s, config, device) <==> Started(s.devices[device])
  {
    if Started(s.devices[device]) {
      forall ops: seq<Op> | Undisturbed(ops, device)
        ensures Conforms(s, config, ops, device) && WithinRate(s, config, ops, device)
      {
        RunPaid(s, config, ops, device);
        Conformance(s, config, ops, device);
      }
    } else {
      var ops := TwiceAtZero(s.devices[device], device);
      TwiceUndisturbed(s.devices[device], device);
      TwiceGranted(s, config, device);
      BreaksBoth(s, config, ops, device);
    }
  }

  // ----- when to come back

  lemma FloorReaches(n: nat, d: nat, m: nat)
    requires d > 0
    ensures n / d >= m <==> n >= m * d
  {
    assert n == d * (n / d) + n % d;
    MultiplyMonotone(d, m, n / d);
    MultiplyMonotone(d, n / d + 1, m);
  }

  lemma CeilingReached(x: nat, r: nat, e: nat)
    requires r > 0
    ensures (x + r - 1) / r <= e <==> x <= e * r
  {
    var q := (x + r - 1) / r;
    assert x + r - 1 == r * q + (x + r - 1) % r;
    MultiplyMonotone(r, q, e);
    MultiplyMonotone(r, e + 1, q);
  }

  lemma SmallWrap(n: nat)
    ensures n < TWO_64 ==> Wrap64(n) == n
  {
  }

  /** The 64-bit product of time and rate has wrapped, to less than what is missing. */
  predicate ProductLost(elapsed: nat, rate: uint32, missing: nat) {
    elapsed * rate >= TWO_64 && elapsed * rate % TWO_64 < missing * 1_000_000_000
  }

  /** Enough tokens have been gained exactly once the advertised wait is over, unless the product is lost. */
  lemma GainReaches(elapsed: nat, rate: uint32, missing: uint32)
    requires rate > 0
    ensures Gained(elapsed, rate) >= missing
        <==> elapsed >= (missing * ONE_SECOND + rate - 1) / rate && !ProductLost(elapsed, rate, missing)
  {
    FloorReaches(Wrap64(elapsed * rate), ONE_SECOND, missing);
    CeilingReached(missing * ONE_SECOND, rate, elapsed);
    WrapDown(elapsed * rate);
    SmallWrap(elapsed * rate);
  }

  lemma CreditReaches(tokens: nat, burst: uint32, cost: nat, gained: nat)
    requires tokens < cost <= burst
    ensures Min(burst, Wrap32(tokens + Min(gained, burst))) >= cost
        <==> gained >= cost - tokens && tokens + Min(gained, burst) < TWO_32
  {
    var sum := tokens + Min(gained, burst);
    if sum < TWO_32 {
      assert Wrap32(sum) == sum;
    } else {
      assert Wrap32(sum) == sum - TWO_32;
    }
  }

  lemma CreditedReaches(b: Bucket, cost: uint32, now: uint64, gained: nat)
    requires b.tokens < cost <= b.limit.burst && 0 < b.lastRefill < now
    ensures RefilledBy(b, now, gained).tokens >= cost
        <==> gained >= cost - b.tokens && b.tokens + Min(gained, b.limit.burst) < TWO_32
  {
    CreditReaches(b.tokens, b.limit.burst, cost, gained);
  }

  /** The fewest nanoseconds in which the rate yields what is missing. */
  predicate IsWait(wait: nat, missing: nat, rate: uint32) {
    (wait - 1) * rate < missing * 1_000_000_000 <= wait * rate
  }

  lemma RetryIsWait(b: Bucket, cost: uint32)
    requires LimitOk(b.limit) && b.tokens < cost
    ensures IsWait(RetryAfter(b, cost), cost - b.tokens, b.limit.refillPerSecond)
  {
    var x, r, w := (cost - b.tokens) * ONE_SECOND, b.limit.refillPerSecond, RetryAfter(b, cost);
    RetryPositive(b, cost);
    CeilingReached(x, r, w);
    CeilingReached(x, r, w - 1);
  }

  lemma RetryPositive(b: Bucket, cost: uint32)
    requires LimitOk(b.limit) && b.tokens < cost
    ensures RetryAfter(b, cost) > 0
  {
    FloorReaches((cost - b.tokens) * ONE_SECOND + b.limit.refillPerSecond - 1, b.limit.refillPerSecond, 1);
  }

  /** The token arithmetic of a refill wraps: its 64-bit product of time and rate, to less than what is
      missing, or its 32-bit sum of tokens. */
  predicate TokensWrap(b: Bucket, cost: uint32, now: uint64)
    requires b.tokens < cost && b.lastRefill <= now
  {
    ProductLost(now - b.lastRefill, b.limit.refillPerSecond, cost - b.tokens)
    || b.tokens + Min(Gained(now - b.lastRefill, b.limit.refillPerSecond), b.limit.burst) >= TWO_32
  }

  /** The cost is within the burst, the clock has started, the advertised wait since the last refill is
      over and the token arithmetic does not wrap. */
  predicate Payable(b: Bucket, cost: uint32, now: uint64)
    requires b.tokens < cost
  {
    && cost <= b.limit.burst && b.lastRefill > 0
    && b.lastRefill + RetryAfter(b, cost) <= now
    && !TokensWrap(b, cost, now)
  }

  /** A bucket that is short of `cost` can pay it after a refill exactly if it is payable then. */
  lemma RefillReaches(b: Bucket, cost: uint32, now: uint64)
    requires LimitOk(b.limit) && b.tokens < cost && b.tokens <= b.limit.burst
    requires b.lastRefill == 0 ==> b.tokens > 0
    ensures Refilled(b, now).tokens >= cost <==> Payable(b, cost, now)
  {
    RefilledOk(b.(leases := []), now);
    if 0 < b.lastRefill < now && cost <= b.limit.burst {
      GainReaches(now - b.lastRefill, b.limit.refillPerSecond, cost - b.tokens);
      CreditedReaches(b, cost, now, Gained(now - b.lastRefill, b.limit.refillPerSecond));
    } else if now == b.lastRefill {
      RetryPositive(b, cost);
    }
  }

  /** While the product of time and rate fits 64 bits and tokens plus burst 32, the wait alone decides. */
  lemma WaitDecides(b: Bucket, cost: uint32, now: uint64)
    requires LimitOk(b.limit) && b.tokens < cost <= b.limit.burst && 0 < b.lastRefill <= now
    requires (now - b.lastRefill) * b.limit.refillPerSecond < TWO_64 && b.tokens + b.limit.burst < TWO_32
    ensures Refilled(b, now).tokens >= cost <==> b.lastRefill + RetryAfter(b, cost) <= now
  {
    RefillReaches(b, cost, now);
  }

  /** Some lease that has not run out is exclusive. */
  predicate LockedAt(leases: seq<Lease>, now: uint64) {
    exists i | 0 <= i < |leases| :: leases[i].expires > now && leases[i].mode == Exclusive
  }

  lemma {:induction false} LiveMember(leases: seq<Lease>, now: uint64, l: Lease)
    ensures l in Live(leases, now) <==> l in leases && l.expires > now
    decreases |leases|
  {
    if |leases| > 0 {
      LiveMember(leases[1..], now, l);
    }
  }

  lemma LockedIsConflict(leases: seq<Lease>, now: uint64)
    ensures Conflict(Live(leases, now), Shared) <==> LockedAt(leases, now)
  {
    var live := Live(leases, now);
    if LockedAt(leases, now) {
      var i :| 0 <= i < |leases| && leases[i].expires > now && leases[i].mode == Exclusive;
      LiveMember(leases, now, leases[i]);
    }
    if Conflict(live, Shared) {
      var i :| 0 <= i < |live| && live[i].mode == Exclusive;
      LiveMember(leases, now, live[i]);
    }
  }

  /** When a check for a known device says yes. */
  lemma AllowedWhen(s: State, config: Config, device: uint64, cost: uint32, now: uint64)
    requires device in s.devices
    ensures var b := Touched(s.devices[device], now);
      Check(s, config, device, cost, now).0.decision == Allowed
      <==> !LockedAt(s.devices[device].leases, now) && b.tokens >= EffectiveCost(b, cost)
  {
    LockedIsConflict(s.devices[device].leases, now);
    CheckBuckets(s, config, device, cost, now);
  }

  /** The bucket a check for `device` decides on. */
  function Decided(s: State, config: Config, device: uint64, now: uint64): Bucket
    requires Served(s, config, device)
  {
    Touched(Known(s, config, device).devices[device], now)
  }

  /** When a check says to come back, and how long it says to wait. */
  lemma LimitedWhen(s: State, config: Config, device: uint64, cost: uint32, now: uint64)
    requires Safe(s) && Served(s, config, device)
    requires Check(s, config, device, cost, now).0.decision == RateLimited
    ensures var b := Decided(s, config, device, now);
      && LimitOk(b.limit) && b.tokens <= b.limit.burst && b.tokens < EffectiveCost(b, cost)
      && (b.lastRefill == 0 ==> b.tokens > 0)
      && Check(s, config, device, cost, now).0.retryAfter == RetryAfter(b, EffectiveCost(b, cost))
  {
    CheckBuckets(s, config, device, cost, now);
    SafeCheck(s, config, device, cost, now);
  }

  lemma SamePursePays(b: Bucket, c: Bucket, cost: uint32, t: uint64)
    requires SamePurse(b, c) && b.tokens < cost
    ensures Payable(b, cost, t) <==> Payable(c, cost, t)
  {
  }

  /** In any state in which the device has the tokens of `b`, a check is allowed exactly if no exclusive
      lease is live and the cost is payable then. */
  lemma AllowedExactly(b: Bucket, s: State, config: Config, device: uint64, cost: uint32, t: uint64)
    requires LimitOk(b.limit) && b.tokens <= b.limit.burst && (b.lastRefill == 0 ==> b.tokens > 0)
    requires b.tokens < EffectiveCost(b, cost) && device in s.devices && SamePurse(b, s.devices[device])
    ensures Check(s, config, device, cost, t).0.decision == Allowed
      <==> !LockedAt(s.devices[device].leases, t) && Payable(b, EffectiveCost(b, cost), t)
  {
    var c := DropDead(s.devices[device], t);
    AllowedWhen(s, config, device, cost, t);
    SamePursePays(b, c, EffectiveCost(b, cost), t);
    RefillReaches(c, EffectiveCost(b, cost), t);
  }

  /** No operation checks, consumes from or reconfigures the device. */
  ghost predicate Bypasses(ops: seq<Op>, device: uint64) {
    forall i | 0 <= i < |ops| :: !Reconfigures(ops[i], device) && !Touches(ops[i], device)
  }

  lemma {:induction false} RunLeavesPurse(s: State, config: Config, ops: seq<Op>, device: uint64)
    requires device in s.devices && Bypasses(ops, device)
    ensures var t := RunOps(s, config, ops);
      device in t.devices && SamePurse(s.devices[device], t.devices[device])
    decreases |ops|
  {
    if |ops| > 0 {
      OthersLeavePurse(s, config, ops[0], device);
      RunLeavesPurse(Apply(s, config, ops[0]), config, ops[1..], device);
    }
  }

  /** The state once a check at `now` has been followed by `ops`. */
  function Afterwards(
    s: State, config: Config, device: uint64, cost: uint32, now: uint64, ops: seq<Op>): State {
    RunOps(Check(s, config, device, cost, now).1, config, ops)
  }

  /** The retry time of a rate-limited check is exact: it is the fewest nanoseconds in which the rate
      yields what is missing.  After any operations that leave the device's tokens alone, a check of the
      same cost is allowed if and only if no exclusive lease of the device has still to run out, the cost
      is within the burst, the clock has started, the advertised wait since the last refill is over, and
      the token arithmetic does not wrap. */
  lemma RetryExact(
    s: State, config: Config, device: uint64, cost: uint32, now: uint64, ops: seq<Op>, t: uint64)
    requires Safe(s) && Served(s, config, device) && Bypasses(ops, device)
    requires Check(s, config, device, cost, now).0.decision == RateLimited
    ensures var b, later := Decided(s, config, device, now), Afterwards(s, config, device, cost, now, ops);
      var effective, wait := Max(cost, b.limit.minimumTokens), Check(s, config, device, cost, now).0.retryAfter;
      && b.tokens < effective && device in later.devices
      && IsWait(wait, effective - b.tokens, b.limit.refillPerSecond)
      && (Check(later, config, device, cost, t).0.decision == Allowed
          <==> && !LockedAt(later.devices[device].leases, t)
               && effective <= b.limit.burst && b.lastRefill > 0 && b.lastRefill + wait <= t
               && !TokensWrap(b, effective, t))
  {
    CheckBuckets(s, config, device, cost, now);
    LimitedWhen(s, config, device, cost, now);
    RetryIsWait(Decided(s, config, device, now), EffectiveCost(Decided(s, config, device, now), cost));
    RunLeavesPurse(Check(s, config, device, cost, now).1, config, ops, device);
    AllowedExactly(Decided(s, config, device, now), Afterwards(s, config, device, cost, now, ops), config, device,
      cost, t);
  }

  function VainRun(limit: Limit): seq<Op> {
    [OpRegister(0, limit)] + [OpConsume(0, 0x8000_0000, 1)]
  }

  lemma VainBucket(config: Config, limit: Limit)
    requires limit == Limit(0x8000_0000, 0x8000_0000, 1)
    ensures RunOps(START, config, VainRun(limit)).devices == map[0 := Bucket(limit, 0, 1, [])]
  {
    var a, b := OpRegister(0, limit), OpConsume(0, 0x8000_0000, 1);
    var s := Apply(START, config, a);
    assert s.devices == map[0 := Bucket(limit, 0x8000_0000, 0, [])];
    ConsumeBucket(s, config, 0, 0x8000_0000, 1);
    assert VainRun(limit)[1..] == [b] && [b][1..] == [];
    assert RunOps(s, config, [b]) == RunOps(Apply(s, config, b), config, []);
  }

  /** A wait can be in vain: from a new limiter, a device of 2^31 tokens a second that has spent its burst
      at time 1 is told to wait one nanosecond for a token, but 2^33 nanoseconds later the product is
      2^64, counts as zero, and the check still fails. */
  lemma WaitInVain(config: Config, limit: Limit)
    requires limit == Limit(0x8000_0000, 0x8000_0000, 1)
    ensures var s := RunOps(START, config, VainRun(limit));
      && Check(s, config, 0, 1, 1).0 == Verdict(RateLimited, 1)
      && Check(s, config, 0, 1, 0x2_0000_0001).0.decision == RateLimited
  {
    VainBucket(config, limit);
    var s, b := RunOps(START, config, VainRun(limit)), Bucket(limit, 0, 1, []);
    CheckBuckets(s, config, 0, 1, 1);
    CheckBuckets(s, config, 0, 1, 0x2_0000_0001);
    assert 0x2_0000_0000 * 0x8000_0000 == TWO_64;
    assert ProductLost(0x2_0000_0000, 0x8000_0000, 1);
    RefillReaches(b, 1, 0x2_0000_0001);
  }

  /** A cost above the burst is never granted. */
  lemma NeverAboveBurst(s: State, config: Config, device: uint64, cost: uint32, now: uint64)
    requires Safe(s) && device in s.devices && cost > s.devices[device].limit.burst
    ensures Check(s, config, device, cost, now).0.decision != Allowed
  {
    CheckBuckets(s, config, device, cost, now);
    DropDeadOk(s.devices[device], now);
    RefilledOk(DropDead(s.devices[device], now), now);
  }

  /** An allowed `consume` takes exactly its effective cost: the branch that clamps at zero is
      never taken. */
  lemma ConsumeNeverClamps(s: State, config: Config, device: uint64, cost: uint32, now: uint64)
    requires Served(s, config, device) && Consume(s, config, device, cost, now).0.decision == Allowed
    ensures var b := Touched(Known(s, config, device).devices[device], now);
      var u := Consume(s, config, device, cost, now).1;
      device in u.devices && u.devices[device].tokens + EffectiveCost(b, cost) == b.tokens
  {
    CheckBuckets(s, config, device, cost, now);
  }
}
