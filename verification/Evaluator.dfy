/** The access decision: what a policy, a lease and the device's state permit, and how policies combine. */
module Evaluator {
  import opened Bytes
  import opened Policies

  const I64_MAX: int := 0x7FFF_FFFF_FFFF_FFFF
  const I64_MIN: int := -0x8000_0000_0000_0000
  const MAX_CLOCK_SKEW_SECONDS: i64 := 300

  datatype Attestation = VendorCertificate | EnrolledEk

  datatype TpmClock = TpmClock(resetCount: u32, clockMs: u64)

  /** What a device knows about its hardware clock. */
  datatype DeviceClock = ClockRead(clock: TpmClock) | ClockAbsent | ClockUnreadable

  datatype DeviceFacts = DeviceFacts(fingerprint: digest, binding: Binding, tpmClock: DeviceClock)

  datatype LeaseFacts = LeaseFacts(
    deviceFingerprint: digest, policyHash: digest, seq_: u64, issuedAt: i64, expiresAt: i64, opensRemaining: Option<u32>,
    revoked: bool, serverPolicy: Option<Policy>, attested: Option<Attestation>, tpmClock: Option<TpmClock>)

  datatype Context = Context(
    now: i64, monotonicFloor: i64, firstOpenAt: Option<i64>, opensSoFar: u32, opensUnderLease: u32, device: DeviceFacts,
    highestSeqSeen: u64, online: bool, policyHash: digest)

  datatype Obligations = Obligations(watermark: bool, blockScreenCapture: bool, suppressCrashDumps: bool)

  datatype DenyReason =
    | ActionNotPermitted(action: Action)
    | ActionTightenedByServer(action: Action)
    | PolicyNotFullyUnderstood(unknown: u16)
    | ClockRollback
    | LeaseRollback(seen: u64, presented: u64)
    | TpmClockRollback(issuedClock: TpmClock, presentedClock: TpmClock)
    | TpmClockMissing
    | TpmClockUnreadable
    | HardwareClockOutranWallClock(hardwareMs: u64, wallMs: u64)
    | NotYetValid
    | Expired
    | Revoked
    | OpenLimitReached
    | OfflineNotPermitted
    | NoLease
    | WrongDevice
    | PolicyHashMismatch
    | BindingTooWeak(required: Binding, actual: Binding)
    | LeaseIssuedInTheFuture(issuedAt: i64, now: i64)
    | LeaseOutlivesPolicy(allowedSeconds: i64, grantedSeconds: i64)
    | OfflineTooLong(allowedOffline: i64, elapsedSeconds: i64)
    | FirstOpenNotRecorded

  datatype Verdict = Allowed(obligations: Obligations) | Denied(reason: DenyReason)

  // ---- Saturating arithmetic -----------------------------------------------------------------

  function Saturated(x: int): i64 {
    if x > I64_MAX then I64_MAX else if x < I64_MIN then I64_MIN else x
  }

  function Saturated64(x: int): u64 {
    if x > U64_MAX then U64_MAX else if x < 0 then 0 else x
  }

  function Least(a: int, b: int): int {
    if a < b then a else b
  }

  function Greatest(a: int, b: int): int {
    if a < b then b else a
  }

  // ---- Binding ---------------------------------------------------------------------------------

  /** A device cannot call itself attested; only the lease can, and not for a software key. */
  function EffectiveBinding(local: Binding, lease: Option<LeaseFacts>): Binding {
    if local == Software then Software
    else if lease.Some? && lease.value.attested.Some? then HardwareAttested
    else Hardware
  }

  // ---- Composition -----------------------------------------------------------------------------

  const IMPOSSIBLE := Window(I64_MAX, I64_MIN)

  /** A window and a count from the first open have no common form: their conjunction is a denial. */
  function Tighten(a: Validity, b: Validity): Validity {
    match (a, b)
    case (Always, other) => other
    case (other, Always) => other
    case (Window(from, to), Window(from', to')) => Window(Greatest(from, from'), Least(to, to'))
    case (FromFirstOpen(x), FromFirstOpen(y)) => FromFirstOpen(Least(x, y))
    case _ => IMPOSSIBLE
  }

  function TightenNetwork(a: Network, b: Network): Network {
    if a.StrictOnline? || b.StrictOnline? then StrictOnline
    else Lease(Least(a.seconds, b.seconds), Least(a.maxOfflineSeconds, b.maxOfflineSeconds))
  }

  function TightenOpens(a: Option<u32>, b: Option<u32>): Option<u32> {
    if a.None? then b else if b.None? then a else Some(Least(a.value, b.value))
  }

  /** The author's policy tightened by the server's. */
  function Intersect(author: Policy, server: Policy): Policy {
    Policy(
      map x | x in author.actions && author.actions[x] == Allow && RuleOf(server, x) == Allow :: Allow,
      Tighten(author.validity, server.validity), TightenOpens(author.maxOpens, server.maxOpens),
      TightenNetwork(author.network, server.network), Strongest(author.minBinding, server.minBinding),
      Raised(author, server, server.actionBinding.Keys),
      author.watermark || server.watermark, author.unknownActions + server.unknownActions)
  }

  /** Drop every entry that both sides do not allow. */
  method RetainAllowed(actions: map<Action, Rule>, server: Policy) returns (kept: map<Action, Rule>)
    ensures kept == map x | x in actions && actions[x] == Allow && RuleOf(server, x) == Allow :: Allow
  {
    kept := actions;
    var todo := actions.Keys;
    while todo != {}
      invariant todo <= kept.Keys <= actions.Keys
      invariant forall x :: x in kept ==> kept[x] == actions[x]
      invariant forall x :: x in actions && x !in todo ==>
                  (x in kept <==> actions[x] == Allow && RuleOf(server, x) == Allow)
      decreases |todo|
    {
      var x :| x in todo;
      todo := todo - {x};
      if !(actions[x] == Allow && RuleOf(server, x) == Allow) {
        kept := kept - {x};
      }
    }
  }

  /** The author's entries, those of `done` raised to the server's. */
  function Raised(author: Policy, server: Policy, done: set<Action>): map<Action, Binding> {
    map x | x in author.actionBinding.Keys + done ::
      if x in done then Strongest(BindingOf(author, x), BindingOf(server, x)) else BindingOf(author, x)
  }

  lemma {:induction false} RaisedOneMore(author: Policy, server: Policy, done: set<Action>, x: Action)
    requires x !in done && x in server.actionBinding
    ensures var before, entry := Raised(author, server, done), server.actionBinding[x];
            Raised(author, server, done + {x}) == before[x := Strongest(if x in before then before[x] else entry, entry)]
  {
    hide Strongest;
    assert Strongest(BindingOf(author, x), BindingOf(server, x)) == server.actionBinding[x] || x in author.actionBinding by {
      if x !in author.actionBinding { StrongestOfLeast(server.actionBinding[x]); }
    }
    StrongestOfLeast(server.actionBinding[x]);
  }

  lemma {:induction false} RaisedNothing(author: Policy, server: Policy)
    ensures Raised(author, server, {}) == author.actionBinding
  {
  }

  lemma {:induction false} StrongestOfLeast(b: Binding)
    ensures Strongest(Software, b) == b && Strongest(b, b) == b && Strongest(b, Software) == b
  {
  }

  /** Raise the entries of one side to those of the other, entry by entry. */
  method RaiseBindings(author: Policy, server: Policy) returns (raised: map<Action, Binding>)
    ensures raised == Raised(author, server, server.actionBinding.Keys)
  {
    hide Strongest, Raised, BindingOf;
    raised := author.actionBinding;
    var todo := server.actionBinding.Keys;
    ghost var done: set<Action> := {};
    RaisedNothing(author, server);
    while todo != {}
      invariant todo * done == {} && todo + done == server.actionBinding.Keys
      invariant raised == Raised(author, server, done)
      decreases |todo|
    {
      var x :| x in todo;
      var binding := server.actionBinding[x];
      RaisedOneMore(author, server, done, x);
      raised := raised[x := Strongest(if x in raised then raised[x] else binding, binding)];
      todo := todo - {x};
      done := done + {x};
    }
    assert done == server.actionBinding.Keys;
  }

  method IntersectPolicies(author: Policy, server: Policy) returns (result: Policy)
    ensures result == Intersect(author, server)
  {
    hide RuleOf, BindingOf, Strongest, Tighten, TightenNetwork, TightenOpens;
    result := author;
    var actions := RetainAllowed(author.actions, server);
    result := result.(actions := actions, minBinding := Strongest(author.minBinding, server.minBinding));
    var raised := RaiseBindings(author, server);
    result := result.(actionBinding := raised, watermark := author.watermark || server.watermark);
    result := result.(maxOpens := TightenOpens(author.maxOpens, server.maxOpens),
                      network := TightenNetwork(author.network, server.network));
    result := result.(validity := Tighten(author.validity, server.validity),
                      unknownActions := author.unknownActions + server.unknownActions);
  }

  // ---- The decision ----------------------------------------------------------------------------

  /** The smallest tag of a set. */
  function Smallest(tags: set<u16>, from: nat): (t: u16)
    requires exists x :: x in tags && from <= x
    ensures t in tags && from <= t && forall x :: x in tags && from <= x ==> t <= x
    decreases 0x1_0000 - from
  {
    if from in tags then from else Smallest(tags, from + 1)
  }

  /** What is wrong with the lease itself. */
  function LeaseComplaint(l: LeaseFacts, ctx: Context): Option<DenyReason> {
    if l.revoked then Some(Revoked)
    else if l.deviceFingerprint != ctx.device.fingerprint then Some(WrongDevice)
    else if l.policyHash != ctx.policyHash then Some(PolicyHashMismatch)
    else if l.seq_ < ctx.highestSeqSeen then Some(LeaseRollback(ctx.highestSeqSeen, l.seq_))
    else if l.tpmClock.Some? && ctx.device.tpmClock.ClockAbsent? then Some(TpmClockMissing)
    else if l.tpmClock.Some? && ctx.device.tpmClock.ClockUnreadable? then Some(TpmClockUnreadable)
    else if l.tpmClock.Some? && (ctx.device.tpmClock.clock.clockMs < l.tpmClock.value.clockMs
                                 || ctx.device.tpmClock.clock.resetCount < l.tpmClock.value.resetCount) then
      Some(TpmClockRollback(l.tpmClock.value, ctx.device.tpmClock.clock))
    else if Saturated(l.issuedAt - ctx.now) > MAX_CLOCK_SKEW_SECONDS then Some(LeaseIssuedInTheFuture(l.issuedAt, ctx.now))
    else None
  }

  /** The length of the lease. */
  function Granted(l: LeaseFacts): i64 {
    Saturated(l.expiresAt - l.issuedAt)
  }

  /** The time since the server was last spoken to. */
  function Elapsed(l: LeaseFacts, ctx: Context): i64 {
    Saturated(ctx.now - l.issuedAt)
  }

  function NetworkComplaint(n: Network, l: LeaseFacts, ctx: Context): Option<DenyReason> {
    match n
    case StrictOnline => if ctx.online then None else Some(OfflineNotPermitted)
    case Lease(seconds, _) =>
      if Granted(l) < 0 || Granted(l) > seconds then Some(LeaseOutlivesPolicy(seconds, Granted(l))) else None
  }

  /** The hardware clock may lag behind the wall clock, but not run ahead of it. */
  function HardwareComplaint(l: LeaseFacts, ctx: Context): Option<DenyReason> {
    if l.tpmClock.Some? && ctx.device.tpmClock.ClockRead? then
      var hardwareMs := Saturated64(ctx.device.tpmClock.clock.clockMs - l.tpmClock.value.clockMs);
      var wallMs := Saturated64(Saturated64(Elapsed(l, ctx)) * 1000);
      if hardwareMs > Saturated64(wallMs + MAX_CLOCK_SKEW_SECONDS * 1000) then Some(HardwareClockOutranWallClock(hardwareMs, wallMs))
      else None
    else None
  }

  function OfflineComplaint(n: Network, l: LeaseFacts, ctx: Context): Option<DenyReason> {
    if !ctx.online && n.Lease? && Elapsed(l, ctx) > n.maxOfflineSeconds then Some(OfflineTooLong(n.maxOfflineSeconds, Elapsed(l, ctx)))
    else None
  }

  function ValidityComplaint(v: Validity, ctx: Context): Option<DenyReason> {
    match v
    case Always => None
    case Window(from, to) => if ctx.now < from then Some(NotYetValid) else if ctx.now > to then Some(Expired) else None
    case FromFirstOpen(seconds) =>
      if ctx.firstOpenAt.Some? then if ctx.now > Saturated(ctx.firstOpenAt.value + seconds) then Some(Expired) else None
      else if ctx.online then None
      else Some(FirstOpenNotRecorded)
  }

  /** A count that has reached its limit. */
  predicate Exhausted(limit: Option<u32>, count: u32) {
    limit.Some? && count >= limit.value
  }

  /** The policy a lease carries to the device: the author's, tightened by the server's, if it has one. */
  function Carried(author: Policy, lease: Option<LeaseFacts>): Policy {
    if lease.Some? && lease.value.serverPolicy.Some? then Intersect(author, lease.value.serverPolicy.value) else author
  }

  /** The checks in their order, general ones first. */
  function Decide(author: Policy, policy: Policy, lease: Option<LeaseFacts>, action: Action, ctx: Context): Verdict {
    var required, actual := Required(policy, action), EffectiveBinding(ctx.device.binding, lease);
    if policy.unknownActions != {} then
      assert exists x :: x in policy.unknownActions && 0 <= x;
      Denied(PolicyNotFullyUnderstood(Smallest(policy.unknownActions, 0)))
    else if ctx.now < ctx.monotonicFloor then Denied(ClockRollback)
    else if Level(actual) < Level(required) then Denied(BindingTooWeak(required, actual))
    else if lease.None? then Denied(NoLease)
    else
      var l := lease.value;
      if LeaseComplaint(l, ctx).Some? then Denied(LeaseComplaint(l, ctx).value)
      else if NetworkComplaint(policy.network, l, ctx).Some? then Denied(NetworkComplaint(policy.network, l, ctx).value)
      else if HardwareComplaint(l, ctx).Some? then Denied(HardwareComplaint(l, ctx).value)
      else if ctx.now > l.expiresAt then Denied(Expired)
      else if OfflineComplaint(policy.network, l, ctx).Some? then Denied(OfflineComplaint(policy.network, l, ctx).value)
      else if ValidityComplaint(policy.validity, ctx).Some? then Denied(ValidityComplaint(policy.validity, ctx).value)
      else if Exhausted(policy.maxOpens, ctx.opensSoFar) || Exhausted(l.opensRemaining, ctx.opensUnderLease) then Denied(OpenLimitReached)
      else if RuleOf(policy, action) != Allow then
        Denied(if RuleOf(author, action) == Allow then ActionTightenedByServer(action) else ActionNotPermitted(action))
      else Allowed(Obligations(policy.watermark, RuleOf(policy, Screenshot) != Allow, true))
  }

  /** The one place where access is decided. */
  function Evaluate(author: Policy, lease: Option<LeaseFacts>, action: Action, ctx: Context): Verdict {
    Decide(author, Carried(author, lease), lease, action, ctx)
  }

  // ---- What a decision consists of ---------------------------------------------------------------

  /** The checks no policy has a say in. */
  predicate LeaseHolds(l: LeaseFacts, ctx: Context) {
    && ctx.now >= ctx.monotonicFloor
    && LeaseComplaint(l, ctx).None? && HardwareComplaint(l, ctx).None?
    && ctx.now <= l.expiresAt && !Exhausted(l.opensRemaining, ctx.opensUnderLease)
  }

  predicate NetworkAdmits(n: Network, l: LeaseFacts, ctx: Context) {
    NetworkComplaint(n, l, ctx).None? && OfflineComplaint(n, l, ctx).None?
  }

  predicate ValidityAdmits(v: Validity, ctx: Context) {
    ValidityComplaint(v, ctx).None?
  }

  /** Every setting of the policy admits the action. */
  predicate Admits(p: Policy, l: LeaseFacts, action: Action, ctx: Context) {
    && p.unknownActions == {}
    && Level(EffectiveBinding(ctx.device.binding, Some(l))) >= Level(Required(p, action))
    && NetworkAdmits(p.network, l, ctx)
    && ValidityAdmits(p.validity, ctx)
    && !Exhausted(p.maxOpens, ctx.opensSoFar)
    && RuleOf(p, action) == Allow
  }

  function Duties(p: Policy): Obligations {
    Obligations(p.watermark, RuleOf(p, Screenshot) != Allow, true)
  }

  /** Access is given exactly when the lease holds and every setting admits it; the duties are the policy's. */
  lemma {:induction false} DecisionIs(author: Policy, policy: Policy, lease: Option<LeaseFacts>, action: Action, ctx: Context)
    ensures Decide(author, policy, lease, action, ctx).Allowed? <==>
            lease.Some? && LeaseHolds(lease.value, ctx) && Admits(policy, lease.value, action, ctx)
    ensures Decide(author, policy, lease, action, ctx).Allowed? ==>
              Decide(author, policy, lease, action, ctx).obligations == Duties(policy)
  {
    hide LeaseComplaint, NetworkComplaint, HardwareComplaint, OfflineComplaint, ValidityComplaint, Required, EffectiveBinding, RuleOf;
  }

  // ---- Intersection, setting by setting -------------------------------------------------------------

  /** The length of the lease is within what a policy allows. */
  predicate Fits(n: Network, l: LeaseFacts) {
    n.Lease? ==> 0 <= Granted(l) <= n.seconds
  }

  lemma {:induction false} NetworkMeets(a: Network, b: Network, l: LeaseFacts, ctx: Context)
    ensures NetworkAdmits(a, l, ctx) && NetworkAdmits(b, l, ctx) ==> NetworkAdmits(TightenNetwork(a, b), l, ctx)
    ensures NetworkAdmits(TightenNetwork(a, b), l, ctx) ==>
              (NetworkAdmits(a, l, ctx) <==> Fits(a, l)) && (NetworkAdmits(b, l, ctx) <==> Fits(b, l))
  {
  }

  /** One side counts from a date, the other from the first open. */
  predicate Mixed(a: Validity, b: Validity) {
    (a.Window? && b.FromFirstOpen?) || (a.FromFirstOpen? && b.Window?)
  }

  lemma {:induction false} ValidityMeets(a: Validity, b: Validity, ctx: Context)
    ensures ValidityAdmits(Tighten(a, b), ctx) <==> ValidityAdmits(a, ctx) && ValidityAdmits(b, ctx) && !Mixed(a, b)
  {
  }

  lemma {:induction false} OpensMeet(a: Option<u32>, b: Option<u32>, count: u32)
    ensures Exhausted(TightenOpens(a, b), count) <==> Exhausted(a, count) || Exhausted(b, count)
  {
  }

  lemma {:induction false} RulesMeet(a: Policy, b: Policy, x: Action)
    ensures RuleOf(Intersect(a, b), x) == Allow <==> RuleOf(a, x) == Allow && RuleOf(b, x) == Allow
  {
  }

  lemma {:induction false} BindingsMeet(a: Policy, b: Policy, x: Action)
    ensures Required(Intersect(a, b), x) == Strongest(Required(a, x), Required(b, x))
  {
    var entries := Intersect(a, b).actionBinding;
    if x !in entries { assert BindingOf(a, x) == Software && BindingOf(b, x) == Software; }
  }

  /**
    Exactly what an intersection admits: what both sides admit, except that a date and a count from
    the first open exclude each other, and that a side whose own lease length the lease exceeds may
    be overruled when the other side wants the network on every open.
   */
  lemma {:induction false} IntersectionAdmits(a: Policy, b: Policy, l: LeaseFacts, action: Action, ctx: Context)
    ensures Admits(a, l, action, ctx) && Admits(b, l, action, ctx) ==>
              (Admits(Intersect(a, b), l, action, ctx) <==> !Mixed(a.validity, b.validity))
    ensures Admits(Intersect(a, b), l, action, ctx) ==>
              && (Admits(a, l, action, ctx) <==> Fits(a.network, l))
              && (Admits(b, l, action, ctx) <==> Fits(b.network, l))
  {
    hide NetworkAdmits, ValidityAdmits, Exhausted, EffectiveBinding, Required, RuleOf, Fits;
    var both := Intersect(a, b);
    NetworkMeets(a.network, b.network, l, ctx);
    ValidityMeets(a.validity, b.validity, ctx);
    OpensMeet(a.maxOpens, b.maxOpens, ctx.opensSoFar);
    RulesMeet(a, b, action);
    BindingsMeet(a, b, action);
    assert both.unknownActions == {} <==> a.unknownActions == {} && b.unknownActions == {};
  }

  /** Duties only grow under intersection. */
  predicate AtLeast(more: Obligations, less: Obligations) {
    && (less.watermark ==> more.watermark)
    && (less.blockScreenCapture ==> more.blockScreenCapture)
    && (less.suppressCrashDumps ==> more.suppressCrashDumps)
  }

  lemma {:induction false} DutiesMeet(a: Policy, b: Policy)
    ensures Duties(Intersect(a, b)) == Obligations(a.watermark || b.watermark,
                                                   Duties(a).blockScreenCapture || Duties(b).blockScreenCapture, true)
  {
    RulesMeet(a, b, Screenshot);
  }

  // ---- Intersection, decided ---------------------------------------------------------------------------

  /**
    Tightening is meant to be one-way. It is so exactly up to the length of the lease: whatever is
    decided in favour under the intersection of two policies is decided in favour under each of
    them, with no fewer duties, if and only if the lease is not longer than that one allows. The
    lease may carry a further profile of the server's, which then tightens all three.
   */
  lemma {:induction false} IntersectionNeverWidens(author: Policy, server: Policy, lease: Option<LeaseFacts>, action: Action, ctx: Context)
    requires Evaluate(Intersect(author, server), lease, action, ctx).Allowed?
    ensures lease.Some?
    ensures var side := Evaluate(author, lease, action, ctx);
            && (side.Allowed? <==> Fits(Carried(author, lease).network, lease.value))
            && (side.Allowed? ==> AtLeast(Evaluate(Intersect(author, server), lease, action, ctx).obligations, side.obligations))
    ensures var side := Evaluate(server, lease, action, ctx);
            && (side.Allowed? <==> Fits(Carried(server, lease).network, lease.value))
            && (side.Allowed? ==> AtLeast(Evaluate(Intersect(author, server), lease, action, ctx).obligations, side.obligations))
  {
    hide Decide, Admits, LeaseHolds, Fits, Intersect, RuleOf;
    var both := Intersect(author, server);
    DecisionIs(both, Carried(both, lease), lease, action, ctx);
    DecisionIs(author, Carried(author, lease), lease, action, ctx);
    DecisionIs(server, Carried(server, lease), lease, action, ctx);
    var l := lease.value;
    if l.serverPolicy.Some? {
      CarriedAdmits(author, server, l.serverPolicy.value, l, action, ctx);
      DutiesMeet(both, l.serverPolicy.value);
      DutiesMeet(author, l.serverPolicy.value);
      DutiesMeet(server, l.serverPolicy.value);
    } else {
      IntersectionAdmits(author, server, l, action, ctx);
    }
    DutiesMeet(author, server);
  }

  /** The same below a third policy. */
  lemma {:induction false} CarriedAdmits(a: Policy, b: Policy, c: Policy, l: LeaseFacts, action: Action, ctx: Context)
    requires Admits(Intersect(Intersect(a, b), c), l, action, ctx)
    ensures Admits(Intersect(a, c), l, action, ctx) <==> Fits(Intersect(a, c).network, l)
    ensures Admits(Intersect(b, c), l, action, ctx) <==> Fits(Intersect(b, c).network, l)
  {
    hide EffectiveBinding, Required, RuleOf, Exhausted;
    NetworkOfThree(a.network, b.network, c.network, l, ctx);
    ValidityOfThree(a.validity, b.validity, c.validity, ctx);
    OpensMeet(TightenOpens(a.maxOpens, b.maxOpens), c.maxOpens, ctx.opensSoFar);
    OpensMeet(a.maxOpens, b.maxOpens, ctx.opensSoFar);
    OpensMeet(a.maxOpens, c.maxOpens, ctx.opensSoFar);
    OpensMeet(b.maxOpens, c.maxOpens, ctx.opensSoFar);
    RulesMeet(Intersect(a, b), c, action);
    RulesMeet(a, b, action);
    RulesMeet(a, c, action);
    RulesMeet(b, c, action);
    BindingsMeet(Intersect(a, b), c, action);
    BindingsMeet(a, b, action);
    BindingsMeet(a, c, action);
    BindingsMeet(b, c, action);
    hide NetworkAdmits, ValidityAdmits, Fits, TightenNetwork, Tighten, TightenOpens;
    assert a.unknownActions == {} && b.unknownActions == {} && c.unknownActions == {} by {
      assert Intersect(Intersect(a, b), c).unknownActions == a.unknownActions + b.unknownActions + c.unknownActions;
    }
  }

  lemma {:induction false} NetworkOfThree(a: Network, b: Network, c: Network, l: LeaseFacts, ctx: Context)
    requires NetworkAdmits(TightenNetwork(TightenNetwork(a, b), c), l, ctx)
    ensures NetworkAdmits(TightenNetwork(a, c), l, ctx) <==> Fits(TightenNetwork(a, c), l)
    ensures NetworkAdmits(TightenNetwork(b, c), l, ctx) <==> Fits(TightenNetwork(b, c), l)
  {
  }

  lemma {:induction false} ValidityOfThree(a: Validity, b: Validity, c: Validity, ctx: Context)
    requires ValidityAdmits(Tighten(Tighten(a, b), c), ctx)
    ensures ValidityAdmits(Tighten(a, c), ctx) && ValidityAdmits(Tighten(b, c), ctx)
  {
  }

  /** Conversely, what both sides decide in favour is decided in favour together, unless a date meets a count from the first open. */
  lemma {:induction false} IntersectionIsNoStricter(author: Policy, server: Policy, lease: LeaseFacts, action: Action, ctx: Context)
    requires lease.serverPolicy == None
    requires Evaluate(author, Some(lease), action, ctx).Allowed? && Evaluate(server, Some(lease), action, ctx).Allowed?
    ensures Evaluate(Intersect(author, server), Some(lease), action, ctx).Allowed? <==> !Mixed(author.validity, server.validity)
  {
    hide Decide, Admits, LeaseHolds, Intersect, Mixed;
    var both := Intersect(author, server);
    DecisionIs(both, both, Some(lease), action, ctx);
    DecisionIs(author, author, Some(lease), action, ctx);
    DecisionIs(server, server, Some(lease), action, ctx);
    IntersectionAdmits(author, server, lease, action, ctx);
  }

  // ---- The profile a lease carries -----------------------------------------------------------------------

  /** A denial as the composed policy would word it. */
  function Reworded(v: Verdict): Verdict {
    if v.Denied? && v.reason.ActionTightenedByServer? then Denied(ActionNotPermitted(v.reason.action)) else v
  }

  /**
    A profile carried in the lease decides exactly as the policy composed in advance, for every
    policy, profile, lease, action and context; only a denial says who denied.
   */
  lemma {:induction false} CarriedDecidesAsComposed(author: Policy, server: Policy, lease: LeaseFacts, action: Action, ctx: Context)
    requires lease.serverPolicy == None
    ensures Reworded(Evaluate(author, Some(lease.(serverPolicy := Some(server))), action, ctx))
            == Evaluate(Intersect(author, server), Some(lease), action, ctx)
  {
    hide Intersect, HardwareComplaint, NetworkComplaint, OfflineComplaint, ValidityComplaint, Required, EffectiveBinding, LeaseComplaint, RuleOf;
    var carried, both := lease.(serverPolicy := Some(server)), Intersect(author, server);
    SameLeaseFacts(lease, server, both, ctx);
    assert Carried(author, Some(carried)) == both && Carried(both, Some(lease)) == both;
    SameDecision(author, both, lease, server, action, ctx);
  }

  lemma {:induction false} SameDecision(author: Policy, p: Policy, lease: LeaseFacts, server: Policy, action: Action, ctx: Context)
    ensures Reworded(Decide(author, p, Some(lease.(serverPolicy := Some(server))), action, ctx)) == Decide(p, p, Some(lease), action, ctx)
  {
    hide HardwareComplaint, NetworkComplaint, OfflineComplaint, ValidityComplaint, Required, EffectiveBinding, LeaseComplaint, RuleOf, Smallest;
    SameLeaseFacts(lease, server, p, ctx);
    Complaints(p, lease, ctx);
  }

  /** No check but the last one names an action. */
  lemma {:induction false} Complaints(p: Policy, l: LeaseFacts, ctx: Context)
    ensures LeaseComplaint(l, ctx).Some? ==> !LeaseComplaint(l, ctx).value.ActionTightenedByServer?
    ensures HardwareComplaint(l, ctx).Some? ==> !HardwareComplaint(l, ctx).value.ActionTightenedByServer?
    ensures NetworkComplaint(p.network, l, ctx).Some? ==> !NetworkComplaint(p.network, l, ctx).value.ActionTightenedByServer?
    ensures OfflineComplaint(p.network, l, ctx).Some? ==> !OfflineComplaint(p.network, l, ctx).value.ActionTightenedByServer?
    ensures ValidityComplaint(p.validity, ctx).Some? ==> !ValidityComplaint(p.validity, ctx).value.ActionTightenedByServer?
  {
  }

  lemma {:induction false} SameLeaseFacts(lease: LeaseFacts, server: Policy, p: Policy, ctx: Context)
    ensures var carried := lease.(serverPolicy := Some(server));
            && LeaseComplaint(carried, ctx) == LeaseComplaint(lease, ctx)
            && HardwareComplaint(carried, ctx) == HardwareComplaint(lease, ctx)
            && NetworkComplaint(p.network, carried, ctx) == NetworkComplaint(p.network, lease, ctx)
            && OfflineComplaint(p.network, carried, ctx) == OfflineComplaint(p.network, lease, ctx)
            && EffectiveBinding(ctx.device.binding, Some(carried)) == EffectiveBinding(ctx.device.binding, Some(lease))
  {
  }

  // ---- The profile that tightens nothing -------------------------------------------------------------------

  const NO_TIGHTENING := Policy(
    map[View := Allow, Edit := Allow, Print := Allow, Clipboard := Allow, Export := Allow, Screenshot := Allow],
    Always, None, Lease(I64_MAX, I64_MAX), Software, map[], false, {})

  /** It leaves a policy as it is exactly when the policy stores permissions only, as it is meant to. */
  lemma {:induction false} NoTighteningIsIdentity(p: Policy)
    ensures Intersect(p, NO_TIGHTENING) == p <==> forall a :: a in p.actions ==> p.actions[a] == Allow
  {
    hide Strongest;
    var q := Intersect(p, NO_TIGHTENING);
    StrongestOfLeast(p.minBinding);
    forall a | a in p.actionBinding
      ensures Strongest(BindingOf(p, a), Software) == p.actionBinding[a]
    {
      StrongestOfLeast(p.actionBinding[a]);
    }
    assert q.actionBinding == p.actionBinding;
    assert q.unknownActions == p.unknownActions;
    forall a: Action
      ensures RuleOf(NO_TIGHTENING, a) == Allow
    {
      match a case View => case Edit => case Print => case Clipboard => case Export => case Screenshot =>
    }
    if forall a :: a in p.actions ==> p.actions[a] == Allow {
      assert q.actions == p.actions;
    } else {
      var a :| a in p.actions && p.actions[a] != Allow;
      assert a !in q.actions;
    }
  }

  // ---- Where tightening widens --------------------------------------------------------------------------

  /** A lease of eight hours for a software device, in good order. */
  const EIGHT_HOURS := LeaseFacts(Zeros(32), Zeros(32), 1, 0, 28800, None, false, None, None, None)

  const AT_ISSUE := Context(0, 0, None, 0, 0, DeviceFacts(Zeros(32), Software, ClockAbsent), 1, true, Zeros(32))

  /**
    A server that asks for the network on every open turns a denial into an access: the author
    allows leases of one hour, the lease is one of eight, and once it carries the server's profile
    its length is not looked at any more.
   */
  lemma {:induction false} StrictServerWidensLongLease()
    ensures var author := DENY_ALL.(actions := map[View := Allow], network := Lease(3600, 3600));
            var server := NO_TIGHTENING.(network := StrictOnline);
            && Evaluate(author, Some(EIGHT_HOURS), View, AT_ISSUE) == Denied(LeaseOutlivesPolicy(3600, 28800))
            && Evaluate(author, Some(EIGHT_HOURS.(serverPolicy := Some(server))), View, AT_ISSUE).Allowed?
  {
    hide Intersect;
    var author := DENY_ALL.(actions := map[View := Allow], network := Lease(3600, 3600));
    var server := NO_TIGHTENING.(network := StrictOnline);
    var both := Intersect(author, server);
    RulesMeet(author, server, View);
    BindingsMeet(author, server, View);
    assert both.network == StrictOnline && both.validity == Always && both.maxOpens == None && both.unknownActions == {} by { IntersectSettings(author, server); }
  }

  lemma {:induction false} IntersectSettings(a: Policy, b: Policy)
    ensures var both := Intersect(a, b);
            && both.network == TightenNetwork(a.network, b.network) && both.validity == Tighten(a.validity, b.validity)
            && both.maxOpens == TightenOpens(a.maxOpens, b.maxOpens) && both.unknownActions == a.unknownActions + b.unknownActions
            && both.watermark == (a.watermark || b.watermark)
  {
  }
}
