/** The rules of access spelled out over the raw facts, and the proof that the decision follows them. */
module AccessRules {
  import opened Bytes
  import opened Policies
  import opened Evaluator

  /** A device meets a level: any device the weakest, a hardware key the next, only an attested one the last. */
  predicate Meets(b: Binding, local: Binding, attested: bool) {
    match b case Software => true case Hardware => local != Software case HardwareAttested => local != Software && attested
  }

  /** The lease is in good order for this device, this file and this moment. */
  predicate LeaseInOrder(l: LeaseFacts, ctx: Context) {
    && !l.revoked
    && l.deviceFingerprint == ctx.device.fingerprint
    && l.policyHash == ctx.policyHash
    && l.seq_ >= ctx.highestSeqSeen
    && l.issuedAt - ctx.now <= 300
    && ctx.now >= ctx.monotonicFloor
    && ctx.now <= l.expiresAt
    && (l.opensRemaining.Some? ==> ctx.opensUnderLease < l.opensRemaining.value)
  }

  /** The hardware clock, if the lease has one, has gone neither backwards nor more than five minutes ahead. */
  predicate ClockInOrder(l: LeaseFacts, ctx: Context) {
    l.tpmClock.Some? ==>
      && ctx.device.tpmClock.ClockRead?
      && var issued, read := l.tpmClock.value, ctx.device.tpmClock.clock;
         && read.resetCount >= issued.resetCount && read.clockMs >= issued.clockMs
         && read.clockMs - issued.clockMs <= (if ctx.now > l.issuedAt then ctx.now - l.issuedAt else 0) * 1000 + 300_000
  }

  /** The network rule: always online, or a lease no longer than allowed and no longer without the server than allowed. */
  predicate NetworkInOrder(n: Network, l: LeaseFacts, ctx: Context) {
    match n
    case StrictOnline => ctx.online
    case Lease(seconds, offline) =>
      && 0 <= l.expiresAt - l.issuedAt
      && (l.expiresAt - l.issuedAt <= seconds || seconds == I64_MAX)
      && (ctx.online || ctx.now - l.issuedAt <= offline || offline == I64_MAX)
  }

  /** The term: none, between two dates, or so long after the first open, which must be on record unless online. */
  predicate TermInOrder(v: Validity, ctx: Context) {
    match v
    case Always => true
    case Window(from, to) => from <= ctx.now <= to
    case FromFirstOpen(seconds) =>
      if ctx.firstOpenAt.Some? then ctx.now <= ctx.firstOpenAt.value + seconds || (ctx.now == I64_MIN && ctx.firstOpenAt.value + seconds < I64_MIN)
      else ctx.online
  }

  /** The settings of a policy for one action. */
  predicate PolicyInOrder(p: Policy, l: LeaseFacts, action: Action, ctx: Context) {
    && p.unknownActions == {}
    && action in p.actions && p.actions[action] == Allow
    && Meets(p.minBinding, ctx.device.binding, l.attested.Some?)
    && (action in p.actionBinding ==> Meets(p.actionBinding[action], ctx.device.binding, l.attested.Some?))
    && NetworkInOrder(p.network, l, ctx)
    && TermInOrder(p.validity, ctx)
    && (p.maxOpens.Some? ==> ctx.opensSoFar < p.maxOpens.value)
  }

  lemma {:induction false} LeaseMeans(l: LeaseFacts, ctx: Context)
    ensures LeaseHolds(l, ctx) <==> LeaseInOrder(l, ctx) && ClockInOrder(l, ctx)
  {
    hide HardwareComplaint;
    if LeaseComplaint(l, ctx).None? { HardwareMeans(l, ctx); }
  }

  lemma {:induction false} HardwareMeans(l: LeaseFacts, ctx: Context)
    requires l.tpmClock.Some? ==>
               ctx.device.tpmClock.ClockRead? && ctx.device.tpmClock.clock.clockMs >= l.tpmClock.value.clockMs
               && ctx.device.tpmClock.clock.resetCount >= l.tpmClock.value.resetCount
    ensures HardwareComplaint(l, ctx) == None <==> ClockInOrder(l, ctx)
  {
  }

  lemma {:induction false} NetworkMeans(n: Network, l: LeaseFacts, ctx: Context)
    ensures NetworkAdmits(n, l, ctx) <==> NetworkInOrder(n, l, ctx)
  {
  }

  lemma {:induction false} TermMeans(v: Validity, ctx: Context)
    ensures ValidityAdmits(v, ctx) <==> TermInOrder(v, ctx)
  {
  }

  lemma {:induction false} BindingMeans(p: Policy, l: LeaseFacts, action: Action, ctx: Context)
    ensures Level(EffectiveBinding(ctx.device.binding, Some(l))) >= Level(Required(p, action)) <==>
            && Meets(p.minBinding, ctx.device.binding, l.attested.Some?)
            && (action in p.actionBinding ==> Meets(p.actionBinding[action], ctx.device.binding, l.attested.Some?))
  {
  }

  /**
    Access is given exactly when there is a lease, it and the clock are in order, and every setting
    is, of the author's policy or of that policy tightened by the profile in the lease; and the
    duties are a watermark if the policy says so, no screen capture unless the policy allows it,
    and no crash dumps ever.
   */
  lemma {:induction false} AccessMeans(author: Policy, lease: Option<LeaseFacts>, action: Action, ctx: Context, duties: Obligations)
    ensures var p := if lease.Some? && lease.value.serverPolicy.Some? then Intersect(author, lease.value.serverPolicy.value) else author;
            Evaluate(author, lease, action, ctx) == Allowed(duties) <==>
            && lease.Some? && LeaseInOrder(lease.value, ctx) && ClockInOrder(lease.value, ctx)
            && PolicyInOrder(p, lease.value, action, ctx)
            && duties == Obligations(p.watermark, !(Screenshot in p.actions && p.actions[Screenshot] == Allow), true)
  {
    hide Decide, LeaseHolds, LeaseInOrder, ClockInOrder, NetworkAdmits, NetworkInOrder, ValidityAdmits, TermInOrder, EffectiveBinding,
         Required, Meets, Intersect;
    var p := Carried(author, lease);
    DecisionIs(author, p, lease, action, ctx);
    if lease.Some? {
      LeaseMeans(lease.value, ctx);
      NetworkMeans(p.network, lease.value, ctx);
      TermMeans(p.validity, ctx);
      BindingMeans(p, lease.value, action, ctx);
    }
  }

  /** What a reason for denial claims about the facts. */
  predicate ReasonHolds(reason: DenyReason, author: Policy, p: Policy, lease: Option<LeaseFacts>, action: Action, ctx: Context) {
    match reason
    case PolicyNotFullyUnderstood(tag) => tag in p.unknownActions && forall t :: t in p.unknownActions ==> tag <= t
    case ClockRollback => ctx.now < ctx.monotonicFloor
    case BindingTooWeak(required, actual) =>
      && !(Meets(required, ctx.device.binding, lease.Some? && lease.value.attested.Some?))
      && Meets(actual, ctx.device.binding, lease.Some? && lease.value.attested.Some?)
      && (required == p.minBinding || (action in p.actionBinding && required == p.actionBinding[action]))
    case NoLease => lease.None?
    case ActionNotPermitted(a) => a == action && !(a in p.actions && p.actions[a] == Allow) && !(a in author.actions && author.actions[a] == Allow)
    case ActionTightenedByServer(a) => a == action && !(a in p.actions && p.actions[a] == Allow) && a in author.actions && author.actions[a] == Allow
    case _ => lease.Some? && LeaseReasonHolds(reason, p, lease.value, ctx)
  }

  predicate LeaseReasonHolds(reason: DenyReason, p: Policy, l: LeaseFacts, ctx: Context) {
    match reason
    case Revoked => l.revoked
    case WrongDevice => l.deviceFingerprint != ctx.device.fingerprint
    case PolicyHashMismatch => l.policyHash != ctx.policyHash
    case LeaseRollback(seen, presented) => presented == l.seq_ < seen == ctx.highestSeqSeen
    case TpmClockMissing => l.tpmClock.Some? && ctx.device.tpmClock.ClockAbsent?
    case TpmClockUnreadable => l.tpmClock.Some? && ctx.device.tpmClock.ClockUnreadable?
    case TpmClockRollback(issued, presented) =>
      && l.tpmClock == Some(issued) && ctx.device.tpmClock == ClockRead(presented)
      && (presented.clockMs < issued.clockMs || presented.resetCount < issued.resetCount)
    case LeaseIssuedInTheFuture(issued, now) => issued == l.issuedAt && now == ctx.now && issued - now > 300
    case OfflineNotPermitted => p.network.StrictOnline? && !ctx.online
    case LeaseOutlivesPolicy(allowed, granted) => p.network.Lease? && allowed == p.network.seconds && (granted < 0 || granted > allowed)
                                                  && granted == Saturated(l.expiresAt - l.issuedAt)
    case HardwareClockOutranWallClock(hardware, wall) =>
      && l.tpmClock.Some? && ctx.device.tpmClock.ClockRead?
      && hardware == ctx.device.tpmClock.clock.clockMs - l.tpmClock.value.clockMs
      && wall == (if ctx.now > l.issuedAt then ctx.now - l.issuedAt else 0) * 1000 && hardware > wall + 300_000
    case Expired =>
      || ctx.now > l.expiresAt || (p.validity.Window? && ctx.now > p.validity.notAfter)
      || (p.validity.FromFirstOpen? && ctx.firstOpenAt.Some? && ctx.now > ctx.firstOpenAt.value + p.validity.seconds)
    case OfflineTooLong(allowed, elapsed) =>
      && p.network.Lease? && !ctx.online && allowed == p.network.maxOfflineSeconds && elapsed > allowed
      && elapsed == Saturated(ctx.now - l.issuedAt)
    case NotYetValid => p.validity.Window? && ctx.now < p.validity.notBefore
    case FirstOpenNotRecorded => p.validity.FromFirstOpen? && ctx.firstOpenAt.None? && !ctx.online
    case OpenLimitReached =>
      (p.maxOpens.Some? && ctx.opensSoFar >= p.maxOpens.value) || (l.opensRemaining.Some? && ctx.opensUnderLease >= l.opensRemaining.value)
    case _ => false
  }

  /** Every reason given for a denial is true of the facts. */
  lemma {:induction false} DenialIsTrue(author: Policy, lease: Option<LeaseFacts>, action: Action, ctx: Context)
    requires Evaluate(author, lease, action, ctx).Denied?
    ensures var p := if lease.Some? && lease.value.serverPolicy.Some? then Intersect(author, lease.value.serverPolicy.value) else author;
            ReasonHolds(Evaluate(author, lease, action, ctx).reason, author, p, lease, action, ctx)
  {
    hide Intersect, LeaseComplaint, HardwareComplaint, NetworkComplaint, OfflineComplaint, ValidityComplaint, LeaseReasonHolds;
    var p := Carried(author, lease);
    if lease.Some? {
      LeaseComplaintIsTrue(p, lease.value, ctx);
      NetworkComplaintIsTrue(p, lease.value, ctx);
      TermComplaintIsTrue(p, lease.value, ctx);
      HardwareComplaintIsTrue(p, lease.value, ctx);
    }
  }

  lemma {:induction false} LeaseComplaintIsTrue(p: Policy, l: LeaseFacts, ctx: Context)
    ensures LeaseComplaint(l, ctx).Some? ==> IsLeaseReason(LeaseComplaint(l, ctx).value) && LeaseReasonHolds(LeaseComplaint(l, ctx).value, p, l, ctx)
  {
  }

  lemma {:induction false} NetworkComplaintIsTrue(p: Policy, l: LeaseFacts, ctx: Context)
    ensures NetworkComplaint(p.network, l, ctx).Some? ==>
              IsLeaseReason(NetworkComplaint(p.network, l, ctx).value) && LeaseReasonHolds(NetworkComplaint(p.network, l, ctx).value, p, l, ctx)
    ensures OfflineComplaint(p.network, l, ctx).Some? ==>
              IsLeaseReason(OfflineComplaint(p.network, l, ctx).value) && LeaseReasonHolds(OfflineComplaint(p.network, l, ctx).value, p, l, ctx)
  {
  }

  lemma {:induction false} TermComplaintIsTrue(p: Policy, l: LeaseFacts, ctx: Context)
    ensures ValidityComplaint(p.validity, ctx).Some? ==>
              IsLeaseReason(ValidityComplaint(p.validity, ctx).value) && LeaseReasonHolds(ValidityComplaint(p.validity, ctx).value, p, l, ctx)
    ensures ctx.now > l.expiresAt ==> LeaseReasonHolds(Expired, p, l, ctx)
    ensures Exhausted(p.maxOpens, ctx.opensSoFar) || Exhausted(l.opensRemaining, ctx.opensUnderLease) ==> LeaseReasonHolds(OpenLimitReached, p, l, ctx)
  {
  }

  lemma {:induction false} HardwareComplaintIsTrue(p: Policy, l: LeaseFacts, ctx: Context)
    ensures LeaseComplaint(l, ctx).None? && HardwareComplaint(l, ctx).Some? ==>
              IsLeaseReason(HardwareComplaint(l, ctx).value) && LeaseReasonHolds(HardwareComplaint(l, ctx).value, p, l, ctx)
  {
  }

  predicate IsLeaseReason(reason: DenyReason) {
    !(reason.PolicyNotFullyUnderstood? || reason.ClockRollback? || reason.BindingTooWeak? || reason.NoLease?
      || reason.ActionNotPermitted? || reason.ActionTightenedByServer?)
  }

  /** The intersection of two policies, setting by setting, in terms of what each setting demands. */
  lemma {:induction false} IntersectionMeans(a: Policy, b: Policy, action: Action, n: u32, local: Binding, attested: bool)
    ensures var i := Intersect(a, b);
            && (action in i.actions && i.actions[action] == Allow <==>
                  action in a.actions && a.actions[action] == Allow && action in b.actions && b.actions[action] == Allow)
            && (Meets(i.minBinding, local, attested) <==> Meets(a.minBinding, local, attested) && Meets(b.minBinding, local, attested))
            && ((action in i.actionBinding ==> Meets(i.actionBinding[action], local, attested)) <==>
                  (action in a.actionBinding ==> Meets(a.actionBinding[action], local, attested))
                  && (action in b.actionBinding ==> Meets(b.actionBinding[action], local, attested)))
            && i.unknownActions == a.unknownActions + b.unknownActions && i.watermark == (a.watermark || b.watermark)
            && ((i.maxOpens.Some? ==> n < i.maxOpens.value) <==>
                  (a.maxOpens.Some? ==> n < a.maxOpens.value) && (b.maxOpens.Some? ==> n < b.maxOpens.value))
  {
    hide Tighten, TightenNetwork;
  }

  lemma {:induction false} TermOfIntersectionMeans(a: Policy, b: Policy, ctx: Context)
    ensures TermInOrder(Intersect(a, b).validity, ctx) <==>
            && TermInOrder(a.validity, ctx) && TermInOrder(b.validity, ctx)
            && !(a.validity.Window? && b.validity.FromFirstOpen?) && !(a.validity.FromFirstOpen? && b.validity.Window?)
  {
    hide TermInOrder;
    TermMeans(a.validity, ctx);
    TermMeans(b.validity, ctx);
    TermMeans(Intersect(a, b).validity, ctx);
    ValidityMeets(a.validity, b.validity, ctx);
  }

  lemma {:induction false} NetworkOfIntersectionMeans(a: Policy, b: Policy, l: LeaseFacts, ctx: Context)
    ensures NetworkInOrder(Intersect(a, b).network, l, ctx) <==>
            if a.network.StrictOnline? || b.network.StrictOnline? then ctx.online
            else NetworkInOrder(a.network, l, ctx) && NetworkInOrder(b.network, l, ctx)
  {
  }
}
