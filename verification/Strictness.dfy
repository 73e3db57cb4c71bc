/** What one policy admits beyond another, over every lease, action and context; and what dropped fields can do. */
module Strictness {
  import opened Bytes
  import opened Tlv
  import opened Policies
  import opened Evaluator

  /** Whatever is decided in favour under `q` is decided in favour under `p`, with no more duties than `q` imposes. */
  ghost predicate NeverWider(q: Policy, p: Policy) {
    forall lease: Option<LeaseFacts>, action: Action, ctx: Context :: NoWiderAt(q, p, lease, action, ctx)
  }

  predicate NoWiderAt(q: Policy, p: Policy, lease: Option<LeaseFacts>, action: Action, ctx: Context) {
    var with, without := Evaluate(q, lease, action, ctx), Evaluate(p, lease, action, ctx);
    with.Allowed? ==> without.Allowed? && AtLeast(with.obligations, without.obligations)
  }

  /** Some lease and some moment admit this action. */
  predicate Live(p: Policy, a: Action) {
    && p.unknownActions == {} && RuleOf(p, a) == Allow && p.maxOpens != Some(0)
    && (p.validity.Window? ==> p.validity.notBefore <= p.validity.notAfter)
  }

  predicate OpensWithin(q: Option<u32>, p: Option<u32>) {
    p.Some? ==> q.Some? && q.value <= p.value
  }

  /** What `q` asks for an action is no less than what `p` asks. */
  predicate AsksNoLess(q: Policy, p: Policy, a: Action) {
    && p.unknownActions == {} && RuleOf(p, a) == Allow
    && Level(Required(q, a)) >= Level(Required(p, a))
    && OpensWithin(q.maxOpens, p.maxOpens)
    && AtLeast(Duties(q), Duties(p))
  }

  // ---- A lease and a moment for every live action -------------------------------------------------------

  /** A server profile that asks for nothing but the network. */
  const ONLINE_PROFILE := NO_TIGHTENING.(network := StrictOnline)

  /** A lease just issued, attested or not. */
  function FreshLease(now: i64, attested: bool): LeaseFacts {
    LeaseFacts(Zeros(32), Zeros(32), 0, now, now, None, false, Some(ONLINE_PROFILE), if attested then Some(EnrolledEk) else None, None)
  }

  function OnlineAt(now: i64, opens: u32, local: Binding): Context {
    Context(now, now, None, opens, 0, DeviceFacts(Zeros(32), local, ClockAbsent), 0, true, Zeros(32))
  }

  /** A moment at which a validity that has one admits. */
  function Moment(v: Validity): i64 {
    if v.Window? then v.notBefore else 0
  }

  /** The decision at that moment depends on binding, rule and count alone. */
  lemma {:induction false} DecisionOnline(p: Policy, a: Action, level: Binding, opens: u32, now: i64)
    requires p.validity.Window? ==> p.validity.notBefore <= now <= p.validity.notAfter
    ensures var lease, ctx := FreshLease(now, level == HardwareAttested), OnlineAt(now, opens, level);
            && (Evaluate(p, Some(lease), a, ctx).Allowed? <==>
                  && p.unknownActions == {} && RuleOf(p, a) == Allow && Level(level) >= Level(Required(p, a))
                  && !Exhausted(p.maxOpens, opens))
            && (Evaluate(p, Some(lease), a, ctx).Allowed? ==> Evaluate(p, Some(lease), a, ctx).obligations == Duties(p))
  {
    hide Intersect, Decide, RuleOf, Required;
    var lease, ctx := FreshLease(now, level == HardwareAttested), OnlineAt(now, opens, level);
    var both := Intersect(p, ONLINE_PROFILE);
    DecisionIs(p, both, Some(lease), a, ctx);
    RulesMeet(p, ONLINE_PROFILE, a);
    BindingsMeet(p, ONLINE_PROFILE, a);
    DutiesMeet(p, ONLINE_PROFILE);
    IntersectSettings(p, ONLINE_PROFILE);
    ProfileAllows(a);
    ProfileAllows(Screenshot);
    StrongestOfLeast(Required(p, a));
    assert EffectiveBinding(level, Some(lease)) == level;
  }

  lemma {:induction false} ProfileAllows(a: Action)
    ensures RuleOf(ONLINE_PROFILE, a) == Allow && Required(ONLINE_PROFILE, a) == Software
  {
    match a case View => case Edit => case Print => case Clipboard => case Export => case Screenshot =>
  }

  // ---- Settings against decisions ---------------------------------------------------------------------------

  /** If less is asked for a live action, some lease and moment show it. */
  lemma {:induction false} AskingLessShows(q: Policy, p: Policy, a: Action)
    requires q.validity == p.validity && Live(q, a) && NeverWider(q, p)
    ensures AsksNoLess(q, p, a)
  {
    hide Evaluate, RuleOf, Duties, NoWiderAt, Required;
    var level, now := Required(q, a), Moment(q.validity);
    var lease := FreshLease(now, level == HardwareAttested);
    DecisionOnline(q, a, level, 0, now);
    DecisionOnline(p, a, level, 0, now);
    AtPoint(q, p, lease, a, OnlineAt(now, 0, level));
    if p.maxOpens.Some? && !OpensWithin(q.maxOpens, p.maxOpens) {
      var opens := p.maxOpens.value;
      DecisionOnline(q, a, level, opens, now);
      DecisionOnline(p, a, level, opens, now);
      AtPoint(q, p, lease, a, OnlineAt(now, opens, level));
    }
  }

  lemma {:induction false} AtPoint(q: Policy, p: Policy, lease: LeaseFacts, a: Action, ctx: Context)
    requires NeverWider(q, p)
    ensures Evaluate(q, Some(lease), a, ctx).Allowed? ==>
              Evaluate(p, Some(lease), a, ctx).Allowed?
              && AtLeast(Evaluate(q, Some(lease), a, ctx).obligations, Evaluate(p, Some(lease), a, ctx).obligations)
  {
    hide Evaluate;
    assert NoWiderAt(q, p, Some(lease), a, ctx);
  }

  /** What is admitted is live, also under a profile. */
  lemma {:induction false} AdmittedIsLive(q: Policy, l: LeaseFacts, a: Action, ctx: Context)
    ensures Admits(q, l, a, ctx) ==> Live(q, a)
    ensures forall s: Policy :: Admits(Intersect(q, s), l, a, ctx) ==> Live(q, a)
  {
    hide Intersect, NetworkAdmits, EffectiveBinding, RuleOf, Required;
    forall s: Policy | Admits(Intersect(q, s), l, a, ctx)
      ensures Live(q, a)
    {
      IntersectSettings(q, s);
      RulesMeet(q, s, a);
      ValidityMeets(q.validity, s.validity, ctx);
      OpensMeet(q.maxOpens, s.maxOpens, ctx.opensSoFar);
    }
  }

  /** If no less is asked, whatever `q` admits `p` admits too, also under a profile. */
  lemma {:induction false} AskingNoLessAdmits(q: Policy, p: Policy, l: LeaseFacts, a: Action, ctx: Context)
    requires q.validity == p.validity && q.network == p.network && AsksNoLess(q, p, a)
    ensures Admits(q, l, a, ctx) ==> Admits(p, l, a, ctx)
    ensures forall s: Policy :: Admits(Intersect(q, s), l, a, ctx) ==> Admits(Intersect(p, s), l, a, ctx)
  {
    hide Intersect, NetworkAdmits, ValidityAdmits, EffectiveBinding, RuleOf, Required;
    forall s: Policy | Admits(Intersect(q, s), l, a, ctx)
      ensures Admits(Intersect(p, s), l, a, ctx)
    {
      IntersectSettings(q, s);
      IntersectSettings(p, s);
      RulesMeet(q, s, a);
      RulesMeet(p, s, a);
      BindingsMeet(q, s, a);
      BindingsMeet(p, s, a);
      OpensMeet(q.maxOpens, s.maxOpens, ctx.opensSoFar);
      OpensMeet(p.maxOpens, s.maxOpens, ctx.opensSoFar);
    }
  }

  lemma {:induction false} AskingNoLessDecides(q: Policy, p: Policy, lease: Option<LeaseFacts>, a: Action, ctx: Context)
    requires q.validity == p.validity && q.network == p.network && (Live(q, a) ==> AsksNoLess(q, p, a))
    ensures NoWiderAt(q, p, lease, a, ctx)
  {
    hide Decide, Admits, Intersect, Duties, Live, AsksNoLess;
    DecisionIs(q, Carried(q, lease), lease, a, ctx);
    DecisionIs(p, Carried(p, lease), lease, a, ctx);
    if Evaluate(q, lease, a, ctx).Allowed? {
      AdmittedIsLive(q, lease.value, a, ctx);
      AskingNoLessAdmits(q, p, lease.value, a, ctx);
      assert AtLeast(Duties(q), Duties(p)) by { DutiesOrdered(q, p, a); }
      if lease.value.serverPolicy.Some? { DutiesUnderProfile(q, p, lease.value.serverPolicy.value); }
    }
  }

  lemma {:induction false} DutiesOrdered(q: Policy, p: Policy, a: Action)
    requires AsksNoLess(q, p, a)
    ensures AtLeast(Duties(q), Duties(p))
  {
  }

  lemma {:induction false} DutiesUnderProfile(q: Policy, p: Policy, s: Policy)
    requires AtLeast(Duties(q), Duties(p))
    ensures AtLeast(Duties(Intersect(q, s)), Duties(Intersect(p, s)))
  {
    hide RuleOf, Intersect;
    DutiesMeet(q, s);
    DutiesMeet(p, s);
  }

  /**
    Settings and decisions agree: of two policies with the same term and network rule, one never
    decides wider than the other, over all leases, actions and contexts, exactly when it asks no
    less for every action it can ever admit.
   */
  lemma {:induction false} NeverWiderMeans(q: Policy, p: Policy)
    requires q.validity == p.validity && q.network == p.network
    ensures NeverWider(q, p) <==> forall a: Action :: Live(q, a) ==> AsksNoLess(q, p, a)
  {
    hide Live, AsksNoLess, NoWiderAt;
    if NeverWider(q, p) {
      forall a: Action | Live(q, a)
        ensures AsksNoLess(q, p, a)
      {
        AskingLessShows(q, p, a);
      }
    }
    if forall a: Action :: Live(q, a) ==> AsksNoLess(q, p, a) {
      forall lease: Option<LeaseFacts>, action: Action, ctx: Context
        ensures NoWiderAt(q, p, lease, action, ctx)
      {
        AskingNoLessDecides(q, p, lease, action, ctx);
      }
    }
  }

  // ---- Dropped fields, decided ---------------------------------------------------------------------------------

  /** The action can still be admitted once the fields outside `keep` are gone. */
  predicate Reachable(p: Policy, keep: set<u16>, a: Action) {
    && RuleOf(p, a) == Allow && (forall t :: t in p.unknownActions ==> TagAction(t).Some?)
    && (p.validity.Window? ==> p.validity.notBefore <= p.validity.notAfter)
    && (MAX_OPENS in keep ==> p.maxOpens != Some(0))
  }

  /** Nothing the codec drops was holding this action back. */
  predicate HeldByNothingDropped(version: u16, p: Policy, a: Action) {
    && p.unknownActions == {} && p.maxOpens != Some(0)
    && (version >= FIRST_ACTION_BINDING_VERSION || Level(BindingOf(p, a)) <= Level(p.minBinding))
  }

  lemma {:induction false} ReadBackAt(version: u16, p: Policy, keep: set<u16>, a: Action)
    ensures var q := WithoutDropped(version, p, keep);
            && (Live(q, a) <==> Reachable(p, keep, a))
            && (Live(q, a) ==> (AsksNoLess(q, p, a) <==> HeldByNothingDropped(version, p, a)))
  {
    hide Level;
    var q := WithoutDropped(version, p, keep);
    assert RuleOf(q, a) == RuleOf(p, a) && RuleOf(q, Screenshot) == RuleOf(p, Screenshot);
    assert BindingOf(q, a) == if version < FIRST_ACTION_BINDING_VERSION then Software else BindingOf(p, a);
    LevelsOf(p, a);
    UnknownKept(version, p);
    assert q.unknownActions == Normal(version, p).unknownActions;
    assert q.unknownActions == {} <==> forall t :: t in p.unknownActions ==> TagAction(t).Some?;
  }

  lemma {:induction false} LevelsOf(p: Policy, a: Action)
    ensures Strongest(p.minBinding, Software) == p.minBinding
    ensures Level(p.minBinding) >= Level(Strongest(p.minBinding, BindingOf(p, a))) <==> Level(BindingOf(p, a)) <= Level(p.minBinding)
  {
  }

  /**
    Dropping any top-level fields of an encoded policy either fails, exactly when a mandatory one is
    gone, or yields a policy that, over all leases, actions and contexts, never decides wider than
    the one encoded, exactly when nothing that was lost held back an action that can be reached.
   */
  lemma {:induction false} DroppedFieldsNeverWiden(version: u16, p: Policy, keep: set<u16>)
    ensures var r := DecodePolicy(version, Emit(Kept(PolicyFields(version, p), keep)));
            && (r.Ok? <==> Mandatory(version) <= keep)
            && (r.Ok? ==>
                  (NeverWider(r.value, p) <==>
                     forall a: Action :: Reachable(p, keep, a) ==> HeldByNothingDropped(version, p, a)))
  {
    hide DecodePolicy, BuildPolicy, Kept, PolicyFields, Emit, NeverWider, Live, AsksNoLess, Reachable, HeldByNothingDropped;
    DecodeOfKept(version, p, keep);
    BuildOfKept(version, p, keep);
    if Mandatory(version) <= keep {
      NeverWiderMeans(WithoutDropped(version, p, keep), p);
      forall a: Action
        ensures var q := WithoutDropped(version, p, keep);
                && (Live(q, a) <==> Reachable(p, keep, a))
                && (Live(q, a) ==> (AsksNoLess(q, p, a) <==> HeldByNothingDropped(version, p, a)))
      {
        ReadBackAt(version, p, keep, a);
      }
    }
  }

  /** A lost limit of zero opens a file that nobody could open. */
  lemma {:induction false} LostLimitWidens()
    ensures var p := DENY_ALL.(actions := map[View := Allow], maxOpens := Some(0));
            var r := DecodePolicy(5, Emit(Kept(PolicyFields(5, p), Mandatory(5))));
            r.Ok? && !NeverWider(r.value, p)
  {
    hide DecodePolicy, Kept, PolicyFields, Emit, NeverWider;
    var p := DENY_ALL.(actions := map[View := Allow], maxOpens := Some(0));
    DroppedFieldsNeverWiden(5, p, Mandatory(5));
    assert Reachable(p, Mandatory(5), View) && !HeldByNothingDropped(5, p, View);
  }

  /** A lost binding lets a software key edit where hardware was asked for. */
  lemma {:induction false} LostBindingWidens()
    ensures var p := DENY_ALL.(actions := map[Edit := Allow], actionBinding := map[Edit := Hardware]);
            var r := DecodePolicy(3, EncodePolicy(3, p));
            r.Ok? && !NeverWider(r.value, p)
  {
    hide DecodePolicy, EncodePolicy, NeverWider, Live, AsksNoLess;
    var p := DENY_ALL.(actions := map[Edit := Allow], actionBinding := map[Edit := Hardware]);
    DecodeOfEncode(3, p);
    NeverWiderMeans(Normal(3, p), p);
    BindingIsLostBelowVersionFour();
    assert Live(Normal(3, p), Edit) && !AsksNoLess(Normal(3, p), p, Edit) by { NormalLosesBinding(p); }
  }

  lemma {:induction false} NormalLosesBinding(p: Policy)
    requires p == DENY_ALL.(actions := map[Edit := Allow], actionBinding := map[Edit := Hardware])
    ensures Live(Normal(3, p), Edit) && !AsksNoLess(Normal(3, p), p, Edit)
  {
    var q := Normal(3, p);
    assert RuleOf(q, Edit) == RuleOf(p, Edit) && BindingOf(q, Edit) == Software && BindingOf(p, Edit) == Hardware;
    assert q.unknownActions == {};
  }

  /** A policy that asks no less in any setting never decides wider. */
  lemma {:induction false} StricterNeverWider(q: Policy, p: Policy)
    requires AtLeastAsStrict(q, p)
    ensures NeverWider(q, p)
  {
    hide NeverWider;
    NeverWiderMeans(q, p);
  }
}
