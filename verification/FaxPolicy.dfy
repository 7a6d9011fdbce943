/** The fax policy engine's resolver (gofaxserver/faxpolicy.go): rule matching, the
    three-key stable sort, and the first-wins fold per attribute. */
module FaxPolicy {
  import opened Seqs

  type Time = int

  datatype CallType = Softmodem | Bridge

  datatype Scope = Pair | Dst | Src | OtherScope(name: string)
  datatype Origin = Manual | Auto | OtherOrigin(name: string)
  datatype AppliesTo = Blank | Both | Only(callType: CallType) | OtherTarget(name: string)
  datatype Effect =
    | T38Off | T38On | EcmOff | EcmOn | V17Off | SoftmodemOnly | VarOverride
    | OtherEffect(name: string)

  datatype Rule = Rule(
    id: nat, scope: Scope, srcNumber: string, dstNumber: string,
    effect: Effect, appliesTo: AppliesTo, origin: Origin,
    enabled: bool, expiresAt: Option<Time>,
    varName: string, varValue: string,
    failureCount: nat, successCount: nat,
    lastSeenAt: Option<Time>, lastT38Status: string)

  datatype Config = Config(policyEnabled: bool, enableT38: bool, requestT38: bool)

  datatype Query = Query(src: string, dst: string, callType: CallType, now: Time)

  datatype Policy = Policy(
    enableT38: bool, requestT38: bool, useEcm: Option<bool>, disableV17: Option<bool>,
    t38Decided: bool, t38ForcedOff: bool, softmodemOnly: bool,
    varOverrides: map<string, string>, appliedRuleIds: seq<nat>)

  function DefaultPolicy(cfg: Config): Policy
  {
    Policy(cfg.enableT38, cfg.requestT38, None, None, false, false, false, map[], [])
  }

  // ------------------------------------------------------------- matching

  predicate Expired(r: Rule, now: Time)
  {
    r.expiresAt.Some? && r.expiresAt.value < now
  }

  predicate RuleMatches(r: Rule, q: Query)
  {
    && r.enabled
    && !Expired(r, q.now)
    && (r.appliesTo.Blank? || r.appliesTo.Both? || r.appliesTo == Only(q.callType))
    && match r.scope
       case Pair => r.srcNumber == q.src && r.dstNumber == q.dst
       case Dst => r.dstNumber == q.dst || (r.origin.Auto? && r.dstNumber == q.src)
       case Src => r.srcNumber == q.src
       case OtherScope(_) => false
  }

  function Matching(rules: seq<Rule>, q: Query): seq<Rule>
  {
    Filter(r => RuleMatches(r, q), rules)
  }

  // -------------------------------------------------------------- ranking

  function ScopeRank(s: Scope): nat { if s.Pair? then 0 else if s.Dst? then 1 else 2 }
  function OriginRank(o: Origin): nat { if o.Manual? then 0 else 1 }
  function EffectRank(e: Effect): nat { if e.T38On? || e.EcmOn? then 1 else 0 }

  /** The comparison handed to the stable sort. */
  predicate Before(a: Rule, b: Rule)
  {
    if ScopeRank(a.scope) != ScopeRank(b.scope) then ScopeRank(a.scope) < ScopeRank(b.scope)
    else if OriginRank(a.origin) != OriginRank(b.origin) then OriginRank(a.origin) < OriginRank(b.origin)
    else EffectRank(a.effect) < EffectRank(b.effect)
  }

  lemma BeforeIsOrder()
    ensures StrictWeakOrder(Before)
  {}

  // ----------------------------------------------------------- resolution

  function ApplyRule(cfg: Config, p: Policy, r: Rule): Policy
  {
    match r.effect
    case VarOverride =>
      if r.varName in p.varOverrides then p
      else p.(varOverrides := p.varOverrides[r.varName := r.varValue])
    case SoftmodemOnly =>
      if p.t38Decided then p
      else p.(t38Decided := true, softmodemOnly := true, enableT38 := false, requestT38 := false)
    case T38Off =>
      if p.t38Decided then p else p.(t38Decided := true, enableT38 := false, requestT38 := false)
    case T38On =>
      if p.t38Decided then p
      else p.(t38Decided := true, enableT38 := true, requestT38 := cfg.requestT38)
    case EcmOff => if p.useEcm.None? then p.(useEcm := Some(false)) else p
    case EcmOn => if p.useEcm.None? then p.(useEcm := Some(true)) else p
    case V17Off => if p.disableV17.None? then p.(disableV17 := Some(true)) else p
    case OtherEffect(_) => p
  }

  function Fold(cfg: Config, p: Policy, ms: seq<Rule>): Policy
    decreases ms
  {
    if ms == [] then p else Fold(cfg, ApplyRule(cfg, p, ms[0]), ms[1..])
  }

  function Ids(ms: seq<Rule>): seq<nat>
  {
    if ms == [] then [] else [ms[0].id] + Ids(ms[1..])
  }

  /** What `ResolveFaxPolicy` returns for the rules found in the cache. */
  function Resolve(cfg: Config, rules: seq<Rule>, q: Query): Policy
  {
    if !cfg.policyEnabled then DefaultPolicy(cfg)
    else
      var ms := StableSort(Before, Matching(rules, q));
      var p := Fold(cfg, DefaultPolicy(cfg).(appliedRuleIds := Ids(ms)), ms);
      p.(t38ForcedOff := p.t38Decided && !p.enableT38)
  }

  // ------------------------------------- the declarative meaning of a policy

  predicate IsT38(r: Rule) { r.effect.T38Off? || r.effect.T38On? || r.effect.SoftmodemOnly? }
  predicate IsEcm(r: Rule) { r.effect.EcmOff? || r.effect.EcmOn? }
  predicate IsV17(r: Rule) { r.effect.V17Off? }
  function IsVar(name: string): Rule -> bool { (r: Rule) => r.effect.VarOverride? && r.varName == name }

  function BestT38(ms: seq<Rule>): Option<Rule> { Best(Before, IsT38, ms) }
  function BestEcm(ms: seq<Rule>): Option<Rule> { Best(Before, IsEcm, ms) }
  function BestV17(ms: seq<Rule>): Option<Rule> { Best(Before, IsV17, ms) }
  function BestVar(name: string, ms: seq<Rule>): Option<Rule> { Best(Before, IsVar(name), ms) }

  ghost predicate VarFrom(name: string, vars: map<string, string>, base: map<string, string>, pick: Option<Rule>)
  {
    && (name in vars <==> name in base || pick.Some?)
    && (name in base ==> vars[name] == base[name])
    && (name !in base && pick.Some? ==> vars[name] == pick.value.varValue)
  }

  ghost predicate T38By(cfg: Config, p: Policy, base: Policy, t38: Option<Rule>)
  {
    if base.t38Decided || t38.None? then
      && p.t38Decided == base.t38Decided
      && p.enableT38 == base.enableT38
      && p.requestT38 == base.requestT38
      && p.softmodemOnly == base.softmodemOnly
    else
      && p.t38Decided
      && p.enableT38 == t38.value.effect.T38On?
      && p.requestT38 == (t38.value.effect.T38On? && cfg.requestT38)
      && p.softmodemOnly == (base.softmodemOnly || t38.value.effect.SoftmodemOnly?)
  }

  ghost predicate EcmBy(p: Policy, base: Policy, ecm: Option<Rule>)
  {
    p.useEcm == if base.useEcm.Some? then base.useEcm
                else if ecm.Some? then Some(ecm.value.effect.EcmOn?) else None
  }

  ghost predicate V17By(p: Policy, base: Policy, v17: Option<Rule>)
  {
    p.disableV17 == if base.disableV17.Some? then base.disableV17
                    else if v17.Some? then Some(true) else None
  }

  /** Each scalar attribute of `p` is the one its chosen rule (or, without one, the
      starting policy) asks for. */
  ghost predicate ScalarsBy(cfg: Config, p: Policy, base: Policy,
                            t38: Option<Rule>, ecm: Option<Rule>, v17: Option<Rule>)
  {
    && T38By(cfg, p, base, t38) && EcmBy(p, base, ecm) && V17By(p, base, v17)
    && p.appliedRuleIds == base.appliedRuleIds
  }

  function Alone(p: Rule -> bool, r: Rule): Option<Rule> { if p(r) then Some(r) else None }

  lemma StepTakesT38(cfg: Config, p: Policy, r: Rule)
    ensures T38By(cfg, ApplyRule(cfg, p, r), p, Alone(IsT38, r))
  {}

  lemma StepTakesEcm(cfg: Config, p: Policy, r: Rule)
    ensures EcmBy(ApplyRule(cfg, p, r), p, Alone(IsEcm, r))
    ensures ApplyRule(cfg, p, r).appliedRuleIds == p.appliedRuleIds
  {
    assert Alone(IsEcm, r) == if IsEcm(r) then Some(r) else None;
  }

  lemma StepTakesV17(cfg: Config, p: Policy, r: Rule)
    ensures V17By(ApplyRule(cfg, p, r), p, Alone(IsV17, r))
  {
    assert Alone(IsV17, r) == if IsV17(r) then Some(r) else None;
  }

  lemma StepTakes(cfg: Config, p: Policy, r: Rule)
    ensures ScalarsBy(cfg, ApplyRule(cfg, p, r), p, Alone(IsT38, r), Alone(IsEcm, r), Alone(IsV17, r))
  {
    StepTakesT38(cfg, p, r);
    StepTakesEcm(cfg, p, r);
    StepTakesV17(cfg, p, r);
  }

  lemma StepTakesVar(cfg: Config, p: Policy, r: Rule, name: string)
    ensures VarFrom(name, ApplyRule(cfg, p, r).varOverrides, p.varOverrides, Alone(IsVar(name), r))
  {
    assert IsVar(name)(r) <==> r.effect.VarOverride? && r.varName == name;
  }

  function OrElse(a: Option<Rule>, b: Option<Rule>): Option<Rule> { if a.Some? then a else b }

  lemma ScalarsCompose(cfg: Config, p: Policy, p1: Policy, p2: Policy,
                       a: Option<Rule>, b: Option<Rule>, c: Option<Rule>,
                       a1: Option<Rule>, b1: Option<Rule>, c1: Option<Rule>)
    requires ScalarsBy(cfg, p1, p, a, b, c) && ScalarsBy(cfg, p2, p1, a1, b1, c1)
    requires p.t38Decided || !p.softmodemOnly
    ensures ScalarsBy(cfg, p2, p, OrElse(a, a1), OrElse(b, b1), OrElse(c, c1))
  {}

  lemma {:induction false} FoldTakesFirst(cfg: Config, p: Policy, ms: seq<Rule>)
    requires p.t38Decided || !p.softmodemOnly
    ensures ScalarsBy(cfg, Fold(cfg, p, ms), p, First(IsT38, ms), First(IsEcm, ms), First(IsV17, ms))
    decreases ms
  {
    if ms != [] {
      var p1, rest := ApplyRule(cfg, p, ms[0]), ms[1..];
      StepTakes(cfg, p, ms[0]);
      FoldTakesFirst(cfg, p1, rest);
      ScalarsCompose(cfg, p, p1, Fold(cfg, p1, rest),
                     Alone(IsT38, ms[0]), Alone(IsEcm, ms[0]), Alone(IsV17, ms[0]),
                     First(IsT38, rest), First(IsEcm, rest), First(IsV17, rest));
    }
  }

  lemma {:induction false} FoldTakesFirstVar(cfg: Config, p: Policy, ms: seq<Rule>, name: string)
    ensures VarFrom(name, Fold(cfg, p, ms).varOverrides, p.varOverrides, First(IsVar(name), ms))
    decreases ms
  {
    if ms != [] {
      StepTakesVar(cfg, p, ms[0], name);
      FoldTakesFirstVar(cfg, ApplyRule(cfg, p, ms[0]), ms[1..], name);
    }
  }

  /** Sort plus fold refines "the best matching rule per attribute". */
  lemma ResolveIsBestRule(cfg: Config, rules: seq<Rule>, q: Query)
    requires cfg.policyEnabled
    ensures var ms := Matching(rules, q);
            var p := Resolve(cfg, rules, q);
            && ScalarsBy(cfg, p, DefaultPolicy(cfg).(appliedRuleIds := p.appliedRuleIds),
                         BestT38(ms), BestEcm(ms), BestV17(ms))
            && p.t38ForcedOff == (p.t38Decided && !p.enableT38)
            && multiset(p.appliedRuleIds) == multiset(Ids(ms))
  {
    var ms := Matching(rules, q);
    var sorted := StableSort(Before, ms);
    BeforeIsOrder();
    FoldTakesFirst(cfg, DefaultPolicy(cfg).(appliedRuleIds := Ids(sorted)), sorted);
    SortFirst(Before, IsT38, ms);
    SortFirst(Before, IsEcm, ms);
    SortFirst(Before, IsV17, ms);
    IdsPermutation(sorted, ms);
  }

  lemma ResolveVarIsBestRule(cfg: Config, rules: seq<Rule>, q: Query, name: string)
    requires cfg.policyEnabled
    ensures VarFrom(name, Resolve(cfg, rules, q).varOverrides, map[], BestVar(name, Matching(rules, q)))
  {
    var ms := Matching(rules, q);
    var sorted := StableSort(Before, ms);
    BeforeIsOrder();
    FoldTakesFirstVar(cfg, DefaultPolicy(cfg).(appliedRuleIds := Ids(sorted)), sorted, name);
    SortFirst(Before, IsVar(name), ms);
  }

  lemma {:induction false} IdsPermutation(s: seq<Rule>, t: seq<Rule>)
    requires multiset(s) == multiset(t)
    ensures multiset(Ids(s)) == multiset(Ids(t))
  {
    assert |s| == |multiset(s)| && |t| == |multiset(t)|;
    if s != [] {
      assert s == [s[0]] + s[1..];
      assert s[0] in multiset(t);
      var rest := Without(t, s[0]);
      assert multiset(s[1..]) == multiset(rest);
      IdsPermutation(s[1..], rest);
      IdsWithout(t, s[0]);
    }
  }

  lemma {:induction false} IdsWithout(t: seq<Rule>, x: Rule)
    requires x in t
    ensures multiset(Ids(t)) == multiset{x.id} + multiset(Ids(Without(t, x)))
  {
    if t[0] != x { IdsWithout(t[1..], x); }
  }

  // ----------------------------------------------- independence of row order

  /** Two best rules for the same attribute over permuted tables are tied. */
  lemma BestTied(p: Rule -> bool, s: seq<Rule>, t: seq<Rule>)
    requires multiset(s) == multiset(t)
    ensures Best(Before, p, s).Some? == Best(Before, p, t).Some?
    ensures Best(Before, p, s).Some? ==>
              var a, b := Best(Before, p, s).value, Best(Before, p, t).value;
              p(a) && p(b) && !Before(a, b) && !Before(b, a)
  {
    BeforeIsOrder();
    BestDecides(Before, p, s);
    BestDecides(Before, p, t);
    if Best(Before, p, s).Some? { MultisetMember(s, t, Best(Before, p, s).value); }
    if Best(Before, p, t).Some? { MultisetMember(s, t, Best(Before, p, t).value); }
  }

  lemma MatchingPermutation(rules: seq<Rule>, rules': seq<Rule>, q: Query)
    requires multiset(rules) == multiset(rules')
    ensures multiset(Matching(rules, q)) == multiset(Matching(rules', q))
  {
    FilterPermutation(r => RuleMatches(r, q), rules, rules');
  }

  ghost predicate SameOutcome(p: Policy, p': Policy)
  {
    && p.enableT38 == p'.enableT38 && p.requestT38 == p'.requestT38
    && p.useEcm == p'.useEcm && p.disableV17 == p'.disableV17
    && p.t38Decided == p'.t38Decided && p.t38ForcedOff == p'.t38ForcedOff
    && p.varOverrides.Keys == p'.varOverrides.Keys
    && multiset(p.appliedRuleIds) == multiset(p'.appliedRuleIds)
  }

  /** Tied choices give the same values. */
  lemma TiedOutcome(cfg: Config, p: Policy, p': Policy, ms: seq<Rule>, ms': seq<Rule>)
    requires multiset(ms) == multiset(ms')
    requires ScalarsBy(cfg, p, DefaultPolicy(cfg).(appliedRuleIds := p.appliedRuleIds),
                       BestT38(ms), BestEcm(ms), BestV17(ms))
    requires ScalarsBy(cfg, p', DefaultPolicy(cfg).(appliedRuleIds := p'.appliedRuleIds),
                       BestT38(ms'), BestEcm(ms'), BestV17(ms'))
    ensures p.t38Decided == p'.t38Decided && p.enableT38 == p'.enableT38 && p.requestT38 == p'.requestT38
    ensures p.useEcm == p'.useEcm && p.disableV17 == p'.disableV17
  {
    BestTied(IsT38, ms, ms');
    BestTied(IsEcm, ms, ms');
    BestTied(IsV17, ms, ms');
  }

  lemma VarsOrderIndependent(cfg: Config, rules: seq<Rule>, rules': seq<Rule>, q: Query)
    requires cfg.policyEnabled && multiset(rules) == multiset(rules')
    ensures Resolve(cfg, rules, q).varOverrides.Keys == Resolve(cfg, rules', q).varOverrides.Keys
  {
    var vars, vars' := Resolve(cfg, rules, q).varOverrides, Resolve(cfg, rules', q).varOverrides;
    MatchingPermutation(rules, rules', q);
    forall name: string ensures name in vars <==> name in vars' {
      ResolveVarIsBestRule(cfg, rules, q, name);
      ResolveVarIsBestRule(cfg, rules', q, name);
      BestTied(IsVar(name), Matching(rules, q), Matching(rules', q));
    }
  }

  /** The order in which the database returns the rules does not matter. */
  lemma ResolveOrderIndependent(cfg: Config, rules: seq<Rule>, rules': seq<Rule>, q: Query)
    requires multiset(rules) == multiset(rules')
    ensures SameOutcome(Resolve(cfg, rules, q), Resolve(cfg, rules', q))
  {
    if cfg.policyEnabled {
      var ms, ms' := Matching(rules, q), Matching(rules', q);
      ResolveIsBestRule(cfg, rules, q);
      ResolveIsBestRule(cfg, rules', q);
      MatchingPermutation(rules, rules', q);
      TiedOutcome(cfg, Resolve(cfg, rules, q), Resolve(cfg, rules', q), ms, ms');
      IdsPermutation(ms, ms');
      VarsOrderIndependent(cfg, rules, rules', q);
    }
  }

  ghost predicate DeciderIs(p: Rule -> bool, ms: seq<Rule>, m: Rule)
  {
    Decides(Before, p, ms, m)
  }

  /** Bringing a decider to the front of the table makes it the chosen rule. */
  lemma DeciderToFront(p: Rule -> bool, rules: seq<Rule>, q: Query, m: Rule) returns (rules': seq<Rule>)
    requires DeciderIs(p, Matching(rules, q), m)
    ensures multiset(rules') == multiset(rules)
    ensures Best(Before, p, Matching(rules', q)) == Some(m)
  {
    FilterMember(r => RuleMatches(r, q), rules, m);
    rules' := [m] + Without(rules, m);
    MatchingPermutation(rules, rules', q);
    DecidesPermutation(Before, p, Matching(rules, q), Matching(rules', q), m);
    BeforeIsOrder();
    BestAtFront(Before, p, Matching(rules', q));
  }

  lemma SoftmodemOnlyFollowsBest(cfg: Config, rules: seq<Rule>, q: Query)
    requires cfg.policyEnabled
    ensures var best := BestT38(Matching(rules, q));
            Resolve(cfg, rules, q).softmodemOnly == (best.Some? && best.value.effect.SoftmodemOnly?)
  {
    ResolveIsBestRule(cfg, rules, q);
  }

  lemma BestIsDecider(p: Rule -> bool, ms: seq<Rule>, ms': seq<Rule>)
    requires multiset(ms) == multiset(ms')
    ensures Best(Before, p, ms).Some? == Best(Before, p, ms').Some?
    ensures Best(Before, p, ms').Some? ==> DeciderIs(p, ms, Best(Before, p, ms').value)
  {
    BeforeIsOrder();
    BestTied(p, ms, ms');
    BestDecides(Before, p, ms');
    if Best(Before, p, ms').Some? { DecidesPermutation(Before, p, ms', ms, Best(Before, p, ms').value); }
  }

  ghost predicate NoMixedDeciders(ms: seq<Rule>)
  {
    forall a, b | DeciderIs(IsT38, ms, a) && DeciderIs(IsT38, ms, b) :: a.effect == b.effect
  }

  lemma SoftmodemOnlySame(cfg: Config, rules: seq<Rule>, rules': seq<Rule>, q: Query)
    requires cfg.policyEnabled && multiset(rules') == multiset(rules) && NoMixedDeciders(Matching(rules, q))
    ensures Resolve(cfg, rules', q).softmodemOnly == Resolve(cfg, rules, q).softmodemOnly
  {
    var ms, ms' := Matching(rules, q), Matching(rules', q);
    MatchingPermutation(rules, rules', q);
    SoftmodemOnlyFollowsBest(cfg, rules, q);
    SoftmodemOnlyFollowsBest(cfg, rules', q);
    BestIsDecider(IsT38, ms, ms);
    BestIsDecider(IsT38, ms, ms');
  }

  lemma SoftmodemOnlyMixed(cfg: Config, rules: seq<Rule>, q: Query, a: Rule, b: Rule) returns (rules': seq<Rule>)
    requires cfg.policyEnabled && a.effect != b.effect
    requires DeciderIs(IsT38, Matching(rules, q), a) && DeciderIs(IsT38, Matching(rules, q), b)
    ensures multiset(rules') == multiset(rules)
    ensures Resolve(cfg, rules', q).softmodemOnly != Resolve(cfg, rules, q).softmodemOnly
  {
    var ra := DeciderToFront(IsT38, rules, q, a);
    var rb := DeciderToFront(IsT38, rules, q, b);
    SoftmodemOnlyFollowsBest(cfg, ra, q);
    SoftmodemOnlyFollowsBest(cfg, rb, q);
    assert !Before(a, b) && !Before(b, a);
    assert a.effect.SoftmodemOnly? != b.effect.SoftmodemOnly?;
    rules' := if Resolve(cfg, ra, q).softmodemOnly != Resolve(cfg, rules, q).softmodemOnly then ra else rb;
  }

  /** SoftmodemOnly is the one T.38 field that can follow row order: it is stable
      exactly when the best rules do not mix `softmodem_only` with `t38_off`. */
  lemma SoftmodemOnlyStableIff(cfg: Config, rules: seq<Rule>, q: Query)
    requires cfg.policyEnabled
    ensures (forall rules' | multiset(rules') == multiset(rules) ::
               Resolve(cfg, rules', q).softmodemOnly == Resolve(cfg, rules, q).softmodemOnly)
       <==> NoMixedDeciders(Matching(rules, q))
  {
    if NoMixedDeciders(Matching(rules, q)) {
      forall rules' | multiset(rules') == multiset(rules)
        ensures Resolve(cfg, rules', q).softmodemOnly == Resolve(cfg, rules, q).softmodemOnly
      {
        SoftmodemOnlySame(cfg, rules, rules', q);
      }
    } else {
      var a, b :| DeciderIs(IsT38, Matching(rules, q), a) && DeciderIs(IsT38, Matching(rules, q), b)
                  && a.effect != b.effect;
      var rules' := SoftmodemOnlyMixed(cfg, rules, q, a, b);
    }
  }

  /** A channel-variable override is stable exactly when its best rules agree. */
  lemma VarOverrideStableIff(cfg: Config, rules: seq<Rule>, q: Query, name: string)
    requires cfg.policyEnabled && name in Resolve(cfg, rules, q).varOverrides
    ensures (forall rules' | multiset(rules') == multiset(rules) ::
               && name in Resolve(cfg, rules', q).varOverrides
               && Resolve(cfg, rules', q).varOverrides[name] == Resolve(cfg, rules, q).varOverrides[name])
       <==> (forall a, b | DeciderIs(IsVar(name), Matching(rules, q), a) && DeciderIs(IsVar(name), Matching(rules, q), b) ::
               a.varValue == b.varValue)
  {
    var ms := Matching(rules, q);
    var p := IsVar(name);
    BeforeIsOrder();
    ResolveVarIsBestRule(cfg, rules, q, name);
    assert BestVar(name, ms).Some?;
    if forall a, b | DeciderIs(p, ms, a) && DeciderIs(p, ms, b) :: a.varValue == b.varValue {
      forall rules' | multiset(rules') == multiset(rules)
        ensures name in Resolve(cfg, rules', q).varOverrides
        ensures Resolve(cfg, rules', q).varOverrides[name] == Resolve(cfg, rules, q).varOverrides[name]
      {
        var ms' := Matching(rules', q);
        ResolveVarIsBestRule(cfg, rules', q, name);
        MatchingPermutation(rules, rules', q);
        BestTied(p, ms, ms');
        BestDecides(Before, p, ms);
        BestDecides(Before, p, ms');
        DecidesPermutation(Before, p, ms', ms, BestVar(name, ms').value);
        assert DeciderIs(p, ms, BestVar(name, ms).value) && DeciderIs(p, ms, BestVar(name, ms').value);
      }
    } else {
      var a, b :| DeciderIs(p, ms, a) && DeciderIs(p, ms, b) && a.varValue != b.varValue;
      var ra := DeciderToFront(p, rules, q, a);
      var rb := DeciderToFront(p, rules, q, b);
      ResolveVarIsBestRule(cfg, ra, q, name);
      ResolveVarIsBestRule(cfg, rb, q, name);
      assert BestVar(name, Matching(ra, q)).Some? && BestVar(name, Matching(rb, q)).Some?;
      assert Resolve(cfg, ra, q).varOverrides[name] != Resolve(cfg, rb, q).varOverrides[name];
    }
  }

  // -------------------------------------------------- fail-safe monotonicity

  lemma BestWithExtra(p: Rule -> bool, rules: seq<Rule>, extra: Rule, q: Query)
    ensures Best(Before, p, Matching([extra] + rules, q)) ==
            var b := Best(Before, p, Matching(rules, q));
            if RuleMatches(extra, q) && p(extra) && (b.None? || !Before(b.value, extra)) then Some(extra) else b
  {
    assert ([extra] + rules)[1..] == rules;
    assert Matching([extra] + rules, q) == (if RuleMatches(extra, q) then [extra] else []) + Matching(rules, q);
  }

  /** Adding a restrictive T.38 rule anywhere in the table never turns T.38 on. */
  lemma AddingT38OffIsSafe(cfg: Config, rules: seq<Rule>, rules': seq<Rule>, extra: Rule, q: Query)
    requires multiset(rules') == multiset(rules) + multiset{extra}
    requires extra.effect.T38Off? || extra.effect.SoftmodemOnly?
    ensures Resolve(cfg, rules', q).enableT38 ==> Resolve(cfg, rules, q).enableT38
    ensures Resolve(cfg, rules', q).requestT38 ==> Resolve(cfg, rules, q).requestT38
  {
    ResolveOrderIndependent(cfg, rules', [extra] + rules, q);
    if cfg.policyEnabled {
      ResolveIsBestRule(cfg, rules, q);
      ResolveIsBestRule(cfg, [extra] + rules, q);
      BestWithExtra(IsT38, rules, extra, q);
    }
  }

  // ------------------------------------------------- row order does show

  /** A manual rule for every call to `dst`. */
  function ForCallsTo(dst: string, id: nat, effect: Effect, name: string, value: string): Rule
  {
    Rule(id, Dst, "", dst, effect, Both, Manual, true, None, name, value, 0, 0, None, "")
  }

  /** Of two equal-ranked rules with a property the first one listed is best. */
  lemma FirstOfTwo(p: Rule -> bool, a: Rule, b: Rule, q: Query)
    requires RuleMatches(a, q) && RuleMatches(b, q) && p(a) && !Before(b, a)
    ensures Best(Before, p, Matching([a, b], q)) == Some(a)
  {
    var ms := [a, b];
    assert ms[1..] == [b] && [b][1..] == [];
    FilterAll(r => RuleMatches(r, q), ms);
    assert Matching(ms, q) == ms;
    assert Best(Before, p, [b]) == if p(b) then Some(b) else None;
    assert Best(Before, p, ms) == Some(a);
  }

  /** Two rows that swap: a softmodem_only and a t38_off rule of equal rank. */
  lemma SoftmodemOnlyInput(cfg: Config, q: Query)
    requires cfg.policyEnabled
    ensures var a, b := ForCallsTo(q.dst, 1, SoftmodemOnly, "", ""), ForCallsTo(q.dst, 2, T38Off, "", "");
            && multiset([a, b]) == multiset([b, a])
            && Resolve(cfg, [a, b], q).softmodemOnly && !Resolve(cfg, [b, a], q).softmodemOnly
  {
    hide Resolve, Matching;
    var a, b := ForCallsTo(q.dst, 1, SoftmodemOnly, "", ""), ForCallsTo(q.dst, 2, T38Off, "", "");
    FirstOfTwo(IsT38, a, b, q);
    FirstOfTwo(IsT38, b, a, q);
    SoftmodemOnlyFollowsBest(cfg, [a, b], q);
    SoftmodemOnlyFollowsBest(cfg, [b, a], q);
  }

  /** Two rows that swap: two values for one variable, of equal rank. */
  lemma TiedOverrideInput(cfg: Config, q: Query)
    requires cfg.policyEnabled
    ensures var a, b := ForCallsTo(q.dst, 1, VarOverride, "v", "x"), ForCallsTo(q.dst, 2, VarOverride, "v", "y");
            && multiset([a, b]) == multiset([b, a])
            && "v" in Resolve(cfg, [a, b], q).varOverrides && Resolve(cfg, [a, b], q).varOverrides["v"] == "x"
            && "v" in Resolve(cfg, [b, a], q).varOverrides && Resolve(cfg, [b, a], q).varOverrides["v"] == "y"
  {
    hide Resolve, Matching;
    var a, b := ForCallsTo(q.dst, 1, VarOverride, "v", "x"), ForCallsTo(q.dst, 2, VarOverride, "v", "y");
    FirstOfTwo(IsVar("v"), a, b, q);
    FirstOfTwo(IsVar("v"), b, a, q);
    ResolveVarIsBestRule(cfg, [a, b], q, "v");
    ResolveVarIsBestRule(cfg, [b, a], q, "v");
  }

  lemma T38FollowsBest(cfg: Config, rules: seq<Rule>, q: Query)
    requires cfg.policyEnabled && BestT38(Matching(rules, q)).Some?
    ensures var p := Resolve(cfg, rules, q);
            var on := BestT38(Matching(rules, q)).value.effect.T38On?;
            p.t38Decided && p.enableT38 == on && p.requestT38 == (on && cfg.requestT38) && p.t38ForcedOff == !on
  {
    ResolveIsBestRule(cfg, rules, q);
  }

  lemma EcmFollowsBest(cfg: Config, rules: seq<Rule>, q: Query)
    requires cfg.policyEnabled
    ensures var best := BestEcm(Matching(rules, q));
            Resolve(cfg, rules, q).useEcm == if best.Some? then Some(best.value.effect.EcmOn?) else None
  {
    ResolveIsBestRule(cfg, rules, q);
  }

  /** Adding `ecm_off` anywhere never lifts a resolved ECM ban. */
  lemma AddingEcmOffIsSafe(cfg: Config, rules: seq<Rule>, rules': seq<Rule>, extra: Rule, q: Query)
    requires multiset(rules') == multiset(rules) + multiset{extra}
    requires extra.effect.EcmOff?
    requires Resolve(cfg, rules, q).useEcm == Some(false)
    ensures Resolve(cfg, rules', q).useEcm == Some(false)
  {
    ResolveOrderIndependent(cfg, rules', [extra] + rules, q);
    EcmFollowsBest(cfg, rules, q);
    EcmFollowsBest(cfg, [extra] + rules, q);
    BestWithExtra(IsEcm, rules, extra, q);
  }

  // --------------------------------------------------- pruning is invisible

  predicate Prunable(r: Rule, now: Time) { Expired(r, now) && r.origin.Auto? }

  /** What a reload keeps: everything but expired automatic rules. */
  function Pruned(rules: seq<Rule>, now: Time): seq<Rule>
  {
    Filter(r => !Prunable(r, now), rules)
  }

  lemma PruningInvisible(cfg: Config, rules: seq<Rule>, pruned: Time, q: Query)
    requires pruned <= q.now
    ensures Resolve(cfg, Pruned(rules, pruned), q) == Resolve(cfg, rules, q)
  {
    FilterAbsorbs(r => RuleMatches(r, q), r => !Prunable(r, pruned), rules);
  }
}
