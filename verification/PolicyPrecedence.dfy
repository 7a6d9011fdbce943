/** Which rule wins (gofaxserver/faxpolicy.go), said without the ranks the sort compares:
    the resolver against a reference that speaks of scopes, origins and effects alone. */
module PolicyPrecedence {
  import opened Seqs
  import opened FaxPolicy

  /** The calls a rule is about. */
  predicate Concerns(r: Rule, q: Query)
  {
    && r.enabled && (r.expiresAt.Some? ==> q.now <= r.expiresAt.value)
    && (r.appliesTo == Blank || r.appliesTo == Both || r.appliesTo == Only(q.callType))
    && (|| (r.scope == Pair && (r.srcNumber, r.dstNumber) == (q.src, q.dst))
        || (r.scope == Dst && (r.dstNumber == q.dst || (r.dstNumber == q.src && r.origin == Auto)))
        || (r.scope == Src && r.srcNumber == q.src))
  }

  predicate AboutT38(r: Rule) { r.effect == T38Off || r.effect == T38On || r.effect == SoftmodemOnly }
  predicate AboutEcm(r: Rule) { r.effect == EcmOff || r.effect == EcmOn }
  predicate AboutV17(r: Rule) { r.effect == V17Off }
  function AboutVar(name: string): Rule -> bool { (r: Rule) => r.effect == VarOverride && r.varName == name }

  predicate Rival(rules: seq<Rule>, q: Query, kind: Rule -> bool, r: Rule)
  {
    r in rules && kind(r) && Concerns(r, q)
  }

  predicate Narrower(a: Scope, b: Scope) { (a == Pair && b != Pair) || (a == Dst && b == Src) }

  /** No rival has a narrower scope, and within the scope a manual rule shuts out the
      automatic ones. */
  predicate Contends(rules: seq<Rule>, q: Query, kind: Rule -> bool, r: Rule)
  {
    && Rival(rules, q, kind, r)
    && forall o | o in rules && Rival(rules, q, kind, o) ::
         !Narrower(o.scope, r.scope) && (o.scope == r.scope && o.origin == Manual ==> r.origin == Manual)
  }

  predicate Permissive(r: Rule) { r.effect == T38On || r.effect == EcmOn }

  /** A permissive contender wins only when every contender is permissive. */
  predicate Wins(rules: seq<Rule>, q: Query, kind: Rule -> bool, r: Rule)
  {
    && Contends(rules, q, kind, r)
    && (Permissive(r) ==> forall o | o in rules && Contends(rules, q, kind, o) :: Permissive(o))
  }

  function Winner(rules: seq<Rule>, q: Query, kind: Rule -> bool): Option<Rule>
  {
    First(r => Wins(rules, q, kind, r), rules)
  }

  // ------------------------------------------------- the ranks say the same

  lemma ConcernsIsMatches(r: Rule, q: Query)
    ensures Concerns(r, q) <==> RuleMatches(r, q)
    ensures Concerns(r, q) ==> r.scope == Pair || r.scope == Dst || r.scope == Src
  {
  }

  /** `a` goes before `b`: narrower, or manual against automatic, or restrictive against
      permissive. */
  predicate Ahead(a: Rule, b: Rule)
  {
    || Narrower(a.scope, b.scope)
    || (a.scope == b.scope && a.origin == Manual && b.origin != Manual)
    || (a.scope == b.scope && (a.origin == Manual <==> b.origin == Manual) && !Permissive(a) && Permissive(b))
  }

  lemma AheadIsBefore(a: Rule, b: Rule, q: Query)
    requires Concerns(a, q) && Concerns(b, q)
    ensures Ahead(a, b) <==> Before(a, b)
  {
  }

  /** To win is to be a rival no other rival is ahead of. */
  lemma WinsIsUnbeaten(rules: seq<Rule>, q: Query, kind: Rule -> bool, r: Rule)
    ensures Wins(rules, q, kind, r) <==>
            Rival(rules, q, kind, r) && forall o | Rival(rules, q, kind, o) :: !Ahead(o, r)
  {
    hide Concerns;
    if Rival(rules, q, kind, r) {
      ConcernsIsMatches(r, q);
      if Contends(rules, q, kind, r) && Permissive(r) && !Wins(rules, q, kind, r) {
        var o :| o in rules && Contends(rules, q, kind, o) && !Permissive(o);
        ConcernsIsMatches(o, q);
        assert Ahead(o, r);
      }
      forall o | Rival(rules, q, kind, o) && Wins(rules, q, kind, r) ensures !Ahead(o, r) {
        SameFooting(rules, q, kind, r, o);
      }
    }
  }

  lemma SameFooting(rules: seq<Rule>, q: Query, kind: Rule -> bool, r: Rule, o: Rule)
    requires Contends(rules, q, kind, r) && Rival(rules, q, kind, o)
    ensures o.scope == r.scope && (o.origin == Manual <==> r.origin == Manual) ==> Contends(rules, q, kind, o)
  {
  }

  /** The best element is the first one that no other beats. */
  lemma BestIsFirst(p: Rule -> bool, s: seq<Rule>, win: Rule -> bool)
    requires forall r | r in s :: win(r) <==> Decides(Before, p, s, r)
    ensures Best(Before, p, s) == First(win, s)
  {
    BeforeIsOrder();
    BestDecides(Before, p, s);
    FirstMember(win, s);
    if Best(Before, p, s).Some? { BestIsLeftmost(p, s, win); }
  }

  lemma {:induction false} BestIsLeftmost(p: Rule -> bool, s: seq<Rule>, win: Rule -> bool)
    requires Best(Before, p, s).Some?
    requires forall r | r in s :: win(r) <==> p(r) && !Before(Best(Before, p, s).value, r)
    ensures First(win, s) == Best(Before, p, s)
  {
    BeforeIsOrder();
    BestDecides(Before, p, s);
    var b := Best(Before, p, s[1..]);
    if Best(Before, p, s).value == s[0] {
      assert win(s[0]);
    } else {
      assert s[0] in s && b == Best(Before, p, s);
      assert !win(s[0]);
      BestIsLeftmost(p, s[1..], win);
    }
  }

  lemma {:induction false} FirstOfFilter(p: Rule -> bool, q: Rule -> bool, s: seq<Rule>)
    requires forall r | r in s && p(r) :: q(r)
    ensures First(p, Filter(q, s)) == First(p, s)
  {
    if s != [] { FirstOfFilter(p, q, s[1..]); }
  }

  lemma WinnerIsBest(rules: seq<Rule>, q: Query, kind: Rule -> bool)
    ensures Winner(rules, q, kind) == Best(Before, kind, Matching(rules, q))
  {
    hide Concerns, Contends, Wins, Before, Ahead, RuleMatches, Best, First;
    var ms, win, matches := Matching(rules, q), r => Wins(rules, q, kind, r), r => RuleMatches(r, q);
    forall r ensures r in ms <==> r in rules && Concerns(r, q) {
      FilterMember(matches, rules, r);
      ConcernsIsMatches(r, q);
    }
    forall r | r in ms ensures win(r) <==> Decides(Before, kind, ms, r) {
      WinsIsUnbeaten(rules, q, kind, r);
      forall o | o in ms ensures Ahead(o, r) <==> Before(o, r) { AheadIsBefore(o, r, q); }
    }
    BestIsFirst(kind, ms, win);
    forall r | r in rules && win(r) ensures matches(r) {
      WinsIsUnbeaten(rules, q, kind, r);
      ConcernsIsMatches(r, q);
    }
    FirstOfFilter(win, matches, rules);
  }

  // ---------------------------------------------------------- the main result

  /** Over any table, each attribute of the resolved policy is what its winner asks for,
      and without one what the configuration says. */
  lemma ResolveByPrecedence(cfg: Config, rules: seq<Rule>, q: Query)
    requires cfg.policyEnabled
    ensures var p, t38 := Resolve(cfg, rules, q), Winner(rules, q, AboutT38);
            && p.t38Decided == t38.Some?
            && p.enableT38 == (if t38.Some? then t38.value.effect == T38On else cfg.enableT38)
            && p.requestT38 == (cfg.requestT38 && (t38.Some? ==> t38.value.effect == T38On))
            && p.t38ForcedOff == (t38.Some? && t38.value.effect != T38On)
            && p.softmodemOnly == (t38.Some? && t38.value.effect == SoftmodemOnly)
    ensures var p, ecm := Resolve(cfg, rules, q), Winner(rules, q, AboutEcm);
            p.useEcm == if ecm.Some? then Some(ecm.value.effect == EcmOn) else None
    ensures var p, v17 := Resolve(cfg, rules, q), Winner(rules, q, AboutV17);
            p.disableV17 == if v17.Some? then Some(true) else None
    ensures var vars := Resolve(cfg, rules, q).varOverrides;
            forall name: string ::
              var w := Winner(rules, q, AboutVar(name));
              (name in vars <==> w.Some?) && (w.Some? ==> vars[name] == w.value.varValue)
  {
    hide Resolve, Winner, Best;
    var ms := Matching(rules, q);
    ResolveIsBestRule(cfg, rules, q);
    SameKinds(ms);
    WinnerIsBest(rules, q, AboutT38);
    WinnerIsBest(rules, q, AboutEcm);
    WinnerIsBest(rules, q, AboutV17);
    forall name: string
      ensures var w, vars := Winner(rules, q, AboutVar(name)), Resolve(cfg, rules, q).varOverrides;
              (name in vars <==> w.Some?) && (w.Some? ==> vars[name] == w.value.varValue)
    {
      ResolveVarIsBestRule(cfg, rules, q, name);
      WinnerIsBest(rules, q, AboutVar(name));
      BestSameKind(IsVar(name), AboutVar(name), ms);
    }
  }

  lemma SameKinds(ms: seq<Rule>)
    ensures BestT38(ms) == Best(Before, AboutT38, ms) && BestEcm(ms) == Best(Before, AboutEcm, ms)
    ensures BestV17(ms) == Best(Before, AboutV17, ms)
  {
    BestSameKind(IsT38, AboutT38, ms);
    BestSameKind(IsEcm, AboutEcm, ms);
    BestSameKind(IsV17, AboutV17, ms);
  }

  lemma {:induction false} BestSameKind(p: Rule -> bool, p': Rule -> bool, ms: seq<Rule>)
    requires forall r :: p(r) <==> p'(r)
    ensures Best(Before, p, ms) == Best(Before, p', ms)
  {
    if ms != [] { BestSameKind(p, p', ms[1..]); }
  }

  /** What that means for T.38: a pair rule decides before a destination rule before a
      source rule, a manual one before an automatic one, and among those left one
      restrictive rule suffices to turn T.38 off. */
  lemma T38Precedence(cfg: Config, rules: seq<Rule>, q: Query)
    requires cfg.policyEnabled
    ensures var p := Resolve(cfg, rules, q);
            && (p.t38Decided <==> exists r | r in rules :: Rival(rules, q, AboutT38, r))
            && (p.t38Decided ==>
                  (p.enableT38 <==> forall r | r in rules && Contends(rules, q, AboutT38, r) :: r.effect == T38On))
  {
    hide Resolve, Concerns;
    ResolveByPrecedence(cfg, rules, q);
    UnanimousWinner(rules, q, AboutT38);
  }

  /** The same for error correction. */
  lemma EcmPrecedence(cfg: Config, rules: seq<Rule>, q: Query)
    requires cfg.policyEnabled
    ensures var p := Resolve(cfg, rules, q);
            && (p.useEcm.Some? <==> exists r | r in rules :: Rival(rules, q, AboutEcm, r))
            && (p.useEcm.Some? ==>
                  (p.useEcm.value <==> forall r | r in rules && Contends(rules, q, AboutEcm, r) :: r.effect == EcmOn))
  {
    hide Resolve, Concerns;
    ResolveByPrecedence(cfg, rules, q);
    UnanimousWinner(rules, q, AboutEcm);
  }

  /** The contender for a variable that stands first in the table. */
  ghost predicate FirstContender(rules: seq<Rule>, q: Query, name: string, i: nat)
  {
    && i < |rules| && Contends(rules, q, AboutVar(name), rules[i])
    && forall j | 0 <= j < i :: !Contends(rules, q, AboutVar(name), rules[j])
  }

  /** The same for each variable, where nothing is restrictive: the first contender's value. */
  lemma VarPrecedence(cfg: Config, rules: seq<Rule>, q: Query, name: string)
    requires cfg.policyEnabled
    ensures var vars := Resolve(cfg, rules, q).varOverrides;
            && (name in vars <==> exists r | r in rules :: Rival(rules, q, AboutVar(name), r))
            && (name in vars ==> exists i: nat :: FirstContender(rules, q, name, i) && vars[name] == rules[i].varValue)
  {
    hide Resolve, Concerns, Winner, Wins, Contends;
    var win := r => Wins(rules, q, AboutVar(name), r);
    ResolveByPrecedence(cfg, rules, q);
    UnanimousWinner(rules, q, AboutVar(name));
    WinnerIsFirst(rules, q, name);
    FirstPlace(win, rules);
    forall r | r in rules ensures win(r) <==> Contends(rules, q, AboutVar(name), r) { NothingPermissive(rules, q, name, r); }
    if Winner(rules, q, AboutVar(name)).Some? {
      var i :| 0 <= i < |rules| && rules[i] == First(win, rules).value && win(rules[i]) && forall j | 0 <= j < i :: !win(rules[j]);
      assert FirstContender(rules, q, name, i);
    }
  }

  lemma WinnerIsFirst(rules: seq<Rule>, q: Query, name: string)
    ensures Winner(rules, q, AboutVar(name)) == First(r => Wins(rules, q, AboutVar(name), r), rules)
  {
  }

  lemma NothingPermissive(rules: seq<Rule>, q: Query, name: string, r: Rule)
    ensures Wins(rules, q, AboutVar(name), r) <==> Contends(rules, q, AboutVar(name), r)
  {
  }

  /** There is a winner exactly when there is a rival, and it is permissive exactly when
      every contender is. */
  lemma UnanimousWinner(rules: seq<Rule>, q: Query, kind: Rule -> bool)
    ensures var w := Winner(rules, q, kind);
            && (w.Some? <==> exists r | r in rules :: Rival(rules, q, kind, r))
            && (w.Some? ==> Contends(rules, q, kind, w.value) && kind(w.value))
            && (w.Some? ==> (Permissive(w.value) <==>
                               forall r | r in rules && Contends(rules, q, kind, r) :: Permissive(r)))
  {
    hide Concerns;
    var ms, w := Matching(rules, q), Winner(rules, q, kind);
    FirstMember(r => Wins(rules, q, kind, r), rules);
    WinnerIsBest(rules, q, kind);
    BeforeIsOrder();
    BestDecides(Before, kind, ms);
    forall r | r in rules && Rival(rules, q, kind, r) ensures w.Some? {
      ConcernsIsMatches(r, q);
      FilterMember(x => RuleMatches(x, q), rules, r);
    }
  }

  /** The applied rules are listed in that order, each as often as the table holds it. */
  lemma AppliedInOrder(cfg: Config, rules: seq<Rule>, q: Query) returns (applied: seq<Rule>)
    requires cfg.policyEnabled
    ensures Resolve(cfg, rules, q).appliedRuleIds == Ids(applied)
    ensures forall i, j | 0 <= i < j < |applied| :: !Ahead(applied[j], applied[i])
    ensures forall r :: multiset(applied)[r] == if Concerns(r, q) then multiset(rules)[r] else 0
  {
    hide Concerns, Ahead, Before, RuleMatches;
    var ms := Matching(rules, q);
    applied := StableSort(Before, ms);
    BeforeIsOrder();
    SortSorted(Before, ms);
    FoldTakesFirst(cfg, DefaultPolicy(cfg).(appliedRuleIds := Ids(applied)), applied);
    forall r ensures multiset(applied)[r] == if Concerns(r, q) then multiset(rules)[r] else 0 {
      FilterMultiset(x => RuleMatches(x, q), rules, r);
      ConcernsIsMatches(r, q);
    }
    forall i, j | 0 <= i < j < |applied| ensures !Ahead(applied[j], applied[i]) {
      assert applied[i] in multiset(applied) && applied[j] in multiset(applied);
      AheadIsBefore(applied[j], applied[i], q);
    }
  }

  /** With the policy switched off, the configuration alone speaks. */
  lemma PolicyOff(cfg: Config, rules: seq<Rule>, q: Query)
    requires !cfg.policyEnabled
    ensures Resolve(cfg, rules, q) ==
            Policy(cfg.enableT38, cfg.requestT38, None, None, false, false, false, map[], [])
  {
  }
}
