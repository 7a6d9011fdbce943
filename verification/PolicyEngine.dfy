/** The policy engine as it runs (gofaxserver/faxpolicy.go): a rule table, a cached copy
    of it, and methods that change them in place. Each method is one lock-protected step
    with one clock reading, and is tied to the step functions of PolicyLearning. */
module PolicyEngine {
  import opened Seqs
  import opened FaxPolicy
  import opened PolicyLearning

  /** Primary keys ascend and stay below the next one. */
  ghost predicate Keyed(t: Table)
  {
    && (forall i, j | 0 <= i < j < |t.rows| :: t.rows[i].id < t.rows[j].id)
    && (forall i | 0 <= i < |t.rows| :: t.rows[i].id < t.nextId)
  }

  lemma {:induction false} KeyedFilter(p: Rule -> bool, t: Table)
    requires Keyed(t)
    ensures Keyed(t.(rows := Filter(p, t.rows)))
    decreases |t.rows|
  {
    if t.rows != [] {
      var rest := t.(rows := t.rows[1..]);
      KeyedFilter(p, rest);
      var kept := Filter(p, rest.rows);
      forall j | 0 <= j < |kept| ensures t.rows[0].id < kept[j].id {
        assert kept[j] in kept;
        FilterMember(p, rest.rows, kept[j]);
      }
    }
  }

  /** What is still stored when the prunable rows among `done` have been deleted. */
  function Undeleted(now: Time, done: seq<Rule>): Rule -> bool
  {
    x => !(Prunable(x, now) && x in done)
  }

  lemma DeleteStep(t: Table, now: Time, done: seq<Rule>, r: Rule)
    requires Keyed(t) && r in t.rows
    ensures Filter(Undeleted(now, done + [r]), t.rows) ==
            var left := Filter(Undeleted(now, done), t.rows);
            if Prunable(r, now) then Filter((x: Rule) => x.id != r.id, left) else left
  {
    var next := Undeleted(now, done + [r]);
    if Prunable(r, now) {
      FilterCompose((x: Rule) => x.id != r.id, Undeleted(now, done), next, t.rows);
    } else {
      FilterAgree(Undeleted(now, done), next, t.rows);
    }
  }

  lemma PruneStep(t: Table, now: Time, rows: seq<Rule>, i: nat)
    requires Keyed(t) && multiset(rows) == multiset(t.rows) && i < |rows|
    ensures Pruned(rows[..i + 1], now) == Pruned(rows[..i], now) + if Prunable(rows[i], now) then [] else [rows[i]]
    ensures Filter(Undeleted(now, rows[..i + 1]), t.rows) ==
            var left := Filter(Undeleted(now, rows[..i]), t.rows);
            if Prunable(rows[i], now) then Filter((x: Rule) => x.id != rows[i].id, left) else left
  {
    assert rows[..i + 1] == rows[..i] + [rows[i]];
    FilterConcat(x => !Prunable(x, now), rows[..i], [rows[i]]);
    MultisetMember(rows, t.rows, rows[i]);
    DeleteStep(t, now, rows[..i], rows[i]);
  }

  lemma DeleteDone(t: Table, now: Time, rows: seq<Rule>)
    requires multiset(rows) == multiset(t.rows)
    ensures Filter(Undeleted(now, []), t.rows) == t.rows && Pruned([], now) == []
    ensures Filter(Undeleted(now, rows), t.rows) == Pruned(t.rows, now)
    ensures multiset(Pruned(rows, now)) == multiset(Pruned(t.rows, now))
  {
    FilterAll(Undeleted(now, []), t.rows);
    forall x | x in t.rows ensures x in rows { MultisetMember(t.rows, rows, x); }
    FilterAgree(Undeleted(now, rows), x => !Prunable(x, now), t.rows);
    FilterPermutation(x => !Prunable(x, now), rows, t.rows);
  }

  lemma {:induction false} FilterPointwise(p: Rule -> bool, s: seq<Rule>, t: seq<Rule>)
    requires |s| == |t|
    requires forall j | 0 <= j < |s| :: s[j] == t[j] || (!p(s[j]) && !p(t[j]))
    ensures Filter(p, s) == Filter(p, t)
  {
    if s != [] { FilterPointwise(p, s[1..], t[1..]); }
  }

  class PolicyEngine {
    const cfg: LearnConfig
    var table: Table
    var cache: Option<seq<Rule>>

    ghost predicate Valid()
      reads this
    {
      Keyed(table)
    }

    /** The cache holds exactly the stored rules, in some order. */
    ghost predicate CacheFresh()
      reads this
    {
      cache.Some? && multiset(cache.value) == multiset(table.rows)
    }

    constructor (cfg: LearnConfig, table: Table)
      requires Keyed(table)
      ensures Valid() && this.cfg == cfg && this.table == table && cache == None
    {
      this.cfg, this.table, this.cache := cfg, table, None;
    }

    /** A query without ORDER BY: every row once, in an order callers cannot rely on. */
    method FindRows() returns (rows: seq<Rule>)
      ensures multiset(rows) == multiset(table.rows)
    {
      rows := table.rows;
    }

    /** The same for the automatic rules of one number, by position. */
    method FindMine(number: string) returns (order: seq<nat>)
      ensures forall k | k in order :: k < |table.rows| && AutoOf(number, table.rows[k])
      ensures forall k | 0 <= k < |table.rows| && AutoOf(number, table.rows[k]) :: k in order
      ensures forall i, j | 0 <= i < j < |order| :: order[i] != order[j]
    {
      order := [];
      for n := 0 to |table.rows|
        invariant forall k | k in order :: k < n && AutoOf(number, table.rows[k])
        invariant forall k | 0 <= k < n && AutoOf(number, table.rows[k]) :: k in order
        invariant forall i, j | 0 <= i < j < |order| :: order[i] != order[j]
      {
        if AutoOf(number, table.rows[n]) { order := order + [n]; }
      }
    }

    method ReloadFaxPolicies(now: Time)
      requires Valid()
      modifies this
      ensures Valid() && CacheFresh()
      ensures table == AfterReload(old(table), now)
    {
      hide Filter, Undeleted;
      var rows := FindRows();
      ghost var before := table;
      var buf := new Rule[|rows|](i requires 0 <= i < |rows| => rows[i]);
      var k := 0;
      DeleteDone(before, now, rows);
      assert rows[..0] == [];
      for i := 0 to |rows|
        invariant k <= i
        invariant forall j | i <= j < |rows| :: buf[j] == rows[j]
        invariant buf[..k] == Pruned(rows[..i], now)
        invariant table == before.(rows := Filter(Undeleted(now, rows[..i]), before.rows))
      {
        var r := buf[i];
        PruneStep(before, now, rows, i);
        if r.expiresAt.Some? && r.expiresAt.value < now && r.origin.Auto? {
          table := table.(rows := Filter((x: Rule) => x.id != r.id, table.rows));
          assert buf[..k] == Pruned(rows[..i + 1], now);
        } else {
          buf[k] := r;
          k := k + 1;
          assert buf[..k] == Pruned(rows[..i + 1], now);
        }
      }
      assert rows[..|rows|] == rows;
      KeyedFilter(x => !Prunable(x, now), before);
      cache := Some(buf[..k]);
    }

    method UpsertAutoRule(s: Slot, status: string, failures: nat, now: Time)
      requires Valid()
      modifies `table
      ensures Valid()
      ensures table == Upsert(old(table), s, status, failures, now, cfg.ttl)
    {
      var i := Find(In(s), table.rows);
      if i < |table.rows| {
        table := table.(rows := table.rows[i := Refreshed(table.rows[i], status, failures, now, cfg.ttl)]);
      } else {
        table := Table(table.rows + [Learned(table.nextId, s, status, failures, now, cfg.ttl)], table.nextId + 1);
      }
    }

    method Escalate(number: string, status: string, failures: nat, now: Time)
      requires Valid()
      modifies `table
      ensures Valid()
      ensures table == Escalated(cfg, old(table), number, status, failures, now)
    {
      UpsertAutoRule(T38Slot(number), status, failures, now);
      if failures >= cfg.ecmThreshold { UpsertAutoRule(EcmSlot(number), status, failures, now); }
      if failures >= cfg.v17Threshold { UpsertAutoRule(V17Slot(number), status, failures, now); }
    }

    method LearnFaxPolicyFailure(number: string, status: string, now: Time)
      requires Valid()
      modifies this
      ensures Valid()
      ensures var counted := cfg.Learns(number) && NextCount(old(table), T38Slot(number)) >= cfg.t38Threshold;
              if counted
              then CacheFresh() && table == AfterReload(AfterFailure(cfg, old(table), number, status, now), now)
              else table == old(table) && cache == old(cache)
    {
      if !cfg.policy.policyEnabled || !cfg.learnEnabled || number == "" { return; }
      var i := Find(In(T38Slot(number)), table.rows);
      var failures := 1;
      if i < |table.rows| { failures := table.rows[i].failureCount + 1; }
      if failures < cfg.t38Threshold { return; }
      Escalate(number, status, failures, now);
      ReloadFaxPolicies(now);
    }

    method LearnFaxPolicyBridgeFailure(number: string, cause: string, now: Time)
      requires Valid()
      modifies this
      ensures Valid()
      ensures if cfg.Learns(number) && cfg.bridgeLearn
              then CacheFresh() && table == AfterReload(AfterBridgeFailure(cfg, old(table), number, cause, now), now)
              else table == old(table) && cache == old(cache)
    {
      if !cfg.policy.policyEnabled || !cfg.learnEnabled || !cfg.bridgeLearn || number == "" { return; }
      var i := Find(In(BridgeSlot(number)), table.rows);
      var failures := 1;
      if i < |table.rows| { failures := table.rows[i].failureCount + 1; }
      UpsertAutoRule(BridgeSlot(number), cause, failures, now);
      ReloadFaxPolicies(now);
    }

    /** The success loop: bump the rows in whatever order they were returned, and clear
        them all as soon as one has recovered. */
    method CountSuccess(number: string, order: seq<nat>, now: Time)
      requires Valid() && cfg.Learns(number)
      requires forall k | k in order :: k < |table.rows| && AutoOf(number, table.rows[k])
      requires forall k | 0 <= k < |table.rows| && AutoOf(number, table.rows[k]) :: k in order
      requires forall i, j | 0 <= i < j < |order| :: order[i] != order[j]
      modifies `table
      ensures Valid()
      ensures table == AfterSuccess(cfg, old(table), number, now)
    {
      ghost var before := table;
      var stored := table.rows;
      for i := 0 to |order|
        invariant table == before.(rows := table.rows) && |table.rows| == |stored|
        invariant forall j | 0 <= j < |stored| ::
            table.rows[j] == if j in order[..i] then Bumped(number, stored[j], now) else stored[j]
        invariant forall j | 0 <= j < |stored| && j in order[..i] :: stored[j].successCount + 1 < cfg.recovery
      {
        assert order[..i + 1] == order[..i] + [order[i]];
        assert order[i] in order;
        var r := Bumped(number, stored[order[i]], now);
        if r.successCount >= cfg.recovery {
          assert stored[order[i]] in stored;
          FilterPointwise(Foreign(number), table.rows, stored);
          KeyedFilter(Foreign(number), before);
          table := table.(rows := Filter(Foreign(number), table.rows));
          return;
        }
        table := table.(rows := table.rows[order[i] := r]);
      }
      assert order[..|order|] == order;
      assert table.rows == BumpAll(number, stored, now);
      assert !Heals(cfg, before, number);
    }

    method LearnFaxPolicySuccess(number: string, now: Time)
      requires Valid()
      modifies this
      ensures Valid()
      ensures if cfg.Learns(number) && exists r | r in old(table).rows :: AutoOf(number, r)
              then CacheFresh() && table == AfterReload(AfterSuccess(cfg, old(table), number, now), now)
              else table == old(table) && cache == old(cache)
    {
      if !cfg.policy.policyEnabled || !cfg.learnEnabled || number == "" { return; }
      var order := FindMine(number);
      if order == [] { return; }
      assert order[0] in order && table.rows[order[0]] in table.rows;
      CountSuccess(number, order, now);
      ReloadFaxPolicies(now);
    }

    method ResolveFaxPolicy(q: Query) returns (policy: Policy)
      ensures policy == match cache case None => DefaultPolicy(cfg.policy)
                                    case Some(rules) => Resolve(cfg.policy, rules, q)
      ensures CacheFresh() ==> SameOutcome(policy, Resolve(cfg.policy, table.rows, q))
    {
      CacheResolves(q);
      policy := LookUp(q);
    }

    lemma CacheResolves(q: Query)
      ensures CacheFresh() ==>
                SameOutcome(Resolve(cfg.policy, cache.value, q), Resolve(cfg.policy, table.rows, q))
    {
      if CacheFresh() { ResolveOrderIndependent(cfg.policy, cache.value, table.rows, q); }
    }

    method LookUp(q: Query) returns (policy: Policy)
      ensures policy == match cache case None => DefaultPolicy(cfg.policy)
                                    case Some(rules) => Resolve(cfg.policy, rules, q)
    {
      policy := DefaultPolicy(cfg.policy);
      if !cfg.policy.policyEnabled { return; }
      if cache.None? { return; }
      var rules := cache.value;
      var matches: seq<Rule> := [];
      for i := 0 to |rules|
        invariant matches == Matching(rules[..i], q)
      {
        assert rules[..i + 1] == rules[..i] + [rules[i]];
        FilterConcat(r => RuleMatches(r, q), rules[..i], [rules[i]]);
        if RuleMatches(rules[i], q) { matches := matches + [rules[i]]; }
      }
      assert rules[..|rules|] == rules;
      if matches == [] { return; }
      matches := StableSort(Before, matches);
      for i := 0 to |matches|
        invariant policy == DefaultPolicy(cfg.policy).(appliedRuleIds := Ids(matches[..i]))
      {
        IdsSnoc(matches[..i], matches[i]);
        assert matches[..i + 1] == matches[..i] + [matches[i]];
        policy := policy.(appliedRuleIds := policy.appliedRuleIds + [matches[i].id]);
      }
      assert matches[..|matches|] == matches;
      ghost var start := policy;
      for i := 0 to |matches|
        invariant Fold(cfg.policy, policy, matches[i..]) == Fold(cfg.policy, start, matches)
      {
        assert matches[i..][0] == matches[i] && matches[i..][1..] == matches[i + 1..];
        policy := ApplyRule(cfg.policy, policy, matches[i]);
      }
      policy := policy.(t38ForcedOff := policy.t38Decided && !policy.enableT38);
    }
  }

  lemma {:induction false} IdsSnoc(s: seq<Rule>, r: Rule)
    ensures Ids(s + [r]) == Ids(s) + [r.id]
  {
    if s != [] {
      IdsSnoc(s[1..], r);
      assert (s + [r])[1..] == s[1..] + [r];
    } else {
      assert s + [r] == [r];
    }
  }
}
