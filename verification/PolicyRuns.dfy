/** What whole runs of learning do to the rule table and to the next resolution
    (gofaxserver/faxpolicy.go). */
module PolicyRuns {
  import opened Seqs
  import opened FaxPolicy
  import opened PolicyLearning

  function Prefix(h: seq<Event>): seq<Event>
    requires h != []
  {
    h[..|h| - 1]
  }

  function Last(h: seq<Event>): Event
    requires h != []
  {
    h[|h| - 1]
  }

  /** The clock never runs backwards, and never before `start`. */
  ghost predicate Ordered(h: seq<Event>, start: Time)
  {
    h == [] || (Ordered(Prefix(h), start) && Clock(Prefix(h), start) <= Last(h).now)
  }

  function Clock(h: seq<Event>, start: Time): Time
  {
    if h == [] then start else Last(h).now
  }

  // ------------------------------------------------- the failure counter

  datatype Streak = Streak(count: nat, last: Option<Time>)

  /** Read off the history alone: failures since the last success, forgotten when a
      reload finds the last failure older than the rule lifetime. */
  function StreakOf(cfg: LearnConfig, h: seq<Event>, number: string): Streak
  {
    if h == [] then Streak(0, None)
    else
      var s := StreakOf(cfg, Prefix(h), number);
      match Last(h)
      case Failure(n, _, now) => if n == number then Streak(s.count + 1, Some(now)) else s
      case Success(n, _) => if n == number then s.(count := 0) else s
      case BridgeFailure(_, _, _) => s
      case Reload(now) => if Lapses(cfg, s, now) then Streak(0, None) else s
  }

  predicate Lapses(cfg: LearnConfig, s: Streak, now: Time)
  {
    s.last.Some? && s.last.value + cfg.ttl < now
  }

  function Counter(t: Table, number: string): nat
  {
    var c := Content(t, T38Slot(number));
    if c == [] then 0 else c[0].failureCount
  }

  ghost predicate TracksStreak(cfg: LearnConfig, c: seq<Rule>, s: Streak)
  {
    && |c| <= 1
    && (c == [] ==> s.count == 0)
    && (c != [] ==> s.last.Some? && c[0].failureCount == s.count && c[0].expiresAt == Some(s.last.value + cfg.ttl))
  }

  lemma StreakOnFailure(cfg: LearnConfig, t: Table, k: Streak, n: string, status: string, now: Time, number: string)
    requires cfg.Learns(number) && cfg.t38Threshold == 1
    requires TracksStreak(cfg, Content(t, T38Slot(number)), k)
    ensures TracksStreak(cfg, Content(AfterFailure(cfg, t, n, status, now), T38Slot(number)),
                         if n == number then Streak(k.count + 1, Some(now)) else k)
  {
    if n == number {
      UpsertSlot(t, T38Slot(number), status, 0, now, cfg.ttl);
      FailureSlots(cfg, t, n, status, now);
    } else {
      FailureFrame(cfg, t, n, status, now, In(T38Slot(number)));
    }
  }

  lemma StreakOnSuccess(cfg: LearnConfig, t: Table, k: Streak, n: string, now: Time, number: string)
    requires cfg.Learns(number) && TracksStreak(cfg, Content(t, T38Slot(number)), k)
    ensures TracksStreak(cfg, Content(AfterSuccess(cfg, t, n, now), T38Slot(number)),
                         if n == number then k.(count := 0) else k)
  {
    if cfg.Learns(n) {
      SuccessSlot(cfg, t, T38Slot(number), n, now);
      OwnSlot(t, T38Slot(number));
    }
  }

  lemma StreakOnReload(cfg: LearnConfig, t: Table, k: Streak, now: Time, number: string)
    requires TracksStreak(cfg, Content(t, T38Slot(number)), k)
    ensures TracksStreak(cfg, Content(AfterReload(t, now), T38Slot(number)),
                         if Lapses(cfg, k, now) then Streak(0, None) else k)
  {
    PrunedSlot(t, T38Slot(number), now);
  }

  lemma {:induction false} SlotTracksStreak(cfg: LearnConfig, t: Table, h: seq<Event>, number: string)
    requires cfg.Learns(number) && cfg.t38Threshold == 1
    requires Content(t, T38Slot(number)) == []
    ensures TracksStreak(cfg, Content(Run(cfg, t, h), T38Slot(number)), StreakOf(cfg, h, number))
  {
    if h != [] {
      var before, k := Run(cfg, t, Prefix(h)), StreakOf(cfg, Prefix(h), number);
      SlotTracksStreak(cfg, t, Prefix(h), number);
      match Last(h)
      case Failure(n, status, now) =>
        StreakOnFailure(cfg, before, k, n, status, now, number);
      case BridgeFailure(n, status, now) =>
        UpsertFrame(before, BridgeSlot(n), status, NextCount(before, BridgeSlot(n)), now, cfg.ttl, In(T38Slot(number)));
      case Success(n, now) =>
        StreakOnSuccess(cfg, before, k, n, now, number);
      case Reload(now) =>
        StreakOnReload(cfg, before, k, now, number);
    }
  }

  lemma OwnSlot(t: Table, s: Slot)
    ensures forall r | r in Content(t, s) :: In(s)(r) && r in t.rows
    ensures Content(t, s) != [] ==> In(s)(Content(t, s)[0])
  {
    assert Content(t, s) != [] ==> Content(t, s)[0] in Content(t, s);
    forall r | r in Content(t, s) ensures In(s)(r) && r in t.rows { FilterMember(In(s), t.rows, r); }
  }

  lemma PrunedSlot(t: Table, s: Slot, now: Time)
    ensures |Content(t, s)| <= 1 ==>
              var c := Content(t, s);
              Content(AfterReload(t, now), s) == if c == [] || Expired(c[0], now) then [] else c
    ensures var c, c' := Content(t, s), Content(AfterReload(t, now), s);
            |c'| <= |c| && (c != [] && !Expired(c[0], now) ==> c' != [] && c'[0] == c[0])
  {
    FilterCommutes(In(s), r => !Prunable(r, now), t.rows);
    OwnSlot(t, s);
    FilterShrinks(r => !Prunable(r, now), Content(t, s));
  }

  lemma {:induction false} FilterShrinks(p: Rule -> bool, rows: seq<Rule>)
    ensures |Filter(p, rows)| <= |rows|
    ensures |rows| == 1 ==> Filter(p, rows) == if p(rows[0]) then rows else []
  {
    if rows != [] { FilterShrinks(p, rows[1..]); }
  }

  /** With a T.38 threshold of one, the counter on the `t38_off` rule is the streak. */
  lemma CounterIsStreak(cfg: LearnConfig, t: Table, h: seq<Event>, number: string)
    requires cfg.Learns(number) && cfg.t38Threshold == 1
    requires Content(t, T38Slot(number)) == []
    ensures Counter(Run(cfg, t, h), number) == StreakOf(cfg, h, number).count
  {
    SlotTracksStreak(cfg, t, h, number);
  }

  function FailuresSinceSuccess(h: seq<Event>, number: string): nat
  {
    if h == [] then 0
    else if Last(h).Success? && Last(h).number == number then 0
    else (if Last(h).Failure? && Last(h).number == number then 1 else 0) + FailuresSinceSuccess(Prefix(h), number)
  }

  /** Since the last success, some reload dropped a rule that was still counting. */
  predicate LapsedSinceSuccess(cfg: LearnConfig, h: seq<Event>, number: string)
  {
    if h == [] then false
    else if Last(h).Success? && Last(h).number == number then false
    else
      var s := StreakOf(cfg, Prefix(h), number);
      || (Last(h).Reload? && s.count > 0 && Lapses(cfg, s, Last(h).now))
      || LapsedSinceSuccess(cfg, Prefix(h), number)
  }

  lemma {:induction false} StreakBound(cfg: LearnConfig, h: seq<Event>, number: string)
    ensures StreakOf(cfg, h, number).count <= FailuresSinceSuccess(h, number)
    ensures StreakOf(cfg, h, number).count == FailuresSinceSuccess(h, number)
       <==> !LapsedSinceSuccess(cfg, h, number)
  {
    if h != [] { StreakBound(cfg, Prefix(h), number); }
  }

  /** The counter equals the failures since the last success exactly as long as no
      reload let the rule lapse meanwhile. */
  lemma CounterIsFailuresIff(cfg: LearnConfig, t: Table, h: seq<Event>, number: string)
    requires cfg.Learns(number) && cfg.t38Threshold == 1
    requires Content(t, T38Slot(number)) == []
    ensures Counter(Run(cfg, t, h), number) == FailuresSinceSuccess(h, number)
       <==> !LapsedSinceSuccess(cfg, h, number)
  {
    CounterIsStreak(cfg, t, h, number);
    StreakBound(cfg, h, number);
  }

  lemma LapseForgetsFailures(cfg: LearnConfig, t: Table, number: string)
    requires cfg.Learns(number) && cfg.t38Threshold == 1
    requires Content(t, T38Slot(number)) == []
    ensures var h := [Failure(number, "", 0), Reload(cfg.ttl + 1), Failure(number, "", cfg.ttl + 2)];
            Counter(Run(cfg, t, h), number) == 1 && FailuresSinceSuccess(h, number) == 2
  {
    var e1, e2, e3 := Failure(number, "", 0), Reload(cfg.ttl + 1), Failure(number, "", cfg.ttl + 2);
    var h := [e1, e2, e3];
    assert Prefix(h) == [e1, e2] && Prefix([e1, e2]) == [e1] && Prefix([e1]) == [];
    CounterIsStreak(cfg, t, h, number);
    assert StreakOf(cfg, [], number) == Streak(0, None);
    assert StreakOf(cfg, [e1], number) == Streak(1, Some(0));
    assert StreakOf(cfg, [e1, e2], number) == Streak(0, None);
    assert FailuresSinceSuccess([], number) == 0;
    assert FailuresSinceSuccess([e1], number) == 1;
    assert FailuresSinceSuccess([e1, e2], number) == 1;
  }

  /** Above one, the early return stores no count: a table without the rule never gets it. */
  lemma {:induction false} HighThresholdNeverLearns(cfg: LearnConfig, t: Table, h: seq<Event>, number: string)
    requires cfg.t38Threshold >= 2
    requires Content(t, T38Slot(number)) == []
    ensures Content(Run(cfg, t, h), T38Slot(number)) == []
  {
    if h != [] {
      var s := T38Slot(number);
      var before := Run(cfg, t, Prefix(h));
      HighThresholdNeverLearns(cfg, t, Prefix(h), number);
      match Last(h)
      case Failure(n, status, now) =>
        if n == number { UpsertSlot(before, s, status, 0, now, cfg.ttl); }
        else { FailureFrame(cfg, before, n, status, now, In(s)); }
      case BridgeFailure(n, status, now) =>
        UpsertFrame(before, BridgeSlot(n), status, NextCount(before, BridgeSlot(n)), now, cfg.ttl, In(s));
      case Success(n, now) =>
        if cfg.Learns(n) { SuccessSlot(cfg, before, s, n, now); }
      case Reload(now) =>
        PrunedSlot(before, s, now);
    }
  }

  /** Without bridge failures, no run leaves anything in an empty table. */
  lemma {:induction false} EmptyTableStaysEmpty(cfg: LearnConfig, t: Table, h: seq<Event>)
    requires cfg.t38Threshold >= 2 && t.rows == []
    requires forall e | e in h :: !e.BridgeFailure?
    ensures Run(cfg, t, h) == t
  {
    if h != [] {
      assert Last(h) in h;
      EmptyTableStaysEmpty(cfg, t, Prefix(h));
    }
  }

  // -------------------------------------------------- nested lifetimes

  ghost predicate Outlived(short: seq<Rule>, long: seq<Rule>)
  {
    short != [] ==>
      && long != [] && short[0].expiresAt.Some? && long[0].expiresAt.Some?
      && short[0].expiresAt.value <= long[0].expiresAt.value
  }

  ghost predicate Dated(c: seq<Rule>, latest: Time)
  {
    |c| <= 1 && forall r | r in c :: r.enabled && r.expiresAt.Some? && r.expiresAt.value <= latest
  }

  /** The escalation ladder is nested: no rung outlives the one below it. */
  ghost predicate Nested(cfg: LearnConfig, t: Table, number: string, clock: Time)
  {
    var a, b, c := Content(t, T38Slot(number)), Content(t, EcmSlot(number)), Content(t, V17Slot(number));
    && Dated(a, clock + cfg.ttl) && Dated(b, clock + cfg.ttl) && Dated(c, clock + cfg.ttl)
    && Outlived(b, a)
    && (cfg.ecmThreshold <= cfg.v17Threshold ==> Outlived(c, b))
  }

  lemma NestedFailure(cfg: LearnConfig, t: Table, number: string, status: string, now: Time, clock: Time)
    requires Nested(cfg, t, number, clock) && clock <= now
    ensures Nested(cfg, AfterFailure(cfg, t, number, status, now), number, now)
  {
    if cfg.Learns(number) && NextCount(t, T38Slot(number)) >= cfg.t38Threshold {
      FailureSlots(cfg, t, number, status, now);
    }
  }

  lemma NestedSuccess(cfg: LearnConfig, t: Table, n: string, number: string, now: Time, clock: Time)
    requires Nested(cfg, t, number, clock) && clock <= now
    ensures Nested(cfg, AfterSuccess(cfg, t, n, now), number, now)
  {
    if cfg.Learns(n) {
      SuccessSlot(cfg, t, T38Slot(number), n, now);
      SuccessSlot(cfg, t, EcmSlot(number), n, now);
      SuccessSlot(cfg, t, V17Slot(number), n, now);
    }
  }

  lemma NestedReload(cfg: LearnConfig, t: Table, number: string, now: Time, clock: Time)
    requires Nested(cfg, t, number, clock) && clock <= now
    ensures Nested(cfg, AfterReload(t, now), number, now)
  {
    PrunedSlot(t, T38Slot(number), now);
    PrunedSlot(t, EcmSlot(number), now);
    PrunedSlot(t, V17Slot(number), now);
  }

  lemma NestedStep(cfg: LearnConfig, t: Table, e: Event, number: string, clock: Time)
    requires Nested(cfg, t, number, clock) && clock <= e.now
    ensures Nested(cfg, Apply(cfg, t, e), number, e.now)
  {
    var a, b, c := T38Slot(number), EcmSlot(number), V17Slot(number);
    match e
    case Failure(n, status, now) =>
      if n == number {
        NestedFailure(cfg, t, number, status, now, clock);
      } else {
        FailureFrame(cfg, t, n, status, now, In(a));
        FailureFrame(cfg, t, n, status, now, In(b));
        FailureFrame(cfg, t, n, status, now, In(c));
      }
    case BridgeFailure(n, status, now) =>
      var k := NextCount(t, BridgeSlot(n));
      UpsertFrame(t, BridgeSlot(n), status, k, now, cfg.ttl, In(a));
      UpsertFrame(t, BridgeSlot(n), status, k, now, cfg.ttl, In(b));
      UpsertFrame(t, BridgeSlot(n), status, k, now, cfg.ttl, In(c));
    case Success(n, now) => NestedSuccess(cfg, t, n, number, now, clock);
    case Reload(now) => NestedReload(cfg, t, number, now, clock);
  }

  lemma {:induction false} LadderStaysNested(cfg: LearnConfig, t: Table, h: seq<Event>, number: string, start: Time)
    requires Nested(cfg, t, number, start) && Ordered(h, start)
    ensures Nested(cfg, Run(cfg, t, h), number, Clock(h, start))
  {
    if h != [] {
      LadderStaysNested(cfg, t, Prefix(h), number, start);
      NestedStep(cfg, Run(cfg, t, Prefix(h)), Last(h), number, Clock(Prefix(h), start));
    }
  }

  ghost predicate Live(t: Table, s: Slot, now: Time)
  {
    exists r | r in t.rows :: In(s)(r) && r.enabled && !Expired(r, now)
  }

  /** Over any run, a live `ecm_off` implies a live `t38_off`, and (with ordered
      thresholds) a live `v17_off` implies a live `ecm_off`. */
  lemma LiveRungsImplyLower(cfg: LearnConfig, t: Table, h: seq<Event>, number: string, start: Time, now: Time)
    requires Content(t, T38Slot(number)) == Content(t, EcmSlot(number)) == Content(t, V17Slot(number)) == []
    requires Ordered(h, start)
    ensures Live(Run(cfg, t, h), EcmSlot(number), now) ==> Live(Run(cfg, t, h), T38Slot(number), now)
    ensures cfg.ecmThreshold <= cfg.v17Threshold && Live(Run(cfg, t, h), V17Slot(number), now) ==>
              Live(Run(cfg, t, h), EcmSlot(number), now)
  {
    LadderStaysNested(cfg, t, h, number, start);
    var t' := Run(cfg, t, h);
    LiveIsHead(t', T38Slot(number), now);
    LiveIsHead(t', EcmSlot(number), now);
    LiveIsHead(t', V17Slot(number), now);
  }

  lemma LiveIsHead(t: Table, s: Slot, now: Time)
    requires |Content(t, s)| <= 1
    ensures Live(t, s, now) <==>
            Content(t, s) != [] && Content(t, s)[0].enabled && !Expired(Content(t, s)[0], now)
  {
    OwnSlot(t, s);
    if Live(t, s, now) {
      var r :| r in t.rows && In(s)(r) && r.enabled && !Expired(r, now);
      FilterMember(In(s), t.rows, r);
    }
  }

  // ----------------------------------------------------------- healing

  predicate Quiet(h: seq<Event>, number: string)
  {
    forall e | e in h :: (e.Failure? || e.BridgeFailure?) ==> e.number != number
  }

  function Successes(h: seq<Event>, number: string): nat
  {
    if h == [] then 0
    else Successes(Prefix(h), number) + if Last(h).Success? && Last(h).number == number then 1 else 0
  }

  function Mine(t: Table, number: string): seq<Rule> { Filter(Owned(number), t.rows) }
  function Others(t: Table, number: string): seq<Rule> { Filter(Foreign(number), t.rows) }

  lemma OtherFailures(cfg: LearnConfig, t: Table, n: string, status: string, now: Time, number: string)
    requires n != number
    ensures Mine(AfterFailure(cfg, t, n, status, now), number) == Mine(t, number)
    ensures Mine(AfterBridgeFailure(cfg, t, n, status, now), number) == Mine(t, number)
  {
    hide AfterFailure, AfterBridgeFailure;
    FailureFrame(cfg, t, n, status, now, Owned(number));
  }

  /** While `number` does not fail, each of its successes counts on each of its rules. */
  lemma {:induction false} SuccessesAccumulate(cfg: LearnConfig, t: Table, h: seq<Event>, number: string)
    requires cfg.Learns(number) && Quiet(h, number)
    ensures Successes(h, number) > 0 ==> forall r | r in Mine(Run(cfg, t, h), number) ::
              Successes(h, number) <= r.successCount < cfg.recovery
  {
    hide AfterFailure, AfterBridgeFailure, AfterSuccess;
    if h != [] {
      var before, after := Run(cfg, t, Prefix(h)), Run(cfg, t, h);
      assert Quiet(Prefix(h), number);
      assert Last(h) in h;
      SuccessesAccumulate(cfg, t, Prefix(h), number);
      forall r | r in Mine(after, number) && Successes(h, number) > 0
        ensures Successes(h, number) <= r.successCount < cfg.recovery
      {
        FilterMember(Owned(number), after.rows, r);
        match Last(h)
        case Failure(n, status, now) =>
          OtherFailures(cfg, before, n, status, now, number);
        case BridgeFailure(n, status, now) =>
          OtherFailures(cfg, before, n, status, now, number);
        case Reload(now) =>
          FilterMember(x => !Prunable(x, now), before.rows, r);
          FilterMember(Owned(number), before.rows, r);
        case Success(n, now) =>
          SuccessBumps(cfg, before, n, now, number, r);
      }
    }
  }

  lemma SuccessBumps(cfg: LearnConfig, t: Table, n: string, now: Time, number: string, r: Rule)
    requires cfg.Learns(number) && r in Mine(AfterSuccess(cfg, t, n, now), number)
    ensures n != number ==> r in Mine(t, number)
    ensures n == number ==> r.successCount < cfg.recovery
    ensures n == number ==> exists old_ | old_ in Mine(t, number) :: r.successCount == old_.successCount + 1
  {
    var rows' := AfterSuccess(cfg, t, n, now).rows;
    FilterMember(Owned(number), rows', r);
    if cfg.Learns(n) && !Heals(cfg, t, n) {
      var i :| 0 <= i < |rows'| && rows'[i] == r;
      FilterMember(Owned(number), t.rows, t.rows[i]);
      assert t.rows[i] in t.rows;
    } else if cfg.Learns(n) {
      FilterMember(Foreign(n), t.rows, r);
      FilterMember(Owned(number), t.rows, r);
    } else {
      FilterMember(Owned(number), t.rows, r);
    }
  }

  /** `recovery` successes without a failure in between clear the number, however they
      interleave with other numbers' events and reloads. */
  lemma EnoughSuccessesHeal(cfg: LearnConfig, t: Table, h: seq<Event>, number: string)
    requires cfg.Learns(number) && Quiet(h, number) && Successes(h, number) >= cfg.recovery
    ensures Mine(Run(cfg, t, h), number) == []
  {
    SuccessesAccumulate(cfg, t, h, number);
    var m := Mine(Run(cfg, t, h), number);
    HasMember(m);
  }

  /** A success touches nothing but its own number's automatic rules. */
  lemma SuccessTouchesOnlyMine(cfg: LearnConfig, t: Table, number: string, now: Time)
    ensures Others(AfterSuccess(cfg, t, number, now), number) == Others(t, number)
    ensures AfterSuccess(cfg, t, number, now).nextId == t.nextId
  {
    if cfg.Learns(number) {
      if Heals(cfg, t, number) {
        FilterAbsorbs(Foreign(number), Foreign(number), t.rows);
      } else {
        FilterBump(Foreign(number), number, t.rows, now);
        forall r | r in Others(t, number) ensures !AutoOf(number, r) { FilterMember(Foreign(number), t.rows, r); }
        assert BumpAll(number, Others(t, number), now) == Others(t, number);
      }
    }
  }

  /** No reload of the history finds the rule prunable. */
  predicate Outlasts(h: seq<Event>, r: Rule)
  {
    forall e | e in h && e.Reload? :: !Prunable(r, e.now)
  }

  function Outlasting(h: seq<Event>): Rule -> bool { (r: Rule) => Outlasts(h, r) }

  /** Successes of one number, and the reloads that go with them, in any arrangement: the
      other rules afterwards are exactly those no reload found prunable, in order, and with
      enough successes nothing else is left. */
  lemma {:induction false} SuccessesInARow(cfg: LearnConfig, t: Table, h: seq<Event>, number: string)
    requires cfg.Learns(number)
    requires forall e | e in h :: e.Reload? || (e.Success? && e.number == number)
    ensures Others(Run(cfg, t, h), number) == Filter(Outlasting(h), Others(t, number))
    ensures Successes(h, number) >= cfg.recovery ==>
              Run(cfg, t, h).rows == Filter(Outlasting(h), Others(t, number))
  {
    if h == [] {
      FilterAll(Outlasting(h), Others(t, number));
    } else {
      var t' := Run(cfg, t, Prefix(h));
      assert Last(h) in h && forall e | e in Prefix(h) :: e in h;
      SuccessesInARow(cfg, t, Prefix(h), number);
      if Last(h).Reload? {
        ReloadOutlasted(t, t', h, number);
      } else {
        SuccessTouchesOnlyMine(cfg, t', number, Last(h).now);
        forall r ensures Outlasts(h, r) == Outlasts(Prefix(h), r) { assert h == Prefix(h) + [Last(h)]; }
        FilterAgree(Outlasting(h), Outlasting(Prefix(h)), Others(t, number));
      }
    }
    if Successes(h, number) >= cfg.recovery {
      var t' := Run(cfg, t, h);
      EnoughSuccessesHeal(cfg, t, h, number);
      forall r | r in t'.rows ensures Foreign(number)(r) { FilterMember(Owned(number), t'.rows, r); }
      FilterAll(Foreign(number), t'.rows);
    }
  }

  lemma ReloadOutlasted(t: Table, t': Table, h: seq<Event>, number: string)
    requires h != [] && Last(h).Reload?
    requires Others(t', number) == Filter(Outlasting(Prefix(h)), Others(t, number))
    ensures Others(AfterReload(t', Last(h).now), number) == Filter(Outlasting(h), Others(t, number))
  {
    var now := Last(h).now;
    FilterCommutes(Foreign(number), r => !Prunable(r, now), t'.rows);
    forall r ensures Outlasts(h, r) == (!Prunable(r, now) && Outlasts(Prefix(h), r)) {
      assert h == Prefix(h) + [Last(h)];
    }
    FilterCompose(r => !Prunable(r, now), Outlasting(Prefix(h)), Outlasting(h), Others(t, number));
  }

  // ------------------------------------------------ learning to resolution

  /** A matching `t38_on` rule that outranks an automatic number-wide `t38_off`. */
  predicate Overrides(r: Rule, q: Query)
  {
    RuleMatches(r, q) && r.effect.T38On? && (r.scope.Pair? || (r.scope.Dst? && r.origin.Manual?))
  }

  /** A live automatic rule of a number on either side of the call, for calls of its type. */
  predicate Covers(r: Rule, number: string, q: Query)
  {
    && AutoOf(number, r) && (number == q.src || number == q.dst)
    && (r.appliesTo == Both || r.appliesTo == Only(q.callType)) && r.enabled && !Expired(r, q.now)
  }

  lemma LearnedRuleForcesOff(cfg: Config, rules: seq<Rule>, q: Query, r: Rule, number: string)
    requires cfg.policyEnabled && r in rules && r.effect == T38Off && Covers(r, number, q)
    requires forall o | o in rules :: !Overrides(o, q)
    ensures var p := Resolve(cfg, rules, q);
            !p.enableT38 && !p.requestT38 && p.t38Decided && p.t38ForcedOff
  {
    BestIsLearned(rules, q, r, number);
    T38FollowsBest(cfg, rules, q);
  }

  /** Then the best T.38 rule is not a `t38_on`. */
  lemma BestIsLearned(rules: seq<Rule>, q: Query, r: Rule, number: string)
    requires r in rules && r.effect == T38Off && Covers(r, number, q)
    requires forall o | o in rules :: !Overrides(o, q)
    ensures BestT38(Matching(rules, q)).Some? && !BestT38(Matching(rules, q)).value.effect.T38On?
  {
    var ms := Matching(rules, q);
    FilterMember(x => RuleMatches(x, q), rules, r);
    BeforeIsOrder();
    BestDecides(Before, IsT38, ms);
    FilterMember(x => RuleMatches(x, q), rules, BestT38(ms).value);
  }

  /** An enabled rule leads the slot, and it does not expire before `until`. */
  ghost predicate Holds(t: Table, s: Slot, until: Time)
  {
    var c := Content(t, s);
    c != [] && c[0].enabled && c[0].expiresAt.Some? && c[0].expiresAt.value >= until
  }

  /** No success of `number` along the history clears its rules. */
  ghost predicate NeverHeals(cfg: LearnConfig, t: Table, h: seq<Event>, number: string)
  {
    forall i | 0 <= i < |h| && h[i].Success? && h[i].number == number :: !Heals(cfg, Run(cfg, t, h[..i]), number)
  }

  /** The `failures`-th failure reaches the rung of the ladder. */
  predicate Reaches(cfg: LearnConfig, number: string, failures: nat, s: Slot)
  {
    && failures >= cfg.t38Threshold
    && (|| s == T38Slot(number)
        || (s == EcmSlot(number) && failures >= cfg.ecmThreshold)
        || (s == V17Slot(number) && failures >= cfg.v17Threshold))
  }

  /** The rules a counted failure leaves on the rungs it reaches stay, enabled, for their
      lifetime: over any history in which the number does not heal, as long as reloads fall
      within the lifetime. */
  lemma {:induction false} LearnedRuleStays(cfg: LearnConfig, t: Table, number: string, s: Slot, status: string,
                                            now: Time, h: seq<Event>)
    requires cfg.Learns(number) && Reaches(cfg, number, NextCount(t, T38Slot(number)), s) && Ordered(h, now)
    requires NeverHeals(cfg, AfterFailure(cfg, t, number, status, now), h, number)
    requires forall e | e in h && e.Reload? :: e.now <= now + cfg.ttl
    ensures Holds(Run(cfg, AfterFailure(cfg, t, number, status, now), h), s, now + cfg.ttl)
  {
    if h == [] {
      FailureSlots(cfg, t, number, status, now);
    } else {
      var start := AfterFailure(cfg, t, number, status, now);
      var before := Run(cfg, start, Prefix(h));
      assert NeverHeals(cfg, start, Prefix(h), number) by {
        assert forall i | 0 <= i < |h| - 1 :: Prefix(h)[..i] == h[..i];
      }
      LearnedRuleStays(cfg, t, number, s, status, now, Prefix(h));
      assert Last(h) in h && h[..|h| - 1] == Prefix(h);
      ClockFromStart(h, now);
      HoldsStep(cfg, before, Last(h), number, s, now + cfg.ttl);
    }
  }

  lemma HoldsStep(cfg: LearnConfig, t: Table, e: Event, number: string, s: Slot, until: Time)
    requires cfg.Learns(number) && Holds(t, s, until)
    requires s == T38Slot(number) || s == EcmSlot(number) || s == V17Slot(number)
    requires e.Success? && e.number == number ==> !Heals(cfg, t, number)
    requires e.Reload? ==> e.now <= until
    requires e.Failure? ==> until <= e.now + cfg.ttl
    ensures Holds(Apply(cfg, t, e), s, until)
  {
    match e
    case Failure(n, status, at) =>
      if n != number {
        FailureFrame(cfg, t, n, status, at, In(s));
      } else if NextCount(t, T38Slot(number)) >= cfg.t38Threshold {
        FailureSlots(cfg, t, n, status, at);
      }
    case BridgeFailure(n, status, at) =>
      UpsertFrame(t, BridgeSlot(n), status, NextCount(t, BridgeSlot(n)), at, cfg.ttl, In(s));
    case Success(n, at) =>
      if cfg.Learns(n) {
        SuccessSlot(cfg, t, s, n, at);
        OwnSlot(t, s);
      }
    case Reload(at) =>
      PrunedSlot(t, s, at);
  }

  /** End to end, from any rule table. After a failure of `number` that reaches the T.38
      threshold (with threshold one, every failure does) and any further events in which the
      number does not heal, every call with that number on either side resolves to T.38 off
      for the lifetime of the rule, unless an overriding `t38_on` rule matches. `rules` is
      the cache: any row order of the table. */
  lemma FailureKeepsT38Off(cfg: LearnConfig, t: Table, number: string, status: string, now: Time,
                           h: seq<Event>, rules: seq<Rule>, q: Query)
    requires cfg.Learns(number) && NextCount(t, T38Slot(number)) >= cfg.t38Threshold && Ordered(h, now)
    requires NeverHeals(cfg, AfterFailure(cfg, t, number, status, now), h, number)
    requires forall e | e in h && e.Reload? :: e.now <= now + cfg.ttl
    requires multiset(rules) == multiset(Run(cfg, AfterFailure(cfg, t, number, status, now), h).rows)
    requires number == q.src || number == q.dst
    requires q.now <= now + cfg.ttl
    requires forall o | o in rules :: !Overrides(o, q)
    ensures var p := Resolve(cfg.policy, rules, q);
            !p.enableT38 && !p.requestT38 && p.t38Decided && p.t38ForcedOff
  {
    LearnedRuleStays(cfg, t, number, T38Slot(number), status, now, h);
    var t2 := Run(cfg, AfterFailure(cfg, t, number, status, now), h);
    var r := HeldRule(t2, T38Slot(number), now + cfg.ttl, rules);
    LearnedRuleForcesOff(cfg.policy, rules, q, r, number);
  }

  lemma HeldRule(t: Table, s: Slot, until: Time, rules: seq<Rule>) returns (r: Rule)
    requires Holds(t, s, until) && multiset(rules) == multiset(t.rows)
    ensures r in rules && In(s)(r) && r.enabled && r.expiresAt.Some? && r.expiresAt.value >= until
  {
    r := Content(t, s)[0];
    OwnSlot(t, s);
    MultisetMember(rules, t.rows, r);
  }

  /** A matching `ecm_on` rule that outranks an automatic number-wide `ecm_off`. */
  predicate OverridesEcm(r: Rule, q: Query)
  {
    RuleMatches(r, q) && r.effect.EcmOn? && (r.scope.Pair? || (r.scope.Dst? && r.origin.Manual?))
  }

  lemma LearnedRuleBansEcm(cfg: Config, rules: seq<Rule>, q: Query, r: Rule, number: string)
    requires cfg.policyEnabled && r in rules && r.effect == EcmOff && Covers(r, number, q)
    requires forall o | o in rules :: !OverridesEcm(o, q)
    ensures Resolve(cfg, rules, q).useEcm == Some(false)
  {
    var ms := Matching(rules, q);
    FilterMember(x => RuleMatches(x, q), rules, r);
    BeforeIsOrder();
    BestDecides(Before, IsEcm, ms);
    FilterMember(x => RuleMatches(x, q), rules, BestEcm(ms).value);
    EcmFollowsBest(cfg, rules, q);
  }

  lemma LearnedRuleBansV17(cfg: Config, rules: seq<Rule>, q: Query, r: Rule, number: string)
    requires cfg.policyEnabled && r in rules && r.effect == V17Off && Covers(r, number, q)
    ensures Resolve(cfg, rules, q).disableV17 == Some(true)
  {
    FilterMember(x => RuleMatches(x, q), rules, r);
    BeforeIsOrder();
    BestDecides(Before, IsV17, Matching(rules, q));
    ResolveIsBestRule(cfg, rules, q);
  }

  /** The upper rungs, end to end: a failure that reaches the ECM threshold bans error
      correction on the number's calls for the lifetime, unless an overriding `ecm_on`
      matches, and one that reaches the V.17 threshold disables V.17 whatever matches. */
  lemma FailureKeepsLadderUp(cfg: LearnConfig, t: Table, number: string, status: string, now: Time,
                             h: seq<Event>, rules: seq<Rule>, q: Query)
    requires cfg.Learns(number) && NextCount(t, T38Slot(number)) >= cfg.t38Threshold && Ordered(h, now)
    requires NeverHeals(cfg, AfterFailure(cfg, t, number, status, now), h, number)
    requires forall e | e in h && e.Reload? :: e.now <= now + cfg.ttl
    requires multiset(rules) == multiset(Run(cfg, AfterFailure(cfg, t, number, status, now), h).rows)
    requires number == q.src || number == q.dst
    requires q.now <= now + cfg.ttl
    ensures NextCount(t, T38Slot(number)) >= cfg.ecmThreshold && (forall o | o in rules :: !OverridesEcm(o, q)) ==>
              Resolve(cfg.policy, rules, q).useEcm == Some(false)
    ensures NextCount(t, T38Slot(number)) >= cfg.v17Threshold ==>
              Resolve(cfg.policy, rules, q).disableV17 == Some(true)
  {
    hide Resolve, Run, NeverHeals, AfterFailure;
    var t2 := Run(cfg, AfterFailure(cfg, t, number, status, now), h);
    if NextCount(t, T38Slot(number)) >= cfg.ecmThreshold && forall o | o in rules :: !OverridesEcm(o, q) {
      LearnedRuleStays(cfg, t, number, EcmSlot(number), status, now, h);
      var r := HeldRule(t2, EcmSlot(number), now + cfg.ttl, rules);
      LearnedRuleBansEcm(cfg.policy, rules, q, r, number);
    }
    if NextCount(t, T38Slot(number)) >= cfg.v17Threshold {
      LearnedRuleStays(cfg, t, number, V17Slot(number), status, now, h);
      var r := HeldRule(t2, V17Slot(number), now + cfg.ttl, rules);
      LearnedRuleBansV17(cfg.policy, rules, q, r, number);
    }
  }

  /** Switched off, or without a number, the learner changes nothing; bridge failures have
      a switch of their own. */
  lemma LearnerOff(cfg: LearnConfig, t: Table, number: string, text: string, now: Time)
    ensures !cfg.policy.policyEnabled || !cfg.learnEnabled || number == "" ==>
              && AfterFailure(cfg, t, number, text, now) == t
              && AfterBridgeFailure(cfg, t, number, text, now) == t
              && AfterSuccess(cfg, t, number, now) == t
    ensures !cfg.bridgeLearn ==> AfterBridgeFailure(cfg, t, number, text, now) == t
  {
  }

  // ------------------------------------------------------ bridged calls apart

  /** A bridge failure changes nothing for softmodem calls, ... */
  lemma BridgeFailureSparesSoftmodem(cfg: LearnConfig, t: Table, number: string, cause: string, now: Time, q: Query)
    requires q.callType == Softmodem
    ensures Resolve(cfg.policy, AfterBridgeFailure(cfg, t, number, cause, now).rows, q) ==
            Resolve(cfg.policy, t.rows, q)
  {
    UpsertFrame(t, BridgeSlot(number), cause, NextCount(t, BridgeSlot(number)), now, cfg.ttl, r => RuleMatches(r, q));
  }

  /** ... and turns T.38 off on the number's bridged calls for the lifetime of the rule. */
  lemma BridgeFailureForcesOff(cfg: LearnConfig, t: Table, number: string, cause: string, now: Time, q: Query)
    requires cfg.Learns(number) && cfg.bridgeLearn
    requires q.callType == Bridge && (number == q.src || number == q.dst) && q.now <= now + cfg.ttl
    requires forall o | o in t.rows :: !Overrides(o, q)
    ensures var p := Resolve(cfg.policy, AfterBridgeFailure(cfg, t, number, cause, now).rows, q);
            !p.enableT38 && !p.requestT38 && p.t38Decided && p.t38ForcedOff
  {
    hide Resolve;
    var s, t' := BridgeSlot(number), AfterBridgeFailure(cfg, t, number, cause, now);
    UpsertSlot(t, s, cause, NextCount(t, s), now, cfg.ttl);
    UpsertFrame(t, s, cause, NextCount(t, s), now, cfg.ttl, r => Overrides(r, q));
    OwnSlot(t', s);
    forall o | o in t'.rows ensures !Overrides(o, q) {
      FilterMember(r => Overrides(r, q), t'.rows, o);
      FilterNothing(r => Overrides(r, q), t.rows);
    }
    LearnedRuleForcesOff(cfg.policy, t'.rows, q, Content(t', s)[0], number);
  }

  // ----------------------------------------------- what learning never touches

  predicate Handmade(r: Rule) { r.origin != Auto }

  /** No run of the learner adds, drops, changes or reorders a rule that is not automatic,
      expired or not. */
  lemma {:induction false} HandmadeRulesStay(cfg: LearnConfig, t: Table, h: seq<Event>)
    ensures Filter(Handmade, Run(cfg, t, h).rows) == Filter(Handmade, t.rows)
  {
    if h != [] {
      var before := Run(cfg, t, Prefix(h));
      HandmadeRulesStay(cfg, t, Prefix(h));
      match Last(h)
      case Failure(n, status, now) => FailureFrame(cfg, before, n, status, now, Handmade);
      case BridgeFailure(n, cause, now) => FailureFrame(cfg, before, n, cause, now, Handmade);
      case Success(n, now) => HandmadeOutliveSuccess(cfg, before, n, now);
      case Reload(now) => FilterAbsorbs(Handmade, r => !Prunable(r, now), before.rows);
    }
  }

  lemma HandmadeOutliveSuccess(cfg: LearnConfig, t: Table, n: string, now: Time)
    ensures Filter(Handmade, AfterSuccess(cfg, t, n, now).rows) == Filter(Handmade, t.rows)
  {
    if cfg.Learns(n) && Heals(cfg, t, n) {
      FilterAbsorbs(Handmade, Foreign(n), t.rows);
    } else if cfg.Learns(n) {
      FilterBump(Handmade, n, t.rows, now);
      forall r | r in Filter(Handmade, t.rows) ensures !AutoOf(n, r) { FilterMember(Handmade, t.rows, r); }
      assert BumpAll(n, Filter(Handmade, t.rows), now) == Filter(Handmade, t.rows);
    }
  }

  /** A reload drops a rule exactly when it is automatic and past its end. */
  lemma ReloadDrops(t: Table, now: Time, r: Rule)
    ensures multiset(AfterReload(t, now).rows)[r] ==
            if r.origin == Auto && r.expiresAt.Some? && r.expiresAt.value < now then 0 else multiset(t.rows)[r]
  {
    FilterMultiset(x => !Prunable(x, now), t.rows, r);
  }

  // ------------------------------------------------- not healed too early

  /** The same rule with `k` more successes counted. */
  predicate Older(r: Rule, r': Rule, k: nat)
  {
    && r'.successCount == r.successCount + k
    && r'.id == r.id && r'.effect == r.effect && r'.appliesTo == r.appliesTo
    && r'.origin == r.origin && r'.expiresAt == r.expiresAt && r'.enabled == r.enabled
  }

  ghost predicate Aged(a: seq<Rule>, b: seq<Rule>, k: nat)
  {
    |b| == |a| && forall i | 0 <= i < |a| :: Older(a[i], b[i], k)
  }

  lemma {:induction false} AgedFilter(a: seq<Rule>, b: seq<Rule>, k: nat, p: Rule -> bool)
    requires Aged(a, b, k) && forall i | 0 <= i < |a| :: p(a[i]) == p(b[i])
    ensures Aged(Filter(p, a), Filter(p, b), k)
  {
    hide Older;
    if a != [] {
      assert Older(a[0], b[0], k) && p(a[0]) == p(b[0]);
      assert forall i | 0 <= i < |a| - 1 :: Older(a[1..][i], b[1..][i], k) by {
        assert forall i | 0 <= i < |a| - 1 :: a[1..][i] == a[i + 1] && b[1..][i] == b[i + 1];
      }
      AgedFilter(a[1..], b[1..], k, p);
    }
  }

  /** What one success does to the rules of `number`. */
  lemma SuccessAges(cfg: LearnConfig, t: Table, n: string, now: Time, number: string)
    requires cfg.Learns(number)
    requires n == number ==> forall r | r in Mine(t, number) :: r.successCount + 1 < cfg.recovery
    ensures Aged(Mine(t, number), Mine(AfterSuccess(cfg, t, n, now), number), if n == number then 1 else 0)
  {
    if cfg.Learns(n) && Heals(cfg, t, n) {
      if n == number {
        var r :| r in t.rows && AutoOf(n, r) && r.successCount + 1 >= cfg.recovery;
        FilterMember(Owned(number), t.rows, r);
      }
      FilterAbsorbs(Owned(number), Foreign(n), t.rows);
    } else if cfg.Learns(n) {
      FilterBump(Owned(number), n, t.rows, now);
      forall i | 0 <= i < |Mine(t, number)| ensures AutoOf(number, Mine(t, number)[i]) {
        assert Mine(t, number)[i] in Mine(t, number);
        FilterMember(Owned(number), t.rows, Mine(t, number)[i]);
      }
    }
  }

  lemma AgedMore(a: seq<Rule>, b: seq<Rule>, c: seq<Rule>, k: nat, m: nat)
    requires Aged(a, b, k) && Aged(b, c, m)
    ensures Aged(a, c, k + m)
  {
    forall i | 0 <= i < |a| ensures Older(a[i], c[i], k + m) {
      assert Older(a[i], b[i], k) && Older(b[i], c[i], m);
    }
  }

  lemma ReloadAges(t: Table, t': Table, h: seq<Event>, number: string, k: nat)
    requires h != [] && Last(h).Reload?
    requires Aged(Filter(Outlasting(Prefix(h)), Mine(t, number)), Mine(t', number), k)
    ensures Aged(Filter(Outlasting(h), Mine(t, number)), Mine(AfterReload(t', Last(h).now), number), k)
  {
    hide Filter;
    var now := Last(h).now;
    var p, kept := r => !Prunable(r, now), Filter(Outlasting(Prefix(h)), Mine(t, number));
    FilterCommutes(Owned(number), p, t'.rows);
    forall i | 0 <= i < |kept| ensures p(kept[i]) == p(Mine(t', number)[i]) {
      assert Older(kept[i], Mine(t', number)[i], k);
    }
    AgedFilter(kept, Mine(t', number), k, p);
    forall r ensures Outlasts(h, r) == (!Prunable(r, now) && Outlasts(Prefix(h), r)) {
      assert h == Prefix(h) + [Last(h)];
    }
    FilterCompose(p, Outlasting(Prefix(h)), Outlasting(h), Mine(t, number));
  }

  lemma OutlastingSame(h: seq<Event>, rows: seq<Rule>)
    requires h != [] && !Last(h).Reload?
    ensures Filter(Outlasting(h), rows) == Filter(Outlasting(Prefix(h)), rows)
  {
    forall r ensures Outlasts(h, r) == Outlasts(Prefix(h), r) { assert h == Prefix(h) + [Last(h)]; }
    FilterAgree(Outlasting(h), Outlasting(Prefix(h)), rows);
  }

  /** With fewer successes than recovery asks for, nothing heals: the number keeps every
      automatic rule that no reload found prunable, with each success counted on it. */
  lemma {:induction false} TooFewSuccessesHealNothing(cfg: LearnConfig, t: Table, h: seq<Event>, number: string)
    requires cfg.Learns(number) && Quiet(h, number)
    requires forall r | r in Mine(t, number) :: r.successCount + Successes(h, number) < cfg.recovery
    ensures Aged(Filter(Outlasting(h), Mine(t, number)), Mine(Run(cfg, t, h), number), Successes(h, number))
  {
    hide AfterFailure, AfterBridgeFailure, AfterSuccess, AfterReload, Filter, Mine, Outlasting;
    if h == [] {
      NothingReloaded(Mine(t, number));
    } else {
      var before, e, kept := Run(cfg, t, Prefix(h)), Last(h), Filter(Outlasting(Prefix(h)), Mine(t, number));
      var k := Successes(Prefix(h), number);
      assert e in h && forall d | d in Prefix(h) :: d in h;
      TooFewSuccessesHealNothing(cfg, t, Prefix(h), number);
      if e.Reload? {
        ReloadAges(t, before, h, number, k);
      } else {
        OutlastingSame(h, Mine(t, number));
        if e.Success? {
          if e.number == number { NoneRecovered(cfg, Mine(t, number), Mine(before, number), h, k); }
          SuccessAges(cfg, before, e.number, e.now, number);
          AgedMore(kept, Mine(before, number), Mine(Run(cfg, t, h), number), k, if e.number == number then 1 else 0);
        } else {
          OtherFailures(cfg, before, e.number, e.status, e.now, number);
        }
      }
    }
  }

  lemma NothingReloaded(rows: seq<Rule>)
    ensures Filter(Outlasting([]), rows) == rows
  {
    FilterAll(Outlasting([]), rows);
  }

  lemma NoneRecovered(cfg: LearnConfig, mine: seq<Rule>, now: seq<Rule>, h: seq<Event>, k: nat)
    requires h != [] && Aged(Filter(Outlasting(Prefix(h)), mine), now, k)
    requires forall r | r in mine :: r.successCount + k + 1 < cfg.recovery
    ensures forall r | r in now :: r.successCount + 1 < cfg.recovery
  {
    var kept := Filter(Outlasting(Prefix(h)), mine);
    forall r | r in now ensures r.successCount + 1 < cfg.recovery {
      var i :| 0 <= i < |kept| && now[i] == r;
      assert Older(kept[i], now[i], k) && kept[i] in kept;
      FilterMember(Outlasting(Prefix(h)), mine, kept[i]);
    }
  }

  lemma {:induction false} ClockFromStart(h: seq<Event>, start: Time)
    requires Ordered(h, start)
    ensures start <= Clock(h, start)
  {
    if h != [] { ClockFromStart(Prefix(h), start); }
  }
}
