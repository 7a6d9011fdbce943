/** The adaptive half of the policy engine (gofaxserver/faxpolicy.go): automatic rules
    that escalate on failures, heal on successes and expire, as steps over the rule table. */
module PolicyLearning {
  import opened Seqs
  import opened FaxPolicy

  /** A configured threshold is always positive (the accessors default otherwise). */
  type Positive = n: int | 0 < n witness 1

  datatype LearnConfig = LearnConfig(
    policy: Config, learnEnabled: bool, bridgeLearn: bool,
    t38Threshold: Positive, ecmThreshold: Positive, v17Threshold: Positive,
    recovery: Positive, ttl: Positive)
  {
    predicate Learns(number: string) { policy.policyEnabled && learnEnabled && number != "" }
  }

  /** Rows in primary-key order; `nextId` is the next key the database hands out. */
  datatype Table = Table(rows: seq<Rule>, nextId: nat)

  /** What an automatic rule is looked up by. */
  datatype Slot = Slot(number: string, effect: Effect, target: AppliesTo)

  predicate AutoOf(number: string, r: Rule) { r.origin.Auto? && r.scope.Dst? && r.dstNumber == number }

  function Owned(number: string): Rule -> bool { (r: Rule) => AutoOf(number, r) }
  function Foreign(number: string): Rule -> bool { (r: Rule) => !AutoOf(number, r) }
  function In(s: Slot): Rule -> bool
  {
    (r: Rule) => AutoOf(s.number, r) && r.effect == s.effect && r.appliesTo == s.target
  }

  function T38Slot(number: string): Slot { Slot(number, T38Off, Both) }
  function EcmSlot(number: string): Slot { Slot(number, EcmOff, Both) }
  function V17Slot(number: string): Slot { Slot(number, V17Off, Both) }
  function BridgeSlot(number: string): Slot { Slot(number, T38Off, Only(Bridge)) }

  function Content(t: Table, s: Slot): seq<Rule> { Filter(In(s), t.rows) }

  /** Position of the first row satisfying `p` (the lowest primary key), or the length. */
  function Find(p: Rule -> bool, rows: seq<Rule>): (i: nat)
    ensures i <= |rows|
    ensures i < |rows| ==> p(rows[i])
    ensures forall j | 0 <= j < i :: !p(rows[j])
  {
    if rows == [] || p(rows[0]) then 0 else 1 + Find(p, rows[1..])
  }

  // ----------------------------------------------------------------- steps

  function Refreshed(r: Rule, status: string, failures: nat, now: Time, ttl: int): Rule
  {
    r.(failureCount := failures, successCount := 0, enabled := true,
       expiresAt := Some(now + ttl), lastSeenAt := Some(now), lastT38Status := status)
  }

  function Learned(id: nat, s: Slot, status: string, failures: nat, now: Time, ttl: int): Rule
  {
    Rule(id, Dst, "", s.number, s.effect, s.target, Auto, true, Some(now + ttl), "", "",
         failures, 0, Some(now), status)
  }

  function Upsert(t: Table, s: Slot, status: string, failures: nat, now: Time, ttl: int): Table
  {
    var i := Find(In(s), t.rows);
    if i < |t.rows| then t.(rows := t.rows[i := Refreshed(t.rows[i], status, failures, now, ttl)])
    else Table(t.rows + [Learned(t.nextId, s, status, failures, now, ttl)], t.nextId + 1)
  }

  function NextCount(t: Table, s: Slot): nat
  {
    var i := Find(In(s), t.rows);
    if i < |t.rows| then t.rows[i].failureCount + 1 else 1
  }

  /** The ladder: `t38_off`, then `ecm_off`, then `v17_off`. */
  function Escalated(cfg: LearnConfig, t: Table, number: string, status: string, failures: nat, now: Time): Table
  {
    var t1 := Upsert(t, T38Slot(number), status, failures, now, cfg.ttl);
    var t2 := if failures >= cfg.ecmThreshold
              then Upsert(t1, EcmSlot(number), status, failures, now, cfg.ttl) else t1;
    if failures >= cfg.v17Threshold
    then Upsert(t2, V17Slot(number), status, failures, now, cfg.ttl) else t2
  }

  function AfterFailure(cfg: LearnConfig, t: Table, number: string, status: string, now: Time): Table
  {
    var failures := NextCount(t, T38Slot(number));
    if !cfg.Learns(number) || failures < cfg.t38Threshold then t
    else Escalated(cfg, t, number, status, failures, now)
  }

  function AfterBridgeFailure(cfg: LearnConfig, t: Table, number: string, cause: string, now: Time): Table
  {
    if !cfg.Learns(number) || !cfg.bridgeLearn then t
    else Upsert(t, BridgeSlot(number), cause, NextCount(t, BridgeSlot(number)), now, cfg.ttl)
  }

  function Bumped(number: string, r: Rule, now: Time): Rule
  {
    if AutoOf(number, r)
    then r.(successCount := r.successCount + 1, failureCount := 0, lastSeenAt := Some(now))
    else r
  }

  function BumpAll(number: string, rows: seq<Rule>, now: Time): (out: seq<Rule>)
    ensures |out| == |rows|
    ensures forall i | 0 <= i < |rows| :: out[i] == Bumped(number, rows[i], now)
  {
    seq(|rows|, i requires 0 <= i < |rows| => Bumped(number, rows[i], now))
  }

  predicate Heals(cfg: LearnConfig, t: Table, number: string)
  {
    exists r | r in t.rows :: AutoOf(number, r) && r.successCount + 1 >= cfg.recovery
  }

  function AfterSuccess(cfg: LearnConfig, t: Table, number: string, now: Time): Table
  {
    if !cfg.Learns(number) then t
    else if Heals(cfg, t, number) then t.(rows := Filter(Foreign(number), t.rows))
    else t.(rows := BumpAll(number, t.rows, now))
  }

  function AfterReload(t: Table, now: Time): Table { t.(rows := Pruned(t.rows, now)) }

  datatype Event =
    | Failure(number: string, status: string, now: Time)
    | BridgeFailure(number: string, status: string, now: Time)
    | Success(number: string, now: Time)
    | Reload(now: Time)

  function Apply(cfg: LearnConfig, t: Table, e: Event): Table
  {
    match e
    case Failure(n, status, now) => AfterFailure(cfg, t, n, status, now)
    case BridgeFailure(n, status, now) => AfterBridgeFailure(cfg, t, n, status, now)
    case Success(n, now) => AfterSuccess(cfg, t, n, now)
    case Reload(now) => AfterReload(t, now)
  }

  /** The table after a history of events, oldest first. Every call of the learner that
      changes the table is its event followed by a `Reload`. */
  function Run(cfg: LearnConfig, t: Table, h: seq<Event>): Table
  {
    if h == [] then t else Apply(cfg, Run(cfg, t, h[..|h| - 1]), h[|h| - 1])
  }

  // ------------------------------------------- what one step does to one slot

  lemma {:induction false} FilterUpdate(p: Rule -> bool, rows: seq<Rule>, i: nat, x: Rule)
    requires i < |rows| && !p(rows[i]) && !p(x)
    ensures Filter(p, rows[i := x]) == Filter(p, rows)
  {
    if i > 0 {
      FilterUpdate(p, rows[1..], i - 1, x);
      assert rows[i := x][1..] == rows[1..][i - 1 := x];
    } else {
      assert rows[i := x][1..] == rows[1..];
    }
  }

  lemma {:induction false} FilterUpdateFirst(p: Rule -> bool, rows: seq<Rule>, x: Rule)
    requires Find(p, rows) < |rows| && p(x)
    ensures Filter(p, rows) != []
    ensures Filter(p, rows) == [rows[Find(p, rows)]] + Filter(p, rows)[1..]
    ensures Filter(p, rows[Find(p, rows) := x]) == [x] + Filter(p, rows)[1..]
  {
    var i := Find(p, rows);
    if i > 0 {
      FilterUpdateFirst(p, rows[1..], x);
      assert rows[i := x][1..] == rows[1..][i - 1 := x];
    } else {
      assert rows[i := x][1..] == rows[1..];
    }
  }

  lemma {:induction false} FilterNone(p: Rule -> bool, rows: seq<Rule>)
    ensures Filter(p, rows) == [] <==> Find(p, rows) == |rows|
  {
    if rows != [] { FilterNone(p, rows[1..]); }
  }

  /** An upsert leaves one refreshed rule at the head of its slot, counting `failures`. */
  lemma UpsertSlot(t: Table, s: Slot, status: string, failures: nat, now: Time, ttl: int)
    ensures var c, c' := Content(t, s), Content(Upsert(t, s, status, failures, now, ttl), s);
            && |c'| == (if c == [] then 1 else |c|)
            && c'[1..] == (if c == [] then [] else c[1..])
            && c'[0] == (if c == [] then Learned(t.nextId, s, status, failures, now, ttl)
                         else Refreshed(c[0], status, failures, now, ttl))
    ensures NextCount(t, s) == (if Content(t, s) == [] then 1 else Content(t, s)[0].failureCount + 1)
  {
    var p, i := In(s), Find(In(s), t.rows);
    FilterNone(p, t.rows);
    if i < |t.rows| {
      FilterUpdateFirst(p, t.rows, Refreshed(t.rows[i], status, failures, now, ttl));
    } else {
      var added := Learned(t.nextId, s, status, failures, now, ttl);
      FilterConcat(p, t.rows, [added]);
      assert p(added);
    }
  }

  /** ... and is invisible to every filter that rejects that slot. */
  lemma UpsertFrame(t: Table, s: Slot, status: string, failures: nat, now: Time, ttl: int, p: Rule -> bool)
    requires forall r: Rule | In(s)(r) :: !p(r)
    ensures Filter(p, Upsert(t, s, status, failures, now, ttl).rows) == Filter(p, t.rows)
  {
    var i := Find(In(s), t.rows);
    if i < |t.rows| {
      var x := Refreshed(t.rows[i], status, failures, now, ttl);
      assert In(s)(x);
      FilterUpdate(p, t.rows, i, x);
    } else {
      var added := Learned(t.nextId, s, status, failures, now, ttl);
      assert In(s)(added);
      FilterConcat(p, t.rows, [added]);
    }
  }

  /** Pruning, bumping and healing act on each slot by itself. */
  lemma {:induction false} FilterCommutes(p: Rule -> bool, q: Rule -> bool, rows: seq<Rule>)
    ensures Filter(p, Filter(q, rows)) == Filter(q, Filter(p, rows))
  {
    if rows != [] { FilterCommutes(p, q, rows[1..]); }
  }

  lemma {:induction false} FilterBump(p: Rule -> bool, number: string, rows: seq<Rule>, now: Time)
    requires forall r: Rule :: p(r) == p(Bumped(number, r, now))
    ensures Filter(p, BumpAll(number, rows, now)) == BumpAll(number, Filter(p, rows), now)
  {
    if rows != [] {
      FilterBump(p, number, rows[1..], now);
      assert BumpAll(number, rows, now)[1..] == BumpAll(number, rows[1..], now);
    }
  }

  lemma SuccessSlot(cfg: LearnConfig, t: Table, s: Slot, number: string, now: Time)
    requires cfg.Learns(number)
    ensures Content(AfterSuccess(cfg, t, number, now), s) ==
            if Heals(cfg, t, number) then (if s.number == number then [] else Content(t, s))
            else BumpAll(number, Content(t, s), now)
  {
    if Heals(cfg, t, number) {
      FilterCommutes(In(s), Foreign(number), t.rows);
      forall r | r in Content(t, s) ensures AutoOf(s.number, r) { FilterMember(In(s), t.rows, r); }
      if s.number == number { FilterNothing(Foreign(number), Content(t, s)); }
      else { FilterAll(Foreign(number), Content(t, s)); }
    } else {
      FilterBump(In(s), number, t.rows, now);
    }
  }

  predicate OnLadder(number: string, r: Rule)
  {
    In(T38Slot(number))(r) || In(EcmSlot(number))(r) || In(V17Slot(number))(r)
  }

  lemma FailureFrame(cfg: LearnConfig, t: Table, number: string, status: string, now: Time, p: Rule -> bool)
    requires forall r: Rule | OnLadder(number, r) || In(BridgeSlot(number))(r) :: !p(r)
    ensures Filter(p, AfterFailure(cfg, t, number, status, now).rows) == Filter(p, t.rows)
    ensures Filter(p, AfterBridgeFailure(cfg, t, number, status, now).rows) == Filter(p, t.rows)
  {
    hide Upsert, Filter, NextCount, AutoOf;
    var n := NextCount(t, T38Slot(number));
    var t1 := Upsert(t, T38Slot(number), status, n, now, cfg.ttl);
    var t2 := if n >= cfg.ecmThreshold then Upsert(t1, EcmSlot(number), status, n, now, cfg.ttl) else t1;
    UpsertFrame(t, T38Slot(number), status, n, now, cfg.ttl, p);
    UpsertFrame(t1, EcmSlot(number), status, n, now, cfg.ttl, p);
    UpsertFrame(t2, V17Slot(number), status, n, now, cfg.ttl, p);
    UpsertFrame(t, BridgeSlot(number), status, NextCount(t, BridgeSlot(number)), now, cfg.ttl, p);
  }

  /** The ladder, slot by slot: what a counted failure of `number` leaves behind. */
  lemma FailureSlots(cfg: LearnConfig, t: Table, number: string, status: string, now: Time)
    requires cfg.Learns(number) && NextCount(t, T38Slot(number)) >= cfg.t38Threshold
    ensures var n := NextCount(t, T38Slot(number));
            var t' := AfterFailure(cfg, t, number, status, now);
            && Raised(Content(t, T38Slot(number)), Content(t', T38Slot(number)), n, status, now, cfg.ttl)
            && (if n >= cfg.ecmThreshold
                then Raised(Content(t, EcmSlot(number)), Content(t', EcmSlot(number)), n, status, now, cfg.ttl)
                else Content(t', EcmSlot(number)) == Content(t, EcmSlot(number)))
            && (if n >= cfg.v17Threshold
                then Raised(Content(t, V17Slot(number)), Content(t', V17Slot(number)), n, status, now, cfg.ttl)
                else Content(t', V17Slot(number)) == Content(t, V17Slot(number)))
  {
    hide Upsert, Filter, NextCount;
    var n := NextCount(t, T38Slot(number));
    var a, b, c := T38Slot(number), EcmSlot(number), V17Slot(number);
    var t1 := Upsert(t, a, status, n, now, cfg.ttl);
    var t2 := if n >= cfg.ecmThreshold then Upsert(t1, b, status, n, now, cfg.ttl) else t1;
    UpsertSlot(t, a, status, n, now, cfg.ttl);
    UpsertFrame(t, a, status, n, now, cfg.ttl, In(b));
    UpsertFrame(t, a, status, n, now, cfg.ttl, In(c));
    UpsertSlot(t1, b, status, n, now, cfg.ttl);
    UpsertFrame(t1, b, status, n, now, cfg.ttl, In(a));
    UpsertFrame(t1, b, status, n, now, cfg.ttl, In(c));
    UpsertSlot(t2, c, status, n, now, cfg.ttl);
    UpsertFrame(t2, c, status, n, now, cfg.ttl, In(a));
    UpsertFrame(t2, c, status, n, now, cfg.ttl, In(b));
  }

  ghost predicate Raised(c: seq<Rule>, c': seq<Rule>, failures: nat, status: string, now: Time, ttl: int)
  {
    && |c'| == (if c == [] then 1 else |c|)
    && c'[0].failureCount == failures && c'[0].successCount == 0
    && c'[0].enabled && c'[0].expiresAt == Some(now + ttl)
    && c'[0].lastSeenAt == Some(now) && c'[0].lastT38Status == status
    && c'[1..] == (if c == [] then [] else c[1..])
  }
}
