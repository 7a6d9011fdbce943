/** The delivery scheduler (gofaxserver/queue.go): grouping by type and priority, retries
    with capped exponential backoff and jitter, and one worker per endpoint type. What an
    attempt does is left to an adversary: a function from attempt number to outcome. */
module Scheduler {
  import opened Seqs

  /** `upstream` marks a global endpoint of tenant 0. */
  datatype Endpoint = Endpoint(id: nat, kind: string, priority: nat, upstream: bool)

  datatype Outcome = Delivered | Retriable | Fatal

  // -------------------------------------------------------------- grouping

  function At(kind: string, priority: nat): Endpoint -> bool
  {
    (e: Endpoint) => e.kind == kind && e.priority == priority
  }

  type Groups = map<string, map<nat, seq<Endpoint>>>

  /** Each group holds, in order, exactly the endpoints of its type and priority. */
  ghost predicate IsGrouping(groups: Groups, endpoints: seq<Endpoint>)
  {
    && (forall t | t in groups :: groups[t] != map[])
    && (forall t, p | t in groups && p in groups[t] ::
          groups[t][p] == Filter(At(t, p), endpoints) && groups[t][p] != [])
    && (forall e | e in endpoints :: e.kind in groups && e.priority in groups[e.kind])
  }

  function GroupAt(groups: Groups, t: string, p: nat): seq<Endpoint>
  {
    if t in groups && p in groups[t] then groups[t][p] else []
  }

  lemma GroupAtIs(groups: Groups, endpoints: seq<Endpoint>, t: string, p: nat)
    requires IsGrouping(groups, endpoints)
    ensures GroupAt(groups, t, p) == Filter(At(t, p), endpoints)
  {
    if !(t in groups && p in groups[t]) { FilterNothing(At(t, p), endpoints); }
  }

  /** The groups once an endpoint has been appended to its own. */
  function Grown(groups: Groups, ep: Endpoint): Groups
  {
    var byPrio := if ep.kind in groups then groups[ep.kind] else map[];
    groups[ep.kind := byPrio[ep.priority := GroupAt(groups, ep.kind, ep.priority) + [ep]]]
  }

  lemma GrownAt(groups: Groups, ep: Endpoint, t: string, p: nat)
    ensures (t in Grown(groups, ep) && p in Grown(groups, ep)[t]) <==>
            (t in groups && p in groups[t]) || (t == ep.kind && p == ep.priority)
    ensures GroupAt(Grown(groups, ep), t, p) ==
            if t == ep.kind && p == ep.priority then GroupAt(groups, t, p) + [ep] else GroupAt(groups, t, p)
  {}

  lemma GroupStep(groups: Groups, endpoints: seq<Endpoint>, ep: Endpoint)
    requires IsGrouping(groups, endpoints)
    ensures IsGrouping(Grown(groups, ep), endpoints + [ep])
  {
    hide Filter, Grown;
    var next := Grown(groups, ep);
    forall t, p | t in next && p in next[t]
      ensures next[t][p] == Filter(At(t, p), endpoints + [ep]) && next[t][p] != []
    {
      GrownAt(groups, ep, t, p);
      FilterSnoc(At(t, p), endpoints, ep);
      GroupAtIs(groups, endpoints, t, p);
    }
    forall e | e in endpoints + [ep] ensures e.kind in next && e.priority in next[e.kind] {
      GrownAt(groups, ep, e.kind, e.priority);
    }
    GrownNonempty(groups, ep);
  }

  lemma GrownNonempty(groups: Groups, ep: Endpoint)
    requires forall t | t in groups :: groups[t] != map[]
    ensures forall t | t in Grown(groups, ep) :: Grown(groups, ep)[t] != map[]
  {
    assert ep.priority in Grown(groups, ep)[ep.kind];
  }

  method GroupEndpoints(endpoints: seq<Endpoint>) returns (groups: Groups)
    ensures IsGrouping(groups, endpoints)
  {
    hide Filter, At;
    groups := map[];
    for i := 0 to |endpoints|
      invariant IsGrouping(groups, endpoints[..i])
    {
      var ep := endpoints[i];
      GroupStep(groups, endpoints[..i], ep);
      assert endpoints[..i + 1] == endpoints[..i] + [ep];
      var byPrio: map<nat, seq<Endpoint>> := if ep.kind in groups then groups[ep.kind] else map[];
      var group := if ep.priority in byPrio then byPrio[ep.priority] else [];
      byPrio := byPrio[ep.priority := group + [ep]];
      groups := groups[ep.kind := byPrio];
    }
    assert endpoints[..|endpoints|] == endpoints;
  }

  // ------------------------------------------------------------ priorities

  /** Ascending, with 999 after everything else. */
  predicate Sooner(a: nat, b: nat)
  {
    if a == 999 && b != 999 then false
    else if b == 999 && a != 999 then true
    else a < b
  }

  ghost predicate InOrder(prios: seq<nat>)
  {
    forall i, j | 0 <= i < j < |prios| :: Sooner(prios[i], prios[j])
  }

  method SortPriorities(byPrio: map<nat, seq<Endpoint>>) returns (prios: seq<nat>)
    ensures InOrder(prios)
    ensures forall p :: p in prios <==> p in byPrio
    ensures forall i, j | 0 <= i < j < |prios| :: prios[j] == 999 || (prios[i] != 999 && prios[i] < prios[j])
    ensures forall i, j | 0 <= i < j < |prios| :: prios[i] != prios[j]
  {
    prios := [];
    var todo := byPrio.Keys;
    while todo != {}
      invariant todo <= byPrio.Keys
      invariant forall p :: p in prios <==> p in byPrio && p !in todo
      invariant forall i, j | 0 <= i < j < |prios| :: prios[i] != prios[j]
      decreases |todo|
    {
      var p :| p in todo;
      prios := prios + [p];
      todo := todo - {p};
    }
    var sorted := StableSort(Sooner, prios);
    SortDistinct(prios);
    forall p ensures p in sorted <==> p in prios { MultisetMember(sorted, prios, p); }
    prios := sorted;
  }

  /** There is only one such order of a set of priorities. */
  lemma {:induction false} InOrderUnique(s: seq<nat>, t: seq<nat>)
    requires InOrder(s) && InOrder(t) && forall p :: p in s <==> p in t
    ensures s == t
  {
    HasMember(s);
    HasMember(t);
    if s != [] {
      assert s[0] in t && t[0] in s;
      assert s[0] == t[0];
      forall p ensures p in s[1..] <==> p in t[1..] {
        assert p in s <==> p == s[0] || p in s[1..];
        assert p in t <==> p == t[0] || p in t[1..];
      }
      InOrderUnique(s[1..], t[1..]);
    }
  }

  lemma SoonerIsOrder()
    ensures StrictWeakOrder(Sooner)
  {}

  lemma SortDistinct(s: seq<nat>)
    requires forall i, j | 0 <= i < j < |s| :: s[i] != s[j]
    ensures InOrder(StableSort(Sooner, s))
  {
    var t := StableSort(Sooner, s);
    SoonerIsOrder();
    SortSorted(Sooner, s);
    forall i, j | 0 <= i < j < |t| ensures Sooner(t[i], t[j]) {
      if t[i] == t[j] {
        OccursTwice(t, i, j);
        OccursOnce(s, t[i]);
      }
      assert !Sooner(t[j], t[i]);
    }
  }

  lemma OccursTwice(t: seq<nat>, i: nat, j: nat)
    requires i < j < |t| && t[i] == t[j]
    ensures multiset(t)[t[i]] >= 2
  {
    assert t == t[..i] + [t[i]] + t[i + 1..j] + [t[j]] + t[j + 1..];
  }

  lemma {:induction false} OccursOnce(s: seq<nat>, x: nat)
    requires forall i, j | 0 <= i < j < |s| :: s[i] != s[j]
    ensures multiset(s)[x] <= 1
  {
    if s != [] {
      assert s == [s[0]] + s[1..];
      OccursOnce(s[1..], x);
      if s[0] == x { assert forall j | 0 <= j < |s[1..]| :: s[1..][j] == s[j + 1]; }
    }
  }

  /** The order in which a worker may try the endpoints of its type. */
  function Enumeration(endpoints: seq<Endpoint>, kind: string, prios: seq<nat>): seq<Endpoint>
  {
    if prios == [] then []
    else Filter(At(kind, prios[0]), endpoints) + Enumeration(endpoints, kind, prios[1..])
  }

  ghost predicate Used(endpoints: seq<Endpoint>, kind: string, priority: nat)
  {
    exists e | e in endpoints :: e.kind == kind && e.priority == priority
  }

  ghost predicate PrioritiesOf(endpoints: seq<Endpoint>, kind: string, prios: seq<nat>)
  {
    InOrder(prios) && forall p :: p in prios <==> Used(endpoints, kind, p)
  }

  lemma {:induction false} EnumerationCounts(endpoints: seq<Endpoint>, kind: string, prios: seq<nat>, e: Endpoint)
    requires InOrder(prios)
    ensures multiset(Enumeration(endpoints, kind, prios))[e] ==
            if e.kind == kind && e.priority in prios then multiset(endpoints)[e] else 0
  {
    if prios != [] {
      FilterMultiset(At(kind, prios[0]), endpoints, e);
      EnumerationCounts(endpoints, kind, prios[1..], e);
      assert e.priority == prios[0] ==> e.priority !in prios[1..];
    }
  }

  /** Grouping loses and duplicates nothing: every endpoint is scheduled exactly as often
      as it was given, under its own type. */
  lemma ScheduleIsPartition(endpoints: seq<Endpoint>, kind: string, prios: seq<nat>, e: Endpoint)
    requires PrioritiesOf(endpoints, kind, prios)
    ensures multiset(Enumeration(endpoints, kind, prios))[e] ==
            if e.kind == kind then multiset(endpoints)[e] else 0
  {
    EnumerationCounts(endpoints, kind, prios, e);
    if e.kind == kind && e in endpoints { assert Used(endpoints, kind, e.priority); }
  }

  lemma {:induction false} EnumerationPriorities(endpoints: seq<Endpoint>, kind: string, prios: seq<nat>)
    ensures forall e | e in Enumeration(endpoints, kind, prios) :: e.priority in prios
  {
    if prios != [] {
      EnumerationPriorities(endpoints, kind, prios[1..]);
      forall e | e in Filter(At(kind, prios[0]), endpoints) ensures e.priority == prios[0] {
        FilterMember(At(kind, prios[0]), endpoints, e);
      }
    }
  }

  lemma HeadPriority(endpoints: seq<Endpoint>, kind: string, p: nat, i: nat)
    requires i < |Filter(At(kind, p), endpoints)|
    ensures Filter(At(kind, p), endpoints)[i].priority == p
  {
    var head := Filter(At(kind, p), endpoints);
    assert head[i] in head;
    FilterMember(At(kind, p), endpoints, head[i]);
  }

  /** Earlier in the enumeration means no later in priority, which is numeric but for 999,
      the last. */
  lemma {:induction false} EnumerationAscends(endpoints: seq<Endpoint>, kind: string, prios: seq<nat>, i: nat, j: nat)
    requires InOrder(prios) && i < j < |Enumeration(endpoints, kind, prios)|
    ensures var a, b := Enumeration(endpoints, kind, prios)[i].priority, Enumeration(endpoints, kind, prios)[j].priority;
            b == 999 || (a != 999 && a <= b)
  {
    var head, tail := Filter(At(kind, prios[0]), endpoints), Enumeration(endpoints, kind, prios[1..]);
    assert Enumeration(endpoints, kind, prios) == head + tail;
    if i >= |head| {
      EnumerationAscends(endpoints, kind, prios[1..], i - |head|, j - |head|);
    } else {
      HeadPriority(endpoints, kind, prios[0], i);
      if j < |head| {
        HeadPriority(endpoints, kind, prios[0], j);
      } else {
        EnumerationPriorities(endpoints, kind, prios[1..]);
        assert tail[j - |head|] in tail;
        var k :| 0 <= k < |prios[1..]| && prios[1..][k] == tail[j - |head|].priority;
        assert Sooner(prios[0], prios[k + 1]);
      }
    }
  }

  // ---------------------------------------------------------------- retries

  function Pow2(k: nat): nat { if k == 0 then 1 else 2 * Pow2(k - 1) }

  /** The delay after the (k+1)-st failed attempt, before jitter. */
  function Delay(base: nat, max: nat, k: nat): int
  {
    if k == 0 || base * Pow2(k) <= max then base * Pow2(k) else max
  }

  lemma DelayDoubles(base: nat, max: nat, k: nat)
    requires base > 0
    ensures Delay(base, max, 0) == base
    ensures Delay(base, max, k + 1) ==
            if 2 * Delay(base, max, k) > max then max else 2 * Delay(base, max, k)
  {
    assert base * Pow2(k + 1) == 2 * (base * Pow2(k));
  }

  function Sum(s: seq<int>): int { if s == [] then 0 else Sum(s[..|s| - 1]) + s[|s| - 1] }

  lemma {:induction false} SumBound(s: seq<int>, max: int)
    requires forall i | 0 <= i < |s| :: s[i] <= max
    ensures Sum(s) <= |s| * max
  {
    if s != [] {
      SumBound(s[..|s| - 1], max);
    }
  }

  /** One unit of delivery: how each attempt ended, and the waits between them. */
  datatype Attempts = Attempts(tries: seq<Outcome>, waits: seq<int>)
  {
    predicate Ok() { tries != [] && tries[|tries| - 1].Delivered? }
  }

  datatype Retry = Retry(maxAttempts: nat, base: nat, max: nat)
  {
    /** `base` is at least 5 because the jitter source panics on an empty range. */
    predicate Valid() { 0 < maxAttempts && 5 <= base && 5 <= max }
  }

  /** A wait is the delay give or take a tenth, cut off at the maximum. */
  ghost predicate WaitOk(wait: int, delay: int, max: int)
  {
    && 0 < wait <= max
    && wait <= delay + delay / 10
    && (wait < delay - delay / 10 ==> wait == max)
  }

  /** The delay from a tenth below to a tenth above, as the random number says. */
  function Jittered(delay: int, random: nat, max: int): int
  {
    if delay < 5 then 0
    else
      var wait := delay - delay / 10 + random % (delay / 5);
      if wait < max then wait else max
  }

  lemma JitterIs(delay: int, random: nat, max: int)
    requires 5 <= delay && 5 <= max
    ensures Jittered(delay, random, max) ==
            var wait := delay + (random % (delay / 5) - delay / 10);
            if wait > max then max else wait
    ensures WaitOk(Jittered(delay, random, max), delay, max) && Jittered(delay, random, max) <= max
  {
  }

  /** What every use of the retry loop guarantees; attempts are numbered from 1. */
  ghost predicate RetryOk(retry: Retry, outcomes: int -> Outcome, a: Attempts)
  {
    && 1 <= |a.tries| <= retry.maxAttempts && |a.waits| == |a.tries| - 1
    && (forall i | 0 <= i < |a.tries| :: a.tries[i] == outcomes(i + 1))
    && (forall i | 0 <= i < |a.tries| - 1 :: a.tries[i].Retriable?)
    && (a.tries[|a.tries| - 1].Retriable? ==> |a.tries| == retry.maxAttempts)
    && (forall i | 0 <= i < |a.waits| :: WaitOk(a.waits[i], Delay(retry.base, retry.max, i), retry.max))
  }

  method RetryWithBackoff(retry: Retry, outcomes: int -> Outcome, random: nat -> nat)
    returns (ok: bool, a: Attempts)
    requires retry.Valid()
    ensures RetryOk(retry, outcomes, a) && ok == a.Ok()
    ensures Sum(a.waits) <= (retry.maxAttempts - 1) * retry.max
    ensures forall i | 0 <= i < |a.waits| :: a.waits[i] == Jittered(Delay(retry.base, retry.max, i), random(i + 1), retry.max)
  {
    hide Jittered, WaitOk, Delay;
    DelayDoubles(retry.base, retry.max, 0);
    var tries: seq<Outcome>, waits: seq<int> := [], [];
    var delay: int := retry.base;
    var attempt := 1;
    while true
      invariant 1 <= attempt <= retry.maxAttempts
      invariant |tries| == |waits| == attempt - 1
      invariant 5 <= delay == Delay(retry.base, retry.max, attempt - 1)
      invariant forall i | 0 <= i < |tries| :: tries[i] == outcomes(i + 1) && tries[i].Retriable?
      invariant forall i | 0 <= i < |waits| :: waits[i] <= retry.max
      invariant forall i | 0 <= i < |waits| :: WaitOk(waits[i], Delay(retry.base, retry.max, i), retry.max)
      invariant forall i | 0 <= i < |waits| ::
          waits[i] == Jittered(Delay(retry.base, retry.max, i), random(i + 1), retry.max)
      decreases retry.maxAttempts - attempt
    {
      var outcome := outcomes(attempt);
      tries := tries + [outcome];
      ok := outcome.Delivered?;
      if ok || outcome.Fatal? || attempt == retry.maxAttempts { break; }
      var jitter := random(attempt) % (delay / 5) - delay / 10;
      var sleep := delay + jitter;
      if sleep > retry.max { sleep := retry.max; }
      JitterIs(delay, random(attempt), retry.max);
      waits := waits + [sleep];
      DelayDoubles(retry.base, retry.max, attempt - 1);
      delay := delay * 2;
      if delay > retry.max { delay := retry.max; }
      attempt := attempt + 1;
    }
    TotalWait(retry.maxAttempts, retry.max, waits);
    a := Attempts(tries, waits);
  }

  /** Some allowed attempt delivers, and each one before it may be retried. */
  ghost predicate Deliverable(retry: Retry, outcomes: int -> Outcome)
  {
    exists n | 1 <= n <= retry.maxAttempts ::
      outcomes(n).Delivered? && forall m | 1 <= m < n :: outcomes(m).Retriable?
  }

  /** The oracle alone decides the verdict of the loop. */
  lemma RetryVerdict(retry: Retry, outcomes: int -> Outcome, a: Attempts)
    requires RetryOk(retry, outcomes, a)
    ensures a.Ok() <==> Deliverable(retry, outcomes)
  {
    var n := |a.tries|;
    forall m | 1 <= m <= n ensures outcomes(m) == a.tries[m - 1] {}
    assert forall m | 1 <= m < n :: outcomes(m).Retriable?;
  }

  lemma {:induction false} MulMonotone(a: nat, b: nat, m: nat)
    requires a <= b
    ensures a * m <= b * m
  {
    assert b * m == a * m + (b - a) * m;
  }

  lemma TotalWait(maxAttempts: nat, max: nat, waits: seq<int>)
    requires |waits| < maxAttempts
    requires forall i | 0 <= i < |waits| :: waits[i] <= max
    ensures Sum(waits) <= (maxAttempts - 1) * max
  {
    SumBound(waits, max);
    MulMonotone(|waits|, maxAttempts - 1, max);
  }

  // ---------------------------------------------------------------- workers

  /** What each attempt on each unit of a worker does; units are numbered by their place
      in the worker's enumeration of endpoints. */
  type Oracle = nat -> int -> Outcome

  /** Endpoints in the order tried, and the attempts made on each. */
  datatype Trail = Trail(tried: seq<Endpoint>, attempts: seq<Attempts>)
  {
    /** Tries a prefix of `order`, stops for good at its first success, and without one
        has tried everything. */
    ghost predicate StopsAtSuccess(order: seq<Endpoint>)
    {
      && |tried| == |attempts| && tried <= order
      && (forall i | 0 <= i < |attempts| - 1 :: !attempts[i].Ok())
      && (Succeeded() || tried == order)
    }

    predicate Succeeded() { attempts != [] && attempts[|attempts| - 1].Ok() }

    /** Each tried endpoint got the retry loop over its own outcomes, from unit `from` on. */
    ghost predicate Answers(retry: Retry, outcomes: Oracle, from: nat)
    {
      forall i | 0 <= i < |attempts| :: RetryOk(retry, outcomes(from + i), attempts[i])
    }
  }

  const NoTrail := Trail([], [])

  /** Sequential attempts over one group. */
  method TryGroup(group: seq<Endpoint>, from: nat, retry: Retry, outcomes: Oracle, random: nat -> nat)
    returns (trail: Trail)
    requires retry.Valid()
    ensures trail.StopsAtSuccess(group) && trail.Answers(retry, outcomes, from)
  {
    trail := NoTrail;
    for i := 0 to |group|
      invariant trail.tried == group[..i] && |trail.attempts| == i
      invariant forall j | 0 <= j < i :: !trail.attempts[j].Ok()
      invariant trail.Answers(retry, outcomes, from)
    {
      var ok, a := RetryWithBackoff(retry, outcomes(from + i), random);
      trail := Trail(trail.tried + [group[i]], trail.attempts + [a]);
      assert group[..i + 1] == group[..i] + [group[i]];
      if ok { return; }
    }
    assert group[..|group|] == group;
  }

  /** What a "webhook" or "portal" worker guarantees over its enumeration. */
  ghost predicate UrlsOk(kind: string, order: seq<Endpoint>, portalConfigured: bool, retry: Retry, outcomes: Oracle,
                         trail: Trail)
  {
    if kind == "portal" && !portalConfigured then trail == NoTrail
    else trail.StopsAtSuccess(order) && trail.Answers(retry, outcomes, 0)
  }

  /** The worker for "webhook" and "portal" endpoints. */
  method DeliverToUrls(kind: string, endpoints: seq<Endpoint>, groups: map<nat, seq<Endpoint>>, prios: seq<nat>,
                       portalConfigured: bool, retry: Retry, outcomes: Oracle, random: nat -> nat)
    returns (trail: Trail)
    requires retry.Valid()
    requires forall p | p in prios :: p in groups && groups[p] == Filter(At(kind, p), endpoints)
    ensures UrlsOk(kind, Enumeration(endpoints, kind, prios), portalConfigured, retry, outcomes, trail)
  {
    hide Filter, At, RetryOk;
    trail := NoTrail;
    for k := 0 to |prios|
      invariant trail.Answers(retry, outcomes, 0) && |trail.attempts| == |trail.tried|
      invariant forall i | 0 <= i < |trail.attempts| :: !trail.attempts[i].Ok()
      invariant if kind == "portal" && !portalConfigured then trail == NoTrail
                else trail.tried == Enumeration(endpoints, kind, prios[..k])
    {
      EnumerationSplits(endpoints, kind, prios, k);
      var group := groups[prios[k]];
      if |group| == 0 { continue; }
      if kind == "portal" && !portalConfigured { continue; }
      var g := TryGroup(group, |trail.tried|, retry, outcomes, random);
      AnswersConcat(trail, g, retry, outcomes);
      ghost var before := trail;
      trail := Trail(trail.tried + g.tried, trail.attempts + g.attempts);
      if g.Succeeded() {
        PrefixOf(before.tried, g.tried, group, Enumeration(endpoints, kind, prios));
        return;
      }
    }
    assert prios[..|prios|] == prios;
  }

  lemma AnswersConcat(t: Trail, g: Trail, retry: Retry, outcomes: Oracle)
    requires |t.tried| == |t.attempts|
    requires t.Answers(retry, outcomes, 0) && g.Answers(retry, outcomes, |t.tried|)
    ensures Trail(t.tried + g.tried, t.attempts + g.attempts).Answers(retry, outcomes, 0)
  {
    hide RetryOk;
    var all := t.attempts + g.attempts;
    forall i | 0 <= i < |all| ensures RetryOk(retry, outcomes(0 + i), all[i]) {
      if i < |t.attempts| {
        assert RetryOk(retry, outcomes(0 + i), t.attempts[i]);
      } else {
        assert RetryOk(retry, outcomes(|t.tried| + (i - |t.tried|)), g.attempts[i - |t.tried|]);
      }
    }
  }

  ghost predicate UnitDeliverable(retry: Retry, outcomes: Oracle, from: nat, i: nat)
  {
    Deliverable(retry, outcomes(from + i))
  }

  /** The oracle alone decides how far a worker gets: through the first endpoint of its
      enumeration that can be delivered to, or through all of them when none can. */
  lemma TrailReachesFirst(trail: Trail, order: seq<Endpoint>, from: nat, retry: Retry, outcomes: Oracle)
    requires trail.StopsAtSuccess(order) && trail.Answers(retry, outcomes, from)
    ensures trail.Succeeded() <==> exists i | 0 <= i < |order| :: UnitDeliverable(retry, outcomes, from, i)
    ensures forall i | 0 <= i < |trail.tried| :: UnitDeliverable(retry, outcomes, from, i) <==>
              trail.Succeeded() && i == |trail.tried| - 1
  {
    hide RetryOk;
    forall i | 0 <= i < |trail.tried|
      ensures UnitDeliverable(retry, outcomes, from, i) <==> trail.Succeeded() && i == |trail.tried| - 1
    {
      assert RetryOk(retry, outcomes(from + i), trail.attempts[i]);
      RetryVerdict(retry, outcomes(from + i), trail.attempts[i]);
    }
    if trail.Succeeded() { assert UnitDeliverable(retry, outcomes, from, |trail.tried| - 1); }
  }

  lemma PrefixOf(a: seq<Endpoint>, b: seq<Endpoint>, c: seq<Endpoint>, order: seq<Endpoint>)
    requires b <= c && a + c <= order
    ensures a + b <= order
  {}

  lemma {:induction false} EnumerationSplits(endpoints: seq<Endpoint>, kind: string, prios: seq<nat>, k: nat)
    requires k < |prios|
    ensures Enumeration(endpoints, kind, prios[..k + 1]) ==
            Enumeration(endpoints, kind, prios[..k]) + Filter(At(kind, prios[k]), endpoints)
    ensures Enumeration(endpoints, kind, prios[..k + 1]) <= Enumeration(endpoints, kind, prios)
  {
    hide Filter, At;
    var head := Filter(At(kind, prios[0]), endpoints);
    if k == 0 {
      assert prios[..1] == [prios[0]] && prios[..0] == [];
      assert Enumeration(endpoints, kind, [prios[0]]) == head + [];
    } else {
      EnumerationSplits(endpoints, kind, prios[1..], k - 1);
      assert prios[..k + 1][1..] == prios[1..][..k] && prios[..k][1..] == prios[1..][..k - 1];
    }
  }

  /** The single attempt of a bridged batch, numbered -1. */
  predicate OneShotOk(outcomes: int -> Outcome, a: Attempts) { a == Attempts([outcomes(-1)], []) }

  /** One gateway priority: a single aggregated send, or its endpoints one by one. */
  datatype GatewayRun = Batch(priority: nat, attempts: Attempts) | OneByOne(priority: nat, trail: Trail)
  {
    /** `from` is the place of the priority's first endpoint in the enumeration. */
    ghost predicate Follows(group: seq<Endpoint>, p: nat, from: nat, bridge: bool, retry: Retry, outcomes: Oracle)
    {
      priority == p && match this
      case Batch(_, a) =>
        && (forall e | e in group :: e.upstream)
        && (if bridge then OneShotOk(outcomes(from), a) else RetryOk(retry, outcomes(from), a))
      case OneByOne(_, trail) =>
        && (exists e | e in group :: !e.upstream)
        && trail.StopsAtSuccess(group) && trail.Answers(retry, outcomes, from)
    }

    predicate Succeeded() { match this case Batch(_, a) => a.Ok() case OneByOne(_, t) => t.Succeeded() }
  }

  /** The place of the first endpoint of the k-th priority. */
  function Place(endpoints: seq<Endpoint>, kind: string, prios: seq<nat>, k: nat): nat
    requires k <= |prios|
  {
    |Enumeration(endpoints, kind, prios[..k])|
  }

  /** Every gateway priority is run, each over its own group and outcomes. */
  ghost predicate GatewaysOk(endpoints: seq<Endpoint>, prios: seq<nat>, bridge: bool, retry: Retry, outcomes: Oracle,
                             runs: seq<GatewayRun>)
  {
    && |runs| == |prios|
    && forall k | 0 <= k < |runs| ::
         runs[k].Follows(Filter(At("gateway", prios[k]), endpoints), prios[k], Place(endpoints, "gateway", prios, k),
                         bridge, retry, outcomes)
  }

  method AllUpstream(group: seq<Endpoint>) returns (yes: bool)
    requires group != []
    ensures yes <==> forall e | e in group :: e.upstream
  {
    for i := 0 to |group|
      invariant forall j | 0 <= j < i :: group[j].upstream
    {
      if !group[i].upstream { assert group[i] in group; return false; }
    }
    yes := true;
  }

  /** The gateway worker. A success ends its own priority group only: the bare `break`
      leaves the switch, so every priority is run, each with at most one success. */
  method DeliverToGateways(endpoints: seq<Endpoint>, groups: map<nat, seq<Endpoint>>, prios: seq<nat>,
                           bridge: bool, retry: Retry, outcomes: Oracle, random: nat -> nat)
    returns (runs: seq<GatewayRun>)
    requires retry.Valid()
    requires forall p | p in prios :: p in groups && groups[p] == Filter(At("gateway", p), endpoints) && groups[p] != []
    ensures GatewaysOk(endpoints, prios, bridge, retry, outcomes, runs)
  {
    hide Filter, At, RetryOk, Enumeration;
    runs := [];
    var from := 0;
    assert prios[..0] == [];
    NoEndpoints(endpoints, "gateway");
    for k := 0 to |prios|
      invariant |runs| == k && from == Place(endpoints, "gateway", prios, k)
      invariant forall j | 0 <= j < k ::
          runs[j].Follows(Filter(At("gateway", prios[j]), endpoints), prios[j], Place(endpoints, "gateway", prios, j),
                          bridge, retry, outcomes)
    {
      var group := groups[prios[k]];
      var run := RunGatewayGroup(group, prios[k], from, bridge, retry, outcomes, random);
      runs := runs + [run];
      EnumerationSplits(endpoints, "gateway", prios, k);
      from := from + |group|;
    }
  }

  method RunGatewayGroup(group: seq<Endpoint>, p: nat, from: nat, bridge: bool, retry: Retry, outcomes: Oracle,
                         random: nat -> nat)
    returns (run: GatewayRun)
    requires retry.Valid() && group != []
    ensures run.Follows(group, p, from, bridge, retry, outcomes)
  {
    var upstream := AllUpstream(group);
    if upstream {
      var a;
      if bridge {
        a := Attempts([outcomes(from)(-1)], []);
      } else {
        var ok;
        ok, a := RetryWithBackoff(retry, outcomes(from), random);
      }
      run := Batch(p, a);
    } else {
      var trail := TryGroup(group, from, retry, outcomes, random);
      run := OneByOne(p, trail);
    }
  }

  /** The oracle alone decides each gateway priority. */
  lemma GatewayVerdict(run: GatewayRun, group: seq<Endpoint>, p: nat, from: nat, bridge: bool, retry: Retry,
                       outcomes: Oracle)
    requires run.Follows(group, p, from, bridge, retry, outcomes)
    ensures run.Succeeded() <==>
            if !run.Batch? then exists i | 0 <= i < |group| :: UnitDeliverable(retry, outcomes, from, i)
            else if bridge then outcomes(from)(-1).Delivered?
            else Deliverable(retry, outcomes(from))
  {
    match run
    case Batch(_, a) => if !bridge { RetryVerdict(retry, outcomes(from), a); }
    case OneByOne(_, trail) => TrailReachesFirst(trail, group, from, retry, outcomes);
  }

  lemma NoEndpoints(endpoints: seq<Endpoint>, kind: string)
    ensures Enumeration(endpoints, kind, []) == []
  {}

  // ------------------------------------------------------- all types of a job

  datatype WorkerRun = Urls(trail: Trail) | Gateways(runs: seq<GatewayRun>) | Skipped

  /** A finished worker: the priorities it enumerated, and what it did. */
  datatype Worker = Worker(kind: string, prios: seq<nat>, run: WorkerRun)

  ghost predicate WorkerOk(endpoints: seq<Endpoint>, portalConfigured: bool, bridge: bool, retry: Retry,
                           outcomes: Oracle, w: Worker)
  {
    && PrioritiesOf(endpoints, w.kind, w.prios)
    && match w.run
       case Urls(trail) =>
         && w.kind in {"webhook", "portal"}
         && UrlsOk(w.kind, Enumeration(endpoints, w.kind, w.prios), portalConfigured, retry, outcomes, trail)
       case Gateways(runs) =>
         w.kind == "gateway" && GatewaysOk(endpoints, w.prios, bridge, retry, outcomes, runs)
       case Skipped => w.kind !in {"webhook", "portal", "gateway"}
  }

  ghost predicate HasKind(endpoints: seq<Endpoint>, kind: string)
  {
    exists e | e in endpoints :: e.kind == kind
  }

  ghost predicate ByPriority(kind: string, endpoints: seq<Endpoint>, byPrio: map<nat, seq<Endpoint>>)
  {
    && (forall p | p in byPrio :: byPrio[p] == Filter(At(kind, p), endpoints) && byPrio[p] != [])
    && (forall p :: p in byPrio <==> Used(endpoints, kind, p))
  }

  method RunWorker(kind: string, endpoints: seq<Endpoint>, groups: Groups, portalConfigured: bool,
                   bridge: bool, retry: Retry, outcomes: Oracle, random: nat -> nat)
    returns (w: Worker)
    requires retry.Valid()
    requires IsGrouping(groups, endpoints) && kind in groups
    ensures WorkerOk(endpoints, portalConfigured, bridge, retry, outcomes, w) && w.kind == kind
  {
    var byPrio := groups[kind];
    GroupByPriority(groups, endpoints, kind);
    var prios := SortPriorities(byPrio);
    var run;
    if kind == "gateway" {
      var runs := DeliverToGateways(endpoints, byPrio, prios, bridge, retry, outcomes, random);
      run := Gateways(runs);
    } else if kind == "webhook" || kind == "portal" {
      var trail := DeliverToUrls(kind, endpoints, byPrio, prios, portalConfigured, retry, outcomes, random);
      run := Urls(trail);
    } else {
      run := Skipped;
    }
    w := Worker(kind, prios, run);
  }

  /** `processFax`'s delivery phase: one independent worker per endpoint type, in any
      order. */
  method DeliverAll(endpoints: seq<Endpoint>, portalConfigured: bool, bridge: bool, retry: Retry,
                    outcomes: string -> Oracle, random: nat -> nat)
    returns (kinds: seq<string>, workers: seq<Worker>)
    requires retry.Valid()
    ensures |kinds| == |workers|
    ensures forall t :: t in kinds <==> HasKind(endpoints, t)
    ensures forall i, j | 0 <= i < j < |kinds| :: kinds[i] != kinds[j]
    ensures forall i | 0 <= i < |workers| ::
              workers[i].kind == kinds[i] && WorkerOk(endpoints, portalConfigured, bridge, retry, outcomes(kinds[i]), workers[i])
  {
    var groups := GroupEndpoints(endpoints);
    kinds, workers := RunWorkers(endpoints, groups, portalConfigured, bridge, retry, outcomes, random);
    GroupKinds(groups, endpoints, kinds);
  }

  method RunWorkers(endpoints: seq<Endpoint>, groups: Groups, portalConfigured: bool, bridge: bool, retry: Retry,
                    outcomes: string -> Oracle, random: nat -> nat)
    returns (kinds: seq<string>, workers: seq<Worker>)
    requires retry.Valid() && IsGrouping(groups, endpoints)
    ensures |kinds| == |workers|
    ensures forall t :: t in kinds <==> t in groups
    ensures forall i, j | 0 <= i < j < |kinds| :: kinds[i] != kinds[j]
    ensures forall i | 0 <= i < |workers| ::
              workers[i].kind == kinds[i] && WorkerOk(endpoints, portalConfigured, bridge, retry, outcomes(kinds[i]), workers[i])
  {
    kinds := KindsOf(groups);
    workers := [];
    for n := 0 to |kinds|
      invariant |workers| == n
      invariant forall i | 0 <= i < n ::
          workers[i].kind == kinds[i] && WorkerOk(endpoints, portalConfigured, bridge, retry, outcomes(kinds[i]), workers[i])
    {
      var w := RunWorker(kinds[n], endpoints, groups, portalConfigured, bridge, retry, outcomes(kinds[n]), random);
      workers := workers + [w];
    }
  }

  /** A worker that succeeds has delivered at the soonest priority that could be delivered
      at: no endpoint of its type with an outcome in its favour has an earlier one. */
  lemma ServesSoonest(endpoints: seq<Endpoint>, portalConfigured: bool, bridge: bool, retry: Retry, outcomes: Oracle,
                      w: Worker, i: nat)
    requires WorkerOk(endpoints, portalConfigured, bridge, retry, outcomes, w)
    requires w.run.Urls? && w.run.trail.Succeeded()
    requires i < |Enumeration(endpoints, w.kind, w.prios)| && UnitDeliverable(retry, outcomes, 0, i)
    ensures var served, other := w.run.trail.tried, Enumeration(endpoints, w.kind, w.prios)[i];
            && served != [] && UnitDeliverable(retry, outcomes, 0, |served| - 1)
            && served[|served| - 1] == Enumeration(endpoints, w.kind, w.prios)[|served| - 1]
            && (other.priority == 999 || (served[|served| - 1].priority != 999 &&
                                          served[|served| - 1].priority <= other.priority))
  {
    hide Enumeration, PrioritiesOf, UnitDeliverable;
    var trail, order := w.run.trail, Enumeration(endpoints, w.kind, w.prios);
    var last := |trail.tried| - 1;
    TrailReachesFirst(trail, order, 0, retry, outcomes);
    if i > last {
      WorkerInOrder(endpoints, w.kind, w.prios);
      EnumerationAscends(endpoints, w.kind, w.prios, last, i);
    }
  }

  lemma WorkerInOrder(endpoints: seq<Endpoint>, kind: string, prios: seq<nat>)
    requires PrioritiesOf(endpoints, kind, prios)
    ensures InOrder(prios)
  {
  }

  /** The gateway worker runs each priority of its type once, in numeric order with 999
      last. */
  lemma GatewaysAscend(endpoints: seq<Endpoint>, portalConfigured: bool, bridge: bool, retry: Retry, outcomes: Oracle,
                       w: Worker)
    requires WorkerOk(endpoints, portalConfigured, bridge, retry, outcomes, w) && w.run.Gateways?
    ensures var runs := w.run.runs;
            && (forall i, j | 0 <= i < j < |runs| ::
                  runs[j].priority == 999 || (runs[i].priority != 999 && runs[i].priority < runs[j].priority))
            && forall e | e in endpoints && e.kind == "gateway" :: exists k | 0 <= k < |runs| :: runs[k].priority == e.priority
  {
    hide Filter, Enumeration, Place, RetryOk;
    var runs := w.run.runs;
    assert forall k | 0 <= k < |runs| :: runs[k].priority == w.prios[k];
    forall e | e in endpoints && e.kind == "gateway" ensures exists k | 0 <= k < |runs| :: runs[k].priority == e.priority {
      assert Used(endpoints, w.kind, e.priority) && e.priority in w.prios;
    }
    assert forall i, j | 0 <= i < j < |w.prios| :: Sooner(w.prios[i], w.prios[j]);
  }

  lemma GroupKinds(groups: Groups, endpoints: seq<Endpoint>, kinds: seq<string>)
    requires IsGrouping(groups, endpoints)
    requires forall t :: t in kinds <==> t in groups
    ensures forall t :: t in kinds <==> HasKind(endpoints, t)
  {
    forall t ensures t in kinds <==> HasKind(endpoints, t) { GroupHasKind(groups, endpoints, t); }
  }

  method KindsOf(groups: Groups) returns (kinds: seq<string>)
    ensures forall t :: t in kinds <==> t in groups
    ensures forall i, j | 0 <= i < j < |kinds| :: kinds[i] != kinds[j]
  {
    kinds := [];
    var todo := groups.Keys;
    while todo != {}
      invariant todo <= groups.Keys
      invariant forall t :: t in kinds <==> t in groups && t !in todo
      invariant forall i, j | 0 <= i < j < |kinds| :: kinds[i] != kinds[j]
      decreases |todo|
    {
      var kind :| kind in todo;
      kinds := kinds + [kind];
      todo := todo - {kind};
    }
  }

  lemma GroupHasKind(groups: Groups, endpoints: seq<Endpoint>, t: string)
    requires IsGrouping(groups, endpoints)
    ensures t in groups <==> HasKind(endpoints, t)
  {
    if t in groups {
      var p :| p in groups[t];
      var e := groups[t][p][0];
      assert e in groups[t][p];
      FilterMember(At(t, p), endpoints, e);
    }
  }

  lemma GroupByPriority(groups: Groups, endpoints: seq<Endpoint>, t: string)
    requires IsGrouping(groups, endpoints) && t in groups
    ensures ByPriority(t, endpoints, groups[t])
  {
    var byPrio := groups[t];
    forall p ensures p in byPrio <==> Used(endpoints, t, p) {
      if p in byPrio {
        var e := byPrio[p][0];
        assert e in byPrio[p];
        FilterMember(At(t, p), endpoints, e);
      }
    }
  }
}
