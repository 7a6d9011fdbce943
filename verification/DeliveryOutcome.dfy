/** From the delivery phase of an outbound job (gofaxserver/queue.go) to the outcome pushed
    for it (gofaxserver/notify.go) and the status the portal gives it
    (portal/internal/api/handlers_notify.go). */
module DeliveryOutcome {
  import opened Seqs
  import opened PortalPayload
  import opened PortalJobs
  import S = Scheduler

  // ------------------------------------------------ what the workers tried

  function TriesOf(attempts: seq<S.Attempts>): seq<S.Outcome>
  {
    if attempts == [] then [] else TriesOf(attempts[..|attempts| - 1]) + attempts[|attempts| - 1].tries
  }

  function RunTries(run: S.GatewayRun): seq<S.Outcome>
  {
    match run
    case Batch(_, a) => a.tries
    case OneByOne(_, trail) => TriesOf(trail.attempts)
  }

  function RunsTries(runs: seq<S.GatewayRun>): seq<S.Outcome>
  {
    if runs == [] then [] else RunsTries(runs[..|runs| - 1]) + RunTries(runs[|runs| - 1])
  }

  function WorkerTries(w: S.Worker): seq<S.Outcome>
  {
    match w.run
    case Urls(trail) => TriesOf(trail.attempts)
    case Gateways(runs) => RunsTries(runs)
    case Skipped => []
  }

  /** Every attempt of every worker of the job. */
  function AllTries(workers: seq<S.Worker>): seq<S.Outcome>
  {
    if workers == [] then [] else AllTries(workers[..|workers| - 1]) + WorkerTries(workers[|workers| - 1])
  }

  function Verdicts(sends: seq<Sent>): (r: seq<bool>)
    ensures |r| == |sends| && forall i | 0 <= i < |r| :: r[i] == Succeeded(sends[i].leg)
  {
    seq(|sends|, i requires 0 <= i < |sends| => Succeeded(sends[i].leg))
  }

  function Flags(tries: seq<S.Outcome>): (r: seq<bool>)
    ensures |r| == |tries| && forall i | 0 <= i < |r| :: r[i] == tries[i].Delivered?
  {
    seq(|tries|, i requires 0 <= i < |tries| => tries[i].Delivered?)
  }

  /** The workers report each attempt once, as a success exactly when it delivered; their
      reports interleave in any order. */
  ghost predicate Reports(sends: seq<Sent>, workers: seq<S.Worker>)
  {
    multiset(Verdicts(sends)) == multiset(Flags(AllTries(workers)))
  }

  // ------------------------------------- deliveries, from the oracle upward

  /** What the oracle grants one gateway priority. */
  ghost predicate GroupGranted(group: seq<S.Endpoint>, from: nat, bridge: bool, retry: S.Retry, outcomes: S.Oracle)
  {
    if exists e | e in group :: !e.upstream then
      exists i | 0 <= i < |group| :: S.UnitDeliverable(retry, outcomes, from, i)
    else if bridge then outcomes(from)(-1).Delivered?
    else S.Deliverable(retry, outcomes(from))
  }

  ghost predicate PriorityGranted(endpoints: seq<S.Endpoint>, prios: seq<nat>, k: nat, bridge: bool, retry: S.Retry,
                                  outcomes: S.Oracle)
    requires k < |prios|
  {
    GroupGranted(Filter(S.At("gateway", prios[k]), endpoints), S.Place(endpoints, "gateway", prios, k), bridge, retry,
                 outcomes)
  }

  /** What the oracle grants the endpoints of one type, enumerated by `prios`. */
  ghost predicate Granted(endpoints: seq<S.Endpoint>, kind: string, prios: seq<nat>, portalConfigured: bool,
                          bridge: bool, retry: S.Retry, outcomes: S.Oracle)
  {
    if kind == "gateway" then
      exists k | 0 <= k < |prios| :: PriorityGranted(endpoints, prios, k, bridge, retry, outcomes)
    else
      && (kind == "webhook" || (kind == "portal" && portalConfigured))
      && exists i | 0 <= i < |S.Enumeration(endpoints, kind, prios)| :: S.UnitDeliverable(retry, outcomes, 0, i)
  }

  lemma {:induction false} TriesMember(attempts: seq<S.Attempts>)
    ensures S.Delivered in TriesOf(attempts) <==> exists i | 0 <= i < |attempts| :: S.Delivered in attempts[i].tries
  {
    if attempts != [] {
      var before := attempts[..|attempts| - 1];
      TriesMember(before);
      assert forall i | 0 <= i < |before| :: before[i] == attempts[i];
    }
  }

  lemma {:induction false} RunsMember(runs: seq<S.GatewayRun>)
    ensures S.Delivered in RunsTries(runs) <==> exists k | 0 <= k < |runs| :: S.Delivered in RunTries(runs[k])
  {
    hide RunTries;
    if runs != [] {
      var before := runs[..|runs| - 1];
      RunsMember(before);
      assert forall k | 0 <= k < |before| :: before[k] == runs[k];
    }
  }

  lemma {:induction false} AllMember(workers: seq<S.Worker>)
    ensures S.Delivered in AllTries(workers) <==> exists n | 0 <= n < |workers| :: S.Delivered in WorkerTries(workers[n])
  {
    hide WorkerTries;
    if workers != [] {
      var before := workers[..|workers| - 1];
      AllMember(before);
      assert forall n | 0 <= n < |before| :: before[n] == workers[n];
    }
  }

  /** A retry loop delivers with its last attempt or not at all. */
  lemma LoopDelivers(retry: S.Retry, outcomes: int -> S.Outcome, a: S.Attempts)
    requires S.RetryOk(retry, outcomes, a)
    ensures S.Delivered in a.tries <==> a.Ok()
  {
    assert forall i | 0 <= i < |a.tries| - 1 :: a.tries[i] != S.Delivered;
    assert a.tries[|a.tries| - 1] in a.tries;
  }

  lemma TrailDelivers(trail: S.Trail, order: seq<S.Endpoint>, from: nat, retry: S.Retry, outcomes: S.Oracle)
    requires trail.StopsAtSuccess(order) && trail.Answers(retry, outcomes, from)
    ensures S.Delivered in TriesOf(trail.attempts) <==>
            exists i | 0 <= i < |order| :: S.UnitDeliverable(retry, outcomes, from, i)
  {
    hide S.RetryOk, S.UnitDeliverable;
    S.TrailReachesFirst(trail, order, from, retry, outcomes);
    TriesMember(trail.attempts);
    forall i | 0 <= i < |trail.attempts|
      ensures S.Delivered in trail.attempts[i].tries <==> trail.attempts[i].Ok()
    {
      assert S.RetryOk(retry, outcomes(from + i), trail.attempts[i]);
      LoopDelivers(retry, outcomes(from + i), trail.attempts[i]);
    }
  }

  lemma RunDelivers(run: S.GatewayRun, group: seq<S.Endpoint>, p: nat, from: nat, bridge: bool, retry: S.Retry,
                    outcomes: S.Oracle)
    requires run.Follows(group, p, from, bridge, retry, outcomes)
    ensures S.Delivered in RunTries(run) <==> GroupGranted(group, from, bridge, retry, outcomes)
  {
    hide S.RetryOk, S.UnitDeliverable, S.Deliverable;
    match run
    case Batch(_, a) =>
      if !bridge {
        LoopDelivers(retry, outcomes(from), a);
        S.RetryVerdict(retry, outcomes(from), a);
      }
    case OneByOne(_, trail) =>
      TrailDelivers(trail, group, from, retry, outcomes);
  }

  /** A worker delivers exactly when the oracle grants its type a delivery. */
  lemma WorkerDelivers(endpoints: seq<S.Endpoint>, portalConfigured: bool, bridge: bool, retry: S.Retry,
                       outcomes: S.Oracle, w: S.Worker)
    requires S.WorkerOk(endpoints, portalConfigured, bridge, retry, outcomes, w)
    ensures S.Delivered in WorkerTries(w) <==>
            Granted(endpoints, w.kind, w.prios, portalConfigured, bridge, retry, outcomes)
  {
    hide Filter, S.Enumeration, S.PrioritiesOf, S.RetryOk, S.UnitDeliverable, S.Deliverable, GroupGranted, RunTries;
    match w.run
    case Urls(trail) =>
      if w.kind == "portal" && !portalConfigured {
        TriesMember(trail.attempts);
      } else {
        TrailDelivers(trail, S.Enumeration(endpoints, w.kind, w.prios), 0, retry, outcomes);
      }
    case Gateways(runs) =>
      RunsMember(runs);
      forall k | 0 <= k < |runs|
        ensures S.Delivered in RunTries(runs[k]) <==> PriorityGranted(endpoints, w.prios, k, bridge, retry, outcomes)
      {
        RunDelivers(runs[k], Filter(S.At("gateway", w.prios[k]), endpoints), w.prios[k],
                    S.Place(endpoints, "gateway", w.prios, k), bridge, retry, outcomes);
      }
    case Skipped =>
  }

  lemma ReportedSuccess(sends: seq<Sent>, workers: seq<S.Worker>)
    requires Reports(sends, workers)
    ensures (exists s | s in sends :: Succeeded(s.leg)) <==> S.Delivered in AllTries(workers)
  {
    hide AllTries;
    var verdicts, flags := Verdicts(sends), Flags(AllTries(workers));
    MultisetMember(verdicts, flags, true);
    if s :| s in sends && Succeeded(s.leg) {
      var i :| 0 <= i < |sends| && sends[i] == s;
      assert verdicts[i] in verdicts;
    }
    if true in verdicts {
      var i :| 0 <= i < |verdicts| && verdicts[i];
      assert sends[i] in sends;
    }
    if S.Delivered in AllTries(workers) {
      var i :| 0 <= i < |AllTries(workers)| && AllTries(workers)[i] == S.Delivered;
      assert flags[i] in flags;
    }
  }

  /** What `DeliverAll` guarantees of a job's workers. */
  ghost predicate Delivered(endpoints: seq<S.Endpoint>, portalConfigured: bool, bridge: bool, retry: S.Retry,
                            outcomes: string -> S.Oracle, workers: seq<S.Worker>)
  {
    forall n | 0 <= n < |workers| ::
      S.WorkerOk(endpoints, portalConfigured, bridge, retry, outcomes(workers[n].kind), workers[n])
  }

  ghost predicate SomeGranted(endpoints: seq<S.Endpoint>, portalConfigured: bool, bridge: bool, retry: S.Retry,
                              outcomes: string -> S.Oracle, workers: seq<S.Worker>)
  {
    exists n | 0 <= n < |workers| ::
      Granted(endpoints, workers[n].kind, workers[n].prios, portalConfigured, bridge, retry, outcomes(workers[n].kind))
  }

  /** End to end: whatever the workers' reports interleave to and whatever order the results
      are visited in, the outcome pushed for an outbound job says success exactly when the
      attempts' outcomes grant one of its endpoint types a delivery, and all-failed
      otherwise. */
  lemma DeliveryDecidesPayload(endpoints: seq<S.Endpoint>, portalConfigured: bool, bridge: bool, retry: S.Retry,
                               outcomes: string -> S.Oracle, workers: seq<S.Worker>,
                               f: Job, sends: seq<Sent>, chosen: Option<Leg>, p: Payload)
    requires Delivered(endpoints, portalConfigured, bridge, retry, outcomes, workers)
    requires FromWorkers(sends) && OwnSuccesses(sends) && Reports(sends, workers) && !HasCallOutcome(f)
    requires Describes(Collected(f, sends), chosen) && TellsOf(p, chosen)
    requires p.allFailed == AllAttemptsFailed(f, Collected(f, sends))
    ensures p.success <==> SomeGranted(endpoints, portalConfigured, bridge, retry, outcomes, workers)
    ensures p.allFailed <==> !p.success
  {
    hide S.WorkerOk, Granted, WorkerTries, AllTries, Reports, Collected, Describes;
    VerdictsAgreeIff(f, sends, chosen, p);
    SuccessesSurvive(f, sends);
    ReportedSuccess(sends, workers);
    AllMember(workers);
    forall n | 0 <= n < |workers|
      ensures S.Delivered in WorkerTries(workers[n]) <==>
              Granted(endpoints, workers[n].kind, workers[n].prios, portalConfigured, bridge, retry,
                      outcomes(workers[n].kind))
    {
      WorkerDelivers(endpoints, portalConfigured, bridge, retry, outcomes(workers[n].kind), workers[n]);
    }
  }

  /** ... and so does the status of the portal's job, which the push always ends. */
  lemma DeliveryDecidesStatus(endpoints: seq<S.Endpoint>, portalConfigured: bool, bridge: bool, retry: S.Retry,
                              outcomes: string -> S.Oracle, workers: seq<S.Worker>,
                              f: Job, sends: seq<Sent>, chosen: Option<Leg>, p: Payload, j: JobRow, now: Time)
    requires Delivered(endpoints, portalConfigured, bridge, retry, outcomes, workers)
    requires FromWorkers(sends) && OwnSuccesses(sends) && Reports(sends, workers) && !HasCallOutcome(f)
    requires Describes(Collected(f, sends), chosen) && TellsOf(p, chosen)
    requires p.allFailed == AllAttemptsFailed(f, Collected(f, sends))
    requires !Terminal(j.status)
    ensures Pushed(j, p, now).status ==
            if SomeGranted(endpoints, portalConfigured, bridge, retry, outcomes, workers) then Success else Failed
  {
    hide Delivered, SomeGranted, Reports, Collected, Describes;
    DeliveryDecidesPayload(endpoints, portalConfigured, bridge, retry, outcomes, workers, f, sends, chosen, p);
  }
}
