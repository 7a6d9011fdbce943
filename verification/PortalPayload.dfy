/** Reduction of the legs of one fax job to the outcome pushed to the portal
    (gofaxserver/queue.go, gofaxserver/notify.go). */
module PortalPayload {
  import opened Seqs

  type Uuid = nat
  const NIL: Uuid := 0
  type Time = int
  /** Go's zero time, earlier than every recorded one. */
  const ZERO_TIME: Time := 0

  datatype Result = Result(success: bool, transferred: nat, total: nat, resultText: string, hangupCause: string,
                           start: Time, end: Time)

  /** One stored leg: the type of its first endpoint, and its result. */
  datatype Leg = Leg(kind: Option<string>, result: Option<Result>)

  datatype Job = Job(uuid: Uuid, call: Uuid, isBridge: bool, sourceType: string, result: Option<Result>)

  /** A leg reported by a delivery worker under a call identifier. */
  datatype Sent = Sent(call: Uuid, leg: Leg)

  const PLACEHOLDER := "WEBHOOK"

  // ---------------------------------------------- the legs a job collects

  /** The job carries a real call outcome, not the marker set when it was enqueued. */
  predicate HasCallOutcome(f: Job)
  {
    f.result.Some? && f.result.value.hangupCause != PLACEHOLDER
  }

  predicate Reception(f: Job) { !f.isBridge && f.sourceType == "gateway" }

  function CallKey(f: Job): Uuid { if f.call == NIL then f.uuid else f.call }

  function CallLeg(f: Job): Leg
  {
    Leg(Some(if f.isBridge then "bridge" else "reception"), f.result)
  }

  /** The call outcome is stored first, then every report, in whatever order the workers
      make them; a report under a used identifier replaces the leg there. */
  function Collected(f: Job, sends: seq<Sent>): (results: map<Uuid, Leg>)
  {
    if sends == [] then if HasCallOutcome(f) then map[CallKey(f) := CallLeg(f)] else map[]
    else
      var s := sends[|sends| - 1];
      Collected(f, sends[..|sends| - 1])[s.call := s.leg]
  }

  /** Before any report the call outcome is all there is: not for a job that was only
      enqueued, and under the job's own identifier when the call has none. */
  lemma CallComesFirst(f: Job)
    ensures Collected(f, []) ==
            if f.result.None? || f.result.value.hangupCause == "WEBHOOK" then map[]
            else
              var leg := Leg(Some(if f.isBridge then "bridge" else "reception"), f.result);
              if f.call != 0 then map[f.call := leg] else map[f.uuid := leg]
  {
  }

  predicate IsCall(l: Leg)
  {
    l.result.Some? && (l.kind == Some("reception") || l.kind == Some("bridge"))
  }

  predicate Succeeded(l: Leg) { l.result.Some? && l.result.value.success }

  /** Workers report legs of real endpoints, never of the two labels kept for calls. */
  ghost predicate FromWorkers(sends: seq<Sent>)
  {
    forall s | s in sends :: s.leg.result.Some? && !IsCall(s.leg)
  }

  ghost predicate Has(results: map<Uuid, Leg>, p: Leg -> bool)
  {
    exists k | k in results :: p(results[k])
  }

  /** No worker reported under the identifier of the job's own call. */
  ghost predicate CallLegKept(f: Job, sends: seq<Sent>)
  {
    forall s | s in sends :: s.call != CallKey(f)
  }

  // ------------------------------------------------------- the two verdicts

  /** The flag computed by the queue. */
  ghost predicate AllAttemptsFailed(f: Job, results: map<Uuid, Leg>)
  {
    if HasCallOutcome(f) && Reception(f) then !f.result.value.success else !Has(results, Succeeded)
  }

  /** Whose word counts: a fax received from a gateway speaks for itself, and for any other
      job one successful leg suffices. */
  lemma AllFailedIff(f: Job, results: map<Uuid, Leg>)
    ensures AllAttemptsFailed(f, results) <==>
              if !f.isBridge && f.sourceType == "gateway" && f.result.Some? && f.result.value.hangupCause != "WEBHOOK"
              then !f.result.value.success
              else forall k | k in results && results[k].result.Some? :: !results[k].result.value.success
  {
    if !HasCallOutcome(f) || !Reception(f) {
      assert Has(results, Succeeded) <==> exists k | k in results :: Succeeded(results[k]);
    }
  }

  method ComputeAllAttemptsFailed(f: Job, results: map<Uuid, Leg>) returns (r: bool)
    ensures r == AllAttemptsFailed(f, results)
  {
    if f.result.Some? && !f.isBridge && f.sourceType == "gateway" && f.result.value.hangupCause != PLACEHOLDER {
      return !f.result.value.success;
    }
    var left := results.Keys;
    while left != {}
      invariant left <= results.Keys
      invariant forall k | k in results && k !in left :: !Succeeded(results[k])
      decreases |left|
    {
      var k :| k in left;
      if results[k].result.Some? && results[k].result.value.success {
        assert Succeeded(results[k]);
        return false;
      }
      left := left - {k};
    }
    return true;
  }

  /** The leg that may describe the job: a call leg before a success before the latest. */
  ghost predicate Describes(results: map<Uuid, Leg>, chosen: Option<Leg>)
  {
    match chosen
    case None => forall k | k in results :: results[k].result.None?
    case Some(l) =>
      && l.result.Some?
      && Has(results, x => x == l)
      && (Has(results, IsCall) ==> IsCall(l))
      && (!Has(results, IsCall) && Has(results, Succeeded) ==> Succeeded(l))
      && (!Has(results, IsCall) && !Has(results, Succeeded) ==>
            forall k | k in results && results[k].result.Some? :: results[k].result.value.end <= l.result.value.end)
  }

  datatype Payload = Payload(success: bool, allFailed: bool, attempts: nat, transferred: nat, total: nat,
                             resultText: string, hangupCause: string, start: Time, end: Time)

  /** The payload's fields about the outcome are those of the chosen leg. */
  predicate TellsOf(p: Payload, chosen: Option<Leg>)
  {
    match chosen
    case Some(Leg(_, Some(r))) =>
      && p.success == r.success && p.resultText == r.resultText && p.hangupCause == r.hangupCause
      && p.start == r.start && p.end == r.end
    case _ => !p.success && p.resultText == "" && p.hangupCause == "" && p.start == ZERO_TIME && p.end == ZERO_TIME
  }

  predicate AtMost(l: Leg, transferred: nat, total: nat)
  {
    l.result.Some? ==> l.result.value.transferred <= transferred && l.result.value.total <= total
  }

  /** The least bounds on the page counts of the legs of `keys`. */
  ghost predicate MostPages(results: map<Uuid, Leg>, keys: set<Uuid>, transferred: nat, total: nat)
    requires keys <= results.Keys
  {
    && (forall k | k in keys :: AtMost(results[k], transferred, total))
    && (transferred == 0 || exists k | k in keys ::
          results[k].result.Some? && results[k].result.value.transferred == transferred)
    && (total == 0 || exists k | k in keys :: results[k].result.Some? && results[k].result.value.total == total)
  }

  /** The running choice `c` is the leg of `keys` satisfying `p`, if there is one. */
  ghost predicate Holds(results: map<Uuid, Leg>, keys: set<Uuid>, p: Leg -> bool, c: Option<Leg>)
    requires keys <= results.Keys
  {
    match c
    case None => forall k | k in keys :: !p(results[k])
    case Some(l) => p(l) && exists k | k in keys :: results[k] == l
  }

  predicate Finished(l: Leg) { l.result.Some? }

  /** Every finished leg of `keys` ends no later than the running choice. */
  ghost predicate Latest(results: map<Uuid, Leg>, keys: set<Uuid>, c: Option<Leg>)
    requires keys <= results.Keys
  {
    c.Some? ==>
      && c.value.result.Some?
      && forall k | k in keys && results[k].result.Some? :: results[k].result.value.end <= c.value.result.value.end
  }

  /** What the loop of the payload builder has seen so far. */
  datatype Choices = Choices(call: Option<Leg>, success: Option<Leg>, last: Option<Leg>, transferred: nat, total: nat)

  function Visit(c: Choices, l: Leg): Choices
    requires c.last.Some? ==> c.last.value.result.Some?
  {
    if l.result.None? then c
    else
      var r := l.result.value;
      Choices(
        if c.call.None? && IsCall(l) then Some(l) else c.call,
        if c.success.None? && r.success then Some(l) else c.success,
        if c.last.None? || r.end > c.last.value.result.value.end then Some(l) else c.last,
        if r.transferred > c.transferred then r.transferred else c.transferred,
        if r.total > c.total then r.total else c.total)
  }

  ghost predicate Summarizes(results: map<Uuid, Leg>, keys: set<Uuid>, c: Choices)
    requires keys <= results.Keys
  {
    && MostPages(results, keys, c.transferred, c.total)
    && Holds(results, keys, IsCall, c.call)
    && Holds(results, keys, Succeeded, c.success)
    && Holds(results, keys, Finished, c.last) && Latest(results, keys, c.last)
  }

  lemma VisitHolds(results: map<Uuid, Leg>, keys: set<Uuid>, k: Uuid, p: Leg -> bool, c: Option<Leg>)
    requires keys <= results.Keys && k in results && Holds(results, keys, p, c)
    ensures Holds(results, keys + {k}, p, if c.None? && p(results[k]) then Some(results[k]) else c)
    ensures p(results[k]) ==> Holds(results, keys + {k}, p, Some(results[k]))
  {
    assert k in keys + {k};
    if c.Some? {
      var j :| j in keys && results[j] == c.value;
      assert j in keys + {k};
    }
  }

  lemma VisitPages(results: map<Uuid, Leg>, keys: set<Uuid>, k: Uuid, c: Choices)
    requires keys <= results.Keys && k in results && Summarizes(results, keys, c)
    ensures MostPages(results, keys + {k}, Visit(c, results[k]).transferred, Visit(c, results[k]).total)
  {
    var next := keys + {k};
    assert k in next;
    if j :| j in keys && results[j].result.Some? && results[j].result.value.transferred == c.transferred {
      assert j in next;
    }
    if j :| j in keys && results[j].result.Some? && results[j].result.value.total == c.total {
      assert j in next;
    }
  }

  lemma VisitSummarizes(results: map<Uuid, Leg>, keys: set<Uuid>, k: Uuid, c: Choices)
    requires keys <= results.Keys && k in results && Summarizes(results, keys, c)
    ensures Summarizes(results, keys + {k}, Visit(c, results[k]))
  {
    VisitPages(results, keys, k, c);
    VisitHolds(results, keys, k, IsCall, c.call);
    VisitHolds(results, keys, k, Succeeded, c.success);
    VisitHolds(results, keys, k, Finished, c.last);
  }

  lemma SummaryFacts(results: map<Uuid, Leg>, keys: set<Uuid>, c: Choices)
    requires keys <= results.Keys
    ensures Summarizes(results, {}, Choices(None, None, None, 0, 0))
    ensures Summarizes(results, keys, c) ==>
              (c.last.Some? ==> c.last.value.result.Some?) && MostPages(results, keys, c.transferred, c.total)
  {}

  lemma ChosenDescribes(results: map<Uuid, Leg>, c: Choices)
    requires Summarizes(results, results.Keys, c)
    ensures Describes(results, if c.call.Some? then c.call else if c.success.Some? then c.success else c.last)
  {
    var chosen := if c.call.Some? then c.call else if c.success.Some? then c.success else c.last;
    if chosen.Some? {
      var k :| k in results.Keys && results[k] == chosen.value;
      assert Has(results, x => x == chosen.value) by { assert (x => x == chosen.value)(results[k]); }
    }
  }

  /** The map is visited in an arbitrary order, updating the running choices. */
  method Reduce(results: map<Uuid, Leg>) returns (chosen: Option<Leg>, transferred: nat, total: nat)
    ensures Describes(results, chosen) && MostPages(results, results.Keys, transferred, total)
  {
    hide Summarizes, MostPages, Describes;
    var callJob: Option<Leg>, successJob: Option<Leg>, lastJob: Option<Leg> := None, None, None;
    transferred, total := 0, 0;
    var left := results.Keys;
    ghost var c := Choices(None, None, None, 0, 0);
    SummaryFacts(results, {}, c);
    assert results.Keys - left == {};
    while left != {}
      invariant left <= results.Keys && Summarizes(results, results.Keys - left, c)
      invariant c == Choices(callJob, successJob, lastJob, transferred, total)
      decreases |left|
    {
      var k :| k in left;
      var job := results[k];
      SummaryFacts(results, results.Keys - left, c);
      VisitSummarizes(results, results.Keys - left, k, c);
      assert results.Keys - left + {k} == results.Keys - (left - {k});
      left := left - {k};
      c := Visit(c, job);
      if job.result.None? {
        continue;
      }
      var r := job.result.value;
      if r.transferred > transferred {
        transferred := r.transferred;
      }
      if r.total > total {
        total := r.total;
      }
      if callJob.None? && (job.kind == Some("reception") || job.kind == Some("bridge")) {
        callJob := Some(job);
      }
      if r.success && successJob.None? {
        successJob := Some(job);
      }
      if lastJob.None? || r.end > lastJob.value.result.value.end {
        lastJob := Some(job);
      }
    }
    assert results.Keys - left == results.Keys;
    SummaryFacts(results, results.Keys, c);
    ChosenDescribes(results, c);
    chosen := lastJob;
    if successJob.Some? {
      chosen := successJob;
    }
    if callJob.Some? {
      chosen := callJob;
    }
  }

  method BuildPortalStatusPayload(results: map<Uuid, Leg>, allFailed: bool) returns (p: Payload)
    ensures p.allFailed == allFailed && p.attempts == |results|
    ensures MostPages(results, results.Keys, p.transferred, p.total)
    ensures exists chosen :: Describes(results, chosen) && TellsOf(p, chosen)
  {
    var chosen, transferred, total := Reduce(results);
    p := Payload(false, allFailed, |results|, transferred, total, "", "", ZERO_TIME, ZERO_TIME);
    if chosen.Some? {
      var r := chosen.value.result.value;
      p := p.(success := r.success, resultText := r.resultText, hangupCause := r.hangupCause,
              start := r.start, end := r.end);
    }
    assert Describes(results, chosen) && TellsOf(p, chosen);
  }

  // ------------------------------------------- the verdicts against each other

  lemma {:induction false} CollectedLegs(f: Job, sends: seq<Sent>)
    requires FromWorkers(sends)
    ensures forall k | k in Collected(f, sends) :: IsCall(Collected(f, sends)[k]) ==>
              HasCallOutcome(f) && k == CallKey(f) && Collected(f, sends)[k] == CallLeg(f)
    ensures HasCallOutcome(f) && CallLegKept(f, sends) ==>
              CallKey(f) in Collected(f, sends) && Collected(f, sends)[CallKey(f)] == CallLeg(f)
    ensures !CallLegKept(f, sends) ==>
              CallKey(f) in Collected(f, sends) && !IsCall(Collected(f, sends)[CallKey(f)])
  {
    if sends != [] {
      var before, s := sends[..|sends| - 1], sends[|sends| - 1];
      assert s in sends;
      CollectedLegs(f, before);
      assert CallLegKept(f, sends) <==> CallLegKept(f, before) && s.call != CallKey(f);
    }
  }

  /** The last report under a call identifier. */
  function LegUnder(sends: seq<Sent>, k: Uuid): Option<Leg>
  {
    if sends == [] then None
    else if sends[|sends| - 1].call == k then Some(sends[|sends| - 1].leg)
    else LegUnder(sends[..|sends| - 1], k)
  }

  /** A reported success that no later report under its identifier replaced. */
  ghost predicate StandingSuccess(sends: seq<Sent>)
  {
    exists k :: LegUnder(sends, k).Some? && Succeeded(LegUnder(sends, k).value)
  }

  /** Which leg is stored in the end, read off the reports. */
  lemma {:induction false} StoredLeg(f: Job, sends: seq<Sent>, k: Uuid)
    ensures k in Collected(f, sends) <==> LegUnder(sends, k).Some? || (HasCallOutcome(f) && k == CallKey(f))
    ensures k in Collected(f, sends) ==>
              Collected(f, sends)[k] == if LegUnder(sends, k).Some? then LegUnder(sends, k).value else CallLeg(f)
    ensures LegUnder(sends, k).Some? <==> exists s | s in sends :: s.call == k
  {
    if sends != [] {
      StoredLeg(f, sends[..|sends| - 1], k);
      assert sends == sends[..|sends| - 1] + [sends[|sends| - 1]];
    }
  }

  lemma StoredSuccesses(f: Job, sends: seq<Sent>)
    ensures Has(Collected(f, sends), Succeeded) <==>
              || StandingSuccess(sends)
              || (HasCallOutcome(f) && CallLegKept(f, sends) && f.result.value.success)
  {
    hide Collected, LegUnder;
    var results := Collected(f, sends);
    forall k
      ensures k in results && Succeeded(results[k]) <==>
                || (LegUnder(sends, k).Some? && Succeeded(LegUnder(sends, k).value))
                || (LegUnder(sends, k).None? && HasCallOutcome(f) && k == CallKey(f) && f.result.value.success)
    {
      StoredLeg(f, sends, k);
    }
    StoredLeg(f, sends, CallKey(f));
  }

  /** For any job, any reports in any order and any visiting order of the results, the
      pushed success is the negation of the pushed all-failed flag exactly when: the job has
      no call outcome of its own (outbound); or its call leg survived, and it is a reception,
      or its call succeeded, or no report did; or its call leg was replaced, and it is no
      reception, or the call fared as the reports. */
  lemma VerdictsAgreeIff(f: Job, sends: seq<Sent>, chosen: Option<Leg>, p: Payload)
    requires FromWorkers(sends)
    requires Describes(Collected(f, sends), chosen) && TellsOf(p, chosen)
    requires p.allFailed == AllAttemptsFailed(f, Collected(f, sends))
    ensures p.success == !p.allFailed <==>
            || !HasCallOutcome(f)
            || (if CallLegKept(f, sends) then Reception(f) || f.result.value.success || !StandingSuccess(sends)
                else !Reception(f) || f.result.value.success == StandingSuccess(sends))
  {
    hide StandingSuccess;
    CollectedLegs(f, sends);
    StoredSuccesses(f, sends);
    var results := Collected(f, sends);
    assert p.success == if Has(results, IsCall) then f.result.value.success else Has(results, Succeeded) by {
      SuccessOfChosen(results, chosen);
    }
    if HasCallOutcome(f) && CallLegKept(f, sends) {
      assert IsCall(results[CallKey(f)]);
    }
  }

  lemma SuccessOfChosen(results: map<Uuid, Leg>, chosen: Option<Leg>)
    requires Describes(results, chosen)
    ensures chosen.None? ==> !Has(results, IsCall) && !Has(results, Succeeded)
    ensures chosen.Some? && !Has(results, IsCall) ==> (Succeeded(chosen.value) <==> Has(results, Succeeded))
    ensures chosen.Some? && Has(results, IsCall) ==> IsCall(chosen.value)
  {
    if chosen.Some? {
      var k :| k in results && results[k] == chosen.value;
      assert Succeeded(chosen.value) ==> Has(results, Succeeded);
    }
  }

  /** Where the verdicts disagree: a successful reception whose webhook payload could not be
      prepared. The failure is reported under the reception's own call identifier, so
      neither verdict is set. */
  lemma ReplacedCallLeg(f: Job, sends: seq<Sent>, chosen: Option<Leg>, p: Payload)
    requires f == Job(7, 7, false, "gateway", Some(Result(true, 2, 2, "OK", "NORMAL_CLEARING", 10, 20)))
    requires sends == [Sent(7, Leg(Some("webhook"), Some(Result(false, 0, 0, "", "", 30, 31))))]
    requires Describes(Collected(f, sends), chosen) && TellsOf(p, chosen)
    requires p.allFailed == AllAttemptsFailed(f, Collected(f, sends))
    ensures !p.success && !p.allFailed
  {
    assert Collected(f, sends[..0]) == map[7 := CallLeg(f)];
    assert Collected(f, sends) == map[7 := sends[0].leg];
    SuccessOfChosen(Collected(f, sends), chosen);
  }

  /** Reports of successes each have a call identifier of their own. */
  ghost predicate OwnSuccesses(sends: seq<Sent>)
  {
    forall i, j | 0 <= i < j < |sends| && sends[i].call == sends[j].call :: !Succeeded(sends[i].leg)
  }

  /** Then no success is lost from the results, whatever failures replace each other. */
  lemma {:induction false} SuccessesSurvive(f: Job, sends: seq<Sent>)
    requires !HasCallOutcome(f) && OwnSuccesses(sends)
    ensures Has(Collected(f, sends), Succeeded) <==> exists s | s in sends :: Succeeded(s.leg)
    ensures forall k | k in Collected(f, sends) ::
              exists i | 0 <= i < |sends| :: sends[i].call == k && sends[i].leg == Collected(f, sends)[k]
    ensures forall i | 0 <= i < |sends| && Succeeded(sends[i].leg) ::
              sends[i].call in Collected(f, sends) && Collected(f, sends)[sends[i].call] == sends[i].leg
  {
    if sends != [] {
      var n := |sends| - 1;
      var before, results := sends[..n], Collected(f, sends);
      SuccessesSurvive(f, before);
      forall k | k in results ensures exists i | 0 <= i < |sends| :: sends[i].call == k && sends[i].leg == results[k] {
        if k != sends[n].call {
          var i :| 0 <= i < n && before[i].call == k && before[i].leg == results[k];
          assert sends[i] == before[i];
        }
      }
      forall i | 0 <= i < |sends| && Succeeded(sends[i].leg)
        ensures sends[i].call in results && results[sends[i].call] == sends[i].leg
      {
        if i < n { assert before[i] == sends[i]; }
      }
    }
    SuccessIsReported(f, sends);
  }

  lemma SuccessIsReported(f: Job, sends: seq<Sent>)
    requires forall k | k in Collected(f, sends) ::
               exists i | 0 <= i < |sends| :: sends[i].call == k && sends[i].leg == Collected(f, sends)[k]
    requires forall i | 0 <= i < |sends| && Succeeded(sends[i].leg) ::
               sends[i].call in Collected(f, sends) && Collected(f, sends)[sends[i].call] == sends[i].leg
    ensures Has(Collected(f, sends), Succeeded) <==> exists s | s in sends :: Succeeded(s.leg)
  {
    var results := Collected(f, sends);
    if Has(results, Succeeded) {
      var k :| k in results && Succeeded(results[k]);
      var i :| 0 <= i < |sends| && sends[i].call == k && sends[i].leg == results[k];
      assert sends[i] in sends && Succeeded(sends[i].leg);
    }
    if s :| s in sends && Succeeded(s.leg) {
      var i :| 0 <= i < |sends| && sends[i] == s;
      assert Succeeded(results[sends[i].call]);
    }
  }
}
