/** When a submitted fax counts as ended, in plain terms: the poller's decision
    (portal/internal/poller/poller.go) and the pushed outcome
    (portal/internal/api/handlers_notify.go) field by field, and what no run of them does. */
module JobVerdicts {
  import opened Seqs
  import opened PortalPayload
  import opened PortalJobs

  /** A leg the poller counts: not the enqueue marker and not a notification's receipt. */
  predicate Counts(r: Row) { r.resultType != "notify" && r.hangupCause != "WEBHOOK" }

  ghost predicate Tried(rows: seq<Row>) { exists r | r in rows :: Counts(r) }
  ghost predicate Delivered(rows: seq<Row>) { exists r | r in rows :: Counts(r) && r.success }

  /** A job is failed exactly when something was tried, nothing succeeded, more than thirty
      seconds have passed, and the server either could not be asked what is in flight or no
      longer shows a job it has shown. */
  lemma FailedIff(rows: seq<Row>, s: Sight)
    ensures Decide(rows, s).status == Failed <==>
              && Tried(rows) && !Delivered(rows)
              && s.now - s.submitted > 30_000_000_000
              && (!s.activeOK || (s.seenActive && !s.inActive))
  {
    hide Decide;
    DecideMeans(rows, s);
    SameLegs(rows);
  }

  lemma SameLegs(rows: seq<Row>)
    ensures forall r | r in rows :: Counts(r) <==> Attempt(r)
    ensures Tried(rows) <==> exists r | r in rows :: Attempt(r)
    ensures Delivered(rows) <==> exists r | r in rows :: Attempt(r) && r.success
  {
    forall r | r in rows ensures Counts(r) <==> Attempt(r) {}
  }

  /** The other three states, and what goes with each. */
  lemma OtherStatesIff(rows: seq<Row>, s: Sight)
    ensures var d := Decide(rows, s);
            && (d.status == Success <==> Delivered(rows))
            && (d.status == Sending <==> d.status != Success && d.status != Failed && (s.inActive || s.seenActive))
            && (d.terminal <==> d.status == Success || d.status == Failed)
            && (d.sawActive <==> !d.terminal && s.inActive)
            && (d.completed.None? <==> !d.terminal)
  {
    DecideMeans(rows, s);
    SameLegs(rows);
  }

  /** The attempts reported are the counted legs, and the page counts their largest. */
  lemma CountsTold(rows: seq<Row>, s: Sight)
    ensures var d := Decide(rows, s);
            && d.attempts == |set i: nat | i < |rows| && Counts(rows[i])|
            && (forall r | r in rows && Counts(r) :: r.transferred <= d.pages)
            && (d.pages == 0 || exists r | r in rows :: Counts(r) && r.transferred == d.pages)
            && (forall r | r in rows && r.resultType != "notify" :: r.total <= d.totalPages)
            && (d.totalPages == 0 || exists r | r in rows :: r.resultType != "notify" && r.total == d.totalPages)
  {
    FilterCounts(Attempt, rows);
    assert Places(Attempt, rows) == set i: nat | i < |rows| && Counts(rows[i]);
    DecidePages(rows, s);
    SameLegs(rows);
    hide Decide;
    var d := Decide(rows, s);
    if r :| r in rows && Attempt(r) && r.transferred == d.pages { assert Counts(r); }
    if r :| r in rows && OfCall(r) && r.total == d.totalPages { assert r.resultType != "notify"; }
  }

  /** Which row speaks for an ended job: the first counted success in the list, or without
      one the last of the counted rows that started latest. */
  lemma SpeakerIs(rows: seq<Row>, s: Sight) returns (i: nat)
    requires Decide(rows, s).terminal
    ensures i < |rows| && Counts(rows[i]) && Decide(rows, s).resultText == rows[i].resultText
    ensures Decide(rows, s).status == Success ==>
              rows[i].success && forall k | 0 <= k < i && Counts(rows[k]) :: !rows[k].success
    ensures Decide(rows, s).status == Failed ==>
              forall k | 0 <= k < |rows| && Counts(rows[k]) ::
                rows[k].start <= rows[i].start && (k > i ==> rows[k].start < rows[i].start)
  {
    var attempts := Filter(Attempt, rows);
    var at := FilterPlaces(Attempt, rows);
    hide Filter;
    SameLegs(rows);
    if Decide(rows, s).status == Success {
      FirstPlace(Won, attempts);
      var n :| 0 <= n < |attempts| && attempts[n] == First(Won, attempts).value && Won(attempts[n])
               && forall j | 0 <= j < n :: !Won(attempts[j]);
      i := at[n];
      forall k | 0 <= k < i && Counts(rows[k]) ensures !rows[k].success { EarlierStood(rows, at, n, k); }
    } else {
      var n := LastStartedAt(attempts);
      i := at[n];
      forall k | 0 <= k < |rows| && Counts(rows[k])
        ensures rows[k].start <= rows[i].start && (k > i ==> rows[k].start < rows[i].start)
      {
        var m :| 0 <= m < |at| && at[m] == k;
        assert attempts[m] == rows[k];
      }
    }
  }

  lemma EarlierStood(rows: seq<Row>, at: seq<nat>, n: nat, k: nat)
    requires Stood(Attempt, rows, Filter(Attempt, rows), at) && n < |at| && k < at[n] && Attempt(rows[k])
    requires forall j | 0 <= j < n :: !Won(Filter(Attempt, rows)[j])
    ensures !rows[k].success
  {
    hide Filter;
    assert k in at;
    var m :| 0 <= m < |at| && at[m] == k;
    assert m < n;
    assert Filter(Attempt, rows)[m] == rows[k];
  }

  lemma {:induction false} LastStartedAt(rows: seq<Row>) returns (n: nat)
    requires rows != []
    ensures n < |rows| && rows[n] == LastStarted(rows).value
    ensures forall m | 0 <= m < |rows| ::
              rows[m].start <= rows[n].start && (m > n ==> rows[m].start < rows[n].start)
  {
    n := |rows| - 1;
    if n > 0 && rows[n].start < LastStarted(rows[..n]).value.start { n := LastStartedAt(rows[..n]); }
    else if n > 0 { var m := LastStartedAt(rows[..n]); }
  }

  // ------------------------------------------------------ the writes, field by field

  /** A push to a job that has not ended. */
  lemma PushTells(j: JobRow, p: Payload, now: Time)
    requires j.status != Success && j.status != Failed
    ensures var k := Pushed(j, p, now);
            && k.status == (if p.success then Success else if p.allFailed then Failed else Sending)
            && k.attempts == p.attempts && k.pages == p.transferred && k.totalPages == p.total
            && k.updated == now && k.submitted == j.submitted && k.seenActive == j.seenActive
            && k.completed == (if !p.success && !p.allFailed then j.completed
                               else Some(if p.end == ZERO_TIME then now else p.end))
            && k.resultText == (if p.success || p.allFailed then p.resultText else j.resultText)
            && k.lastError == (if p.success || !p.allFailed then j.lastError
                               else if p.resultText != "" then p.resultText else p.hangupCause)
  {
  }

  /** A poll leaves an ended job, or one written within three seconds, as it is, ... */
  lemma PollSpares(j: JobRow, o: Poll, now: Time)
    requires j.status == Success || j.status == Failed || now - j.updated <= 3_000_000_000
    ensures Polled(j, o, now) == j
  {
  }

  /** ... fails any other submitted more than a day ago, ... */
  lemma PollTimesOut(j: JobRow, o: Poll, now: Time)
    requires j.status != Success && j.status != Failed && now - j.updated > 3_000_000_000
    requires now - j.submitted > 86_400_000_000_000
    ensures var k := Polled(j, o, now);
            && k.status == Failed && k.completed == Some(now) && k.updated == now && k.seenActive
            && k.attempts == j.attempts && k.pages == j.pages && k.totalPages == j.totalPages
            && k.submitted == j.submitted && k.resultText == "" && k.lastError != ""
  {
  }

  /** ... and otherwise writes its decision, if the server answered. */
  lemma PollTells(j: JobRow, o: Poll, now: Time)
    requires j.status != Success && j.status != Failed && now - j.updated > 3_000_000_000
    requires now - j.submitted <= 86_400_000_000_000
    ensures var k := Polled(j, o, now);
            if o.rows.None? then k == j
            else
              var d := Decide(o.rows.value, Sight(o.inActive, o.activeOK, j.seenActive, j.submitted, now));
              && k.status == d.status && k.attempts == d.attempts && k.updated == now && k.submitted == j.submitted
              && k.totalPages == (if d.totalPages > 0 then d.totalPages else j.totalPages)
              && k.pages == (if d.terminal then d.pages else j.pages)
              && k.resultText == (if d.terminal then d.resultText else j.resultText)
              && k.lastError == (if d.terminal then d.lastErr else j.lastError)
              && k.completed == (if d.terminal then d.completed else j.completed)
              && k.seenActive == (j.seenActive || o.inActive || d.terminal)
  {
    if o.rows.Some? {
      OtherStatesIff(o.rows.value, Sight(o.inActive, o.activeOK, j.seenActive, j.submitted, now));
    }
  }

  // ------------------------------------------------- what no run of them does

  lemma {:induction false} SubmittedStays(j: JobRow, h: seq<Step>)
    ensures RunJob(j, h).submitted == j.submitted
  {
    if h != [] { SubmittedStays(j, h[..|h| - 1]); }
  }

  lemma RunStep(j: JobRow, h: seq<Step>, i: nat)
    requires i < |h|
    ensures RunJob(j, h[..i + 1]) == Next(RunJob(j, h[..i]), h[i])
  {
    assert h[..i + 1][..i] == h[..i];
  }

  /** A job the server shows in flight is never failed by a poll within its first day,
      whatever rows are stored and whatever happened before. */
  lemma InFlightNeverFails(j: JobRow, h: seq<Step>, i: nat)
    requires i < |h| && h[i].Visit? && h[i].poll.activeOK && h[i].poll.inActive
    requires h[i].now - j.submitted <= 86_400_000_000_000
    requires RunJob(j, h[..i]).status != Failed
    ensures RunJob(j, h[..i + 1]).status != Failed
  {
    hide RunJob, Decide;
    var k, o := RunJob(j, h[..i]), h[i].poll;
    RunStep(j, h, i);
    SubmittedStays(j, h[..i]);
    if o.rows.Some? {
      FailedIff(o.rows.value, Sight(o.inActive, o.activeOK, k.seenActive, k.submitted, h[i].now));
    }
  }

  /** Unless a poll shows the job, it is not marked as shown before it ends. */
  lemma {:induction false} SeenIsShown(j: JobRow, h: seq<Step>)
    requires !j.seenActive
    requires forall e | e in h && e.Visit? :: !e.poll.inActive
    ensures RunJob(j, h).seenActive ==> Terminal(RunJob(j, h).status)
  {
    if h != [] {
      var before, e := h[..|h| - 1], h[|h| - 1];
      assert e in h;
      SeenIsShown(j, before);
      if e.Visit? && e.poll.rows.Some? {
        var k := RunJob(j, before);
        OtherStatesIff(e.poll.rows.value, Sight(e.poll.inActive, e.poll.activeOK, k.seenActive, k.submitted, e.now));
      }
    }
  }

  /** A job that no poll has shown yet is never failed either within the day, as long as
      the server can be asked: it may still be queued. */
  lemma UnseenNeverFails(j: JobRow, h: seq<Step>, i: nat)
    requires i < |h| && h[i].Visit? && h[i].poll.activeOK
    requires h[i].now - j.submitted <= 86_400_000_000_000
    requires !j.seenActive && forall e | e in h[..i] && e.Visit? :: !e.poll.inActive
    requires RunJob(j, h[..i]).status != Failed
    ensures RunJob(j, h[..i + 1]).status != Failed
  {
    hide RunJob, Decide;
    var k, o := RunJob(j, h[..i]), h[i].poll;
    RunStep(j, h, i);
    SubmittedStays(j, h[..i]);
    SeenIsShown(j, h[..i]);
    if o.rows.Some? {
      FailedIff(o.rows.value, Sight(o.inActive, o.activeOK, k.seenActive, k.submitted, h[i].now));
    }
  }

  /** Over a whole run: while every poll of the first day can ask the server, and shows the
      job whenever an earlier one has, only a push fails it. */
  lemma {:induction false} OnlyPushesFail(j: JobRow, h: seq<Step>)
    requires j.status != Failed && !j.seenActive
    requires forall e | e in h && e.Push? :: e.payload.success || !e.payload.allFailed
    requires forall e | e in h && e.Visit? :: e.poll.activeOK && e.now - j.submitted <= 86_400_000_000_000
    requires forall k, i | 0 <= k < i < |h| && h[k].Visit? && h[i].Visit? && h[k].poll.inActive :: h[i].poll.inActive
    ensures RunJob(j, h).status != Failed
  {
    hide Next, Decide;
    if h != [] {
      var n := |h| - 1;
      assert h[n] in h && h[..n + 1] == h;
      OnlyPushesFail(j, h[..n]);
      RunStep(j, h, n);
      if h[n].Push? {
        PushNeverFails(RunJob(j, h[..n]), h[n]);
      } else if h[n].poll.inActive {
        InFlightNeverFails(j, h, n);
      } else {
        UnseenNeverFails(j, h, n);
      }
    }
  }

  lemma PushNeverFails(j: JobRow, e: Step)
    requires e.Push? && (e.payload.success || !e.payload.allFailed) && j.status != Failed
    ensures Next(j, e).status != Failed
  {
  }
}
