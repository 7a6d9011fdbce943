/** The portal's view of a submitted fax: the poller's decision over the stored legs
    (portal/internal/poller/poller.go) and the outcome pushed by the server
    (portal/internal/api/handlers_notify.go), both writing one status. */
module PortalJobs {
  import opened Seqs
  import opened PortalPayload

  datatype Status = Queued | Sending | Success | Failed

  /** A leg as the server's status endpoint lists it. */
  datatype Row = Row(resultType: string, hangupCause: string, success: bool, transferred: int, total: int,
                     resultText: string, start: Time, end: Time)

  /** Nanoseconds, as in Go durations. */
  const SECOND: Time := 1_000_000_000
  const FAILURE_GRACE := 30 * SECOND
  const STALE_TIMEOUT := 24 * 3600 * SECOND
  const QUIET := 3 * SECOND
  const BATCH := 200

  predicate OfCall(r: Row) { r.resultType != "notify" }
  predicate Attempt(r: Row) { r.hangupCause != PLACEHOLDER && OfCall(r) }
  predicate Won(r: Row) { r.success }

  // ------------------------------------------------------ the poller's rule

  function Most(of: Row -> int, rows: seq<Row>): int
  {
    if rows == [] then 0
    else
      var m := Most(of, rows[..|rows| - 1]);
      if of(rows[|rows| - 1]) > m then of(rows[|rows| - 1]) else m
  }

  function Transferred(r: Row): int { r.transferred }
  function Total(r: Row): int { r.total }

  /** The last of the rows that started latest. */
  function LastStarted(rows: seq<Row>): (r: Option<Row>)
    ensures r.Some? <==> rows != []
  {
    if rows == [] then None
    else
      var last := LastStarted(rows[..|rows| - 1]);
      if last.Some? && rows[|rows| - 1].start < last.value.start then last else Some(rows[|rows| - 1])
  }

  datatype Decision = Decision(status: Status, attempts: nat, pages: int, totalPages: int, resultText: string,
                               lastErr: string, completed: Option<Time>, terminal: bool, sawActive: bool)

  /** What the poller knows about a job besides its rows. */
  datatype Sight = Sight(inActive: bool, activeOK: bool, seenActive: bool, submitted: Time, now: Time)

  predicate Over(s: Sight)
  {
    (!s.activeOK || (!s.inActive && s.seenActive)) && s.now - s.submitted > FAILURE_GRACE
  }

  function ErrorText(resultText: string, hangupCause: string): string
  {
    if resultText == "" then hangupCause else resultText
  }

  function Decide(rows: seq<Row>, s: Sight): (d: Decision)
  {
    var attempts := Filter(Attempt, rows);
    var d := Decision(Queued, |attempts|, Most(Transferred, attempts), Most(Total, Filter(OfCall, rows)), "", "", None,
                      false, false);
    match First(Won, attempts)
    case Some(r) =>
      d.(status := Success, terminal := true, resultText := r.resultText,
         completed := Some(if r.end == ZERO_TIME then s.now else r.end))
    case None =>
      if attempts != [] && Over(s) then
        var last := LastStarted(attempts).value;
        d.(status := Failed, terminal := true, resultText := last.resultText,
           lastErr := ErrorText(last.resultText, last.hangupCause), completed := Some(s.now))
      else if s.inActive then d.(status := Sending, sawActive := true)
      else if s.seenActive then d.(status := Sending)
      else d
  }

  lemma MostSnoc(of: Row -> int, rows: seq<Row>, r: Row)
    ensures Most(of, rows + [r]) == if of(r) > Most(of, rows) then of(r) else Most(of, rows)
  {
    assert (rows + [r])[..|rows|] == rows;
  }

  method TotalPages(rows: seq<Row>) returns (totalPages: int)
    ensures totalPages == Most(Total, Filter(OfCall, rows))
  {
    totalPages := 0;
    for i := 0 to |rows|
      invariant totalPages == Most(Total, Filter(OfCall, rows[..i]))
    {
      FilterUpTo(OfCall, rows, i);
      MostSnoc(Total, Filter(OfCall, rows[..i]), rows[i]);
      if rows[i].resultType != "notify" && rows[i].total > totalPages {
        totalPages := rows[i].total;
      }
    }
    assert rows[..|rows|] == rows;
  }

  method RealRows(rows: seq<Row>) returns (attempts: seq<Row>)
    ensures attempts == Filter(Attempt, rows)
  {
    attempts := [];
    for i := 0 to |rows|
      invariant attempts == Filter(Attempt, rows[..i])
    {
      FilterUpTo(Attempt, rows, i);
      if rows[i].hangupCause == PLACEHOLDER || rows[i].resultType == "notify" {
        continue;
      }
      attempts := attempts + [rows[i]];
    }
    assert rows[..|rows|] == rows;
  }

  lemma FilterUpTo(p: Row -> bool, rows: seq<Row>, i: nat)
    requires i < |rows|
    ensures Filter(p, rows[..i + 1]) == if p(rows[i]) then Filter(p, rows[..i]) + [rows[i]] else Filter(p, rows[..i])
  {
    assert rows[..i + 1] == rows[..i] + [rows[i]];
    FilterSnoc(p, rows[..i], rows[i]);
  }

  lemma {:induction false} FirstSnoc(p: Row -> bool, rows: seq<Row>, i: nat)
    requires i < |rows|
    ensures First(p, rows[..i + 1]) ==
            if First(p, rows[..i]).Some? then First(p, rows[..i]) else if p(rows[i]) then Some(rows[i]) else None
    decreases i
  {
    if i > 0 {
      FirstSnoc(p, rows[1..], i - 1);
      assert rows[1..][..i - 1] == rows[..i][1..] && rows[1..][..i] == rows[..i + 1][1..];
    }
  }

  /** The heuristic as it runs: three loops over the rows, then one case distinction. */
  method DecideStatus(rows: seq<Row>, s: Sight) returns (d: Decision)
    ensures d == Decide(rows, s)
  {
    var totalPages := TotalPages(rows);
    var attempts := RealRows(rows);
    var bestPages := 0;
    var successRow: Option<Row>, lastRow: Option<Row> := None, None;
    for i := 0 to |attempts|
      invariant bestPages == Most(Transferred, attempts[..i])
      invariant successRow == First(Won, attempts[..i])
      invariant lastRow == LastStarted(attempts[..i])
    {
      assert attempts[..i + 1][..i] == attempts[..i];
      FirstSnoc(Won, attempts, i);
      var r := attempts[i];
      if r.transferred > bestPages {
        bestPages := r.transferred;
      }
      if r.success && successRow.None? {
        successRow := Some(r);
      }
      if lastRow.None? || !(r.start < lastRow.value.start) {
        lastRow := Some(r);
      }
    }
    assert attempts[..|attempts|] == attempts;
    d := Decision(Queued, |attempts|, bestPages, totalPages, "", "", None, false, false);
    if successRow.Some? {
      var end := successRow.value.end;
      if end == ZERO_TIME {
        end := s.now;
      }
      d := d.(status := Success, terminal := true, resultText := successRow.value.resultText, completed := Some(end));
    } else if |attempts| > 0 && (!s.activeOK || (!s.inActive && s.seenActive)) && s.now - s.submitted > FAILURE_GRACE {
      var errText := lastRow.value.resultText;
      if errText == "" {
        errText := lastRow.value.hangupCause;
      }
      d := d.(status := Failed, terminal := true, resultText := lastRow.value.resultText, lastErr := errText,
              completed := Some(s.now));
    } else if s.inActive {
      d := d.(status := Sending, sawActive := true);
    } else if s.seenActive {
      d := d.(status := Sending);
    }
  }

  /** What the decision means, over all rows: which of the four states, and when. */
  lemma DecideMeans(rows: seq<Row>, s: Sight)
    ensures Decide(rows, s).status == Success <==> exists r | r in rows :: Attempt(r) && r.success
    ensures Decide(rows, s).status == Failed <==>
              Over(s) && (exists r | r in rows :: Attempt(r)) && forall r | r in rows && Attempt(r) :: !r.success
    ensures Decide(rows, s).terminal <==> Decide(rows, s).status == Success || Decide(rows, s).status == Failed
    ensures Decide(rows, s).terminal <==> Decide(rows, s).completed.Some?
    ensures !Decide(rows, s).terminal ==> (Decide(rows, s).status == Sending <==> s.inActive || s.seenActive)
  {
    var attempts := Filter(Attempt, rows);
    FirstMember(Won, attempts);
    HasMember(attempts);
    forall r ensures r in attempts <==> r in rows && Attempt(r) { FilterMember(Attempt, rows, r); }
  }

  /** Delivery receipts of notifications never affect any field of the decision: rows that
      differ only in them, added or removed anywhere, are decided alike. */
  lemma NotifyRowsInvisible(rows: seq<Row>, others: seq<Row>, s: Sight)
    requires Filter(OfCall, rows) == Filter(OfCall, others)
    ensures Decide(rows, s) == Decide(others, s)
  {
    FilterAbsorbs(Attempt, OfCall, rows);
    FilterAbsorbs(Attempt, OfCall, others);
  }

  lemma {:induction false} MostBounds(of: Row -> int, rows: seq<Row>)
    ensures Most(of, rows) >= 0 && forall r | r in rows :: of(r) <= Most(of, rows)
    ensures Most(of, rows) == 0 || exists r | r in rows :: of(r) == Most(of, rows)
  {
    if rows != [] {
      var before, last := rows[..|rows| - 1], rows[|rows| - 1];
      MostBounds(of, before);
      assert forall r | r in rows :: r in before || r == last;
      assert forall r | r in before :: r in rows;
    }
  }

  /** The page counts are the largest reported: transferred ones by attempts, totals by
      any leg of the call. */
  lemma DecidePages(rows: seq<Row>, s: Sight)
    ensures var d := Decide(rows, s);
            && (forall r | r in rows && Attempt(r) :: r.transferred <= d.pages)
            && (d.pages == 0 || exists r | r in rows :: Attempt(r) && r.transferred == d.pages)
            && (forall r | r in rows && OfCall(r) :: r.total <= d.totalPages)
            && (d.totalPages == 0 || exists r | r in rows :: OfCall(r) && r.total == d.totalPages)
  {
    MostBounds(Transferred, Filter(Attempt, rows));
    MostBounds(Total, Filter(OfCall, rows));
    forall r ensures r in Filter(Attempt, rows) <==> r in rows && Attempt(r) { FilterMember(Attempt, rows, r); }
    forall r ensures r in Filter(OfCall, rows) <==> r in rows && OfCall(r) { FilterMember(OfCall, rows, r); }
  }

  lemma {:induction false} LastStartedIs(rows: seq<Row>)
    requires rows != []
    ensures LastStarted(rows).value in rows
    ensures forall r | r in rows :: r.start <= LastStarted(rows).value.start
  {
    var before, last := rows[..|rows| - 1], rows[|rows| - 1];
    assert rows == before + [last];
    if before != [] { LastStartedIs(before); }
  }

  predicate TellsSuccess(d: Decision, r: Row, now: Time)
  {
    && Attempt(r) && r.success && d.resultText == r.resultText
    && d.completed == Some(if r.end == ZERO_TIME then now else r.end)
  }

  ghost predicate TellsFailure(d: Decision, r: Row, rows: seq<Row>, now: Time)
  {
    && Attempt(r) && (forall o | o in rows && Attempt(o) :: o.start <= r.start)
    && d.resultText == r.resultText && d.lastErr == (if r.resultText != "" then r.resultText else r.hangupCause)
    && d.completed == Some(now)
  }

  /** Whose words end the job: a successful attempt, or an attempt that started last. */
  lemma DecideTells(rows: seq<Row>, s: Sight)
    ensures Decide(rows, s).status == Success ==> exists r | r in rows :: TellsSuccess(Decide(rows, s), r, s.now)
    ensures Decide(rows, s).status == Failed ==> exists r | r in rows :: TellsFailure(Decide(rows, s), r, rows, s.now)
  {
    var attempts := Filter(Attempt, rows);
    FirstMember(Won, attempts);
    forall r ensures r in attempts <==> r in rows && Attempt(r) { FilterMember(Attempt, rows, r); }
    if attempts != [] { LastStartedIs(attempts); }
  }

  lemma MostPermutation(of: Row -> int, rows: seq<Row>, others: seq<Row>)
    requires multiset(rows) == multiset(others)
    ensures Most(of, rows) == Most(of, others)
  {
    MostBounds(of, rows);
    MostBounds(of, others);
    forall r ensures r in rows <==> r in others { MultisetMember(rows, others, r); }
  }

  /** The order in which the server lists the rows changes no state and no count. */
  lemma RowOrderIrrelevant(rows: seq<Row>, others: seq<Row>, s: Sight)
    requires multiset(rows) == multiset(others)
    ensures var d, e := Decide(rows, s), Decide(others, s);
            && d.status == e.status && d.terminal == e.terminal && d.sawActive == e.sawActive
            && d.attempts == e.attempts && d.pages == e.pages && d.totalPages == e.totalPages
  {
    FilterPermutation(Attempt, rows, others);
    FilterPermutation(OfCall, rows, others);
    var a, b := Filter(Attempt, rows), Filter(Attempt, others);
    MostPermutation(Transferred, a, b);
    MostPermutation(Total, Filter(OfCall, rows), Filter(OfCall, others));
    assert |a| == |multiset(a)| && |b| == |multiset(b)|;
    FirstMember(Won, a);
    FirstMember(Won, b);
    forall r ensures r in a <==> r in b { MultisetMember(a, b, r); }
  }

  // ---------------------------------------------------- the portal's job row

  datatype JobRow = JobRow(status: Status, attempts: int, pages: int, totalPages: int, resultText: string,
                           lastError: string, seenActive: bool, submitted: Time, completed: Option<Time>,
                           updated: Time)

  predicate Terminal(s: Status) { s == Success || s == Failed }

  /** One push of an outcome: the handler's read and write as one step. */
  function Pushed(j: JobRow, p: Payload, now: Time): JobRow
  {
    if Terminal(j.status) then j
    else
      var k := j.(attempts := p.attempts, pages := p.transferred, totalPages := p.total, updated := now);
      var completed := Some(if p.end == ZERO_TIME then now else p.end);
      if p.success then k.(status := Success, resultText := p.resultText, completed := completed)
      else if p.allFailed then
        k.(status := Failed, resultText := p.resultText, lastError := ErrorText(p.resultText, p.hangupCause),
           completed := completed)
      else k.(status := Sending)
  }

  /** What one poller pass learns about one job; no rows when the server did not answer. */
  datatype Poll = Poll(rows: Option<seq<Row>>, inActive: bool, activeOK: bool)

  predicate Stale(read: JobRow, now: Time) { now - read.submitted > STALE_TIMEOUT }

  /** The writes of the poller go to the row `j`, computed from the row as it was `read`. */
  function TimedOut(j: JobRow, read: JobRow, now: Time): JobRow
  {
    j.(status := Failed, attempts := read.attempts, pages := read.pages, resultText := "",
       lastError := "timed out without an upstream result", seenActive := true, completed := Some(now),
       updated := now)
  }

  function Reconciled(j: JobRow, read: JobRow, o: Poll, now: Time): JobRow
  {
    if o.rows.None? then j
    else
      var d := Decide(o.rows.value, Sight(o.inActive, o.activeOK, read.seenActive, read.submitted, now));
      var k := j.(status := d.status, attempts := d.attempts, updated := now,
                  totalPages := if d.totalPages > 0 then d.totalPages else j.totalPages);
      if d.terminal then
        k.(pages := d.pages, resultText := d.resultText, lastError := d.lastErr, seenActive := true,
           completed := d.completed)
      else k.(seenActive := j.seenActive || d.sawActive)
  }

  function Written(j: JobRow, read: JobRow, o: Poll, now: Time): JobRow
  {
    if Stale(read, now) then TimedOut(j, read, now) else Reconciled(j, read, o, now)
  }

  predicate Eligible(j: JobRow, now: Time)
  {
    !Terminal(j.status) && j.updated < now - QUIET
  }

  /** One atomic poll of a job. */
  function Polled(j: JobRow, o: Poll, now: Time): JobRow
  {
    if Eligible(j, now) then Written(j, j, o, now) else j
  }

  datatype Step = Push(payload: Payload, now: Time) | Visit(poll: Poll, now: Time)

  function Next(j: JobRow, e: Step): JobRow
  {
    match e
    case Push(p, now) => Pushed(j, p, now)
    case Visit(o, now) => Polled(j, o, now)
  }

  function RunJob(j: JobRow, h: seq<Step>): JobRow
  {
    if h == [] then j else Next(RunJob(j, h[..|h| - 1]), h[|h| - 1])
  }

  /** Over any run of atomic pushes and polls, a job that is terminal after some of the
      steps is the very same row after all of them. */
  lemma {:induction false} TerminalIsFinal(j: JobRow, h: seq<Step>, i: nat)
    requires i <= |h| && Terminal(RunJob(j, h[..i]).status)
    ensures RunJob(j, h) == RunJob(j, h[..i])
  {
    if i == |h| {
      assert h[..i] == h;
    } else {
      assert h[..|h| - 1][..i] == h[..i];
      TerminalIsFinal(j, h[..|h| - 1], i);
    }
  }

  ghost predicate AnyAttempt(rows: seq<Row>) { exists r | r in rows :: Attempt(r) }
  ghost predicate AnySuccess(rows: seq<Row>) { exists r | r in rows :: Attempt(r) && r.success }

  function SightOf(read: JobRow, o: Poll, now: Time): Sight
  {
    Sight(o.inActive, o.activeOK, read.seenActive, read.submitted, now)
  }

  /** Without atomicity a poll writes from a row read before a push ended the job. The job
      is still ended after such a late write exactly when: the poll timed the job out, the
      server did not answer, or the rows show a success, or an attempt with the job over. */
  lemma LateWriteKeepsEndIff(j: JobRow, read: JobRow, o: Poll, now: Time)
    requires Terminal(j.status)
    ensures Terminal(Written(j, read, o, now).status) <==>
              || Stale(read, now)
              || o.rows.None?
              || AnySuccess(o.rows.value)
              || (Over(SightOf(read, o, now)) && AnyAttempt(o.rows.value))
  {
    if o.rows.Some? { DecideMeans(o.rows.value, SightOf(read, o, now)); }
  }

  /** ... and it ended the same way exactly when the poll's own grounds agree with it. */
  lemma LateWriteKeepsStatusIff(j: JobRow, read: JobRow, o: Poll, now: Time)
    requires Terminal(j.status)
    ensures Written(j, read, o, now).status == j.status <==>
              if Stale(read, now) then j.status == Failed
              else
                || o.rows.None?
                || (if j.status == Success then AnySuccess(o.rows.value)
                    else Over(SightOf(read, o, now)) && AnyAttempt(o.rows.value) && !AnySuccess(o.rows.value))
  {
    if o.rows.Some? { DecideMeans(o.rows.value, SightOf(read, o, now)); }
  }

  /** Such a write exists: no rows yet, and the job in flight, puts an ended job back to
      sending. */
  lemma LateWriteRegresses(j: JobRow, read: JobRow, o: Poll, now: Time)
    requires Terminal(j.status) && !Stale(read, now)
    requires o.rows == Some([]) && o.inActive
    ensures Written(j, read, o, now).status == Sending
  {
    LateWriteKeepsEndIff(j, read, o, now);
    assert !Over(SightOf(read, o, now)) || !AnyAttempt([]);
  }

  function Rank(s: Status): nat { match s case Queued => 0 case Sending => 1 case _ => 2 }

  /** A push that settles the job one way or the other. */
  predicate Settles(p: Payload) { p.success || p.allFailed }

  /** A job is sending only once the tracker has shown it. */
  predicate SeenWhenSending(j: JobRow) { j.status == Sending ==> j.seenActive }

  /** Over any run whose pushes settle, a job never moves back: queued, sending, ended. */
  lemma {:induction false} ProgressNeverFalls(j: JobRow, h: seq<Step>, i: nat)
    requires SeenWhenSending(j) && i <= |h|
    requires forall e | e in h && e.Push? :: Settles(e.payload)
    ensures SeenWhenSending(RunJob(j, h))
    ensures Rank(RunJob(j, h[..i]).status) <= Rank(RunJob(j, h).status)
  {
    if h == [] {
      assert h[..i] == h;
    } else {
      var before, e := h[..|h| - 1], h[|h| - 1];
      assert e in h;
      ProgressNeverFalls(j, before, if i < |h| then i else |before|);
      assert before[..|before|] == before;
      assert i < |h| ==> before[..i] == h[..i];
      assert i == |h| ==> h[..i] == h;
      NextKeepsProgress(RunJob(j, before), e);
    }
  }

  lemma NextKeepsProgress(j: JobRow, e: Step)
    requires SeenWhenSending(j) && (e.Push? ==> Settles(e.payload))
    ensures SeenWhenSending(Next(j, e)) && Rank(j.status) <= Rank(Next(j, e).status)
  {
    if e.Visit? && e.poll.rows.Some? {
      DecideMeans(e.poll.rows.value, Sight(e.poll.inActive, e.poll.activeOK, j.seenActive, j.submitted, e.now));
    }
  }

  // ------------------------------------------------- from the legs to the row

  /** End to end: pushing the outcome of an outbound job (one that carries no call outcome
      of its own) to a job that has not ended always ends it, with success exactly when
      some stored leg succeeded. */
  lemma OutboundPushEnds(f: Job, sends: seq<Sent>, chosen: Option<Leg>, p: Payload, j: JobRow, now: Time)
    requires FromWorkers(sends) && !HasCallOutcome(f)
    requires Describes(Collected(f, sends), chosen) && TellsOf(p, chosen)
    requires p.allFailed == AllAttemptsFailed(f, Collected(f, sends))
    requires !Terminal(j.status)
    ensures Settles(p)
    ensures Pushed(j, p, now).status == if Has(Collected(f, sends), Succeeded) then Success else Failed
  {
    VerdictsAgreeIff(f, sends, chosen, p);
  }

  /** The type under which the server stores a reported leg. */
  function ResultType(f: Job, kind: Option<string>, hangupCause: string): string
  {
    if hangupCause == PLACEHOLDER then "submission"
    else if f.isBridge then "bridge"
    else if kind.None? then "reception"
    else if kind == Some("gateway") then "transmission"
    else "delivery"
  }

  /** A bridged call that ended normally counts as completed, whatever its result says. */
  predicate Inferred(f: Job, r: Result) { f.isBridge && !r.success && r.hangupCause == "NORMAL_CLEARING" }

  /** The row the server stores for a reported leg. */
  function StoredRow(f: Job, s: Sent): Row
    requires s.leg.result.Some?
  {
    var r := s.leg.result.value;
    Row(ResultType(f, s.leg.kind, r.hangupCause), r.hangupCause, r.success || Inferred(f, r), r.transferred, r.total,
        if Inferred(f, r) && r.resultText == "" then "Bridge completed" else r.resultText, r.start, r.end)
  }

  function StoredRows(f: Job, sends: seq<Sent>): (rows: seq<Row>)
    requires forall s | s in sends :: s.leg.result.Some?
    ensures |rows| == |sends| && forall i | 0 <= i < |rows| :: rows[i] == StoredRow(f, sends[i])
  {
    seq(|sends|, i requires 0 <= i < |sends| => StoredRow(f, sends[i]))
  }

  /** The row of a reported leg shows a success: the leg is one that does not carry the
      placeholder's cause, or its success is inferred. */
  predicate Shows(f: Job, s: Sent)
  {
    s.leg.result.Some? &&
    (Inferred(f, s.leg.result.value) || (s.leg.result.value.success && s.leg.result.value.hangupCause != PLACEHOLDER))
  }

  lemma StoredSuccess(f: Job, sends: seq<Sent>, rows: seq<Row>)
    requires forall x | x in sends :: x.leg.result.Some?
    requires multiset(Filter(Attempt, rows)) == multiset(Filter(Attempt, StoredRows(f, sends)))
    ensures (exists r | r in rows :: Attempt(r) && r.success) <==> exists x | x in sends :: Shows(f, x)
  {
    hide Filter;
    var stored := StoredRows(f, sends);
    forall r ensures r in rows && Attempt(r) <==> r in stored && Attempt(r) {
      FilterMember(Attempt, rows, r);
      FilterMember(Attempt, stored, r);
      MultisetMember(Filter(Attempt, rows), Filter(Attempt, stored), r);
    }
    forall i | 0 <= i < |sends|
      ensures Attempt(stored[i]) && stored[i].success <==> Shows(f, sends[i])
    {
      assert sends[i] in sends;
    }
    hide StoredRow, Attempt, Shows;
    if r :| r in rows && Attempt(r) && r.success {
      var i :| 0 <= i < |stored| && stored[i] == r;
      assert sends[i] in sends && Shows(f, sends[i]);
    }
    if i :| 0 <= i < |sends| && Shows(f, sends[i]) { assert stored[i] in stored; }
  }

  /** Push against poll: when the poller ends an outbound job on the rows of all its
      reports, transmissions and deliveries, in any order and among any placeholder and
      receipt rows, it writes the status the push of the reduced outcome writes exactly
      when some report is a success if and only if some report's row shows one. */
  lemma PollAgreesIff(f: Job, sends: seq<Sent>, chosen: Option<Leg>, p: Payload, rows: seq<Row>,
                      j: JobRow, s: Sight, now: Time)
    requires FromWorkers(sends) && OwnSuccesses(sends) && !HasCallOutcome(f)
    requires Describes(Collected(f, sends), chosen) && TellsOf(p, chosen)
    requires p.allFailed == AllAttemptsFailed(f, Collected(f, sends))
    requires multiset(Filter(Attempt, rows)) == multiset(Filter(Attempt, StoredRows(f, sends)))
    requires !Terminal(j.status) && Decide(rows, s).terminal
    ensures Decide(rows, s).status == Pushed(j, p, now).status <==>
            ((exists x | x in sends :: Succeeded(x.leg)) <==> exists x | x in sends :: Shows(f, x))
  {
    hide StoredRows, Collected, Describes, Attempt, Shows;
    OutboundPushEnds(f, sends, chosen, p, j, now);
    SuccessesSurvive(f, sends);
    DecideMeans(rows, s);
    StoredSuccess(f, sends, rows);
  }

  /** So they agree on every job that is not bridged, when no call ends with the cause
      kept for the placeholder. */
  lemma PollAgreesWithPush(f: Job, sends: seq<Sent>, chosen: Option<Leg>, p: Payload, rows: seq<Row>,
                           j: JobRow, s: Sight, now: Time)
    requires !f.isBridge && forall x | x in sends && Succeeded(x.leg) :: x.leg.result.value.hangupCause != PLACEHOLDER
    requires FromWorkers(sends) && OwnSuccesses(sends) && !HasCallOutcome(f)
    requires Describes(Collected(f, sends), chosen) && TellsOf(p, chosen)
    requires p.allFailed == AllAttemptsFailed(f, Collected(f, sends))
    requires multiset(Filter(Attempt, rows)) == multiset(Filter(Attempt, StoredRows(f, sends)))
    requires !Terminal(j.status) && Decide(rows, s).terminal
    ensures Decide(rows, s).status == Pushed(j, p, now).status
  {
    hide StoredRows, Collected, Describes, Attempt, Filter;
    assert forall x | x in sends :: Succeeded(x.leg) <==> Shows(f, x);
    PollAgreesIff(f, sends, chosen, p, rows, j, s, now);
  }

  /** A bridged call that ended normally without a fax result: polled a success, pushed a
      failure. */
  lemma BridgedCallInput(f: Job, sends: seq<Sent>, chosen: Option<Leg>, p: Payload, j: JobRow, s: Sight, now: Time)
    requires f == Job(7, 7, true, "", None)
    requires sends == [Sent(8, Leg(Some("gateway"), Some(Result(false, 1, 1, "", "NORMAL_CLEARING", 10, 20))))]
    requires Describes(Collected(f, sends), chosen) && TellsOf(p, chosen)
    requires p.allFailed == AllAttemptsFailed(f, Collected(f, sends))
    requires !Terminal(j.status)
    ensures Decide(StoredRows(f, sends), s).status == Success && Pushed(j, p, now).status == Failed
  {
    hide Collected, Describes, Decide, Pushed;
    var rows := StoredRows(f, sends);
    assert sends[0] in sends && rows[0] in rows && Attempt(rows[0]) && rows[0].success;
    DecideMeans(rows, s);
    OutboundPushEnds(f, sends, chosen, p, j, now);
    SuccessesSurvive(f, sends);
  }
}
