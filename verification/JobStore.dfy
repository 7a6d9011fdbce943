/** The portal's job table as its two writers change it: the status handler
    (portal/internal/api/handlers_notify.go) and the poller (portal/internal/poller/poller.go). */
module JobStore {
  import opened Seqs
  import opened PortalPayload
  import opened PortalJobs

  /** An organisation's job, by the identifier the server gave it. */
  type Key = nat

  ghost predicate Selectable(jobs: map<Key, JobRow>, k: Key, now: Time)
  {
    k in jobs && Eligible(jobs[k], now)
  }

  /** The query of one poller pass: the eligible jobs, oldest submission first, up to a
      batch. */
  ghost predicate IsBatch(jobs: map<Key, JobRow>, batch: seq<Key>, now: Time)
  {
    && |batch| <= BATCH
    && (forall i | 0 <= i < |batch| :: Selectable(jobs, batch[i], now))
    && (forall i, j | 0 <= i < j < |batch| ::
          batch[i] != batch[j] && jobs[batch[i]].submitted <= jobs[batch[j]].submitted)
    && (forall k | Selectable(jobs, k, now) && k !in batch ::
          |batch| == BATCH && jobs[batch[|batch| - 1]].submitted <= jobs[k].submitted)
  }

  /** What the pass learns about a job: its rows if the server answered, and whether the
      snapshot of active faxes was fetched and lists it. */
  function PollOf(k: Key, active: Option<set<Key>>, answers: map<Key, seq<Row>>): Poll
  {
    Poll(if k in answers then Some(answers[k]) else None, active.Some? && k in active.value, active.Some?)
  }

  /** One whole pass, job by job. */
  ghost predicate Ticked(before: map<Key, JobRow>, after: map<Key, JobRow>, batch: seq<Key>,
                         active: Option<set<Key>>, answers: map<Key, seq<Row>>, now: Time)
  {
    && after.Keys == before.Keys
    && forall k | k in before ::
         after[k] == if k in batch then Polled(before[k], PollOf(k, active, answers), now) else before[k]
  }

  lemma TickedStep(before: map<Key, JobRow>, mid: map<Key, JobRow>, batch: seq<Key>, i: nat,
                   active: Option<set<Key>>, answers: map<Key, seq<Row>>, now: Time)
    requires i < |batch| && Ticked(before, mid, batch[..i], active, answers, now)
    requires batch[i] !in batch[..i] && Selectable(before, batch[i], now)
    ensures batch[i] in mid && mid[batch[i]] == before[batch[i]]
    ensures var k := batch[i];
            var row := Written(mid[k], mid[k], PollOf(k, active, answers), now);
            Ticked(before, mid[k := row], batch[..i + 1], active, answers, now)
  {
    assert batch[..i + 1] == batch[..i] + [batch[i]];
  }

  class JobStore {
    var jobs: map<Key, JobRow>

    /** An outcome pushed for a job: unknown jobs and ended ones are left alone. */
    method HandleStatusNotify(k: Key, p: Payload, now: Time) returns (known: bool, duplicate: bool)
      modifies this
      ensures known <==> k in old(jobs)
      ensures duplicate <==> known && Terminal(old(jobs)[k].status)
      ensures jobs == if known then old(jobs)[k := Pushed(old(jobs)[k], p, now)] else old(jobs)
    {
      if k !in jobs {
        return false, false;
      }
      var job := jobs[k];
      if job.status == Success || job.status == Failed {
        assert jobs == jobs[k := job];
        return true, true;
      }
      job := job.(attempts := p.attempts, pages := p.transferred, totalPages := p.total, updated := now);
      var completed := p.end;
      if completed == ZERO_TIME {
        completed := now;
      }
      if p.success {
        job := job.(status := Success, resultText := p.resultText, completed := Some(completed));
      } else if p.allFailed {
        var errText := p.resultText;
        if errText == "" {
          errText := p.hangupCause;
        }
        job := job.(status := Failed, resultText := p.resultText, lastError := errText, completed := Some(completed));
      } else {
        job := job.(status := Sending);
      }
      jobs := jobs[k := job];
      return true, false;
    }

    /** The poller's write for one job, from the row it read. */
    method Reconcile(k: Key, read: JobRow, o: Poll, now: Time)
      requires k in jobs
      modifies this
      ensures jobs == old(jobs)[k := Reconciled(old(jobs)[k], read, o, now)]
    {
      if o.rows.None? {
        assert jobs == jobs[k := jobs[k]];
        return;
      }
      var d := DecideStatus(o.rows.value, Sight(o.inActive, o.activeOK, read.seenActive, read.submitted, now));
      var job := jobs[k].(attempts := d.attempts, status := d.status, updated := now);
      if d.totalPages > 0 {
        job := job.(totalPages := d.totalPages);
      }
      if d.terminal {
        job := job.(pages := d.pages, resultText := d.resultText, lastError := d.lastErr, seenActive := true);
        if d.completed.Some? {
          job := job.(completed := d.completed);
        }
      } else if d.sawActive {
        job := job.(seenActive := true);
      }
      DecideMeans(o.rows.value, Sight(o.inActive, o.activeOK, read.seenActive, read.submitted, now));
      jobs := jobs[k := job];
    }

    /** One pass over a batch the query returned. */
    method Tick(batch: seq<Key>, active: Option<set<Key>>, answers: map<Key, seq<Row>>, now: Time)
      requires IsBatch(jobs, batch, now)
      modifies this
      ensures Ticked(old(jobs), jobs, batch, active, answers, now)
    {
      ghost var before := jobs;
      for i := 0 to |batch|
        invariant Ticked(before, jobs, batch[..i], active, answers, now)
      {
        var k := batch[i];
        assert Selectable(before, k, now) && k !in batch[..i];
        TickedStep(before, jobs, batch, i, active, answers, now);
        var job := jobs[k];
        if now - job.submitted > STALE_TIMEOUT {
          jobs := jobs[k := TimedOut(job, job, now)];
        } else {
          Reconcile(k, job, PollOf(k, active, answers), now);
        }
      }
      assert batch[..|batch|] == batch;
    }
  }

  /** No orphan survives: a pass whose batch is not full fails every quiet job submitted
      more than a day ago, even with the server unreachable. */
  lemma OverdueJobsEnd(before: map<Key, JobRow>, after: map<Key, JobRow>, batch: seq<Key>,
                       active: Option<set<Key>>, answers: map<Key, seq<Row>>, now: Time)
    requires IsBatch(before, batch, now) && |batch| < 200
    requires Ticked(before, after, batch, active, answers, now)
    ensures forall k | k in before && before[k].status != Success && before[k].status != Failed
                       && now - before[k].updated > 3_000_000_000 && now - before[k].submitted > 86_400_000_000_000 ::
              after[k].status == Failed
    ensures forall k | k in before && Terminal(before[k].status) :: after[k] == before[k]
  {
    forall k | k in before && before[k].status != Success && before[k].status != Failed
               && now - before[k].updated > 3_000_000_000
      ensures Selectable(before, k, now)
    {
    }
    forall k | k in before && Terminal(before[k].status) ensures after[k] == before[k] {
      assert !Eligible(before[k], now);
    }
  }
}
