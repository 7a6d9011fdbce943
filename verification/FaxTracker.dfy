/** The in-flight job tracker (gofaxserver/faxtracker.go): jobs, a call-to-job index and a
    fast counter, changed by interleaved steps of many workers. */
module FaxTracker {
  import opened Seqs

  /** Job and call identifiers; zero is the nil UUID. */
  type Uuid = nat
  const NIL: Uuid := 0

  datatype Phase = Routed | Attempting | Receiving | Bridging | Sending | Waiting | Done

  /** One tracked job, as far as the index and the counter are concerned. */
  datatype Entry = Entry(call: Uuid, phase: Phase, attempt: int)

  datatype Tracker = Tracker(byJob: map<Uuid, Entry>, byCall: map<Uuid, Uuid>, running: nat)

  datatype Event =
    | Begin(job: Uuid, call: Uuid)
    | SetCall(job: Uuid, call: Uuid)
    | MarkAttempt(job: Uuid, call: Uuid, attempt: int)
    | MarkPhase(job: Uuid, phase: Phase)
    | Complete(job: Uuid)

  /** Phases other than the terminal one, which only `Complete` sets. */
  predicate Proper(e: Event) { e.MarkPhase? ==> !e.phase.Done? }

  function Step(t: Tracker, e: Event): Tracker
  {
    match e
    case Begin(job, call) =>
      var index := if call != NIL then t.byCall[call := job] else t.byCall;
      if job in t.byJob
      then t.(byJob := t.byJob[job := t.byJob[job].(call := call, phase := Routed)], byCall := index)
      else Tracker(t.byJob[job := Entry(call, Routed, 0)], index, t.running + 1)
    case SetCall(job, call) =>
      if job !in t.byJob then t
      else
        var dropped := if t.byJob[job].call != NIL then t.byCall - {t.byJob[job].call} else t.byCall;
        t.(byJob := t.byJob[job := t.byJob[job].(call := call)],
           byCall := if call != NIL then dropped[call := job] else dropped)
    case MarkAttempt(job, call, attempt) =>
      if job !in t.byJob then t
      else t.(byJob := t.byJob[job := Entry(call, Attempting, attempt)], byCall := t.byCall[call := job])
    case MarkPhase(job, phase) =>
      if job !in t.byJob then t else t.(byJob := t.byJob[job := t.byJob[job].(phase := phase)])
    case Complete(job) =>
      if job !in t.byJob || t.byJob[job].phase.Done? then t
      else
        var call := t.byJob[job].call;
        Tracker(t.byJob - {job},
                if call != NIL then t.byCall - {call} else t.byCall,
                if t.running > 0 then t.running - 1 else 0)
  }

  const Initial := Tracker(map[], map[], 0)

  function Run(h: seq<Event>): Tracker
  {
    if h == [] then Initial else Step(Run(h[..|h| - 1]), h[|h| - 1])
  }

  // ------------------------------------------------------------ the counter

  ghost predicate Counted(t: Tracker)
  {
    t.running == |t.byJob| && forall j | j in t.byJob :: !t.byJob[j].phase.Done?
  }

  lemma SizeAfter<T>(m: map<Uuid, T>, job: Uuid, e: T)
    ensures |m[job := e]| == if job in m then |m| else |m| + 1
    ensures |m - {job}| == if job in m then |m| - 1 else |m|
  {
    assert |m| == |m.Keys| && |m[job := e]| == |m[job := e].Keys| && |m - {job}| == |(m - {job}).Keys|;
    assert m[job := e].Keys == m.Keys + {job};
    assert (m - {job}).Keys == m.Keys - {job};
  }

  lemma CountedStep(t: Tracker, e: Event)
    requires Counted(t) && Proper(e)
    ensures Counted(Step(t, e))
  {
    var m := Step(t, e).byJob;
    SizeAfter(t.byJob, e.job, if e.job in m then m[e.job] else Entry(NIL, Routed, 0));
    assert m == t.byJob || m == t.byJob - {e.job} || (e.job in m && m == t.byJob[e.job := m[e.job]]);
  }

  /** Under any interleaving the counter is the number of tracked jobs, none done. */
  lemma {:induction false} RunCounts(h: seq<Event>)
    requires forall e | e in h :: Proper(e)
    ensures Counted(Run(h))
  {
    if h != [] {
      assert h[|h| - 1] in h;
      RunCounts(h[..|h| - 1]);
      CountedStep(Run(h[..|h| - 1]), h[|h| - 1]);
    }
  }

  // -------------------------------------- the entries, read off the history

  /** The job has begun, and has not been completed since. */
  predicate Underway(h: seq<Event>, job: Uuid)
  {
    if h == [] then false
    else
      var e := h[|h| - 1];
      if e.job == job && e.Begin? then true
      else if e.job == job && e.Complete? then false
      else Underway(h[..|h| - 1], job)
  }

  /** The phase its last phase-setting event names. */
  function LastPhase(h: seq<Event>, job: Uuid): Phase
  {
    if h == [] then Routed
    else
      var e := h[|h| - 1];
      if e.job != job || e.SetCall? || e.Complete? then LastPhase(h[..|h| - 1], job)
      else match e
           case Begin(_, _) => Routed
           case MarkAttempt(_, _, _) => Attempting
           case MarkPhase(_, phase) => phase
  }

  /** The last attempt marked while it was underway, or zero; a repeated `Begin` keeps it. */
  function LastAttempt(h: seq<Event>, job: Uuid): int
  {
    if h == [] then 0
    else
      var before, e := h[..|h| - 1], h[|h| - 1];
      if e.job == job && e.Complete? then 0
      else if e.job == job && e.MarkAttempt? && Underway(before, job) then e.attempt
      else LastAttempt(before, job)
  }

  /** Under any interleaving, exactly the jobs underway are tracked, each in the phase and
      at the attempt its own events say, whatever other jobs do. */
  lemma {:induction false} EntriesAreTold(h: seq<Event>, job: Uuid)
    requires forall e | e in h :: Proper(e)
    ensures job in Run(h).byJob <==> Underway(h, job)
    ensures job in Run(h).byJob ==>
              && Run(h).byJob[job].phase == LastPhase(h, job)
              && Run(h).byJob[job].attempt == LastAttempt(h, job)
    ensures !Underway(h, job) ==> LastAttempt(h, job) == 0
  {
    if h != [] {
      var before, e := h[..|h| - 1], h[|h| - 1];
      assert e in h && forall d | d in before :: d in h;
      RunCounts(before);
      EntriesAreTold(before, job);
    }
  }

  // ------------------------------------------------------ the reverse index

  /** Every tracked job is found through its current call. */
  ghost predicate Found(t: Tracker)
  {
    forall j | j in t.byJob && t.byJob[j].call != NIL ::
      t.byJob[j].call in t.byCall && t.byCall[t.byJob[j].call] == j
  }

  /** The call an event gives a job, if any. */
  predicate Gives(e: Event, job: Uuid, call: Uuid)
  {
    (e.Begin? || e.SetCall? || e.MarkAttempt?) && e.job == job && e.call == call && call != NIL
  }

  /** Call identifiers are generated fresh: none is ever given to two jobs. */
  ghost predicate OwnCalls(h: seq<Event>)
  {
    forall d, e, j, k, c | d in h && e in h && Gives(d, j, c) && Gives(e, k, c) :: j == k
  }

  /** The index and the tracked calls only ever hold what some event gave. */
  lemma {:induction false} CallsWereGiven(h: seq<Event>)
    ensures forall j | j in Run(h).byJob && Run(h).byJob[j].call != NIL ::
              exists e | e in h :: Gives(e, j, Run(h).byJob[j].call)
    ensures forall c | c in Run(h).byCall && c != NIL ::
              exists e | e in h :: Gives(e, Run(h).byCall[c], c)
  {
    if h != [] {
      var before, last := h[..|h| - 1], h[|h| - 1];
      CallsWereGiven(before);
      var t, t' := Run(before), Run(h);
      assert last in h;
      forall j | j in t'.byJob && t'.byJob[j].call != NIL
        ensures exists e | e in h :: Gives(e, j, t'.byJob[j].call)
      {
        if j in t.byJob && t.byJob[j].call == t'.byJob[j].call {
          var e :| e in before && Gives(e, j, t'.byJob[j].call);
          assert e in h;
        } else {
          assert Gives(last, j, t'.byJob[j].call);
        }
      }
      forall c | c in t'.byCall && c != NIL
        ensures exists e | e in h :: Gives(e, t'.byCall[c], c)
      {
        if c in t.byCall && t.byCall[c] == t'.byCall[c] {
          var e :| e in before && Gives(e, t'.byCall[c], c);
          assert e in h;
        } else {
          assert Gives(last, t'.byCall[c], c);
        }
      }
    }
  }

  /** The call an event brings is no other job's current call. */
  predicate Unclaimed(t: Tracker, e: Event)
  {
    (e.Begin? || e.SetCall? || e.MarkAttempt?) && e.call != NIL ==>
      forall j | j in t.byJob && j != e.job :: t.byJob[j].call != e.call
  }

  lemma OwnCallsAreUnclaimed(h: seq<Event>)
    requires h != [] && OwnCalls(h)
    ensures Unclaimed(Run(h[..|h| - 1]), h[|h| - 1])
  {
    var before, last := h[..|h| - 1], h[|h| - 1];
    var t := Run(before);
    CallsWereGiven(before);
    assert last in h;
    if (last.Begin? || last.SetCall? || last.MarkAttempt?) && last.call != NIL {
      forall j | j in t.byJob && j != last.job ensures t.byJob[j].call != last.call {
        if t.byJob[j].call == last.call {
          var e :| e in before && Gives(e, j, last.call);
          assert e in h && Gives(last, last.job, last.call);
        }
      }
    }
  }

  lemma FoundStep(t: Tracker, e: Event)
    requires Found(t) && Unclaimed(t, e)
    ensures Found(Step(t, e))
  {}

  /** Under any interleaving, several workers on one job included, every tracked job's
      current call leads back to it. */
  lemma {:induction false} RunFinds(h: seq<Event>)
    requires OwnCalls(h)
    ensures Found(Run(h))
  {
    if h != [] {
      var before, last := h[..|h| - 1], h[|h| - 1];
      RunFinds(before);
      OwnCallsAreUnclaimed(h);
      FoundStep(Run(before), last);
    }
  }

  /** The index is exactly the inverse of the tracked jobs' calls. */
  ghost predicate Inverse(t: Tracker)
  {
    && Found(t)
    && forall c | c in t.byCall :: c != NIL && t.byCall[c] in t.byJob && t.byJob[t.byCall[c]].call == c
  }

  /** A worker marks the attempt it has just set, and a repeated `Begin` keeps the call. */
  predicate Paired(t: Tracker, e: Event)
  {
    e.job in t.byJob ==>
      && (e.MarkAttempt? ==> e.call != NIL)
      && (e.MarkAttempt? || e.Begin? ==> t.byJob[e.job].call == NIL || t.byJob[e.job].call == e.call)
  }

  lemma InverseStep(t: Tracker, e: Event)
    requires Inverse(t) && Unclaimed(t, e) && Proper(e) && Counted(t)
    ensures Paired(t, e) ==> Inverse(Step(t, e))
    ensures e.Complete? ==> e.job !in Step(t, e).byJob && forall c | c in Step(t, e).byCall :: Step(t, e).byCall[c] != e.job
  {}

  /** ... and for `MarkAttempt` pairing is exactly what keeps the index clean. */
  lemma AttemptKeepsInverseIff(t: Tracker, job: Uuid, call: Uuid, attempt: int)
    requires Inverse(t) && job in t.byJob && Unclaimed(t, MarkAttempt(job, call, attempt))
    ensures Inverse(Step(t, MarkAttempt(job, call, attempt))) <==> Paired(t, MarkAttempt(job, call, attempt))
  {
    var t' := Step(t, MarkAttempt(job, call, attempt));
    assert call in t'.byCall;
    var was := t.byJob[job].call;
    if was != call && was != NIL { assert was in t'.byCall && t'.byCall[was] == job; }
  }

  /** The job's last event that sets its call, since its last completion. */
  function LastSetter(h: seq<Event>, job: Uuid): Option<Event>
  {
    if h == [] then None
    else
      var e := h[|h| - 1];
      if e.job != job || e.MarkPhase? then LastSetter(h[..|h| - 1], job)
      else if e.Complete? then None
      else Some(e)
  }

  /** What a worker does: it marks the attempt it has just set, and a repeated `Begin`
      brings the call the job has, if it has one. */
  predicate Disciplined(h: seq<Event>, e: Event)
  {
    && (e.MarkAttempt? ==> e.call != NIL && LastSetter(h, e.job) == Some(SetCall(e.job, e.call)))
    && (e.Begin? ==>
          var last := LastSetter(h, e.job);
          last.Some? && (last.value.Begin? || last.value.SetCall? || last.value.MarkAttempt?) ==>
            last.value.call == e.call || last.value.call == NIL)
  }

  /** A tracked job's call is the one its last setter brought. */
  lemma {:induction false} CallIsLastSet(h: seq<Event>, job: Uuid)
    requires forall e | e in h :: Proper(e)
    ensures job in Run(h).byJob ==>
              var last := LastSetter(h, job);
              && last.Some? && (last.value.Begin? || last.value.SetCall? || last.value.MarkAttempt?)
              && Run(h).byJob[job].call == last.value.call
  {
    if h != [] {
      var before, e := h[..|h| - 1], h[|h| - 1];
      assert e in h && forall d | d in before :: d in h;
      CallIsLastSet(before, job);
      RunCounts(before);
    }
  }

  lemma DisciplinedIsPaired(h: seq<Event>, e: Event)
    requires Disciplined(h, e) && forall d | d in h :: Proper(d)
    ensures Paired(Run(h), e)
  {
    hide Run, LastSetter;
    CallIsLastSet(h, e.job);
  }

  /** With disciplined workers, the index stays the inverse over whole runs, and completing
      a job leaves no entry of it behind. */
  lemma {:induction false} PairedRunsStayInverse(h: seq<Event>)
    requires OwnCalls(h) && forall e | e in h :: Proper(e)
    requires forall i | 0 <= i < |h| :: Disciplined(h[..i], h[i])
    ensures Inverse(Run(h))
    ensures h != [] && h[|h| - 1].Complete? ==>
              var job := h[|h| - 1].job;
              job !in Run(h).byJob && forall c | c in Run(h).byCall :: Run(h).byCall[c] != job
  {
    if h != [] {
      var before, last := h[..|h| - 1], h[|h| - 1];
      forall i | 0 <= i < |before| ensures Disciplined(before[..i], before[i]) {
        assert before[..i] == h[..i] && before[i] == h[i];
      }
      PairedRunsStayInverse(before);
      RunCounts(before);
      OwnCallsAreUnclaimed(h);
      assert last in h && Disciplined(before, last);
      DisciplinedIsPaired(before, last);
      InverseStep(Run(before), last);
    }
  }

  /** Two workers of one job that interleave their pairs leave a stale entry behind. */
  lemma InterleavedWorkersLeak(job: Uuid)
    ensures var h := [Begin(job, NIL), SetCall(job, 1), SetCall(job, 2), MarkAttempt(job, 1, 1),
                      MarkAttempt(job, 2, 1), Complete(job)];
            Run(h) == Tracker(map[], map[1 := job], 0)
  {
    hide Run, Step;
    var a, b, c, d := Begin(job, NIL), SetCall(job, 1), SetCall(job, 2), MarkAttempt(job, 1, 1);
    var e, f := MarkAttempt(job, 2, 1), Complete(job);
    RunThen([], a);
    RunThen([a], b);
    RunThen([a, b], c);
    RunThen([a, b, c], d);
    RunThen([a, b, c, d], e);
    RunThen([a, b, c, d, e], f);
    assert [] + [a] == [a] && [a] + [b] == [a, b] && [a, b] + [c] == [a, b, c] && [a, b, c] + [d] == [a, b, c, d];
    assert [a, b, c, d] + [e] == [a, b, c, d, e] && [a, b, c, d, e] + [f] == [a, b, c, d, e, f];
    BothSetCalls(job);
    BothMarkAttempts(job);
  }

  lemma BothSetCalls(job: Uuid)
    ensures var t := Step(Step(Initial, Begin(job, NIL)), SetCall(job, 1));
            Step(t, SetCall(job, 2)) == Tracker(map[job := Entry(2, Routed, 0)], map[2 := job], 1)
  {
    assert Step(Step(Initial, Begin(job, NIL)), SetCall(job, 1)) ==
           Tracker(map[job := Entry(1, Routed, 0)], map[1 := job], 1);
  }

  lemma BothMarkAttempts(job: Uuid)
    ensures var t := Tracker(map[job := Entry(2, Routed, 0)], map[2 := job], 1);
            Step(Step(Step(t, MarkAttempt(job, 1, 1)), MarkAttempt(job, 2, 1)), Complete(job)) ==
            Tracker(map[], map[1 := job], 0)
  {
    var t := Tracker(map[job := Entry(2, Routed, 0)], map[2 := job], 1);
    assert Step(Step(t, MarkAttempt(job, 1, 1)), MarkAttempt(job, 2, 1)) ==
           Tracker(map[job := Entry(2, Attempting, 1)], map[1 := job, 2 := job], 1);
  }

  lemma RunThen(h: seq<Event>, e: Event)
    ensures Run([]) == Initial && Run(h + [e]) == Step(Run(h), e)
  {
    assert (h + [e])[..|h|] == h;
  }

  // ----------------------------------------------------- the tracker as it runs

  class FaxRunState {
    const jobUuid: Uuid
    var callUuid: Uuid
    var phase: Phase
    var attempt: int

    constructor (job: Uuid, call: Uuid)
      ensures jobUuid == job && callUuid == call && phase == Routed && attempt == 0
    {
      jobUuid, callUuid, phase, attempt := job, call, Routed, 0;
    }
  }

  class FaxTracker {
    var byJob: map<Uuid, FaxRunState>
    var byCall: map<Uuid, Uuid>
    var running: nat

    ghost function States(): set<object>
      reads this
    {
      set j | j in byJob :: byJob[j]
    }

    ghost function View(): Tracker
      reads this, States()
    {
      Tracker(map j | j in byJob :: Entry(byJob[j].callUuid, byJob[j].phase, byJob[j].attempt), byCall, running)
    }

    /** Each tracked job has its own state object, and the counter is right. */
    ghost predicate Valid()
      reads this, States()
    {
      && (forall j | j in byJob :: byJob[j].jobUuid == j && !byJob[j].phase.Done?)
      && running == |byJob|
    }

    constructor ()
      ensures Valid() && View() == Initial && States() == {}
    {
      byJob, byCall, running := map[], map[], 0;
    }

    method Begin(job: Uuid, call: Uuid)
      requires Valid()
      modifies this, States()
      ensures Valid() && fresh(States() - old(States()))
      ensures View() == Step(old(View()), Event.Begin(job, call))
    {
      if job !in byJob { Track(job, call); } else { Refresh(job, call); }
    }

    method Track(job: Uuid, call: Uuid)
      requires Valid() && job !in byJob
      modifies this
      ensures Valid() && fresh(States() - old(States()))
      ensures View() == Step(old(View()), Event.Begin(job, call))
    {
      ghost var before := View();
      var st := new FaxRunState(job, call);
      byJob := byJob[job := st];
      running := running + 1;
      if call != NIL { byCall := byCall[call := job]; }
      assert View().byJob == before.byJob[job := Entry(call, Routed, 0)];
    }

    method Refresh(job: Uuid, call: Uuid)
      requires Valid() && job in byJob
      modifies this, byJob[job]
      ensures Valid() && States() == old(States())
      ensures View() == Step(old(View()), Event.Begin(job, call))
    {
      var st := byJob[job];
      st.callUuid := call;
      st.phase := Routed;
      if call != NIL { byCall := byCall[call := job]; }
      assert View().byJob == Step(old(View()), Event.Begin(job, call)).byJob;
    }

    method SetCall(job: Uuid, call: Uuid)
      requires Valid()
      modifies this, States()
      ensures Valid() && States() == old(States())
      ensures View() == Step(old(View()), Event.SetCall(job, call))
    {
      if job in byJob {
        var st := byJob[job];
        if st.callUuid != NIL { byCall := byCall - {st.callUuid}; }
        st.callUuid := call;
        if call != NIL { byCall := byCall[call := job]; }
      }
      assert View().byJob == Step(old(View()), Event.SetCall(job, call)).byJob;
    }

    method MarkAttempt(job: Uuid, call: Uuid, attempt: int)
      requires Valid()
      modifies this, States()
      ensures Valid() && States() == old(States())
      ensures View() == Step(old(View()), Event.MarkAttempt(job, call, attempt))
    {
      if job in byJob {
        var st := byJob[job];
        st.callUuid := call;
        st.attempt := attempt;
        st.phase := Attempting;
        byCall := byCall[call := job];
      }
      assert View().byJob == Step(old(View()), Event.MarkAttempt(job, call, attempt)).byJob;
    }

    /** MarkWaiting, MarkReceiving, MarkBridging and MarkSending. */
    method MarkPhase(job: Uuid, phase: Phase)
      requires Valid() && !phase.Done?
      modifies States()
      ensures Valid() && States() == old(States())
      ensures View() == Step(old(View()), Event.MarkPhase(job, phase))
    {
      if job in byJob {
        var st := byJob[job];
        st.phase := phase;
      }
      assert View().byJob == Step(old(View()), Event.MarkPhase(job, phase)).byJob;
    }

    method Complete(job: Uuid)
      requires Valid()
      modifies this, States()
      ensures Valid() && States() <= old(States())
      ensures View() == Step(old(View()), Event.Complete(job))
    {
      if job in byJob && !byJob[job].phase.Done? {
        var st := byJob[job];
        if st.callUuid != NIL { byCall := byCall - {st.callUuid}; }
        SizeAfter(byJob, job, st);
        if running > 0 { running := running - 1; }
        st.phase := Done;
        byJob := byJob - {job};
        assert forall j | j in byJob :: byJob[j] != st;
        assert View().byJob == old(View()).byJob - {job};
      }
    }

    method ActiveCount() returns (n: nat)
      requires Valid()
      ensures n == |byJob|
    {
      n := running;
    }

    /** Zero stands for "not found" beside the flag. */
    method FindJobByCall(call: Uuid) returns (job: Uuid, ok: bool)
      requires Valid()
      ensures ok <==> call in byCall
      ensures ok ==> job == byCall[call]
      ensures Found(View()) ==> forall j | j in byJob && byJob[j].callUuid == call && call != NIL :: ok && job == j
    {
      job, ok := NIL, call in byCall;
      if ok { job := byCall[call]; }
      assert forall j | j in byJob :: View().byJob[j].call == byJob[j].callUuid;
    }
  }
}
