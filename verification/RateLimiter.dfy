/** The login and API rate limiter (portal/internal/auth/auth.go). */
module RateLimiter {
  import opened Seqs
  import opened SlidingWindow

  datatype Call = Call(key: string, limit: int, now: Time)
  datatype Hit = Hit(key: string, at: Time)

  // ------------------------------------------- the limiter without pruning

  function TimesOf(log: seq<Hit>, key: string): seq<Time>
  {
    if log == [] then []
    else TimesOf(log[..|log| - 1], key) + if log[|log| - 1].key == key then [log[|log| - 1].at] else []
  }

  /** A hit is allowed when fewer than `limit` allowed hits of its key lie in the window. */
  predicate Admits(window: int, log: seq<Hit>, c: Call)
  {
    |Recent(TimesOf(log, c.key), c.now, window)| < c.limit
  }

  /** Every allowed hit of a whole run, nothing ever forgotten. */
  function AllowedHits(window: int, calls: seq<Call>): seq<Hit>
  {
    if calls == [] then []
    else
      var log, c := AllowedHits(window, calls[..|calls| - 1]), calls[|calls| - 1];
      if Admits(window, log, c) then log + [Hit(c.key, c.now)] else log
  }

  ghost predicate Ordered(calls: seq<Call>)
  {
    forall i, j | 0 <= i < j < |calls| :: calls[i].now <= calls[j].now
  }

  function Inside(ts: seq<Time>, from: Time, window: int): seq<Time>
  {
    Filter(t => from <= t < from + window, ts)
  }

  lemma {:induction false} AllowedTimes(window: int, calls: seq<Call>, key: string)
    requires Ordered(calls)
    ensures forall t | t in TimesOf(AllowedHits(window, calls), key) :: calls != [] && t <= calls[|calls| - 1].now
  {
    if calls != [] {
      var before := calls[..|calls| - 1];
      AllowedTimes(window, before, key);
      var log, c := AllowedHits(window, before), calls[|calls| - 1];
      assert (log + [Hit(c.key, c.now)])[..|log|] == log;
    }
  }

  /** With a fixed limit for a key, no interval as long as the window ever contains more
      than that many allowed hits. */
  lemma {:induction false} NoWindowExceedsLimit(window: int, calls: seq<Call>, key: string, limit: int, from: Time)
    requires Ordered(calls)
    requires forall c | c in calls && c.key == key :: c.limit == limit
    ensures |Inside(TimesOf(AllowedHits(window, calls), key), from, window)| <= if limit > 0 then limit else 0
  {
    if calls != [] {
      var before, c := calls[..|calls| - 1], calls[|calls| - 1];
      var log := AllowedHits(window, before);
      NoWindowExceedsLimit(window, before, key, limit, from);
      if Admits(window, log, c) && c.key == key {
        assert c in calls;
        var ts := TimesOf(log, key);
        assert (log + [Hit(c.key, c.now)])[..|log|] == log;
        FilterConcat(t => from <= t < from + window, ts, [c.now]);
        AllowedTimes(window, before, key);
        if from <= c.now < from + window {
          FilterMonotone(t => from <= t < from + window, t => c.now - t < window, ts);
        }
      } else if Admits(window, log, c) {
        assert (log + [Hit(c.key, c.now)])[..|log|] == log;
        assert TimesOf(log + [Hit(c.key, c.now)], key) == TimesOf(log, key);
      }
    }
  }

  // -------------------------------------------------- the limiter as it runs

  /** What one call adds to a key's full history. */
  lemma HistoryGrows(window: int, calls: seq<Call>, c: Call, key: string)
    ensures TimesOf(AllowedHits(window, calls + [c]), key) ==
            TimesOf(AllowedHits(window, calls), key) +
            if key == c.key && Admits(window, AllowedHits(window, calls), c) then [c.now] else []
  {
    hide Admits;
    var log := AllowedHits(window, calls);
    assert (calls + [c])[..|calls|] == calls;
    assert (log + [Hit(c.key, c.now)])[..|log|] == log;
    assert TimesOf(log, key) + [] == TimesOf(log, key);
  }

  /** How the i-th call of a run is answered. */
  predicate Answer(window: int, calls: seq<Call>, i: nat)
    requires i < |calls|
  {
    Admits(window, AllowedHits(window, calls[..i]), calls[i])
  }

  /** The earlier allowed calls of a key inside the window that ends at `now`. */
  function Allowed(window: int, calls: seq<Call>, i: nat, key: string, now: Time): set<nat>
    requires i <= |calls|
  {
    set j: nat | j < i && Answer(window, calls, j) && calls[j].key == key && now - window < calls[j].now
  }

  lemma {:induction false} AllowedAreRecent(window: int, calls: seq<Call>, i: nat, key: string, now: Time)
    requires i <= |calls|
    ensures |Recent(TimesOf(AllowedHits(window, calls[..i]), key), now, window)| == |Allowed(window, calls, i, key, now)|
    decreases i
  {
    hide Recent, Admits, AllowedHits, TimesOf;
    if i == 0 {
      assert calls[..0] == [];
      NoHits(window, key, now);
    } else {
      var before, c := calls[..i - 1], calls[i - 1];
      AllowedAreRecent(window, calls, i - 1, key, now);
      assert calls[..i] == before + [c];
      HistoryGrows(window, before, c, key);
      var ts := TimesOf(AllowedHits(window, before), key);
      RecentAppend(ts, c.now, now, window);
      assert ts + [] == ts;
      assert Allowed(window, calls, i, key, now) ==
             Allowed(window, calls, i - 1, key, now) +
             if Answer(window, calls, i - 1) && c.key == key && now - window < c.now then {i - 1} else {};
    }
  }

  lemma NoHits(window: int, key: string, now: Time)
    ensures Recent(TimesOf(AllowedHits(window, []), key), now, window) == []
  {
  }

  /** Each call of a run is allowed exactly when fewer than its limit of the earlier
      allowed calls of its key fall later than one window before it. */
  lemma AnswersCount(window: int, calls: seq<Call>, i: nat)
    requires i < |calls|
    ensures var c := calls[i];
            Answer(window, calls, i) <==>
              |set j: nat | j < i && Answer(window, calls, j) && calls[j].key == c.key && c.now - window < calls[j].now|
              < c.limit
  {
    hide AllowedHits, TimesOf, Recent;
    var c := calls[i];
    AllowedAreRecent(window, calls, i, c.key, c.now);
    assert Allowed(window, calls, i, c.key, c.now) ==
           set j: nat | j < i && Answer(window, calls, j) && calls[j].key == c.key && c.now - window < calls[j].now;
  }

  /** What a key's pruned contents become in one call, against its full history. */
  lemma CallKeepsAgreement(window: int, calls: seq<Call>, c: Call, key: string, kept: seq<Time>)
    requires Recent(kept, c.now, window) == Recent(TimesOf(AllowedHits(window, calls), key), c.now, window)
    ensures var ok := Admits(window, AllowedHits(window, calls), c);
            var kept' := if key == c.key then Recent(kept, c.now, window) + (if ok then [c.now] else []) else kept;
            Recent(kept', c.now, window) == Recent(TimesOf(AllowedHits(window, calls + [c]), key), c.now, window)
  {
    hide Recent, Admits, AllowedHits, TimesOf;
    var times := TimesOf(AllowedHits(window, calls), key);
    HistoryGrows(window, calls, c, key);
    RecentAbsorbs(kept, c.now, c.now, window);
    RecentAppend(Recent(kept, c.now, window), c.now, c.now, window);
    RecentAppend(times, c.now, c.now, window);
    assert times + [] == times && Recent(kept, c.now, window) + [] == Recent(kept, c.now, window);
  }

  class RateLimiter {
    const window: int
    var hits: map<string, Slice>
    var lastGC: Time
    ghost var clock: Time
    ghost var calls: seq<Call>

    ghost function Arrays(): set<array<Time>>
      reads this
    {
      set k | k in hits :: hits[k].arr
    }

    ghost function Contents(key: string): seq<Time>
      reads this, Arrays()
      requires key in hits ==> hits[key].len <= hits[key].arr.Length
    {
      if key in hits then hits[key].arr[..hits[key].len] else []
    }

    ghost function Log(): seq<Hit>
      reads this
    {
      AllowedHits(window, calls)
    }

    ghost predicate Separate()
      reads this, Arrays()
    {
      && (forall k | k in hits :: hits[k].len <= hits[k].arr.Length)
      && (forall j, k | j in hits && k in hits && j != k :: hits[j].arr != hits[k].arr)
    }

    /** Once pruned at `now`, every stored slice is the full history. */
    ghost predicate Agrees(now: Time)
      reads this, Arrays()
      requires Separate()
    {
      forall k: string :: Recent(Contents(k), now, window) == Recent(TimesOf(Log(), k), now, window)
    }

    ghost predicate Valid()
      reads this, Arrays()
    {
      Separate() && Agrees(clock)
    }

    constructor (window: int, now: Time)
      ensures Valid() && this.window == window && clock == now && calls == [] && Arrays() == {}
    {
      this.window, hits, lastGC, clock, calls := window, map[], now, now, [];
    }

    /** One key of the sweep: compact its slice where it lies, forget it when empty. */
    method CompactKey(key: string, now: Time)
      requires Separate() && key in hits
      modifies `hits, hits[key].arr
      ensures Separate() && Arrays() <= old(Arrays())
      ensures hits.Keys <= old(hits).Keys && hits.Keys >= old(hits).Keys - {key}
      ensures Contents(key) == Recent(old(Contents(key)), now, window)
      ensures forall k: string | k != key :: Contents(k) == old(Contents(k))
    {
      var s := hits[key];
      var n := CompactInPlace(s.arr, s.len, now, window);
      if n == 0 { hits := hits - {key}; } else { hits := hits[key := Slice(s.arr, n)]; }
    }

    /** The periodic sweep over every key, in whatever order the map yields them. */
    method Sweep(now: Time)
      requires Separate()
      modifies `hits, `lastGC, Arrays()
      ensures Separate() && Arrays() <= old(Arrays())
      ensures lastGC == now
      ensures forall k: string :: Contents(k) == Recent(old(Contents(k)), now, window)
    {
      hide Recent;
      RecentNone(now, window);
      var todo := hits.Keys;
      while todo != {}
        invariant todo <= hits.Keys && Separate() && Arrays() <= old(Arrays())
        invariant forall k: string | k in todo :: Contents(k) == old(Contents(k))
        invariant forall k: string | k !in todo :: Contents(k) == Recent(old(Contents(k)), now, window)
        decreases |todo|
      {
        var k :| k in todo;
        CompactKey(k, now);
        todo := todo - {k};
      }
      lastGC := now;
    }

    method SweepIfDue(now: Time)
      requires Valid() && clock <= now
      modifies `hits, `lastGC, Arrays()
      ensures Separate() && Agrees(now) && Arrays() <= old(Arrays())
    {
      if now - lastGC > 10 * window { Sweep(now); }
      forall k: string ensures Recent(Contents(k), now, window) == Recent(TimesOf(Log(), k), now, window) {
        RecentAgree(old(Contents(k)), TimesOf(Log(), k), clock, now, window);
        RecentAbsorbs(old(Contents(k)), now, now, window);
      }
    }

    /** Compacts the key's slice and, under the limit, appends the hit to it. */
    method Count(key: string, limit: int, now: Time) returns (ok: bool)
      requires Separate()
      modifies `hits, Arrays()
      ensures Separate() && fresh(Arrays() - old(Arrays()))
      ensures ok == (|Recent(old(Contents(key)), now, window)| < limit)
      ensures Contents(key) == Recent(old(Contents(key)), now, window) + if ok then [now] else []
      ensures forall k: string | k != key :: Contents(k) == old(Contents(k))
    {
      hide Recent;
      var s;
      if key in hits { s := hits[key]; } else { var a := new Time[0]; s := Slice(a, 0); }
      var n := CompactInPlace(s.arr, s.len, now, window);
      ok := n < limit;
      s := Slice(s.arr, n);
      if ok { s := Append(s, now); }
      hits := hits[key := s];
    }

    method Decide(c: Call) returns (ok: bool)
      requires Separate() && Agrees(c.now)
      modifies this, Arrays()
      ensures Separate() && Agrees(c.now) && fresh(Arrays() - old(Arrays()))
      ensures calls == old(calls) + [c]
      ensures ok == Admits(window, old(Log()), c)
    {
      hide Recent, TimesOf;
      ok := Count(c.key, c.limit, c.now);
      assert ok == Admits(window, Log(), c);
      forall k: string
        ensures Recent(Contents(k), c.now, window) == Recent(TimesOf(AllowedHits(window, calls + [c]), k), c.now, window)
      {
        CallKeepsAgreement(window, calls, c, k, old(Contents(k)));
      }
      calls := calls + [c];
    }

    /** Sweeping, compacting and appending never change an answer: it is always the one
        the full history gives. */
    method Allow(key: string, limit: int, now: Time) returns (ok: bool)
      requires Valid() && clock <= now
      modifies this, Arrays()
      ensures Valid() && clock == now && fresh(Arrays() - old(Arrays()))
      ensures calls == old(calls) + [Call(key, limit, now)]
      ensures ok == Admits(window, old(Log()), Call(key, limit, now))
      ensures ok == Answer(window, calls, |old(calls)|)
    {
      hide Recent, AllowedHits, TimesOf, Admits;
      SweepIfDue(now);
      assert Log() == old(Log());
      ok := Decide(Call(key, limit, now));
      label decided:
      clock := now;
      assert forall k: string :: Contents(k) == old@decided(Contents(k));
      assert calls[..|old(calls)|] == old(calls);
    }
  }
}
