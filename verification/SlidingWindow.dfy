/** Pruned sliding-window logs: the in-place `kept := ts[:0]` compaction shared by the
    rate limiter (portal/internal/auth/auth.go) and the sentry (gofaxserver/ipsentry.go). */
module SlidingWindow {
  import opened Seqs

  type Time = int

  /** The entries younger than `window` at `now`. */
  function Recent(ts: seq<Time>, now: Time, window: int): seq<Time>
  {
    Filter(t => now - t < window, ts)
  }

  /** Pruning at an earlier time is invisible later. */
  lemma RecentAbsorbs(ts: seq<Time>, before: Time, now: Time, window: int)
    requires before <= now
    ensures Recent(Recent(ts, before, window), now, window) == Recent(ts, now, window)
  {
    FilterAbsorbs(t => now - t < window, t => before - t < window, ts);
  }

  lemma RecentNone(now: Time, window: int)
    ensures Recent([], now, window) == []
  {}

  lemma RecentAppend(ts: seq<Time>, t: Time, now: Time, window: int)
    ensures Recent(ts + [t], now, window) == Recent(ts, now, window) + if now - t < window then [t] else []
  {
    FilterConcat(t => now - t < window, ts, [t]);
  }

  /** What the window keeps: the entries later than its start, each as often as the log
      holds it. */
  lemma RecentKeeps(ts: seq<Time>, now: Time, window: int, t: Time)
    ensures multiset(Recent(ts, now, window))[t] == if now - window < t then multiset(ts)[t] else 0
    ensures |Recent(ts, now, window)| == |set i: nat | i < |ts| && now - window < ts[i]|
  {
    FilterMultiset(x => now - x < window, ts, t);
    FilterCounts(x => now - x < window, ts);
    assert Places(x => now - x < window, ts) == set i: nat | i < |ts| && now - window < ts[i];
  }

  /** Two logs that agree once pruned keep agreeing. */
  lemma RecentAgree(a: seq<Time>, b: seq<Time>, before: Time, now: Time, window: int)
    requires before <= now && Recent(a, before, window) == Recent(b, before, window)
    ensures Recent(a, now, window) == Recent(b, now, window)
  {
    RecentAbsorbs(a, before, now, window);
    RecentAbsorbs(b, before, now, window);
  }

  /** A slice value: a shared backing array and a length. */
  datatype Slice = Slice(arr: array<Time>, len: nat)

  /** Filters the first `n` entries within the array they occupy. */
  method CompactInPlace(a: array<Time>, n: nat, now: Time, window: int) returns (k: nat)
    requires n <= a.Length
    modifies a
    ensures k <= n
    ensures a[..k] == Recent(old(a[..n]), now, window)
  {
    k := 0;
    for i := 0 to n
      invariant k <= i
      invariant forall j | i <= j < n :: a[j] == old(a[j])
      invariant a[..k] == Recent(old(a[..i]), now, window)
    {
      RecentAppend(old(a[..i]), old(a[i]), now, window);
      assert old(a[..i + 1]) == old(a[..i]) + [old(a[i])];
      if now - a[i] < window {
        a[k] := a[i];
        k := k + 1;
      }
    }
  }

  /** The same pruning into a new log. */
  method KeepRecent(ts: seq<Time>, now: Time, window: int) returns (kept: seq<Time>)
    ensures kept == Recent(ts, now, window)
  {
    kept := [];
    for i := 0 to |ts|
      invariant kept == Recent(ts[..i], now, window)
    {
      RecentAppend(ts[..i], ts[i], now, window);
      assert ts[..i + 1] == ts[..i] + [ts[i]];
      if now - ts[i] < window { kept := kept + [ts[i]]; }
    }
    assert ts[..|ts|] == ts;
  }

  /** Go's `append`: in place while the capacity lasts, else into a larger array. */
  method Append(s: Slice, t: Time) returns (r: Slice)
    requires s.len <= s.arr.Length
    modifies s.arr
    ensures r.arr == s.arr || fresh(r.arr)
    ensures r.len == s.len + 1 <= r.arr.Length
    ensures r.arr[..r.len] == old(s.arr[..s.len]) + [t]
  {
    if s.len < s.arr.Length {
      s.arr[s.len] := t;
      r := Slice(s.arr, s.len + 1);
    } else {
      var n := s.len;
      ghost var before := s.arr[..n];
      var grown := new Time[2 * n + 1];
      for i := 0 to n
        invariant s.arr[..n] == before
        invariant forall j | 0 <= j < i :: grown[j] == s.arr[j]
      {
        grown[i] := s.arr[i];
      }
      grown[n] := t;
      assert grown[..n] == before;
      r := Slice(grown, n + 1);
    }
  }
}
