/** T.38 flip-flop probing (gofaxserver/faxpolicy.go): consecutive calls of one source,
    destination and call type alternate T.38 on and off while no rule decides. */
module FlipFlop {
  import opened Seqs
  import opened FaxPolicy

  datatype CallPair = CallPair(src: string, dst: string, callType: CallType)

  datatype PairState = PairState(lastUsedT38: bool, lastSeen: Time)

  type States = map<string, PairState>

  function CallName(c: CallType): string { if c.Softmodem? then "softmodem" else "bridge" }

  function Key(p: CallPair): string { CallName(p.callType) + "|" + p.src + "|" + p.dst }

  predicate Allows(states: States, ttl: int, p: CallPair, now: Time)
  {
    if Key(p) !in states || now - states[Key(p)].lastSeen > ttl then true
    else !states[Key(p)].lastUsedT38
  }

  // ----------------------------------------------------- the key is injective

  predicate BarFree(s: string) { '|' !in s }

  lemma {:induction false} SplitAtBar(a: string, b: string, rest: string, rest': string)
    requires BarFree(a) && BarFree(b) && a + "|" + rest == b + "|" + rest'
    ensures a == b && rest == rest'
  {
    var x, y := a + "|" + rest, b + "|" + rest';
    assert x[0] == (if a == "" then '|' else a[0]) && y[0] == (if b == "" then '|' else b[0]);
    assert (a != "" ==> a[0] in a) && (b != "" ==> b[0] in b);
    if a == "" {
      assert x[1..] == rest && y[1..] == rest';
    } else {
      assert x[1..] == a[1..] + "|" + rest && y[1..] == b[1..] + "|" + rest';
      SplitAtBar(a[1..], b[1..], rest, rest');
    }
  }

  /** Two calls share a key only if they are the same pair, as long as source numbers
      hold no bar; destinations may. */
  lemma KeyInjective(p: CallPair, q: CallPair)
    requires BarFree(p.src) && BarFree(q.src) && Key(p) == Key(q)
    ensures p == q
  {
    var a, b := CallName(p.callType), CallName(q.callType);
    assert Key(p) == a + "|" + (p.src + "|" + p.dst);
    assert Key(q) == b + "|" + (q.src + "|" + q.dst);
    SplitAtBar(a, b, p.src + "|" + p.dst, q.src + "|" + q.dst);
    SplitAtBar(p.src, q.src, p.dst, q.dst);
    assert |a| == |b|;
  }

  /** One bar between bar-free halves can be placed in only one way. */
  lemma OneBar(a: string, b: string, c: string, d: string)
    requires BarFree(a) && BarFree(b) && a + "|" + b == c + "|" + d
    ensures a == c && b == d
  {
    var s := a + "|" + b;
    assert forall k | 0 <= k < |s| :: k == |a| || (k < |a| && s[k] == a[k] && a[k] in a)
                                      || (k > |a| && s[k] == b[k - |a| - 1] && b[k - |a| - 1] in b);
    assert (c + "|" + d)[|c|] == '|';
    assert |c| == |a|;
    assert s[..|a|] == a && s[|a| + 1..] == b;
    assert (c + "|" + d)[..|c|] == c && (c + "|" + d)[|c| + 1..] == d;
  }

  /** A bar on either side can be moved across the separator. */
  lemma OtherWithKey(p: CallPair) returns (q: CallPair)
    requires !BarFree(p.src) || !BarFree(p.dst)
    ensures q != p && Key(q) == Key(p)
  {
    var name := CallName(p.callType);
    if !BarFree(p.src) {
      var i :| 0 <= i < |p.src| && p.src[i] == '|';
      var x, y := p.src[..i], p.src[i + 1..];
      assert p.src == x + "|" + y;
      q := CallPair(x, y + "|" + p.dst, p.callType);
      assert name + "|" + (x + "|" + y) + "|" + p.dst == name + "|" + x + "|" + (y + "|" + p.dst);
    } else {
      var i :| 0 <= i < |p.dst| && p.dst[i] == '|';
      var x, y := p.dst[..i], p.dst[i + 1..];
      assert p.dst == x + "|" + y;
      q := CallPair(p.src + "|" + x, y, p.callType);
      assert name + "|" + (p.src + "|" + x) + "|" + y == name + "|" + p.src + "|" + (x + "|" + y);
    }
  }

  /** A pair has its key to itself exactly when neither of its numbers holds a bar. */
  lemma KeyUniqueIff(p: CallPair)
    ensures (forall q :: Key(q) == Key(p) ==> q == p) <==> BarFree(p.src) && BarFree(p.dst)
  {
    hide Key;
    if BarFree(p.src) && BarFree(p.dst) {
      forall q | Key(q) == Key(p) ensures q == p { PlainKey(p, q); }
    } else {
      var q := OtherWithKey(p);
    }
  }

  lemma PlainKey(p: CallPair, q: CallPair)
    requires BarFree(p.src) && BarFree(p.dst) && Key(q) == Key(p)
    ensures q == p
  {
    var a, b := CallName(p.callType), CallName(q.callType);
    assert Key(p) == a + "|" + (p.src + "|" + p.dst) && Key(q) == b + "|" + (q.src + "|" + q.dst);
    SplitAtBar(a, b, p.src + "|" + p.dst, q.src + "|" + q.dst);
    OneBar(p.src, p.dst, q.src, q.dst);
    assert |a| == |b|;
  }

  lemma BarsCollide()
    ensures Key(CallPair("1|2", "3", Bridge)) == Key(CallPair("1", "2|3", Bridge))
  {
    assert "bridge" + "|" + "1|2" + "|" + "3" == "bridge" + "|" + "1" + "|" + "2|3";
  }

  // ------------------------------------------------------------------- runs

  /** A call asks first and later records what it used; calls of many pairs interleave. */
  datatype Event = Ask(pair: CallPair, now: Time) | Record(pair: CallPair, used: bool, now: Time)

  function After(h: seq<Event>): States
  {
    if h == [] then map[]
    else
      var states, e := After(h[..|h| - 1]), h[|h| - 1];
      match e
      case Ask(_, _) => states
      case Record(p, used, now) => states[Key(p) := PairState(used, now)]
  }

  /** The place of the next call of `p` in its streak, read off `p`'s own events: how many
      calls the streak has completed, when the last one was recorded, and where an
      outstanding ask stands. */
  datatype Turn = Turn(done: nat, seen: Option<Time>, pending: Option<nat>)
  {
    function Position(ttl: int, now: Time): nat
    {
      if seen.None? || now - seen.value > ttl then 0 else done
    }
  }

  function TurnOf(ttl: int, h: seq<Event>, p: CallPair): Turn
  {
    if h == [] then Turn(0, None, None)
    else
      var t, e := TurnOf(ttl, h[..|h| - 1], p), h[|h| - 1];
      if e.pair != p then t
      else match e
           case Ask(_, now) => t.(pending := Some(t.Position(ttl, now)))
           case Record(_, _, now) =>
             Turn(if t.pending.Some? then t.pending.value + 1 else 0, Some(now), None)
  }

  /** `p`'s callers record the answer they were given, one call at a time. */
  ghost predicate Honest(ttl: int, h: seq<Event>, p: CallPair)
  {
    if h == [] then true
    else
      var before, e := h[..|h| - 1], h[|h| - 1];
      && Honest(ttl, before, p)
      && (e.Record? && e.pair == p ==> Given(ttl, before, p) == Some(e.used))
  }

  /** The answer to the latest ask of `p` that has not been recorded yet. */
  function Given(ttl: int, h: seq<Event>, p: CallPair): Option<bool>
  {
    if h == [] then None
    else
      var before, e := h[..|h| - 1], h[|h| - 1];
      if e.pair != p then Given(ttl, before, p)
      else if e.Ask? then Some(Allows(After(before), ttl, p, e.now))
      else None
  }

  predicate Even(n: nat) { n % 2 == 0 }

  /** Over any interleaving, the n-th call of a streak is allowed T.38 exactly when n is
      even: calls alternate from "on", and a gap longer than the TTL starts over. */
  lemma {:induction false} ProbesAlternate(ttl: int, h: seq<Event>, p: CallPair)
    requires BarFree(p.src) && forall e | e in h :: BarFree(e.pair.src)
    requires Honest(ttl, h, p)
    ensures forall now :: Allows(After(h), ttl, p, now) == Even(TurnOf(ttl, h, p).Position(ttl, now))
    ensures Given(ttl, h, p) == (var n := TurnOf(ttl, h, p).pending; if n.Some? then Some(Even(n.value)) else None)
    ensures var t := TurnOf(ttl, h, p);
            && (Key(p) in After(h) <==> t.seen.Some?)
            && (t.seen.Some? ==> After(h)[Key(p)] == PairState(!Even(t.done), t.seen.value))
  {
    if h != [] {
      var before, e := h[..|h| - 1], h[|h| - 1];
      assert e in h;
      ProbesAlternate(ttl, before, p);
      if e.pair != p && Key(e.pair) == Key(p) { KeyInjective(e.pair, p); }
    }
  }

  class Prober {
    const ttl: int
    var pairStates: States
    ghost var history: seq<Event>

    ghost predicate Valid()
      reads this
    {
      pairStates == After(history)
    }

    constructor (ttl: int)
      ensures Valid() && history == [] && this.ttl == ttl
    {
      this.ttl, pairStates, history := ttl, map[], [];
    }

    method ShouldAllowT38ForPair(p: CallPair, now: Time) returns (allowed: bool)
      requires Valid()
      modifies `history
      ensures Valid() && history == old(history) + [Ask(p, now)]
      ensures allowed == Allows(After(old(history)), ttl, p, now)
      ensures Given(ttl, history, p) == Some(allowed)
    {
      var key := Key(p);
      if key !in pairStates || now - pairStates[key].lastSeen > ttl {
        allowed := true;
      } else {
        allowed := !pairStates[key].lastUsedT38;
      }
      history := history + [Ask(p, now)];
      assert history[..|history| - 1] == old(history);
    }

    method UpdateT38PairState(p: CallPair, used: bool, now: Time)
      requires Valid()
      modifies this
      ensures Valid() && history == old(history) + [Record(p, used, now)]
    {
      var key := Key(p);
      pairStates := pairStates[key := PairState(used, now)];
      history := history + [Record(p, used, now)];
      assert history[..|history| - 1] == old(history);
    }
  }
}
