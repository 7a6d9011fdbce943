/** The SIP brute-force sentry (gofaxserver/ipsentry.go) as steps over its caches, the
    persisted ban rows and the firewall set. */
module IPSentry {
  import opened Seqs
  import opened SlidingWindow

  datatype Source = Sentry | Admin

  /** A persisted ban record; no expiry means permanent. */
  datatype Ban = Ban(ip: string, source: Source, failCount: nat, offenseCount: nat,
                     bannedAt: Time, expiresAt: Option<Time>, active: bool)

  type Duration = d: int | 0 < d witness 1

  datatype Config = Config(parses: string -> bool, listed: string -> bool,
                           durations: seq<Duration>, threshold: Duration, window: Duration)

  datatype State = State(
    failures: map<string, seq<Time>>,   // sliding window of failed-ACL hits
    banned: map<string, Ban>,           // active bans, the fast-path cache
    offenses: map<string, nat>,         // ban count per IP known to this process
    rows: map<string, Ban>,             // the database table, one row per IP
    firewall: set<string>)              // what the host firewall drops

  predicate Whitelisted(cfg: Config, ip: string) { cfg.parses(ip) && cfg.listed(ip) }

  predicate Lapsed(b: Ban, now: Time) { b.expiresAt.Some? && b.expiresAt.value < now }

  predicate IsBanned(s: State, ip: string, now: Time)
  {
    ip in s.banned && !Lapsed(s.banned[ip], now)
  }

  function FailuresOf(s: State, ip: string): seq<Time>
  {
    if ip in s.failures then s.failures[ip] else []
  }

  function Max(a: nat, b: nat): nat { if a < b then b else a }

  // ----------------------------------------------------------------- steps

  function NextOffense(s: State, ip: string): nat
  {
    Max((if ip in s.offenses then s.offenses[ip] else 0) + 1,
        if ip in s.rows then s.rows[ip].offenseCount + 1 else 0)
  }

  function Expiry(cfg: Config, offense: nat, now: Time): Option<Time>
    requires offense > 0
  {
    if offense <= |cfg.durations| then Some(now + cfg.durations[offense - 1]) else None
  }

  predicate Refuses(s: State, ip: string, acl: string -> bool)
  {
    acl(ip) || (ip in s.banned && s.banned[ip].active)
  }

  /** An automatic ban: escalating, persisted, enforced, with the failure log cleared. */
  function AutoBan(cfg: Config, s: State, ip: string, failCount: nat, acl: string -> bool, fw: bool, now: Time): State
  {
    if Refuses(s, ip, acl) then s
    else
      var offense := NextOffense(s, ip);
      var worst := if ip in s.rows then Max(s.rows[ip].failCount, failCount) else failCount;
      var rec := Ban(ip, Sentry, worst, offense, now, Expiry(cfg, offense, now), true);
      State(s.failures - {ip}, s.banned[ip := rec], s.offenses[ip := offense], s.rows[ip := rec],
            if fw then s.firewall + {ip} else s.firewall)
  }

  predicate Recorded(cfg: Config, s: State, ip: string, now: Time)
  {
    cfg.parses(ip) && !Whitelisted(cfg, ip) && !IsBanned(s, ip, now)
  }

  function RecordFailure(cfg: Config, s: State, ip: string, acl: string -> bool, fw: bool, now: Time): State
  {
    if !Recorded(cfg, s, ip, now) then s
    else
      var kept := Recent(FailuresOf(s, ip), now, cfg.window) + [now];
      var s1 := s.(failures := s.failures[ip := kept]);
      if |kept| >= cfg.threshold then AutoBan(cfg, s1, ip, |kept|, acl, fw, now) else s1
  }

  predicate Bannable(cfg: Config, s: State, ip: string, now: Time)
  {
    cfg.parses(ip) && !Whitelisted(cfg, ip) && !IsBanned(s, ip, now)
  }

  /** The record a manual ban writes: timed bans continue the row's offense count,
      permanent ones jump past the ladder. */
  function ManualRecord(cfg: Config, s: State, ip: string, duration: Option<int>, now: Time): Ban
  {
    var prior := if ip in s.rows then s.rows[ip].offenseCount else 0;
    var fails := if ip in s.rows then s.rows[ip].failCount else 0;
    match duration
    case Some(d) => Ban(ip, Admin, fails, prior + 1, now, Some(now + d), true)
    case None => Ban(ip, Admin, fails, |cfg.durations| + 1, now, None, true)
  }

  function BanManual(cfg: Config, s: State, ip: string, duration: Option<int>, fw: bool, now: Time): State
  {
    if !Bannable(cfg, s, ip, now) then s
    else
      var rec := ManualRecord(cfg, s, ip, duration, now);
      var s1 := s.(rows := s.rows[ip := rec], firewall := if fw then s.firewall + {ip} else s.firewall);
      if duration.Some? && !fw then s1 else s1.(banned := s1.banned[ip := rec])
  }

  function Inactive(b: Ban): Ban { b.(active := false) }

  /** Releases every IP of a set: cache, failure log and active row; the firewall entry
      goes unless that command fails. */
  function Release(s: State, ips: set<string>, fw: string -> bool): State
  {
    State(s.failures - ips, s.banned - ips, s.offenses,
          map ip | ip in s.rows :: if ip in ips then Inactive(s.rows[ip]) else s.rows[ip],
          set ip | ip in s.firewall && !(ip in ips && fw(ip)))
  }

  function UnbanManual(s: State, ip: string, fw: string -> bool, now: Time): State
  {
    if IsBanned(s, ip, now) then Release(s, {ip}, fw) else s
  }

  function Legitimate(cfg: Config, s: State, acl: string -> bool): set<string>
  {
    set ip | ip in s.banned && (Whitelisted(cfg, ip) || acl(ip))
  }

  function Reconcile(cfg: Config, s: State, acl: string -> bool, fw: string -> bool): State
  {
    Release(s, Legitimate(cfg, s, acl), fw)
  }

  function LapsedBans(s: State, now: Time): set<string>
  {
    set ip | ip in s.banned && Lapsed(s.banned[ip], now)
  }

  function Enforced(s: State, fw: string -> bool): State
  {
    s.(firewall := s.firewall + set ip | ip in s.banned && fw(ip))
  }

  function JanitorTick(cfg: Config, s: State, acl: string -> bool, fw: string -> bool, now: Time): State
  {
    Reconcile(cfg, Enforced(Release(s, LapsedBans(s, now), fw), fw), acl, fw)
  }

  function ActiveRows(rows: map<string, Ban>): map<string, Ban>
  {
    map ip | ip in rows && rows[ip].active :: rows[ip]
  }

  /** A restart keeps only the rows and the firewall, and re-applies the active rows. */
  function Restart(s: State, fw: string -> bool, now: Time): State
  {
    var s1 := State(map[], ActiveRows(s.rows), map[], s.rows, s.firewall);
    Enforced(Release(s1, LapsedBans(s1, now), fw), fw)
  }

  datatype Event =
    | Failed(ip: string, acl: string -> bool, fw: bool, now: Time)
    | Banned(ip: string, duration: Option<int>, fw: bool, now: Time)
    | Unbanned(ip: string, fws: string -> bool, now: Time)
    | Reconciled(acl: string -> bool, fws: string -> bool, now: Time)
    | Ticked(acl: string -> bool, fws: string -> bool, now: Time)
    | Restarted(fws: string -> bool, now: Time)
    | Flushed(lost: set<string>, now: Time)

  function Step(cfg: Config, s: State, e: Event): State
  {
    match e
    case Failed(ip, acl, fw, now) => RecordFailure(cfg, s, ip, acl, fw, now)
    case Banned(ip, duration, fw, now) => BanManual(cfg, s, ip, duration, fw, now)
    case Unbanned(ip, fws, now) => UnbanManual(s, ip, fws, now)
    case Reconciled(acl, fws, now) => Reconcile(cfg, s, acl, fws)
    case Ticked(acl, fws, now) => JanitorTick(cfg, s, acl, fws, now)
    case Restarted(fws, now) => Restart(s, fws, now)
    case Flushed(lost, now) => s.(firewall := s.firewall - lost)
  }

  const Initial := State(map[], map[], map[], map[], {})

  ghost function Run(cfg: Config, h: seq<Event>): State
  {
    if h == [] then Initial else Step(cfg, Run(cfg, h[..|h| - 1]), h[|h| - 1])
  }

  // ----------------------------------------- cache, rows and firewall agree

  ghost predicate Agree(s: State)
  {
    && s.banned == ActiveRows(s.rows)
    && forall ip | ip in s.rows :: s.rows[ip].ip == ip
  }

  /** A timed manual ban whose firewall command fails leaves a row without a cache entry. */
  predicate LeavesOrphanRow(cfg: Config, s: State, e: Event)
  {
    e.Banned? && e.duration.Some? && !e.fw && Bannable(cfg, s, e.ip, e.now)
  }

  lemma ReleaseAgrees(s: State, ips: set<string>, fw: string -> bool)
    requires Agree(s)
    ensures Agree(Release(s, ips, fw))
  {}

  lemma FailureAgrees(cfg: Config, s: State, ip: string, acl: string -> bool, fw: bool, now: Time)
    requires Agree(s)
    ensures Agree(RecordFailure(cfg, s, ip, acl, fw, now))
  {}

  lemma ManualBanAgreesIff(cfg: Config, s: State, ip: string, duration: Option<int>, fw: bool, now: Time)
    requires Agree(s)
    ensures Agree(BanManual(cfg, s, ip, duration, fw, now))
       <==> !(duration.Some? && !fw && Bannable(cfg, s, ip, now))
  {
    if duration.Some? && !fw && Bannable(cfg, s, ip, now) {
      var rows := BanManual(cfg, s, ip, duration, fw, now).rows;
      assert ip in ActiveRows(rows);
      assert ip in s.banned ==> ActiveRows(rows)[ip].offenseCount == s.banned[ip].offenseCount + 1;
    }
  }

  /** From a fresh start: a timed manual ban whose firewall command fails leaves an active
      row that nothing enforces, until a restart turns it into a ban. */
  lemma OrphanRowInput(cfg: Config, ip: string, now: Time)
    requires cfg.parses(ip) && !cfg.listed(ip)
    ensures var s := BanManual(cfg, Initial, ip, Some(60), false, now);
            && !Agree(s) && ip in ActiveRows(s.rows) && ip !in s.banned && s.firewall == {}
            && !IsBanned(s, ip, now) && IsBanned(Restart(s, _ => true, now), ip, now)
  {
    var s := BanManual(cfg, Initial, ip, Some(60), false, now);
    assert ip in ActiveRows(s.rows);
  }

  lemma TickAgrees(cfg: Config, s: State, acl: string -> bool, fw: string -> bool, now: Time)
    requires Agree(s)
    ensures Agree(JanitorTick(cfg, s, acl, fw, now))
  {
    ReleaseAgrees(s, LapsedBans(s, now), fw);
    var s2 := Enforced(Release(s, LapsedBans(s, now), fw), fw);
    ReleaseAgrees(s2, Legitimate(cfg, s2, acl), fw);
  }

  lemma RestartAgrees(s: State, fw: string -> bool, now: Time)
    requires Agree(s)
    ensures Agree(Restart(s, fw, now))
  {
    var s1 := State(map[], ActiveRows(s.rows), map[], s.rows, s.firewall);
    ReleaseAgrees(s1, LapsedBans(s1, now), fw);
  }

  /** Every operation keeps cached bans and active rows equal, except exactly that one. */
  lemma StepAgreesIff(cfg: Config, s: State, e: Event)
    requires Agree(s)
    ensures Agree(Step(cfg, s, e)) <==> !LeavesOrphanRow(cfg, s, e)
  {
    match e
    case Failed(ip, acl, fw, now) => FailureAgrees(cfg, s, ip, acl, fw, now);
    case Banned(ip, duration, fw, now) => ManualBanAgreesIff(cfg, s, ip, duration, fw, now);
    case Unbanned(ip, fws, _) => ReleaseAgrees(s, {ip}, fws);
    case Reconciled(acl, fws, _) => ReleaseAgrees(s, Legitimate(cfg, s, acl), fws);
    case Ticked(acl, fws, now) => TickAgrees(cfg, s, acl, fws, now);
    case Restarted(fws, now) => RestartAgrees(s, fws, now);
    case Flushed(_, _) =>
  }

  lemma {:induction false} RunAgrees(cfg: Config, h: seq<Event>)
    requires forall i | 0 <= i < |h| :: !LeavesOrphanRow(cfg, Run(cfg, h[..i]), h[i])
    ensures Agree(Run(cfg, h))
  {
    if h != [] {
      var before := h[..|h| - 1];
      forall i | 0 <= i < |before| ensures !LeavesOrphanRow(cfg, Run(cfg, before[..i]), before[i]) {
        assert before[..i] == h[..i] && before[i] == h[i];
      }
      RunAgrees(cfg, before);
      StepAgreesIff(cfg, Run(cfg, before), h[|h| - 1]);
    }
  }

  /** After a tick no cached ban is lapsed, whitelisted or matched by an endpoint ACL, and
      each remaining one is enforced as far as the firewall commands worked. */
  lemma TickCleans(cfg: Config, s: State, acl: string -> bool, fw: string -> bool, now: Time)
    ensures var s' := JanitorTick(cfg, s, acl, fw, now);
            forall ip | ip in s'.banned ::
              && !Lapsed(s'.banned[ip], now) && !Whitelisted(cfg, ip) && !acl(ip)
              && (fw(ip) ==> ip in s'.firewall)
              && ip in s.banned && s'.banned[ip] == s.banned[ip]
    ensures var s' := JanitorTick(cfg, s, acl, fw, now);
            forall ip | ip in s.banned && !Lapsed(s.banned[ip], now) && !Whitelisted(cfg, ip) && !acl(ip) ::
              ip in s'.banned
  {}

  /** A restart answers every ban question as before, from then on. */
  lemma RestartTransparent(s: State, fw: string -> bool, now: Time, ip: string, at: Time)
    requires Agree(s) && now <= at
    ensures IsBanned(Restart(s, fw, now), ip, at) == IsBanned(s, ip, at)
    ensures ip in Restart(s, fw, now).banned && fw(ip) ==> ip in Restart(s, fw, now).firewall
  {}

  /** When the ban of `ip` among `bans` ends, if there is one that has not lapsed. */
  function LiveUntil(bans: map<string, Ban>, ip: string, now: Time): Option<Option<Time>>
  {
    if ip in bans && !Lapsed(bans[ip], now) then Some(bans[ip].expiresAt) else None
  }

  /** In any state, a restart answers about `ip` as before, from then on, exactly when the
      cached ban and the active row are both gone or lapsed, or end together. */
  lemma RestartTransparentIff(s: State, fw: string -> bool, now: Time, ip: string)
    ensures (forall at | now <= at :: IsBanned(Restart(s, fw, now), ip, at) == IsBanned(s, ip, at))
       <==> LiveUntil(s.banned, ip, now) == LiveUntil(ActiveRows(s.rows), ip, now)
  {
    var c, r := LiveUntil(s.banned, ip, now), LiveUntil(ActiveRows(s.rows), ip, now);
    forall at | now <= at
      ensures IsBanned(s, ip, at) <==> c.Some? && (c.value.Some? ==> at <= c.value.value)
      ensures IsBanned(Restart(s, fw, now), ip, at) <==> r.Some? && (r.value.Some? ==> at <= r.value.value)
    {
    }
    var late := LaterThan(now, c, r);
    assert IsBanned(Restart(s, fw, now), ip, now) == IsBanned(s, ip, now) ==> c.Some? == r.Some?;
    assert IsBanned(Restart(s, fw, now), ip, late) == IsBanned(s, ip, late) || c != r;
  }

  /** A time just after the earlier of two ends. */
  function LaterThan(now: Time, c: Option<Option<Time>>, r: Option<Option<Time>>): (t: Time)
    ensures now <= t
  {
    match (c, r)
    case (Some(Some(x)), Some(Some(y))) => if now <= x < y then x + 1 else if now <= y < x then y + 1 else now
    case (Some(Some(x)), _) => if now <= x then x + 1 else now
    case (_, Some(Some(y))) => if now <= y then y + 1 else now
    case _ => now
  }

  // --------------------------------------------------- the sliding window

  ghost predicate Ordered(h: seq<Event>)
  {
    forall i, j | 0 <= i < j < |h| :: h[i].now <= h[j].now
  }

  /** A ban created by this step's failure count. */
  predicate AutoBans(cfg: Config, s: State, e: Event, ip: string)
  {
    && e.Failed? && e.ip == ip && Recorded(cfg, s, ip, e.now)
    && |Recent(FailuresOf(s, ip), e.now, cfg.window)| + 1 >= cfg.threshold
    && !Refuses(s, ip, e.acl)
  }

  /** Every failure recorded for `ip` since its last automatic ban, release or restart,
      however old. */
  ghost function Log(cfg: Config, h: seq<Event>, ip: string): seq<Time>
  {
    if h == [] then []
    else
      var before, e := h[..|h| - 1], h[|h| - 1];
      var s, log := Run(cfg, before), Log(cfg, before, ip);
      if e.Restarted? || AutoBans(cfg, s, e, ip) || (ip in s.banned && ip !in Step(cfg, s, e).banned) then []
      else if e.Failed? && e.ip == ip && Recorded(cfg, s, ip, e.now) then log + [e.now]
      else log
  }

  lemma {:induction false} WindowTracksLog(cfg: Config, h: seq<Event>, ip: string, now: Time)
    requires Ordered(h) && (h != [] ==> h[|h| - 1].now <= now)
    ensures Recent(FailuresOf(Run(cfg, h), ip), now, cfg.window) == Recent(Log(cfg, h, ip), now, cfg.window)
  {
    if h != [] {
      var before, e := h[..|h| - 1], h[|h| - 1];
      var s := Run(cfg, before);
      WindowTracksLog(cfg, before, ip, e.now);
      WindowTracksLog(cfg, before, ip, now);
      var ts, log := FailuresOf(s, ip), Log(cfg, before, ip);
      StepOnFailures(cfg, s, e, ip);
      if e.Failed? && e.ip == ip && Recorded(cfg, s, ip, e.now) && !AutoBans(cfg, s, e, ip) {
        RecentAppend(Recent(ts, e.now, cfg.window), e.now, now, cfg.window);
        RecentAppend(log, e.now, now, cfg.window);
        RecentAbsorbs(ts, e.now, now, cfg.window);
      }
    }
  }

  lemma StepOnFailures(cfg: Config, s: State, e: Event, ip: string)
    ensures FailuresOf(Step(cfg, s, e), ip) ==
            if e.Restarted? || AutoBans(cfg, s, e, ip) || (ip in s.banned && ip !in Step(cfg, s, e).banned) then []
            else if e.Failed? && e.ip == ip && Recorded(cfg, s, ip, e.now)
            then Recent(FailuresOf(s, ip), e.now, cfg.window) + [e.now]
            else FailuresOf(s, ip)
  {}

  ghost predicate CachedActive(s: State) { forall ip | ip in s.banned :: s.banned[ip].active }

  lemma ReleaseKeepsActive(s: State, ips: set<string>, fw: string -> bool)
    requires CachedActive(s)
    ensures CachedActive(Release(s, ips, fw))
  {}

  lemma StepKeepsActive(cfg: Config, s: State, e: Event)
    requires CachedActive(s)
    ensures CachedActive(Step(cfg, s, e))
  {
    hide Release;
    match e
    case Failed(_, _, _, _) =>
    case Banned(_, _, _, _) =>
    case Unbanned(ip, fws, _) => ReleaseKeepsActive(s, {ip}, fws);
    case Reconciled(acl, fws, _) => ReleaseKeepsActive(s, Legitimate(cfg, s, acl), fws);
    case Ticked(acl, fws, now) =>
      ReleaseKeepsActive(s, LapsedBans(s, now), fws);
      var s2 := Enforced(Release(s, LapsedBans(s, now), fws), fws);
      ReleaseKeepsActive(s2, Legitimate(cfg, s2, acl), fws);
    case Restarted(fws, now) =>
      var s1 := State(map[], ActiveRows(s.rows), map[], s.rows, s.firewall);
      ReleaseKeepsActive(s1, LapsedBans(s1, now), fws);
    case Flushed(_, _) =>
  }

  /** Over any run, whatever the firewall did, every cached ban is an active one. */
  lemma {:induction false} CachedBansAreActive(cfg: Config, h: seq<Event>)
    ensures CachedActive(Run(cfg, h))
  {
    hide Step, CachedActive;
    if h == [] {
      NoBansCached();
    } else {
      CachedBansAreActive(cfg, h[..|h| - 1]);
      StepKeepsActive(cfg, Run(cfg, h[..|h| - 1]), h[|h| - 1]);
    }
  }

  lemma NoBansCached()
    ensures CachedActive(Initial)
  {}

  /** `RecordFailure` leaves the IP banned exactly when it already was, or when at least
      `threshold` logged failures, this one included, lie in the window, no endpoint ACL
      matches, and no lapsed record is still waiting for the janitor. */
  lemma RecordFailureBansIff(cfg: Config, h: seq<Event>, ip: string, acl: string -> bool, fw: bool, now: Time)
    requires Ordered(h) && (h != [] ==> h[|h| - 1].now <= now)
    ensures var s := Run(cfg, h);
            IsBanned(RecordFailure(cfg, s, ip, acl, fw, now), ip, now) <==>
              || IsBanned(s, ip, now)
              || (&& cfg.parses(ip) && !Whitelisted(cfg, ip) && !acl(ip) && ip !in s.banned
                  && |Recent(Log(cfg, h, ip) + [now], now, cfg.window)| >= cfg.threshold)
  {
    CachedBansAreActive(cfg, h);
    WindowTracksLog(cfg, h, ip, now);
    RecentAppend(Log(cfg, h, ip), now, now, cfg.window);
  }

  // ------------------------------------------------------ the ban ladder

  function Level(cfg: Config, s: State, ip: string): nat
  {
    var n := if ip in s.rows then s.rows[ip].offenseCount else 0;
    if n <= |cfg.durations| then n else |cfg.durations| + 1
  }

  /** No step lowers an IP's rung, and each automatic ban climbs until the top, where it
      is permanent. */
  lemma LadderClimbs(cfg: Config, s: State, e: Event, ip: string)
    ensures Level(cfg, s, ip) <= Level(cfg, Step(cfg, s, e), ip)
    ensures AutoBans(cfg, s, e, ip) ==>
              var s' := Step(cfg, s, e);
              && ip in s'.banned && s'.banned[ip].active
              && (Level(cfg, s, ip) <= |cfg.durations| ==> Level(cfg, s, ip) < Level(cfg, s', ip))
              && (s'.banned[ip].expiresAt.None? <==> Level(cfg, s', ip) == |cfg.durations| + 1)
  {}

  lemma {:induction false} LadderNeverFalls(cfg: Config, h: seq<Event>, i: nat, ip: string)
    requires i <= |h|
    ensures Level(cfg, Run(cfg, h[..i]), ip) <= Level(cfg, Run(cfg, h), ip)
    decreases |h|
  {
    if i < |h| {
      var before := h[..|h| - 1];
      assert before[..i] == h[..i];
      LadderNeverFalls(cfg, before, i, ip);
      LadderClimbs(cfg, Run(cfg, before), h[|h| - 1], ip);
    } else {
      assert h[..i] == h;
    }
  }

  /** Once an automatic ban was permanent, every later automatic ban is. */
  lemma PermanentStaysPermanent(cfg: Config, h: seq<Event>, i: nat, j: nat, ip: string)
    requires i < j < |h|
    requires AutoBans(cfg, Run(cfg, h[..i]), h[i], ip) && AutoBans(cfg, Run(cfg, h[..j]), h[j], ip)
    requires ip in Run(cfg, h[..i + 1]).banned && Run(cfg, h[..i + 1]).banned[ip].expiresAt.None?
    ensures ip in Run(cfg, h[..j + 1]).banned && Run(cfg, h[..j + 1]).banned[ip].expiresAt.None?
  {
    hide Step, AutoBans, Run;
    RunSnoc(cfg, h, i);
    RunSnoc(cfg, h, j);
    LadderClimbs(cfg, Run(cfg, h[..i]), h[i], ip);
    assert h[..j][..i + 1] == h[..i + 1];
    LadderNeverFalls(cfg, h[..j], i + 1, ip);
    LadderClimbs(cfg, Run(cfg, h[..j]), h[j], ip);
  }

  lemma RunSnoc(cfg: Config, h: seq<Event>, i: nat)
    requires i < |h|
    ensures Run(cfg, h[..i + 1]) == Step(cfg, Run(cfg, h[..i]), h[i])
  {
    assert h[..i + 1][..i] == h[..i];
  }
}
