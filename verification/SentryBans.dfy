/** What the sentry's bans mean to the outside (gofaxserver/ipsentry.go): when a failure
    bans, how long each ban lasts, what it writes, and what ends it early. */
module SentryBans {
  import opened Seqs
  import opened SlidingWindow
  import opened IPSentry

  function Seen(s: State, ip: string): nat { if ip in s.offenses then s.offenses[ip] else 0 }
  function Stored(s: State, ip: string): nat { if ip in s.rows then s.rows[ip].offenseCount else 0 }

  /** The n-th offense of an address, as the process or the row counts them, bans it for
      the n-th configured duration, and for good beyond the last. */
  lemma AutoBanLasts(cfg: Config, s: State, e: Event, ip: string, at: Time)
    requires AutoBans(cfg, s, e, ip) && e.now <= at
    ensures var n := 1 + if Seen(s, ip) < Stored(s, ip) then Stored(s, ip) else Seen(s, ip);
            IsBanned(Step(cfg, s, e), ip, at) <==> (n <= |cfg.durations| ==> at <= e.now + cfg.durations[n - 1])
  {
  }

  /** What an automatic ban writes: row and cached record alike, and nothing about any
      other address. */
  lemma AutoBanWrites(cfg: Config, s: State, e: Event, ip: string)
    requires AutoBans(cfg, s, e, ip)
    ensures var s' := Step(cfg, s, e);
            && ip in s'.rows && ip in s'.banned && s'.banned[ip] == s'.rows[ip]
            && s'.rows == s.rows[ip := s'.rows[ip]] && s'.banned == s.banned[ip := s'.rows[ip]]
            && s'.rows[ip].ip == ip && s'.rows[ip].source == Sentry && s'.rows[ip].active
            && s'.rows[ip].bannedAt == e.now
            && Stored(s', ip) == Seen(s', ip) > Stored(s, ip)
            && s'.failures == s.failures - {ip}
            && s'.firewall == if e.fw then s.firewall + {ip} else s.firewall
    ensures var fails, n := Step(cfg, s, e).rows[ip].failCount,
                            1 + |set i: nat | i < |FailuresOf(s, ip)| && e.now - cfg.window < FailuresOf(s, ip)[i]|;
            && fails >= n
            && (ip in s.rows ==> fails >= s.rows[ip].failCount)
            && (fails == n || (ip in s.rows && fails == s.rows[ip].failCount))
  {
    hide Recent;
    RecentKeeps(FailuresOf(s, ip), e.now, cfg.window, e.now);
  }

  // -------------------------------------------------- which ban of a run it is

  /** The automatic bans of an address along a history. */
  ghost function AutoBanCount(cfg: Config, h: seq<Event>, ip: string): nat
  {
    if h == [] then 0
    else
      var before, e := h[..|h| - 1], h[|h| - 1];
      AutoBanCount(cfg, before, ip) + if AutoBans(cfg, Run(cfg, before), e, ip) then 1 else 0
  }

  lemma StepOnOffenses(cfg: Config, s: State, e: Event, ip: string)
    requires !(e.Banned? && e.ip == ip)
    ensures var s', n := Step(cfg, s, e), 1 + if Seen(s, ip) < Stored(s, ip) then Stored(s, ip) else Seen(s, ip);
            if AutoBans(cfg, s, e, ip) then Stored(s', ip) == Seen(s', ip) == n
            else Stored(s', ip) == Stored(s, ip) && Seen(s', ip) <= Seen(s, ip)
  {
    hide Recent;
  }

  lemma {:induction false} OffensesAreBans(cfg: Config, h: seq<Event>, ip: string)
    requires forall e | e in h :: !(e.Banned? && e.ip == ip)
    ensures Seen(Run(cfg, h), ip) <= Stored(Run(cfg, h), ip) == AutoBanCount(cfg, h, ip)
  {
    hide Step, AutoBans;
    if h != [] {
      var before, e := h[..|h| - 1], h[|h| - 1];
      assert e in h;
      OffensesAreBans(cfg, before, ip);
      StepOnOffenses(cfg, Run(cfg, before), e, ip);
    }
  }

  /** Over any run without manual bans of the address, restarts included, its k-th
      automatic ban lasts the k-th duration, and every one beyond the last is permanent. */
  lemma KthBanLasts(cfg: Config, h: seq<Event>, i: nat, ip: string, at: Time)
    requires i < |h| && AutoBans(cfg, Run(cfg, h[..i]), h[i], ip) && h[i].now <= at
    requires forall e | e in h[..i] :: !(e.Banned? && e.ip == ip)
    ensures var k := AutoBanCount(cfg, h[..i + 1], ip);
            && k > 0
            && (IsBanned(Run(cfg, h[..i + 1]), ip, at) <==>
                  (k <= |cfg.durations| ==> at <= h[i].now + cfg.durations[k - 1]))
  {
    hide Step, AutoBans, IsBanned;
    RunSnoc(cfg, h, i);
    assert h[..i + 1][..i] == h[..i];
    OffensesAreBans(cfg, h[..i], ip);
    AutoBanLasts(cfg, Run(cfg, h[..i]), h[i], ip, at);
  }

  // ------------------------------------------------------- a ban holds on

  /** The cached ban and the active row of an address, which has not lapsed at `now`. */
  predicate Banned(s: State, ip: string, rec: Ban, now: Time)
  {
    && ip in s.banned && s.banned[ip] == rec && ip in s.rows && s.rows[ip] == rec
    && rec.active && !Lapsed(rec, now)
  }

  /** An event that lets an address go: a manual release, or an endpoint's list that has
      come to contain it. */
  predicate LetsGo(e: Event, ip: string)
  {
    || (e.Unbanned? && e.ip == ip)
    || ((e.Reconciled? || e.Ticked?) && e.acl(ip))
  }

  lemma BanHoldsStep(cfg: Config, s: State, e: Event, ip: string, rec: Ban)
    requires Banned(s, ip, rec, e.now) && !Whitelisted(cfg, ip) && !LetsGo(e, ip)
    ensures Banned(Step(cfg, s, e), ip, rec, e.now)
  {
    hide Recent;
  }

  /** Once a failure bans an address, nothing but a release or an endpoint's list ends the
      ban before its time: not restarts, flushed firewalls, lost commands, further
      failures, other addresses, nor manual bans of the same one. */
  lemma {:induction false} BanHolds(cfg: Config, s: State, h: seq<Event>, ip: string, rec: Ban, start: Time)
    requires Banned(s, ip, rec, start) && !Whitelisted(cfg, ip)
    requires forall e | e in h :: start <= e.now && !Lapsed(rec, e.now) && !LetsGo(e, ip)
    ensures Banned(RunFrom(cfg, s, h), ip, rec, start)
  {
    hide Step, LetsGo;
    if h != [] {
      var before, e := h[..|h| - 1], h[|h| - 1];
      assert e in h;
      BanHolds(cfg, s, before, ip, rec, start);
      BanHoldsStep(cfg, RunFrom(cfg, s, before), e, ip, rec);
    }
  }

  ghost function RunFrom(cfg: Config, s: State, h: seq<Event>): State
  {
    if h == [] then s else Step(cfg, RunFrom(cfg, s, h[..|h| - 1]), h[|h| - 1])
  }

  /** End to end: an automatic ban that is the address's n-th offense is in force at every
      moment of its n-th duration (and ever after, beyond the last), through any further
      events but those. */
  lemma AutoBanHolds(cfg: Config, s: State, e: Event, ip: string, h: seq<Event>, at: Time)
    requires AutoBans(cfg, s, e, ip) && e.now <= at
    requires forall d | d in h :: e.now <= d.now <= at && !LetsGo(d, ip)
    requires var n := 1 + if Seen(s, ip) < Stored(s, ip) then Stored(s, ip) else Seen(s, ip);
             n <= |cfg.durations| ==> at <= e.now + cfg.durations[n - 1]
    ensures IsBanned(RunFrom(cfg, Step(cfg, s, e), h), ip, at)
  {
    hide Step, AutoBans, LetsGo;
    var s' := Step(cfg, s, e);
    AutoBanLasts(cfg, s, e, ip, at);
    AutoBanWrites(cfg, s, e, ip);
    AutoBansSpareListed(cfg, s, e, ip);
    BanHolds(cfg, s', h, ip, s'.rows[ip], e.now);
  }

  lemma AutoBansSpareListed(cfg: Config, s: State, e: Event, ip: string)
    requires AutoBans(cfg, s, e, ip)
    ensures !Whitelisted(cfg, ip)
  {
  }

  // ------------------------------------------------------ when a failure bans

  /** The criterion counted out: with the present one, `threshold` of the failures logged
      for the address are later than the start of the window. */
  lemma FailureBansIff(cfg: Config, h: seq<Event>, ip: string, acl: string -> bool, fw: bool, now: Time)
    requires Ordered(h) && (h != [] ==> h[|h| - 1].now <= now)
    ensures var s, log := Run(cfg, h), Log(cfg, h, ip);
            IsBanned(RecordFailure(cfg, s, ip, acl, fw, now), ip, now) <==>
              || IsBanned(s, ip, now)
              || (&& cfg.parses(ip) && !cfg.listed(ip) && !acl(ip) && ip !in s.banned
                  && 1 + |set i: nat | i < |log| && now - cfg.window < log[i]| >= cfg.threshold)
  {
    hide RecordFailure, Log, Recent, IsBanned;
    var log := Log(cfg, h, ip);
    RecordFailureBansIff(cfg, h, ip, acl, fw, now);
    RecentKeeps(log, now, cfg.window, now);
    RecentAppend(log, now, now, cfg.window);
  }

  // --------------------------------------------------- manual bans and releases

  /** A manual ban lasts as long as asked, and one without a duration for good; a timed one
      needs its firewall command. */
  lemma ManualBanLasts(cfg: Config, s: State, ip: string, duration: Option<int>, fw: bool, now: Time, at: Time)
    requires cfg.parses(ip) && !cfg.listed(ip) && !IsBanned(s, ip, now) && now <= at
    requires duration.Some? ==> fw
    ensures IsBanned(BanManual(cfg, s, ip, duration, fw, now), ip, at) <==>
              (duration.Some? ==> at <= now + duration.value)
  {
  }

  /** What it writes: a timed ban counts as one more offense, a permanent one as more than
      there are durations. */
  lemma ManualBanWrites(cfg: Config, s: State, ip: string, duration: Option<int>, fw: bool, now: Time)
    requires cfg.parses(ip) && !cfg.listed(ip) && !IsBanned(s, ip, now)
    ensures var s' := BanManual(cfg, s, ip, duration, fw, now);
            && ip in s'.rows && s'.rows == s.rows[ip := s'.rows[ip]]
            && s'.rows[ip].ip == ip && s'.rows[ip].source == Admin && s'.rows[ip].active
            && s'.rows[ip].bannedAt == now
            && s'.rows[ip].expiresAt == (if duration.Some? then Some(now + duration.value) else None)
            && s'.rows[ip].offenseCount == (if duration.Some? then Stored(s, ip) + 1 else |cfg.durations| + 1)
            && s'.rows[ip].failCount == (if ip in s.rows then s.rows[ip].failCount else 0)
            && s'.banned == (if duration.Some? && !fw then s.banned else s.banned[ip := s'.rows[ip]])
            && s'.firewall == (if fw then s.firewall + {ip} else s.firewall)
            && s'.failures == s.failures && s'.offenses == s.offenses
  {
  }

  /** A release ends the ban for good, takes the address out of the firewall unless that
      command fails, and keeps the row, inactive; nothing of another address changes. */
  lemma ReleaseEnds(s: State, ip: string, fw: string -> bool, now: Time)
    requires IsBanned(s, ip, now)
    ensures var s' := UnbanManual(s, ip, fw, now);
            && ip !in s'.banned && ip !in s'.failures
            && (ip in s'.firewall <==> ip in s.firewall && !fw(ip))
            && s'.rows.Keys == s.rows.Keys && (ip in s.rows ==> s'.rows[ip] == s.rows[ip].(active := false))
            && s'.offenses == s.offenses
            && forall o | o != ip ::
                 && (o in s'.banned <==> o in s.banned) && (o in s.banned ==> s'.banned[o] == s.banned[o])
                 && (o in s'.failures <==> o in s.failures) && (o in s.failures ==> s'.failures[o] == s.failures[o])
                 && (o in s'.firewall <==> o in s.firewall)
                 && (o in s.rows ==> s'.rows[o] == s.rows[o])
  {
  }

  /** Nobody is banned at all on a whitelist, by failures or by hand. */
  lemma ListedIsSpared(cfg: Config, s: State, ip: string, acl: string -> bool, duration: Option<int>, fw: bool, now: Time)
    requires !cfg.parses(ip) || cfg.listed(ip)
    ensures RecordFailure(cfg, s, ip, acl, fw, now) == s && BanManual(cfg, s, ip, duration, fw, now) == s
  {
  }
}
