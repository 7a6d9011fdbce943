/** The sentry as it runs (gofaxserver/ipsentry.go): maps updated in place, one entry at a
    time, tied to the steps of IPSentry. `fw` says which firewall commands succeed. */
module SentryProcess {
  import opened Seqs
  import opened SlidingWindow
  import opened IPSentry

  lemma ReleaseNone(s: State, fw: string -> bool)
    ensures Release(s, {}, fw) == s
  {}

  lemma ReleaseOneMore(s: State, ips: set<string>, ip: string, fw: string -> bool)
    ensures Release(Release(s, ips, fw), {ip}, fw) == Release(s, ips + {ip}, fw)
  {
    var a, b := Release(Release(s, ips, fw), {ip}, fw), Release(s, ips + {ip}, fw);
    assert a.rows == b.rows;
    assert a.firewall == b.firewall;
    assert a.banned == b.banned;
    assert a.failures == b.failures;
  }

  lemma ReleaseTargets(s: State, targets: set<string>, todo: set<string>, ip: string, fw: string -> bool)
    requires ip in todo
    ensures Release(s, targets - (todo - {ip}), fw) ==
            if ip in targets then Release(Release(s, targets - todo, fw), {ip}, fw) else Release(s, targets - todo, fw)
  {
    if ip in targets {
      ReleaseOneMore(s, targets - todo, ip, fw);
      assert targets - (todo - {ip}) == targets - todo + {ip};
    } else {
      assert targets - (todo - {ip}) == targets - todo;
    }
  }

  /** How far a restart has got when the active rows in `done` have been handled. */
  ghost function Restarting(s: State, done: set<string>, fw: string -> bool, now: Time): State
  {
    var active := ActiveRows(s.rows);
    State(map[],
          map ip | ip in active && ip in done && !Lapsed(active[ip], now) :: active[ip],
          map[],
          map ip | ip in s.rows ::
            if ip in active && ip in done && Lapsed(active[ip], now) then Inactive(s.rows[ip]) else s.rows[ip],
          (set ip | ip in s.firewall && !(ip in active && ip in done && Lapsed(active[ip], now) && fw(ip)))
          + (set ip | ip in active && ip in done && !Lapsed(active[ip], now) && fw(ip)))
  }

  lemma RestartStep(s: State, done: set<string>, ip: string, fw: string -> bool, now: Time)
    requires ip in ActiveRows(s.rows) && ip !in done
    ensures var p, n := Restarting(s, done, fw, now), Restarting(s, done + {ip}, fw, now);
            n == if Lapsed(s.rows[ip], now) then Release(p, {ip}, fw)
                 else p.(banned := p.banned[ip := s.rows[ip]],
                         firewall := if fw(ip) then p.firewall + {ip} else p.firewall)
  {
    var p, n := Restarting(s, done, fw, now), Restarting(s, done + {ip}, fw, now);
    var r := Release(p, {ip}, fw);
    if Lapsed(s.rows[ip], now) {
      assert n.rows == r.rows;
      assert n.banned == r.banned;
      assert n.firewall == r.firewall;
    } else {
      assert n.rows == p.rows;
      assert n.banned == p.banned[ip := s.rows[ip]];
      assert n.firewall == if fw(ip) then p.firewall + {ip} else p.firewall;
    }
  }

  lemma RestartEnds(s: State, fw: string -> bool, now: Time)
    ensures Restarting(s, {}, fw, now) == State(map[], map[], map[], s.rows, s.firewall)
    ensures Restarting(s, ActiveRows(s.rows).Keys, fw, now) == Restart(s, fw, now)
  {
    var p, n := Restarting(s, ActiveRows(s.rows).Keys, fw, now), Restart(s, fw, now);
    assert p.rows == n.rows;
    assert p.banned == n.banned;
    assert p.firewall == n.firewall;
  }

  class SentryProcess {
    const cfg: Config
    var failures: map<string, seq<Time>>
    var banned: map<string, Ban>
    var offenses: map<string, nat>
    var rows: map<string, Ban>
    var firewall: set<string>

    ghost function Now(): State
      reads this
    {
      State(failures, banned, offenses, rows, firewall)
    }

    /** A start over the persisted rows and whatever the firewall still holds. */
    constructor (cfg: Config, ghost before: State, rows: map<string, Ban>, firewall: set<string>,
                 fw: string -> bool, now: Time)
      requires rows == before.rows && firewall == before.firewall
      ensures this.cfg == cfg
      ensures Now() == Restart(before, fw, now)
    {
      this.cfg := cfg;
      failures, banned, offenses, this.rows, this.firewall := map[], map[], map[], rows, firewall;
      new;
      RestartEnds(before, fw, now);
      ReapplyActiveBans(before, fw, now);
    }

    method ReapplyActiveBans(ghost before: State, fw: string -> bool, now: Time)
      requires rows == before.rows && Now() == Restarting(before, {}, fw, now)
      modifies this
      ensures Now() == Restart(before, fw, now)
    {
      var active := ActiveRows(rows);
      var todo := active.Keys;
      while todo != {}
        invariant todo <= active.Keys
        invariant Now() == Restarting(before, active.Keys - todo, fw, now)
        decreases |todo|
      {
        var ip :| ip in todo;
        RestartStep(before, active.Keys - todo, ip, fw, now);
        assert active.Keys - (todo - {ip}) == active.Keys - todo + {ip};
        ReapplyOne(ip, active[ip], fw, now);
        todo := todo - {ip};
      }
      assert active.Keys - todo == active.Keys;
      RestartEnds(before, fw, now);
    }

    method ReapplyOne(ip: string, row: Ban, fw: string -> bool, now: Time)
      modifies this
      ensures Now() == if Lapsed(row, now) then Release(old(Now()), {ip}, fw)
                       else old(Now()).(banned := old(banned)[ip := row],
                                        firewall := if fw(ip) then old(firewall) + {ip} else old(firewall))
    {
      if row.expiresAt.Some? && row.expiresAt.value < now {
        UnbanIp(ip, fw);
      } else {
        if fw(ip) { firewall := firewall + {ip}; }
        banned := banned[ip := row];
      }
    }

    method IsBannedNow(ip: string, now: Time) returns (yes: bool)
      ensures yes == IsBanned(Now(), ip, now)
    {
      if ip !in banned { return false; }
      var b := banned[ip];
      if b.expiresAt.Some? && b.expiresAt.value < now { return false; }
      yes := true;
    }

    method RecordFailure(ip: string, acl: string -> bool, fw: bool, now: Time)
      modifies this
      ensures Now() == IPSentry.RecordFailure(cfg, old(Now()), ip, acl, fw, now)
    {
      if !cfg.parses(ip) { return; }
      if Whitelisted(cfg, ip) { return; }
      var already := IsBannedNow(ip, now);
      if already { return; }
      var ts := if ip in failures then failures[ip] else [];
      var kept := KeepRecent(ts, now, cfg.window);
      kept := kept + [now];
      failures := failures[ip := kept];
      if |kept| >= cfg.threshold { BanIp(ip, |kept|, acl, fw, now); }
    }

    method BanIp(ip: string, failCount: nat, acl: string -> bool, fw: bool, now: Time)
      modifies this
      ensures Now() == AutoBan(cfg, old(Now()), ip, failCount, acl, fw, now)
    {
      if acl(ip) { return; }
      if ip in banned && banned[ip].active { return; }
      var offense := (if ip in offenses then offenses[ip] else 0) + 1;
      var fails := failCount;
      if ip in rows {
        if rows[ip].offenseCount + 1 > offense { offense := rows[ip].offenseCount + 1; }
        if rows[ip].failCount > fails { fails := rows[ip].failCount; }
      }
      assert offense == NextOffense(old(Now()), ip);
      offenses := offenses[ip := offense];
      var expires := None;
      if offense <= |cfg.durations| { expires := Some(now + cfg.durations[offense - 1]); }
      assert expires == Expiry(cfg, offense, now);
      var rec := Ban(ip, Sentry, fails, offense, now, expires, true);
      Enforce(ip, rec, fw);
    }

    /** Firewall, row, cache, and an empty failure log for one automatic ban. */
    method Enforce(ip: string, rec: Ban, fw: bool)
      modifies `firewall, `rows, `banned, `failures
      ensures firewall == if fw then old(firewall) + {ip} else old(firewall)
      ensures rows == old(rows)[ip := rec] && banned == old(banned)[ip := rec]
      ensures failures == old(failures) - {ip}
    {
      if fw { firewall := firewall + {ip}; }
      rows := rows[ip := rec];
      banned := banned[ip := rec];
      failures := failures - {ip};
    }

    /** Returns false with the state unchanged when the ban is refused; a timed ban whose
        firewall command fails also returns false, after writing its row. */
    method BanManual(ip: string, duration: Option<int>, fw: bool, now: Time) returns (ok: bool)
      modifies this
      ensures Now() == IPSentry.BanManual(cfg, old(Now()), ip, duration, fw, now)
      ensures ok <==> Bannable(cfg, old(Now()), ip, now) && (duration.Some? ==> fw)
    {
      if !cfg.parses(ip) { return false; }
      if Whitelisted(cfg, ip) { return false; }
      var already := IsBannedNow(ip, now);
      if already { return false; }
      var rec;
      if duration.None? {
        rec := Ban(ip, Admin, 0, |cfg.durations| + 1, now, None, true);
        if ip in rows { rec := rec.(failCount := rows[ip].failCount); }
        rows := rows[ip := rec];
        if fw { firewall := firewall + {ip}; }
      } else {
        rec := Ban(ip, Admin, 0, 1, now, Some(now + duration.value), true);
        if ip in rows { rec := rec.(offenseCount := rows[ip].offenseCount + 1, failCount := rows[ip].failCount); }
        rows := rows[ip := rec];
        if !fw { return false; }
        firewall := firewall + {ip};
      }
      banned := banned[ip := rec];
      ok := true;
    }

    method UnbanIp(ip: string, fw: string -> bool)
      modifies this
      ensures Now() == Release(old(Now()), {ip}, fw)
    {
      if fw(ip) { firewall := firewall - {ip}; }
      banned := banned - {ip};
      failures := failures - {ip};
      if ip in rows && rows[ip].active { rows := rows[ip := Inactive(rows[ip])]; }
      ghost var s := Release(old(Now()), {ip}, fw);
      assert rows == s.rows;
      assert firewall == s.firewall;
    }

    method UnbanIP(ip: string, fw: string -> bool, now: Time) returns (ok: bool)
      modifies this
      ensures ok == IsBanned(old(Now()), ip, now)
      ensures Now() == UnbanManual(old(Now()), ip, fw, now)
    {
      ok := IsBannedNow(ip, now);
      if ok { UnbanIp(ip, fw); }
    }

    method ReleaseAll(ips: set<string>, fw: string -> bool)
      modifies this
      ensures Now() == Release(old(Now()), ips, fw)
    {
      var todo := ips;
      ghost var before := Now();
      ReleaseNone(before, fw);
      while todo != {}
        invariant todo <= ips
        invariant Now() == Release(before, ips - todo, fw)
        decreases |todo|
      {
        var ip :| ip in todo;
        ReleaseOneMore(before, ips - todo, ip, fw);
        assert ips - (todo - {ip}) == ips - todo + {ip};
        UnbanIp(ip, fw);
        todo := todo - {ip};
      }
      assert ips - todo == ips;
    }

    method Reconcile(acl: string -> bool, fw: string -> bool)
      modifies this
      ensures Now() == IPSentry.Reconcile(cfg, old(Now()), acl, fw)
    {
      var ips := banned.Keys;
      var todo := ips;
      ghost var before := Now();
      ghost var targets := Legitimate(cfg, before, acl);
      ReleaseNone(before, fw);
      while todo != {}
        invariant todo <= ips
        invariant Now() == Release(before, targets - todo, fw)
        decreases |todo|
      {
        var ip :| ip in todo;
        ReleaseTargets(before, targets, todo, ip, fw);
        if Whitelisted(cfg, ip) || acl(ip) {
          UnbanIp(ip, fw);
        }
        todo := todo - {ip};
      }
      assert targets - todo == targets;
    }

    method JanitorTick(acl: string -> bool, fw: string -> bool, now: Time)
      modifies this
      ensures Now() == IPSentry.JanitorTick(cfg, old(Now()), acl, fw, now)
    {
      var expired := set ip | ip in banned && Lapsed(banned[ip], now);
      var active := banned.Keys - expired;
      ReleaseAll(expired, fw);
      assert banned.Keys == active;
      firewall := firewall + set ip | ip in active && fw(ip);
      Reconcile(acl, fw);
    }
  }
}
