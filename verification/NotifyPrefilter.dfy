/** The portal drops derived report recipients that its custom segments already cover
    (portal/internal/api/handlers_admin.go), and prints what is left for the server. */
module NotifyPrefilter {
  import opened Seqs
  import opened NotifyLanguage
  import opened PortalNotify
  import opened NotifyRecipients
  import opened NotifyReading

  predicate Semicolon(c: char) { c == ';' }

  /** Lower-cased recipients of one custom segment, if it is an email_full. */
  function FullOfSegment(seg: string): set<string>
  {
    var i := ArrowAt(seg);
    if i == |seg| || Trim(seg[..i]) != "email_full" then {}
    else LowerPieces(seg[i + 2..])
  }

  function LowerPieces(dest: string): set<string>
  {
    set p | p in SplitOn(Semicolon, dest) && Trim(p) != "" :: Lower(Trim(p))
  }

  function FullOf(segs: seq<string>): set<string>
  {
    if segs == [] then {} else FullOf(segs[..|segs| - 1]) + FullOfSegment(segs[|segs| - 1])
  }

  method EmailFullRecipients(custom: string) returns (out: set<string>)
    ensures out == FullOf(CustomSegments(custom))
  {
    out := {};
    var ok, canonical := NormalizeCustomNotify(custom);
    ghost var segs := CustomSegments(custom);
    CustomSegmentsAreCanonical(custom);
    JoinEmpty(segs);
    if !ok || canonical == "" { return; }
    SplitCommaJoin(segs);
    out := FullOfPieces(SplitOn(Comma, canonical));
  }

  method FullOfPieces(pieces: seq<string>) returns (out: set<string>)
    ensures out == FullOf(pieces)
  {
    out := {};
    for n := 0 to |pieces|
      invariant out == FullOf(pieces[..n])
    {
      assert pieces[..n + 1][..n] == pieces[..n];
      var seg := pieces[n];
      var i := ArrowAt(seg);
      if i == |seg| || Trim(seg[..i]) != "email_full" { continue; }
      out := out + LowerPieces(seg[i + 2..]);
    }
    assert pieces[..|pieces|] == pieces;
  }

  predicate Spared(full: set<string>, email: string) { Lower(Trim(email)) !in full }

  function Sparing(full: set<string>): string -> bool { e => Spared(full, e) }

  method FilterDerivedReportEmails(emails: seq<string>, custom: string) returns (out: seq<string>)
    ensures out == Filter(Sparing(FullOf(CustomSegments(custom))), emails)
  {
    var full := EmailFullRecipients(custom);
    out := FilterAgainst(emails, full);
  }

  method FilterAgainst(emails: seq<string>, full: set<string>) returns (out: seq<string>)
    ensures out == Filter(Sparing(full), emails)
  {
    if full == {} {
      forall e ensures Spared(full, e) {}
      FilterAll(Sparing(full), emails);
      return emails;
    }
    out := [];
    for n := 0 to |emails|
      invariant out == Filter(Sparing(full), emails[..n])
    {
      assert emails[..n + 1] == emails[..n] + [emails[n]];
      FilterConcat(Sparing(full), emails[..n], [emails[n]]);
      if Spared(full, emails[n]) { out := out + [emails[n]]; }
    }
    assert emails[..|emails|] == emails;
  }

  /** The segments derived from assigned users and the service account. */
  function Derived(emails: seq<string>, svc: string): seq<string>
  {
    DerivedReport(emails) + DerivedAccount(svc)
  }

  function DerivedReport(emails: seq<string>): seq<string>
  {
    if emails == [] then [] else ["email_report->" + JoinSemi(emails)]
  }

  function DerivedAccount(svc: string): seq<string>
  {
    if svc == "" then [] else ["portal->" + svc]
  }

  /** What the server reads from the string the portal computes. */
  function Read(emails: seq<string>, svc: string, custom: string): seq<Destination>
  {
    Destinations(Split(Join(Merged(Derived(emails, svc), custom))))
  }

  /** What a user's mail field may hold: trimmed, and one comma-free segment's worth. */
  predicate Mailbox(email: string) { email != "" && Trimmed(email) && Free(Comma, email) }

  predicate AllMailboxes(emails: seq<string>) { forall i | 0 <= i < |emails| :: Mailbox(emails[i]) }

  /** A mail field may itself list several recipients. */
  ghost predicate Mailed(emails: seq<string>, r: string)
  {
    exists i | 0 <= i < |emails| :: r in Recipients(emails[i])
  }

  lemma {:induction false} JoinedMailboxes(emails: seq<string>, r: string)
    ensures r in Recipients(JoinSemi(emails)) <==> Mailed(emails, r)
  {
    hide Recipients, Separator;
    if emails == [] {
      NoRecipients();
    } else if |emails| > 1 {
      RecipientsOfJoin(emails[0], JoinSemi(emails[1..]));
      JoinedMailboxes(emails[1..], r);
      forall i | 0 <= i < |emails[1..]| ensures emails[1..][i] == emails[i + 1] {}
      if Mailed(emails[1..], r) {
        var i :| 0 <= i < |emails[1..]| && r in Recipients(emails[1..][i]);
        assert r in Recipients(emails[i + 1]);
      }
      if Mailed(emails, r) {
        var i :| 0 <= i < |emails| && r in Recipients(emails[i]);
        assert i == 0 || r in Recipients(emails[1..][i - 1]);
      }
    } else {
      assert emails[0] == JoinSemi(emails);
    }
  }

  lemma NoRecipients()
    ensures Recipients("") == []
  {
    assert SplitOn(Separator, "") == [""] && [""][1..] == [] && Trim("") == "";
  }

  predicate GoodAccount(svc: string) { svc == "" || (Trimmed(svc) && Free(Comma, svc)) }

  lemma {:induction false} JoinSemiMailbox(emails: seq<string>)
    requires AllMailboxes(emails) && emails != []
    ensures JoinSemi(emails) != "" && Trimmed(JoinSemi(emails)) && Free(Comma, JoinSemi(emails))
  {
    var s := JoinSemi(emails);
    assert Mailbox(emails[0]);
    if |emails| > 1 {
      var rest := JoinSemi(emails[1..]);
      JoinSemiMailbox(emails[1..]);
      assert s == emails[0] + ";" + rest;
      assert s[0] == emails[0][0] && s[|s| - 1] == rest[|rest| - 1];
    }
  }

  /** A printed comma-free destination is a canonical segment the server reads as itself. */
  lemma PrintedIsCanonical(d: Destination)
    requires TypeWord(d.kind) && d.kind != "email" && d.value != "" && Trimmed(d.value) && Free(Comma, d.value)
    ensures CanonicalSegment(Print(d)) && SegmentStart(Print(d)) && Head(Print(d)) == d
  {
    hide SegmentStart, ParseSegment, Trim;
    NoInnerFree(d.value);
    PrintedStarts(d);
    PrintedSegment(d);
    TrimIsTrimmed(Print(d));
    assert forall c | c in d.kind :: TypeChar(c);
    assert forall c | c in Print(d) :: c in d.kind || c == '-' || c == '>' || c in d.value;
  }

  function Report(emails: seq<string>): Destination { Destination("email_report", JoinSemi(emails)) }

  lemma ReportIsCanonical(emails: seq<string>)
    requires AllMailboxes(emails) && emails != []
    ensures DerivedReport(emails) == [Print(Report(emails))]
    ensures CanonicalSegment(Print(Report(emails))) && SegmentStart(Print(Report(emails)))
    ensures Head(Print(Report(emails))) == Report(emails)
  {
    JoinSemiMailbox(emails);
    PrintedIsCanonical(Report(emails));
    assert Print(Report(emails)) == "email_report->" + JoinSemi(emails);
  }

  lemma AccountIsCanonical(svc: string)
    requires GoodAccount(svc) && svc != ""
    ensures DerivedAccount(svc) == [Print(Destination("portal", svc))]
    ensures CanonicalSegment(Print(Destination("portal", svc))) && SegmentStart(Print(Destination("portal", svc)))
    ensures Head(Print(Destination("portal", svc))) == Destination("portal", svc)
  {
    PrintedIsCanonical(Destination("portal", svc));
    assert Print(Destination("portal", svc)) == "portal->" + svc;
  }

  /** The type of the last derived destination, which custom segments of unknown type join. */
  function StartKind(emails: seq<string>, svc: string): Option<string>
  {
    if svc != "" then Some("portal") else if emails != [] then Some("email_report") else None
  }

  lemma DerivedOwned(emails: seq<string>, svc: string, kind: string, r: string)
    requires AllMailboxes(emails) && GoodAccount(svc)
    ensures AllCanonical(Derived(emails, svc))
    ensures KindAfter(None, Owned(None, Derived(emails, svc))) == StartKind(emails, svc)
    ensures Receives(Owned(None, Derived(emails, svc)), kind, r) <==>
              || (emails != [] && kind == "email_report" && r in Recipients(JoinSemi(emails)))
              || (svc != "" && kind == "portal" && r in Recipients(svc))
  {
    hide SegmentStart, ParseSegment, Trimmed, Recipients, JoinSemi;
    var a, b := DerivedReport(emails), DerivedAccount(svc);
    if emails != [] {
      ReportIsCanonical(emails);
      OwnedSnoc(None, [], a[0]);
      assert [] + [a[0]] == a;
      ReceivesOne(Report(emails), kind, r);
    }
    var prev := KindAfter(None, Owned(None, a));
    if svc != "" {
      AccountIsCanonical(svc);
      OwnedSnoc(prev, [], b[0]);
      assert [] + [b[0]] == b;
      ReceivesOne(Destination("portal", svc), kind, r);
    }
    OwnedConcat(None, a, b);
    ReceivesConcat(Owned(None, a), Owned(prev, b), kind, r);
  }

  /** The custom segments other than the account's own. */
  function Base(svc: string, custom: string): seq<string>
  {
    Filter(Outside(DerivedAccount(svc)), CustomSegments(custom))
  }

  lemma MergedIs(emails: seq<string>, svc: string, custom: string)
    ensures Merged(Derived(emails, svc), custom) ==
            Derived(emails, svc) + Filter(Outside(DerivedReport(emails)), Base(svc, custom))
  {
    FilterCompose(Outside(DerivedReport(emails)), Outside(DerivedAccount(svc)), Outside(Derived(emails, svc)),
                  CustomSegments(custom));
  }

  lemma KeptCanonical(p: string -> bool, segs: seq<string>)
    requires forall s | s in segs :: CanonicalSegment(s)
    ensures AllCanonical(Filter(p, segs)) && forall s | s in Filter(p, segs) :: CanonicalSegment(s)
  {
    hide CanonicalSegment;
    forall s | s in Filter(p, segs) ensures CanonicalSegment(s) { FilterMember(p, segs, s); }
    assert forall i | 0 <= i < |Filter(p, segs)| :: Filter(p, segs)[i] in Filter(p, segs);
  }

  lemma CustomsCanonical(emails: seq<string>, svc: string, custom: string)
    ensures AllCanonical(CustomSegments(custom)) && AllCanonical(Base(svc, custom))
    ensures AllCanonical(Filter(Outside(DerivedReport(emails)), Base(svc, custom)))
  {
    hide CanonicalSegment, CustomSegments;
    CustomSegmentsAreCanonical(custom);
    var cs := CustomSegments(custom);
    assert forall i | 0 <= i < |cs| :: cs[i] in cs;
    KeptCanonical(Outside(DerivedAccount(svc)), cs);
    KeptCanonical(Outside(DerivedReport(emails)), Base(svc, custom));
  }

  /** The server's reading: the derived recipients, the account, and what the custom
      segments add in their places. */
  lemma ReadParts(emails: seq<string>, svc: string, custom: string, kind: string, r: string)
    requires AllMailboxes(emails) && GoodAccount(svc)
    ensures AllCanonical(Filter(Outside(DerivedReport(emails)), Base(svc, custom)))
    ensures Receives(Read(emails, svc, custom), kind, r) <==>
              || (emails != [] && kind == "email_report" && r in Recipients(JoinSemi(emails)))
              || (svc != "" && kind == "portal" && r in Recipients(svc))
              || Receives(Owned(StartKind(emails, svc), Filter(Outside(DerivedReport(emails)), Base(svc, custom))), kind, r)
  {
    hide SegmentStart, CanonicalSegment, Recipients, Receives, JoinSemi, Filter;
    var derived, customs := Derived(emails, svc), Filter(Outside(DerivedReport(emails)), Base(svc, custom));
    DerivedOwned(emails, svc, kind, r);
    CustomsCanonical(emails, svc, custom);
    MergedIs(emails, svc, custom);
    OwnedConcat(None, derived, customs);
    ReceivesConcat(Owned(None, derived), Owned(StartKind(emails, svc), customs), kind, r);
    ReadGroups(emails, svc, custom);
    GroupReads(derived + customs, kind, r);
  }

  lemma ReadGroups(emails: seq<string>, svc: string, custom: string)
    requires AllMailboxes(emails) && GoodAccount(svc)
    ensures Read(emails, svc, custom) == Destinations(Group(Merged(Derived(emails, svc), custom)))
  {
    var derived := Derived(emails, svc);
    if Merged(derived, custom) == [] {
      assert Split("") == [""] && [""][..0] == [];
      assert ParseSegment(Trim("")) == None;
      assert Destinations([""]) == [] + [];
    } else {
      forall d | d in derived ensures Free(Comma, d) {
        DerivedOwned(emails, svc, "", "");
        var i :| 0 <= i < |derived| && derived[i] == d;
        assert CanonicalSegment(derived[i]);
      }
      PortalOutputGroups(derived, custom);
    }
  }

  /** No segment of unknown type follows a custom copy of the derived report. */
  ghost predicate ReportUncopied(emails: seq<string>, svc: string, custom: string)
  {
    emails != [] ==> NoOddAfter(Base(svc, custom), Print(Report(emails)))
  }

  lemma ReadReceives(emails: seq<string>, svc: string, custom: string, kind: string, r: string)
    requires AllMailboxes(emails) && GoodAccount(svc) && ReportUncopied(emails, svc, custom)
    ensures AllCanonical(Base(svc, custom))
    ensures Receives(Read(emails, svc, custom), kind, r) <==>
              || (kind == "email_report" && Mailed(emails, r))
              || (svc != "" && kind == "portal" && r in Recipients(svc))
              || Receives(Owned(StartKind(emails, svc), Base(svc, custom)), kind, r)
  {
    hide SegmentStart, CanonicalSegment, Recipients, Receives, JoinSemi, Filter, Base, ParseSegment;
    ReadParts(emails, svc, custom, kind, r);
    CustomsCanonical(emails, svc, custom);
    JoinedMailboxes(emails, r);
    if emails == [] {
      NothingDropped(Base(svc, custom));
    } else {
      ReportIsCanonical(emails);
      DropCopies(StartKind(emails, svc), Base(svc, custom), Print(Report(emails)), kind, r);
    }
  }

  lemma NothingDropped(segs: seq<string>)
    ensures Filter(Outside([]), segs) == segs
  {
    FilterAll(Outside([]), segs);
  }

  // ------------------------------------ the portal's covered set is the server's

  lemma {:induction false} SemicolonsSuffice(s: string)
    requires Free(Comma, s)
    ensures SplitOn(Semicolon, s) == SplitOn(Separator, s)
  {
    if s != "" {
      assert s[0] in s;
      SemicolonsSuffice(s[1..]);
    }
  }

  lemma CoveredByServer(seg: string, x: string)
    requires CanonicalSegment(seg) && x in FullOfSegment(seg)
    ensures exists d, r :: ParseSegment(seg) == Some(d) && d.kind == "email_full" && r in Recipients(d.value) && Lower(r) == x
  {
    hide SplitOn, Clean;
    var i := ArrowAt(seg);
    var dest := seg[i + 2..];
    var p :| p in SplitOn(Semicolon, dest) && Trim(p) != "" && Lower(Trim(p)) == x;
    SemicolonsSuffice(dest);
    CleanMember(SplitOn(Separator, dest), Trim(p));
    TrimmedEnd(seg, i + 2);
    var d := ParseSegment(seg).value;
    assert ParseSegment(seg) == Some(d) && d.kind == "email_full" && Trim(p) in Recipients(d.value);
  }

  lemma {:induction false} FullOfMember(segs: seq<string>, x: string)
    ensures x in FullOf(segs) <==> exists s | s in segs :: x in FullOfSegment(s)
  {
    hide FullOfSegment;
    if segs != [] {
      FullOfMember(segs[..|segs| - 1], x);
      assert segs == segs[..|segs| - 1] + [segs[|segs| - 1]];
    }
  }
}
