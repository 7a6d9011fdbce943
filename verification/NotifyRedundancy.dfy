/** Filtering on the portal (portal/internal/api/handlers_admin.go) before the server's
    own override (gofaxserver/notify.go): when it makes no difference, and when it does. */
module NotifyRedundancy {
  import opened Seqs
  import opened NotifyLanguage
  import opened PortalNotify
  import opened NotifyRecipients
  import opened NotifyReading
  import opened NotifyPrefilter

  /** The server's pipeline over everything resolved for a job: what other notify strings
      gave before and after, with this number's string in between. */
  function Final(before: seq<Destination>, mine: seq<Destination>, after: seq<Destination>): seq<Destination>
  {
    Override(Dedup(before + mine + after))
  }

  lemma FinalReceives(before: seq<Destination>, mine: seq<Destination>, after: seq<Destination>, kind: string, r: string)
    ensures var all := Dedup(before + mine + after);
            && (Receives(all, kind, r) <==>
                  Receives(before, kind, r) || Receives(mine, kind, r) || Receives(after, kind, r))
            && (Receives(Final(before, mine, after), kind, r) <==>
                  Receives(all, kind, r) && (IsReport(kind) ==> Lower(r) !in FullSet(all)))
  {
    var ds := before + mine + after;
    OverrideReceives(Dedup(ds), kind, r);
    forall d ensures d in Dedup(ds) <==> d in before || d in mine || d in after { DedupMember(ds, d); }
  }

  /** The mail fields the portal leaves in the derived report. */
  function Filtered(emails: seq<string>, custom: string): seq<string>
  {
    Filter(Sparing(FullOf(CustomSegments(custom))), emails)
  }

  /** Filtering first or not, `r` is notified in the end under type `kind` or not at all. */
  ghost predicate SameReach(emails: seq<string>, svc: string, custom: string,
                            before: seq<Destination>, after: seq<Destination>, kind: string, r: string)
  {
    Receives(Final(before, Read(Filtered(emails, custom), svc, custom), after), kind, r) <==>
    Receives(Final(before, Read(emails, svc, custom), after), kind, r)
  }

  /** Filtering removes the whole derived report, there is no account segment, and the
      custom segments begin with a type the server's pattern does not know: unfiltered it
      would join the report, filtered it comes first and stands. */
  predicate OddFirst(emails: seq<string>, svc: string, custom: string)
  {
    var cs := CustomSegments(custom);
    svc == "" && emails != [] && Filtered(emails, custom) == [] && cs != [] && !SegmentStart(cs[0])
  }

  /** Every address the portal counts as covered is named by a segment the server reads as
      an email_full. */
  ghost predicate CoverSeen(custom: string)
  {
    var cs := CustomSegments(custom);
    forall x | x in FullOf(cs) :: exists i | 0 <= i < |cs| :: SegmentStart(cs[i]) && x in FullOfSegment(cs[i])
  }

  /** Nothing is filtered, or none of the guards against a difference fails. */
  ghost predicate Settled(emails: seq<string>, svc: string, custom: string)
  {
    || Filtered(emails, custom) == emails
    || (&& !OddFirst(emails, svc, custom) && CoverSeen(custom)
        && ReportUncopied(emails, svc, custom) && ReportUncopied(Filtered(emails, custom), svc, custom))
  }

  lemma SameCustoms(emails: seq<string>, svc: string, custom: string)
    requires !OddFirst(emails, svc, custom)
    ensures AllCanonical(Base(svc, custom))
    ensures Owned(StartKind(Filtered(emails, custom), svc), Base(svc, custom)) ==
            Owned(StartKind(emails, svc), Base(svc, custom))
  {
    hide SegmentStart, CanonicalSegment, CustomSegments, FullOf;
    CustomsCanonical(emails, svc, custom);
    NothingDropped(CustomSegments(custom));
    if svc == "" && emails != [] && Filtered(emails, custom) == [] {
      OwnedAnyStart(None, Some("email_report"), Base(svc, custom));
    }
  }

  /** Whether or not the portal filters first, each type ends up with the same recipients:
      for any mail fields, account, custom string and other destinations, unless one of the
      four guards of `Settled` fails. */
  lemma PrefilterRedundant(emails: seq<string>, svc: string, custom: string,
                           before: seq<Destination>, after: seq<Destination>, kind: string, r: string)
    requires AllMailboxes(emails) && GoodAccount(svc) && Settled(emails, svc, custom)
    ensures SameReach(emails, svc, custom, before, after, kind, r)
  {
    hide CanonicalSegment, SegmentStart, Recipients, Receives, FullOf, Final, Read, FullSet, Owned, StartKind, Base;
    var filtered, full := Filtered(emails, custom), FullOf(CustomSegments(custom));
    if filtered == emails { return; }
    FilteredMailboxes(emails, Sparing(full));
    SameCustoms(emails, svc, custom);
    SameFullSet(emails, svc, custom, before, after);
    ReadReceives(emails, svc, custom, kind, r);
    ReadReceives(filtered, svc, custom, kind, r);
    FinalReceives(before, Read(emails, svc, custom), after, kind, r);
    FinalReceives(before, Read(filtered, svc, custom), after, kind, r);
    if Mailed(emails, r) && !Mailed(filtered, r) {
      FilteredIsCovered(emails, svc, custom, before, after, r);
    }
    if Mailed(filtered, r) { StillMailed(emails, Sparing(full), r); }
  }

  lemma StillMailed(emails: seq<string>, p: string -> bool, r: string)
    requires Mailed(Filter(p, emails), r)
    ensures Mailed(emails, r)
  {
    var i :| 0 <= i < |Filter(p, emails)| && r in Recipients(Filter(p, emails)[i]);
    var email := Filter(p, emails)[i];
    FilterMember(p, emails, email);
    var j :| 0 <= j < |emails| && emails[j] == email;
  }

  /** Covered addresses are single: they come out of a segment already cut. */
  lemma {:induction false} CoveredIsSingle(segs: seq<string>, x: string)
    requires (forall s | s in segs :: Free(Comma, s)) && x in FullOf(segs)
    ensures Free(Separator, x)
  {
    hide SplitOn, Trim, Lower, ArrowAt;
    var seg := segs[|segs| - 1];
    if x in FullOf(segs[..|segs| - 1]) {
      CoveredIsSingle(segs[..|segs| - 1], x);
    } else {
      var dest := seg[ArrowAt(seg) + 2..];
      assert seg in segs && forall c | c in dest :: c in seg;
      var p :| p in SplitOn(Semicolon, dest) && Trim(p) != "" && Lower(Trim(p)) == x;
      PieceIsSingle(dest, p);
    }
  }

  lemma PieceIsSingle(dest: string, p: string)
    requires Free(Comma, dest) && p in SplitOn(Semicolon, dest)
    ensures Free(Separator, Lower(Trim(p)))
  {
    hide SplitOn, Trim;
    PiecesAreFree(Semicolon, dest);
    TrimIsTrimmed(p);
    var t := Trim(p);
    forall c | c in Lower(t) ensures !Separator(c) {
      var k :| 0 <= k < |t| && Lower(t)[k] == c;
      assert t[k] in t && t[k] in p && t[k] in dest;
      assert !Comma(t[k]) && !Semicolon(t[k]);
    }
  }

  lemma CoveredRecipient(email: string, r: string)
    requires Mailbox(email) && Free(Separator, Lower(email)) && r in Recipients(email)
    ensures r == email
  {
    forall c | c in email ensures !Separator(c) {
      var k :| 0 <= k < |email| && email[k] == c;
      assert Lower(email)[k] in Lower(email);
    }
    SplitOnOne(Separator, email);
    CleanMember([email], r);
    TrimmedIsTrim(email);
  }

  lemma FilteredIsCovered(emails: seq<string>, svc: string, custom: string,
                          before: seq<Destination>, after: seq<Destination>, r: string)
    requires AllMailboxes(emails) && GoodAccount(svc)
    requires CoverSeen(custom) && ReportUncopied(emails, svc, custom)
    requires Mailed(emails, r) && !Mailed(Filtered(emails, custom), r)
    ensures Lower(r) in FullSet(Dedup(before + Read(emails, svc, custom) + after))
  {
    hide CanonicalSegment, Recipients, FullSet, Read, Lower, SegmentStart;
    var full := FullOf(CustomSegments(custom));
    var i :| 0 <= i < |emails| && r in Recipients(emails[i]);
    RemovedIsCovered(emails, full, i, r);
    CustomsAreFree(custom);
    CoveredIsSingle(CustomSegments(custom), Lower(emails[i]));
    CoveredRecipient(emails[i], r);
    CoveredInTheEnd(emails, svc, custom, before, after, Lower(r));
  }

  lemma CustomsAreFree(custom: string)
    ensures forall s | s in CustomSegments(custom) :: Free(Comma, s) && CanonicalSegment(s)
  {
    CustomSegmentsAreCanonical(custom);
  }

  lemma RemovedIsCovered(emails: seq<string>, full: set<string>, i: nat, r: string)
    requires AllMailboxes(emails) && i < |emails| && r in Recipients(emails[i])
    requires !Mailed(Filter(Sparing(full), emails), r)
    ensures Mailbox(emails[i]) && Lower(emails[i]) in full
  {
    TrimmedIsTrim(emails[i]);
    if Spared(full, emails[i]) { SparedIsMailed(emails, full, i, r); }
  }

  lemma SparedIsMailed(emails: seq<string>, full: set<string>, i: nat, r: string)
    requires i < |emails| && r in Recipients(emails[i]) && Spared(full, emails[i])
    ensures Mailed(Filter(Sparing(full), emails), r)
  {
    var kept := Filter(Sparing(full), emails);
    FilterMember(Sparing(full), emails, emails[i]);
    var j :| 0 <= j < |kept| && kept[j] == emails[i];
    assert r in Recipients(kept[j]);
  }

  lemma CoveredInTheEnd(emails: seq<string>, svc: string, custom: string,
                        before: seq<Destination>, after: seq<Destination>, x: string)
    requires AllMailboxes(emails) && GoodAccount(svc)
    requires CoverSeen(custom) && ReportUncopied(emails, svc, custom)
    requires x in FullOf(CustomSegments(custom))
    ensures x in FullSet(Dedup(before + Read(emails, svc, custom) + after))
  {
    hide CanonicalSegment, Recipients, FullSet, Read, Lower, SegmentStart, CustomSegments, FullOf, Receives, Owned,
         StartKind, Base, FullOfSegment, ReportUncopied;
    var cs := CustomSegments(custom);
    var i :| 0 <= i < |cs| && SegmentStart(cs[i]) && x in FullOfSegment(cs[i]);
    var f := CoverStands(emails, svc, custom, cs[i], x);
    ReadReceives(emails, svc, custom, "email_full", f);
    FinalReceives(before, Read(emails, svc, custom), after, "email_full", f);
    FullSetIs(Dedup(before + Read(emails, svc, custom) + after), x);
  }

  /** A covering segment the pattern knows keeps its recipients wherever it is printed. */
  lemma CoverStands(emails: seq<string>, svc: string, custom: string, s: string, x: string) returns (f: string)
    requires GoodAccount(svc) && s in CustomSegments(custom) && SegmentStart(s) && x in FullOfSegment(s)
    ensures Lower(f) == x && AllCanonical(Base(svc, custom))
    ensures Receives(Owned(StartKind(emails, svc), Base(svc, custom)), "email_full", f)
  {
    hide CanonicalSegment, Recipients, Lower, SegmentStart, CustomSegments, Owned, StartKind, Filter;
    CustomsAreFree(custom);
    CoveredByServer(s, x);
    var d, g :| ParseSegment(s) == Some(d) && d.kind == "email_full" && g in Recipients(d.value) && Lower(g) == x;
    f := g;
    AccountCoversNobody(svc);
    FilterMember(Outside(DerivedAccount(svc)), CustomSegments(custom), s);
    CustomsCanonical(emails, svc, custom);
    var i :| 0 <= i < |Base(svc, custom)| && Base(svc, custom)[i] == s;
    KnownStands(StartKind(emails, svc), Base(svc, custom), i);
    var owners := Owned(StartKind(emails, svc), Base(svc, custom));
    assert owners[i] == d && owners[i] in owners;
  }

  lemma AccountCoversNobody(svc: string)
    requires GoodAccount(svc)
    ensures forall s | s in DerivedAccount(svc) :: FullOfSegment(s) == {}
  {
    if svc != "" {
      AccountIsCanonical(svc);
      ArrowAfterWord("portal", svc);
      assert ("portal->" + svc)[..6] == "portal";
      TrimmedIsTrim("portal");
    }
  }

  lemma FilteredMailboxes(emails: seq<string>, p: string -> bool)
    requires AllMailboxes(emails)
    ensures AllMailboxes(Filter(p, emails))
  {
    var filtered := Filter(p, emails);
    forall i | 0 <= i < |filtered| ensures Mailbox(filtered[i]) {
      assert filtered[i] in filtered;
      FilterMember(p, emails, filtered[i]);
    }
  }

  lemma SameFullSet(emails: seq<string>, svc: string, custom: string,
                    before: seq<Destination>, after: seq<Destination>)
    requires AllMailboxes(emails) && AllMailboxes(Filtered(emails, custom)) && GoodAccount(svc)
    requires !OddFirst(emails, svc, custom)
    requires ReportUncopied(emails, svc, custom) && ReportUncopied(Filtered(emails, custom), svc, custom)
    ensures FullSet(Dedup(before + Read(Filtered(emails, custom), svc, custom) + after)) ==
            FullSet(Dedup(before + Read(emails, svc, custom) + after))
  {
    hide CanonicalSegment, Recipients, FullSet, Read, Lower, SegmentStart, Receives, Owned, StartKind, Base, Filtered;
    var a, b := Read(Filtered(emails, custom), svc, custom), Read(emails, svc, custom);
    SameCustoms(emails, svc, custom);
    forall f ensures Receives(Dedup(before + a + after), "email_full", f) <==>
                     Receives(Dedup(before + b + after), "email_full", f)
    {
      FinalReceives(before, a, after, "email_full", f);
      FinalReceives(before, b, after, "email_full", f);
      ReadReceives(Filtered(emails, custom), svc, custom, "email_full", f);
      ReadReceives(emails, svc, custom, "email_full", f);
    }
    forall x ensures x in FullSet(Dedup(before + a + after)) <==> x in FullSet(Dedup(before + b + after)) {
      FullSetIs(Dedup(before + a + after), x);
      FullSetIs(Dedup(before + b + after), x);
    }
  }

  // --------------------------------------------------------- when it differs

  /** Custom types the pattern does not know are no type words at all (blanks the pattern
      does not know around a known type excluded), and name somebody. */
  ghost predicate OddOnes(custom: string)
  {
    var cs := CustomSegments(custom);
    forall i | 0 <= i < |cs| && !SegmentStart(cs[i]) ::
      ParseSegment(cs[i]).Some? && !TypeWord(Head(cs[i]).kind) && Recipients(Head(cs[i]).value) != []
  }

  lemma OddOnesCoverNobody(custom: string)
    requires OddOnes(custom)
    ensures CoverSeen(custom)
  {
    hide Trim, ArrowAt, LowerPieces;
    hide SegmentStart, Recipients, CustomSegments, FullOf;
    var cs := CustomSegments(custom);
    forall x | x in FullOf(cs)
      ensures exists i | 0 <= i < |cs| :: SegmentStart(cs[i]) && x in FullOfSegment(cs[i])
    {
      FullOfMember(cs, x);
      var s :| s in cs && x in FullOfSegment(s);
      var i :| 0 <= i < |cs| && cs[i] == s;
      assert forall c | c in "email_full" :: TypeChar(c);
    }
  }

  /** The failing guard really fails, whatever else the custom string holds. */
  lemma OddFirstDiffers(emails: seq<string>, svc: string, custom: string) returns (kind: string, r: string)
    requires AllMailboxes(emails) && GoodAccount(svc) && OddFirst(emails, svc, custom) && OddOnes(custom)
    ensures !SameReach(emails, svc, custom, [], [], kind, r)
  {
    hide CanonicalSegment, SegmentStart, CustomSegments, FullOf, Final, Read, FullSet, Owned, Receives, Recipients, Base;
    var cs := CustomSegments(custom);
    var first := Head(cs[0]);
    kind, r := first.kind, Recipients(first.value)[0];
    assert r in Recipients(first.value);
    FilteredReceivesFirst(svc, custom, r);
    UnfilteredLacksType(emails, svc, custom, kind, r);
    FinalReceives([], Read([], svc, custom), [], kind, r);
    FinalReceives([], Read(emails, svc, custom), [], kind, r);
    NobodyReceives(kind, r);
    assert TypeWord("email_report") && TypeWord("email") by { ReportWords(); }
  }

  lemma ReportWords()
    ensures TypeWord("email_report") && TypeWord("email")
  {
    assert forall c | c in "email_report" :: TypeChar(c);
    assert forall c | c in "email" :: TypeChar(c);
  }

  lemma NobodyReceives(kind: string, r: string)
    ensures !Receives([], kind, r)
  {}

  lemma FilteredReceivesFirst(svc: string, custom: string, r: string)
    requires svc == "" && CustomSegments(custom) != [] && ParseSegment(CustomSegments(custom)[0]).Some?
    requires r in Recipients(Head(CustomSegments(custom)[0]).value)
    ensures Receives(Read([], svc, custom), Head(CustomSegments(custom)[0]).kind, r)
  {
    hide SegmentStart, CanonicalSegment, Recipients, CustomSegments, Read;
    var cs := CustomSegments(custom);
    CustomsCanonical([], svc, custom);
    NothingDropped(cs);
    ReadParts([], svc, custom, Head(cs[0]).kind, r);
    FirstOwned(None, cs);
    assert Owned(None, cs)[0] in Owned(None, cs);
  }

  lemma {:induction false} FirstOwned(prev: Option<string>, segs: seq<string>)
    requires AllCanonical(segs) && segs != []
    ensures Owned(prev, segs)[0] == Taken(prev, segs[0])
  {
    if |segs| > 1 { FirstOwned(prev, segs[..|segs| - 1]); }
  }

  lemma UnfilteredLacksType(emails: seq<string>, svc: string, custom: string, kind: string, r: string)
    requires AllMailboxes(emails) && svc == "" && emails != [] && !TypeWord(kind)
    ensures !Receives(Read(emails, svc, custom), kind, r)
  {
    hide SegmentStart, CanonicalSegment, Recipients, CustomSegments, Read, Owned, TypeWord, Filter, Base;
    ReadParts(emails, svc, custom, kind, r);
    ReportWords();
    OwnersAreTypeWords("email_report", Filter(Outside(DerivedReport(emails)), Base(svc, custom)));
  }

  /** So for such custom strings, and no custom copy of the derived report before an unknown
      type, filtering first is redundant for all other destinations, types and recipients
      exactly when the guard does not hold. */
  lemma PrefilterRedundantIff(emails: seq<string>, svc: string, custom: string)
    requires AllMailboxes(emails) && GoodAccount(svc) && OddOnes(custom)
    requires ReportUncopied(emails, svc, custom) && ReportUncopied(Filtered(emails, custom), svc, custom)
    ensures (forall before, after, kind, r :: SameReach(emails, svc, custom, before, after, kind, r))
       <==> !OddFirst(emails, svc, custom)
  {
    hide SameReach, OddFirst, OddOnes, ReportUncopied, CoverSeen;
    if OddFirst(emails, svc, custom) {
      var kind, r := OddFirstDiffers(emails, svc, custom);
    } else {
      OddOnesCoverNobody(custom);
      forall before, after, kind, r ensures SameReach(emails, svc, custom, before, after, kind, r) {
        PrefilterRedundant(emails, svc, custom, before, after, kind, r);
      }
    }
  }

  /** Whom a segment names when it is not the first one read. */
  function NamedBy(seg: string): seq<string>
  {
    if SegmentStart(seg) && ParseSegment(seg).Some? then Recipients(Head(seg).value) else Recipients(seg)
  }

  /** Some custom segment, as the server reads it, names `x` up to case. */
  ghost predicate Named(segs: seq<string>, x: string)
  {
    exists i | 0 <= i < |segs| :: NamesIgnoringCase(segs[i], x)
  }

  ghost predicate NamesIgnoringCase(seg: string, x: string)
  {
    exists r | r in NamedBy(seg) :: Lower(r) == Lower(x)
  }

  lemma {:induction false} OwnersNameOnly(kind: string, segs: seq<string>, x: string)
    requires AllCanonical(segs) && !Named(segs, x)
    ensures forall i | 0 <= i < |segs| ::
              forall r | r in Recipients(Owned(Some(kind), segs)[i].value) :: Lower(r) != Lower(x)
  {
    hide SegmentStart, Recipients, ParseSegment, Lower, Trimmed;
    if segs != [] {
      var before, seg := segs[..|segs| - 1], segs[|segs| - 1];
      assert segs == before + [seg] && CanonicalSegment(seg);
      forall i | 0 <= i < |before| ensures !NamesIgnoringCase(before[i], x) { assert before[i] == segs[i]; }
      OwnersNameOnly(kind, before, x);
      OwnedSnoc(Some(kind), before, seg);
      assert !NamesIgnoringCase(segs[|segs| - 1], x);
      assert forall r | r in NamedBy(seg) :: Lower(r) != Lower(x);
    }
  }

  lemma NobodyNames(kind: string, segs: seq<string>, x: string, type_: string, r: string)
    requires AllCanonical(segs) && !Named(segs, x) && Lower(r) == Lower(x)
    ensures !Receives(Owned(Some(kind), segs), type_, r)
  {
    hide Recipients, Lower, Owned, CanonicalSegment;
    OwnersNameOnly(kind, segs, x);
  }

  /** An address the portal counts as covered, though no custom segment the server reads names
      it, loses its report and gets nothing instead. */
  lemma UnnamedLosesReport(emails: seq<string>, svc: string, custom: string, x: string)
    requires AllMailboxes(emails) && GoodAccount(svc) && StartKind(Filtered(emails, custom), svc).Some?
    requires ReportUncopied(emails, svc, custom) && ReportUncopied(Filtered(emails, custom), svc, custom)
    requires Mailed(emails, x) && !Mailed(Filtered(emails, custom), x)
    requires !Named(Base(svc, custom), x) && (svc == "" || x !in Recipients(svc))
    ensures Receives(Final([], Read(emails, svc, custom), []), "email_report", x)
    ensures forall kind :: !Receives(Final([], Read(Filtered(emails, custom), svc, custom), []), kind, x)
    ensures !SameReach(emails, svc, custom, [], [], "email_report", x)
  {
    hide CanonicalSegment, SegmentStart, CustomSegments, FullOf, Final, Read, FullSet, Owned, Receives, Recipients, Base,
         Named, Lower, Mailed, ReportUncopied;
    var filtered, base := Filtered(emails, custom), Base(svc, custom);
    FilteredMailboxes(emails, Sparing(FullOf(CustomSegments(custom))));
    CustomsCanonical(emails, svc, custom);
    assert emails != [] by { NobodyMailed(x); }
    var ds := Dedup([] + Read(emails, svc, custom) + []);
    forall f | Lower(f) == Lower(x) ensures !Receives(ds, "email_full", f) {
      FinalReceives([], Read(emails, svc, custom), [], "email_full", f);
      ReadReceives(emails, svc, custom, "email_full", f);
      NobodyNames(StartKind(emails, svc).value, base, x, "email_full", f);
      NobodyReceives("email_full", f);
    }
    FullSetIs(ds, Lower(x));
    FinalReceives([], Read(emails, svc, custom), [], "email_report", x);
    ReadReceives(emails, svc, custom, "email_report", x);
    forall kind ensures !Receives(Final([], Read(filtered, svc, custom), []), kind, x) {
      FinalReceives([], Read(filtered, svc, custom), [], kind, x);
      ReadReceives(filtered, svc, custom, kind, x);
      NobodyNames(StartKind(filtered, svc).value, base, x, kind, x);
      NobodyReceives(kind, x);
    }
  }

  lemma NobodyMailed(x: string)
    ensures !Mailed([], x)
  {}

  /** No custom segment of a known type has type `kind`. */
  ghost predicate NoneOfType(segs: seq<string>, kind: string)
  {
    forall i | 0 <= i < |segs| && SegmentStart(segs[i]) :: ParseSegment(segs[i]).Some? && Head(segs[i]).kind != kind
  }

  lemma {:induction false} NoOwnerOfType(prev: Option<string>, segs: seq<string>, kind: string)
    requires AllCanonical(segs) && NoneOfType(segs, kind) && (segs != [] ==> SegmentStart(segs[0]))
    ensures forall i | 0 <= i < |segs| :: Owned(prev, segs)[i].kind != kind
  {
    hide SegmentStart, ParseSegment, Trimmed, Free, Owned;
    OwnedNone(prev);
    if segs != [] {
      var before, seg := segs[..|segs| - 1], segs[|segs| - 1];
      assert segs == before + [seg] && CanonicalSegment(seg) && seg == segs[|segs| - 1];
      assert NoneOfType(before, kind) by { assert forall i | 0 <= i < |before| :: before[i] == segs[i]; }
      NoOwnerOfType(prev, before, kind);
      OwnedSnoc(prev, before, seg);
    }
  }

  /** With an account, and everybody filtered out: when the custom segments begin with a copy
      of the derived report and then a segment of unknown type, the account receives what
      that segment names unfiltered, and not filtered. */
  lemma CopiedReportDiffers(emails: seq<string>, svc: string, custom: string, r: string)
    requires AllMailboxes(emails) && GoodAccount(svc) && svc != "" && emails != [] && Filtered(emails, custom) == []
    requires |Base(svc, custom)| > 1 && Base(svc, custom)[0] == Print(Report(emails))
    requires !SegmentStart(Base(svc, custom)[1]) && NoneOfType(Base(svc, custom), "portal")
    requires r in Recipients(Base(svc, custom)[1]) && r !in Recipients(svc)
    ensures !SameReach(emails, svc, custom, [], [], "portal", r)
  {
    hide CanonicalSegment, SegmentStart, CustomSegments, FullOf, Final, Read, FullSet, Owned, Receives, Recipients, Base,
         ParseSegment, Print;
    var base := Base(svc, custom);
    CustomsCanonical(emails, svc, custom);
    CustomsCanonical([], svc, custom);
    ReportIsCanonical(emails);
    BaseDistinct(svc, custom);
    ReadParts(emails, svc, custom, "portal", r);
    DropHead(base);
    FirstOwned(Some("portal"), base[1..]);
    TakenOdd("portal", base[1]);
    FirstReceives(Owned(Some("portal"), base[1..]), "portal", r);
    ReadParts([], svc, custom, "portal", r);
    NothingDropped(base);
    NoOwnerOfType(Some("portal"), base, "portal");
    NoneReceive(Owned(Some("portal"), base), "portal", r);
    FinalReceives([], Read(emails, svc, custom), [], "portal", r);
    FinalReceives([], Read([], svc, custom), [], "portal", r);
    NobodyReceives("portal", r);
  }

  lemma TakenOdd(prev: string, seg: string)
    requires CanonicalSegment(seg) && !SegmentStart(seg)
    ensures Taken(Some(prev), seg) == Destination(prev, seg)
  {}

  lemma NoneReceive(ds: seq<Destination>, kind: string, r: string)
    requires forall i | 0 <= i < |ds| :: ds[i].kind != kind
    ensures !Receives(ds, kind, r)
  {}

  lemma BaseDistinct(svc: string, custom: string)
    ensures Distinct(Base(svc, custom))
  {
    CustomSegmentsAreCanonical(custom);
    KeptDistinct(Outside(DerivedAccount(svc)), CustomSegments(custom));
  }

  lemma {:induction false} KeptDistinct(p: string -> bool, segs: seq<string>)
    requires Distinct(segs)
    ensures Distinct(Filter(p, segs))
  {
    if segs != [] {
      var kept := Filter(p, segs[1..]);
      assert Distinct(segs[1..]) by { assert forall i | 0 <= i < |segs| - 1 :: segs[1..][i] == segs[i + 1]; }
      KeptDistinct(p, segs[1..]);
      forall i | 0 <= i < |kept| ensures kept[i] != segs[0] {
        FilterMember(p, segs[1..], kept[i]);
        var j :| 0 <= j < |segs| - 1 && segs[1..][j] == kept[i];
        assert segs[j + 1] != segs[0];
      }
    }
  }

  lemma DropHead(segs: seq<string>)
    requires segs != [] && Distinct(segs)
    ensures Filter(Outside([segs[0]]), segs) == segs[1..]
  {
    var rest := segs[1..];
    forall s | s in rest ensures s != segs[0] {
      var j :| 0 <= j < |rest| && rest[j] == s;
      assert segs[j + 1] == s;
    }
    FilterAll(Outside([segs[0]]), rest);
  }

  lemma FirstReceives(ds: seq<Destination>, kind: string, r: string)
    requires ds != [] && ds[0].kind == kind && r in Recipients(ds[0].value)
    ensures Receives(ds, kind, r)
  {
    assert ds[0] in ds;
  }

  // ------------------------------------------------------- inputs that differ

  lemma PlainAddress(r: string)
    requires Address(r)
    ensures Recipients(r) == [r] && SplitOn(Semicolon, r) == [r] && Trim(r) == r
  {
    hide Trim;
    TrimmedIsTrim(r);
    SplitOnOne(Separator, r);
    SplitOnOne(Semicolon, r);
    CleanOf(r);
  }

  lemma CleanOf(r: string)
    requires r != "" && Trim(r) == r
    ensures Clean([r]) == [r]
  {
    assert [r][1..] == [];
  }

  /** The segment that covers `r`. */
  lemma FullSegment(r: string)
    requires Address(r)
    ensures var s := Print(Destination("email_full", r));
            CanonicalSegment(s) && SegmentStart(s) && s == "email_full->" + r && FullOfSegment(s) == {Lower(r)}
  {
    hide SegmentStart, CanonicalSegment, Trim, FullOfSegment, Lower, SplitOn, Recipients, ParseSegment;
    var s := Print(Destination("email_full", r));
    assert forall c | c in "email_full" :: TypeChar(c);
    PrintedIsCanonical(Destination("email_full", r));
    PlainAddress(r);
    FullOfPrinted(r);
  }

  lemma FullOfPrinted(r: string)
    requires r != "" && SplitOn(Semicolon, r) == [r] && Trim(r) == r
    ensures FullOfSegment("email_full->" + r) == {Lower(r)}
  {
    hide TrimLeft, TrimRight, SplitOn, Lower;
    var s := "email_full->" + r;
    assert forall c | c in "email_full" :: TypeChar(c);
    ArrowAfterWord("email_full", r);
    assert s == "email_full" + "->" + r;
    assert s[..10] == "email_full" && s[12..] == r;
    TrimmedIsTrim("email_full");
  }

  lemma FullOfLast(segs: seq<string>, s: string)
    ensures FullOf(segs + [s]) == FullOf(segs) + FullOfSegment(s)
  {
    assert (segs + [s])[..|segs|] == segs;
  }

  lemma LowerLetter(s: string)
    requires |s| == 1 && LowerChar(s[0]) == s[0]
    ensures Lower(s) == s
  {}

  /** A one-digit type before a covering segment. */
  lemma OddCustom(custom: string)
    requires custom == "1->b,email_full->a"
    ensures CustomSegments(custom) == ["1->b", "email_full->a"] && "a" in FullOf(CustomSegments(custom))
    ensures !SegmentStart("1->b") && SegmentStart("email_full->a")
  {
    hide SegmentStart, FullOfSegment, FullOf, Recipients, CanonicalSegment, CustomSegments, Lower;
    OddTypeExists();
    assert Address("a");
    FullSegment("a");
    LowerLetter("a");
    assert "email_full->" + "a" == "email_full->a";
    var cs := ["1->b", "email_full->a"];
    JoinTwo("1->b", "email_full->a");
    assert "1->b" + "," + "email_full->a" == custom;
    assert forall s | s in cs :: s == "1->b" || s == "email_full->a";
    CustomRoundTrip(cs);
    assert cs == ["1->b"] + ["email_full->a"];
    FullOfLast(["1->b"], "email_full->a");
  }

  lemma JoinTwo(a: string, b: string)
    ensures Join([a, b]) == a + "," + b
  {
    assert [a, b][1..] == [b];
  }

  /** One covered user, no account: unfiltered, the unknown segment adds a recipient to the
      report; filtered, it is a destination of its own. */
  lemma OddFirstInput(emails: seq<string>, custom: string)
    requires emails == ["a"] && custom == "1->b,email_full->a"
    ensures OddFirst(emails, "", custom) && OddOnes(custom)
    ensures exists kind, r :: !SameReach(emails, "", custom, [], [], kind, r)
  {
    hide SegmentStart, FullOf, Recipients, CustomSegments, SameReach, Lower, ParseSegment, Filtered, TypeWord;
    OddCustom(custom);
    OneIsOdd();
    LowerLetter("a");
    CoveredAway("a", custom);
    var kind, r := OddFirstDiffers(emails, "", custom);
  }

  lemma OneIsOdd()
    ensures ParseSegment("1->b") == Some(Destination("1", "b")) && !TypeWord("1") && Recipients("b") != []
  {
    hide TrimLeft, TrimRight, Recipients;
    var c := "1->b";
    assert !Arrow(c) && Arrow(c[1..]) && c[..1] == "1" && c[3..] == "b";
    assert ArrowAt(c) == 1;
    TrimmedIsTrim("1");
    TrimmedIsTrim("b");
    assert '1' in "1" && !TypeChar('1');
    PlainAddress("b");
  }

  lemma CoveredAway(r: string, custom: string)
    requires Address(r) && Lower(r) in FullOf(CustomSegments(custom))
    ensures Filtered([r], custom) == []
  {
    hide FullOf, CustomSegments, Trim, Lower;
    TrimmedIsTrim(r);
    var p := Sparing(FullOf(CustomSegments(custom)));
    assert !p(r);
    FilterSnoc(p, [], r);
    assert [] + [r] == [r];
  }

  /** A blank `b` that trimming removes and the pattern does not know. */
  predicate OddBlank(b: string) { |b| == 1 && TrimSpace(b[0]) && !PatternSpace(b[0]) && !TypeChar(b[0]) }

  lemma BlankHidesStart(w: string, b: string, v: string)
    requires TypeWord(w) && OddBlank(b)
    ensures !SegmentStart(w + b + "->" + v)
  {
    hide TrimSpace;
    var rest := b + "->" + v;
    var s := w + b + "->" + v;
    assert s == w + rest;
    assert w[0] in w && s[0] == w[0];
    assert Skip(PatternSpace, s) == s;
    assert forall c | c in w :: TypeChar(c);
    SkipWord(w, rest);
    assert rest[0] == b[0];
    assert Skip(PatternSpace, rest) == rest;
  }

  lemma BlankParses(w: string, b: string, v: string)
    requires TypeWord(w) && OddBlank(b) && v != "" && Trimmed(v)
    ensures var s := w + b + "->" + v;
            && ParseSegment(s) == Some(Destination(Alias(w), v)) && s != "" && Trimmed(s)
            && ArrowAt(s) == |w| + 1 && s[..|w| + 1] == w + b && s[|w| + 3..] == v && Trim(w + b) == w
  {
    hide TrimRight, PatternSpace, Alias;
    var s := w + b + "->" + v;
    var n := |w| + 1;
    BlankText(w, b, v);
    assert forall c | c in w :: TypeChar(c);
    assert w[0] in w && w[|w| - 1] in w;
    forall j | 0 <= j < n ensures !Arrow(s[j..]) {
      assert s[j..][0] == s[j];
      assert j < |w| ==> w[j] in w;
    }
    ArrowAtIs(s, n);
    TrimRightSpaces(w, b);
    assert TrimLeft(w + b) == w + b;
    TrimmedIsTrim(v);
  }

  lemma BlankText(w: string, b: string, v: string)
    requires w != "" && |b| == 1 && v != ""
    ensures var s := w + b + "->" + v;
            && s[..|w| + 1] == w + b && s[|w| + 1..] == "->" + v && s[|w| + 3..] == v
            && s[0] == w[0] && s[|s| - 1] == v[|v| - 1] && s[|w|] == b[0]
            && forall j | 0 <= j < |w| :: s[j] == w[j]
  {}

  const BLANK_FULL := "email_full" + "\U{A0}" + "->" + "a"

  lemma BlankFull()
    ensures CanonicalSegment(BLANK_FULL) && !SegmentStart(BLANK_FULL) && Address(BLANK_FULL)
    ensures FullOfSegment(BLANK_FULL) == {Lower("a")}
  {
    hide SegmentStart, ParseSegment, Trim, ArrowAt, SplitOn, Lower, TrimSpace;
    var w, b, v := "email_full", "\U{A0}", "a";
    assert TypeWord(w) by { assert forall c | c in w :: TypeChar(c); }
    assert OddBlank(b) by { BlankIsOdd(b); }
    assert Address(v) by { AddressOfA(); }
    BlankHidesStart(w, b, v);
    BlankParses(w, b, v);
    PlainAddress(v);
    assert Free(Separator, BLANK_FULL);
    BlankFullOf(w, b, v);
  }

  lemma BlankIsOdd(b: string)
    requires b == "\U{A0}"
    ensures OddBlank(b)
  {}

  lemma AddressOfA()
    ensures Address("a")
  {}

  lemma BlankFullOf(w: string, b: string, v: string)
    requires w == "email_full" && |b| == 1 && v != "" && SplitOn(Semicolon, v) == [v] && Trim(v) == v
    requires var s := w + b + "->" + v;
             ArrowAt(s) == |w| + 1 && s[..|w| + 1] == w + b && s[|w| + 3..] == v && Trim(w + b) == w
    ensures FullOfSegment(w + b + "->" + v) == {Lower(v)}
  {
    hide SplitOn, Trim, ArrowAt, Lower;
  }

  lemma BlankCustom()
    ensures CustomSegments(BLANK_FULL) == [BLANK_FULL] && FullOf(CustomSegments(BLANK_FULL)) == {"a"}
    ensures Base("", BLANK_FULL) == [BLANK_FULL] && AllCanonical([BLANK_FULL])
  {
    hide SegmentStart, CanonicalSegment, CustomSegments, FullOfSegment, Lower;
    BlankFull();
    CustomRoundTrip([BLANK_FULL]);
    FullOfLast([], BLANK_FULL);
    assert [] + [BLANK_FULL] == [BLANK_FULL];
    LowerLetter("a");
    NothingDropped([BLANK_FULL]);
  }

  lemma BlankReads(emails: seq<string>, kind: string, r: string)
    requires AllMailboxes(emails) && emails != []
    ensures Receives(Read(emails, "", BLANK_FULL), kind, r) <==>
            kind == "email_report" && (Mailed(emails, r) || r == BLANK_FULL)
  {
    hide SegmentStart, CanonicalSegment, CustomSegments, Read, Receives, Recipients, Base;
    BlankFull();
    BlankCustom();
    ReadReceives(emails, "", BLANK_FULL, kind, r);
    FirstOwned(Some("email_report"), [BLANK_FULL]);
    assert Owned(Some("email_report"), [BLANK_FULL]) == [Destination("email_report", BLANK_FULL)];
    ReceivesOne(Destination("email_report", BLANK_FULL), kind, r);
    PlainAddress(BLANK_FULL);
  }

  lemma BlankFiltered()
    ensures Filtered(["a", "c"], BLANK_FULL) == ["c"]
  {
    hide CustomSegments, FullOf, Trim, Lower;
    BlankCustom();
    LowerLetter("a");
    LowerLetter("c");
    TrimmedIsTrim("a");
    TrimmedIsTrim("c");
    var p := Sparing({"a"});
    FilterSnoc(p, [], "a");
    FilterSnoc(p, ["a"], "c");
    assert [] + ["a"] == ["a"] && ["a"] + ["c"] == ["a", "c"];
  }

  lemma OneAddress(email: string, r: string)
    requires Address(email)
    ensures Mailbox(email) && (r in Recipients(email) <==> r == email)
  {
    PlainAddress(email);
  }

  lemma TwoAddresses(r: string)
    ensures AllMailboxes(["a", "c"]) && (Mailed(["a", "c"], r) <==> r == "a" || r == "c")
    ensures AllMailboxes(["c"]) && (Mailed(["c"], r) <==> r == "c")
  {
    hide Recipients, Mailbox;
    OneAddress("a", r);
    OneAddress("c", r);
    assert ["a", "c"][0] == "a" && ["a", "c"][1] == "c" && ["c"][0] == "c";
    assert r in Recipients(["a", "c"][0]) || r in Recipients(["a", "c"][1]) || !Mailed(["a", "c"], r);
    assert r in Recipients(["c"][0]) || !Mailed(["c"], r);
  }

  /** The portal trims blanks the pattern does not know, so it counts `a` as covered by a
      segment the server never reads as an email_full: unfiltered `a` gets the report,
      filtered `a` gets nothing. */
  lemma BlankTypeInput(emails: seq<string>)
    requires emails == ["a", "c"]
    ensures !CoverSeen(BLANK_FULL)
    ensures Receives(Final([], Read(emails, "", BLANK_FULL), []), "email_report", "a")
    ensures forall kind :: !Receives(Final([], Read(Filtered(emails, BLANK_FULL), "", BLANK_FULL), []), kind, "a")
  {
    hide SegmentStart, CustomSegments, Read, Receives, Recipients, Final, FullSet, FullOf, Filtered, Mailed, Lower;
    BlankFull();
    BlankCustom();
    BlankFiltered();
    TwoAddresses("a");
    var ds := Dedup([] + Read(emails, "", BLANK_FULL) + []);
    forall f ensures !Receives(ds, "email_full", f) {
      FinalReceives([], Read(emails, "", BLANK_FULL), [], "email_full", f);
      BlankReads(emails, "email_full", f);
      NobodyReceives("email_full", f);
    }
    FullSetIs(ds, Lower("a"));
    FinalReceives([], Read(emails, "", BLANK_FULL), [], "email_report", "a");
    BlankReads(emails, "email_report", "a");
    forall kind ensures !Receives(Final([], Read(["c"], "", BLANK_FULL), []), kind, "a") {
      FinalReceives([], Read(["c"], "", BLANK_FULL), [], kind, "a");
      BlankReads(["c"], kind, "a");
      NobodyReceives(kind, "a");
    }
  }

  const COPY := "email_report->a,1->b,email_full->a"

  lemma CopyText()
    ensures Join(["email_report->a", "1->b", "email_full->a"]) == COPY
    ensures Distinct(["email_report->a", "1->b", "email_full->a"])
  {
    JoinThree("email_report->a", "1->b", "email_full->a");
    assert "email_report->a" + "," + ("1->b" + "," + "email_full->a") == COPY;
  }

  lemma JoinThree(a: string, b: string, c: string)
    ensures Join([a, b, c]) == a + "," + (b + "," + c)
  {
    assert [a, b, c][1..] == [b, c];
    JoinTwo(b, c);
  }

  lemma CopyCustom(rep: string, odd: string, full: string)
    requires rep == "email_report->a" && odd == "1->b" && full == "email_full->a"
    ensures CustomSegments(COPY) == [rep, odd, full] == Base("s", COPY)
    ensures "a" in FullOf(CustomSegments(COPY))
    ensures CanonicalSegment(rep) && CanonicalSegment(odd) && CanonicalSegment(full)
    ensures SegmentStart(rep) && !SegmentStart(odd) && SegmentStart(full)
    ensures Head(rep).kind == "email_report" && Head(full).kind == "email_full"
  {
    hide SegmentStart, FullOfSegment, FullOf, Recipients, CanonicalSegment, CustomSegments, Lower, ParseSegment, Trimmed,
         Free, Distinct, Join;
    OddTypeExists();
    CopyText();
    AddressOfA();
    FullSegment("a");
    ReportOfA();
    LowerLetter("a");
    assert "email_full->" + "a" == full;
    PrintedFull();
    CopyBase(rep, odd, full);
  }

  lemma CopyBase(rep: string, odd: string, full: string)
    requires Join([rep, odd, full]) == COPY && Distinct([rep, odd, full])
    requires CanonicalSegment(rep) && CanonicalSegment(odd) && CanonicalSegment(full)
    requires rep != "portal->s" && odd != "portal->s" && full != "portal->s"
    ensures CustomSegments(COPY) == [rep, odd, full] == Base("s", COPY) && AllCanonical([rep, odd, full])
    ensures FullOf([rep, odd, full]) >= FullOfSegment(full)
  {
    hide CanonicalSegment, CustomSegments, Distinct, Join, FullOfSegment, FullOf;
    var cs := [rep, odd, full];
    assert forall s | s in cs :: s == rep || s == odd || s == full;
    CustomRoundTrip(cs);
    assert cs == [rep, odd] + [full];
    FullOfLast([rep, odd], full);
    assert "portal->" + "s" == "portal->s";
    FilterAll(Outside(["portal->s"]), cs);
  }

  lemma ReportOfA()
    ensures CanonicalSegment("email_report->a") && SegmentStart("email_report->a")
    ensures Head("email_report->a") == Destination("email_report", "a")
    ensures Print(Report(["a"])) == "email_report->a" && DerivedReport(["a"]) == ["email_report->a"]
  {
    hide SegmentStart, ParseSegment;
    ReportIsCanonical(["a"]);
    assert Print(Report(["a"])) == "email_report->a";
  }

  lemma PrintedFull()
    ensures ParseSegment("email_full->a") == Some(Destination("email_full", "a"))
  {
    hide SegmentStart, ParseSegment;
    assert forall c | c in "email_full" :: TypeChar(c);
    PrintedIsCanonical(Destination("email_full", "a"));
    assert Print(Destination("email_full", "a")) == "email_full->a";
  }

  /** A custom copy of the derived report before an unknown type: unfiltered the copy is
      dropped and the unknown segment joins the account, filtered it joins the copy. */
  lemma CopiedReportInput(emails: seq<string>)
    requires emails == ["a"]
    ensures !ReportUncopied(emails, "s", COPY) && !OddFirst(emails, "s", COPY)
    ensures !SameReach(emails, "s", COPY, [], [], "portal", "1->b")
  {
    hide SegmentStart, CustomSegments, Read, Receives, Recipients, Final, FullSet, FullOf, Filtered, Lower, Base, Print,
         Trimmed, Free, ParseSegment;
    var rep, odd, full := "email_report->a", "1->b", "email_full->a";
    CopyCustom(rep, odd, full);
    AddressOfA();
    OddAddresses(odd);
    LowerLetter("a");
    CoveredAway("a", COPY);
    assert Print(Report(["a"])) == rep && DerivedReport(["a"]) == [rep] by { ReportOfA(); }
    var base := Base("s", COPY);
    assert base[0] == rep && base[0 + 1] == odd && base[2] == full;
    assert AllMailboxes(emails) by { OneAddress("a", odd); }
    CopiedReportDiffers(emails, "s", COPY, odd);
  }

  lemma OddAddresses(odd: string)
    requires odd == "1->b"
    ensures odd in Recipients(odd) && odd !in Recipients("s") && GoodAccount("s")
  {
    OneAddress(odd, odd);
    OneAddress("s", odd);
  }
}
