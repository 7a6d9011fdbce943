/** What the server reads from any string the portal computes, custom types the server's
    pattern does not know included: each such segment only adds recipients to the
    destination before it. */
module NotifyReading {
  import opened Seqs
  import opened NotifyLanguage
  import opened PortalNotify
  import opened NotifyRecipients

  ghost predicate AllCanonical(segs: seq<string>)
  {
    forall i | 0 <= i < |segs| :: CanonicalSegment(segs[i])
  }

  function Head(seg: string): Destination
    requires ParseSegment(seg).Some?
  {
    ParseSegment(seg).value
  }

  /** A segment as the server takes it when the destination before it has type `prev`. */
  function Taken(prev: Option<string>, seg: string): Destination
    requires CanonicalSegment(seg)
  {
    if prev.None? || SegmentStart(seg) then Head(seg) else Destination(prev.value, seg)
  }

  function KindAfter(prev: Option<string>, ds: seq<Destination>): Option<string>
  {
    if ds == [] then prev else Some(ds[|ds| - 1].kind)
  }

  /** Segment by segment, whose recipients each one names. */
  function Owned(prev: Option<string>, segs: seq<string>): (r: seq<Destination>)
    requires AllCanonical(segs)
    ensures |r| == |segs|
  {
    if segs == [] then []
    else
      var before := Owned(prev, segs[..|segs| - 1]);
      before + [Taken(KindAfter(prev, before), segs[|segs| - 1])]
  }

  lemma OwnedSnoc(prev: Option<string>, segs: seq<string>, seg: string)
    requires AllCanonical(segs) && CanonicalSegment(seg)
    ensures AllCanonical(segs + [seg])
    ensures Owned(prev, segs + [seg]) == Owned(prev, segs) + [Taken(KindAfter(prev, Owned(prev, segs)), seg)]
  {
    assert (segs + [seg])[..|segs|] == segs;
  }

  lemma {:induction false} OwnedConcat(prev: Option<string>, a: seq<string>, b: seq<string>)
    requires AllCanonical(a) && AllCanonical(b)
    ensures AllCanonical(a + b)
    ensures Owned(prev, a + b) == Owned(prev, a) + Owned(KindAfter(prev, Owned(prev, a)), b)
  {
    hide Taken, CanonicalSegment, Owned;
    if b == [] {
      assert a + b == a;
      OwnedNone(KindAfter(prev, Owned(prev, a)));
    } else {
      var before, seg := b[..|b| - 1], b[|b| - 1];
      OwnedConcat(prev, a, before);
      assert a + b == (a + before) + [seg] && b == before + [seg];
      OwnedSnoc(prev, a + before, seg);
      OwnedSnoc(KindAfter(prev, Owned(prev, a)), before, seg);
    }
  }

  lemma OwnedNone(prev: Option<string>)
    ensures Owned(prev, []) == []
  {}

  // ------------------------------------------------- absorbing is adding recipients

  predicate Solid(g: string) { g != "" && Trimmed(g) && ParseSegment(g).Some? }

  lemma {:induction false} ArrowAtExtend(g: string, y: string)
    requires ArrowAt(g) < |g|
    ensures ArrowAt(g + y) == ArrowAt(g)
  {
    if !Arrow(g) {
      assert (g + y)[1..] == g[1..] + y;
      ArrowAtExtend(g[1..], y);
    }
  }

  lemma {:induction false} SkipNonBlank(s: string)
    requires s != "" && !TrimSpace(s[|s| - 1])
    ensures TrimLeft(s) != ""
  {
    if TrimSpace(s[0]) { SkipNonBlank(s[1..]); }
  }

  lemma TrimNonBlank(s: string)
    requires s != "" && !TrimSpace(s[|s| - 1])
    ensures Trim(s) != ""
  {
    SkipNonBlank(s);
    SkipStops(TrimSpace, s);
  }

  lemma AbsorbParse(g: string, seg: string)
    requires Solid(g) && seg != "" && Trimmed(seg)
    ensures var g' := g + "," + seg;
            && Solid(g') && Head(g').kind == Head(g).kind
            && Recipients(Head(g').value) == Recipients(Head(g).value) + Recipients(seg)
  {
    hide Recipients, Trim, TrimSpace, ArrowAt;
    var g', i := g + "," + seg, ArrowAt(g);
    AbsorbedText(g, seg, i);
    ArrowAtExtend(g, "," + seg);
    var rest := g[i + 2..];
    TrimNonBlank(rest + "," + seg);
    TrimmedEnd(g, i + 2);
    TrimmedEnd(g', i + 2);
    RecipientsOfComma(rest, seg);
  }

  lemma AbsorbedText(g: string, seg: string, i: nat)
    requires i + 2 <= |g| && seg != ""
    ensures var g' := g + "," + seg;
            && g' == g + ("," + seg) && g'[..i] == g[..i] && g'[i + 2..] == g[i + 2..] + "," + seg
            && g'[0] == g[0] && g'[|g'| - 1] == seg[|seg| - 1]
  {}

  lemma RecipientsOfComma(a: string, b: string)
    ensures Recipients(a + "," + b) == Recipients(a) + Recipients(b)
  {
    SplitOnAnywhere(Separator, a, ',', b);
    CleanConcat(SplitOn(Separator, a), SplitOn(Separator, b));
    assert a + "," + b == a + [','] + b;
  }

  lemma {:induction false} TrimLeftRecipients(s: string)
    ensures Recipients(TrimLeft(s)) == Recipients(s)
  {
    if s != "" && TrimSpace(s[0]) {
      TrimLeftRecipients(s[1..]);
      var r := SplitOn(Separator, s[1..]);
      assert !Separator(s[0]);
      assert ([s[0]] + r[0])[1..] == r[0];
      assert Trim([s[0]] + r[0]) == Trim(r[0]);
      assert SplitOn(Separator, s)[1..] == r[1..];
    }
  }

  /** The end of a trimmed segment only needs trimming on the left. */
  lemma TrimmedEnd(seg: string, i: nat)
    requires Trimmed(seg) && i <= |seg|
    ensures Recipients(Trim(seg[i..])) == Recipients(seg[i..])
  {
    var dest := seg[i..];
    TrimLeftRecipients(dest);
    SkipStops(TrimSpace, dest);
    assert dest != "" ==> dest[|dest| - 1] == seg[|seg| - 1];
    assert Trim(dest) == TrimLeft(dest);
  }

  lemma ReceivesConcat(a: seq<Destination>, b: seq<Destination>, kind: string, r: string)
    ensures Receives(a + b, kind, r) <==> Receives(a, kind, r) || Receives(b, kind, r)
  {
    if Receives(a, kind, r) { var d :| d in a && d.kind == kind && r in Recipients(d.value); assert d in a + b; }
    if Receives(b, kind, r) { var d :| d in b && d.kind == kind && r in Recipients(d.value); assert d in a + b; }
  }

  lemma ReceivesOne(d: Destination, kind: string, r: string)
    ensures Receives([d], kind, r) <==> d.kind == kind && r in Recipients(d.value)
  {
    assert d in [d];
  }

  lemma AbsorbReads(groups: seq<string>, g: string, seg: string, kind: string, r: string)
    requires Solid(g) && seg != "" && Trimmed(seg)
    ensures Receives(Destinations(groups + [g + "," + seg]), kind, r) <==>
              || Receives(Destinations(groups + [g]), kind, r)
              || (Head(g).kind == kind && r in Recipients(seg))
  {
    hide Recipients, SegmentStart, ParseSegment, Trim;
    var g' := g + "," + seg;
    AbsorbParse(g, seg);
    TrimmedIsTrim(g);
    TrimmedIsTrim(g');
    DestinationsSnoc(groups, g);
    DestinationsSnoc(groups, g');
    ReceivesSnoc(Destinations(groups), Head(g), kind, r);
    ReceivesSnoc(Destinations(groups), Head(g'), kind, r);
  }

  /** The grouped segments and the single ones tell the same recipients, type by type. */
  lemma {:induction false} GroupReads(segs: seq<string>, kind: string, r: string)
    requires AllCanonical(segs)
    ensures segs != [] ==>
              var g := Group(segs)[|Group(segs)| - 1];
              Solid(g) && KindAfter(None, Owned(None, segs)) == Some(Head(g).kind)
    ensures Receives(Destinations(Group(segs)), kind, r) <==> Receives(Owned(None, segs), kind, r)
  {
    hide SegmentStart, ParseSegment, Trim, Recipients, Destinations, Receives, Trimmed;
    if segs == [] {
      NoDestinations();
    } else {
      var before, seg := segs[..|segs| - 1], segs[|segs| - 1];
      assert segs == before + [seg] && CanonicalSegment(seg) && AllCanonical(before);
      GroupReads(before, kind, r);
      var groups, ds := Group(before), Owned(None, before);
      OwnedSnoc(None, before, seg);
      if before == [] || SegmentStart(seg) {
        assert Solid(seg) by { SolidCanonical(seg); }
        ReceivesSnoc(ds, Head(seg), kind, r);
        DestinationsOf(groups, seg);
        ReceivesSnoc(Destinations(groups), Head(seg), kind, r);
      } else {
        var g := groups[|groups| - 1];
        AbsorbReads(groups[..|groups| - 1], g, seg, kind, r);
        AbsorbParse(g, seg);
        assert groups == groups[..|groups| - 1] + [g];
        ReceivesSnoc(ds, Destination(Head(g).kind, seg), kind, r);
      }
    }
  }

  lemma NoDestinations()
    ensures Destinations([]) == []
  {}

  lemma DestinationsOf(groups: seq<string>, seg: string)
    requires CanonicalSegment(seg)
    ensures Destinations(groups + [seg]) == Destinations(groups) + [Head(seg)]
  {
    hide ParseSegment;
    TrimmedIsTrim(seg);
    DestinationsSnoc(groups, seg);
  }

  lemma SolidCanonical(seg: string)
    requires CanonicalSegment(seg)
    ensures Solid(seg)
  {}

  // ------------------------------------------------------- facts about owners

  /** What comes before matters only to a first segment the pattern does not know. */
  lemma {:induction false} OwnedAnyStart(p: Option<string>, q: Option<string>, segs: seq<string>)
    requires AllCanonical(segs) && (segs == [] || SegmentStart(segs[0]))
    ensures Owned(p, segs) == Owned(q, segs)
  {
    if |segs| > 1 { OwnedAnyStart(p, q, segs[..|segs| - 1]); }
  }

  /** Known segments stand for themselves wherever they are. */
  lemma {:induction false} KnownStands(prev: Option<string>, segs: seq<string>, i: nat)
    requires AllCanonical(segs) && i < |segs| && SegmentStart(segs[i])
    ensures Owned(prev, segs)[i] == Head(segs[i])
    decreases |segs|
  {
    if i < |segs| - 1 { KnownStands(prev, segs[..|segs| - 1], i); }
  }

  /** A copy of `s` is never followed by a segment the pattern does not know. */
  ghost predicate NoOddAfter(segs: seq<string>, s: string)
  {
    forall i | 0 <= i < |segs| - 1 && segs[i] == s :: SegmentStart(segs[i + 1])
  }

  /** How the last segment is taken once the copies before it are gone. */
  lemma TakenWithoutCopies(prev: Option<string>, before: seq<string>, seg: string, s: string)
    requires AllCanonical(before) && CanonicalSegment(seg) && AllCanonical(Filter(Outside([s]), before))
    requires before != [] && before[|before| - 1] == s ==> SegmentStart(seg)
    requires before == [] || before[|before| - 1] != s ==>
               KindAfter(prev, Owned(prev, Filter(Outside([s]), before))) == KindAfter(prev, Owned(prev, before))
    ensures Taken(KindAfter(prev, Owned(prev, Filter(Outside([s]), before))), seg) ==
            Taken(KindAfter(prev, Owned(prev, before)), seg)
  {
    hide Filter, ParseSegment, Trimmed, Owned;
  }

  lemma {:induction false} DropCopiesKind(prev: Option<string>, segs: seq<string>, s: string)
    requires AllCanonical(segs) && NoOddAfter(segs, s)
    ensures AllCanonical(Filter(Outside([s]), segs))
    ensures segs == [] || segs[|segs| - 1] != s ==>
              KindAfter(prev, Owned(prev, Filter(Outside([s]), segs))) == KindAfter(prev, Owned(prev, segs))
  {
    hide SegmentStart, CanonicalSegment, Taken, Filter;
    if segs == [] {
      FilterEmpty(s);
    } else {
      var before, seg := segs[..|segs| - 1], segs[|segs| - 1];
      BeforeLast(segs, s);
      DropCopiesKind(prev, before, s);
      FilterSnoc(Outside([s]), before, seg);
      if seg != s {
        TakenWithoutCopies(prev, before, seg, s);
        OwnedSnoc(prev, before, seg);
        OwnedSnoc(prev, Filter(Outside([s]), before), seg);
      }
    }
  }

  lemma BeforeLast(segs: seq<string>, s: string)
    requires segs != [] && AllCanonical(segs) && NoOddAfter(segs, s)
    ensures var before, seg := segs[..|segs| - 1], segs[|segs| - 1];
            && segs == before + [seg] && AllCanonical(before) && CanonicalSegment(seg) && NoOddAfter(before, s)
            && (before != [] && before[|before| - 1] == s ==> SegmentStart(seg))
  {
    hide SegmentStart, CanonicalSegment;
    var before := segs[..|segs| - 1];
    forall i | 0 <= i < |before| - 1 && before[i] == s ensures SegmentStart(before[i + 1]) {
      assert segs[i] == s && segs[i + 1] == before[i + 1];
    }
    if before != [] { assert segs[|before| - 1] == before[|before| - 1]; }
  }

  /** Then dropping the copies drops only what they say. */
  lemma {:induction false} DropCopies(prev: Option<string>, segs: seq<string>, s: string, kind: string, r: string)
    requires AllCanonical(segs) && CanonicalSegment(s) && SegmentStart(s) && NoOddAfter(segs, s)
    ensures AllCanonical(Filter(Outside([s]), segs))
    ensures Receives(Owned(prev, segs), kind, r) <==>
              || Receives(Owned(prev, Filter(Outside([s]), segs)), kind, r)
              || (s in segs && Head(s).kind == kind && r in Recipients(Head(s).value))
  {
    hide SegmentStart, ParseSegment, Trimmed, Recipients, Receives, Filter, NoOddAfter;
    DropCopiesKind(prev, segs, s);
    if segs == [] {
      FilterEmpty(s);
    } else {
      var before, seg := segs[..|segs| - 1], segs[|segs| - 1];
      BeforeLast(segs, s);
      DropCopies(prev, before, s, kind, r);
      DropCopiesKind(prev, before, s);
      var kept := Filter(Outside([s]), before);
      FilterSnoc(Outside([s]), before, seg);
      OwnedSnoc(prev, before, seg);
      var taken := Taken(KindAfter(prev, Owned(prev, before)), seg);
      ReceivesSnoc(Owned(prev, before), taken, kind, r);
      if seg != s {
        TakenWithoutCopies(prev, before, seg, s);
        OwnedSnoc(prev, kept, seg);
        ReceivesSnoc(Owned(prev, kept), taken, kind, r);
      }
    }
  }

  lemma FilterEmpty(s: string)
    ensures Filter(Outside([s]), []) == []
  {}

  // ------------------------------------------------------------- known types

  lemma {:induction false} TrimRightSpaces(w: string, blanks: string)
    requires w != "" && !TrimSpace(w[|w| - 1]) && forall k | 0 <= k < |blanks| :: TrimSpace(blanks[k])
    ensures TrimRight(w + blanks) == w
  {
    hide TrimSpace;
    if blanks == "" {
      assert w + blanks == w;
    } else {
      var s := w + blanks;
      assert s[|s| - 1] == blanks[|blanks| - 1];
      assert s[..|s| - 1] == w + blanks[..|blanks| - 1];
      TrimRightSpaces(w, blanks[..|blanks| - 1]);
    }
  }

  /** A segment the pattern knows has letters and underscores for its type. */
  lemma KnownHasTypeWord(s: string)
    requires CanonicalSegment(s) && SegmentStart(s)
    ensures TypeWord(Head(s).kind)
  {
    var after := Skip(TypeChar, s);
    assert Skip(PatternSpace, s) == s;
    var arrow := Skip(PatternSpace, after);
    var n, i := |s| - |after|, |s| - |arrow|;
    SkipStops(TypeChar, s);
    SkipRun(TypeChar, s);
    SkipStops(PatternSpace, after);
    SkipRun(PatternSpace, after);
    assert s[n..] == after && after[i - n..] == arrow && s[n..][i - n..] == s[i..];
    assert forall k | n <= k < i :: s[k] == after[k - n];
    KindOfKnown(s, n, i);
  }

  lemma KindOfKnown(s: string, n: nat, i: nat)
    requires 0 < n <= i < |s| && Arrow(s[i..]) && ParseSegment(s).Some?
    requires forall k | 0 <= k < n :: TypeChar(s[k])
    requires forall k | n <= k < i :: PatternSpace(s[k])
    ensures TypeWord(Head(s).kind)
  {
    hide TrimRight;
    forall j | 0 <= j < i ensures !Arrow(s[j..]) { assert s[j..][0] == s[j]; }
    ArrowAtIs(s, i);
    var w := s[..n];
    assert s[..i] == w + s[n..i];
    TrimRightSpaces(w, s[n..i]);
    assert TrimLeft(s[..i]) == s[..i];
    assert Trim(s[..i]) == w;
    assert forall c | c in "email_report" :: TypeChar(c);
  }

  /** After a known type, every owner has one. */
  lemma {:induction false} OwnersAreTypeWords(kind: string, segs: seq<string>)
    requires AllCanonical(segs) && TypeWord(kind)
    ensures forall i | 0 <= i < |segs| :: TypeWord(Owned(Some(kind), segs)[i].kind)
  {
    if segs != [] {
      var before, seg := segs[..|segs| - 1], segs[|segs| - 1];
      OwnersAreTypeWords(kind, before);
      if SegmentStart(seg) { KnownHasTypeWord(seg); }
    }
  }
}
