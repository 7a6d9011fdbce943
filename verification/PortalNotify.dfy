/** How the portal builds a number's notify string (portal/internal/api/handlers_admin.go),
    and that the server reads it back. */
module PortalNotify {
  import opened Seqs
  import opened NotifyLanguage

  /** Cuts at every separator. */
  function SplitOn(sep: char -> bool, s: string): (r: seq<string>)
    ensures r != []
  {
    if s == "" then [""]
    else
      var r := SplitOn(sep, s[1..]);
      if sep(s[0]) then [""] + r else [[s[0]] + r[0]] + r[1..]
  }

  predicate Comma(c: char) { c == ',' }

  predicate Free(sep: char -> bool, s: string) { forall c | c in s :: !sep(c) }

  lemma {:induction false} PiecesAreFree(sep: char -> bool, s: string)
    ensures forall x | x in SplitOn(sep, s) :: Free(sep, x)
    ensures forall x | x in SplitOn(sep, s) :: forall c | c in x :: c in s
  {
    if s != "" {
      PiecesAreFree(sep, s[1..]);
      var r := SplitOn(sep, s[1..]);
      forall x | x in SplitOn(sep, s) ensures Free(sep, x) && forall c | c in x :: c in s {
        if x in r { assert forall c | c in x :: c in s[1..]; }
        else if !sep(s[0]) { assert r[0] in r && x == [s[0]] + r[0]; }
      }
    }
  }

  lemma {:induction false} SplitOnOne(sep: char -> bool, s: string)
    requires Free(sep, s)
    ensures SplitOn(sep, s) == [s]
  {
    if s != "" {
      assert s[0] in s;
      SplitOnOne(sep, s[1..]);
      assert [s[0]] + s[1..] == s;
    }
  }

  lemma {:induction false} SplitOnFirst(sep: char -> bool, s: string, c: char, rest: string)
    requires Free(sep, s) && sep(c)
    ensures SplitOn(sep, s + [c] + rest) == [s] + SplitOn(sep, rest)
  {
    var all := s + [c] + rest;
    if s == "" {
      assert all[1..] == rest;
    } else {
      assert s[0] in s;
      assert all[1..] == s[1..] + [c] + rest;
      SplitOnFirst(sep, s[1..], c, rest);
      assert [s[0]] + s[1..] == s;
    }
  }

  lemma {:induction false} SplitCommaJoin(segs: seq<string>)
    requires segs != [] && forall s | s in segs :: Free(Comma, s)
    ensures SplitOn(Comma, Join(segs)) == segs
  {
    assert segs[0] in segs;
    if |segs| == 1 {
      SplitOnOne(Comma, segs[0]);
    } else {
      SplitCommaJoin(segs[1..]);
      SplitOnFirst(Comma, segs[0], ',', Join(segs[1..]));
      assert segs[0] + "," + Join(segs[1..]) == segs[0] + [','] + Join(segs[1..]);
    }
  }

  // ------------------------------------------------------- custom segments

  /** The canonical segments of a list of raw pieces; nothing if one is malformed. */
  function Canonical(pieces: seq<string>): Option<seq<string>>
  {
    if pieces == [] then Some([])
    else
      var before, seg := Canonical(pieces[..|pieces| - 1]), Trim(pieces[|pieces| - 1]);
      if before.None? || seg == "" then before
      else if ParseSegment(seg).None? then None
      else if seg in before.value then before
      else Some(before.value + [seg])
  }

  /** The segments a custom notify string stands for; none when it is invalid. */
  function CustomSegments(custom: string): seq<string>
  {
    var c := Canonical(SplitOn(Comma, Trim(custom)));
    if Trim(custom) == "" || c.None? then [] else c.value
  }

  ghost predicate Distinct(segs: seq<string>)
  {
    forall i, j | 0 <= i < j < |segs| :: segs[i] != segs[j]
  }

  predicate CanonicalSegment(s: string)
  {
    s != "" && Trimmed(s) && Free(Comma, s) && ParseSegment(s).Some?
  }

  lemma {:induction false} CanonicalSegments(pieces: seq<string>)
    requires forall x | x in pieces :: Free(Comma, x)
    ensures Canonical(pieces).Some? ==>
              Distinct(Canonical(pieces).value) && forall s | s in Canonical(pieces).value :: CanonicalSegment(s)
  {
    if pieces != [] {
      var last := pieces[|pieces| - 1];
      assert last in pieces;
      CanonicalSegments(pieces[..|pieces| - 1]);
      TrimIsTrimmed(last);
      var before := Canonical(pieces[..|pieces| - 1]);
      assert before.Some? ==> forall i | 0 <= i < |before.value| :: before.value[i] in before.value;
    }
  }

  lemma CustomSegmentsAreCanonical(custom: string)
    ensures forall s | s in CustomSegments(custom) :: CanonicalSegment(s)
    ensures Distinct(CustomSegments(custom))
  {
    PiecesAreFree(Comma, Trim(custom));
    CanonicalSegments(SplitOn(Comma, Trim(custom)));
  }

  /** Pieces are accepted exactly when each is blank or a segment the server can parse; the
      canonical segments are the trimmed ones of those, each once. */
  lemma {:induction false} CanonicalMeans(pieces: seq<string>)
    ensures Canonical(pieces).Some? <==>
              forall p | p in pieces :: Trim(p) == "" || ParseSegment(Trim(p)).Some?
    ensures Canonical(pieces).Some? ==>
              && Distinct(Canonical(pieces).value)
              && forall s :: s in Canonical(pieces).value <==> s != "" && exists p | p in pieces :: Trim(p) == s
  {
    hide Trim, ParseSegment;
    if pieces != [] {
      var before, last := pieces[..|pieces| - 1], pieces[|pieces| - 1];
      CanonicalMeans(before);
      assert pieces == before + [last];
      assert forall p :: p in pieces <==> p in before || p == last;
      assert Canonical(before).Some? ==>
        forall i | 0 <= i < |Canonical(before).value| :: Canonical(before).value[i] in Canonical(before).value;
    }
  }

  /** Ok is false for an invalid segment; the string is the canonical form otherwise. */
  method NormalizeCustomNotify(raw: string) returns (ok: bool, canonical: string)
    ensures ok <==> Trim(raw) == "" || Canonical(SplitOn(Comma, Trim(raw))).Some?
    ensures canonical == Join(CustomSegments(raw))
  {
    var trimmed := Trim(raw);
    if trimmed == "" { return true, ""; }
    var out;
    ok, out := NormalizePieces(SplitOn(Comma, trimmed));
    canonical := Join(out);
  }

  method NormalizePieces(pieces: seq<string>) returns (ok: bool, out: seq<string>)
    ensures ok <==> Canonical(pieces).Some?
    ensures out == if ok then Canonical(pieces).value else []
  {
    hide ArrowAt, Trim;
    out := [];
    for n := 0 to |pieces|
      invariant Canonical(pieces[..n]) == Some(out)
    {
      assert pieces[..n + 1][..n] == pieces[..n];
      var seg := Trim(pieces[n]);
      if seg == "" { continue; }
      var i := ArrowAt(seg);
      if i == |seg| || Trim(seg[..i]) == "" || Trim(seg[i + 2..]) == "" {
        MalformedSticks(pieces, n + 1);
        return false, [];
      }
      if seg !in out { out := out + [seg]; }
    }
    assert pieces[..|pieces|] == pieces;
    ok := true;
  }

  lemma {:induction false} MalformedSticks(pieces: seq<string>, n: nat)
    requires n <= |pieces| && Canonical(pieces[..n]).None?
    ensures Canonical(pieces).None?
    decreases |pieces|
  {
    if n < |pieces| {
      assert pieces[..|pieces| - 1][..n] == pieces[..n];
      MalformedSticks(pieces[..|pieces| - 1], n);
    } else {
      assert pieces[..n] == pieces;
    }
  }

  function Outside(derived: seq<string>): string -> bool { s => s !in derived }

  function Merged(derived: seq<string>, custom: string): seq<string>
  {
    derived + Filter(Outside(derived), CustomSegments(custom))
  }

  method MergeNotifySegments(derived: seq<string>, custom: string) returns (notify: string)
    ensures notify == Join(Merged(derived, custom))
  {
    var out := derived;
    var ok, canonical := NormalizeCustomNotify(custom);
    ghost var segs := CustomSegments(custom);
    CustomSegmentsAreCanonical(custom);
    JoinEmpty(segs);
    if ok && canonical != "" {
      SplitCommaJoin(segs);
      out := AppendNew(derived, SplitOn(Comma, canonical));
    }
    assert derived + [] == derived;
    notify := Join(out);
  }

  method AppendNew(derived: seq<string>, pieces: seq<string>) returns (out: seq<string>)
    requires Distinct(pieces)
    ensures out == derived + Filter(Outside(derived), pieces)
  {
    out := derived;
    var seen := set s | s in derived;
    for n := 0 to |pieces|
      invariant out == derived + Filter(Outside(derived), pieces[..n])
      invariant forall s :: s in seen <==> s in derived || s in pieces[..n]
    {
      MergeStep(derived, pieces, n);
      if pieces[n] !in seen {
        seen := seen + {pieces[n]};
        out := out + [pieces[n]];
      }
    }
    assert pieces[..|pieces|] == pieces;
  }

  lemma MergeStep(derived: seq<string>, segs: seq<string>, n: nat)
    requires n < |segs| && Distinct(segs)
    ensures Filter(Outside(derived), segs[..n + 1]) ==
            Filter(Outside(derived), segs[..n]) + if segs[n] in derived then [] else [segs[n]]
    ensures segs[n] !in segs[..n]
    ensures forall s :: s in segs[..n + 1] <==> s in segs[..n] || s == segs[n]
  {
    assert segs[..n + 1] == segs[..n] + [segs[n]];
    FilterConcat(Outside(derived), segs[..n], [segs[n]]);
  }

  lemma JoinEmpty(segs: seq<string>)
    requires forall s | s in segs :: s != ""
    ensures Join(segs) == "" <==> segs == []
  {
    assert segs != [] ==> segs[0] in segs;
  }

  // ------------------------------------------------- printed and parsed back

  /** The server cuts the portal's string into its segments exactly when every segment
      but the first begins the way the server expects. */
  lemma PortalOutputSplitsIff(derived: seq<string>, custom: string)
    requires forall d | d in derived :: Free(Comma, d)
    requires Merged(derived, custom) != []
    ensures var segs := Merged(derived, custom);
            Split(Join(segs)) == segs <==> forall i | 1 <= i < |segs| :: SegmentStart(segs[i])
  {
    var segs := Merged(derived, custom);
    CustomSegmentsAreCanonical(custom);
    forall i | 0 <= i < |segs| ensures NoInnerStart(segs[i]) {
      assert segs[i] in segs;
      MergedMember(derived, custom, segs[i]);
      assert forall k | 0 <= k < |segs[i]| :: segs[i][k] in segs[i];
    }
    SplitJoinIff(segs);
  }

  lemma MergedMember(derived: seq<string>, custom: string, s: string)
    ensures s in Merged(derived, custom) <==> s in derived || s in CustomSegments(custom)
  {
    FilterMember(Outside(derived), CustomSegments(custom), s);
  }

  // ------------------------------------------ what happens to the others

  /** Each segment the pattern does not know, joined to the one before it. */
  function Group(segs: seq<string>): (r: seq<string>)
    ensures segs != [] ==> r != []
  {
    if segs == [] then []
    else
      var before, seg := Group(segs[..|segs| - 1]), segs[|segs| - 1];
      if before == [] || SegmentStart(seg) then before + [seg]
      else before[..|before| - 1] + [before[|before| - 1] + "," + seg]
  }

  lemma {:induction false} JoinSnoc(segs: seq<string>, seg: string)
    requires segs != []
    ensures Join(segs + [seg]) == Join(segs) + "," + seg
  {
    if |segs| == 1 {
      assert Join(segs + [seg]) == segs[0] + "," + Join((segs + [seg])[1..]);
      assert (segs + [seg])[1..] == [seg];
    } else {
      JoinSnoc(segs[1..], seg);
      assert (segs + [seg])[1..] == segs[1..] + [seg];
    }
  }

  lemma JoinOne(seg: string)
    ensures Join([seg]) == seg
  {}

  lemma JoinLonger(segs: seq<string>, seg: string)
    requires segs != []
    ensures Join(segs[..|segs| - 1] + [segs[|segs| - 1] + "," + seg]) == Join(segs) + "," + seg
  {
    hide Join;
    var before, last := segs[..|segs| - 1], segs[|segs| - 1];
    var longer := last + "," + seg;
    assert segs == before + [last];
    if before == [] {
      assert before + [longer] == [longer] && segs == [last];
      JoinOne(longer);
      JoinOne(last);
    } else {
      JoinSnoc(before, last);
      JoinSnoc(before, longer);
      Associate(Join(before), last, seg);
    }
  }

  lemma Associate(a: string, b: string, c: string)
    ensures a + "," + (b + "," + c) == a + "," + b + "," + c
  {}

  lemma {:induction false} JoinGroup(segs: seq<string>)
    ensures Join(Group(segs)) == Join(segs)
  {
    hide SegmentStart;
    if segs != [] {
      var before, seg := segs[..|segs| - 1], segs[|segs| - 1];
      JoinGroup(before);
      assert segs == before + [seg];
      if before != [] {
        JoinSnoc(before, seg);
        JoinSnoc(Group(before), seg);
        JoinLonger(Group(before), seg);
      }
    }
  }

  lemma NoInnerAppend(g: string, seg: string)
    requires NoInnerStart(g) && Free(Comma, seg) && !SegmentStart(seg)
    ensures NoInnerStart(g + "," + seg)
  {
    hide SegmentStart;
    var s := g + "," + seg;
    forall k | |g| < k < |s| ensures s[k] != ',' {
      assert s[k] == seg[k - |g| - 1] && seg[k - |g| - 1] in seg;
    }
    forall k | 0 <= k <= |g| && s[k] == ',' ensures !SegmentStart(s[k + 1..]) {
      if k < |g| {
        SegmentStartLocal(g[k + 1..], seg);
        assert s[k + 1..] == g[k + 1..] + "," + seg;
      } else {
        assert s[k + 1..] == seg;
      }
    }
  }

  lemma {:induction false} GroupIsWellSegmented(segs: seq<string>)
    requires forall s | s in segs :: Free(Comma, s)
    ensures WellSegmented(Group(segs))
  {
    hide SegmentStart, NoInnerStart;
    if segs != [] {
      var before, seg := Group(segs[..|segs| - 1]), segs[|segs| - 1];
      GroupIsWellSegmented(segs[..|segs| - 1]);
      assert seg in segs;
      NoInnerFree(seg);
      if before != [] && !SegmentStart(seg) {
        NoInnerAppend(before[|before| - 1], seg);
        SegmentStartLocal(before[|before| - 1], seg);
      }
    }
  }

  lemma NoInnerFree(seg: string)
    requires Free(Comma, seg)
    ensures NoInnerStart(seg)
  {
    assert forall k | 0 <= k < |seg| :: seg[k] in seg;
  }

  /** For any custom string the portal accepts, the server reads each segment the pattern
      does not know as part of the segment before it, and every other one by itself. */
  lemma PortalOutputGroups(derived: seq<string>, custom: string)
    requires forall d | d in derived :: Free(Comma, d)
    requires Merged(derived, custom) != []
    ensures Split(Join(Merged(derived, custom))) == Group(Merged(derived, custom))
  {
    var segs := Merged(derived, custom);
    CustomSegmentsAreCanonical(custom);
    forall s | s in segs ensures Free(Comma, s) { MergedMember(derived, custom, s); }
    GroupIsWellSegmented(segs);
    JoinGroup(segs);
    SplitJoin(Group(segs));
  }

  /** So a custom type the pattern does not know, though the portal accepts it, is
      swallowed by the segment before it. */
  lemma OddTypeIsSwallowed(derived: seq<string>, custom: string, i: nat)
    requires forall d | d in derived :: Free(Comma, d)
    requires 0 < i < |Merged(derived, custom)| && !SegmentStart(Merged(derived, custom)[i])
    ensures var segs, read := Merged(derived, custom), Split(Join(Merged(derived, custom)));
            && read != segs
            && exists n | 0 <= n < |read| :: Absorbs(read[n], Group(segs[..i])[|Group(segs[..i])| - 1], segs[i])
  {
    var segs := Merged(derived, custom);
    PortalOutputGroups(derived, custom);
    PortalOutputSplitsIff(derived, custom);
    GroupAbsorbs(segs, i);
  }

  /** The segment read begins with what came before, a comma, and the odd one. */
  predicate Absorbs(read: string, before: string, odd: string)
  {
    before + "," + odd <= read
  }

  lemma {:induction false} GroupAbsorbs(segs: seq<string>, i: nat)
    requires 0 < i < |segs| && !SegmentStart(segs[i])
    ensures var g := Group(segs[..i])[|Group(segs[..i])| - 1];
            exists n | 0 <= n < |Group(segs)| :: Absorbs(Group(segs)[n], g, segs[i])
    decreases |segs|
  {
    hide SegmentStart;
    var g, all := Group(segs[..i])[|Group(segs[..i])| - 1], Group(segs);
    if i == |segs| - 1 {
      assert Absorbs(all[|all| - 1], g, segs[i]);
    } else {
      var before, last := segs[..|segs| - 1], segs[|segs| - 1];
      assert before[..i] == segs[..i];
      GroupAbsorbs(before, i);
      var n :| 0 <= n < |Group(before)| && Absorbs(Group(before)[n], g, segs[i]);
      assert Absorbs(all[n], g, segs[i]);
    }
  }

  lemma {:induction false} CanonicalOfCanonical(segs: seq<string>)
    requires Distinct(segs) && forall s | s in segs :: CanonicalSegment(s)
    ensures Canonical(segs) == Some(segs)
  {
    if segs != [] {
      var before, seg := segs[..|segs| - 1], segs[|segs| - 1];
      assert seg in segs && segs == before + [seg];
      CanonicalOfCanonical(before);
      TrimmedIsTrim(seg);
    }
  }

  lemma {:induction false} JoinTrimmed(segs: seq<string>)
    requires segs != [] && forall s | s in segs :: CanonicalSegment(s)
    ensures Join(segs) != "" && Trimmed(Join(segs))
  {
    assert segs[0] in segs;
    if |segs| > 1 {
      JoinTrimmed(segs[1..]);
      var s, rest := Join(segs), Join(segs[1..]);
      assert s == segs[0] + "," + rest;
      assert s[0] == segs[0][0] && s[|s| - 1] == rest[|rest| - 1];
    }
  }

  /** Any list of distinct canonical segments is what some custom string stands for. */
  lemma CustomRoundTrip(segs: seq<string>)
    requires segs != [] && Distinct(segs) && forall s | s in segs :: CanonicalSegment(s)
    ensures CustomSegments(Join(segs)) == segs
  {
    JoinTrimmed(segs);
    TrimmedIsTrim(Join(segs));
    SplitCommaJoin(segs);
    CanonicalOfCanonical(segs);
  }

  /** A one-digit type will do. */
  lemma OddTypeExists()
    ensures CustomSegments("1->b") == ["1->b"] && CanonicalSegment("1->b") && !SegmentStart("1->b")
  {
    var c := "1->b";
    assert !Arrow(c) && Arrow(c[1..]) && c[..1] == "1" && c[3..] == "b";
    assert ArrowAt(c) == 1;
    TrimmedIsTrim("1");
    TrimmedIsTrim("b");
    CustomRoundTrip([c]);
  }

  predicate Parses(seg: string) { ParseSegment(Trim(seg)).Some? }

  predicate Readable(seg: string)
  {
    Free(Comma, seg) && SegmentStart(seg) && Parses(seg)
  }

  /** One destination per segment, in order. */
  ghost predicate ReadsAs(segs: seq<string>, ds: seq<Destination>)
  {
    |ds| == |segs| && forall i | 0 <= i < |segs| :: ParseSegment(Trim(segs[i])) == Some(ds[i])
  }

  lemma ReadMore(segs: seq<string>, seg: string)
    requires ReadsAs(segs, Destinations(segs)) && Skipped(segs) == [] && Parses(seg)
    ensures ReadsAs(segs + [seg], Destinations(segs + [seg])) && Skipped(segs + [seg]) == []
  {
    DestinationsSnoc(segs, seg);
    assert Skipped(segs) + [] == [];
  }

  lemma {:induction false} ReadAll(segs: seq<string>)
    requires forall i | 0 <= i < |segs| :: Parses(segs[i])
    ensures ReadsAs(segs, Destinations(segs)) && Skipped(segs) == []
  {
    hide Parses;
    if segs != [] {
      var before, seg := segs[..|segs| - 1], segs[|segs| - 1];
      forall i | 0 <= i < |before| ensures Parses(before[i]) { assert before[i] == segs[i]; }
      ReadAll(before);
      ReadMore(before, seg);
      assert segs == before + [seg];
    }
  }

  lemma MergedReadable(derived: seq<string>, custom: string)
    requires forall d | d in derived :: Readable(d)
    requires forall s | s in CustomSegments(custom) :: SegmentStart(s)
    ensures var segs := Merged(derived, custom); forall i | 0 <= i < |segs| :: Readable(segs[i])
  {
    var segs := Merged(derived, custom);
    CustomSegmentsAreCanonical(custom);
    forall i | 0 <= i < |segs| ensures Readable(segs[i]) {
      var s := segs[i];
      assert s in segs;
      MergedMember(derived, custom, s);
      if s in CustomSegments(custom) { TrimmedIsTrim(s); }
    }
  }

  lemma ReadableParse(segs: seq<string>)
    requires forall i | 0 <= i < |segs| :: Readable(segs[i])
    ensures ReadsAs(segs, Destinations(Split(Join(segs))))
    ensures Skipped(Split(Join(segs))) == []
  {
    if segs == [] {
      assert Split("") == [""];
      assert [""][..0] == [];
    } else {
      forall i | 0 <= i < |segs| ensures SegmentStart(segs[i]) && NoInnerStart(segs[i]) {
        assert Readable(segs[i]);
        assert forall k | 0 <= k < |segs[i]| :: segs[i][k] in segs[i];
      }
      SplitJoin(segs);
      ReadAll(segs);
    }
  }

  /** Portal output parses into exactly its segments, nothing skipped. */
  lemma PortalOutputParses(derived: seq<string>, custom: string)
    requires forall d | d in derived :: Readable(d)
    requires forall s | s in CustomSegments(custom) :: SegmentStart(s)
    ensures ReadsAs(Merged(derived, custom), Destinations(Split(Join(Merged(derived, custom)))))
    ensures Skipped(Split(Join(Merged(derived, custom)))) == []
  {
    MergedReadable(derived, custom);
    ReadableParse(Merged(derived, custom));
  }
}
