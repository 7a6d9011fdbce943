/** The notify string language: what the server parses (gofaxserver/notify.go) and what
    the portal prints (portal/internal/api/handlers_admin.go). */
module NotifyLanguage {
  import opened Seqs

  // ------------------------------------------------------------ characters

  /** White space of the segment-start pattern. */
  predicate PatternSpace(c: char) { c == ' ' || '\t' <= c <= '\n' || '\U{0C}' <= c <= '\r' }

  /** White space removed by trimming. */
  predicate TrimSpace(c: char)
  {
    || c == ' ' || '\t' <= c <= '\r' || c == '\U{85}' || c == '\U{A0}' || c == '\U{1680}'
    || '\U{2000}' <= c <= '\U{200A}' || '\U{2028}' <= c <= '\U{2029}' || c == '\U{202F}' || c == '\U{205F}'
    || c == '\U{3000}'
  }

  predicate TypeChar(c: char) { 'a' <= c <= 'z' || 'A' <= c <= 'Z' || c == '_' }

  function Skip(p: char -> bool, s: string): string
  {
    if s != "" && p(s[0]) then Skip(p, s[1..]) else s
  }

  predicate Arrow(s: string) { |s| >= 2 && s[0] == '-' && s[1] == '>' }

  /** The pattern of a segment start: spaces, a type word, spaces, an arrow. */
  predicate SegmentStart(s: string)
  {
    var word := Skip(PatternSpace, s);
    var after := Skip(TypeChar, word);
    |after| < |word| && Arrow(Skip(PatternSpace, after))
  }

  function TrimLeft(s: string): string { Skip(TrimSpace, s) }

  function TrimRight(s: string): string
  {
    if s != "" && TrimSpace(s[|s| - 1]) then TrimRight(s[..|s| - 1]) else s
  }

  function Trim(s: string): string { TrimRight(TrimLeft(s)) }

  predicate Trimmed(s: string) { s == "" || (!TrimSpace(s[0]) && !TrimSpace(s[|s| - 1])) }

  lemma TrimmedIsTrim(s: string)
    requires Trimmed(s)
    ensures Trim(s) == s
  {}

  lemma {:induction false} SkipStops(p: char -> bool, s: string)
    ensures var r := Skip(p, s);
            && |r| <= |s| && r == s[|s| - |r|..] && (r != "" ==> !p(r[0]))
  {
    if s != "" && p(s[0]) { SkipStops(p, s[1..]); }
  }

  lemma {:induction false} TrimRightStops(s: string)
    ensures var r := TrimRight(s);
            && |r| <= |s| && r == s[..|r|] && (r != "" ==> !TrimSpace(r[|r| - 1]))
  {
    if s != "" && TrimSpace(s[|s| - 1]) { TrimRightStops(s[..|s| - 1]); }
  }

  lemma TrimIsTrimmed(s: string)
    ensures Trimmed(Trim(s))
    ensures forall c | c in Trim(s) :: c in s
  {
    SkipStops(TrimSpace, s);
    TrimRightStops(TrimLeft(s));
    var l, r := TrimLeft(s), Trim(s);
    assert forall c | c in r :: c in l;
    assert forall c | c in l :: c in s;
  }

  lemma {:induction false} SkipIs(p: char -> bool, s: string, n: nat)
    requires n <= |s| && (forall k | 0 <= k < n :: p(s[k])) && (n < |s| ==> !p(s[n]))
    ensures Skip(p, s) == s[n..]
  {
    if n > 0 { SkipIs(p, s[1..], n - 1); }
  }

  /** What the pattern accepts, letter by letter: white space up to `a`, letters and
      underscores up to `b`, white space up to `c`, an arrow. */
  ghost predicate StartsAt(s: string, a: nat, b: nat, c: nat)
  {
    && a < b <= c && c + 2 <= |s| && s[c] == '-' && s[c + 1] == '>'
    && (forall k | a <= k < b :: 'a' <= s[k] <= 'z' || 'A' <= s[k] <= 'Z' || s[k] == '_')
    && (forall k | 0 <= k < a || b <= k < c ::
          s[k] == ' ' || s[k] == '\t' || s[k] == '\n' || s[k] == '\U{0C}' || s[k] == '\r')
  }

  lemma ArePlaces(s: string, a: nat, b: nat, c: nat)
    requires a < b <= c && c + 2 <= |s| && s[c] == '-' && s[c + 1] == '>'
    requires forall k | a <= k < b :: TypeChar(s[k])
    requires forall k | 0 <= k < a || b <= k < c :: PatternSpace(s[k])
    ensures StartsAt(s, a, b, c)
  {
  }

  lemma StartHasPlaces(s: string) returns (a: nat, b: nat, c: nat)
    requires SegmentStart(s)
    ensures StartsAt(s, a, b, c)
  {
    hide Skip, TypeChar, PatternSpace, StartsAt;
    var word := Skip(PatternSpace, s);
    var after := Skip(TypeChar, word);
    var rest := Skip(PatternSpace, after);
    SkipStops(PatternSpace, s);
    SkipStops(TypeChar, word);
    SkipStops(PatternSpace, after);
    SkipRun(PatternSpace, s);
    SkipRun(TypeChar, word);
    SkipRun(PatternSpace, after);
    a, b, c := |s| - |word|, |s| - |after|, |s| - |rest|;
    assert forall k | a <= k < b :: s[k] == word[k - a];
    assert forall k | b <= k < c :: s[k] == after[k - b];
    assert s[c] == rest[0] && s[c + 1] == rest[1];
    ArePlaces(s, a, b, c);
  }

  lemma PlacesStart(s: string, a: nat, b: nat, c: nat)
    requires StartsAt(s, a, b, c)
    ensures SegmentStart(s)
  {
    hide Skip;
    var word, after := s[a..], s[b..];
    SkipIs(PatternSpace, s, a);
    SkipIs(TypeChar, word, b - a);
    assert word[b - a..] == after;
    SkipIs(PatternSpace, after, c - b);
    assert after[c - b..] == s[c..];
  }

  /** A segment starts exactly where there are such places. */
  lemma SegmentStartIff(s: string)
    ensures SegmentStart(s) <==> exists a: nat, b: nat, c: nat :: StartsAt(s, a, b, c)
  {
    hide SegmentStart, StartsAt;
    if SegmentStart(s) { var a, b, c := StartHasPlaces(s); }
    if a: nat, b: nat, c: nat :| StartsAt(s, a, b, c) { PlacesStart(s, a, b, c); }
  }

  lemma {:induction false} SkipRun(p: char -> bool, s: string)
    ensures |Skip(p, s)| <= |s| && forall k | 0 <= k < |s| - |Skip(p, s)| :: p(s[k])
  {
    if s != "" && p(s[0]) {
      SkipRun(p, s[1..]);
      assert forall k | 1 <= k < |s| :: s[k] == s[1..][k - 1];
    }
  }

  // --------------------------------------------------------------- splitting

  function Join(segs: seq<string>): string
  {
    if segs == [] then "" else if |segs| == 1 then segs[0] else segs[0] + "," + Join(segs[1..])
  }

  /** Cuts at exactly the commas that begin a new segment. */
  function Split(s: string): (r: seq<string>)
    ensures r != []
  {
    if s == "" then [""]
    else
      var r := Split(s[1..]);
      if s[0] == ',' && SegmentStart(s[1..]) then [""] + r else [[s[0]] + r[0]] + r[1..]
  }

  /** No comma inside the segment begins another one. */
  predicate NoInnerStart(s: string)
  {
    forall k | 0 <= k < |s| && s[k] == ',' :: !SegmentStart(s[k + 1..])
  }

  /** What a list must look like to survive being joined. */
  predicate WellSegmented(segs: seq<string>)
  {
    && (forall i | 1 <= i < |segs| :: SegmentStart(segs[i]))
    && (forall i | 0 <= i < |segs| :: NoInnerStart(segs[i]))
  }

  /** Joining the split pieces with commas returns the input. */
  lemma {:induction false} JoinSplit(s: string)
    ensures Join(Split(s)) == s
  {
    hide SegmentStart;
    if s != "" {
      JoinSplit(s[1..]);
      var r := Split(s[1..]);
      if s[0] == ',' && SegmentStart(s[1..]) {
        assert ([""] + r)[1..] == r;
        assert Join(Split(s)) == "" + "," + Join(r);
      } else {
        assert Split(s)[1..] == r[1..];
        assert s == [s[0]] + s[1..];
      }
    }
  }

  lemma {:induction false} SkipLocal(p: char -> bool, x: string, y: string)
    requires !p(',')
    ensures Skip(p, x + "," + y) == Skip(p, x) + "," + y
  {
    var s := x + "," + y;
    if x != "" && p(x[0]) {
      assert s[1..] == x[1..] + "," + y;
      SkipLocal(p, x[1..], y);
    } else {
      assert s[0] == if x == "" then ',' else x[0];
    }
  }

  /** Whether a segment starts depends only on the text before the next comma. */
  lemma SegmentStartLocal(x: string, y: string)
    ensures SegmentStart(x + "," + y) == SegmentStart(x)
  {
    SkipLocal(PatternSpace, x, y);
    var word := Skip(PatternSpace, x);
    SkipLocal(TypeChar, word, y);
    var after := Skip(TypeChar, word);
    SkipLocal(PatternSpace, after, y);
    var z := Skip(PatternSpace, after);
    assert Arrow(z + "," + y) == Arrow(z);
  }

  lemma NoInnerCons(c: char, r: string)
    ensures NoInnerStart([c] + r) <==> NoInnerStart(r) && !(c == ',' && SegmentStart(r))
  {
    var s := [c] + r;
    assert s[0] == c && s[0 + 1..] == r;
    forall k | 0 <= k < |r| ensures s[(k + 1) + 1..] == r[k + 1..] && s[k + 1] == r[k] {}
    if NoInnerStart(s) {
      forall k | 0 <= k < |r| && r[k] == ',' ensures !SegmentStart(r[k + 1..]) {
        assert s[k + 1] == ',' && s[(k + 1) + 1..] == r[k + 1..];
      }
    } else {
      var k :| 0 <= k < |s| && s[k] == ',' && SegmentStart(s[k + 1..]);
      if k > 0 { assert r[k - 1] == ',' && r[(k - 1) + 1..] == s[k + 1..]; }
    }
  }

  lemma {:induction false} SplitOne(seg: string)
    requires NoInnerStart(seg)
    ensures Split(seg) == [seg]
  {
    if seg != "" {
      assert [seg[0]] + seg[1..] == seg;
      NoInnerCons(seg[0], seg[1..]);
      SplitOne(seg[1..]);
    }
  }

  lemma {:induction false} SplitFirst(seg: string, rest: string)
    requires NoInnerStart(seg) && SegmentStart(rest)
    ensures Split(seg + "," + rest) == [seg] + Split(rest)
  {
    var s := seg + "," + rest;
    if seg == "" {
      assert s[1..] == rest;
    } else {
      assert [seg[0]] + seg[1..] == seg;
      NoInnerCons(seg[0], seg[1..]);
      assert s[1..] == seg[1..] + "," + rest;
      SplitFirst(seg[1..], rest);
      SegmentStartLocal(seg[1..], rest);
    }
  }

  lemma {:induction false} SplitJoin(segs: seq<string>)
    requires segs != [] && WellSegmented(segs)
    ensures Split(Join(segs)) == segs
  {
    if |segs| == 1 {
      SplitOne(segs[0]);
    } else {
      var rest := segs[1..];
      SplitJoin(rest);
      JoinStarts(rest);
      SplitFirst(segs[0], Join(rest));
    }
  }

  lemma JoinStarts(segs: seq<string>)
    requires segs != []
    ensures SegmentStart(Join(segs)) == SegmentStart(segs[0])
  {
    if |segs| > 1 { SegmentStartLocal(segs[0], Join(segs[1..])); }
  }

  lemma {:induction false} SplitIsWellSegmented(s: string)
    ensures WellSegmented(Split(s))
  {
    hide SegmentStart;
    if s != "" {
      SplitIsWellSegmented(s[1..]);
      JoinSplit(s[1..]);
      var r, out := Split(s[1..]), Split(s);
      JoinStarts(r);
      forall i | 1 <= i < |out| ensures SegmentStart(out[i]) {
        if s[0] == ',' && SegmentStart(s[1..]) { assert out[i] == r[i - 1]; } else { assert out[i] == r[i]; }
      }
      forall i | 0 <= i < |out| ensures NoInnerStart(out[i]) {
        if s[0] == ',' && SegmentStart(s[1..]) {
          if i > 0 { assert out[i] == r[i - 1]; }
        } else if i == 0 {
          NoInnerCons(s[0], r[0]);
        } else {
          assert out[i] == r[i];
        }
      }
    }
  }

  /** A list of segments survives join and split exactly when it is well segmented. */
  lemma SplitJoinIff(segs: seq<string>)
    requires segs != []
    ensures Split(Join(segs)) == segs <==> WellSegmented(segs)
  {
    if WellSegmented(segs) { SplitJoin(segs); }
    SplitIsWellSegmented(Join(segs));
  }

  // ----------------------------------------------------------------- parsing

  datatype Destination = Destination(kind: string, value: string)

  /** Position of the first arrow, or the length. */
  function ArrowAt(s: string): (i: nat)
    ensures i <= |s| && (i < |s| ==> i + 2 <= |s|)
  {
    if s == "" || Arrow(s) then 0 else 1 + ArrowAt(s[1..])
  }

  lemma {:induction false} ArrowAtFirst(s: string)
    ensures ArrowAt(s) < |s| ==> Arrow(s[ArrowAt(s)..])
    ensures forall j | 0 <= j < ArrowAt(s) :: !Arrow(s[j..])
  {
    if s != "" && !Arrow(s) {
      ArrowAtFirst(s[1..]);
      assert forall j | 0 < j <= |s| :: s[j..] == s[1..][j - 1..];
    }
  }

  lemma {:induction false} ArrowAtIs(s: string, i: nat)
    requires i <= |s| && (i < |s| ==> Arrow(s[i..])) && forall j | 0 <= j < i :: !Arrow(s[j..])
    ensures ArrowAt(s) == i
  {
    assert s[0..] == s;
    if i > 0 {
      forall j | 0 <= j < i - 1 ensures !Arrow(s[1..][j..]) { assert s[1..][j..] == s[j + 1..]; }
      assert i < |s| ==> s[1..][i - 1..] == s[i..];
      ArrowAtIs(s[1..], i - 1);
    }
  }

  function Alias(kind: string): string { if kind == "email" then "email_report" else kind }

  /** A trimmed non-empty segment as a destination, or nothing when malformed. */
  function ParseSegment(seg: string): Option<Destination>
  {
    var i := ArrowAt(seg);
    if i == |seg| then None
    else
      var kind, value := Trim(seg[..i]), Trim(seg[i + 2..]);
      if kind == "" || value == "" then None else Some(Destination(Alias(kind), value))
  }

  /** What a segment means, by the place of its first arrow: nothing when a side is blank,
      else the trimmed sides, with "email" for a report. */
  lemma ParseAt(seg: string, i: nat)
    requires i + 2 <= |seg| && seg[i] == '-' && seg[i + 1] == '>'
    requires forall j | 0 <= j < i :: seg[j] != '-' || seg[j + 1] != '>'
    ensures var kind, value := Trim(seg[..i]), Trim(seg[i + 2..]);
            ParseSegment(seg) == if kind == "" || value == "" then None
                                 else if kind == "email" then Some(Destination("email_report", value))
                                 else Some(Destination(kind, value))
  {
    hide Trim;
    ArrowAtIs(seg, i);
  }

  /** ... and nothing without an arrow. */
  lemma ParseNothing(seg: string)
    requires forall j | 0 <= j < |seg| - 1 :: seg[j] != '-' || seg[j + 1] != '>'
    ensures ParseSegment(seg) == None
  {
    hide Trim;
    ArrowAtIs(seg, |seg|);
  }

  function Destinations(segs: seq<string>): seq<Destination>
  {
    if segs == [] then []
    else
      var d := ParseSegment(Trim(segs[|segs| - 1]));
      Destinations(segs[..|segs| - 1]) + if d.Some? then [d.value] else []
  }

  function Skipped(segs: seq<string>): seq<string>
  {
    if segs == [] then []
    else
      var seg := Trim(segs[|segs| - 1]);
      Skipped(segs[..|segs| - 1]) + if seg != "" && ParseSegment(seg).None? then [seg] else []
  }

  lemma DestinationsSnoc(segs: seq<string>, seg: string)
    ensures Destinations(segs + [seg]) ==
            Destinations(segs) + if ParseSegment(Trim(seg)).Some? then [ParseSegment(Trim(seg)).value] else []
    ensures Skipped(segs + [seg]) ==
            Skipped(segs) + if Trim(seg) != "" && ParseSegment(Trim(seg)).None? then [Trim(seg)] else []
  {
    assert (segs + [seg])[..|segs|] == segs;
  }

  /** Segments of which the first already has a beginning. */
  function Open(begun: string, r: seq<string>): seq<string>
    requires r != []
  {
    [begun + r[0]] + r[1..]
  }

  lemma OpenNone(r: seq<string>)
    requires r != []
    ensures Open("", r) == r
  {
    assert "" + r[0] == r[0];
  }

  /** One more character after what a segment has `begun` with. */
  lemma OpenStep(begun: string, s: string)
    requires s != ""
    ensures Open(begun, Split(s)) ==
            if s[0] == ',' && SegmentStart(s[1..]) then [begun] + Open("", Split(s[1..]))
            else Open(begun + [s[0]], Split(s[1..]))
  {
    hide SegmentStart;
    var r := Split(s[1..]);
    OpenNone(r);
    if s[0] == ',' && SegmentStart(s[1..]) {
      assert begun + "" == begun;
    } else {
      assert begun + ([s[0]] + r[0]) == (begun + [s[0]]) + r[0];
    }
  }

  /** The scan has cut off `segments`, and the next one begins at `start`. */
  ghost predicate Scanned(notify: string, segments: seq<string>, start: nat, i: nat)
  {
    start <= i <= |notify| && Split(notify) == segments + Open(notify[start..i], Split(notify[i..]))
  }

  lemma ScanStep(notify: string, segments: seq<string>, start: nat, i: nat)
    requires i < |notify| && Scanned(notify, segments, start, i)
    ensures if notify[i] == ',' && SegmentStart(notify[i + 1..])
            then Scanned(notify, segments + [notify[start..i]], i + 1, i + 1)
            else Scanned(notify, segments, start, i + 1)
  {
    hide SegmentStart, Split, Open;
    var s, begun := notify[i..], notify[start..i];
    assert s[0] == notify[i] && s[1..] == notify[i + 1..];
    OpenStep(begun, s);
    if notify[i] == ',' && SegmentStart(notify[i + 1..]) {
      assert notify[i + 1..i + 1] == "";
      assert segments + ([begun] + Open("", Split(s[1..]))) == (segments + [begun]) + Open("", Split(s[1..]));
    } else {
      assert notify[start..i + 1] == begun + [notify[i]];
    }
  }

  lemma ScanBegins(notify: string)
    ensures Scanned(notify, [], 0, 0)
  {
    hide SegmentStart, Split, Open;
    assert notify[0..] == notify && notify[0..0] == "";
    OpenNone(Split(notify));
    assert [] + Split(notify) == Split(notify);
  }

  lemma ScanEnds(notify: string, segments: seq<string>, start: nat)
    requires Scanned(notify, segments, start, |notify|)
    ensures Split(notify) == segments + [notify[start..]]
  {
    hide SegmentStart;
    var begun := notify[start..];
    assert notify[|notify|..] == "" && notify[start..|notify|] == begun;
    assert Split("") == [""] && begun + "" == begun;
    assert Open(begun, [""]) == [begun];
  }

  method SplitNotifySegments(notify: string) returns (segments: seq<string>)
    ensures segments == Split(notify)
    ensures Join(segments) == notify && WellSegmented(segments)
  {
    hide SegmentStart, Split, Join, WellSegmented, Scanned;
    segments := [];
    var start := 0;
    ScanBegins(notify);
    for i := 0 to |notify|
      invariant start <= i && Scanned(notify, segments, start, i)
    {
      ScanStep(notify, segments, start, i);
      if notify[i] == ',' && SegmentStart(notify[i + 1..]) {
        segments := segments + [notify[start..i]];
        start := i + 1;
      }
    }
    ScanEnds(notify, segments, start);
    segments := segments + [notify[start..]];
    JoinSplit(notify);
    SplitIsWellSegmented(notify);
  }

  method ParseNotifyString(notify: string) returns (destinations: seq<Destination>, skipped: seq<string>)
    ensures destinations == Destinations(Split(notify)) && skipped == Skipped(Split(notify))
  {
    hide ArrowAt, Trim, Split, Join, WellSegmented;
    var segments := SplitNotifySegments(notify);
    destinations, skipped := [], [];
    for n := 0 to |segments|
      invariant destinations == Destinations(segments[..n]) && skipped == Skipped(segments[..n])
    {
      assert segments[..n + 1][..n] == segments[..n];
      var segment := Trim(segments[n]);
      if segment == "" { continue; }
      var i := ArrowAt(segment);
      if i == |segment| { skipped := skipped + [segment]; continue; }
      var kind, value := Trim(segment[..i]), Trim(segment[i + 2..]);
      if kind == "" || value == "" { skipped := skipped + [segment]; continue; }
      if kind == "email" { kind := "email_report"; }
      destinations := destinations + [Destination(kind, value)];
    }
    assert segments[..|segments|] == segments;
  }

  // -------------------------------------------------------------- round trip

  predicate TypeWord(s: string) { s != "" && forall c | c in s :: TypeChar(c) }

  function Print(d: Destination): string { d.kind + "->" + d.value }

  function PrintAll(ds: seq<Destination>): (r: seq<string>)
    ensures |r| == |ds|
    ensures forall i | 0 <= i < |ds| :: r[i] == Print(ds[i])
  {
    seq(|ds|, i requires 0 <= i < |ds| => Print(ds[i]))
  }

  lemma {:induction false} SkipWord(w: string, rest: string)
    requires forall c | c in w :: TypeChar(c)
    requires rest != "" && !TypeChar(rest[0])
    ensures Skip(TypeChar, w + rest) == rest
  {
    if w != "" {
      assert w[0] in w;
      assert (w + rest)[1..] == w[1..] + rest;
      SkipWord(w[1..], rest);
    } else {
      assert w + rest == rest;
    }
  }

  lemma ArrowAfterWord(w: string, value: string)
    requires TypeWord(w)
    ensures ArrowAt(w + "->" + value) == |w|
  {
    var s := w + "->" + value;
    assert Arrow(s[|w|..]);
    forall j | 0 <= j < |w| ensures !Arrow(s[j..]) {
      assert s[j..][0] == s[j] == w[j];
      assert w[j] in w;
    }
    ArrowAtIs(s, |w|);
  }

  predicate Printable(d: Destination)
  {
    TypeWord(d.kind) && d.kind != "email" && Trimmed(d.value) && d.value != "" && NoInnerStart(d.value)
  }

  lemma PrintedStarts(d: Destination)
    requires Printable(d)
    ensures SegmentStart(Print(d)) && NoInnerStart(Print(d))
  {
    var s := Print(d);
    assert s == d.kind + ("->" + d.value);
    assert s[0] == d.kind[0] && d.kind[0] in d.kind;
    SkipWord(d.kind, "->" + d.value);
    assert forall k | 0 <= k < |d.kind| :: s[k] in d.kind;
    forall k | 0 <= k < |s| && s[k] == ',' ensures !SegmentStart(s[k + 1..]) {
      var v := k - |d.kind| - 2;
      assert d.value[v] == ',' && s[k + 1..] == d.value[v + 1..];
    }
  }

  lemma PrintedSegment(d: Destination)
    requires Printable(d)
    ensures Trim(Print(d)) == Print(d)
    ensures ParseSegment(Print(d)) == Some(d)
  {
    var s := Print(d);
    assert d.kind[0] in d.kind && d.kind[|d.kind| - 1] in d.kind;
    assert s[0] == d.kind[0] && s[|s| - 1] == d.value[|d.value| - 1];
    TrimmedIsTrim(s);
    TrimmedIsTrim(d.kind);
    TrimmedIsTrim(d.value);
    ArrowAfterWord(d.kind, d.value);
    assert s[..|d.kind|] == d.kind && s[|d.kind| + 2..] == d.value;
  }

  lemma ParseMore(ds: seq<Destination>, d: Destination)
    requires Destinations(PrintAll(ds)) == ds && Skipped(PrintAll(ds)) == [] && Printable(d)
    ensures Destinations(PrintAll(ds + [d])) == ds + [d] && Skipped(PrintAll(ds + [d])) == []
  {
    PrintedSegment(d);
    DestinationsSnoc(PrintAll(ds), Print(d));
    assert PrintAll(ds + [d]) == PrintAll(ds) + [Print(d)];
    assert Skipped(PrintAll(ds)) + [] == [];
  }

  lemma {:induction false} ParsePrinted(ds: seq<Destination>)
    requires forall d | d in ds :: Printable(d)
    ensures Destinations(PrintAll(ds)) == ds && Skipped(PrintAll(ds)) == []
  {
    hide Printable, Print;
    if ds != [] {
      var before, d := ds[..|ds| - 1], ds[|ds| - 1];
      assert d in ds && forall e | e in before :: e in ds;
      ParsePrinted(before);
      ParseMore(before, d);
      assert ds == before + [d];
    }
  }

  /** Printed destinations parse back exactly, with nothing skipped. */
  lemma PrintParse(ds: seq<Destination>)
    requires forall d | d in ds :: Printable(d)
    ensures Destinations(Split(Join(PrintAll(ds)))) == ds
    ensures Skipped(Split(Join(PrintAll(ds)))) == []
  {
    if ds == [] {
      assert Split("") == [""] && [""][..0] == [];
    } else {
      var segs := PrintAll(ds);
      forall i | 0 <= i < |segs| ensures SegmentStart(segs[i]) && NoInnerStart(segs[i]) {
        assert ds[i] in ds;
        PrintedStarts(ds[i]);
      }
      SplitJoin(segs);
      ParsePrinted(ds);
    }
  }
}
