/** Who is finally notified: deduplication and the email_full override on the server
    (gofaxserver/notify.go). */
module NotifyRecipients {
  import opened Seqs
  import opened NotifyLanguage
  import opened PortalNotify

  // ------------------------------------------------------------- recipients

  predicate Separator(c: char) { c == ';' || c == ',' }

  function Clean(pieces: seq<string>): seq<string>
  {
    if pieces == [] then [] else CleanOne(pieces[0]) + Clean(pieces[1..])
  }

  function CleanOne(piece: string): seq<string> { if Trim(piece) == "" then [] else [Trim(piece)] }

  function Recipients(dest: string): seq<string> { Clean(SplitOn(Separator, dest)) }

  function LowerChar(c: char): char { if 'A' <= c <= 'Z' then c - 'A' + 'a' else c }

  function Lower(s: string): (r: string)
    ensures |r| == |s|
  {
    seq(|s|, i requires 0 <= i < |s| => LowerChar(s[i]))
  }

  predicate Address(r: string) { r != "" && Trimmed(r) && Free(Separator, r) }

  function JoinSemi(rs: seq<string>): string
  {
    if rs == [] then "" else if |rs| == 1 then rs[0] else rs[0] + ";" + JoinSemi(rs[1..])
  }

  lemma {:induction false} CleanMember(pieces: seq<string>, r: string)
    ensures r in Clean(pieces) <==> r != "" && exists p | p in pieces :: Trim(p) == r
  {
    if pieces != [] {
      CleanMember(pieces[1..], r);
      assert forall p :: p in pieces <==> p == pieces[0] || p in pieces[1..];
    }
  }

  lemma RecipientsAreAddresses(dest: string)
    ensures forall r | r in Recipients(dest) :: Address(r)
  {
    PiecesAreFree(Separator, dest);
    forall r | r in Recipients(dest) ensures Address(r) {
      CleanMember(SplitOn(Separator, dest), r);
      var p :| p in SplitOn(Separator, dest) && Trim(p) == r;
      TrimIsTrimmed(p);
    }
  }

  /** A joined recipient list splits back into itself. */
  lemma {:induction false} JoinedRecipients(rs: seq<string>)
    requires forall i | 0 <= i < |rs| :: Address(rs[i])
    ensures Recipients(JoinSemi(rs)) == rs
  {
    if rs == [] {
      assert SplitOn(Separator, "") == [""] && [""][1..] == [] && Trim("") == "";
    } else {
      TrimmedIsTrim(rs[0]);
      assert rs == [rs[0]] + rs[1..];
      if |rs| == 1 {
        SplitOnOne(Separator, rs[0]);
        assert Clean([rs[0]]) == [rs[0]] + Clean([]);
      } else {
        JoinedRecipients(rs[1..]);
        SplitOnFirst(Separator, rs[0], ';', JoinSemi(rs[1..]));
        assert rs[0] + ";" + JoinSemi(rs[1..]) == rs[0] + [';'] + JoinSemi(rs[1..]);
      }
    }
  }

  lemma {:induction false} SplitOnAnywhere(sep: char -> bool, a: string, c: char, b: string)
    requires sep(c)
    ensures SplitOn(sep, a + [c] + b) == SplitOn(sep, a) + SplitOn(sep, b)
  {
    var s := a + [c] + b;
    if a == "" {
      assert s[1..] == b;
    } else {
      assert s[1..] == a[1..] + [c] + b;
      SplitOnAnywhere(sep, a[1..], c, b);
    }
  }

  lemma {:induction false} CleanConcat(a: seq<string>, b: seq<string>)
    ensures Clean(a + b) == Clean(a) + Clean(b)
  {
    hide CleanOne;
    if a == [] {
      assert a + b == b;
    } else {
      CleanConcat(a[1..], b);
      var rest, head := a[1..] + b, CleanOne(a[0]);
      assert a + b == [a[0]] + rest;
      assert Clean(a + b) == head + Clean(rest) by { assert (a + b)[1..] == rest; }
      assert head + (Clean(a[1..]) + Clean(b)) == (head + Clean(a[1..])) + Clean(b);
    }
  }

  /** A separator anywhere just separates, whichever of the two it is. */
  lemma RecipientsOfJoin(a: string, b: string)
    ensures Recipients(a + ";" + b) == Recipients(a) + Recipients(b)
    ensures Recipients(a + "," + b) == Recipients(a) + Recipients(b)
  {
    SplitOnAnywhere(Separator, a, ';', b);
    SplitOnAnywhere(Separator, a, ',', b);
    CleanConcat(SplitOn(Separator, a), SplitOn(Separator, b));
    assert a + ";" + b == a + [';'] + b && a + "," + b == a + [','] + b;
  }

  // ------------------------------------------------------- deduplication

  function Dedup(ds: seq<Destination>): seq<Destination>
  {
    if ds == [] then []
    else
      var before, d := Dedup(ds[..|ds| - 1]), ds[|ds| - 1];
      if d in before then before else before + [d]
  }

  /** `out` holds every destination of `ds` once, in the order of first occurrence. */
  ghost predicate Deduplicates(ds: seq<Destination>, out: seq<Destination>)
  {
    && (forall d :: d in out <==> d in ds)
    && (forall i, j | 0 <= i < j < |out| :: out[i] != out[j])
    && (forall i, j | 0 <= i < j < |out| :: ComesFirst(ds, out[i], out[j]))
  }

  /** `d` occurs in `ds` before `e` first does. */
  ghost predicate ComesFirst(ds: seq<Destination>, d: Destination, e: Destination)
  {
    exists k | 0 <= k < |ds| :: ds[k] == d && e !in ds[..k + 1]
  }

  lemma {:induction false} DedupDeduplicates(ds: seq<Destination>)
    ensures Deduplicates(ds, Dedup(ds))
  {
    hide ComesFirst;
    forall d ensures d in Dedup(ds) <==> d in ds { DedupMember(ds, d); }
    if ds != [] {
      var before, last, out := ds[..|ds| - 1], ds[|ds| - 1], Dedup(ds);
      DedupDeduplicates(before);
      assert ds == before + [last];
      forall i, j | 0 <= i < j < |out| ensures ComesFirst(ds, out[i], out[j]) {
        if j < |Dedup(before)| {
          FirstStays(before, last, out[i], out[j]);
        } else {
          DedupMember(before, out[i]);
          assert out[i] in Dedup(before);
          FirstOfNew(before, last, out[i]);
        }
      }
    }
  }

  lemma FirstStays(ds: seq<Destination>, last: Destination, d: Destination, e: Destination)
    requires ComesFirst(ds, d, e)
    ensures ComesFirst(ds + [last], d, e)
  {
    var k :| 0 <= k < |ds| && ds[k] == d && e !in ds[..k + 1];
    assert (ds + [last])[..k + 1] == ds[..k + 1] && (ds + [last])[k] == d;
  }

  lemma FirstOfNew(ds: seq<Destination>, last: Destination, d: Destination)
    requires d in ds && last !in ds
    ensures ComesFirst(ds + [last], d, last)
  {
    var k :| 0 <= k < |ds| && ds[k] == d;
    assert (ds + [last])[..k + 1] == ds[..k + 1] && (ds + [last])[k] == d;
  }

  lemma {:induction false} DedupMember(ds: seq<Destination>, d: Destination)
    ensures d in Dedup(ds) <==> d in ds
  {
    if ds != [] {
      DedupMember(ds[..|ds| - 1], d);
      DedupMember(ds[..|ds| - 1], ds[|ds| - 1]);
      assert ds == ds[..|ds| - 1] + [ds[|ds| - 1]];
    }
  }

  /** A type without an arrow, as every parsed type is. */
  predicate Plain(d: Destination) { ArrowAt(d.kind) == |d.kind| }

  lemma KeyInjective(d: Destination, e: Destination)
    requires Plain(d) && Plain(e) && Print(d) == Print(e)
    ensures d == e
  {
    PlainArrow(d);
    PlainArrow(e);
    assert Print(d)[..|d.kind|] == d.kind && Print(d)[|d.kind| + 2..] == d.value;
    assert Print(e)[..|e.kind|] == e.kind && Print(e)[|e.kind| + 2..] == e.value;
  }

  lemma PlainArrow(d: Destination)
    requires Plain(d)
    ensures ArrowAt(Print(d)) == |d.kind|
  {
    var s, n := Print(d), |d.kind|;
    ArrowAtFirst(d.kind);
    assert Arrow(s[n..]);
    forall j | 0 <= j < n ensures !Arrow(s[j..]) {
      assert !Arrow(d.kind[j..]);
      assert s[j] == d.kind[j] && s[j + 1] == if j + 1 < n then d.kind[j + 1] else '-';
    }
    ArrowAtIs(s, n);
  }

  lemma {:induction false} ParsedArePlain(segs: seq<string>)
    ensures forall d | d in Destinations(segs) :: Plain(d)
  {
    if segs != [] {
      ParsedArePlain(segs[..|segs| - 1]);
      var seg := Trim(segs[|segs| - 1]);
      if ParseSegment(seg).Some? { ParsedIsPlain(seg); }
    }
  }

  lemma ParsedIsPlain(seg: string)
    requires ParseSegment(seg).Some?
    ensures Plain(ParseSegment(seg).value)
  {
    hide Skip, TrimRight, ArrowAt;
    var raw := seg[..ArrowAt(seg)];
    SkipStops(TrimSpace, raw);
    TrimRightStops(TrimLeft(raw));
    NoArrowBefore(seg, |raw| - |TrimLeft(raw)|, Trim(raw));
    DashFree("email_report");
  }

  /** A piece of what stands before the first arrow holds none. */
  lemma NoArrowBefore(seg: string, off: nat, kind: string)
    requires off + |kind| <= ArrowAt(seg) && kind == seg[off..off + |kind|]
    ensures ArrowAt(kind) == |kind|
  {
    ArrowAtFirst(seg);
    forall j | 0 <= j < |kind| ensures !Arrow(kind[j..]) {
      assert !Arrow(seg[off + j..]);
      assert kind[j] == seg[off + j];
      assert j + 1 < |kind| ==> kind[j + 1] == seg[off + j + 1];
    }
    ArrowAtIs(kind, |kind|);
  }

  lemma DashFree(s: string)
    requires '-' !in s
    ensures ArrowAt(s) == |s|
  {
    forall j | 0 <= j < |s| ensures !Arrow(s[j..]) { assert s[j] in s; }
    ArrowAtIs(s, |s|);
  }

  /** Destinations parsed from any two notify strings are the same when their keys are. */
  lemma ParsedKeyInjective(s: string, t: string, d: Destination, e: Destination)
    requires d in Destinations(Split(s)) && e in Destinations(Split(t)) && Print(d) == Print(e)
    ensures d == e
  {
    ParsedArePlain(Split(s));
    ParsedArePlain(Split(t));
    KeyInjective(d, e);
  }

  // --------------------------------------------------- the email_full override

  predicate IsReport(kind: string) { kind == "email_report" || kind == "email" }

  predicate OtherThanReport(d: Destination) { !IsReport(d.kind) }

  function LowerAll(rs: seq<string>): set<string> { set r | r in rs :: Lower(r) }

  /** Lower-cased recipients of every email_full destination. */
  function FullSet(ds: seq<Destination>): set<string>
  {
    if ds == [] then {}
    else FullSet(ds[..|ds| - 1]) +
         if ds[|ds| - 1].kind == "email_full" then LowerAll(Recipients(ds[|ds| - 1].value)) else {}
  }

  lemma {:induction false} NobodyInFull(ds: seq<Destination>)
    ensures (forall d | d in ds :: d.kind != "email_full") ==> FullSet(ds) == {}
  {
    if ds != [] {
      NobodyInFull(ds[..|ds| - 1]);
      assert ds[|ds| - 1] in ds && forall d | d in ds[..|ds| - 1] :: d in ds;
    }
  }

  function Uncovered(full: set<string>): string -> bool { r => Lower(r) !in full }

  function Strip(full: set<string>, d: Destination): seq<Destination>
  {
    if !IsReport(d.kind) then [d]
    else
      var kept := Filter(Uncovered(full), Recipients(d.value));
      if kept == [] then [] else [d.(value := JoinSemi(kept))]
  }

  function StripAll(full: set<string>, ds: seq<Destination>): seq<Destination>
  {
    if ds == [] then [] else StripAll(full, ds[..|ds| - 1]) + Strip(full, ds[|ds| - 1])
  }

  function Override(ds: seq<Destination>): seq<Destination>
  {
    if FullSet(ds) == {} then ds else StripAll(FullSet(ds), ds)
  }

  ghost predicate Receives(ds: seq<Destination>, kind: string, r: string)
  {
    exists d | d in ds :: d.kind == kind && r in Recipients(d.value)
  }

  lemma {:induction false} FullSetIs(ds: seq<Destination>, x: string)
    ensures x in FullSet(ds) <==> exists r :: Receives(ds, "email_full", r) && Lower(r) == x
  {
    if ds != [] {
      var before, d := ds[..|ds| - 1], ds[|ds| - 1];
      FullSetIs(before, x);
      assert ds == before + [d];
      forall r ensures Receives(ds, "email_full", r) <==>
                       Receives(before, "email_full", r) || (d.kind == "email_full" && r in Recipients(d.value))
      {
        ReceivesSnoc(before, d, "email_full", r);
      }
    }
  }

  lemma ReceivesSnoc(before: seq<Destination>, d: Destination, kind: string, r: string)
    ensures Receives(before + [d], kind, r) <==>
            Receives(before, kind, r) || (d.kind == kind && r in Recipients(d.value))
  {
    if Receives(before, kind, r) {
      var e :| e in before && e.kind == kind && r in Recipients(e.value);
      assert e in before + [d];
    }
    if d.kind == kind && r in Recipients(d.value) { assert d in before + [d]; }
  }

  lemma StripReceives(full: set<string>, d: Destination, kind: string, r: string)
    ensures Receives(Strip(full, d), kind, r) <==>
            d.kind == kind && r in Recipients(d.value) && (IsReport(kind) ==> Lower(r) !in full)
  {
    if IsReport(d.kind) {
      var kept := Filter(Uncovered(full), Recipients(d.value));
      RecipientsAreAddresses(d.value);
      forall i | 0 <= i < |kept| ensures Address(kept[i]) {
        assert kept[i] in kept;
        FilterMember(Uncovered(full), Recipients(d.value), kept[i]);
      }
      JoinedRecipients(kept);
      FilterMember(Uncovered(full), Recipients(d.value), r);
      ReceivesSnoc([], d.(value := JoinSemi(kept)), kind, r);
      assert [] + [d.(value := JoinSemi(kept))] == [d.(value := JoinSemi(kept))];
    } else {
      ReceivesSnoc([], d, kind, r);
      assert [] + [d] == [d];
    }
  }

  lemma {:induction false} StripAllReceives(full: set<string>, ds: seq<Destination>, kind: string, r: string)
    ensures Receives(StripAll(full, ds), kind, r) <==>
            Receives(ds, kind, r) && (IsReport(kind) ==> Lower(r) !in full)
  {
    if ds != [] {
      var before, d := ds[..|ds| - 1], ds[|ds| - 1];
      StripAllReceives(full, before, kind, r);
      StripReceives(full, d, kind, r);
      ReceivesSnoc(before, d, kind, r);
      assert ds == before + [d];
      var out := Strip(full, d);
      if out == [] {
        assert StripAll(full, ds) == StripAll(full, before);
      } else {
        ReceivesSnoc(StripAll(full, before), out[0], kind, r);
        ReceivesSnoc([], out[0], kind, r);
        assert [] + [out[0]] == out && out == [out[0]];
      }
    }
  }

  /** Exactly who receives what afterwards: report recipients who are not covered, and
      everyone else as before. */
  lemma OverrideReceives(ds: seq<Destination>, kind: string, r: string)
    ensures Receives(Override(ds), kind, r) <==>
            Receives(ds, kind, r) && (IsReport(kind) ==> Lower(r) !in FullSet(ds))
  {
    StripAllReceives(FullSet(ds), ds, kind, r);
  }

  /** No report recipient is also a full recipient, ignoring case. */
  lemma NoReportIsFull(ds: seq<Destination>, kind: string, r: string, full: string)
    requires IsReport(kind) && Receives(Override(ds), kind, r) && Receives(Override(ds), "email_full", full)
    ensures Lower(r) != Lower(full)
  {
    OverrideReceives(ds, kind, r);
    OverrideReceives(ds, "email_full", full);
    FullSetIs(ds, Lower(full));
  }

  /** Nobody is dropped from both: a report recipient still gets the report or, under some
      spelling, the full mail. */
  lemma NobodyIsLost(ds: seq<Destination>, kind: string, r: string)
    requires Receives(ds, kind, r)
    ensures || Receives(Override(ds), kind, r)
            || (IsReport(kind) && exists f :: Receives(Override(ds), "email_full", f) && Lower(f) == Lower(r))
  {
    OverrideReceives(ds, kind, r);
    FullSetIs(ds, Lower(r));
    if !Receives(Override(ds), kind, r) {
      var f :| Receives(ds, "email_full", f) && Lower(f) == Lower(r);
      OverrideReceives(ds, "email_full", f);
    }
  }

  /** What the override makes of one destination it keeps: a report keeps, in order, the
      recipients whom no full mail reaches under any spelling, and any other stays. */
  ghost predicate KeptAs(ds: seq<Destination>, d: Destination, e: Destination)
  {
    if d.kind == "email_report" || d.kind == "email" then
      e.kind == d.kind && Recipients(e.value) == Filter(r => !FullSomehow(ds, r), Recipients(d.value))
    else e == d
  }

  /** Every recipient of a report gets the full mail anyway. */
  ghost predicate AllFull(ds: seq<Destination>, d: Destination)
  {
    (d.kind == "email_report" || d.kind == "email") && forall r | r in Recipients(d.value) :: FullSomehow(ds, r)
  }

  ghost predicate FullSomehow(ds: seq<Destination>, r: string)
  {
    exists f :: Receives(ds, "email_full", f) && Lower(f) == Lower(r)
  }

  /** `out` is what the first `n` destinations become, and `from` says which destination
      each entry is of. */
  ghost predicate Traced(ds: seq<Destination>, n: nat, out: seq<Destination>, from: seq<nat>)
    requires n <= |ds|
  {
    && |from| == |out|
    && (forall i, j | 0 <= i < j < |from| :: from[i] < from[j])
    && (forall i | 0 <= i < |from| :: from[i] < n && KeptAs(ds, ds[from[i]], out[i]))
    && (forall k | 0 <= k < n :: k in from <==> !AllFull(ds, ds[k]))
  }

  lemma TraceStep(ds: seq<Destination>, n: nat, out: seq<Destination>, from: seq<nat>, piece: seq<Destination>)
    requires n < |ds| && Traced(ds, n, out, from)
    requires |piece| <= 1 && (piece == [] <==> AllFull(ds, ds[n])) && (piece != [] ==> KeptAs(ds, ds[n], piece[0]))
    ensures Traced(ds, n + 1, out + piece, from + if piece == [] then [] else [n])
  {
    hide KeptAs, AllFull;
    var from' := from + if piece == [] then [] else [n];
    forall k | 0 <= k < n + 1 ensures k in from' <==> !AllFull(ds, ds[k]) {
      assert n !in from;
      assert k in from' <==> k in from || (piece != [] && k == n);
    }
  }

  lemma {:induction false} OverrideTraced(ds: seq<Destination>, n: nat) returns (from: seq<nat>)
    requires n <= |ds|
    ensures Traced(ds, n, StripAll(FullSet(ds), ds[..n]), from)
  {
    hide Traced, Strip, FullSet, KeptAs, AllFull;
    if n == 0 {
      from := [];
      NothingTraced(ds);
      assert ds[..0] == [];
    } else {
      from := OverrideTraced(ds, n - 1);
      assert ds[..n][..n - 1] == ds[..n - 1];
      StripKeeps(ds, ds[n - 1]);
      var piece := Strip(FullSet(ds), ds[n - 1]);
      TraceStep(ds, n - 1, StripAll(FullSet(ds), ds[..n - 1]), from, piece);
      from := from + if piece == [] then [] else [n - 1];
    }
  }

  lemma NothingTraced(ds: seq<Destination>)
    ensures Traced(ds, 0, [], [])
  {
  }

  /** The override entry by entry: it keeps the order, and drops exactly the reports all of
      whose recipients get the full mail. */
  lemma OverrideKeepsOrder(ds: seq<Destination>) returns (from: seq<nat>)
    requires exists f :: Receives(ds, "email_full", f)
    ensures Traced(ds, |ds|, Override(ds), from)
  {
    hide Traced, Receives;
    var f :| Receives(ds, "email_full", f);
    FullSetIs(ds, Lower(f));
    from := OverrideTraced(ds, |ds|);
    assert ds[..|ds|] == ds;
  }

  /** Without a full recipient nothing changes. */
  lemma NoOverride(ds: seq<Destination>)
    requires forall f :: !Receives(ds, "email_full", f)
    ensures Override(ds) == ds
  {
    hide Receives;
    forall x ensures x !in FullSet(ds) { FullSetIs(ds, x); }
  }

  lemma StripKeeps(ds: seq<Destination>, d: Destination)
    ensures var out := Strip(FullSet(ds), d);
            && |out| <= 1 && (out == [] <==> AllFull(ds, d)) && (out != [] ==> KeptAs(ds, d, out[0]))
  {
    hide Lower, FullSet;
    if IsReport(d.kind) {
      var rs, kept := Recipients(d.value), Filter(Uncovered(FullSet(ds)), Recipients(d.value));
      forall r ensures Uncovered(FullSet(ds))(r) <==> !FullSomehow(ds, r) { FullSetIs(ds, Lower(r)); }
      FilterAgree(Uncovered(FullSet(ds)), r => !FullSomehow(ds, r), rs);
      RecipientsAreAddresses(d.value);
      forall i | 0 <= i < |kept| ensures Address(kept[i]) {
        assert kept[i] in kept;
        FilterMember(Uncovered(FullSet(ds)), rs, kept[i]);
      }
      JoinedRecipients(kept);
      HasMember(kept);
      forall r ensures r in kept <==> r in rs && !FullSomehow(ds, r) { FilterMember(Uncovered(FullSet(ds)), rs, r); }
    }
  }

  /** Case does not matter, letter by letter. */
  lemma LowerMeans(s: string, i: nat)
    requires i < |s|
    ensures Lower(s)[i] as int == if 'A' <= s[i] <= 'Z' then s[i] as int + 32 else s[i] as int
  {
  }

  lemma StripKeepsOther(full: set<string>, d: Destination)
    ensures Filter(OtherThanReport, Strip(full, d)) == Filter(OtherThanReport, [d])
  {
    if IsReport(d.kind) { assert forall e | e in Strip(full, d) :: e.kind == d.kind; }
  }

  lemma {:induction false} StripAllKeepsOthers(full: set<string>, ds: seq<Destination>)
    ensures Filter(OtherThanReport, StripAll(full, ds)) == Filter(OtherThanReport, ds)
  {
    hide Filter;
    if ds != [] {
      var before, d := ds[..|ds| - 1], ds[|ds| - 1];
      StripAllKeepsOthers(full, before);
      StripKeepsOther(full, d);
      FilterConcatSame(OtherThanReport, StripAll(full, before), Strip(full, d), before, [d]);
      assert ds == before + [d];
    }
  }

  /** Destinations of other types keep their order and values. */
  lemma OthersKeepOrder(ds: seq<Destination>)
    ensures Filter(OtherThanReport, Override(ds)) == Filter(OtherThanReport, ds)
  {
    StripAllKeepsOthers(FullSet(ds), ds);
  }

  method ProcessNotifyDestinations(ds: seq<Destination>, isBridge: bool) returns (out: seq<Destination>)
    requires forall d | d in ds :: Plain(d)
    ensures out == if isBridge then [] else Override(Dedup(ds))
    ensures !isBridge && (forall d | d in ds :: d.kind != "email_full") ==> Deduplicates(ds, out)
  {
    out := DedupByKey(ds);
    NobodyInFull(out);
    var full := CollectFull(out);
    if full != {} { out := FilterReports(full, out); }
    if isBridge { out := []; }
  }

  method CollectFull(ds: seq<Destination>) returns (full: set<string>)
    ensures full == FullSet(ds)
  {
    full := {};
    for n := 0 to |ds|
      invariant full == FullSet(ds[..n])
    {
      assert ds[..n + 1][..n] == ds[..n];
      if ds[n].kind == "email_full" {
        full := full + LowerAll(Recipients(ds[n].value));
      }
    }
    assert ds[..|ds|] == ds;
  }

  method FilterReports(full: set<string>, ds: seq<Destination>) returns (filtered: seq<Destination>)
    ensures filtered == StripAll(full, ds)
  {
    filtered := [];
    for n := 0 to |ds|
      invariant filtered == StripAll(full, ds[..n])
    {
      var d := ds[n];
      assert ds[..n + 1][..n] == ds[..n];
      assert StripAll(full, ds[..n + 1]) == StripAll(full, ds[..n]) + Strip(full, d);
      if d.kind != "email_report" && d.kind != "email" {
        filtered := filtered + [d];
      } else {
        var kept := Filter(Uncovered(full), Recipients(d.value));
        if kept != [] { filtered := filtered + [d.(value := JoinSemi(kept))]; }
      }
    }
    assert ds[..|ds|] == ds;
  }

  method DedupByKey(ds: seq<Destination>) returns (deduped: seq<Destination>)
    requires forall d | d in ds :: Plain(d)
    ensures deduped == Dedup(ds)
    ensures Deduplicates(ds, deduped)
  {
    DedupDeduplicates(ds);
    deduped := [];
    var seen: set<string> := {};
    for n := 0 to |ds|
      invariant deduped == Dedup(ds[..n])
      invariant forall k :: k in seen <==> exists d | d in ds[..n] :: Print(d) == k
    {
      var d := ds[n];
      assert ds[..n + 1] == ds[..n] + [d] && ds[..n + 1][..n] == ds[..n];
      DedupMember(ds[..n], d);
      var key := Print(d);
      if key in seen {
        var e :| e in ds[..n] && Print(e) == key;
        assert e in ds && d in ds;
        KeyInjective(d, e);
      } else {
        seen := seen + {key};
        deduped := deduped + [d];
      }
    }
    assert ds[..|ds|] == ds;
  }
}
