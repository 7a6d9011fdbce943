/** Sequence vocabulary shared by the models: filtering, first match, leftmost least
    match, and the stable sort that stands for Go's `sort.SliceStable`. */
module Seqs {
  datatype Option<+T> = None | Some(value: T)

  function Filter<T>(p: T -> bool, s: seq<T>): (r: seq<T>)
  {
    if s == [] then []
    else if p(s[0]) then [s[0]] + Filter(p, s[1..])
    else Filter(p, s[1..])
  }

  function First<T>(p: T -> bool, s: seq<T>): (r: Option<T>)
  {
    if s == [] then None else if p(s[0]) then Some(s[0]) else First(p, s[1..])
  }

  lemma {:induction false} FilterMember<T>(p: T -> bool, s: seq<T>, x: T)
    ensures x in Filter(p, s) <==> x in s && p(x)
  {
    if s != [] { FilterMember(p, s[1..], x); }
  }

  lemma {:induction false} FilterMultiset<T>(p: T -> bool, s: seq<T>, x: T)
    ensures multiset(Filter(p, s))[x] == if p(x) then multiset(s)[x] else 0
  {
    if s != [] {
      FilterMultiset(p, s[1..], x);
      assert s == [s[0]] + s[1..];
    }
  }

  lemma FilterPermutation<T(!new)>(p: T -> bool, s: seq<T>, t: seq<T>)
    requires multiset(s) == multiset(t)
    ensures multiset(Filter(p, s)) == multiset(Filter(p, t))
  {
    var a, b := multiset(Filter(p, s)), multiset(Filter(p, t));
    forall x: T ensures a[x] == b[x] {
      FilterMultiset(p, s, x);
      FilterMultiset(p, t, x);
    }
  }

  lemma {:induction false} FilterConcat<T>(p: T -> bool, s: seq<T>, t: seq<T>)
    ensures Filter(p, s + t) == Filter(p, s) + Filter(p, t)
  {
    if s == [] {
      assert s + t == t;
    } else {
      FilterConcat(p, s[1..], t);
      assert (s + t)[1..] == s[1..] + t;
    }
  }

  lemma FilterSnoc<T>(p: T -> bool, s: seq<T>, x: T)
    ensures Filter(p, s + [x]) == if p(x) then Filter(p, s) + [x] else Filter(p, s)
  {
    FilterConcat(p, s, [x]);
  }

  lemma FilterConcatSame<T>(p: T -> bool, a: seq<T>, b: seq<T>, c: seq<T>, d: seq<T>)
    requires Filter(p, a) == Filter(p, c) && Filter(p, b) == Filter(p, d)
    ensures Filter(p, a + b) == Filter(p, c + d)
  {
    FilterConcat(p, a, b);
    FilterConcat(p, c, d);
  }

  /** Filtering by `q` first is invisible to a filter that implies `q`. */
  lemma {:induction false} FilterAbsorbs<T>(p: T -> bool, q: T -> bool, s: seq<T>)
    requires forall x | x in s && p(x) :: q(x)
    ensures Filter(p, Filter(q, s)) == Filter(p, s)
  {
    if s != [] { FilterAbsorbs(p, q, s[1..]); }
  }

  lemma {:induction false} FilterAgree<T>(p: T -> bool, q: T -> bool, s: seq<T>)
    requires forall x | x in s :: p(x) == q(x)
    ensures Filter(p, s) == Filter(q, s)
  {
    if s != [] {
      assert s[0] in s;
      FilterAgree(p, q, s[1..]);
    }
  }

  lemma {:induction false} FilterCompose<T>(p: T -> bool, q: T -> bool, both: T -> bool, s: seq<T>)
    requires forall x | x in s :: both(x) == (p(x) && q(x))
    ensures Filter(p, Filter(q, s)) == Filter(both, s)
  {
    if s != [] {
      assert s[0] in s;
      FilterCompose(p, q, both, s[1..]);
    }
  }

  lemma {:induction false} FilterMonotone<T>(p: T -> bool, q: T -> bool, s: seq<T>)
    requires forall x | x in s && p(x) :: q(x)
    ensures |Filter(p, s)| <= |Filter(q, s)|
  {
    if s != [] {
      assert s[0] in s;
      FilterMonotone(p, q, s[1..]);
    }
  }

  lemma {:induction false} FilterAll<T>(p: T -> bool, s: seq<T>)
    requires forall x | x in s :: p(x)
    ensures Filter(p, s) == s
  {
    if s != [] { FilterAll(p, s[1..]); }
  }

  lemma {:induction false} FilterNothing<T>(p: T -> bool, s: seq<T>)
    requires forall x | x in s :: !p(x)
    ensures Filter(p, s) == []
  {
    if s != [] {
      assert s[0] in s;
      FilterNothing(p, s[1..]);
    }
  }

  /** Where the elements satisfying `p` stand. */
  function Places<T>(p: T -> bool, s: seq<T>): set<nat>
  {
    set i: nat | i < |s| && p(s[i])
  }

  lemma {:induction false} FilterCounts<T>(p: T -> bool, s: seq<T>)
    ensures |Filter(p, s)| == |Places(p, s)|
  {
    if s != [] {
      var before, x := s[..|s| - 1], s[|s| - 1];
      FilterCounts(p, before);
      assert s == before + [x];
      FilterSnoc(p, before, x);
      assert Places(p, s) == Places(p, before) + if p(x) then {|before|} else {};
    }
  }

  lemma HasMember<T>(s: seq<T>)
    ensures s == [] || exists x :: x in s
  {
    if s != [] { assert s[0] in s; }
  }

  lemma MultisetMember<T>(s: seq<T>, t: seq<T>, x: T)
    requires multiset(s) == multiset(t)
    ensures x in s <==> x in t
  {
    assert x in s <==> x in multiset(s);
    assert x in t <==> x in multiset(t);
  }

  // ---------------------------------------------------------------- sorting

  ghost predicate StrictWeakOrder<T(!new)>(less: (T, T) -> bool)
  {
    && (forall x, y :: less(x, y) ==> !less(y, x))
    && (forall x, y, z :: less(x, y) && less(y, z) ==> less(x, z))
    && (forall x, y, z :: !less(x, y) && !less(y, z) ==> !less(x, z))
  }

  ghost predicate Sorted<T>(less: (T, T) -> bool, s: seq<T>)
  {
    forall i, j | 0 <= i < j < |s| :: !less(s[j], s[i])
  }

  function Insert<T>(less: (T, T) -> bool, x: T, s: seq<T>): (r: seq<T>)
    ensures multiset(r) == multiset{x} + multiset(s)
  {
    if s == [] || !less(s[0], x) then [x] + s
    else
      assert s == [s[0]] + s[1..];
      [s[0]] + Insert(less, x, s[1..])
  }

  /** The stable sort: an element goes before the equivalent ones that followed it. */
  function StableSort<T>(less: (T, T) -> bool, s: seq<T>): (r: seq<T>)
    ensures multiset(r) == multiset(s)
  {
    if s == [] then []
    else
      assert s == [s[0]] + s[1..];
      Insert(less, s[0], StableSort(less, s[1..]))
  }

  lemma {:induction false} InsertSorted<T(!new)>(less: (T, T) -> bool, x: T, s: seq<T>)
    requires StrictWeakOrder(less) && Sorted(less, s)
    ensures Sorted(less, Insert(less, x, s))
  {
    if s != [] && less(s[0], x) {
      InsertSorted(less, x, s[1..]);
      var r := Insert(less, x, s[1..]);
      forall j | 0 <= j < |r| ensures !less(r[j], s[0]) {
        assert r[j] in multiset(r);
        assert r[j] == x || r[j] in s[1..];
      }
    }
  }

  lemma {:induction false} SortSorted<T(!new)>(less: (T, T) -> bool, s: seq<T>)
    requires StrictWeakOrder(less)
    ensures Sorted(less, StableSort(less, s))
  {
    if s != [] {
      SortSorted(less, s[1..]);
      InsertSorted(less, s[0], StableSort(less, s[1..]));
    }
  }

  function Tied<T>(less: (T, T) -> bool, x: T): T -> bool
  {
    y => !less(x, y) && !less(y, x)
  }

  lemma {:induction false} InsertStable<T(!new)>(less: (T, T) -> bool, x: T, s: seq<T>, k: T)
    requires StrictWeakOrder(less)
    ensures Filter(Tied(less, k), Insert(less, x, s)) == Filter(Tied(less, k), [x] + s)
  {
    if s != [] && less(s[0], x) {
      InsertStable(less, x, s[1..], k);
      assert ([x] + s)[1..] == s && ([x] + s[1..])[1..] == s[1..];
    }
  }

  lemma {:induction false} SortStable<T(!new)>(less: (T, T) -> bool, s: seq<T>, k: T)
    requires StrictWeakOrder(less)
    ensures Filter(Tied(less, k), StableSort(less, s)) == Filter(Tied(less, k), s)
  {
    if s != [] {
      SortStable(less, s[1..], k);
      var t := StableSort(less, s[1..]);
      InsertStable(less, s[0], t, k);
      assert ([s[0]] + t)[1..] == t;
    }
  }

  /** Sorted order plus stability determine the result: any stable sorting algorithm
      computes `StableSort`. */
  lemma {:induction false} StableSortUnique<T(!new)>(less: (T, T) -> bool, t: seq<T>, u: seq<T>)
    requires StrictWeakOrder(less) && Sorted(less, t) && Sorted(less, u)
    requires multiset(t) == multiset(u)
    requires forall k :: Filter(Tied(less, k), t) == Filter(Tied(less, k), u)
    ensures t == u
  {
    assert |t| == |multiset(t)| && |u| == |multiset(u)|;
    if t != [] {
      assert t[0] in multiset(u);
      assert u[0] in multiset(t);
      assert Filter(Tied(less, t[0]), t)[0] == t[0];
      assert Filter(Tied(less, t[0]), u)[0] == u[0];
      assert t == [t[0]] + t[1..] && u == [u[0]] + u[1..];
      forall k ensures Filter(Tied(less, k), t[1..]) == Filter(Tied(less, k), u[1..]) {
        assert Filter(Tied(less, k), t) == Filter(Tied(less, k), u);
        if Tied(less, k)(t[0]) {
          assert Filter(Tied(less, k), t[1..]) == Filter(Tied(less, k), t)[1..];
        }
      }
      assert multiset(t[1..]) == multiset(t) - multiset{t[0]};
      assert multiset(u[1..]) == multiset(u) - multiset{u[0]};
      StableSortUnique(less, t[1..], u[1..]);
    }
  }

  /** So any sorted, stable permutation of `s` is `StableSort(less, s)`. */
  lemma AnyStableSort<T(!new)>(less: (T, T) -> bool, s: seq<T>, t: seq<T>)
    requires StrictWeakOrder(less) && Sorted(less, t) && multiset(t) == multiset(s)
    requires forall k :: Filter(Tied(less, k), t) == Filter(Tied(less, k), s)
    ensures t == StableSort(less, s)
  {
    hide StrictWeakOrder, Sorted, Filter, StableSort;
    SortSorted(less, s);
    forall k ensures Filter(Tied(less, k), t) == Filter(Tied(less, k), StableSort(less, s)) { SortStable(less, s, k); }
    StableSortUnique(less, t, StableSort(less, s));
  }

  /** The leftmost of the least elements satisfying `p`: what "the first match after a
      stable sort" means, without sorting. */
  function Best<T>(less: (T, T) -> bool, p: T -> bool, s: seq<T>): (r: Option<T>)
  {
    if s == [] then None
    else
      var b := Best(less, p, s[1..]);
      if p(s[0]) && (b.None? || !less(b.value, s[0])) then Some(s[0]) else b
  }

  ghost predicate Decides<T>(less: (T, T) -> bool, p: T -> bool, s: seq<T>, m: T)
  {
    m in s && p(m) && forall r | r in s && p(r) :: !less(r, m)
  }

  lemma {:induction false} InsertFirst<T(!new)>(less: (T, T) -> bool, p: T -> bool, x: T, s: seq<T>)
    requires StrictWeakOrder(less) && Sorted(less, s)
    ensures First(p, Insert(less, x, s)) ==
            var b := First(p, s);
            if p(x) && (b.None? || !less(b.value, x)) then Some(x) else b
  {
    if s != [] && less(s[0], x) {
      InsertFirst(less, p, x, s[1..]);
    } else if s != [] {
      FirstMember(p, s);
    }
  }

  lemma {:induction false} FirstMember<T>(p: T -> bool, s: seq<T>)
    ensures First(p, s).Some? ==> p(First(p, s).value) && First(p, s).value in s
    ensures First(p, s).None? <==> forall x | x in s :: !p(x)
  {
    if s != [] { FirstMember(p, s[1..]); }
  }

  lemma {:induction false} FirstPlace<T>(p: T -> bool, s: seq<T>)
    ensures First(p, s).Some? ==>
              exists i | 0 <= i < |s| :: s[i] == First(p, s).value && p(s[i]) && forall j | 0 <= j < i :: !p(s[j])
  {
    if s != [] && !p(s[0]) && First(p, s).Some? {
      FirstPlace(p, s[1..]);
      var i :| 0 <= i < |s| - 1 && s[1..][i] == First(p, s).value && p(s[1..][i]) && forall j | 0 <= j < i :: !p(s[1..][j]);
      forall j | 0 <= j < i + 1 ensures !p(s[j]) { if j > 0 { assert s[j] == s[1..][j - 1]; } }
      assert s[i + 1] == First(p, s).value;
    }
  }

  /** Where the filtered elements stood. */
  ghost predicate Stood<T>(p: T -> bool, s: seq<T>, kept: seq<T>, at: seq<nat>)
  {
    && |at| == |kept|
    && (forall k | 0 <= k < |at| :: at[k] < |s| && kept[k] == s[at[k]] && p(kept[k]))
    && (forall j, k | 0 <= j < k < |at| :: at[j] < at[k])
    && (forall i: nat | i < |s| && p(s[i]) :: i in at)
  }

  lemma StoodMore<T>(p: T -> bool, s: seq<T>, x: T, kept: seq<T>, at: seq<nat>)
    requires Stood(p, s, kept, at)
    ensures Stood(p, s + [x], if p(x) then kept + [x] else kept, if p(x) then at + [|s|] else at)
  {
    var at' := if p(x) then at + [|s|] else at;
    forall i: nat | i < |s| + 1 && p((s + [x])[i]) ensures i in at' {
      if i < |s| { assert i in at; }
    }
  }

  lemma {:induction false} FilterPlaces<T>(p: T -> bool, s: seq<T>) returns (at: seq<nat>)
    ensures Stood(p, s, Filter(p, s), at)
  {
    hide Stood;
    if s == [] {
      at := [];
      NothingStood(p);
    } else {
      var n := |s| - 1;
      at := FilterPlaces(p, s[..n]);
      assert s == s[..n] + [s[n]];
      FilterSnoc(p, s[..n], s[n]);
      StoodMore(p, s[..n], s[n], Filter(p, s[..n]), at);
      if p(s[n]) { at := at + [n]; }
    }
  }

  lemma NothingStood<T>(p: T -> bool)
    ensures Stood(p, [], [], [])
  {
  }

  lemma {:induction false} SortFirst<T(!new)>(less: (T, T) -> bool, p: T -> bool, s: seq<T>)
    requires StrictWeakOrder(less)
    ensures First(p, StableSort(less, s)) == Best(less, p, s)
  {
    if s != [] {
      SortFirst(less, p, s[1..]);
      SortSorted(less, s[1..]);
      InsertFirst(less, p, s[0], StableSort(less, s[1..]));
    }
  }

  lemma {:induction false} BestDecides<T(!new)>(less: (T, T) -> bool, p: T -> bool, s: seq<T>)
    requires StrictWeakOrder(less)
    ensures Best(less, p, s).Some? ==> Decides(less, p, s, Best(less, p, s).value)
    ensures Best(less, p, s).None? <==> forall x | x in s :: !p(x)
  {
    if s != [] {
      BestDecides(less, p, s[1..]);
      assert forall x | x in s :: x == s[0] || x in s[1..];
    }
  }

  /** A decider moved to the front of the sequence is the one chosen. */
  lemma BestAtFront<T(!new)>(less: (T, T) -> bool, p: T -> bool, s: seq<T>)
    requires StrictWeakOrder(less) && s != [] && Decides(less, p, s, s[0])
    ensures Best(less, p, s) == Some(s[0])
  {
    BestDecides(less, p, s[1..]);
  }

  function Without<T(==)>(s: seq<T>, x: T): (r: seq<T>)
    requires x in s
    ensures multiset(r) == multiset(s) - multiset{x}
    ensures multiset([x] + r) == multiset(s)
  {
    assert s == [s[0]] + s[1..];
    if s[0] == x then s[1..] else [s[0]] + Without(s[1..], x)
  }

  lemma DecidesPermutation<T>(less: (T, T) -> bool, p: T -> bool, s: seq<T>, t: seq<T>, m: T)
    requires multiset(s) == multiset(t) && Decides(less, p, s, m)
    ensures Decides(less, p, t, m)
  {
    MultisetMember(s, t, m);
    forall r | r in t && p(r) ensures !less(r, m) { MultisetMember(s, t, r); }
  }
}
