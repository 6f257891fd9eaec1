/** Counting over finite sequences: occurrences, the distinct values in order of first
    appearance, `collections.Counter` and its `most_common`, and sorting by a comparison. */
module Frequency {
  import opened Wrappers

  // ---------------------------------------------------------------------------
  // Occurrences and first appearances

  /** Occurrences of `x` in `xs` (`xs.count(x)`). */
  function Count<T(==)>(xs: seq<T>, x: T): (n: nat)
    ensures n <= |xs|
    ensures n > 0 <==> x in xs
    decreases |xs|
  {
    if xs == [] then 0
    else
      assert xs == xs[..|xs| - 1] + [xs[|xs| - 1]];
      Count(xs[..|xs| - 1], x) + if xs[|xs| - 1] == x then 1 else 0
  }

  lemma {:induction false} CountAppend<T>(a: seq<T>, b: seq<T>, x: T)
    ensures Count(a + b, x) == Count(a, x) + Count(b, x)
    decreases |b|
  {
    if b == [] {
      assert a + b == a;
    } else {
      var b', l := b[..|b| - 1], b[|b| - 1];
      assert (a + b)[..|a + b| - 1] == a + b' && (a + b)[|a + b| - 1] == l;
      CountAppend(a, b', x);
    }
  }

  /** Position of the first occurrence of `x` in `xs` (`xs.index(x)`). */
  function FirstIndex<T(==)>(xs: seq<T>, x: T): (i: nat)
    requires x in xs
    ensures i < |xs| && xs[i] == x && x !in xs[..i]
  {
    if xs[0] == x then 0
    else
      var i := FirstIndex(xs[1..], x);
      assert xs[..i + 1] == [xs[0]] + xs[1..][..i];
      1 + i
  }

  /** Adding an element at the end leaves the first occurrences of earlier values alone. */
  lemma FirstIndexSnoc<T>(xs: seq<T>, l: T, x: T)
    requires x in xs + [l]
    ensures x in xs ==> FirstIndex(xs + [l], x) == FirstIndex(xs, x)
    ensures x !in xs ==> FirstIndex(xs + [l], x) == |xs|
  {
    var ys := xs + [l];
    var i := FirstIndex(ys, x);
    if x in xs {
      var j := FirstIndex(xs, x);
      assert ys[j] == x && ys[..j] == xs[..j];
      assert forall k :: 0 <= k < i ==> ys[k] == ys[..i][k];
      assert forall k :: 0 <= k < j ==> ys[k] == xs[..j][k];
    } else {
      assert forall k :: 0 <= k < |xs| ==> ys[k] == xs[k];
    }
  }

  predicate NoDuplicates<T(==)>(xs: seq<T>) {
    forall i, j :: 0 <= i < j < |xs| ==> xs[i] != xs[j]
  }

  /** The distinct values of `xs` in order of first appearance: the keys of a `dict` or
      `Counter` filled from `xs`. */
  function Distinct<T(==)>(xs: seq<T>): (ds: seq<T>)
    ensures forall i :: 0 <= i < |ds| ==> ds[i] in xs
    ensures forall i :: 0 <= i < |xs| ==> xs[i] in ds
    ensures NoDuplicates(ds)
    decreases |xs|
  {
    if xs == [] then []
    else
      var init, l := xs[..|xs| - 1], xs[|xs| - 1];
      assert xs == init + [l];
      var ds := Distinct(init);
      if l in init then ds else ds + [l]
  }

  /** The distinct values come in the order in which they first appear. */
  lemma {:induction false} DistinctOrder<T>(xs: seq<T>)
    ensures forall i, j :: 0 <= i < j < |Distinct(xs)| ==>
      FirstIndex(xs, Distinct(xs)[i]) < FirstIndex(xs, Distinct(xs)[j])
    decreases |xs|
  {
    if xs != [] {
      var init, l := xs[..|xs| - 1], xs[|xs| - 1];
      assert xs == init + [l];
      DistinctOrder(init);
      var ds := Distinct(init);
      forall x | x in ds
        ensures FirstIndex(xs, x) == FirstIndex(init, x)
      {
        FirstIndexSnoc(init, l, x);
      }
      if l !in init {
        FirstIndexSnoc(init, l, l);
        assert Distinct(xs) == ds + [l];
        forall i, j | 0 <= i < j < |Distinct(xs)|
          ensures FirstIndex(xs, Distinct(xs)[i]) < FirstIndex(xs, Distinct(xs)[j])
        {
          assert Distinct(xs)[i] == ds[i];
          if j < |ds| {
            assert Distinct(xs)[j] == ds[j];
          }
        }
      }
    }
  }

  // ---------------------------------------------------------------------------
  // Filtering

  /** `[x for x in xs if p(x)]`. */
  function Filter<T>(xs: seq<T>, p: T -> bool): (r: seq<T>)
    ensures |r| <= |xs|
    ensures forall i :: 0 <= i < |r| ==> p(r[i])
    decreases |xs|
  {
    if xs == [] then [] else Filter(xs[..|xs| - 1], p) + if p(xs[|xs| - 1]) then [xs[|xs| - 1]] else []
  }

  /** Filtering works piece by piece, keeping the order: together with `FilterOne` this
      says the filter keeps exactly the elements that pass, in order. */
  lemma {:induction false} FilterAppend<T>(a: seq<T>, b: seq<T>, p: T -> bool)
    ensures Filter(a + b, p) == Filter(a, p) + Filter(b, p)
    decreases |b|
  {
    if b == [] {
      assert a + b == a;
    } else {
      assert (a + b)[..|a + b| - 1] == a + b[..|b| - 1] && (a + b)[|a + b| - 1] == b[|b| - 1];
      FilterAppend(a, b[..|b| - 1], p);
    }
  }

  /** What the filter keeps comes from the input. */
  lemma {:induction false} FilterWithin<T>(xs: seq<T>, p: T -> bool)
    ensures forall i :: 0 <= i < |Filter(xs, p)| ==> Filter(xs, p)[i] in xs
    decreases |xs|
  {
    if xs != [] {
      FilterWithin(xs[..|xs| - 1], p);
      assert forall x :: x in xs[..|xs| - 1] ==> x in xs;
    }
  }

  lemma FilterOne<T>(x: T, p: T -> bool)
    ensures Filter([x], p) == if p(x) then [x] else []
  {
    assert [x][..0] == [];
  }

  lemma {:induction false} FilterAll<T>(xs: seq<T>, p: T -> bool)
    requires forall i :: 0 <= i < |xs| ==> p(xs[i])
    ensures Filter(xs, p) == xs
    decreases |xs|
  {
    if xs != [] {
      FilterAll(xs[..|xs| - 1], p);
      assert xs == xs[..|xs| - 1] + [xs[|xs| - 1]];
    }
  }

  // ---------------------------------------------------------------------------
  // Sums of counts

  /** The number of elements of `xs` equal to one of `ds`. */
  function CountAll<T(==)>(ds: seq<T>, xs: seq<T>): nat
    decreases |ds|
  {
    if ds == [] then 0 else CountAll(ds[..|ds| - 1], xs) + Count(xs, ds[|ds| - 1])
  }

  lemma {:induction false} CountAllSnoc<T>(ds: seq<T>, xs: seq<T>, x: T)
    ensures CountAll(ds, xs + [x]) == CountAll(ds, xs) + Count(ds, x)
    decreases |ds|
  {
    if ds != [] {
      CountAllSnoc(ds[..|ds| - 1], xs, x);
      CountAppend(xs, [x], ds[|ds| - 1]);
    }
  }

  lemma {:induction false} CountOnce<T>(ds: seq<T>, x: T)
    requires NoDuplicates(ds)
    ensures Count(ds, x) == if x in ds then 1 else 0
    decreases |ds|
  {
    if ds != [] {
      var init := ds[..|ds| - 1];
      assert ds == init + [ds[|ds| - 1]];
      CountOnce(init, x);
    }
  }

  /** Every element is counted exactly once under its distinct value: the counts of a
      `Counter` add up to the length of what it counted. */
  lemma {:induction false} CountsAddUp<T>(xs: seq<T>)
    ensures CountAll(Distinct(xs), xs) == |xs|
    decreases |xs|
  {
    if xs != [] {
      var init, l := xs[..|xs| - 1], xs[|xs| - 1];
      assert xs == init + [l];
      CountsAddUp(init);
      var ds := Distinct(init);
      CountAllSnoc(ds, init, l);
      CountOnce(ds, l);
      if l in init {
        assert Distinct(xs) == ds;
        assert CountAll(ds, xs) == |init| + 1;
      } else {
        assert Distinct(xs) == ds + [l];
        assert (ds + [l])[..|ds|] == ds;
        assert CountAll(ds, xs) == |init|;
        assert Count(init, l) == 0;
        CountAppend(init, [l], l);
        assert CountAll(ds + [l], xs) == |init| + Count(xs, l);
      }
    }
  }

  // ---------------------------------------------------------------------------
  // Sorting by a comparison

  /** `less` orders the values of `xs` strictly and totally. */
  predicate StrictTotalOn<T(==,!new)>(less: (T, T) -> bool, xs: seq<T>) {
    && (forall a, b :: a in xs && b in xs && less(a, b) ==> !less(b, a))
    && (forall a, b, c :: a in xs && b in xs && c in xs && less(a, b) && less(b, c) ==> less(a, c))
    && (forall a, b :: a in xs && b in xs && a != b ==> less(a, b) || less(b, a))
  }

  predicate SortedBy<T>(s: seq<T>, less: (T, T) -> bool) {
    forall i, j :: 0 <= i < j < |s| ==> less(s[i], s[j])
  }

  /** `x` placed in front of the first element of `s` it comes before. */
  function Insert<T>(x: T, s: seq<T>, less: (T, T) -> bool): (r: seq<T>)
    ensures multiset(r) == multiset(s) + multiset{x}
  {
    if s == [] || less(x, s[0]) then [x] + s
    else
      assert s == [s[0]] + s[1..];
      [s[0]] + Insert(x, s[1..], less)
  }

  /** `sorted(xs)` under `less`, by insertion. */
  function SortBy<T>(xs: seq<T>, less: (T, T) -> bool): (r: seq<T>)
    ensures multiset(r) == multiset(xs)
  {
    if xs == [] then []
    else
      assert xs == [xs[0]] + xs[1..];
      Insert(xs[0], SortBy(xs[1..], less), less)
  }

  lemma {:induction false} InsertSorted<T(!new)>(x: T, s: seq<T>, less: (T, T) -> bool, dom: seq<T>)
    requires StrictTotalOn(less, dom) && x in dom && forall y :: y in s ==> y in dom
    requires SortedBy(s, less) && x !in s
    ensures SortedBy(Insert(x, s, less), less)
  {
    var r := Insert(x, s, less);
    if s == [] || less(x, s[0]) {
      forall j | 0 <= j < |s|
        ensures less(x, s[j])
      {
        if j > 0 {
          assert less(s[0], s[j]);
        }
      }
    } else {
      assert less(s[0], x);
      InsertSorted(x, s[1..], less, dom);
      var t := Insert(x, s[1..], less);
      assert r == [s[0]] + t;
      forall j | 0 <= j < |t|
        ensures less(s[0], t[j])
      {
        assert t[j] in multiset(t);
        if t[j] != x {
          assert t[j] in s[1..];
          var k :| 0 <= k < |s[1..]| && s[1..][k] == t[j];
          assert s[k + 1] == t[j];
        }
      }
    }
  }

  /** Without repeated values, sorting under a strict total order gives an increasing
      sequence. */
  lemma {:induction false} SortBySorted<T(!new)>(xs: seq<T>, less: (T, T) -> bool)
    requires StrictTotalOn(less, xs) && NoDuplicates(xs)
    ensures SortedBy(SortBy(xs, less), less)
  {
    SortBySortedIn(xs, less, xs);
  }

  lemma {:induction false} SortBySortedIn<T(!new)>(xs: seq<T>, less: (T, T) -> bool, dom: seq<T>)
    requires StrictTotalOn(less, dom) && NoDuplicates(xs) && forall y :: y in xs ==> y in dom
    ensures SortedBy(SortBy(xs, less), less)
  {
    if xs != [] {
      var rest := xs[1..];
      assert forall i, j :: 0 <= i < j < |rest| ==> rest[i] == xs[i + 1] && rest[j] == xs[j + 1];
      SortBySortedIn(rest, less, dom);
      var s := SortBy(rest, less);
      assert xs[0] !in rest by {
        assert forall j :: 0 <= j < |rest| ==> rest[j] == xs[j + 1] != xs[0];
      }
      assert xs[0] !in multiset(s);
      forall y | y in s
        ensures y in dom
      {
        assert y in multiset(s);
        assert y in multiset(rest);
        assert y in xs;
      }
      InsertSorted(xs[0], s, less, dom);
    }
  }

  // ---------------------------------------------------------------------------
  // Counter, most_common and groupby

  /** A tally of one value: the value, its number of occurrences and where it first
      appears. */
  datatype Tally<T> = Tally(key: T, count: nat, first: nat)

  /** The tallies in `xs` of the values `ds`, in the order of `ds`. */
  function TalliesOf<T(==)>(ds: seq<T>, xs: seq<T>): (ts: seq<Tally<T>>)
    requires forall i :: 0 <= i < |ds| ==> ds[i] in xs
    ensures |ts| == |ds|
    ensures forall i :: 0 <= i < |ds| ==> ts[i] == Tally(ds[i], Count(xs, ds[i]), FirstIndex(xs, ds[i]))
  {
    seq(|ds|, i requires 0 <= i < |ds| => Tally(ds[i], Count(xs, ds[i]), FirstIndex(xs, ds[i])))
  }

  /** `Counter(xs)`, in insertion order, with first appearances. */
  function Tallies<T(==)>(xs: seq<T>): seq<Tally<T>> {
    TalliesOf(Distinct(xs), xs)
  }

  function TallySum<T>(ts: seq<Tally<T>>): nat
    decreases |ts|
  {
    if ts == [] then 0 else TallySum(ts[..|ts| - 1]) + ts[|ts| - 1].count
  }

  lemma {:induction false} TallySumAppend<T>(a: seq<Tally<T>>, b: seq<Tally<T>>)
    ensures TallySum(a + b) == TallySum(a) + TallySum(b)
    decreases |b|
  {
    if b == [] {
      assert a + b == a;
    } else {
      assert (a + b)[..|a + b| - 1] == a + b[..|b| - 1];
      TallySumAppend(a, b[..|b| - 1]);
    }
  }

  lemma {:induction false} TallySumInsert<T>(x: Tally<T>, s: seq<Tally<T>>, less: (Tally<T>, Tally<T>) -> bool)
    ensures TallySum(Insert(x, s, less)) == x.count + TallySum(s)
  {
    if s == [] || less(x, s[0]) {
      TallySumAppend([x], s);
      assert TallySum([x]) == x.count by { assert [x][..0] == []; }
    } else {
      TallySumInsert(x, s[1..], less);
      TallySumAppend([s[0]], Insert(x, s[1..], less));
      TallySumAppend([s[0]], s[1..]);
      assert s == [s[0]] + s[1..];
      assert TallySum([s[0]]) == s[0].count by { assert [s[0]][..0] == []; }
    }
  }

  lemma {:induction false} TallySumSort<T>(ts: seq<Tally<T>>, less: (Tally<T>, Tally<T>) -> bool)
    ensures TallySum(SortBy(ts, less)) == TallySum(ts)
  {
    if ts != [] {
      TallySumSort(ts[1..], less);
      TallySumInsert(ts[0], SortBy(ts[1..], less), less);
      TallySumAppend([ts[0]], ts[1..]);
      assert ts == [ts[0]] + ts[1..];
      assert TallySum([ts[0]]) == ts[0].count by { assert [ts[0]][..0] == []; }
    }
  }

  lemma {:induction false} TalliesOfSum<T>(ds: seq<T>, xs: seq<T>)
    requires forall i :: 0 <= i < |ds| ==> ds[i] in xs
    ensures TallySum(TalliesOf(ds, xs)) == CountAll(ds, xs)
    decreases |ds|
  {
    if ds != [] {
      var init := ds[..|ds| - 1];
      assert TalliesOf(ds, xs)[..|ds| - 1] == TalliesOf(init, xs);
      TalliesOfSum(init, xs);
    }
  }

  /** Every entry of `r` is the tally of a value of `xs`. */
  predicate TallyTable<T(==)>(r: seq<Tally<T>>, xs: seq<T>) {
    forall i :: 0 <= i < |r| ==>
      r[i].key in xs && r[i] == Tally(r[i].key, Count(xs, r[i].key), FirstIndex(xs, r[i].key))
  }

  /** Every value of `xs` has its tally in `r`. */
  predicate CoversAll<T(==)>(r: seq<Tally<T>>, xs: seq<T>) {
    forall i :: 0 <= i < |xs| ==> Tally(xs[i], Count(xs, xs[i]), FirstIndex(xs, xs[i])) in r
  }

  /** Whatever order the tallies of `xs` are sorted into, each is the exact count of its
      value, every value of `xs` has its tally, and the counts add up to `|xs|`. */
  lemma SortedTallies<T>(xs: seq<T>, less: (Tally<T>, Tally<T>) -> bool)
    ensures TallyTable(SortBy(Tallies(xs), less), xs)
    ensures CoversAll(SortBy(Tallies(xs), less), xs)
    ensures |SortBy(Tallies(xs), less)| == |Distinct(xs)|
    ensures TallySum(SortBy(Tallies(xs), less)) == |xs|
  {
    var ds, ts := Distinct(xs), Tallies(xs);
    var r := SortBy(ts, less);
    assert |r| == |multiset(r)| == |multiset(ts)| == |ts|;
    forall k | 0 <= k < |r|
      ensures r[k].key in xs && r[k] == Tally(r[k].key, Count(xs, r[k].key), FirstIndex(xs, r[k].key))
    {
      assert r[k] in multiset(ts);
      var i :| 0 <= i < |ts| && ts[i] == r[k];
      assert ds[i] in ds;
    }
    forall k | 0 <= k < |xs|
      ensures Tally(xs[k], Count(xs, xs[k]), FirstIndex(xs, xs[k])) in r
    {
      var i :| 0 <= i < |ds| && ds[i] == xs[k];
      assert ts[i] in multiset(r);
    }
    TallySumSort(ts, less);
    TalliesOfSum(ds, xs);
    CountsAddUp(xs);
  }

  /** Without repeated tallies, a comparison that orders the tallies of `xs` strictly and
      totally sorts them into an increasing sequence. */
  lemma SortedTalliesOrdered<T(!new)>(xs: seq<T>, less: (Tally<T>, Tally<T>) -> bool)
    requires StrictTotalOn(less, Tallies(xs))
    ensures SortedBy(SortBy(Tallies(xs), less), less)
  {
    var ds, ts := Distinct(xs), Tallies(xs);
    assert NoDuplicates(ts) by {
      forall i, j | 0 <= i < j < |ts|
        ensures ts[i] != ts[j]
      {
        assert ts[i].key == ds[i] && ts[j].key == ds[j];
      }
    }
    SortBySorted(ts, less);
  }

  /** The order of `most_common`: higher counts first, equal counts in order of first
      appearance. */
  predicate Ahead<T>(a: Tally<T>, b: Tally<T>) {
    a.count > b.count || (a.count == b.count && a.first < b.first)
  }

  /** `Counter(xs).most_common()` with first appearances: sorted by count, largest first,
      by a stable sort, which keeps insertion order among equal counts. */
  function Ranking<T(==)>(xs: seq<T>): seq<Tally<T>> {
    SortBy(Tallies(xs), (a: Tally<T>, b: Tally<T>) => Ahead(a, b))
  }

  /** The tallies of `xs` without their first appearances. */
  function Pairs<T>(ts: seq<Tally<T>>): (r: seq<(T, nat)>)
    ensures |r| == |ts|
    ensures forall i :: 0 <= i < |ts| ==> r[i] == (ts[i].key, ts[i].count)
    decreases |ts|
  {
    if ts == [] then [] else Pairs(ts[..|ts| - 1]) + [(ts[|ts| - 1].key, ts[|ts| - 1].count)]
  }

  /** The sum of the counts of a frequency table. */
  function SumCounts<T>(es: seq<(T, nat)>): nat
    decreases |es|
  {
    if es == [] then 0 else SumCounts(es[..|es| - 1]) + es[|es| - 1].1
  }

  lemma {:induction false} SumCountsPairs<T>(ts: seq<Tally<T>>)
    ensures SumCounts(Pairs(ts)) == TallySum(ts)
    decreases |ts|
  {
    if ts != [] {
      assert Pairs(ts)[..|ts| - 1] == Pairs(ts[..|ts| - 1]);
      SumCountsPairs(ts[..|ts| - 1]);
    }
  }

  /** The first `n` entries of `s`, or all of them when `n` is `None` or too large. */
  function Top<T>(s: seq<T>, n: Option<nat>): (r: seq<T>)
    ensures |r| == if n.Some? && n.value < |s| then n.value else |s|
    ensures forall i :: 0 <= i < |r| ==> r[i] == s[i]
  {
    if n.Some? && n.value < |s| then s[..n.value] else s
  }

  /** `Counter(xs).most_common(n)`, and `most_common()` for `n == None`. */
  function MostCommon<T(==)>(xs: seq<T>, n: Option<nat>): (r: seq<(T, nat)>)
    ensures n.Some? ==> |r| <= n.value
  {
    Pairs(Top(Ranking(xs), n))
  }

  /** Counts never increase, and equal counts come in order of first appearance. */
  predicate Ranked<T>(rk: seq<Tally<T>>) {
    forall i, j :: 0 <= i < j < |rk| ==> Ahead(rk[i], rk[j])
  }

  /** The ranking orders the tallies of `xs` strictly: counts never increase, and equal
      counts come in order of first appearance. */
  lemma RankingOrdered<T(!new)>(xs: seq<T>)
    ensures Ranked(Ranking(xs))
  {
    var less := (a: Tally<T>, b: Tally<T>) => Ahead(a, b);
    var ts := Tallies(xs);
    forall a, b | a in ts && b in ts && a != b
      ensures less(a, b) || less(b, a)
    {
      var i :| 0 <= i < |ts| && ts[i] == a;
      var j :| 0 <= j < |ts| && ts[j] == b;
      assert a.first != b.first;
    }
    SortedTalliesOrdered(xs, less);
  }

  /** The first entries of a ranked tally table, without first appearances: each a value of
      `xs` with its exact count, no value twice, counts never increasing, equal counts in
      order of first appearance. */
  lemma TopFacts<T>(xs: seq<T>, rk: seq<Tally<T>>, n: Option<nat>)
    requires TallyTable(rk, xs) && Ranked(rk)
    ensures forall i :: 0 <= i < |Pairs(Top(rk, n))| ==>
      (rk[i] == Tally(Pairs(Top(rk, n))[i].0, Pairs(Top(rk, n))[i].1, FirstIndex(xs, Pairs(Top(rk, n))[i].0))
       && Pairs(Top(rk, n))[i].0 in xs && Pairs(Top(rk, n))[i].1 == Count(xs, Pairs(Top(rk, n))[i].0))
    ensures forall i, j :: 0 <= i < j < |Pairs(Top(rk, n))| ==>
      (Pairs(Top(rk, n))[i].0 != Pairs(Top(rk, n))[j].0
       && Pairs(Top(rk, n))[i].1 >= Pairs(Top(rk, n))[j].1
       && (Pairs(Top(rk, n))[i].1 == Pairs(Top(rk, n))[j].1 ==>
             FirstIndex(xs, Pairs(Top(rk, n))[i].0) < FirstIndex(xs, Pairs(Top(rk, n))[j].0)))
  {
    var r := Pairs(Top(rk, n));
    forall i, j | 0 <= i < j < |r|
      ensures r[i].0 != r[j].0
    {
      assert Ahead(rk[i], rk[j]);
    }
  }

  /** A value of `xs` that a ranked, complete tally table leaves out of its first entries
      comes after each of them. */
  lemma TopLeavesOut<T>(xs: seq<T>, rk: seq<Tally<T>>, n: Option<nat>, x: T)
    requires TallyTable(rk, xs) && CoversAll(rk, xs) && Ranked(rk)
    requires x in xs && (x, Count(xs, x)) !in Pairs(Top(rk, n))
    ensures forall i :: 0 <= i < |Pairs(Top(rk, n))| ==>
      Ahead(Tally(Pairs(Top(rk, n))[i].0, Pairs(Top(rk, n))[i].1, FirstIndex(xs, Pairs(Top(rk, n))[i].0)),
            Tally(x, Count(xs, x), FirstIndex(xs, x)))
  {
    var r := Pairs(Top(rk, n));
    var t := Tally(x, Count(xs, x), FirstIndex(xs, x));
    var q := FirstIndex(xs, x);
    assert t in rk;
    assert forall i :: 0 <= i < |r| ==> r[i] == (rk[i].key, rk[i].count) != (x, Count(xs, x));
    assert forall i :: 0 <= i < |r| ==> rk[i] != t;
    var p :| 0 <= p < |rk| && rk[p] == t;
    forall i | 0 <= i < |r|
      ensures Ahead(Tally(r[i].0, r[i].1, FirstIndex(xs, r[i].0)), t)
    {
      assert Ahead(rk[i], rk[p]);
    }
  }

  /** What `most_common(n)` promises: at most `n` entries, each a value of `xs` with its
      exact count, no value twice, counts never increasing, equal counts in order of first
      appearance, and no value left out that comes ahead of one listed. */
  lemma MostCommonFacts<T(!new)>(xs: seq<T>, n: Option<nat>)
    ensures n.Some? ==> |MostCommon(xs, n)| == if n.value < |Distinct(xs)| then n.value else |Distinct(xs)|
    ensures forall i :: 0 <= i < |MostCommon(xs, n)| ==>
      MostCommon(xs, n)[i].0 in xs && MostCommon(xs, n)[i].1 == Count(xs, MostCommon(xs, n)[i].0)
    ensures forall i, j :: 0 <= i < j < |MostCommon(xs, n)| ==>
      (MostCommon(xs, n)[i].0 != MostCommon(xs, n)[j].0
       && MostCommon(xs, n)[i].1 >= MostCommon(xs, n)[j].1
       && (MostCommon(xs, n)[i].1 == MostCommon(xs, n)[j].1 ==>
             FirstIndex(xs, MostCommon(xs, n)[i].0) < FirstIndex(xs, MostCommon(xs, n)[j].0)))
    ensures forall x :: x in xs && (x, Count(xs, x)) !in MostCommon(xs, n) ==>
      forall i :: 0 <= i < |MostCommon(xs, n)| ==>
        Ahead(Tally(MostCommon(xs, n)[i].0, MostCommon(xs, n)[i].1, FirstIndex(xs, MostCommon(xs, n)[i].0)),
              Tally(x, Count(xs, x), FirstIndex(xs, x)))
  {
    var rk := Ranking(xs);
    SortedTallies(xs, (a: Tally<T>, b: Tally<T>) => Ahead(a, b));
    RankingOrdered(xs);
    TopFacts(xs, rk, n);
    forall x | x in xs && (x, Count(xs, x)) !in MostCommon(xs, n)
      ensures forall i :: 0 <= i < |MostCommon(xs, n)| ==>
        Ahead(Tally(MostCommon(xs, n)[i].0, MostCommon(xs, n)[i].1, FirstIndex(xs, MostCommon(xs, n)[i].0)),
              Tally(x, Count(xs, x), FirstIndex(xs, x)))
    {
      TopLeavesOut(xs, rk, n, x);
    }
  }

  /** A value that `most_common(n)` leaves out occurs at most as often as each listed one. */
  lemma MostCommonCut<T(!new)>(xs: seq<T>, n: Option<nat>)
    ensures forall x :: x in xs && (x, Count(xs, x)) !in MostCommon(xs, n) ==>
      forall i :: 0 <= i < |MostCommon(xs, n)| ==> MostCommon(xs, n)[i].1 >= Count(xs, x)
  {
    var rk, r := Ranking(xs), MostCommon(xs, n);
    SortedTallies(xs, (a: Tally<T>, b: Tally<T>) => Ahead(a, b));
    RankingOrdered(xs);
    forall x | x in xs && (x, Count(xs, x)) !in r
      ensures forall i :: 0 <= i < |r| ==> r[i].1 >= Count(xs, x)
    {
      TopLeavesOut(xs, rk, n, x);
    }
  }

  /** `most_common()` lists every value of `xs`, and its counts add up to `|xs|`. */
  lemma MostCommonAll<T>(xs: seq<T>)
    ensures forall x :: x in xs ==> (x, Count(xs, x)) in MostCommon(xs, None)
    ensures |MostCommon(xs, None)| == |Distinct(xs)|
    ensures SumCounts(MostCommon(xs, None)) == |xs|
  {
    var less := (a: Tally<T>, b: Tally<T>) => Ahead(a, b);
    var rk := Ranking(xs);
    SortedTallies(xs, less);
    SumCountsPairs(rk);
    assert MostCommon(xs, None) == Pairs(rk);
    forall x | x in xs
      ensures (x, Count(xs, x)) in MostCommon(xs, None)
    {
      var k :| 0 <= k < |xs| && xs[k] == x;
      var t := Tally(x, Count(xs, x), FirstIndex(xs, x));
      assert t in rk;
      var i :| 0 <= i < |rk| && rk[i] == t;
      assert Pairs(rk)[i] == (x, Count(xs, x));
    }
  }

  /** `most_common()` in full: every value of `xs` exactly once with its exact count,
      counts never increasing and adding up to `|xs|`. */
  lemma MostCommonTable<T(!new)>(xs: seq<T>, r: seq<(T, nat)>)
    requires r == MostCommon(xs, None)
    ensures forall i :: 0 <= i < |r| ==> r[i].0 in xs && r[i].1 == Count(xs, r[i].0) > 0
    ensures forall i, j :: 0 <= i < j < |r| ==> r[i].0 != r[j].0 && r[i].1 >= r[j].1
    ensures forall x :: x in xs ==> (x, Count(xs, x)) in r
    ensures SumCounts(r) == |xs|
  {
    var rk := Ranking(xs);
    SortedTallies(xs, (a: Tally<T>, b: Tally<T>) => Ahead(a, b));
    RankingOrdered(xs);
    TopFacts(xs, rk, None);
    MostCommonAll(xs);
  }

  /** `Series(keys).groupby(keys).count()` (a `groupby` sorts its keys): the distinct keys in
      increasing order under `less`, each with its number of occurrences. */
  function Grouped<K(==)>(keys: seq<K>, less: (K, K) -> bool): seq<(K, nat)> {
    Pairs(SortBy(Tallies(keys), (a: Tally<K>, b: Tally<K>) => less(a.key, b.key)))
  }

  /** Sorting the tallies by their keys under a strict total order on the keys is sorting
      under a strict total order. */
  lemma ByKeyStrict<K(!new)>(keys: seq<K>, less: (K, K) -> bool)
    requires StrictTotalOn(less, keys)
    ensures StrictTotalOn((a: Tally<K>, b: Tally<K>) => less(a.key, b.key), Tallies(keys))
  {
    var ts := Tallies(keys);
    forall t | t in ts
      ensures t.key in keys && t == Tally(t.key, Count(keys, t.key), FirstIndex(keys, t.key))
    {
      var i :| 0 <= i < |ts| && ts[i] == t;
    }
  }

  /** A complete tally table sorted by key, without first appearances. */
  lemma GroupedTable<K>(keys: seq<K>, srt: seq<Tally<K>>, less: (K, K) -> bool)
    requires TallyTable(srt, keys) && CoversAll(srt, keys)
    requires forall i, j :: 0 <= i < j < |srt| ==> less(srt[i].key, srt[j].key)
    ensures forall i :: 0 <= i < |Pairs(srt)| ==>
      Pairs(srt)[i].0 in keys && Pairs(srt)[i].1 == Count(keys, Pairs(srt)[i].0)
    ensures forall i, j :: 0 <= i < j < |Pairs(srt)| ==> less(Pairs(srt)[i].0, Pairs(srt)[j].0)
    ensures forall k :: k in keys ==> (k, Count(keys, k)) in Pairs(srt)
  {
    var g := Pairs(srt);
    forall k | k in keys
      ensures (k, Count(keys, k)) in g
    {
      var i :| 0 <= i < |keys| && keys[i] == k;
      assert Tally(k, Count(keys, k), FirstIndex(keys, k)) in srt;
      var p :| 0 <= p < |srt| && srt[p] == Tally(k, Count(keys, k), FirstIndex(keys, k));
      assert g[p] == (k, Count(keys, k));
    }
  }

  /** A group-by count lists every key once, in increasing order, with its exact number of
      occurrences, and its counts add up to the number of keys. */
  lemma GroupedFacts<K(!new)>(keys: seq<K>, less: (K, K) -> bool)
    requires StrictTotalOn(less, keys)
    ensures |Grouped(keys, less)| == |Distinct(keys)|
    ensures forall i :: 0 <= i < |Grouped(keys, less)| ==>
      Grouped(keys, less)[i].0 in keys && Grouped(keys, less)[i].1 == Count(keys, Grouped(keys, less)[i].0)
    ensures forall i, j :: 0 <= i < j < |Grouped(keys, less)| ==> less(Grouped(keys, less)[i].0, Grouped(keys, less)[j].0)
    ensures forall k :: k in keys ==> (k, Count(keys, k)) in Grouped(keys, less)
    ensures SumCounts(Grouped(keys, less)) == |keys|
  {
    var less' := (a: Tally<K>, b: Tally<K>) => less(a.key, b.key);
    var srt := SortBy(Tallies(keys), less');
    SortedTallies(keys, less');
    ByKeyStrict(keys, less);
    SortedTalliesOrdered(keys, less');
    SumCountsPairs(srt);
    GroupedTable(keys, srt, less);
  }
}
