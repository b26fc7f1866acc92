/** Ordering, de-duplication and grouping on sequences, written once and used
    by every script: Python's `sorted` and pandas' `sort_values` (a stable
    sort under a total preorder), `drop_duplicates`/`unique` (first occurrence
    kept), and geopandas' `dissolve` (group rows by a key, key order ascending,
    geometries united, other columns taken from the group's first row). */
module Order {

  /** `le` is total and transitive: a comparison a sort may rely on. */
  ghost predicate IsTotalPreorder<T(!new)>(le: (T, T) -> bool) {
    && (forall a, b :: le(a, b) || le(b, a))
    && (forall a, b, c :: le(a, b) && le(b, c) ==> le(a, c))
  }

  predicate SortedBy<T>(s: seq<T>, le: (T, T) -> bool) {
    forall i, j :: 0 <= i < j < |s| ==> le(s[i], s[j])
  }

  predicate NoDup<T(==)>(s: seq<T>) {
    forall i, j :: 0 <= i < j < |s| ==> s[i] != s[j]
  }

  /** Places `x` before the first element it is `le` to. */
  function Insert<T(==)>(x: T, s: seq<T>, le: (T, T) -> bool): (r: seq<T>)
    ensures multiset(r) == multiset(s) + multiset{x}
    ensures |r| == |s| + 1
  {
    if |s| == 0 then [x]
    else if le(x, s[0]) then [x] + s
    else
      assert s == [s[0]] + s[1..];
      [s[0]] + Insert(x, s[1..], le)
  }

  /** Insertion sort. Each element goes in front of the elements already
      sorted that it is `le` to, so elements that compare equal keep their
      input order. */
  function SortBy<T(==)>(s: seq<T>, le: (T, T) -> bool): (r: seq<T>)
    ensures multiset(r) == multiset(s)
    ensures |r| == |s|
  {
    if |s| == 0 then []
    else
      assert s == [s[0]] + s[1..];
      Insert(s[0], SortBy(s[1..], le), le)
  }

  lemma {:induction false} InsertSorted<T(!new)>(x: T, s: seq<T>, le: (T, T) -> bool)
    requires IsTotalPreorder(le) && SortedBy(s, le)
    ensures SortedBy(Insert(x, s, le), le)
    decreases |s|
  {
    if |s| > 0 && !le(x, s[0]) {
      var tail := s[1..];
      InsertSorted(x, tail, le);
      var r := Insert(x, tail, le);
      forall y | y in multiset(r) ensures le(s[0], y) {
        if y != x {
          assert y in multiset(tail);
          var j :| 0 <= j < |tail| && tail[j] == y;
          assert s[j + 1] == y;
        }
      }
      forall j | 0 <= j < |r| ensures le(s[0], r[j]) {
        assert r[j] in multiset(r);
      }
    }
  }

  /** The sort's result is sorted. */
  lemma {:induction false} SortBySorted<T(!new)>(s: seq<T>, le: (T, T) -> bool)
    requires IsTotalPreorder(le)
    ensures SortedBy(SortBy(s, le), le)
    decreases |s|
  {
    if |s| > 0 {
      SortBySorted(s[1..], le);
      InsertSorted(s[0], SortBy(s[1..], le), le);
    }
  }

  /** Sorting keeps exactly the elements it was given. */
  lemma SortByMembers<T>(s: seq<T>, le: (T, T) -> bool)
    ensures forall x :: x in SortBy(s, le) <==> x in s
  {
    var r := SortBy(s, le);
    assert forall x :: x in r <==> x in multiset(r);
    assert forall x :: x in s <==> x in multiset(s);
  }

  /** Two positions holding the same value count it twice. */
  lemma TwoOccurrences<T>(r: seq<T>, i: nat, j: nat)
    requires i < j < |r| && r[i] == r[j]
    ensures multiset(r)[r[i]] >= 2
  {
    assert r == r[..j] + r[j..];
    assert r[..j][i] == r[i] && r[j..][0] == r[j];
    assert r[i] in multiset(r[..j]) && r[i] in multiset(r[j..]);
  }

  /** A duplicate-free sequence counts every value at most once. */
  lemma {:induction false} NoDupCount<T>(s: seq<T>, x: T)
    requires NoDup(s)
    ensures multiset(s)[x] <= 1
    decreases |s|
  {
    if |s| > 0 {
      assert s == [s[0]] + s[1..];
      assert NoDup(s[1..]);
      NoDupCount(s[1..], x);
      if s[0] == x {
        assert x !in s[1..];
      }
    }
  }

  /** Sorting keeps a duplicate-free sequence duplicate free. */
  lemma SortByNoDup<T>(s: seq<T>, le: (T, T) -> bool)
    requires NoDup(s)
    ensures NoDup(SortBy(s, le))
  {
    var r := SortBy(s, le);
    forall i, j | 0 <= i < j < |r| ensures r[i] != r[j] {
      if r[i] == r[j] {
        TwoOccurrences(r, i, j);
        NoDupCount(s, r[i]);
      }
    }
  }

  /** `unique()` / `drop_duplicates()`: the first occurrence of each value, in
      order of first occurrence. */
  function Dedup<T(==,!new)>(s: seq<T>): (r: seq<T>)
    ensures NoDup(r)
    ensures forall x :: x in r <==> x in s
    ensures |r| <= |s|
    decreases |s|
  {
    if |s| == 0 then []
    else
      var d := Dedup(s[..|s| - 1]);
      assert forall x :: x in s <==> x in s[..|s| - 1] || x == s[|s| - 1] by {
        assert s == s[..|s| - 1] + [s[|s| - 1]];
      }
      if s[|s| - 1] in d then d else d + [s[|s| - 1]]
  }

  /** De-duplicating a sorted sequence leaves it sorted. */
  lemma {:induction false} DedupSorted<T(!new)>(s: seq<T>, le: (T, T) -> bool)
    requires SortedBy(s, le)
    ensures SortedBy(Dedup(s), le)
    decreases |s|
  {
    if |s| > 0 {
      var p := s[..|s| - 1];
      assert SortedBy(p, le);
      DedupSorted(p, le);
      var d := Dedup(p);
      if s[|s| - 1] !in d {
        forall i | 0 <= i < |d| ensures le(d[i], s[|s| - 1]) {
          assert d[i] in p;
          var j :| 0 <= j < |p| && p[j] == d[i];
        }
      }
    }
  }

  /** The distinct values of `s` in ascending order: `sorted(set(s))`. */
  function SortedDistinct<T(==,!new)>(s: seq<T>, le: (T, T) -> bool): (r: seq<T>)
    ensures NoDup(r)
    ensures forall x :: x in r <==> x in s
  {
    SortByMembers(s, le);
    Dedup(SortBy(s, le))
  }

  lemma SortedDistinctSorted<T(!new)>(s: seq<T>, le: (T, T) -> bool)
    requires IsTotalPreorder(le)
    ensures SortedBy(SortedDistinct(s, le), le)
  {
    SortBySorted(s, le);
    DedupSorted(SortBy(s, le), le);
  }

  /** The key of every row, in row order. */
  function KeysOf<R, K>(rows: seq<R>, key: R -> K): (r: seq<K>)
    ensures |r| == |rows| && forall i :: 0 <= i < |rows| ==> r[i] == key(rows[i])
  {
    seq(|rows|, i requires 0 <= i < |rows| => key(rows[i]))
  }

  /** The geometries of `rows` united one after another, as a dissolve does. */
  function UnionAll<R>(rows: seq<R>, geom: R -> set<nat>): set<nat>
    decreases |rows|
  {
    if |rows| == 0 then {} else geom(rows[0]) + UnionAll(rows[1..], geom)
  }

  /** The rows whose key is `k`, in row order. */
  function RowsWithKey<R, K(==)>(rows: seq<R>, key: R -> K, k: K): (r: seq<R>)
    ensures |r| <= |rows|
    decreases |rows|
  {
    if |rows| == 0 then []
    else (if key(rows[0]) == k then [rows[0]] else []) + RowsWithKey(rows[1..], key, k)
  }

  /** The united geometry of a group holds exactly the ids of its rows. */
  lemma {:induction false} UnionOfGroup<R, K>(rows: seq<R>, key: R -> K, geom: R -> set<nat>, k: K, x: nat)
    ensures x in UnionAll(RowsWithKey(rows, key, k), geom)
        <==> exists i :: 0 <= i < |rows| && key(rows[i]) == k && x in geom(rows[i])
    decreases |rows|
  {
    if |rows| > 0 {
      UnionOfGroup(rows[1..], key, geom, k, x);
      var head := if key(rows[0]) == k then [rows[0]] else [];
      UnionAppend(head, RowsWithKey(rows[1..], key, k), geom);
      if exists i :: 0 <= i < |rows| && key(rows[i]) == k && x in geom(rows[i]) {
        var i :| 0 <= i < |rows| && key(rows[i]) == k && x in geom(rows[i]);
        if i > 0 { assert rows[1..][i - 1] == rows[i]; }
      }
      if exists i :: 0 <= i < |rows| - 1 && key(rows[1..][i]) == k && x in geom(rows[1..][i]) {
        var i :| 0 <= i < |rows| - 1 && key(rows[1..][i]) == k && x in geom(rows[1..][i]);
        assert rows[i + 1] == rows[1..][i];
      }
    }
  }

  lemma {:induction false} UnionAppend<R>(a: seq<R>, b: seq<R>, geom: R -> set<nat>)
    ensures UnionAll(a + b, geom) == UnionAll(a, geom) + UnionAll(b, geom)
    decreases |a|
  {
    if |a| > 0 {
      assert (a + b)[0] == a[0] && (a + b)[1..] == a[1..] + b;
      UnionAppend(a[1..], b, geom);
    } else {
      assert a + b == b;
    }
  }

  /** The position of the first row whose key is `k`. */
  function FirstWithKey<R, K(==)>(rows: seq<R>, key: R -> K, k: K): (i: nat)
    requires k in KeysOf(rows, key)
    ensures i < |rows| && key(rows[i]) == k
    ensures forall j :: 0 <= j < i ==> key(rows[j]) != k
    decreases |rows|
  {
    if key(rows[0]) == k then 0
    else
      assert k in KeysOf(rows[1..], key) by {
        var j :| 0 <= j < |rows| && key(rows[j]) == k;
        assert key(rows[1..][j - 1]) == k;
      }
      FirstWithKey(rows[1..], key, k) + 1
  }

  /** One dissolved group: its key, the group's first row (whose other
      columns the output keeps) and the united geometry. */
  datatype Group<K, R> = Group(key: K, first: R, geom: set<nat>)

  /** The key of every group, in output order. */
  function GroupKeys<K, R>(r: seq<Group<K, R>>): (ks: seq<K>)
    ensures |ks| == |r| && forall i :: 0 <= i < |r| ==> ks[i] == r[i].key
  {
    seq(|r|, i requires 0 <= i < |r| => r[i].key)
  }

  function MakeGroups<R, K(==)>(ks: seq<K>, rows: seq<R>, key: R -> K, geom: R -> set<nat>): (r: seq<Group<K, R>>)
    requires forall k :: k in ks ==> k in KeysOf(rows, key)
    ensures |r| == |ks|
    ensures forall i :: 0 <= i < |ks| ==> r[i].key == ks[i]
    ensures forall i :: 0 <= i < |ks| ==> r[i].first == rows[FirstWithKey(rows, key, ks[i])]
    ensures forall i :: 0 <= i < |ks| ==> r[i].geom == UnionAll(RowsWithKey(rows, key, ks[i]), geom)
    decreases |ks|
  {
    if |ks| == 0 then []
    else
      [Group(ks[0], rows[FirstWithKey(rows, key, ks[0])], UnionAll(RowsWithKey(rows, key, ks[0]), geom))]
      + MakeGroups(ks[1..], rows, key, geom)
  }

  /** geopandas' `dissolve(by=key)` with its default `sort=True`: one output
      per distinct key, in ascending key order. */
  function Dissolve<R, K(==,!new)>(rows: seq<R>, key: R -> K, geom: R -> set<nat>, le: (K, K) -> bool): (r: seq<Group<K, R>>)
    ensures NoDup(GroupKeys(r))
    ensures forall k :: k in GroupKeys(r) <==> k in KeysOf(rows, key)
    ensures forall i :: 0 <= i < |r| ==> r[i].first == rows[FirstWithKey(rows, key, r[i].key)]
    ensures forall i :: 0 <= i < |r| ==> r[i].geom == UnionAll(RowsWithKey(rows, key, r[i].key), geom)
  {
    var ks := SortedDistinct(KeysOf(rows, key), le);
    var r := MakeGroups(ks, rows, key, geom);
    assert GroupKeys(r) == ks;
    r
  }

  /** The groups come out in ascending key order. */
  lemma DissolveSorted<R, K(!new)>(rows: seq<R>, key: R -> K, geom: R -> set<nat>, le: (K, K) -> bool)
    requires IsTotalPreorder(le)
    ensures SortedBy(GroupKeys(Dissolve(rows, key, geom, le)), le)
  {
    var ks := SortedDistinct(KeysOf(rows, key), le);
    SortedDistinctSorted(KeysOf(rows, key), le);
    assert GroupKeys(Dissolve(rows, key, geom, le)) == ks;
  }

  /** Every input row lands in exactly one group, and its geometry is part of
      that group's geometry. */
  lemma DissolveCovers<R, K(!new)>(rows: seq<R>, key: R -> K, geom: R -> set<nat>, le: (K, K) -> bool, i: nat)
    requires i < |rows|
    ensures var r := Dissolve(rows, key, geom, le);
      exists g :: 0 <= g < |r| && r[g].key == key(rows[i])
        && (forall h :: 0 <= h < |r| && r[h].key == key(rows[i]) ==> h == g)
        && geom(rows[i]) <= r[g].geom
  {
    var r := Dissolve(rows, key, geom, le);
    var ks := GroupKeys(r);
    assert key(rows[i]) in KeysOf(rows, key);
    var g :| 0 <= g < |r| && ks[g] == key(rows[i]);
    forall x | x in geom(rows[i]) ensures x in r[g].geom {
      UnionOfGroup(rows, key, geom, key(rows[i]), x);
    }
    assert forall h :: 0 <= h < |r| && r[h].key == key(rows[i]) ==> h == g by {
      forall h | 0 <= h < |r| && r[h].key == key(rows[i]) ensures h == g {
        assert ks[h] == ks[g];
      }
    }
  }

  /** A group's geometry holds only ids of rows with that group's key. */
  lemma DissolveOnlyMembers<R, K(!new)>(rows: seq<R>, key: R -> K, geom: R -> set<nat>, le: (K, K) -> bool, g: nat, x: nat)
    requires g < |Dissolve(rows, key, geom, le)|
    requires x in Dissolve(rows, key, geom, le)[g].geom
    ensures exists i :: 0 <= i < |rows| && key(rows[i]) == Dissolve(rows, key, geom, le)[g].key && x in geom(rows[i])
  {
    UnionOfGroup(rows, key, geom, Dissolve(rows, key, geom, le)[g].key, x);
  }

  /** When no id is shared by two input rows, no id is shared by two groups. */
  lemma DissolveDisjoint<R, K(!new)>(rows: seq<R>, key: R -> K, geom: R -> set<nat>, le: (K, K) -> bool, g: nat, h: nat)
    requires forall i, j :: 0 <= i < j < |rows| ==> geom(rows[i]) !! geom(rows[j])
    requires g < h < |Dissolve(rows, key, geom, le)|
    ensures Dissolve(rows, key, geom, le)[g].geom !! Dissolve(rows, key, geom, le)[h].geom
  {
    var r := Dissolve(rows, key, geom, le);
    assert GroupKeys(r)[g] != GroupKeys(r)[h];
    forall x | x in r[g].geom ensures x !in r[h].geom {
      DissolveOnlyMembers(rows, key, geom, le, g, x);
      var i :| 0 <= i < |rows| && key(rows[i]) == r[g].key && x in geom(rows[i]);
      forall j | 0 <= j < |rows| && key(rows[j]) == r[h].key ensures x !in geom(rows[j]) {
        if i < j {
          assert geom(rows[i]) !! geom(rows[j]);
        } else if j < i {
          assert geom(rows[j]) !! geom(rows[i]);
        }
      }
      UnionOfGroup(rows, key, geom, r[h].key, x);
    }
  }

  /** `f` applied to each element and the results concatenated in order: the
      shape of a loop that extends a list with each item's output. */
  function FlatMap<X, Y>(xs: seq<X>, f: X -> seq<Y>): seq<Y>
    decreases |xs|
  {
    if |xs| == 0 then [] else FlatMap(xs[..|xs| - 1], f) + f(xs[|xs| - 1])
  }

  lemma {:induction false} FlatMapAppend<X, Y>(a: seq<X>, b: seq<X>, f: X -> seq<Y>)
    ensures FlatMap(a + b, f) == FlatMap(a, f) + FlatMap(b, f)
    decreases |b|
  {
    if |b| == 0 {
      assert a + b == a;
    } else {
      assert (a + b)[..|a + b| - 1] == a + b[..|b| - 1];
      FlatMapAppend(a, b[..|b| - 1], f);
    }
  }

  /** One more element contributes its output at the end. */
  lemma FlatMapSnoc<X, Y>(xs: seq<X>, x: X, f: X -> seq<Y>)
    ensures FlatMap(xs + [x], f) == FlatMap(xs, f) + f(x)
  {
    assert (xs + [x])[..|xs|] == xs;
  }

  /** One more element in front contributes its output first. */
  lemma FlatMapCons<X, Y>(x: X, xs: seq<X>, f: X -> seq<Y>)
    ensures FlatMap([x] + xs, f) == f(x) + FlatMap(xs, f)
  {
    assert FlatMap([x], f) == f(x) by {
      assert [x][..0] == [];
    }
    FlatMapAppend([x], xs, f);
  }

  /** Each element's output appears whole, between those of the elements
      before and after it. */
  lemma FlatMapSplit<X, Y>(xs: seq<X>, f: X -> seq<Y>, i: nat)
    requires i < |xs|
    ensures FlatMap(xs, f) == FlatMap(xs[..i], f) + f(xs[i]) + FlatMap(xs[i + 1..], f)
  {
    var p, q := xs[..i], xs[i + 1..];
    assert xs == p + ([xs[i]] + q);
    FlatMapAppend(p, [xs[i]] + q, f);
    FlatMapCons(xs[i], q, f);
  }

  lemma {:induction false} FlatMapMembers<X, Y>(xs: seq<X>, f: X -> seq<Y>, y: Y)
    ensures y in FlatMap(xs, f) <==> exists i :: 0 <= i < |xs| && y in f(xs[i])
    decreases |xs|
  {
    if |xs| > 0 {
      var init := xs[..|xs| - 1];
      FlatMapMembers(init, f, y);
      if y in FlatMap(init, f) {
        var i :| 0 <= i < |init| && y in f(init[i]);
        assert xs[i] == init[i];
      }
      forall i | 0 <= i < |xs| - 1 ensures xs[i] == init[i] { }
    }
  }

  /** The number of elements satisfying `p`. */
  function CountWhere<X>(xs: seq<X>, p: X -> bool): nat
    decreases |xs|
  {
    if |xs| == 0 then 0 else CountWhere(xs[..|xs| - 1], p) + (if p(xs[|xs| - 1]) then 1 else 0)
  }

  /** When each element yields `n` items if it satisfies `p` and none
      otherwise, the output has `n` items per such element. */
  lemma {:induction false} FlatMapLength<X, Y>(xs: seq<X>, f: X -> seq<Y>, p: X -> bool, n: nat)
    requires forall i :: 0 <= i < |xs| ==> |f(xs[i])| == if p(xs[i]) then n else 0
    ensures |FlatMap(xs, f)| == n * CountWhere(xs, p)
    decreases |xs|
  {
    if |xs| > 0 {
      var init := xs[..|xs| - 1];
      forall i | 0 <= i < |init| ensures |f(init[i])| == if p(init[i]) then n else 0 {
        assert init[i] == xs[i];
      }
      FlatMapLength(init, f, p, n);
    }
  }

  /** The elements of `xs` that satisfy `p`, in order: a list comprehension
      with a condition, or a boolean mask. */
  function Filter<X(==,!new)>(xs: seq<X>, p: X -> bool): (r: seq<X>)
    ensures |r| == CountWhere(xs, p)
    ensures forall x :: x in r <==> x in xs && p(x)
    decreases |xs|
  {
    if |xs| == 0 then []
    else
      var last := xs[|xs| - 1];
      assert forall x :: x in xs <==> x in xs[..|xs| - 1] || x == last by {
        assert xs == xs[..|xs| - 1] + [last];
      }
      Filter(xs[..|xs| - 1], p) + (if p(last) then [last] else [])
  }

  /** Filtering a one-element sequence keeps that element exactly when it
      passes. */
  lemma FilterSingleton<X(!new)>(x: X, p: X -> bool)
    ensures Filter([x], p) == if p(x) then [x] else []
  {
    assert [x][..0] == [];
  }

  /** Filtering distributes over concatenation: the kept elements of `a`
      come first, in their order, followed by those of `b`. With
      `FilterSingleton` this fixes `Filter` as the order-keeping selection. */
  lemma {:induction false} FilterAppend<X(!new)>(a: seq<X>, b: seq<X>, p: X -> bool)
    ensures Filter(a + b, p) == Filter(a, p) + Filter(b, p)
    decreases |b|
  {
    if |b| == 0 {
      assert a + b == a;
    } else {
      var init := b[..|b| - 1];
      var last := b[|b| - 1];
      assert (a + b)[..|a + b| - 1] == a + init;
      assert (a + b)[|a + b| - 1] == last;
      FilterAppend(a, init, p);
    }
  }

  /** Filtering keeps a duplicate-free sequence duplicate free. */
  lemma {:induction false} FilterNoDup<X(!new)>(xs: seq<X>, p: X -> bool)
    requires NoDup(xs)
    ensures NoDup(Filter(xs, p))
    decreases |xs|
  {
    if |xs| > 0 {
      var init := xs[..|xs| - 1];
      var last := xs[|xs| - 1];
      assert NoDup(init);
      FilterNoDup(init, p);
      if p(last) {
        assert last !in init by {
          forall k | 0 <= k < |init| ensures init[k] != last {
            assert init[k] == xs[k];
          }
        }
        SnocNoDup(Filter(init, p), last);
      }
    }
  }

  /** Appending a new value keeps a sequence duplicate free. */
  lemma SnocNoDup<X>(s: seq<X>, x: X)
    requires NoDup(s) && x !in s
    ensures NoDup(s + [x])
  {
    forall i, j | 0 <= i < j < |s + [x]| ensures (s + [x])[i] != (s + [x])[j] {
      if j == |s| {
        assert (s + [x])[i] == s[i];
      } else {
        assert (s + [x])[i] == s[i] && (s + [x])[j] == s[j];
      }
    }
  }

  /** A duplicate-free sequence has as many distinct values as elements. */
  lemma {:induction false} NoDupSetSize<X>(s: seq<X>)
    requires NoDup(s)
    ensures |set x | x in s| == |s|
    decreases |s|
  {
    if |s| > 0 {
      var init := s[..|s| - 1];
      var last := s[|s| - 1];
      assert NoDup(init);
      NoDupSetSize(init);
      assert s == init + [last];
      assert (set x | x in s) == (set x | x in init) + {last};
      assert last !in init by {
        forall k | 0 <= k < |init| ensures init[k] != last {
          assert init[k] == s[k];
        }
      }
    }
  }

  /** The first element kept by `Filter` is the first element that
      satisfies `p`; `i` is its position. */
  lemma {:induction false} FilterFirst<X(!new)>(xs: seq<X>, p: X -> bool) returns (i: nat)
    requires |Filter(xs, p)| > 0
    ensures i < |xs| && p(xs[i]) && Filter(xs, p)[0] == xs[i]
    ensures forall j :: 0 <= j < i ==> !p(xs[j])
    decreases |xs|
  {
    var init := xs[..|xs| - 1];
    if |Filter(init, p)| > 0 {
      i := FilterFirst(init, p);
      forall j | 0 <= j <= i ensures init[j] == xs[j] { }
    } else {
      i := |xs| - 1;
      forall j | 0 <= j < i ensures !p(xs[j]) {
        assert init[j] == xs[j] && init[j] in init;
      }
    }
  }
}
