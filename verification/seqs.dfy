/**
 * The query operators the source applies to tables and lists: `Where`
 * (Filter), `OrderBy` / `OrderByDescending` (SortBy, a stable sort on an
 * integer key; descending is the same sort on the negated key) and `Take`.
 */
module Seqs {
  import opened Wrappers

  /** Elements of `s` satisfying `p`, in their original order (LINQ `Where`). */
  function Filter<T>(s: seq<T>, p: T -> bool): (r: seq<T>)
    ensures |r| <= |s|
    ensures forall i :: 0 <= i < |r| ==> p(r[i])
    decreases |s|
  {
    if s == [] then []
    else
      var rest := Filter(s[1..], p);
      assert s == [s[0]] + s[1..];
      if p(s[0]) then [s[0]] + rest else rest
  }

  /** The predicate "key of x equals k". */
  function KeyIs<T>(key: T -> int, k: int): T -> bool {
    x => key(x) == k
  }

  /** The negated key: sorting ascending on it sorts descending on `key`. */
  function Desc<T>(key: T -> int): T -> int {
    x => -key(x)
  }

  ghost predicate SortedBy<T>(s: seq<T>, key: T -> int) {
    forall i, j :: 0 <= i < j < |s| ==> key(s[i]) <= key(s[j])
  }

  ghost predicate Distinct<T>(s: seq<T>) {
    forall i, j :: 0 <= i < j < |s| ==> s[i] != s[j]
  }

  /** Each element is no greater than the next. */
  ghost predicate AdjacentSorted<T>(s: seq<T>, key: T -> int) {
    forall i :: 0 <= i < |s| - 1 ==> key(s[i]) <= key(s[i + 1])
  }

  lemma {:induction false} AdjacentSortedIsSorted<T>(s: seq<T>, key: T -> int)
    requires AdjacentSorted(s, key)
    ensures SortedBy(s, key)
    decreases |s|
  {
    if |s| > 1 {
      AdjacentSortedIsSorted(s[1..], key);
      forall j | 1 <= j < |s| ensures key(s[0]) <= key(s[j]) {
        assert key(s[0]) <= key(s[1]);
        if j > 1 {
          assert s[1..][0] == s[1] && s[1..][j - 1] == s[j];
        }
      }
      forall i, j | 0 <= i < j < |s| ensures key(s[i]) <= key(s[j]) {
        if i > 0 {
          assert s[1..][i - 1] == s[i] && s[1..][j - 1] == s[j];
        }
      }
    }
  }

  /**
   * Inserts `x` in front of the first element whose key is not smaller, so
   * that `x`, which came first in the input, stays ahead of equal keys.
   */
  function Insert<T>(x: T, s: seq<T>, key: T -> int): (r: seq<T>)
    ensures multiset(r) == multiset(s) + multiset{x}
    ensures |r| == |s| + 1
    ensures r[0] == x || (|s| > 0 && r[0] == s[0])
  {
    if s == [] || key(x) <= key(s[0]) then [x] + s
    else
      assert s == [s[0]] + s[1..];
      [s[0]] + Insert(x, s[1..], key)
  }

  lemma {:induction false} InsertSorted<T>(x: T, s: seq<T>, key: T -> int)
    requires AdjacentSorted(s, key)
    ensures AdjacentSorted(Insert(x, s, key), key)
    decreases |s|
  {
    if s != [] && key(x) > key(s[0]) {
      var rest := Insert(x, s[1..], key);
      InsertSorted(x, s[1..], key);
      assert Insert(x, s, key) == [s[0]] + rest;
      assert key(s[0]) <= key(rest[0]);
    }
  }

  /** Stable insertion sort, ascending on `key` (LINQ `OrderBy`). */
  function SortBy<T>(s: seq<T>, key: T -> int): (r: seq<T>)
    ensures multiset(r) == multiset(s)
    ensures |r| == |s|
    ensures AdjacentSorted(r, key)
    ensures SortedBy(r, key)
  {
    if s == [] then []
    else
      assert s == [s[0]] + s[1..];
      var r := Insert(s[0], SortBy(s[1..], key), key);
      InsertSorted(s[0], SortBy(s[1..], key), key);
      AdjacentSortedIsSorted(r, key);
      r
  }

  /** A property every element of `s` has, every element of its sorting has. */
  lemma SortByKeeps<T>(s: seq<T>, key: T -> int, p: T -> bool)
    requires forall i :: 0 <= i < |s| ==> p(s[i])
    ensures forall i :: 0 <= i < |s| ==> p(SortBy(s, key)[i])
  {
    var r := SortBy(s, key);
    forall i | 0 <= i < |r| ensures p(r[i]) {
      assert r[i] in multiset(s);
      var j :| 0 <= j < |s| && s[j] == r[i];
    }
  }

  /** The position of the first element satisfying `p`, or -1 (`FindIndex`). */
  function IndexWhere<T>(s: seq<T>, p: T -> bool): (r: int)
    ensures -1 <= r < |s|
    ensures r >= 0 ==> p(s[r]) && forall j :: 0 <= j < r ==> !p(s[j])
    ensures r == -1 <==> forall j :: 0 <= j < |s| ==> !p(s[j])
  {
    if s == [] then -1
    else if p(s[0]) then 0
    else
      var r := IndexWhere(s[1..], p);
      assert forall j :: 1 <= j < |s| ==> s[j] == s[1..][j - 1];
      if r == -1 then -1 else r + 1
  }

  /**
   * `OrderByDescending(key).FirstOrDefault()`: the first element with the
   * greatest key (the stable sort keeps the earliest of equal keys in front),
   * or `None` for an empty input.
   */
  function MaxBy<T>(s: seq<T>, key: T -> int): (r: Option<T>)
    ensures r.Some? <==> s != []
    ensures r.Some? ==> r.value in s && forall i :: 0 <= i < |s| ==> key(s[i]) <= key(r.value)
  {
    if s == [] then None
    else
      var m := MaxBy(s[1..], key);
      assert forall i :: 1 <= i < |s| ==> s[i] == s[1..][i - 1];
      if m.None? || key(m.value) <= key(s[0]) then Some(s[0]) else m
  }

  /** MaxBy is the head of the descending stable sort. */
  lemma {:induction false} MaxByIsSortHead<T>(s: seq<T>, key: T -> int)
    requires s != []
    ensures MaxBy(s, key) == Some(SortBy(s, Desc(key))[0])
    decreases |s|
  {
    var d := Desc(key);
    var t := SortBy(s[1..], d);
    var m := MaxBy(s[1..], key);
    assert MaxBy(s, key) == if m.None? || key(m.value) <= key(s[0]) then Some(s[0]) else m;
    assert s == [s[0]] + s[1..];
    assert SortBy(s, d) == Insert(s[0], t, d);
    if |s| == 1 {
      assert t == [];
    } else {
      MaxByIsSortHead(s[1..], key);
      assert d(s[0]) <= d(t[0]) <==> key(t[0]) <= key(s[0]);
    }
  }

  /** The first `n` elements, or fewer (LINQ `Take`; a non-positive `n` takes none). */
  function Take<T>(s: seq<T>, n: int): (r: seq<T>)
    ensures |r| == if n <= 0 then 0 else if n < |s| then n else |s|
    ensures r == s[..|r|]
  {
    if n <= 0 then [] else if n < |s| then s[..n] else s
  }

  /** The first `n` of a sorting are sorted and drawn from the input. */
  lemma TakeOfSorted<T>(s: seq<T>, key: T -> int, n: int)
    ensures SortedBy(Take(SortBy(s, key), n), key)
    ensures multiset(Take(SortBy(s, key), n)) <= multiset(s)
  {
    var sorted := SortBy(s, key);
    var r := Take(sorted, n);
    assert sorted == r + sorted[|r|..];
  }

  /** An element the first `n` of a sorting leave out has a key no smaller than the last one taken. */
  lemma TakeOfSortedMisses<T>(s: seq<T>, key: T -> int, n: int, x: T)
    requires x in s && x !in Take(SortBy(s, key), n)
    ensures var r := Take(SortBy(s, key), n);
      r != [] ==> key(r[|r| - 1]) <= key(x)
  {
    var sorted := SortBy(s, key);
    assert x in multiset(sorted);
    var k := TakeMissIndex(sorted, n, x);
  }

  /** `TakeOfSortedMisses` for `OrderByDescending(key)`: what is left out has a key no greater. */
  lemma TakeOfSortedDescMisses<T>(s: seq<T>, key: T -> int, n: int, x: T)
    requires x in s && x !in Take(SortBy(s, Desc(key)), n)
    ensures var r := Take(SortBy(s, Desc(key)), n);
      r != [] ==> key(x) <= key(r[|r| - 1])
  {
    TakeOfSortedMisses(s, Desc(key), n, x);
  }

  /** An element of `s` that `Take(s, n)` leaves out sits at an index past the taken prefix. */
  lemma TakeMissIndex<T>(s: seq<T>, n: int, x: T) returns (k: int)
    requires x in s && x !in Take(s, n)
    ensures |Take(s, n)| <= k < |s| && s[k] == x
  {
    var r := Take(s, n);
    k :| 0 <= k < |s| && s[k] == x;
    assert forall i :: 0 <= i < |r| ==> s[i] != x;
  }

  /**
   * With `OrderBy(primary).ThenBy(secondary)`, an element the first `n`
   * leave out comes no earlier than the last one taken: a primary key no
   * smaller, and on a tie a secondary key no smaller.
   */
  lemma TakeOfThenByMisses<T>(s: seq<T>, primary: T -> int, secondary: T -> int, n: int, x: T)
    requires x in s && x !in Take(SortBy(SortBy(s, secondary), primary), n)
    ensures var r := Take(SortBy(SortBy(s, secondary), primary), n);
      r != [] ==>
        && primary(r[|r| - 1]) <= primary(x)
        && (primary(r[|r| - 1]) == primary(x) ==> secondary(r[|r| - 1]) <= secondary(x))
  {
    var inner := SortBy(s, secondary);
    var sorted := SortBy(inner, primary);
    var r := Take(sorted, n);
    assert x in multiset(inner);
    assert x in multiset(sorted);
    var k := TakeMissIndex(sorted, n, x);
    if r != [] {
      ThenByOrder(s, primary, secondary, |r| - 1, k);
    }
  }

  /** `s` without the element at `i` (`List.RemoveAt`). */
  function RemoveAt<T>(s: seq<T>, i: int): (r: seq<T>)
    requires 0 <= i < |s|
    ensures |r| == |s| - 1
    ensures forall k :: 0 <= k < |r| ==> r[k] == s[if k < i then k else k + 1]
  {
    s[..i] + s[i + 1..]
  }

  lemma FilterCons<T>(x: T, s: seq<T>, p: T -> bool)
    ensures Filter([x] + s, p) == (if p(x) then [x] else []) + Filter(s, p)
  {
    assert ([x] + s)[0] == x && ([x] + s)[1..] == s;
  }

  /** Filter keeps nothing exactly when no element passes, and everything exactly when all pass. */
  lemma {:induction false} FilterCountBounds<T>(s: seq<T>, p: T -> bool)
    ensures |Filter(s, p)| == 0 <==> forall i :: 0 <= i < |s| ==> !p(s[i])
    ensures |Filter(s, p)| == |s| <==> forall i :: 0 <= i < |s| ==> p(s[i])
    decreases |s|
  {
    if s != [] {
      FilterCountBounds(s[1..], p);
      assert forall i :: 1 <= i < |s| ==> s[i] == s[1..][i - 1];
    }
  }

  lemma {:induction false} FilterConcat<T>(a: seq<T>, b: seq<T>, p: T -> bool)
    ensures Filter(a + b, p) == Filter(a, p) + Filter(b, p)
    decreases |a|
  {
    if a == [] {
      assert a + b == b;
    } else {
      assert a + b == [a[0]] + (a[1..] + b) && a == [a[0]] + a[1..];
      FilterCons(a[0], a[1..] + b, p);
      FilterCons(a[0], a[1..], p);
      FilterConcat(a[1..], b, p);
    }
  }

  /** Filter keeps a sub-multiset of its input. */
  lemma {:induction false} FilterSubset<T>(s: seq<T>, p: T -> bool)
    ensures multiset(Filter(s, p)) <= multiset(s)
    decreases |s|
  {
    if s != [] {
      assert s == [s[0]] + s[1..];
      FilterCons(s[0], s[1..], p);
      FilterSubset(s[1..], p);
    }
  }

  /** An element of `s` that satisfies `p` is kept by Filter. */
  lemma {:induction false} FilterKeeps<T>(s: seq<T>, p: T -> bool, x: T)
    requires x in s && p(x)
    ensures x in Filter(s, p)
    decreases |s|
  {
    assert s == [s[0]] + s[1..];
    FilterCons(s[0], s[1..], p);
    if s[0] != x {
      FilterKeeps(s[1..], p, x);
    }
  }

  /** An element Filter keeps comes from `s` and satisfies `p`. */
  lemma FilterMember<T>(s: seq<T>, p: T -> bool, x: T)
    requires x in Filter(s, p)
    ensures x in s && p(x)
  {
    FilterSubset(s, p);
    assert x in multiset(s);
    var k :| 0 <= k < |Filter(s, p)| && Filter(s, p)[k] == x;
  }

  /** The sorted selection holds exactly the elements of `s` that satisfy `p`. */
  lemma SortedFilterMember<T>(s: seq<T>, p: T -> bool, key: T -> int, x: T)
    ensures x in SortBy(Filter(s, p), key) <==> x in s && p(x)
  {
    var f := Filter(s, p);
    assert x in SortBy(f, key) <==> x in multiset(f);
    if x in f {
      FilterMember(s, p, x);
    }
    if x in s && p(x) {
      FilterKeeps(s, p, x);
    }
  }

  /** MaxBy over the elements satisfying `p`, in terms of `s` itself. */
  lemma MaxByFilter<T>(s: seq<T>, p: T -> bool, key: T -> int)
    ensures MaxBy(Filter(s, p), key).None? <==> forall j :: 0 <= j < |s| ==> !p(s[j])
    ensures MaxBy(Filter(s, p), key).Some? ==>
              var w := MaxBy(Filter(s, p), key).value;
              && (exists i :: 0 <= i < |s| && p(s[i]) && w == s[i])
              && forall j :: 0 <= j < |s| && p(s[j]) ==> key(s[j]) <= key(w)
  {
    var f := Filter(s, p);
    var m := MaxBy(f, key);
    if m.None? {
      forall j | 0 <= j < |s| ensures !p(s[j]) {
        if p(s[j]) {
          FilterKeeps(s, p, s[j]);
        }
      }
    } else {
      var w := m.value;
      FilterMember(s, p, w);
      var i :| 0 <= i < |s| && s[i] == w;
      forall j | 0 <= j < |s| && p(s[j]) ensures key(s[j]) <= key(w) {
        FilterKeeps(s, p, s[j]);
        var k :| 0 <= k < |f| && f[k] == s[j];
      }
    }
  }

  lemma {:induction false} FilterInsert<T>(x: T, s: seq<T>, key: T -> int, k: int)
    ensures Filter(Insert(x, s, key), KeyIs(key, k))
         == (if key(x) == k then [x] else []) + Filter(s, KeyIs(key, k))
    decreases |s|
  {
    var p := KeyIs(key, k);
    if s == [] || key(x) <= key(s[0]) {
      assert Insert(x, s, key) == [x] + s;
      FilterCons(x, s, p);
    } else {
      var t := s[1..];
      var rest := Insert(x, t, key);
      assert Insert(x, s, key) == [s[0]] + rest;
      assert s == [s[0]] + t;
      FilterCons(s[0], rest, p);
      FilterCons(s[0], t, p);
      FilterInsert(x, t, key, k);
      var head := if p(s[0]) then [s[0]] else [];
      var xs := if key(x) == k then [x] else [];
      assert key(x) == k ==> head == [];
      calc {
        Filter(Insert(x, s, key), p);
        head + Filter(rest, p);
        head + (xs + Filter(t, p));
        xs + (head + Filter(t, p));
        xs + Filter(s, p);
      }
    }
  }

  /**
   * SortBy is stable: the elements that share a key come out in the order
   * they went in.
   */
  lemma {:induction false} SortByStable<T>(s: seq<T>, key: T -> int, k: int)
    ensures Filter(SortBy(s, key), KeyIs(key, k)) == Filter(s, KeyIs(key, k))
    decreases |s|
  {
    if s != [] {
      FilterInsert(s[0], SortBy(s[1..], key), key, k);
      SortByStable(s[1..], key, k);
      assert s == [s[0]] + s[1..];
      FilterCons(s[0], s[1..], KeyIs(key, k));
    }
  }

  /** Appending one element adds one to the count of Filter exactly when it satisfies `p`. */
  lemma FilterAppend<T>(s: seq<T>, x: T, p: T -> bool)
    ensures Filter(s + [x], p) == Filter(s, p) + (if p(x) then [x] else [])
  {
    FilterConcat(s, [x], p);
    FilterCons(x, [], p);
  }

  /** Replacing the element at `i` changes the count of Filter by what `p` says of the old and new element. */
  lemma FilterUpdate<T>(s: seq<T>, i: int, x: T, p: T -> bool)
    requires 0 <= i < |s|
    ensures |Filter(s[i := x], p)| == |Filter(s, p)| - (if p(s[i]) then 1 else 0) + (if p(x) then 1 else 0)
  {
    var t := s[i := x];
    assert s == s[..i] + ([s[i]] + s[i + 1..]);
    assert t == s[..i] + ([x] + s[i + 1..]);
    FilterConcat(s[..i], [s[i]] + s[i + 1..], p);
    FilterConcat(s[..i], [x] + s[i + 1..], p);
    FilterCons(s[i], s[i + 1..], p);
    FilterCons(x, s[i + 1..], p);
  }

  /** Filtering by `p` and then by a stronger `q` is filtering by `q`. */
  lemma {:induction false} FilterNarrow<T>(s: seq<T>, p: T -> bool, q: T -> bool)
    requires forall x :: q(x) ==> p(x)
    ensures Filter(Filter(s, p), q) == Filter(s, q)
    decreases |s|
  {
    if s != [] {
      assert s == [s[0]] + s[1..];
      FilterCons(s[0], s[1..], p);
      FilterCons(s[0], s[1..], q);
      FilterNarrow(s[1..], p, q);
      if p(s[0]) {
        FilterCons(s[0], Filter(s[1..], p), q);
      }
    }
  }

  /** Where Filter puts the element at index `i` of its input. */
  lemma FilterAt<T>(s: seq<T>, p: T -> bool, i: int)
    requires 0 <= i < |s| && p(s[i])
    ensures |Filter(s[..i], p)| < |Filter(s, p)|
    ensures Filter(s, p)[|Filter(s[..i], p)|] == s[i]
  {
    assert s == s[..i] + ([s[i]] + s[i + 1..]);
    FilterConcat(s[..i], [s[i]] + s[i + 1..], p);
    FilterCons(s[i], s[i + 1..], p);
  }

  /** Two elements kept by Filter keep their relative order. */
  lemma FilterKeepsOrder<T>(s: seq<T>, p: T -> bool, i: int, j: int)
    requires 0 <= i < j < |s| && p(s[i]) && p(s[j])
    ensures |Filter(s[..i], p)| < |Filter(s[..j], p)| < |Filter(s, p)|
    ensures Filter(s, p)[|Filter(s[..i], p)|] == s[i]
    ensures Filter(s, p)[|Filter(s[..j], p)|] == s[j]
  {
    FilterAt(s, p, i);
    FilterAt(s, p, j);
    assert s[..j] == s[..i] + ([s[i]] + s[i + 1..j]);
    FilterConcat(s[..i], [s[i]] + s[i + 1..j], p);
    FilterCons(s[i], s[i + 1..j], p);
  }

  /** Filter of a sorted sequence is sorted. */
  lemma {:induction false} FilterSorted<T>(s: seq<T>, p: T -> bool, key: T -> int)
    requires SortedBy(s, key)
    ensures SortedBy(Filter(s, p), key)
    decreases |s|
  {
    if s != [] {
      var t := s[1..];
      assert s == [s[0]] + t;
      FilterCons(s[0], t, p);
      assert SortedBy(t, key) by {
        forall i, j | 0 <= i < j < |t| ensures key(t[i]) <= key(t[j]) {
          assert t[i] == s[i + 1] && t[j] == s[j + 1];
        }
      }
      FilterSorted(t, p, key);
      var f := Filter(t, p);
      if p(s[0]) {
        FilterSubset(t, p);
        var r := [s[0]] + f;
        forall i, j | 0 <= i < j < |r| ensures key(r[i]) <= key(r[j]) {
          assert r[j] == f[j - 1];
          if i == 0 {
            assert f[j - 1] in multiset(t);
            var m :| 0 <= m < |t| && t[m] == f[j - 1];
            assert t[m] == s[m + 1];
          } else {
            assert r[i] == f[i - 1];
          }
        }
      }
    }
  }

  /**
   * `OrderBy(primary).ThenBy(secondary)` as two stable sorts, the secondary
   * key first: the result is ordered on the primary key, and on the
   * secondary key among equal primary keys.
   */
  lemma ThenByOrder<T>(s: seq<T>, primary: T -> int, secondary: T -> int, i: int, j: int)
    requires 0 <= i < j < |s|
    ensures var r := SortBy(SortBy(s, secondary), primary);
      && primary(r[i]) <= primary(r[j])
      && (primary(r[i]) == primary(r[j]) ==> secondary(r[i]) <= secondary(r[j]))
  {
    var inner := SortBy(s, secondary);
    var r := SortBy(inner, primary);
    if primary(r[i]) == primary(r[j]) {
      var p := KeyIs(primary, primary(r[i]));
      SortByStable(inner, primary, primary(r[i]));
      FilterKeepsOrder(r, p, i, j);
      FilterSorted(inner, p, secondary);
      var f := Filter(r, p);
      assert f[|Filter(r[..i], p)|] == r[i] && f[|Filter(r[..j], p)|] == r[j];
    }
  }

  /** `TakeOfThenByMisses` for `OrderByDescending(primary).ThenByDescending(secondary)`. */
  lemma TakeOfThenByDescMisses<T>(s: seq<T>, primary: T -> int, secondary: T -> int, n: int, x: T)
    requires x in s && x !in Take(SortBy(SortBy(s, Desc(secondary)), Desc(primary)), n)
    ensures var r := Take(SortBy(SortBy(s, Desc(secondary)), Desc(primary)), n);
      r != [] ==>
        && primary(x) <= primary(r[|r| - 1])
        && (primary(x) == primary(r[|r| - 1]) ==> secondary(x) <= secondary(r[|r| - 1]))
  {
    TakeOfThenByMisses(s, Desc(primary), Desc(secondary), n, x);
  }

  /** Sorting a sequence without repetitions gives one without repetitions. */
  lemma {:induction false} SortByDistinct<T>(s: seq<T>, key: T -> int)
    requires Distinct(s)
    ensures Distinct(SortBy(s, key))
    decreases |s|
  {
    if s != [] {
      assert s == [s[0]] + s[1..];
      SortByDistinct(s[1..], key);
      var t := SortBy(s[1..], key);
      assert s[0] !in multiset(t) by {
        assert s[0] !in s[1..];
      }
      InsertDistinct(s[0], t, key);
    }
  }

  lemma {:induction false} InsertDistinct<T>(x: T, s: seq<T>, key: T -> int)
    requires Distinct(s) && x !in s
    ensures Distinct(Insert(x, s, key))
    decreases |s|
  {
    if s != [] && key(x) > key(s[0]) {
      assert s == [s[0]] + s[1..];
      InsertDistinct(x, s[1..], key);
      var rest := Insert(x, s[1..], key);
      assert s[0] !in multiset(rest) by {
        assert s[0] != x && s[0] !in s[1..];
      }
    }
  }
}
