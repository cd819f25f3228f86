/**
 * Generic operations on an ordered collection of rows: the store primitives
 * that the controllers use (`find`, `findOne`, `deleteMany`, `$sort`, offset
 * pagination), each specified by what it keeps, removes or reorders.
 */
module Rows {
  import opened Wrappers

  /** A page number or page size: a positive integer. */
  type Pos = n: nat | 1 <= n witness 1

  function Min(a: int, b: int): int { if a <= b then a else b }

  /** A sequence with no members is empty. */
  lemma NothingInIsEmpty<T>(s: seq<T>)
    requires forall x :: x !in s
    ensures s == []
  {
    forall x ensures multiset(s)[x] == 0 {
      assert x !in s;
    }
    assert multiset(s) == multiset{};
  }

  /** The rows of `s` that satisfy `keep`, in their original order. */
  function Filter<T(==,!new)>(s: seq<T>, keep: T -> bool): (r: seq<T>)
    ensures |r| <= |s|
    ensures forall x :: x in r <==> x in s && keep(x)
    ensures forall x :: multiset(r)[x] == if keep(x) then multiset(s)[x] else 0
  {
    if s == [] then []
    else
      var tail := Filter(s[1..], keep);
      assert s == [s[0]] + s[1..];
      if keep(s[0]) then [s[0]] + tail else tail
  }

  /** One step of `Filter`: the head row is kept or dropped, the rest is filtered. */
  lemma FilterCons<T(!new)>(x: T, s: seq<T>, keep: T -> bool)
    ensures Filter([x] + s, keep) == (if keep(x) then [x] else []) + Filter(s, keep)
  {
    assert ([x] + s)[0] == x && ([x] + s)[1..] == s;
  }

  /** Filtering distributes over concatenation: the kept rows stay in their original order. */
  lemma {:induction false} FilterAppend<T(!new)>(a: seq<T>, b: seq<T>, keep: T -> bool)
    ensures Filter(a + b, keep) == Filter(a, keep) + Filter(b, keep)
  {
    if a == [] {
      assert a + b == b;
    } else {
      var x, rest := a[0], a[1..];
      var head := if keep(x) then [x] else [];
      calc {
        Filter(a + b, keep);
        { assert a + b == [x] + (rest + b); }
        Filter([x] + (rest + b), keep);
        { FilterCons(x, rest + b, keep); }
        head + Filter(rest + b, keep);
        { FilterAppend(rest, b, keep); }
        head + (Filter(rest, keep) + Filter(b, keep));
        (head + Filter(rest, keep)) + Filter(b, keep);
        { FilterCons(x, rest, keep); assert a == [x] + rest; }
        Filter(a, keep) + Filter(b, keep);
      }
    }
  }

  /** `f` applied to every row, keeping the order (a projection stage). */
  function Map<T, U>(s: seq<T>, f: T -> U): (r: seq<U>)
    ensures |r| == |s|
    ensures forall i :: 0 <= i < |s| ==> r[i] == f(s[i])
    ensures forall x :: x in s ==> f(x) in r
    ensures forall y :: y in r ==> exists x :: x in s && y == f(x)
  {
    var r := seq(|s|, i requires 0 <= i < |s| => f(s[i]));
    assert forall x :: x in s ==> f(x) in r by {
      forall x | x in s ensures f(x) in r {
        var k :| 0 <= k < |s| && s[k] == x;
        assert r[k] == f(x);
      }
    }
    assert forall y :: y in r ==> exists x :: x in s && y == f(x) by {
      forall y | y in r ensures exists x :: x in s && y == f(x) {
        var k :| 0 <= k < |r| && r[k] == y;
        assert s[k] in s;
      }
    }
    r
  }

  /** One step of `Map`: the head row's image, then the rest mapped. */
  lemma MapCons<T, U>(x: T, s: seq<T>, f: T -> U)
    ensures Map([x] + s, f) == [f(x)] + Map(s, f)
  {
    var m, t := Map([x] + s, f), Map(s, f);
    forall k | 0 <= k < |m| ensures m[k] == ([f(x)] + t)[k] {
      if k > 0 { assert ([x] + s)[k] == s[k - 1]; }
    }
  }

  /** An injective projection keeps how often each row occurs. */
  lemma {:induction false} MapInjectiveCount<T, U>(s: seq<T>, f: T -> U, x: T)
    requires forall y :: f(y) == f(x) ==> y == x
    ensures multiset(Map(s, f))[f(x)] == multiset(s)[x]
  {
    if s != [] {
      var y, rest := s[0], s[1..];
      assert s == [y] + rest;
      MapCons(y, rest, f);
      MapInjectiveCount(rest, f, x);
      assert f(y) == f(x) <==> y == x;
    }
  }

  /** The position of the first row satisfying `p`, as `findOne` returns it. */
  function FirstIndex<T>(s: seq<T>, p: T -> bool): (r: Option<nat>)
    ensures r.Some? ==> r.value < |s| && p(s[r.value])
    ensures r.Some? ==> forall j :: 0 <= j < r.value ==> !p(s[j])
    ensures r.None? <==> forall j :: 0 <= j < |s| ==> !p(s[j])
  {
    if s == [] then None
    else if p(s[0]) then Some(0)
    else match FirstIndex(s[1..], p)
      case None => None
      case Some(k) => Some(k + 1)
  }

  /** The position of the row whose key is `k` (`findById`). */
  function IndexOfKey<T, K(==)>(s: seq<T>, key: T -> K, k: K): (r: Option<nat>)
    ensures r.Some? ==> r.value < |s| && key(s[r.value]) == k
    ensures r.None? <==> forall j :: 0 <= j < |s| ==> key(s[j]) != k
  {
    FirstIndex(s, (x: T) => key(x) == k)
  }

  /** `s` without its row at position `i` (a delete by id). */
  function RemoveAt<T>(s: seq<T>, i: nat): (r: seq<T>)
    requires i < |s|
    ensures |r| == |s| - 1
    ensures forall j :: 0 <= j < i ==> r[j] == s[j]
    ensures forall j :: i <= j < |r| ==> r[j] == s[j + 1]
  {
    s[..i] + s[i + 1..]
  }

  /** No two rows share a key: the collection's primary-key constraint. */
  ghost predicate DistinctKeys<T, K>(s: seq<T>, key: T -> K) {
    forall i, j :: 0 <= i < j < |s| ==> key(s[i]) != key(s[j])
  }

  /** The rows after the head of a sequence with distinct keys have distinct keys, none the head's. */
  lemma DistinctTail<T, K>(s: seq<T>, key: T -> K)
    requires s != [] && DistinctKeys(s, key)
    ensures DistinctKeys(s[1..], key)
    ensures forall y :: y in s[1..] ==> key(y) != key(s[0])
  {
    var rest := s[1..];
    forall i, j | 0 <= i < j < |rest| ensures key(rest[i]) != key(rest[j]) {
      assert rest[i] == s[i + 1] && rest[j] == s[j + 1];
    }
    forall y | y in rest ensures key(y) != key(s[0]) {
      var k :| 0 <= k < |rest| && rest[k] == y;
      assert s[k + 1] == y;
    }
  }

  /** A row whose key no row of `s` has, put in front of `s`, keeps the keys distinct. */
  lemma DistinctCons<T, K>(x: T, s: seq<T>, key: T -> K)
    requires DistinctKeys(s, key) && forall y :: y in s ==> key(y) != key(x)
    ensures DistinctKeys([x] + s, key)
  {
    var r := [x] + s;
    forall i, j | 0 <= i < j < |r| ensures key(r[i]) != key(r[j]) {
      assert r[j] == s[j - 1] && r[j] in s;
      if i > 0 { assert r[i] == s[i - 1]; }
    }
  }

  lemma {:induction false} FilterKeepsDistinct<T(!new), K>(s: seq<T>, keep: T -> bool, key: T -> K)
    requires DistinctKeys(s, key)
    ensures DistinctKeys(Filter(s, keep), key)
  {
    if s != [] {
      DistinctTail(s, key);
      FilterKeepsDistinct(s[1..], keep, key);
      var tail := Filter(s[1..], keep);
      if keep(s[0]) {
        DistinctCons(s[0], tail, key);
        assert Filter(s, keep) == [s[0]] + tail;
      } else {
        assert Filter(s, keep) == tail;
      }
    }
  }

  lemma RemoveAtKeepsDistinct<T, K>(s: seq<T>, i: nat, key: T -> K)
    requires i < |s| && DistinctKeys(s, key)
    ensures DistinctKeys(RemoveAt(s, i), key)
  {
    var r := RemoveAt(s, i);
    forall a, b | 0 <= a < b < |r| ensures key(r[a]) != key(r[b]) {
      var a' := if a < i then a else a + 1;
      var b' := if b < i then b else b + 1;
      assert r[a] == s[a'] && r[b] == s[b'] && a' < b';
    }
  }

  lemma UpdateKeepsDistinct<T, K>(s: seq<T>, i: nat, x: T, key: T -> K)
    requires i < |s| && DistinctKeys(s, key) && key(x) == key(s[i])
    ensures DistinctKeys(s[i := x], key)
  {
    var r := s[i := x];
    forall a, b | 0 <= a < b < |r| ensures key(r[a]) != key(r[b]) {
      assert key(r[a]) == key(s[a]) && key(r[b]) == key(s[b]);
    }
  }

  lemma AppendKeepsDistinct<T, K>(s: seq<T>, x: T, key: T -> K)
    requires DistinctKeys(s, key)
    requires forall j :: 0 <= j < |s| ==> key(s[j]) != key(x)
    ensures DistinctKeys(s + [x], key)
  {
    var r := s + [x];
    forall a, b | 0 <= a < b < |r| ensures key(r[a]) != key(r[b]) {
      if b == |s| { assert r[a] == s[a]; } else { assert r[a] == s[a] && r[b] == s[b]; }
    }
  }

  /** Deleting the row at `i` deletes its key: no remaining row carries it. */
  lemma RemoveAtRemovesKey<T, K>(s: seq<T>, i: nat, key: T -> K)
    requires i < |s| && DistinctKeys(s, key)
    ensures forall j :: 0 <= j < |RemoveAt(s, i)| ==> key(RemoveAt(s, i)[j]) != key(s[i])
  {
    var r := RemoveAt(s, i);
    forall j | 0 <= j < |r| ensures key(r[j]) != key(s[i]) {
      if j < i { assert r[j] == s[j]; } else { assert r[j] == s[j + 1]; }
    }
  }

  // ---------------------------------------------------------------- ordering

  /** `a` may stand before `b` in the requested direction. */
  predicate InOrder(a: int, b: int, ascending: bool) {
    if ascending then a <= b else b <= a
  }

  predicate SortedBy<T>(s: seq<T>, key: T -> int, ascending: bool) {
    forall i, j :: 0 <= i < j < |s| ==> InOrder(key(s[i]), key(s[j]), ascending)
  }

  /** The rows after the head of an ordered sequence are ordered, and the head may precede each. */
  lemma SortedTail<T>(s: seq<T>, key: T -> int, ascending: bool)
    requires s != [] && SortedBy(s, key, ascending)
    ensures SortedBy(s[1..], key, ascending)
    ensures forall y :: y in s[1..] ==> InOrder(key(s[0]), key(y), ascending)
  {
    var rest := s[1..];
    forall i, j | 0 <= i < j < |rest| ensures InOrder(key(rest[i]), key(rest[j]), ascending) {
      assert rest[i] == s[i + 1] && rest[j] == s[j + 1];
    }
    forall y | y in rest ensures InOrder(key(s[0]), key(y), ascending) {
      var k :| 0 <= k < |rest| && rest[k] == y;
      assert s[k + 1] == y;
    }
  }

  /** A row that may precede every row of an ordered sequence, put in front of it, keeps it ordered. */
  lemma SortedCons<T>(x: T, s: seq<T>, key: T -> int, ascending: bool)
    requires SortedBy(s, key, ascending) && forall y :: y in s ==> InOrder(key(x), key(y), ascending)
    ensures SortedBy([x] + s, key, ascending)
  {
    var r := [x] + s;
    forall i, j | 0 <= i < j < |r| ensures InOrder(key(r[i]), key(r[j]), ascending) {
      assert r[j] == s[j - 1] && r[j] in s;
      if i > 0 { assert r[i] == s[i - 1]; }
    }
  }

  /** `x` placed before the first row it may precede. */
  function Insert<T(==,!new)>(x: T, s: seq<T>, key: T -> int, ascending: bool): (r: seq<T>)
    requires SortedBy(s, key, ascending)
    ensures SortedBy(r, key, ascending)
    ensures multiset(r) == multiset(s) + multiset{x}
  {
    if s == [] then [x]
    else if InOrder(key(x), key(s[0]), ascending) then
      assert forall y :: y in s ==> InOrder(key(x), key(y), ascending) by {
        SortedTail(s, key, ascending);
        forall y | y in s ensures InOrder(key(x), key(y), ascending) {
          if y != s[0] { assert y in s[1..]; }
        }
      }
      SortedCons(x, s, key, ascending);
      [x] + s
    else
      var rest := s[1..];
      SortedTail(s, key, ascending);
      var tail := Insert(x, rest, key, ascending);
      assert multiset(s) == multiset{s[0]} + multiset(rest) by {
        assert s == [s[0]] + rest;
      }
      assert forall y :: y in tail ==> InOrder(key(s[0]), key(y), ascending) by {
        forall y | y in tail ensures InOrder(key(s[0]), key(y), ascending) {
          assert y in multiset(tail);
          assert y == x || y in multiset(rest);
        }
      }
      SortedCons(s[0], tail, key, ascending);
      assert multiset([s[0]] + tail) == multiset{s[0]} + multiset(tail);
      [s[0]] + tail
  }

  /** A stable insertion sort: rows with equal keys keep their input order. */
  function Sort<T(==,!new)>(s: seq<T>, key: T -> int, ascending: bool): (r: seq<T>)
    ensures SortedBy(r, key, ascending)
    ensures multiset(r) == multiset(s)
  {
    if s == [] then []
    else
      assert s == [s[0]] + s[1..];
      Insert(s[0], Sort(s[1..], key, ascending), key, ascending)
  }

  lemma SortKeepsRows<T(!new)>(s: seq<T>, key: T -> int, ascending: bool)
    ensures |Sort(s, key, ascending)| == |s|
    ensures forall x :: x in Sort(s, key, ascending) <==> x in s
  {
    var r := Sort(s, key, ascending);
    assert |multiset(r)| == |multiset(s)|;
    forall x ensures x in r <==> x in s {
      assert x in r <==> x in multiset(r);
      assert x in s <==> x in multiset(s);
    }
  }

  /** Dropping rows keeps an ordered collection ordered. */
  lemma {:induction false} FilterKeepsSorted<T(!new)>(s: seq<T>, keep: T -> bool, key: T -> int, ascending: bool)
    requires SortedBy(s, key, ascending)
    ensures SortedBy(Filter(s, keep), key, ascending)
  {
    if s != [] {
      FilterKeepsSorted(s[1..], keep, key, ascending);
      var tail := Filter(s[1..], keep);
      if keep(s[0]) {
        var r := [s[0]] + tail;
        forall i, j | 0 <= i < j < |r| ensures InOrder(key(r[i]), key(r[j]), ascending) {
          assert r[j] == tail[j - 1];
          if i > 0 {
            assert r[i] == tail[i - 1];
          } else {
            assert tail[j - 1] in s[1..];
            var k :| 0 <= k < |s[1..]| && s[1..][k] == tail[j - 1];
            assert s[k + 1] == r[j];
          }
        }
      }
    }
  }

  // -------------------------------------------------------------- pagination

  /** One page of a paginated listing (`aggregatePaginate`), with the size of the whole listing. */
  datatype Page<T> = Page(docs: seq<T>, totalDocs: nat, page: Pos, limit: Pos)

  /** The number of rows before page `page`, counted from 1. */
  function PageStart(page: Pos, limit: Pos): nat {
    (page - 1) * limit
  }

  /** The next page starts `limit` rows later. */
  lemma NextPageStart(page: Pos, limit: Pos)
    ensures PageStart(page, limit) + limit == page * limit
  {
  }

  /**
   * Page `page` of `s` with `limit` rows per page, counted from 1: the rows
   * at positions [(page - 1) * limit, page * limit).
   */
  function Paginate<T>(s: seq<T>, page: Pos, limit: Pos): (r: seq<T>)
    ensures |r| <= limit
    ensures PageStart(page, limit) >= |s| ==> r == []
    ensures |r| > 0 ==> PageStart(page, limit) + |r| <= |s|
    ensures PageStart(page, limit) < |s| ==> |r| == Min(limit, |s| - PageStart(page, limit))
    ensures forall k :: 0 <= k < |r| ==> r[k] == s[PageStart(page, limit) + k]
    ensures forall x :: x in r ==> x in s
  {
    var start := PageStart(page, limit);
    if start >= |s| then []
    else
      var r := s[start..Min(start + limit, |s|)];
      assert forall x :: x in r ==> x in s by {
        forall x | x in r ensures x in s {
          var k :| 0 <= k < |r| && r[k] == x;
          assert s[start + k] == x;
        }
      }
      r
  }

  /** A contiguous slice of an ordered sequence is ordered. */
  lemma SortedSlice<T>(s: seq<T>, lo: nat, hi: nat, key: T -> int, ascending: bool)
    requires lo <= hi <= |s| && SortedBy(s, key, ascending)
    ensures SortedBy(s[lo..hi], key, ascending)
  {
    var r := s[lo..hi];
    forall i, j | 0 <= i < j < |r| ensures InOrder(key(r[i]), key(r[j]), ascending) {
      assert r[i] == s[lo + i] && r[j] == s[lo + j];
    }
  }

  /** A page of an ordered listing is ordered. */
  lemma PageKeepsSorted<T>(s: seq<T>, page: Pos, limit: Pos, key: T -> int, ascending: bool)
    requires SortedBy(s, key, ascending)
    ensures SortedBy(Paginate(s, page, limit), key, ascending)
  {
    var start := PageStart(page, limit);
    if start < |s| {
      SortedSlice(s, start, Min(start + limit, |s|), key, ascending);
    }
  }

  /** Pages 1 to `n`, one after the other. */
  function Pages<T>(s: seq<T>, n: nat, limit: Pos): seq<T> {
    if n == 0 then [] else Pages(s, n - 1, limit) + Paginate(s, n, limit)
  }

  /** A prefix followed by the slice after it is the longer prefix (no arithmetic on pages here). */
  lemma PrefixThenSlice<T>(s: seq<T>, start: nat, limit: nat, prev: seq<T>, page: seq<T>)
    requires prev == s[..Min(start, |s|)]
    requires start >= |s| ==> page == []
    requires start < |s| ==> page == s[start..Min(start + limit, |s|)]
    ensures prev + page == s[..Min(start + limit, |s|)]
  {
    if start < |s| {
      assert s[..start] + s[start..Min(start + limit, |s|)] == s[..Min(start + limit, |s|)];
    }
  }

  /** Reading pages 1 to `n` in order yields the first `n * limit` rows, once each. */
  lemma {:induction false} PagesArePrefix<T>(s: seq<T>, n: nat, limit: Pos)
    ensures Pages(s, n, limit) == s[..Min(n * limit, |s|)]
  {
    if n > 0 {
      PagesArePrefix(s, n - 1, limit);
      var start := PageStart(n, limit);
      NextPageStart(n, limit);
      PrefixThenSlice(s, start, limit, Pages(s, n - 1, limit), Paginate(s, n, limit));
    }
  }

  /** Enough pages reproduce the whole listing, with no row missing or repeated. */
  lemma PagesCoverListing<T>(s: seq<T>, n: nat, limit: Pos)
    requires |s| <= n * limit
    ensures Pages(s, n, limit) == s
  {
    PagesArePrefix(s, n, limit);
    assert s[..|s|] == s;
  }
}
