/** The collection primitives the catalog handlers are built from:
    Array.prototype.find by a string key, the case-insensitive category
    filter, Array.prototype.slice and the page window computed from
    `page` and `limit`. All pure. */
module Listing {
  import opened Basics

  // ---------------------------------------------------------------- find

  /** Index of the first element whose key equals `k`, as `find` scans. */
  function IndexOf<T>(s: seq<T>, key: T -> string, k: string): (r: Option<nat>)
    ensures r.Some? ==> r.value < |s| && key(s[r.value]) == k
    ensures r.Some? ==> forall j :: 0 <= j < r.value ==> key(s[j]) != k
    ensures r.None? <==> forall j :: 0 <= j < |s| ==> key(s[j]) != k
  {
    if s == [] then None
    else if key(s[0]) == k then Some(0)
    else match IndexOf(s[1..], key, k)
      case None => None
      case Some(i) => Some(i + 1)
  }

  /** Appending an element never moves the first match of a key that was already present. */
  lemma {:induction false} IndexOfAppend<T>(s: seq<T>, x: T, key: T -> string, k: string)
    ensures IndexOf(s, key, k).Some? ==> IndexOf(s + [x], key, k) == IndexOf(s, key, k)
    ensures IndexOf(s, key, k).None? && key(x) == k ==> IndexOf(s + [x], key, k) == Some(|s|)
  {
    if s != [] && key(s[0]) != k {
      assert (s + [x])[1..] == s[1..] + [x];
      IndexOfAppend(s[1..], x, key, k);
    }
  }

  // -------------------------------------------------------------- filter

  /** The elements `x` of `s` that `filter` keeps for a category query `q`:
      those whose lower-cased category equals the lower-cased query. */
  predicate InCategory<T>(x: T, categoryOf: T -> string, q: string) {
    ToLower(categoryOf(x)) == ToLower(q)
  }

  function FilterCategory<T>(s: seq<T>, categoryOf: T -> string, q: string): (r: seq<T>)
    ensures |r| <= |s|
    ensures forall i :: 0 <= i < |r| ==> r[i] in s && InCategory(r[i], categoryOf, q)
    ensures forall i :: 0 <= i < |s| && InCategory(s[i], categoryOf, q) ==> s[i] in r
  {
    if s == [] then []
    else if InCategory(s[0], categoryOf, q) then [s[0]] + FilterCategory(s[1..], categoryOf, q)
    else FilterCategory(s[1..], categoryOf, q)
  }

  /** Filtering keeps source order: it distributes over concatenation. */
  lemma {:induction false} FilterAppend<T>(a: seq<T>, b: seq<T>, categoryOf: T -> string, q: string)
    ensures FilterCategory(a + b, categoryOf, q)
         == FilterCategory(a, categoryOf, q) + FilterCategory(b, categoryOf, q)
  {
    if a == [] {
      assert a + b == b;
    } else {
      assert (a + b)[0] == a[0];
      assert (a + b)[1..] == a[1..] + b;
      FilterAppend(a[1..], b, categoryOf, q);
    }
  }

  /** Filtering keeps every matching element as often as it occurs, and no other. */
  lemma {:induction false} FilterMultiset<T>(s: seq<T>, categoryOf: T -> string, q: string)
    ensures forall x :: multiset(FilterCategory(s, categoryOf, q))[x]
                     == if InCategory(x, categoryOf, q) then multiset(s)[x] else 0
  {
    if s != [] {
      FilterMultiset(s[1..], categoryOf, q);
      assert s == [s[0]] + s[1..];
    }
  }

  /** When every element matches, the filter is the identity. */
  lemma {:induction false} FilterAll<T>(s: seq<T>, categoryOf: T -> string, q: string)
    requires forall i :: 0 <= i < |s| ==> InCategory(s[i], categoryOf, q)
    ensures FilterCategory(s, categoryOf, q) == s
  {
    if s != [] {
      FilterAll(s[1..], categoryOf, q);
    }
  }

  /** When nothing matches, the filter is empty. */
  lemma {:induction false} FilterNone<T>(s: seq<T>, categoryOf: T -> string, q: string)
    requires forall i :: 0 <= i < |s| ==> !InCategory(s[i], categoryOf, q)
    ensures FilterCategory(s, categoryOf, q) == []
  {
    if s != [] {
      FilterNone(s[1..], categoryOf, q);
    }
  }

  // --------------------------------------------------------------- slice

  /** How Array.prototype.slice turns a relative index into a position:
      a negative index counts from the end, and the result is clamped to [0, len]. */
  function RelativeIndex(i: int, len: nat): (r: nat)
    ensures r <= len
    ensures 0 <= i ==> r == if i < len then i else len
    ensures i < 0 ==> r == if len + i < 0 then 0 else len + i
  {
    if i < 0 then (if len + i < 0 then 0 else len + i)
    else if i < len then i else len
  }

  /** `s.slice(start, end)`. */
  function Slice<T>(s: seq<T>, start: int, end: int): (r: seq<T>)
    ensures |r| <= |s|
    ensures var a, b := RelativeIndex(start, |s|), RelativeIndex(end, |s|);
            |r| == (if a < b then b - a else 0) &&
            forall k :: 0 <= k < |r| ==> r[k] == s[a + k]
  {
    var a, b := RelativeIndex(start, |s|), RelativeIndex(end, |s|);
    if a < b then s[a..b] else []
  }

  /** A negative index counts back from the end: `s.slice(i, j)` with
      `-|s| <= i < 0` is `s.slice(|s| + i, j)`, and likewise for `j`. */
  lemma SliceFromEnd<T>(s: seq<T>, i: int, j: int)
    ensures -|s| <= i < 0 ==> Slice(s, i, j) == Slice(s, |s| + i, j)
    ensures -|s| <= j < 0 ==> Slice(s, i, j) == Slice(s, i, |s| + j)
    ensures i < -|s| ==> Slice(s, i, j) == Slice(s, 0, j)
  {
  }

  /** Indexes past the end are clamped: a slice from the length or beyond is
      empty, and one up to the length or beyond runs to the end. */
  lemma SliceClamp<T>(s: seq<T>, i: int, j: int)
    ensures i >= |s| ==> Slice(s, i, j) == []
    ensures 0 <= i <= |s| <= j ==> Slice(s, i, j) == s[i..]
    ensures Slice(s, 0, |s|) == s
  {
  }

  /** Two adjacent slices make up the slice that spans both. */
  lemma SliceSplit<T>(s: seq<T>, a: int, b: int, c: int)
    requires 0 <= a <= b <= c
    ensures Slice(s, a, b) + Slice(s, b, c) == Slice(s, a, c)
  {
    var x, y, z := RelativeIndex(a, |s|), RelativeIndex(b, |s|), RelativeIndex(c, |s|);
    assert x <= y <= z;
    assert Slice(s, a, b) == s[x..y];
    assert Slice(s, b, c) == s[y..z];
    assert Slice(s, a, c) == s[x..z];
    assert s[x..y] + s[y..z] == s[x..z];
  }

  // ---------------------------------------------------------------- page

  /** First index of page `page` (1-based) of size `limit`: the first page
      starts at 0, and each page starts `limit` after the one before. */
  function PageStart(page: int, limit: int): (r: int)
    ensures page == 1 ==> r == 0
    ensures r + limit == page * limit
    ensures page >= 1 && limit >= 0 ==> r >= 0
  {
    (page - 1) * limit
  }

  /** `items.slice(startIndex, startIndex + limit)`: whatever the page
      number, at most `limit` consecutive items of the list. */
  function Page<T>(items: seq<T>, page: int, limit: int): (r: seq<T>)
    ensures |r| <= |items|
    ensures limit >= 0 ==> |r| <= limit
    ensures forall k :: 0 <= k < |r| ==> r[k] in items
  {
    Slice(items, PageStart(page, limit), PageStart(page, limit) + limit)
  }

  /** For a page number from 1 and a non-negative limit, the page is the
      window [start, start + limit) of the list, clamped at its end: at most
      `limit` items, consecutive and in list order, and empty past the end. */
  lemma PageWindow<T>(items: seq<T>, page: int, limit: int)
    requires page >= 1 && limit >= 0
    ensures var r, start := Page(items, page, limit), PageStart(page, limit);
            0 <= start &&
            |r| <= limit && |r| <= |items| &&
            (start >= |items| ==> r == []) &&
            (start < |items| ==> |r| == if start + limit <= |items| then limit else |items| - start) &&
            (forall k :: 0 <= k < |r| ==> r[k] == items[start + k]) &&
            r == items[(if start < |items| then start else |items|)..(if start + limit < |items| then start + limit else |items|)]
  {
    var start := PageStart(page, limit);
    assert 0 <= start by {
      assert page - 1 >= 0;
    }
  }

  /** Consecutive pages tile the list: page p followed by page p + 1 is the
      window of size 2 * limit that starts where page p starts. */
  lemma PagesAdjacent<T>(items: seq<T>, page: int, limit: int)
    requires page >= 1 && limit >= 0
    ensures Page(items, page, limit) + Page(items, page + 1, limit)
         == Slice(items, PageStart(page, limit), PageStart(page, limit) + 2 * limit)
  {
    PageWindow(items, page, limit);
    PageWindow(items, page + 1, limit);
    assert PageStart(page + 1, limit) == PageStart(page, limit) + limit;
  }
}
