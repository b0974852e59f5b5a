/** Generic sequence operations shared by the backend queries and the frontend
    pages: filtering (SQL `filter`, JS `filter`), paging (SQL `OFFSET`/`LIMIT`),
    ordering (SQL `ORDER BY … DESC`, JS `Array.prototype.sort`), reversal, and
    removal of the first occurrence (Python `list.remove`). */
module Seqs {

  function Min(a: int, b: int): int
  {
    if a <= b then a else b
  }

  /** The elements of `s` that satisfy `p`, in their original order. */
  function Filter<T(!new)>(s: seq<T>, p: T -> bool): (r: seq<T>)
    ensures |r| <= |s|
    ensures forall x :: x in r <==> x in s && p(x)
    decreases |s|
  {
    if s == [] then []
    else
      var init := s[..|s| - 1];
      assert forall x :: x in s <==> x in init || x == s[|s| - 1];
      Filter(init, p) + (if p(s[|s| - 1]) then [s[|s| - 1]] else [])
  }

  lemma FilterAppend<T(!new)>(s: seq<T>, x: T, p: T -> bool)
    ensures Filter(s + [x], p) == Filter(s, p) + (if p(x) then [x] else [])
  {
    assert (s + [x])[..|s + [x]| - 1] == s;
  }

  /** Nothing is selected exactly when no element satisfies the predicate. */
  lemma {:induction false} FilterEmpty<T(!new)>(s: seq<T>, p: T -> bool)
    ensures Filter(s, p) == [] <==> forall k :: 0 <= k < |s| ==> !p(s[k])
    decreases |s|
  {
    if s != [] {
      var init := s[..|s| - 1];
      FilterEmpty(init, p);
      assert forall k :: 0 <= k < |init| ==> init[k] == s[k];
    }
  }

  /** Two predicates that agree on every element of `s` select the same elements. */
  lemma {:induction false} FilterCongruent<T(!new)>(s: seq<T>, p: T -> bool, q: T -> bool)
    requires forall x :: x in s ==> p(x) == q(x)
    ensures Filter(s, p) == Filter(s, q)
    decreases |s|
  {
    if s != [] {
      var init := s[..|s| - 1];
      assert forall x :: x in init ==> x in s;
      FilterCongruent(init, p, q);
    }
  }

  /** The page of `s` that skips `skip` elements and keeps at most `limit`. */
  function Page<T>(s: seq<T>, skip: nat, limit: nat): (r: seq<T>)
    ensures |r| == if skip <= |s| then Min(limit, |s| - skip) else 0
    ensures forall k :: 0 <= k < |r| ==> skip + k < |s| && r[k] == s[skip + k]
  {
    if skip >= |s| then [] else s[skip..skip + Min(limit, |s| - skip)]
  }

  /** A page that starts at the beginning and is at least as long as `s` is all of `s`. */
  lemma PageAll<T>(s: seq<T>, limit: nat)
    requires |s| <= limit
    ensures Page(s, 0, limit) == s
  {
  }

  /** Reading a page of `l1` and then the page right after it, of `l2`, gives
      the page of `l1 + l2`: paging through a table misses and repeats nothing. */
  lemma PagesConcatenate<T>(s: seq<T>, skip: nat, l1: nat, l2: nat)
    ensures Page(s, skip, l1) + Page(s, skip + l1, l2) == Page(s, skip, l1 + l2)
  {
    var r := Page(s, skip, l1) + Page(s, skip + l1, l2);
    var t := Page(s, skip, l1 + l2);
    assert |r| == |t|;
    forall k | 0 <= k < |r| ensures r[k] == t[k] {
      if k < |Page(s, skip, l1)| {
        assert r[k] == s[skip + k];
      } else {
        assert r[k] == Page(s, skip + l1, l2)[k - l1];
      }
    }
  }

  function Reverse<T>(s: seq<T>): (r: seq<T>)
    ensures |r| == |s|
    ensures forall k :: 0 <= k < |s| ==> r[k] == s[|s| - 1 - k]
  {
    if s == [] then [] else [s[|s| - 1]] + Reverse(s[..|s| - 1])
  }

  /** Ordered by `key`, largest first. */
  ghost predicate SortedDesc<T>(s: seq<T>, key: T -> int)
  {
    forall j, k :: 0 <= j < k < |s| ==> key(s[j]) >= key(s[k])
  }

  /** Inserts `x` in front of the first element whose key is not larger, so that
      `x` precedes the elements of `s` that tie with it. */
  function Insert<T>(x: T, s: seq<T>, key: T -> int): (r: seq<T>)
    requires SortedDesc(s, key)
    ensures SortedDesc(r, key)
    ensures multiset(r) == multiset(s) + multiset{x}
  {
    if s == [] then [x]
    else if key(x) >= key(s[0]) then [x] + s
    else
      var rest := Insert(x, s[1..], key);
      assert s == [s[0]] + s[1..];
      KeysBelowHead(x, s, rest, key);
      SortedCons(s[0], rest, key);
      [s[0]] + rest
  }

  /** The elements of `s[1..]` and an `x` keyed below `s[0]` are all keyed at
      most `key(s[0])`, in whatever order they come. */
  lemma KeysBelowHead<T>(x: T, s: seq<T>, rest: seq<T>, key: T -> int)
    requires SortedDesc(s, key) && s != [] && key(x) < key(s[0])
    requires multiset(rest) == multiset(s[1..]) + multiset{x}
    ensures forall k :: 0 <= k < |rest| ==> key(rest[k]) <= key(s[0])
  {
    forall k | 0 <= k < |rest| ensures key(rest[k]) <= key(s[0]) {
      assert rest[k] in multiset(rest);
      if rest[k] != x {
        assert rest[k] in multiset(s[1..]);
        var j :| 0 <= j < |s[1..]| && s[1..][j] == rest[k];
        assert s[j + 1] == rest[k];
      }
    }
  }

  /** A head keyed at least as large as a sorted tail keeps it sorted. */
  lemma SortedCons<T>(h: T, t: seq<T>, key: T -> int)
    requires SortedDesc(t, key)
    requires forall k :: 0 <= k < |t| ==> key(t[k]) <= key(h)
    ensures SortedDesc([h] + t, key)
  {
    var r := [h] + t;
    forall j, k | 0 <= j < k < |r| ensures key(r[j]) >= key(r[k]) {
      assert r[k] == t[k - 1];
      if j > 0 { assert r[j] == t[j - 1]; }
    }
  }

  /** A stable sort of `s` by `key`, largest key first: elements with equal keys
      keep their relative order, as `Array.prototype.sort` guarantees. */
  function SortDesc<T>(s: seq<T>, key: T -> int): (r: seq<T>)
    ensures SortedDesc(r, key)
    ensures multiset(r) == multiset(s)
  {
    if s == [] then []
    else
      assert s == [s[0]] + s[1..];
      Insert(s[0], SortDesc(s[1..], key), key)
  }

  /** Filtering a sequence with one element in front. */
  lemma {:induction false} FilterPrepend<T(!new)>(x: T, s: seq<T>, p: T -> bool)
    ensures Filter([x] + s, p) == (if p(x) then [x] else []) + Filter(s, p)
  {
    var head := if p(x) then [x] else [];
    if s == [] {
      assert [x] + s == [] + [x];
      FilterAppend([], x, p);
    } else {
      var init, last := s[..|s| - 1], s[|s| - 1];
      var tail := if p(last) then [last] else [];
      assert [x] + s == ([x] + init) + [last];
      assert s == init + [last];
      calc {
        Filter([x] + s, p);
        { FilterAppend([x] + init, last, p); }
        Filter([x] + init, p) + tail;
        { FilterPrepend(x, init, p); }
        head + Filter(init, p) + tail;
        { FilterAppend(init, last, p); }
        head + Filter(s, p);
      }
    }
  }

  /** The elements whose key is `v`. */
  function KeyIs<T(!new)>(key: T -> int, v: int): (p: T -> bool)
    ensures forall y :: p(y) <==> key(y) == v
  {
    (y: T) => key(y) == v
  }

  /** Two pieces of which one is empty may trade places. */
  lemma SwapOneEmpty<T>(a: seq<T>, b: seq<T>, f: seq<T>)
    requires a == [] || b == []
    ensures a + (b + f) == b + (a + f)
  {
    if a == [] {
      assert a + (b + f) == b + f == b + (a + f);
    } else {
      assert a + (b + f) == a + f == b + (a + f);
    }
  }

  /** `Insert` puts `x` in front of the elements that tie with it: among the
      elements of any one key, `x` comes first and the rest keep their order. */
  lemma {:induction false} InsertStable<T(!new)>(x: T, s: seq<T>, key: T -> int, v: int)
    requires SortedDesc(s, key)
    ensures Filter(Insert(x, s, key), KeyIs(key, v)) == (if key(x) == v then [x] else []) + Filter(s, KeyIs(key, v))
  {
    var p := KeyIs(key, v);
    if s == [] || key(x) >= key(s[0]) {
      FilterPrepend(x, s, p);
    } else {
      var rest := Insert(x, s[1..], key);
      var hx := if key(x) == v then [x] else [];
      var h0 := if key(s[0]) == v then [s[0]] else [];
      assert s == [s[0]] + s[1..];
      calc {
        Filter(Insert(x, s, key), p);
        Filter([s[0]] + rest, p);
        { FilterPrepend(s[0], rest, p); }
        h0 + Filter(rest, p);
        { InsertStable(x, s[1..], key, v); }
        h0 + (hx + Filter(s[1..], p));
        { SwapOneEmpty(h0, hx, Filter(s[1..], p)); }
        hx + (h0 + Filter(s[1..], p));
        { FilterPrepend(s[0], s[1..], p); }
        hx + Filter(s, p);
      }
    }
  }

  /** `SortDesc` is stable: the elements of any one key come out in the
      order they went in. */
  lemma {:induction false} SortDescStable<T(!new)>(s: seq<T>, key: T -> int, v: int)
    ensures Filter(SortDesc(s, key), KeyIs(key, v)) == Filter(s, KeyIs(key, v))
  {
    if s != [] {
      var p := KeyIs(key, v);
      var h0 := if key(s[0]) == v then [s[0]] else [];
      assert s == [s[0]] + s[1..];
      calc {
        Filter(SortDesc(s, key), p);
        Filter(Insert(s[0], SortDesc(s[1..], key), key), p);
        { InsertStable(s[0], SortDesc(s[1..], key), key, v); }
        h0 + Filter(SortDesc(s[1..], key), p);
        { SortDescStable(s[1..], key, v); }
        h0 + Filter(s[1..], p);
        { FilterPrepend(s[0], s[1..], p); }
        Filter(s, p);
      }
    }
  }

  /** In a sequence sorted by `key`, an element not among the first `n` is
      keyed no larger than any of them. */
  lemma BelowSortedPrefix<T>(s: seq<T>, n: nat, key: T -> int)
    requires SortedDesc(s, key) && n <= |s|
    ensures forall x :: x in s && x !in s[..n] ==> forall j :: 0 <= j < n ==> key(x) <= key(s[j])
  {
    forall x | x in s && x !in s[..n] ensures forall j :: 0 <= j < n ==> key(x) <= key(s[j]) {
      var k :| 0 <= k < |s| && s[k] == x;
      assert forall j :: 0 <= j < n ==> s[..n][j] == s[j];
    }
  }

  /** Position of the first occurrence of `x` in `s`. */
  function IndexOf<T(==)>(s: seq<T>, x: T): (i: nat)
    requires x in s
    ensures i < |s| && s[i] == x && x !in s[..i]
  {
    if s[0] == x then 0
    else
      assert s == [s[0]] + s[1..];
      var j := IndexOf(s[1..], x);
      assert s[..j + 1] == [s[0]] + s[1..][..j];
      j + 1
  }

  /** `s` without its first occurrence of `x` (Python `list.remove`), or `s`
      itself when `x` does not occur. */
  function RemoveFirst<T(==)>(s: seq<T>, x: T): (r: seq<T>)
    ensures x !in s ==> r == s
    ensures x in s ==> |r| == |s| - 1 && r == s[..IndexOf(s, x)] + s[IndexOf(s, x) + 1..]
    ensures multiset(r) == multiset(s) - multiset{x}
  {
    if x in s then
      var i := IndexOf(s, x);
      assert s == s[..i] + [x] + s[i + 1..];
      s[..i] + s[i + 1..]
    else s
  }

  /** Removing a value that was just appended, and occurred nowhere before,
      gives back the original sequence. */
  lemma RemoveFirstAfterAppend<T>(s: seq<T>, x: T)
    requires x !in s
    ensures RemoveFirst(s + [x], x) == s
  {
    var i := IndexOf(s + [x], x);
    assert i == |s|;
    assert (s + [x])[..|s|] == s;
  }
}
