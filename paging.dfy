/** The aggregation pipeline every listing handler runs:
    `$match` on a scope, `$sort` on one key in one direction,
    `$skip: (page - 1) * limit`, `$limit: limit`.
    The sort key is an abstract function to integers. `SortBy` fixes one
    order of records with equal keys, which the database does not promise;
    the tie-order section below says what holds whatever order it picks. */
module Paging {

  function Min(a: int, b: int): int { if a <= b then a else b }

  /** Whether `a` may come before `b` after sorting on `key`. */
  predicate InOrder<T>(key: T -> int, ascending: bool, a: T, b: T)
  {
    if ascending then key(a) <= key(b) else key(b) <= key(a)
  }

  predicate SortedBy<T>(s: seq<T>, key: T -> int, ascending: bool)
  {
    forall i, j :: 0 <= i < j < |s| ==> InOrder(key, ascending, s[i], s[j])
  }

  /** The `$match` stage: keeps, in order, exactly the records in scope. */
  function Match<T(!new)>(s: seq<T>, inScope: T -> bool): (r: seq<T>)
    ensures forall k :: 0 <= k < |r| ==> inScope(r[k])
    ensures forall x :: multiset(r)[x] == if inScope(x) then multiset(s)[x] else 0
    ensures multiset(r) <= multiset(s)
  {
    if s == [] then []
    else
      assert s == [s[0]] + s[1..];
      if inScope(s[0]) then [s[0]] + Match(s[1..], inScope) else Match(s[1..], inScope)
  }

  /** Inserts `x` into a sorted sequence, before the first record it may precede. */
  function Insert<T>(x: T, s: seq<T>, key: T -> int, ascending: bool): (r: seq<T>)
    requires SortedBy(s, key, ascending)
    ensures SortedBy(r, key, ascending)
    ensures multiset(r) == multiset(s) + multiset{x}
  {
    if s == [] || InOrder(key, ascending, x, s[0]) then
      ConsSorted(x, s, key, ascending);
      [x] + s
    else
      var t := Insert(x, s[1..], key, ascending);
      assert s == [s[0]] + s[1..];
      forall k | 0 <= k < |t| ensures InOrder(key, ascending, s[0], t[k]) {
        assert t[k] in multiset(t);
      }
      ConsSorted(s[0], t, key, ascending);
      [s[0]] + t
  }

  /** A record that may precede every record of a sorted sequence may head it. */
  lemma ConsSorted<T>(x: T, t: seq<T>, key: T -> int, ascending: bool)
    requires SortedBy(t, key, ascending)
    requires forall k :: 0 <= k < |t| ==> InOrder(key, ascending, x, t[k])
    ensures SortedBy([x] + t, key, ascending)
  {

  }

  /** The `$sort` stage: a sorted permutation of its input. */
  function SortBy<T>(s: seq<T>, key: T -> int, ascending: bool): (r: seq<T>)
    ensures SortedBy(r, key, ascending)
    ensures multiset(r) == multiset(s)
  {
    if s == [] then []
    else
      assert s == [s[0]] + s[1..];
      Insert(s[0], SortBy(s[1..], key, ascending), key, ascending)
  }

  /** The number of records `$skip` drops before page `page`. */
  function Offset(page: nat, limit: nat): nat
    requires page >= 1
  {
    (page - 1) * limit
  }

  /** The `$skip` and `$limit` stages: the records at positions `skip`
      onwards, at most `limit` of them. */
  function Window<T>(s: seq<T>, skip: nat, limit: nat): (r: seq<T>)
    ensures |r| == if |s| <= skip then 0 else Min(limit, |s| - skip)
    ensures forall k :: 0 <= k < |r| ==> r[k] == s[skip + k]
  {
    s[Min(skip, |s|)..Min(skip + limit, |s|)]
  }

  /** A page holds no record more often than its input does. */
  lemma WindowSubMultiset<T>(s: seq<T>, skip: nat, limit: nat)
    ensures multiset(Window(s, skip, limit)) <= multiset(s)
  {
    var lo := Min(skip, |s|);
    var hi := Min(skip + limit, |s|);
    assert s == s[..lo] + s[lo..hi] + s[hi..];
  }

  lemma WindowKeepsOrder<T>(s: seq<T>, skip: nat, limit: nat, key: T -> int, ascending: bool)
    requires SortedBy(s, key, ascending)
    ensures SortedBy(Window(s, skip, limit), key, ascending)
  {

  }

  /** The records in scope, sorted: what the `$match` and `$sort` stages pass on. */
  function Listing<T(!new)>(s: seq<T>, inScope: T -> bool, key: T -> int, ascending: bool): (m: seq<T>)
    ensures SortedBy(m, key, ascending)
    ensures forall k :: 0 <= k < |m| ==> inScope(m[k])
    ensures multiset(m) <= multiset(s)
    ensures forall x :: inScope(x) ==> multiset(m)[x] == multiset(s)[x]
  {
    var matched := Match(s, inScope);
    var m := SortBy(matched, key, ascending);
    forall k | 0 <= k < |m| ensures inScope(m[k]) {
      assert m[k] in multiset(m);
      assert m[k] in matched;
    }
    m
  }

  /** The whole pipeline for one page. Its result holds only records in
      scope, at most `limit` of them, in sorted order, each taken from the
      input; it is the block of the sorted scope that starts after
      `(page - 1) * limit` records. The order of records with equal keys is
      the one `SortBy` picks; ListingDetermined says when no other is
      possible. */
  function Paginate<T(!new)>(s: seq<T>, inScope: T -> bool, key: T -> int, ascending: bool,
                             page: nat, limit: nat): (r: seq<T>)
    requires page >= 1 && limit >= 1
    ensures |r| <= limit
    ensures forall k :: 0 <= k < |r| ==> inScope(r[k])
    ensures SortedBy(r, key, ascending)
    ensures multiset(r) <= multiset(s)
    ensures r == Window(Listing(s, inScope, key, ascending), Offset(page, limit), limit)
  {
    var m := Listing(s, inScope, key, ascending);
    var skip := Offset(page, limit);
    var r := Window(m, skip, limit);
    WindowKeepsOrder(m, skip, limit, key, ascending);
    WindowSubMultiset(m, skip, limit);
    WindowInScope(m, skip, limit, inScope);
    r
  }

  lemma WindowInScope<T>(s: seq<T>, skip: nat, limit: nat, inScope: T -> bool)
    requires forall k :: 0 <= k < |s| ==> inScope(s[k])
    ensures forall k :: 0 <= k < |Window(s, skip, limit)| ==> inScope(Window(s, skip, limit)[k])
  {

  }

  /** Pages 1 to `n` of one sequence, one after another, as a client that
      walks the listing sees them when every query orders it the same way. */
  function FirstPages<T>(s: seq<T>, limit: nat, n: nat): seq<T>
  {
    if n == 0 then [] else FirstPages(s, limit, n - 1) + Window(s, Offset(n, limit), limit)
  }

  /** Walking pages 1 to `n` of one sequence yields its first `n * limit`
      records with no record skipped or repeated. */
  lemma {:induction false} PagesTile<T>(s: seq<T>, limit: nat, n: nat)
    ensures FirstPages(s, limit, n) == s[..Min(n * limit, |s|)]
  {
    if n > 0 {
      PagesTile(s, limit, n - 1);
      var off := Offset(n, limit);
      assert off + limit == n * limit;
      var lo, hi := Min(off, |s|), Min(off + limit, |s|);
      assert FirstPages(s, limit, n) == s[..lo] + Window(s, off, limit);
      assert Window(s, off, limit) == s[lo..hi];
      SlicesJoin(s, lo, hi);
    }
  }

  lemma SlicesJoin<T>(s: seq<T>, lo: nat, hi: nat)
    requires lo <= hi <= |s|
    ensures s[..lo] + s[lo..hi] == s[..hi]
  {
  }

  // ------------------------------------------------------------ tie order

  /** No two different records of `s` share a key. */
  predicate UniqueKeys<T(==, !new)>(s: seq<T>, key: T -> int)
  {
    forall x, y :: x in s && y in s && key(x) == key(y) ==> x == y
  }

  /** Two sorted orders of the same records agree when no two different
      records share a key. */
  lemma {:induction false} SortedUnique<T(!new)>(a: seq<T>, b: seq<T>, key: T -> int, ascending: bool)
    requires SortedBy(a, key, ascending) && SortedBy(b, key, ascending)
    requires multiset(a) == multiset(b) && UniqueKeys(a, key)
    ensures a == b
  {
    if a == [] {
      assert |multiset(b)| == 0;
    } else {
      assert b != [] by { assert a[0] in multiset(b); }
      HeadsAgree(a, b, key, ascending);
      TailMultiset(a);
      TailMultiset(b);
      TailSorted(a, key, ascending);
      TailSorted(b, key, ascending);
      assert UniqueKeys(a[1..], key) by {
        forall x | x in a[1..] ensures x in a { }
      }
      SortedUnique(a[1..], b[1..], key, ascending);
      assert a == [a[0]] + a[1..] && b == [b[0]] + b[1..];
    }
  }

  /** Both sorted orders start with the same record. */
  lemma HeadsAgree<T(!new)>(a: seq<T>, b: seq<T>, key: T -> int, ascending: bool)
    requires a != [] && b != []
    requires SortedBy(a, key, ascending) && SortedBy(b, key, ascending)
    requires multiset(a) == multiset(b) && UniqueKeys(a, key)
    ensures a[0] == b[0]
  {
    assert a[0] in b by { assert a[0] in multiset(b); }
    assert b[0] in a by { assert b[0] in multiset(a); }
    var k :| 0 <= k < |b| && b[k] == a[0];
    var l :| 0 <= l < |a| && a[l] == b[0];
    if k > 0 { assert InOrder(key, ascending, b[0], b[k]); }
    if l > 0 { assert InOrder(key, ascending, a[0], a[l]); }
    assert key(a[0]) == key(b[0]);
  }

  lemma TailMultiset<T>(s: seq<T>)
    requires s != []
    ensures multiset(s[1..]) == multiset(s) - multiset{s[0]}
  {
    assert s == [s[0]] + s[1..];
  }

  lemma TailSorted<T>(s: seq<T>, key: T -> int, ascending: bool)
    requires s != [] && SortedBy(s, key, ascending)
    ensures SortedBy(s[1..], key, ascending)
  {
    var t := s[1..];
    forall i, j | 0 <= i < j < |t| ensures InOrder(key, ascending, t[i], t[j]) {
      assert t[i] == s[i + 1] && t[j] == s[j + 1];
    }
  }

  /** When no two different records in scope share a key, `$sort` has only
      one possible result: every sorted order of the matched records is the
      listing. */
  lemma ListingDetermined<T(!new)>(s: seq<T>, inScope: T -> bool, key: T -> int, ascending: bool, m: seq<T>)
    requires UniqueKeys(Match(s, inScope), key)
    requires SortedBy(m, key, ascending) && multiset(m) == multiset(Match(s, inScope))
    ensures m == Listing(s, inScope, key, ascending)
  {
    var matched := Match(s, inScope);
    var sorted := SortBy(matched, key, ascending);
    assert Listing(s, inScope, key, ascending) == sorted;
    assert UniqueKeys(sorted, key) by {
      forall x | x in sorted ensures x in matched {
        assert x in multiset(sorted);
      }
    }
    SortedUnique(sorted, m, key, ascending);
  }

  /** Page `p` of each of `orders`, for `p` from 1 to `|orders|`: what a
      client sees when every page is a separate query that may order ties
      its own way. */
  function PagesOf<T>(orders: seq<seq<T>>, limit: nat): seq<T>
  {
    if orders == [] then []
    else PagesOf(orders[..|orders| - 1], limit) + Window(orders[|orders| - 1], Offset(|orders|, limit), limit)
  }

  /** Pages fetched by separate queries tile the listing, with no record
      skipped or repeated, whenever no two different records in scope share
      a key, whichever sorted order each query used. */
  lemma {:induction false} SeparateQueriesTile<T(!new)>(s: seq<T>, inScope: T -> bool, key: T -> int,
                                                        ascending: bool, limit: nat, orders: seq<seq<T>>)
    requires UniqueKeys(Match(s, inScope), key)
    requires forall p :: 0 <= p < |orders| ==>
               SortedBy(orders[p], key, ascending) && multiset(orders[p]) == multiset(Match(s, inScope))
    ensures var m := Listing(s, inScope, key, ascending);
            PagesOf(orders, limit) == m[..Min(|orders| * limit, |m|)]
  {
    var m := Listing(s, inScope, key, ascending);
    forall p | 0 <= p < |orders| ensures orders[p] == m {
      ListingDetermined(s, inScope, key, ascending, orders[p]);
    }
    SameOrderPages(orders, m, limit);
    PagesTile(m, limit, |orders|);
  }

  /** Separate queries that all return `m` show the pages of `m`. */
  lemma {:induction false} SameOrderPages<T>(orders: seq<seq<T>>, m: seq<T>, limit: nat)
    requires forall p :: 0 <= p < |orders| ==> orders[p] == m
    ensures PagesOf(orders, limit) == FirstPages(m, limit, |orders|)
  {
    if orders != [] {
      var n := |orders|;
      var init := orders[..n - 1];
      assert forall p :: 0 <= p < |init| ==> init[p] == orders[p];
      SameOrderPages(init, m, limit);
    }
  }

  /** Without unique keys tiling can fail: with two records of equal key and
      a page size of one, two queries may order them differently, so the
      first record is shown twice and the second never. */
  lemma TiesMayRepeatRecords()
    ensures SortedBy([0, 1], (x: int) => 0, true) && SortedBy([1, 0], (x: int) => 0, true)
    ensures multiset([0, 1]) == multiset([1, 0])
    ensures PagesOf([[0, 1], [1, 0]], 1) == [0, 0]
  {
    assert [[0, 1], [1, 0]][..1] == [[0, 1]];
  }
}
