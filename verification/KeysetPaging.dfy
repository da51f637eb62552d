/**
 * Keyset pagination: a page is the first `limit` rows past the cursor, and the cursor for the next
 * page is the key of the last row. One more row than the limit is read to see whether there is more.
 */
module KeysetPaging {
  import opened Sequences
  import opened Pages

  /** What `ORDER BY` sorts by, and whether Python takes a cursor value for a given one (`if cursor:`). */
  datatype Order<!R, !K> = Order(key: R -> K, before: (K, K) -> bool, truthy: K -> bool)

  datatype Page<R, K> = Page(items: seq<R>, next: Option<K>, hasMore: bool)

  ghost predicate Asymmetric<K(!new)>(before: (K, K) -> bool) {
    forall a, b :: before(a, b) ==> !before(b, a)
  }

  /** The rows in the order of the query, no two with the same key. */
  ghost predicate Ordered<R, K>(o: Order<R, K>, rows: seq<R>) {
    forall i, j :: 0 <= i < j < |rows| ==> o.before(o.key(rows[i]), o.key(rows[j]))
  }

  /** `WHERE key is past the cursor`, on rows that come ordered. */
  function Past<R, K>(o: Order<R, K>, rows: seq<R>, cursor: Option<K>): seq<R> {
    if cursor.None? || rows == [] then rows
    else if o.before(cursor.value, o.key(rows[0])) then [rows[0]] + Past(o, rows[1..], cursor)
    else Past(o, rows[1..], cursor)
  }

  function Given<R, K>(o: Order<R, K>, cursor: Option<K>): Option<K> {
    if cursor.Some? && o.truthy(cursor.value) then cursor else None
  }

  /** The body shared by `paginate`, `paginate_new`, `paginate_by_score` and `random_paginate`. */
  function GetPage<R, K>(o: Order<R, K>, rows: seq<R>, limit: nat, cursor: Option<K>): Page<R, K>
    requires limit >= 1
  {
    var past := Past(o, rows, Given(o, cursor));
    var read := past[..Min(limit + 1, |past|)];
    var items := read[..Min(limit, |read|)];
    var hasMore := |read| > limit;
    Page(items, if hasMore then Some(o.key(items[|items| - 1])) else None, hasMore)
  }

  // ---- fixed data: the k-th page is the k-th slice ----

  /** Rows before the k-th page. */
  function Start(k: nat, limit: nat): nat {
    if k == 0 then 0 else Start(k - 1, limit) + limit
  }

  /** Following `next_cursor` k times; None when a page before had no next one. */
  ghost function Visit<R, K>(o: Order<R, K>, rows: seq<R>, limit: nat, k: nat): Option<Page<R, K>>
    requires limit >= 1
  {
    if k == 0 then Some(GetPage(o, rows, limit, None))
    else
      var previous := Visit(o, rows, limit, k - 1);
      if previous.None? || previous.value.next.None? then None
      else Some(GetPage(o, rows, limit, previous.value.next))
  }

  /** The page an offset of `from` rows would give. */
  ghost function SliceAt<R, K>(o: Order<R, K>, rows: seq<R>, limit: nat, from: nat): Page<R, K>
    requires limit >= 1 && from <= |rows|
  {
    var upTo := Min(from + limit, |rows|);
    var hasMore := from + limit < |rows|;
    Page(rows[from..upTo], if hasMore then Some(o.key(rows[upTo - 1])) else None, hasMore)
  }

  /** The k-th page of the plain list; only the first may be empty. */
  ghost function Slice<R, K>(o: Order<R, K>, rows: seq<R>, limit: nat, k: nat): Option<Page<R, K>>
    requires limit >= 1
  {
    if k == 0 || Start(k, limit) < |rows| then Some(SliceAt(o, rows, limit, Start(k, limit))) else None
  }

  lemma {:induction false} PastOfKey<R, K(!new)>(o: Order<R, K>, rows: seq<R>, i: nat)
    requires Asymmetric(o.before) && Ordered(o, rows) && i < |rows|
    ensures Past(o, rows, Some(o.key(rows[i]))) == rows[i + 1..]
  {
    var c := Some(o.key(rows[i]));
    if i == 0 {
      assert !o.before(c.value, o.key(rows[0]));
      AllPast(o, rows[1..], c);
    } else {
      assert o.before(o.key(rows[0]), c.value);
      assert !o.before(c.value, o.key(rows[0]));
      assert rows[1..][i - 1] == rows[i];
      PastOfKey(o, rows[1..], i - 1);
    }
  }

  lemma {:induction false} AllPast<R, K>(o: Order<R, K>, rows: seq<R>, c: Option<K>)
    requires c.Some? && forall r :: r in rows ==> o.before(c.value, o.key(r))
    ensures Past(o, rows, c) == rows
  {
    if rows != [] {
      assert rows[0] in rows;
      AllPast(o, rows[1..], c);
    }
  }

  lemma PageAfter<R, K(!new)>(o: Order<R, K>, rows: seq<R>, limit: nat, i: nat)
    requires Asymmetric(o.before) && Ordered(o, rows) && limit >= 1 && i < |rows| && o.truthy(o.key(rows[i]))
    ensures GetPage(o, rows, limit, Some(o.key(rows[i]))) == SliceAt(o, rows, limit, i + 1)
  {
    PastOfKey(o, rows, i);
  }

  /** The k-th step of the walk shows the k-th page of the plain list. */
  ghost predicate ShowsSlice<R, K>(o: Order<R, K>, rows: seq<R>, limit: nat, k: nat)
    requires limit >= 1
  {
    Visit(o, rows, limit, k) == Slice(o, rows, limit, k)
  }

  lemma FirstPage<R, K>(o: Order<R, K>, rows: seq<R>, limit: nat)
    requires limit >= 1
    ensures ShowsSlice(o, rows, limit, 0)
  {
    var read := rows[..Min(limit + 1, |rows|)];
    assert read[..Min(limit, |read|)] == rows[0..Min(limit, |rows|)];
  }

  /** The k-th page is full and another one follows. */
  ghost predicate IsBoundary(k: nat, limit: nat, n: nat)
    ensures IsBoundary(k, limit, n) ==> k >= 1 && 0 < Start(k, limit) < n
  {
    k >= 1 && limit >= 1 && Start(k, limit) < n
  }

  /** Every key a full page ends with counts as a given cursor. */
  ghost predicate BoundariesGiven<R, K>(o: Order<R, K>, rows: seq<R>, limit: nat) {
    forall k: nat :: IsBoundary(k, limit, |rows|) ==> o.truthy(o.key(rows[Start(k, limit) - 1]))
  }

  lemma VisitEnds<R, K>(o: Order<R, K>, rows: seq<R>, limit: nat, k: nat)
    requires limit >= 1 && k >= 1 && Start(k, limit) >= |rows|
    requires ShowsSlice(o, rows, limit, k - 1)
    ensures Visit(o, rows, limit, k) == None
  {
  }

  lemma SliceNext<R, K>(o: Order<R, K>, rows: seq<R>, limit: nat, k: nat)
    requires IsBoundary(k, limit, |rows|)
    ensures Slice(o, rows, limit, k - 1).Some?
    ensures Slice(o, rows, limit, k - 1).value.next == Some(o.key(rows[Start(k, limit) - 1]))
  {
    assert Start(k, limit) == Start(k - 1, limit) + limit;
  }

  lemma VisitContinues<R, K>(o: Order<R, K>, rows: seq<R>, limit: nat, k: nat)
    requires IsBoundary(k, limit, |rows|) && ShowsSlice(o, rows, limit, k - 1)
    ensures Visit(o, rows, limit, k) == Some(GetPage(o, rows, limit, Some(o.key(rows[Start(k, limit) - 1]))))
  {
    SliceNext(o, rows, limit, k);
  }

  lemma {:induction false} VisitIsSlice<R, K(!new)>(o: Order<R, K>, rows: seq<R>, limit: nat, k: nat)
    requires Asymmetric(o.before) && Ordered(o, rows) && limit >= 1 && BoundariesGiven(o, rows, limit)
    ensures ShowsSlice(o, rows, limit, k)
  {
    if k == 0 {
      FirstPage(o, rows, limit);
    } else {
      VisitIsSlice(o, rows, limit, k - 1);
      if IsBoundary(k, limit, |rows|) {
        VisitContinues(o, rows, limit, k);
        PageAfter(o, rows, limit, Start(k, limit) - 1);
      } else {
        VisitEnds(o, rows, limit, k);
      }
    }
  }

  /**
   * Following the cursor gives exactly the pages of the plain list, for every page, if and only if no
   * full page with a successor ends in a key that Python takes for "no cursor".
   */
  lemma PagingRefinesSlicing<R, K(!new)>(o: Order<R, K>, rows: seq<R>, limit: nat)
    requires Asymmetric(o.before) && Ordered(o, rows) && limit >= 1
    ensures (forall k: nat :: ShowsSlice(o, rows, limit, k)) <==> BoundariesGiven(o, rows, limit)
  {
    if BoundariesGiven(o, rows, limit) {
      forall k: nat ensures ShowsSlice(o, rows, limit, k) {
        VisitIsSlice(o, rows, limit, k);
      }
    } else {
      var k: nat :| IsBoundary(k, limit, |rows|) && !o.truthy(o.key(rows[Start(k, limit) - 1]));
      StartsOver(o, rows, limit, k);
      assert !(ShowsSlice(o, rows, limit, k - 1) && ShowsSlice(o, rows, limit, k));
    }
  }

  /** Past a key taken for "no cursor" the walk shows the first page again, which is not the k-th. */
  lemma StartsOver<R, K(!new)>(o: Order<R, K>, rows: seq<R>, limit: nat, k: nat)
    requires Asymmetric(o.before) && Ordered(o, rows) && IsBoundary(k, limit, |rows|)
    requires !o.truthy(o.key(rows[Start(k, limit) - 1]))
    ensures ShowsSlice(o, rows, limit, k - 1) ==>
              Visit(o, rows, limit, k) == Visit(o, rows, limit, 0) && !ShowsSlice(o, rows, limit, k)
  {
    if ShowsSlice(o, rows, limit, k - 1) {
      VisitContinues(o, rows, limit, k);
      FirstPage(o, rows, limit);
      FirstIsNotLater(o, rows, limit, Start(k, limit));
    }
  }

  lemma FirstIsNotLater<R, K(!new)>(o: Order<R, K>, rows: seq<R>, limit: nat, from: nat)
    requires Asymmetric(o.before) && Ordered(o, rows) && limit >= 1 && 0 < from < |rows|
    ensures SliceAt(o, rows, limit, 0) != SliceAt(o, rows, limit, from)
  {
    assert SliceAt(o, rows, limit, 0).items[0] == rows[0];
    assert SliceAt(o, rows, limit, from).items[0] == rows[from];
    assert o.before(o.key(rows[0]), o.key(rows[from]));
  }

  /** How many pages there are, an empty list still being one page. */
  function PageCount(n: nat, limit: nat): (r: nat)
    requires limit >= 1
    ensures r >= 1
  {
    if n == 0 then 1 else CeilDiv(n, limit)
  }

  ghost function Walk<R, K>(o: Order<R, K>, rows: seq<R>, limit: nat): seq<seq<R>>
    requires limit >= 1
  {
    seq(PageCount(|rows|, limit), k requires 0 <= k < PageCount(|rows|, limit) =>
      if Visit(o, rows, limit, k).Some? then Visit(o, rows, limit, k).value.items else [])
  }

  lemma {:induction false} PageStarts(n: nat, limit: nat, k: nat)
    requires limit >= 1
    ensures k < CeilDiv(n, limit) <==> Start(k, limit) < n
  {
    if n > 0 && k > 0 {
      PageStarts(n - Min(limit, n), limit, k - 1);
    }
  }

  lemma {:induction false} FlattenSlices<R>(pages: seq<seq<R>>, rows: seq<R>, limit: nat)
    requires forall k: nat :: k < |pages| ==> IsSliceOf(pages[k], rows, limit, k)
    ensures Flatten(pages) == rows[..Min(Start(|pages|, limit), |rows|)]
  {
    if pages != [] {
      var n := |pages| - 1;
      FlattenSlices(pages[..n], rows, limit);
      NextSlice(pages[n], rows, limit, n);
    }
  }

  lemma NextSlice<R>(page: seq<R>, rows: seq<R>, limit: nat, k: nat)
    requires IsSliceOf(page, rows, limit, k)
    ensures rows[..Min(Start(k, limit), |rows|)] + page == rows[..Min(Start(k + 1, limit), |rows|)]
  {
  }

  ghost predicate IsSliceOf<R>(page: seq<R>, rows: seq<R>, limit: nat, k: nat) {
    var from, upTo := Min(Start(k, limit), |rows|), Min(Start(k + 1, limit), |rows|);
    page == rows[from..upTo]
  }

  lemma PageOfWalk<R, K(!new)>(o: Order<R, K>, rows: seq<R>, limit: nat, k: nat)
    requires Asymmetric(o.before) && Ordered(o, rows) && limit >= 1 && BoundariesGiven(o, rows, limit)
    ensures Visit(o, rows, limit, k).Some? <==> k < PageCount(|rows|, limit)
    ensures k < PageCount(|rows|, limit) ==> IsSliceOf(Walk(o, rows, limit)[k], rows, limit, k)
  {
    VisitIsSlice(o, rows, limit, k);
    PageStarts(|rows|, limit, k);
  }

  /** The walk has exactly n pages. */
  ghost predicate EndsAfter<R, K>(o: Order<R, K>, rows: seq<R>, limit: nat, n: nat)
    requires limit >= 1 && n >= 1
  {
    Visit(o, rows, limit, n - 1).Some? && Visit(o, rows, limit, n).None?
  }

  /**
   * Following the cursor to the end concatenates to the whole list, without skip or repeat, in
   * ceil(n / limit) pages.
   */
  lemma WalkIsListing<R, K(!new)>(o: Order<R, K>, rows: seq<R>, limit: nat)
    requires Asymmetric(o.before) && Ordered(o, rows) && limit >= 1 && BoundariesGiven(o, rows, limit)
    ensures Flatten(Walk(o, rows, limit)) == rows
    ensures EndsAfter(o, rows, limit, PageCount(|rows|, limit))
  {
    var n := PageCount(|rows|, limit);
    var pages := Walk(o, rows, limit);
    forall k: nat | k < n ensures IsSliceOf(pages[k], rows, limit, k) {
      PageOfWalk(o, rows, limit, k);
    }
    FlattenSlices(pages, rows, limit);
    PageStarts(|rows|, limit, n);
    PageOfWalk(o, rows, limit, n - 1);
    PageOfWalk(o, rows, limit, n);
  }

  // ---- changing data ----

  ghost predicate StrictOrder<K(!new)>(before: (K, K) -> bool) {
    && Asymmetric(before)
    && (forall a, b, c :: before(a, b) && before(b, c) ==> before(a, c))
    && (forall a, b :: a == b || before(a, b) || before(b, a))
  }

  /** One walk while rows come and go: the pages seen, each read from the table as it then was. */
  ghost predicate IsLiveWalk<R, K>(o: Order<R, K>, tables: seq<seq<R>>, limit: nat, pages: seq<Page<R, K>>)
    requires limit >= 1
  {
    && |pages| == |tables| >= 1
    && forall k :: 0 <= k < |pages| ==> IsLivePage(o, tables, limit, pages, k)
  }

  ghost predicate IsLivePage<R, K>(o: Order<R, K>, tables: seq<seq<R>>, limit: nat, pages: seq<Page<R, K>>, k: nat)
    requires limit >= 1 && k < |pages| == |tables|
  {
    && Ordered(o, tables[k])
    && (k > 0 ==> pages[k - 1].next.Some? && o.truthy(pages[k - 1].next.value))
    && pages[k] == GetPage(o, tables[k], limit, if k == 0 then None else pages[k - 1].next)
  }

  lemma {:induction false} PastMember<R, K>(o: Order<R, K>, rows: seq<R>, cursor: Option<K>, r: R)
    ensures r in Past(o, rows, cursor) <==> r in rows && (cursor.None? || o.before(cursor.value, o.key(r)))
  {
    if cursor.Some? && rows != [] {
      PastMember(o, rows[1..], cursor, r);
      assert r in rows <==> r == rows[0] || r in rows[1..];
    }
  }

  lemma {:induction false} PastOrdered<R, K>(o: Order<R, K>, rows: seq<R>, cursor: Option<K>)
    requires Ordered(o, rows)
    ensures Ordered(o, Past(o, rows, cursor))
  {
    if cursor.Some? && rows != [] {
      PastOrdered(o, rows[1..], cursor);
      var rest := Past(o, rows[1..], cursor);
      forall j | 0 <= j < |rest| ensures o.before(o.key(rows[0]), o.key(rest[j])) {
        PastMember(o, rows[1..], cursor, rest[j]);
        var i :| 0 <= i < |rows[1..]| && rows[1..][i] == rest[j];
        assert rows[i + 1] == rest[j];
      }
    }
  }

  ghost predicate IsPast<R, K>(o: Order<R, K>, cursor: Option<K>, r: R) {
    cursor.Some? ==> o.before(cursor.value, o.key(r))
  }

  /** The row lies at or before the cursor. */
  ghost predicate UpTo<R, K>(o: Order<R, K>, r: R, cursor: Option<K>) {
    cursor.Some? ==> o.key(r) == cursor.value || o.before(o.key(r), cursor.value)
  }

  /** A page shows rows past its cursor and up to its own next one, and misses nothing in between. */
  lemma LivePage<R, K>(o: Order<R, K>, rows: seq<R>, limit: nat, cursor: Option<K>, r: R)
    requires Ordered(o, rows) && limit >= 1 && (cursor.Some? ==> o.truthy(cursor.value))
    ensures var page := GetPage(o, rows, limit, cursor);
            && (r in page.items ==> r in rows && IsPast(o, cursor, r) && UpTo(o, r, page.next))
            && (r in rows && IsPast(o, cursor, r) && r !in page.items ==> page.next.Some? && IsPast(o, page.next, r))
            && (page.next.Some? ==> page.items != [] && page.next.value == o.key(page.items[|page.items| - 1]))
  {
    var past := Past(o, rows, cursor);
    var page := GetPage(o, rows, limit, cursor);
    PastMember(o, rows, cursor, r);
    PastOrdered(o, rows, cursor);
    assert page.items == past[..|page.items|];
    if r in page.items {
      var i :| 0 <= i < |page.items| && page.items[i] == r;
      assert past[i] == r && r in past;
    } else if r in past {
      var i :| 0 <= i < |past| && past[i] == r;
      forall k | 0 <= k < |page.items| ensures past[k] != r {
        assert page.items[k] == past[k];
      }
    }
  }

  lemma LivePageAt<R, K>(o: Order<R, K>, tables: seq<seq<R>>, limit: nat, pages: seq<Page<R, K>>, k: nat)
    requires limit >= 1 && IsLiveWalk(o, tables, limit, pages) && k < |pages|
    ensures IsLivePage(o, tables, limit, pages, k)
  {
  }

  /** Every row of a later page comes after the cursor of an earlier one. */
  lemma {:induction false} LaterIsPast<R, K(!new)>(o: Order<R, K>, tables: seq<seq<R>>, limit: nat,
          pages: seq<Page<R, K>>, i: nat, j: nat, r: R)
    requires limit >= 1 && StrictOrder(o.before) && IsLiveWalk(o, tables, limit, pages)
    requires i < j < |pages| && r in pages[j].items
    ensures pages[i].next.Some? && IsPast(o, pages[i].next, r)
  {
    LivePageAt(o, tables, limit, pages, j);
    LivePage(o, tables[j], limit, pages[j - 1].next, r);
    if i < j - 1 {
      LivePageAt(o, tables, limit, pages, j - 1);
      LivePage(o, tables[j - 1], limit, pages[j - 2].next, r);
      var last := pages[j - 1].items[|pages[j - 1].items| - 1];
      LaterIsPast(o, tables, limit, pages, i, j - 1, last);
    }
  }

  /** Whatever is inserted or deleted meanwhile, no row is shown on two pages. */
  lemma NothingShownTwice<R, K(!new)>(o: Order<R, K>, tables: seq<seq<R>>, limit: nat, pages: seq<Page<R, K>>,
          i: nat, j: nat, r: R)
    requires limit >= 1 && StrictOrder(o.before) && IsLiveWalk(o, tables, limit, pages)
    requires i < j < |pages| && r in pages[i].items
    ensures r !in pages[j].items
  {
    if r in pages[j].items {
      LaterIsPast(o, tables, limit, pages, i, j, r);
      LivePageAt(o, tables, limit, pages, i);
      LivePage(o, tables[i], limit, if i == 0 then None else pages[i - 1].next, r);
    }
  }

  ghost predicate ShownBy<R, K>(pages: seq<Page<R, K>>, n: nat, r: R) {
    exists k :: 0 <= k < n && k < |pages| && r in pages[k].items
  }

  lemma {:induction false} ShownOrAhead<R, K>(o: Order<R, K>, tables: seq<seq<R>>, limit: nat, pages: seq<Page<R,
          K>>, n: nat, r: R)
    requires limit >= 1 && IsLiveWalk(o, tables, limit, pages) && 1 <= n <= |pages|
    requires forall k :: 0 <= k < n ==> r in tables[k]
    ensures ShownBy(pages, n, r) || (pages[n - 1].next.Some? && IsPast(o, pages[n - 1].next, r))
  {
    LivePageAt(o, tables, limit, pages, n - 1);
    var cursor := if n == 1 then None else pages[n - 2].next;
    LivePage(o, tables[n - 1], limit, cursor, r);
    if n > 1 {
      ShownOrAhead(o, tables, limit, pages, n - 1, r);
    }
  }

  /** A row that is in the table for the whole of a finished walk is shown. */
  lemma LastingRowIsShown<R, K>(o: Order<R, K>, tables: seq<seq<R>>, limit: nat, pages: seq<Page<R, K>>, r: R)
    requires limit >= 1 && IsLiveWalk(o, tables, limit, pages)
    requires pages[|pages| - 1].next.None? && forall k :: 0 <= k < |tables| ==> r in tables[k]
    ensures ShownBy(pages, |pages|, r)
  {
    ShownOrAhead(o, tables, limit, pages, |pages|, r);
  }
}
