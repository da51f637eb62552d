/**
 * `BookMainExplorationReco`: a walk around the ring of random keys. It starts at a pseudo-random
 * key, takes the next unseen books in key order and wraps around when none is left ahead.
 */
module Exploration {
  import opened Sequences
  import opened Catalog
  import opened Pages

  const BY_KEY: (Book, Book) -> bool := (a: Book, b: Book) => a.randomKey < b.randomKey

  /** The available books a session may still be shown. */
  ghost function Remaining(catalog: set<Book>, excluded: set<int>): set<Book> {
    set b | b in catalog && b.available && b.id !in excluded
  }

  ghost function Ahead(catalog: set<Book>, excluded: set<int>, start: int): set<Book> {
    set b | b in Remaining(catalog, excluded) && b.randomKey > start
  }

  ghost function Behind(catalog: set<Book>, excluded: set<int>, start: int): set<Book> {
    set b | b in Remaining(catalog, excluded) && b.randomKey <= start
  }

  /** One page of the walk: what is ahead or, failing that, from the beginning of the ring. */
  ghost predicate IsStep(catalog: set<Book>, limit: nat, excluded: set<int>, start: int, rows: seq<Book>, next: int) {
    && (if Ahead(catalog, excluded, start) != {}
        then Answers(rows, Ahead(catalog, excluded, start), limit, BY_KEY)
        else Answers(rows, Remaining(catalog, excluded), limit, BY_KEY))
    && next == if rows == [] then start else rows[|rows| - 1].randomKey
  }

  /**
   * The `get` method. The two answers are what the database returns for the query ahead of the
   * start key and for the wrapped query; seedKey is the 63-bit key drawn from the session seed.
   */
  method Get(ghost catalog: set<Book>, limit: nat, lastKey: Option<int>, seedKey: int, excluded: seq<int>,
             ahead: seq<Book>, wrapped: seq<Book>)
      returns (ids: seq<int>, nextKey: int, ghost rows: seq<Book>)
    requires limit >= 1
    requires Answers(ahead, Ahead(catalog, Elements(excluded), if lastKey.Some? then lastKey.value else seedKey), limit, BY_KEY)
    requires Answers(wrapped, Remaining(catalog, Elements(excluded)), limit, BY_KEY)
    ensures ids == Ids(rows) && |ids| <= limit
    ensures IsStep(catalog, limit, Elements(excluded), if lastKey.Some? then lastKey.value else seedKey, rows, nextKey)
    ensures forall id :: id in ids ==> id !in excluded
  {
    var startKey := if lastKey.Some? then lastKey.value else seedKey;
    ShortAnswerIsTable(ahead, Ahead(catalog, Elements(excluded), startKey), limit, BY_KEY);
    var found := ahead;
    if found == [] {
      found := wrapped;
    } else {
      assert found[0] in Ahead(catalog, Elements(excluded), startKey);
    }
    rows := found;
    ids := Ids(found);
    nextKey := if found != [] then found[|found| - 1].randomKey else startKey;
    forall id | id in ids ensures id !in excluded {
      IdOf(found, id);
    }
  }

  // ---- progress of one step ----

  /** How many pages the walk still needs. */
  ghost function PagesLeft(catalog: set<Book>, limit: nat, excluded: set<int>, start: int): nat
    requires limit >= 1
  {
    CeilDiv(|Ahead(catalog, excluded, start)|, limit) + CeilDiv(|Behind(catalog, excluded, start)|, limit)
  }

  ghost predicate DistinctKeys(catalog: set<Book>) {
    forall a, b :: a in catalog && b in catalog && a.randomKey == b.randomKey ==> a == b
  }

  lemma SplitsAtStart(catalog: set<Book>, excluded: set<int>, start: int)
    ensures Remaining(catalog, excluded) == Ahead(catalog, excluded, start) + Behind(catalog, excluded, start)
    ensures |Remaining(catalog, excluded)| == |Ahead(catalog, excluded, start)| + |Behind(catalog, excluded, start)|
  {
    assert Ahead(catalog, excluded, start) !! Behind(catalog, excluded, start);
    assert Remaining(catalog, excluded) == Ahead(catalog, excluded, start) + Behind(catalog, excluded, start);
  }

  /** A page is empty only when nothing is left, and it holds only books that were left. */
  lemma StepIsNonEmpty(catalog: set<Book>, limit: nat, excluded: set<int>, start: int, rows: seq<Book>, next: int)
    requires limit >= 1 && IsStep(catalog, limit, excluded, start, rows, next)
    ensures rows == [] <==> Remaining(catalog, excluded) == {}
    ensures Distinct(rows) && Elements(rows) <= Remaining(catalog, excluded)
  {
    SplitsAtStart(catalog, excluded, start);
  }

  /** The queried part of the ring after a page: the returned books are gone, the rest lies ahead. */
  lemma AnswerIsInitialSegment(table: set<Book>, limit: nat, rows: seq<Book>)
    requires limit >= 1 && table != {} && Answers(rows, table, limit, BY_KEY)
    requires forall a, b :: a in table && b in table && a.randomKey == b.randomKey ==> a == b
    ensures rows != [] && |Elements(rows)| == Min(limit, |table|)
    ensures forall b :: b in table ==> (b.randomKey <= rows[|rows| - 1].randomKey <==> b in rows)
  {
    DistinctCount(rows);
    var last := rows[|rows| - 1];
    assert last in rows;
    forall b | b in table ensures b.randomKey <= last.randomKey <==> b in rows {
      if b in rows {
        var i :| 0 <= i < |rows| && rows[i] == b;
        assert i < |rows| - 1 ==> !BY_KEY(rows[|rows| - 1], rows[i]);
      } else {
        assert !BY_KEY(b, last);
      }
    }
  }

  /** What the walk queries next. */
  ghost function Queried(catalog: set<Book>, excluded: set<int>, start: int): set<Book> {
    if Ahead(catalog, excluded, start) != {} then Ahead(catalog, excluded, start) else Behind(catalog, excluded, start)
  }

  /** After a page, the rest of what was queried lies ahead; after wrapping, nothing lies behind. */
  lemma StepMoves(catalog: set<Book>, limit: nat, excluded: set<int>, start: int, rows: seq<Book>, next: int)
    requires limit >= 1 && DistinctKeys(catalog) && UniqueIds(catalog)
    requires IsStep(catalog, limit, excluded, start, rows, next)
    requires Remaining(catalog, excluded) != {}
    ensures var shown := excluded + Elements(Ids(rows));
            && Queried(catalog, excluded, start) != {}
            && Elements(rows) <= Queried(catalog, excluded, start)
            && |Elements(rows)| == Min(limit, |Queried(catalog, excluded, start)|)
            && Ahead(catalog, shown, next) == Queried(catalog, excluded, start) - Elements(rows)
            && Behind(catalog, shown, next)
               == (if Ahead(catalog, excluded, start) != {} then Behind(catalog, excluded, start) else {})
  {
    StepIsNonEmpty(catalog, limit, excluded, start, rows, next);
    SplitsAtStart(catalog, excluded, start);
    ShownBooks(catalog, excluded, rows);
    assert Ahead(catalog, excluded, start) == {} ==> Behind(catalog, excluded, start) == Remaining(catalog, excluded);
    AnswerIsInitialSegment(Queried(catalog, excluded, start), limit, rows);
    assert rows[|rows| - 1] in Queried(catalog, excluded, start);
  }

  /** With distinct keys every page of a non-empty remainder brings the walk one page closer to its end. */
  lemma StepProgress(catalog: set<Book>, limit: nat, excluded: set<int>, start: int, rows: seq<Book>, next: int)
    requires limit >= 1 && DistinctKeys(catalog) && UniqueIds(catalog)
    requires IsStep(catalog, limit, excluded, start, rows, next)
    requires Remaining(catalog, excluded) != {}
    ensures PagesLeft(catalog, limit, excluded + Elements(Ids(rows)), next) + 1 == PagesLeft(catalog, limit, excluded, start)
  {
    StepMoves(catalog, limit, excluded, start, rows, next);
    var queried := Queried(catalog, excluded, start);
    RemovedSize(queried, Elements(rows));
    NextPage(|queried|, limit);
  }

  lemma NextPage(n: nat, limit: nat)
    requires n > 0 && limit >= 1
    ensures CeilDiv(n, limit) == 1 + CeilDiv(n - Min(limit, n), limit)
  {
  }

  lemma RemovedSize(table: set<Book>, rows: set<Book>)
    requires rows <= table
    ensures |table - rows| == |table| - |rows|
    ensures table != {} ==> |table| > 0
  {
    assert table == (table - rows) + rows;
  }

  lemma ShownBooks(catalog: set<Book>, excluded: set<int>, rows: seq<Book>)
    requires UniqueIds(catalog) && Elements(rows) <= Remaining(catalog, excluded)
    ensures Remaining(catalog, excluded + Elements(Ids(rows))) == Remaining(catalog, excluded) - Elements(rows)
  {
    forall b | b in Remaining(catalog, excluded)
      ensures b.id in Ids(rows) <==> b in rows
    {
      IdOf(rows, b.id);
      if b.id in Ids(rows) {
        var a :| a in rows && a.id == b.id;
        assert a in Elements(rows);
      }
    }
  }

  lemma ExcludingMoreIsFaster(catalog: set<Book>, limit: nat, excluded: set<int>, more: set<int>, start: int)
    requires limit >= 1 && excluded <= more
    ensures Remaining(catalog, more) <= Remaining(catalog, excluded)
    ensures PagesLeft(catalog, limit, more, start) <= PagesLeft(catalog, limit, excluded, start)
  {
    SubsetSize(Ahead(catalog, more, start), Ahead(catalog, excluded, start));
    SubsetSize(Behind(catalog, more, start), Behind(catalog, excluded, start));
    CeilDivMonotone(|Ahead(catalog, more, start)|, |Ahead(catalog, excluded, start)|, limit);
    CeilDivMonotone(|Behind(catalog, more, start)|, |Behind(catalog, excluded, start)|, limit);
  }

  lemma PagesLeftBounds(catalog: set<Book>, limit: nat, excluded: set<int>, start: int)
    requires limit >= 1
    ensures PagesLeft(catalog, limit, excluded, start) <= CeilDiv(|Remaining(catalog, excluded)|, limit) + 1
    ensures PagesLeft(catalog, limit, excluded, start) == 0 ==> Remaining(catalog, excluded) == {}
  {
    SplitsAtStart(catalog, excluded, start);
    CeilDivSplit(|Ahead(catalog, excluded, start)|, |Behind(catalog, excluded, start)|, limit);
  }

  // ---- whole walks ----

  /**
   * A walk over a fixed catalogue: page k is a step from keys[k], and exclusions only grow, by at
   * least the books just returned.
   */
  ghost predicate IsWalk(catalog: set<Book>, limit: nat, keys: seq<int>, excluded: seq<set<int>>,
          pages: seq<seq<Book>>) {
    && |keys| == |excluded| == |pages| + 1
    && forall k :: 0 <= k < |pages| ==>
         && IsStep(catalog, limit, excluded[k], keys[k], pages[k], keys[k + 1])
         && excluded[k] + Elements(Ids(pages[k])) <= excluded[k + 1]
  }

  lemma {:induction false} ExclusionsGrow(catalog: set<Book>, limit: nat, keys: seq<int>, excluded: seq<set<int>>,
          pages: seq<seq<Book>>, i: nat, j: nat)
    requires IsWalk(catalog, limit, keys, excluded, pages) && i <= j < |excluded|
    ensures excluded[i] <= excluded[j]
    ensures i < j ==> Elements(Ids(pages[i])) <= excluded[j]
    decreases j - i
  {
    if i < j {
      ExclusionsGrow(catalog, limit, keys, excluded, pages, i + 1, j);
    }
  }

  /** Over any walk, even with equal keys: no book twice, and no empty page while books are left. */
  lemma WalkNeverRepeats(catalog: set<Book>, limit: nat, keys: seq<int>, excluded: seq<set<int>>, pages: seq<seq<Book>>)
    requires limit >= 1 && UniqueIds(catalog) && IsWalk(catalog, limit, keys, excluded, pages)
    ensures forall k :: 0 <= k < |pages| ==> Distinct(Ids(pages[k]))
    ensures forall i, j :: 0 <= i < j < |pages| ==> Elements(Ids(pages[i])) !! Elements(Ids(pages[j]))
    ensures forall k :: 0 <= k < |pages| ==> (pages[k] == [] <==> Remaining(catalog, excluded[k]) == {})
  {
    forall k | 0 <= k < |pages|
      ensures Distinct(Ids(pages[k])) && Elements(Ids(pages[k])) !! excluded[k]
      ensures pages[k] == [] <==> Remaining(catalog, excluded[k]) == {}
    {
      StepIsNonEmpty(catalog, limit, excluded[k], keys[k], pages[k], keys[k + 1]);
      DistinctBookIds(pages[k], catalog);
      forall id | id in Ids(pages[k]) ensures id !in excluded[k] {
        IdOf(pages[k], id);
      }
    }
    forall i, j | 0 <= i < j < |pages| ensures Elements(Ids(pages[i])) !! Elements(Ids(pages[j])) {
      ExclusionsGrow(catalog, limit, keys, excluded, pages, i, j);
    }
  }

  lemma {:induction false} WalkCountsDown(catalog: set<Book>, limit: nat, keys: seq<int>, excluded: seq<set<int>>,
          pages: seq<seq<Book>>, k: nat)
    requires limit >= 1 && DistinctKeys(catalog) && UniqueIds(catalog)
    requires IsWalk(catalog, limit, keys, excluded, pages) && k <= |pages|
    ensures Remaining(catalog, excluded[k]) == {}
            || PagesLeft(catalog, limit, excluded[k], keys[k]) + k <= PagesLeft(catalog, limit, excluded[0], keys[0])
  {
    if k > 0 {
      WalkCountsDown(catalog, limit, keys, excluded, pages, k - 1);
      var shown := excluded[k - 1] + Elements(Ids(pages[k - 1]));
      assert IsStep(catalog, limit, excluded[k - 1], keys[k - 1], pages[k - 1], keys[k - 1 + 1]) && shown <= excluded[k - 1 + 1];
      ExcludingMoreIsFaster(catalog, limit, excluded[k - 1], excluded[k], keys[k]);
      ExcludingMoreIsFaster(catalog, limit, shown, excluded[k], keys[k]);
      if Remaining(catalog, excluded[k - 1]) != {} {
        StepProgress(catalog, limit, excluded[k - 1], keys[k - 1], pages[k - 1], keys[k]);
      }
    }
  }

  /**
   * With distinct keys, after ceil(N / limit) + 1 pages nothing is left of the N books unseen at
   * the start, wherever on the ring the walk began.
   */
  lemma WalkCompletes(catalog: set<Book>, limit: nat, keys: seq<int>, excluded: seq<set<int>>, pages: seq<seq<Book>>)
    requires limit >= 1 && DistinctKeys(catalog) && UniqueIds(catalog)
    requires IsWalk(catalog, limit, keys, excluded, pages)
    requires |pages| >= CeilDiv(|Remaining(catalog, excluded[0])|, limit) + 1
    ensures Remaining(catalog, excluded[|pages|]) == {}
  {
    var n := |pages|;
    WalkCountsDown(catalog, limit, keys, excluded, pages, n);
    PagesLeftBounds(catalog, limit, excluded[0], keys[0]);
    PagesLeftBounds(catalog, limit, excluded[n], keys[n]);
  }

  /** If nothing but the returned books is excluded on the way, the pages hold all N books. */
  lemma {:induction false} WalkReturnsAll(catalog: set<Book>, limit: nat, keys: seq<int>, excluded: seq<set<int>>,
          pages: seq<seq<Book>>, b: Book, k: nat)
    requires limit >= 1 && UniqueIds(catalog) && IsWalk(catalog, limit, keys, excluded, pages) && k <= |pages|
    requires forall i :: 0 <= i < |pages| ==> excluded[i + 1] == excluded[i] + Elements(Ids(pages[i]))
    requires b in Remaining(catalog, excluded[0]) && b !in Remaining(catalog, excluded[k])
    ensures exists i :: 0 <= i < k && b in pages[i]
  {
    if b !in Remaining(catalog, excluded[k - 1]) {
      WalkReturnsAll(catalog, limit, keys, excluded, pages, b, k - 1);
    } else {
      assert excluded[k - 1 + 1] == excluded[k - 1] + Elements(Ids(pages[k - 1]));
      IdOf(pages[k - 1], b.id);
      var a :| a in pages[k - 1] && a.id == b.id;
      StepIsNonEmpty(catalog, limit, excluded[k - 1], keys[k - 1], pages[k - 1], keys[k]);
      assert a in Elements(pages[k - 1]);
    }
  }

  /** Together: every book unseen at the start is on one of the first ceil(N / limit) + 1 pages. */
  lemma WalkShowsEveryBook(catalog: set<Book>, limit: nat, keys: seq<int>, excluded: seq<set<int>>,
          pages: seq<seq<Book>>)
    requires limit >= 1 && DistinctKeys(catalog) && UniqueIds(catalog)
    requires IsWalk(catalog, limit, keys, excluded, pages)
    requires forall i :: 0 <= i < |pages| ==> excluded[i + 1] == excluded[i] + Elements(Ids(pages[i]))
    requires |pages| >= CeilDiv(|Remaining(catalog, excluded[0])|, limit) + 1
    ensures forall b :: b in Remaining(catalog, excluded[0]) ==> exists i :: 0 <= i < |pages| && b in pages[i]
  {
    WalkCompletes(catalog, limit, keys, excluded, pages);
    forall b | b in Remaining(catalog, excluded[0]) ensures exists i :: 0 <= i < |pages| && b in pages[i] {
      WalkReturnsAll(catalog, limit, keys, excluded, pages, b, |pages|);
    }
  }
}
