/**
 * Whether the popular cursor keeps pages apart by itself. The cursor is the lowest score shown with
 * the highest id that has it, so of several books shown at that score all but one lie past it.
 */
module PopularTies {
  import opened Sequences
  import opened Catalog
  import opened PopularBooks
  import WeightedSample

  // ---- what a page is drawn from, in terms of the catalogue ----

  ghost function Preceding(table: set<Book>, b: Book): set<Book> {
    set c | c in table && Before(Position(c), Position(b))
  }

  /** The books a page can show: among the first limit * 10 past the cursor, and not excluded. */
  ghost function Fresh(catalog: set<Book>, after: Option<Cursor>, limit: nat, excluded: seq<int>): set<Book> {
    set b | b in Eligible(catalog, after) && b.id !in excluded
            && |Preceding(Eligible(catalog, after), b)| < limit * WIDE_MULTIPLIER
  }

  lemma RowPrecedes(rows: seq<Book>, table: set<Book>, n: nat, i: nat)
    requires Answers(rows, table, n, MOST_POPULAR_FIRST) && i < |rows|
    ensures |Preceding(table, rows[i])| < n
  {
    forall c | c in Preceding(table, rows[i]) ensures c in Elements(rows[..i]) {
      assert MOST_POPULAR_FIRST(c, rows[i]) && rows[i] in rows;
      var j :| 0 <= j < |rows| && rows[j] == c;
      assert j < i;
      assert rows[..i][j] == c;
    }
    SubsetSize(Preceding(table, rows[i]), Elements(rows[..i]));
    DistinctCount(rows[..i]);
  }

  lemma OtherFollows(rows: seq<Book>, table: set<Book>, n: nat, b: Book)
    requires UniqueIds(table) && Answers(rows, table, n, MOST_POPULAR_FIRST) && b in table && b !in rows
    ensures |Preceding(table, b)| >= n
  {
    ShortAnswerIsTable(rows, table, n, MOST_POPULAR_FIRST);
    DistinctCount(rows);
    forall r | r in rows ensures r in Preceding(table, b) {
      assert !MOST_POPULAR_FIRST(b, r);
    }
    SubsetSize(Elements(rows), Preceding(table, b));
  }

  /** The rows of the query that are not excluded are exactly these books. */
  lemma CandidatesAreFresh(catalog: set<Book>, after: Option<Cursor>, limit: nat, excluded: seq<int>, rows: seq<Book>)
    requires UniqueIds(catalog)
    requires Answers(rows, Eligible(catalog, after), limit * WIDE_MULTIPLIER, MOST_POPULAR_FIRST)
    ensures Elements(Without(excluded, rows, BOOK_ID)) == Fresh(catalog, after, limit, excluded)
    ensures Distinct(Without(excluded, rows, BOOK_ID)) && |Without(excluded, rows, BOOK_ID)| == |Fresh(catalog, after, limit, excluded)|
  {
    var table := Eligible(catalog, after);
    forall b | b in table ensures b in rows <==> |Preceding(table, b)| < limit * WIDE_MULTIPLIER {
      if b in rows {
        var i :| 0 <= i < |rows| && rows[i] == b;
        RowPrecedes(rows, table, limit * WIDE_MULTIPLIER, i);
      } else {
        OtherFollows(rows, table, limit * WIDE_MULTIPLIER, b);
      }
    }
    WithoutKeepsDistinct(excluded, rows, BOOK_ID);
    DistinctCount(Without(excluded, rows, BOOK_ID));
  }

  // ---- one page ----

  function Score(b: Book): int {
    Position(b).score
  }

  ghost function AtLeast(books: set<Book>, score: int): set<Book> {
    set b | b in books && Score(b) >= score
  }

  /** Two of the books tie at a score that enough of them reach for a whole page to stay at or above it. */
  ghost predicate TieFitsOnPage(books: set<Book>, limit: nat) {
    limit >= 2
    && exists a, b :: a in books && b in books && a != b && Score(a) == Score(b)
                      && |AtLeast(books, Score(a))| >= Min(limit, |books|)
  }

  /** A book of the page lies past the page's own cursor. */
  ghost predicate ComesBack(catalog: set<Book>, picked: seq<Book>) {
    exists row, b :: IsCursorRow(picked, row) && b in picked && b in Eligible(catalog, Some(Position(row)))
  }

  /** The pages the draws can lead to. */
  ghost function PageOf(candidates: seq<Book>, limit: nat, draws: seq<Book>): seq<Book> {
    WeightedSample.Sample(candidates, limit, draws, BOOK_ID)
  }

  lemma PageFacts(catalog: set<Book>, candidates: seq<Book>, limit: nat, draws: seq<Book>)
    requires UniqueIds(catalog) && Distinct(candidates) && forall b :: b in candidates ==> b in catalog
    requires WeightedSample.IsDraw(draws, candidates, limit)
    ensures var r := PageOf(candidates, limit, draws);
            Distinct(r) && |r| == Min(limit, |candidates|) && Elements(r) <= Elements(candidates)
  {
    DistinctBookIds(candidates, catalog);
    WeightedSample.SampleIsFull(candidates, limit, draws, BOOK_ID);
    WeightedSample.KeysSize(candidates, BOOK_ID);
  }

  /** The book that comes back ties with the cursor's row. */
  lemma TieOnPage(catalog: set<Book>, picked: seq<Book>) returns (row: Book, b: Book)
    requires ComesBack(catalog, picked)
    ensures row in picked && b in picked && row != b && Score(row) == Score(b)
    ensures forall x :: x in picked ==> Score(x) >= Score(row)
  {
    row, b :| IsCursorRow(picked, row) && b in picked && b in Eligible(catalog, Some(Position(row)));
  }

  lemma ComesBackOnlyOnTies(catalog: set<Book>, candidates: seq<Book>, limit: nat, draws: seq<Book>)
    requires UniqueIds(catalog) && Distinct(candidates) && forall b :: b in candidates ==> b in catalog
    requires WeightedSample.IsDraw(draws, candidates, limit) && ComesBack(catalog, PageOf(candidates, limit, draws))
    ensures TieFitsOnPage(Elements(candidates), limit)
  {
    var picked := PageOf(candidates, limit, draws);
    PageFacts(catalog, candidates, limit, draws);
    var row, b := TieOnPage(catalog, picked);
    TieCounts(picked, Elements(candidates), row, b);
    DistinctCount(candidates);
  }

  lemma TieCounts(picked: seq<Book>, books: set<Book>, row: Book, b: Book)
    requires Distinct(picked) && Elements(picked) <= books && row in picked && b in picked && row != b
    requires forall x :: x in picked ==> Score(x) >= Score(row)
    ensures 2 <= |picked| <= |AtLeast(books, Score(row))|
    ensures row in books && b in books
  {
    assert row in Elements(picked) && b in Elements(picked);
    DistinctCount(picked);
    SubsetSize(Elements(picked), AtLeast(books, Score(row)));
    SubsetSize({row, b}, Elements(picked));
  }

  /** Any two books of a set start a selection of any size the set allows. */
  lemma {:induction false} Selection(books: set<Book>, a: Book, b: Book, n: nat) returns (p: seq<Book>)
    requires a in books && b in books && a != b && 2 <= n <= |books|
    ensures Distinct(p) && |p| == n && Elements(p) <= books && p[0] == a && p[1] == b
  {
    if n == 2 {
      p := [a, b];
    } else {
      var q := Selection(books, a, b, n - 1);
      DistinctCount(q);
      if books <= Elements(q) {
        SubsetSize(books, Elements(q));
      }
      var x :| x in books && x !in Elements(q);
      p := q + [x];
    }
  }

  /** Any selection of page size can be drawn. */
  lemma SelectionIsDrawn(catalog: set<Book>, candidates: seq<Book>, limit: nat, p: seq<Book>) returns (draws: seq<Book>)
    requires UniqueIds(catalog) && Distinct(candidates) && forall b :: b in candidates ==> b in catalog
    requires p != [] && Distinct(p) && |p| == Min(limit, |candidates|) && Elements(p) <= Elements(candidates)
    ensures WeightedSample.IsDraw(draws, candidates, limit) && PageOf(candidates, limit, draws) == p
  {
    var tail := seq(Min(limit * WeightedSample.POOL_MULTIPLIER, |candidates|) - |p|, _ => p[0]);
    draws := p + tail;
    forall x | x in p ensures x in candidates {
      assert x in Elements(p);
    }
    assert p[0] in p && forall x :: x in tail ==> x == p[0];
    PageFacts(catalog, candidates, limit, draws);
    DistinctBookIds(p, catalog);
    WeightedSample.SampleBegins(candidates, limit, p, tail, BOOK_ID);
  }

  lemma {:induction false} CursorRowExists(p: seq<Book>) returns (row: Book)
    requires p != []
    ensures IsCursorRow(p, row)
  {
    var front, last := p[..|p| - 1], p[|p| - 1];
    assert p == front + [last];
    if front == [] {
      row := last;
    } else {
      var r := CursorRowExists(front);
      row := if Score(last) < Score(r) || (Score(last) == Score(r) && last.id > r.id) then last else r;
    }
  }

  lemma TieComesBack(catalog: set<Book>, after: Option<Cursor>, p: seq<Book>)
    requires UniqueIds(catalog) && |p| >= 2 && Distinct(p) && Score(p[0]) == Score(p[1])
    requires forall b :: b in p ==> b in Eligible(catalog, after) && Score(b) >= Score(p[0])
    ensures ComesBack(catalog, p)
  {
    var row := CursorRowExists(p);
    assert p[0] in p && p[1] in p && row in p;
    var b := if row == p[0] then p[1] else p[0];
    assert b.id != row.id;
    assert b in Eligible(catalog, Some(Position(row)));
  }

  /**
   * A page can show a book that its own cursor leaves ahead, whatever the draws, if and only if two of
   * the books it is drawn from tie at a score which at least min(limit, all) of them reach.
   */
  lemma ShownAgainExactlyOnTies(catalog: set<Book>, after: Option<Cursor>, limit: nat, excluded: seq<int>, rows: seq<Book>)
    requires limit >= 1 && UniqueIds(catalog)
    requires Answers(rows, Eligible(catalog, after), limit * WIDE_MULTIPLIER, MOST_POPULAR_FIRST)
    ensures (exists draws :: WeightedSample.IsDraw(draws, Without(excluded, rows, BOOK_ID), limit)
                             && ComesBack(catalog, PageOf(Without(excluded, rows, BOOK_ID), limit, draws)))
            <==> TieFitsOnPage(Fresh(catalog, after, limit, excluded), limit)
  {
    var candidates, books := Without(excluded, rows, BOOK_ID), Fresh(catalog, after, limit, excluded);
    CandidatesAreFresh(catalog, after, limit, excluded, rows);
    forall b | b in candidates ensures b in Eligible(catalog, after) {
      assert b in Elements(candidates);
    }
    forall draws | WeightedSample.IsDraw(draws, candidates, limit) && ComesBack(catalog, PageOf(candidates, limit, draws))
      ensures TieFitsOnPage(books, limit)
    {
      ComesBackOnlyOnTies(catalog, candidates, limit, draws);
    }
    if TieFitsOnPage(books, limit) {
      var draws := TieIsDrawn(catalog, after, limit, candidates);
      assert WeightedSample.IsDraw(draws, candidates, limit);
    }
  }

  lemma TieIsDrawn(catalog: set<Book>, after: Option<Cursor>, limit: nat, candidates: seq<Book>) returns (draws: seq<Book>)
    requires UniqueIds(catalog) && Distinct(candidates) && forall b :: b in candidates ==> b in Eligible(catalog, after)
    requires TieFitsOnPage(Elements(candidates), limit)
    ensures WeightedSample.IsDraw(draws, candidates, limit) && ComesBack(catalog, PageOf(candidates, limit, draws))
  {
    var books := Elements(candidates);
    DistinctCount(candidates);
    var a, b :| a in books && b in books && a != b && Score(a) == Score(b)
                && |AtLeast(books, Score(a))| >= Min(limit, |books|);
    SubsetSize({a, b}, books);
    var p := Selection(AtLeast(books, Score(a)), a, b, Min(limit, |books|));
    assert Elements(p) <= books;
    draws := SelectionIsDrawn(catalog, candidates, limit, p);
    forall x | x in p ensures x in Eligible(catalog, after) && Score(x) >= Score(p[0]) {
      assert x in Elements(p);
    }
    TieComesBack(catalog, after, p);
  }

  /** When everything eligible fits into one query and nothing is excluded, the condition is about all eligible books. */
  lemma SmallCatalogue(catalog: set<Book>, after: Option<Cursor>, limit: nat)
    requires |Eligible(catalog, after)| <= limit * WIDE_MULTIPLIER
    ensures Fresh(catalog, after, limit, []) == Eligible(catalog, after)
  {
    var table := Eligible(catalog, after);
    forall b | b in table ensures |Preceding(table, b)| < limit * WIDE_MULTIPLIER {
      assert b !in Preceding(table, b);
      ProperSubsetSize(Preceding(table, b), table);
    }
  }

  // ---- a whole session ----

  ghost predicate DifferentScores(catalog: set<Book>) {
    forall a, b :: a in catalog && b in catalog && a != b && a.popularity.Some? && b.popularity.Some? ==>
      a.popularity != b.popularity
  }

  /** Pages over a fixed catalogue; a page without picks leaves the cursor where it was. */
  ghost predicate IsSession(catalog: set<Book>, cursors: seq<Option<Cursor>>, pages: seq<seq<Book>>) {
    |cursors| == |pages| + 1 && forall k :: 0 <= k < |pages| ==> Follows(catalog, cursors, pages, k)
  }

  ghost predicate Follows(catalog: set<Book>, cursors: seq<Option<Cursor>>, pages: seq<seq<Book>>, k: nat)
    requires k < |pages| && k + 1 < |cursors|
  {
    exists next :: IsPage(catalog, cursors[k], pages[k], next) && cursors[k + 1] == if next.Some? then next else cursors[k]
  }

  /** With different scores a page's cursor leaves all its books behind. */
  lemma NothingLeftAhead(catalog: set<Book>, cursors: seq<Option<Cursor>>, pages: seq<seq<Book>>, k: nat, b: Book)
    requires DifferentScores(catalog) && IsSession(catalog, cursors, pages) && k < |pages| && b in pages[k]
    ensures cursors[k + 1].Some? && b !in Eligible(catalog, cursors[k + 1])
  {
    assert Follows(catalog, cursors, pages, k);
    var next :| IsPage(catalog, cursors[k], pages[k], next) && cursors[k + 1] == if next.Some? then next else cursors[k];
    var row :| IsCursorRow(pages[k], row) && next == Some(Position(row));
    assert row in Eligible(catalog, cursors[k]) && b in Eligible(catalog, cursors[k]);
  }

  /** What lies behind the cursor stays behind. */
  lemma {:induction false} StaysBehind(catalog: set<Book>, cursors: seq<Option<Cursor>>, pages: seq<seq<Book>>,
          i: nat, j: nat, b: Book)
    requires IsSession(catalog, cursors, pages) && i <= j < |cursors|
    requires b in catalog && cursors[i].Some? && b !in Eligible(catalog, cursors[i])
    ensures cursors[j].Some? && b !in Eligible(catalog, cursors[j])
  {
    if i < j {
      StaysBehind(catalog, cursors, pages, i, j - 1, b);
      assert Follows(catalog, cursors, pages, j - 1);
      var next :| IsPage(catalog, cursors[j - 1], pages[j - 1], next)
                  && cursors[j] == if next.Some? then next else cursors[j - 1];
      CursorProgress(catalog, cursors[j - 1], pages[j - 1], next);
    }
  }

  /** With pairwise different scores no two pages of a session share a book, even without exclusion. */
  lemma PagesAreDisjoint(catalog: set<Book>, cursors: seq<Option<Cursor>>, pages: seq<seq<Book>>, i: nat, j: nat)
    requires DifferentScores(catalog) && IsSession(catalog, cursors, pages) && i < j < |pages|
    ensures Elements(pages[i]) !! Elements(pages[j])
  {
    forall b | b in pages[i] ensures b !in pages[j] {
      assert Follows(catalog, cursors, pages, i) && Follows(catalog, cursors, pages, j);
      NothingLeftAhead(catalog, cursors, pages, i, b);
      StaysBehind(catalog, cursors, pages, i + 1, j, b);
    }
  }
}
