/**
 * `BookMainPopularReco`: a weighted sample of the most popular books below a (score, id) cursor,
 * with a fallback on best sellers while there are no statistics at all.
 */
module PopularBooks {
  import opened Sequences
  import opened Catalog
  import CappedPick
  import WeightedSample

  const WIDE_MULTIPLIER: nat := 10

  datatype Cursor = Cursor(score: int, id: int)

  /** (score, id) in descending lexicographic order: a comes before b. */
  predicate Before(a: Cursor, b: Cursor) {
    a.score > b.score || (a.score == b.score && a.id > b.id)
  }

  function Position(b: Book): Cursor {
    Cursor(if b.popularity.Some? then b.popularity.value else 0, b.id)
  }

  const MOST_POPULAR_FIRST: (Book, Book) -> bool := (a: Book, b: Book) => Before(Position(a), Position(b))

  /** The cursor filter applies only when both of its fields are set. */
  function Filter(lastScore: Option<int>, lastId: Option<int>): Option<Cursor> {
    if lastScore.Some? && lastId.Some? then Some(Cursor(lastScore.value, lastId.value)) else None
  }

  ghost function Eligible(catalog: set<Book>, after: Option<Cursor>): set<Book> {
    set b | b in catalog && b.available && b.popularity.Some? && b.popularity.value > 0
            && (after.Some? ==> Before(after.value, Position(b)))
  }

  /** `min` by (score, -id): among the lowest scores, the row with the highest id. */
  predicate IsCursorRow(rows: seq<Book>, row: Book) {
    && row in rows
    && forall b :: b in rows ==>
         Position(row).score < Position(b).score || (Position(row).score == Position(b).score && row.id >= b.id)
  }

  method CursorRow(rows: seq<Book>) returns (row: Book)
    requires rows != []
    ensures IsCursorRow(rows, row)
  {
    row := rows[0];
    for i := 1 to |rows|
      invariant IsCursorRow(rows[..i], row)
    {
      var b := rows[i];
      if Position(b).score < Position(row).score || (Position(b).score == Position(row).score && b.id > row.id) {
        row := b;
      }
    }
    assert rows[..|rows|] == rows;
  }

  /** What the statistics branch guarantees: eligible, new picks and the position of their cursor row. */
  ghost predicate IsPage(catalog: set<Book>, after: Option<Cursor>, picked: seq<Book>, next: Option<Cursor>) {
    && Distinct(Ids(picked))
    && (forall b :: b in picked ==> b in Eligible(catalog, after))
    && (picked == [] ==> next.None?)
    && (picked != [] ==> exists row :: IsCursorRow(picked, row) && next == Some(Position(row)))
  }

  /** The fallback's page: a capped pick of the cold pool. */
  ghost function FallbackIds(limit: nat, excluded: seq<int>, coldPool: seq<CappedPick.Candidate>,
          draws: seq<CappedPick.Candidate>): seq<int>
  {
    var pool := Without(excluded, coldPool, CappedPick.ID);
    CappedPick.Ids(CappedPick.Pick(
      WeightedSample.Sample(pool, limit * CappedPick.CANDIDATE_MULTIPLIER, draws, CappedPick.ID), pool, limit,
      CappedPick.DEFAULT_CAPS))
  }

  /** The whole answer: the fallback while there are no statistics at all, else a sample of the unseen rows. */
  ghost predicate IsAnswer(catalog: set<Book>, limit: nat, lastScore: Option<int>, lastId: Option<int>,
          excluded: seq<int>, rows: seq<Book>, draws: seq<Book>, coldPool: seq<CappedPick.Candidate>,
          coldDraws: seq<CappedPick.Candidate>, ids: seq<int>, next: Option<Cursor>)
  {
    if rows == [] && lastScore.None? then next.None? && ids == FallbackIds(limit, excluded, coldPool, coldDraws)
    else
      var picked := WeightedSample.Sample(Without(excluded, rows, BOOK_ID), limit, draws, BOOK_ID);
      ids == Ids(picked) && IsPage(catalog, Filter(lastScore, lastId), picked, next)
  }

  method Get(ghost catalog: set<Book>, limit: nat, lastScore: Option<int>, lastId: Option<int>, excluded: seq<int>,
             rows: seq<Book>, draws: seq<Book>, coldPool: seq<CappedPick.Candidate>, coldDraws: seq<CappedPick.Candidate>)
      returns (ids: seq<int>, next: Option<Cursor>)
    requires limit >= 1 && UniqueIds(catalog)
    requires Answers(rows, Eligible(catalog, Filter(lastScore, lastId)), limit * WIDE_MULTIPLIER, MOST_POPULAR_FIRST)
    requires WeightedSample.IsDraw(draws, Without(excluded, rows, BOOK_ID), limit)
    requires WeightedSample.IsDraw(coldDraws, Without(excluded, coldPool, CappedPick.ID), limit * CappedPick.CANDIDATE_MULTIPLIER)
    ensures |ids| <= limit && forall id :: id in ids ==> id !in excluded
    ensures IsAnswer(catalog, limit, lastScore, lastId, excluded, rows, draws, coldPool, coldDraws, ids, next)
    ensures rows != [] || lastScore.Some? ==> |ids| == Min(limit, |Without(excluded, rows, BOOK_ID)|)
  {
    if rows == [] && lastScore.None? {
      ids := FallbackTopSales(limit, excluded, coldPool, coldDraws);
      return ids, None;
    }
    var candidates := Without(excluded, rows, BOOK_ID);
    WeightedSample.SampleIsFull(candidates, limit, draws, BOOK_ID);
    if candidates == [] {
      return [], None;
    }
    WithoutKeepsDistinct(excluded, rows, BOOK_ID);
    DistinctBookIds(candidates, catalog);
    var sampled := WeightedSample.Run(candidates, limit, draws, BOOK_ID);
    WeightedSample.KeysSize(candidates, BOOK_ID);
    ids := Ids(sampled);
    var row := CursorRow(sampled);
    next := Some(Position(row));
    forall id | id in ids ensures id !in excluded {
      IdOf(sampled, id);
    }
  }

  method FallbackTopSales(limit: nat, excluded: seq<int>, coldPool: seq<CappedPick.Candidate>,
          draws: seq<CappedPick.Candidate>)
      returns (ids: seq<int>)
    requires limit >= 1
    requires WeightedSample.IsDraw(draws, Without(excluded, coldPool, CappedPick.ID), limit * CappedPick.CANDIDATE_MULTIPLIER)
    ensures ids == FallbackIds(limit, excluded, coldPool, draws)
    ensures |ids| <= limit
    ensures forall id :: id in ids ==> id !in excluded && id in CappedPick.Ids(coldPool)
    ensures var pool := Without(excluded, coldPool, CappedPick.ID);
            CappedPick.DistinctIds(pool) ==> |ids| == Min(limit, |pool|) && Distinct(ids)
  {
    var pool := Without(excluded, coldPool, CappedPick.ID);
    ids := CappedPick.DiversifiedPick(pool, limit, CappedPick.DEFAULT_CAPS, draws);
    forall id | id in ids ensures id !in excluded && id in CappedPick.Ids(coldPool) {
      CappedPick.IdsMember(pool, id);
      CappedPick.IdsMember(coldPool, id);
    }
  }

  /**
   * What is fetched: only books on sale with a positive score, past the cursor in the (score, id) order;
   * and every such book that is not fetched stands behind all that are.
   */
  lemma MostPopularAreFetched(catalog: set<Book>, limit: nat, after: Option<Cursor>, rows: seq<Book>, b: Book)
    requires UniqueIds(catalog) && b in catalog
    requires Answers(rows, Eligible(catalog, after), limit * WIDE_MULTIPLIER, MOST_POPULAR_FIRST)
    ensures b in rows ==>
              && b.available && b.popularity.Some? && b.popularity.value > 0
              && (after.None? || b.popularity.value < after.value.score
                  || (b.popularity.value == after.value.score && b.id < after.value.id))
    ensures b !in rows && b.available && b.popularity.Some? && b.popularity.value > 0
            && (after.None? || b.popularity.value < after.value.score
                || (b.popularity.value == after.value.score && b.id < after.value.id)) ==>
              && |rows| == limit * WIDE_MULTIPLIER
              && forall r :: r in rows ==>
                   r.popularity.Some?
                   && (b.popularity.value < r.popularity.value
                       || (b.popularity.value == r.popularity.value && b.id < r.id))
  {
    var table := Eligible(catalog, after);
    if b !in rows && b in table {
      LeftOut(rows, table, limit * WIDE_MULTIPLIER, MOST_POPULAR_FIRST, b);
      forall r | r in rows ensures Before(Position(r), Position(b)) && r in table {
        assert !MOST_POPULAR_FIRST(b, r);
      }
    }
  }

  // ---- the cursor ----

  /** Each time it is set, the cursor lies strictly further down the (score, id) order. */
  lemma CursorProgress(catalog: set<Book>, after: Option<Cursor>, picked: seq<Book>, next: Option<Cursor>)
    requires IsPage(catalog, after, picked, next)
    ensures next.Some? <==> picked != []
    ensures next.Some? && after.Some? ==> Before(after.value, next.value)
  {
    if picked != [] {
      var row :| IsCursorRow(picked, row) && next == Some(Position(row));
      assert row in Eligible(catalog, after);
    }
  }

  /** Two books of equal score on one page: the cursor takes the higher id, and the other comes back. */
  lemma TiedBookComesBack()
    ensures var a := Book(10, 0, None, None, true, Some(5));
            var b := Book(8, 1, None, None, true, Some(5));
            exists next :: IsPage({a, b}, None, [a, b], next) && next.Some? && b in Eligible({a, b}, next)
  {
    var a := Book(10, 0, None, None, true, Some(5));
    var b := Book(8, 1, None, None, true, Some(5));
    assert Ids([a, b]) == [10, 8];
    assert IsCursorRow([a, b], a);
    assert IsPage({a, b}, None, [a, b], Some(Position(a)));
  }
}
