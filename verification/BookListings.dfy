/** The shop's cursor-paged listings: newest first, by id, by popularity, and in a seeded random order. */
module BookListings {
  import opened Sequences
  import opened KeysetPaging
  import QdrantBooks

  /** The score is the sum of daily scores, in units of 1/10000. */
  datatype Row = Row(id: int, score: int)

  ghost predicate DistinctIds(rows: seq<Row>) {
    forall i, j :: 0 <= i < j < |rows| ==> rows[i].id != rows[j].id
  }

  /** A cursor that is an id is tested with `if cursor:`, which the id 0 fails. */
  function NewestFirst(): Order<Row, int> {
    Order((r: Row) => r.id, (a: int, b: int) => b < a, (c: int) => c != 0)
  }

  function ById(): Order<Row, int> {
    Order((r: Row) => r.id, (a: int, b: int) => a < b, (c: int) => c != 0)
  }

  function ByPopularity(): Order<Row, (int, int)> {
    Order((r: Row) => (r.score, r.id),
          (a: (int, int), b: (int, int)) => b.0 < a.0 || (b.0 == a.0 && b.1 < a.1),
          (c: (int, int)) => true)
  }

  /** The hash is a number here: hex digests of one length are ordered as text like their numbers. */
  function Shuffled(md5: string -> nat, seed: string): Order<Row, nat> {
    Order((r: Row) => md5(QdrantBooks.Show(r.id) + seed), (a: nat, b: nat) => a < b, (c: nat) => true)
  }

  /** Every row once and in order, in ceil(n / limit) pages. */
  ghost predicate PagesWell<K>(o: Order<Row, K>, rows: seq<Row>, limit: nat)
    requires limit >= 1
  {
    Flatten(Walk(o, rows, limit)) == rows && EndsAfter(o, rows, limit, PageCount(|rows|, limit))
  }

  /** Ids come from a sequence that starts at 1. */
  lemma NewestFirstPagesWell(rows: seq<Row>, limit: nat)
    requires limit >= 1 && DistinctIds(rows) && forall r :: r in rows ==> r.id >= 1
    requires forall i, j :: 0 <= i < j < |rows| ==> rows[i].id >= rows[j].id
    ensures PagesWell(NewestFirst(), rows, limit)
  {
    var o := NewestFirst();
    forall k: nat | IsBoundary(k, limit, |rows|) ensures o.truthy(o.key(rows[Start(k, limit) - 1])) {
      assert rows[Start(k, limit) - 1] in rows;
    }
    assert Ordered(o, rows);
    WalkIsListing(o, rows, limit);
  }

  lemma ByIdPagesWell(rows: seq<Row>, limit: nat)
    requires limit >= 1 && DistinctIds(rows) && forall r :: r in rows ==> r.id >= 1
    requires forall i, j :: 0 <= i < j < |rows| ==> rows[i].id <= rows[j].id
    ensures PagesWell(ById(), rows, limit)
  {
    var o := ById();
    forall k: nat | IsBoundary(k, limit, |rows|) ensures o.truthy(o.key(rows[Start(k, limit) - 1])) {
      assert rows[Start(k, limit) - 1] in rows;
    }
    assert Ordered(o, rows);
    WalkIsListing(o, rows, limit);
  }

  /** With an id 0 at the end of a page the listing by id never gets past that page. */
  lemma ZeroIdNeverPasses()
    ensures Visit(ById(), [Row(0, 5), Row(1, 5)], 1, 1) == Visit(ById(), [Row(0, 5), Row(1, 5)], 1, 0)
    ensures !(forall k: nat :: ShowsSlice(ById(), [Row(0, 5), Row(1, 5)], 1, k))
  {
    var o, rows := ById(), [Row(0, 5), Row(1, 5)];
    assert Ordered(o, rows) && Asymmetric(o.before);
    FirstPage(o, rows, 1);
    assert Start(1, 1) == 1 && IsBoundary(1, 1, |rows|) && !o.truthy(o.key(rows[0]));
    StartsOver(o, rows, 1, 1);
    PagingRefinesSlicing(o, rows, 1);
  }

  lemma ByPopularityPagesWell(rows: seq<Row>, limit: nat)
    requires limit >= 1 && DistinctIds(rows)
    requires forall i, j :: 0 <= i < j < |rows| ==>
               rows[i].score > rows[j].score || (rows[i].score == rows[j].score && rows[i].id >= rows[j].id)
    ensures PagesWell(ByPopularity(), rows, limit)
  {
    assert Ordered(ByPopularity(), rows);
    WalkIsListing(ByPopularity(), rows, limit);
  }

  // ---- the random order ----

  lemma {:induction false} DigitsInjective(a: nat, b: nat)
    requires QdrantBooks.Digits(a) == QdrantBooks.Digits(b)
    ensures a == b
  {
    var x, y := QdrantBooks.Digits(a), QdrantBooks.Digits(b);
    assert x[|x| - 1] == "0123456789"[a % 10] && y[|y| - 1] == "0123456789"[b % 10];
    if a >= 10 {
      DigitsNotEmpty(a / 10);
      DigitsNotEmpty(b / 10);
      assert x[..|x| - 1] == QdrantBooks.Digits(a / 10);
      assert b >= 10;
      assert y[..|y| - 1] == QdrantBooks.Digits(b / 10);
      DigitsInjective(a / 10, b / 10);
    } else {
      if b >= 10 {
        DigitsNotEmpty(b / 10);
      }
    }
  }

  lemma {:induction false} DigitsNotEmpty(n: nat)
    ensures QdrantBooks.Digits(n) != [] && QdrantBooks.Digits(n)[0] in "0123456789"
  {
    if n >= 10 {
      DigitsNotEmpty(n / 10);
    }
  }

  lemma ShowInjective(a: int, b: int)
    requires QdrantBooks.Show(a) == QdrantBooks.Show(b)
    ensures a == b
  {
    DigitsNotEmpty(if a < 0 then -a else a);
    DigitsNotEmpty(if b < 0 then -b else b);
    if a < 0 && b < 0 {
      assert QdrantBooks.Show(a)[1..] == QdrantBooks.Digits(-a) && QdrantBooks.Show(b)[1..] == QdrantBooks.Digits(-b);
      DigitsInjective(-a, -b);
    } else if a >= 0 && b >= 0 {
      DigitsInjective(a, b);
    }
  }

  /** With an injective hash of "id then seed", different books never share a place in the order. */
  lemma ShuffledPagesWell(md5: string -> nat, seed: string, rows: seq<Row>, limit: nat)
    requires limit >= 1 && DistinctIds(rows) && forall a, b :: md5(a) == md5(b) ==> a == b
    requires forall i, j :: 0 <= i < j < |rows| ==>
               Shuffled(md5, seed).key(rows[i]) <= Shuffled(md5, seed).key(rows[j])
    ensures PagesWell(Shuffled(md5, seed), rows, limit)
  {
    var o := Shuffled(md5, seed);
    forall i, j | 0 <= i < j < |rows| ensures o.before(o.key(rows[i]), o.key(rows[j])) {
      var a, b := QdrantBooks.Show(rows[i].id), QdrantBooks.Show(rows[j].id);
      if a + seed == b + seed {
        assert a == (a + seed)[..|a + seed| - |seed|] && b == (b + seed)[..|b + seed| - |seed|];
        ShowInjective(rows[i].id, rows[j].id);
      }
    }
    WalkIsListing(o, rows, limit);
  }

  /** Every other seed gives every book another place, and one seed gives no two books the same. */
  lemma PlaceTellsBookAndSeed(md5: string -> nat, seed: string, seed': string, a: Row, b: Row)
    requires forall x, y :: md5(x) == md5(y) ==> x == y
    ensures Shuffled(md5, seed).key(a) == Shuffled(md5, seed').key(a) <==> seed == seed'
    ensures Shuffled(md5, seed).key(a) == Shuffled(md5, seed).key(b) <==> a.id == b.id
  {
    var x, y := QdrantBooks.Show(a.id), QdrantBooks.Show(b.id);
    if x + seed == x + seed' {
      assert seed == (x + seed)[|x|..] && seed' == (x + seed')[|x|..];
    }
    if x + seed == y + seed {
      assert x == (x + seed)[..|x + seed| - |seed|] && y == (y + seed)[..|y + seed| - |seed|];
      ShowInjective(a.id, b.id);
    }
  }
}
