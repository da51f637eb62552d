/** Books as the queries see them, and what a filtered, ordered, limited query may answer. */
module Catalog {
  import opened Sequences

  /** Popularity scores are integers of 1/10000; `None` when the window holds no statistics. */
  datatype Book = Book(
    id: int,
    randomKey: int,
    category: Option<int>,
    author: Option<int>,
    available: bool,
    popularity: Option<int>)

  const BOOK_ID: Book -> int := (b: Book) => b.id

  ghost predicate UniqueIds(catalog: set<Book>) {
    forall a, b :: a in catalog && b in catalog && a.id == b.id ==> a == b
  }

  function Ids(rows: seq<Book>): (r: seq<int>)
    ensures |r| == |rows| && forall i :: 0 <= i < |rows| ==> r[i] == rows[i].id
  {
    seq(|rows|, i requires 0 <= i < |rows| => rows[i].id)
  }

  lemma IdOf(rows: seq<Book>, id: int)
    ensures id in Ids(rows) <==> exists b :: b in rows && b.id == id
  {
    if id in Ids(rows) {
      var i :| 0 <= i < |rows| && Ids(rows)[i] == id;
      assert rows[i] in rows;
    }
    if exists b :: b in rows && b.id == id {
      var i :| 0 <= i < |rows| && rows[i].id == id;
      assert Ids(rows)[i] == id;
    }
  }

  /**
   * `SELECT ... WHERE table ORDER BY precedes LIMIT limit`. Rows the order does not separate may
   * come in any order, and any of them may be cut off by the limit.
   */
  ghost predicate Answers<T(!new)>(rows: seq<T>, table: set<T>, limit: nat, precedes: (T, T) -> bool) {
    && Distinct(rows)
    && (forall x :: x in rows ==> x in table)
    && |rows| == Min(limit, |table|)
    && (forall i, j :: 0 <= i < j < |rows| ==> !precedes(rows[j], rows[i]))
    && (forall x, r :: x in table && x !in rows && r in rows ==> !precedes(x, r))
  }

  /** An answer shorter than its limit is the whole table. */
  lemma ShortAnswerIsTable<T(!new)>(rows: seq<T>, table: set<T>, limit: nat, precedes: (T, T) -> bool)
    requires Answers(rows, table, limit, precedes)
    ensures Elements(rows) <= table
    ensures |table| <= limit ==> Elements(rows) == table
    ensures limit > 0 && rows == [] ==> table == {}
  {
    DistinctCount(rows);
    if |table| <= limit {
      SubsetOfEqualSize(Elements(rows), table);
    }
  }

  /** A row of the table is left out only by the limit, and by rows it does not precede. */
  lemma LeftOut<T(!new)>(rows: seq<T>, table: set<T>, limit: nat, precedes: (T, T) -> bool, x: T)
    requires Answers(rows, table, limit, precedes) && x in table && x !in rows
    ensures |rows| == limit && forall r :: r in rows ==> r in table && r != x && !precedes(x, r)
  {
    ShortAnswerIsTable(rows, table, limit, precedes);
    assert x !in Elements(rows);
  }

  lemma DistinctBookIds(rows: seq<Book>, catalog: set<Book>)
    requires UniqueIds(catalog) && Distinct(rows) && forall b :: b in rows ==> b in catalog
    ensures forall i, j :: 0 <= i < j < |rows| ==> rows[i].id != rows[j].id
    ensures Distinct(Ids(rows))
  {
    forall i, j | 0 <= i < j < |rows| ensures rows[i].id != rows[j].id {
      assert rows[i] in rows && rows[j] in rows;
    }
  }
}
