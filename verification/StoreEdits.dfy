/** Which edits of a book put the search stores behind Postgres until the book is synced again. */
module StoreEdits {
  import opened Sequences
  import opened SearchStores
  import Q = QdrantBooks
  import BookEdits

  /** Elasticsearch is behind after an edit exactly if it changes anything but the description. */
  lemma EditDisturbsElasticExactly(t: Q.Tools, s: System, id: int, row: Row)
    requires ElasticAgrees(s, id) && id in s.books && row.book.id == s.books[id].book.id
    ensures ElasticAgrees(Step(t, s, Edit(id, Some(row))), id)
            <==> row.(book := row.book.(description := None)) == s.books[id].(book := s.books[id].book.(description := None))
  {
    var a, b := DocOf(row), DocOf(s.books[id]);
    if a == b {
      assert a.country == b.country && a.issueYear == b.issueYear;
      assert row.book.(description := None) == s.books[id].book.(description := None);
    }
  }

  /**
   * The vector store is behind after an edit exactly if it withdraws the book or makes it available, or the
   * book is available and a reconciling run would write it.
   */
  lemma EditDisturbsQdrantExactly(t: Q.Tools, s: System, id: int, e: BookEdits.Edit)
    requires Q.Injective(t) && QdrantAgrees(t, s, id) && id in s.books && s.books[id].book.id == id
    ensures var b := s.books[id].book;
            var row := s.books[id].(book := BookEdits.Edited(b, e));
            QdrantAgrees(t, Step(t, s, Edit(id, Some(row))), id) <==>
              && row.book.available == b.available
              && (b.available ==> !BookEdits.Told(b, e) && (e.Description? || BookEdits.Edited(b, e) == b))
  {
    var b := s.books[id].book;
    var b' := BookEdits.Edited(b, e);
    if b.available {
      BookEdits.EditIsNoticedExactly(t, s.qdrant, b, e);
      SameHashesSamePoint(t, s.qdrant, b, b');
    }
  }

  lemma SameHashesSamePoint(t: Q.Tools, c: Q.Collection, b: Q.Book, b': Q.Book)
    requires Q.Injective(t) && Q.Right(t, c, b) && b'.id == b.id
    ensures Q.ChangeOf(t, c, b') == Q.Unchanged <==> Q.PointOf(t, b') == Q.PointOf(t, b)
  {
    if Q.ChangeOf(t, c, b') == Q.Unchanged {
      assert Q.Text(b') == Q.Text(b);
      assert Q.CoreOf(b') == Q.CoreOf(b);
    }
  }
}
