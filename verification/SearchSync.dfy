/** The indexing tasks over the two stores: `sync_book_task` and the two periodic reindexes. */
module SearchSync {
  import opened SearchStores
  import Q = QdrantBooks
  import QdrantCollection

  class BooksElastic {
    var index: Index

    method IndexBatch(docs: seq<Doc>)
      modifies this
      ensures index == IndexAll(old(index), docs)
    {
      var i := 0;
      assert docs[0..] == docs;
      while i < |docs|
        invariant 0 <= i <= |docs|
        invariant IndexAll(old(index), docs) == IndexAll(index, docs[i..])
      {
        assert docs[i..][0] == docs[i] && docs[i..][1..] == docs[i + 1..];
        index := index[docs[i].bookId := docs[i]];
        i := i + 1;
      }
    }

    method DeleteById(id: int)
      modifies this
      ensures index == old(index) - {id}
    {
      index := index - {id};
    }

    method DeleteMissing(actual: seq<int>)
      modifies this
      ensures index == SearchStores.DeleteMissing(old(index), actual)
    {
      if actual == [] {
        return;
      }
      index := map k | k in index && index[k].bookId in actual :: index[k];
    }
  }

  class Tasks {
    var books: map<int, Row>
    const elastic: BooksElastic
    const qdrant: QdrantCollection.BooksCollection

    constructor (books: map<int, Row>, elastic: BooksElastic, qdrant: QdrantCollection.BooksCollection)
      ensures this.books == books && this.elastic == elastic && this.qdrant == qdrant
    {
      this.books, this.elastic, this.qdrant := books, elastic, qdrant;
    }

    ghost function State(): System
      reads this, elastic, qdrant
    {
      System(books, elastic.index, qdrant.points)
    }

    method SyncBookTask(id: int)
      modifies elastic, qdrant
      ensures State() == Sync(qdrant.tools, old(State()), id)
    {
      if id !in books {
        elastic.DeleteById(id);
        qdrant.Remove(id);
        return;
      }
      var row := books[id];
      elastic.IndexBatch([DocOf(row)]);
      if row.book.available {
        qdrant.MakeIndex([row.book]);
      } else {
        qdrant.Remove(id);
      }
    }

    method ElasticIndexTask(rows: seq<Row>)
      requires IsTable(rows, books)
      modifies elastic, qdrant
      ensures State() == Step(qdrant.tools, old(State()), ElasticReindex(rows))
    {
      elastic.IndexBatch(Docs(rows));
      elastic.DeleteMissing(DocIds(Docs(rows)));
    }

    method QdrantIndexTask(list: seq<Q.Book>) returns (stats: QdrantCollection.Stats)
      requires IsAvailableList(list, books)
      modifies elastic, qdrant
      ensures State() == Step(qdrant.tools, old(State()), QdrantReindex(list))
    {
      stats := qdrant.Reconcile(list);
    }
  }
}
