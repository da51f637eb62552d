/**
 * Two search stores beside Postgres: Elasticsearch holds every book, the vector store the available
 * ones. Edits, single-book syncs and full reindexes come in any order.
 */
module SearchStores {
  import opened Sequences
  import Q = QdrantBooks

  /** A book as Postgres has it: what the vector store keeps, and what only Elasticsearch needs. */
  datatype Row = Row(book: Q.Book, categorySlug: string, country: Option<string>)

  /** The stored document repeats its id in the field `book_id`. */
  datatype Doc = Doc(bookId: int, title: string, authorId: int, authorName: string, categoryId: int,
          categorySlug: string,
                     categoryName: string, country: Option<string>, issueYear: Option<int>, rating: int, available: bool)

  type Index = map<int, Doc>

  datatype System = System(books: map<int, Row>, elastic: Index, qdrant: Q.Collection)

  function DocOf(r: Row): Doc {
    Doc(r.book.id, r.book.title, r.book.authorId, r.book.authorName, r.book.categoryId, r.categorySlug,
        r.book.categoryName, r.country, r.book.issueYear, r.book.rating, r.book.available)
  }

  // ---- Elasticsearch ----

  ghost function IndexAll(index: Index, docs: seq<Doc>): Index
    decreases |docs|
  {
    if docs == [] then index else IndexAll(index[docs[0].bookId := docs[0]], docs[1..])
  }

  /** `delete_missing`: an empty list of books deletes nothing. */
  ghost function DeleteMissing(index: Index, actual: seq<int>): Index {
    if actual == [] then index else map k | k in index && index[k].bookId in actual :: index[k]
  }

  function Docs(rows: seq<Row>): seq<Doc> {
    seq(|rows|, i requires 0 <= i < |rows| => DocOf(rows[i]))
  }

  function DocIds(docs: seq<Doc>): seq<int> {
    seq(|docs|, i requires 0 <= i < |docs| => docs[i].bookId)
  }

  ghost function ReindexElastic(index: Index, rows: seq<Row>): Index {
    DeleteMissing(IndexAll(index, Docs(rows)), DocIds(Docs(rows)))
  }

  // ---- the steps ----

  ghost function SyncQdrant(t: Q.Tools, c: Q.Collection, books: map<int, Row>, id: int): Q.Collection {
    if id in books && books[id].book.available then Q.UpsertAll(t, c, [books[id].book]) else c - {id}
  }

  /** `sync_book_task`: an unavailable book stays in Elasticsearch and leaves the vector store. */
  ghost function Sync(t: Q.Tools, s: System, id: int): System {
    s.(elastic := if id in s.books then IndexAll(s.elastic, [DocOf(s.books[id])]) else s.elastic - {id},
       qdrant := SyncQdrant(t, s.qdrant, s.books, id))
  }

  datatype Action =
    | Edit(id: int, row: Option<Row>)
    | SyncBook(id: int)
    | ElasticReindex(rows: seq<Row>)
    | QdrantReindex(books: seq<Q.Book>)

  ghost predicate NamedRows(books: map<int, Row>) {
    forall id :: id in books ==> books[id].book.id == id
  }

  /** All rows of the table, in any order. */
  ghost predicate IsTable(rows: seq<Row>, books: map<int, Row>) {
    && (forall r :: r in rows ==> r.book.id in books && books[r.book.id] == r)
    && (forall id :: id in books ==> books[id] in rows)
  }

  /** The available books, in any order, each once. */
  ghost predicate IsAvailableList(list: seq<Q.Book>, books: map<int, Row>) {
    && Q.UniqueIds(list)
    && (forall b :: b in list ==> b.id in books && books[b.id].book == b && b.available)
    && (forall id :: id in books && books[id].book.available ==> books[id].book in list)
  }

  ghost predicate Enabled(s: System, a: Action) {
    match a
    case Edit(id, row) => row.Some? ==> row.value.book.id == id
    case SyncBook(_) => true
    case ElasticReindex(rows) => IsTable(rows, s.books)
    case QdrantReindex(books) => IsAvailableList(books, s.books)
  }

  ghost function Step(t: Q.Tools, s: System, a: Action): System {
    match a
    case Edit(id, row) => s.(books := if row.Some? then s.books[id := row.value] else s.books - {id})
    case SyncBook(id) => Sync(t, s, id)
    case ElasticReindex(rows) => s.(elastic := ReindexElastic(s.elastic, rows))
    case QdrantReindex(books) => s.(qdrant := Q.ApplyAll(t, s.qdrant, Q.Plan(t, s.qdrant, books)))
  }

  ghost predicate Next(t: Q.Tools, s: System, a: Action, s': System) {
    Enabled(s, a) && s' == Step(t, s, a)
  }

  /** The systems before, between and after the actions. */
  ghost predicate IsRun(t: Q.Tools, run: seq<System>, actions: seq<Action>) {
    && |run| == |actions| + 1
    && forall i {:trigger actions[i]} :: 0 <= i < |actions| ==> Next(t, run[i], actions[i], run[i + 1])
  }

  // ---- invariants ----

  /** Documents repeat their own id; rows carry theirs; the vector store's hashes are true. */
  ghost predicate Sound(t: Q.Tools, s: System) {
    && NamedRows(s.books)
    && (forall k :: k in s.elastic ==> s.elastic[k].bookId == k)
    && Q.HashesMatch(t, s.qdrant)
  }

  lemma {:induction false} IndexAllLookup(index: Index, docs: seq<Doc>, id: int)
    requires forall k :: k in index ==> index[k].bookId == k
    ensures forall k :: k in IndexAll(index, docs) ==> IndexAll(index, docs)[k].bookId == k
    ensures id in IndexAll(index, docs) <==> id in index || exists d :: d in docs && d.bookId == id
    ensures id in IndexAll(index, docs) ==>
              || IndexAll(index, docs)[id] in docs
              || (id in index && IndexAll(index, docs)[id] == index[id] && forall d :: d in docs ==> d.bookId != id)
    decreases |docs|
  {
    if docs != [] {
      assert docs == [docs[0]] + docs[1..];
      IndexAllLookup(index[docs[0].bookId := docs[0]], docs[1..], id);
    }
  }

  /** After `ReindexElastic`, an existing book has its document; another id only what was left over. */
  lemma ReindexLookup(index: Index, rows: seq<Row>, books: map<int, Row>, id: int)
    requires (forall k :: k in index ==> index[k].bookId == k) && NamedRows(books) && IsTable(rows, books)
    ensures var index' := ReindexElastic(index, rows);
            && (forall k :: k in index' ==> index'[k].bookId == k)
            && (id in books ==> id in index' && index'[id] == DocOf(books[id]))
            && (id !in books ==> (id in index' <==> books == map[] && id in index))
  {
    var docs := Docs(rows);
    IndexAllLookup(index, docs, id);
    if id in books {
      var i :| 0 <= i < |rows| && rows[i] == books[id];
      assert docs[i] == DocOf(books[id]) && DocIds(docs)[i] == id;
      OneDoc(rows, books, id);
    } else {
      forall d | d in docs ensures d.bookId != id {
        var i :| 0 <= i < |docs| && docs[i] == d;
        assert rows[i] in rows;
      }
      assert id !in DocIds(docs);
      EmptyTable(rows, books);
    }
  }

  lemma EmptyTable(rows: seq<Row>, books: map<int, Row>)
    requires IsTable(rows, books)
    ensures rows == [] <==> books == map[]
  {
    forall id | id in books ensures rows != [] {
      assert books[id] in rows;
    }
    if books.Keys != {} {
      HasMember(books.Keys);
    } else {
      assert books == map[];
    }
    assert rows != [] ==> rows[0] in rows;
  }

  lemma OneDoc(rows: seq<Row>, books: map<int, Row>, id: int)
    requires IsTable(rows, books) && id in books
    ensures forall d :: d in Docs(rows) && d.bookId == id ==> d == DocOf(books[id])
  {
    forall d | d in Docs(rows) && d.bookId == id ensures d == DocOf(books[id]) {
      var i :| 0 <= i < |rows| && Docs(rows)[i] == d;
      assert rows[i] in rows;
    }
  }

  /**
   * A full reindex makes Elasticsearch equal to the table exactly when the table has a book, or the
   * index held nothing to delete.
   */
  lemma ReindexIsEqualUnlessEmpty(t: Q.Tools, s: System, rows: seq<Row>)
    requires Sound(t, s) && IsTable(rows, s.books)
    ensures ReindexElastic(s.elastic, rows) == (map id | id in s.books :: DocOf(s.books[id]))
            <==> s.books != map[] || s.elastic == map[]
  {
    var index', table := ReindexElastic(s.elastic, rows), map id | id in s.books :: DocOf(s.books[id]);
    forall id ensures id in index' <==> id in table || (s.books == map[] && id in s.elastic) {
      ReindexLookup(s.elastic, rows, s.books, id);
    }
    forall id | id in s.books ensures id in index' && index'[id] == DocOf(s.books[id]) {
      ReindexLookup(s.elastic, rows, s.books, id);
    }
    if s.books == map[] && s.elastic != map[] {
      assert table == map[];
      HasMember(s.elastic.Keys);
      var id: int :| id in s.elastic.Keys;
      assert id in index' && id !in table;
    } else {
      assert index' == table;
    }
  }

  ghost predicate ElasticAgrees(s: System, id: int) {
    && (id in s.elastic <==> id in s.books)
    && (id in s.books ==> s.elastic[id] == DocOf(s.books[id]))
  }

  ghost predicate QdrantAgrees(t: Q.Tools, s: System, id: int) {
    && (id in s.qdrant <==> id in s.books && s.books[id].book.available)
    && (id in s.qdrant ==> s.qdrant[id] == Q.PointOf(t, s.books[id].book))
  }

  lemma SyncQdrantResult(t: Q.Tools, c: Q.Collection, books: map<int, Row>, id: int)
    requires Q.HashesMatch(t, c) && NamedRows(books)
    ensures Q.HashesMatch(t, SyncQdrant(t, c, books, id))
    ensures SyncQdrant(t, c, books, id)
            == if id in books && books[id].book.available then c[id := Q.PointOf(t, books[id].book)] else c - {id}
  {
    if id in books && books[id].book.available {
      var b := books[id].book;
      Q.UpsertKeepsHashes(t, c, [b]);
      assert [b][1..] == [];
      assert Q.UpsertAll(t, c, [b]) == Q.UpsertAll(t, c[id := Q.PointOf(t, b)], []);
    }
  }

  lemma SyncElasticResult(index: Index, books: map<int, Row>, id: int)
    requires NamedRows(books) && id in books
    ensures IndexAll(index, [DocOf(books[id])]) == index[id := DocOf(books[id])]
  {
    assert [DocOf(books[id])][1..] == [];
  }

  lemma QdrantReindexResult(t: Q.Tools, s: System, list: seq<Q.Book>, id: int)
    requires Sound(t, s) && Q.Injective(t) && IsAvailableList(list, s.books)
    ensures var s' := Step(t, s, QdrantReindex(list));
            Q.HashesMatch(t, s'.qdrant) && QdrantAgrees(t, s', id)
  {
    Q.ReconcileIsRebuild(t, s.qdrant, list);
    Q.RebuildMatches(t, list);
    Q.PlanResult(t, s.qdrant, list, id);
  }

  lemma StepIsSound(t: Q.Tools, s: System, a: Action)
    requires Sound(t, s) && Q.Injective(t) && Enabled(s, a)
    ensures Sound(t, Step(t, s, a))
  {
    match a
    case Edit(_, _) =>
    case SyncBook(id) =>
      SyncQdrantResult(t, s.qdrant, s.books, id);
      if id in s.books {
        SyncElasticResult(s.elastic, s.books, id);
      }
    case ElasticReindex(rows) => ReindexLookup(s.elastic, rows, s.books, 0);
    case QdrantReindex(list) => QdrantReindexResult(t, s, list, 0);
  }

  lemma SyncMakesAgree(t: Q.Tools, s: System, id: int)
    requires Sound(t, s)
    ensures ElasticAgrees(Sync(t, s, id), id) && QdrantAgrees(t, Sync(t, s, id), id)
  {
    SyncQdrantResult(t, s.qdrant, s.books, id);
    if id in s.books {
      SyncElasticResult(s.elastic, s.books, id);
    }
  }

  /** Nothing but an edit of the book itself disturbs an agreement. */
  lemma OnlyEditsDisturb(t: Q.Tools, s: System, a: Action, id: int)
    requires Sound(t, s) && Q.Injective(t) && Enabled(s, a) && !(a.Edit? && a.id == id)
    ensures ElasticAgrees(s, id) ==> ElasticAgrees(Step(t, s, a), id)
    ensures QdrantAgrees(t, s, id) ==> QdrantAgrees(t, Step(t, s, a), id)
  {
    match a
    case Edit(_, _) =>
    case SyncBook(other) =>
      if other == id {
        SyncMakesAgree(t, s, id);
      } else {
        SyncQdrantResult(t, s.qdrant, s.books, other);
        if other in s.books {
          SyncElasticResult(s.elastic, s.books, other);
        }
      }
    case ElasticReindex(rows) => ReindexLookup(s.elastic, rows, s.books, id);
    case QdrantReindex(list) => QdrantReindexResult(t, s, list, id);
  }

  lemma {:induction false} RunIsSound(t: Q.Tools, run: seq<System>, actions: seq<Action>, i: nat)
    requires IsRun(t, run, actions) && Q.Injective(t) && Sound(t, run[0]) && i <= |actions|
    ensures Sound(t, run[i])
  {
    if i > 0 {
      RunIsSound(t, run, actions, i - 1);
      StepIsSound(t, run[i - 1], actions[i - 1]);
    }
  }

  ghost predicate NotEdited(actions: seq<Action>, i: nat, k: nat, id: int) {
    forall j :: i <= j < k && j < |actions| ==> !(actions[j].Edit? && actions[j].id == id)
  }

  lemma {:induction false} AgreementLasts(t: Q.Tools, run: seq<System>, actions: seq<Action>, i: nat, k: nat, id: int)
    requires IsRun(t, run, actions) && Q.Injective(t) && Sound(t, run[0])
    requires i <= k <= |actions| && NotEdited(actions, i, k, id)
    ensures ElasticAgrees(run[i], id) ==> ElasticAgrees(run[k], id)
    ensures QdrantAgrees(t, run[i], id) ==> QdrantAgrees(t, run[k], id)
  {
    if i < k {
      AgreementLasts(t, run, actions, i, k - 1, id);
      RunIsSound(t, run, actions, k - 1);
      OnlyEditsDisturb(t, run[k - 1], actions[k - 1], id);
    }
  }

  /**
   * Over every interleaving: a book not edited since it was last synced agrees with Postgres in both
   * stores; since a full reindex, in the store reindexed - for Elasticsearch provided the book
   * existed, or the table was not empty, when it ran.
   */
  lemma StoresConverge(t: Q.Tools, run: seq<System>, actions: seq<Action>, i: nat, k: nat, id: int)
    requires IsRun(t, run, actions) && Q.Injective(t) && Sound(t, run[0])
    requires i < k <= |actions| && NotEdited(actions, i + 1, k, id)
    ensures actions[i] == SyncBook(id) ==> ElasticAgrees(run[k], id) && QdrantAgrees(t, run[k], id)
    ensures actions[i].QdrantReindex? ==> QdrantAgrees(t, run[k], id)
    ensures actions[i].ElasticReindex? && run[i].books != map[] ==> ElasticAgrees(run[k], id)
  {
    RunIsSound(t, run, actions, i);
    match actions[i] {
      case Edit(_, _) =>
      case SyncBook(b) => SyncMakesAgree(t, run[i], b);
      case ElasticReindex(rows) => ReindexLookup(run[i].elastic, rows, run[i].books, id);
      case QdrantReindex(list) => QdrantReindexResult(t, run[i], list, id);
    }
    AgreementLasts(t, run, actions, i + 1, k, id);
  }
}
