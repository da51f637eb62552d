/**
 * The books collection of the vector store and its reconciliation with Postgres. Every point carries
 * a hash of the text its vector was made from and a hash of its payload, so a run writes only what
 * has changed; the result is the collection a rebuild from scratch would give.
 */
module QdrantBooks {
  import opened Sequences

  const EMBED_BATCH_SIZE: nat := 100

  type Vector = seq<real>

  datatype Book = Book(id: int, title: string, description: Option<string>, authorId: int, authorName: string,
                       categoryId: int, categoryName: string, issueYear: Option<int>, rating: int, available: bool)

  datatype Core = Core(bookId: int, title: string, authorId: int, authorName: string,
                       categoryId: int, categoryName: string, rating: int, issueYear: Option<int>, available: bool)

  /** A payload written by other means may lack a hash. */
  datatype Payload = Payload(core: Core, embedHash: Option<string>, metaHash: Option<string>)

  datatype Point = Point(vector: Vector, payload: Payload)

  type Collection = map<int, Point>

  /** MD5, the JSON text of a payload, and the embedding model. */
  datatype Tools = Tools(md5: string -> string, json: Core -> string, embed: string -> Vector)

  /** No two texts share a hash, no two payloads a JSON text. */
  ghost predicate Injective(t: Tools) {
    (forall a, b :: t.md5(a) == t.md5(b) ==> a == b) && (forall a, b :: t.json(a) == t.json(b) ==> a == b)
  }

  // ---- texts, payloads, points ----

  function Digits(n: nat): string {
    if n < 10 then ["0123456789"[n]] else Digits(n / 10) + ["0123456789"[n % 10]]
  }

  function Show(n: int): string {
    if n < 0 then "-" + Digits(-n) else Digits(n)
  }

  /** The part of the description that is embedded. */
  function Excerpt(b: Book): string {
    if b.description.Some? then b.description.value[..Min(1000, |b.description.value|)] else ""
  }

  function Head(b: Book): string {
    "Title: " + b.title + ". Author: " + b.authorName + ". Category: " + b.categoryName
    + (if b.issueYear.Some? && b.issueYear.value != 0 then ". Released: " + Show(b.issueYear.value) else "")
  }

  function Tail(b: Book): string {
    if Excerpt(b) == "" then "" else ". " + Excerpt(b)
  }

  /** `BooksEmbeddingTextBuilder.execute`; the year 0 and an empty description count as absent. */
  function Text(b: Book): string {
    Head(b) + Tail(b)
  }

  function CoreOf(b: Book): Core {
    Core(b.id, b.title, b.authorId, b.authorName, b.categoryId, b.categoryName, b.rating, b.issueYear, b.available)
  }

  function PayloadOf(t: Tools, b: Book): Payload {
    Payload(CoreOf(b), Some(t.md5(Text(b))), Some(t.md5(t.json(CoreOf(b)))))
  }

  function PointOf(t: Tools, b: Book): Point {
    Point(t.embed(Text(b)), PayloadOf(t, b))
  }

  function IdsOf(books: seq<Book>): set<int> {
    set b | b in books :: b.id
  }

  /** The id is the primary key. */
  ghost predicate UniqueIds(books: seq<Book>) {
    forall i, j :: 0 <= i < j < |books| ==> books[i].id != books[j].id
  }

  // ---- the hash invariant ----

  /** A stored hash belongs to a text whose embedding is the vector, or to the payload beside it. */
  ghost predicate HashesMatch(t: Tools, c: Collection) {
    forall id :: id in c ==> PointMatches(t, c[id])
  }

  ghost predicate PointMatches(t: Tools, p: Point) {
    && (p.payload.embedHash.Some? ==> exists text :: p.payload.embedHash.value == t.md5(text) && p.vector == t.embed(text))
    && (p.payload.metaHash.Some? ==> p.payload.metaHash.value == t.md5(t.json(p.payload.core)))
  }

  lemma PointOfMatches(t: Tools, b: Book)
    ensures PointMatches(t, PointOf(t, b))
  {
    assert PointOf(t, b).vector == t.embed(Text(b));
  }

  // ---- what a run writes ----

  datatype Change = Embed | Meta | Unchanged

  function ChangeOf(t: Tools, c: Collection, b: Book): Change {
    if b.id !in c || c[b.id].payload.embedHash != Some(t.md5(Text(b))) then Embed
    else if c[b.id].payload.metaHash != PayloadOf(t, b).metaHash then Meta
    else Unchanged
  }

  /** The books of one kind of change, in order. */
  ghost function Select(t: Tools, c: Collection, books: seq<Book>, change: Change): seq<Book> {
    if books == [] then []
    else
      var b := books[|books| - 1];
      Select(t, c, books[..|books| - 1], change) + (if ChangeOf(t, c, b) == change then [b] else [])
  }

  function Stale(c: Collection, books: seq<Book>): set<int> {
    c.Keys - IdsOf(books)
  }

  datatype Write = Upsert(batch: seq<Book>) | Overwrite(book: Book) | Delete(ids: set<int>)

  ghost function UpsertAll(t: Tools, c: Collection, books: seq<Book>): Collection
    decreases |books|
  {
    if books == [] then c else UpsertAll(t, c[books[0].id := PointOf(t, books[0])], books[1..])
  }

  function OverwriteOne(t: Tools, c: Collection, b: Book): Collection {
    if b.id in c then c[b.id := c[b.id].(payload := PayloadOf(t, b))] else c
  }

  ghost function Apply(t: Tools, c: Collection, w: Write): Collection {
    match w
    case Upsert(batch) => UpsertAll(t, c, batch)
    case Overwrite(b) => OverwriteOne(t, c, b)
    case Delete(ids) => c - ids
  }

  ghost function ApplyAll(t: Tools, c: Collection, writes: seq<Write>): Collection
    decreases |writes|
  {
    if writes == [] then c else ApplyAll(t, Apply(t, c, writes[0]), writes[1..])
  }

  ghost function Batches(books: seq<Book>): seq<Write> {
    if books == [] then []
    else
      var n := Min(EMBED_BATCH_SIZE, |books|);
      [Upsert(books[..n])] + Batches(books[n..])
  }

  ghost function Overwrites(books: seq<Book>): seq<Write> {
    seq(|books|, i requires 0 <= i < |books| => Overwrite(books[i]))
  }

  ghost function Deletes(ids: set<int>): seq<Write> {
    if ids == {} then [] else [Delete(ids)]
  }

  /** The writes of `reconcile`, in order: embeddings in batches, payloads one by one, one deletion. */
  ghost function Plan(t: Tools, c: Collection, books: seq<Book>): seq<Write> {
    Batches(Select(t, c, books, Embed)) + Overwrites(Select(t, c, books, Meta)) + Deletes(Stale(c, books))
  }

  ghost function Rebuild(t: Tools, books: seq<Book>): Collection {
    UpsertAll(t, map[], books)
  }

  // ---- facts about the parts ----

  lemma {:induction false} SelectMember(t: Tools, c: Collection, books: seq<Book>, change: Change)
    ensures forall b :: b in Select(t, c, books, change) <==> b in books && ChangeOf(t, c, b) == change
    ensures UniqueIds(books) ==> UniqueIds(Select(t, c, books, change))
  {
    if books != [] {
      var front, last := books[..|books| - 1], books[|books| - 1];
      SelectMember(t, c, front, change);
      assert books == front + [last];
      assert UniqueIds(books) ==> forall b :: b in Select(t, c, front, change) ==> b in front && b.id != last.id;
    }
  }

  /** Every book falls under exactly one kind of change. */
  lemma {:induction false} SelectCounts(t: Tools, c: Collection, books: seq<Book>)
    ensures |Select(t, c, books, Embed)| + |Select(t, c, books, Meta)| + |Select(t, c, books, Unchanged)| == |books|
  {
    if books != [] {
      SelectCounts(t, c, books[..|books| - 1]);
    }
  }

  lemma {:induction false} UniqueIdsCount(books: seq<Book>)
    requires UniqueIds(books)
    ensures |IdsOf(books)| == |books|
  {
    if books == [] {
      assert IdsOf(books) == {};
    } else {
      var front, last := books[..|books| - 1], books[|books| - 1];
      UniqueIdsCount(front);
      assert books == front + [last];
      assert IdsOf(books) == IdsOf(front) + {last.id};
    }
  }

  lemma {:induction false} UpsertAppend(t: Tools, c: Collection, a: seq<Book>, b: seq<Book>)
    ensures UpsertAll(t, c, a + b) == UpsertAll(t, UpsertAll(t, c, a), b)
    decreases |a|
  {
    if a == [] {
      assert a + b == b;
    } else {
      assert (a + b)[1..] == a[1..] + b;
      UpsertAppend(t, c[a[0].id := PointOf(t, a[0])], a[1..], b);
    }
  }

  lemma {:induction false} BatchesUpsertAll(t: Tools, c: Collection, books: seq<Book>)
    ensures ApplyAll(t, c, Batches(books)) == UpsertAll(t, c, books)
    decreases |books|
  {
    if books != [] {
      var n := Min(EMBED_BATCH_SIZE, |books|);
      assert books == books[..n] + books[n..];
      UpsertAppend(t, c, books[..n], books[n..]);
      BatchesUpsertAll(t, UpsertAll(t, c, books[..n]), books[n..]);
      assert Batches(books)[1..] == Batches(books[n..]);
    }
  }

  lemma {:induction false} ApplyAppend(t: Tools, c: Collection, a: seq<Write>, b: seq<Write>)
    ensures ApplyAll(t, c, a + b) == ApplyAll(t, ApplyAll(t, c, a), b)
    decreases |a|
  {
    if a == [] {
      assert a + b == b;
    } else {
      assert (a + b)[1..] == a[1..] + b;
      ApplyAppend(t, Apply(t, c, a[0]), a[1..], b);
    }
  }

  lemma {:induction false} UpsertElsewhere(t: Tools, c: Collection, books: seq<Book>, id: int)
    requires id !in IdsOf(books)
    ensures id in UpsertAll(t, c, books) <==> id in c
    ensures id in c ==> UpsertAll(t, c, books)[id] == c[id]
    decreases |books|
  {
    if books != [] {
      UpsertElsewhere(t, c[books[0].id := PointOf(t, books[0])], books[1..], id);
    }
  }

  lemma {:induction false} UpsertWrites(t: Tools, c: Collection, books: seq<Book>, b: Book)
    requires UniqueIds(books) && b in books
    ensures b.id in UpsertAll(t, c, books) && UpsertAll(t, c, books)[b.id] == PointOf(t, b)
    decreases |books|
  {
    var c' := c[books[0].id := PointOf(t, books[0])];
    if b == books[0] {
      UpsertElsewhere(t, c', books[1..], b.id);
    } else {
      UpsertWrites(t, c', books[1..], b);
    }
  }

  lemma {:induction false} OverwritesElsewhere(t: Tools, c: Collection, books: seq<Book>, id: int)
    ensures id in ApplyAll(t, c, Overwrites(books)) <==> id in c
    ensures id in c ==> ApplyAll(t, c, Overwrites(books))[id].vector == c[id].vector
    ensures id in c && id !in IdsOf(books) ==> ApplyAll(t, c, Overwrites(books))[id] == c[id]
    decreases |books|
  {
    if books != [] {
      assert Overwrites(books)[1..] == Overwrites(books[1..]);
      OverwritesElsewhere(t, OverwriteOne(t, c, books[0]), books[1..], id);
    }
  }

  lemma {:induction false} OverwritesWrite(t: Tools, c: Collection, books: seq<Book>, b: Book)
    requires UniqueIds(books) && b in books && b.id in c
    ensures b.id in ApplyAll(t, c, Overwrites(books))
    ensures ApplyAll(t, c, Overwrites(books))[b.id] == c[b.id].(payload := PayloadOf(t, b))
    decreases |books|
  {
    assert Overwrites(books)[1..] == Overwrites(books[1..]);
    var c' := OverwriteOne(t, c, books[0]);
    if b == books[0] {
      OverwritesElsewhere(t, c', books[1..], b.id);
    } else {
      assert books[0].id != b.id;
      OverwritesWrite(t, c', books[1..], b);
    }
  }

  // ---- reconciling equals rebuilding ----

  ghost predicate Right(t: Tools, c: Collection, b: Book) {
    b.id in c && c[b.id] == PointOf(t, b)
  }

  /** Equal hashes mean an equal point: unchanged books are exactly those already right. */
  lemma UnchangedIsRight(t: Tools, c: Collection, b: Book)
    requires Injective(t) && HashesMatch(t, c)
    ensures ChangeOf(t, c, b) == Unchanged <==> Right(t, c, b)
    ensures ChangeOf(t, c, b) != Embed ==> c[b.id].vector == t.embed(Text(b))
  {
    if b.id in c {
      assert PointMatches(t, c[b.id]);
    }
  }

  lemma PlanResult(t: Tools, c: Collection, books: seq<Book>, id: int)
    requires Injective(t) && HashesMatch(t, c) && UniqueIds(books)
    ensures id in ApplyAll(t, c, Plan(t, c, books)) <==> id in IdsOf(books)
    ensures forall b :: b in books && b.id == id ==> Right(t, ApplyAll(t, c, Plan(t, c, books)), b)
  {
    var e, m := Select(t, c, books, Embed), Select(t, c, books, Meta);
    SelectMember(t, c, books, Embed);
    SelectMember(t, c, books, Meta);
    BatchesUpsertAll(t, c, e);
    ApplyAppend(t, c, Batches(e), Overwrites(m));
    ApplyAppend(t, c, Batches(e) + Overwrites(m), Deletes(Stale(c, books)));
    var c1 := UpsertAll(t, c, e);
    var c2 := ApplyAll(t, c1, Overwrites(m));
    assert ApplyAll(t, c, Plan(t, c, books)) == ApplyAll(t, c2, Deletes(Stale(c, books)));
    DeletesResult(t, c2, Stale(c, books));
    OverwritesElsewhere(t, c1, m, id);
    if b :| b in books && b.id == id {
      UnchangedIsRight(t, c, b);
      SameBook(books, b);
      match ChangeOf(t, c, b)
      case Embed => UpsertWrites(t, c, e, b);
      case Meta =>
        UpsertElsewhere(t, c, e, id);
        OverwritesWrite(t, c1, m, b);
      case Unchanged => UpsertElsewhere(t, c, e, id);
    } else {
      UpsertElsewhere(t, c, e, id);
    }
  }

  lemma SameBook(books: seq<Book>, b: Book)
    requires UniqueIds(books) && b in books
    ensures forall b' :: b' in books && b'.id == b.id ==> b' == b
  {
  }

  lemma DeletesResult(t: Tools, c: Collection, ids: set<int>)
    ensures ApplyAll(t, c, Deletes(ids)) == c - ids
  {
    if ids != {} {
      assert Deletes(ids)[1..] == [];
    }
  }

  /** From any collection whose hashes match its contents, a run ends with what a rebuild gives. */
  lemma ReconcileIsRebuild(t: Tools, c: Collection, books: seq<Book>)
    requires Injective(t) && HashesMatch(t, c) && UniqueIds(books)
    ensures ApplyAll(t, c, Plan(t, c, books)) == Rebuild(t, books)
  {
    var got, want := ApplyAll(t, c, Plan(t, c, books)), Rebuild(t, books);
    forall id ensures (id in got <==> id in want) && (id in got ==> got[id] == want[id]) {
      PlanResult(t, c, books, id);
      if b :| b in books && b.id == id {
        UpsertWrites(t, map[], books, b);
      } else {
        UpsertElsewhere(t, map[], books, id);
      }
    }
  }

  /** A run writes nothing at all exactly when the collection is already what a rebuild gives. */
  lemma NothingToDoWhenRight(t: Tools, c: Collection, books: seq<Book>)
    requires Injective(t) && HashesMatch(t, c) && UniqueIds(books)
    ensures Plan(t, c, books) == [] <==> c == Rebuild(t, books)
    ensures c == Rebuild(t, books) ==> Select(t, c, books, Unchanged) == books
  {
    ReconcileIsRebuild(t, c, books);
    if c == Rebuild(t, books) {
      forall b | b in books ensures ChangeOf(t, c, b) == Unchanged {
        UpsertWrites(t, map[], books, b);
        UnchangedIsRight(t, c, b);
      }
      SelectAll(t, c, books);
      forall id | id in c ensures id in IdsOf(books) {
        PlanResult(t, c, books, id);
      }
      assert Stale(c, books) == {};
    }
  }

  lemma {:induction false} SelectAll(t: Tools, c: Collection, books: seq<Book>)
    requires forall b :: b in books ==> ChangeOf(t, c, b) == Unchanged
    ensures Select(t, c, books, Unchanged) == books
    ensures Select(t, c, books, Embed) == [] && Select(t, c, books, Meta) == []
  {
    if books != [] {
      var front, last := books[..|books| - 1], books[|books| - 1];
      assert books == front + [last];
      assert last in books && ChangeOf(t, c, last) == Unchanged;
      SelectAll(t, c, front);
    }
  }

  lemma RebuildMatches(t: Tools, books: seq<Book>)
    requires UniqueIds(books)
    ensures HashesMatch(t, Rebuild(t, books))
  {
    var c := Rebuild(t, books);
    forall id | id in c ensures PointMatches(t, c[id]) {
      if b :| b in books && b.id == id {
        UpsertWrites(t, map[], books, b);
        PointOfMatches(t, b);
      } else {
        UpsertElsewhere(t, map[], books, id);
      }
    }
  }

  /** A second run over the same books embeds, updates and deletes nothing. */
  lemma SecondRunIsIdle(t: Tools, c: Collection, books: seq<Book>)
    requires Injective(t) && HashesMatch(t, c) && UniqueIds(books)
    ensures var c' := ApplyAll(t, c, Plan(t, c, books));
            HashesMatch(t, c') && Plan(t, c', books) == [] && Select(t, c', books, Unchanged) == books
  {
    ReconcileIsRebuild(t, c, books);
    RebuildMatches(t, books);
    NothingToDoWhenRight(t, Rebuild(t, books), books);
  }

  // ---- what a point depends on ----

  /** Of two books with the same payload, the points differ exactly when the first 1000 characters of the description do. */
  lemma PointFollowsExcerpt(t: Tools, a: Book, b: Book)
    requires Injective(t) && CoreOf(a) == CoreOf(b)
    ensures PointOf(t, a) == PointOf(t, b) <==> Excerpt(a) == Excerpt(b)
  {
    if PointOf(t, a) == PointOf(t, b) {
      assert t.md5(Text(a)) == t.md5(Text(b));
      assert Text(a)[|Head(a)|..] == Tail(a) && Text(b)[|Head(b)|..] == Tail(b);
      if Excerpt(a) != "" {
        assert Tail(a)[2..] == Excerpt(a) && Tail(b)[2..] == Excerpt(b);
      }
    }
  }

  /** A change of any payload field is noticed. */
  lemma PointShowsPayload(t: Tools, a: Book, b: Book)
    requires Injective(t) && CoreOf(a) != CoreOf(b)
    ensures ChangeOf(t, map[b.id := PointOf(t, a)], b) != Unchanged
  {
    assert t.json(CoreOf(a)) != t.json(CoreOf(b));
  }

  // ---- a run cut short ----

  /** The vectors the remaining payload updates rely on are in place. */
  ghost predicate Ready(t: Tools, c: Collection, metas: seq<Book>) {
    forall b :: b in metas ==> b.id in c && c[b.id].vector == t.embed(Text(b))
  }

  /** A write of the plan: batches of books that need embedding, payloads of books that do not. */
  ghost predicate OfPlan(w: Write, embeds: seq<Book>, metas: seq<Book>, books: seq<Book>) {
    match w
    case Upsert(batch) => forall b :: b in batch ==> b in embeds
    case Overwrite(b) => b in metas
    case Delete(ids) => ids !! IdsOf(books)
  }

  lemma {:induction false} UpsertKeepsHashes(t: Tools, c: Collection, batch: seq<Book>)
    requires HashesMatch(t, c)
    ensures HashesMatch(t, UpsertAll(t, c, batch))
    decreases |batch|
  {
    if batch != [] {
      PointOfMatches(t, batch[0]);
      UpsertKeepsHashes(t, c[batch[0].id := PointOf(t, batch[0])], batch[1..]);
    }
  }

  lemma WriteKeepsHashes(t: Tools, c: Collection, w: Write, embeds: seq<Book>, metas: seq<Book>, books: seq<Book>)
    requires HashesMatch(t, c) && Ready(t, c, metas) && OfPlan(w, embeds, metas, books)
    requires (forall b :: b in metas ==> b in books) && IdsOf(embeds) !! IdsOf(metas)
    ensures HashesMatch(t, Apply(t, c, w)) && Ready(t, Apply(t, c, w), metas)
  {
    match w
    case Upsert(batch) =>
      UpsertKeepsHashes(t, c, batch);
      forall b | b in metas ensures b.id in UpsertAll(t, c, batch) && UpsertAll(t, c, batch)[b.id] == c[b.id] {
        assert b.id in IdsOf(metas);
        assert forall e :: e in batch ==> e.id in IdsOf(embeds);
        UpsertElsewhere(t, c, batch, b.id);
      }
    case Overwrite(b) =>
      PointOfMatches(t, b);
      assert PointMatches(t, c[b.id].(payload := PayloadOf(t, b)));
    case Delete(ids) =>
      assert forall b :: b in metas ==> b.id in IdsOf(books);
  }

  lemma {:induction false} PrefixKeepsHashes(t: Tools, c: Collection, writes: seq<Write>, embeds: seq<Book>,
          metas: seq<Book>, books: seq<Book>)
    requires HashesMatch(t, c) && Ready(t, c, metas)
    requires forall w :: w in writes ==> OfPlan(w, embeds, metas, books)
    requires (forall b :: b in metas ==> b in books) && IdsOf(embeds) !! IdsOf(metas)
    ensures HashesMatch(t, ApplyAll(t, c, writes))
    decreases |writes|
  {
    if writes != [] {
      WriteKeepsHashes(t, c, writes[0], embeds, metas, books);
      PrefixKeepsHashes(t, Apply(t, c, writes[0]), writes[1..], embeds, metas, books);
    }
  }

  lemma {:induction false} BatchesOfPlan(batchOf: seq<Book>, embeds: seq<Book>, metas: seq<Book>, books: seq<Book>)
    requires forall b :: b in batchOf ==> b in embeds
    ensures forall w :: w in Batches(batchOf) ==> OfPlan(w, embeds, metas, books)
  {
    if batchOf != [] {
      BatchesOfPlan(batchOf[Min(EMBED_BATCH_SIZE, |batchOf|)..], embeds, metas, books);
    }
  }

  lemma PlanIsOfPlan(t: Tools, c: Collection, books: seq<Book>)
    requires Injective(t) && HashesMatch(t, c) && UniqueIds(books)
    ensures var embeds, metas := Select(t, c, books, Embed), Select(t, c, books, Meta);
            && (forall w :: w in Plan(t, c, books) ==> OfPlan(w, embeds, metas, books))
            && (forall b :: b in metas ==> b in books) && IdsOf(embeds) !! IdsOf(metas)
            && Ready(t, c, metas)
  {
    var embeds, metas := Select(t, c, books, Embed), Select(t, c, books, Meta);
    SelectMember(t, c, books, Embed);
    SelectMember(t, c, books, Meta);
    BatchesOfPlan(embeds, embeds, metas, books);
    forall b | b in metas ensures b.id in c && c[b.id].vector == t.embed(Text(b)) {
      UnchangedIsRight(t, c, b);
    }
    forall a, b | a in embeds && b in metas ensures a.id != b.id {
      if a.id == b.id {
        SameBook(books, a);
      }
    }
  }

  /**
   * A run that stops after any number of its writes leaves the hashes true, so the next run, over
   * whatever books Postgres then holds, still ends with the rebuilt collection.
   */
  lemma InterruptedRunConverges(t: Tools, c: Collection, books: seq<Book>, k: nat, later: seq<Book>)
    requires Injective(t) && HashesMatch(t, c) && UniqueIds(books) && UniqueIds(later)
    requires k <= |Plan(t, c, books)|
    ensures var c' := ApplyAll(t, c, Plan(t, c, books)[..k]);
            HashesMatch(t, c') && ApplyAll(t, c', Plan(t, c', later)) == Rebuild(t, later)
  {
    PlanIsOfPlan(t, c, books);
    PrefixKeepsHashes(t, c, Plan(t, c, books)[..k], Select(t, c, books, Embed), Select(t, c, books, Meta), books);
    ReconcileIsRebuild(t, ApplyAll(t, c, Plan(t, c, books)[..k]), later);
  }
}
