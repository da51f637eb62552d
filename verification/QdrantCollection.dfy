/** `BooksQdrantCollection`: scrolling, embedding in batches and reconciling, write by write. */
module QdrantCollection {
  import opened Sequences
  import opened QdrantBooks

  const SCROLL_BATCH_SIZE: nat := 1000

  type Hashes = (Option<string>, Option<string>)

  datatype Stats = Stats(embedded: nat, metaUpdated: nat, deleted: nat, untouched: int)

  /** Ids still to come after a page. */
  ghost function Rest(c: Collection, next: Option<int>): set<int> {
    if next.None? then {} else From(c, next)
  }

  function HashesOf(p: Point): Hashes {
    (p.payload.embedHash, p.payload.metaHash)
  }

  /** Ids from the offset on. */
  function From(c: Collection, offset: Option<int>): set<int> {
    set id | id in c && (offset.None? || offset.value <= id)
  }

  method Smallest(ids: set<int>) returns (least: int)
    requires ids != {}
    ensures least in ids && forall id :: id in ids ==> least <= id
  {
    HasMember(ids);
    least :| least in ids;
    var rest := ids - {least};
    while rest != {}
      invariant rest <= ids && least in ids
      invariant forall id :: id in ids && id !in rest ==> least <= id
    {
      HasMember(rest);
      var id :| id in rest;
      if id < least {
        least := id;
      }
      rest := rest - {id};
    }
  }

  lemma PagesAddUp(all: set<int>, rest: set<int>, rest': set<int>)
    requires rest' <= rest <= all
    ensures (all - rest) + (rest - rest') == all - rest'
  {
  }

  class BooksCollection {
    var points: Collection
    const tools: Tools

    /** One page in id order and the id the next page starts with. */
    method Scroll(limit: nat, offset: Option<int>) returns (page: seq<int>, next: Option<int>)
      requires limit >= 1
      ensures Elements(page) == From(points, offset) - Rest(points, next)
      ensures next.Some? ==> From(points, next) < From(points, offset)
      ensures |page| <= limit && forall k :: 0 <= k < |page| ==> page[k] in points
    {
      page := [];
      var rest := From(points, offset);
      while rest != {} && |page| < limit
        invariant rest <= From(points, offset) && |page| <= limit
        invariant Elements(page) == From(points, offset) - rest
        invariant forall a, b :: a in page && b in rest ==> a < b
      {
        var id := Smallest(rest);
        assert Elements(page + [id]) == Elements(page) + {id};
        page := page + [id];
        rest := rest - {id};
      }
      next := None;
      if rest != {} {
        var first := Smallest(rest);
        next := Some(first);
        assert page[0] in Elements(page);
        forall id | id in From(points, offset) ensures id in rest <==> first <= id {
          if id !in rest {
            assert id in Elements(page) && id in page;
          }
        }
        assert From(points, next) == rest;
      }
      forall k | 0 <= k < |page| ensures page[k] in points {
        assert page[k] in Elements(page);
      }
    }

    method ExistingHashes() returns (result: map<int, Hashes>)
      ensures result.Keys == points.Keys && AllTrue(result)
    {
      result := map[];
      var offset: Option<int> := None;
      var done := false;
      while !done
        invariant result.Keys == if done then points.Keys else points.Keys - From(points, offset)
        invariant AllTrue(result)
        decreases !done, |From(points, offset)|
      {
        result, offset := ReadPage(result, offset);
        done := offset.None?;
      }
    }

    method ReadPage(known: map<int, Hashes>, offset: Option<int>) returns (result: map<int, Hashes>, next: Option<int>)
      requires known.Keys == points.Keys - From(points, offset) && AllTrue(known)
      ensures AllTrue(result)
      ensures result.Keys == points.Keys - Rest(points, next)
      ensures next.Some? ==> |From(points, next)| < |From(points, offset)|
    {
      var page;
      page, next := Scroll(SCROLL_BATCH_SIZE, offset);
      result := AddPage(known, page);
      PagesAddUp(points.Keys, From(points, offset), Rest(points, next));
      if next.Some? {
        ProperSubsetSize(From(points, next), From(points, offset));
      }
    }

    predicate AllTrue(known: map<int, Hashes>)
      reads this`points
    {
      forall id :: id in known ==> id in points && known[id] == HashesOf(points[id])
    }

    method AddPage(known: map<int, Hashes>, page: seq<int>) returns (result: map<int, Hashes>)
      requires AllTrue(known) && forall k :: 0 <= k < |page| ==> page[k] in points
      ensures result.Keys == known.Keys + Elements(page) && AllTrue(result)
    {
      result := known;
      var i := 0;
      while i < |page|
        invariant 0 <= i <= |page|
        invariant result.Keys == known.Keys + Elements(page[..i]) && AllTrue(result)
      {
        assert page[..i + 1] == page[..i] + [page[i]];
        result := result[page[i] := HashesOf(points[page[i]])];
        i := i + 1;
      }
      assert page[..|page|] == page;
    }

    method SaveBatch(batch: seq<Book>, vectors: seq<Vector>)
      requires |vectors| == |batch| && forall i :: 0 <= i < |batch| ==> vectors[i] == tools.embed(Text(batch[i]))
      modifies this`points
      ensures points == UpsertAll(tools, old(points), batch)
    {
      var i := 0;
      assert batch[0..] == batch;
      while i < |batch|
        invariant 0 <= i <= |batch|
        invariant UpsertAll(tools, old(points), batch) == UpsertAll(tools, points, batch[i..])
      {
        assert batch[i..][0] == batch[i] && batch[i..][1..] == batch[i + 1..];
        points := points[batch[i].id := Point(vectors[i], PayloadOf(tools, batch[i]))];
        i := i + 1;
      }
    }

    method EmbedAndUpsert(books: seq<Book>)
      modifies this`points
      ensures points == ApplyAll(tools, old(points), Batches(books))
      ensures points == UpsertAll(tools, old(points), books)
    {
      BatchesUpsertAll(tools, points, books);
      var rest := books;
      while rest != []
        invariant ApplyAll(tools, old(points), Batches(books)) == ApplyAll(tools, points, Batches(rest))
        decreases |rest|
      {
        var n := Min(EMBED_BATCH_SIZE, |rest|);
        var batch := rest[..n];
        var vectors := seq(n, i requires 0 <= i < n => tools.embed(Text(batch[i])));
        assert Batches(rest)[1..] == Batches(rest[n..]);
        SaveBatch(batch, vectors);
        rest := rest[n..];
      }
    }

    /** Unconditional upsert, used for one changed book. */
    method MakeIndex(books: seq<Book>)
      modifies this`points
      ensures points == UpsertAll(tools, old(points), books)
    {
      if books == [] {
        return;
      }
      EmbedAndUpsert(books);
    }

    method Remove(id: int)
      modifies this`points
      ensures points == old(points) - {id}
    {
      points := points - {id};
    }

    method OverwritePayloads(books: seq<Book>)
      modifies this`points
      ensures points == ApplyAll(tools, old(points), Overwrites(books))
    {
      var i := 0;
      assert books[0..] == books;
      while i < |books|
        invariant 0 <= i <= |books|
        invariant ApplyAll(tools, old(points), Overwrites(books)) == ApplyAll(tools, points, Overwrites(books[i..]))
      {
        assert Overwrites(books[i..])[1..] == Overwrites(books[i + 1..]);
        var b := books[i];
        if b.id in points {
          points := points[b.id := points[b.id].(payload := PayloadOf(tools, b))];
        }
        i := i + 1;
      }
    }

    method CompareOne(existing: map<int, Hashes>, b: Book) returns (change: Change)
      requires existing.Keys == points.Keys && AllTrue(existing)
      ensures change == ChangeOf(tools, points, b)
    {
      var embedHash := tools.md5(Text(b));
      if b.id !in existing || existing[b.id].0 != Some(embedHash) {
        return Embed;
      } else if existing[b.id].1 != PayloadOf(tools, b).metaHash {
        return Meta;
      }
      return Unchanged;
    }

    /** Sort the books by what has to be done for each. */
    method Compare(existing: map<int, Hashes>, books: seq<Book>) returns (actual: set<int>, toEmbed: seq<Book>,
            metaUpdates: seq<Book>)
      requires existing.Keys == points.Keys && AllTrue(existing)
      ensures actual == IdsOf(books)
      ensures toEmbed == Select(tools, points, books, Embed) && metaUpdates == Select(tools, points, books, Meta)
    {
      actual, toEmbed, metaUpdates := {}, [], [];
      var i := 0;
      while i < |books|
        invariant 0 <= i <= |books|
        invariant actual == IdsOf(books[..i])
        invariant toEmbed == Select(tools, points, books[..i], Embed)
        invariant metaUpdates == Select(tools, points, books[..i], Meta)
      {
        var b := books[i];
        assert books[..i + 1][..i] == books[..i];
        assert books[..i + 1] == books[..i] + [b];
        actual := actual + {b.id};
        var change := CompareOne(existing, b);
        if change == Embed {
          toEmbed := toEmbed + [b];
        } else if change == Meta {
          metaUpdates := metaUpdates + [b];
        }
        i := i + 1;
      }
      assert books[..|books|] == books;
    }

    /** The collection becomes the one a rebuild gives; the statistics say what had to be done. */
    method Reconcile(books: seq<Book>) returns (stats: Stats)
      modifies this`points
      ensures points == ApplyAll(tools, old(points), Plan(tools, old(points), books))
      ensures Injective(tools) && HashesMatch(tools, old(points)) && UniqueIds(books) ==> points == Rebuild(tools, books)
      ensures stats.embedded == |Select(tools, old(points), books, Embed)|
      ensures stats.metaUpdated == |Select(tools, old(points), books, Meta)|
      ensures stats.deleted == |Stale(old(points), books)|
      ensures UniqueIds(books) ==> stats.untouched == |Select(tools, old(points), books, Unchanged)|
    {
      ghost var c := points;
      var existing := ExistingHashes();
      var actual, toEmbed, metaUpdates := Compare(existing, books);
      var toDelete := existing.Keys - actual;
      WritePlan(books, toEmbed, metaUpdates, toDelete);
      stats := Stats(|toEmbed|, |metaUpdates|, |toDelete|, |actual| - |toEmbed| - |metaUpdates|);
      SelectCounts(tools, c, books);
      if UniqueIds(books) {
        UniqueIdsCount(books);
        if Injective(tools) && HashesMatch(tools, c) {
          ReconcileIsRebuild(tools, c, books);
        }
      }
    }

    method WritePlan(ghost books: seq<Book>, toEmbed: seq<Book>, metaUpdates: seq<Book>, toDelete: set<int>)
      requires toEmbed == Select(tools, points, books, Embed) && metaUpdates == Select(tools, points, books, Meta)
      requires toDelete == Stale(points, books)
      modifies this`points
      ensures points == ApplyAll(tools, old(points), Plan(tools, old(points), books))
    {
      ApplyAppend(tools, points, Batches(toEmbed), Overwrites(metaUpdates));
      ApplyAppend(tools, points, Batches(toEmbed) + Overwrites(metaUpdates), Deletes(toDelete));
      EmbedAndUpsert(toEmbed);
      OverwritePayloads(metaUpdates);
      DeletesResult(tools, points, toDelete);
      if toDelete != {} {
        points := points - toDelete;
      } else {
        assert points - {} == points;
      }
    }
  }
}
