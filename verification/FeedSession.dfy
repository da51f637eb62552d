/**
 * The cursor over a whole feed session: every page is served from the cursor the page before gave.
 * Whichever sources fail on the way, the others' guarantees carry across the session.
 */
module FeedSession {
  import opened Sequences
  import opened Catalog
  import Blender
  import Feed
  import FeedSources
  import NewBooks
  import Personalized
  import PopularBooks

  /** One served page: the cursor and profile it came with, what was answered, the sources, and the request. */
  datatype Served = Served(cursor: Feed.Cursor, profile: FeedSources.Profile, answers: FeedSources.Answers,
          sources: Feed.Sources, pattern: seq<Blender.Slot>, existing: set<int>)

  function RequestOf(p: Served): Feed.Request {
    Feed.Request(Feed.Queues(p.sources), p.pattern, p.existing)
  }

  function Requests(pages: seq<Served>): seq<Feed.Request> {
    seq(|pages|, k requires 0 <= k < |pages| => RequestOf(pages[k]))
  }

  /** The exclusions page k is served with: the session's stored list then. */
  ghost function ExcludedAt(pages: seq<Served>, k: nat): seq<int>
    requires k <= |pages|
  {
    Feed.SeenAfter(Requests(pages[..k]))
  }

  ghost predicate IsServed(catalog: set<Book>, drawKey: int -> int, pages: seq<Served>, k: nat)
    requires k < |pages|
  {
    var p := pages[k];
    && !Feed.AnyCancelled(p.sources)
    && FeedSources.Moves(catalog, drawKey, p.profile, p.answers, ExcludedAt(pages, k), p.cursor, p.sources)
    && Blender.IsShuffledPattern(p.pattern) && Feed.Honours(Feed.Queues(p.sources), ExcludedAt(pages, k))
    && (k + 1 < |pages| ==> pages[k + 1].cursor == Feed.NextCursor(p.cursor, p.sources))
  }

  /** A session starts with the initial cursor and follows the cursors it is given. */
  ghost predicate IsSession(catalog: set<Book>, drawKey: int -> int, pages: seq<Served>) {
    && pages != []
    && pages[0].cursor == Feed.InitialCursor(pages[0].cursor.seed, pages[0].cursor.sessionId)
    && forall k :: 0 <= k < |pages| ==> IsServed(catalog, drawKey, pages, k)
  }

  function After(p: Served): Option<PopularBooks.Cursor> {
    PopularBooks.Filter(p.cursor.popularLastScore, p.cursor.popularLastId)
  }

  /** Pages are numbered, and the seed of all draws, the session and the pairing of score and id stay. */
  lemma {:induction false} CursorCountsPages(catalog: set<Book>, drawKey: int -> int, pages: seq<Served>, k: nat)
    requires IsSession(catalog, drawKey, pages) && k < |pages|
    ensures var c, first := pages[k].cursor, pages[0].cursor;
            && c.page == k && c.seed == first.seed && c.sessionId == first.sessionId
            && (c.popularLastScore.Some? <==> c.popularLastId.Some?)
  {
    if k > 0 {
      CursorCountsPages(catalog, drawKey, pages, k - 1);
      assert IsServed(catalog, drawKey, pages, k - 1);
    }
  }

  /** What the new-books source contributed, and its part of the cursor before and after. */
  ghost function NewPicks(pages: seq<Served>): seq<seq<int>> {
    seq(|pages|, k requires 0 <= k < |pages| => Feed.Ids(pages[k].sources.newest))
  }

  ghost function NewCursors(pages: seq<Served>): seq<Option<int>>
    requires pages != []
  {
    var last := pages[|pages| - 1];
    seq(|pages|, k requires 0 <= k < |pages| => pages[k].cursor.newLastId)
    + [Feed.NextCursor(last.cursor, last.sources).newLastId]
  }

  ghost function Categories(pages: seq<Served>): seq<seq<int>> {
    seq(|pages|, k requires 0 <= k < |pages| => pages[k].profile.topCategories)
  }

  lemma NewPageAt(catalog: set<Book>, drawKey: int -> int, pages: seq<Served>, k: nat)
    requires IsSession(catalog, drawKey, pages) && k < |pages|
    ensures NewBooks.IsPage(catalog, pages[k].profile.topCategories, pages[k].cursor.newLastId, NewPicks(pages)[k],
                            NewCursors(pages)[k + 1])
  {
    assert IsServed(catalog, drawKey, pages, k);
    assert NewCursors(pages)[k + 1] == Feed.NextCursor(pages[k].cursor, pages[k].sources).newLastId;
  }

  /** No book comes from the new-books source on two pages of a session, failures in between or not. */
  lemma NewPicksNeverRepeat(catalog: set<Book>, drawKey: int -> int, pages: seq<Served>, i: nat, j: nat)
    requires IsSession(catalog, drawKey, pages) && i < j < |pages|
    ensures Elements(Feed.Ids(pages[i].sources.newest)) !! Elements(Feed.Ids(pages[j].sources.newest))
  {
    var cursors, picks, categories := NewCursors(pages), NewPicks(pages), Categories(pages);
    forall k | 0 <= k < |picks| ensures NewBooks.IsPage(catalog, categories[k], cursors[k], picks[k], cursors[k + 1]) {
      NewPageAt(catalog, drawKey, pages, k);
    }
    NewBooks.PagesAreDisjoint(catalog, cursors, categories, picks, i, j);
    assert picks[i] == Feed.Ids(pages[i].sources.newest) && picks[j] == Feed.Ids(pages[j].sources.newest);
  }

  /** One page never moves the popular cursor back, and moves it on when the source sets it. */
  lemma PopularStep(catalog: set<Book>, drawKey: int -> int, pages: seq<Served>, k: nat)
    requires IsSession(catalog, drawKey, pages) && k + 1 < |pages|
    ensures After(pages[k]).Some? ==>
              && After(pages[k + 1]).Some?
              && var a, b := After(pages[k]).value, After(pages[k + 1]).value;
                 a == b || PopularBooks.Before(a, b)
    ensures var s := pages[k].sources.popular;
            s.Done? && s.value.1.Some? ==>
              After(pages[k + 1]) == s.value.1 && (After(pages[k]).Some? ==> After(pages[k + 1]) != After(pages[k]))
  {
    assert IsServed(catalog, drawKey, pages, k);
    CursorCountsPages(catalog, drawKey, pages, k);
  }

  /** Over a session the popular cursor only ever goes down the (score, id) order. */
  lemma {:induction false} PopularCursorDescends(catalog: set<Book>, drawKey: int -> int, pages: seq<Served>, i: nat, j: nat)
    requires IsSession(catalog, drawKey, pages) && i <= j < |pages| && After(pages[i]).Some?
    ensures After(pages[j]).Some?
    ensures var a, b := After(pages[i]).value, After(pages[j]).value;
            a == b || PopularBooks.Before(a, b)
  {
    if i < j {
      PopularCursorDescends(catalog, drawKey, pages, i, j - 1);
      PopularStep(catalog, drawKey, pages, j - 1);
    }
  }

  // ---- the personalized source ----

  /** What the personalized source did on a page. */
  function Personally(p: Served): Personalized.Served {
    if p.sources.personalized.Done?
    then Personalized.Page(p.profile.hasVector, FeedSources.FoundEnough(p.answers))
    else Personalized.Failed
  }

  ghost function PersonalizedPages(pages: seq<Served>): seq<Personalized.Served> {
    seq(|pages|, k requires 0 <= k < |pages| => Personally(pages[k]))
  }

  /** One page moves the personalized status of the cursor as the source did, or leaves it. */
  lemma PersonalizedStep(catalog: set<Book>, drawKey: int -> int, pages: seq<Served>, k: nat)
    requires k < |pages| && IsServed(catalog, drawKey, pages, k)
    ensures var before, next := pages[k].cursor, Feed.NextCursor(pages[k].cursor, pages[k].sources);
            next.personalized
            == match Personally(pages[k])
               case Failed => before.personalized
               case Page(v, e) => Personalized.NextStatus(v, e, before.personalized, 8)
  {
  }

  lemma CursorFollows(catalog: set<Book>, drawKey: int -> int, pages: seq<Served>, k: nat)
    requires IsSession(catalog, drawKey, pages) && 0 < k < |pages|
    ensures pages[k].cursor == Feed.NextCursor(pages[k - 1].cursor, pages[k - 1].sources)
  {
    assert IsServed(catalog, drawKey, pages, k - 1);
  }

  lemma StatusNext(served: seq<Personalized.Served>, k: nat)
    requires k < |served|
    ensures Personalized.StatusOver(served[..k + 1], 8)
            == match served[k]
               case Failed => Personalized.StatusOver(served[..k], 8)
               case Page(v, e) => Personalized.NextStatus(v, e, Personalized.StatusOver(served[..k], 8), 8)
  {
    assert served[..k + 1][..k] == served[..k];
  }

  /**
   * Every page of a session is asked for with the personalized status that the pages before it lead to,
   * failed ones included, eight books a page: its mode and offsets are those of `ModeOverSession`.
   */
  lemma {:induction false} PersonalizedFollows(catalog: set<Book>, drawKey: int -> int, pages: seq<Served>, k: nat)
    requires IsSession(catalog, drawKey, pages) && k < |pages|
    ensures pages[k].cursor.personalized == Personalized.StatusOver(PersonalizedPages(pages)[..k], 8)
    ensures Feed.NextCursor(pages[k].cursor, pages[k].sources).personalized
            == Personalized.StatusOver(PersonalizedPages(pages)[..k + 1], 8)
  {
    if k > 0 {
      PersonalizedFollows(catalog, drawKey, pages, k - 1);
      CursorFollows(catalog, drawKey, pages, k);
    }
    assert IsServed(catalog, drawKey, pages, k);
    PersonalizedStep(catalog, drawKey, pages, k);
    StatusNext(PersonalizedPages(pages), k);
  }

  /** So a session's mode is the vector mode exactly while every page since the user last had none was filled. */
  lemma SessionMode(catalog: set<Book>, drawKey: int -> int, pages: seq<Served>, k: nat)
    requires IsSession(catalog, drawKey, pages) && k < |pages|
    ensures Personalized.Tracks(pages[k].cursor.personalized, Personalized.EnoughSince(PersonalizedPages(pages)[..k]), 8)
  {
    PersonalizedFollows(catalog, drawKey, pages, k);
    Personalized.ModeOverSession(PersonalizedPages(pages)[..k], 8);
  }

  // ---- one request as a whole ----

  /** The cursor is the one that the last page gave. */
  ghost predicate IsNext(pages: seq<Served>, c: Feed.Cursor) {
    pages != [] && c == Feed.NextCursor(pages[|pages| - 1].cursor, pages[|pages| - 1].sources)
  }

  /** The request comes from a reader who follows the session's cursors, or begins a session. */
  ghost predicate Continues(catalog: set<Book>, drawKey: int -> int, pages: seq<Served>, given: Option<Feed.Cursor>) {
    match given
    case None => pages == []
    case Some(c) => IsSession(catalog, drawKey, pages) && IsNext(pages, c)
  }

  function CursorOf(given: Option<Feed.Cursor>, newSeed: int, newSession: string): Feed.Cursor {
    if given.Some? then given.value else Feed.InitialCursor(newSeed, newSession)
  }

  /** The page is served by sources that were given the session's list as it is. */
  ghost predicate IsServedNext(catalog: set<Book>, drawKey: int -> int, pages: seq<Served>, p: Served) {
    var excluded := Feed.SeenAfter(Requests(pages));
    && !Feed.AnyCancelled(p.sources)
    && FeedSources.Moves(catalog, drawKey, p.profile, p.answers, excluded, p.cursor, p.sources)
    && Blender.IsShuffledPattern(p.pattern) && Feed.Honours(Feed.Queues(p.sources), excluded)
  }

  /** A page served before is served still, the new page following the last. */
  lemma ServedStays(catalog: set<Book>, drawKey: int -> int, pages: seq<Served>, p: Served, k: nat)
    requires k < |pages| && IsServed(catalog, drawKey, pages, k) && IsNext(pages, p.cursor)
    ensures IsServed(catalog, drawKey, pages + [p], k)
  {
    assert (pages + [p])[..k] == pages[..k];
  }

  lemma ServedLast(catalog: set<Book>, drawKey: int -> int, pages: seq<Served>, p: Served)
    requires IsServedNext(catalog, drawKey, pages, p)
    ensures IsServed(catalog, drawKey, pages + [p], |pages|)
  {
    assert (pages + [p])[..|pages|] == pages;
  }

  /** Such a page extends the session. */
  lemma PageExtends(catalog: set<Book>, drawKey: int -> int, pages: seq<Served>, given: Option<Feed.Cursor>,
          newSeed: int, newSession: string, p: Served)
    requires Continues(catalog, drawKey, pages, given) && p.cursor == CursorOf(given, newSeed, newSession)
    requires IsServedNext(catalog, drawKey, pages, p)
    ensures Extends(catalog, drawKey, pages, p)
  {
    ServedLast(catalog, drawKey, pages, p);
    forall k | 0 <= k < |pages| ensures IsServed(catalog, drawKey, pages + [p], k) {
      ServedStays(catalog, drawKey, pages, p, k);
    }
  }

  /** The page makes the session longer by one. */
  ghost predicate Extends(catalog: set<Book>, drawKey: int -> int, pages: seq<Served>, p: Served) {
    && IsSession(catalog, drawKey, pages + [p])
    && Requests(pages + [p]) == Requests(pages) + [RequestOf(p)]
    && IsNext(pages + [p], Feed.NextCursor(p.cursor, p.sources))
  }

  /** The four sources, given the exclusions of a session that the request continues. */
  method NextSources(given: Option<Feed.Cursor>, c: Feed.Cursor, profile: FeedSources.Profile, ghost catalog: set<Book>,
                     answers: FeedSources.Answers, drawKey: int -> int, excluded: seq<int>, failing: set<Blender.Slot>,
                     ghost pattern: seq<Blender.Slot>, ghost existing: set<int>, ghost pages: seq<Served>)
      returns (sources: Feed.Sources)
    requires Continues(catalog, drawKey, pages, given) && c == CursorOf(given, c.seed, c.sessionId)
    requires UniqueIds(catalog) && Blender.IsShuffledPattern(pattern) && excluded == Feed.SeenAfter(Requests(pages))
    requires FeedSources.AllSound(answers, catalog, c, drawKey, profile, excluded)
    ensures !Feed.AnyCancelled(sources) && Feed.Honours(Feed.Queues(sources), excluded)
    ensures Extends(catalog, drawKey, pages, Served(c, profile, answers, sources, pattern, existing))
  {
    sources := FeedSources.Gather(catalog, c, drawKey, profile, excluded, answers, failing);
    PageExtends(catalog, drawKey, pages, given, c.seed, c.sessionId,
                Served(c, profile, answers, sources, pattern, existing));
  }

  /** What the request finds: the reader's session so far, and sound answers. */
  ghost predicate Ready(feed: Feed.MainFeed, given: Option<Feed.Cursor>, c: Feed.Cursor, profile: FeedSources.Profile,
          catalog: set<Book>, answers: FeedSources.Answers, drawKey: int -> int, pages: seq<Served>)
    reads feed
  {
    && feed.Valid() && UniqueIds(catalog)
    && Continues(catalog, drawKey, pages, given)
    && feed.Served(c.sessionId) == Requests(pages)
    && FeedSources.AllSound(answers, catalog, c, drawKey, profile, feed.Seen(c.sessionId))
  }

  /** The page of the response belongs to the session, which is still what the store has recorded. */
  ghost predicate Extended(c: Feed.Cursor, catalog: set<Book>, drawKey: int -> int, pages: seq<Served>,
          pages': seq<Served>, recorded: seq<Feed.Request>, r: Feed.Response)
  {
    && |pages'| == |pages| + 1 && pages <= pages'
    && IsSession(catalog, drawKey, pages') && recorded == Requests(pages')
    && var p := pages'[|pages|];
       && p.cursor == c && r.Books? && r.ids == Feed.Visible(Feed.PageOf(RequestOf(p)), p.existing)
       && (r.next.Some? ==> IsNext(pages', r.next.value))
  }

  lemma ResponseExtends(catalog: set<Book>, drawKey: int -> int, pages: seq<Served>, p: Served,
          recorded: seq<Feed.Request>, r: Feed.Response)
    requires Extends(catalog, drawKey, pages, p) && recorded == Requests(pages) + [RequestOf(p)]
    requires r.Books? && r.ids == Feed.Visible(Feed.PageOf(RequestOf(p)), p.existing)
    requires r.next == None || r.next == Some(Feed.NextCursor(p.cursor, p.sources))
    ensures Extended(p.cursor, catalog, drawKey, pages, pages + [p], recorded, r)
  {
  }

  /** A session that begins has nothing to exclude. */
  method ExcludedFor(feed: Feed.MainFeed, given: Option<Feed.Cursor>, c: Feed.Cursor, ghost catalog: set<Book>,
                     ghost drawKey: int -> int, ghost pages: seq<Served>) returns (excluded: seq<int>)
    requires feed.Valid() && Continues(catalog, drawKey, pages, given) && feed.Served(c.sessionId) == Requests(pages)
    ensures excluded == feed.Seen(c.sessionId) == Feed.SeenAfter(Requests(pages)) && (given.None? ==> excluded == [])
  {
    assert feed.InStep(c.sessionId);
    excluded := if given.Some? then feed.Seen(c.sessionId) else [];
  }

  /** Building and recording the page from sources that extend the session. */
  method Answer(feed: Feed.MainFeed, userId: int, given: Option<Feed.Cursor>, now: int, newSeed: int, newSession: string,
                sources: Feed.Sources, pattern: seq<Blender.Slot>, existing: set<int>,
                ghost catalog: set<Book>, ghost drawKey: int -> int, ghost pages: seq<Served>, ghost p: Served)
      returns (r: Feed.Response)
    requires feed.Valid() && Blender.IsShuffledPattern(pattern) && !Feed.AnyCancelled(sources)
    requires p.cursor == CursorOf(given, newSeed, newSession)
    requires p.sources == sources && p.pattern == pattern && p.existing == existing
    requires feed.Served(p.cursor.sessionId) == Requests(pages) && (given.None? ==> feed.Seen(newSession) == [])
    requires Feed.Honours(Feed.Queues(sources), feed.Seen(p.cursor.sessionId)) && Extends(catalog, drawKey, pages, p)
    modifies feed
    ensures feed.Valid() && !r.RequestCancelled?
    ensures r.TooManySessions? ==> given.None? && feed.served == old(feed.served)
    ensures r.Books? ==> Extended(p.cursor, catalog, drawKey, pages, pages + [p], feed.Served(p.cursor.sessionId), r)
  {
    r := feed.ForUser(userId, given, now, newSeed, newSession, sources, pattern, existing);
    if r.Books? {
      ResponseExtends(catalog, drawKey, pages, p, feed.Served(p.cursor.sessionId), r);
    }
  }

  /**
   * `for_user` as a whole: read the session's list, ask the four sources, build and record the page.
   * Whatever the databases answer and whichever sources fail, the pages remain a session.
   */
  method ForUser(feed: Feed.MainFeed, userId: int, given: Option<Feed.Cursor>, now: int, newSeed: int, newSession: string,
                 profile: FeedSources.Profile, ghost catalog: set<Book>, answers: FeedSources.Answers,
                 drawKey: int -> int, failing: set<Blender.Slot>, pattern: seq<Blender.Slot>, existing: set<int>,
                 ghost pages: seq<Served>)
      returns (r: Feed.Response, ghost pages': seq<Served>)
    requires Blender.IsShuffledPattern(pattern)
    requires Ready(feed, given, CursorOf(given, newSeed, newSession), profile, catalog, answers, drawKey, pages)
    modifies feed
    ensures feed.Valid() && !r.RequestCancelled?
    ensures r.TooManySessions? ==> given.None? && feed.served == old(feed.served)
    ensures var c := CursorOf(given, newSeed, newSession);
            r.Books? ==> Extended(c, catalog, drawKey, pages, pages', feed.Served(c.sessionId), r)
  {
    var c := CursorOf(given, newSeed, newSession);
    var excluded := ExcludedFor(feed, given, c, catalog, drawKey, pages);
    var sources := NextSources(given, c, profile, catalog, answers, drawKey, excluded, failing, pattern, existing, pages);
    ghost var p := Served(c, profile, answers, sources, pattern, existing);
    pages' := pages + [p];
    r := Answer(feed, userId, given, now, newSeed, newSession, sources, pattern, existing, catalog, drawKey, pages, p);
  }
}
