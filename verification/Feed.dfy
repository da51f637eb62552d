/**
 * `BooksMainRecommendationsQH.for_user`: one page of the feed. The four sources run concurrently and
 * may fail; their lists are blended, recorded in the session's "seen" list and turned into the next
 * cursor.
 */
module Feed {
  import opened Sequences
  import opened SlidingWindow
  import Blender
  import Personalized
  import PopularBooks
  import RateLimits

  const MAX_EXCLUDED_IDS: nat := 400
  const MAX_IMPRESSIONS: nat := 300

  datatype Cursor = Cursor(
    sessionId: string,
    seed: int,
    page: nat,
    personalized: Personalized.Status,
    popularLastScore: Option<int>,
    popularLastId: Option<int>,
    newLastId: Option<int>,
    explorationLastKey: Option<int>)

  function InitialCursor(seed: int, sessionId: string): Cursor {
    Cursor(sessionId, seed, 0, Personalized.Status(Personalized.Vector, 0, 0), None, None, None, None)
  }

  /** How one source ended: with a value, with an exception, or cancelled with the request. */
  datatype Outcome<+T> = Done(value: T) | Failed | Cancelled

  datatype Sources = Sources(
    personalized: Outcome<(seq<int>, Personalized.Status)>,
    popular: Outcome<(seq<int>, Option<PopularBooks.Cursor>)>,
    newest: Outcome<(seq<int>, Option<int>)>,
    exploration: Outcome<(seq<int>, Option<int>)>)

  function Ids<T>(o: Outcome<(seq<int>, T)>): seq<int> {
    if o.Done? then o.value.0 else []
  }

  function Queues(s: Sources): Blender.Queues {
    Blender.Queues(Ids(s.personalized), Ids(s.popular), Ids(s.newest), Ids(s.exploration))
  }

  predicate AnyCancelled(s: Sources) {
    s.personalized.Cancelled? || s.popular.Cancelled? || s.newest.Cancelled? || s.exploration.Cancelled?
  }

  /** What every source promises: at most its slot count, nothing the session has been shown. */
  ghost predicate Honours(q: Blender.Queues, excluded: seq<int>) {
    forall slot: Blender.Slot ::
      |q.Of(slot)| <= Blender.SlotCount(slot) && AvoidsAll(q.Of(slot), excluded)
  }

  /** The cursor for the next page; a source that failed leaves its part as it was. */
  function NextCursor(c: Cursor, s: Sources): Cursor {
    var popular := if s.popular.Done? then s.popular.value.1 else PopularBooks.Filter(c.popularLastScore, c.popularLastId);
    Cursor(
      c.sessionId, c.seed, c.page + 1,
      if s.personalized.Done? then s.personalized.value.1 else c.personalized,
      if popular.Some? then Some(popular.value.score) else c.popularLastScore,
      if popular.Some? then Some(popular.value.id) else c.popularLastId,
      if s.newest.Done? then s.newest.value.1 else c.newLastId,
      if s.exploration.Done? then s.exploration.value.1 else c.explorationLastKey)
  }

  /**
   * A failed source contributes no ids and leaves its cursor fields alone; one that succeeds contributes all
   * its ids to its own slots and sets just its own fields.
   */
  lemma FailureIsContained(c: Cursor, s: Sources, other: Sources)
    ensures s.personalized.Done? ==>
              NextCursor(c, s).personalized == s.personalized.value.1 && Queues(s).personalized == s.personalized.value.0
    ensures s.popular.Done? ==> Queues(s).popular == s.popular.value.0
    ensures s.newest.Done? ==> NextCursor(c, s).newLastId == s.newest.value.1 && Queues(s).newest == s.newest.value.0
    ensures s.exploration.Done? ==>
              && NextCursor(c, s).explorationLastKey == s.exploration.value.1
              && Queues(s).exploration == s.exploration.value.0
    ensures s.personalized.Failed? ==> NextCursor(c, s).personalized == c.personalized && Queues(s).personalized == []
    ensures s.popular.Failed? ==>
              && NextCursor(c, s).popularLastScore == c.popularLastScore
              && NextCursor(c, s).popularLastId == c.popularLastId && Queues(s).popular == []
    ensures s.newest.Failed? ==> NextCursor(c, s).newLastId == c.newLastId && Queues(s).newest == []
    ensures s.exploration.Failed? ==>
              NextCursor(c, s).explorationLastKey == c.explorationLastKey && Queues(s).exploration == []
    ensures s.personalized == other.personalized ==> NextCursor(c, s).personalized == NextCursor(c, other).personalized
    ensures s.popular == other.popular ==>
              && NextCursor(c, s).popularLastScore == NextCursor(c, other).popularLastScore
              && NextCursor(c, s).popularLastId == NextCursor(c, other).popularLastId
    ensures s.newest == other.newest ==> NextCursor(c, s).newLastId == NextCursor(c, other).newLastId
    ensures s.exploration == other.exploration ==> NextCursor(c, s).explorationLastKey == NextCursor(c, other).explorationLastKey
  {
  }

  function Visible(ids: seq<int>, existing: set<int>): seq<int> {
    if ids == [] then []
    else (if ids[0] in existing then [ids[0]] else []) + Visible(ids[1..], existing)
  }

  function IfFound(id: int, existing: set<int>): seq<int> {
    if id in existing then [id] else []
  }

  lemma Regrouped(a: seq<int>, b: seq<int>, c: seq<int>, d: seq<int>)
    ensures a + (b + c + d) == a + b + c + d
  {
  }

  lemma {:induction false} VisibleSplits(a: seq<int>, b: seq<int>, existing: set<int>)
    ensures Visible(a + b, existing) == Visible(a, existing) + Visible(b, existing)
  {
    if a == [] {
      assert a + b == b;
    } else {
      assert (a + b)[0] == a[0] && (a + b)[1..] == a[1..] + b;
      VisibleSplits(a[1..], b, existing);
      Regrouped(IfFound(a[0], existing), Visible(a[1..], existing), Visible(b, existing), []);
    }
  }

  /** Of the page's books exactly those the repository still finds are shown, in the page's order. */
  lemma VisibleExactly(before: seq<int>, id: int, after: seq<int>, existing: set<int>)
    ensures Visible(before + [id] + after, existing)
            == Visible(before, existing) + IfFound(id, existing) + Visible(after, existing)
  {
    VisibleSplits(before + [id], after, existing);
    VisibleSplits(before, [id], existing);
    assert [id][1..] == [];
    assert Visible([id], existing) == IfFound(id, existing);
  }

  datatype Response = Books(ids: seq<int>, next: Option<Cursor>) | RequestCancelled | TooManySessions

  function Append(stored: seq<int>, shown: seq<int>, max: nat): seq<int> {
    if shown == [] then stored else LastN(stored + shown, max)
  }

  // ---- a whole session ----

  /** One served request: what the sources offered, how the slots were shuffled, which books still exist. */
  datatype Request = Request(queues: Blender.Queues, pattern: seq<Blender.Slot>, existing: set<int>)

  ghost function PageOf(r: Request): seq<int> {
    Blender.Page(r.pattern, r.queues)
  }

  ghost function PagesOf(requests: seq<Request>): seq<seq<int>> {
    seq(|requests|, i requires 0 <= i < |requests| => PageOf(requests[i]))
  }

  /** What the reader is shown, page by page. */
  ghost function VisiblePages(requests: seq<Request>): seq<seq<int>> {
    seq(|requests|, i requires 0 <= i < |requests| => Visible(PageOf(requests[i]), requests[i].existing))
  }

  /** The session's Redis list after the requests, each recorded as ForUser does. */
  ghost function SeenAfter(requests: seq<Request>): seq<int> {
    if requests == [] then []
    else Append(SeenAfter(requests[..|requests| - 1]), PageOf(requests[|requests| - 1]), MAX_EXCLUDED_IDS)
  }

  /** Every request was served by sources that honour the list as it was at that moment. */
  ghost predicate IsSession(requests: seq<Request>) {
    forall k :: 0 <= k < |requests| ==>
      && Blender.IsShuffledPattern(requests[k].pattern)
      && Honours(requests[k].queues, SeenAfter(requests[..k]))
  }

  lemma OneMoreRequest(requests: seq<Request>, r: Request)
    requires IsSession(requests) && Blender.IsShuffledPattern(r.pattern) && Honours(r.queues, SeenAfter(requests))
    ensures IsSession(requests + [r])
    ensures SeenAfter(requests + [r]) == Append(SeenAfter(requests), PageOf(r), MAX_EXCLUDED_IDS)
  {
    var all := requests + [r];
    assert all[..|requests|] == requests;
    forall k | 0 <= k < |all|
      ensures Blender.IsShuffledPattern(all[k].pattern) && Honours(all[k].queues, SeenAfter(all[..k]))
    {
      if k < |requests| {
        assert all[..k] == requests[..k] && all[k] == requests[k];
      }
    }
  }

  class MainFeed {
    var seen: map<string, seq<int>>
    var impressions: map<int, seq<int>>
    var newSessions: map<int, RateLimits.Counter>
    ghost var served: map<string, seq<Request>>

    constructor ()
      ensures Valid() && seen == map[] && impressions == map[] && newSessions == map[] && served == map[]
    {
      seen, impressions, newSessions, served := map[], map[], map[], map[];
    }

    /** The requests served to a session so far. */
    ghost function Served(sessionId: string): seq<Request>
      reads this`served
    {
      if sessionId in served then served[sessionId] else []
    }

    /** Every session's stored list is what its requests have left there. */
    ghost predicate Valid()
      reads this`served, this`seen
    {
      forall s :: InStep(s)
    }

    ghost predicate InStep(sessionId: string)
      reads this`served, this`seen
    {
      IsSession(Served(sessionId)) && SeenAfter(Served(sessionId)) == Seen(sessionId)
    }

    function Seen(sessionId: string): seq<int>
      reads this`seen
    {
      if sessionId in seen then seen[sessionId] else []
    }

    function Impressions(userId: int): seq<int>
      reads this`impressions
    {
      if userId in impressions then impressions[userId] else []
    }

    function Rate(userId: int): seq<Option<RateLimits.Counter>>
      reads this`newSessions
    {
      [if userId in newSessions then Some(newSessions[userId]) else None]
    }

    /** `add`: RPUSH, LTRIM; nothing happens for an empty page. */
    method AddSeen(sessionId: string, shown: seq<int>)
      modifies this`seen
      ensures Seen(sessionId) == Append(old(Seen(sessionId)), shown, MAX_EXCLUDED_IDS)
      ensures forall s :: s != sessionId ==> Seen(s) == old(Seen(s))
    {
      if shown == [] {
        return;
      }
      seen := seen[sessionId := Seen(sessionId) + shown];
      seen := seen[sessionId := LastN(Seen(sessionId), MAX_EXCLUDED_IDS)];
    }

    method AddImpressions(userId: int, shown: seq<int>)
      modifies this`impressions
      ensures Impressions(userId) == Append(old(Impressions(userId)), shown, MAX_IMPRESSIONS)
      ensures forall u :: u != userId ==> Impressions(u) == old(Impressions(u))
    {
      if shown == [] {
        return;
      }
      impressions := impressions[userId := Impressions(userId) + shown];
      impressions := impressions[userId := LastN(Impressions(userId), MAX_IMPRESSIONS)];
    }

    /** Counts the new session; false stands for the "too many sessions" error. */
    method EnsureNewSessionAllowed(userId: int, now: int) returns (ok: bool)
      modifies this`newSessions
      ensures (ok, Rate(userId)) == RateLimits.Chain(RateLimits.NEW_FEED_SESSIONS, old(Rate(userId)), now)
      ensures forall u :: u != userId ==> Rate(u) == old(Rate(u))
    {
      var w := RateLimits.NEW_FEED_SESSIONS[0];
      var c := RateLimits.Hit(Rate(userId)[0], now, w.ttl);
      newSessions := newSessions[userId := c];
      ok := c.count <= w.limit;
      assert RateLimits.NEW_FEED_SESSIONS[1..] == [] && old(Rate(userId))[1..] == [];
      var empty: seq<Option<RateLimits.Counter>> := [];
      assert [Some(c)] + empty == [Some(c)];
    }

    /** The history of a session grows by one request. */
    ghost method Record(sessionId: string, request: Request)
      requires IsSession(Served(sessionId))
      requires Blender.IsShuffledPattern(request.pattern) && Honours(request.queues, SeenAfter(Served(sessionId)))
      modifies this`served
      ensures Served(sessionId) == old(Served(sessionId)) + [request]
      ensures IsSession(Served(sessionId))
      ensures SeenAfter(Served(sessionId)) == Append(old(SeenAfter(Served(sessionId))), PageOf(request), MAX_EXCLUDED_IDS)
      ensures forall s :: s != sessionId ==> Served(s) == old(Served(s))
    {
      OneMoreRequest(Served(sessionId), request);
      served := served[sessionId := Served(sessionId) + [request]];
    }

    /** An empty page leaves the stored list alone. */
    ghost method RecordEmpty(sessionId: string, request: Request)
      requires Valid() && PageOf(request) == []
      requires Blender.IsShuffledPattern(request.pattern) && Honours(request.queues, Seen(sessionId))
      modifies this`served
      ensures Valid() && Served(sessionId) == old(Served(sessionId)) + [request]
      ensures forall s :: s != sessionId ==> Served(s) == old(Served(s))
    {
      assert InStep(sessionId);
      Record(sessionId, request);
      forall s ensures InStep(s) {
        assert old(InStep(s));
      }
    }

    /** A page goes to the stored list. */
    method Remember(sessionId: string, page: seq<int>, ghost request: Request)
      requires Valid() && PageOf(request) == page
      requires Blender.IsShuffledPattern(request.pattern) && Honours(request.queues, Seen(sessionId))
      modifies this`seen, this`served
      ensures Valid() && Served(sessionId) == old(Served(sessionId)) + [request]
      ensures Seen(sessionId) == Append(old(Seen(sessionId)), page, MAX_EXCLUDED_IDS)
      ensures forall s :: s != sessionId ==> Seen(s) == old(Seen(s)) && Served(s) == old(Served(s))
    {
      assert InStep(sessionId);
      Record(sessionId, request);
      AddSeen(sessionId, page);
      forall s ensures InStep(s) {
        assert old(InStep(s));
      }
    }

    /** In every session, however requests were interleaved: what the reader saw and what was remembered. */
    lemma EverySessionIsFresh(sessionId: string)
      requires Valid()
      ensures NoRepeatWithin(Flatten(PagesOf(Served(sessionId))), MAX_EXCLUDED_IDS)
      ensures Seen(sessionId) == LastN(Flatten(PagesOf(Served(sessionId))), MAX_EXCLUDED_IDS)
    {
      assert InStep(sessionId);
      SessionNeverRepeats(Served(sessionId));
      SeenIsRecent(Served(sessionId));
    }

    /** The page for a cursor: blend, look the books up, record, and give the next cursor. */
    method ServePage(userId: int, cursor: Cursor, sources: Sources, pattern: seq<Blender.Slot>, existing: set<int>)
        returns (r: Response)
      requires Valid() && Blender.IsShuffledPattern(pattern) && !AnyCancelled(sources)
      requires Honours(Queues(sources), Seen(cursor.sessionId))
      modifies this`seen, this`served, this`impressions
      ensures Valid() && r.Books?
      ensures var page := Blender.Page(pattern, Queues(sources));
              && r.ids == Visible(page, existing)
              && r.next == (if r.ids == [] then None else Some(NextCursor(cursor, sources)))
              && Elements(page) == Blender.Offered(Queues(sources))
              && Seen(cursor.sessionId) == Append(old(Seen(cursor.sessionId)), page, MAX_EXCLUDED_IDS)
              && Impressions(userId) == Append(old(Impressions(userId)), page, MAX_IMPRESSIONS)
      ensures forall u :: u != userId ==> Impressions(u) == old(Impressions(u))
      ensures Served(cursor.sessionId) == old(Served(cursor.sessionId)) + [Request(Queues(sources), pattern, existing)]
      ensures forall s :: s != cursor.sessionId ==> Seen(s) == old(Seen(s)) && Served(s) == old(Served(s))
    {
      var page := Blender.Mix(Queues(sources), pattern);
      Blender.NothingIsDropped(pattern, Queues(sources));
      ghost var request := Request(Queues(sources), pattern, existing);
      if page == [] {
        RecordEmpty(cursor.sessionId, request);
        return Books([], None);
      }
      var books := Visible(page, existing);
      Remember(cursor.sessionId, page, request);
      AddImpressions(userId, page);
      return Books(books, if books != [] then Some(NextCursor(cursor, sources)) else None);
    }

    /**
     * sources are the outcomes of the four `get` calls made with this session's exclusions;
     * pattern is the shuffled slot pattern; existing are the books the repository still finds.
     */
    method ForUser(userId: int, given: Option<Cursor>, now: int, newSeed: int, newSession: string,
                   sources: Sources, pattern: seq<Blender.Slot>, existing: set<int>)
        returns (r: Response)
      requires Valid() && Blender.IsShuffledPattern(pattern)
      requires given.None? ==> Seen(newSession) == []
      requires Honours(Queues(sources), if given.Some? then Seen(given.value.sessionId) else [])
      modifies this
      ensures Valid()
      ensures given.Some? ==> forall u :: Rate(u) == old(Rate(u))
      ensures given.None? ==>
                var (ok, rate) := RateLimits.Chain(RateLimits.NEW_FEED_SESSIONS, old(Rate(userId)), now);
                Rate(userId) == rate && (r.TooManySessions? <==> !ok)
      ensures r.RequestCancelled? <==> !r.TooManySessions? && AnyCancelled(sources)
      ensures r.TooManySessions? ==> given.None?
      ensures forall u :: u != userId ==> Impressions(u) == old(Impressions(u)) && Rate(u) == old(Rate(u))
      ensures !r.Books? ==> seen == old(seen) && impressions == old(impressions) && served == old(served)
      ensures r.Books? ==>
                var cursor := if given.Some? then given.value else InitialCursor(newSeed, newSession);
                var page := Blender.Page(pattern, Queues(sources));
                && r.ids == Visible(page, existing)
                && r.next == (if r.ids == [] then None else Some(NextCursor(cursor, sources)))
                && Elements(page) == Blender.Offered(Queues(sources))
                && Seen(cursor.sessionId) == Append(old(Seen(cursor.sessionId)), page, MAX_EXCLUDED_IDS)
                && Impressions(userId) == Append(old(Impressions(userId)), page, MAX_IMPRESSIONS)
                && (forall s :: s != cursor.sessionId ==> Seen(s) == old(Seen(s)) && Served(s) == old(Served(s)))
                && Served(cursor.sessionId) == old(Served(cursor.sessionId)) + [Request(Queues(sources), pattern, existing)]
    {
      var cursor: Cursor;
      if given.Some? {
        cursor := given.value;
      } else {
        var ok := EnsureNewSessionAllowed(userId, now);
        if !ok {
          return TooManySessions;
        }
        cursor := InitialCursor(newSeed, newSession);
      }
      if AnyCancelled(sources) {
        return RequestCancelled;
      }
      r := ServePage(userId, cursor, sources, pattern, existing);
    }
  }

  // ---- what holds over every session ----

  /** The trimmed list is always the end of everything the session was shown. */
  lemma {:induction false} SeenIsRecent(requests: seq<Request>)
    ensures SeenAfter(requests) == LastN(Flatten(PagesOf(requests)), MAX_EXCLUDED_IDS)
  {
    if requests != [] {
      var front, last := requests[..|requests| - 1], requests[|requests| - 1];
      SeenIsRecent(front);
      var pages := PagesOf(requests);
      assert pages[..|pages| - 1] == PagesOf(front);
      TrimAfterAppend(Flatten(PagesOf(front)), PageOf(last), MAX_EXCLUDED_IDS);
      if PageOf(last) == [] {
        assert Flatten(PagesOf(front)) + PageOf(last) == Flatten(PagesOf(front));
      }
    }
  }

  lemma OfferedAvoids(q: Blender.Queues, excluded: seq<int>, x: int)
    requires Honours(q, excluded) && x in Blender.Offered(q)
    ensures x !in excluded
  {
    var slot :=
      if x in q.personalized then Blender.Personalized else if x in q.popular then Blender.Popular
      else if x in q.newest then Blender.New else Blender.Exploration;
    assert AvoidsAll(q.Of(slot), excluded);
  }

  lemma PageAvoids(r: Request, excluded: seq<int>)
    requires Blender.IsShuffledPattern(r.pattern) && Honours(r.queues, excluded)
    ensures Distinct(PageOf(r)) && AvoidsAll(PageOf(r), excluded)
  {
    Blender.BlendInvariant(r.pattern, r.queues, []);
    forall x | x in PageOf(r) ensures x !in excluded {
      OfferedAvoids(r.queues, excluded, x);
    }
  }

  /**
   * Over any number of pages of one session, two occurrences of the same book are more than 400
   * positions apart, although the session remembers no more than 400 ids.
   */
  lemma SessionNeverRepeats(requests: seq<Request>)
    requires IsSession(requests)
    ensures NoRepeatWithin(Flatten(PagesOf(requests)), MAX_EXCLUDED_IDS)
  {
    var pages := PagesOf(requests);
    forall k | 0 <= k < |pages|
      ensures Distinct(pages[k]) && AvoidsAll(pages[k], LastN(Flatten(pages[..k]), MAX_EXCLUDED_IDS))
    {
      SeenIsRecent(requests[..k]);
      assert PagesOf(requests[..k]) == pages[..k];
      PageAvoids(requests[k], SeenAfter(requests[..k]));
    }
    WindowedStream(pages, MAX_EXCLUDED_IDS);
  }

  // ---- what the reader sees ----

  function MarksOf(page: seq<int>, existing: set<int>): seq<Mark<int>> {
    seq(|page|, i requires 0 <= i < |page| => Mark(page[i], page[i] in existing))
  }

  ghost function Marks(requests: seq<Request>): seq<Mark<int>> {
    if requests == [] then []
    else
      var last := requests[|requests| - 1];
      Marks(requests[..|requests| - 1]) + MarksOf(PageOf(last), last.existing)
  }

  lemma {:induction false} VisibleIsShown(page: seq<int>, existing: set<int>)
    ensures Visible(page, existing) == Shown(MarksOf(page, existing))
    ensures Keys(MarksOf(page, existing)) == page
  {
    if page != [] {
      VisibleIsShown(page[1..], existing);
      var first := [Mark(page[0], page[0] in existing)];
      assert MarksOf(page, existing) == first + MarksOf(page[1..], existing);
      ShownConcat(first, MarksOf(page[1..], existing));
      assert first[..0] == [];
    }
  }

  lemma {:induction false} MarksAreTheStream(requests: seq<Request>)
    ensures Keys(Marks(requests)) == Flatten(PagesOf(requests))
    ensures Shown(Marks(requests)) == Flatten(VisiblePages(requests))
  {
    if requests != [] {
      var n := |requests| - 1;
      MarksAreTheStream(requests[..n]);
      VisibleIsShown(PageOf(requests[n]), requests[n].existing);
      assert PagesOf(requests)[..n] == PagesOf(requests[..n]);
      assert VisiblePages(requests)[..n] == VisiblePages(requests[..n]);
      ShownConcat(Marks(requests[..n]), MarksOf(PageOf(requests[n]), requests[n].existing));
    }
  }

  /**
   * A book the reader is shown twice in one session: the places between, with the books that were
   * picked there but no longer exist, are more than 400. Without such books the places alone are.
   */
  lemma ReaderNeverSeesRepeat(requests: seq<Request>, p: nat, q: nat)
    requires IsSession(requests) && p < q < |Flatten(VisiblePages(requests))|
    requires Flatten(VisiblePages(requests))[p] == Flatten(VisiblePages(requests))[q]
    ensures |Shown(Marks(requests))| == |Flatten(VisiblePages(requests))|
    ensures var i, j := Position(Marks(requests), p), Position(Marks(requests), q);
            i < j && q - p + Hidden(Marks(requests)[i..j]) > MAX_EXCLUDED_IDS
    ensures Hidden(Marks(requests)) == 0 ==> q - p > MAX_EXCLUDED_IDS
  {
    SessionNeverRepeats(requests);
    MarksAreTheStream(requests);
    ShownNeverRepeats(Marks(requests), MAX_EXCLUDED_IDS, p, q);
  }
}
