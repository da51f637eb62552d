/**
 * The gathering of the four sources for one page. Whatever the databases and the random generator
 * answer, and whichever sources fail, the lists keep the promises the feed relies on.
 */
module FeedSources {
  import opened Sequences
  import opened Catalog
  import opened SlidingWindow
  import Blender
  import CappedPick
  import Exploration
  import Feed
  import NewBooks
  import Personalized
  import PopularBooks
  import WeightedSample

  datatype Profile = Profile(hasVector: bool, topCategories: seq<int>, purchased: seq<int>)

  /** The answers to the queries of one page, and the random draws made from them. */
  datatype Answers = Answers(
    personalized: Personalized.Oracle,
    popularRows: seq<Book>, popularDraws: seq<Book>,
    coldPool: seq<CappedPick.Candidate>, coldDraws: seq<CappedPick.Candidate>,
    newRows: seq<Book>, newDraws: seq<Book>, shuffle: seq<int> -> seq<int>,
    aheadRows: seq<Book>, wrappedRows: seq<Book>)

  const PERSONALIZED_LIMIT := Blender.SlotCount(Blender.Personalized)
  const POPULAR_LIMIT := Blender.SlotCount(Blender.Popular)
  const NEW_LIMIT := Blender.SlotCount(Blender.New)
  const EXPLORATION_LIMIT := Blender.SlotCount(Blender.Exploration)

  /** drawKey is the seeded generator that gives the walk its first key. */
  function StartKey(c: Feed.Cursor, drawKey: int -> int): int {
    if c.explorationLastKey.Some? then c.explorationLastKey.value else drawKey(c.seed)
  }

  ghost predicate PersonalizedSound(o: Personalized.Oracle, c: Feed.Cursor, p: Profile, excluded: seq<int>) {
    Personalized.Sound(o, PERSONALIZED_LIMIT, c.personalized.collaborativeOffset,
                       excluded + Without(excluded, p.purchased, SELF))
  }

  ghost predicate PopularSound(a: Answers, catalog: set<Book>, c: Feed.Cursor, excluded: seq<int>) {
    && Catalog.Answers(a.popularRows, PopularBooks.Eligible(catalog, PopularBooks.Filter(c.popularLastScore, c.popularLastId)),
                       POPULAR_LIMIT * PopularBooks.WIDE_MULTIPLIER, PopularBooks.MOST_POPULAR_FIRST)
    && WeightedSample.IsDraw(a.popularDraws, Without(excluded, a.popularRows, BOOK_ID), POPULAR_LIMIT)
    && WeightedSample.IsDraw(a.coldDraws, Without(excluded, a.coldPool, CappedPick.ID), POPULAR_LIMIT * CappedPick.CANDIDATE_MULTIPLIER)
  }

  ghost predicate NewSound(a: Answers, catalog: set<Book>, c: Feed.Cursor, p: Profile, excluded: seq<int>) {
    && Catalog.Answers(a.newRows, NewBooks.Eligible(catalog, p.topCategories, c.newLastId),
                       NEW_LIMIT * NewBooks.CANDIDATE_MULTIPLIER, NewBooks.NEWEST_FIRST)
    && WeightedSample.IsDraw(a.newDraws, Without(excluded, a.newRows, BOOK_ID), |Without(excluded, a.newRows, BOOK_ID)|)
    && (forall s :: multiset(a.shuffle(s)) == multiset(s))
  }

  ghost predicate ExplorationSound(a: Answers, catalog: set<Book>, c: Feed.Cursor, drawKey: int -> int, excluded: seq<int>) {
    && Catalog.Answers(a.aheadRows, Exploration.Ahead(catalog, Elements(excluded), StartKey(c, drawKey)),
                       EXPLORATION_LIMIT, Exploration.BY_KEY)
    && Catalog.Answers(a.wrappedRows, Exploration.Remaining(catalog, Elements(excluded)),
                       EXPLORATION_LIMIT, Exploration.BY_KEY)
  }

  /** All answers are ones the databases may give to this page's queries. */
  ghost predicate AllSound(a: Answers, catalog: set<Book>, c: Feed.Cursor, drawKey: int -> int, p: Profile,
          excluded: seq<int>)
  {
    && PersonalizedSound(a.personalized, c, p, excluded)
    && PopularSound(a, catalog, c, excluded)
    && NewSound(a, catalog, c, p, excluded)
    && ExplorationSound(a, catalog, c, drawKey, excluded)
  }

  lemma NoneExcluded(ids: seq<int>, excluded: seq<int>)
    requires forall id :: id in ids ==> id !in excluded
    ensures AvoidsAll(ids, excluded)
  {
    forall id: int | id in ids ensures id !in excluded {
    }
  }

  ghost predicate Keeps(ids: seq<int>, slot: Blender.Slot, excluded: seq<int>) {
    |ids| <= Blender.SlotCount(slot) && AvoidsAll(ids, excluded)
  }

  /** The source's own answer, eight books a page. */
  ghost predicate IsPersonalized(c: Feed.Cursor, p: Profile, excluded: seq<int>, o: Personalized.Oracle, ids: seq<int>,
          status: Personalized.Status)
  {
    && ids == Personalized.PageIds(PERSONALIZED_LIMIT, c.personalized, p.hasVector, p.topCategories != [], p.purchased,
                                   excluded, o)
    && status == Personalized.NextStatus(p.hasVector, |o.points| >= PERSONALIZED_LIMIT, c.personalized, PERSONALIZED_LIMIT)
  }

  ghost predicate IsPopular(catalog: set<Book>, c: Feed.Cursor, excluded: seq<int>, a: Answers, ids: seq<int>,
          next: Option<PopularBooks.Cursor>)
  {
    PopularBooks.IsAnswer(catalog, POPULAR_LIMIT, c.popularLastScore, c.popularLastId, excluded, a.popularRows,
                          a.popularDraws, a.coldPool, a.coldDraws, ids, next)
  }

  ghost predicate IsNew(catalog: set<Book>, c: Feed.Cursor, p: Profile, excluded: seq<int>, a: Answers, ids: seq<int>,
          next: Option<int>)
  {
    NewBooks.IsPage(catalog, p.topCategories, c.newLastId, ids, next)
    && NewBooks.FillsCapped(NEW_LIMIT, excluded, a.newRows, ids)
  }

  method FromPersonalized(c: Feed.Cursor, p: Profile, excluded: seq<int>, o: Personalized.Oracle)
      returns (ids: seq<int>, status: Personalized.Status)
    requires PersonalizedSound(o, c, p, excluded)
    ensures Keeps(ids, Blender.Personalized, excluded)
    ensures IsPersonalized(c, p, excluded, o, ids, status)
  {
    ids, status := Personalized.Get(PERSONALIZED_LIMIT, c.personalized, p.hasVector, p.topCategories != [],
                                    p.purchased, excluded, o);
    NoneExcluded(ids, excluded);
  }

  method FromPopular(ghost catalog: set<Book>, c: Feed.Cursor, excluded: seq<int>, a: Answers)
      returns (ids: seq<int>, next: Option<PopularBooks.Cursor>)
    requires UniqueIds(catalog) && PopularSound(a, catalog, c, excluded)
    ensures Keeps(ids, Blender.Popular, excluded)
    ensures IsPopular(catalog, c, excluded, a, ids, next)
  {
    ids, next := PopularBooks.Get(catalog, POPULAR_LIMIT, c.popularLastScore, c.popularLastId, excluded,
                                  a.popularRows, a.popularDraws, a.coldPool, a.coldDraws);
    NoneExcluded(ids, excluded);
  }

  method FromNew(ghost catalog: set<Book>, c: Feed.Cursor, p: Profile, excluded: seq<int>, a: Answers)
      returns (ids: seq<int>, next: Option<int>)
    requires UniqueIds(catalog) && NewSound(a, catalog, c, p, excluded)
    ensures Keeps(ids, Blender.New, excluded)
    ensures IsNew(catalog, c, p, excluded, a, ids, next)
  {
    ids, next := NewBooks.Get(catalog, NEW_LIMIT, c.newLastId, p.topCategories, excluded, a.newRows, a.newDraws, a.shuffle);
    NoneExcluded(ids, excluded);
  }

  /** The ids of some rows that are a step of the walk. */
  ghost predicate IsExploration(catalog: set<Book>, excluded: seq<int>, start: int, ids: seq<int>, next: int) {
    exists rows :: ids == Ids(rows) && Exploration.IsStep(catalog, EXPLORATION_LIMIT, Elements(excluded), start, rows, next)
  }

  method FromExploration(ghost catalog: set<Book>, c: Feed.Cursor, drawKey: int -> int, excluded: seq<int>, a: Answers)
      returns (ids: seq<int>, next: int)
    requires ExplorationSound(a, catalog, c, drawKey, excluded)
    ensures Keeps(ids, Blender.Exploration, excluded)
    ensures IsExploration(catalog, excluded, StartKey(c, drawKey), ids, next)
  {
    ghost var rows;
    ids, next, rows := Exploration.Get(catalog, EXPLORATION_LIMIT, c.explorationLastKey, drawKey(c.seed), excluded,
                                       a.aheadRows, a.wrappedRows);
    NoneExcluded(ids, excluded);
  }

  lemma AllKeep(s: Feed.Sources, excluded: seq<int>)
    requires Keeps(Feed.Ids(s.personalized), Blender.Personalized, excluded)
    requires Keeps(Feed.Ids(s.popular), Blender.Popular, excluded)
    requires Keeps(Feed.Ids(s.newest), Blender.New, excluded)
    requires Keeps(Feed.Ids(s.exploration), Blender.Exploration, excluded)
    ensures Feed.Honours(Feed.Queues(s), excluded)
  {
    var q := Feed.Queues(s);
    forall slot: Blender.Slot ensures Keeps(q.Of(slot), slot, excluded) {
      match slot
      case Personalized =>
      case Popular =>
      case New =>
      case Exploration =>
    }
  }

  /** A source that succeeds gives its own answer and moves its own part of the cursor. */
  ghost predicate Moves(catalog: set<Book>, drawKey: int -> int, p: Profile, a: Answers, excluded: seq<int>,
          c: Feed.Cursor, s: Feed.Sources)
  {
    && (s.personalized.Done? ==>
          IsPersonalized(c, p, excluded, a.personalized, s.personalized.value.0, s.personalized.value.1))
    && (s.popular.Done? ==> IsPopular(catalog, c, excluded, a, s.popular.value.0, s.popular.value.1))
    && (s.newest.Done? ==> IsNew(catalog, c, p, excluded, a, s.newest.value.0, s.newest.value.1))
    && (s.exploration.Done? ==>
          && s.exploration.value.1.Some?
          && IsExploration(catalog, excluded, StartKey(c, drawKey), s.exploration.value.0, s.exploration.value.1.value))
  }

  /** Each source is asked on its own; an exception is its outcome. */
  method AskPersonalized(c: Feed.Cursor, p: Profile, excluded: seq<int>, o: Personalized.Oracle, fails: bool)
      returns (r: Feed.Outcome<(seq<int>, Personalized.Status)>)
    requires PersonalizedSound(o, c, p, excluded)
    ensures !r.Cancelled? && (r.Failed? <==> fails) && Keeps(Feed.Ids(r), Blender.Personalized, excluded)
    ensures r.Done? ==> IsPersonalized(c, p, excluded, o, r.value.0, r.value.1)
  {
    if fails {
      return Feed.Failed;
    }
    var ids, status := FromPersonalized(c, p, excluded, o);
    return Feed.Done((ids, status));
  }

  method AskPopular(ghost catalog: set<Book>, c: Feed.Cursor, excluded: seq<int>, a: Answers, fails: bool)
      returns (r: Feed.Outcome<(seq<int>, Option<PopularBooks.Cursor>)>)
    requires UniqueIds(catalog) && PopularSound(a, catalog, c, excluded)
    ensures !r.Cancelled? && (r.Failed? <==> fails) && Keeps(Feed.Ids(r), Blender.Popular, excluded)
    ensures r.Done? ==> IsPopular(catalog, c, excluded, a, r.value.0, r.value.1)
  {
    if fails {
      return Feed.Failed;
    }
    var ids, next := FromPopular(catalog, c, excluded, a);
    return Feed.Done((ids, next));
  }

  method AskNew(ghost catalog: set<Book>, c: Feed.Cursor, p: Profile, excluded: seq<int>, a: Answers, fails: bool)
      returns (r: Feed.Outcome<(seq<int>, Option<int>)>)
    requires UniqueIds(catalog) && NewSound(a, catalog, c, p, excluded)
    ensures !r.Cancelled? && (r.Failed? <==> fails) && Keeps(Feed.Ids(r), Blender.New, excluded)
    ensures r.Done? ==> IsNew(catalog, c, p, excluded, a, r.value.0, r.value.1)
  {
    if fails {
      return Feed.Failed;
    }
    var ids, next := FromNew(catalog, c, p, excluded, a);
    return Feed.Done((ids, next));
  }

  method AskExploration(ghost catalog: set<Book>, c: Feed.Cursor, drawKey: int -> int, excluded: seq<int>, a: Answers,
          fails: bool)
      returns (r: Feed.Outcome<(seq<int>, Option<int>)>)
    requires ExplorationSound(a, catalog, c, drawKey, excluded)
    ensures !r.Cancelled? && (r.Failed? <==> fails) && Keeps(Feed.Ids(r), Blender.Exploration, excluded)
    ensures r.Done? ==>
              r.value.1.Some? && IsExploration(catalog, excluded, StartKey(c, drawKey), r.value.0, r.value.1.value)
  {
    if fails {
      return Feed.Failed;
    }
    var ids, next := FromExploration(catalog, c, drawKey, excluded, a);
    return Feed.Done((ids, Some(next)));
  }

  /** Whether the vector search can fill the page. */
  predicate FoundEnough(a: Answers) {
    |a.personalized.points| >= PERSONALIZED_LIMIT
  }

  /** The four `get` calls of one page. */
  method Gather(ghost catalog: set<Book>, c: Feed.Cursor, drawKey: int -> int, p: Profile, excluded: seq<int>,
          a: Answers, failing: set<Blender.Slot>)
      returns (s: Feed.Sources)
    requires UniqueIds(catalog) && AllSound(a, catalog, c, drawKey, p, excluded)
    ensures Feed.Honours(Feed.Queues(s), excluded) && !Feed.AnyCancelled(s)
    ensures s.personalized.Failed? <==> Blender.Personalized in failing
    ensures s.popular.Failed? <==> Blender.Popular in failing
    ensures s.newest.Failed? <==> Blender.New in failing
    ensures s.exploration.Failed? <==> Blender.Exploration in failing
    ensures Moves(catalog, drawKey, p, a, excluded, c, s)
  {
    var personalized := AskPersonalized(c, p, excluded, a.personalized, Blender.Personalized in failing);
    var popular := AskPopular(catalog, c, excluded, a, Blender.Popular in failing);
    var newest := AskNew(catalog, c, p, excluded, a, Blender.New in failing);
    var exploration := AskExploration(catalog, c, drawKey, excluded, a, Blender.Exploration in failing);
    s := Feed.Sources(personalized, popular, newest, exploration);
    AllKeep(s, excluded);
  }
}
