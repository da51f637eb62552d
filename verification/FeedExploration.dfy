/**
 * The exploration source over a whole feed session: every book on sale comes up, although the
 * session forgets, other sources interfere and pages fail.
 */
module FeedExploration {
  import opened Sequences
  import opened Catalog
  import opened Exploration
  import opened ExplorationTour
  import opened FeedSession
  import opened Pages
  import Blender
  import Feed
  import FeedSources

  /** Every id recorded by the pages. */
  ghost function Recorded(pages: seq<Served>): set<int> {
    Elements(Flatten(Feed.PagesOf(Requests(pages))))
  }

  ghost function Explored(pages: seq<Served>): nat {
    if pages == [] then 0
    else Explored(pages[..|pages| - 1]) + if pages[|pages| - 1].sources.exploration.Done? then 1 else 0
  }

  function KeyAfter(drawKey: int -> int, pages: seq<Served>, k: nat): int
    requires k <= |pages| && pages != []
  {
    if k < |pages| then FeedSources.StartKey(pages[k].cursor, drawKey)
    else
      var last := pages[|pages| - 1];
      FeedSources.StartKey(Feed.NextCursor(last.cursor, last.sources), drawKey)
  }

  function Keys(drawKey: int -> int, pages: seq<Served>): seq<int>
    requires pages != []
  {
    seq(|pages| + 1, k requires 0 <= k <= |pages| => KeyAfter(drawKey, pages, k))
  }

  ghost function RecordedBy(pages: seq<Served>): seq<set<int>> {
    seq(|pages| + 1, k requires 0 <= k <= |pages| => Recorded(pages[..k]))
  }

  /** The walk starts at the key drawn from the session's seed and goes on where the last step ended. */
  lemma WalkGoesOn(catalog: set<Book>, drawKey: int -> int, pages: seq<Served>, k: nat)
    requires IsSession(catalog, drawKey, pages) && k < |pages|
    ensures KeyAfter(drawKey, pages, 0) == drawKey(pages[0].cursor.seed)
    ensures var step := pages[k].sources.exploration;
            KeyAfter(drawKey, pages, k + 1)
            == if step.Done? && step.value.1.Some? then step.value.1.value else KeyAfter(drawKey, pages, k)
  {
    assert IsServed(catalog, drawKey, pages, k);
  }

  ghost function StopAt(catalog: set<Book>, drawKey: int -> int, pages: seq<Served>, k: nat): (r: Stop)
    requires k < |pages| && IsServed(catalog, drawKey, pages, k)
    ensures r.Took? <==> pages[k].sources.exploration.Done?
  {
    var p := pages[k];
    if p.sources.exploration.Done? then
      var rows :| p.sources.exploration.value.0 == Ids(rows)
                  && IsStep(catalog, FeedSources.EXPLORATION_LIMIT, Elements(ExcludedAt(pages, k)),
                            FeedSources.StartKey(p.cursor, drawKey), rows, p.sources.exploration.value.1.value);
      Took(Elements(ExcludedAt(pages, k)), rows)
    else Missed
  }

  ghost function Stops(catalog: set<Book>, drawKey: int -> int, pages: seq<Served>): seq<Stop>
    requires IsSession(catalog, drawKey, pages)
  {
    seq(|pages|, k requires 0 <= k < |pages| => StopAt(catalog, drawKey, pages, k))
  }

  lemma RecordedNext(pages: seq<Served>, k: nat)
    requires k < |pages|
    ensures Recorded(pages[..k + 1]) == Recorded(pages[..k]) + Elements(Feed.PageOf(RequestOf(pages[k])))
  {
    var front, more := Feed.PagesOf(Requests(pages[..k])), Feed.PagesOf(Requests(pages[..k + 1]));
    assert more[..k] == front && more[k] == Feed.PageOf(RequestOf(pages[k]));
    assert Flatten(more) == Flatten(front) + more[k];
  }

  /** What is excluded has been recorded; before the list is full, it is all that has been recorded. */
  lemma ExcludedIsRecorded(pages: seq<Served>, k: nat)
    requires k <= |pages|
    ensures Elements(ExcludedAt(pages, k)) <= Recorded(pages[..k])
    ensures |Flatten(Feed.PagesOf(Requests(pages[..k])))| <= Feed.MAX_EXCLUDED_IDS ==>
              Elements(ExcludedAt(pages, k)) == Recorded(pages[..k])
  {
    Feed.SeenIsRecent(Requests(pages[..k]));
  }

  lemma ExplorationIsRecorded(catalog: set<Book>, drawKey: int -> int, pages: seq<Served>, k: nat)
    requires k < |pages| && IsServed(catalog, drawKey, pages, k)
    ensures Elements(Feed.Ids(pages[k].sources.exploration)) <= Elements(Feed.PageOf(RequestOf(pages[k])))
  {
    var q := Feed.Queues(pages[k].sources);
    assert forall slot: Blender.Slot :: |q.Of(slot)| <= Blender.SlotCount(slot);
    Blender.NothingIsDropped(pages[k].pattern, q);
  }

  lemma KeyChain(catalog: set<Book>, drawKey: int -> int, pages: seq<Served>, k: nat)
    requires IsSession(catalog, drawKey, pages) && k < |pages|
    ensures var exploration := pages[k].sources.exploration;
            && (exploration.Done? ==> exploration.value.1.Some?)
            && KeyAfter(drawKey, pages, k + 1)
            == if exploration.Done? then exploration.value.1.value else KeyAfter(drawKey, pages, k)
  {
    assert IsServed(catalog, drawKey, pages, k);
  }

  lemma SessionStep(catalog: set<Book>, drawKey: int -> int, pages: seq<Served>, k: nat)
    requires IsSession(catalog, drawKey, pages) && k < |pages|
    ensures IsTourStep(catalog, FeedSources.EXPLORATION_LIMIT, Keys(drawKey, pages)[k], RecordedBy(pages)[k],
                       Stops(catalog, drawKey, pages)[k], Keys(drawKey, pages)[k + 1], RecordedBy(pages)[k + 1])
  {
    assert IsServed(catalog, drawKey, pages, k);
    KeyChain(catalog, drawKey, pages, k);
    RecordedNext(pages, k);
    ExcludedIsRecorded(pages, k);
    ExplorationIsRecorded(catalog, drawKey, pages, k);
  }

  lemma {:induction false} ExploredIsSuccesses(pages: seq<Served>, stops: seq<Stop>)
    requires |stops| == |pages|
    requires forall k :: 0 <= k < |pages| ==> (stops[k].Took? <==> pages[k].sources.exploration.Done?)
    ensures Explored(pages) == Successes(stops)
  {
    if pages != [] {
      ExploredIsSuccesses(pages[..|pages| - 1], stops[..|pages| - 1]);
    }
  }

  lemma {:induction false} FlattenGrows(pages: seq<seq<int>>, k: nat)
    requires k <= |pages|
    ensures |Flatten(pages[..k])| <= |Flatten(pages)|
  {
    if k < |pages| {
      FlattenGrows(pages[..|pages| - 1], k);
      assert pages[..|pages| - 1][..k] == pages[..k];
    } else {
      assert pages[..k] == pages;
    }
  }

  lemma NothingForgotten(catalog: set<Book>, drawKey: int -> int, pages: seq<Served>)
    requires IsSession(catalog, drawKey, pages)
    requires |Flatten(Feed.PagesOf(Requests(pages)))| <= Feed.MAX_EXCLUDED_IDS
    ensures RemembersAll(RecordedBy(pages), Stops(catalog, drawKey, pages))
  {
    forall k | 0 <= k < |pages| ensures Elements(ExcludedAt(pages, k)) == RecordedBy(pages)[k] {
      FlattenGrows(Feed.PagesOf(Requests(pages)), k);
      assert Feed.PagesOf(Requests(pages))[..k] == Feed.PagesOf(Requests(pages[..k]));
      ExcludedIsRecorded(pages, k);
    }
  }

  /** A session is a tour from nothing recorded to all that its pages have recorded. */
  lemma SessionIsTour(catalog: set<Book>, drawKey: int -> int, pages: seq<Served>)
    returns (keys: seq<int>, recorded: seq<set<int>>, stops: seq<Stop>)
    requires IsSession(catalog, drawKey, pages)
    ensures IsTour(catalog, FeedSources.EXPLORATION_LIMIT, keys, recorded, stops)
    ensures Explored(pages) == Successes(stops)
    ensures recorded[0] == {} && recorded[|stops|] == Recorded(pages)
    ensures |Flatten(Feed.PagesOf(Requests(pages)))| <= Feed.MAX_EXCLUDED_IDS ==> RemembersAll(recorded, stops)
  {
    keys, recorded, stops := Keys(drawKey, pages), RecordedBy(pages), Stops(catalog, drawKey, pages);
    forall k | 0 <= k < |pages|
      ensures IsTourStep(catalog, FeedSources.EXPLORATION_LIMIT, Keys(drawKey, pages)[k], RecordedBy(pages)[k],
                         Stops(catalog, drawKey, pages)[k], Keys(drawKey, pages)[k + 1], RecordedBy(pages)[k + 1])
    {
      SessionStep(catalog, drawKey, pages, k);
    }
    ExploredIsSuccesses(pages, stops);
    assert pages[..|pages|] == pages && pages[..0] == [];
    if |Flatten(Feed.PagesOf(Requests(pages)))| <= Feed.MAX_EXCLUDED_IDS {
      NothingForgotten(catalog, drawKey, pages);
    }
  }

  /**
   * Once the exploration source has succeeded on as many pages as there are books on sale, every book
   * on sale has been picked in the session, however long it is, whatever failed in between and however
   * much of it the list of 400 ids has forgotten.
   */
  lemma EveryBookComesUp(catalog: set<Book>, drawKey: int -> int, pages: seq<Served>)
    requires IsSession(catalog, drawKey, pages) && DistinctKeys(catalog)
    requires Explored(pages) >= |OnSale(catalog)|
    ensures forall b :: b in OnSale(catalog) ==> b.id in Recorded(pages)
  {
    var keys, recorded, stops := SessionIsTour(catalog, drawKey, pages);
    TourRecordsAll(catalog, FeedSources.EXPLORATION_LIMIT, keys, recorded, stops);
  }

  /** In a session of at most 400 picks, ceil(N / 2) + 1 pages with exploration are enough. */
  lemma EveryBookComesUpSooner(catalog: set<Book>, drawKey: int -> int, pages: seq<Served>)
    requires IsSession(catalog, drawKey, pages) && DistinctKeys(catalog) && UniqueIds(catalog)
    requires |Flatten(Feed.PagesOf(Requests(pages)))| <= Feed.MAX_EXCLUDED_IDS
    requires Explored(pages) >= CeilDiv(|OnSale(catalog)|, 2) + 1
    ensures forall b :: b in OnSale(catalog) ==> b.id in Recorded(pages)
  {
    var keys, recorded, stops := SessionIsTour(catalog, drawKey, pages);
    assert Remaining(catalog, {}) == OnSale(catalog);
    FastTour(catalog, FeedSources.EXPLORATION_LIMIT, keys, recorded, stops);
  }
}
