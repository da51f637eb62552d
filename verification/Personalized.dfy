/**
 * `BookPersonalizedReco`: vector recommendations under caps, falling back to the categories of
 * similar users, or a cold start while the user has no vector. Qdrant is an oracle that honours
 * its exclusion filter; the profile and the ranking of similar users' categories are inputs.
 */
module Personalized {
  import opened Sequences
  import C = CappedPick
  import opened Collaborative
  import opened Pages
  import WeightedSample

  const OFFSET_LIMIT: nat := 200

  datatype Mode = Vector | Collaborative

  datatype Status = Status(mode: Mode, offset: nat, collaborativeOffset: nat)

  /** The points that can be diversified: those with a payload. */
  function Candidates(points: seq<Point>): (r: seq<C.Candidate>)
    ensures forall x :: x in r ==> exists p :: p in points && p.id == x.id
  {
    if points == [] then []
    else
      var rest := Candidates(points[1..]);
      var p := points[0];
      assert p in points && forall q :: q in points[1..] ==> q in points;
      if p.payload.None? then rest
      else [C.Candidate(p.id, p.payload.value.category, p.payload.value.author)] + rest
  }

  /** The sample under the caps, then the sample without them. */
  ghost function Diversified(points: seq<Point>, limit: nat, draws: seq<Point>): seq<int>
    requires limit >= 1
  {
    var offered := Candidates(WeightedSample.Sample(points, limit * C.CANDIDATE_MULTIPLIER, draws, POINT_ID));
    C.Ids(C.Fill(offered, limit, C.Greedy(offered, limit, C.DEFAULT_CAPS, [])))
  }

  /** `_weighted_diversify`. */
  method WeightedDiversify(points: seq<Point>, limit: nat, draws: seq<Point>) returns (ids: seq<int>)
    requires limit >= 1 && WeightedSample.IsDraw(draws, points, limit * C.CANDIDATE_MULTIPLIER)
    ensures ids == Diversified(points, limit, draws)
    ensures |ids| <= limit && forall id :: id in ids ==> exists p :: p in points && p.id == id
  {
    var sampled := WeightedSample.Run(points, limit * C.CANDIDATE_MULTIPLIER, draws, POINT_ID);
    WeightedSample.SampleIsFull(points, limit * C.CANDIDATE_MULTIPLIER, draws, POINT_ID);
    var offered := Candidates(sampled);
    var picker := new C.Picker(C.DEFAULT_CAPS);
    var full := picker.OfferAll(offered, limit);
    if !full {
      picker.FillFrom(offered, limit);
    }
    ids := picker.result;
    C.GreedySubset(offered, limit, C.DEFAULT_CAPS, []);
    C.FillSubset(offered, limit, C.Greedy(offered, limit, C.DEFAULT_CAPS, []));
    forall id | id in ids ensures exists p :: p in points && p.id == id {
      C.IdsMember(picker.picked, id);
      var x :| x in picker.picked && x.id == id;
      assert x in offered;
      var p :| p in sampled && p.id == x.id;
    }
  }

  // ---- a page ----

  /** Everything the databases and the random generator answer while a page is built. */
  datatype Oracle = Oracle(
    points: seq<Point>, draws: seq<Point>,
    users: seq<SimilarUser>, ranked: seq<int>, search: seq<int> -> seq<Point>, similarDraws: seq<Point>,
    categoryIds: seq<int>, categoryDraws: seq<int>,
    coldPool: seq<C.Candidate>, coldDraws: seq<C.Candidate>)

  ghost predicate Sound(o: Oracle, limit: nat, offset: nat, excluded: seq<int>)
    requires limit >= 1
  {
    && (forall p :: p in o.points ==> p.id !in excluded)
    && WeightedSample.IsDraw(o.draws, o.points, limit * C.CANDIDATE_MULTIPLIER)
    && IsRanking(o.users, o.ranked)
    && (o.ranked != [] ==> WeightedSample.IsDraw(o.similarDraws, o.search(Echelon(o.ranked, offset, limit)), limit))
    && WeightedSample.IsDraw(o.categoryDraws, Without(excluded, o.categoryIds, SELF), limit)
    && WeightedSample.IsDraw(o.coldDraws, Without(excluded, o.coldPool, C.ID), limit * C.CANDIDATE_MULTIPLIER)
  }

  /** The state the page leaves in the cursor. */
  function NextStatus(hasVector: bool, enoughPoints: bool, status: Status, limit: nat): Status {
    if !hasVector then Status(Vector, 0, 0)
    else if status.offset >= OFFSET_LIMIT || status.mode == Collaborative then
      Status(Collaborative, OFFSET_LIMIT, status.collaborativeOffset + limit)
    else if !enoughPoints then
      Status(Collaborative, status.offset, status.collaborativeOffset + limit)
    else Status(Vector, status.offset + limit, 0)
  }

  /** Without a vector: books of the user's categories, or of the shared cold pool. */
  ghost function ColdStart(hasCategories: bool, limit: nat, barred: seq<int>, o: Oracle): seq<int> {
    if hasCategories then WeightedSample.Sample(Without(barred, o.categoryIds, SELF), limit, o.categoryDraws, SELF)
    else
      var pool := Without(barred, o.coldPool, C.ID);
      C.Ids(C.Pick(WeightedSample.Sample(pool, limit * C.CANDIDATE_MULTIPLIER, o.coldDraws, C.ID), pool, limit,
                   C.DEFAULT_CAPS))
  }

  /** The page: a cold start without a vector; else by the vector, or by similar users once that mode is left. */
  ghost function PageIds(limit: nat, status: Status, hasVector: bool, hasCategories: bool, purchased: seq<int>,
          excluded: seq<int>, o: Oracle): seq<int>
    requires limit >= 1
  {
    var barred := excluded + Without(excluded, purchased, SELF);
    if !hasVector then ColdStart(hasCategories, limit, barred, o)
    else if NextStatus(true, |o.points| >= limit, status, limit).mode == Vector then Diversified(o.points, limit, o.draws)
    else CollaborativeIds(limit, o.ranked, status.collaborativeOffset, barred, o.search, o.similarDraws)
  }

  method Get(limit: nat, status: Status, hasVector: bool, hasCategories: bool, purchased: seq<int>,
          excluded: seq<int>, o: Oracle)
      returns (ids: seq<int>, next: Status)
    requires limit >= 1 && Sound(o, limit, status.collaborativeOffset, excluded + Without(excluded, purchased, SELF))
    ensures |ids| <= limit
    ensures forall id :: id in ids ==> id !in excluded && id !in purchased
    ensures next == NextStatus(hasVector, |o.points| >= limit, status, limit)
    ensures ids == PageIds(limit, status, hasVector, hasCategories, purchased, excluded, o)
  {
    var barred := excluded + Without(excluded, purchased, SELF);
    assert forall id :: id in purchased ==> id in barred;
    if !hasVector {
      if hasCategories {
        var candidates := Without(barred, o.categoryIds, SELF);
        ids := WeightedSample.Run(candidates, limit, o.categoryDraws, SELF);
        WeightedSample.SampleIsFull(candidates, limit, o.categoryDraws, SELF);
      } else {
        var pool := Without(barred, o.coldPool, C.ID);
        ids := C.DiversifiedPick(pool, limit, C.DEFAULT_CAPS, o.coldDraws);
        forall id | id in ids ensures id !in barred {
          C.IdsMember(pool, id);
        }
      }
      return ids, Status(Vector, 0, 0);
    }
    if status.offset >= OFFSET_LIMIT || status.mode == Collaborative {
      ids := CollaborativePicks(o.users, o.ranked, status.collaborativeOffset, limit, barred, o.search, o.similarDraws);
      return ids, Status(Collaborative, OFFSET_LIMIT, status.collaborativeOffset + limit);
    }
    if |o.points| < limit {
      ids := CollaborativePicks(o.users, o.ranked, status.collaborativeOffset, limit, barred, o.search, o.similarDraws);
      return ids, Status(Collaborative, status.offset, status.collaborativeOffset + limit);
    }
    ids := WeightedDiversify(o.points, limit, o.draws);
    return ids, Status(Vector, status.offset + limit, 0);
  }

  // ---- the mode over a session ----

  /** One page of a session: the source failed, or served it with or without a vector and enough points. */
  datatype Served = Failed | Page(hasVector: bool, enough: bool)

  /** The status after the pages; a failed page leaves it as it was. */
  ghost function StatusOver(pages: seq<Served>, limit: nat): Status {
    if pages == [] then Status(Vector, 0, 0)
    else
      var before := StatusOver(pages[..|pages| - 1], limit);
      match pages[|pages| - 1]
      case Failed => before
      case Page(v, e) => NextStatus(v, e, before, limit)
  }

  /** Whether the search found enough, page by page, since the user last had no vector; failures left out. */
  ghost function EnoughSince(pages: seq<Served>): seq<bool> {
    if pages == [] then []
    else
      var before := EnoughSince(pages[..|pages| - 1]);
      match pages[|pages| - 1]
      case Failed => before
      case Page(v, e) => if v then before + [e] else []
  }

  /** The vector pages since then were all filled, and the last of them began below the offset limit. */
  ghost predicate StaysWithVector(enough: seq<bool>, limit: nat) {
    (forall b :: b in enough ==> b) && (enough != [] ==> (|enough| - 1) * limit < OFFSET_LIMIT)
  }

  /** What the status says about the pages since the user last had no vector. */
  ghost predicate Tracks(s: Status, enough: seq<bool>, limit: nat) {
    && (s.mode == Vector <==> StaysWithVector(enough, limit))
    && (s.mode == Vector ==> s.offset == |enough| * limit && s.collaborativeOffset == 0)
    && (s.mode == Collaborative ==> limit <= s.collaborativeOffset <= |enough| * limit)
  }

  lemma OneMorePage(s: Status, enough: seq<bool>, e: bool, limit: nat)
    requires limit >= 1 && Tracks(s, enough, limit)
    ensures Tracks(NextStatus(true, e, s, limit), enough + [e], limit)
  {
    assert |enough + [e]| * limit == |enough| * limit + limit;
    AllOfMore(enough, e);
    if enough != [] {
      assert |enough| * limit == (|enough| - 1) * limit + limit;
    }
  }

  lemma AllOfMore(enough: seq<bool>, e: bool)
    ensures (forall b :: b in enough + [e] ==> b) <==> (forall b :: b in enough ==> b) && e
  {
    assert e in enough + [e];
    assert forall b :: b in enough ==> b in enough + [e];
  }

  /**
   * Over any session, failed pages and missing vectors included: the mode is the vector mode if and only
   * if since the user last had no vector every page was filled and began below the offset limit; the
   * offset then counts those pages, and otherwise the collaborative offset counts the pages since the change.
   */
  lemma {:induction false} ModeOverSession(pages: seq<Served>, limit: nat)
    requires limit >= 1
    ensures Tracks(StatusOver(pages, limit), EnoughSince(pages), limit)
  {
    if pages != [] {
      var front, last := pages[..|pages| - 1], pages[|pages| - 1];
      ModeOverSession(front, limit);
      if last.Page? && last.hasVector {
        OneMorePage(StatusOver(front, limit), EnoughSince(front), last.enough, limit);
      }
    }
  }

  ghost function Successes(pages: seq<Served>): nat {
    if pages == [] then 0 else Successes(pages[..|pages| - 1]) + if pages[|pages| - 1].Page? then 1 else 0
  }

  /** Collaborative mode is left by a page served without a vector, and by nothing else. */
  lemma {:induction false} CollaborativeIsKept(pages: seq<Served>, more: seq<Served>, limit: nat)
    requires limit >= 1 && StatusOver(pages, limit).mode == Collaborative
    requires forall p :: p in more && p.Page? ==> p.hasVector
    ensures var s, s' := StatusOver(pages, limit), StatusOver(pages + more, limit);
            && s'.mode == Collaborative
            && s'.collaborativeOffset == s.collaborativeOffset + Successes(more) * limit
  {
    if more == [] {
      assert pages + more == pages;
    } else {
      var front, last := more[..|more| - 1], more[|more| - 1];
      assert more == front + [last];
      assert (pages + more)[..|pages + more| - 1] == pages + front;
      CollaborativeIsKept(pages, front, limit);
      assert (Successes(front) + 1) * limit == Successes(front) * limit + limit;
    }
  }

  lemma LeavingCollaborative(pages: seq<Served>, p: Served, limit: nat)
    requires StatusOver(pages, limit).mode == Collaborative
    ensures StatusOver(pages + [p], limit).mode == Vector <==> p.Page? && !p.hasVector
  {
    assert (pages + [p])[..|pages|] == pages;
  }

  // ---- which categories a session is asked for ----

  /** The user keeps a vector, and the first of the further pages is the one that leaves the vector mode. */
  ghost predicate Enters(pages: seq<Served>, more: seq<Served>, limit: nat) {
    && more != [] && (forall p :: p in more && p.Page? ==> p.hasVector)
    && StatusOver(pages, limit).mode == Vector
    && StatusOver(pages + more[..1], limit).mode == Collaborative
  }

  lemma OffsetNext(before: seq<Served>, p: Served, limit: nat, n: nat)
    requires limit >= 1 && (p.Page? ==> p.hasVector)
    requires StatusOver(before, limit).collaborativeOffset == n * limit
    requires StatusOver(before, limit).mode == Collaborative || StatusOver(before + [p], limit).mode == Collaborative
    ensures StatusOver(before + [p], limit).mode == Collaborative
    ensures StatusOver(before + [p], limit).collaborativeOffset == (n + if p.Page? then 1 else 0) * limit
  {
    assert (before + [p])[..|before|] == before;
    assert (n + 1) * limit == n * limit + limit;
  }

  /** After k of the further pages the collaborative offset counts those served. */
  ghost predicate CountsSince(pages: seq<Served>, more: seq<Served>, limit: nat, k: nat)
    requires k <= |more|
  {
    && StatusOver(pages + more[..k], limit).collaborativeOffset == Successes(more[..k]) * limit
    && (k >= 1 ==> StatusOver(pages + more[..k], limit).mode == Collaborative)
  }

  lemma SuccessesNext(more: seq<Served>, k: nat)
    requires k < |more|
    ensures Successes(more[..k + 1]) == Successes(more[..k]) + if more[k].Page? then 1 else 0
  {
    assert more[..k + 1][..k] == more[..k];
  }

  lemma CountsNext(pages: seq<Served>, more: seq<Served>, limit: nat, k: nat)
    requires limit >= 1 && Enters(pages, more, limit) && k < |more| && CountsSince(pages, more, limit, k)
    ensures CountsSince(pages, more, limit, k + 1)
  {
    var before, p, n := pages + more[..k], more[k], Successes(more[..k]);
    assert p in more;
    assert pages + more[..k + 1] == before + [p];
    SuccessesNext(more, k);
    assert k == 0 ==> more[..1] == more[..k + 1];
    OffsetNext(before, p, limit, n);
    assert Successes(more[..k + 1]) == n + if p.Page? then 1 else 0;
  }

  lemma {:induction false} OffsetSince(pages: seq<Served>, more: seq<Served>, limit: nat, k: nat)
    requires limit >= 1 && Enters(pages, more, limit) && k <= |more|
    ensures CountsSince(pages, more, limit, k)
  {
    if k == 0 {
      ModeOverSession(pages, limit);
      assert pages + more[..0] == pages;
    } else {
      OffsetSince(pages, more, limit, k - 1);
      CountsNext(pages, more, limit, k - 1);
    }
  }

  lemma {:induction false} PageNumber(more: seq<Served>, q: nat) returns (k: nat)
    requires q < Successes(more)
    ensures k < |more| && more[k].Page? && Successes(more[..k]) == q
  {
    var front := more[..|more| - 1];
    if q < Successes(front) {
      k := PageNumber(front, q);
      assert front[..k] == more[..k];
    } else {
      k := |more| - 1;
    }
  }

  /** Page k of the further pages is served from categories that hold c. */
  ghost predicate AskedFor(pages: seq<Served>, more: seq<Served>, limit: nat, ranked: seq<int>, k: nat, c: int)
    requires limit >= 1
  {
    && k < |more| && more[k].Page?
    && c in Echelon(ranked, StatusOver(pages + more[..k], limit).collaborativeOffset, limit)
  }

  lemma EchelonOf(i: nat, n: nat)
    requires i < n
    ensures var q := PAGES_PER_ECHELON * (i / ECHELON_SIZE);
            q < PAGES_PER_ECHELON * CeilDiv(n, ECHELON_SIZE) && q / PAGES_PER_ECHELON == i / ECHELON_SIZE
  {
    CeilDivIsCeiling(n, ECHELON_SIZE);
  }

  lemma CategoryIsAskedFor(pages: seq<Served>, more: seq<Served>, limit: nat, ranked: seq<int>, i: nat) returns (k: nat)
    requires limit >= 1 && Enters(pages, more, limit) && i < |ranked|
    requires Successes(more) >= PAGES_PER_ECHELON * CeilDiv(|ranked|, ECHELON_SIZE)
    ensures AskedFor(pages, more, limit, ranked, k, ranked[i])
  {
    var q := PAGES_PER_ECHELON * (i / ECHELON_SIZE);
    EchelonOf(i, |ranked|);
    k := PageNumber(more, q);
    OffsetSince(pages, more, limit, k);
    EchelonsWalkTheRanking(ranked, q, limit);
  }

  /**
   * So long as the user keeps a vector and the ranking stays: within 3 * ceil(n / 10) served pages of
   * leaving the vector mode, failed ones in between or not, every one of the n ranked categories is
   * asked for.
   */
  lemma EveryCategoryIsAskedFor(pages: seq<Served>, more: seq<Served>, limit: nat, ranked: seq<int>)
    requires limit >= 1 && Enters(pages, more, limit)
    requires Successes(more) >= PAGES_PER_ECHELON * CeilDiv(|ranked|, ECHELON_SIZE)
    ensures forall c :: c in ranked ==> exists k: nat :: AskedFor(pages, more, limit, ranked, k, c)
  {
    forall c | c in ranked ensures exists k: nat :: AskedFor(pages, more, limit, ranked, k, c) {
      var i :| 0 <= i < |ranked| && ranked[i] == c;
      var k := CategoryIsAskedFor(pages, more, limit, ranked, i);
    }
  }
}
