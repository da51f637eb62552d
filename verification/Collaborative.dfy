/**
 * `_collaborative`: books of the categories that similar users like best. The categories are ranked by
 * what the users give them and asked for ten at a time, three pages each.
 */
module Collaborative {
  import opened Sequences
  import WeightedSample

  datatype Payload = Payload(category: Option<int>, author: Option<int>)

  /** A scored point; `None` stands for a missing or empty payload. */
  datatype Point = Point(id: int, payload: Option<Payload>)

  const POINT_ID: Point -> int := (p: Point) => p.id

  const ECHELON_SIZE: nat := 10
  const PAGES_PER_ECHELON: nat := 3

  /** A user with a similar profile: how similar, and the best categories in order. */
  datatype SimilarUser = SimilarUser(score: real, topCategories: seq<int>)

  /** What one user gives a category: the score by the place the category has among the user's own. */
  ghost function GivenBy(score: real, categories: seq<int>, c: int): real {
    if categories == [] then 0.0
    else
      var n := |categories| - 1;
      GivenBy(score, categories[..n], c) + (if categories[n] == c then score / (n + 1) as real else 0.0)
  }

  ghost function Given(users: seq<SimilarUser>, c: int): real {
    if users == [] then 0.0
    else Given(users[..|users| - 1], c) + GivenBy(users[|users| - 1].score, users[|users| - 1].topCategories, c)
  }

  ghost function Mentioned(users: seq<SimilarUser>): set<int> {
    if users == [] then {} else Mentioned(users[..|users| - 1]) + Elements(users[|users| - 1].topCategories)
  }

  /** The two nested loops over users and their categories. */
  method ScoreCategories(users: seq<SimilarUser>) returns (scores: map<int, real>)
    ensures scores.Keys == Mentioned(users) && forall c :: c in scores ==> scores[c] == Given(users, c)
  {
    scores := map[];
    var i := 0;
    while i < |users|
      invariant 0 <= i <= |users|
      invariant scores.Keys == Mentioned(users[..i]) && forall c :: ScoreOf(scores, c) == Given(users[..i], c)
    {
      assert users[..i + 1][..i] == users[..i];
      scores := AddUser(scores, users[i]);
      i := i + 1;
    }
    assert users[..|users|] == users;
  }

  function ScoreOf(scores: map<int, real>, c: int): real {
    if c in scores then scores[c] else 0.0
  }

  method AddUser(before: map<int, real>, user: SimilarUser) returns (scores: map<int, real>)
    ensures scores.Keys == before.Keys + Elements(user.topCategories)
    ensures forall c :: ScoreOf(scores, c) == ScoreOf(before, c) + GivenBy(user.score, user.topCategories, c)
  {
    scores := before;
    var categories := user.topCategories;
    var rank := 0;
    while rank < |categories|
      invariant 0 <= rank <= |categories|
      invariant scores.Keys == before.Keys + Elements(categories[..rank])
      invariant forall c :: ScoreOf(scores, c) == ScoreOf(before, c) + GivenBy(user.score, categories[..rank], c)
    {
      NextCategory(user.score, categories, rank);
      var c := categories[rank];
      scores := scores[c := ScoreOf(scores, c) + user.score / (rank + 1) as real];
      rank := rank + 1;
    }
    assert categories[..|categories|] == categories;
  }

  lemma NextCategory(score: real, categories: seq<int>, rank: nat)
    requires rank < |categories|
    ensures Elements(categories[..rank + 1]) == Elements(categories[..rank]) + {categories[rank]}
    ensures forall c :: GivenBy(score, categories[..rank + 1], c)
                        == GivenBy(score, categories[..rank], c)
                           + (if categories[rank] == c then score / (rank + 1) as real else 0.0)
  {
    assert categories[..rank + 1] == categories[..rank] + [categories[rank]];
    assert categories[..rank + 1][..rank] == categories[..rank];
  }

  // ---- what the scores mean ----

  /** A user gives the category in the i-th place of his own the score divided by i + 1, and other categories nothing. */
  lemma {:induction false} PlaceWeights(score: real, categories: seq<int>, c: int)
    requires Distinct(categories)
    ensures c !in categories ==> GivenBy(score, categories, c) == 0.0
    ensures forall i :: 0 <= i < |categories| && categories[i] == c ==>
              GivenBy(score, categories, c) == score / (i + 1) as real
  {
    if categories != [] {
      var n := |categories| - 1;
      assert forall x :: x in categories[..n] ==> x in categories;
      PlaceWeights(score, categories[..n], c);
      if categories[n] == c {
        assert c !in categories[..n];
      }
    }
  }

  /** What several users give is added up. */
  lemma {:induction false} GivenAdds(a: seq<SimilarUser>, b: seq<SimilarUser>, c: int)
    ensures Given(a + b, c) == Given(a, c) + Given(b, c)
    ensures |a| == 1 ==> Given(a, c) == GivenBy(a[0].score, a[0].topCategories, c)
    ensures Mentioned(a + b) == Mentioned(a) + Mentioned(b)
    ensures |a| == 1 ==> Mentioned(a) == Elements(a[0].topCategories)
    decreases |b|
  {
    if |a| == 1 {
      assert a[..0] == [];
    }
    if b == [] {
      assert a + b == a;
    } else {
      var front := b[..|b| - 1];
      assert (a + b)[..|a + b| - 1] == a + front;
      GivenAdds(a, front, c);
    }
  }

  /** The first pages ask for the categories that are given the most. */
  lemma BestCategoriesFirst(users: seq<SimilarUser>, ranked: seq<int>, offset: nat, limit: nat, c: int, d: int)
    requires limit >= 1 && IsRanking(users, ranked) && offset < PAGES_PER_ECHELON * limit
    requires c in Echelon(ranked, offset, limit) && d in Mentioned(users) && d !in Echelon(ranked, offset, limit)
    ensures Given(users, c) >= Given(users, d) && |Echelon(ranked, offset, limit)| == 10
  {
    FirstEchelon(ranked, offset, limit);
    var i :| 0 <= i < |Echelon(ranked, offset, limit)| && Echelon(ranked, offset, limit)[i] == c;
    assert d in ranked;
    var j :| 0 <= j < |ranked| && ranked[j] == d;
  }

  lemma FirstEchelon(ranked: seq<int>, offset: nat, limit: nat)
    requires limit >= 1 && offset < PAGES_PER_ECHELON * limit
    ensures Echelon(ranked, offset, limit) == ranked[..Min(ECHELON_SIZE, |ranked|)]
  {
    assert offset / limit < PAGES_PER_ECHELON;
  }

  /** `sorted` by score, best first: every mentioned category once. */
  ghost predicate IsRanking(users: seq<SimilarUser>, ranked: seq<int>) {
    && (forall i, j :: 0 <= i < j < |ranked| ==> ranked[i] != ranked[j] && Given(users, ranked[i]) >= Given(users, ranked[j]))
    && (forall c :: c in ranked <==> c in Mentioned(users))
  }

  /** The ten categories of the page's echelon; past the last echelon, the best ten again. */
  function Echelon(ranked: seq<int>, offset: nat, limit: nat): seq<int>
    requires limit >= 1
  {
    var start := offset / limit / PAGES_PER_ECHELON * ECHELON_SIZE;
    if start < |ranked| then ranked[start..Min(start + ECHELON_SIZE, |ranked|)]
    else ranked[..Min(ECHELON_SIZE, |ranked|)]
  }

  /** Page by page the walk goes down the whole ranking in tens, three pages each, and then stays with the best ten. */
  lemma EchelonsWalkTheRanking(ranked: seq<int>, page: nat, limit: nat)
    requires limit >= 1
    ensures var start := page / PAGES_PER_ECHELON * ECHELON_SIZE;
            Echelon(ranked, page * limit, limit)
            == if start < |ranked| then ranked[start..Min(start + ECHELON_SIZE, |ranked|)]
               else ranked[..Min(ECHELON_SIZE, |ranked|)]
    ensures forall i :: 0 <= i < |ranked| && i / ECHELON_SIZE == page / PAGES_PER_ECHELON ==>
              ranked[i] in Echelon(ranked, page * limit, limit)
  {
    PageOfOffset(page, limit);
    var start := page / PAGES_PER_ECHELON * ECHELON_SIZE;
    forall i | 0 <= i < |ranked| && i / ECHELON_SIZE == page / PAGES_PER_ECHELON
      ensures ranked[i] in Echelon(ranked, page * limit, limit)
    {
      assert Echelon(ranked, page * limit, limit)[i - start] == ranked[i];
    }
  }

  lemma PageOfOffset(page: nat, limit: nat)
    requires limit >= 1
    ensures page * limit / limit == page
  {
    var q := page * limit / limit;
    assert 0 <= page * limit - q * limit < limit;
    assert (page - q) * limit == page * limit - q * limit;
    NoSmallMultiple(page - q, limit);
  }

  lemma NoSmallMultiple(k: int, d: nat)
    requires d >= 1
    ensures k >= 1 ==> k * d >= d
    ensures k <= -1 ==> k * d <= 0 - d
  {
  }

  function PointIds(points: seq<Point>): seq<int> {
    seq(|points|, i requires 0 <= i < |points| => points[i].id)
  }

  /**
   * `_collaborative`: nothing without similar users or their categories; else a sample of what the
   * search returns for the page's echelon, without what is excluded.
   */
  ghost function CollaborativeIds(limit: nat, ranked: seq<int>, offset: nat, excluded: seq<int>,
          search: seq<int> -> seq<Point>, draws: seq<Point>): seq<int>
    requires limit >= 1
  {
    if ranked == [] then []
    else
      var points := search(Echelon(ranked, offset, limit));
      Without(excluded, PointIds(WeightedSample.Sample(points, limit, draws, POINT_ID)), SELF)
  }

  method CollaborativePicks(users: seq<SimilarUser>, ranked: seq<int>, offset: nat, limit: nat, excluded: seq<int>,
                            search: seq<int> -> seq<Point>, draws: seq<Point>) returns (result: seq<int>)
    requires limit >= 1 && IsRanking(users, ranked)
    requires ranked != [] ==> WeightedSample.IsDraw(draws, search(Echelon(ranked, offset, limit)), limit)
    ensures result == CollaborativeIds(limit, ranked, offset, excluded, search, draws)
    ensures |result| <= limit && Distinct(result)
    ensures forall id :: id in result ==>
              id !in excluded && exists p :: p in search(Echelon(ranked, offset, limit)) && p.id == id
  {
    if users == [] {
      NobodyMentions(users, ranked);
      return [];
    }
    var scores := ScoreCategories(users);
    if scores == map[] {
      NobodyMentions(users, ranked);
      return [];
    }
    if ranked == [] {
      NobodyMentions(users, ranked);
      return [];
    }
    var points := search(Echelon(ranked, offset, limit));
    var sampled := WeightedSample.Run(points, limit, draws, POINT_ID);
    WeightedSample.SampleIsFull(points, limit, draws, POINT_ID);
    SampledIdsDiffer(sampled);
    result := TakeUnseen(sampled, limit, excluded);
    WithoutKeepsDistinct(excluded, PointIds(sampled), SELF);
    forall id | id in result ensures exists p :: p in points && p.id == id {
      assert id in PointIds(sampled);
      var i :| 0 <= i < |sampled| && PointIds(sampled)[i] == id;
      assert sampled[i] in sampled;
    }
  }

  lemma NobodyMentions(users: seq<SimilarUser>, ranked: seq<int>)
    requires IsRanking(users, ranked)
    ensures ranked == [] <==> Mentioned(users) == {}
  {
    if ranked == [] {
      NoMember(Mentioned(users), ranked);
    } else {
      var best := ranked[0];
      assert best in ranked;
      assert best in Mentioned(users);
    }
  }

  lemma NoMember(s: set<int>, members: seq<int>)
    requires forall c :: c in s ==> c in members
    ensures members == [] ==> s == {}
  {
    if members == [] && s != {} {
      HasMember(s);
    }
  }

  function Either(excluded: seq<int>, result: seq<int>): set<int> {
    Elements(excluded) + Elements(result)
  }

  /** The loop over the sample. */
  method TakeUnseen(sampled: seq<Point>, limit: nat, excluded: seq<int>) returns (result: seq<int>)
    requires |sampled| <= limit && Distinct(PointIds(sampled))
    ensures result == Without(excluded, PointIds(sampled), SELF)
  {
    result := [];
    var seen := Elements(excluded);
    var i := 0;
    ghost var ids := PointIds(sampled);
    while i < |sampled|
      invariant 0 <= i <= |sampled| && |result| <= i
      invariant result == Without(excluded, ids[..i], SELF)
      invariant seen == Either(excluded, result)
    {
      NextId(excluded, ids, i);
      result, seen := TakeOne(sampled[i].id, result, seen, excluded);
      i := i + 1;
      if |result| >= limit {
        assert i == |sampled|;
        break;
      }
    }
    assert i == |ids| && ids[..i] == ids;
  }

  method TakeOne(id: int, result: seq<int>, seen: set<int>, ghost excluded: seq<int>)
    returns (result': seq<int>, seen': set<int>)
    requires seen == Either(excluded, result) && (id in seen ==> id in excluded)
    ensures result' == result + Unless(excluded, id, SELF) && seen' == Either(excluded, result')
  {
    result', seen' := result, seen;
    if id !in seen {
      seen' := seen + {id};
      result' := result + [id];
    }
  }

  lemma SampledIdsDiffer(sampled: seq<Point>)
    requires WeightedSample.DistinctKeys(sampled, POINT_ID)
    ensures Distinct(PointIds(sampled))
  {
    forall i, j | 0 <= i < j < |sampled| ensures sampled[i].id != sampled[j].id {
      assert POINT_ID(sampled[i]) != POINT_ID(sampled[j]);
    }
  }

  lemma NextId(excluded: seq<int>, ids: seq<int>, i: nat)
    requires Distinct(ids) && i < |ids|
    ensures Without(excluded, ids[..i + 1], SELF) == Without(excluded, ids[..i], SELF) + Unless(excluded, ids[i], SELF)
    ensures ids[i] in Either(excluded, Without(excluded, ids[..i], SELF)) ==> ids[i] in excluded
  {
    assert ids[..i + 1][..i] == ids[..i];
  }
}
