/** How full and how varied a page of the personalized source is, whichever way it was found. */
module PersonalizedPages {
  import opened Sequences
  import opened CappedPick
  import opened CapThreshold
  import opened Collaborative
  import opened Personalized
  import WeightedSample

  function CandidateOf(p: Point): Candidate
    requires p.payload.Some?
  {
    Candidate(p.id, p.payload.value.category, p.payload.value.author)
  }

  /** Exactly the points with a payload can be diversified. */
  lemma {:induction false} CandidatesExactly(points: seq<Point>)
    ensures forall p :: p in points && p.payload.Some? ==> CandidateOf(p) in Candidates(points)
    ensures forall x :: x in Candidates(points) ==> exists p :: p in points && p.payload.Some? && x == CandidateOf(p)
    ensures (forall p :: p in points ==> p.payload.Some?) ==> |Candidates(points)| == |points|
  {
    if points != [] {
      assert points == [points[0]] + points[1..];
      CandidatesExactly(points[1..]);
    }
  }

  lemma ConsDistinct(x: Candidate, rest: seq<Candidate>)
    requires DistinctIds(rest) && forall y :: y in rest ==> y.id != x.id
    ensures DistinctIds([x] + rest)
  {
  }

  lemma FirstIsNew(points: seq<Point>, q: Point)
    requires WeightedSample.DistinctKeys(points, POINT_ID) && points != [] && q in points[1..]
    ensures q.id != points[0].id
  {
    var i :| 0 <= i < |points[1..]| && points[1..][i] == q;
    assert POINT_ID(points[0]) != POINT_ID(points[i + 1]);
  }

  lemma {:induction false} CandidatesAreDistinct(points: seq<Point>)
    requires WeightedSample.DistinctKeys(points, POINT_ID)
    ensures DistinctIds(Candidates(points))
  {
    if points != [] {
      var rest := points[1..];
      assert forall i :: 0 <= i < |rest| ==> rest[i] == points[i + 1];
      CandidatesAreDistinct(rest);
      if points[0].payload.Some? {
        forall y | y in Candidates(rest) ensures y.id != points[0].id {
          var q :| q in rest && q.id == y.id;
          FirstIsNew(points, q);
        }
        ConsDistinct(CandidateOf(points[0]), Candidates(rest));
      }
    }
  }

  /** The vector page is one capped pick, from the drawn points. */
  lemma DiversifiedIsPick(points: seq<Point>, limit: nat, draws: seq<Point>) returns (offered: seq<Candidate>)
    requires limit >= 1 && WeightedSample.IsDraw(draws, points, limit * CANDIDATE_MULTIPLIER)
    ensures offered == Candidates(WeightedSample.Sample(points, limit * CANDIDATE_MULTIPLIER, draws, POINT_ID))
    ensures DistinctIds(offered) && Diversified(points, limit, draws) == Ids(Pick([], offered, limit, DEFAULT_CAPS))
  {
    var sampled := WeightedSample.Sample(points, limit * CANDIDATE_MULTIPLIER, draws, POINT_ID);
    WeightedSample.SampleIsFull(points, limit * CANDIDATE_MULTIPLIER, draws, POINT_ID);
    offered := Candidates(sampled);
    CandidatesAreDistinct(sampled);
    assert [] + offered == offered;
  }

  /** A vector page is full: with payloads on all points it has the page size, or every point there is. */
  lemma VectorPageIsFull(points: seq<Point>, limit: nat, draws: seq<Point>)
    requires limit >= 1 && WeightedSample.IsDraw(draws, points, limit * CANDIDATE_MULTIPLIER)
    ensures var sampled := WeightedSample.Sample(points, limit * CANDIDATE_MULTIPLIER, draws, POINT_ID);
            && |Diversified(points, limit, draws)| == Min(limit, |Candidates(sampled)|)
            && Distinct(Diversified(points, limit, draws))
    ensures (forall p :: p in points ==> p.payload.Some?) ==>
              |Diversified(points, limit, draws)| == Min(limit, |WeightedSample.Keys(points, POINT_ID)|)
  {
    var sampled := WeightedSample.Sample(points, limit * CANDIDATE_MULTIPLIER, draws, POINT_ID);
    var offered := DiversifiedIsPick(points, limit, draws);
    PickIsFull([], offered, limit, DEFAULT_CAPS);
    WeightedSample.SampleIsFull(points, limit * CANDIDATE_MULTIPLIER, draws, POINT_ID);
    if forall p :: p in points ==> p.payload.Some? {
      CandidatesExactly(sampled);
    }
  }

  ghost function Shown(offered: seq<Candidate>, ids: seq<int>): set<Candidate> {
    set x | x in offered && x.id in ids
  }

  /** A vector page obeys the caps whenever the drawn points admit enough books that do. */
  lemma VectorPageKeepsCaps(points: seq<Point>, limit: nat, draws: seq<Point>, other: set<Candidate>)
    requires limit >= 1 && WeightedSample.IsDraw(draws, points, limit * CANDIDATE_MULTIPLIER)
    requires var sampled := WeightedSample.Sample(points, limit * CANDIDATE_MULTIPLIER, draws, POINT_ID);
             && (forall x :: x in other ==> exists p :: p in sampled && p.payload.Some? && x == CandidateOf(p))
             && WithinCaps(other, DEFAULT_CAPS) && |other| > Blocked(limit, DEFAULT_CAPS)
    ensures var sampled := WeightedSample.Sample(points, limit * CANDIDATE_MULTIPLIER, draws, POINT_ID);
            WithinCaps(Shown(Candidates(sampled), Diversified(points, limit, draws)), DEFAULT_CAPS)
  {
    var sampled := WeightedSample.Sample(points, limit * CANDIDATE_MULTIPLIER, draws, POINT_ID);
    var offered := DiversifiedIsPick(points, limit, draws);
    CandidatesExactly(sampled);
    EnoughKeepsCaps([], offered, limit, DEFAULT_CAPS, other);
    ShownIsPick(offered, limit);
  }

  lemma ShownIsPick(offered: seq<Candidate>, limit: nat)
    requires DistinctIds(offered)
    ensures var r := Pick([], offered, limit, DEFAULT_CAPS); Shown(offered, Ids(r)) == Elements(r)
  {
    var r := Pick([], offered, limit, DEFAULT_CAPS);
    PickIsFull([], offered, limit, DEFAULT_CAPS);
    forall x | x in r ensures x in Shown(offered, Ids(r)) {
      IdsMember(r, x.id);
    }
    forall x | x in Shown(offered, Ids(r)) ensures x in r {
      IdsMember(r, x.id);
      var y :| y in r && y.id == x.id;
      SameId(offered, x, y);
    }
  }

  /**
   * Without a vector but with categories: different books of those categories, as many as asked for or
   * as there are. Without either: a full capped page of the cold pool.
   */
  lemma ColdPages(limit: nat, barred: seq<int>, o: Oracle)
    requires limit >= 1 && Distinct(o.categoryIds) && DistinctIds(Without(barred, o.coldPool, ID))
    requires WeightedSample.IsDraw(o.categoryDraws, Without(barred, o.categoryIds, SELF), limit)
    requires WeightedSample.IsDraw(o.coldDraws, Without(barred, o.coldPool, ID), limit * CANDIDATE_MULTIPLIER)
    ensures var ids := ColdStart(true, limit, barred, o);
            && (forall id :: id in ids ==> id in o.categoryIds && id !in barred) && Distinct(ids)
            && |ids| == Min(limit, |Elements(o.categoryIds) - Elements(barred)|)
    ensures var ids, pool := ColdStart(false, limit, barred, o), Without(barred, o.coldPool, ID);
            && (forall id :: id in ids ==> id in Ids(o.coldPool) && id !in barred) && Distinct(ids)
            && |ids| == Min(limit, |pool|)
  {
    var candidates, pool := Without(barred, o.categoryIds, SELF), Without(barred, o.coldPool, ID);
    WeightedSample.SampleIsFull(candidates, limit, o.categoryDraws, SELF);
    WeightedSample.SampleIsFull(pool, limit * CANDIDATE_MULTIPLIER, o.coldDraws, ID);
    assert WeightedSample.Keys(candidates, SELF) == Elements(o.categoryIds) - Elements(barred);
    var sampled := WeightedSample.Sample(pool, limit * CANDIDATE_MULTIPLIER, o.coldDraws, ID);
    PickFromPool(sampled, pool, limit, DEFAULT_CAPS);
    forall id | id in ColdStart(false, limit, barred, o) ensures id in Ids(o.coldPool) && id !in barred {
      IdsMember(pool, id);
      IdsMember(o.coldPool, id);
    }
  }
}
