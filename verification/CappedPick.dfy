/**
 * `_diversified_pick`: a weighted sample under per-category and per-author caps, then the rest of
 * the pool under the same caps, then the rest of the pool regardless of caps.
 *
 * The two capped phases build a maximal set within two partition constraints, so they find at
 * least half of any selection the caps admit.
 */
module CappedPick {
  import opened Sequences
  import opened WeightedSample

  const CANDIDATE_MULTIPLIER: nat := 3

  datatype Candidate = Candidate(id: int, category: Option<int>, author: Option<int>)

  datatype Caps = Caps(category: nat, author: nat)

  /** `_diversified_pick` and `_weighted_diversify` are only ever called with their defaults. */
  const DEFAULT_CAPS := Caps(2, 2)

  /** Python truthiness: neither `None` nor id 0 is subject to a cap. */
  predicate Counted(group: Option<int>) {
    group.Some? && group.value != 0
  }

  ghost function Ids(picks: seq<Candidate>): seq<int> {
    seq(|picks|, i requires 0 <= i < |picks| => picks[i].id)
  }

  ghost predicate DistinctIds(pool: seq<Candidate>) {
    forall i, j :: 0 <= i < j < |pool| ==> pool[i].id != pool[j].id
  }

  ghost function Group(s: set<Candidate>, of: Candidate -> Option<int>, g: Option<int>): set<Candidate> {
    set x | x in s && of(x) == g
  }

  const CATEGORY: Candidate -> Option<int> := (x: Candidate) => x.category
  const AUTHOR: Candidate -> Option<int> := (x: Candidate) => x.author

  /** No counted group has more than cap members. */
  ghost predicate GroupsWithin(s: set<Candidate>, of: Candidate -> Option<int>, cap: nat) {
    forall x :: x in s && Counted(of(x)) ==> |Group(s, of, of(x))| <= cap
  }

  ghost predicate WithinCaps(s: set<Candidate>, caps: Caps) {
    GroupsWithin(s, CATEGORY, caps.category) && GroupsWithin(s, AUTHOR, caps.author)
  }

  ghost predicate GroupFull(s: set<Candidate>, of: Candidate -> Option<int>, cap: nat, x: Candidate) {
    Counted(of(x)) && |Group(s, of, of(x))| >= cap
  }

  /** The test `try_pick` makes before it takes a candidate. */
  ghost predicate Admissible(picked: seq<Candidate>, caps: Caps, x: Candidate) {
    && x.id !in Ids(picked)
    && !GroupFull(Elements(picked), CATEGORY, caps.category, x)
    && !GroupFull(Elements(picked), AUTHOR, caps.author, x)
  }

  ghost function TryPick(picked: seq<Candidate>, caps: Caps, x: Candidate): seq<Candidate> {
    if Admissible(picked, caps, x) then picked + [x] else picked
  }

  /** Offer the items one by one until limit picks are made. */
  ghost function Greedy(items: seq<Candidate>, limit: nat, caps: Caps, picked: seq<Candidate>): seq<Candidate> {
    if items == [] || |picked| >= limit then picked
    else Greedy(items[1..], limit, caps, TryPick(picked, caps, items[0]))
  }

  /** Take unseen items, capped or not, until limit picks are made. */
  ghost function Fill(items: seq<Candidate>, limit: nat, picked: seq<Candidate>): seq<Candidate> {
    if items == [] || |picked| >= limit then picked
    else Fill(items[1..], limit, if items[0].id in Ids(picked) then picked else picked + [items[0]])
  }

  /** The three phases, on any sample of the pool. */
  ghost function Pick(sampled: seq<Candidate>, pool: seq<Candidate>, limit: nat, caps: Caps): seq<Candidate> {
    Fill(pool, limit, Greedy(sampled + pool, limit, caps, []))
  }

  // ---- the capped phases: within the caps, and maximal ----

  lemma IdsMember(picks: seq<Candidate>, id: int)
    ensures id in Ids(picks) <==> exists x :: x in picks && x.id == id
  {
    if id in Ids(picks) {
      var i :| 0 <= i < |picks| && Ids(picks)[i] == id;
      assert picks[i] in picks;
    }
    if exists x :: x in picks && x.id == id {
      var i :| 0 <= i < |picks| && picks[i].id == id;
      assert Ids(picks)[i] == id;
    }
  }

  lemma GroupMonotone(a: set<Candidate>, b: set<Candidate>, of: Candidate -> Option<int>, g: Option<int>)
    requires a <= b
    ensures |Group(a, of, g)| <= |Group(b, of, g)|
  {
    SubsetSize(Group(a, of, g), Group(b, of, g));
  }

  lemma AddKeepsGroups(s: set<Candidate>, x: Candidate, of: Candidate -> Option<int>, cap: nat)
    requires GroupsWithin(s, of, cap) && !GroupFull(s, of, cap, x)
    ensures GroupsWithin(s + {x}, of, cap)
  {
    forall y | y in s + {x} && Counted(of(y)) ensures |Group(s + {x}, of, of(y))| <= cap {
      if of(y) == of(x) {
        assert Group(s + {x}, of, of(y)) == Group(s, of, of(x)) + {x};
      } else {
        assert Group(s + {x}, of, of(y)) == Group(s, of, of(y));
      }
    }
  }

  /** Once refused, always refused: picks only grow. */
  lemma RefusedStaysRefused(picked: seq<Candidate>, more: seq<Candidate>, caps: Caps, x: Candidate)
    requires !Admissible(picked, caps, x) && picked <= more
    ensures !Admissible(more, caps, x)
  {
    assert forall i :: 0 <= i < |picked| ==> Ids(picked)[i] == Ids(more)[i];
    GroupMonotone(Elements(picked), Elements(more), CATEGORY, x.category);
    GroupMonotone(Elements(picked), Elements(more), AUTHOR, x.author);
  }

  lemma {:induction false} GreedyInvariant(items: seq<Candidate>, limit: nat, caps: Caps, picked: seq<Candidate>)
    requires WithinCaps(Elements(picked), caps) && DistinctIds(picked) && |picked| <= limit
    ensures var r := Greedy(items, limit, caps, picked);
            && picked <= r && |r| <= limit
            && WithinCaps(Elements(r), caps) && DistinctIds(r)
            && (forall x :: x in r ==> x in picked || x in items)
  {
    if items == [] || |picked| >= limit {
    } else {
      var x := items[0];
      if Admissible(picked, caps, x) {
        assert Elements(picked + [x]) == Elements(picked) + {x};
        AddKeepsGroups(Elements(picked), x, CATEGORY, caps.category);
        AddKeepsGroups(Elements(picked), x, AUTHOR, caps.author);
        IdsMember(picked, x.id);
      }
      GreedyInvariant(items[1..], limit, caps, TryPick(picked, caps, x));
    }
  }

  /** If the capped phases stop short of the limit, every offered candidate is refused by the result. */
  lemma {:induction false} GreedyMaximal(items: seq<Candidate>, limit: nat, caps: Caps, picked: seq<Candidate>)
    requires WithinCaps(Elements(picked), caps) && DistinctIds(picked) && |picked| <= limit
    ensures var r := Greedy(items, limit, caps, picked);
            |r| < limit ==> forall x :: x in items ==> !Admissible(r, caps, x)
  {
    if items == [] || |picked| >= limit {
    } else {
      var x := items[0];
      var next := TryPick(picked, caps, x);
      GreedyInvariant([x], limit, caps, picked);
      assert Greedy([x], limit, caps, picked) == next;
      GreedyInvariant(items[1..], limit, caps, next);
      GreedyMaximal(items[1..], limit, caps, next);
      assert !Admissible(next, caps, x) by {
        if Admissible(picked, caps, x) {
          IdsMember(next, x.id);
          assert next[|picked|] == x;
        }
      }
      RefusedStaysRefused(next, Greedy(items, limit, caps, picked), caps, x);
      assert items == [x] + items[1..];
    }
  }

  // ---- one maximal set is at least half of any other feasible set ----

  /** If every group of s is matched in size by the same group of m, s is no larger than m. */
  lemma {:induction false} DominatedGroups(s: set<Candidate>, m: set<Candidate>, of: Candidate -> Option<int>)
    requires forall x :: x in s ==> |Group(s, of, of(x))| <= |Group(m, of, of(x))|
    ensures |s| <= |m|
    decreases |s|
  {
    if s != {} {
      var x :| x in s;
      var g := of(x);
      var s', m' := s - Group(s, of, g), m - Group(m, of, g);
      assert x in Group(s, of, g);
      forall y | y in s' ensures |Group(s', of, of(y))| <= |Group(m', of, of(y))| {
        assert Group(s', of, of(y)) == Group(s, of, of(y));
        assert Group(m', of, of(y)) == Group(m, of, of(y));
      }
      assert s == s' + Group(s, of, g);
      assert m == m' + Group(m, of, g);
      DominatedGroups(s', m', of);
    }
  }

  /** In a full group, s has no more members outside m than m has outside s. */
  lemma BlockedInOneGroup(s: set<Candidate>, m: set<Candidate>, of: Candidate -> Option<int>, g: Option<int>, cap: nat)
    requires |Group(s, of, g)| <= cap <= |Group(m, of, g)|
    ensures |Group(s - m, of, g)| <= |Group(m - s, of, g)|
  {
    SplitSize(Group(s, of, g), m);
    SplitSize(Group(m, of, g), s);
    assert Group(s, of, g) - m == Group(s - m, of, g) && Group(m, of, g) - s == Group(m - s, of, g);
    assert Group(s, of, g) * m == Group(m, of, g) * s;
  }

  /** Members of s that full groups of m keep out are no more than what m has beyond s. */
  lemma BlockedByOneKey(s: set<Candidate>, m: set<Candidate>, of: Candidate -> Option<int>, cap: nat)
    requires GroupsWithin(s, of, cap)
    ensures |set x | x in s - m && GroupFull(m, of, cap, x)| <= |m - s|
  {
    var blocked := set x | x in s - m && GroupFull(m, of, cap, x);
    forall x | x in blocked ensures |Group(blocked, of, of(x))| <= |Group(m - s, of, of(x))| {
      BlockedInOneGroup(s, m, of, of(x), cap);
      GroupMonotone(blocked, s - m, of, of(x));
    }
    DominatedGroups(blocked, m - s, of);
  }

  lemma SplitSize(a: set<Candidate>, b: set<Candidate>)
    ensures |a| == |a * b| + |a - b|
  {
    assert a == (a * b) + (a - b);
  }

  lemma UnionSize(a: set<Candidate>, b: set<Candidate>)
    ensures |a + b| <= |a| + |b|
  {
    assert a + b == a + (b - a);
    SubsetSize(b - a, b);
  }

  /** A feasible selection is at most twice a set that blocks every one of its members. */
  lemma MaximalIsHalf(s: set<Candidate>, m: set<Candidate>, caps: Caps)
    requires WithinCaps(s, caps)
    requires forall x :: x in s - m ==>
               GroupFull(m, CATEGORY, caps.category, x) || GroupFull(m, AUTHOR, caps.author, x)
    ensures |s| <= 2 * |m|
  {
    var byCategory := set x | x in s - m && GroupFull(m, CATEGORY, caps.category, x);
    var byAuthor := set x | x in s - m && GroupFull(m, AUTHOR, caps.author, x);
    BlockedByOneKey(s, m, CATEGORY, caps.category);
    BlockedByOneKey(s, m, AUTHOR, caps.author);
    assert s - m == byCategory + byAuthor;
    SplitSize(s, m);
    SplitSize(m, s);
    assert s * m == m * s;
    UnionSize(byCategory, byAuthor);
  }

  // ---- the whole pick ----

  lemma {:induction false} FillInvariant(items: seq<Candidate>, limit: nat, picked: seq<Candidate>)
    requires DistinctIds(picked) && DistinctIds(items) && |picked| <= limit
    ensures var r := Fill(items, limit, picked);
            && picked <= r && DistinctIds(r) && |r| <= limit
            && (forall x :: x in r ==> x in picked || x in items)
            && (|r| < limit ==> forall x :: x in items ==> x.id in Ids(r))
  {
    if items == [] || |picked| >= limit {
    } else {
      var x := items[0];
      var next := if x.id in Ids(picked) then picked else picked + [x];
      IdsMember(picked, x.id);
      FillInvariant(items[1..], limit, next);
      var r := Fill(items, limit, picked);
      assert items == [x] + items[1..];
      assert x.id in Ids(next) by {
        IdsMember(next, x.id);
        if x.id !in Ids(picked) {
          assert next[|picked|] == x;
        }
      }
      forall i | 0 <= i < |next| ensures Ids(next)[i] == Ids(r)[i] {
      }
    }
  }

  lemma PhasesInvariant(sampled: seq<Candidate>, pool: seq<Candidate>, limit: nat, caps: Caps)
    requires DistinctIds(pool) && forall x :: x in sampled ==> x in pool
    ensures var g := Greedy(sampled + pool, limit, caps, []);
            && WithinCaps(Elements(g), caps) && DistinctIds(g) && |g| <= limit
            && (forall x :: x in g ==> x in pool)
            && (|g| < limit ==> forall x :: x in pool ==> !Admissible(g, caps, x))
  {
    GreedyInvariant(sampled + pool, limit, caps, []);
    GreedyMaximal(sampled + pool, limit, caps, []);
    forall x | x in pool ensures x in sampled + pool {
      var i :| 0 <= i < |pool| && pool[i] == x;
      assert (sampled + pool)[|sampled| + i] == x;
    }
  }

  lemma DistinctIdsCount(a: seq<Candidate>, b: seq<Candidate>)
    requires DistinctIds(a) && DistinctIds(b) && forall x :: x in a ==> x in b
    ensures Distinct(a) && Distinct(b) && Elements(a) <= Elements(b) && |a| <= |b|
  {
    DistinctCount(a);
    DistinctCount(b);
    SubsetSize(Elements(a), Elements(b));
  }

  lemma SameId(pool: seq<Candidate>, x: Candidate, y: Candidate)
    requires DistinctIds(pool) && x in pool && y in pool && x.id == y.id
    ensures x == y
  {
    var i :| 0 <= i < |pool| && pool[i] == x;
    var j :| 0 <= j < |pool| && pool[j] == y;
    assert i == j;
  }

  /** Exactly min(limit, pool size) picks, distinct, all from the pool. */
  lemma PickIsFull(sampled: seq<Candidate>, pool: seq<Candidate>, limit: nat, caps: Caps)
    requires DistinctIds(pool) && forall x :: x in sampled ==> x in pool
    ensures var r := Pick(sampled, pool, limit, caps);
            && |r| == Min(limit, |pool|)
            && DistinctIds(r) && Distinct(Ids(r))
            && (forall x :: x in r ==> x in pool)
  {
    var g := Greedy(sampled + pool, limit, caps, []);
    var r := Pick(sampled, pool, limit, caps);
    PhasesInvariant(sampled, pool, limit, caps);
    FillInvariant(pool, limit, g);
    DistinctIdsCount(r, pool);
    if |r| < limit {
      forall x | x in pool ensures x in r {
        IdsMember(r, x.id);
        var y :| y in r && y.id == x.id;
        SameId(pool, x, y);
      }
      DistinctIdsCount(pool, r);
    }
  }

  /** If some selection of 2 * limit - 1 pool books obeys both caps, so does the result. */
  lemma PickNearOptimal(sampled: seq<Candidate>, pool: seq<Candidate>, limit: nat, caps: Caps, other: set<Candidate>)
    requires DistinctIds(pool) && forall x :: x in sampled ==> x in pool
    requires limit >= 1 && WithinCaps(other, caps) && |other| >= 2 * limit - 1
    requires forall x :: x in other ==> x in pool
    ensures |Pick(sampled, pool, limit, caps)| == limit
    ensures WithinCaps(Elements(Pick(sampled, pool, limit, caps)), caps)
  {
    var g := Greedy(sampled + pool, limit, caps, []);
    PhasesInvariant(sampled, pool, limit, caps);
    if |g| < limit {
      forall x | x in other - Elements(g)
        ensures GroupFull(Elements(g), CATEGORY, caps.category, x) || GroupFull(Elements(g), AUTHOR, caps.author, x)
      {
        assert !Admissible(g, caps, x);
        if x.id in Ids(g) {
          IdsMember(g, x.id);
          var y :| y in g && y.id == x.id;
          SameId(pool, x, y);
        }
      }
      MaximalIsHalf(other, Elements(g), caps);
      DistinctIdsCount(g, pool);
      DistinctCount(g);
      assert false;
    }
    assert Pick(sampled, pool, limit, caps) == g;
  }

  // ---- the code: a closure over mutable counters, called in two loops, then a third loop ----

  class Picker {
    const caps: Caps
    var result: seq<int>
    var seen: set<int>
    var categoryCounts: map<int, nat>
    var authorCounts: map<int, nat>
    ghost var picked: seq<Candidate>

    ghost predicate Recorded()
      reads this
    {
      && result == Ids(picked)
      && DistinctIds(picked)
      && (forall id :: id in seen <==> id in Ids(picked))
    }

    ghost predicate Valid()
      reads this
    {
      && Recorded()
      && CountsMatch(categoryCounts, picked, CATEGORY)
      && CountsMatch(authorCounts, picked, AUTHOR)
    }

    constructor (caps: Caps)
      ensures Valid() && picked == [] && this.caps == caps
    {
      this.caps := caps;
      result, seen, categoryCounts, authorCounts, picked := [], {}, map[], map[], [];
    }

    method Offer(x: Candidate)
      requires Valid()
      modifies this
      ensures Valid() && picked == TryPick(old(picked), caps, x)
    {
      if x.id in seen {
        return;
      }
      if Counted(x.category) && Count(categoryCounts, x.category.value) >= caps.category {
        return;
      }
      if Counted(x.author) && Count(authorCounts, x.author.value) >= caps.author {
        return;
      }
      IdsMember(picked, x.id);
      BumpKeepsMatch(categoryCounts, picked, x, CATEGORY);
      BumpKeepsMatch(authorCounts, picked, x, AUTHOR);
      Append(x);
      if Counted(x.category) {
        categoryCounts := Bump(categoryCounts, x.category.value);
      }
      if Counted(x.author) {
        authorCounts := Bump(authorCounts, x.author.value);
      }
    }

    /** One loop of the pick: offer the items until limit picks are made. */
    method OfferAll(items: seq<Candidate>, limit: nat) returns (full: bool)
      requires Valid() && |picked| < limit
      modifies this
      ensures Valid() && picked == Greedy(items, limit, caps, old(picked))
      ensures full == (|picked| >= limit)
    {
      var i := 0;
      while i < |items|
        invariant 0 <= i <= |items| && Valid() && |picked| < limit
        invariant Greedy(items, limit, caps, old(picked)) == Greedy(items[i..], limit, caps, picked)
      {
        assert items[i..][0] == items[i] && items[i..][1..] == items[i + 1..];
        Offer(items[i]);
        i := i + 1;
        if |result| >= limit {
          return true;
        }
      }
      return false;
    }

    /** The last loop: take unseen items, caps or not. */
    method FillFrom(items: seq<Candidate>, limit: nat)
      requires Recorded() && |picked| < limit
      modifies this`result, this`seen, this`picked
      ensures Recorded() && picked == Fill(items, limit, old(picked))
    {
      var i := 0;
      while i < |items|
        invariant 0 <= i <= |items| && Recorded() && |picked| < limit
        invariant Fill(items, limit, old(picked)) == Fill(items[i..], limit, picked)
      {
        if items[i].id !in seen {
          Append(items[i]);
        }
        i := i + 1;
        if |result| >= limit {
          break;
        }
      }
    }

    method Append(x: Candidate)
      requires Recorded() && x.id !in seen
      modifies this`result, this`seen, this`picked
      ensures Recorded() && picked == old(picked) + [x]
    {
      IdsMember(picked, x.id);
      assert Ids(picked + [x]) == Ids(picked) + [x.id];
      result := result + [x.id];
      seen := seen + {x.id};
      picked := picked + [x];
    }
  }

  function Count(counts: map<int, nat>, g: int): nat {
    if g in counts then counts[g] else 0
  }

  function Bump(counts: map<int, nat>, g: int): map<int, nat> {
    counts[g := Count(counts, g) + 1]
  }

  /** A dict of counters says how many picks each counted group has. */
  ghost predicate CountsMatch(counts: map<int, nat>, picked: seq<Candidate>, of: Candidate -> Option<int>) {
    forall g :: g != 0 ==> Count(counts, g) == |Group(Elements(picked), of, Some(g))|
  }

  lemma BumpKeepsMatch(counts: map<int, nat>, picked: seq<Candidate>, x: Candidate, of: Candidate -> Option<int>)
    requires CountsMatch(counts, picked, of) && x !in picked
    ensures CountsMatch(if Counted(of(x)) then Bump(counts, of(x).value) else counts, picked + [x], of)
  {
    var counts' := if Counted(of(x)) then Bump(counts, of(x).value) else counts;
    forall g | g != 0 ensures Count(counts', g) == |Group(Elements(picked + [x]), of, Some(g))| {
      if of(x) == Some(g) {
        assert Group(Elements(picked + [x]), of, Some(g)) == Group(Elements(picked), of, Some(g)) + {x};
      } else {
        assert Group(Elements(picked + [x]), of, Some(g)) == Group(Elements(picked), of, Some(g));
      }
    }
  }

  const ID: Candidate -> int := (x: Candidate) => x.id

  method DiversifiedPick(candidates: seq<Candidate>, limit: nat, caps: Caps, draws: seq<Candidate>)
      returns (result: seq<int>)
    requires limit >= 1 && IsDraw(draws, candidates, limit * CANDIDATE_MULTIPLIER)
    ensures var sampled := Sample(candidates, limit * CANDIDATE_MULTIPLIER, draws, ID);
            result == Ids(Pick(sampled, candidates, limit, caps))
    ensures DistinctIds(candidates) ==> |result| == Min(limit, |candidates|) && Distinct(result)
    ensures |result| <= limit && forall id :: id in result ==> id in Ids(candidates)
  {
    var sampled := WeightedSample.Run(candidates, limit * CANDIDATE_MULTIPLIER, draws, ID);
    GreedyInPhases(sampled, candidates, limit, caps, []);
    SampleIsFull(candidates, limit * CANDIDATE_MULTIPLIER, draws, ID);
    PickFromPool(sampled, candidates, limit, caps);
    var picker := new Picker(caps);
    var full := picker.OfferAll(sampled, limit);
    if full {
      return picker.result;
    }
    full := picker.OfferAll(candidates, limit);
    if full {
      return picker.result;
    }
    picker.FillFrom(candidates, limit);
    return picker.result;
  }

  lemma PickFromPool(sampled: seq<Candidate>, pool: seq<Candidate>, limit: nat, caps: Caps)
    requires forall x :: x in sampled ==> x in pool
    ensures var r := Pick(sampled, pool, limit, caps);
            && (DistinctIds(pool) ==> |r| == Min(limit, |pool|) && Distinct(Ids(r)))
            && |r| <= limit && (forall id :: id in Ids(r) ==> id in Ids(pool))
  {
    var r := Pick(sampled, pool, limit, caps);
    if DistinctIds(pool) {
      PickIsFull(sampled, pool, limit, caps);
    }
    GreedySubset(sampled + pool, limit, caps, []);
    FillSubset(pool, limit, Greedy(sampled + pool, limit, caps, []));
    forall id | id in Ids(r) ensures id in Ids(pool) {
      IdsMember(r, id);
      IdsMember(pool, id);
    }
  }

  lemma {:induction false} GreedySubset(items: seq<Candidate>, limit: nat, caps: Caps, picked: seq<Candidate>)
    ensures forall x :: x in Greedy(items, limit, caps, picked) ==> x in picked || x in items
    ensures |picked| <= limit ==> |Greedy(items, limit, caps, picked)| <= limit
  {
    if items != [] && |picked| < limit {
      GreedySubset(items[1..], limit, caps, TryPick(picked, caps, items[0]));
    }
  }

  lemma {:induction false} FillSubset(items: seq<Candidate>, limit: nat, picked: seq<Candidate>)
    ensures forall x :: x in Fill(items, limit, picked) ==> x in picked || x in items
    ensures |picked| <= limit ==> |Fill(items, limit, picked)| <= limit
  {
    if items != [] && |picked| < limit {
      FillSubset(items[1..], limit, if items[0].id in Ids(picked) then picked else picked + [items[0]]);
    }
  }

  lemma {:induction false} GreedyInPhases(a: seq<Candidate>, b: seq<Candidate>, limit: nat, caps: Caps,
          picked: seq<Candidate>)
    ensures Greedy(a + b, limit, caps, picked) == Greedy(b, limit, caps, Greedy(a, limit, caps, picked))
  {
    if a == [] {
      assert a + b == b;
    } else if |picked| < limit {
      assert (a + b)[1..] == a[1..] + b;
      GreedyInPhases(a[1..], b, limit, caps, TryPick(picked, caps, a[0]));
    }
  }
}
