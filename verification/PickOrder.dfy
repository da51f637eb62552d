/**
 * Which books the capped pick takes: the drawn ones first, in the order they were drawn, and books
 * outside the draw only where the caps leave no choice.
 */
module PickOrder {
  import opened Sequences
  import opened CappedPick
  import opened CapThreshold

  /** With a drawn selection within the caps that is large enough, the whole page is drawn. */
  lemma DrawnComeFirst(sampled: seq<Candidate>, pool: seq<Candidate>, limit: nat, caps: Caps, other: set<Candidate>)
    requires DistinctIds(sampled) && limit >= 1 && caps.category >= 1 && caps.author >= 1
    requires WithinCaps(other, caps) && |other| > Blocked(limit, caps) && forall x :: x in other ==> x in sampled
    ensures forall x :: x in Pick(sampled, pool, limit, caps) ==> x in sampled
    ensures |Pick(sampled, pool, limit, caps)| == limit
    ensures WithinCaps(Elements(Pick(sampled, pool, limit, caps)), caps)
  {
    assert [] + sampled == sampled;
    EnoughKeepsCaps([], sampled, limit, caps, other);
    GreedyInPhases(sampled, pool, limit, caps, []);
    GreedySubset(sampled, limit, caps, []);
    GreedyInvariant(sampled, limit, caps, []);
  }

  lemma {:induction false} GreedyGrows(items: seq<Candidate>, limit: nat, caps: Caps, picked: seq<Candidate>)
    ensures picked <= Greedy(items, limit, caps, picked)
  {
    if items != [] && |picked| < limit {
      GreedyGrows(items[1..], limit, caps, TryPick(picked, caps, items[0]));
    }
  }

  lemma {:induction false} FillGrows(items: seq<Candidate>, limit: nat, picked: seq<Candidate>)
    ensures picked <= Fill(items, limit, picked)
  {
    if items != [] && |picked| < limit {
      FillGrows(items[1..], limit, if items[0].id in Ids(picked) then picked else picked + [items[0]]);
    }
  }

  lemma {:induction false} GreedyThrough(first: seq<Candidate>, items: seq<Candidate>, limit: nat, caps: Caps,
          picked: seq<Candidate>)
    requires |picked + first| <= limit && DistinctIds(picked + first) && WithinCaps(Elements(picked + first), caps)
    ensures Greedy(first + items, limit, caps, picked) == Greedy(items, limit, caps, picked + first)
    decreases |first|
  {
    if first == [] {
      assert first + items == items && picked + first == picked;
    } else {
      var x := first[0];
      assert picked + first == (picked + [x]) + first[1..];
      assert (first + items)[1..] == first[1..] + items && (first + items)[0] == x;
      NextIsAdmissible(picked, x, picked + first, caps);
      GreedyThrough(first[1..], items, limit, caps, picked + [x]);
    }
  }

  /** As many drawn books as the page holds, if together they obey the caps, begin the page in the order drawn. */
  lemma DrawnInOrder(sampled: seq<Candidate>, pool: seq<Candidate>, limit: nat, caps: Caps)
    requires DistinctIds(sampled)
    requires var n := Min(limit, |sampled|); WithinCaps(Elements(sampled[..n]), caps)
    ensures sampled[..Min(limit, |sampled|)] <= Pick(sampled, pool, limit, caps)
  {
    var n := Min(limit, |sampled|);
    assert sampled + pool == sampled[..n] + (sampled[n..] + pool);
    assert [] + sampled[..n] == sampled[..n];
    GreedyThrough(sampled[..n], sampled[n..] + pool, limit, caps, []);
    GreedyGrows(sampled[n..] + pool, limit, caps, sampled[..n]);
    FillGrows(pool, limit, Greedy(sampled + pool, limit, caps, []));
  }

  /** Neither without a category or author nor with the id 0 is a book ever held back. */
  lemma NoGroupNoCap(sampled: seq<Candidate>, pool: seq<Candidate>, limit: nat, caps: Caps)
    requires DistinctIds(sampled)
    requires forall x :: x in sampled ==> x.category in {None, Some(0)} && x.author in {None, Some(0)}
    ensures sampled[..Min(limit, |sampled|)] <= Pick(sampled, pool, limit, caps)
  {
    var first := sampled[..Min(limit, |sampled|)];
    forall x | x in first ensures !Counted(x.category) && !Counted(x.author) {
      assert x in sampled;
    }
    DrawnInOrder(sampled, pool, limit, caps);
  }
}
