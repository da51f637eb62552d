/**
 * `BookMainNewReco`: a sample of the newest books below the id cursor, at most two per category
 * while that fills the page, shuffled. The cursor moves to the smallest id shown.
 */
module NewBooks {
  import opened Sequences
  import opened Catalog
  import WeightedSample

  const CANDIDATE_MULTIPLIER: nat := 3
  const CATEGORY_CAP: nat := 2

  const NEWEST_FIRST: (Book, Book) -> bool := (a: Book, b: Book) => a.id > b.id

  /** The rows the query may return: available, in the top categories if there are any, below the cursor. */
  ghost function Eligible(catalog: set<Book>, topCategories: seq<int>, lastId: Option<int>): set<Book> {
    set b | b in catalog && b.available
            && (topCategories != [] ==> b.category.Some? && b.category.value in topCategories)
            && (lastId.Some? ==> b.id < lastId.value)
  }

  function InCategory(picked: seq<Book>, category: Option<int>): nat {
    if picked == [] then 0
    else InCategory(picked[..|picked| - 1], category) + (if picked[|picked| - 1].category == category then 1 else 0)
  }

  /** Take sampled books while their category (no category is one, too) has fewer than two picks. */
  ghost function TakeCapped(sampled: seq<Book>, limit: nat, picked: seq<Book>): seq<Book> {
    if sampled == [] || |picked| >= limit then picked
    else TakeCapped(sampled[1..], limit,
                    if InCategory(picked, sampled[0].category) >= CATEGORY_CAP then picked else picked + [sampled[0]])
  }

  ghost function TakeRest(sampled: seq<Book>, limit: nat, picked: seq<Book>): seq<Book> {
    if sampled == [] || |picked| >= limit then picked
    else TakeRest(sampled[1..], limit, if sampled[0].id in Ids(picked) then picked else picked + [sampled[0]])
  }

  ghost function Picked(sampled: seq<Book>, limit: nat): seq<Book> {
    TakeRest(sampled, limit, TakeCapped(sampled, limit, []))
  }

  ghost predicate DistinctIds(s: seq<Book>) {
    forall i, j :: 0 <= i < j < |s| ==> s[i].id != s[j].id
  }

  /** The capped loop keeps to the cap and only takes new ids. */
  lemma {:induction false} TakeCappedInvariant(sampled: seq<Book>, limit: nat, picked: seq<Book>)
    requires DistinctIds(picked + sampled) && |picked| <= limit
    requires forall c :: InCategory(picked, c) <= CATEGORY_CAP
    ensures var r := TakeCapped(sampled, limit, picked);
            && DistinctIds(r) && |r| <= limit && (forall b :: b in r ==> b in picked || b in sampled)
            && (forall c :: InCategory(r, c) <= CATEGORY_CAP)
  {
    if sampled == [] || |picked| >= limit {
      assert picked == (picked + sampled)[..|picked|];
      forall i, j | 0 <= i < j < |picked| ensures picked[i].id != picked[j].id {
        assert (picked + sampled)[i] == picked[i] && (picked + sampled)[j] == picked[j];
      }
    } else {
      var b := sampled[0];
      if InCategory(picked, b.category) >= CATEGORY_CAP {
        forall i, j | 0 <= i < j < |picked + sampled[1..]|
          ensures (picked + sampled[1..])[i].id != (picked + sampled[1..])[j].id
        {
          var all := picked + sampled;
          var i', j' := if i < |picked| then i else i + 1, if j < |picked| then j else j + 1;
          assert all[i'] == (picked + sampled[1..])[i] && all[j'] == (picked + sampled[1..])[j];
        }
        TakeCappedInvariant(sampled[1..], limit, picked);
      } else {
        assert picked + sampled == picked + [b] + sampled[1..];
        assert (picked + [b])[..|picked|] == picked;
        TakeCappedInvariant(sampled[1..], limit, picked + [b]);
      }
    }
  }

  lemma {:induction false} TakeRestInvariant(sampled: seq<Book>, limit: nat, picked: seq<Book>)
    requires DistinctIds(picked) && |picked| <= limit
    ensures var r := TakeRest(sampled, limit, picked);
            && DistinctIds(r) && picked <= r && |r| <= limit
            && (forall b :: b in r ==> b in picked || b in sampled)
            && (|r| < limit ==> forall b :: b in sampled ==> b.id in Ids(r))
  {
    if sampled == [] || |picked| >= limit {
    } else {
      var b := sampled[0];
      var next := if b.id in Ids(picked) then picked else picked + [b];
      IdOf(picked, b.id);
      IdOf(next, b.id);
      assert b.id in Ids(next) by {
        if b.id !in Ids(picked) {
          assert next[|picked|] == b;
        }
      }
      TakeRestInvariant(sampled[1..], limit, next);
      var r := TakeRest(sampled, limit, picked);
      IdOf(r, b.id);
      assert forall x :: x in next ==> x in r;
    }
  }

  /** As many picks as the page wants or the sample has, distinct, all of them sampled. */
  lemma PickedIsFull(sampled: seq<Book>, limit: nat)
    requires DistinctIds(sampled)
    ensures var r := Picked(sampled, limit);
            && DistinctIds(r) && Distinct(Ids(r)) && (forall b :: b in r ==> b in sampled)
            && |r| == Min(limit, |sampled|)
  {
    assert [] + sampled == sampled;
    TakeCappedInvariant(sampled, limit, []);
    TakeRestInvariant(sampled, limit, TakeCapped(sampled, limit, []));
    var r := Picked(sampled, limit);
    IdsSubset(r, sampled);
    if |r| < limit {
      forall id | id in Ids(sampled) ensures id in Ids(r) {
        IdOf(sampled, id);
      }
      CountByIds(sampled, r);
    }
    CountByIds(r, sampled);
  }

  lemma IdsSubset(a: seq<Book>, b: seq<Book>)
    requires forall x :: x in a ==> x in b
    ensures forall id :: id in Ids(a) ==> id in Ids(b)
  {
    forall id | id in Ids(a) ensures id in Ids(b) {
      IdOf(a, id);
      IdOf(b, id);
    }
  }

  lemma CountByIds(a: seq<Book>, b: seq<Book>)
    requires DistinctIds(a) && DistinctIds(b) && forall id :: id in Ids(a) ==> id in Ids(b)
    ensures |a| <= |b| && Distinct(Ids(a))
  {
    DistinctCount(Ids(a));
    DistinctCount(Ids(b));
    SubsetSize(Elements(Ids(a)), Elements(Ids(b)));
  }

  // ---- the category cap, said of the page ----

  ghost function InGroup(books: set<Book>, c: Option<int>): set<Book> {
    set b | b in books && b.category == c
  }

  /** At most two books of each category; no category is one, too. */
  ghost predicate WithinCap(books: set<Book>) {
    forall c :: |InGroup(books, c)| <= 2
  }

  /** The first two books of every category, in order. */
  ghost function FirstTwo(s: seq<Book>): seq<Book> {
    if s == [] then []
    else
      var front, last := s[..|s| - 1], s[|s| - 1];
      FirstTwo(front) + if InCategory(front, last.category) < 2 then [last] else []
  }

  lemma CountAppend(s: seq<Book>, b: Book, c: Option<int>)
    ensures InCategory(s + [b], c) == InCategory(s, c) + if b.category == c then 1 else 0
  {
    assert (s + [b])[..|s|] == s;
  }

  lemma {:induction false} FirstTwoCounts(s: seq<Book>, c: Option<int>)
    ensures InCategory(FirstTwo(s), c) == Min(2, InCategory(s, c))
  {
    if s != [] {
      var front, last := s[..|s| - 1], s[|s| - 1];
      FirstTwoCounts(front, c);
      FirstTwoCounts(front, last.category);
      CountAppend(FirstTwo(front), last, c);
      if InCategory(front, last.category) >= 2 {
        assert FirstTwo(s) == FirstTwo(front);
      }
    }
  }

  lemma {:induction false} FirstTwoExtends(s: seq<Book>, t: seq<Book>)
    ensures FirstTwo(s) <= FirstTwo(s + t)
  {
    if t == [] {
      assert s + t == s;
    } else {
      FirstTwoExtends(s, t[..|t| - 1]);
      assert (s + t)[..|s + t| - 1] == s + t[..|t| - 1];
    }
  }

  lemma FirstTwoNext(s: seq<Book>, b: Book)
    ensures FirstTwo(s + [b]) == if InCategory(FirstTwo(s), b.category) >= CATEGORY_CAP then FirstTwo(s) else FirstTwo(s) + [b]
  {
    assert (s + [b])[..|s|] == s;
    FirstTwoCounts(s, b.category);
  }

  lemma {:induction false} TakesFirstTwo(before: seq<Book>, rest: seq<Book>, limit: nat)
    requires |FirstTwo(before)| <= limit
    ensures var all := FirstTwo(before + rest);
            TakeCapped(rest, limit, FirstTwo(before)) == all[..Min(limit, |all|)]
    decreases |rest|
  {
    if rest == [] {
      assert before + rest == before;
    } else if |FirstTwo(before)| == limit {
      FirstTwoExtends(before, rest);
    } else {
      FirstTwoNext(before, rest[0]);
      assert before + [rest[0]] + rest[1..] == before + rest;
      TakesFirstTwo(before + [rest[0]], rest[1..], limit);
    }
  }

  lemma GroupAppend(front: set<Book>, x: Book, c: Option<int>)
    requires x !in front
    ensures |InGroup(front + {x}, c)| == |InGroup(front, c)| + if x.category == c then 1 else 0
  {
    assert InGroup(front + {x}, c) == InGroup(front, c) + if x.category == c then {x} else {};
  }

  lemma LastIsNew(s: seq<Book>)
    requires Distinct(s) && s != []
    ensures var front, last := s[..|s| - 1], s[|s| - 1];
            Distinct(front) && last !in Elements(front) && Elements(s) == Elements(front) + {last}
  {
    assert s == s[..|s| - 1] + [s[|s| - 1]];
  }

  lemma {:induction false} CategoryCount(s: seq<Book>, c: Option<int>)
    requires Distinct(s)
    ensures InCategory(s, c) == |InGroup(Elements(s), c)|
  {
    if s != [] {
      LastIsNew(s);
      CategoryCount(s[..|s| - 1], c);
      GroupAppend(Elements(s[..|s| - 1]), s[|s| - 1], c);
    }
  }

  /** Of two or more books of a category, a selection within the cap that holds another one leaves one out. */
  lemma OneLeftOut(s: set<Book>, x: Book, others: set<Book>) returns (y: Book)
    requires WithinCap(s) && x in s && x !in others && |InGroup(others, x.category)| >= 2
    ensures y in others && y !in s && y.category == x.category
  {
    var g, t := InGroup(others, x.category), InGroup(s, x.category);
    assert |t| <= 2 && x !in g;
    if g <= s {
      SubsetSize(g + {x}, t);
    }
    y :| y in g && y !in s;
  }

  lemma SwapKeepsCap(s: set<Book>, x: Book, y: Book)
    requires WithinCap(s) && x in s && y !in s && y.category == x.category
    ensures WithinCap(s - {x} + {y}) && |s - {x} + {y}| == |s|
  {
    forall c ensures |InGroup(s - {x} + {y}, c)| <= 2 {
      if c == x.category {
        assert InGroup(s - {x} + {y}, c) == InGroup(s, c) - {x} + {y};
      } else {
        assert InGroup(s - {x} + {y}, c) == InGroup(s, c);
      }
      assert |InGroup(s, c)| <= 2;
    }
  }

  lemma FewerWithinCap(s: set<Book>, t: set<Book>)
    requires WithinCap(s) && t <= s
    ensures WithinCap(t)
  {
    forall c ensures |InGroup(t, c)| <= 2 {
      SubsetSize(InGroup(t, c), InGroup(s, c));
      assert |InGroup(s, c)| <= 2;
    }
  }

  /** A selection with the last book as one without it, of the same size or one smaller. */
  lemma WithoutLast(front: set<Book>, x: Book, s: set<Book>) returns (s': set<Book>)
    requires x !in front && x in s && s <= front + {x} && WithinCap(s)
    ensures s' <= front && WithinCap(s')
    ensures |s'| == if |InGroup(front, x.category)| >= 2 then |s| else |s| - 1
  {
    if |InGroup(front, x.category)| >= 2 {
      var y := OneLeftOut(s, x, front);
      SwapKeepsCap(s, x, y);
      s' := s - {x} + {y};
    } else {
      s' := s - {x};
      FewerWithinCap(s, s');
    }
  }

  /** No selection within the cap is larger than the first two of every category. */
  lemma {:induction false} NoneIsLarger(sampled: seq<Book>, s: set<Book>)
    requires Distinct(sampled) && s <= Elements(sampled) && WithinCap(s)
    ensures |s| <= |FirstTwo(sampled)|
  {
    if sampled != [] {
      var front, x := sampled[..|sampled| - 1], sampled[|sampled| - 1];
      LastIsNew(sampled);
      if x in s {
        CategoryCount(front, x.category);
        var s' := WithoutLast(Elements(front), x, s);
        NoneIsLarger(front, s');
      } else {
        NoneIsLarger(front, s);
      }
    }
  }

  lemma DistinctBooks(s: seq<Book>)
    requires DistinctIds(s)
    ensures Distinct(s) && |Elements(s)| == |s|
  {
    DistinctCount(s);
  }

  lemma CappedWithinCap(sampled: seq<Book>, limit: nat)
    requires DistinctIds(sampled)
    ensures WithinCap(Elements(TakeCapped(sampled, limit, [])))
    ensures var all := FirstTwo(sampled); TakeCapped(sampled, limit, []) == all[..Min(limit, |all|)]
  {
    var r := TakeCapped(sampled, limit, []);
    assert [] + sampled == sampled;
    TakeCappedInvariant(sampled, limit, []);
    TakesFirstTwo([], sampled, limit);
    DistinctBooks(r);
    forall c ensures |InGroup(Elements(r), c)| <= 2 {
      CategoryCount(r, c);
    }
  }

  lemma PickedBegins(sampled: seq<Book>, limit: nat)
    requires DistinctIds(sampled)
    ensures TakeCapped(sampled, limit, []) <= Picked(sampled, limit)
  {
    assert [] + sampled == sampled;
    TakeCappedInvariant(sampled, limit, []);
    TakeRestInvariant(sampled, limit, TakeCapped(sampled, limit, []));
  }

  /**
   * The page keeps the cap if and only if some selection of its size does. If none does, no category
   * is cut short for it: each still has two books on the page, or all it has.
   */
  lemma CapExactly(candidates: set<Book>, sampled: seq<Book>, limit: nat)
    requires DistinctIds(sampled) && Elements(sampled) == candidates
    ensures var page := Elements(Picked(sampled, limit));
            && (WithinCap(page) <==>
                exists chosen :: chosen <= candidates && |chosen| == Min(limit, |candidates|) && WithinCap(chosen))
            && (!WithinCap(page) ==> forall c :: |InGroup(page, c)| >= Min(2, |InGroup(candidates, c)|))
  {
    var r := Picked(sampled, limit);
    PickedIsFull(sampled, limit);
    DistinctBooks(sampled);
    DistinctBooks(r);
    assert Elements(r) <= candidates;
    CappedWithinCap(sampled, limit);
    PickedBegins(sampled, limit);
    if chosen :| chosen <= candidates && |chosen| == Min(limit, |candidates|) && WithinCap(chosen) {
      NoneIsLarger(sampled, chosen);
      assert r == TakeCapped(sampled, limit, []);
    }
    if !WithinCap(Elements(r)) {
      ShortIsFair(sampled, limit, r);
    }
  }

  lemma ShortIsFair(sampled: seq<Book>, limit: nat, r: seq<Book>)
    requires DistinctIds(sampled) && r == Picked(sampled, limit) && !WithinCap(Elements(r))
    ensures forall c :: |InGroup(Elements(r), c)| >= Min(2, |InGroup(Elements(sampled), c)|)
  {
    PickedIsFull(sampled, limit);
    CappedWithinCap(sampled, limit);
    PickedBegins(sampled, limit);
    DistinctBooks(sampled);
    var first := FirstTwo(sampled);
    assert first <= r;
    forall c ensures |InGroup(Elements(r), c)| >= Min(2, |InGroup(Elements(sampled), c)|) {
      FirstTwoCounts(sampled, c);
      CategoryCount(sampled, c);
      PrefixDistinct(first, r);
      CategoryCount(first, c);
      SubsetSize(InGroup(Elements(first), c), InGroup(Elements(r), c));
    }
  }

  lemma PrefixDistinct(first: seq<Book>, r: seq<Book>)
    requires first <= r && DistinctIds(r)
    ensures Distinct(first) && Elements(first) <= Elements(r)
  {
    forall b | b in first ensures b in r {
      var i :| 0 <= i < |first| && first[i] == b;
      assert r[i] == b;
    }
    forall i, j | 0 <= i < j < |first| ensures first[i] != first[j] {
      assert r[i].id != r[j].id;
    }
  }

  function MinId(ids: seq<int>): (r: int)
    requires ids != []
    ensures r in ids && forall id :: id in ids ==> r <= id
  {
    if |ids| == 1 then ids[0]
    else
      assert ids == [ids[0]] + ids[1..];
      var rest := MinId(ids[1..]);
      if ids[0] < rest then ids[0] else rest
  }

  /** What a page guarantees about its picks and the cursor it leaves. */
  ghost predicate IsPage(catalog: set<Book>, topCategories: seq<int>, lastId: Option<int>, picked: seq<int>,
          nextId: Option<int>) {
    && Distinct(picked)
    && (forall id :: id in picked ==> exists b :: b in Eligible(catalog, topCategories, lastId) && b.id == id)
    && (picked == [] ==> nextId == lastId)
    && (picked != [] ==> nextId.Some? && nextId.value in picked && forall id :: id in picked ==> nextId.value <= id)
  }

  /**
   * What is fetched: only books that are on sale, of the user's top categories if there are any, and
   * below the cursor; and every such book that is not fetched is older than all that are.
   */
  lemma NewestAreFetched(catalog: set<Book>, limit: nat, lastId: Option<int>, topCategories: seq<int>, rows: seq<Book>,
          b: Book)
    requires UniqueIds(catalog) && b in catalog
    requires Answers(rows, Eligible(catalog, topCategories, lastId), limit * CANDIDATE_MULTIPLIER, NEWEST_FIRST)
    ensures b in rows ==>
              && b.available && (lastId.None? || b.id < lastId.value)
              && (topCategories == [] || (b.category.Some? && b.category.value in topCategories))
    ensures b !in rows && b.available && (lastId.None? || b.id < lastId.value)
            && (topCategories == [] || (b.category.Some? && b.category.value in topCategories)) ==>
              |rows| == limit * CANDIDATE_MULTIPLIER && forall r :: r in rows ==> b.id < r.id
  {
    if b !in rows && b in Eligible(catalog, topCategories, lastId) {
      LeftOut(rows, Eligible(catalog, topCategories, lastId), limit * CANDIDATE_MULTIPLIER, NEWEST_FIRST, b);
      forall r | r in rows ensures b.id < r.id {
        assert !NEWEST_FIRST(b, r) && r in Eligible(catalog, topCategories, lastId);
      }
    }
  }

  /** The fetched books that are on the page. */
  ghost function OnPage(rows: seq<Book>, picked: seq<int>): set<Book> {
    set b | b in rows && b.id in picked
  }

  lemma PageIsPicked(catalog: set<Book>, rows: seq<Book>, books: seq<Book>, picked: seq<int>)
    requires UniqueIds(catalog) && (forall b :: b in rows ==> b in catalog) && (forall b :: b in books ==> b in rows)
    requires DistinctIds(books) && |picked| == |books| && forall id :: id in picked <==> id in Ids(books)
    ensures OnPage(rows, picked) == Elements(books) && |OnPage(rows, picked)| == |picked|
  {
    DistinctBooks(books);
    forall b | b in rows ensures b.id in picked <==> b in books {
      IdOf(books, b.id);
    }
  }

  lemma SampledIds(sampled: seq<Book>)
    requires WeightedSample.DistinctKeys(sampled, BOOK_ID)
    ensures DistinctIds(sampled)
  {
    forall i, j | 0 <= i < j < |sampled| ensures sampled[i].id != sampled[j].id {
      assert BOOK_ID(sampled[i]) != BOOK_ID(sampled[j]);
    }
  }

  /** rows answer the query; draws are the random draws; shuffled is any rearrangement of the picks. */
  /**
   * How a page is filled from the rows that are not excluded: as full as can be, with at most two books of a
   * category exactly when some selection of the page's size has no more, and otherwise two of each that has two.
   */
  ghost predicate FillsCapped(limit: nat, excluded: seq<int>, rows: seq<Book>, picked: seq<int>) {
    var page, candidates := OnPage(rows, picked), Elements(Without(excluded, rows, BOOK_ID));
    && |page| == |picked| == Min(limit, |Without(excluded, rows, BOOK_ID)|)
    && (forall id :: id in picked ==> id !in excluded && id in Ids(rows))
    && (WithinCap(page) <==>
        exists chosen :: chosen <= candidates && |chosen| == Min(limit, |candidates|) && WithinCap(chosen))
    && (!WithinCap(page) ==> forall c :: |InGroup(page, c)| >= Min(2, |InGroup(candidates, c)|))
  }

  method Get(ghost catalog: set<Book>, limit: nat, lastId: Option<int>, topCategories: seq<int>, excluded: seq<int>,
             rows: seq<Book>, draws: seq<Book>, shuffle: seq<int> -> seq<int>)
      returns (picked: seq<int>, nextId: Option<int>)
    requires limit >= 1 && UniqueIds(catalog)
    requires Answers(rows, Eligible(catalog, topCategories, lastId), limit * CANDIDATE_MULTIPLIER, NEWEST_FIRST)
    requires WeightedSample.IsDraw(draws, Without(excluded, rows, BOOK_ID), |Without(excluded, rows, BOOK_ID)|)
    requires forall s :: multiset(shuffle(s)) == multiset(s)
    ensures IsPage(catalog, topCategories, lastId, picked, nextId)
    ensures FillsCapped(limit, excluded, rows, picked)
    // the cursor is stuck exactly when the whole fetched window is excluded
    ensures lastId.Some? ==> (nextId == lastId <==> forall b :: b in rows ==> b.id in excluded)
    ensures var sampled := WeightedSample.Sample(Without(excluded, rows, BOOK_ID), |Without(excluded, rows, BOOK_ID)|, draws, BOOK_ID);
            multiset(picked) == multiset(Ids(Picked(sampled, limit)))
  {
    var candidates := Without(excluded, rows, BOOK_ID);
    WithoutKeepsDistinct(excluded, rows, BOOK_ID);
    DistinctBookIds(candidates, catalog);
    var sampled := WeightedSample.Run(candidates, |candidates|, draws, BOOK_ID);
    WeightedSample.SampleIsFull(candidates, |candidates|, draws, BOOK_ID);
    WeightedSample.KeysSize(candidates, BOOK_ID);
    WeightedSample.FullSampleIsPermutation(candidates, draws, BOOK_ID);
    SampledIds(sampled);
    PickedIsFull(sampled, limit);
    CapExactly(Elements(candidates), sampled, limit);
    ghost var books := Picked(sampled, limit);
    var ids := Loops(sampled, limit);
    nextId := if ids != [] then Some(MinId(ids)) else lastId;
    picked := shuffle(ids);
    SameElements(ids, picked);
    PageIsPicked(catalog, rows, books, picked);
    assert picked == [] <==> candidates == [];
    assert candidates == [] <==> forall b :: b in rows ==> b.id in excluded by {
      if candidates != [] {
        assert candidates[0] in candidates;
      }
    }
    forall id | id in picked
      ensures id !in excluded && id in Ids(rows)
      ensures exists b :: b in Eligible(catalog, topCategories, lastId) && b.id == id
    {
      IdOf(books, id);
      var b :| b in books && b.id == id;
      assert b in candidates && b in rows;
      IdOf(rows, id);
    }
  }

  lemma SameElements(a: seq<int>, b: seq<int>)
    requires multiset(a) == multiset(b)
    ensures |a| == |b| && (forall x :: x in a <==> x in b) && (Distinct(a) ==> Distinct(b))
  {
    assert |multiset(a)| == |a| && |multiset(b)| == |b|;
    forall x ensures x in a <==> x in b {
      assert x in a <==> x in multiset(a);
      assert x in b <==> x in multiset(b);
    }
    assert Elements(a) == Elements(b);
    DistinctCount(a);
    DistinctCount(b);
  }

  /** The first picking loop: newest books first, under the cap. */
  method CappedLoop(sampled: seq<Book>, limit: nat) returns (picked: seq<int>, ghost books: seq<Book>)
    requires limit >= 1
    ensures books == TakeCapped(sampled, limit, []) && picked == Ids(books)
  {
    picked, books := [], [];
    var counts: map<Option<int>, nat> := map[];
    var i := 0;
    while i < |sampled|
      invariant 0 <= i <= |sampled| && picked == Ids(books) && |books| < limit
      invariant forall c :: (if c in counts then counts[c] else 0) == InCategory(books, c)
      invariant TakeCapped(sampled, limit, []) == TakeCapped(sampled[i..], limit, books)
    {
      var row := sampled[i];
      assert sampled[i..][0] == row && sampled[i..][1..] == sampled[i + 1..];
      i := i + 1;
      var count := if row.category in counts then counts[row.category] else 0;
      if count < CATEGORY_CAP {
        assert (books + [row])[..|books|] == books;
        picked, books := picked + [row.id], books + [row];
        counts := counts[row.category := count + 1];
        if |picked| >= limit {
          break;
        }
      }
    }
  }

  /** The second picking loop: whatever is left, capped or not. */
  method RestLoop(sampled: seq<Book>, limit: nat, before: seq<int>, ghost already: seq<Book>) returns (picked: seq<int>)
    requires before == Ids(already) && |already| < limit
    ensures picked == Ids(TakeRest(sampled, limit, already))
  {
    picked := before;
    ghost var books := already;
    var pickedSet := set id | id in picked;
    var i := 0;
    while i < |sampled|
      invariant 0 <= i <= |sampled| && picked == Ids(books) && |books| < limit
      invariant pickedSet == Elements(picked)
      invariant TakeRest(sampled, limit, already) == TakeRest(sampled[i..], limit, books)
    {
      var row := sampled[i];
      assert sampled[i..][0] == row && sampled[i..][1..] == sampled[i + 1..];
      i := i + 1;
      if row.id !in pickedSet {
        picked, books := picked + [row.id], books + [row];
        pickedSet := pickedSet + {row.id};
      }
      if |picked| >= limit {
        break;
      }
    }
  }

  method Loops(sampled: seq<Book>, limit: nat) returns (picked: seq<int>)
    requires limit >= 1
    ensures picked == Ids(Picked(sampled, limit))
  {
    ghost var books;
    picked, books := CappedLoop(sampled, limit);
    if |picked| < limit {
      picked := RestLoop(sampled, limit, picked, books);
    }
  }

  // ---- the cursor ----

  /** The cursor strictly decreases on every page that picks something, and stays put otherwise. */
  lemma CursorProgress(catalog: set<Book>, topCategories: seq<int>, lastId: Option<int>, picked: seq<int>,
          nextId: Option<int>)
    requires IsPage(catalog, topCategories, lastId, picked, nextId)
    ensures picked == [] ==> nextId == lastId
    ensures picked != [] ==> nextId.Some? && (lastId.Some? ==> nextId.value < lastId.value)
    ensures forall id :: id in picked ==> nextId.value <= id && (lastId.Some? ==> id < lastId.value)
  {
  }

  /** A session's pages: each starts from the cursor the previous one left, over any profile. */
  ghost predicate IsSession(catalog: set<Book>, cursors: seq<Option<int>>, categories: seq<seq<int>>,
          pages: seq<seq<int>>) {
    && |cursors| == |pages| + 1 && |categories| == |pages|
    && forall k :: 0 <= k < |pages| ==> IsPage(catalog, categories[k], cursors[k], pages[k], cursors[k + 1])
  }

  lemma {:induction false} CursorOnlyFalls(catalog: set<Book>, cursors: seq<Option<int>>, categories: seq<seq<int>>,
          pages: seq<seq<int>>, i: nat, j: nat)
    requires IsSession(catalog, cursors, categories, pages) && i <= j < |cursors|
    ensures cursors[i].Some? ==> cursors[j].Some? && cursors[j].value <= cursors[i].value
    decreases j - i
  {
    if i < j {
      CursorProgress(catalog, categories[i], cursors[i], pages[i], cursors[i + 1]);
      CursorOnlyFalls(catalog, cursors, categories, pages, i + 1, j);
    }
  }

  /** Hence no two pages of a session share a book, whatever is excluded. */
  lemma PagesAreDisjoint(catalog: set<Book>, cursors: seq<Option<int>>, categories: seq<seq<int>>,
          pages: seq<seq<int>>, i: nat, j: nat)
    requires IsSession(catalog, cursors, categories, pages) && i < j < |pages|
    ensures Elements(pages[i]) !! Elements(pages[j])
  {
    CursorProgress(catalog, categories[i], cursors[i], pages[i], cursors[i + 1]);
    CursorProgress(catalog, categories[j], cursors[j], pages[j], cursors[j + 1]);
    if pages[i] != [] {
      CursorOnlyFalls(catalog, cursors, categories, pages, i + 1, j);
      assert cursors[i + 1].Some? && cursors[j].Some?;
      forall id | id in pages[i] && id in pages[j] ensures false {
      }
    }
  }
}
