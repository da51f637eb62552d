/**
 * `_weighted_sample`: a weighted draw with replacement, collapsed to distinct keys and topped up
 * in pool order. The random generator is an oracle: it may draw any items of the pool.
 */
module WeightedSample {
  import opened Sequences

  const POOL_MULTIPLIER: nat := 4

  ghost function Keys<T, K>(s: seq<T>, key: T -> K): set<K> {
    set x | x in s :: key(x)
  }

  ghost predicate DistinctKeys<T, K>(s: seq<T>, key: T -> K) {
    forall i, j :: 0 <= i < j < |s| ==> key(s[i]) != key(s[j])
  }

  /** Any result of `rng.choices(items, k = min(4 * limit, len(items)))`. */
  ghost predicate IsDraw<T>(draws: seq<T>, items: seq<T>, limit: nat) {
    && |draws| == Min(limit * POOL_MULTIPLIER, |items|)
    && forall x :: x in draws ==> x in items
  }

  /** The items whose key did not occur earlier, in order. */
  ghost function FirstOccurrences<T, K>(s: seq<T>, key: T -> K): seq<T> {
    if s == [] then []
    else
      var kept := FirstOccurrences(s[..|s| - 1], key);
      if key(s[|s| - 1]) in Keys(kept, key) then kept else kept + [s[|s| - 1]]
  }

  /** What a sample is: the first distinct keys of the draws, continued by the pool itself. */
  ghost function Sample<T, K>(items: seq<T>, limit: nat, draws: seq<T>, key: T -> K): seq<T> {
    var all := FirstOccurrences(draws + items, key);
    all[..Min(limit, |all|)]
  }

  lemma KeysAppend<T, K>(s: seq<T>, x: T, key: T -> K)
    ensures Keys(s + [x], key) == Keys(s, key) + {key(x)}
  {
    assert (s + [x])[|s|] == x;
    forall k | k in Keys(s, key) ensures k in Keys(s + [x], key) {
      var y :| y in s && key(y) == k;
      assert y in s + [x];
    }
  }

  lemma {:induction false} FirstOccurrencesExtends<T, K>(s: seq<T>, t: seq<T>, key: T -> K)
    ensures FirstOccurrences(s, key) <= FirstOccurrences(s + t, key)
  {
    if t == [] {
      assert s + t == s;
    } else {
      FirstOccurrencesExtends(s, t[..|t| - 1], key);
      assert (s + t)[..|s + t| - 1] == s + t[..|t| - 1];
    }
  }

  lemma {:induction false} FirstOccurrencesKeys<T, K>(s: seq<T>, key: T -> K)
    ensures Keys(FirstOccurrences(s, key), key) == Keys(s, key)
    ensures DistinctKeys(FirstOccurrences(s, key), key)
    ensures forall x :: x in FirstOccurrences(s, key) ==> x in s
  {
    if s != [] {
      FirstOccurrencesKeys(s[..|s| - 1], key);
      assert s == s[..|s| - 1] + [s[|s| - 1]];
      var kept := FirstOccurrences(s[..|s| - 1], key);
      KeysAppend(s[..|s| - 1], s[|s| - 1], key);
      KeysAppend(kept, s[|s| - 1], key);
      if key(s[|s| - 1]) !in Keys(kept, key) {
        forall i | 0 <= i < |kept| ensures key(kept[i]) != key(s[|s| - 1]) {
          assert kept[i] in kept;
        }
      }
    }
  }

  lemma {:induction false} KeysSize<T, K>(s: seq<T>, key: T -> K)
    requires DistinctKeys(s, key)
    ensures |Keys(s, key)| == |s|
  {
    if s != [] {
      var front, last := s[..|s| - 1], s[|s| - 1];
      KeysSize(front, key);
      assert s == front + [last];
      assert Keys(s, key) == Keys(front, key) + {key(last)};
      assert key(last) !in Keys(front, key);
    }
  }

  /** Every sample has pairwise distinct keys, comes from the pool, and is as long as the pool allows. */
  lemma SampleIsFull<T, K>(items: seq<T>, limit: nat, draws: seq<T>, key: T -> K)
    requires IsDraw(draws, items, limit)
    ensures var r := Sample(items, limit, draws, key);
            && DistinctKeys(r, key)
            && (forall x :: x in r ==> x in items)
            && |r| == Min(limit, |Keys(items, key)|)
            && Keys(r, key) <= Keys(items, key)
  {
    FirstOccurrencesKeys(draws + items, key);
    KeysSize(FirstOccurrences(draws + items, key), key);
    forall x | x in Sample(items, limit, draws, key) ensures x in items {
      assert x in FirstOccurrences(draws + items, key);
    }
    assert Keys(draws + items, key) == Keys(items, key) by {
      forall x | x in items ensures x in draws + items {
        var i :| 0 <= i < |items| && items[i] == x;
        assert (draws + items)[|draws| + i] == x;
      }
    }
  }

  /** A sample as large as a pool of distinct keys is a rearrangement of that pool. */
  lemma FullSampleIsPermutation<T, K>(items: seq<T>, draws: seq<T>, key: T -> K)
    requires IsDraw(draws, items, |items|) && DistinctKeys(items, key)
    ensures Keys(Sample(items, |items|, draws, key), key) == Keys(items, key)
    ensures Elements(Sample(items, |items|, draws, key)) == Elements(items)
  {
    var r := Sample(items, |items|, draws, key);
    SampleIsFull(items, |items|, draws, key);
    KeysSize(items, key);
    KeysSize(r, key);
    SubsetOfEqualSize(Keys(r, key), Keys(items, key));
    forall x | x in items ensures x in r {
      assert key(x) in Keys(r, key);
      var y :| y in r && key(y) == key(x);
      var i :| 0 <= i < |items| && items[i] == x;
      var j :| 0 <= j < |items| && items[j] == y;
      assert i == j;
    }
  }

  lemma {:induction false} DistinctStays<T, K>(s: seq<T>, key: T -> K)
    requires DistinctKeys(s, key)
    ensures FirstOccurrences(s, key) == s
  {
    if s != [] {
      var front, last := s[..|s| - 1], s[|s| - 1];
      DistinctStays(front, key);
      assert front + [last] == s;
    }
  }

  /** What is drawn first, once each, begins the sample. */
  lemma SampleBegins<T, K>(items: seq<T>, limit: nat, first: seq<T>, later: seq<T>, key: T -> K)
    requires DistinctKeys(first, key) && |first| <= |Sample(items, limit, first + later, key)|
    ensures first <= Sample(items, limit, first + later, key)
  {
    DistinctStays(first, key);
    FirstOccurrencesExtends(first, later + items, key);
    assert first + (later + items) == first + later + items;
  }

  /** The loop state after the first i elements of s. */
  ghost predicate Progress<T, K>(s: seq<T>, i: nat, key: T -> K, result: seq<T>, seen: set<K>) {
    && i <= |s|
    && result == FirstOccurrences(s[..i], key)
    && seen == Keys(result, key)
  }

  lemma Advance<T, K>(s: seq<T>, i: nat, key: T -> K)
    requires i < |s|
    ensures var kept := FirstOccurrences(s[..i], key);
            && FirstOccurrences(s[..i + 1], key)
               == (if key(s[i]) in Keys(kept, key) then kept else kept + [s[i]])
            && Keys(kept + [s[i]], key) == Keys(kept, key) + {key(s[i])}
  {
    assert s[..i + 1][..i] == s[..i];
    KeysAppend(FirstOccurrences(s[..i], key), s[i], key);
  }

  lemma Join<T, K>(draws: seq<T>, items: seq<T>, i: nat, key: T -> K)
    requires i <= |draws|
    ensures (draws + items)[..i] == draws[..i]
  {
  }

  lemma Finished<T, K>(all: seq<T>, i: nat, result: seq<T>, limit: nat, key: T -> K)
    requires i <= |all| && result == FirstOccurrences(all[..i], key)
    requires |result| <= limit && (|result| < limit ==> i == |all|)
    ensures result == FirstOccurrences(all, key)[..Min(limit, |FirstOccurrences(all, key)|)]
  {
    FirstOccurrencesExtends(all[..i], all[i..], key);
    assert all[..i] + all[i..] == all;
    assert i == |all| ==> all[..i] == all;
  }

  /** One element of either loop: kept if its key is new. */
  method Keep<T, K(==)>(x: T, key: T -> K, result: seq<T>, seen: set<K>) returns (result': seq<T>, seen': set<K>)
    ensures result' == (if key(x) in seen then result else result + [x])
    ensures seen' == seen + {key(x)}
  {
    result', seen' := result, seen;
    if key(x) !in seen {
      seen' := seen + {key(x)};
      result' := result + [x];
    }
  }

  /** The loop over the draws; done says how many it looked at before the limit was reached. */
  method PassDraws<T, K(==)>(draws: seq<T>, limit: nat, key: T -> K) returns (result: seq<T>, seen: set<K>, ghost done: nat)
    requires limit > 0 || draws == []
    ensures Progress(draws, done, key, result, seen)
    ensures |result| <= limit && (|result| < limit ==> done == |draws|)
  {
    seen, result, done := {}, [], 0;
    var i := 0;
    while i < |draws|
      invariant i <= |draws| && done == i && Progress(draws, i, key, result, seen)
      invariant |result| <= limit && (i < |draws| ==> |result| < limit)
    {
      Advance(draws, i, key);
      result, seen := Keep(draws[i], key, result, seen);
      i := i + 1;
      done := i;
      if |result| >= limit {
        break;
      }
    }
  }

  /** The top-up in pool order, continuing after the draws. */
  method TopUp<T, K(==)>(ghost draws: seq<T>, items: seq<T>, limit: nat, key: T -> K, start: seq<T>, known: set<K>)
      returns (result: seq<T>, ghost done: nat)
    requires |start| < limit && Progress(draws + items, |draws|, key, start, known)
    ensures done <= |draws + items| && result == FirstOccurrences((draws + items)[..done], key)
    ensures |result| <= limit && (|result| < limit ==> done == |draws + items|)
  {
    result, done := start, |draws|;
    var seen := known;
    var j := 0;
    while j < |items|
      invariant j <= |items| && done == |draws| + j && Progress(draws + items, done, key, result, seen)
      invariant |result| <= limit && (j < |items| ==> |result| < limit)
    {
      Advance(draws + items, done, key);
      result, seen := Keep(items[j], key, result, seen);
      j := j + 1;
      done := done + 1;
      if |result| >= limit {
        break;
      }
    }
  }

  method Run<T, K(==)>(items: seq<T>, limit: nat, draws: seq<T>, key: T -> K) returns (result: seq<T>)
    requires IsDraw(draws, items, limit)
    ensures result == Sample(items, limit, draws, key)
  {
    if items == [] {
      return [];
    }
    var seen;
    ghost var done;
    result, seen, done := PassDraws(draws, limit, key);
    Join(draws, items, done, key);
    if |result| < limit {
      result, done := TopUp(draws, items, limit, key, result, seen);
    }
    Finished(draws + items, done, result, limit, key);
  }
}
