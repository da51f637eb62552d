/** Optional values, and the few facts about finite sequences that every component shares. */
module Sequences {

  datatype Option<+T> = None | Some(value: T)

  function Min(a: int, b: int): int {
    if a < b then a else b
  }

  /** No element occurs twice. */
  ghost predicate Distinct<T>(s: seq<T>) {
    forall i, j :: 0 <= i < j < |s| ==> s[i] != s[j]
  }

  function Elements<T>(s: seq<T>): set<T> {
    set x | x in s
  }

  lemma {:induction false} DistinctCount<T>(s: seq<T>)
    ensures |Elements(s)| <= |s|
    ensures Distinct(s) <==> |Elements(s)| == |s|
  {
    if s == [] {
    } else {
      var front, last := s[..|s| - 1], s[|s| - 1];
      DistinctCount(front);
      assert Elements(s) == Elements(front) + {last};
      if last in front {
        assert Elements(s) == Elements(front);
      }
      assert forall i :: 0 <= i < |front| ==> front[i] == s[i];
    }
  }

  /** A subset of a finite set with as many elements is the whole set. */
  lemma SubsetOfEqualSize<T>(a: set<T>, b: set<T>)
    requires a <= b && |a| >= |b|
    ensures a == b
  {
    assert |b - a| == |b| - |a|;
  }

  lemma SubsetSize<T>(a: set<T>, b: set<T>)
    requires a <= b
    ensures |a| <= |b|
  {
    assert b == a + (b - a);
  }

  lemma HasMember(ids: set<int>)
    requires ids != {}
    ensures exists id :: id in ids
  {
    if forall id :: id !in ids {
      // then ids is empty
    }
  }

  lemma ProperSubsetSize<T>(a: set<T>, b: set<T>)
    requires a < b
    ensures |a| < |b|
  {
    SubsetSize(a, b);
    if |a| == |b| {
      SubsetOfEqualSize(a, b);
    }
  }

  /** The longest suffix of at most n elements: what `LTRIM key -n -1` and `s[-n:]` keep. */
  function LastN<T>(s: seq<T>, n: nat): (r: seq<T>)
    ensures |r| == Min(|s|, n)
  {
    if |s| <= n then s else s[|s| - n..]
  }

  function Flatten<T>(batches: seq<seq<T>>): seq<T> {
    if batches == [] then [] else Flatten(batches[..|batches| - 1]) + batches[|batches| - 1]
  }

  const SELF: int -> int := (id: int) => id

  function Unless<T>(excluded: seq<int>, x: T, key: T -> int): seq<T> {
    if key(x) in excluded then [] else [x]
  }

  /** The items whose key is not excluded, in order. */
  function Without<T(!new)>(excluded: seq<int>, items: seq<T>, key: T -> int): (r: seq<T>)
    ensures |r| <= |items| && forall x :: x in r <==> x in items && key(x) !in excluded
  {
    if items == [] then []
    else
      var front, last := items[..|items| - 1], items[|items| - 1];
      assert items == front + [last];
      Without(excluded, front, key) + Unless(excluded, last, key)
  }

  lemma {:induction false} WithoutKeepsDistinct<T(!new)>(excluded: seq<int>, items: seq<T>, key: T -> int)
    requires Distinct(items)
    ensures Distinct(Without(excluded, items, key))
  {
    if items != [] {
      var front, last := items[..|items| - 1], items[|items| - 1];
      WithoutKeepsDistinct(excluded, front, key);
      assert last !in front;
    }
  }
}
