/**
 * How many books within the caps a pool must admit for the capped pick to keep the caps, exactly. The
 * capped phases stop short only when full groups block the rest of the pool, and a set of limit - 1
 * books has room for so many full groups and no more.
 */
module CapThreshold {
  import opened Sequences
  import opened WeightedSample
  import opened CappedPick

  /** The largest multiple of c up to m. */
  function Full(m: nat, c: nat): nat
    requires c >= 1
  {
    if m < c then 0 else c + Full(m - c, c)
  }

  lemma {:induction false} FullBounds(m: nat, c: nat)
    requires c >= 1
    ensures m - c < Full(m, c) <= m && Full(Full(m, c), c) == Full(m, c)
  {
    if m >= c {
      FullBounds(m - c, c);
    }
  }

  /** The most books within the caps that limit - 1 picks can block. */
  function Blocked(limit: nat, caps: Caps): nat
    requires limit >= 1 && caps.category >= 1 && caps.author >= 1
  {
    limit - 1 + Min(Full(limit - 1, caps.category), Full(limit - 1, caps.author))
  }

  // ---- enough books: the caps are kept ----

  ghost function InFullGroups(s: set<Candidate>, m: set<Candidate>, of: Candidate -> Option<int>, cap: nat): set<Candidate> {
    set x | x in s && GroupFull(m, of, cap, x)
  }

  /** Without one full group the others are as they were. */
  lemma WithoutGroup(m: set<Candidate>, x: Candidate, of: Candidate -> Option<int>, cap: nat)
    requires cap >= 1 && GroupsWithin(m, of, cap) && x in m && GroupFull(m, of, cap, x)
    ensures var g := Group(m, of, of(x));
            && |g| == cap && g <= InFullGroups(m, m, of, cap) && GroupsWithin(m - g, of, cap)
            && InFullGroups(m - g, m - g, of, cap) == InFullGroups(m, m, of, cap) - g
  {
    var g := Group(m, of, of(x));
    forall y | y in m - g ensures Group(m - g, of, of(y)) == Group(m, of, of(y)) {
    }
    forall y | y in g ensures GroupFull(m, of, cap, y) {
    }
  }

  lemma RemovedSize(m: set<Candidate>, g: set<Candidate>)
    requires g <= m
    ensures |m - g| == |m| - |g|
  {
    SplitSize(m, g);
    assert m * g == g;
  }

  /** Full groups hold a multiple of the cap. */
  lemma {:induction false} FullGroupsFit(m: set<Candidate>, n: nat, of: Candidate -> Option<int>, cap: nat)
    requires cap >= 1 && GroupsWithin(m, of, cap) && |m| <= n
    ensures |InFullGroups(m, m, of, cap)| <= Full(n, cap)
    decreases |m|
  {
    var full := InFullGroups(m, m, of, cap);
    if full != {} {
      var x :| x in full;
      var g := Group(m, of, of(x));
      WithoutGroup(m, x, of, cap);
      RemovedSize(m, g);
      RemovedSize(full, g);
      FullGroupsFit(m - g, n - cap, of, cap);
    }
  }

  /** A feasible selection has no more books in the full groups of m than m has. */
  lemma NoMoreInFullGroups(s: set<Candidate>, m: set<Candidate>, of: Candidate -> Option<int>, cap: nat)
    requires GroupsWithin(s, of, cap)
    ensures |InFullGroups(s, m, of, cap)| <= |InFullGroups(m, m, of, cap)|
  {
    var a, b := InFullGroups(s, m, of, cap), InFullGroups(m, m, of, cap);
    forall x | x in a ensures |Group(a, of, of(x))| <= |Group(b, of, of(x))| {
      GroupMonotone(a, s, of, of(x));
      assert Group(b, of, of(x)) == Group(m, of, of(x));
    }
    DominatedGroups(a, b, of);
  }

  ghost predicate Blocks(m: set<Candidate>, caps: Caps, x: Candidate) {
    GroupFull(m, CATEGORY, caps.category, x) || GroupFull(m, AUTHOR, caps.author, x)
  }

  /** The members of m in no full group. */
  ghost function InNeither(m: set<Candidate>, caps: Caps): set<Candidate> {
    m - InFullGroups(m, m, CATEGORY, caps.category) - InFullGroups(m, m, AUTHOR, caps.author)
  }

  lemma Covered(s: set<Candidate>, m: set<Candidate>, caps: Caps)
    requires forall x :: x in s - m ==> Blocks(m, caps, x)
    ensures s <= InFullGroups(s, m, CATEGORY, caps.category) + InFullGroups(s, m, AUTHOR, caps.author) + InNeither(m, caps)
  {
    forall x | x in s && !Blocks(m, caps, x) ensures x in InNeither(m, caps) {
      assert x !in s - m;
    }
  }

  /** What a set m within the caps can block: at most its own size plus what its full groups of one kind hold. */
  lemma MaximalBlocks(s: set<Candidate>, m: set<Candidate>, caps: Caps, limit: nat)
    requires caps.category >= 1 && caps.author >= 1 && WithinCaps(s, caps) && WithinCaps(m, caps) && |m| < limit
    requires forall x :: x in s - m ==> Blocks(m, caps, x)
    ensures |s| <= Blocked(limit, caps)
  {
    var sc, mc := FullGroupSizes(s, m, CATEGORY, caps.category, limit - 1);
    var sa, ma := FullGroupSizes(s, m, AUTHOR, caps.author, limit - 1);
    Covered(s, m, caps);
    CountParts(s, m, sc, sa, mc, ma);
  }

  lemma FullGroupSizes(s: set<Candidate>, m: set<Candidate>, of: Candidate -> Option<int>, cap: nat, n: nat)
      returns (inS: set<Candidate>, inM: set<Candidate>)
    requires cap >= 1 && GroupsWithin(s, of, cap) && GroupsWithin(m, of, cap) && |m| <= n
    ensures inS == InFullGroups(s, m, of, cap) && inM == InFullGroups(m, m, of, cap)
    ensures inM <= m && |inS| <= |inM| <= Full(n, cap)
  {
    NoMoreInFullGroups(s, m, of, cap);
    FullGroupsFit(m, n, of, cap);
    inS, inM := InFullGroups(s, m, of, cap), InFullGroups(m, m, of, cap);
  }

  lemma CountParts(s: set<Candidate>, m: set<Candidate>, sc: set<Candidate>, sa: set<Candidate>,
                   mc: set<Candidate>, ma: set<Candidate>)
    requires s <= sc + sa + (m - mc - ma) && mc <= m && ma <= m && |sc| <= |mc| && |sa| <= |ma|
    ensures |s| <= |m| + Min(|mc|, |ma|)
  {
    ThreeParts(s, sc, sa, m - mc - ma);
    FreeSize(m, mc, ma);
  }

  lemma ThreeParts(s: set<Candidate>, a: set<Candidate>, b: set<Candidate>, c: set<Candidate>)
    requires s <= a + b + c
    ensures |s| <= |a| + |b| + |c|
  {
    SubsetSize(s, a + b + c);
    UnionSize(a, b);
    UnionSize(a + b, c);
  }

  lemma FreeSize(m: set<Candidate>, a: set<Candidate>, b: set<Candidate>)
    requires a <= m && b <= m
    ensures |m - a - b| <= |m| - |a| && |m - a - b| <= |m| - |b|
  {
    SplitSize(m, a);
    SplitSize(m, b);
    assert m * a == a && m * b == b;
    SubsetSize(m - a - b, m - a);
    SubsetSize(m - a - b, m - b);
  }

  /** If more books than that obey both caps, so does the result. */
  lemma EnoughKeepsCaps(sampled: seq<Candidate>, pool: seq<Candidate>, limit: nat, caps: Caps, other: set<Candidate>)
    requires DistinctIds(pool) && forall x :: x in sampled ==> x in pool
    requires limit >= 1 && caps.category >= 1 && caps.author >= 1
    requires WithinCaps(other, caps) && |other| > Blocked(limit, caps) && forall x :: x in other ==> x in pool
    ensures WithinCaps(Elements(Pick(sampled, pool, limit, caps)), caps)
    ensures |Greedy(sampled + pool, limit, caps, [])| == limit
  {
    var g := Greedy(sampled + pool, limit, caps, []);
    PhasesInvariant(sampled, pool, limit, caps);
    if |g| < limit {
      forall x | x in other - Elements(g)
        ensures Blocks(Elements(g), caps, x)
      {
        assert !Admissible(g, caps, x);
        if x.id in Ids(g) {
          IdsMember(g, x.id);
          var y :| y in g && y.id == x.id;
          SameId(pool, x, y);
        }
      }
      DistinctCount(g);
      MaximalBlocks(other, Elements(g), caps, limit);
      assert false;
    }
    assert Pick(sampled, pool, limit, caps) == g;
  }

  // ---- one book fewer is not enough: a family of pools ----

  /** Blocks of c consecutive indices, numbered from 1. */
  function Block(i: nat, c: nat): nat
    requires c >= 1
  {
    if i < c then 1 else 1 + Block(i - c, c)
  }

  ghost function InBlock(n: nat, c: nat, b: nat): set<nat>
    requires c >= 1
  {
    set i | 0 <= i < n && Block(i, c) == b
  }

  function Count(n: nat, c: nat, b: nat): nat
    requires c >= 1
  {
    if n == 0 then 0 else Count(n - 1, c, b) + if Block(n - 1, c) == b then 1 else 0
  }

  lemma {:induction false} InBlockSize(n: nat, c: nat, b: nat)
    requires c >= 1
    ensures |InBlock(n, c, b)| == Count(n, c, b)
  {
    if n > 0 {
      InBlockSize(n - 1, c, b);
      assert InBlock(n, c, b) == InBlock(n - 1, c, b) + if Block(n - 1, c) == b then {n - 1} else {};
    }
  }

  lemma {:induction false} BlockBounds(i: nat, c: nat)
    requires c >= 1
    ensures Block(i, c) >= 1 && (i < c <==> Block(i, c) == 1)
  {
    if i >= c {
      BlockBounds(i - c, c);
    }
  }

  /** The first block fills first, the others as if the first were not there. */
  lemma {:induction false} CountShifts(n: nat, c: nat, b: nat)
    requires c >= 1 && b >= 1
    ensures Count(n, c, b) == if b == 1 then Min(n, c) else if n <= c then 0 else Count(n - c, c, b - 1)
  {
    if n > 0 {
      CountShifts(n - 1, c, b);
      BlockBounds(n - 1, c);
    }
  }

  /** When c divides n every block below n is whole. */
  lemma {:induction false} BlockIsWhole(n: nat, c: nat, i: nat)
    requires c >= 1 && Full(n, c) == n && i < n
    ensures Count(n, c, Block(i, c)) == c
  {
    FullBounds(n, c);
    BlockBounds(i, c);
    CountShifts(n, c, Block(i, c));
    if i >= c {
      BlockIsWhole(n - c, c, i - c);
    }
  }

  function Grouped(i: nat, n: nat, c: nat): Option<int>
    requires c >= 1
  {
    if i < n then Some(Block(i, c)) else None
  }

  /** Index i of the pool is its id: first the unlucky picks, then books sharing a category with them, then an author. */
  function Unlucky(m: nat, caps: Caps, i: nat): Candidate
    requires caps.category >= 1 && caps.author >= 1
  {
    var byCategory, byAuthor := Full(m, caps.category), Full(m, caps.author);
    if i < m then Candidate(i, Grouped(i, byCategory, caps.category), Grouped(i, byAuthor, caps.author))
    else if i < m + byCategory then Candidate(i, Grouped(i - m, byCategory, caps.category), None)
    else Candidate(i, None, Grouped(i - m - byCategory, byAuthor, caps.author))
  }

  function UnluckyPool(m: nat, caps: Caps): seq<Candidate>
    requires caps.category >= 1 && caps.author >= 1
  {
    var size: nat := m + Full(m, caps.category) + Full(m, caps.author);
    seq(size, i requires 0 <= i < size => Unlucky(m, caps, i))
  }

  function At(m: nat, caps: Caps, from: nat, k: nat): Candidate
    requires caps.category >= 1 && caps.author >= 1
  {
    Unlucky(m, caps, from + k)
  }

  ghost function Image(m: nat, caps: Caps, from: nat, indices: set<nat>): set<Candidate>
    requires caps.category >= 1 && caps.author >= 1
  {
    set k | k in indices :: At(m, caps, from, k)
  }

  lemma {:induction false} ImageSize(m: nat, caps: Caps, from: nat, indices: set<nat>)
    requires caps.category >= 1 && caps.author >= 1
    ensures |Image(m, caps, from, indices)| == |indices|
  {
    if indices != {} {
      var x :| x in indices;
      ImageSize(m, caps, from, indices - {x});
      var a := At(m, caps, from, x);
      forall k | k in indices - {x} ensures At(m, caps, from, k) != a {
        assert At(m, caps, from, k).id == from + k;
      }
      assert Image(m, caps, from, indices) == Image(m, caps, from, indices - {x}) + {a};
    }
  }

  /** The books of s grouped by this key are n consecutive ones of the pool, in blocks of c. */
  ghost predicate GroupedBlocks(m: nat, caps: Caps, of: Candidate -> Option<int>, c: nat, from: nat, n: nat, s: set<Candidate>)
    requires caps.category >= 1 && caps.author >= 1 && c >= 1
  {
    && (forall k: nat :: k < n ==> At(m, caps, from, k) in s && of(At(m, caps, from, k)) == Some(Block(k, c)))
    && (forall x :: x in s && of(x).Some? ==> from <= x.id < from + n && x == At(m, caps, from, x.id - from))
  }

  lemma GroupOfBlock(m: nat, caps: Caps, of: Candidate -> Option<int>, c: nat, from: nat, n: nat, s: set<Candidate>, i: nat)
    requires caps.category >= 1 && caps.author >= 1 && c >= 1 && Full(n, c) == n && i < n
    requires GroupedBlocks(m, caps, of, c, from, n, s)
    ensures |Group(s, of, Some(Block(i, c)))| == c
  {
    var b := Block(i, c);
    InBlockSize(n, c, b);
    BlockIsWhole(n, c, i);
    ImageSize(m, caps, from, InBlock(n, c, b));
    GroupIsImage(m, caps, of, c, from, n, s, b);
  }

  lemma GroupIsImage(m: nat, caps: Caps, of: Candidate -> Option<int>, c: nat, from: nat, n: nat, s: set<Candidate>, b: nat)
    requires caps.category >= 1 && caps.author >= 1 && c >= 1
    requires GroupedBlocks(m, caps, of, c, from, n, s)
    ensures Group(s, of, Some(b)) == Image(m, caps, from, InBlock(n, c, b))
  {
    var g, image := Group(s, of, Some(b)), Image(m, caps, from, InBlock(n, c, b));
    forall x | x in g ensures x in image {
      var k: nat := x.id - from;
      assert At(m, caps, from, k) == x && k in InBlock(n, c, b);
    }
    forall x | x in image ensures x in g {
      var k :| k in InBlock(n, c, b) && x == At(m, caps, from, k);
    }
  }

  lemma BlocksKeepCap(m: nat, caps: Caps, of: Candidate -> Option<int>, c: nat, from: nat, n: nat, s: set<Candidate>)
    requires caps.category >= 1 && caps.author >= 1 && c >= 1 && Full(n, c) == n
    requires GroupedBlocks(m, caps, of, c, from, n, s)
    ensures GroupsWithin(s, of, c)
  {
    forall x | x in s && Counted(of(x)) ensures |Group(s, of, of(x))| <= c {
      GroupOfBlock(m, caps, of, c, from, n, s, x.id - from);
      assert x == At(m, caps, from, x.id - from);
    }
  }

  // the unlucky picks

  ghost function Picks(m: nat, caps: Caps): seq<Candidate>
    requires caps.category >= 1 && caps.author >= 1
  {
    UnluckyPool(m, caps)[..m]
  }

  lemma PicksInBlocks(m: nat, caps: Caps)
    requires caps.category >= 1 && caps.author >= 1
    ensures Full(m, caps.category) <= m && Full(m, caps.author) <= m
    ensures GroupedBlocks(m, caps, CATEGORY, caps.category, 0, Full(m, caps.category), Elements(Picks(m, caps)))
    ensures GroupedBlocks(m, caps, AUTHOR, caps.author, 0, Full(m, caps.author), Elements(Picks(m, caps)))
  {
    FullBounds(m, caps.category);
    FullBounds(m, caps.author);
    var picks := Picks(m, caps);
    forall k: nat | k < m ensures At(m, caps, 0, k) in Elements(picks) {
      assert picks[k] == At(m, caps, 0, k);
    }
    forall x | x in Elements(picks) ensures 0 <= x.id < m && x == At(m, caps, 0, x.id) {
      var i :| 0 <= i < |picks| && picks[i] == x;
    }
  }

  /** They keep both caps, and every group they touch is full. */
  lemma PicksAreFull(m: nat, caps: Caps)
    requires caps.category >= 1 && caps.author >= 1
    ensures WithinCaps(Elements(Picks(m, caps)), caps)
    ensures forall i: nat :: i < Full(m, caps.category) ==>
              |Group(Elements(Picks(m, caps)), CATEGORY, Some(Block(i, caps.category)))| == caps.category
    ensures forall i: nat :: i < Full(m, caps.author) ==>
              |Group(Elements(Picks(m, caps)), AUTHOR, Some(Block(i, caps.author)))| == caps.author
  {
    var s, x, y := Elements(Picks(m, caps)), Full(m, caps.category), Full(m, caps.author);
    FullBounds(m, caps.category);
    FullBounds(m, caps.author);
    PicksInBlocks(m, caps);
    BlocksKeepCap(m, caps, CATEGORY, caps.category, 0, x, s);
    BlocksKeepCap(m, caps, AUTHOR, caps.author, 0, y, s);
    forall i: nat | i < x ensures |Group(s, CATEGORY, Some(Block(i, caps.category)))| == caps.category {
      GroupOfBlock(m, caps, CATEGORY, caps.category, 0, x, s, i);
    }
    forall i: nat | i < y ensures |Group(s, AUTHOR, Some(Block(i, caps.author)))| == caps.author {
      GroupOfBlock(m, caps, AUTHOR, caps.author, 0, y, s, i);
    }
  }

  // the books the caps would have admitted instead

  ghost function Max(a: nat, b: nat): nat {
    if a < b then b else a
  }

  ghost function Instead(m: nat, caps: Caps): set<Candidate>
    requires caps.category >= 1 && caps.author >= 1
  {
    set x | x in UnluckyPool(m, caps) && x.id >= Max(Full(m, caps.category), Full(m, caps.author))
  }

  lemma PoolIds(m: nat, caps: Caps)
    requires caps.category >= 1 && caps.author >= 1
    ensures forall x :: x in UnluckyPool(m, caps) ==> 0 <= x.id < |UnluckyPool(m, caps)| && x == Unlucky(m, caps, x.id)
    ensures forall i: nat :: i < |UnluckyPool(m, caps)| ==> Unlucky(m, caps, i) in UnluckyPool(m, caps)
  {
    var pool := UnluckyPool(m, caps);
    forall x | x in pool ensures 0 <= x.id < |pool| && x == Unlucky(m, caps, x.id) {
      var i :| 0 <= i < |pool| && pool[i] == x;
    }
    forall i: nat | i < |pool| ensures Unlucky(m, caps, i) in pool {
      assert pool[i] == Unlucky(m, caps, i);
    }
  }

  lemma InsteadByCategory(m: nat, caps: Caps)
    requires caps.category >= 1 && caps.author >= 1
    ensures GroupedBlocks(m, caps, CATEGORY, caps.category, m, Full(m, caps.category), Instead(m, caps))
  {
    FullBounds(m, caps.category);
    FullBounds(m, caps.author);
    PoolIds(m, caps);
    forall b | b in Instead(m, caps) && b.category.Some?
      ensures m <= b.id < m + Full(m, caps.category) && b == At(m, caps, m, b.id - m)
    {
      assert b == Unlucky(m, caps, b.id);
    }
  }

  lemma AtByAuthor(m: nat, caps: Caps, from: nat, k: nat)
    requires caps.category >= 1 && caps.author >= 1 && from == m + Full(m, caps.category)
    ensures At(m, caps, from, k) == Candidate(from + k, None, Grouped(k, Full(m, caps.author), caps.author))
  {
  }

  lemma InPool(m: nat, caps: Caps, i: nat)
    requires caps.category >= 1 && caps.author >= 1 && i < m + Full(m, caps.category) + Full(m, caps.author)
    ensures Unlucky(m, caps, i) in UnluckyPool(m, caps)
  {
    assert UnluckyPool(m, caps)[i] == Unlucky(m, caps, i);
  }

  lemma InsteadAt(m: nat, caps: Caps, from: nat, k: nat)
    requires caps.category >= 1 && caps.author >= 1 && from == m + Full(m, caps.category) && k < Full(m, caps.author)
    ensures At(m, caps, from, k) in Instead(m, caps) && At(m, caps, from, k).author == Some(Block(k, caps.author))
  {
    FullBounds(m, caps.author);
    InPool(m, caps, from + k);
    AtByAuthor(m, caps, from, k);
  }

  lemma InsteadByAuthor(m: nat, caps: Caps, from: nat)
    requires caps.category >= 1 && caps.author >= 1 && from == m + Full(m, caps.category)
    ensures GroupedBlocks(m, caps, AUTHOR, caps.author, from, Full(m, caps.author), Instead(m, caps))
  {
    var n := Full(m, caps.author);
    FullBounds(m, caps.category);
    FullBounds(m, caps.author);
    PoolIds(m, caps);
    forall k: nat | k < n
      ensures At(m, caps, from, k) in Instead(m, caps) && AUTHOR(At(m, caps, from, k)) == Some(Block(k, caps.author))
    {
      InsteadAt(m, caps, from, k);
    }
    forall b | b in Instead(m, caps) && b.author.Some? ensures from <= b.id < from + n && b == At(m, caps, from, b.id - from) {
      LastPart(m, caps, b.id);
    }
  }

  lemma LastPart(m: nat, caps: Caps, i: nat)
    requires caps.category >= 1 && caps.author >= 1
    requires i >= Full(m, caps.author) && Unlucky(m, caps, i).author.Some?
    ensures var from := m + Full(m, caps.category);
            from <= i < from + Full(m, caps.author) && Unlucky(m, caps, i) == At(m, caps, from, i - from)
  {
  }

  lemma InsteadKeepsCategory(m: nat, caps: Caps)
    requires caps.category >= 1 && caps.author >= 1
    ensures GroupsWithin(Instead(m, caps), CATEGORY, caps.category)
  {
    FullBounds(m, caps.category);
    InsteadByCategory(m, caps);
    BlocksKeepCap(m, caps, CATEGORY, caps.category, m, Full(m, caps.category), Instead(m, caps));
  }

  lemma InsteadKeepsAuthor(m: nat, caps: Caps)
    requires caps.category >= 1 && caps.author >= 1
    ensures GroupsWithin(Instead(m, caps), AUTHOR, caps.author)
  {
    FullBounds(m, caps.author);
    var from := m + Full(m, caps.category);
    InsteadByAuthor(m, caps, from);
    BlocksKeepCap(m, caps, AUTHOR, caps.author, from, Full(m, caps.author), Instead(m, caps));
  }

  lemma {:induction false} IdsFrom(m: nat, caps: Caps, from: nat)
    requires caps.category >= 1 && caps.author >= 1 && from <= |UnluckyPool(m, caps)|
    ensures |set x | x in UnluckyPool(m, caps) && x.id >= from| == |UnluckyPool(m, caps)| - from
    decreases |UnluckyPool(m, caps)| - from
  {
    var pool := UnluckyPool(m, caps);
    var s := set x | x in pool && x.id >= from;
    PoolIds(m, caps);
    if from < |pool| {
      IdsFrom(m, caps, from + 1);
      assert pool[from] in pool;
      assert s == (set x | x in pool && x.id >= from + 1) + {pool[from]};
    } else {
      assert s == {};
    }
  }

  /** They keep both caps, and there are as many as the bound says. */
  lemma InsteadIsFeasible(m: nat, caps: Caps)
    requires caps.category >= 1 && caps.author >= 1
    ensures WithinCaps(Instead(m, caps), caps) && |Instead(m, caps)| == Blocked(m + 1, caps)
  {
    InsteadKeepsCategory(m, caps);
    InsteadKeepsAuthor(m, caps);
    InsteadSize(m, caps);
  }

  lemma InsteadSize(m: nat, caps: Caps)
    requires caps.category >= 1 && caps.author >= 1
    ensures |Instead(m, caps)| == Blocked(m + 1, caps)
  {
    FullBounds(m, caps.category);
    FullBounds(m, caps.author);
    IdsFrom(m, caps, Max(Full(m, caps.category), Full(m, caps.author)));
  }

  // the run that meets the unlucky picks first

  lemma {:induction false} GreedyTakesAll(picked: seq<Candidate>, items: seq<Candidate>, limit: nat, caps: Caps)
    requires WithinCaps(Elements(picked + items), caps) && DistinctIds(picked + items) && |picked + items| <= limit
    ensures Greedy(items, limit, caps, picked) == picked + items
    decreases |items|
  {
    if items != [] {
      var x := items[0];
      assert picked + items == (picked + [x]) + items[1..];
      NextIsAdmissible(picked, x, picked + items, caps);
      GreedyTakesAll(picked + [x], items[1..], limit, caps);
    } else {
      assert picked + items == picked;
    }
  }

  lemma NextIsAdmissible(picked: seq<Candidate>, x: Candidate, all: seq<Candidate>, caps: Caps)
    requires picked + [x] <= all && WithinCaps(Elements(all), caps) && DistinctIds(all)
    ensures Admissible(picked, caps, x)
  {
    assert x == all[|picked|] && forall i :: 0 <= i < |picked| ==> picked[i] == all[i];
    assert x in Elements(all) && x !in picked;
    IdsMember(picked, x.id);
    RoomFor(picked, x, Elements(all), CATEGORY, caps.category);
    RoomFor(picked, x, Elements(all), AUTHOR, caps.author);
  }

  lemma RoomFor(picked: seq<Candidate>, x: Candidate, all: set<Candidate>, of: Candidate -> Option<int>, cap: nat)
    requires x !in picked && x in all && Elements(picked) <= all && GroupsWithin(all, of, cap)
    ensures !GroupFull(Elements(picked), of, cap, x)
  {
    assert Group(Elements(picked), of, of(x)) + {x} <= Group(all, of, of(x));
    SubsetSize(Group(Elements(picked), of, of(x)) + {x}, Group(all, of, of(x)));
  }

  /** What the greedy phases meet first and can take together stays on the page. */
  lemma FirstStay(first: seq<Candidate>, rest: seq<Candidate>, pool: seq<Candidate>, limit: nat, caps: Caps)
    requires WithinCaps(Elements(first), caps) && DistinctIds(first) && DistinctIds(pool) && |first| <= limit
    ensures first <= Pick(first + rest, pool, limit, caps)
  {
    var none: seq<Candidate> := [];
    assert none + first == first;
    GreedyTakesAll(none, first, limit, caps);
    GreedyInPhases(first, rest + pool, limit, caps, none);
    assert first + (rest + pool) == first + rest + pool;
    GreedyInvariant(rest + pool, limit, caps, first);
    FillInvariant(pool, limit, Greedy(rest + pool, limit, caps, first));
  }

  lemma PoolIsDistinct(m: nat, caps: Caps)
    requires caps.category >= 1 && caps.author >= 1
    ensures DistinctIds(UnluckyPool(m, caps)) && DistinctIds(Picks(m, caps)) && |Picks(m, caps)| == m
    ensures forall x :: x in UnluckyPool(m, caps) ==> (x in Picks(m, caps) <==> x.id < m)
    ensures forall x :: x in Picks(m, caps) ==> x in UnluckyPool(m, caps)
  {
    PoolIds(m, caps);
    var pool, picks := UnluckyPool(m, caps), Picks(m, caps);
    forall x | x in pool ensures x in picks <==> x.id < m {
      assert x.id < m ==> picks[x.id] == x;
    }
  }

  /** One more book of the pool breaks a cap. */
  lemma OneMoreBreaksCap(m: nat, caps: Caps, s: set<Candidate>, x: Candidate)
    requires caps.category >= 1 && caps.author >= 1
    requires Elements(Picks(m, caps)) <= s && x in s && x in UnluckyPool(m, caps) && x !in Picks(m, caps)
    ensures !WithinCaps(s, caps)
  {
    PoolIds(m, caps);
    PoolIsDistinct(m, caps);
    PicksAreFull(m, caps);
    var picks := Elements(Picks(m, caps));
    if x.id < m + Full(m, caps.category) {
      Overfull(picks, s, x, CATEGORY, caps.category);
    } else {
      Overfull(picks, s, x, AUTHOR, caps.author);
    }
  }

  lemma Overfull(picks: set<Candidate>, s: set<Candidate>, x: Candidate, of: Candidate -> Option<int>, cap: nat)
    requires picks <= s && x in s && x !in picks && Counted(of(x)) && |Group(picks, of, of(x))| == cap
    ensures !GroupsWithin(s, of, cap)
  {
    assert Group(picks, of, of(x)) + {x} <= Group(s, of, of(x));
    SubsetSize(Group(picks, of, of(x)) + {x}, Group(s, of, of(x)));
  }

  /** The draws of one call: the unlucky picks, and the first of them again as often as is drawn. */
  lemma UnluckyDraws(m: nat, caps: Caps, limit: nat) returns (draws: seq<Candidate>, rest: seq<Candidate>)
    requires caps.category >= 1 && caps.author >= 1 && 1 <= m <= limit
    ensures IsDraw(draws, UnluckyPool(m, caps), limit * CANDIDATE_MULTIPLIER)
    ensures Sample(UnluckyPool(m, caps), limit * CANDIDATE_MULTIPLIER, draws, ID) == Picks(m, caps) + rest
    ensures forall x :: x in rest ==> x in UnluckyPool(m, caps)
  {
    var pool, picks, n := UnluckyPool(m, caps), Picks(m, caps), limit * CANDIDATE_MULTIPLIER;
    PoolIsDistinct(m, caps);
    var later := seq(Min(n * POOL_MULTIPLIER, |pool|) - m, _ => picks[0]);
    draws := picks + later;
    assert picks[0] in picks;
    SampleIsFull(pool, n, draws, ID);
    KeysSize(pool, ID);
    SampleBegins(pool, n, picks, later, ID);
    var sample := Sample(pool, n, draws, ID);
    rest := sample[m..];
    assert sample == picks + rest;
    forall x | x in rest ensures x in pool {
      assert x in sample;
    }
  }

  /** With those draws the page breaks a cap, although as many books as the bound says obey both. */
  lemma TooFewBreakCaps(limit: nat, caps: Caps) returns (draws: seq<Candidate>)
    requires caps.category >= 1 && caps.author >= 1 && limit > Min(caps.category, caps.author)
    ensures var pool := UnluckyPool(limit - 1, caps);
            && DistinctIds(pool) && IsDraw(draws, pool, limit * CANDIDATE_MULTIPLIER)
            && !WithinCaps(Elements(Pick(Sample(pool, limit * CANDIDATE_MULTIPLIER, draws, ID), pool, limit, caps)), caps)
  {
    var m := limit - 1;
    var pool, picks := UnluckyPool(m, caps), Picks(m, caps);
    var rest;
    draws, rest := UnluckyDraws(m, caps, limit);
    PoolIsDistinct(m, caps);
    PicksAreFull(m, caps);
    FirstStay(picks, rest, pool, limit, caps);
    var r := Pick(picks + rest, pool, limit, caps);
    PickIsFull(picks + rest, pool, limit, caps);
    PrefixElements(picks, r);
    assert |pool| >= limit;
    assert r[m] in pool && r[m] !in picks by {
      assert r[m] in r;
      NotInPrefix(r, m);
    }
    assert r[m] in Elements(r);
    OneMoreBreaksCap(m, caps, Elements(r), r[m]);
  }

  lemma PrefixElements(a: seq<Candidate>, b: seq<Candidate>)
    requires a <= b
    ensures Elements(a) <= Elements(b)
  {
    forall x | x in a ensures x in b {
      var i :| 0 <= i < |a| && a[i] == x;
      assert b[i] == x;
    }
  }

  lemma NotInPrefix(r: seq<Candidate>, m: nat)
    requires DistinctIds(r) && m < |r|
    ensures r[m] !in r[..m]
  {
  }

  // ---- the threshold ----

  /** Whatever the pool and the draws: if n of its books obey both caps, the page does. */
  ghost predicate KeepsCaps(limit: nat, caps: Caps, n: nat) {
    forall pool, draws, other ::
      DistinctIds(pool) && IsDraw(draws, pool, limit * CANDIDATE_MULTIPLIER) && IsSelection(other, pool, caps, n) ==>
        WithinCaps(Elements(Pick(Sample(pool, limit * CANDIDATE_MULTIPLIER, draws, ID), pool, limit, caps)), caps)
  }

  ghost predicate IsSelection(other: set<Candidate>, pool: seq<Candidate>, caps: Caps, n: nat) {
    WithinCaps(other, caps) && |other| >= n && forall x :: x in other ==> x in pool
  }

  lemma FewBooksKeepCaps(s: set<Candidate>, caps: Caps)
    requires |s| <= Min(caps.category, caps.author)
    ensures WithinCaps(s, caps)
  {
    forall x | x in s
      ensures |Group(s, CATEGORY, x.category)| <= caps.category && |Group(s, AUTHOR, x.author)| <= caps.author
    {
      SubsetSize(Group(s, CATEGORY, x.category), s);
      SubsetSize(Group(s, AUTHOR, x.author), s);
    }
  }

  /**
   * The threshold, for all caps: n admissible books in the pool guarantee a page within the caps if and
   * only if n exceeds the bound, or the page is so short that no cap can be broken.
   */
  lemma ThresholdIsSharp(limit: nat, caps: Caps, n: nat)
    requires limit >= 1 && caps.category >= 1 && caps.author >= 1
    ensures KeepsCaps(limit, caps, n) <==> n > Blocked(limit, caps) || limit <= Min(caps.category, caps.author)
  {
    if n > Blocked(limit, caps) || limit <= Min(caps.category, caps.author) {
      forall pool, draws, other |
        DistinctIds(pool) && IsDraw(draws, pool, limit * CANDIDATE_MULTIPLIER) && IsSelection(other, pool, caps, n)
        ensures WithinCaps(Elements(Pick(Sample(pool, limit * CANDIDATE_MULTIPLIER, draws, ID), pool, limit, caps)), caps)
      {
        var sampled := Sample(pool, limit * CANDIDATE_MULTIPLIER, draws, ID);
        SampleIsFull(pool, limit * CANDIDATE_MULTIPLIER, draws, ID);
        if n > Blocked(limit, caps) {
          EnoughKeepsCaps(sampled, pool, limit, caps, other);
        } else {
          PickIsFull(sampled, pool, limit, caps);
          DistinctCount(Pick(sampled, pool, limit, caps));
          FewBooksKeepCaps(Elements(Pick(sampled, pool, limit, caps)), caps);
        }
      }
    } else {
      var draws := TooFewBreakCaps(limit, caps);
      var pool := UnluckyPool(limit - 1, caps);
      InsteadIsFeasible(limit - 1, caps);
      assert IsSelection(Instead(limit - 1, caps), pool, caps, n);
    }
  }

  lemma {:induction false} FullOfTwo(m: nat)
    ensures Full(m, 2) == m - m % 2
  {
    if m >= 2 {
      FullOfTwo(m - 2);
    }
  }

  /**
   * With the caps the program uses and an even page of four books or more: 2 * limit - 2 admissible
   * books are enough, one fewer is not. It asks for pages of eight and of six.
   */
  lemma DefaultThreshold(limit: nat, n: nat)
    requires limit >= 4 && limit % 2 == 0
    ensures KeepsCaps(limit, DEFAULT_CAPS, n) <==> n >= 2 * limit - 2
  {
    FullOfTwo(limit - 1);
    ThresholdIsSharp(limit, DEFAULT_CAPS, n);
  }
}
