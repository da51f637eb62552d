/**
 * `BookMainRecoBlender`: twenty slots in shuffled order, each filled from its own source queue or,
 * when that is exhausted, from the fallback chain.
 */
module Blender {
  import opened Sequences

  datatype Slot = Personalized | Popular | New | Exploration

  /** The dict of deques: one queue of ids per slot. */
  datatype Queues = Queues(personalized: seq<int>, popular: seq<int>, newest: seq<int>, exploration: seq<int>) {
    function Of(slot: Slot): seq<int> {
      match slot
      case Personalized => personalized
      case Popular => popular
      case New => newest
      case Exploration => exploration
    }

    function Put(slot: Slot, queue: seq<int>): (r: Queues)
      ensures forall s: Slot :: r.Of(s) == if s == slot then queue else Of(s)
    {
      match slot
      case Personalized => this.(personalized := queue)
      case Popular => this.(popular := queue)
      case New => this.(newest := queue)
      case Exploration => this.(exploration := queue)
    }
  }

  function SlotCount(slot: Slot): nat {
    match slot
    case Personalized => 8
    case Popular => 6
    case New => 4
    case Exploration => 2
  }

  const PAGE_SIZE: nat := 20

  const FALLBACK_ORDER: seq<Slot> := [Personalized, Popular, New, Exploration]

  ghost function Occurrences(pattern: seq<Slot>, slot: Slot): nat {
    if pattern == [] then 0
    else (if pattern[0] == slot then 1 else 0) + Occurrences(pattern[1..], slot)
  }

  /** Any order `rng.shuffle` can leave the pattern in. */
  ghost predicate IsShuffledPattern(pattern: seq<Slot>) {
    && |pattern| == PAGE_SIZE
    && forall slot :: Occurrences(pattern, slot) == SlotCount(slot)
  }

  /** Every id any source offers. */
  ghost function Offered(q: Queues): set<int> {
    Elements(q.personalized) + Elements(q.popular) + Elements(q.newest) + Elements(q.exploration)
  }

  function Without(preferred: Slot, order: seq<Slot>): seq<Slot> {
    if order == [] then []
    else (if order[0] != preferred then [order[0]] else []) + Without(preferred, order[1..])
  }

  function SlotOrder(preferred: Slot): seq<Slot> {
    [preferred] + Without(preferred, FALLBACK_ORDER)
  }

  ghost function DropSeen(queue: seq<int>, seen: set<int>): seq<int> {
    if queue != [] && queue[0] in seen then DropSeen(queue[1..], seen) else queue
  }

  /** The first unseen id along the order, and the queues with everything in front of it popped. */
  ghost function Pop(order: seq<Slot>, q: Queues, seen: set<int>): (Option<int>, Queues) {
    if order == [] then (None, q)
    else
      var rest := DropSeen(q.Of(order[0]), seen);
      if rest == [] then Pop(order[1..], q.Put(order[0], []), seen)
      else (Some(rest[0]), q.Put(order[0], rest[1..]))
  }

  /** Fill the slots of the pattern one by one, after `page` is already taken. */
  ghost function Blend(pattern: seq<Slot>, q: Queues, page: seq<int>): seq<int> {
    if pattern == [] then page
    else
      var (id, q') := Pop(SlotOrder(pattern[0]), q, Elements(page));
      Blend(pattern[1..], q', if id.Some? then page + [id.value] else page)
  }

  // ---- what one pop does ----

  /** A queue after some pops: ids left from the front only, each of them seen. */
  ghost predicate QueuePopped(before: seq<int>, after: seq<int>, seen: set<int>) {
    before == after || (before != [] && before[0] in seen && QueuePopped(before[1..], after, seen))
  }

  ghost predicate Popped(q: Queues, q': Queues, seen: set<int>) {
    && QueuePopped(q.personalized, q'.personalized, seen)
    && QueuePopped(q.popular, q'.popular, seen)
    && QueuePopped(q.newest, q'.newest, seen)
    && QueuePopped(q.exploration, q'.exploration, seen)
  }

  lemma {:induction false} QueuePoppedTransitive(a: seq<int>, b: seq<int>, c: seq<int>, ab: set<int>, bc: set<int>)
    requires QueuePopped(a, b, ab) && QueuePopped(b, c, bc) && ab <= bc
    ensures QueuePopped(a, c, bc)
  {
    if a != b {
      QueuePoppedTransitive(a[1..], b, c, ab, bc);
    }
  }

  lemma PoppedTransitive(a: Queues, b: Queues, c: Queues, ab: set<int>, bc: set<int>)
    requires Popped(a, b, ab) && Popped(b, c, bc) && ab <= bc
    ensures Popped(a, c, bc)
  {
    QueuePoppedTransitive(a.personalized, b.personalized, c.personalized, ab, bc);
    QueuePoppedTransitive(a.popular, b.popular, c.popular, ab, bc);
    QueuePoppedTransitive(a.newest, b.newest, c.newest, ab, bc);
    QueuePoppedTransitive(a.exploration, b.exploration, c.exploration, ab, bc);
  }

  lemma {:induction false} QueuePoppedMembers(before: seq<int>, after: seq<int>, seen: set<int>)
    requires QueuePopped(before, after, seen)
    ensures |after| <= |before|
    ensures Elements(after) <= Elements(before) <= Elements(after) + seen
  {
    if before != after {
      QueuePoppedMembers(before[1..], after, seen);
      assert before == [before[0]] + before[1..];
      assert Elements(before) == {before[0]} + Elements(before[1..]);
    }
  }

  lemma OfferedShrinks(q: Queues, q': Queues, seen: set<int>)
    requires Popped(q, q', seen)
    ensures Offered(q') <= Offered(q) <= Offered(q') + seen
  {
    QueuePoppedMembers(q.personalized, q'.personalized, seen);
    QueuePoppedMembers(q.popular, q'.popular, seen);
    QueuePoppedMembers(q.newest, q'.newest, seen);
    QueuePoppedMembers(q.exploration, q'.exploration, seen);
  }

  lemma {:induction false} DropSeenPops(queue: seq<int>, seen: set<int>)
    ensures QueuePopped(queue, DropSeen(queue, seen), seen)
    ensures var rest := DropSeen(queue, seen); rest != [] ==> rest[0] !in seen && rest[0] in queue
  {
    if queue != [] && queue[0] in seen {
      DropSeenPops(queue[1..], seen);
      assert queue == [queue[0]] + queue[1..];
    }
  }

  /** Popping one more id than the seen ones: that id is now seen, too. */
  lemma TakeFirstPops(queue: seq<int>, seen: set<int>)
    requires DropSeen(queue, seen) != []
    ensures var rest := DropSeen(queue, seen);
            QueuePopped(queue, rest[1..], seen + {rest[0]})
  {
    var rest := DropSeen(queue, seen);
    DropSeenPops(queue, seen);
    assert QueuePopped(rest, rest[1..], seen + {rest[0]}) by {
      assert QueuePopped(rest[1..], rest[1..], seen + {rest[0]});
    }
    QueuePoppedTransitive(queue, rest, rest[1..], seen, seen + {rest[0]});
  }

  lemma PutPops(q: Queues, slot: Slot, queue: seq<int>, seen: set<int>)
    requires QueuePopped(q.Of(slot), queue, seen)
    ensures Popped(q, q.Put(slot, queue), seen)
  {
  }

  /** The ids seen once a pop has returned. */
  ghost function SeenWith(seen: set<int>, id: Option<int>): set<int> {
    if id.Some? then seen + {id.value} else seen
  }

  lemma {:induction false} PopEffect(order: seq<Slot>, q: Queues, seen: set<int>)
    ensures var (id, q') := Pop(order, q, seen);
            && (id.Some? ==> id.value !in seen && id.value in Offered(q))
            && Popped(q, q', SeenWith(seen, id))
            && (id.None? ==> forall slot :: slot in order ==> q'.Of(slot) == [])
  {
    if order != [] {
      var slot := order[0];
      DropSeenPops(q.Of(slot), seen);
      if DropSeen(q.Of(slot), seen) == [] {
        var q1 := q.Put(slot, []);
        PutPops(q, slot, [], seen);
        PopEffect(order[1..], q1, seen);
        var (id, q') := Pop(order[1..], q1, seen);
        PoppedTransitive(q, q1, q', seen, SeenWith(seen, id));
        OfferedShrinks(q, q1, seen);
        EmptyStaysEmpty(q1, q', SeenWith(seen, id), slot);
      } else {
        TakeFirstPops(q.Of(slot), seen);
        PutPops(q, slot, DropSeen(q.Of(slot), seen)[1..], seen + {DropSeen(q.Of(slot), seen)[0]});
      }
    }
  }

  lemma EmptyStaysEmpty(q: Queues, q': Queues, seen: set<int>, slot: Slot)
    requires Popped(q, q', seen) && q.Of(slot) == []
    ensures q'.Of(slot) == []
  {
  }

  /** The preferred queue, unless empty, loses at least one id. */
  lemma PopConsumes(order: seq<Slot>, q: Queues, seen: set<int>)
    requires order != [] && q.Of(order[0]) != []
    ensures |Pop(order, q, seen).1.Of(order[0])| < |q.Of(order[0])|
  {
    var slot := order[0];
    DropSeenPops(q.Of(slot), seen);
    if DropSeen(q.Of(slot), seen) == [] {
      var q1 := q.Put(slot, []);
      PopEffect(order[1..], q1, seen);
      var (id, q') := Pop(order[1..], q1, seen);
      EmptyStaysEmpty(q1, q', SeenWith(seen, id), slot);
    } else {
      QueuePoppedMembers(q.Of(slot), DropSeen(q.Of(slot), seen), seen);
    }
  }

  lemma SlotOrderIsComplete(preferred: Slot)
    ensures forall slot: Slot :: slot in SlotOrder(preferred)
  {
    WithoutKeepsOthers(preferred, FALLBACK_ORDER);
    forall slot: Slot ensures slot in SlotOrder(preferred) {
      match slot
      case Personalized => assert FALLBACK_ORDER[0] == slot;
      case Popular => assert FALLBACK_ORDER[1] == slot;
      case New => assert FALLBACK_ORDER[2] == slot;
      case Exploration => assert FALLBACK_ORDER[3] == slot;
    }
  }

  lemma {:induction false} WithoutKeepsOthers(preferred: Slot, order: seq<Slot>)
    ensures forall slot :: slot in order && slot != preferred ==> slot in Without(preferred, order)
  {
    if order != [] {
      WithoutKeepsOthers(preferred, order[1..]);
    }
  }

  // ---- the whole page ----

  /** What filling one slot guarantees, whichever queue it came from. */
  ghost predicate SlotFilled(slot: Slot, q: Queues, page: seq<int>, q': Queues, page': seq<int>) {
    && page <= page' && |page'| <= |page| + 1 && Distinct(page')
    && Elements(page') <= Elements(page) + Offered(q)
    && Popped(q, q', Elements(page'))
    && (q.Of(slot) != [] ==> |q'.Of(slot)| < |q.Of(slot)|)
    && (page' == page ==> Offered(q') == {})
  }

  lemma AllEmpty(q: Queues, order: seq<Slot>)
    requires forall slot :: slot in order ==> q.Of(slot) == []
    requires forall slot: Slot :: slot in order
    ensures Offered(q) == {}
  {
    assert q.Of(Personalized) == q.Of(Popular) == q.Of(New) == q.Of(Exploration) == [];
  }

  lemma FirstSlot(pattern: seq<Slot>, q: Queues, page: seq<int>) returns (q': Queues, page': seq<int>)
    requires pattern != [] && Distinct(page)
    ensures SlotFilled(pattern[0], q, page, q', page')
    ensures Blend(pattern, q, page) == Blend(pattern[1..], q', page')
  {
    var order := SlotOrder(pattern[0]);
    var (id, rest) := Pop(order, q, Elements(page));
    q', page' := rest, if id.Some? then page + [id.value] else page;
    PopEffect(order, q, Elements(page));
    if q.Of(pattern[0]) != [] {
      PopConsumes(order, q, Elements(page));
    }
    if id.Some? {
      assert Elements(page') == SeenWith(Elements(page), id);
    } else {
      SlotOrderIsComplete(pattern[0]);
      AllEmpty(q', order);
    }
  }

  /** Distinct ids, at most one per slot, and all of the offered ids unless every slot is filled. */
  lemma {:induction false} BlendInvariant(pattern: seq<Slot>, q: Queues, page: seq<int>)
    requires Distinct(page)
    ensures var r := Blend(pattern, q, page);
            && page <= r && Distinct(r)
            && |r| <= |page| + |pattern|
            && Elements(page) <= Elements(r) <= Elements(page) + Offered(q)
            && (|r| < |page| + |pattern| ==> Offered(q) <= Elements(r))
  {
    if pattern != [] {
      var q', page' := FirstSlot(pattern, q, page);
      BlendInvariant(pattern[1..], q', page');
      OfferedShrinks(q, q', Elements(page'));
    }
  }

  /** The first n ids of the queue (or all of them) are shown. */
  ghost predicate PrefixShown(queue: seq<int>, n: nat, shown: set<int>) {
    n == 0 || queue == [] || (queue[0] in shown && PrefixShown(queue[1..], n - 1, shown))
  }

  lemma {:induction false} PrefixShownGrows(before: seq<int>, after: seq<int>, seen: set<int>, n: nat, shown: set<int>)
    requires QueuePopped(before, after, seen) && PrefixShown(after, n, shown) && seen <= shown
    ensures PrefixShown(before, n, shown)
    ensures |after| < |before| || before == [] ==> PrefixShown(before, n + 1, shown)
  {
    if before != after {
      PrefixShownGrows(before[1..], after, seen, n, shown);
      if n > 0 {
        PrefixShownWeaken(before[1..], n, shown);
      }
    }
  }

  lemma {:induction false} PrefixShownWeaken(queue: seq<int>, n: nat, shown: set<int>)
    requires n > 0 && PrefixShown(queue, n, shown)
    ensures PrefixShown(queue, n - 1, shown)
  {
    if n > 1 && queue != [] {
      PrefixShownWeaken(queue[1..], n - 1, shown);
    }
  }

  lemma PrefixStep(q: Queues, q': Queues, seen: set<int>, slot: Slot, n: nat, shown: set<int>)
    requires Popped(q, q', seen) && PrefixShown(q'.Of(slot), n, shown) && seen <= shown
    ensures PrefixShown(q.Of(slot), n, shown)
    ensures |q'.Of(slot)| < |q.Of(slot)| || q.Of(slot) == [] ==> PrefixShown(q.Of(slot), n + 1, shown)
  {
    PrefixShownGrows(q.Of(slot), q'.Of(slot), seen, n, shown);
  }

  /** Each slot of a source consumes at least one id of that source's queue, if it has any left. */
  lemma {:induction false} BlendMeetsQuota(pattern: seq<Slot>, q: Queues, page: seq<int>, slot: Slot)
    requires Distinct(page)
    ensures PrefixShown(q.Of(slot), Occurrences(pattern, slot), Elements(Blend(pattern, q, page)))
  {
    if pattern != [] {
      var q', page' := FirstSlot(pattern, q, page);
      BlendMeetsQuota(pattern[1..], q', page', slot);
      BlendInvariant(pattern[1..], q', page');
      var n, shown := Occurrences(pattern[1..], slot), Elements(Blend(pattern[1..], q', page'));
      PrefixStep(q, q', Elements(page'), slot, n, shown);
      assert Occurrences(pattern, slot) == if pattern[0] == slot then n + 1 else n;
      assert PrefixShown(q.Of(slot), Occurrences(pattern, slot), shown);
    }
  }

  lemma {:induction false} PrefixShownAt(queue: seq<int>, n: nat, shown: set<int>)
    requires PrefixShown(queue, n, shown)
    ensures forall i :: 0 <= i < |queue| && i < n ==> queue[i] in shown
  {
    if n > 0 && queue != [] {
      PrefixShownAt(queue[1..], n - 1, shown);
    }
  }

  /** The page `mix` returns for a shuffled pattern. */
  ghost function Page(pattern: seq<Slot>, q: Queues): seq<int> {
    Blend(pattern, q, [])
  }

  lemma QuotaIsShown(pattern: seq<Slot>, q: Queues, slot: Slot)
    requires IsShuffledPattern(pattern)
    ensures forall i :: 0 <= i < |q.Of(slot)| && i < SlotCount(slot) ==> q.Of(slot)[i] in Page(pattern, q)
  {
    BlendMeetsQuota(pattern, q, [], slot);
    PrefixShownAt(q.Of(slot), SlotCount(slot), Elements(Page(pattern, q)));
  }

  lemma PageSize(pattern: seq<Slot>, q: Queues)
    requires IsShuffledPattern(pattern)
    ensures Distinct(Page(pattern, q)) && Elements(Page(pattern, q)) <= Offered(q)
    ensures |Page(pattern, q)| == Min(PAGE_SIZE, |Offered(q)|)
  {
    var r := Page(pattern, q);
    BlendInvariant(pattern, q, []);
    DistinctCount(r);
    SubsetSize(Elements(r), Offered(q));
    assert |r| <= |pattern|;
    if |r| < |pattern| {
      SubsetSize(Offered(q), Elements(r));
    }
  }

  /**
   * For any four lists and any shuffle: distinct offered ids, exactly min(20, number of distinct
   * ids) of them, among them the first SlotCount ids of every source.
   */
  lemma PageIsFull(pattern: seq<Slot>, q: Queues)
    requires IsShuffledPattern(pattern)
    ensures Distinct(Page(pattern, q)) && Elements(Page(pattern, q)) <= Offered(q)
    ensures |Page(pattern, q)| == Min(PAGE_SIZE, |Offered(q)|)
    ensures forall slot: Slot, i :: 0 <= i < |q.Of(slot)| && i < SlotCount(slot) ==> q.Of(slot)[i] in Page(pattern, q)
  {
    PageSize(pattern, q);
    forall slot: Slot, i | 0 <= i < |q.Of(slot)| && i < SlotCount(slot) ensures q.Of(slot)[i] in Page(pattern, q) {
      QuotaIsShown(pattern, q, slot);
    }
  }

  lemma SourceIsKept(pattern: seq<Slot>, q: Queues, slot: Slot)
    requires IsShuffledPattern(pattern) && |q.Of(slot)| <= SlotCount(slot)
    ensures Elements(q.Of(slot)) <= Elements(Page(pattern, q))
  {
    QuotaIsShown(pattern, q, slot);
  }

  /** When every source keeps to its slot count, the page is exactly the union of the sources. */
  lemma NothingIsDropped(pattern: seq<Slot>, q: Queues)
    requires IsShuffledPattern(pattern)
    requires forall slot: Slot :: |q.Of(slot)| <= SlotCount(slot)
    ensures Elements(Page(pattern, q)) == Offered(q)
  {
    SourceIsKept(pattern, q, Personalized);
    SourceIsKept(pattern, q, Popular);
    SourceIsKept(pattern, q, New);
    SourceIsKept(pattern, q, Exploration);
    BlendInvariant(pattern, q, []);
  }

  // ---- the code: queues are popped in place ----

  class SlotQueues {
    var queues: Queues

    constructor (queues: Queues)
      ensures this.queues == queues
    {
      this.queues := queues;
    }

    /** Pop one queue until an unseen id or the end. */
    method PopUnseen(slot: Slot, seen: set<int>) returns (id: Option<int>)
      modifies this
      ensures var rest := DropSeen(old(queues).Of(slot), seen);
              if rest == [] then id.None? && queues == old(queues).Put(slot, [])
              else id == Some(rest[0]) && queues == old(queues).Put(slot, rest[1..])
    {
      var queue := queues.Of(slot);
      while queue != []
        invariant queues == old(queues).Put(slot, queue)
        invariant DropSeen(old(queues).Of(slot), seen) == DropSeen(queue, seen)
        decreases |queue|
      {
        var candidate := queue[0];
        queue := queue[1..];
        queues := queues.Put(slot, queue);
        if candidate !in seen {
          return Some(candidate);
        }
      }
      return None;
    }

    method PopAlong(order: seq<Slot>, seen: set<int>) returns (id: Option<int>)
      modifies this
      ensures (id, queues) == Pop(order, old(queues), seen)
    {
      var todo := order;
      while todo != []
        invariant Pop(order, old(queues), seen) == Pop(todo, queues, seen)
        decreases |todo|
      {
        id := PopUnseen(todo[0], seen);
        if id.Some? {
          return id;
        }
        todo := todo[1..];
      }
      return None;
    }

    method PopFrom(preferred: Slot, seen: set<int>) returns (id: Option<int>)
      modifies this
      ensures (id, queues) == Pop(SlotOrder(preferred), old(queues), seen)
    {
      id := PopAlong(SlotOrder(preferred), seen);
    }
  }

  method Mix(slots: Queues, pattern: seq<Slot>) returns (result: seq<int>)
    requires IsShuffledPattern(pattern)
    ensures result == Page(pattern, slots)
  {
    var queues := new SlotQueues(slots);
    var seen: set<int> := {};
    result := [];
    var i := 0;
    while i < |pattern|
      invariant 0 <= i <= |pattern| && seen == Elements(result)
      invariant Page(pattern, slots) == Blend(pattern[i..], queues.queues, result)
    {
      var id := queues.PopFrom(pattern[i], seen);
      assert pattern[i..][1..] == pattern[i + 1..];
      if id.Some? {
        assert Elements(result + [id.value]) == Elements(result) + {id.value};
        result := result + [id.value];
        seen := seen + {id.value};
      }
      i := i + 1;
    }
  }
}
