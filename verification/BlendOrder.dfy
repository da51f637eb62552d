/**
 * Which source a slot of the blended page is filled from, and the order of the page: the i-th book comes
 * from the i-th slot's source, in that source's order, as long as the sources last and share no book.
 */
module BlendOrder {
  import opened Sequences
  import opened Blender

  // ---- one slot ----

  predicate HasUnseen(queue: seq<int>, seen: set<int>) {
    exists x :: x in queue && x !in seen
  }

  predicate IsFirstUnseen(queue: seq<int>, seen: set<int>, i: nat) {
    i < |queue| && queue[i] !in seen && forall j :: 0 <= j < i ==> queue[j] in seen
  }

  /** The slot's own source, or the first of the four, in their fixed order, that has an unseen book. */
  function SourceFor(preferred: Slot, q: Queues, seen: set<int>): Option<Slot> {
    if HasUnseen(q.Of(preferred), seen) then Some(preferred)
    else if HasUnseen(q.personalized, seen) then Some(Personalized)
    else if HasUnseen(q.popular, seen) then Some(Popular)
    else if HasUnseen(q.newest, seen) then Some(New)
    else if HasUnseen(q.exploration, seen) then Some(Exploration)
    else None
  }

  lemma {:induction false} NoneUnseen(queue: seq<int>, seen: set<int>)
    requires !HasUnseen(queue, seen)
    ensures DropSeen(queue, seen) == []
  {
    if queue != [] {
      var head := queue[0];
      assert head in queue;
      assert head in seen;
      assert forall x :: x in queue[1..] ==> x in queue;
      NoneUnseen(queue[1..], seen);
    }
  }

  lemma {:induction false} FirstUnseenAt(queue: seq<int>, seen: set<int>) returns (i: nat)
    requires HasUnseen(queue, seen)
    ensures IsFirstUnseen(queue, seen, i) && DropSeen(queue, seen) == queue[i..]
  {
    if queue[0] in seen {
      var x :| x in queue && x !in seen;
      assert x in queue[1..];
      i := FirstUnseenAt(queue[1..], seen);
      i := i + 1;
    } else {
      i := 0;
    }
  }

  /** The first source along the order that has an unseen book. */
  function FirstAlong(order: seq<Slot>, q: Queues, seen: set<int>): Option<Slot> {
    if order == [] then None
    else if HasUnseen(q.Of(order[0]), seen) then Some(order[0])
    else FirstAlong(order[1..], q, seen)
  }

  /** What a pop took, from where, and what it left of that queue. */
  ghost predicate TakenFrom(q: Queues, seen: set<int>, slot: Slot, id: Option<int>, q': Queues) {
    exists i: nat :: IsFirstUnseen(q.Of(slot), seen, i) && id == Some(q.Of(slot)[i]) && q'.Of(slot) == q.Of(slot)[i + 1..]
  }

  lemma {:induction false} PopAlongTakes(order: seq<Slot>, q: Queues, seen: set<int>)
    requires forall i, j :: 0 <= i < j < |order| ==> order[i] != order[j]
    ensures var (id, q') := Pop(order, q, seen);
            && (match FirstAlong(order, q, seen)
                case None => id.None?
                case Some(slot) => TakenFrom(q, seen, slot, id, q'))
            && forall s: Slot :: s !in order ==> q'.Of(s) == q.Of(s)
  {
    if order != [] {
      var slot := order[0];
      if HasUnseen(q.Of(slot), seen) {
        var i := FirstUnseenAt(q.Of(slot), seen);
        assert q.Of(slot)[i..][1..] == q.Of(slot)[i + 1..];
        assert TakenFrom(q, seen, slot, Pop(order, q, seen).0, Pop(order, q, seen).1);
      } else {
        NoneUnseen(q.Of(slot), seen);
        var q1 := q.Put(slot, []);
        PopAlongTakes(order[1..], q1, seen);
        SameAlong(order[1..], q, q1, seen);
      }
    }
  }

  lemma {:induction false} SameAlong(order: seq<Slot>, q: Queues, q': Queues, seen: set<int>)
    requires forall s :: s in order ==> q.Of(s) == q'.Of(s)
    ensures FirstAlong(order, q, seen) == FirstAlong(order, q', seen)
    ensures FirstAlong(order, q, seen).Some? ==> FirstAlong(order, q, seen).value in order
  {
    if order != [] {
      SameAlong(order[1..], q, q', seen);
    }
  }

  lemma OrderOf(preferred: Slot)
    ensures SlotOrder(preferred) ==
            match preferred
            case Personalized => [Personalized, Popular, New, Exploration]
            case Popular => [Popular, Personalized, New, Exploration]
            case New => [New, Personalized, Popular, Exploration]
            case Exploration => [Exploration, Personalized, Popular, New]
  {
    assert FALLBACK_ORDER[1..] == [Popular, New, Exploration];
    assert [Popular, New, Exploration][1..] == [New, Exploration] && [New, Exploration][1..] == [Exploration];
    assert [Exploration][1..] == [];
    assert Blender.Without(preferred, [Exploration]) == if preferred == Exploration then [] else [Exploration];
    assert Blender.Without(preferred, [New, Exploration])
        == (if preferred == New then [] else [New]) + Blender.Without(preferred, [Exploration]);
    assert Blender.Without(preferred, [Popular, New, Exploration])
        == (if preferred == Popular then [] else [Popular]) + Blender.Without(preferred, [New, Exploration]);
  }

  lemma AlongFour(a: Slot, b: Slot, c: Slot, d: Slot, q: Queues, seen: set<int>)
    ensures FirstAlong([a, b, c, d], q, seen) ==
            if HasUnseen(q.Of(a), seen) then Some(a)
            else if HasUnseen(q.Of(b), seen) then Some(b)
            else if HasUnseen(q.Of(c), seen) then Some(c)
            else if HasUnseen(q.Of(d), seen) then Some(d)
            else None
  {
    assert [a, b, c, d][1..] == [b, c, d] && [b, c, d][1..] == [c, d] && [c, d][1..] == [d];
    assert FirstAlong([d], q, seen) == if HasUnseen(q.Of(d), seen) then Some(d) else None;
    assert FirstAlong([c, d], q, seen) == if HasUnseen(q.Of(c), seen) then Some(c) else FirstAlong([d], q, seen);
    assert FirstAlong([b, c, d], q, seen) == if HasUnseen(q.Of(b), seen) then Some(b) else FirstAlong([c, d], q, seen);
  }

  lemma SourceIsFirstAlong(preferred: Slot, q: Queues, seen: set<int>)
    ensures FirstAlong(SlotOrder(preferred), q, seen) == SourceFor(preferred, q, seen)
  {
    OrderOf(preferred);
    match preferred
    case Personalized => AlongFour(Personalized, Popular, New, Exploration, q, seen);
    case Popular => AlongFour(Popular, Personalized, New, Exploration, q, seen);
    case New => AlongFour(New, Personalized, Popular, Exploration, q, seen);
    case Exploration => AlongFour(Exploration, Personalized, Popular, New, q, seen);
  }

  /**
   * A slot takes the first unseen book of its own source; if that has none, of the first of Personalized,
   * Popular, New and Exploration that has one; and it stays empty exactly if none of them has.
   */
  lemma SlotTakesExactly(preferred: Slot, q: Queues, seen: set<int>)
    ensures var (id, q') := Pop(SlotOrder(preferred), q, seen);
            match SourceFor(preferred, q, seen)
            case None => id.None?
            case Some(slot) => TakenFrom(q, seen, slot, id, q')
  {
    SourceIsFirstAlong(preferred, q, seen);
    OrderOf(preferred);
    PopAlongTakes(SlotOrder(preferred), q, seen);
  }

  // ---- the whole page ----

  /** No book comes from two places. */
  ghost predicate AllDifferent(q: Queues) {
    && (forall s: Slot :: Distinct(q.Of(s)))
    && forall s: Slot, s': Slot :: s != s' ==> Elements(q.Of(s)) !! Elements(q.Of(s'))
  }

  lemma TakeHead(slot: Slot, q: Queues, seen: set<int>)
    requires q.Of(slot) != [] && q.Of(slot)[0] !in seen
    ensures Pop(SlotOrder(slot), q, seen) == (Some(q.Of(slot)[0]), q.Put(slot, q.Of(slot)[1..]))
  {
    assert SlotOrder(slot) != [] && SlotOrder(slot)[0] == slot;
    assert DropSeen(q.Of(slot), seen) == q.Of(slot);
  }

  lemma TailIsPart(queue: seq<int>)
    requires queue != [] && Distinct(queue)
    ensures Elements(queue[1..]) <= Elements(queue) && queue[0] !in queue[1..] && Distinct(queue[1..])
    ensures queue[0] in Elements(queue)
  {
  }

  lemma TailDiffers(slot: Slot, q: Queues)
    requires AllDifferent(q) && q.Of(slot) != []
    ensures var q' := q.Put(slot, q.Of(slot)[1..]);
            && AllDifferent(q') && Offered(q') <= Offered(q)
            && q.Of(slot)[0] in Offered(q) && q.Of(slot)[0] !in Offered(q')
  {
    var head, q' := q.Of(slot)[0], q.Put(slot, q.Of(slot)[1..]);
    TailIsPart(q.Of(slot));
    forall s: Slot ensures Elements(q'.Of(s)) <= Elements(q.Of(s)) && Distinct(q'.Of(s)) {
    }
    forall s: Slot ensures head !in Elements(q'.Of(s)) {
    }
    assert head !in Elements(q'.Of(Personalized)) + Elements(q'.Of(Popular)) + Elements(q'.Of(New)) + Elements(q'.Of(Exploration));
    assert forall s: Slot, s': Slot :: s != s' ==> Elements(q'.Of(s)) !! Elements(q'.Of(s'));
  }

  /** The i-th book is the next of the i-th slot's source. */
  ghost predicate InPlace(pattern: seq<Slot>, q: Queues, rest: seq<int>, i: nat)
    requires i < |pattern| == |rest|
  {
    var n := Occurrences(pattern[..i], pattern[i]);
    n < |q.Of(pattern[i])| && rest[i] == q.Of(pattern[i])[n]
  }

  lemma PlaceShifts(pattern: seq<Slot>, q: Queues, rest: seq<int>, i: nat)
    requires 0 < i < |pattern| == |rest| && q.Of(pattern[0]) != []
    requires InPlace(pattern[1..], q.Put(pattern[0], q.Of(pattern[0])[1..]), rest[1..], i - 1)
    ensures InPlace(pattern, q, rest, i)
  {
    assert pattern[..i][1..] == pattern[1..][..i - 1] && pattern[i] == pattern[1..][i - 1];
  }

  lemma AllInPlace(pattern: seq<Slot>, q: Queues, later: seq<int>)
    requires pattern != [] && |later| == |pattern| - 1 && q.Of(pattern[0]) != []
    requires forall i: nat :: i < |later| ==> InPlace(pattern[1..], q.Put(pattern[0], q.Of(pattern[0])[1..]), later, i)
    ensures forall i: nat :: i < |pattern| ==> InPlace(pattern, q, [q.Of(pattern[0])[0]] + later, i)
  {
    var rest := [q.Of(pattern[0])[0]] + later;
    assert rest[1..] == later;
    forall i: nat | i < |pattern| ensures InPlace(pattern, q, rest, i) {
      if i > 0 {
        PlaceShifts(pattern, q, rest, i);
      } else {
        assert Occurrences(pattern[..0], pattern[0]) == 0;
      }
    }
  }

  /** Room for the pattern, and nothing on the page is still to come. */
  ghost predicate Ready(pattern: seq<Slot>, q: Queues, page: seq<int>) {
    AllDifferent(q) && Elements(page) !! Offered(q) && forall s: Slot :: |q.Of(s)| >= Occurrences(pattern, s)
  }

  /** Slot by slot, the next book of the slot's source is there and not on the page yet. */
  ghost predicate HeadsAreNew(pattern: seq<Slot>, q: Queues, page: seq<int>)
    decreases |pattern|
  {
    pattern == [] ||
    (&& q.Of(pattern[0]) != [] && q.Of(pattern[0])[0] !in page
     && HeadsAreNew(pattern[1..], q.Put(pattern[0], q.Of(pattern[0])[1..]), page + [q.Of(pattern[0])[0]]))
  }

  lemma ReadyNext(pattern: seq<Slot>, q: Queues, page: seq<int>)
    requires pattern != [] && Ready(pattern, q, page)
    ensures q.Of(pattern[0]) != [] && q.Of(pattern[0])[0] !in page
    ensures Ready(pattern[1..], q.Put(pattern[0], q.Of(pattern[0])[1..]), page + [q.Of(pattern[0])[0]])
  {
    var slot := pattern[0];
    assert |q.Of(slot)| >= Occurrences(pattern, slot) >= 1;
    TailDiffers(slot, q);
    assert Elements(page + [q.Of(slot)[0]]) == Elements(page) + {q.Of(slot)[0]};
  }

  lemma {:induction false} ReadyHeads(pattern: seq<Slot>, q: Queues, page: seq<int>)
    requires Ready(pattern, q, page)
    ensures HeadsAreNew(pattern, q, page)
    decreases |pattern|
  {
    if pattern != [] {
      ReadyNext(pattern, q, page);
      ReadyHeads(pattern[1..], q.Put(pattern[0], q.Of(pattern[0])[1..]), page + [q.Of(pattern[0])[0]]);
    }
  }

  /** The slots' next books, one after the other. */
  function NextBooks(pattern: seq<Slot>, q: Queues): seq<int> {
    if pattern == [] || q.Of(pattern[0]) == [] then []
    else [q.Of(pattern[0])[0]] + NextBooks(pattern[1..], q.Put(pattern[0], q.Of(pattern[0])[1..]))
  }

  lemma BlendHead(pattern: seq<Slot>, q: Queues, page: seq<int>) returns (page': seq<int>, q': Queues, later: seq<int>)
    requires pattern != [] && HeadsAreNew(pattern, q, page)
    ensures HeadsAreNew(pattern[1..], q', page') && Blend(pattern, q, page) == Blend(pattern[1..], q', page')
    ensures later == NextBooks(pattern[1..], q') && page + NextBooks(pattern, q) == page' + later
  {
    var head := q.Of(pattern[0])[0];
    page', q' := page + [head], q.Put(pattern[0], q.Of(pattern[0])[1..]);
    later := NextBooks(pattern[1..], q');
    TakeHead(pattern[0], q, Elements(page));
    assert page' + later == page + ([head] + later);
  }

  lemma {:induction false} BlendInOrder(pattern: seq<Slot>, q: Queues, page: seq<int>)
    requires HeadsAreNew(pattern, q, page)
    ensures Blend(pattern, q, page) == page + NextBooks(pattern, q)
    decreases |pattern|
  {
    if pattern == [] {
      assert page + [] == page;
    } else {
      var page', q', later := BlendHead(pattern, q, page);
      BlendInOrder(pattern[1..], q', page');
    }
  }

  lemma {:induction false} NextBooksInPlace(pattern: seq<Slot>, q: Queues)
    requires forall s: Slot :: |q.Of(s)| >= Occurrences(pattern, s)
    ensures |NextBooks(pattern, q)| == |pattern|
    ensures forall i: nat :: i < |pattern| ==> InPlace(pattern, q, NextBooks(pattern, q), i)
  {
    if pattern != [] {
      assert |q.Of(pattern[0])| >= Occurrences(pattern, pattern[0]) >= 1;
      var q' := q.Put(pattern[0], q.Of(pattern[0])[1..]);
      NextBooksInPlace(pattern[1..], q');
      AllInPlace(pattern, q, NextBooks(pattern[1..], q'));
    }
  }

  /**
   * Four sources that share no book and fill their slots: the page has twenty books, and the i-th is the next
   * book of the source whose slot comes i-th.
   */
  lemma PageFollowsPattern(pattern: seq<Slot>, q: Queues)
    requires IsShuffledPattern(pattern) && AllDifferent(q)
    requires forall s: Slot :: |q.Of(s)| >= SlotCount(s)
    ensures |Page(pattern, q)| == 20
    ensures forall i: nat :: i < 20 ==> InPlace(pattern, q, Page(pattern, q), i)
  {
    ReadyHeads(pattern, q, []);
    BlendInOrder(pattern, q, []);
    NextBooksInPlace(pattern, q);
    assert [] + NextBooks(pattern, q) == NextBooks(pattern, q);
  }
}
