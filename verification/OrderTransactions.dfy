/**
 * The order use cases as they run against the database: rows are changed in place inside a
 * transaction, and an error inside the block puts every row back.
 */
module OrderTransactions {
  import opened Sequences
  import opened Orders

  class Database {
    var users: set<int>
    var books: map<int, Book>
    var orders: seq<Order>
    var payments: seq<Payment>
    var cart: set<(int, int)>

    ghost function State(): Shop
      reads this
    {
      Shop(users, books, orders, payments, cart)
    }

    /** The loop of `BuyBooks.buy` takes the copies book by book; an error leaves the loop. */
    method TakeCopies(items: seq<Item>) returns (error: Option<Error>, total: nat, lines: seq<OrderItem>)
      modifies this`books
      ensures match Reserve(old(books), items)
              case Err(e) => error == Some(e)
              case Ok(left) =>
                && error.None? && books == left && ValidItems(old(books), items)
                && lines == Lines(old(books), items) && total == Total(lines)
    {
      ghost var start := books;
      total, lines := 0, [];
      var i := 0;
      assert items[0..] == items;
      while i < |items|
        modifies this`books
        invariant 0 <= i <= |items|
        invariant Reserve(start, items) == Reserve(books, items[i..])
        invariant books.Keys == start.Keys && forall b :: b in start ==> books[b].price == start[b].price
        invariant ValidItems(start, items[..i])
        invariant lines == Lines(start, items[..i]) && total == Total(lines)
      {
        var item := items[i];
        assert items[i..][0] == item && items[i..][1..] == items[i + 1..];
        if item.quantity <= 0 {
          return Some(QuantityInvalid), total, lines;
        }
        if item.bookId !in books || !books[item.bookId].available {
          return Some(BookNotAvailable(item.bookId)), total, lines;
        }
        if books[item.bookId].quantity < item.quantity {
          return Some(BookNotAvailable(item.bookId)), total, lines;
        }
        var price := books[item.bookId].price;
        books := Take(books, item.bookId, item.quantity);
        total := total + price * item.quantity;
        LinesAppend(start, items, i);
        lines := lines + [OrderItem(item.bookId, item.quantity, price)];
        assert lines[..|lines| - 1] == Lines(start, items[..i]);
        i := i + 1;
      }
      assert items[..|items|] == items && items[|items|..] == [];
      return None, total, lines;
    }

    /** `BuyBooks.buy`, transaction 1; an error inside puts every row back. */
    method ReserveOrder(userId: int, items: seq<Item>, locked: set<int>, now: int) returns (r: Result<nat>)
      modifies this
      ensures (r, State()) == Buy(old(State()), userId, items, locked, now)
    {
      if !(1 <= |items| <= 10) {
        return Err(ItemsLimitExceeded);
      }
      if userId !in users {
        return Err(UserNotFound);
      }
      if Busy(books, ItemIds(items), locked) {
        return Err(BooksBusy);
      }
      var saved := books;
      var error, total, lines := TakeCopies(items);
      if error.Some? {
        books := saved;
        return Err(error.value);
      }
      r := Ok(|orders|);
      payments := payments + [Payment(|orders|, total, PaymentPending, None, None)];
      orders := orders + [Order(userId, total, OrderPending, lines, now)];
    }

    /** `CancelOrder.cancel`: the order and its payment are changed before the books are locked. */
    method CancelOrder(orderId: nat, locked: set<int>) returns (r: Result<bool>)
      modifies this
      ensures (r, State()) == Cancel(old(State()), orderId, locked)
    {
      if orderId >= |orders| || orders[orderId].status != OrderPending {
        return Ok(false);
      }
      var savedOrders, savedPayments := orders, payments;
      var lines := orders[orderId].items;
      orders := orders[orderId := orders[orderId].(status := OrderCanceled)];
      FailPayment(orderId);
      if Busy(books, LineIds(lines), locked) {
        orders, payments := savedOrders, savedPayments;
        return Err(BooksBusy);
      }
      ghost var start := books;
      var i := 0;
      assert lines[0..] == lines;
      while i < |lines|
        modifies this`books
        invariant 0 <= i <= |lines|
        invariant Restock(start, lines) == Restock(books, lines[i..])
      {
        assert lines[i..][0] == lines[i] && lines[i..][1..] == lines[i + 1..];
        if lines[i].bookId in books {
          books := Give(books, lines[i].bookId, lines[i].quantity);
        }
        i := i + 1;
      }
      return Ok(true);
    }

    method FailPayment(orderId: nat)
      modifies this`payments
      ensures payments == FailPayments(old(payments), orderId)
    {
      var i := 0;
      while i < |payments|
        modifies this`payments
        invariant 0 <= i <= |payments| == |old(payments)|
        invariant forall k :: 0 <= k < i ==> payments[k] == FailPayments(old(payments), orderId)[k]
        invariant forall k :: i <= k < |payments| ==> payments[k] == old(payments)[k]
      {
        if payments[i].orderId == orderId && payments[i].status != PaymentSuccess {
          payments := payments[i := payments[i].(status := PaymentFailed)];
        }
        i := i + 1;
      }
    }

    /** `ConfirmOrderPayment.confirm`. */
    method ConfirmOrder(orderId: nat, paymentId: nat, intent: Option<string>)
      modifies this
      ensures State() == Confirm(old(State()), orderId, paymentId, intent)
    {
      if paymentId < |payments| {
        if payments[paymentId].status == PaymentSuccess {
          return;
        }
        payments := payments[paymentId := payments[paymentId].(status := PaymentSuccess, intent := intent)];
      }
      if orderId < |orders| {
        var order := orders[orderId];
        orders := orders[orderId := order.(status := OrderPaid)];
        cart := set row | row in cart && !(row.0 == order.userId && row.1 in LineIds(order.items));
      }
    }

    /** The whole of `BuyBooks.buy`; checkout is what Stripe answers, None when it raises. */
    method BuyBooks(userId: int, items: seq<Item>, locked: set<int>, now: int,
                    checkout: Option<string>, lockedAtCancel: set<int>) returns (r: Result<nat>, failed: bool)
      modifies this
      ensures r.Err? ==> !failed && State() == old(State())
      ensures r.Ok? ==> r.value == old(|orders|) < |orders| && failed == checkout.None?
      ensures var (reserved, s1) := Buy(old(State()), userId, items, locked, now);
              r == reserved
              && (r.Ok? ==> State() == if failed then Cancel(s1, r.value, lockedAtCancel).1
                                       else StoreCheckout(s1, old(|payments|), checkout.value))
      ensures r.Ok? && failed && orders[r.value].status != OrderPending ==>
                books == old(books) && orders[r.value].status == OrderCanceled
    {
      r := ReserveOrder(userId, items, locked, now);
      failed := false;
      if r.Ok? {
        failed := checkout.None?;
        FailedCheckoutHasNoEffect(old(State()), userId, items, locked, now, lockedAtCancel);
        if failed {
          var _ := CancelOrder(r.value, lockedAtCancel);
        } else {
          var paymentId := |payments| - 1;
          payments := payments[paymentId := payments[paymentId].(transaction := checkout)];
        }
      }
    }

    /** The body of the expiry task: each order in a transaction of its own, busy ones skipped. */
    method CancelExpired(cutoff: int, locks: nat -> set<int>) returns (canceled: nat)
      modifies this
      ensures (canceled, State()) == Sweep(old(State()), ExpiredIds(old(orders), cutoff), locks)
    {
      var ids := FindExpired(cutoff);
      canceled := 0;
      var i := 0;
      while i < |ids|
        invariant 0 <= i <= |ids|
        invariant (canceled, State()) == Sweep(old(State()), ids[..i], locks)
      {
        assert ids[..i + 1][..i] == ids[..i];
        var r := CancelOrder(ids[i], locks(ids[i]));
        if r == Ok(true) {
          canceled := canceled + 1;
        }
        i := i + 1;
      }
      assert ids[..|ids|] == ids;
    }

    method FindExpired(cutoff: int) returns (ids: seq<nat>)
      ensures ids == ExpiredIds(orders, cutoff)
    {
      ids := [];
      var i := 0;
      assert orders[..|orders|] == orders;
      while i < |orders| && |ids| < SWEEP_LIMIT
        invariant 0 <= i <= |orders|
        invariant ids == Expired(orders[..i], cutoff) && |ids| <= SWEEP_LIMIT
      {
        assert orders[..i + 1][..i] == orders[..i];
        if IsExpired(orders[i], cutoff) {
          ids := ids + [i];
        }
        i := i + 1;
      }
      ExpiredPrefix(orders, i, cutoff);
    }
  }

  ghost predicate ValidItems(books: map<int, Book>, items: seq<Item>) {
    forall it :: it in items ==> it.bookId in books && it.quantity > 0
  }

  lemma LinesAppend(books: map<int, Book>, items: seq<Item>, i: nat)
    requires i < |items| && ValidItems(books, items[..i])
    requires items[i].bookId in books && items[i].quantity > 0
    ensures ValidItems(books, items[..i + 1])
    ensures Lines(books, items[..i + 1])
            == Lines(books, items[..i]) + [OrderItem(items[i].bookId, items[i].quantity, books[items[i].bookId].price)]
  {
    assert items[..i + 1] == items[..i] + [items[i]];
  }

  // ---- the expiry sweep ----

  const SWEEP_LIMIT: nat := 100

  predicate IsExpired(o: Order, cutoff: int) {
    o.status == OrderPending && o.createdAt < cutoff
  }

  /** Ids of the PENDING orders created before the cutoff, ascending. */
  ghost function Expired(orders: seq<Order>, cutoff: int): seq<nat> {
    if orders == [] then []
    else
      var n := |orders| - 1;
      Expired(orders[..n], cutoff) + (if IsExpired(orders[n], cutoff) then [n] else [])
  }

  ghost function ExpiredIds(orders: seq<Order>, cutoff: int): seq<nat> {
    Expired(orders, cutoff)[..Min(SWEEP_LIMIT, |Expired(orders, cutoff)|)]
  }

  lemma {:induction false} ExpiredMember(orders: seq<Order>, cutoff: int)
    ensures forall o: nat :: o in Expired(orders, cutoff) <==> o < |orders| && IsExpired(orders[o], cutoff)
    ensures Distinct(Expired(orders, cutoff))
  {
    if orders != [] {
      var n := |orders| - 1;
      var e := Expired(orders[..n], cutoff);
      ExpiredMember(orders[..n], cutoff);
      assert n !in e;
      assert orders[..n] + [orders[n]] == orders;
    }
  }

  lemma {:induction false} ExpiredPrefix(orders: seq<Order>, i: nat, cutoff: int)
    requires i <= |orders|
    ensures Expired(orders[..i], cutoff) <= Expired(orders, cutoff)
  {
    if i == |orders| {
      assert orders[..i] == orders;
    } else {
      var front := orders[..|orders| - 1];
      assert front[..i] == orders[..i];
      ExpiredPrefix(front, i, cutoff);
    }
  }

  /** Cancel the listed orders one after the other; locks(o) are the books held when it is o's turn. */
  ghost function Sweep(s: Shop, ids: seq<nat>, locks: nat -> set<int>): (nat, Shop) {
    if ids == [] then (0, s)
    else
      var (n, t) := Sweep(s, ids[..|ids| - 1], locks);
      var o := ids[|ids| - 1];
      var (r, t') := Cancel(t, o, locks(o));
      (if r == Ok(true) then n + 1 else n, t')
  }

  ghost function AsActions(ids: seq<nat>, locks: nat -> set<int>): seq<Action> {
    seq(|ids|, i requires 0 <= i < |ids| => DoCancel(ids[i], locks(ids[i])))
  }

  /** A sweep is a run of cancel steps, so it conserves stock and leaves PAID orders alone. */
  lemma {:induction false} SweepIsRun(s: Shop, ids: seq<nat>, locks: nat -> set<int>)
    ensures Sweep(s, ids, locks).1 == Run(s, AsActions(ids, locks))
  {
    if ids != [] {
      SweepIsRun(s, ids[..|ids| - 1], locks);
      var actions := AsActions(ids, locks);
      assert actions[..|actions| - 1] == AsActions(ids[..|ids| - 1], locks);
    }
  }

  /** The order is pending and none of its books is held. */
  predicate CanCancel(s: Shop, o: nat, locked: set<int>) {
    o < |s.orders| && s.orders[o].status == OrderPending && !Busy(s.books, LineIds(s.orders[o].items), locked)
  }

  /** The orders a sweep over ids cancels. */
  ghost function Cancelable(s: Shop, ids: seq<nat>, locks: nat -> set<int>): set<nat> {
    set o | o in ids && CanCancel(s, o, locks(o))
  }

  /** The orders with those of `which` canceled and all others as they were. */
  ghost predicate ExactlyCanceled(s: Shop, s': Shop, which: set<nat>) {
    && s'.books.Keys == s.books.Keys && |s'.orders| == |s.orders|
    && forall o: nat :: o < |s.orders| ==>
         s'.orders[o] == if o in which then s.orders[o].(status := OrderCanceled) else s.orders[o]
  }

  lemma CancelIsExact(s: Shop, o: nat, locked: set<int>)
    ensures var (r, s') := Cancel(s, o, locked);
            && (r == Ok(true) <==> CanCancel(s, o, locked))
            && ExactlyCanceled(s, s', if CanCancel(s, o, locked) then {o} else {})
  {
    if o < |s.orders| {
      RestockKeys(s.books, s.orders[o].items);
    }
  }

  lemma CancelableStep(s: Shop, ids: seq<nat>, locks: nat -> set<int>)
    requires Distinct(ids) && ids != []
    ensures var front, o := ids[..|ids| - 1], ids[|ids| - 1];
            && o !in Cancelable(s, front, locks)
            && Cancelable(s, ids, locks) == Cancelable(s, front, locks) + if CanCancel(s, o, locks(o)) then {o} else {}
  {
    var front, o := ids[..|ids| - 1], ids[|ids| - 1];
    assert o !in front;
    assert ids == front + [o];
  }

  lemma SweepStep(s: Shop, t: Shop, t': Shop, which: set<nat>, o: nat, locked: set<int>)
    requires ExactlyCanceled(s, t, which) && o !in which
    requires ExactlyCanceled(t, t', if CanCancel(t, o, locked) then {o} else {})
    ensures CanCancel(t, o, locked) <==> CanCancel(s, o, locked)
    ensures ExactlyCanceled(s, t', which + if CanCancel(s, o, locked) then {o} else {})
  {
    if o < |s.orders| {
      assert t.orders[o] == s.orders[o];
    }
  }

  /** Whatever is locked, a sweep cancels exactly the listed orders it can, and counts them. */
  lemma {:induction false} SweepCancelsExactly(s: Shop, ids: seq<nat>, locks: nat -> set<int>)
    requires Distinct(ids)
    ensures Sweep(s, ids, locks).0 == |Cancelable(s, ids, locks)|
    ensures ExactlyCanceled(s, Sweep(s, ids, locks).1, Cancelable(s, ids, locks))
  {
    if ids != [] {
      var front, o := ids[..|ids| - 1], ids[|ids| - 1];
      SweepCancelsExactly(s, front, locks);
      CancelableStep(s, ids, locks);
      var t, which := Sweep(s, front, locks).1, Cancelable(s, front, locks);
      CancelIsExact(t, o, locks(o));
      SweepStep(s, t, Cancel(t, o, locks(o)).1, which, o, locks(o));
    }
  }

  ghost predicate Swept(before: seq<Order>, after: seq<Order>, which: seq<nat>) {
    && |after| == |before|
    && forall o: nat :: o < |before| ==>
         after[o] == if o in which then before[o].(status := OrderCanceled) else before[o]
  }

  /** Orders leave the backlog from its head; nothing else in it changes. */
  lemma {:induction false} BacklogShrinks(before: seq<Order>, after: seq<Order>, cutoff: int, k: nat)
    requires k <= |Expired(before, cutoff)| && Swept(before, after, Expired(before, cutoff)[..k])
    ensures Expired(after, cutoff) == Expired(before, cutoff)[k..]
  {
    if before != [] {
      var n := |before| - 1;
      var e := Expired(before[..n], cutoff);
      ExpiredMember(before[..n], cutoff);
      var k' := Min(k, |e|);
      SweptFront(before, after, cutoff, k);
      BacklogShrinks(before[..n], after[..n], cutoff, k');
      assert after[n] == if k == |e| + 1 then before[n].(status := OrderCanceled) else before[n];
    }
  }

  lemma SweptFront(before: seq<Order>, after: seq<Order>, cutoff: int, k: nat)
    requires before != [] && k <= |Expired(before, cutoff)| && Swept(before, after, Expired(before, cutoff)[..k])
    ensures var n, e := |before| - 1, Expired(before[..|before| - 1], cutoff);
            && Swept(before[..n], after[..n], e[..Min(k, |e|)])
            && (n in Expired(before, cutoff)[..k] <==> k == |e| + 1)
  {
    var n := |before| - 1;
    var e := Expired(before[..n], cutoff);
    ExpiredMember(before[..n], cutoff);
    assert n !in e;
    if k <= |e| {
      assert Expired(before, cutoff)[..k] == e[..k];
      assert n !in e[..k];
    } else {
      assert Expired(before, cutoff)[..k] == e + [n] && e[..|e|] == e;
    }
  }

  ghost function Free(o: nat): set<int> {
    {}
  }

  /** The shop after n runs of the task with no book held. */
  ghost function Sweeps(s: Shop, cutoff: int, n: nat): Shop {
    if n == 0 then s else Sweep(Sweeps(s, cutoff, n - 1), ExpiredIds(Sweeps(s, cutoff, n - 1).orders, cutoff), Free).1
  }

  lemma FreeSweep(s: Shop, cutoff: int)
    ensures var s' := Sweep(s, ExpiredIds(s.orders, cutoff), Free).1;
            Expired(s'.orders, cutoff) == Expired(s.orders, cutoff)[Min(SWEEP_LIMIT, |Expired(s.orders, cutoff)|)..]
  {
    var ids := ExpiredIds(s.orders, cutoff);
    ExpiredMember(s.orders, cutoff);
    SweepCancelsExactly(s, ids, Free);
    var s' := Sweep(s, ids, Free).1;
    forall o: nat | o < |s.orders| ensures o in Cancelable(s, ids, Free) <==> o in ids {
      if o in ids {
        assert o in Expired(s.orders, cutoff);
      }
    }
    assert Swept(s.orders, s'.orders, ids);
    BacklogShrinks(s.orders, s'.orders, cutoff, |ids|);
  }

  /** A backlog of expired orders is gone after as many runs as it has hundreds, rounded up. */
  lemma {:induction false} BacklogIsDrained(s: Shop, cutoff: int, n: nat)
    ensures var backlog := |Expired(s.orders, cutoff)|;
            |Expired(Sweeps(s, cutoff, n).orders, cutoff)| == if backlog <= SWEEP_LIMIT * n then 0 else backlog - SWEEP_LIMIT * n
  {
    if n > 0 {
      BacklogIsDrained(s, cutoff, n - 1);
      FreeSweep(Sweeps(s, cutoff, n - 1), cutoff);
    }
  }

  /** The PENDING orders created before the cutoff. */
  ghost function StaleOrders(s: Shop, cutoff: int): set<nat> {
    set o: nat | o < |s.orders| && s.orders[o].status == OrderPending && s.orders[o].createdAt < cutoff
  }

  lemma StaleAreExpired(s: Shop, cutoff: int)
    ensures Elements(Expired(s.orders, cutoff)) == StaleOrders(s, cutoff)
    ensures |Expired(s.orders, cutoff)| == |StaleOrders(s, cutoff)|
  {
    ExpiredMember(s.orders, cutoff);
    DistinctCount(Expired(s.orders, cutoff));
    forall o | o in Expired(s.orders, cutoff) ensures o in StaleOrders(s, cutoff) {
    }
    assert Elements(Expired(s.orders, cutoff)) == StaleOrders(s, cutoff);
  }

  lemma {:induction false} ExpiredAscends(orders: seq<Order>, cutoff: int)
    ensures forall i, j :: 0 <= i < j < |Expired(orders, cutoff)| ==> Expired(orders, cutoff)[i] < Expired(orders, cutoff)[j]
  {
    if orders != [] {
      var e, all := Expired(orders[..|orders| - 1], cutoff), Expired(orders, cutoff);
      ExpiredAscends(orders[..|orders| - 1], cutoff);
      ExpiredMember(orders[..|orders| - 1], cutoff);
      forall i, j | 0 <= i < j < |all| ensures all[i] < all[j] {
        assert all[i] == e[i] && e[i] in e;
      }
    }
  }

  lemma PrefixOfAscending(all: seq<nat>, n: nat)
    requires n <= |all| && forall i, j :: 0 <= i < j < |all| ==> all[i] < all[j]
    ensures Elements(all[..n]) <= Elements(all) && |Elements(all[..n])| == n
    ensures forall o, later :: o in all[..n] && later in all && later !in all[..n] ==> o < later
  {
    DistinctCount(all[..n]);
    forall o | o in all[..n] ensures o in all {
    }
    forall o, later | o in all[..n] && later in all && later !in all[..n] ensures o < later {
      var i :| 0 <= i < n && all[..n][i] == o;
      assert all == all[..n] + all[n..];
      var j :| 0 <= j < |all[n..]| && all[n..][j] == later;
    }
  }

  /** A run is given the oldest hundred of the stale orders, or all of them. */
  lemma FirstHundred(s: Shop, cutoff: int)
    ensures var ids, stale := Elements(ExpiredIds(s.orders, cutoff)), StaleOrders(s, cutoff);
            && ids <= stale && |ids| == Min(100, |stale|)
            && forall o, later :: o in ids && later in stale - ids ==> o < later
  {
    var all := Expired(s.orders, cutoff);
    StaleAreExpired(s, cutoff);
    ExpiredAscends(s.orders, cutoff);
    PrefixOfAscending(all, Min(SWEEP_LIMIT, |all|));
  }

  lemma SweepSparesOthers(s: Shop, cutoff: int)
    ensures var s' := Sweep(s, ExpiredIds(s.orders, cutoff), Free).1;
            && |s'.orders| == |s.orders|
            && forall o: nat :: o < |s.orders| ==>
                 || s'.orders[o] == s.orders[o]
                 || (o in StaleOrders(s, cutoff) && s'.orders[o] == s.orders[o].(status := OrderCanceled))
  {
    var ids := ExpiredIds(s.orders, cutoff);
    ExpiredMember(s.orders, cutoff);
    SweepCancelsExactly(s, ids, Free);
    forall o | o in ids ensures o in StaleOrders(s, cutoff) {
      assert o in Expired(s.orders, cutoff);
    }
  }

  lemma {:induction false} SweepsSpareOthers(s: Shop, cutoff: int, n: nat)
    ensures var s' := Sweeps(s, cutoff, n);
            && |s'.orders| == |s.orders|
            && forall o: nat :: o < |s.orders| ==>
                 || s'.orders[o] == s.orders[o]
                 || (o in StaleOrders(s, cutoff) && s'.orders[o] == s.orders[o].(status := OrderCanceled))
  {
    if n > 0 {
      SweepsSpareOthers(s, cutoff, n - 1);
      SweepSparesOthers(Sweeps(s, cutoff, n - 1), cutoff);
    }
  }

  /**
   * With no book held, as many runs as there are hundreds of stale orders cancel exactly the orders that were
   * PENDING and created before the cutoff; all other orders are as they were.
   */
  lemma StaleOrdersGo(s: Shop, cutoff: int, n: nat)
    requires |StaleOrders(s, cutoff)| <= SWEEP_LIMIT * n
    ensures var s' := Sweeps(s, cutoff, n);
            && |s'.orders| == |s.orders|
            && forall o: nat :: o < |s.orders| ==>
                 s'.orders[o] == if s.orders[o].status == OrderPending && s.orders[o].createdAt < cutoff
                                 then s.orders[o].(status := OrderCanceled) else s.orders[o]
  {
    var s' := Sweeps(s, cutoff, n);
    StaleAreExpired(s, cutoff);
    StaleAreExpired(s', cutoff);
    BacklogIsDrained(s, cutoff, n);
    SweepsSpareOthers(s, cutoff, n);
    assert StaleOrders(s', cutoff) == {};
    forall o: nat | o < |s.orders| ensures !(o in StaleOrders(s, cutoff) && s'.orders[o] == s.orders[o]) {
      assert o !in StaleOrders(s', cutoff);
    }
  }
}
