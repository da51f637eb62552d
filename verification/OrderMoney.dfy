/**
 * What a purchase takes and what it costs: exactly when it succeeds, which error it gives otherwise, the
 * amount charged, and how it ends once it is paid for.
 */
module OrderMoney {
  import opened Sequences
  import opened Orders

  // ---- the amount ----

  /** What the copies on the shelf are worth. */
  ghost function Value(books: map<int, Book>): int
    decreases |books|
  {
    if books.Keys == {} then 0
    else
      HasMember(books.Keys);
      var b :| b in books.Keys;
      books[b].price * books[b].quantity + Value(books - {b})
  }

  lemma {:induction false} ValueAt(books: map<int, Book>, k: int)
    requires k in books
    ensures Value(books) == books[k].price * books[k].quantity + Value(books - {k})
    decreases |books|
  {
    var b :| b in books.Keys && Value(books) == books[b].price * books[b].quantity + Value(books - {b});
    if b != k {
      ValueAt(books - {b}, k);
      ValueAt(books - {k}, b);
      assert books - {b} - {k} == books - {k} - {b};
    }
  }

  lemma TakeValue(books: map<int, Book>, id: int, n: int)
    requires id in books
    ensures Value(Take(books, id, n)) == Value(books) - books[id].price * n
  {
    ValueAt(books, id);
    ValueAt(Take(books, id, n), id);
    assert Take(books, id, n) - {id} == books - {id};
    assert books[id].price * (books[id].quantity - n) == books[id].price * books[id].quantity - books[id].price * n;
  }

  lemma {:induction false} TotalFront(lines: seq<OrderItem>)
    requires lines != []
    ensures Total(lines) == lines[0].price * lines[0].quantity + Total(lines[1..])
  {
    if |lines| > 1 {
      var front := lines[..|lines| - 1];
      TotalFront(front);
      assert front[1..] == lines[1..][..|lines| - 2];
    }
  }

  lemma {:induction false} ReserveValue(books: map<int, Book>, items: seq<Item>)
    requires Reserve(books, items).Ok?
    requires forall it :: it in items ==> it.bookId in books && it.quantity > 0
    ensures Value(Reserve(books, items).value) == Value(books) - Total(Lines(books, items))
  {
    if items != [] {
      var it, rest := items[0], items[1..];
      var taken := Take(books, it.bookId, it.quantity);
      assert items == [it] + rest;
      TakeValue(books, it.bookId, it.quantity);
      ReserveValue(taken, rest);
      TotalFront(Lines(books, items));
      assert Lines(books, items)[1..] == Lines(taken, rest);
    }
  }

  /** The line is for the item's copies at the book's price. */
  predicate IsLine(books: map<int, Book>, it: Item, line: OrderItem) {
    it.bookId in books && line.bookId == it.bookId && line.quantity == it.quantity && line.price == books[it.bookId].price
  }

  /**
   * A purchase charges exactly what the copies it takes off the shelf were worth, to the order and to its
   * payment, both new, pending, and the buyer's.
   */
  lemma BuyCharges(s: Shop, userId: int, items: seq<Item>, locked: set<int>, now: int)
    requires Buy(s, userId, items, locked, now).0.Ok?
    ensures var (r, s') := Buy(s, userId, items, locked, now);
            && r == Ok(|s.orders|) && |s'.orders| == |s.orders| + 1 && |s'.payments| == |s.payments| + 1
            && s'.orders[..|s.orders|] == s.orders && s'.payments[..|s.payments|] == s.payments
            && var o, p := s'.orders[|s.orders|], s'.payments[|s.payments|];
               && o.total == p.amount == Value(s.books) - Value(s'.books)
               && o.userId == userId && o.createdAt == now && o.status == OrderPending
               && |o.items| == |items| && (forall i :: 0 <= i < |items| ==> IsLine(s.books, items[i], o.items[i]))
               && p.orderId == r.value && p.status == PaymentPending && p.intent == p.transaction == None
  {
    ReserveSound(s.books, items);
    ReserveValue(s.books, items);
  }

  // ---- when it succeeds ----

  /** Every item is for a positive number of an available book, and the copies wanted of it are there. */
  ghost predicate Enough(books: map<int, Book>, items: seq<Item>) {
    forall it :: it in items ==>
      && it.quantity > 0 && it.bookId in books && books[it.bookId].available
      && Wanted(items, it.bookId) <= books[it.bookId].quantity
  }

  lemma {:induction false} WantedIsNatural(items: seq<Item>, b: int)
    requires forall it :: it in items ==> it.quantity > 0
    ensures Wanted(items, b) >= 0
    ensures (forall it :: it in items ==> it.bookId != b) ==> Wanted(items, b) == 0
  {
    if items != [] {
      assert items[0] in items && forall it :: it in items[1..] ==> it in items;
      WantedIsNatural(items[1..], b);
    }
  }

  lemma EnoughAfter(books: map<int, Book>, it: Item, rest: seq<Item>)
    requires Enough(books, [it] + rest)
    ensures it.quantity > 0 && it.bookId in books && books[it.bookId].available && it.quantity <= books[it.bookId].quantity
    ensures Enough(Take(books, it.bookId, it.quantity), rest)
  {
    var items := [it] + rest;
    assert it in items && items[1..] == rest && forall x :: x in rest ==> x in items;
    WantedIsNatural(rest, it.bookId);
    forall x | x in rest
      ensures Wanted(rest, x.bookId) <= Take(books, it.bookId, it.quantity)[x.bookId].quantity
    {
      assert x in items;
    }
  }

  lemma EnoughBefore(books: map<int, Book>, it: Item, rest: seq<Item>)
    requires it.quantity > 0 && it.bookId in books && books[it.bookId].available && it.quantity <= books[it.bookId].quantity
    requires Enough(Take(books, it.bookId, it.quantity), rest)
    ensures Enough(books, [it] + rest)
  {
    var items := [it] + rest;
    assert items[1..] == rest;
    WantedIsNatural(rest, it.bookId);
    if x :| x in rest && x.bookId == it.bookId {
      assert Wanted(rest, x.bookId) <= Take(books, it.bookId, it.quantity)[x.bookId].quantity;
    }
    forall x | x in items
      ensures x.quantity > 0 && x.bookId in books && books[x.bookId].available
              && Wanted(items, x.bookId) <= books[x.bookId].quantity
    {
      assert x == it || x in rest;
    }
  }

  /** Taking the items one by one succeeds if and only if all of them together can be had. */
  lemma {:induction false} ReserveSucceedsExactly(books: map<int, Book>, items: seq<Item>)
    ensures Reserve(books, items).Ok? <==> Enough(books, items)
  {
    if items != [] {
      var it, rest := items[0], items[1..];
      assert items == [it] + rest;
      if it.quantity > 0 && it.bookId in books && books[it.bookId].available && it.quantity <= books[it.bookId].quantity {
        ReserveSucceedsExactly(Take(books, it.bookId, it.quantity), rest);
        if Enough(books, items) {
          EnoughAfter(books, it, rest);
        }
        if Enough(Take(books, it.bookId, it.quantity), rest) {
          EnoughBefore(books, it, rest);
        }
      } else if Enough(books, items) {
        EnoughAfter(books, it, rest);
      }
    }
  }

  lemma {:induction false} ReserveAppend(books: map<int, Book>, items: seq<Item>, last: Item)
    ensures Reserve(books, items + [last])
            == match Reserve(books, items)
               case Err(e) => Err(e)
               case Ok(left) => Reserve(left, [last])
  {
    if items == [] {
      assert items + [last] == [last];
    } else {
      var it := items[0];
      assert (items + [last])[1..] == items[1..] + [last];
      if it.bookId in books {
        ReserveAppend(Take(books, it.bookId, it.quantity), items[1..], last);
      }
    }
  }

  /** The first item that cannot be had, and what is said of it. */
  lemma {:induction false} FirstFailure(books: map<int, Book>, items: seq<Item>) returns (i: nat)
    requires Reserve(books, items).Err?
    ensures i < |items| && Enough(books, items[..i]) && !Enough(books, items[..i + 1])
    ensures Reserve(books, items)
            == Err(if items[i].quantity <= 0 then QuantityInvalid else BookNotAvailable(items[i].bookId))
  {
    var front, last := items[..|items| - 1], items[|items| - 1];
    assert items == front + [last];
    ReserveAppend(books, front, last);
    if Reserve(books, front).Err? {
      i := FirstFailure(books, front);
      assert front[..i] == items[..i] && front[..i + 1] == items[..i + 1];
    } else {
      i := |front|;
      assert items[..i] == front && items[..i + 1] == items;
      ReserveSucceedsExactly(books, front);
      ReserveSucceedsExactly(books, items);
    }
  }

  /** A book of the items is held by another transaction. */
  ghost predicate Held(books: map<int, Book>, items: seq<Item>, locked: set<int>) {
    exists it :: it in items && it.bookId in books && it.bookId in locked
  }

  lemma BusyIsHeld(books: map<int, Book>, items: seq<Item>, locked: set<int>)
    ensures Busy(books, ItemIds(items), locked) <==> Held(books, items, locked)
  {
    if Busy(books, ItemIds(items), locked) {
      var id :| id in ItemIds(items) && id in books && id in locked;
      var it :| it in items && it.bookId == id;
    }
    if Held(books, items, locked) {
      var it :| it in items && it.bookId in books && it.bookId in locked;
      assert it.bookId in ItemIds(items);
    }
  }

  /**
   * A purchase succeeds if and only if it has one to ten items, the buyer exists, none of its books is held,
   * and every item can be had together with all the others. Otherwise the error names the first of these to
   * fail, and of the items the first that cannot be had.
   */
  lemma BuySucceedsExactly(s: Shop, userId: int, items: seq<Item>, locked: set<int>, now: int)
    ensures var r := Buy(s, userId, items, locked, now).0;
            && (r.Ok? <==> 1 <= |items| <= 10 && userId in s.users && !Held(s.books, items, locked) && Enough(s.books, items))
            && (!(1 <= |items| <= 10) ==> r == Err(ItemsLimitExceeded))
            && (1 <= |items| <= 10 && userId !in s.users ==> r == Err(UserNotFound))
            && (1 <= |items| <= 10 && userId in s.users && Held(s.books, items, locked) ==> r == Err(BooksBusy))
            && (1 <= |items| <= 10 && userId in s.users && !Held(s.books, items, locked) && r.Err? ==>
                  exists i: nat :: i < |items| && Enough(s.books, items[..i]) && !Enough(s.books, items[..i + 1])
                                   && r == Err(if items[i].quantity <= 0 then QuantityInvalid
                                               else BookNotAvailable(items[i].bookId)))
  {
    BusyIsHeld(s.books, items, locked);
    ReserveSucceedsExactly(s.books, items);
    if Reserve(s.books, items).Err? {
      var i := FirstFailure(s.books, items);
    }
  }

  // ---- how it ends ----

  /** An order is canceled if and only if it is pending and none of its books is held; held ones are an error. */
  lemma CancelSucceedsExactly(s: Shop, orderId: nat, locked: set<int>)
    ensures var r := Cancel(s, orderId, locked).0;
            && (r == Ok(false) <==> orderId >= |s.orders| || s.orders[orderId].status != OrderPending)
            && (r == Err(BooksBusy) <==>
                && orderId < |s.orders| && s.orders[orderId].status == OrderPending
                && exists line :: line in s.orders[orderId].items && line.bookId in s.books && line.bookId in locked)
            && (r == Ok(false) || r == Ok(true) || r == Err(BooksBusy))
  {
    if orderId < |s.orders| {
      var lines := s.orders[orderId].items;
      if Busy(s.books, LineIds(lines), locked) {
        var id :| id in LineIds(lines) && id in s.books && id in locked;
        var line :| line in lines && line.bookId == id;
      }
      if line :| line in lines && line.bookId in s.books && line.bookId in locked {
        assert line.bookId in LineIds(lines);
      }
    }
  }

  /**
   * A purchase that is checked out and confirmed: the order is paid, its payment records the checkout and the
   * intent, the copies stay off the shelf, and of the cart exactly the buyer's rows for the books bought go.
   */
  lemma PurchaseCompletes(s: Shop, userId: int, items: seq<Item>, locked: set<int>, now: int, checkoutId: string,
          intent: Option<string>)
    requires Buy(s, userId, items, locked, now).0.Ok?
    ensures var s1 := Buy(s, userId, items, locked, now).1;
            var orderId, paymentId := |s.orders|, |s.payments|;
            var s3 := Confirm(StoreCheckout(s1, paymentId, checkoutId), orderId, paymentId, intent);
            && s3.books == s1.books && s3.users == s.users
            && s3.orders == s1.orders[orderId := s1.orders[orderId].(status := OrderPaid)]
            && s3.payments == s1.payments[paymentId := s1.payments[paymentId].(
                                 status := PaymentSuccess, intent := intent, transaction := Some(checkoutId))]
            && (forall u, b :: (u, b) in s3.cart <==>
                  (u, b) in s.cart && !(u == userId && IsFor(items, b)))
  {
    ReserveSound(s.books, items);
    var o := Buy(s, userId, items, locked, now).1.orders[|s.orders|];
    forall b ensures HasLine(o.items, b) <==> IsFor(items, b) {
      LineOf(s.books, items, b);
    }
    CartWithout(s.cart, o);
  }

  ghost predicate IsFor(items: seq<Item>, b: int) {
    exists it :: it in items && it.bookId == b
  }

  ghost predicate HasLine(lines: seq<OrderItem>, b: int) {
    exists line :: line in lines && line.bookId == b
  }

  lemma CartWithout(cart: set<(int, int)>, o: Order)
    ensures forall u, b :: (u, b) in WithoutItems(cart, o) <==> (u, b) in cart && !(u == o.userId && HasLine(o.items, b))
  {
  }

  lemma LineOf(books: map<int, Book>, items: seq<Item>, b: int)
    requires forall it :: it in items ==> it.bookId in books && it.quantity > 0
    ensures HasLine(Lines(books, items), b) <==> IsFor(items, b)
  {
    var lines := Lines(books, items);
    if it :| it in items && it.bookId == b {
      var i :| 0 <= i < |items| && items[i] == it;
      assert lines[i] in lines;
    }
    if line :| line in lines && line.bookId == b {
      var i :| 0 <= i < |lines| && lines[i] == line;
      assert items[i] in items;
    }
  }
}
