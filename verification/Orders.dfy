/**
 * Orders, payments and stock. Each `async with self._transaction` block is one atomic step: it
 * either commits or leaves the database as it was.
 */
module Orders {
  import opened Sequences

  datatype OrderStatus = OrderPending | OrderPaid | OrderCanceled

  datatype PaymentStatus = PaymentPending | PaymentSuccess | PaymentFailed

  /** Prices and amounts are integers of one cent. */
  datatype Book = Book(quantity: int, price: nat, available: bool)

  datatype Item = Item(bookId: int, quantity: int)

  datatype OrderItem = OrderItem(bookId: int, quantity: nat, price: nat)

  datatype Order = Order(userId: int, total: nat, status: OrderStatus, items: seq<OrderItem>, createdAt: int)

  datatype Payment = Payment(orderId: nat, amount: nat, status: PaymentStatus, intent: Option<string>,
          transaction: Option<string>)

  /** Orders and payments are numbered in order of creation; a cart is a set of (user, book) rows. */
  datatype Shop = Shop(
    users: set<int>,
    books: map<int, Book>,
    orders: seq<Order>,
    payments: seq<Payment>,
    cart: set<(int, int)>)

  datatype Error = ItemsLimitExceeded | UserNotFound | BooksBusy | QuantityInvalid | BookNotAvailable(id: int)

  datatype Result<+T> = Ok(value: T) | Err(error: Error)

  // ---- the steps ----

  /** Reserve the items one by one on a working copy of the books. */
  ghost function Reserve(books: map<int, Book>, items: seq<Item>): Result<map<int, Book>> {
    if items == [] then Ok(books)
    else
      var it := items[0];
      if it.quantity <= 0 then Err(QuantityInvalid)
      else if it.bookId !in books || !books[it.bookId].available then Err(BookNotAvailable(it.bookId))
      else if books[it.bookId].quantity < it.quantity then Err(BookNotAvailable(it.bookId))
      else Reserve(Take(books, it.bookId, it.quantity), items[1..])
  }

  function Take(books: map<int, Book>, id: int, n: int): map<int, Book>
    requires id in books
  {
    books[id := books[id].(quantity := books[id].quantity - n)]
  }

  function Give(books: map<int, Book>, id: int, n: int): map<int, Book>
    requires id in books
  {
    books[id := books[id].(quantity := books[id].quantity + n)]
  }

  ghost function Lines(books: map<int, Book>, items: seq<Item>): seq<OrderItem>
    requires forall it :: it in items ==> it.bookId in books && it.quantity > 0
  {
    seq(|items|, i requires 0 <= i < |items| => OrderItem(items[i].bookId, items[i].quantity, books[items[i].bookId].price))
  }

  ghost function Total(lines: seq<OrderItem>): nat {
    if lines == [] then 0
    else Total(lines[..|lines| - 1]) + lines[|lines| - 1].price * lines[|lines| - 1].quantity
  }

  lemma {:induction false} ReserveSound(books: map<int, Book>, items: seq<Item>)
    requires Reserve(books, items).Ok?
    ensures forall it :: it in items ==> it.bookId in books && it.quantity > 0
    ensures Reserve(books, items).value.Keys == books.Keys
    ensures forall b :: b in books ==> Reserve(books, items).value[b].price == books[b].price
  {
    if items != [] {
      ReserveSound(Take(books, items[0].bookId, items[0].quantity), items[1..]);
      assert items == [items[0]] + items[1..];
    }
  }

  /** `SELECT ... FOR UPDATE NOWAIT` fails when another transaction holds one of the books found. */
  predicate Busy(books: map<int, Book>, wanted: set<int>, locked: set<int>) {
    exists id :: id in wanted && id in books && id in locked
  }

  function ItemIds(items: seq<Item>): set<int> {
    set it | it in items :: it.bookId
  }

  function LineIds(lines: seq<OrderItem>): set<int> {
    set line | line in lines :: line.bookId
  }

  /** Transaction 1 of `BuyBooks.buy`; locked are the books other transactions hold. */
  ghost function Buy(s: Shop, userId: int, items: seq<Item>, locked: set<int>, now: int): (Result<nat>, Shop) {
    if !(1 <= |items| <= 10) then (Err(ItemsLimitExceeded), s)
    else if userId !in s.users then (Err(UserNotFound), s)
    else if Busy(s.books, ItemIds(items), locked) then (Err(BooksBusy), s)
    else match Reserve(s.books, items)
      case Err(e) => (Err(e), s)
      case Ok(books) =>
        ReserveSound(s.books, items);
        var lines := Lines(s.books, items);
        (Ok(|s.orders|),
         s.(books := books,
            orders := s.orders + [Order(userId, Total(lines), OrderPending, lines, now)],
            payments := s.payments + [Payment(|s.orders|, Total(lines), PaymentPending, None, None)]))
  }

  ghost function Restock(books: map<int, Book>, lines: seq<OrderItem>): map<int, Book> {
    if lines == [] then books
    else
      Restock(if lines[0].bookId in books then Give(books, lines[0].bookId, lines[0].quantity) else books, lines[1..])
  }

  /** The order's payment, if any: at most one payment names an order. */
  ghost function FailPayments(payments: seq<Payment>, orderId: nat): seq<Payment> {
    seq(|payments|, i requires 0 <= i < |payments| =>
      if payments[i].orderId == orderId && payments[i].status != PaymentSuccess
      then payments[i].(status := PaymentFailed) else payments[i])
  }

  /** `CancelOrder.cancel`: whether this call canceled the order, or an error that rolls it back. */
  ghost function Cancel(s: Shop, orderId: nat, locked: set<int>): (Result<bool>, Shop) {
    if orderId >= |s.orders| || s.orders[orderId].status != OrderPending then (Ok(false), s)
    else if Busy(s.books, LineIds(s.orders[orderId].items), locked) then (Err(BooksBusy), s)
    else
      var o := s.orders[orderId];
      (Ok(true), s.(books := Restock(s.books, o.items),
                orders := s.orders[orderId := o.(status := OrderCanceled)],
                payments := FailPayments(s.payments, orderId)))
  }

  ghost function WithoutItems(cart: set<(int, int)>, o: Order): set<(int, int)> {
    set row | row in cart && !(row.0 == o.userId && exists line :: line in o.items && line.bookId == row.1)
  }

  /** `ConfirmOrderPayment.confirm`: the order's present status is not looked at. */
  ghost function Confirm(s: Shop, orderId: nat, paymentId: nat, intent: Option<string>): Shop {
    if paymentId < |s.payments| && s.payments[paymentId].status == PaymentSuccess then s
    else
      var s1 :=
        if paymentId < |s.payments|
        then s.(payments := s.payments[paymentId := s.payments[paymentId].(status := PaymentSuccess, intent := intent)])
        else s;
      if orderId < |s.orders| then
        var o := s.orders[orderId];
        s1.(orders := s.orders[orderId := o.(status := OrderPaid)], cart := WithoutItems(s.cart, o))
      else s1
  }

  /** Transaction 2 of `BuyBooks.buy`. */
  ghost function StoreCheckout(s: Shop, paymentId: nat, checkoutId: string): Shop {
    if paymentId >= |s.payments| then s
    else s.(payments := s.payments[paymentId := s.payments[paymentId].(transaction := Some(checkoutId))])
  }

  datatype Action =
    | DoBuy(userId: int, items: seq<Item>, locked: set<int>, now: int)
    | DoCancel(orderId: nat, locked: set<int>)
    | DoConfirm(orderId: nat, paymentId: nat, intent: Option<string>)
    | DoStoreCheckout(paymentId: nat, checkoutId: string)
    | AddToCart(userId: int, bookId: int)

  ghost function Apply(s: Shop, a: Action): Shop {
    match a
    case DoBuy(u, items, locked, now) => Buy(s, u, items, locked, now).1
    case DoCancel(o, locked) => Cancel(s, o, locked).1
    case DoConfirm(o, p, i) => Confirm(s, o, p, i)
    case DoStoreCheckout(p, id) => StoreCheckout(s, p, id)
    case AddToCart(u, b) => s.(cart := s.cart + {(u, b)})
  }

  ghost function Run(s: Shop, actions: seq<Action>): Shop {
    if actions == [] then s else Apply(Run(s, actions[..|actions| - 1]), actions[|actions| - 1])
  }

  // ---- conservation of stock ----

  /** Copies of a book among the lines. */
  ghost function Copies(lines: seq<OrderItem>, b: int): nat {
    if lines == [] then 0
    else (if lines[0].bookId == b then lines[0].quantity else 0) + Copies(lines[1..], b)
  }

  /** Copies of a book in the orders of one status. */
  ghost function InStatus(orders: seq<Order>, status: OrderStatus, b: int): nat {
    if orders == [] then 0
    else InStatus(orders[..|orders| - 1], status, b)
         + (if orders[|orders| - 1].status == status then Copies(orders[|orders| - 1].items, b) else 0)
  }

  lemma {:induction false} InStatusUpdate(orders: seq<Order>, i: nat, o: Order, status: OrderStatus, b: int)
    requires i < |orders|
    ensures InStatus(orders[i := o], status, b) + (if orders[i].status == status then Copies(orders[i].items, b) else 0)
            == InStatus(orders, status, b) + (if o.status == status then Copies(o.items, b) else 0)
  {
    var n := |orders| - 1;
    if i == n {
      assert orders[i := o][..n] == orders[..n];
    } else {
      assert orders[i := o][..n] == orders[..n][i := o];
      InStatusUpdate(orders[..n], i, o, status, b);
    }
  }

  lemma InStatusAppend(orders: seq<Order>, o: Order, status: OrderStatus, b: int)
    ensures InStatus(orders + [o], status, b)
            == InStatus(orders, status, b) + (if o.status == status then Copies(o.items, b) else 0)
  {
    assert (orders + [o])[..|orders|] == orders;
  }

  ghost function Wanted(items: seq<Item>, b: int): int {
    if items == [] then 0 else (if items[0].bookId == b then items[0].quantity else 0) + Wanted(items[1..], b)
  }

  /** Reserving takes exactly the wanted copies, repeated books included, and never goes below zero. */
  lemma {:induction false} ReserveTakes(books: map<int, Book>, items: seq<Item>, b: int)
    requires Reserve(books, items).Ok? && b in books && books[b].quantity >= 0
    ensures b in Reserve(books, items).value
    ensures Reserve(books, items).value[b].quantity == books[b].quantity - Wanted(items, b) >= 0
  {
    if items != [] {
      ReserveTakes(Take(books, items[0].bookId, items[0].quantity), items[1..], b);
    }
  }

  lemma {:induction false} LinesWanted(books: map<int, Book>, items: seq<Item>, b: int)
    requires forall it :: it in items ==> it.bookId in books && it.quantity > 0
    ensures Copies(Lines(books, items), b) == Wanted(items, b)
  {
    if items != [] {
      assert Lines(books, items)[1..] == Lines(books, items[1..]);
      LinesWanted(books, items[1..], b);
    }
  }

  lemma {:induction false} RestockGives(books: map<int, Book>, lines: seq<OrderItem>, b: int)
    requires b in books
    ensures Restock(books, lines).Keys == books.Keys
    ensures Restock(books, lines)[b].quantity == books[b].quantity + Copies(lines, b)
    ensures Restock(books, lines)[b].price == books[b].price && Restock(books, lines)[b].available == books[b].available
  {
    if lines != [] {
      RestockGives(if lines[0].bookId in books then Give(books, lines[0].bookId, lines[0].quantity) else books, lines[1..], b);
    }
  }

  /** What a step turns from canceled to paid, in copies of a book. */
  ghost function LateCopies(s: Shop, a: Action, b: int): nat {
    if a.DoConfirm? && a.orderId < |s.orders| && s.orders[a.orderId].status == OrderCanceled
       && Apply(s, a).orders[a.orderId].status == OrderPaid
    then Copies(s.orders[a.orderId].items, b) else 0
  }

  /** Copies in orders a late confirm moved from CANCELED to PAID, over a run. */
  ghost function LateOverRun(s: Shop, actions: seq<Action>, b: int): nat {
    if actions == [] then 0
    else
      var front := actions[..|actions| - 1];
      LateOverRun(s, front, b) + LateCopies(Run(s, front), actions[|actions| - 1], b)
  }

  /** Copies of a book a shop accounts for: on the shelf, reserved, or sold. */
  ghost function Accounted(s: Shop, b: int): int
    requires b in s.books
  {
    s.books[b].quantity + InStatus(s.orders, OrderPending, b) + InStatus(s.orders, OrderPaid, b)
  }

  lemma {:induction false} RestockKeys(books: map<int, Book>, lines: seq<OrderItem>)
    ensures Restock(books, lines).Keys == books.Keys
  {
    if lines != [] {
      RestockKeys(if lines[0].bookId in books then Give(books, lines[0].bookId, lines[0].quantity) else books, lines[1..]);
    }
  }

  lemma BuyConserves(s: Shop, userId: int, items: seq<Item>, locked: set<int>, now: int, b: int)
    requires b in s.books && s.books[b].quantity >= 0
    ensures var s' := Buy(s, userId, items, locked, now).1;
            b in s'.books && s'.books[b].quantity >= 0 && Accounted(s', b) == Accounted(s, b)
  {
    var (r, s') := Buy(s, userId, items, locked, now);
    if r.Ok? {
      ReserveSound(s.books, items);
      ReserveTakes(s.books, items, b);
      LinesWanted(s.books, items, b);
      InStatusAppend(s.orders, s'.orders[|s.orders|], OrderPending, b);
      InStatusAppend(s.orders, s'.orders[|s.orders|], OrderPaid, b);
    }
  }

  lemma CancelConserves(s: Shop, orderId: nat, locked: set<int>, b: int)
    requires b in s.books && s.books[b].quantity >= 0
    ensures var s' := Cancel(s, orderId, locked).1;
            b in s'.books && s'.books[b].quantity >= 0 && Accounted(s', b) == Accounted(s, b)
  {
    if orderId < |s.orders| && s.orders[orderId].status == OrderPending {
      var o := s.orders[orderId];
      RestockGives(s.books, o.items, b);
      InStatusUpdate(s.orders, orderId, o.(status := OrderCanceled), OrderPending, b);
      InStatusUpdate(s.orders, orderId, o.(status := OrderCanceled), OrderPaid, b);
    }
  }

  lemma ConfirmConserves(s: Shop, orderId: nat, paymentId: nat, intent: Option<string>, b: int)
    requires b in s.books
    ensures var s' := Confirm(s, orderId, paymentId, intent);
            s'.books == s.books
            && Accounted(s', b) == Accounted(s, b) + LateCopies(s, DoConfirm(orderId, paymentId, intent), b)
  {
    if orderId < |s.orders| {
      var o := s.orders[orderId];
      InStatusUpdate(s.orders, orderId, o.(status := OrderPaid), OrderPending, b);
      InStatusUpdate(s.orders, orderId, o.(status := OrderPaid), OrderPaid, b);
    }
  }

  /**
   * Over every run of purchases, cancellations and confirmations: stock plus what PENDING and PAID
   * orders hold is the initial sum plus what late confirms moved from CANCELED to PAID, and stock is
   * never negative.
   */
  lemma {:induction false} StockIsConserved(s: Shop, actions: seq<Action>, b: int)
    requires b in s.books && s.books[b].quantity >= 0
    ensures b in Run(s, actions).books && Run(s, actions).books[b].quantity >= 0
    ensures Accounted(Run(s, actions), b) == Accounted(s, b) + LateOverRun(s, actions, b)
  {
    if actions != [] {
      var front, a := actions[..|actions| - 1], actions[|actions| - 1];
      StockIsConserved(s, front, b);
      var t := Run(s, front);
      match a
      case DoBuy(u, items, locked, now) => BuyConserves(t, u, items, locked, now, b);
      case DoCancel(o, locked) => CancelConserves(t, o, locked, b);
      case DoConfirm(o, p, i) => ConfirmConserves(t, o, p, i, b);
      case DoStoreCheckout(_, _) =>
      case AddToCart(_, _) =>
    }
  }

  // ---- terminal states and idempotence ----

  /** PAID is never left, and a payment that succeeded stays so. */
  lemma {:induction false} PaidIsForever(s: Shop, actions: seq<Action>)
    ensures var s' := Run(s, actions);
            && |s'.orders| >= |s.orders| && |s'.payments| >= |s.payments|
            && (forall o :: 0 <= o < |s.orders| && s.orders[o].status == OrderPaid ==> s'.orders[o].status == OrderPaid)
            && (forall o :: 0 <= o < |s.orders| && s.orders[o].status != OrderPending ==> s'.orders[o].status != OrderPending)
            && (forall p :: 0 <= p < |s.payments| && s.payments[p].status == PaymentSuccess ==>
                  s'.payments[p].status == PaymentSuccess && s'.payments[p].intent == s.payments[p].intent)
  {
    if actions != [] {
      PaidIsForever(s, actions[..|actions| - 1]);
    }
  }

  /** `cancel` returns True at most once per order, whatever happens in between. */
  lemma CancelSucceedsOnce(s: Shop, orderId: nat, locked: set<int>, between: seq<Action>, locked': set<int>)
    requires Cancel(s, orderId, locked).0 == Ok(true)
    ensures Cancel(Run(Cancel(s, orderId, locked).1, between), orderId, locked').0 == Ok(false)
  {
    PaidIsForever(Cancel(s, orderId, locked).1, between);
  }

  /**
   * A repeated confirm changes nothing at all, whatever happened in between, so long as the payment
   * exists; cart rows added since then survive.
   */
  lemma ConfirmIsIdempotent(s: Shop, orderId: nat, paymentId: nat, intent: Option<string>, between: seq<Action>,
          intent': Option<string>)
    requires paymentId < |s.payments|
    ensures var s' := Run(Confirm(s, orderId, paymentId, intent), between);
            Confirm(s', orderId, paymentId, intent') == s'
  {
    PaidIsForever(Confirm(s, orderId, paymentId, intent), between);
  }

  /** Without the payment row a repeated confirm clears the cart again: exactly then it is not idempotent. */
  lemma RepeatedConfirmAndCart(s: Shop, orderId: nat, paymentId: nat, intent: Option<string>, userId: int, bookId: int)
    ensures var s1 := Confirm(s, orderId, paymentId, intent);
            var s' := s1.(cart := s1.cart + {(userId, bookId)});
            Confirm(s', orderId, paymentId, intent) == s'
            <==> paymentId < |s.payments| || orderId >= |s.orders| || s.orders[orderId].userId != userId
                 || forall line :: line in s.orders[orderId].items ==> line.bookId != bookId
  {
    var s1 := Confirm(s, orderId, paymentId, intent);
    var s' := s1.(cart := s1.cart + {(userId, bookId)});
    if paymentId >= |s.payments| && orderId < |s.orders| {
      var o := s.orders[orderId];
      var s2 := Confirm(s', orderId, paymentId, intent);
      assert s'.orders[orderId] == o.(status := OrderPaid);
      assert s2.orders == s'.orders;
      if s.orders[orderId].userId == userId && exists line :: line in o.items && line.bookId == bookId {
        assert (userId, bookId) in s'.cart && (userId, bookId) !in s2.cart;
      } else {
        assert s2.cart == s'.cart;
      }
    }
  }

  /** A purchase whose checkout fails and is then canceled has no net effect on any stock. */
  lemma FailedCheckoutHasNoEffect(s: Shop, userId: int, items: seq<Item>, locked: set<int>, now: int, locked': set<int>)
    ensures var (r, s1) := Buy(s, userId, items, locked, now);
            if r.Err? then s1 == s
            else var (canceled, s2) := Cancel(s1, r.value, locked');
                 canceled.Ok? ==>
                 && canceled.value && s2.books == s.books
                 && s2.orders[..|s.orders|] == s.orders && s2.orders[r.value].status == OrderCanceled
                 && (forall p :: 0 <= p < |s.payments| && s.payments[p].orderId != r.value ==> s2.payments[p] == s.payments[p])
  {
    var (r, s1) := Buy(s, userId, items, locked, now);
    if r.Ok? {
      ReserveSound(s.books, items);
      var o := s1.orders[|s.orders|];
      var s2 := Restock(s1.books, o.items);
      RestockKeys(s1.books, o.items);
      forall b | b in s.books ensures s2[b] == s.books[b] {
        RestockGives(s1.books, o.items, b);
        ReserveTakesExactly(s.books, items, b);
        LinesWanted(s.books, items, b);
      }
    }
  }

  lemma {:induction false} ReserveTakesExactly(books: map<int, Book>, items: seq<Item>, b: int)
    requires Reserve(books, items).Ok? && b in books
    ensures b in Reserve(books, items).value
    ensures Reserve(books, items).value[b] == books[b].(quantity := books[b].quantity - Wanted(items, b))
  {
    if items != [] {
      ReserveTakesExactly(Take(books, items[0].bookId, items[0].quantity), items[1..], b);
    }
  }

  // ---- an order and its payment ----

  predicate Fits(order: OrderStatus, payment: PaymentStatus) {
    match order
    case OrderPending => payment == PaymentPending
    case OrderPaid => payment == PaymentSuccess
    case OrderCanceled => payment == PaymentFailed
  }

  /** The payment is the order's, for the amount of its lines, and stands where the order stands. */
  ghost predicate Paired(s: Shop, i: nat)
    requires i < |s.orders| && i < |s.payments|
  {
    && s.payments[i].orderId == i
    && s.payments[i].amount == s.orders[i].total == Total(s.orders[i].items)
    && Fits(s.orders[i].status, s.payments[i].status)
  }

  ghost predicate AllPaired(s: Shop) {
    |s.payments| == |s.orders| && forall i: nat :: i < |s.orders| ==> Paired(s, i)
  }

  /** A confirmation carries the ids of one order and of its own payment, as the checkout session was given them. */
  ghost predicate OwnPayment(s: Shop, a: Action) {
    a.DoConfirm? ==> a.paymentId < |s.payments| && s.payments[a.paymentId].orderId == a.orderId
  }

  ghost predicate OwnPayments(s: Shop, actions: seq<Action>) {
    actions == []
    || var front := actions[..|actions| - 1];
       OwnPayments(s, front) && OwnPayment(Run(s, front), actions[|actions| - 1])
  }

  lemma StepKeepsPaired(s: Shop, a: Action, i: nat)
    requires AllPaired(s) && OwnPayment(s, a) && i < |Apply(s, a).orders|
    ensures |Apply(s, a).payments| == |Apply(s, a).orders| && Paired(Apply(s, a), i)
  {
    if i < |s.orders| {
      assert Paired(s, i);
    }
    match a
    case DoBuy(u, items, locked, now) =>
    case DoCancel(o, locked) =>
    case DoConfirm(o, p, intent) => assert Paired(s, p);
    case DoStoreCheckout(_, _) =>
    case AddToCart(_, _) =>
  }

  /**
   * Over every run in which confirmations name an order with its own payment: each order has exactly
   * one payment, for exactly its lines, PENDING, SUCCESS or FAILED as the order is PENDING, PAID or
   * CANCELED.
   */
  lemma {:induction false} PaymentFollowsOrder(s: Shop, actions: seq<Action>)
    requires AllPaired(s) && OwnPayments(s, actions)
    ensures AllPaired(Run(s, actions))
  {
    if actions != [] {
      var front, a := actions[..|actions| - 1], actions[|actions| - 1];
      PaymentFollowsOrder(s, front);
      var t := Run(s, front);
      forall i: nat | i < |Apply(t, a).orders| ensures |Apply(t, a).payments| == |Apply(t, a).orders| && Paired(Apply(t, a), i) {
        StepKeepsPaired(t, a, i);
      }
      assert |Apply(t, a).payments| == |Apply(t, a).orders|;
    }
  }
}
