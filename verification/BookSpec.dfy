/** The order book as a state machine over its messages: the live orders and the two price maps that
    are maintained by incremental updates beside them. */
module BookSpec {
  import opened Bits
  import opened Shared
  import opened LevelSpec
  import opened Sums

  datatype BookState = BookState(orders: map<u64, Order>, bids: Levels, asks: Levels)

  const EMPTY_BOOK := BookState(map[], map[], map[])

  datatype BookOp =
    | Add(id: u64, side: Side, qty: u32, price: u32)
    | Cancel(id: u64, qty: u32)
    | Execute(id: u64, qty: u32)
    | Replace(id: u64, newId: u64, qty: u32, price: u32)
    | Delete(id: u64)

  datatype Updated = Updated(book: BookState, change: BestLvlChange)

  /** Everything that is not marked as a bid goes to the ask side. */
  function BookSide(side: Side): (s: Side)
    ensures s == Bid || s == Ask
  {
    if side == Bid then Bid else Ask
  }

  function LevelsOf(b: BookState, side: Side): Levels {
    if side == Bid then b.bids else b.asks
  }

  function WithLevels(b: BookState, side: Side, m: Levels): BookState {
    if side == Bid then b.(bids := m) else b.(asks := m)
  }

  ghost function AddTo(b: BookState, side: Side, l: Level): Updated {
    var s := BookSide(side);
    var m := LevelsOf(b, s);
    Updated(WithLevels(b, s, AddLevel(m, l)), AddChange(s, m, l))
  }

  ghost function RemoveFrom(b: BookState, side: Side, l: Level): Outcome<Updated> {
    var s := BookSide(side);
    var m := LevelsOf(b, s);
    match RemoveLevel(m, l)
    case Abort(why) => Abort(why)
    case Done(m') => Done(Updated(WithLevels(b, s, m'), RemoveChange(s, m, l)))
  }

  /** `insert` and `emplace` leave an existing entry alone. */
  function InsertOrder(orders: map<u64, Order>, id: u64, o: Order): map<u64, Order> {
    if id in orders then orders else orders[id := o]
  }

  function ReduceOrder(orders: map<u64, Order>, id: u64, qty: u32): map<u64, Order>
    requires id in orders && qty <= orders[id].qty
  {
    if orders[id].qty == qty then orders - {id}
    else orders[id := orders[id].(qty := orders[id].qty - qty)]
  }

  lemma EraseAfterUpdate(orders: map<u64, Order>, id: u64, o: Order)
    ensures orders[id := o] - {id} == orders - {id}
  {
  }

  ghost function Reduce(b: BookState, id: u64, qty: u32): Outcome<Updated> {
    if id !in b.orders then Abort(OrderNotFound)
    else if b.orders[id].qty < qty then Abort(QtyTooLarge)
    else
      match RemoveFrom(b, b.orders[id].side, Level(qty, b.orders[id].price))
      case Abort(why) => Abort(why)
      case Done(u) => Done(u.(book := u.book.(orders := ReduceOrder(b.orders, id, qty))))
  }

  /** Of the two changes of a replacement only one is returned: the one of the add, unless it is silent. */
  function MergeChanges(rem: BestLvlChange, add: BestLvlChange): BestLvlChange {
    if add.side != NoSide then add else rem
  }

  ghost function Apply(b: BookState, op: BookOp): Outcome<Updated> {
    match op
    case Add(id, side, qty, price) =>
      var u := AddTo(b, side, Level(qty, price));
      Done(u.(book := u.book.(orders := InsertOrder(b.orders, id, Order(qty, price, side)))))
    case Cancel(id, qty) => Reduce(b, id, qty)
    case Execute(id, qty) => Reduce(b, id, qty)
    case Replace(id, newId, qty, price) =>
      if id !in b.orders then Abort(OrderNotFound)
      else (
        var o := b.orders[id];
        match RemoveFrom(b, o.side, Level(o.qty, o.price))
        case Abort(why) => Abort(why)
        case Done(rem) =>
          var add := AddTo(rem.book, o.side, Level(qty, price));
          Done(Updated(
                 add.book.(orders := InsertOrder(b.orders - {id}, newId, Order(qty, price, o.side))),
                 MergeChanges(rem.change, add.change))))
    case Delete(id) =>
      if id !in b.orders then Abort(OrderNotFound)
      else
        match RemoveFrom(b, b.orders[id].side, Level(b.orders[id].qty, b.orders[id].price))
        case Abort(why) => Abort(why)
        case Done(u) => Done(u.(book := u.book.(orders := b.orders - {id})))
  }

  // ----- What the levels should be: the sums of the live orders -----

  /** Bids are the orders marked as bids, asks all others. */
  predicate IsOn(o: Order, side: Side) {
    o.side == Bid <==> side == Bid
  }

  function Weight(o: Order, side: Side, price: u32): nat {
    if IsOn(o, side) && o.price == price then o.qty else 0
  }

  function Weights(orders: map<u64, Order>, side: Side, price: u32): map<u64, nat> {
    map id | id in orders :: Weight(orders[id], side, price)
  }

  /** The total quantity of the live orders on one side at one price. */
  ghost function SumAt(orders: map<u64, Order>, side: Side, price: u32): nat {
    Sum(Weights(orders, side, price))
  }

  predicate SomeOrderAt(orders: map<u64, Order>, side: Side, price: u32) {
    exists id | id in orders :: IsOn(orders[id], side) && orders[id].price == price
  }

  ghost predicate LevelAgrees(orders: map<u64, Order>, side: Side, m: Levels, price: u32) {
    && QtyAt(m, price) == SumAt(orders, side, price)
    && (price in m <==> SomeOrderAt(orders, side, price))
  }

  ghost predicate SideAgrees(orders: map<u64, Order>, side: Side, m: Levels) {
    forall price :: LevelAgrees(orders, side, m, price)
  }

  /** The aggregate invariant: live orders have positive quantity, each level holds the sum of the live
      orders at its price, and a price has a level exactly when some live order is there. At most 2^32
      orders are live, so that no level sum reaches 2^64. */
  ghost predicate Inv(b: BookState) {
    && |b.orders| <= TWO_TO_32
    && (forall id | id in b.orders :: b.orders[id].qty > 0)
    && SideAgrees(b.orders, Bid, b.bids)
    && SideAgrees(b.orders, Ask, b.asks)
  }

  /** What a caller owes: fresh order ids, positive quantities, live orders with enough left, and
      fewer than 2^32 live orders when one is added. */
  predicate Legal(b: BookState, op: BookOp) {
    match op
    case Add(id, side, qty, price) => id !in b.orders && qty > 0 && |b.orders| < TWO_TO_32
    case Cancel(id, qty) => id in b.orders && qty <= b.orders[id].qty
    case Execute(id, qty) => id in b.orders && qty <= b.orders[id].qty
    case Replace(id, newId, qty, price) => id in b.orders && qty > 0 && (newId == id || newId !in b.orders)
    case Delete(id) => id in b.orders
  }

  /** The book's own checks, before it touches the levels. */
  predicate PassesChecks(b: BookState, op: BookOp) {
    match op
    case Add(id, side, qty, price) => true
    case Cancel(id, qty) => id in b.orders && qty <= b.orders[id].qty
    case Execute(id, qty) => id in b.orders && qty <= b.orders[id].qty
    case Replace(id, newId, qty, price) => id in b.orders
    case Delete(id) => id in b.orders
  }

  // ----- How the sums move when one order changes -----

  lemma {:induction false} SumAtUpdate(orders: map<u64, Order>, id: u64, o: Order, side: Side, price: u32)
    ensures SumAt(orders[id := o], side, price)
         == SumAt(orders, side, price) - (if id in orders then Weight(orders[id], side, price) else 0)
            + Weight(o, side, price)
  {
    SumUpdate(Weights(orders, side, price), id, Weight(o, side, price));
    assert Weights(orders[id := o], side, price) == Weights(orders, side, price)[id := Weight(o, side, price)];
  }

  lemma {:induction false} SumAtErase(orders: map<u64, Order>, id: u64, side: Side, price: u32)
    requires id in orders
    ensures SumAt(orders - {id}, side, price) == SumAt(orders, side, price) - Weight(orders[id], side, price)
  {
    SumWithout(Weights(orders, side, price), id);
    assert Weights(orders - {id}, side, price) == Weights(orders, side, price) - {id};
  }

  /** With at most 2^32 orders of 32-bit quantities, no level sum reaches 2^64; with fewer, there is
      room for one more order. */
  lemma {:induction false} SumAtBound(orders: map<u64, Order>, side: Side, price: u32)
    ensures |orders| <= TWO_TO_32 ==> SumAt(orders, side, price) + TWO_TO_32 <= TWO_TO_64
    ensures |orders| < TWO_TO_32 ==> SumAt(orders, side, price) + 2 * TWO_TO_32 <= TWO_TO_64 + 1
  {
    SumBound32(Weights(orders, side, price));
    assert Weights(orders, side, price).Keys == orders.Keys;
    assert |Weights(orders, side, price)| == |Weights(orders, side, price).Keys| == |orders.Keys| == |orders|;
  }

  lemma {:induction false} PositiveSum(orders: map<u64, Order>, side: Side, price: u32)
    requires forall id | id in orders :: orders[id].qty > 0
    ensures SumAt(orders, side, price) > 0 <==> SomeOrderAt(orders, side, price)
  {
    var w := Weights(orders, side, price);
    SumZero(w);
    if SomeOrderAt(orders, side, price) {
      var id :| id in orders && IsOn(orders[id], side) && orders[id].price == price;
      assert w[id] > 0;
    }
  }

  /** A live order's level exists and holds at least the order's quantity. */
  lemma {:induction false} OrderIsCovered(b: BookState, id: u64)
    requires Inv(b) && id in b.orders
    ensures
      var o := b.orders[id];
      var m := LevelsOf(b, BookSide(o.side));
      o.price in m && o.qty <= m[o.price]
  {
    var o := b.orders[id];
    var s := BookSide(o.side);
    SumWithout(Weights(b.orders, s, o.price), id);
    assert LevelAgrees(b.orders, s, LevelsOf(b, s), o.price);
  }
}
