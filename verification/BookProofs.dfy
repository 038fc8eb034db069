/** The incremental order book agrees with the orders it was told about, after every run. */
module BookProofs {
  import opened Bits
  import opened Shared
  import opened LevelSpec
  import opened Sums
  import opened BookSpec

  ghost predicate PositiveOrders(orders: map<u64, Order>) {
    forall id | id in orders :: orders[id].qty > 0
  }

  lemma {:induction false} AgreesFromSums(orders: map<u64, Order>, side: Side, m: Levels)
    requires PositiveOrders(orders)
    requires forall p: u32 :: QtyAt(m, p) == SumAt(orders, side, p) && (p in m ==> m[p] > 0)
    ensures SideAgrees(orders, side, m)
  {
    forall p: u32
      ensures LevelAgrees(orders, side, m, p)
    {
      PositiveSum(orders, side, p);
      assert QtyAt(m, p) == SumAt(orders, side, p);
    }
  }

  lemma {:induction false} SumsFromAgrees(orders: map<u64, Order>, side: Side, m: Levels, p: u32)
    requires PositiveOrders(orders) && SideAgrees(orders, side, m)
    ensures QtyAt(m, p) == SumAt(orders, side, p) && (p in m ==> m[p] > 0)
  {
    assert LevelAgrees(orders, side, m, p);
    PositiveSum(orders, side, p);
  }

  /** While fewer than 2^32 orders are live, adding one more cannot wrap a 64-bit level quantity. */
  lemma {:induction false} LevelHasRoom(b: BookState, o: Order)
    requires Inv(b) && |b.orders| < TWO_TO_32
    ensures QtyAt(LevelsOf(b, BookSide(o.side)), o.price) + o.qty < TWO_TO_64
  {
    var side := BookSide(o.side);
    assert LevelAgrees(b.orders, side, LevelsOf(b, side), o.price);
    SumAtBound(b.orders, side, o.price);
  }

  /** A new order on one side: its level grows by its quantity. */
  lemma {:induction false} AddAgrees(orders: map<u64, Order>, id: u64, o: Order, m: Levels)
    requires id !in orders && |orders| < TWO_TO_32
    requires PositiveOrders(orders) && o.qty > 0
    requires SideAgrees(orders, BookSide(o.side), m)
    ensures SideAgrees(orders[id := o], BookSide(o.side), AddLevel(m, Level(o.qty, o.price)))
  {
    var side := BookSide(o.side);
    var m' := AddLevel(m, Level(o.qty, o.price));
    forall p: u32
      ensures QtyAt(m', p) == SumAt(orders[id := o], side, p) && (p in m' ==> m'[p] > 0)
    {
      SumsFromAgrees(orders, side, m, p);
      SumAtUpdate(orders, id, o, side, p);
      SumAtBound(orders, side, p);
    }
    AgreesFromSums(orders[id := o], side, m');
  }

  /** A new order leaves the other side alone. */
  lemma {:induction false} AddOtherSide(orders: map<u64, Order>, id: u64, o: Order, side: Side, m: Levels)
    requires id !in orders && PositiveOrders(orders) && o.qty > 0 && !IsOn(o, side)
    requires SideAgrees(orders, side, m)
    ensures SideAgrees(orders[id := o], side, m)
  {
    forall p: u32
      ensures QtyAt(m, p) == SumAt(orders[id := o], side, p) && (p in m ==> m[p] > 0)
    {
      SumsFromAgrees(orders, side, m, p);
      SumAtUpdate(orders, id, o, side, p);
    }
    AgreesFromSums(orders[id := o], side, m);
  }

  lemma {:induction false} SumAtReduce(orders: map<u64, Order>, id: u64, qty: u32, side: Side, p: u32)
    requires id in orders && qty <= orders[id].qty
    ensures SumAt(ReduceOrder(orders, id, qty), side, p)
         == SumAt(orders, side, p)
            - (if IsOn(orders[id], side) && orders[id].price == p then qty else 0)
  {
    if orders[id].qty == qty {
      SumAtErase(orders, id, side, p);
    } else {
      SumAtUpdate(orders, id, orders[id].(qty := orders[id].qty - qty), side, p);
    }
  }

  /** Taking quantity off a live order: its level shrinks by as much and goes when it reaches zero. */
  lemma {:induction false} ReduceAgrees(b: BookState, id: u64, qty: u32, side: Side)
    requires Inv(b) && id in b.orders && qty <= b.orders[id].qty && (side == Bid || side == Ask)
    ensures
      var o := b.orders[id];
      var m := LevelsOf(b, side);
      if side == BookSide(o.side)
      then RemoveLevel(m, Level(qty, o.price)).Done?
           && SideAgrees(ReduceOrder(b.orders, id, qty), side, RemoveLevel(m, Level(qty, o.price)).value)
      else SideAgrees(ReduceOrder(b.orders, id, qty), side, m)
  {
    var o := b.orders[id];
    var m := LevelsOf(b, side);
    OrderIsCovered(b, id);
    var m' := if side == BookSide(o.side) then RemoveLevel(m, Level(qty, o.price)).value else m;
    forall p: u32
      ensures QtyAt(m', p) == SumAt(ReduceOrder(b.orders, id, qty), side, p) && (p in m' ==> m'[p] > 0)
    {
      SumsFromAgrees(b.orders, side, m, p);
      SumAtReduce(b.orders, id, qty, side, p);
    }
    AgreesFromSums(ReduceOrder(b.orders, id, qty), side, m');
  }

  lemma {:induction false} ReduceKeepsInv(b: BookState, id: u64, qty: u32)
    requires Inv(b) && id in b.orders && qty <= b.orders[id].qty
    ensures Reduce(b, id, qty).Done? && Inv(Reduce(b, id, qty).value.book)
  {
    ReduceAgrees(b, id, qty, Bid);
    ReduceAgrees(b, id, qty, Ask);
    SizeWithout(b.orders, id);
    var o := b.orders[id];
    if qty < o.qty {
      assert b.orders[id := o.(qty := o.qty - qty)].Keys == b.orders.Keys;
    }
  }

  lemma {:induction false} AddKeepsInv(b: BookState, id: u64, o: Order)
    requires Inv(b) && id !in b.orders && o.qty > 0 && |b.orders| < TWO_TO_32
    ensures Inv(AddTo(b, o.side, Level(o.qty, o.price)).book.(orders := b.orders[id := o]))
  {
    var side := BookSide(o.side);
    var other := if side == Bid then Ask else Bid;
    AddAgrees(b.orders, id, o, LevelsOf(b, side));
    AddOtherSide(b.orders, id, o, other, LevelsOf(b, other));
    assert b.orders[id := o].Keys == b.orders.Keys + {id};
  }

  /** The internal aborts of the level structure are unreachable: from a state that satisfies the
      invariant, an operation aborts exactly when one of the book's own checks fails, and then for
      that reason. */
  lemma {:induction false} AbortsOnlyByOwnChecks(b: BookState, op: BookOp)
    requires Inv(b)
    ensures Apply(b, op).Abort? <==> !PassesChecks(b, op)
    ensures Apply(b, op).Abort? ==> Apply(b, op).why == OrderNotFound || Apply(b, op).why == QtyTooLarge
  {
    if !op.Add? && op.id in b.orders {
      OrderIsCovered(b, op.id);
    }
  }

  /** Every legal operation succeeds and keeps the aggregate invariant. */
  lemma {:induction false} LegalKeepsInv(b: BookState, op: BookOp)
    requires Inv(b) && Legal(b, op)
    ensures Apply(b, op).Done? && Inv(Apply(b, op).value.book)
  {
    match op
    case Add(id, side, qty, price) => AddKeepsInv(b, id, Order(qty, price, side));
    case Cancel(id, qty) => ReduceKeepsInv(b, id, qty);
    case Execute(id, qty) => ReduceKeepsInv(b, id, qty);
    case Replace(id, newId, qty, price) =>
      var o := b.orders[id];
      ReduceKeepsInv(b, id, o.qty);
      var rem := Reduce(b, id, o.qty).value.book;
      SizeWithout(b.orders, id);
      AddKeepsInv(rem, newId, Order(qty, price, o.side));
      assert Apply(b, op).value.book == AddTo(rem, o.side, Level(qty, price)).book.(orders := rem.orders[newId := Order(qty, price, o.side)]);
    case Delete(id) =>
      ReduceKeepsInv(b, id, b.orders[id].qty);
      assert Apply(b, op).value.book == Reduce(b, id, b.orders[id].qty).value.book;
  }
}
