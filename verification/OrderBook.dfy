/** The order book as the object the code declares: a hash map of live orders and one level structure
    for each side, updated in place. Every operation is proved to be the step of the state machine in
    `BookSpec`, including the operations that abort. */
module OrderBooks {
  import opened Shared
  import LevelSpec
  import opened BookSpec
  import opened SplitLevels
  import opened BookSides

  /** `after` and the result `r` are what the state machine prescribes for `op`; an abort changes nothing. */
  ghost predicate Follows(before: BookState, op: BookOp, r: Outcome<BestLvlChange>, after: BookState) {
    match Apply(before, op)
    case Abort(why) => r == Abort(why) && after == before
    case Done(u) => r == Done(u.change) && after == u.book
  }

  class OrderBook {
    var orders: map<u64, Order>
    const bidLevels: VectorLevelBSearchSplit
    const askLevels: VectorLevelBSearchSplit

    ghost const Repr: set<object>

    ghost predicate Valid()
      reads this, bidLevels, askLevels
    {
      && Repr == {this, bidLevels, askLevels}
      && Sides(bidLevels, askLevels)
    }

    ghost function State(): BookState
      requires Valid()
      reads this, bidLevels, askLevels
    {
      BookState(orders, bidLevels.contents, askLevels.contents)
    }

    constructor ()
      ensures Valid() && fresh(Repr) && State() == EMPTY_BOOK
    {
      orders := map[];
      var b := new VectorLevelBSearchSplit(Bid);
      var a := new VectorLevelBSearchSplit(Ask);
      bidLevels := b;
      askLevels := a;
      Repr := {this, b, a};
    }

    function BestBid(): (l: Level)
      requires Valid()
      reads this, bidLevels, askLevels
      ensures l == LevelSpec.Best(Bid, State().bids)
    {
      bidLevels.Best()
    }

    function BestAsk(): (l: Level)
      requires Valid()
      reads this, bidLevels, askLevels
      ensures l == LevelSpec.Best(Ask, State().asks)
    {
      askLevels.Best()
    }

    method AddOrder(id: u64, side: Side, qty: u32, price: u32) returns (r: Outcome<BestLvlChange>)
      requires Valid()
      modifies Repr
      ensures Valid()
      ensures Follows(old(State()), Add(id, side, qty, price), r, State())
    {
      var order := Order(qty, price, side);
      orders := InsertOrder(orders, id, order);
      var change := AddToSide(bidLevels, askLevels, orders, side, Level(qty, price));
      r := Done(change);
    }

    /** What `cancel_order` and `execute_order` have in common: everything but the abort message. */
    method ReduceOrderInPlace(id: u64, qty: u32) returns (r: Outcome<BestLvlChange>)
      requires Valid()
      modifies Repr
      ensures Valid()
      ensures
        match Reduce(old(State()), id, qty)
        case Abort(why) => r == Abort(why) && State() == old(State())
        case Done(u) => r == Done(u.change) && State() == u.book
    {
      if id !in orders {
        return Abort(OrderNotFound);
      }
      var order := orders[id];
      if order.qty < qty {
        return Abort(QtyTooLarge);
      }
      r := RemoveFromSide(bidLevels, askLevels, orders, order.side, Level(qty, order.price));
      if r.Abort? {
        return;
      }
      orders := ReduceEntry(orders, id, qty);
    }

    method CancelOrder(id: u64, qty: u32) returns (r: Outcome<BestLvlChange>)
      requires Valid()
      modifies Repr
      ensures Valid()
      ensures Follows(old(State()), Cancel(id, qty), r, State())
    {
      r := ReduceOrderInPlace(id, qty);
    }

    method ExecuteOrder(id: u64, qty: u32) returns (r: Outcome<BestLvlChange>)
      requires Valid()
      modifies Repr
      ensures Valid()
      ensures Follows(old(State()), Execute(id, qty), r, State())
    {
      r := ReduceOrderInPlace(id, qty);
    }

    method ReplaceOrder(id: u64, newId: u64, qty: u32, price: u32) returns (r: Outcome<BestLvlChange>)
      requires Valid()
      modifies Repr
      ensures Valid()
      ensures Follows(old(State()), Replace(id, newId, qty, price), r, State())
    {
      if id !in orders {
        return Abort(OrderNotFound);
      }
      var oldOrder := orders[id];
      var newOrder := Order(qty, price, oldOrder.side);
      r := MoveLevel(bidLevels, askLevels, orders, newOrder.side, Level(oldOrder.qty, oldOrder.price), Level(qty, price));
      if r.Abort? {
        return;
      }
      orders := orders - {id};
      orders := InsertOrder(orders, newId, newOrder);
    }

    method DeleteOrder(id: u64) returns (r: Outcome<BestLvlChange>)
      requires Valid()
      modifies Repr
      ensures Valid()
      ensures Follows(old(State()), Delete(id), r, State())
    {
      if id !in orders {
        return Abort(OrderNotFound);
      }
      var order := orders[id];
      r := RemoveFromSide(bidLevels, askLevels, orders, order.side, Level(order.qty, order.price));
      if r.Abort? {
        return;
      }
      orders := orders - {id};
    }
  }
}
