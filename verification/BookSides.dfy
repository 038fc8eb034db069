/** What both order books do to their two level structures and to an entry of their order map. */
module BookSides {
  import opened Shared
  import LevelSpec
  import opened BookSpec
  import opened SplitLevels

  ghost predicate Sides(bids: VectorLevelBSearchSplit, asks: VectorLevelBSearchSplit)
    reads bids, asks
  {
    && bids != asks
    && bids.side == Bid && asks.side == Ask
    && bids.Valid() && asks.Valid()
  }

  /** Takes quantity off the level structure of one side. */
  method RemoveFromSide(
    bids: VectorLevelBSearchSplit, asks: VectorLevelBSearchSplit, ghost orders: map<u64, Order>, side: Side, level: Level)
    returns (r: Outcome<BestLvlChange>)
    requires Sides(bids, asks)
    modifies bids, asks
    ensures Sides(bids, asks)
    ensures
      var after := BookState(orders, bids.contents, asks.contents);
      match RemoveFrom(BookState(orders, old(bids.contents), old(asks.contents)), side, level)
      case Abort(why) => r == Abort(why) && after == BookState(orders, old(bids.contents), old(asks.contents))
      case Done(u) => r == Done(u.change) && after == u.book
  {
    if side == Bid {
      r := bids.Remove(level);
    } else {
      r := asks.Remove(level);
    }
  }

  method AddToSide(
    bids: VectorLevelBSearchSplit, asks: VectorLevelBSearchSplit, ghost orders: map<u64, Order>, side: Side, level: Level)
    returns (change: BestLvlChange)
    requires Sides(bids, asks)
    modifies bids, asks
    ensures Sides(bids, asks)
    ensures AddTo(BookState(orders, old(bids.contents), old(asks.contents)), side, level)
         == Updated(BookState(orders, bids.contents, asks.contents), change)
  {
    if side == Bid {
      change := bids.Add(level);
    } else {
      change := asks.Add(level);
    }
  }

  /** Moves quantity from one level to another and picks the change to report: the one of the add,
      unless it is silent. */
  method MoveLevel(
    bids: VectorLevelBSearchSplit, asks: VectorLevelBSearchSplit, ghost orders: map<u64, Order>,
    side: Side, from: Level, to: Level)
    returns (r: Outcome<BestLvlChange>)
    requires Sides(bids, asks)
    modifies bids, asks
    ensures Sides(bids, asks)
    ensures
      var after := BookState(orders, bids.contents, asks.contents);
      match RemoveFrom(BookState(orders, old(bids.contents), old(asks.contents)), side, from)
      case Abort(why) => r == Abort(why) && after == BookState(orders, old(bids.contents), old(asks.contents))
      case Done(rem) =>
        var add := AddTo(rem.book, side, to);
        after == add.book && r == Done(MergeChanges(rem.change, add.change))
  {
    r := RemoveFromSide(bids, asks, orders, side, from);
    if r.Abort? {
      return;
    }
    var add := AddToSide(bids, asks, orders, side, to);
    if add.side != NoSide {
      r := Done(add);
    }
  }

  /** Lowers the quantity of a live order and drops the order when nothing is left. */
  method ReduceEntry(orders: map<u64, Order>, id: u64, qty: u32) returns (reduced: map<u64, Order>)
    requires id in orders && qty <= orders[id].qty
    ensures reduced == ReduceOrder(orders, id, qty)
  {
    var order := orders[id];
    order := order.(qty := order.qty - qty);
    EraseAfterUpdate(orders, id, order);
    reduced := orders[id := order];
    if order.qty == 0 {
      reduced := reduced - {id};
    }
  }
}
