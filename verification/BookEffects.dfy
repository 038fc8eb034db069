/** What each operation does to a book, said price by price and order by order: which side moves, by how
    much, which order comes and goes, and when something is reported. */
module BookEffects {
  import opened Bits
  import opened Shared
  import opened LevelSpec
  import opened BookSpec

  ghost predicate SameElsewhere(m: Levels, m': Levels, price: u32) {
    forall p: u32 | p != price :: (p in m <==> p in m') && (p in m ==> m[p] == m'[p])
  }

  /** One price has gained a quantity, and nothing else has moved. */
  ghost predicate Gains(m: Levels, m': Levels, price: u32, qty: nat) {
    && SameElsewhere(m, m', price)
    && price in m' && m'[price] == ((if price in m then m[price] else 0) + qty) % TWO_TO_64
  }

  /** One price has lost a quantity, and is gone when nothing is left. */
  ghost predicate Loses(m: Levels, m': Levels, price: u32, qty: nat) {
    && SameElsewhere(m, m', price)
    && price in m && qty <= m[price]
    && (price in m' <==> qty < m[price])
    && (price in m' ==> m'[price] == m[price] - qty)
  }

  /** At least as good as a price: as high for bids, as low for asks. */
  predicate AsGood(bid: bool, p: u32, price: u32) {
    if bid then p >= price else p <= price
  }

  /** Two prices are at least as good, so that an addition is not reported. */
  predicate TwoAsGood(bid: bool, m: Levels, price: u32) {
    exists p, q | p in m && q in m :: p != q && AsGood(bid, p, price) && AsGood(bid, q, price)
  }

  /** Some other price is better, so that a removal is not reported. */
  predicate OneBetter(bid: bool, m: Levels, price: u32) {
    exists p | p in m :: p != price && AsGood(bid, p, price)
  }

  lemma {:induction false} AddLevelGains(m: Levels, l: Level)
    ensures Gains(m, AddLevel(m, l), l.price, l.qty)
  {
  }

  lemma {:induction false} RemoveLevelLoses(m: Levels, l: Level)
    ensures
      match RemoveLevel(m, l)
      case Abort(why) => if l.price !in m then why == LevelNotFound else why == LevelUnderflow && l.qty > m[l.price]
      case Done(m') => Loses(m, m', l.price, l.qty)
  {
  }

  /** An addition is silent exactly when two prices were at least as good. */
  lemma {:induction false} AddSilentExactlyWhen(side: Side, m: Levels, l: Level)
    requires side == Bid || side == Ask
    ensures AddChange(side, m, l).side == if TwoAsGood(side == Bid, m, l.price) then NoSide else side
  {
    var s := AtLeast(side, m, l.price);
    if TwoAsGood(side == Bid, m, l.price) {
      var p, q :| p in m && q in m && p != q && AsGood(side == Bid, p, l.price) && AsGood(side == Bid, q, l.price);
      assert {p, q} <= s;
      SubsetSize({p, q}, s);
    } else if |s| > 1 {
      var p :| p in s;
      assert s != {p};
      var q :| q in s && q != p;
      assert AsGood(side == Bid, p, l.price) && AsGood(side == Bid, q, l.price);
    }
  }

  lemma {:induction false} SubsetSize<T>(a: set<T>, b: set<T>)
    requires a <= b
    ensures |a| <= |b|
    decreases |a|
  {
    if a == {} {
    } else {
      var x :| x in a;
      SubsetSize(a - {x}, b - {x});
    }
  }

  /** A removal is silent exactly when some other price is better. */
  lemma {:induction false} RemoveSilentExactlyWhen(side: Side, m: Levels, l: Level)
    requires (side == Bid || side == Ask) && RemoveLevel(m, l).Done?
    ensures RemoveChange(side, m, l).side == if OneBetter(side == Bid, m, l.price) then NoSide else side
  {
    var best := Best(side, m);
    if OneBetter(side == Bid, m, l.price) {
      var p :| p in m && p != l.price && AsGood(side == Bid, p, l.price);
      assert !Better(side, p, best.price);
    } else {
      assert l.price in m && best.price in m;
    }
  }

  /** The best bid is the highest price there is, the best ask the lowest, each with its quantity. */
  lemma {:induction false} BestIsExtreme(m: Levels)
    requires m != map[]
    ensures Best(Bid, m).price in m && Best(Bid, m).qty == m[Best(Bid, m).price]
    ensures Best(Ask, m).price in m && Best(Ask, m).qty == m[Best(Ask, m).price]
    ensures forall p | p in m :: Best(Ask, m).price <= p <= Best(Bid, m).price
  {
    assert IsBest(Bid, m, Best(Bid, m)) && IsBest(Ask, m, Best(Ask, m));
    forall p | p in m
      ensures Best(Ask, m).price <= p <= Best(Bid, m).price
    {
      assert !Better(Bid, p, Best(Bid, m).price) && !Better(Ask, p, Best(Ask, m).price);
    }
  }

  /** An addition of a bid moves the bids only, any other the asks only. An order under a live id is not
      recorded, but its quantity is. */
  lemma {:induction false} AddEffect(b: BookState, id: u64, side: Side, qty: u32, price: u32)
    ensures Apply(b, Add(id, side, qty, price)).Done?
    ensures
      var u := Apply(b, Add(id, side, qty, price)).value;
      && u.book.orders == (if id in b.orders then b.orders else b.orders[id := Order(qty, price, side)])
      && (if side == Bid then Gains(b.bids, u.book.bids, price, qty) && u.book.asks == b.asks
          else Gains(b.asks, u.book.asks, price, qty) && u.book.bids == b.bids)
      && u.change.side == (if TwoAsGood(side == Bid, if side == Bid then b.bids else b.asks, price) then NoSide
                           else if side == Bid then Bid else Ask)
  {
    var m := if side == Bid then b.bids else b.asks;
    AddLevelGains(m, Level(qty, price));
    AddSilentExactlyWhen(if side == Bid then Bid else Ask, m, Level(qty, price));
  }

  /** Taking `qty` off a live order: the reasons to abort in the order of the code, or the side of the order
      moves at the price of the order. */
  ghost predicate Reduces(b: BookState, id: u64, qty: u32, r: Outcome<Updated>, left: map<u64, Order>) {
    if id !in b.orders then r == Abort(OrderNotFound)
    else
      var o := b.orders[id];
      var m := if o.side == Bid then b.bids else b.asks;
      if o.qty < qty then r == Abort(QtyTooLarge)
      else if o.price !in m then r == Abort(LevelNotFound)
      else if m[o.price] < qty then r == Abort(LevelUnderflow)
      else
        && r.Done? && r.value.book.orders == left
        && (if o.side == Bid then Loses(b.bids, r.value.book.bids, o.price, qty) && r.value.book.asks == b.asks
            else Loses(b.asks, r.value.book.asks, o.price, qty) && r.value.book.bids == b.bids)
        && r.value.change.side == (if OneBetter(o.side == Bid, m, o.price) then NoSide
                                   else if o.side == Bid then Bid else Ask)
  }

  /** The orders when one has lost part of its quantity: gone when nothing is left. */
  function Reduced(orders: map<u64, Order>, id: u64, qty: u32): map<u64, Order> {
    if id in orders && qty < orders[id].qty
    then orders[id := Order(orders[id].qty - qty, orders[id].price, orders[id].side)]
    else orders - {id}
  }

  lemma {:induction false} RemoveFromEffect(b: BookState, side: Side, l: Level)
    ensures
      var m := if side == Bid then b.bids else b.asks;
      var r := RemoveFrom(b, side, l);
      if l.price !in m then r == Abort(LevelNotFound)
      else if m[l.price] < l.qty then r == Abort(LevelUnderflow)
      else
        && r.Done? && r.value.book.orders == b.orders
        && (if side == Bid then Loses(b.bids, r.value.book.bids, l.price, l.qty) && r.value.book.asks == b.asks
            else Loses(b.asks, r.value.book.asks, l.price, l.qty) && r.value.book.bids == b.bids)
        && r.value.change.side == (if OneBetter(side == Bid, m, l.price) then NoSide else if side == Bid then Bid else Ask)
  {
    var m := if side == Bid then b.bids else b.asks;
    RemoveLevelLoses(m, l);
    if RemoveLevel(m, l).Done? {
      RemoveSilentExactlyWhen(if side == Bid then Bid else Ask, m, l);
    }
  }

  lemma {:induction false} CancelEffect(b: BookState, id: u64, qty: u32)
    ensures Reduces(b, id, qty, Apply(b, Cancel(id, qty)), Reduced(b.orders, id, qty))
    ensures Reduces(b, id, qty, Apply(b, Execute(id, qty)), Reduced(b.orders, id, qty))
  {
    if id in b.orders {
      RemoveFromEffect(b, b.orders[id].side, Level(qty, b.orders[id].price));
    }
  }

  lemma {:induction false} DeleteEffect(b: BookState, id: u64)
    ensures Reduces(b, id, if id in b.orders then b.orders[id].qty else 0, Apply(b, Delete(id)), b.orders - {id})
  {
    if id in b.orders {
      RemoveFromEffect(b, b.orders[id].side, Level(b.orders[id].qty, b.orders[id].price));
    }
  }

  /** A replacement takes the whole old order off its side and puts the new quantity at the new price of the
      same side; between the two the levels are `mid`. */
  ghost predicate Replaces(m: Levels, mid: Levels, m': Levels, o: Order, qty: u32, price: u32, reported: Side) {
    && Loses(m, mid, o.price, o.qty)
    && Gains(mid, m', price, qty)
    && reported == (if TwoAsGood(o.side == Bid, mid, price) && OneBetter(o.side == Bid, m, o.price) then NoSide
                    else if o.side == Bid then Bid else Ask)
  }

  lemma {:induction false} ReplaceEffect(b: BookState, id: u64, newId: u64, qty: u32, price: u32)
    ensures
      var r := Apply(b, Replace(id, newId, qty, price));
      if id !in b.orders then r == Abort(OrderNotFound)
      else
        var o := b.orders[id];
        var m := if o.side == Bid then b.bids else b.asks;
        if o.price !in m then r == Abort(LevelNotFound)
        else if m[o.price] < o.qty then r == Abort(LevelUnderflow)
        else
          && r.Done?
          && r.value.book.orders == (if newId in b.orders && newId != id then b.orders - {id}
                                     else (b.orders - {id})[newId := Order(qty, price, o.side)])
          && (if o.side == Bid
              then r.value.book.asks == b.asks
                   && exists mid :: Replaces(b.bids, mid, r.value.book.bids, o, qty, price, r.value.change.side)
              else r.value.book.bids == b.bids
                   && exists mid :: Replaces(b.asks, mid, r.value.book.asks, o, qty, price, r.value.change.side))
  {
    if id in b.orders {
      var o := b.orders[id];
      var m := if o.side == Bid then b.bids else b.asks;
      RemoveFromEffect(b, o.side, Level(o.qty, o.price));
      if o.price in m && o.qty <= m[o.price] {
        var rem := RemoveFrom(b, o.side, Level(o.qty, o.price)).value;
        var mid := if o.side == Bid then rem.book.bids else rem.book.asks;
        AddLevelGains(mid, Level(qty, price));
        AddSilentExactlyWhen(if o.side == Bid then Bid else Ask, mid, Level(qty, price));
        var u := Apply(b, Replace(id, newId, qty, price)).value;
        assert Replaces(m, mid, if o.side == Bid then u.book.bids else u.book.asks, o, qty, price, u.change.side);
      }
    }
  }
}
