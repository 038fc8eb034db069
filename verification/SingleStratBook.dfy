/** The order book that pushes its changes straight into a single-consumer queue: how it relates to the
    order book that returns them. */
module SingleStratSpec {
  import opened Shared
  import opened LevelSpec
  import opened BookSpec
  import opened BookProofs
  import opened BookTheorems

  /** One operation, when the queue has room for one more change or not. A replacement inserts the new
      order first and erases the old one last. */
  ghost function ApplySingle(b: BookState, room: bool, op: BookOp): Outcome<Updated> {
    match SingleUpdate(b, op)
    case Abort(why) => Abort(why)
    case Done(u) => if u.change.side != NoSide && !room then Abort(QueueFull) else Done(u)
  }

  ghost function SingleUpdate(b: BookState, op: BookOp): Outcome<Updated> {
    match op
    case Replace(id, newId, qty, price) =>
      if id !in b.orders then Abort(OrderNotFound)
      else (
        var o := b.orders[id];
        match RemoveFrom(b, o.side, Level(o.qty, o.price))
        case Abort(why) => Abort(why)
        case Done(rem) =>
          var add := AddTo(rem.book, o.side, Level(qty, price));
          Done(Updated(
                 add.book.(orders := InsertOrder(b.orders, newId, Order(qty, price, o.side)) - {id}),
                 MergeChanges(rem.change, add.change))))
    case _ => Apply(b, op)
  }

  predicate ReplacesOwnId(op: BookOp) {
    op.Replace? && op.newId == op.id
  }

  /** The two books do the same for an operation that does not abort if and only if it does not
      replace an order under its own id. Then this book loses the order, whose shares stay in the
      level; the changes are the same in every case. */
  lemma {:induction false} SameExactlyForDistinctIds(b: BookState, op: BookOp)
    requires Apply(b, op).Done?
    ensures SingleUpdate(b, op).Done?
    ensures SingleUpdate(b, op).value.change == Apply(b, op).value.change
    ensures SingleUpdate(b, op).value.book == Apply(b, op).value.book <==> !ReplacesOwnId(op)
    ensures
      var single, plain := SingleUpdate(b, op).value.book, Apply(b, op).value.book;
      && single.bids == plain.bids && single.asks == plain.asks
      && (ReplacesOwnId(op) ==> op.id in plain.orders && single.orders == plain.orders - {op.id})
  {
    match op
    case Replace(id, newId, qty, price) =>
      var o := Order(qty, price, b.orders[id].side);
      if newId != id {
        assert InsertOrder(b.orders, newId, o) - {id} == InsertOrder(b.orders - {id}, newId, o);
      }
    case _ =>
  }

  /** An order for 5 at 100 that is replaced under its own id by one for 7 is gone, while the level at 100
      goes on to offer 7. */
  lemma {:induction false} OwnIdLosesOrder()
    ensures
      var b := BookState(map[1 := Order(5, 100, Bid)], map[100 := 5], map[]);
      var replace := Replace(1, 1, 7, 100);
      && Apply(EMPTY_BOOK, Add(1, Bid, 5, 100)).value.book == b
      && Inv(b) && Legal(b, replace) && SingleUpdate(b, replace).Done?
      && SingleUpdate(b, replace).value.book == BookState(map[], map[100 := 7], map[])
      && !Inv(SingleUpdate(b, replace).value.book)
  {
    var b := Apply(EMPTY_BOOK, Add(1, Bid, 5, 100)).value.book;
    EmptyView();
    LegalKeepsInv(EMPTY_BOOK, Add(1, Bid, 5, 100));
    var lost := BookState(map[], map[100 := 7], map[]);
    assert !LevelAgrees(lost.orders, Bid, lost.bids, 100);
  }

  lemma {:induction false} SameAborts(b: BookState, op: BookOp)
    ensures Apply(b, op).Abort? ==> SingleUpdate(b, op) == Abort(Apply(b, op).why)
    ensures Apply(b, op).Done? <==> SingleUpdate(b, op).Done?
  {
    if op.Replace? {
    }
  }

  /** The changes that reach the queue. */
  function Pushed(change: BestLvlChange): seq<BestLvlChange> {
    if change.side != NoSide then [change] else []
  }

  function AllPushed(changes: seq<BestLvlChange>): seq<BestLvlChange>
    decreases |changes|
  {
    if changes == [] then []
    else AllPushed(changes[..|changes| - 1]) + Pushed(changes[|changes| - 1])
  }

  /** A run with a queue that never fills. */
  ghost function RunSingle(b: BookState, ops: seq<BookOp>): Outcome<RunResult>
    decreases |ops|
  {
    if ops == [] then Done(RunResult(b, []))
    else
      var last := |ops| - 1;
      match RunSingle(b, ops[..last])
      case Abort(why) => Abort(why)
      case Done(r) =>
        match ApplySingle(r.book, true, ops[last])
        case Abort(why) => Abort(why)
        case Done(u) => Done(RunResult(u.book, r.changes + Pushed(u.change)))
  }

  /** Trace equivalence: over any run whose replacements use new ids, with a queue that never fills, this
      book ends in the same state as the other one, aborts where it aborts, and has pushed exactly
      the changes that the other one returned, leaving out the empty ones. */
  lemma {:induction false} TraceEquivalent(b: BookState, ops: seq<BookOp>)
    requires forall op | op in ops :: !ReplacesOwnId(op)
    ensures
      match Run(b, ops)
      case Abort(why) => RunSingle(b, ops) == Abort(why)
      case Done(r) => RunSingle(b, ops) == Done(RunResult(r.book, AllPushed(r.changes)))
    decreases |ops|
  {
    if ops == [] {
    } else {
      var before, op := ops[..|ops| - 1], ops[|ops| - 1];
      TraceEquivalent(b, before);
      if Run(b, before).Done? {
        var r := Run(b, before).value;
        SameAborts(r.book, op);
        if Apply(r.book, op).Done? {
          SameExactlyForDistinctIds(r.book, op);
          var u := Apply(r.book, op).value;
          assert (r.changes + [u.change])[..|r.changes|] == r.changes;
        }
      }
    }
  }
}

/** The same book as the object the code declares, pushing into the single-consumer ring. */
module SingleStratBooks {
  import opened Shared
  import LevelSpec
  import opened BookSpec
  import opened SplitLevels
  import opened BookSides
  import opened SingleStratSpec
  import opened SpscQueue

  function SideCode(side: Side): nat {
    match side
    case NoSide => 0
    case Bid => 66
    case Ask => 83
    case Unknown => 1
  }

  /** A change as the words that travel through the queue. */
  function Encode(change: BestLvlChange): (words: seq<nat>)
    ensures |words| == 3
  {
    [change.qty, change.price, SideCode(change.side)]
  }

  function EncodePushed(change: BestLvlChange): seq<seq<nat>> {
    if change.side != NoSide then [Encode(change)] else []
  }

  /** The book, whether the queue has room, and what has been pushed so far. */
  datatype Snapshot = Snapshot(book: BookState, room: bool, pushed: seq<seq<nat>>)

  /** The result and the new state are what `ApplySingle` prescribes. An abort ends the process, so
      nothing is said of the state it leaves. */
  ghost predicate Follows(before: Snapshot, op: BookOp, r: Outcome<BestLvlChange>, after: Snapshot) {
    match ApplySingle(before.book, before.room, op)
    case Abort(why) => r == Abort(why)
    case Done(u) =>
      r == Done(u.change) && after.book == u.book && after.pushed == before.pushed + EncodePushed(u.change)
  }

  class SingleStratOrderBook {
    var orders: map<u64, Order>
    const bidLevels: VectorLevelBSearchSplit
    const askLevels: VectorLevelBSearchSplit
    const queue: SPSCQueue
    ghost const Repr: set<object>

    ghost predicate Valid()
      reads this, bidLevels, askLevels, queue, queue.buffer
    {
      && Repr == {this, bidLevels, askLevels}
      && queue !in Repr && queue.buffer !in Repr
      && Sides(bidLevels, askLevels)
      && queue.Valid() && queue.ring.words == 3
    }

    ghost function State(): BookState
      reads this, bidLevels, askLevels
    {
      BookState(orders, bidLevels.contents, askLevels.contents)
    }

    ghost predicate Room()
      requires queue.Valid()
      reads queue, queue.buffer
    {
      |queue.Contents()| < queue.ring.size - 1
    }

    constructor (queue: SPSCQueue)
      requires queue.Valid() && queue.ring.words == 3
      ensures Valid() && fresh(Repr) && State() == EMPTY_BOOK && this.queue == queue
    {
      orders := map[];
      var b := new VectorLevelBSearchSplit(Bid);
      var a := new VectorLevelBSearchSplit(Ask);
      bidLevels := b;
      askLevels := a;
      this.queue := queue;
      Repr := {this, b, a};
    }

    /** Pushes a change that is not empty; a full queue aborts. */
    method Publish(change: BestLvlChange) returns (r: Outcome<BestLvlChange>)
      requires Valid()
      modifies queue, queue.buffer
      ensures Valid()
      ensures r == if change.side != NoSide && !old(Room()) then Abort(QueueFull) else Done(change)
      ensures r.Done? ==> queue.pushed == old(queue.pushed) + EncodePushed(change)
    {
      if change.side != NoSide {
        var res := queue.TryPush(Encode(change));
        if !res {
          return Abort(QueueFull);
        }
      }
      r := Done(change);
    }

    method RemoveAndPublish(side: Side, level: Level) returns (r: Outcome<BestLvlChange>)
      requires Valid()
      modifies bidLevels, askLevels, queue, queue.buffer
      ensures Valid()
      ensures
        match RemoveFrom(old(State()), side, level)
        case Abort(why) => r == Abort(why)
        case Done(u) =>
          if u.change.side != NoSide && !old(Room()) then r == Abort(QueueFull)
          else r == Done(u.change) && State() == u.book && queue.pushed == old(queue.pushed) + EncodePushed(u.change)
    {
      r := RemoveFromSide(bidLevels, askLevels, orders, side, level);
      if r.Abort? {
        return;
      }
      r := Publish(r.value);
    }

    method MoveAndPublish(side: Side, from: Level, to: Level) returns (r: Outcome<BestLvlChange>)
      requires Valid()
      modifies bidLevels, askLevels, queue, queue.buffer
      ensures Valid()
      ensures
        match RemoveFrom(old(State()), side, from)
        case Abort(why) => r == Abort(why)
        case Done(rem) =>
          var add := AddTo(rem.book, side, to);
          var change := MergeChanges(rem.change, add.change);
          if change.side != NoSide && !old(Room()) then r == Abort(QueueFull)
          else r == Done(change) && State() == add.book && queue.pushed == old(queue.pushed) + EncodePushed(change)
    {
      r := MoveLevel(bidLevels, askLevels, orders, side, from, to);
      if r.Abort? {
        return;
      }
      r := Publish(r.value);
    }

    ghost function Snap(): Snapshot
      requires queue.Valid()
      reads this, bidLevels, askLevels, queue, queue.buffer
    {
      Snapshot(State(), Room(), queue.pushed)
    }

    method AddOrder(id: u64, side: Side, qty: u32, price: u32) returns (r: Outcome<BestLvlChange>)
      requires Valid()
      modifies Repr, queue, queue.buffer
      ensures Valid() && Follows(old(Snap()), Add(id, side, qty, price), r, Snap())
    {
      orders := InsertOrder(orders, id, Order(qty, price, side));
      var change := AddToSide(bidLevels, askLevels, orders, side, Level(qty, price));
      r := Publish(change);
    }

    method ReduceOrderInPlace(id: u64, qty: u32) returns (r: Outcome<BestLvlChange>)
      requires Valid()
      modifies Repr, queue, queue.buffer
      ensures Valid() && Follows(old(Snap()), Cancel(id, qty), r, Snap()) && Follows(old(Snap()), Execute(id, qty), r, Snap())
    {
      if id !in orders {
        return Abort(OrderNotFound);
      }
      var order := orders[id];
      if order.qty < qty {
        return Abort(QtyTooLarge);
      }
      r := RemoveAndPublish(order.side, Level(qty, order.price));
      if r.Abort? {
        return;
      }
      orders := ReduceEntry(orders, id, qty);
    }

    method CancelOrder(id: u64, qty: u32) returns (r: Outcome<BestLvlChange>)
      requires Valid()
      modifies Repr, queue, queue.buffer
      ensures Valid() && Follows(old(Snap()), Cancel(id, qty), r, Snap())
    {
      r := ReduceOrderInPlace(id, qty);
    }

    method ExecuteOrder(id: u64, qty: u32) returns (r: Outcome<BestLvlChange>)
      requires Valid()
      modifies Repr, queue, queue.buffer
      ensures Valid() && Follows(old(Snap()), Execute(id, qty), r, Snap())
    {
      r := ReduceOrderInPlace(id, qty);
    }

    method ReplaceOrder(id: u64, newId: u64, qty: u32, price: u32) returns (r: Outcome<BestLvlChange>)
      requires Valid()
      modifies Repr, queue, queue.buffer
      ensures Valid() && Follows(old(Snap()), Replace(id, newId, qty, price), r, Snap())
    {
      if id !in orders {
        return Abort(OrderNotFound);
      }
      var oldOrder := orders[id];
      var newOrder := Order(qty, price, oldOrder.side);
      orders := InsertOrder(orders, newId, newOrder);
      r := MoveAndPublish(newOrder.side, Level(oldOrder.qty, oldOrder.price), Level(qty, price));
      if r.Abort? {
        return;
      }
      orders := orders - {id};
    }

    method DeleteOrder(id: u64) returns (r: Outcome<BestLvlChange>)
      requires Valid()
      modifies Repr, queue, queue.buffer
      ensures Valid() && Follows(old(Snap()), Delete(id), r, Snap())
    {
      if id !in orders {
        return Abort(OrderNotFound);
      }
      var order := orders[id];
      r := RemoveAndPublish(order.side, Level(order.qty, order.price));
      if r.Abort? {
        return;
      }
      orders := orders - {id};
    }
  }
}
