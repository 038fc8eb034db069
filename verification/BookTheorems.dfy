/** Whole-run properties of the order book: when the invariant survives, what a subscriber to the
    reported changes knows, and conservation of shares. */
module BookTheorems {
  import opened Bits
  import opened Shared
  import opened LevelSpec
  import opened Sums
  import opened BookSpec
  import opened BookProofs

  // ----- Exactly when an operation keeps the aggregate invariant -----

  /** A zero-quantity order whose id is already taken, at a price that keeps its level: it changes nothing. */
  predicate Vacuous(b: BookState, op: BookOp) {
    match op
    case Add(id, side, qty, price) =>
      id in b.orders && qty == 0 && price in LevelsOf(b, BookSide(side))
    case Replace(id, newId, qty, price) =>
      && id in b.orders && newId != id && newId in b.orders && qty == 0
      && var m := LevelsOf(b, BookSide(b.orders[id].side));
         price in m && !(price == b.orders[id].price && m[price] == b.orders[id].qty)
    case _ => false
  }

  ghost function AddOrder(b: BookState, id: u64, o: Order): BookState {
    AddTo(b, o.side, Level(o.qty, o.price)).book.(orders := InsertOrder(b.orders, id, o))
  }

  lemma {:induction false} AddFreshExact(b: BookState, id: u64, o: Order)
    requires Inv(b) && id !in b.orders
    ensures Inv(AddOrder(b, id, o)) <==> o.qty > 0 && |b.orders| < TWO_TO_32
  {
    var b' := AddOrder(b, id, o);
    assert b'.orders.Keys == b.orders.Keys + {id};
    if o.qty > 0 && |b.orders| < TWO_TO_32 {
      AddKeepsInv(b, id, o);
    } else if o.qty == 0 {
      assert b'.orders[id].qty == 0;
    }
  }

  lemma {:induction false} AddDuplicateExact(b: BookState, id: u64, o: Order)
    requires Inv(b) && id in b.orders
    ensures Inv(AddOrder(b, id, o)) <==> o.qty == 0 && o.price in LevelsOf(b, BookSide(o.side))
  {
    var side := BookSide(o.side);
    var m := LevelsOf(b, side);
    var b' := AddOrder(b, id, o);
    SumAtBound(b.orders, side, o.price);
    assert LevelAgrees(b.orders, side, m, o.price);
    if o.qty == 0 && o.price in m {
      assert AddLevel(m, Level(o.qty, o.price)) == m;
      assert b' == b;
    } else {
      assert !LevelAgrees(b'.orders, side, LevelsOf(b', side), o.price);
    }
  }

  /** From a state that satisfies the aggregate invariant, an operation that succeeds keeps it if and
      only if the caller met its obligations (or the operation was a no-op of zero quantity). */
  lemma {:induction false} InvKeptExactlyWhenLegal(b: BookState, op: BookOp)
    requires Inv(b) && Apply(b, op).Done?
    ensures Inv(Apply(b, op).value.book) <==> Legal(b, op) || Vacuous(b, op)
  {
    match op
    case Add(id, side, qty, price) =>
      if id in b.orders {
        AddDuplicateExact(b, id, Order(qty, price, side));
      } else {
        AddFreshExact(b, id, Order(qty, price, side));
      }
    case Cancel(id, qty) => LegalKeepsInv(b, op);
    case Execute(id, qty) => LegalKeepsInv(b, op);
    case Delete(id) => LegalKeepsInv(b, op);
    case Replace(id, newId, qty, price) =>
      var o := b.orders[id];
      ReduceKeepsInv(b, id, o.qty);
      var rem := Reduce(b, id, o.qty).value.book;
      SizeWithout(b.orders, id);
      assert Apply(b, op).value.book == AddOrder(rem, newId, Order(qty, price, o.side));
      OrderIsCovered(b, id);
      if newId in rem.orders {
        AddDuplicateExact(rem, newId, Order(qty, price, o.side));
      } else {
        AddFreshExact(rem, newId, Order(qty, price, o.side));
      }
  }

  /** A concrete failure: adding order 1 twice leaves a level of 10 above a single live order of 5. */
  lemma {:induction false} DuplicateIdBreaksInv()
    ensures
      var first := Add(1, Bid, 5, 100);
      && Inv(EMPTY_BOOK) && Apply(EMPTY_BOOK, first).Done? && Inv(Apply(EMPTY_BOOK, first).value.book)
      && Apply(Apply(EMPTY_BOOK, first).value.book, first).Done?
      && !Inv(Apply(Apply(EMPTY_BOOK, first).value.book, first).value.book)
  {
    var first := Add(1, Bid, 5, 100);
    EmptyView();
    LegalKeepsInv(EMPTY_BOOK, first);
    InvKeptExactlyWhenLegal(Apply(EMPTY_BOOK, first).value.book, first);
  }

  // ----- What the reported changes tell -----

  function BestOf(change: BestLvlChange): Level {
    Level(change.qty, change.price)
  }

  /** A reported change carries the new best of its side and the other side's best is unchanged; no
      change means that both bests are unchanged. */
  ghost predicate Truthful(before: BookState, after: BookState, change: BestLvlChange) {
    match change.side
    case Bid => BestOf(change) == Best(Bid, after.bids) && Best(Ask, after.asks) == Best(Ask, before.asks)
    case Ask => BestOf(change) == Best(Ask, after.asks) && Best(Bid, after.bids) == Best(Bid, before.bids)
    case NoSide => Best(Bid, after.bids) == Best(Bid, before.bids) && Best(Ask, after.asks) == Best(Ask, before.asks)
    case Unknown => false
  }

  lemma {:induction false} AddIsTruthful(b: BookState, side: Side, l: Level)
    ensures Truthful(b, AddTo(b, side, l).book, AddTo(b, side, l).change)
  {
    var m := LevelsOf(b, BookSide(side));
    if |AtLeast(BookSide(side), m, l.price)| > 1 {
      SilentAddKeepsBest(BookSide(side), m, l);
    }
  }

  lemma {:induction false} RemoveIsTruthful(b: BookState, side: Side, l: Level)
    requires RemoveFrom(b, side, l).Done?
    ensures Truthful(b, RemoveFrom(b, side, l).value.book, RemoveFrom(b, side, l).value.change)
  {
    var m := LevelsOf(b, BookSide(side));
    if l.price != Best(BookSide(side), m).price {
      SilentRemoveKeepsBest(BookSide(side), m, l);
    }
  }

  /** Every operation that succeeds reports truthfully, from any state at all. A replacement returns
      only one of its two changes and stays truthful, because a silent add cannot have moved the
      best that the removal left. */
  lemma {:induction false} ReportsAreTruthful(b: BookState, op: BookOp)
    requires Apply(b, op).Done?
    ensures Truthful(b, Apply(b, op).value.book, Apply(b, op).value.change)
  {
    match op
    case Add(id, side, qty, price) => AddIsTruthful(b, side, Level(qty, price));
    case Cancel(id, qty) => RemoveIsTruthful(b, b.orders[id].side, Level(qty, b.orders[id].price));
    case Execute(id, qty) => RemoveIsTruthful(b, b.orders[id].side, Level(qty, b.orders[id].price));
    case Delete(id) => RemoveIsTruthful(b, b.orders[id].side, Level(b.orders[id].qty, b.orders[id].price));
    case Replace(id, newId, qty, price) =>
      var o := b.orders[id];
      RemoveIsTruthful(b, o.side, Level(o.qty, o.price));
      AddIsTruthful(RemoveFrom(b, o.side, Level(o.qty, o.price)).value.book, o.side, Level(qty, price));
  }

  /** What a subscriber knows that keeps the last reported level of each side. */
  datatype View = View(bid: Level, ask: Level)

  const INITIAL_VIEW := View(Level(0, 0), Level(0, 0))

  function Observe(v: View, change: BestLvlChange): View {
    match change.side
    case Bid => v.(bid := BestOf(change))
    case Ask => v.(ask := BestOf(change))
    case _ => v
  }

  ghost function TrueView(b: BookState): View {
    View(Best(Bid, b.bids), Best(Ask, b.asks))
  }

  /** A subscriber who knew the true bests knows them after the next operation. */
  lemma {:induction false} ObserveStaysTrue(b: BookState, op: BookOp)
    requires Apply(b, op).Done?
    ensures Observe(TrueView(b), Apply(b, op).value.change) == TrueView(Apply(b, op).value.book)
  {
    ReportsAreTruthful(b, op);
  }

  lemma EmptyView()
    ensures TrueView(EMPTY_BOOK) == INITIAL_VIEW
    ensures Inv(EMPTY_BOOK)
  {
    forall side, p: u32
      ensures LevelAgrees(map[], side, map[], p)
    {
      assert Weights(map[], side, p) == map[];
      SumZero(Weights(map[], side, p));
    }
  }

  // ----- Runs -----

  /** The book and the reported changes after a list of operations; the run stops at the first abort. */
  datatype RunResult = RunResult(book: BookState, changes: seq<BestLvlChange>)

  ghost function Run(b: BookState, ops: seq<BookOp>): Outcome<RunResult>
    decreases |ops|
  {
    if ops == [] then Done(RunResult(b, []))
    else
      var last := |ops| - 1;
      match Run(b, ops[..last])
      case Abort(why) => Abort(why)
      case Done(r) =>
        match Apply(r.book, ops[last])
        case Abort(why) => Abort(why)
        case Done(u) => Done(RunResult(u.book, r.changes + [u.change]))
  }

  ghost predicate LegalRun(b: BookState, ops: seq<BookOp>)
    decreases |ops|
  {
    ops == [] ||
    var last := |ops| - 1;
    LegalRun(b, ops[..last]) && Run(b, ops[..last]).Done? && Legal(Run(b, ops[..last]).value.book, ops[last])
  }

  function ObserveAll(v: View, changes: seq<BestLvlChange>): View
    decreases |changes|
  {
    if changes == [] then v
    else Observe(ObserveAll(v, changes[..|changes| - 1]), changes[|changes| - 1])
  }

  /** After any legal run from the empty book no operation has aborted, every level is the sum of the
      live orders at its price, and a price has a level exactly when a live order is there. */
  lemma {:induction false} LegalRunKeepsInv(ops: seq<BookOp>)
    requires LegalRun(EMPTY_BOOK, ops)
    ensures Run(EMPTY_BOOK, ops).Done? && Inv(Run(EMPTY_BOOK, ops).value.book)
    decreases |ops|
  {
    if ops == [] {
      EmptyView();
    } else {
      var last := |ops| - 1;
      LegalRunKeepsInv(ops[..last]);
      LegalKeepsInv(Run(EMPTY_BOOK, ops[..last]).value.book, ops[last]);
    }
  }

  /** Replaying the reported changes, and nothing else, gives the true best of both sides after every
      run, legal or not, as long as the process has not aborted. */
  lemma {:induction false} SubscriberKnowsBest(ops: seq<BookOp>)
    requires Run(EMPTY_BOOK, ops).Done?
    ensures ObserveAll(INITIAL_VIEW, Run(EMPTY_BOOK, ops).value.changes) == TrueView(Run(EMPTY_BOOK, ops).value.book)
    decreases |ops|
  {
    if ops == [] {
      EmptyView();
    } else {
      var last := |ops| - 1;
      SubscriberKnowsBest(ops[..last]);
      var r := Run(EMPTY_BOOK, ops[..last]).value;
      ObserveStaysTrue(r.book, ops[last]);
      var changes := Run(EMPTY_BOOK, ops).value.changes;
      assert changes[..|changes| - 1] == r.changes;
    }
  }

  // ----- Conservation of shares -----

  /** Where the shares of a run came from and went. */
  datatype Ledger = Ledger(added: nat, replacedIn: nat, executed: nat, cancelled: nat, deleted: nat, replacedOut: nat) {
    function In(): nat {
      added + replacedIn
    }

    function Out(): nat {
      executed + cancelled + deleted + replacedOut
    }
  }

  function Record(g: Ledger, b: BookState, op: BookOp): Ledger {
    match op
    case Add(id, side, qty, price) => g.(added := g.added + qty)
    case Cancel(id, qty) => g.(cancelled := g.cancelled + qty)
    case Execute(id, qty) => g.(executed := g.executed + qty)
    case Delete(id) => if id in b.orders then g.(deleted := g.deleted + b.orders[id].qty) else g
    case Replace(id, newId, qty, price) =>
      if id in b.orders
      then g.(replacedIn := g.replacedIn + qty, replacedOut := g.replacedOut + b.orders[id].qty) else g
  }

  ghost function LedgerOf(ops: seq<BookOp>): Ledger
    requires Run(EMPTY_BOOK, ops).Done?
    decreases |ops|
  {
    if ops == [] then Ledger(0, 0, 0, 0, 0, 0)
    else
      var last := |ops| - 1;
      Record(LedgerOf(ops[..last]), Run(EMPTY_BOOK, ops[..last]).value.book, ops[last])
  }

  ghost function Shares(b: BookState): nat {
    Sum<u32>(b.bids) + Sum<u32>(b.asks)
  }

  lemma {:induction false} RemoveShares(b: BookState, id: u64, qty: u32)
    requires Inv(b) && id in b.orders && qty <= b.orders[id].qty
    ensures Reduce(b, id, qty).Done? && Shares(Reduce(b, id, qty).value.book) == Shares(b) - qty
  {
    OrderIsCovered(b, id);
    var o := b.orders[id];
    var m := LevelsOf(b, BookSide(o.side));
    if m[o.price] == qty {
      SumWithout<u32>(m, o.price);
    } else {
      SumUpdate<u32>(m, o.price, m[o.price] - qty);
    }
  }

  lemma {:induction false} AddShares(b: BookState, o: Order)
    requires Inv(b) && |b.orders| < TWO_TO_32
    ensures Shares(AddTo(b, o.side, Level(o.qty, o.price)).book) == Shares(b) + o.qty
  {
    var m := LevelsOf(b, BookSide(o.side));
    LevelHasRoom(b, o);
    var qty: u64 := QtyAt(m, o.price) + o.qty;
    assert AddLevel(m, Level(o.qty, o.price)) == m[o.price := qty];
    SumUpdate<u32>(m, o.price, qty);
  }

  lemma {:induction false} StepConserves(b: BookState, op: BookOp, g: Ledger)
    requires Inv(b) && Legal(b, op) && g.In() == g.Out() + Shares(b)
    ensures Apply(b, op).Done?
    ensures Record(g, b, op).In() == Record(g, b, op).Out() + Shares(Apply(b, op).value.book)
  {
    LegalKeepsInv(b, op);
    match op
    case Add(id, side, qty, price) => AddShares(b, Order(qty, price, side));
    case Cancel(id, qty) => RemoveShares(b, id, qty);
    case Execute(id, qty) => RemoveShares(b, id, qty);
    case Delete(id) => RemoveShares(b, id, b.orders[id].qty);
    case Replace(id, newId, qty, price) =>
      var o := b.orders[id];
      RemoveShares(b, id, o.qty);
      ReduceKeepsInv(b, id, o.qty);
      SizeWithout(b.orders, id);
      AddShares(Reduce(b, id, o.qty).value.book, Order(qty, price, o.side));
  }

  lemma {:induction false} RunSnoc(ops: seq<BookOp>, op: BookOp)
    requires Run(EMPTY_BOOK, ops).Done? && Apply(Run(EMPTY_BOOK, ops).value.book, op).Done?
    ensures
      var b := Run(EMPTY_BOOK, ops).value.book;
      && Run(EMPTY_BOOK, ops + [op]).Done?
      && Run(EMPTY_BOOK, ops + [op]).value.book == Apply(b, op).value.book
      && LedgerOf(ops + [op]) == Record(LedgerOf(ops), b, op)
  {
    assert (ops + [op])[..|ops|] == ops;
  }

  lemma {:induction false} SnocConserves(ops: seq<BookOp>, op: BookOp)
    requires Run(EMPTY_BOOK, ops).Done? && Inv(Run(EMPTY_BOOK, ops).value.book)
    requires Legal(Run(EMPTY_BOOK, ops).value.book, op)
    requires LedgerOf(ops).In() == LedgerOf(ops).Out() + Shares(Run(EMPTY_BOOK, ops).value.book)
    ensures Run(EMPTY_BOOK, ops + [op]).Done?
    ensures LedgerOf(ops + [op]).In() == LedgerOf(ops + [op]).Out() + Shares(Run(EMPTY_BOOK, ops + [op]).value.book)
  {
    StepConserves(Run(EMPTY_BOOK, ops).value.book, op, LedgerOf(ops));
    RunSnoc(ops, op);
  }

  lemma {:induction false} LegalRunBefore(ops: seq<BookOp>)
    requires LegalRun(EMPTY_BOOK, ops) && ops != []
    ensures
      var before := ops[..|ops| - 1];
      LegalRun(EMPTY_BOOK, before) && Run(EMPTY_BOOK, before).Done?
      && Legal(Run(EMPTY_BOOK, before).value.book, ops[|ops| - 1])
  {
  }

  lemma {:induction false} NoShares(b: BookState)
    requires b.bids == map[] && b.asks == map[]
    ensures Shares(b) == 0
  {
  }

  /** Shares are conserved over every legal run: what was added, counting the new quantities of
      replacements, is what was executed, cancelled, deleted and replaced away plus what the levels
      of both sides still hold. */
  lemma {:induction false} SharesAreConserved(ops: seq<BookOp>)
    requires LegalRun(EMPTY_BOOK, ops)
    ensures Run(EMPTY_BOOK, ops).Done?
    ensures LedgerOf(ops).In() == LedgerOf(ops).Out() + Shares(Run(EMPTY_BOOK, ops).value.book)
    decreases |ops|
  {
    if ops == [] {
      NoShares(Run(EMPTY_BOOK, ops).value.book);
    } else {
      LegalRunBefore(ops);
      var before, op := ops[..|ops| - 1], ops[|ops| - 1];
      assert before + [op] == ops;
      SharesAreConserved(before);
      LegalRunKeepsInv(before);
      SnocConserves(before, op);
    }
  }
}
