/** The message handler as the object the code declares: tables from stock locates to books and queues,
    both filled when a configured instrument is first listed. A queue is known by its identity; what
    it has been pushed is kept in `logs`. */
module Handlers {
  import opened Shared
  import opened ItchFields
  import opened ItchMessages
  import opened BookSpec
  import opened HandlerSpec
  import opened OrderBooks

  /** The state of a book whose invariant holds. */
  ghost function StateOf(b: OrderBook): Option<BookState>
    reads b, b.bidLevels, b.askLevels
  {
    if b.Valid() then Some(b.State()) else None
  }

  /** The objects a book is made of. */
  ghost function Parts(b: OrderBook): set<object> {
    {b, b.bidLevels, b.askLevels}
  }

  method NewBook() returns (b: OrderBook)
    ensures fresh(Parts(b)) && StateOf(b) == Some(EMPTY_BOOK)
  {
    b := new OrderBook();
  }

  method ApplyToBook(b: OrderBook, op: BookOp) returns (r: Outcome<BestLvlChange>)
    requires StateOf(b).Some?
    modifies Parts(b)
    ensures
      match Apply(old(StateOf(b).value), op)
      case Abort(why) => r == Abort(why)
      case Done(u) => r == Done(u.change) && StateOf(b) == Some(u.book)
  {
    match op {
      case Add(id, side, qty, price) => r := b.AddOrder(id, side, qty, price);
      case Cancel(id, qty) => r := b.CancelOrder(id, qty);
      case Execute(id, qty) => r := b.ExecuteOrder(id, qty);
      case Replace(id, newId, qty, price) => r := b.ReplaceOrder(id, newId, qty, price);
      case Delete(id) => r := b.DeleteOrder(id);
    }
  }

  /** The tables list the same locates, and each listed locate has a book of its own. */
  ghost predicate TablesOk<Q>(bookTable: seq<OrderBook?>, queueTable: seq<Option<Q>>) {
    && |bookTable| == |queueTable| == MAX_LOCATES
    && (forall l | 0 <= l < MAX_LOCATES :: bookTable[l] != null <==> queueTable[l].Some?)
    && (forall l, k {:trigger Parts(bookTable[l]), Parts(bookTable[k])} | 0 <= l < k < MAX_LOCATES && bookTable[l] != null && bookTable[k] != null ::
          Parts(bookTable[l]) !! Parts(bookTable[k]))
  }

  /** A listed book that has nothing in common with the others. */
  ghost predicate Separate(table: seq<OrderBook?>, locate: nat) {
    && locate < |table| && table[locate] != null
    && forall l {:trigger Parts(table[l])} | 0 <= l < |table| && l != locate && table[l] != null ::
         Parts(table[l]) !! Parts(table[locate])
  }

  /** The objects that the listed books are made of. */
  ghost function PartsOf(table: seq<OrderBook?>): set<object> {
    set l, o | 0 <= l < |table| && table[l] != null && o in Parts(table[l]) :: o
  }

  lemma PartsIncluded(table: seq<OrderBook?>, l: nat)
    requires l < |table| && table[l] != null
    ensures Parts(table[l]) <= PartsOf(table)
  {
    forall o | o in Parts(table[l])
      ensures o in PartsOf(table)
    {
    }
  }

  /** The state of the book listed at a locate. */
  ghost function StateAt(table: seq<OrderBook?>, l: nat): Option<BookState>
    reads PartsOf(table)
  {
    if l < |table| && table[l] != null then PartsIncluded(table, l); StateOf(table[l]) else None
  }

  ghost function States(table: seq<OrderBook?>): map<nat, BookState>
    reads PartsOf(table)
  {
    map l: nat | l < |table| && StateAt(table, l).Some? :: StateAt(table, l).value
  }

  ghost function QueueOf<Q>(table: seq<Option<Q>>): map<nat, Q> {
    map l: nat | l < |table| && table[l].Some? :: table[l].value
  }

  lemma StatesAre(table: seq<OrderBook?>)
    ensures forall l | l in States(table) :: l < |table| && table[l] != null
    ensures forall l | 0 <= l < |table| && table[l] != null ::
              StateOf(table[l]) == if l in States(table) then Some(States(table)[l]) else None
  {
    forall l | 0 <= l < |table| && table[l] != null
      ensures StateOf(table[l]) == if l in States(table) then Some(States(table)[l]) else None
    {
      assert StateAt(table, l) == StateOf(table[l]);
    }
  }

  /** When no book has stepped, the table's states are the earlier ones. */
  lemma {:induction false} StatesKept(table: seq<OrderBook?>, before: map<nat, BookState>)
    requires forall l | l in before :: l < |table| && table[l] != null
    requires forall l | 0 <= l < |table| && table[l] != null :: StateOf(table[l]) == if l in before then Some(before[l]) else None
    ensures States(table) == before
  {
    forall l: nat | l < |table|
      ensures StateAt(table, l) == if l in before then Some(before[l]) else None
    {
    }
  }

  /** When only one book has stepped, the table's states are the earlier ones with that one changed. */
  lemma {:induction false} OneBookStepped(table: seq<OrderBook?>, before: map<nat, BookState>, locate: nat)
    requires locate < |table| && table[locate] != null && StateOf(table[locate]).Some?
    requires forall l | l in before :: l < |table| && table[l] != null
    requires forall l | 0 <= l < |table| && l != locate && table[l] != null ::
               StateOf(table[l]) == if l in before then Some(before[l]) else None
    ensures States(table) == before[locate := StateOf(table[locate]).value]
  {
    forall l: nat | l < |table| && l != locate
      ensures StateAt(table, l) == if l in before then Some(before[l]) else None
    {
    }
  }

  /** Listing a book that has nothing in common with the others. */
  lemma {:induction false} BookListed(table: seq<OrderBook?>, locate: nat, b: OrderBook)
    requires locate < |table| && table[locate] == null && StateOf(b).Some?
    ensures States(table[locate := b]) == States(table)[locate := StateOf(b).value]
    ensures PartsOf(table[locate := b]) == PartsOf(table) + Parts(b)
  {
    var table' := table[locate := b];
    forall l: nat | l < |table| && l != locate
      ensures StateAt(table', l) == StateAt(table, l)
    {
    }
    PartsIncluded(table', locate);
    forall o | o in PartsOf(table)
      ensures o in PartsOf(table')
    {
      var l :| 0 <= l < |table| && table[l] != null && o in Parts(table[l]);
      assert table'[l] == table[l];
    }
  }

  lemma {:induction false} TablesListed<Q>(table: seq<OrderBook?>, queueTable: seq<Option<Q>>, locate: nat, b: OrderBook, q: Q)
    requires TablesOk(table, queueTable) && locate < |table| && Parts(b) !! PartsOf(table)
    ensures TablesOk(table[locate := b], queueTable[locate := Some(q)])
    ensures QueueOf(queueTable[locate := Some(q)]) == QueueOf(queueTable)[locate := q]
  {
    forall l | 0 <= l < |table| && table[l] != null
      ensures Parts(table[l]) !! Parts(b)
    {
      PartsIncluded(table, l);
    }
  }

  /** The outcome of a call together with the state it leaves; an abort leaves none. */
  function Reached<Q>(r: Outcome<()>, h: HandlerState<Q>): Outcome<HandlerState<Q>> {
    match r
    case Done(_) => Done(h)
    case Abort(why) => Abort(why)
  }

  class Handler<Q(==)> {
    var instruments: Instruments<Q>
    var locateToBook: seq<OrderBook?>
    var locateToQueue: seq<Option<Q>>
    var logs: map<Q, seq<StrategyMsg>>
    var lastMessage: bool
    var recordPrices: bool
    var maxOrders: nat

    /** The states of the listed books. */
    ghost var states: map<nat, BookState>

    /** What only listing a book can change: no other method touches the tables. */
    ghost predicate Tables()
      reads this`locateToBook, this`locateToQueue
    {
      TablesOk(locateToBook, locateToQueue) && this !in PartsOf(locateToBook)
    }

    ghost predicate Synced()
      reads this`locateToBook, this`locateToQueue, this`states, PartsOf(locateToBook)
    {
      states == States(locateToBook) && states.Keys == QueueOf(locateToQueue).Keys
    }

    ghost predicate Valid()
      reads this`locateToBook, this`locateToQueue, this`states, PartsOf(locateToBook)
    {
      Tables() && Synced()
    }

    ghost function State(): HandlerState<Q>
      reads this
    {
      HandlerState(states, QueueOf(locateToQueue), logs, lastMessage, recordPrices, maxOrders)
    }

    constructor (configs: seq<InstrumentConfig<Q>>)
      ensures Valid() && instruments == Configure(configs) && State() == InitialState()
      ensures PartsOf(locateToBook) == {}
    {
      instruments := map[];
      locateToBook := seq(MAX_LOCATES, _ => null);
      locateToQueue := seq(MAX_LOCATES, _ => None);
      logs := map[];
      lastMessage, recordPrices, maxOrders := false, false, 0;
      states := map[];
      new;
      AddInstruments(configs);
    }

    method AddInstruments(configs: seq<InstrumentConfig<Q>>)
      requires instruments == Configure([])
      modifies this`instruments
      ensures instruments == Configure(configs)
    {
      for i := 0 to |configs|
        invariant instruments == Configure(configs[..i])
      {
        assert configs[..i + 1][..i] == configs[..i];
        var symbol := PadSymbol(configs[i].symbol);
        if symbol !in instruments {
          instruments := instruments[symbol := configs[i].queue];
        }
      }
      assert configs[..|configs|] == configs;
    }

    method PushMsg(q: Q, msg: StrategyMsg)
      modifies this`logs
      ensures logs == PushTo(old(logs), q, msg)
    {
      logs := PushTo(logs, q, msg);
    }

    /** `handle_change`, after the number of live orders has been noted for an added order. */
    method RecordChange(q: Q, adding: bool, live: nat, change: BestLvlChange, t0: u64)
      modifies this`logs, this`maxOrders
      ensures logs == HandleChange(old(logs), q, change, t0)
      ensures maxOrders == if adding && live > old(maxOrders) then live else old(maxOrders)
    {
      if adding && live > maxOrders {
        maxOrders := live;
      }
      if change.side != NoSide {
        PushMsg(q, BookUpdate(t0, change.qty, change.price, change.side));
      }
    }

    /** Applies a book operation to a book and pushes the change to its queue, if it is not empty. */
    method OperateOn(book: OrderBook, q: Q, op: BookOp, t0: u64) returns (r: Outcome<()>)
      requires StateOf(book).Some? && this !in Parts(book)
      modifies this`logs, this`maxOrders, Parts(book)
      ensures
        match Apply(old(StateOf(book).value), op)
        case Abort(why) => r == Abort(why)
        case Done(u) =>
          && r == Done(()) && StateOf(book) == Some(u.book)
          && logs == HandleChange(old(logs), q, u.change, t0)
          && maxOrders == if op.Add? && |u.book.orders| > old(maxOrders) then |u.book.orders| else old(maxOrders)
    {
      var change := ApplyToBook(book, op);
      if change.Abort? {
        return Abort(change.why);
      }
      RecordChange(q, op.Add?, |book.orders|, change.value, t0);
      r := Done(());
    }

    /** The same for the book of a listed locate, whose state is kept up to date. */
    method HandleAt(locate: nat, book: OrderBook, op: BookOp, t0: u64) returns (r: Outcome<()>)
      requires this !in Parts(book) && locate in states && StateOf(book) == Some(states[locate])
      requires locate < |locateToQueue| && locateToQueue[locate].Some? && locate in QueueOf(locateToQueue)
      modifies this`logs, this`maxOrders, this`states, Parts(book)
      ensures Reached(r, State()) == HandleOp(old(State()), locate, op, t0)
      ensures r.Done? ==> states == old(states)[locate := states[locate]] && StateOf(book) == Some(states[locate])
    {
      r := OperateOn(book, locateToQueue[locate].value, op, t0);
      if r.Done? {
        states := states[locate := StateOf(book).value];
      }
    }

    /** What is known of a listed locate. */
    lemma ListedAt(locate: nat)
      requires Valid() && locate < MAX_LOCATES && locateToBook[locate] != null
      ensures locate in states && locate in QueueOf(locateToQueue)
      ensures this !in Parts(locateToBook[locate]) && Parts(locateToBook[locate]) <= PartsOf(locateToBook)
      ensures Separate(locateToBook, locate)
      ensures StateOf(locateToBook[locate]) == Some(states[locate])
      ensures locateToQueue[locate] == Some(QueueOf(locateToQueue)[locate])
    {
      PartsIncluded(locateToBook, locate);
      assert locate in QueueOf(locateToQueue);
    }

    lemma UnlistedAt(locate: nat)
      requires Synced() && locate < |locateToBook| && locateToBook[locate] == null
      ensures locate !in states
    {
    }

    /** The other books stay as they are. */
    method HandleApart(locate: nat, op: BookOp, t0: u64) returns (r: Outcome<()>)
      requires this !in PartsOf(locateToBook) && Separate(locateToBook, locate)
      requires locate in states && StateOf(locateToBook[locate]) == Some(states[locate])
      requires locate < |locateToQueue| && locateToQueue[locate].Some? && locate in QueueOf(locateToQueue)
      modifies this`logs, this`maxOrders, this`states, Parts(locateToBook[locate])
      ensures Reached(r, State()) == HandleOp(old(State()), locate, op, t0)
      ensures r.Done? ==> states == old(states)[locate := states[locate]]
      ensures r.Done? ==> StateOf(locateToBook[locate]) == Some(states[locate])
      ensures forall l | 0 <= l < |locateToBook| && l != locate && locateToBook[l] != null ::
                StateOf(locateToBook[l]) == old(StateOf(locateToBook[l]))
    {
      PartsIncluded(locateToBook, locate);
      r := HandleAt(locate, locateToBook[locate], op, t0);
      forall l | 0 <= l < |locateToBook| && l != locate && locateToBook[l] != null
        ensures StateOf(locateToBook[l]) == old(StateOf(locateToBook[l]))
      {
        PartsIncluded(locateToBook, l);
        assert Parts(locateToBook[l]) !! Parts(locateToBook[locate]);
      }
    }

    method HandleListed(locate: nat, op: BookOp, t0: u64) returns (r: Outcome<()>)
      requires this !in PartsOf(locateToBook) && Separate(locateToBook, locate) && states == States(locateToBook)
      requires locate in states && StateOf(locateToBook[locate]) == Some(states[locate])
      requires locate < |locateToQueue| && locateToQueue[locate].Some? && locate in QueueOf(locateToQueue)
      modifies this`logs, this`maxOrders, this`states, Parts(locateToBook[locate])
      ensures Reached(r, State()) == HandleOp(old(State()), locate, op, t0)
      ensures r.Done? ==> states == States(locateToBook) && states.Keys == old(states).Keys
    {
      r := HandleApart(locate, op, t0);
      if r.Done? {
        OneBookStepped(locateToBook, old(states), locate);
      }
    }

    /** Book operations for a locate that is not listed are ignored. An abort ends the process. */
    method HandleBookOp(locate: nat, op: BookOp, t0: u64) returns (r: Outcome<()>)
      requires Valid() && locate < MAX_LOCATES
      modifies this`logs, this`maxOrders, this`states, PartsOf(locateToBook)
      ensures Reached(r, State()) == HandleOp(old(State()), locate, op, t0)
      ensures r.Done? ==> Synced()
    {
      if locateToBook[locate] == null {
        UnlistedAt(locate);
        return Done(());
      }
      ListedAt(locate);
      r := HandleListed(locate, op, t0);
    }

    /** Stops the strategies of every listed locate, in table order. */
    method StopAll()
      requires |locateToQueue| == MAX_LOCATES
      modifies this`logs
      ensures logs == PushStops(old(logs), QueueOf(locateToQueue), MAX_LOCATES)
    {
      ghost var queueOf := QueueOf(locateToQueue);
      for l := 0 to MAX_LOCATES
        invariant logs == PushStops(old(logs), queueOf, l)
      {
        var q := locateToQueue[l];
        if q.Some? {
          PushMsg(q.value, StopMsg);
        }
      }
    }

    /** The last message of the day stops the strategies; the market hours switch the recording. */
    method NoteEvent(code: nat)
      requires |locateToQueue| == MAX_LOCATES
      modifies this`logs, this`lastMessage, this`recordPrices
      ensures State() == HandleSystemEvent(old(State()), code)
    {
      if code == Ascii('C') {
        lastMessage := true;
        StopAll();
      } else if code == Ascii('Q') {
        recordPrices := true;
      } else if code == Ascii('M') {
        recordPrices := false;
      }
    }

    /** No book is touched. */
    method HandleSystemEventMsg(code: nat)
      requires Valid()
      modifies this`logs, this`lastMessage, this`recordPrices
      ensures State() == HandleSystemEvent(old(State()), code) && Synced()
    {
      NoteEvent(code);
      StatesKept(locateToBook, states);
    }

    method SetEntries(locate: nat, book: OrderBook, q: Q)
      requires locate < |locateToBook| == |locateToQueue|
      requires forall l | 0 <= l < |locateToBook| && locateToBook[l] != null :: this !in Parts(locateToBook[l])
      requires this !in Parts(book)
      modifies this`locateToBook, this`locateToQueue, this`states
      ensures locateToBook == old(locateToBook)[locate := book] && locateToQueue == old(locateToQueue)[locate := Some(q)]
      ensures states == old(states)[locate := EMPTY_BOOK] && StateOf(book) == old(StateOf(book))
      ensures forall l | 0 <= l < |old(locateToBook)| && old(locateToBook)[l] != null ::
                StateOf(old(locateToBook)[l]) == old(StateOf(locateToBook[l]))
    {
      locateToBook := locateToBook[locate := book];
      locateToQueue := locateToQueue[locate := Some(q)];
      states := states[locate := EMPTY_BOOK];
    }

    /** Gives an unlisted locate a new book and a queue. */
    method ListBook(locate: nat, book: OrderBook, q: Q)
      requires locate < |locateToBook| == |locateToQueue| && locateToBook[locate] == null
      requires StateOf(book) == Some(EMPTY_BOOK) && this !in PartsOf(locateToBook) + Parts(book)
      requires states == States(locateToBook)
      modifies this`locateToBook, this`locateToQueue, this`states
      ensures locateToBook == old(locateToBook)[locate := book] && locateToQueue == old(locateToQueue)[locate := Some(q)]
      ensures states == old(states)[locate := EMPTY_BOOK] && states == States(locateToBook)
      ensures PartsOf(locateToBook) == old(PartsOf(locateToBook)) + Parts(book)
    {
      ghost var table := locateToBook;
      forall l | 0 <= l < |table| && table[l] != null
        ensures this !in Parts(table[l])
      {
        PartsIncluded(table, l);
      }
      StatesAre(table);
      SetEntries(locate, book, q);
      StatesKept(table, old(states));
      BookListed(table, locate, book);
    }

    /** A stock directory entry lists a configured instrument once. */
    method HandleStockDirectory(locate: nat, symbol: seq<byte>)
      requires Valid() && locate < MAX_LOCATES
      modifies this`locateToBook, this`locateToQueue, this`states
      ensures State() == HandleDirectory(instruments, old(State()), locate, symbol) && Valid()
      ensures fresh(PartsOf(locateToBook) - old(PartsOf(locateToBook)))
    {
      if symbol !in instruments {
        return;
      }
      if locateToBook[locate] != null {
        ListedAt(locate);
        return;
      }
      var book := NewBook();
      StatesKept(locateToBook, states);
      TablesListed(locateToBook, locateToQueue, locate, book, instruments[symbol]);
      ListBook(locate, book, instruments[symbol]);
    }

    /** Every message but a stock directory entry leaves the tables alone. */
    method HandleOther(t0: u64, m: Message) returns (r: Outcome<()>)
      requires Valid() && m.WellTyped() && m.kind != Ascii('R')
      modifies this`states, this`logs, this`lastMessage, this`recordPrices, this`maxOrders, PartsOf(locateToBook)
      ensures Reached(r, State()) == Handle(instruments, old(State()), t0, m)
      ensures r.Done? ==> Synced()
    {
      FieldTypes(m);
      if m.kind == Ascii('S') {
        HandleSystemEventMsg(NumAt(m, 3));
        return Done(());
      }
      r := HandleBookOp(Locate(m), OpOf(m), t0);
    }

    /** What the overloads of `handle` do between them: one decoded message, with the counter value read
        before it. */
    method HandleMessage(t0: u64, m: Message) returns (r: Outcome<()>)
      requires Valid() && m.WellTyped()
      modifies this`locateToBook, this`locateToQueue, this`states, this`logs, this`lastMessage, this`recordPrices,
               this`maxOrders, PartsOf(locateToBook)
      ensures Reached(r, State()) == Handle(instruments, old(State()), t0, m)
      ensures r.Done? ==> Valid()
      ensures fresh(PartsOf(locateToBook) - old(PartsOf(locateToBook)))
    {
      if m.kind == Ascii('R') {
        FieldTypes(m);
        HandleStockDirectory(Locate(m), Symbol(m));
        return Done(());
      }
      r := HandleOther(t0, m);
    }
  }

  /** A handler that is given all inputs of a run leaves in its queues what the state machine says, or ends
      the process where the state machine does. */
  method RunAll<Q(==)>(configs: seq<InstrumentConfig<Q>>, inputs: seq<Input>) returns (r: Outcome<map<Q, seq<StrategyMsg>>>)
    requires AllTyped(inputs)
    ensures
      match RunHandler(Configure(configs), inputs)
      case Abort(why) => r == Abort(why)
      case Done(h) => r == Done(h.logs)
  {
    var handler := new Handler(configs);
    for i := 0 to |inputs|
      invariant handler.Valid() && fresh(handler) && fresh(PartsOf(handler.locateToBook))
      invariant handler.instruments == Configure(configs)
      invariant RunHandler(Configure(configs), inputs[..i]) == Done(handler.State())
    {
      RunStep(Configure(configs), inputs, i, handler.State());
      var step := handler.HandleMessage(inputs[i].t0, inputs[i].msg);
      if step.Abort? {
        AbortIsFinal(Configure(configs), inputs, i + 1);
        return Abort(step.why);
      }
    }
    assert inputs[..|inputs|] == inputs;
    r := Done(handler.logs);
  }
}
