/** The message handler as a state machine: one book for each stock locate of a configured instrument,
    and one log of pushed messages for each queue. */
module HandlerSpec {
  import opened Bits
  import opened Shared
  import opened LevelSpec
  import opened ItchFields
  import opened ItchMessages
  import opened BookSpec
  import opened BookTheorems

  datatype StrategyMsg = BookUpdate(t0: u64, qty: u64, price: u32, side: Side) | StopMsg

  const MAX_LOCATES: nat := 65536

  type Instruments<Q> = map<seq<byte>, Q>

  /** A symbol as it appears in a stock directory entry: cut to 8 bytes or filled up with spaces. */
  function PadSymbol(symbol: seq<byte>): (r: seq<byte>)
    ensures |r| == 8
    ensures forall i | 0 <= i < 8 :: r[i] == if i < |symbol| then symbol[i] else Ascii(' ')
  {
    if |symbol| >= 8 then symbol[..8] else symbol + seq(8 - |symbol|, _ => Ascii(' '))
  }

  datatype InstrumentConfig<Q> = InstrumentConfig(symbol: seq<byte>, queue: Q)

  /** `emplace` leaves an existing entry alone. */
  function Emplace<Q>(cfg: Instruments<Q>, c: InstrumentConfig<Q>): Instruments<Q> {
    if PadSymbol(c.symbol) in cfg then cfg else cfg[PadSymbol(c.symbol) := c.queue]
  }

  function Configure<Q>(configs: seq<InstrumentConfig<Q>>): Instruments<Q> {
    if configs == [] then map[] else Emplace(Configure(configs[..|configs| - 1]), configs[|configs| - 1])
  }

  /** Of the configured instruments with the same first 8 bytes only the first one gets messages. */
  lemma {:induction false} FirstConfigWins<Q>(configs: seq<InstrumentConfig<Q>>, i: nat)
    requires i < |configs|
    requires forall j | 0 <= j < i :: PadSymbol(configs[j].symbol) != PadSymbol(configs[i].symbol)
    ensures PadSymbol(configs[i].symbol) in Configure(configs)
    ensures Configure(configs)[PadSymbol(configs[i].symbol)] == configs[i].queue
    decreases |configs|
  {
    var before := configs[..|configs| - 1];
    if i < |before| {
      FirstConfigWins(before, i);
    } else if PadSymbol(configs[i].symbol) in Configure(before) {
      OnlyConfigured(before, PadSymbol(configs[i].symbol));
      assert false;
    }
  }

  lemma {:induction false} OnlyConfigured<Q>(configs: seq<InstrumentConfig<Q>>, symbol: seq<byte>)
    requires symbol in Configure(configs)
    ensures exists j | 0 <= j < |configs| :: PadSymbol(configs[j].symbol) == symbol
    decreases |configs|
  {
    var last := |configs| - 1;
    if PadSymbol(configs[last].symbol) == symbol {
    } else {
      OnlyConfigured(configs[..last], symbol);
      var j :| 0 <= j < last && PadSymbol(configs[..last][j].symbol) == symbol;
      assert PadSymbol(configs[j].symbol) == symbol;
    }
  }

  datatype HandlerState<Q> = HandlerState(
    books: map<nat, BookState>,
    queueOf: map<nat, Q>,
    logs: map<Q, seq<StrategyMsg>>,
    lastMessage: bool,
    recordPrices: bool,
    maxOrders: nat)

  function Log<Q>(logs: map<Q, seq<StrategyMsg>>, q: Q): seq<StrategyMsg> {
    if q in logs then logs[q] else []
  }

  function PushTo<Q>(logs: map<Q, seq<StrategyMsg>>, q: Q, msg: StrategyMsg): map<Q, seq<StrategyMsg>> {
    logs[q := Log(logs, q) + [msg]]
  }

  /** `handle_change`: an empty change is not pushed. */
  function ChangeMsgs(change: BestLvlChange, t0: u64): seq<StrategyMsg> {
    if change.side == NoSide then [] else [BookUpdate(t0, change.qty, change.price, change.side)]
  }

  function HandleChange<Q>(logs: map<Q, seq<StrategyMsg>>, q: Q, change: BestLvlChange, t0: u64): map<Q, seq<StrategyMsg>> {
    if change.side == NoSide then logs
    else PushTo(logs, q, BookUpdate(t0, change.qty, change.price, change.side))
  }

  /** A stop message for the queue of every locate from 0 up to `n`, in that order. */
  function PushStops<Q>(logs: map<Q, seq<StrategyMsg>>, queueOf: map<nat, Q>, n: nat): map<Q, seq<StrategyMsg>>
  {
    if n == 0 then logs
    else
      var before := PushStops(logs, queueOf, n - 1);
      if n - 1 in queueOf then PushTo(before, queueOf[n - 1], StopMsg) else before
  }

  function Symbol(m: Message): seq<byte> {
    if 3 < |m.values| && m.values[3].Text? then m.values[3].bytes else []
  }

  function HandleDirectory<Q>(cfg: Instruments<Q>, h: HandlerState<Q>, locate: nat, symbol: seq<byte>): HandlerState<Q> {
    if symbol !in cfg || locate in h.books then h
    else h.(books := h.books[locate := EMPTY_BOOK], queueOf := h.queueOf[locate := cfg[symbol]])
  }

  function HandleSystemEvent<Q>(h: HandlerState<Q>, code: nat): HandlerState<Q> {
    if code == Ascii('C') then h.(lastMessage := true, logs := PushStops(h.logs, h.queueOf, MAX_LOCATES))
    else if code == Ascii('Q') then h.(recordPrices := true)
    else if code == Ascii('M') then h.(recordPrices := false)
    else h
  }

  ghost function HandleOp<Q>(h: HandlerState<Q>, locate: nat, op: BookOp, t0: u64): Outcome<HandlerState<Q>> {
    if locate !in h.books || locate !in h.queueOf then Done(h)
    else
      match Apply(h.books[locate], op)
      case Abort(why) => Abort(why)
      case Done(u) =>
        Done(h.(
             books := h.books[locate := u.book],
             logs := HandleChange(h.logs, h.queueOf[locate], u.change, t0),
             maxOrders := if op.Add? && |u.book.orders| > h.maxOrders then |u.book.orders| else h.maxOrders))
  }

  ghost function Handle<Q>(cfg: Instruments<Q>, h: HandlerState<Q>, t0: u64, m: Message): Outcome<HandlerState<Q>>
    requires m.WellTyped()
  {
    if m.kind == Ascii('R') then Done(HandleDirectory(cfg, h, Locate(m), Symbol(m)))
    else if m.kind == Ascii('S') then Done(HandleSystemEvent(h, NumAt(m, 3)))
    else HandleOp(h, Locate(m), OpOf(m), t0)
  }

  /** A message with the time stamp counter read before it was handled. */
  datatype Input = Input(t0: u64, msg: Message)

  ghost predicate AllTyped(inputs: seq<Input>) {
    forall x | x in inputs :: x.msg.WellTyped()
  }

  function InitialState<Q>(): HandlerState<Q> {
    HandlerState(map[], map[], map[], false, false, 0)
  }

  /** The state after all inputs, or the abort that ended the process. */
  ghost function RunHandler<Q>(cfg: Instruments<Q>, inputs: seq<Input>): Outcome<HandlerState<Q>>
    requires AllTyped(inputs)
    decreases |inputs|
  {
    if inputs == [] then Done(InitialState())
    else
      var last := |inputs| - 1;
      match RunHandler(cfg, inputs[..last])
      case Abort(why) => Abort(why)
      case Done(h) => Handle(cfg, h, inputs[last].t0, inputs[last].msg)
  }

  lemma {:induction false} RunStep<Q>(cfg: Instruments<Q>, inputs: seq<Input>, i: nat, h: HandlerState<Q>)
    requires AllTyped(inputs) && i < |inputs| && RunHandler(cfg, inputs[..i]) == Done(h)
    ensures inputs[i].msg.WellTyped()
    ensures RunHandler(cfg, inputs[..i + 1]) == Handle(cfg, h, inputs[i].t0, inputs[i].msg)
  {
    assert inputs[..i + 1][..i] == inputs[..i];
  }

  /** The state before the last input of a run. */
  lemma {:induction false} RunBefore<Q>(cfg: Instruments<Q>, inputs: seq<Input>, len: nat)
    requires AllTyped(inputs) && inputs != [] && len == |inputs| - 1 && RunHandler(cfg, inputs).Done?
    ensures AllTyped(inputs[..len]) && inputs[len].msg.WellTyped() && RunHandler(cfg, inputs[..len]).Done?
    ensures RunHandler(cfg, inputs) == Handle(cfg, RunHandler(cfg, inputs[..len]).value, inputs[len].t0, inputs[len].msg)
  {
  }

  /** An abort ends the process: no later input changes that. */
  lemma {:induction false} AbortIsFinal<Q>(cfg: Instruments<Q>, inputs: seq<Input>, n: nat)
    requires AllTyped(inputs) && n <= |inputs| && RunHandler(cfg, inputs[..n]).Abort?
    ensures RunHandler(cfg, inputs) == RunHandler(cfg, inputs[..n])
    decreases |inputs|
  {
    if n == |inputs| {
      assert inputs[..n] == inputs;
    } else {
      var before := inputs[..|inputs| - 1];
      assert before[..n] == inputs[..n];
      AbortIsFinal(cfg, before, n);
    }
  }

  // ----- Locate isolation -----

  /** What one locate's own messages say about its book. */
  datatype LocalBook = NotListed | Listed(book: BookState) | Failed

  ghost function LocalStep<Q>(cfg: Instruments<Q>, b: LocalBook, m: Message): LocalBook
    requires m.WellTyped()
  {
    if m.kind == Ascii('R') then (if b.NotListed? && Symbol(m) in cfg then Listed(EMPTY_BOOK) else b)
    else if m.kind == Ascii('S') || !b.Listed? then b
    else
      match Apply(b.book, OpOf(m))
      case Abort(_) => Failed
      case Done(u) => Listed(u.book)
  }

  ghost function LocalRun<Q>(cfg: Instruments<Q>, msgs: seq<Message>): LocalBook
    requires forall m | m in msgs :: m.WellTyped()
    decreases |msgs|
  {
    if msgs == [] then NotListed
    else LocalStep(cfg, LocalRun(cfg, msgs[..|msgs| - 1]), msgs[|msgs| - 1])
  }

  /** The messages of one locate, in order. */
  function Only(inputs: seq<Input>, locate: nat): (msgs: seq<Message>)
    ensures forall m | m in msgs :: exists x | x in inputs :: x.msg == m
    decreases |inputs|
  {
    if inputs == [] then []
    else
      var last := inputs[|inputs| - 1];
      Only(inputs[..|inputs| - 1], locate) + (if Locate(last.msg) == locate then [last.msg] else [])
  }

  function BookOf<Q>(h: HandlerState<Q>, locate: nat): LocalBook {
    if locate in h.books then Listed(h.books[locate]) else NotListed
  }

  ghost predicate Wired<Q>(h: HandlerState<Q>) {
    h.queueOf.Keys == h.books.Keys && forall l | l in h.books :: l < MAX_LOCATES
  }

  lemma {:induction false} HandleKeepsWired<Q>(cfg: Instruments<Q>, h: HandlerState<Q>, t0: u64, m: Message)
    requires m.WellTyped() && Wired(h) && Handle(cfg, h, t0, m).Done?
    ensures Wired(Handle(cfg, h, t0, m).value)
  {
    FieldTypes(m);
  }

  lemma {:induction false} HandleIsLocal<Q>(cfg: Instruments<Q>, h: HandlerState<Q>, t0: u64, m: Message, locate: nat)
    requires m.WellTyped() && Wired(h) && Handle(cfg, h, t0, m).Done?
    ensures
      var h' := Handle(cfg, h, t0, m).value;
      && BookOf(h', locate) == (if Locate(m) == locate then LocalStep(cfg, BookOf(h, locate), m) else BookOf(h, locate))
      && (locate in h.queueOf ==> locate in h'.queueOf && h'.queueOf[locate] == h.queueOf[locate])
  {
  }

  lemma OnlySnoc(inputs: seq<Input>, locate: nat)
    requires inputs != []
    ensures
      var last := inputs[|inputs| - 1].msg;
      Only(inputs, locate) == Only(inputs[..|inputs| - 1], locate) + (if Locate(last) == locate then [last] else [])
  {
  }

  lemma LocalRunSnoc<Q>(cfg: Instruments<Q>, msgs: seq<Message>, m: Message)
    requires m.WellTyped() && forall x | x in msgs :: x.WellTyped()
    ensures forall x | x in msgs + [m] :: x.WellTyped()
    ensures LocalRun(cfg, msgs + [m]) == LocalStep(cfg, LocalRun(cfg, msgs), m)
  {
    assert (msgs + [m])[..|msgs|] == msgs;
  }

  /** Whatever the interleaving with other locates' messages, each locate's book is the fold of that
      locate's own messages from its first directory entry on. */
  lemma {:induction false} LocatesAreIsolated<Q>(cfg: Instruments<Q>, inputs: seq<Input>, locate: nat)
    requires AllTyped(inputs) && RunHandler(cfg, inputs).Done?
    ensures Wired(RunHandler(cfg, inputs).value)
    ensures BookOf(RunHandler(cfg, inputs).value, locate) == LocalRun(cfg, Only(inputs, locate))
    decreases |inputs|
  {
    if inputs == [] {
    } else {
      var before, last := inputs[..|inputs| - 1], inputs[|inputs| - 1];
      LocatesAreIsolated(cfg, before, locate);
      var h := RunHandler(cfg, before).value;
      HandleKeepsWired(cfg, h, last.t0, last.msg);
      HandleIsLocal(cfg, h, last.t0, last.msg, locate);
      OnlySnoc(inputs, locate);
      if Locate(last.msg) == locate {
        LocalRunSnoc(cfg, Only(before, locate), last.msg);
      } else {
        assert Only(before, locate) + [] == Only(before, locate);
      }
    }
  }

  /** Once a locate has a queue it keeps it. */
  lemma {:induction false} QueuesAreFixed<Q>(cfg: Instruments<Q>, inputs: seq<Input>, n: nat, locate: nat)
    requires AllTyped(inputs) && RunHandler(cfg, inputs).Done? && n <= |inputs|
    ensures RunHandler(cfg, inputs[..n]).Done?
    ensures
      var early, late := RunHandler(cfg, inputs[..n]).value, RunHandler(cfg, inputs).value;
      locate in early.queueOf ==> locate in late.queueOf && late.queueOf[locate] == early.queueOf[locate]
    decreases |inputs|
  {
    if n == |inputs| {
      assert inputs[..n] == inputs;
    } else {
      var before, last := inputs[..|inputs| - 1], inputs[|inputs| - 1];
      assert before[..n] == inputs[..n];
      QueuesAreFixed(cfg, before, n, locate);
      LocatesAreIsolated(cfg, before, locate);
      HandleIsLocal(cfg, RunHandler(cfg, before).value, last.t0, last.msg, locate);
    }
  }
}
