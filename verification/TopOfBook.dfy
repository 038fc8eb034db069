/** From the handler's pushes to what a strategy knows: with one locate on a queue, the last update of each
    side that was pushed is the best of that locate's book. */
module TopOfBook {
  import opened Bits
  import opened Shared
  import opened LevelSpec
  import opened ItchFields
  import opened ItchMessages
  import opened BookSpec
  import opened BookTheorems
  import opened HandlerSpec

  function Hear(v: View, msg: StrategyMsg): View {
    match msg
    case StopMsg => v
    case BookUpdate(_, qty, price, side) => Observe(v, BestLvlChange(qty, price, side))
  }

  /** What a strategy knows that keeps the last book update of each side. */
  function HearAll(v: View, log: seq<StrategyMsg>): View
    decreases |log|
  {
    if log == [] then v else Hear(HearAll(v, log[..|log| - 1]), log[|log| - 1])
  }

  lemma HearOne(v: View, log: seq<StrategyMsg>, msgs: seq<StrategyMsg>)
    requires |msgs| <= 1
    ensures HearAll(v, log + msgs) == if msgs == [] then HearAll(v, log) else Hear(HearAll(v, log), msgs[0])
  {
    if msgs == [] {
      assert log + msgs == log;
    } else {
      assert (log + msgs)[..|log|] == log;
    }
  }

  lemma {:induction false} HearInTwo(v: View, a: seq<StrategyMsg>, b: seq<StrategyMsg>)
    ensures HearAll(v, a + b) == HearAll(HearAll(v, a), b)
    decreases |b|
  {
    if b == [] {
      assert a + b == a;
    } else {
      var front := b[..|b| - 1];
      HearInTwo(v, a, front);
      assert (a + b)[..|a + b| - 1] == a + front;
    }
  }

  /** The log has an update of this side. */
  predicate Mentions(log: seq<StrategyMsg>, side: Side) {
    exists i | 0 <= i < |log| :: log[i].BookUpdate? && log[i].side == side
  }

  /** After one update of a side it no longer matters what was known of that side before. */
  lemma {:induction false} MentionedSideIsKnown(v: View, w: View, log: seq<StrategyMsg>)
    ensures Mentions(log, Bid) ==> HearAll(v, log).bid == HearAll(w, log).bid
    ensures Mentions(log, Ask) ==> HearAll(v, log).ask == HearAll(w, log).ask
    decreases |log|
  {
    if log == [] {
    } else {
      var front, last := log[..|log| - 1], log[|log| - 1];
      MentionedSideIsKnown(v, w, front);
      MentionsLast(log, Bid);
      MentionsLast(log, Ask);
    }
  }

  lemma MentionsLast(log: seq<StrategyMsg>, side: Side)
    requires log != []
    ensures Mentions(log, side) ==>
              Mentions(log[..|log| - 1], side) || (log[|log| - 1].BookUpdate? && log[|log| - 1].side == side)
  {
    if Mentions(log, side) {
      var i :| 0 <= i < |log| && log[i].BookUpdate? && log[i].side == side;
      assert i < |log| - 1 ==> log[..|log| - 1][i] == log[i];
    }
  }

  /** No other locate shares this locate's queue. */
  predicate Sole<Q>(h: HandlerState<Q>, locate: nat)
    requires locate in h.queueOf
  {
    forall l | l in h.queueOf && l != locate :: h.queueOf[l] != h.queueOf[locate]
  }

  /** As many stop messages as listed locates below `n` share the queue. */
  ghost function StopsFor<Q>(queueOf: map<nat, Q>, q: Q, n: nat): nat {
    |set l: nat | l in queueOf && l < n && queueOf[l] == q|
  }

  function Repeat(n: nat): seq<StrategyMsg> {
    seq(n, _ => StopMsg)
  }

  /** Stopping appends one stop message to a queue for every listed locate it serves. */
  lemma {:induction false} StopsPerQueue<Q>(logs: map<Q, seq<StrategyMsg>>, queueOf: map<nat, Q>, n: nat, q: Q)
    ensures Log(PushStops(logs, queueOf, n), q) == Log(logs, q) + Repeat(StopsFor(queueOf, q, n))
    decreases n
  {
    var now := set l: nat | l in queueOf && l < n && queueOf[l] == q;
    if n == 0 {
      assert now == {};
    } else {
      var before := set l: nat | l in queueOf && l < n - 1 && queueOf[l] == q;
      StopsPerQueue(logs, queueOf, n - 1, q);
      if n - 1 in queueOf && queueOf[n - 1] == q {
        assert now == before + {n - 1};
        assert Repeat(|before|) + [StopMsg] == Repeat(|now|);
      } else {
        assert now == before;
      }
    }
  }

  lemma {:induction false} StopsInLog<Q>(logs: map<Q, seq<StrategyMsg>>, queueOf: map<nat, Q>, n: nat, locate: nat)
    requires locate in queueOf && forall l | l in queueOf && l != locate :: queueOf[l] != queueOf[locate]
    ensures Log(PushStops(logs, queueOf, n), queueOf[locate])
         == Log(logs, queueOf[locate]) + (if locate < n then [StopMsg] else [])
  {
    var q := queueOf[locate];
    StopsPerQueue(logs, queueOf, n, q);
    var served := set l: nat | l in queueOf && l < n && queueOf[l] == q;
    assert served == if locate < n then {locate} else {};
  }

  /** What one handled message appends to the queue of a listed locate. */
  ghost function Emitted<Q>(h: HandlerState<Q>, t0: u64, m: Message, locate: nat): (msgs: seq<StrategyMsg>)
    requires m.WellTyped() && locate in h.books
    ensures |msgs| <= 1
  {
    if m.kind == Ascii('R') then []
    else if m.kind == Ascii('S') then (if NumAt(m, 3) == Ascii('C') then [StopMsg] else [])
    else if Locate(m) != locate || Apply(h.books[locate], OpOf(m)).Abort? then []
    else ChangeMsgs(Apply(h.books[locate], OpOf(m)).value.change, t0)
  }

  lemma {:induction false} EmittedIsAppended<Q>(cfg: Instruments<Q>, h: HandlerState<Q>, t0: u64, m: Message, locate: nat)
    requires m.WellTyped() && Wired(h) && Handle(cfg, h, t0, m).Done?
    requires locate in h.queueOf && Sole(h, locate)
    ensures Log(Handle(cfg, h, t0, m).value.logs, h.queueOf[locate])
         == Log(h.logs, h.queueOf[locate]) + Emitted(h, t0, m, locate)
  {
    if m.kind == Ascii('S') {
      StopsInLog(h.logs, h.queueOf, MAX_LOCATES, locate);
    }
  }

  lemma {:induction false} OpIsHeard(b: BookState, op: BookOp, t0: u64)
    requires Apply(b, op).Done?
    ensures
      var msgs := ChangeMsgs(Apply(b, op).value.change, t0);
      TrueView(Apply(b, op).value.book) == if msgs == [] then TrueView(b) else Hear(TrueView(b), msgs[0])
  {
    ObserveStaysTrue(b, op);
  }

  /** One handled message appends at most one message to the queue of a listed locate, and a strategy that
      knew the true bests of its book knows them afterwards. */
  lemma {:induction false} OneMessageKeepsTruth<Q>(cfg: Instruments<Q>, h: HandlerState<Q>, t0: u64, m: Message, locate: nat)
    requires m.WellTyped() && Wired(h) && Handle(cfg, h, t0, m).Done? && locate in h.books
    ensures
      var h' := Handle(cfg, h, t0, m).value;
      var msgs := Emitted(h, t0, m, locate);
      && locate in h'.books
      && TrueView(h'.books[locate]) ==
         if msgs == [] then TrueView(h.books[locate]) else Hear(TrueView(h.books[locate]), msgs[0])
  {
    if m.kind != Ascii('R') && m.kind != Ascii('S') && Locate(m) == locate {
      OpIsHeard(h.books[locate], OpOf(m), t0);
    }
  }

  ghost predicate LogsOwned<Q>(h: HandlerState<Q>) {
    forall q | q in h.logs :: exists l | l in h.queueOf :: h.queueOf[l] == q
  }

  lemma {:induction false} LogsStayOwned<Q>(cfg: Instruments<Q>, h: HandlerState<Q>, t0: u64, m: Message)
    requires m.WellTyped() && Wired(h) && LogsOwned(h) && Handle(cfg, h, t0, m).Done?
    ensures LogsOwned(Handle(cfg, h, t0, m).value)
  {
    var h' := Handle(cfg, h, t0, m).value;
    if m.kind == Ascii('S') {
      StopKeys(h.logs, h.queueOf, MAX_LOCATES);
    }
    forall q | q in h'.logs
      ensures exists l | l in h'.queueOf :: h'.queueOf[l] == q
    {
      if q in h.logs {
        var l :| l in h.queueOf && h.queueOf[l] == q;
        assert l in h'.queueOf && h'.queueOf[l] == q;
      }
    }
  }

  lemma {:induction false} StopKeys<Q>(logs: map<Q, seq<StrategyMsg>>, queueOf: map<nat, Q>, n: nat)
    ensures forall q | q in PushStops(logs, queueOf, n) :: q in logs || exists l | l in queueOf :: queueOf[l] == q
    decreases n
  {
    if n == 0 {
    } else {
      StopKeys(logs, queueOf, n - 1);
    }
  }

  /** The whole of a log gives the present bests. */
  ghost predicate LogIsTruthful<Q>(h: HandlerState<Q>, locate: nat)
    requires locate in h.queueOf && locate in h.books
  {
    HearAll(INITIAL_VIEW, Log(h.logs, h.queueOf[locate])) == TrueView(h.books[locate])
  }

  lemma {:induction false} NewlyListed<Q>(h: HandlerState<Q>, h': HandlerState<Q>, locate: nat)
    requires Wired(h) && LogsOwned(h) && locate !in h.books && locate in h'.books && Wired(h') && Sole(h', locate)
    requires h'.books == h.books[locate := EMPTY_BOOK] && h'.logs == h.logs
    requires h'.queueOf == h.queueOf[locate := h'.queueOf[locate]]
    ensures Log(h'.logs, h'.queueOf[locate]) == [] && LogIsTruthful(h', locate)
  {
    var q := h'.queueOf[locate];
    EmptyView();
    forall l | l in h.queueOf
      ensures h.queueOf[l] != q
    {
      assert h'.queueOf[l] == h.queueOf[l];
    }
  }

  lemma {:induction false} StillTruthful<Q>(cfg: Instruments<Q>, h: HandlerState<Q>, t0: u64, m: Message, locate: nat)
    requires m.WellTyped() && Wired(h) && Handle(cfg, h, t0, m).Done?
    requires locate in h.queueOf && Sole(h, locate) && LogIsTruthful(h, locate)
    ensures
      var h' := Handle(cfg, h, t0, m).value;
      locate in h'.queueOf && locate in h'.books && LogIsTruthful(h', locate)
  {
    OneMessageKeepsTruth(cfg, h, t0, m, locate);
    EmittedIsAppended(cfg, h, t0, m, locate);
    HandleIsLocal(cfg, h, t0, m, locate);
    HearOne(INITIAL_VIEW, Log(h.logs, h.queueOf[locate]), Emitted(h, t0, m, locate));
  }

  lemma {:induction false} ListingStep<Q>(cfg: Instruments<Q>, h: HandlerState<Q>, t0: u64, m: Message, locate: nat)
    requires m.WellTyped() && Wired(h) && Handle(cfg, h, t0, m).Done?
    requires locate !in h.queueOf && locate in Handle(cfg, h, t0, m).value.queueOf
    ensures
      var h' := Handle(cfg, h, t0, m).value;
      && h'.books == h.books[locate := EMPTY_BOOK] && h'.logs == h.logs
      && h'.queueOf == h.queueOf[locate := h'.queueOf[locate]]
  {
  }

  ghost predicate Truth<Q>(h: HandlerState<Q>, locate: nat) {
    && Wired(h)
    && LogsOwned(h)
    && (locate in h.queueOf && Sole(h, locate) ==> locate in h.books && LogIsTruthful(h, locate))
  }

  lemma SoleBefore<Q>(cfg: Instruments<Q>, h: HandlerState<Q>, t0: u64, m: Message, locate: nat)
    requires m.WellTyped() && Wired(h) && Handle(cfg, h, t0, m).Done? && locate in h.queueOf
    requires locate in Handle(cfg, h, t0, m).value.queueOf && Sole(Handle(cfg, h, t0, m).value, locate)
    ensures Sole(h, locate)
  {
    var h' := Handle(cfg, h, t0, m).value;
    forall l | l in h.queueOf && l != locate
      ensures h.queueOf[l] != h.queueOf[locate]
    {
      assert h'.queueOf[l] == h.queueOf[l];
    }
  }

  lemma {:induction false} TruthStep<Q>(cfg: Instruments<Q>, h: HandlerState<Q>, t0: u64, m: Message, locate: nat)
    requires m.WellTyped() && Truth(h, locate) && Handle(cfg, h, t0, m).Done?
    ensures Truth(Handle(cfg, h, t0, m).value, locate)
  {
    var h' := Handle(cfg, h, t0, m).value;
    HandleKeepsWired(cfg, h, t0, m);
    LogsStayOwned(cfg, h, t0, m);
    if locate in h'.queueOf && Sole(h', locate) {
      if locate in h.queueOf {
        SoleBefore(cfg, h, t0, m, locate);
        StillTruthful(cfg, h, t0, m, locate);
      } else {
        ListingStep(cfg, h, t0, m, locate);
        NewlyListed(h, h', locate);
      }
    }
  }

  /** After any run of the handler, the log of a queue that serves a single locate gives the present best
      bid and ask of that locate's book. */
  lemma {:induction false} LogsAreTruthful<Q>(cfg: Instruments<Q>, inputs: seq<Input>, locate: nat)
    requires AllTyped(inputs) && RunHandler(cfg, inputs).Done?
    ensures Truth(RunHandler(cfg, inputs).value, locate)
    decreases |inputs|
  {
    if inputs == [] {
    } else {
      var len := |inputs| - 1;
      RunBefore(cfg, inputs, len);
      LogsAreTruthful(cfg, inputs[..len], locate);
      TruthStep(cfg, RunHandler(cfg, inputs[..len]).value, inputs[len].t0, inputs[len].msg, locate);
    }
  }

  // ----- The book as of each push -----

  /** The run has listed the locate and pushed exactly `k` messages to its queue. */
  ghost predicate HasPushed<Q>(cfg: Instruments<Q>, inputs: seq<Input>, locate: nat, k: nat)
    requires AllTyped(inputs)
  {
    RunHandler(cfg, inputs).Done? &&
    var h := RunHandler(cfg, inputs).value;
    locate in h.books && locate in h.queueOf && |Log(h.logs, h.queueOf[locate])| == k
  }

  /** The bests of the locate's book after a run. */
  ghost function TopAfter<Q>(cfg: Instruments<Q>, inputs: seq<Input>, locate: nat): View
    requires AllTyped(inputs) && RunHandler(cfg, inputs).Done? && locate in RunHandler(cfg, inputs).value.books
  {
    TrueView(RunHandler(cfg, inputs).value.books[locate])
  }

  /** `v` shows the bests as of push number `k`: the run has moments at which exactly `k` messages had been
      pushed to the locate's queue, and at every one of them the book's bests were those of `v`. */
  ghost predicate TopAsOfPush<Q>(cfg: Instruments<Q>, inputs: seq<Input>, locate: nat, k: nat, v: View)
    requires AllTyped(inputs)
  {
    && (exists n: nat :: n <= |inputs| && HasPushed(cfg, inputs[..n], locate, k))
    && (forall n: nat :: n <= |inputs| && HasPushed(cfg, inputs[..n], locate, k) ==> TopAfter(cfg, inputs[..n], locate) == v)
  }

  /** One message makes the queue's log longer by at most one, and a locate starts with an empty log. */
  lemma {:induction false} LogStep<Q>(cfg: Instruments<Q>, h: HandlerState<Q>, t0: u64, m: Message, locate: nat)
    requires m.WellTyped() && Wired(h) && LogsOwned(h) && Handle(cfg, h, t0, m).Done?
    requires
      var h' := Handle(cfg, h, t0, m).value;
      locate in h'.queueOf && Sole(h', locate)
    ensures
      var h' := Handle(cfg, h, t0, m).value;
      var log' := Log(h'.logs, h'.queueOf[locate]);
      if locate in h.queueOf then
        && Sole(h, locate) && h'.queueOf[locate] == h.queueOf[locate]
        && Log(h.logs, h.queueOf[locate]) <= log' && |log'| <= |Log(h.logs, h.queueOf[locate])| + 1
      else log' == []
  {
    HandleKeepsWired(cfg, h, t0, m);
    if locate in h.queueOf {
      SoleBefore(cfg, h, t0, m, locate);
      EmittedIsAppended(cfg, h, t0, m, locate);
      HandleIsLocal(cfg, h, t0, m, locate);
    } else {
      ListingStep(cfg, h, t0, m, locate);
      NewlyListed(h, Handle(cfg, h, t0, m).value, locate);
    }
  }

  /** Earlier logs of a listed locate are prefixes of later ones. */
  lemma {:induction false} LogsOnlyGrow<Q>(cfg: Instruments<Q>, inputs: seq<Input>, locate: nat, n: nat)
    requires AllTyped(inputs) && RunHandler(cfg, inputs).Done? && n <= |inputs|
    requires locate in RunHandler(cfg, inputs).value.queueOf && Sole(RunHandler(cfg, inputs).value, locate)
    requires RunHandler(cfg, inputs[..n]).Done? && locate in RunHandler(cfg, inputs[..n]).value.queueOf
    ensures
      var early, late := RunHandler(cfg, inputs[..n]).value, RunHandler(cfg, inputs).value;
      && Sole(early, locate) && early.queueOf[locate] == late.queueOf[locate]
      && Log(early.logs, early.queueOf[locate]) <= Log(late.logs, late.queueOf[locate])
    decreases |inputs|
  {
    if n == |inputs| {
      assert inputs[..n] == inputs;
    } else {
      var len := |inputs| - 1;
      RunBefore(cfg, inputs, len);
      LogsAreTruthful(cfg, inputs[..len], locate);
      assert inputs[..len][..n] == inputs[..n];
      QueuesAreFixed(cfg, inputs[..len], n, locate);
      LogStep(cfg, RunHandler(cfg, inputs[..len]).value, inputs[len].t0, inputs[len].msg, locate);
      LogsOnlyGrow(cfg, inputs[..len], locate, n);
    }
  }

  /** No push number is skipped. */
  lemma {:induction false} EveryPushHasAMoment<Q>(cfg: Instruments<Q>, inputs: seq<Input>, locate: nat, k: nat)
    requires AllTyped(inputs) && RunHandler(cfg, inputs).Done?
    requires locate in RunHandler(cfg, inputs).value.queueOf && Sole(RunHandler(cfg, inputs).value, locate)
    requires k <= |Log(RunHandler(cfg, inputs).value.logs, RunHandler(cfg, inputs).value.queueOf[locate])|
    ensures exists n: nat :: n <= |inputs| && HasPushed(cfg, inputs[..n], locate, k)
    decreases |inputs|
  {
    LogsAreTruthful(cfg, inputs, locate);
    if HasPushed(cfg, inputs, locate, k) {
      assert inputs[..|inputs|] == inputs;
    } else {
      var len := |inputs| - 1;
      RunBefore(cfg, inputs, len);
      LogsAreTruthful(cfg, inputs[..len], locate);
      LogStep(cfg, RunHandler(cfg, inputs[..len]).value, inputs[len].t0, inputs[len].msg, locate);
      EveryPushHasAMoment(cfg, inputs[..len], locate, k);
      var n: nat :| n <= len && HasPushed(cfg, inputs[..len][..n], locate, k);
      assert inputs[..len][..n] == inputs[..n];
    }
  }

  lemma {:induction false} TopAtMoment<Q>(cfg: Instruments<Q>, inputs: seq<Input>, locate: nat, k: nat, n: nat)
    requires AllTyped(inputs) && RunHandler(cfg, inputs).Done? && n <= |inputs|
    requires locate in RunHandler(cfg, inputs).value.queueOf && Sole(RunHandler(cfg, inputs).value, locate)
    requires HasPushed(cfg, inputs[..n], locate, k)
    ensures
      var h := RunHandler(cfg, inputs).value;
      var log := Log(h.logs, h.queueOf[locate]);
      k <= |log| && TopAfter(cfg, inputs[..n], locate) == HearAll(INITIAL_VIEW, log[..k])
  {
    LogsAreTruthful(cfg, inputs[..n], locate);
    LogsOnlyGrow(cfg, inputs, locate, n);
    var early, late := RunHandler(cfg, inputs[..n]).value, RunHandler(cfg, inputs).value;
    assert Log(early.logs, early.queueOf[locate]) == Log(late.logs, late.queueOf[locate])[..k];
  }

  /** The first `k` messages of the log give the bests as of push number `k`, for every `k`. */
  lemma {:induction false} PrefixesAreTruthful<Q>(cfg: Instruments<Q>, inputs: seq<Input>, locate: nat, k: nat)
    requires AllTyped(inputs) && RunHandler(cfg, inputs).Done?
    requires locate in RunHandler(cfg, inputs).value.queueOf && Sole(RunHandler(cfg, inputs).value, locate)
    requires k <= |Log(RunHandler(cfg, inputs).value.logs, RunHandler(cfg, inputs).value.queueOf[locate])|
    ensures
      var h := RunHandler(cfg, inputs).value;
      TopAsOfPush(cfg, inputs, locate, k, HearAll(INITIAL_VIEW, Log(h.logs, h.queueOf[locate])[..k]))
  {
    var h := RunHandler(cfg, inputs).value;
    EveryPushHasAMoment(cfg, inputs, locate, k);
    forall n: nat | n <= |inputs| && HasPushed(cfg, inputs[..n], locate, k)
      ensures TopAfter(cfg, inputs[..n], locate) == HearAll(INITIAL_VIEW, Log(h.logs, h.queueOf[locate])[..k])
    {
      TopAtMoment(cfg, inputs, locate, k, n);
    }
  }
}
