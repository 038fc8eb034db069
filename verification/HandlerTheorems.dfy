/** What a run of the handler leaves behind besides its books: flags, the count of live orders, queues and
    the counter values in the updates. System events are named by their code bytes. */
module HandlerTheorems {
  import opened Bits
  import opened Shared
  import opened LevelSpec
  import opened ItchFields
  import opened ItchMessages
  import opened BookSpec
  import opened BookTheorems
  import opened HandlerSpec
  import opened TopOfBook

  /** The states before and after the last input of a run. */
  ghost predicate LastStep<Q>(cfg: Instruments<Q>, inputs: seq<Input>, len: nat, h: HandlerState<Q>, h': HandlerState<Q>)
    requires AllTyped(inputs)
  {
    && inputs != [] && len == |inputs| - 1
    && RunHandler(cfg, inputs[..len]) == Done(h) && RunHandler(cfg, inputs) == Done(h')
  }

  lemma {:induction false} StepOf<Q>(cfg: Instruments<Q>, inputs: seq<Input>, len: nat, h: HandlerState<Q>, h': HandlerState<Q>)
    requires AllTyped(inputs) && LastStep(cfg, inputs, len, h, h')
    ensures inputs[len].msg.WellTyped() && Wired(h)
    ensures Handle(cfg, h, inputs[len].t0, inputs[len].msg) == Done(h')
  {
    RunBefore(cfg, inputs, len);
    LocatesAreIsolated(cfg, inputs[..len], 0);
  }

  lemma {:induction false} HasLastStep<Q>(cfg: Instruments<Q>, inputs: seq<Input>, len: nat)
    requires AllTyped(inputs) && inputs != [] && len == |inputs| - 1 && RunHandler(cfg, inputs).Done?
    ensures AllTyped(inputs[..len]) && RunHandler(cfg, inputs[..len]).Done?
    ensures LastStep(cfg, inputs, len, RunHandler(cfg, inputs[..len]).value, RunHandler(cfg, inputs).value)
  {
    RunBefore(cfg, inputs, len);
  }

  // ----- The flags -----

  /** A system event with this code byte. */
  predicate IsEvent(m: Message, code: nat) {
    m.kind == 83 && |m.values| > 3 && m.values[3] == Num(code)
  }

  lemma {:induction false} EventCode(m: Message)
    requires m.WellTyped() && m.kind == 83
    ensures forall code: nat :: IsEvent(m, code) <==> NumAt(m, 3) == code
  {
    assert Fits(LayoutOf(m.kind)[3], m.values[3]);
  }

  lemma {:induction false} FlagsStep<Q>(cfg: Instruments<Q>, h: HandlerState<Q>, t0: u64, m: Message)
    requires m.WellTyped() && Handle(cfg, h, t0, m).Done?
    ensures
      var h' := Handle(cfg, h, t0, m).value;
      && (h'.lastMessage <==> h.lastMessage || IsEvent(m, 67))
      && (h'.recordPrices <==> IsEvent(m, 81) || (h.recordPrices && !IsEvent(m, 77)))
  {
    if m.kind == 83 {
      EventCode(m);
    }
  }

  lemma {:induction false} FlagsRunStep<Q>(cfg: Instruments<Q>, inputs: seq<Input>, len: nat, h: HandlerState<Q>, h': HandlerState<Q>)
    requires AllTyped(inputs) && LastStep(cfg, inputs, len, h, h')
    ensures h'.lastMessage <==> h.lastMessage || IsEvent(inputs[len].msg, 67)
    ensures h'.recordPrices <==> IsEvent(inputs[len].msg, 81) || (h.recordPrices && !IsEvent(inputs[len].msg, 77))
  {
    StepOf(cfg, inputs, len, h, h');
    FlagsStep(cfg, h, inputs[len].t0, inputs[len].msg);
  }

  /** Some input of the run was this event. */
  predicate HadEvent(inputs: seq<Input>, code: nat) {
    exists i | 0 <= i < |inputs| :: IsEvent(inputs[i].msg, code)
  }

  lemma HadEventStep(inputs: seq<Input>, len: nat, code: nat)
    requires inputs != [] && len == |inputs| - 1
    ensures HadEvent(inputs, code) <==> HadEvent(inputs[..len], code) || IsEvent(inputs[len].msg, code)
  {
    assert forall i | 0 <= i < len :: inputs[..len][i] == inputs[i];
  }

  /** The handler asks to stop if and only if some input was the end-of-messages event 'C'. */
  lemma {:induction false} StopsExactlyWhen<Q>(cfg: Instruments<Q>, inputs: seq<Input>)
    requires AllTyped(inputs) && RunHandler(cfg, inputs).Done?
    ensures RunHandler(cfg, inputs).value.lastMessage <==> HadEvent(inputs, 67)
    decreases |inputs|
  {
    if inputs == [] {
    } else {
      var len := |inputs| - 1;
      HasLastStep(cfg, inputs, len);
      StopsExactlyWhen(cfg, inputs[..len]);
      FlagsRunStep(cfg, inputs, len, RunHandler(cfg, inputs[..len]).value, RunHandler(cfg, inputs).value);
      HadEventStep(inputs, len, 67);
    }
  }

  /** Market hours: a start event 'Q' that no end event 'M' has followed. */
  predicate InMarketHours(inputs: seq<Input>) {
    exists i: nat | i < |inputs| ::
      IsEvent(inputs[i].msg, 81) && forall j | i < j < |inputs| :: !IsEvent(inputs[j].msg, 77)
  }

  lemma MarketHoursStep(inputs: seq<Input>, len: nat)
    requires inputs != [] && len == |inputs| - 1
    ensures InMarketHours(inputs)
       <==> IsEvent(inputs[len].msg, 81) || (InMarketHours(inputs[..len]) && !IsEvent(inputs[len].msg, 77))
  {
    var before := inputs[..len];
    if InMarketHours(inputs) && !IsEvent(inputs[len].msg, 81) {
      var i: nat :| i < |inputs| && IsEvent(inputs[i].msg, 81) && forall j | i < j < |inputs| :: !IsEvent(inputs[j].msg, 77);
      assert before[i] == inputs[i];
    }
    if InMarketHours(before) && !IsEvent(inputs[len].msg, 77) {
      var i: nat :| i < len && IsEvent(before[i].msg, 81) && forall j | i < j < len :: !IsEvent(before[j].msg, 77);
      forall j | i < j < |inputs|
        ensures !IsEvent(inputs[j].msg, 77)
      {
        assert j < len ==> before[j] == inputs[j];
      }
      assert IsEvent(inputs[i].msg, 81);
    }
  }

  /** Prices are recorded exactly in market hours. */
  lemma {:induction false} RecordsExactlyWhen<Q>(cfg: Instruments<Q>, inputs: seq<Input>)
    requires AllTyped(inputs) && RunHandler(cfg, inputs).Done?
    ensures RunHandler(cfg, inputs).value.recordPrices <==> InMarketHours(inputs)
    decreases |inputs|
  {
    if inputs == [] {
    } else {
      var len := |inputs| - 1;
      HasLastStep(cfg, inputs, len);
      RecordsExactlyWhen(cfg, inputs[..len]);
      FlagsRunStep(cfg, inputs, len, RunHandler(cfg, inputs[..len]).value, RunHandler(cfg, inputs).value);
      MarketHoursStep(inputs, len);
    }
  }

  // ----- The largest number of live orders -----

  /** An add message for a locate whose book then has `k` live orders. */
  ghost predicate AddedTo<Q>(m: Message, h': HandlerState<Q>, k: nat) {
    && (m.kind == 65 || m.kind == 70) && |m.values| > 0
    && exists locate | locate in h'.books :: m.values[0] == Num(locate) && |h'.books[locate].orders| == k
  }

  lemma {:induction false} OpCountsOrders<Q>(h: HandlerState<Q>, locate: nat, op: BookOp, t0: u64)
    requires HandleOp(h, locate, op, t0).Done? && Wired(h)
    ensures
      var h' := HandleOp(h, locate, op, t0).value;
      && h.books.Keys == h'.books.Keys
      && if op.Add? && locate in h.books then h'.maxOrders == Larger(h.maxOrders, |h'.books[locate].orders|)
         else h'.maxOrders == h.maxOrders
  {
  }

  function Larger(a: nat, b: nat): nat {
    if a < b then b else a
  }

  lemma {:induction false} MaxOrdersStep<Q>(cfg: Instruments<Q>, h: HandlerState<Q>, t0: u64, m: Message)
    requires m.WellTyped() && Wired(h) && Handle(cfg, h, t0, m).Done?
    ensures
      var h' := Handle(cfg, h, t0, m).value;
      && h.maxOrders <= h'.maxOrders && (h'.maxOrders == h.maxOrders || AddedTo(m, h', h'.maxOrders))
      && forall k: nat | AddedTo(m, h', k) :: k <= h'.maxOrders
  {
    FieldTypes(m);
    assert m.values[0] == Num(Locate(m));
    if m.kind != Ascii('S') && m.kind != Ascii('R') {
      OpCountsOrders(h, Locate(m), OpOf(m), t0);
    }
  }

  lemma {:induction false} MaxOrdersRunStep<Q>(
    cfg: Instruments<Q>, inputs: seq<Input>, len: nat, h: HandlerState<Q>, h': HandlerState<Q>)
    requires AllTyped(inputs) && LastStep(cfg, inputs, len, h, h')
    ensures h.maxOrders <= h'.maxOrders && (h'.maxOrders == h.maxOrders || AddedTo(inputs[len].msg, h', h'.maxOrders))
    ensures forall k: nat | AddedTo(inputs[len].msg, h', k) :: k <= h'.maxOrders
  {
    StepOf(cfg, inputs, len, h, h');
    MaxOrdersStep(cfg, h, inputs[len].t0, inputs[len].msg);
  }

  /** The last of these inputs was an add message after which its book had `k` live orders. */
  ghost predicate CountedLast<Q>(cfg: Instruments<Q>, inputs: seq<Input>, k: nat)
    requires AllTyped(inputs)
  {
    && inputs != [] && RunHandler(cfg, inputs).Done?
    && AddedTo(inputs[|inputs| - 1].msg, RunHandler(cfg, inputs).value, k)
  }

  /** Input `n` of the run was an add message after which its book had `k` live orders. */
  ghost predicate CountedAt<Q>(cfg: Instruments<Q>, inputs: seq<Input>, n: nat, k: nat)
    requires AllTyped(inputs)
  {
    n < |inputs| && CountedLast(cfg, inputs[..n + 1], k)
  }

  lemma {:induction false} CountedBefore<Q>(cfg: Instruments<Q>, inputs: seq<Input>, len: nat, n: nat, k: nat)
    requires AllTyped(inputs) && len <= |inputs| && n < len
    ensures CountedAt(cfg, inputs, n, k) <==> CountedAt(cfg, inputs[..len], n, k)
  {
    assert inputs[..len][..n + 1] == inputs[..n + 1];
  }

  lemma {:induction false} CountedNow<Q>(cfg: Instruments<Q>, inputs: seq<Input>, len: nat)
    requires AllTyped(inputs) && inputs != [] && len == |inputs| - 1 && RunHandler(cfg, inputs).Done?
    ensures forall k: nat :: CountedAt(cfg, inputs, len, k) <==> AddedTo(inputs[len].msg, RunHandler(cfg, inputs).value, k)
  {
    assert inputs[..len + 1] == inputs;
  }

  /** `most` is the largest count so far, 0 when there is none. */
  ghost predicate IsLargestCount<Q>(cfg: Instruments<Q>, inputs: seq<Input>, most: nat)
    requires AllTyped(inputs)
  {
    && (forall n: nat, k: nat | CountedAt(cfg, inputs, n, k) :: k <= most)
    && (most == 0 || exists n: nat :: CountedAt(cfg, inputs, n, most))
  }

  lemma {:induction false} StillAtMost<Q>(
    cfg: Instruments<Q>, inputs: seq<Input>, len: nat, before: nat, most: nat, n: nat, k: nat)
    requires AllTyped(inputs) && inputs != [] && len == |inputs| - 1 && before <= most
    requires n < len && CountedAt(cfg, inputs[..len], n, k) ==> k <= before
    requires n == len && CountedAt(cfg, inputs, n, k) ==> k <= most
    requires CountedAt(cfg, inputs, n, k)
    ensures k <= most
  {
    if n < len {
      CountedBefore(cfg, inputs, len, n, k);
    }
  }

  lemma {:induction false} LargestCarries<Q>(cfg: Instruments<Q>, inputs: seq<Input>, len: nat, before: nat, most: nat)
    requires AllTyped(inputs) && inputs != [] && len == |inputs| - 1
    requires IsLargestCount(cfg, inputs[..len], before) && before <= most
    requires most == before || CountedAt(cfg, inputs, len, most)
    requires forall k: nat | CountedAt(cfg, inputs, len, k) :: k <= most
    ensures IsLargestCount(cfg, inputs, most)
  {
    forall n: nat, k: nat | CountedAt(cfg, inputs, n, k)
      ensures k <= most
    {
      StillAtMost(cfg, inputs, len, before, most, n, k);
    }
    if most == before && most != 0 {
      var n: nat :| CountedAt(cfg, inputs[..len], n, before);
      CountedBefore(cfg, inputs, len, n, before);
    }
  }

  /** `max_orders` is the largest number of live orders of a book right after an add message, 0 without one. */
  lemma {:induction false} MaxOrdersIsLargest<Q>(cfg: Instruments<Q>, inputs: seq<Input>)
    requires AllTyped(inputs) && RunHandler(cfg, inputs).Done?
    ensures IsLargestCount(cfg, inputs, RunHandler(cfg, inputs).value.maxOrders)
    decreases |inputs|
  {
    if inputs == [] {
    } else {
      var len := |inputs| - 1;
      var h, h' := RunHandler(cfg, inputs[..len]).value, RunHandler(cfg, inputs).value;
      HasLastStep(cfg, inputs, len);
      MaxOrdersIsLargest(cfg, inputs[..len]);
      MaxOrdersRunStep(cfg, inputs, len, h, h');
      CountedNow(cfg, inputs, len);
      LargestCarries(cfg, inputs, len, h.maxOrders, h'.maxOrders);
    }
  }

  // ----- Which queue a locate gets -----

  /** A stock directory entry of a configured symbol for this locate. */
  predicate IsListing<Q>(cfg: Instruments<Q>, m: Message, locate: nat) {
    m.kind == 82 && |m.values| > 3 && m.values[0] == Num(locate) && m.values[3].Text? && m.values[3].bytes in cfg
  }

  predicate FirstListing<Q>(cfg: Instruments<Q>, inputs: seq<Input>, locate: nat, i: nat) {
    i < |inputs| && IsListing(cfg, inputs[i].msg, locate) && forall j | 0 <= j < i :: !IsListing(cfg, inputs[j].msg, locate)
  }

  lemma {:induction false} QueueStep<Q>(cfg: Instruments<Q>, h: HandlerState<Q>, t0: u64, m: Message, locate: nat)
    requires m.WellTyped() && Wired(h) && Handle(cfg, h, t0, m).Done?
    ensures
      var h' := Handle(cfg, h, t0, m).value;
      if locate in h.queueOf then locate in h'.queueOf && h'.queueOf[locate] == h.queueOf[locate]
      else if IsListing(cfg, m, locate) then locate in h'.queueOf && h'.queueOf[locate] == cfg[m.values[3].bytes]
      else locate !in h'.queueOf
  {
    FieldTypes(m);
    assert m.values[0] == Num(Locate(m));
    if m.kind == 82 {
      assert m.values[3] == Text(Symbol(m));
    }
  }

  lemma {:induction false} QueueRunStep<Q>(
    cfg: Instruments<Q>, inputs: seq<Input>, len: nat, h: HandlerState<Q>, h': HandlerState<Q>, locate: nat)
    requires AllTyped(inputs) && LastStep(cfg, inputs, len, h, h')
    ensures
      if locate in h.queueOf then locate in h'.queueOf && h'.queueOf[locate] == h.queueOf[locate]
      else if IsListing(cfg, inputs[len].msg, locate)
      then locate in h'.queueOf && h'.queueOf[locate] == cfg[inputs[len].msg.values[3].bytes]
      else locate !in h'.queueOf
  {
    StepOf(cfg, inputs, len, h, h');
    QueueStep(cfg, h, inputs[len].t0, inputs[len].msg, locate);
  }

  /** The queue that a list of inputs gives a locate. */
  function QueueFor<Q>(cfg: Instruments<Q>, inputs: seq<Input>, locate: nat): Option<Q> {
    if inputs == [] then None
    else
      var before, last := QueueFor(cfg, inputs[..|inputs| - 1], locate), inputs[|inputs| - 1].msg;
      if before.Some? then before
      else if IsListing(cfg, last, locate) then Some(cfg[last.values[3].bytes])
      else None
  }

  /** That is the one configured for the symbol of the first entry that names the locate. */
  lemma {:induction false} QueueForIsFirst<Q>(cfg: Instruments<Q>, inputs: seq<Input>, locate: nat)
    ensures QueueFor(cfg, inputs, locate).None? <==> forall i | 0 <= i < |inputs| :: !IsListing(cfg, inputs[i].msg, locate)
    ensures forall i: nat | FirstListing(cfg, inputs, locate, i) ::
              QueueFor(cfg, inputs, locate) == Some(cfg[inputs[i].msg.values[3].bytes])
    decreases |inputs|
  {
    if inputs == [] {
    } else {
      var len := |inputs| - 1;
      var before := inputs[..len];
      QueueForIsFirst(cfg, before, locate);
      assert forall i | 0 <= i < len :: before[i] == inputs[i];
      forall i: nat | FirstListing(cfg, inputs, locate, i)
        ensures QueueFor(cfg, inputs, locate) == Some(cfg[inputs[i].msg.values[3].bytes])
      {
        if i < len {
          assert FirstListing(cfg, before, locate, i);
        }
      }
    }
  }

  lemma {:induction false} QueuesAre<Q>(cfg: Instruments<Q>, inputs: seq<Input>, locate: nat)
    requires AllTyped(inputs) && RunHandler(cfg, inputs).Done?
    ensures
      var h := RunHandler(cfg, inputs).value;
      QueueFor(cfg, inputs, locate) == if locate in h.queueOf then Some(h.queueOf[locate]) else None
    decreases |inputs|
  {
    if inputs == [] {
    } else {
      var len := |inputs| - 1;
      HasLastStep(cfg, inputs, len);
      QueuesAre(cfg, inputs[..len], locate);
      QueueRunStep(cfg, inputs, len, RunHandler(cfg, inputs[..len]).value, RunHandler(cfg, inputs).value, locate);
    }
  }

  /** A locate is listed exactly when some entry of a configured symbol has named it, and its queue is the one
      configured for the symbol of the first such entry. */
  lemma {:induction false} QueueOfFirstListing<Q>(cfg: Instruments<Q>, inputs: seq<Input>, locate: nat)
    requires AllTyped(inputs) && RunHandler(cfg, inputs).Done?
    ensures locate in RunHandler(cfg, inputs).value.queueOf
       <==> exists i | 0 <= i < |inputs| :: IsListing(cfg, inputs[i].msg, locate)
    ensures forall i: nat | FirstListing(cfg, inputs, locate, i) ::
              && locate in RunHandler(cfg, inputs).value.queueOf
              && RunHandler(cfg, inputs).value.queueOf[locate] == cfg[inputs[i].msg.values[3].bytes]
  {
    QueuesAre(cfg, inputs, locate);
    QueueForIsFirst(cfg, inputs, locate);
  }

  // ----- Stopping -----

  /** The end-of-messages event, and no other, puts one stop message into a queue for every listed locate that
      has it. */
  lemma {:induction false} EveryQueueStops<Q>(h: HandlerState<Q>, code: nat, q: Q)
    requires Wired(h)
    ensures Log(HandleSystemEvent(h, code).logs, q)
         == Log(h.logs, q) + (if code == 67 then Repeat(|set l | l in h.queueOf && h.queueOf[l] == q|) else [])
    ensures HandleSystemEvent(h, code).books == h.books && HandleSystemEvent(h, code).queueOf == h.queueOf
  {
    if code == 67 {
      StopsPerQueue(h.logs, h.queueOf, MAX_LOCATES, q);
      assert (set l: nat | l in h.queueOf && l < MAX_LOCATES && h.queueOf[l] == q)
          == (set l | l in h.queueOf && h.queueOf[l] == q);
    }
  }

  // ----- The counter values in the updates -----

  /** What has been added to a log carries this counter value. */
  predicate GrewStamped(log: seq<StrategyMsg>, log': seq<StrategyMsg>, t0: u64) {
    log <= log' && forall i | |log| <= i < |log'| :: log'[i].BookUpdate? ==> log'[i].t0 == t0
  }

  lemma {:induction false} ChangeIsStamped<Q>(logs: map<Q, seq<StrategyMsg>>, to: Q, change: BestLvlChange, t0: u64, q: Q)
    ensures GrewStamped(Log(logs, q), Log(HandleChange(logs, to, change, t0), q), t0)
  {
  }

  lemma {:induction false} OpIsStamped<Q>(h: HandlerState<Q>, locate: nat, op: BookOp, t0: u64, q: Q)
    requires HandleOp(h, locate, op, t0).Done?
    ensures GrewStamped(Log(h.logs, q), Log(HandleOp(h, locate, op, t0).value.logs, q), t0)
  {
    if locate in h.books && locate in h.queueOf {
      ChangeIsStamped(h.logs, h.queueOf[locate], Apply(h.books[locate], op).value.change, t0, q);
    }
  }

  lemma {:induction false} EventIsStamped<Q>(h: HandlerState<Q>, code: nat, t0: u64, q: Q)
    ensures GrewStamped(Log(h.logs, q), Log(HandleSystemEvent(h, code).logs, q), t0)
  {
    StopsPerQueue(h.logs, h.queueOf, MAX_LOCATES, q);
  }

  /** What a message appends to a queue carries the counter value read before that message. */
  lemma {:induction false} AppendsStamped<Q>(cfg: Instruments<Q>, h: HandlerState<Q>, t0: u64, m: Message, q: Q)
    requires m.WellTyped() && Handle(cfg, h, t0, m).Done?
    ensures GrewStamped(Log(h.logs, q), Log(Handle(cfg, h, t0, m).value.logs, q), t0)
  {
    if m.kind == Ascii('S') {
      EventIsStamped(h, NumAt(m, 3), t0, q);
    } else if m.kind != Ascii('R') {
      OpIsStamped(h, Locate(m), OpOf(m), t0, q);
    }
  }

  lemma {:induction false} AppendsStampedRunStep<Q>(
    cfg: Instruments<Q>, inputs: seq<Input>, len: nat, h: HandlerState<Q>, h': HandlerState<Q>, q: Q)
    requires AllTyped(inputs) && LastStep(cfg, inputs, len, h, h')
    ensures GrewStamped(Log(h.logs, q), Log(h'.logs, q), inputs[len].t0)
  {
    StepOf(cfg, inputs, len, h, h');
    AppendsStamped(cfg, h, inputs[len].t0, inputs[len].msg, q);
  }

  /** What a run has pushed to a queue. */
  ghost function LogAfter<Q>(cfg: Instruments<Q>, inputs: seq<Input>, q: Q): seq<StrategyMsg>
    requires AllTyped(inputs)
  {
    if RunHandler(cfg, inputs).Done? then Log(RunHandler(cfg, inputs).value.logs, q) else []
  }

  /** Input `n` pushed the message at position `i`. */
  ghost predicate PushedAt<Q>(cfg: Instruments<Q>, inputs: seq<Input>, q: Q, n: nat, i: nat)
    requires AllTyped(inputs)
  {
    n < |inputs| && |LogAfter(cfg, inputs[..n], q)| <= i < |LogAfter(cfg, inputs[..n + 1], q)|
  }

  lemma PushedAtStep<Q>(cfg: Instruments<Q>, inputs: seq<Input>, len: nat, q: Q, n: nat, i: nat)
    requires AllTyped(inputs) && len <= |inputs| && PushedAt(cfg, inputs[..len], q, n, i)
    ensures PushedAt(cfg, inputs, q, n, i) && inputs[..len][n] == inputs[n]
  {
    assert inputs[..len][..n] == inputs[..n] && inputs[..len][..n + 1] == inputs[..n + 1];
  }

  /** Every update in a queue carries the counter value of the input that pushed it. */
  lemma {:induction false} UpdatesAreStamped<Q>(cfg: Instruments<Q>, inputs: seq<Input>, q: Q, i: nat)
    requires AllTyped(inputs) && RunHandler(cfg, inputs).Done?
    requires i < |LogAfter(cfg, inputs, q)| && LogAfter(cfg, inputs, q)[i].BookUpdate?
    ensures exists n: nat :: PushedAt(cfg, inputs, q, n, i) && LogAfter(cfg, inputs, q)[i].t0 == inputs[n].t0
    decreases |inputs|
  {
    if inputs == [] {
    } else {
      var len := |inputs| - 1;
      HasLastStep(cfg, inputs, len);
      AppendsStampedRunStep(cfg, inputs, len, RunHandler(cfg, inputs[..len]).value, RunHandler(cfg, inputs).value, q);
      if i < |LogAfter(cfg, inputs[..len], q)| {
        UpdatesAreStamped(cfg, inputs[..len], q, i);
        var n: nat :| PushedAt(cfg, inputs[..len], q, n, i) && LogAfter(cfg, inputs[..len], q)[i].t0 == inputs[..len][n].t0;
        PushedAtStep(cfg, inputs, len, q, n, i);
      } else {
        assert inputs[..len + 1] == inputs;
        assert PushedAt(cfg, inputs, q, len, i);
      }
    }
  }
}
