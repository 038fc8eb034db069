/** Composition with the broadcast ring and with the parser: what a strategy thread reconstructs, in any
    interleaving with the producer, from the bytes on the wire. */
module EndToEnd {
  import opened Bits
  import opened Shared
  import opened LevelSpec
  import opened ItchFields
  import opened ItchMessages
  import opened ItchParser
  import opened BookSpec
  import opened BookTheorems
  import opened HandlerSpec
  import opened TopOfBook
  import opened Words
  import SpmcSteps
  import SpmcTheorems

  // ----- Strategy messages as words -----

  function SideWord(side: Side): nat {
    match side
    case NoSide => 0
    case Bid => Ascii('B')
    case Ask => Ascii('S')
    case Unknown => 1
  }

  function SideFromWord(n: nat): Side {
    if n == 0 then NoSide else if n == Ascii('B') then Bid else if n == Ascii('S') then Ask else Unknown
  }

  /** A strategy message as the four 8-byte words of its struct: type, counter, quantity, and price with
      the side behind it. */
  function Encode(msg: StrategyMsg): (words: Words.Value)
    ensures |words| == 4
  {
    match msg
    case BookUpdate(t0, qty, price, side) => [0, t0, qty, price + TWO_TO_32 * SideWord(side)]
    case StopMsg => [1, 0, 0, 0]
  }

  function Decode(words: Words.Value): StrategyMsg {
    if |words| == 4 && words[0] == 0 && words[1] < TWO_TO_64 && words[2] < TWO_TO_64
    then BookUpdate(words[1], words[2], words[3] % TWO_TO_32, SideFromWord(words[3] / TWO_TO_32))
    else StopMsg
  }

  lemma {:induction false} DecodeEncode(msg: StrategyMsg)
    ensures Decode(Encode(msg)) == msg
  {
    if msg.BookUpdate? {
      var w := msg.price + TWO_TO_32 * SideWord(msg.side);
      assert w % TWO_TO_32 == msg.price && w / TWO_TO_32 == SideWord(msg.side);
    }
  }

  /** What a consumer has reconstructed from its pops so far. */
  function Reconstructed(con: SpmcSteps.Consumer): View {
    HearAll(INITIAL_VIEW, Map(Decode, con.popped))
  }

  /** The producer of this ring pushes the messages of this log, in order; the last push may be under way. */
  predicate Feeds(log: seq<StrategyMsg>, s: SpmcSteps.State) {
    s.history <= Map(Encode, log)
  }

  /** A consumer from before the first push shows both bests; a later one shows each side of which it has
      popped at least one update. */
  predicate Shows(con: SpmcSteps.Consumer, top: View) {
    && (con.start == 0 ==> Reconstructed(con) == top)
    && (Mentions(Map(Decode, con.popped), Bid) ==> Reconstructed(con).bid == top.bid)
    && (Mentions(Map(Decode, con.popped), Ask) ==> Reconstructed(con).ask == top.ask)
  }

  lemma {:induction false} PoppedShows(log: seq<StrategyMsg>, ring: SpmcSteps.Config, s: SpmcSteps.State, c: nat)
    requires SpmcSteps.Reachable(ring, s) && c < |s.consumers| && Feeds(log, s)
    ensures s.consumers[c].reader <= |log|
    ensures Shows(s.consumers[c], HearAll(INITIAL_VIEW, log[..s.consumers[c].reader]))
  {
    var con := s.consumers[c];
    SpmcTheorems.PopsAreHistorySegment(ring, s, c);
    assert con.popped == Map(Encode, log)[con.start..con.reader];
    forall i | 0 <= i < |log|
      ensures Decode(Encode(log[i])) == log[i]
    {
      DecodeEncode(log[i]);
    }
    MapBack(Encode, Decode, log, con.start, con.reader);
    var missed, heard := log[..con.start], log[con.start..con.reader];
    assert log[..con.reader] == missed + heard;
    HearInTwo(INITIAL_VIEW, missed, heard);
    MentionedSideIsKnown(INITIAL_VIEW, HearAll(INITIAL_VIEW, missed), heard);
  }

  /** The consumer shows the bests as of push number `reader`, and the present ones when it has popped all. */
  ghost predicate SeesTop<Q>(cfg: Instruments<Q>, inputs: seq<Input>, locate: nat, con: SpmcSteps.Consumer)
    requires AllTyped(inputs) && RunHandler(cfg, inputs).Done?
    requires locate in RunHandler(cfg, inputs).value.queueOf && locate in RunHandler(cfg, inputs).value.books
  {
    var h := RunHandler(cfg, inputs).value;
    && (exists top :: TopAsOfPush(cfg, inputs, locate, con.reader, top) && Shows(con, top))
    && (con.reader == |Log(h.logs, h.queueOf[locate])| ==> Shows(con, TrueView(h.books[locate])))
  }

  /** In every interleaving: a consumer of a ring that carries the updates of one locate holds, after any
      number of pops, the bests that the locate's book had as of the last update it popped. */
  lemma {:induction false} StrategySeesTopOfBook<Q>(
    cfg: Instruments<Q>, inputs: seq<Input>, locate: nat, ring: SpmcSteps.Config, s: SpmcSteps.State, c: nat)
    requires AllTyped(inputs) && RunHandler(cfg, inputs).Done?
    requires locate in RunHandler(cfg, inputs).value.queueOf && Sole(RunHandler(cfg, inputs).value, locate)
    requires SpmcSteps.Reachable(ring, s) && c < |s.consumers|
    requires
      var h := RunHandler(cfg, inputs).value;
      Feeds(Log(h.logs, h.queueOf[locate]), s)
    ensures locate in RunHandler(cfg, inputs).value.books
    ensures SeesTop(cfg, inputs, locate, s.consumers[c])
  {
    var h := RunHandler(cfg, inputs).value;
    var log := Log(h.logs, h.queueOf[locate]);
    var con := s.consumers[c];
    LogsAreTruthful(cfg, inputs, locate);
    PoppedShows(log, ring, s, c);
    PrefixesAreTruthful(cfg, inputs, locate, con.reader);
    if con.reader == |log| {
      assert log[..con.reader] == log;
    }
  }

  // ----- From the wire -----

  function SeenInput(x: Input): Input
    requires |LayoutOf(x.msg.kind)| == |x.msg.values|
  {
    Input(x.t0, Seen(x.msg))
  }

  ghost function SeenInputs(inputs: seq<Input>): (seen: seq<Input>)
    requires AllTyped(inputs)
    ensures |seen| == |inputs|
  {
    seq(|inputs|, i requires 0 <= i < |inputs| => assert inputs[i] in inputs; SeenInput(inputs[i]))
  }

  lemma {:induction false} HandleSeen<Q>(cfg: Instruments<Q>, h: HandlerState<Q>, t0: u64, m: Message)
    requires m.WellTyped()
    ensures Seen(m).WellTyped() && Handle(cfg, h, t0, Seen(m)) == Handle(cfg, h, t0, m)
  {
    SeenSameOp(m);
    assert |m.values| >= 4;
    assert Seen(m).values[3] == m.values[3];
  }

  /** The handler does with the messages as decoded exactly what it would do with the messages as sent:
      it never looks at the timestamps that the decoder garbles. */
  lemma {:induction false} HandlerIgnoresTimestamps<Q>(cfg: Instruments<Q>, inputs: seq<Input>)
    requires AllTyped(inputs)
    ensures AllTyped(SeenInputs(inputs))
    ensures RunHandler(cfg, SeenInputs(inputs)) == RunHandler(cfg, inputs)
    decreases |inputs|
  {
    var seen := SeenInputs(inputs);
    forall x | x in seen
      ensures x.msg.WellTyped()
    {
      var i :| 0 <= i < |seen| && seen[i] == x;
      assert inputs[i] in inputs;
      SeenIsWellTyped(inputs[i].msg);
    }
    if inputs == [] {
    } else {
      var before, last := inputs[..|inputs| - 1], inputs[|inputs| - 1];
      HandlerIgnoresTimestamps(cfg, before);
      assert seen[..|seen| - 1] == SeenInputs(before);
      if RunHandler(cfg, before).Done? {
        HandleSeen(cfg, RunHandler(cfg, before).value, last.t0, last.msg);
      }
    }
  }

  /** The messages of a list of frames that the handler accepts. */
  function Sent(xs: seq<Item>): seq<Message> {
    if xs == [] then [] else (if xs[0].Wire? then [xs[0].msg] else []) + Sent(xs[1..])
  }

  /** Messages paired with the counter values read before each was handled. */
  function Stamp(clock: seq<u64>, msgs: seq<Message>): (inputs: seq<Input>)
    requires |clock| == |msgs|
    ensures |inputs| == |msgs|
  {
    seq(|msgs|, i requires 0 <= i < |msgs| => Input(clock[i], msgs[i]))
  }

  lemma MessagesCons(event: Event, events: seq<Event>)
    ensures Messages([event] + events) == (if event.Handled? then [event.msg] else []) + Messages(events)
  {
    assert ([event] + events)[1..] == events;
  }

  ghost function SeenSent(xs: seq<Item>): seq<Message>
    requires forall x | x in xs :: Sendable(x)
  {
    if xs == [] then []
    else
      assert Sendable(xs[0]);
      (if xs[0].Wire? then [Seen(xs[0].msg)] else []) + SeenSent(xs[1..])
  }

  lemma {:induction false} MessagesAreSeen(xs: seq<Item>)
    requires forall x | x in xs :: Sendable(x)
    ensures Messages(Events(xs)) == SeenSent(xs)
    decreases |xs|
  {
    if xs == [] {
    } else {
      MessagesAreSeen(xs[1..]);
      MessagesCons(EventOf(xs[0]), Events(xs[1..]));
    }
  }

  /** The decoder turns a well-typed message into the second one. */
  ghost predicate IsSeenAs(m: Message, seen: Message) {
    m.WellTyped() && seen == Seen(m)
  }

  lemma {:induction false} SeenPointwise(xs: seq<Item>)
    requires forall x | x in xs :: Sendable(x)
    ensures |SeenSent(xs)| == |Sent(xs)|
    ensures forall i | 0 <= i < |Sent(xs)| :: IsSeenAs(Sent(xs)[i], SeenSent(xs)[i])
    decreases |xs|
  {
    if xs == [] {
    } else {
      SeenPointwise(xs[1..]);
      assert Sendable(xs[0]);
      var sent := if xs[0].Wire? then [xs[0].msg] else [];
      var seen := if xs[0].Wire? then [Seen(xs[0].msg)] else [];
      Pairwise(IsSeenAs, sent, seen, Sent(xs[1..]), SeenSent(xs[1..]));
    }
  }

  /** The handler gets one message for each message sent, in order, each as the decoder sees it. */
  lemma {:induction false} MessagesOfEvents(xs: seq<Item>)
    requires forall x | x in xs :: Sendable(x)
    ensures |Messages(Events(xs))| == |Sent(xs)|
    ensures forall i | 0 <= i < |Sent(xs)| :: IsSeenAs(Sent(xs)[i], Messages(Events(xs))[i])
  {
    MessagesAreSeen(xs);
    SeenPointwise(xs);
  }

  /** The whole pipeline. Take any frames, with any truncated tail behind them, parse the bytes and hand
      each decoded message to the handler: the process state is the one the sent messages call for, and
      a strategy thread on a queue that serves one locate holds, in any interleaving, the best bid and ask of
      the book those messages describe, as of the last update it has popped. */
  lemma {:induction false} WireToStrategy<Q>(
    cfg: Instruments<Q>, xs: seq<Item>, tail: seq<byte>, clock: seq<u64>, locate: nat,
    ring: SpmcSteps.Config, s: SpmcSteps.State, c: nat)
    requires forall x | x in xs :: Sendable(x)
    requires !HasFrame(tail)
    requires |clock| == |Sent(xs)|
    requires SpmcSteps.Reachable(ring, s) && c < |s.consumers|
    ensures Parse(Frames(xs) + tail).end == Finished(tail)
    ensures |Messages(Parse(Frames(xs) + tail).events)| == |clock|
    ensures AllTyped(Stamp(clock, Sent(xs))) && AllTyped(Stamp(clock, Messages(Parse(Frames(xs) + tail).events)))
    ensures
      var run := RunHandler(cfg, Stamp(clock, Messages(Parse(Frames(xs) + tail).events)));
      && run == RunHandler(cfg, Stamp(clock, Sent(xs)))
      && (run.Done? ==>
            var h := run.value;
            locate in h.queueOf && Sole(h, locate) && Feeds(Log(h.logs, h.queueOf[locate]), s) ==>
              && locate in h.books
              && BookOf(h, locate) == LocalRun(cfg, Only(Stamp(clock, Sent(xs)), locate))
              && SeesTop(cfg, Stamp(clock, Sent(xs)), locate, s.consumers[c]))
  {
    TruncatedTailIsLeft(xs, tail);
    MessagesOfEvents(xs);
    var inputs := Stamp(clock, Sent(xs));
    forall x | x in inputs
      ensures x.msg.WellTyped()
    {
      var i :| 0 <= i < |inputs| && inputs[i] == x;
    }
    var decoded := Stamp(clock, Messages(Parse(Frames(xs) + tail).events));
    HandlerIgnoresTimestamps(cfg, inputs);
    assert decoded == SeenInputs(inputs);
    if RunHandler(cfg, inputs).Done? {
      var h := RunHandler(cfg, inputs).value;
      LocatesAreIsolated(cfg, inputs, locate);
      if locate in h.queueOf && Sole(h, locate) && Feeds(Log(h.logs, h.queueOf[locate]), s) {
        StrategySeesTopOfBook(cfg, inputs, locate, ring, s, c);
      }
    }
  }
}
