/** The objects put together: bytes go through the parse loop into a handler with its books. */
module Pipeline {
  import opened Shared
  import opened ItchFields
  import opened ItchMessages
  import opened ItchParser
  import opened BookSpec
  import opened HandlerSpec
  import opened Handlers
  import opened EndToEnd

  /** Whatever the bytes, every message that reaches the handler is well typed. */
  lemma {:induction false} ParsedAreTyped(src: seq<byte>)
    ensures forall e | e in Parse(src).events && e.Handled? :: e.msg.WellTyped()
    decreases |src|
  {
    if !HasFrame(src) {
    } else {
      match Dispatch(src[2], src[3..])
      case Stop(_) =>
      case Next(event) =>
        ParsedAreTyped(src[2 + FrameLength(src)..]);
        if event.Handled? {
          LoadedAllFit(LayoutOf(src[2]), src[3..]);
        }
    }
  }

  lemma {:induction false} MessagesFromEvents(events: seq<Event>)
    requires forall e | e in events && e.Handled? :: e.msg.WellTyped()
    ensures forall m | m in Messages(events) :: m.WellTyped()
    decreases |events|
  {
    if events == [] {
    } else {
      MessagesFromEvents(events[1..]);
      assert events[0] in events;
    }
  }

  lemma StampedAreTyped(clock: seq<u64>, msgs: seq<Message>)
    requires |clock| == |msgs| && forall m | m in msgs :: m.WellTyped()
    ensures AllTyped(Stamp(clock, msgs))
  {
    var inputs := Stamp(clock, msgs);
    forall x | x in inputs
      ensures x.msg.WellTyped()
    {
      var i :| 0 <= i < |inputs| && inputs[i] == x;
      assert msgs[i] in msgs;
    }
  }

  /** Parsing a buffer and giving its messages to a handler leaves in the queues what the state machine says
      of the parsed messages, whatever the bytes are and however parsing ends. */
  method RunBytes<Q(==)>(configs: seq<InstrumentConfig<Q>>, src: seq<byte>, clock: seq<u64>)
    returns (r: Outcome<map<Q, seq<StrategyMsg>>>)
    requires |clock| == |Messages(Parse(src).events)|
    ensures AllTyped(Stamp(clock, Messages(Parse(src).events)))
    ensures
      match RunHandler(Configure(configs), Stamp(clock, Messages(Parse(src).events)))
      case Abort(why) => r == Abort(why)
      case Done(h) => r == Done(h.logs)
  {
    var t := ParseLoop(src);
    ParsedAreTyped(src);
    MessagesFromEvents(t.events);
    StampedAreTyped(clock, Messages(t.events));
    r := RunAll(configs, Stamp(clock, Messages(t.events)));
  }
}
