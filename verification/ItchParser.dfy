/** The length-prefixed parse loop and its dispatch table. */
module ItchParser {
  import opened Bits
  import opened ItchFields
  import opened ItchMessages

  /** One dispatched frame: a decoded message handed to the handler, or a valid type it ignores. */
  datatype Event = Handled(msg: Message) | Ignored(kind: byte)

  /** How parsing ends: the loop runs out of whole frames and leaves `rest`; an unknown type is thrown,
      with the character the exception reports; the type byte, a signed character, is used as a
      negative table index; or a decoder reads past the end of the buffer. */
  datatype End = Finished(rest: seq<byte>) | UnknownType(reported: byte) | NegativeIndex(kind: byte) | OverRead

  datatype Trace = Trace(events: seq<Event>, end: End)

  datatype Dispatched = Next(event: Event) | Stop(end: End)

  /** The table entry for a type byte, applied to what follows that byte. The decoder reads its whole
      layout, whatever the frame length says, and an unknown type is reported by the byte that
      follows it. */
  function Dispatch(kind: byte, src: seq<byte>): Dispatched {
    if kind >= 0x80 then Stop(NegativeIndex(kind))
    else if IsHandled(kind) then
      if |src| < LayoutSize(LayoutOf(kind)) then Stop(OverRead)
      else Next(Handled(Message(kind, LoadFields(LayoutOf(kind), src))))
    else if IsValidType(kind) then Next(Ignored(kind))
    else if src == [] then Stop(OverRead)
    else Stop(UnknownType(src[0]))
  }

  function Prepend(events: seq<Event>, t: Trace): Trace {
    Trace(events + t.events, t.end)
  }

  /** The number of bytes the length field announces. */
  function FrameLength(src: seq<byte>): nat
    requires |src| >= 2
  {
    Load(src, 0, 2)
  }

  predicate HasFrame(src: seq<byte>) {
    |src| >= 3 && 2 + FrameLength(src) <= |src|
  }

  /** What parsing a buffer does, frame by frame. */
  function Parse(src: seq<byte>): Trace
    decreases |src|
  {
    if !HasFrame(src) then Trace([], Finished(src))
    else
      match Dispatch(src[2], src[3..])
      case Stop(end) => Trace([], end)
      case Next(event) => Prepend([event], Parse(src[2 + FrameLength(src)..]))
  }

  lemma PrependTwice(a: seq<Event>, b: seq<Event>, t: Trace)
    ensures Prepend(a, Prepend(b, t)) == Prepend(a + b, t)
  {
  }

  /** One round of the loop: what is left begins with a frame. */
  lemma {:induction false} OneRound(left: seq<byte>, size: nat, events: seq<Event>, all: Trace)
    requires HasFrame(left) && FrameLength(left) == size && all == Prepend(events, Parse(left))
    ensures
      match Dispatch(left[2], left[3..])
      case Stop(end) => all == Trace(events, end)
      case Next(event) => all == Prepend(events + [event], Parse(left[2 + size..]))
  {
    match Dispatch(left[2], left[3..])
    case Stop(_) =>
    case Next(event) => PrependTwice(events, [event], Parse(left[2 + size..]));
  }

  /** The parse loop. Each round consumes the two length bytes and as many bytes as they announce, so
      the loop terminates even on empty frames. */
  method ParseLoop(src: seq<byte>) returns (t: Trace)
    ensures t == Parse(src)
  {
    var pos := 0;
    var events := [];
    while |src| - pos >= 3
      invariant 0 <= pos <= |src|
      invariant Parse(src) == Prepend(events, Parse(src[pos..]))
      decreases |src| - pos
    {
      var size := Load(src, pos, 2);
      LoadSuffix(src, pos, 2);
      assert FrameLength(src[pos..]) == size;
      if |src| - pos < 2 + size {
        break;
      }
      ghost var here := src[pos..];
      OneRound(here, size, events, Parse(src));
      pos := pos + 2;
      var kind := src[pos];
      pos := pos + 1;
      assert here[2] == kind && here[3..] == src[pos..];
      match Dispatch(kind, src[pos..]) {
        case Stop(end) =>
          return Trace(events, end);
        case Next(event) =>
          events := events + [event];
      }
      pos := pos + size - 1;
      assert here[2 + size..] == src[pos..];
    }
    t := Trace(events, Finished(src[pos..]));
  }

  lemma LoadSuffix(src: seq<byte>, p: nat, n: nat)
    requires p + n <= |src|
    ensures Load(src[p..], 0, n) == Load(src, p, n)
  {
    LoadIsBigEndian(src[p..], 0, n);
    LoadIsBigEndian(src, p, n);
    assert src[p..][0..n] == src[p..p + n];
  }

  // ----- Parsing in pieces -----

  lemma DispatchPrefix(kind: byte, src: seq<byte>, more: seq<byte>)
    requires Dispatch(kind, src).Next?
    ensures Dispatch(kind, src + more) == Dispatch(kind, src)
  {
    if kind < 0x80 && IsHandled(kind) {
      LoadFieldsPrefix(LayoutOf(kind), src, src + more);
    }
  }

  lemma FrameLengthPrefix(src: seq<byte>, more: seq<byte>)
    requires |src| >= 2
    ensures FrameLength(src + more) == FrameLength(src)
  {
    LoadIsBigEndian(src, 0, 2);
    LoadIsBigEndian(src + more, 0, 2);
    SliceOfPrefix(src, src + more, 0, 2);
  }

  /** Parsing resumes where it left off: what follows a buffer that parsed to its end is parsed
      together with the bytes the loop left over. */
  lemma {:induction false} ParseResumes(a: seq<byte>, b: seq<byte>)
    requires Parse(a).end.Finished?
    ensures Parse(a + b) == Prepend(Parse(a).events, Parse(Parse(a).end.rest + b))
    decreases |a|
  {
    if !HasFrame(a) {
      assert Prepend([], Parse(a + b)) == Parse(a + b);
    } else {
      var n := 2 + FrameLength(a);
      FrameLengthPrefix(a, b);
      assert (a + b)[3..] == a[3..] + b && (a + b)[n..] == a[n..] + b && (a + b)[2] == a[2];
      DispatchPrefix(a[2], a[3..], b);
      var event := Dispatch(a[2], a[3..]).event;
      var t := Parse(a[n..]);
      assert Parse(a) == Prepend([event], t);
      ParseResumes(a[n..], b);
      assert Parse(a + b) == Prepend([event], Parse(a[n..] + b));
      PrependTwice([event], t.events, Parse(t.end.rest + b));
    }
  }

  /** Walking the length fields alone, the buffer ends where a frame ends. */
  predicate Boundary(a: seq<byte>)
    decreases |a|
  {
    a == [] || (|a| >= 2 && 2 + FrameLength(a) <= |a| && Boundary(a[2 + FrameLength(a)..]))
  }

  /** The last of these frames announces 0 bytes. */
  predicate EndsEmpty(a: seq<byte>)
    decreases |a|
  {
    && |a| >= 2 && 2 + FrameLength(a) <= |a|
    && var rest := a[2 + FrameLength(a)..];
       if rest == [] then FrameLength(a) == 0 else EndsEmpty(rest)
  }

  /** A type byte with `n` bytes behind it is dispatched without an error. */
  predicate Dispatchable(kind: byte, n: nat) {
    kind < 0x80 && IsValidType(kind) && (IsHandled(kind) ==> LayoutSize(LayoutOf(kind)) <= n)
  }

  /** Every frame is dispatched without an error, again by the length fields and type bytes alone. */
  predicate Accepts(a: seq<byte>)
    decreases |a|
  {
    HasFrame(a) ==> Dispatchable(a[2], |a| - 3) && Accepts(a[2 + FrameLength(a)..])
  }

  lemma {:induction false} DispatchesExactlyWhen(kind: byte, src: seq<byte>)
    ensures Dispatch(kind, src).Next? <==> Dispatchable(kind, |src|)
  {
    assert IsHandled(kind) ==> IsValidType(kind);
  }

  /** Parsing returns normally if and only if every frame is acceptable, and has then used up the buffer
      if and only if that ends on a frame boundary and not with an empty frame. */
  lemma {:induction false} ConsumedExactlyWhen(a: seq<byte>)
    ensures Parse(a).end.Finished? <==> Accepts(a)
    ensures Parse(a).end == Finished([]) <==> Accepts(a) && Boundary(a) && !EndsEmpty(a)
    decreases |a|
  {
    if !HasFrame(a) {
    } else {
      DispatchesExactlyWhen(a[2], a[3..]);
      ConsumedExactlyWhen(a[2 + FrameLength(a)..]);
    }
  }

  /** Two buffers parsed one after the other give what their concatenation gives, whatever the second one
      is, if and only if the first one is acceptable, ends on a frame boundary, and does not end with an
      empty frame. */
  lemma {:induction false} PiecewiseExactlyWhen(a: seq<byte>)
    ensures (forall b :: Parse(a + b) == Prepend(Parse(a).events, Parse(b)))
        <==> Accepts(a) && Boundary(a) && !EndsEmpty(a)
  {
    ConsumedExactlyWhen(a);
    if Parse(a).end == Finished([]) {
      forall b
        ensures Parse(a + b) == Prepend(Parse(a).events, Parse(b))
      {
        ParseResumes(a, b);
        assert [] + b == b;
      }
    } else {
      assert a + [] == a;
      assert Parse(a + []) != Prepend(Parse(a).events, Parse([]));
    }
  }

  /** What an empty frame does: the byte behind it, which belongs to the next frame, is dispatched as
      its type, and parsing then goes on with that same byte. */
  lemma {:induction false} EmptyFrameTakesNextByte(b: seq<byte>)
    requires b != []
    ensures Parse([0, 0] + b)
         == match Dispatch(b[0], b[1..])
            case Stop(end) => Trace([], end)
            case Next(event) => Prepend([event], Parse(b))
  {
    var src: seq<byte> := [0, 0] + b;
    LoadIsBigEndian(src, 0, 2);
    assert src[0..2] == [0, 0];
    TwoDigits(0, 0);
    assert src[2..] == b && src[2] == b[0] && src[3..] == b[1..];
  }

  /** An operational halt message with nothing but its type byte. */
  lemma {:induction false} HaltParses(b: seq<byte>)
    requires b == [0, 1, 104]
    ensures Parse(b) == Trace([Ignored(104)], Finished([]))
  {
    LoadIsBigEndian(b, 0, 2);
    assert b[0..2] == [0, 1];
    TwoDigits(0, 1);
    assert IsValidType(104) && !IsHandled(104);
    assert b[3..] == [];
  }

  /** So two buffers of whole frames can parse differently apart and together: behind an empty frame,
      an operational halt message that parses on its own is an unknown type. */
  lemma {:induction false} EmptyFrameBreaksNext(b: seq<byte>)
    requires b == [0, 1, 104]
    ensures Parse(b) == Trace([Ignored(104)], Finished([]))
    ensures Parse([0, 0] + b) == Trace([], UnknownType(1))
  {
    HaltParses(b);
    EmptyFrameTakesNextByte(b);
    assert !IsHandled(0) && !IsValidType(0);
  }

  lemma TwoDigits(x: byte, y: byte)
    ensures BigEndian([x, y]) == 0x100 * x + y
  {
    BigEndianSnoc([], x);
    BigEndianSnoc([x], y);
    assert [] + [x] == [x] && [x] + [y] == [x, y];
  }

  // ----- Framing -----

  /** What a sender puts on the wire: a message the handler accepts, or a frame of another valid type. */
  datatype Item = Wire(msg: Message) | Other(kind: byte, payload: seq<byte>)

  ghost predicate Sendable(x: Item) {
    match x
    case Wire(m) => m.WellTyped()
    case Other(kind, payload) => kind < 0x80 && IsValidType(kind) && !IsHandled(kind) && |payload| < 0xFFFF
  }

  ghost function Payload(x: Item): seq<byte>
    requires Sendable(x)
  {
    match x
    case Wire(m) => EncodeFields(LayoutOf(m.kind), m.values, |m.values|)
    case Other(_, payload) => payload
  }

  function KindOf(x: Item): byte {
    match x
    case Wire(m) => m.kind
    case Other(kind, _) => kind
  }

  ghost function Frame(x: Item): seq<byte>
    requires Sendable(x)
  {
    ToBigEndian(1 + |Payload(x)|, 2) + [KindOf(x)] + Payload(x)
  }

  ghost function Frames(xs: seq<Item>): seq<byte>
    requires forall x | x in xs :: Sendable(x)
  {
    if xs == [] then [] else Frame(xs[0]) + Frames(xs[1..])
  }

  ghost function EventOf(x: Item): Event
    requires Sendable(x)
  {
    match x
    case Wire(m) => Handled(Seen(m))
    case Other(kind, _) => Ignored(kind)
  }

  ghost function Events(xs: seq<Item>): seq<Event>
    requires forall x | x in xs :: Sendable(x)
  {
    if xs == [] then [] else [EventOf(xs[0])] + Events(xs[1..])
  }

  lemma {:induction false} LayoutsAreShort(kind: byte)
    ensures LayoutSize(LayoutOf(kind)) < 0xFFFF
  {
    var l := LayoutOf(kind);
    SizeBound(l, |l|);
  }

  lemma {:induction false} SizeBound(layout: Layout, i: nat)
    requires i <= |layout| && forall f | f in layout :: Size(f) <= 8
    ensures OffsetAt(layout, i) <= 8 * i
    decreases i
  {
    if i == 0 {
    } else {
      SizeBound(layout, i - 1);
    }
  }

  lemma {:induction false} RawFrameShape(len: seq<byte>, kind: byte, payload: seq<byte>, tail: seq<byte>)
    requires |len| == 2 && BigEndian(len) == 1 + |payload|
    ensures
      var src := len + [kind] + payload + tail;
      && HasFrame(src) && FrameLength(src) == 1 + |payload|
      && src[2] == kind && src[3..] == payload + tail && src[2 + FrameLength(src)..] == tail
  {
    var src := len + [kind] + payload + tail;
    LoadIsBigEndian(src, 0, 2);
    assert src[0..2] == len;
    assert src[3..] == payload + tail;
    assert src[3 + |payload|..] == tail;
  }

  lemma {:induction false} LengthField(x: Item)
    requires Sendable(x)
    ensures BigEndian(ToBigEndian(1 + |Payload(x)|, 2)) == 1 + |Payload(x)|
  {
    LayoutsAreShort(KindOf(x));
    Pow2Values();
    BigEndianRoundTrip(1 + |Payload(x)|, 2);
  }

  lemma {:induction false} FrameDispatches(x: Item, tail: seq<byte>)
    requires Sendable(x)
    ensures Dispatch(KindOf(x), Payload(x) + tail) == Next(EventOf(x))
  {
    if x.Wire? {
      FieldsRoundTrip(LayoutOf(x.msg.kind), x.msg.values, Payload(x) + tail);
    }
  }

  /** One frame with anything behind it is dispatched once and consumed exactly. */
  lemma {:induction false} FrameParses(x: Item, tail: seq<byte>)
    requires Sendable(x)
    ensures Parse(Frame(x) + tail) == Prepend([EventOf(x)], Parse(tail))
  {
    LengthField(x);
    RawFrameShape(ToBigEndian(1 + |Payload(x)|, 2), KindOf(x), Payload(x), tail);
    FrameDispatches(x, tail);
  }

  /** The wire round trip: for any sequence of frames and anything behind them, the handler is called
      exactly once for each handled message, in order, with the message as decoded, and parsing
      then goes on with the rest. */
  lemma {:induction false} FramesParse(xs: seq<Item>, tail: seq<byte>)
    requires forall x | x in xs :: Sendable(x)
    ensures Parse(Frames(xs) + tail) == Prepend(Events(xs), Parse(tail))
    decreases |xs|
  {
    if xs == [] {
      assert Frames(xs) + tail == tail;
      assert Prepend([], Parse(tail)) == Parse(tail);
    } else {
      assert Frames(xs) + tail == Frame(xs[0]) + (Frames(xs[1..]) + tail);
      FrameParses(xs[0], Frames(xs[1..]) + tail);
      FramesParse(xs[1..], tail);
      PrependTwice([EventOf(xs[0])], Events(xs[1..]), Parse(tail));
    }
  }

  /** A truncated last frame is left undispatched and unconsumed. */
  lemma {:induction false} TruncatedTailIsLeft(xs: seq<Item>, tail: seq<byte>)
    requires forall x | x in xs :: Sendable(x)
    requires !HasFrame(tail)
    ensures Parse(Frames(xs) + tail) == Trace(Events(xs), Finished(tail))
  {
    FramesParse(xs, tail);
  }

  /** The messages among the events. */
  function Messages(events: seq<Event>): seq<Message> {
    if events == [] then []
    else (if events[0].Handled? then [events[0].msg] else []) + Messages(events[1..])
  }
}
