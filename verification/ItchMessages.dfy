/** Message types, their layouts, and messages as the decoder builds them: the type byte and one value
    for each member in the order of the layout. */
module ItchMessages {
  import opened Bits
  import opened Shared
  import opened ItchFields
  import opened BookSpec

  function Ascii(c: char): byte
    requires c as int < 0x80
  {
    c as int
  }

  const MESSAGE_TYPES := "SRHYLVWKJhAFECXDUPQBIO"

  predicate IsValidType(kind: byte) {
    (kind as char) in MESSAGE_TYPES
  }

  /** The types for which the handler has a `handle` overload. */
  predicate IsHandled(kind: byte) {
    (kind as char) in "SRAFECXDU"
  }

  function LayoutOf(kind: byte): Layout {
    match kind as char
    case 'S' => [U16, U16, Be48, Char]
    case 'R' =>
      [U16, U16, Be48, Chars(8), Char, Char, U32, Char, Char, Chars(2), Char, Char, Char, Char, Char, U32, Char]
    case 'A' => [U16, U16, Be48, U64, Char, U32, Chars(8), U32]
    case 'F' => [U16, U16, Be48, U64, Char, U32, Chars(8), U32, Chars(4)]
    case 'E' => [U16, U16, Be48, U64, U32, U64]
    case 'C' => [U16, U16, Be48, U64, U32, U64, Char, U32]
    case 'X' => [U16, U16, Be48, U64, U32]
    case 'D' => [U16, U16, Be48, U64]
    case 'U' => [U16, U16, Be48, U64, U64, U32, U32]
    case _ => []
  }

  datatype Message = Message(kind: byte, values: seq<Value>) {
    ghost predicate WellTyped() {
      IsHandled(kind) && kind < 0x80 && AllFit(LayoutOf(kind), values)
    }
  }

  /** The message as the decoder sees it: only its timestamp may differ. */
  function Seen(m: Message): Message
    requires |LayoutOf(m.kind)| == |m.values|
  {
    Message(m.kind, SeenValues(LayoutOf(m.kind), m.values))
  }

  function NumAt(m: Message, i: nat): nat {
    if i < |m.values| && m.values[i].Num? then m.values[i].n else 0
  }

  function Locate(m: Message): nat {
    NumAt(m, 0)
  }

  /** The cast of the side character. */
  function SideOf(code: nat): Side {
    if code == 0 then NoSide
    else if code == Ascii('B') then Bid
    else if code == Ascii('S') then Ask
    else Unknown
  }

  predicate IsBookMessage(kind: byte) {
    (kind as char) in "AFECXDU"
  }

  /** The book operation a message asks for. */
  function OpOf(m: Message): BookOp
    requires m.WellTyped() && IsBookMessage(m.kind)
  {
    FieldTypes(m);
    match m.kind as char
    case 'A' => Add(NumAt(m, 3), SideOf(NumAt(m, 4)), NumAt(m, 5), NumAt(m, 7))
    case 'F' => Add(NumAt(m, 3), SideOf(NumAt(m, 4)), NumAt(m, 5), NumAt(m, 7))
    case 'E' => Execute(NumAt(m, 3), NumAt(m, 4))
    case 'C' => Execute(NumAt(m, 3), NumAt(m, 4))
    case 'X' => Cancel(NumAt(m, 3), NumAt(m, 4))
    case 'D' => Delete(NumAt(m, 3))
    case _ => Replace(NumAt(m, 3), NumAt(m, 4), NumAt(m, 5), NumAt(m, 6))
  }

  lemma FieldTypes(m: Message)
    requires m.WellTyped()
    ensures forall i | 0 <= i < |m.values| :: Fits(LayoutOf(m.kind)[i], m.values[i])
    ensures Locate(m) < TWO_TO_16
  {
    assert Fits(LayoutOf(m.kind)[0], m.values[0]);
  }

  lemma {:induction false} SeenIsWellTyped(m: Message)
    requires m.WellTyped()
    ensures Seen(m).WellTyped()
  {
    forall i | 0 <= i < |m.values|
      ensures Fits(LayoutOf(m.kind)[i], Seen(m).values[i])
    {
      assert Fits(LayoutOf(m.kind)[i], m.values[i]);
    }
  }

  lemma {:induction false} OnlyTimestampIs48(kind: byte, i: nat)
    requires IsHandled(kind) && i < |LayoutOf(kind)|
    ensures LayoutOf(kind)[i].Be48? <==> i == 2
  {
  }

  /** The faulty timestamp decoding never reaches the book: the locate, the book operation and every
      other member are those of the message as sent. */
  lemma {:induction false} SeenSameOp(m: Message)
    requires m.WellTyped()
    ensures Seen(m).WellTyped() && Locate(Seen(m)) == Locate(m)
    ensures |Seen(m).values| == |m.values|
    ensures forall i | 0 <= i < |m.values| && i != 2 :: Seen(m).values[i] == m.values[i]
    ensures IsBookMessage(m.kind) ==> OpOf(Seen(m)) == OpOf(m)
  {
    SeenIsWellTyped(m);
    forall i | 0 <= i < |m.values| && i != 2
      ensures Seen(m).values[i] == m.values[i]
    {
      OnlyTimestampIs48(m.kind, i);
    }
    FieldTypes(m);
  }
}
