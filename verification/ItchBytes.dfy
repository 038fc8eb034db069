/** What the nine handled messages are on the wire, byte by byte: sizes, members, and what each asks for.
    Positions are counted from the byte after the type. */
module ItchBytes {
  import opened Bits
  import opened Shared
  import opened ItchFields
  import opened ItchMessages
  import opened ItchParser
  import opened BookSpec
  import opened HandlerSpec

  /** The first byte is the most significant one. */
  lemma {:induction false} MostSignificantFirst(x: byte, rest: seq<byte>)
    ensures BigEndian([x] + rest) == x * Pow2(8 * |rest|) + BigEndian(rest)
    decreases |rest|
  {
    if rest == [] {
      BigEndianSnoc([], x);
      assert [] + [x] == [x] + rest;
    } else {
      var front, last := rest[..|rest| - 1], rest[|rest| - 1];
      MostSignificantFirst(x, front);
      BigEndianSnoc([x] + front, last);
      assert [x] + front + [last] == [x] + rest;
      BytePower(|front|);
      MulAssoc(x, Pow2(8 * |front|), 0x100);
    }
  }

  lemma BytePower(k: nat)
    ensures Pow2(8 * (k + 1)) == 0x100 * Pow2(8 * k)
  {
    Pow2Add(8, 8 * k);
    Pow2Values();
  }

  /** The offsets of all fields, and the size of the layout behind them. */
  function Offsets(l: Layout): (offs: seq<nat>)
    ensures |offs| == |l| + 1
  {
    if l == [] then [0]
    else
      var front := Offsets(l[..|l| - 1]);
      front + [front[|l| - 1] + Size(l[|l| - 1])]
  }

  lemma {:induction false} OffsetsAre(l: Layout, i: nat)
    requires i <= |l|
    ensures Offsets(l)[i] == OffsetAt(l, i)
    decreases |l|
  {
    if l == [] {
    } else {
      var front := l[..|l| - 1];
      OffsetsAre(front, if i == |l| then i - 1 else i);
      SameOffset(front, l, if i == |l| then i - 1 else i);
    }
  }

  lemma {:induction false} SameOffset(front: Layout, l: Layout, i: nat)
    requires front <= l && i <= |front|
    ensures OffsetAt(front, i) == OffsetAt(l, i)
    decreases i
  {
    if i == 0 {
    } else {
      SameOffset(front, l, i - 1);
    }
  }

  lemma {:induction false} NextOffset(l: Layout, q: nat, known: seq<nat>)
    requires q < |l| && Offsets(l[..q]) == known
    ensures Offsets(l[..q + 1]) == known + [known[q] + Size(l[q])]
  {
    assert l[..q + 1][..q] == l[..q];
  }

  lemma OneDigit(x: byte)
    ensures BigEndian([x]) == x
  {
    BigEndianSnoc([], x);
    assert [] + [x] == [x];
  }

  lemma {:induction false} LoadedAt(l: Layout, src: seq<byte>, i: nat, p: nat, f: Field)
    requires LayoutSize(l) <= |src| && i < |l| && Offsets(l)[i] == p && l[i] == f
    ensures p + Size(f) <= |src|
    ensures LoadFields(l, src)[i] == LoadField(f, src, p)
  {
    OffsetsAre(l, i);
    OffsetMonotone(l, i + 1, |l|);
  }

  lemma {:induction false} NumberAt(l: Layout, src: seq<byte>, i: nat, p: nat, f: Field)
    requires LayoutSize(l) <= |src| && i < |l| && Offsets(l)[i] == p && l[i] == f && (f.U16? || f.U32? || f.U64?)
    ensures p + Size(f) <= |src|
    ensures LoadFields(l, src)[i] == Num(BigEndian(src[p..p + Size(f)]))
  {
    LoadedAt(l, src, i, p, f);
    LoadIsBigEndian(src, p, Size(f));
  }

  lemma {:induction false} CharAt(l: Layout, src: seq<byte>, i: nat, p: nat)
    requires LayoutSize(l) <= |src| && i < |l| && Offsets(l)[i] == p && l[i] == Char
    ensures p < |src|
    ensures LoadFields(l, src)[i] == Num(src[p])
  {
    LoadedAt(l, src, i, p, Char);
    LoadIsBigEndian(src, p, 1);
    OneDigit(src[p]);
    assert src[p..p + 1] == [src[p]];
  }

  /** A 48-bit number as it is decoded. */
  lemma {:induction false} StampAt(l: Layout, src: seq<byte>, i: nat, p: nat)
    requires LayoutSize(l) <= |src| && i < |l| && Offsets(l)[i] == p && l[i] == Be48
    ensures p + 6 <= |src|
    ensures LoadFields(l, src)[i] == Num(0x1_0000 * BigEndian(src[p..p + 4]) + BigEndian(src[p..p + 2]))
  {
    LoadedAt(l, src, i, p, Be48);
    Load48Value(src, p);
  }

  lemma {:induction false} SystemEventLayout(l: Layout)
    requires l == LayoutOf(83)
    ensures l == [U16, U16, Be48, Char]
    ensures Offsets(l) == [0, 2, 4, 10, 11] && LayoutSize(l) == 11
  {
    assert l[..0] == [] && l[..4] == l;
    NextOffset(l, 0, [0]);
    NextOffset(l, 1, [0, 2]);
    NextOffset(l, 2, [0, 2, 4]);
    NextOffset(l, 3, [0, 2, 4, 10]);
    OffsetsAre(l, 4);
  }

  lemma {:induction false} SystemEventBytes(l: Layout, src: seq<byte>)
    requires l == LayoutOf(83) && 11 <= |src|
    ensures LayoutSize(l) == 11
    ensures
      var v := LoadFields(l, src);
      |v| == 4
      && v[0] == Num(BigEndian(src[0..2]))
      && v[3] == Num(src[10])
  {
    SystemEventLayout(l);
    NumberAt(l, src, 0, 0, U16);
    CharAt(l, src, 3, 10);
  }

  lemma {:induction false} StockDirectoryFront(l: Layout)
    requires l == LayoutOf(82)
    ensures Offsets(l[..9]) == [0, 2, 4, 10, 18, 19, 20, 24, 25, 26]
  {
    assert l[..0] == [];
    NextOffset(l, 0, [0]);
    NextOffset(l, 1, [0, 2]);
    NextOffset(l, 2, [0, 2, 4]);
    NextOffset(l, 3, [0, 2, 4, 10]);
    NextOffset(l, 4, [0, 2, 4, 10, 18]);
    NextOffset(l, 5, [0, 2, 4, 10, 18, 19]);
    NextOffset(l, 6, [0, 2, 4, 10, 18, 19, 20]);
    NextOffset(l, 7, [0, 2, 4, 10, 18, 19, 20, 24]);
    NextOffset(l, 8, [0, 2, 4, 10, 18, 19, 20, 24, 25]);
  }

  lemma {:induction false} StockDirectoryLayout(l: Layout)
    requires l == LayoutOf(82)
    ensures l == [U16, U16, Be48, Chars(8), Char, Char, U32, Char, Char, Chars(2), Char, Char, Char, Char, Char, U32, Char]
    ensures Offsets(l) == [0, 2, 4, 10, 18, 19, 20, 24, 25, 26, 28, 29, 30, 31, 32, 33, 37, 38] && LayoutSize(l) == 38
  {
    assert l[..0] == [] && l[..17] == l;
    StockDirectoryFront(l);
    NextOffset(l, 9, [0, 2, 4, 10, 18, 19, 20, 24, 25, 26]);
    NextOffset(l, 10, [0, 2, 4, 10, 18, 19, 20, 24, 25, 26, 28]);
    NextOffset(l, 11, [0, 2, 4, 10, 18, 19, 20, 24, 25, 26, 28, 29]);
    NextOffset(l, 12, [0, 2, 4, 10, 18, 19, 20, 24, 25, 26, 28, 29, 30]);
    NextOffset(l, 13, [0, 2, 4, 10, 18, 19, 20, 24, 25, 26, 28, 29, 30, 31]);
    NextOffset(l, 14, [0, 2, 4, 10, 18, 19, 20, 24, 25, 26, 28, 29, 30, 31, 32]);
    NextOffset(l, 15, [0, 2, 4, 10, 18, 19, 20, 24, 25, 26, 28, 29, 30, 31, 32, 33]);
    NextOffset(l, 16, [0, 2, 4, 10, 18, 19, 20, 24, 25, 26, 28, 29, 30, 31, 32, 33, 37]);
    OffsetsAre(l, 17);
  }

  lemma {:induction false} StockDirectoryBytes(l: Layout, src: seq<byte>)
    requires l == LayoutOf(82) && 38 <= |src|
    ensures LayoutSize(l) == 38
    ensures
      var v := LoadFields(l, src);
      |v| == 17
      && v[0] == Num(BigEndian(src[0..2]))
      && v[3] == Text(src[10..18])
  {
    StockDirectoryLayout(l);
    NumberAt(l, src, 0, 0, U16);
    LoadedAt(l, src, 3, 10, Chars(8));
  }

  lemma {:induction false} AddOrderLayout(l: Layout)
    requires l == LayoutOf(65)
    ensures l == [U16, U16, Be48, U64, Char, U32, Chars(8), U32]
    ensures Offsets(l) == [0, 2, 4, 10, 18, 19, 23, 31, 35] && LayoutSize(l) == 35
  {
    assert l[..0] == [] && l[..8] == l;
    NextOffset(l, 0, [0]);
    NextOffset(l, 1, [0, 2]);
    NextOffset(l, 2, [0, 2, 4]);
    NextOffset(l, 3, [0, 2, 4, 10]);
    NextOffset(l, 4, [0, 2, 4, 10, 18]);
    NextOffset(l, 5, [0, 2, 4, 10, 18, 19]);
    NextOffset(l, 6, [0, 2, 4, 10, 18, 19, 23]);
    NextOffset(l, 7, [0, 2, 4, 10, 18, 19, 23, 31]);
    OffsetsAre(l, 8);
  }

  lemma {:induction false} AddOrderBytes(l: Layout, src: seq<byte>)
    requires l == LayoutOf(65) && 35 <= |src|
    ensures LayoutSize(l) == 35
    ensures
      var v := LoadFields(l, src);
      |v| == 8
      && v[0] == Num(BigEndian(src[0..2]))
      && v[3] == Num(BigEndian(src[10..18]))
      && v[4] == Num(src[18])
      && v[5] == Num(BigEndian(src[19..23]))
      && v[7] == Num(BigEndian(src[31..35]))
  {
    AddOrderLayout(l);
    NumberAt(l, src, 0, 0, U16);
    NumberAt(l, src, 3, 10, U64);
    CharAt(l, src, 4, 18);
    NumberAt(l, src, 5, 19, U32);
    NumberAt(l, src, 7, 31, U32);
  }

  lemma {:induction false} AddOrderMpidLayout(l: Layout)
    requires l == LayoutOf(70)
    ensures l == [U16, U16, Be48, U64, Char, U32, Chars(8), U32, Chars(4)]
    ensures Offsets(l) == [0, 2, 4, 10, 18, 19, 23, 31, 35, 39] && LayoutSize(l) == 39
  {
    assert l[..0] == [] && l[..9] == l;
    NextOffset(l, 0, [0]);
    NextOffset(l, 1, [0, 2]);
    NextOffset(l, 2, [0, 2, 4]);
    NextOffset(l, 3, [0, 2, 4, 10]);
    NextOffset(l, 4, [0, 2, 4, 10, 18]);
    NextOffset(l, 5, [0, 2, 4, 10, 18, 19]);
    NextOffset(l, 6, [0, 2, 4, 10, 18, 19, 23]);
    NextOffset(l, 7, [0, 2, 4, 10, 18, 19, 23, 31]);
    NextOffset(l, 8, [0, 2, 4, 10, 18, 19, 23, 31, 35]);
    OffsetsAre(l, 9);
  }

  lemma {:induction false} AddOrderMpidBytes(l: Layout, src: seq<byte>)
    requires l == LayoutOf(70) && 39 <= |src|
    ensures LayoutSize(l) == 39
    ensures
      var v := LoadFields(l, src);
      |v| == 9
      && v[0] == Num(BigEndian(src[0..2]))
      && v[3] == Num(BigEndian(src[10..18]))
      && v[4] == Num(src[18])
      && v[5] == Num(BigEndian(src[19..23]))
      && v[7] == Num(BigEndian(src[31..35]))
  {
    AddOrderMpidLayout(l);
    NumberAt(l, src, 0, 0, U16);
    NumberAt(l, src, 3, 10, U64);
    CharAt(l, src, 4, 18);
    NumberAt(l, src, 5, 19, U32);
    NumberAt(l, src, 7, 31, U32);
  }

  lemma {:induction false} OrderExecutedLayout(l: Layout)
    requires l == LayoutOf(69)
    ensures l == [U16, U16, Be48, U64, U32, U64]
    ensures Offsets(l) == [0, 2, 4, 10, 18, 22, 30] && LayoutSize(l) == 30
  {
    assert l[..0] == [] && l[..6] == l;
    NextOffset(l, 0, [0]);
    NextOffset(l, 1, [0, 2]);
    NextOffset(l, 2, [0, 2, 4]);
    NextOffset(l, 3, [0, 2, 4, 10]);
    NextOffset(l, 4, [0, 2, 4, 10, 18]);
    NextOffset(l, 5, [0, 2, 4, 10, 18, 22]);
    OffsetsAre(l, 6);
  }

  lemma {:induction false} OrderExecutedBytes(l: Layout, src: seq<byte>)
    requires l == LayoutOf(69) && 30 <= |src|
    ensures LayoutSize(l) == 30
    ensures
      var v := LoadFields(l, src);
      |v| == 6
      && v[0] == Num(BigEndian(src[0..2]))
      && v[3] == Num(BigEndian(src[10..18]))
      && v[4] == Num(BigEndian(src[18..22]))
  {
    OrderExecutedLayout(l);
    NumberAt(l, src, 0, 0, U16);
    NumberAt(l, src, 3, 10, U64);
    NumberAt(l, src, 4, 18, U32);
  }

  lemma {:induction false} OrderExecutedPriceLayout(l: Layout)
    requires l == LayoutOf(67)
    ensures l == [U16, U16, Be48, U64, U32, U64, Char, U32]
    ensures Offsets(l) == [0, 2, 4, 10, 18, 22, 30, 31, 35] && LayoutSize(l) == 35
  {
    assert l[..0] == [] && l[..8] == l;
    NextOffset(l, 0, [0]);
    NextOffset(l, 1, [0, 2]);
    NextOffset(l, 2, [0, 2, 4]);
    NextOffset(l, 3, [0, 2, 4, 10]);
    NextOffset(l, 4, [0, 2, 4, 10, 18]);
    NextOffset(l, 5, [0, 2, 4, 10, 18, 22]);
    NextOffset(l, 6, [0, 2, 4, 10, 18, 22, 30]);
    NextOffset(l, 7, [0, 2, 4, 10, 18, 22, 30, 31]);
    OffsetsAre(l, 8);
  }

  lemma {:induction false} OrderExecutedPriceBytes(l: Layout, src: seq<byte>)
    requires l == LayoutOf(67) && 35 <= |src|
    ensures LayoutSize(l) == 35
    ensures
      var v := LoadFields(l, src);
      |v| == 8
      && v[0] == Num(BigEndian(src[0..2]))
      && v[3] == Num(BigEndian(src[10..18]))
      && v[4] == Num(BigEndian(src[18..22]))
  {
    OrderExecutedPriceLayout(l);
    NumberAt(l, src, 0, 0, U16);
    NumberAt(l, src, 3, 10, U64);
    NumberAt(l, src, 4, 18, U32);
  }

  lemma {:induction false} OrderCancelLayout(l: Layout)
    requires l == LayoutOf(88)
    ensures l == [U16, U16, Be48, U64, U32]
    ensures Offsets(l) == [0, 2, 4, 10, 18, 22] && LayoutSize(l) == 22
  {
    assert l[..0] == [] && l[..5] == l;
    NextOffset(l, 0, [0]);
    NextOffset(l, 1, [0, 2]);
    NextOffset(l, 2, [0, 2, 4]);
    NextOffset(l, 3, [0, 2, 4, 10]);
    NextOffset(l, 4, [0, 2, 4, 10, 18]);
    OffsetsAre(l, 5);
  }

  lemma {:induction false} OrderCancelBytes(l: Layout, src: seq<byte>)
    requires l == LayoutOf(88) && 22 <= |src|
    ensures LayoutSize(l) == 22
    ensures
      var v := LoadFields(l, src);
      |v| == 5
      && v[0] == Num(BigEndian(src[0..2]))
      && v[3] == Num(BigEndian(src[10..18]))
      && v[4] == Num(BigEndian(src[18..22]))
  {
    OrderCancelLayout(l);
    NumberAt(l, src, 0, 0, U16);
    NumberAt(l, src, 3, 10, U64);
    NumberAt(l, src, 4, 18, U32);
  }

  lemma {:induction false} OrderDeleteLayout(l: Layout)
    requires l == LayoutOf(68)
    ensures l == [U16, U16, Be48, U64]
    ensures Offsets(l) == [0, 2, 4, 10, 18] && LayoutSize(l) == 18
  {
    assert l[..0] == [] && l[..4] == l;
    NextOffset(l, 0, [0]);
    NextOffset(l, 1, [0, 2]);
    NextOffset(l, 2, [0, 2, 4]);
    NextOffset(l, 3, [0, 2, 4, 10]);
    OffsetsAre(l, 4);
  }

  lemma {:induction false} OrderDeleteBytes(l: Layout, src: seq<byte>)
    requires l == LayoutOf(68) && 18 <= |src|
    ensures LayoutSize(l) == 18
    ensures
      var v := LoadFields(l, src);
      |v| == 4
      && v[0] == Num(BigEndian(src[0..2]))
      && v[3] == Num(BigEndian(src[10..18]))
  {
    OrderDeleteLayout(l);
    NumberAt(l, src, 0, 0, U16);
    NumberAt(l, src, 3, 10, U64);
  }

  lemma {:induction false} OrderReplaceLayout(l: Layout)
    requires l == LayoutOf(85)
    ensures l == [U16, U16, Be48, U64, U64, U32, U32]
    ensures Offsets(l) == [0, 2, 4, 10, 18, 26, 30, 34] && LayoutSize(l) == 34
  {
    assert l[..0] == [] && l[..7] == l;
    NextOffset(l, 0, [0]);
    NextOffset(l, 1, [0, 2]);
    NextOffset(l, 2, [0, 2, 4]);
    NextOffset(l, 3, [0, 2, 4, 10]);
    NextOffset(l, 4, [0, 2, 4, 10, 18]);
    NextOffset(l, 5, [0, 2, 4, 10, 18, 26]);
    NextOffset(l, 6, [0, 2, 4, 10, 18, 26, 30]);
    OffsetsAre(l, 7);
  }

  lemma {:induction false} OrderReplaceBytes(l: Layout, src: seq<byte>)
    requires l == LayoutOf(85) && 34 <= |src|
    ensures LayoutSize(l) == 34
    ensures
      var v := LoadFields(l, src);
      |v| == 7
      && v[0] == Num(BigEndian(src[0..2]))
      && v[3] == Num(BigEndian(src[10..18]))
      && v[4] == Num(BigEndian(src[18..26]))
      && v[5] == Num(BigEndian(src[26..30]))
      && v[6] == Num(BigEndian(src[30..34]))
  {
    OrderReplaceLayout(l);
    NumberAt(l, src, 0, 0, U16);
    NumberAt(l, src, 3, 10, U64);
    NumberAt(l, src, 4, 18, U64);
    NumberAt(l, src, 5, 26, U32);
    NumberAt(l, src, 6, 30, U32);
  }

  // ----- What a dispatched message asks for -----

  lemma {:induction false} Dispatched(kind: byte, src: seq<byte>, m: Message)
    requires Dispatch(kind, src) == Next(Handled(m))
    ensures kind < 0x80 && IsHandled(kind) && LayoutSize(LayoutOf(kind)) <= |src|
    ensures m == Message(kind, LoadFields(LayoutOf(kind), src)) && m.WellTyped()
  {
    LoadedAllFit(LayoutOf(kind), src);
  }

  /** 'A' and 'F': an addition, a bid if and only if the side byte is 'B'. */
  lemma {:induction false} AddAsks(kind: byte, src: seq<byte>, m: Message)
    requires Dispatch(kind, src) == Next(Handled(m)) && (kind == 65 || kind == 70)
    ensures m.WellTyped() && (if kind == 65 then 35 else 39) <= |src| && Locate(m) == BigEndian(src[0..2])
    ensures
      var op := OpOf(m);
      && op.Add? && op.id == BigEndian(src[10..18])
      && op.qty == BigEndian(src[19..23]) && op.price == BigEndian(src[31..35])
      && op.side == (if src[18] == 66 then Bid else if src[18] == 83 then Ask else if src[18] == 0 then NoSide else Unknown)
  {
    Dispatched(kind, src, m);
    if kind == 65 {
      AddOrderLayout(LayoutOf(kind));
      AddOrderBytes(LayoutOf(kind), src);
    } else {
      AddOrderMpidLayout(LayoutOf(kind));
      AddOrderMpidBytes(LayoutOf(kind), src);
    }
  }

  /** 'E' and 'C': an execution. */
  lemma {:induction false} ExecutedAsks(kind: byte, src: seq<byte>, m: Message)
    requires Dispatch(kind, src) == Next(Handled(m)) && (kind == 69 || kind == 67)
    ensures m.WellTyped() && (if kind == 69 then 30 else 35) <= |src| && Locate(m) == BigEndian(src[0..2])
    ensures OpOf(m).Execute? && OpOf(m).id == BigEndian(src[10..18]) && OpOf(m).qty == BigEndian(src[18..22])
  {
    Dispatched(kind, src, m);
    if kind == 69 {
      OrderExecutedLayout(LayoutOf(kind));
      OrderExecutedBytes(LayoutOf(kind), src);
    } else {
      OrderExecutedPriceLayout(LayoutOf(kind));
      OrderExecutedPriceBytes(LayoutOf(kind), src);
    }
  }

  /** 'X': a cancellation. */
  lemma {:induction false} CancelAsks(kind: byte, src: seq<byte>, m: Message)
    requires Dispatch(kind, src) == Next(Handled(m)) && kind == 88
    ensures m.WellTyped() && 22 <= |src| && Locate(m) == BigEndian(src[0..2])
    ensures OpOf(m).Cancel? && OpOf(m).id == BigEndian(src[10..18]) && OpOf(m).qty == BigEndian(src[18..22])
  {
    Dispatched(kind, src, m);
    OrderCancelLayout(LayoutOf(kind));
    OrderCancelBytes(LayoutOf(kind), src);
  }

  /** 'D': a deletion. */
  lemma {:induction false} DeleteAsks(kind: byte, src: seq<byte>, m: Message)
    requires Dispatch(kind, src) == Next(Handled(m)) && kind == 68
    ensures m.WellTyped() && 18 <= |src| && Locate(m) == BigEndian(src[0..2])
    ensures OpOf(m).Delete? && OpOf(m).id == BigEndian(src[10..18])
  {
    Dispatched(kind, src, m);
    OrderDeleteLayout(LayoutOf(kind));
    OrderDeleteBytes(LayoutOf(kind), src);
  }

  /** 'U': a replacement. */
  lemma {:induction false} ReplaceAsks(kind: byte, src: seq<byte>, m: Message)
    requires Dispatch(kind, src) == Next(Handled(m)) && kind == 85
    ensures m.WellTyped() && 34 <= |src| && Locate(m) == BigEndian(src[0..2])
    ensures
      var op := OpOf(m);
      && op.Replace? && op.id == BigEndian(src[10..18]) && op.newId == BigEndian(src[18..26])
      && op.qty == BigEndian(src[26..30]) && op.price == BigEndian(src[30..34])
  {
    Dispatched(kind, src, m);
    OrderReplaceLayout(LayoutOf(kind));
    OrderReplaceBytes(LayoutOf(kind), src);
  }

  /** 'R' carries the symbol, 'S' the event code; the handler does with them as follows. */
  lemma {:induction false} DirectoryAsks<Q>(cfg: Instruments<Q>, h: HandlerState<Q>, t0: u64, kind: byte, src: seq<byte>, m: Message)
    requires Dispatch(kind, src) == Next(Handled(m)) && kind == 82
    ensures m.WellTyped() && 38 <= |src|
    ensures Handle(cfg, h, t0, m) == Done(HandleDirectory(cfg, h, BigEndian(src[0..2]), src[10..18]))
  {
    Dispatched(kind, src, m);
    StockDirectoryLayout(LayoutOf(kind));
    StockDirectoryBytes(LayoutOf(kind), src);
  }

  lemma {:induction false} EventAsks<Q>(cfg: Instruments<Q>, h: HandlerState<Q>, t0: u64, kind: byte, src: seq<byte>, m: Message)
    requires Dispatch(kind, src) == Next(Handled(m)) && kind == 83
    ensures m.WellTyped() && 11 <= |src|
    ensures Handle(cfg, h, t0, m) == Done(HandleSystemEvent(h, src[10]))
  {
    Dispatched(kind, src, m);
    SystemEventLayout(LayoutOf(kind));
    SystemEventBytes(LayoutOf(kind), src);
  }

  /** Every other handled message operates on the book of its locate. */
  lemma {:induction false} OrderAsks<Q>(cfg: Instruments<Q>, h: HandlerState<Q>, t0: u64, m: Message)
    requires m.WellTyped() && m.kind in {65, 70, 69, 67, 88, 68, 85}
    ensures Handle(cfg, h, t0, m) == HandleOp(h, Locate(m), OpOf(m), t0)
  {
  }

  /** The bytes a decoder reads, for the nine handled types. */
  function WireSize(kind: byte): nat {
    if kind == 83 then 11
    else if kind == 82 then 38
    else if kind == 65 || kind == 67 then 35
    else if kind == 70 then 39
    else if kind == 69 then 30
    else if kind == 88 then 22
    else if kind == 68 then 18
    else 34
  }

  /** The whole dispatch table, type by type. */
  lemma {:induction false} DispatchTable(kind: byte, src: seq<byte>)
    ensures
      var d := Dispatch(kind, src);
      if kind >= 128 then d == Stop(NegativeIndex(kind))
      else if kind in {83, 82, 65, 70, 69, 67, 88, 68, 85} then
        if |src| < WireSize(kind) then d == Stop(OverRead) else d.Next? && d.event.Handled? && d.event.msg.kind == kind
      else if kind in {72, 89, 76, 86, 87, 75, 74, 104, 80, 81, 66, 73, 79} then d == Next(Ignored(kind))
      else d == if src == [] then Stop(OverRead) else Stop(UnknownType(src[0]))
  {
    LayoutSizes(kind);
    KnownTypes(kind);
  }

  lemma {:induction false} LayoutSizes(kind: byte)
    ensures kind in {83, 82, 65, 70, 69, 67, 88, 68, 85} ==> LayoutSize(LayoutOf(kind)) == WireSize(kind)
  {
    var l := LayoutOf(kind);
    if kind == 83 {
      SystemEventLayout(l);
    } else if kind == 82 {
      StockDirectoryLayout(l);
    } else if kind == 65 {
      AddOrderLayout(l);
    } else if kind == 70 {
      AddOrderMpidLayout(l);
    } else if kind == 69 {
      OrderExecutedLayout(l);
    } else if kind == 67 {
      OrderExecutedPriceLayout(l);
    } else if kind == 88 {
      OrderCancelLayout(l);
    } else if kind == 68 {
      OrderDeleteLayout(l);
    } else if kind == 85 {
      OrderReplaceLayout(l);
    }
  }

  lemma {:induction false} KnownTypes(kind: byte)
    ensures IsHandled(kind) <==> kind in {83, 82, 65, 70, 69, 67, 88, 68, 85}
    ensures IsValidType(kind) <==> IsHandled(kind) || kind in {72, 89, 76, 86, 87, 75, 74, 104, 80, 81, 66, 73, 79}
  {
  }
}
