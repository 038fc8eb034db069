/** Big-endian fields and message layouts: loading by shifts and ors, the offset recursion, and the
    encoding they are meant to invert. */
module ItchFields {
  import opened Bits

  type byte = x: nat | x < 0x100

  // ----- Big-endian numbers -----

  /** The number whose base-256 digits, most significant first, are `bytes`. */
  function BigEndian(bytes: seq<byte>): nat {
    if bytes == [] then 0 else 0x100 * BigEndian(bytes[..|bytes| - 1]) + bytes[|bytes| - 1]
  }

  /** The `k` low base-256 digits of `n`, most significant first. */
  function ToBigEndian(n: nat, k: nat): (bytes: seq<byte>)
    ensures |bytes| == k
    decreases k
  {
    if k == 0 then [] else ToBigEndian(n / 0x100, k - 1) + [n % 0x100]
  }

  lemma {:induction false} BigEndianRoundTrip(n: nat, k: nat)
    requires n < Pow2(8 * k)
    ensures BigEndian(ToBigEndian(n, k)) == n
    decreases k
  {
    if k == 0 {
    } else {
      Pow2Values();
      Pow2Add(8, 8 * (k - 1));
      assert 8 + 8 * (k - 1) == 8 * k;
      BigEndianRoundTrip(n / 0x100, k - 1);
      var bytes := ToBigEndian(n, k);
      assert bytes[..k - 1] == ToBigEndian(n / 0x100, k - 1);
    }
  }

  /** The first `i` bytes of an `n`-byte load, shifted to their places and or-ed together. */
  function OrBytes(src: seq<byte>, p: nat, n: nat, i: nat): nat
    requires i <= n && p + n <= |src|
    decreases src, i
  {
    if i == 0 then 0 else Or(OrBytes(src, p, n, i - 1), ShiftLeft(src[p + i - 1], 8 * (n - i)))
  }

  /** `load_be` for 1, 2, 4 and 8 bytes: byte `i` is shifted left by `8 * (n - 1 - i)` bits. */
  function Load(src: seq<byte>, p: nat, n: nat): nat
    requires p + n <= |src|
  {
    OrBytes(src, p, n, n)
  }

  /** The 48-bit load as written: the low 16 bits are read from the start of the field again, not
      from its fifth byte. */
  function Load48(src: seq<byte>, p: nat): nat
    requires p + 6 <= |src|
  {
    Or(ShiftLeft(Load(src, p, 4), 16), Load(src, p, 2))
  }

  lemma BigEndianSnoc(bytes: seq<byte>, b: byte)
    ensures BigEndian(bytes + [b]) == 0x100 * BigEndian(bytes) + b
  {
    assert (bytes + [b])[..|bytes|] == bytes;
  }

  /** The number that starts with the digits before `p + n` goes on with the digit at `p + n`. */
  lemma NextDigit(src: seq<byte>, p: nat, n: nat)
    requires p + n < |src|
    ensures BigEndian(src[p..p + n + 1]) == 0x100 * BigEndian(src[p..p + n]) + src[p + n]
  {
    BigEndianSnoc(src[p..p + n], src[p + n]);
    assert src[p..p + n + 1] == src[p..p + n] + [src[p + n]];
  }

  lemma {:induction false} ShiftCompose(a: nat, j: nat, k: nat)
    ensures ShiftLeft(ShiftLeft(a, j), k) == ShiftLeft(a, j + k)
    decreases k
  {
    if k == 0 {
    } else {
      ShiftCompose(a, j, k - 1);
    }
  }

  lemma {:induction false} ShiftSum(a: nat, b: nat, k: nat)
    ensures ShiftLeft(a + b, k) == ShiftLeft(a, k) + ShiftLeft(b, k)
    decreases k
  {
    if k == 0 {
    } else {
      ShiftSum(a, b, k - 1);
    }
  }

  lemma ShiftByte(a: nat)
    ensures ShiftLeft(a, 8) == 0x100 * a
  {
    ShiftIsTimes(a, 8);
    Pow2Values();
  }

  lemma {:induction false} ShiftIsTimes(a: nat, k: nat)
    ensures ShiftLeft(a, k) == a * Pow2(k)
    decreases k
  {
    if k == 0 {
    } else {
      ShiftIsTimes(a, k - 1);
      MulAssoc(2, a, Pow2(k - 1));
      MulAssoc(a, 2, Pow2(k - 1));
    }
  }

  lemma {:induction false} ByteFits(b: byte, k: nat)
    ensures ShiftLeft(b, k) < Pow2(k + 8)
    decreases k
  {
    if k == 0 {
      Pow2Values();
    } else {
      ByteFits(b, k - 1);
    }
  }

  /** Or-ing the next byte, at its place, below the bytes already placed. */
  lemma {:induction false} OrNextByte(high: nat, b: byte, k: nat)
    ensures Or(ShiftLeft(high, k + 8), ShiftLeft(b, k)) == ShiftLeft(0x100 * high + b, k)
  {
    ShiftCompose(high, 8, k);
    ShiftByte(high);
    ByteFits(b, k);
    OrIsAdd(high, k + 8, ShiftLeft(b, k));
    ShiftSum(0x100 * high, b, k);
  }

  lemma {:induction false} OrBytesValue(src: seq<byte>, p: nat, n: nat, i: nat)
    requires i <= n && p + n <= |src|
    ensures OrBytes(src, p, n, i) == ShiftLeft(BigEndian(src[p..p + i]), 8 * (n - i))
    decreases i
  {
    if i == 0 {
      ShiftZero(8 * n);
    } else {
      OrBytesValue(src, p, n, i - 1);
      NextDigit(src, p, i - 1);
      OrNextByte(BigEndian(src[p..p + i - 1]), src[p + i - 1], 8 * (n - i));
    }
  }

  lemma {:induction false} ShiftZero(k: nat)
    ensures ShiftLeft(0, k) == 0
    decreases k
  {
    if k == 0 {
    } else {
      ShiftZero(k - 1);
    }
  }

  /** Shifting and or-ing bytes together reads a big-endian number. */
  lemma {:induction false} LoadIsBigEndian(src: seq<byte>, p: nat, n: nat)
    requires p + n <= |src|
    ensures Load(src, p, n) == BigEndian(src[p..p + n])
  {
    OrBytesValue(src, p, n, n);
  }

  lemma {:induction false} BigEndianBound(bytes: seq<byte>)
    ensures BigEndian(bytes) < Pow2(8 * |bytes|)
    decreases |bytes|
  {
    if bytes == [] {
    } else {
      var front := bytes[..|bytes| - 1];
      BigEndianBound(front);
      Pow2Values();
      Pow2Add(8, 8 * |front|);
      assert 8 + 8 * |front| == 8 * |bytes|;
    }
  }

  lemma Shift16(a: nat)
    ensures ShiftLeft(a, 16) == 0x1_0000 * a
  {
    ShiftCompose(a, 8, 8);
    ShiftByte(a);
    ShiftByte(0x100 * a);
  }

  lemma {:induction false} Or16(high: nat, low: nat)
    requires low < 0x1_0000
    ensures Or(ShiftLeft(high, 16), low) == 0x1_0000 * high + low
  {
    Pow2Values();
    OrIsAdd(high, 16, low);
    Shift16(high);
  }

  lemma {:induction false} TwoBytesBound(bytes: seq<byte>)
    requires |bytes| == 2
    ensures BigEndian(bytes) < 0x1_0000
  {
    BigEndianBound(bytes);
    Pow2Values();
  }

  lemma {:induction false} Load48Value(src: seq<byte>, p: nat)
    requires p + 6 <= |src|
    ensures Load48(src, p) == 0x1_0000 * BigEndian(src[p..p + 4]) + BigEndian(src[p..p + 2])
  {
    var high, low := Load(src, p, 4), Load(src, p, 2);
    LoadIsBigEndian(src, p, 4);
    LoadIsBigEndian(src, p, 2);
    TwoBytesBound(src[p..p + 2]);
    Or16(high, low);
  }

  // ----- Fields -----

  datatype Field = Char | U16 | U32 | U64 | Be48 | Chars(n: nat)

  datatype Value = Num(n: nat) | Text(bytes: seq<byte>)

  type Layout = seq<Field>

  function Size(f: Field): nat {
    match f
    case Char => 1
    case U16 => 2
    case U32 => 4
    case U64 => 8
    case Be48 => 6
    case Chars(n) => n
  }

  /** The offset of field `i`, by the recursion of the template. */
  function OffsetAt(layout: Layout, i: nat): nat
    requires i <= |layout|
  {
    if i == 0 then 0 else OffsetAt(layout, i - 1) + Size(layout[i - 1])
  }

  function LayoutSize(layout: Layout): nat {
    OffsetAt(layout, |layout|)
  }

  function LoadField(f: Field, src: seq<byte>, p: nat): Value
    requires p + Size(f) <= |src|
  {
    match f
    case Be48 => Num(Load48(src, p))
    case Chars(n) => Text(src[p..p + n])
    case _ => Num(Load(src, p, Size(f)))
  }

  lemma {:induction false} OffsetMonotone(layout: Layout, i: nat, j: nat)
    requires i <= j <= |layout|
    ensures OffsetAt(layout, i) <= OffsetAt(layout, j)
    decreases j
  {
    if i == j {
    } else {
      OffsetMonotone(layout, i, j - 1);
    }
  }

  /** Field `i`, loaded at its offset. */
  function FieldAt(layout: Layout, src: seq<byte>, i: nat): Value
    requires i < |layout| && LayoutSize(layout) <= |src|
  {
    OffsetMonotone(layout, i + 1, |layout|);
    LoadField(layout[i], src, OffsetAt(layout, i))
  }

  /** All fields of a layout. */
  function LoadFields(layout: Layout, src: seq<byte>): (vals: seq<Value>)
    requires LayoutSize(layout) <= |src|
    ensures |vals| == |layout|
  {
    seq(|layout|, i requires 0 <= i < |layout| => FieldAt(layout, src, i))
  }

  // ----- The encoding -----

  /** The first number too large for the field. */
  function Limit(f: Field): nat {
    match f
    case Char => 0x100
    case U16 => TWO_TO_16
    case U32 => TWO_TO_32
    case U64 => TWO_TO_64
    case Be48 => 0x1_0000_0000_0000
    case Chars(n) => 0
  }

  lemma LimitIsPow2(f: Field)
    ensures !f.Chars? ==> Limit(f) == Pow2(8 * Size(f))
  {
    Pow2Values();
  }

  predicate Fits(f: Field, v: Value) {
    if f.Chars? then v.Text? && |v.bytes| == f.n else v.Num? && v.n < Limit(f)
  }

  predicate AllFit(layout: Layout, vals: seq<Value>) {
    |layout| == |vals| && forall i | 0 <= i < |layout| :: Fits(layout[i], vals[i])
  }

  function EncodeField(f: Field, v: Value): (bytes: seq<byte>)
    requires Fits(f, v)
    ensures |bytes| == Size(f)
  {
    match f
    case Chars(n) => v.bytes
    case _ => ToBigEndian(v.n, Size(f))
  }

  /** The first `i` fields, one after the other. */
  function EncodeFields(layout: Layout, vals: seq<Value>, i: nat): (bytes: seq<byte>)
    requires AllFit(layout, vals) && i <= |layout|
    ensures |bytes| == OffsetAt(layout, i)
    decreases i
  {
    if i == 0 then [] else EncodeFields(layout, vals, i - 1) + EncodeField(layout[i - 1], vals[i - 1])
  }

  /** What the decoder makes of a 48-bit number: its high 32 bits are right, its low 16 bits are a
      copy of the top 16. */
  function Seen48(n: nat): nat {
    0x1_0000 * (n / 0x1_0000) + n / 0x1_0000_0000
  }

  /** What the decoder makes of an encoded value. */
  function SeenValue(f: Field, v: Value): Value {
    if f.Be48? && v.Num? then Num(Seen48(v.n)) else v
  }

  function SeenValues(layout: Layout, vals: seq<Value>): (seen: seq<Value>)
    requires |layout| == |vals|
    ensures |seen| == |vals|
  {
    seq(|vals|, i requires 0 <= i < |vals| => SeenValue(layout[i], vals[i]))
  }

  /** The 48-bit decoder is right exactly for the numbers whose low 16 bits repeat the top 16. */
  lemma {:induction false} Seen48Exact(n: nat)
    requires n < 0x1_0000_0000_0000
    ensures Seen48(n) == n <==> n % 0x1_0000 == n / 0x1_0000_0000
  {
  }

  /** A concrete failure: one nanosecond after midnight reads back as midnight. */
  lemma Seen48Fails()
    ensures Seen48(1) == 0
  {
  }

  lemma ShiftRightByte(n: nat)
    ensures ShiftRight(n, 8) == n / 0x100
  {
    ShiftRightIsDiv(n, 8);
    Pow2Values();
  }

  /** Dropping low digits of the encoding shifts the number right by whole bytes. */
  lemma {:induction false} ToBigEndianPrefix(n: nat, k: nat, drop: nat)
    requires drop <= k
    ensures ToBigEndian(n, k)[..k - drop] == ToBigEndian(ShiftRight(n, 8 * drop), k - drop)
    decreases drop
  {
    if drop == 0 {
    } else {
      ToBigEndianPrefix(n / 0x100, k - 1, drop - 1);
      ShiftRightByte(n);
      ShiftRightCompose(n, 8, 8 * (drop - 1));
      assert ToBigEndian(n, k)[..k - drop] == ToBigEndian(n / 0x100, k - 1)[..(k - 1) - (drop - 1)];
    }
  }

  lemma {:induction false} Top48(n: nat)
    ensures ToBigEndian(n, 6)[..4] == ToBigEndian(n / 0x1_0000, 4)
    ensures ToBigEndian(n, 6)[..2] == ToBigEndian(n / 0x1_0000_0000, 2)
  {
    ToBigEndianPrefix(n, 6, 2);
    ToBigEndianPrefix(n, 6, 4);
    ShiftRightIsDiv(n, 16);
    ShiftRightIsDiv(n, 32);
    Pow2Values();
  }

  lemma {:induction false} Seen48RoundTrip(n: nat, src: seq<byte>, p: nat)
    requires n < 0x1_0000_0000_0000 && p + 6 <= |src| && src[p..p + 6] == ToBigEndian(n, 6)
    ensures Load48(src, p) == Seen48(n)
  {
    Load48Value(src, p);
    Top48(n);
    assert src[p..p + 4] == src[p..p + 6][..4] && src[p..p + 2] == src[p..p + 6][..2];
    Pow2Values();
    BigEndianRoundTrip(n / 0x1_0000, 4);
    BigEndianRoundTrip(n / 0x1_0000_0000, 2);
  }

  /** Loading a field from where it was encoded. */
  lemma {:induction false} FieldRoundTrip(f: Field, v: Value, src: seq<byte>, p: nat)
    requires Fits(f, v) && p + Size(f) <= |src| && src[p..p + Size(f)] == EncodeField(f, v)
    ensures LoadField(f, src, p) == SeenValue(f, v)
  {
    if f.Be48? {
      Seen48RoundTrip(v.n, src, p);
    } else if !f.Chars? {
      LimitIsPow2(f);
      LoadIsBigEndian(src, p, Size(f));
      BigEndianRoundTrip(v.n, Size(f));
    }
  }

  lemma SliceOfPrefix<T>(front: seq<T>, s: seq<T>, p: nat, q: nat)
    requires front <= s && p <= q <= |front|
    ensures s[p..q] == front[p..q]
  {
  }

  lemma SliceLast<T>(front: seq<T>, last: seq<T>)
    ensures (front + last)[|front|..|front| + |last|] == last
  {
  }

  lemma {:induction false} EncodedAt(layout: Layout, vals: seq<Value>, i: nat, j: nat)
    requires AllFit(layout, vals) && i < j <= |layout|
    ensures OffsetAt(layout, i) + Size(layout[i]) <= OffsetAt(layout, j)
    ensures EncodeFields(layout, vals, j)[OffsetAt(layout, i)..OffsetAt(layout, i) + Size(layout[i])]
         == EncodeField(layout[i], vals[i])
    decreases j
  {
    var front, last := EncodeFields(layout, vals, j - 1), EncodeField(layout[j - 1], vals[j - 1]);
    if i + 1 < j {
      EncodedAt(layout, vals, i, j - 1);
      SliceOfPrefix(front, front + last, OffsetAt(layout, i), OffsetAt(layout, i) + Size(layout[i]));
    } else {
      SliceLast(front, last);
    }
  }

  /** Every field is read at the sum of the sizes before it, where it was encoded, and comes back
      unchanged, 48-bit fields excepted. */
  lemma {:induction false} FieldAtRoundTrip(layout: Layout, vals: seq<Value>, src: seq<byte>, i: nat)
    requires AllFit(layout, vals) && i < |layout|
    requires EncodeFields(layout, vals, |layout|) <= src
    ensures FieldAt(layout, src, i) == SeenValue(layout[i], vals[i])
  {
    var p := OffsetAt(layout, i);
    EncodedAt(layout, vals, i, |layout|);
    SliceOfPrefix(EncodeFields(layout, vals, |layout|), src, p, p + Size(layout[i]));
    FieldRoundTrip(layout[i], vals[i], src, p);
  }

  /** Decoding what was encoded, with anything behind it. */
  lemma {:induction false} FieldsRoundTrip(layout: Layout, vals: seq<Value>, src: seq<byte>)
    requires AllFit(layout, vals)
    requires EncodeFields(layout, vals, |layout|) <= src
    ensures LoadFields(layout, src) == SeenValues(layout, vals)
  {
    forall i | 0 <= i < |layout|
      ensures FieldAt(layout, src, i) == SeenValue(layout[i], vals[i])
    {
      FieldAtRoundTrip(layout, vals, src, i);
    }
  }

  /** Decoding gives back exactly the encoded values if and only if every 48-bit value repeats its top
      16 bits in its low 16 bits. */
  lemma {:induction false} DecodedExactlyWhen(layout: Layout, vals: seq<Value>)
    requires AllFit(layout, vals)
    ensures LoadFields(layout, EncodeFields(layout, vals, |layout|)) == vals
        <==> forall i | 0 <= i < |layout| :: layout[i].Be48? ==> vals[i].n % 0x1_0000 == vals[i].n / 0x1_0000_0000
  {
    FieldsRoundTrip(layout, vals, EncodeFields(layout, vals, |layout|));
    var seen := SeenValues(layout, vals);
    forall i | 0 <= i < |layout|
      ensures seen[i] == vals[i] <==> (layout[i].Be48? ==> vals[i].n % 0x1_0000 == vals[i].n / 0x1_0000_0000)
    {
      assert Fits(layout[i], vals[i]);
      if layout[i].Be48? {
        Seen48Exact(vals[i].n);
      }
    }
  }

  lemma {:induction false} LoadedFits(f: Field, src: seq<byte>, p: nat)
    requires p + Size(f) <= |src|
    ensures Fits(f, LoadField(f, src, p))
  {
    if f.Be48? {
      Load48Value(src, p);
      BigEndianBound(src[p..p + 4]);
      BigEndianBound(src[p..p + 2]);
      Pow2Values();
    } else if !f.Chars? {
      LimitIsPow2(f);
      LoadIsBigEndian(src, p, Size(f));
      BigEndianBound(src[p..p + Size(f)]);
    }
  }

  /** Whatever the bytes are, every decoded value is in the range of its field. */
  lemma {:induction false} LoadedAllFit(layout: Layout, src: seq<byte>)
    requires LayoutSize(layout) <= |src|
    ensures AllFit(layout, LoadFields(layout, src))
  {
    forall i | 0 <= i < |layout|
      ensures Fits(layout[i], FieldAt(layout, src, i))
    {
      OffsetMonotone(layout, i + 1, |layout|);
      LoadedFits(layout[i], src, OffsetAt(layout, i));
    }
  }

  lemma {:induction false} LoadFieldPrefix(f: Field, src: seq<byte>, src': seq<byte>, p: nat)
    requires p + Size(f) <= |src| && src <= src'
    ensures LoadField(f, src', p) == LoadField(f, src, p)
  {
    if f.Be48? {
      Load48Value(src, p);
      Load48Value(src', p);
      SliceOfPrefix(src, src', p, p + 4);
      SliceOfPrefix(src, src', p, p + 2);
    } else if !f.Chars? {
      LoadIsBigEndian(src, p, Size(f));
      LoadIsBigEndian(src', p, Size(f));
      SliceOfPrefix(src, src', p, p + Size(f));
    }
  }

  /** Decoding reads no further than the layout. */
  lemma {:induction false} LoadFieldsPrefix(layout: Layout, src: seq<byte>, src': seq<byte>)
    requires LayoutSize(layout) <= |src| && src <= src'
    ensures LoadFields(layout, src') == LoadFields(layout, src)
  {
    forall i | 0 <= i < |layout|
      ensures FieldAt(layout, src', i) == FieldAt(layout, src, i)
    {
      OffsetMonotone(layout, i + 1, |layout|);
      LoadFieldPrefix(layout[i], src, src', OffsetAt(layout, i));
    }
  }
}
