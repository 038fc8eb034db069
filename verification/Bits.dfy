/** Unsigned bit arithmetic over natural numbers, bit by bit, and the facts that make a
    power-of-two ring index correct: masking is remainder, shifting is division. */
module Bits {

  function Pow2(k: nat): (p: nat)
    ensures p >= 1
  {
    if k == 0 then 1 else 2 * Pow2(k - 1)
  }

  function And(a: nat, b: nat): nat {
    if a == 0 || b == 0 then 0
    else 2 * And(a / 2, b / 2) + (if a % 2 == 1 && b % 2 == 1 then 1 else 0)
  }

  function Or(a: nat, b: nat): nat
    decreases a + b
  {
    if a == 0 then b
    else if b == 0 then a
    else 2 * Or(a / 2, b / 2) + (if a % 2 == 1 || b % 2 == 1 then 1 else 0)
  }

  function ShiftRight(a: nat, k: nat): nat {
    if k == 0 then a else ShiftRight(a / 2, k - 1)
  }

  function ShiftLeft(a: nat, k: nat): nat
    decreases a, k
  {
    if k == 0 then a else 2 * ShiftLeft(a, k - 1)
  }

  function PopCount(n: nat): nat {
    if n == 0 then 0 else n % 2 + PopCount(n / 2)
  }

  /** The number of trailing zero bits. */
  function CountrZero(n: nat): nat
    requires n > 0
  {
    if n % 2 == 1 then 0 else 1 + CountrZero(n / 2)
  }

  lemma {:induction false} NonzeroMultipleIsFar(n: int, d: int)
    requires n > 0
    ensures d == 0 || n * d >= n || n * d <= -n
  {
    if d >= 1 {
      assert n * d >= n * 1;
    } else if d <= -1 {
      assert n * d <= n * -1;
    }
  }

  lemma DivModIdentity(a: nat, n: nat)
    requires n > 0
    ensures a == n * (a / n) + a % n && 0 <= a % n < n && 0 <= a / n
  {
  }

  lemma {:induction false} DivModUnique(a: nat, n: nat, q: nat, r: nat)
    requires r < n && a == n * q + r
    ensures a / n == q && a % n == r
  {
    DivModIdentity(a, n);
    var d := q - a / n;
    assert n * d == n * q - n * (a / n);
    NonzeroMultipleIsFar(n, d);
  }

  /** Doubling the divisor: how quotient and remainder of `a` by `n == 2 * p` come from those of `a / 2`. */
  lemma {:induction false} HalveDivMod(a: nat, p: nat, n: nat)
    requires p > 0 && n == 2 * p
    ensures a / n == (a / 2) / p
    ensures a % n == 2 * ((a / 2) % p) + a % 2
  {
    var h := a / 2;
    DivModIdentity(h, p);
    var q, r := h / p, h % p;
    assert n * q == 2 * (p * q);
    DivModUnique(a, n, q, 2 * r + a % 2);
  }

  lemma {:induction false} MaskHalves(a: nat, p: nat, n: nat)
    requires p > 0 && n == 2 * p
    ensures And(a, n - 1) == 2 * And(a / 2, p - 1) + a % 2
  {
    var mask := n - 1;
    assert mask == 2 * (p - 1) + 1;
    assert mask / 2 == p - 1 && mask % 2 == 1;
  }

  lemma MaskStep(a: nat, p: nat, n: nat)
    requires p > 0 && n == 2 * p && And(a / 2, p - 1) == (a / 2) % p
    ensures And(a, n - 1) == a % n
  {
    HalveDivMod(a, p, n);
    MaskHalves(a, p, n);
  }

  lemma {:induction false} MaskIsMod(a: nat, k: nat)
    ensures And(a, Pow2(k) - 1) == a % Pow2(k)
    decreases k
  {
    if k == 0 {
    } else {
      MaskIsMod(a / 2, k - 1);
      MaskStep(a, Pow2(k - 1), Pow2(k));
    }
  }

  lemma {:induction false} ShiftRightIsDiv(a: nat, k: nat)
    ensures ShiftRight(a, k) == a / Pow2(k)
    decreases k
  {
    if k == 0 {
    } else {
      ShiftRightIsDiv(a / 2, k - 1);
      HalveDivMod(a, Pow2(k - 1), Pow2(k));
    }
  }

  lemma {:induction false} ShiftRightCompose(a: nat, j: nat, k: nat)
    ensures ShiftRight(ShiftRight(a, j), k) == ShiftRight(a, j + k)
    decreases j
  {
    if j == 0 {
    } else {
      ShiftRightCompose(a / 2, j - 1, k);
    }
  }

  lemma MulAssoc(a: int, b: int, c: int)
    ensures (a * b) * c == a * (b * c)
    ensures a * b == b * a
  {
  }

  lemma OrHalves(a: nat, b: nat)
    ensures Or(2 * a, b) == 2 * Or(a, b / 2) + b % 2
  {
    assert (2 * a) / 2 == a && (2 * a) % 2 == 0;
  }

  /** Or-ing a low part into a number shifted left past it is addition. */
  lemma {:induction false} OrIsAdd(a: nat, k: nat, b: nat)
    requires b < Pow2(k)
    ensures Or(ShiftLeft(a, k), b) == ShiftLeft(a, k) + b
    decreases k
  {
    if k == 0 {
    } else {
      OrIsAdd(a, k - 1, b / 2);
      OrHalves(ShiftLeft(a, k - 1), b);
    }
  }

  lemma {:induction false} PopCountZero(n: nat)
    requires PopCount(n) == 0
    ensures n == 0
  {
    if n == 0 {
    } else {
      PopCountZero(n / 2);
    }
  }

  /** A number with exactly one bit set is the power of two of its trailing zeros. */
  lemma {:induction false} SingleBitIsPow2(n: nat)
    requires PopCount(n) == 1
    ensures n > 0 && n == Pow2(CountrZero(n))
  {
    if n % 2 == 1 {
      PopCountZero(n / 2);
    } else {
      SingleBitIsPow2(n / 2);
    }
  }

  /** The ring arithmetic used by both queues: for a size with a single bit set, masking with
      `size - 1` selects the slot and shifting by the trailing zeros gives the generation. */
  lemma {:induction false} RingArithmetic(x: nat, size: nat)
    requires PopCount(size) == 1
    ensures size > 0
    ensures And(x, size - 1) == x % size
    ensures ShiftRight(x, CountrZero(size)) == x / size
  {
    SingleBitIsPow2(size);
    MaskIsMod(x, CountrZero(size));
    ShiftRightIsDiv(x, CountrZero(size));
  }

  lemma {:induction false} AndSelf(n: nat)
    ensures And(n, n) == n
  {
    if n == 0 {
    } else {
      AndSelf(n / 2);
    }
  }

  /** `n & (n - 1) == 0` for positive `n` says that exactly one bit is set. */
  lemma {:induction false} ClearLowestBit(n: nat)
    requires n > 0 && And(n, n - 1) == 0
    ensures PopCount(n) == 1
  {
    if n % 2 == 1 {
      assert (n - 1) / 2 == n / 2;
      AndSelf(n / 2);
    } else {
      assert (n - 1) / 2 == n / 2 - 1;
      ClearLowestBit(n / 2);
    }
  }

  lemma {:induction false} Pow2Add(a: nat, b: nat)
    ensures Pow2(a + b) == Pow2(a) * Pow2(b)
    decreases a
  {
    if a == 0 {
    } else {
      Pow2Add(a - 1, b);
      MulAssoc(2, Pow2(a - 1), Pow2(b));
    }
  }

  lemma {:induction false} Pow2Monotone(a: nat, b: nat)
    ensures a <= b ==> Pow2(a) <= Pow2(b)
    ensures a < b ==> Pow2(a) < Pow2(b)
    decreases b
  {
    if a >= b {
    } else {
      Pow2Monotone(a, b - 1);
    }
  }

  lemma {:induction false} ModAddMultiple(n: nat, a: nat, r: nat)
    requires n > 0
    ensures n * a + r >= 0
    ensures (n * a + r) % n == r % n
  {
    DivModIdentity(r, n);
    var q := r / n;
    assert n * (a + q) == n * a + n * q;
    DivModUnique(n * a + r, n, a + q, r % n);
  }

  /** Reducing modulo a multiple of `n` first does not change the remainder modulo `n`. */
  lemma {:induction false} ModOfMod(x: nat, n: nat, m: nat, big: nat)
    requires n > 0 && big > 0 && big == n * m
    ensures (x % big) % n == x % n
  {
    DivModIdentity(x, big);
    var q, r := x / big, x % big;
    assert big * q == n * (m * q);
    assert m * q >= 0;
    ModAddMultiple(n, m * q, r);
  }

  const TWO_TO_16: nat := 0x1_0000
  const TWO_TO_32: nat := 0x1_0000_0000
  const TWO_TO_64: nat := 0x1_0000_0000_0000_0000

  lemma Pow2Values()
    ensures Pow2(8) == 0x100 && Pow2(16) == TWO_TO_16 && Pow2(24) == 0x100_0000
    ensures Pow2(32) == TWO_TO_32 && Pow2(40) == 0x100_0000_0000 && Pow2(48) == 0x1_0000_0000_0000
    ensures Pow2(56) == 0x100_0000_0000_0000 && Pow2(64) == TWO_TO_64
  {
    assert Pow2(4) == 16;
    Pow2Add(4, 4);
    Pow2Add(8, 8);
    Pow2Add(8, 16);
    Pow2Add(16, 16);
    Pow2Add(8, 32);
    Pow2Add(16, 32);
    Pow2Add(24, 32);
    Pow2Add(32, 32);
  }
}
