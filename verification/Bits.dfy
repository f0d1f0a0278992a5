/**
 Bits of integers in two's complement, and operations on the bits of digits.
 */
module Bits {
  import opened Digits

  lemma {:induction false} Pow2Add(m: nat, n: nat)
    ensures Pow2(m + n) == Pow2(m) * Pow2(n)
  {
    if m == 0 {
    } else {
      Pow2Add(m - 1, n);
      assert 2 * (Pow2(m - 1) * Pow2(n)) == (2 * Pow2(m - 1)) * Pow2(n);
    }
  }

  lemma RadixPow2()
    ensures RADIX == Pow2(BIGNUM_DIGIT_LENGTH)
  {
    Pow2Add(BIGNUM_HALF_DIGIT_LENGTH, BIGNUM_HALF_DIGIT_LENGTH);
  }

  /** A digit split at bit k. */
  lemma RadixSplit(k: nat)
    requires k <= BIGNUM_DIGIT_LENGTH
    ensures RADIX == Pow2(k) * Pow2(BIGNUM_DIGIT_LENGTH - k)
  {
    RadixPow2();
    Pow2Add(k, BIGNUM_DIGIT_LENGTH - k);
  }

  lemma {:induction false} Pow2Grows(n: nat)
    ensures Pow2(n) > n
  {
    if n > 0 { Pow2Grows(n - 1); }
  }

  lemma Pow2Mono(m: nat, n: nat)
    requires m <= n
    ensures Pow2(m) <= Pow2(n)
  {
    Pow2Add(m, n - m);
    MulMono(1, Pow2(n - m), Pow2(m));
  }

  /** Bit i of the two's-complement expansion of z, which has no end. */
  function Bit(z: int, i: nat): bool {
    (z / Pow2(i)) % 2 == 1
  }

  lemma BitZero(z: int)
    ensures Bit(z, 0) == (z % 2 == 1)
  {
    assert z / 1 == z;
  }

  lemma HalvesTwice(z: int, p: int)
    requires p > 0
    ensures z / (2 * p) == (z / 2) / p
  {
    var q, r := (z / 2) / p, (z / 2) % p;
    assert z == 2 * (q * p + r) + z % 2;
    assert z == (2 * p) * q + (2 * r + z % 2);
    DivUnique(2 * p, q, 2 * r + z % 2, z / (2 * p), z % (2 * p));
  }

  lemma BitNext(z: int, i: nat)
    ensures Bit(z, i + 1) == Bit(z / 2, i)
  {
    HalvesTwice(z, Pow2(i));
  }

  // ----- operations on bits -----

  /** The values of an operation on the four pairs of bits, first argument first. */
  datatype Table = Table(ff: bool, ft: bool, tf: bool, tt: bool) {
    function At(a: bool, b: bool): bool {
      if a then (if b then tt else tf) else if b then ft else ff
    }

    /** The operation with its result complemented, and with either argument complemented. */
    function Not(): Table { Table(!ff, !ft, !tf, !tt) }

    function NotFirst(): Table { Table(tf, tt, ff, ft) }

    function NotSecond(): Table { Table(ft, ff, tt, tf) }

    function Swapped(): Table { Table(ff, tf, ft, tt) }
  }

  const AND := Table(false, false, false, true)
  const ANDC2 := Table(false, false, true, false)
  const ANDC1 := Table(false, true, false, false)
  const XOR := Table(false, true, true, false)
  const IOR := Table(false, true, true, true)

  function BitValue(b: bool): nat { if b then 1 else 0 }

  /** A machine operation on the bits of two words, for operations that leave 0 on two zeros. */
  function Bitwise(t: Table, x: nat, y: nat): nat
    requires !t.ff
    decreases x + y
  {
    if x == 0 && y == 0 then 0
    else BitValue(t.At(x % 2 == 1, y % 2 == 1)) + 2 * Bitwise(t, x / 2, y / 2)
  }

  /** The lowest bit, and the rest. */
  lemma BitwiseNext(t: Table, x: nat, y: nat)
    requires !t.ff
    ensures Bitwise(t, x, y) % 2 == BitValue(t.At(x % 2 == 1, y % 2 == 1))
    ensures Bitwise(t, x, y) / 2 == Bitwise(t, x / 2, y / 2)
    ensures Bitwise(t, x, y) == BitValue(t.At(x % 2 == 1, y % 2 == 1)) + 2 * Bitwise(t, x / 2, y / 2)
  {
  }

  lemma {:induction false} BitwiseBit(t: Table, x: nat, y: nat, i: nat)
    requires !t.ff
    ensures Bit(Bitwise(t, x, y), i) == t.At(Bit(x, i), Bit(y, i))
    decreases i
  {
    hide Bitwise, Bit, Pow2;
    var z := Bitwise(t, x, y);
    BitwiseNext(t, x, y);
    if i == 0 {
      BitZero(x);
      BitZero(y);
      BitZero(z);
    } else {
      BitNext(x, i - 1);
      BitNext(y, i - 1);
      BitNext(z, i - 1);
      BitwiseBit(t, x / 2, y / 2, i - 1);
    }
  }

  lemma {:induction false} BitwiseBound(t: Table, x: nat, y: nat, n: nat)
    requires !t.ff && x < Pow2(n) && y < Pow2(n)
    ensures Bitwise(t, x, y) < Pow2(n)
    decreases n
  {
    if n > 0 { BitwiseBound(t, x / 2, y / 2, n - 1); }
  }

  lemma BitwiseDigit(t: Table, x: nat, y: nat)
    requires !t.ff && x < RADIX && y < RADIX
    ensures Bitwise(t, x, y) < RADIX
  {
    RadixPow2();
    BitwiseBound(t, x, y, BIGNUM_DIGIT_LENGTH);
  }

  lemma {:induction false} AndZero(x: nat)
    ensures Bitwise(AND, x, 0) == 0
    decreases x
  {
    if x > 0 { AndZero(x / 2); }
  }

  lemma {:induction false} IorZero(x: nat)
    ensures Bitwise(IOR, x, 0) == x
    decreases x
  {
    if x > 0 { IorZero(x / 2); }
  }

  lemma ModTwice(x: nat, p: nat)
    requires p > 0
    ensures x % (2 * p) == x % 2 + 2 * ((x / 2) % p)
  {
    HalvesTwice(x, p);
    var h := x / 2;
    assert h == p * (h / p) + h % p;
    assert x == (2 * p) * (x / (2 * p)) + x % (2 * p);
    assert (2 * p) * (h / p) == 2 * (p * (h / p));
  }

  lemma HalfOfMask(p: nat)
    requires p > 0
    ensures (2 * p - 1) / 2 == p - 1 && (2 * p - 1) % 2 == 1
  {
  }

  /** Masking with n ones keeps the low n bits. */
  lemma {:induction false} AndMask(x: nat, n: nat)
    ensures Bitwise(AND, x, Pow2(n) - 1) == x % Pow2(n)
  {
    if n == 0 {
      AndZero(x);
    } else {
      var p: nat := Pow2(n - 1);
      AndMask(x / 2, n - 1);
      ModTwice(x, p);
      HalfOfMask(p);
      var mask: nat := 2 * p - 1;
      assert Pow2(n) == 2 * p;
      hide Bitwise, Pow2;
      BitwiseNext(AND, x, mask);
      assert AND.At(x % 2 == 1, mask % 2 == 1) == (x % 2 == 1);
    }
  }

  lemma HalfOfShifted(h: nat, p: nat)
    ensures (h * (2 * p)) / 2 == h * p && (h * (2 * p)) % 2 == 0
    ensures h * (2 * p) == 2 * (h * p)
  {
    assert h * (2 * p) == 2 * (h * p);
  }

  /** Words without common bits are joined by adding them. */
  lemma {:induction false} IorDisjoint(h: nat, n: nat, low: nat)
    requires low < Pow2(n)
    ensures Bitwise(IOR, h * Pow2(n), low) == h * Pow2(n) + low
  {
    hide Bitwise;
    if n == 0 {
      IorZero(h);
    } else {
      var p := Pow2(n - 1);
      var z := h * Pow2(n);
      HalfOfShifted(h, p);
      IorDisjoint(h, n - 1, low / 2);
      BitwiseNext(IOR, z, low);
    }
  }

  /** Joining half digits with an inclusive or is adding them. */
  lemma HdConsIsIor(high: nat, low: nat)
    requires low < RADIX_ROOT
    ensures high * RADIX_ROOT >= 0 && Bitwise(IOR, high * RADIX_ROOT, low) == HdCons(high, low)
  {
    hide Bitwise;
    MulMono(0, high, RADIX_ROOT);
    IorDisjoint(high, BIGNUM_HALF_DIGIT_LENGTH, low);
  }

  /** Swapping the arguments swaps the operation's. */
  lemma {:induction false} BitwiseSwapped(t: Table, x: nat, y: nat)
    requires !t.ff
    ensures Bitwise(t, x, y) == Bitwise(t.Swapped(), y, x)
    decreases x + y
  {
    if x + y > 0 { BitwiseSwapped(t, x / 2, y / 2); }
  }

  lemma {:induction false} AndSelf(x: nat)
    ensures Bitwise(AND, x, x) == x
    decreases x
  {
    if x > 0 { AndSelf(x / 2); }
  }

  /** A number that has no bit in common with its predecessor is a power of two. */
  lemma {:induction false} PowerOfTwo(d: nat) returns (k: nat)
    requires d > 0 && Bitwise(AND, d, d - 1) == 0
    ensures d == Pow2(k)
    decreases d
  {
    if d == 1 {
      k := 0;
    } else {
      BitwiseNext(AND, d, d - 1);
      if d % 2 == 1 {
        AndSelf(d / 2);
      }
      k := PowerOfTwo(d / 2);
      k := k + 1;
    }
  }

  // ----- infinite two's complement -----

  lemma BitwiseParts(t: Table, x: nat, y: nat, x': nat, y': nat, low: nat)
    requires !t.ff && x / 2 == x' && y / 2 == y' && low == BitValue(t.At(x % 2 == 1, y % 2 == 1))
    ensures Bitwise(t, x, y) == low + 2 * Bitwise(t, x', y')
  {
  }

  lemma HalfOfSum(a: nat, p: nat, h: nat)
    ensures (a + (2 * p) * h) / 2 == a / 2 + p * h && (a + (2 * p) * h) % 2 == a % 2
  {
    assert (2 * p) * h == 2 * (p * h);
  }

  lemma Twice(d: int, p: int, q: int)
    ensures 2 * (d + p * q) == 2 * d + (2 * p) * q
  {
  }

  /** Low and high parts are operated on separately. */
  lemma {:induction false} BitwiseSplit(t: Table, a: nat, b: nat, x: nat, y: nat, k: nat)
    requires !t.ff && a < Pow2(k) && b < Pow2(k)
    ensures Bitwise(t, a + Pow2(k) * x, b + Pow2(k) * y) == Bitwise(t, a, b) + Pow2(k) * Bitwise(t, x, y)
    decreases k
  {
    hide Bitwise;
    if k > 0 {
      var p: nat := Pow2(k - 1);
      BitwiseSplit(t, a / 2, b / 2, x, y, k - 1);
      BitwiseDouble(t, a, b, x, y, p);
    } else {
      NoBits(t);
    }
  }

  lemma NoBits(t: Table)
    requires !t.ff
    ensures Bitwise(t, 0, 0) == 0
  {
  }

  lemma BitwiseDouble(t: Table, a: nat, b: nat, x: nat, y: nat, p: nat)
    requires !t.ff
    requires Bitwise(t, a / 2 + p * x, b / 2 + p * y) == Bitwise(t, a / 2, b / 2) + p * Bitwise(t, x, y)
    ensures Bitwise(t, a + (2 * p) * x, b + (2 * p) * y) == Bitwise(t, a, b) + (2 * p) * Bitwise(t, x, y)
  {
    hide Bitwise;
    HalfOfSum(a, p, x);
    HalfOfSum(b, p, y);
    var low := BitValue(t.At(a % 2 == 1, b % 2 == 1));
    BitwiseParts(t, a + (2 * p) * x, b + (2 * p) * y, a / 2 + p * x, b / 2 + p * y, low);
    BitwiseParts(t, a, b, a / 2, b / 2, low);
    Twice(Bitwise(t, a / 2, b / 2), p, Bitwise(t, x, y));
  }

  lemma BitOfZero(i: nat)
    ensures !Bit(0, i)
  {
    assert 0 / Pow2(i) == 0;
  }

  /** The complement has the other bit everywhere. */
  lemma BitComplement(z: int, i: nat)
    ensures Bit(-1 - z, i) == !Bit(z, i)
  {
    var p: int := Pow2(i);
    var q, r := z / p, z % p;
    assert z == p * q + r;
    ComplementParts(p, q, r);
    DivUnique(p, -1 - q, p - 1 - r, (-1 - z) / p, (-1 - z) % p);
  }

  lemma ComplementParts(p: int, q: int, r: int)
    ensures p * (-1 - q) + (p - 1 - r) == -1 - (p * q + r)
  {
  }

  function Size(z: int): nat {
    if z < 0 then -z else z
  }

  /** Integers with the same bits are the same. */
  lemma {:induction false} BitsDetermine(x: int, y: int)
    requires forall i: nat :: Bit(x, i) == Bit(y, i)
    ensures x == y
    decreases Size(x) + Size(y)
  {
    if x != y {
      BitZero(x);
      BitZero(y);
      assert Bit(x, 0) == Bit(y, 0);
      forall i: nat ensures Bit(x / 2, i) == Bit(y / 2, i) {
        BitNext(x, i);
        BitNext(y, i);
        assert Bit(x, i + 1) == Bit(y, i + 1);
      }
      BitsDetermine(x / 2, y / 2);
    }
  }
}
