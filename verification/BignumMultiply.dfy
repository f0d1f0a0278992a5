/**
 Multiplication of bignums, by rows of digit products computed from half digits.
 */
module BignumMultiplication {
  import opened Digits
  import opened Bignums

  // ----- one digit times one digit, in halves -----

  function ProductLow(x: nat, y: nat, addend: nat, carry: nat): nat {
    addend + HdLow(x) * HdLow(y) + HdLow(carry)
  }

  function ProductHigh(x: nat, y: nat, low: nat, carry: nat): nat {
    HdHigh(x) * HdLow(y) + HdLow(x) * HdHigh(y) + HdHigh(low) + HdHigh(carry)
  }

  function ProductDigit(low: nat, high: nat): nat {
    HdCons(HdLow(high), HdLow(low))
  }

  function ProductCarry(x: nat, y: nat, high: nat): nat {
    HdHigh(x) * HdHigh(y) + HdHigh(high)
  }

  lemma CrossTerms(r: int, xh: int, xl: int, yh: int, yl: int)
    ensures (xh * r + xl) * (yh * r + yl) == xl * yl + r * (xh * yl + xl * yh) + (r * r) * (xh * yh)
  {
    assert (xh * r + xl) * (yh * r + yl) == (xh * r) * (yh * r) + (xh * r) * yl + xl * (yh * r) + xl * yl;
    assert (xh * r) * (yh * r) == (r * r) * (xh * yh);
    assert (xh * r) * yl == r * (xh * yl) && xl * (yh * r) == r * (xl * yh);
  }

  /** The digit and the carry make up addend + x * y + carry. */
  lemma DoubleProduct(x: nat, y: nat, addend: nat, carry: nat, low: nat, high: nat)
    requires low == ProductLow(x, y, addend, carry) && high == ProductHigh(x, y, low, carry)
    ensures ProductDigit(low, high) + RADIX * ProductCarry(x, y, high) == addend + x * y + carry
    ensures ProductDigit(low, high) < RADIX
  {
    Halves(x);
    Halves(y);
    Halves(carry);
    Halves(low);
    Halves(high);
    ConsBound(HdLow(high), HdLow(low));
    var r: int := RADIX_ROOT;
    ProductSum(r, HdHigh(x), HdLow(x), HdHigh(y), HdLow(y), addend, HdHigh(carry), HdLow(carry),
      HdHigh(low), HdLow(low), HdHigh(high), HdLow(high));
  }

  lemma ProductSum(r: int, xh: int, xl: int, yh: int, yl: int, a: int, ch: int, cl: int,
                   lh: int, ll: int, hh: int, hl: int)
    requires lh * r + ll == a + xl * yl + cl
    requires hh * r + hl == xh * yl + xl * yh + lh + ch
    ensures (hl * r + ll) + (r * r) * (xh * yh + hh) == a + (xh * r + xl) * (yh * r + yl) + (ch * r + cl)
  {
    CrossTerms(r, xh, xl, yh, yl);
    assert r * (hh * r + hl) == (r * r) * hh + r * hl;
    assert r * (xh * yl + xl * yh + lh + ch) == r * (xh * yl + xl * yh) + r * lh + r * ch;
    assert (r * r) * (xh * yh + hh) == (r * r) * (xh * yh) + (r * r) * hh;
  }

  lemma HalfProduct(a: nat, b: nat)
    requires a < RADIX_ROOT && b < RADIX_ROOT
    ensures a * b <= (RADIX_ROOT - 1) * (RADIX_ROOT - 1)
  {
    MulMono(a, RADIX_ROOT - 1, b);
    MulMono(b, RADIX_ROOT - 1, RADIX_ROOT - 1);
  }

  lemma HighBound(d: nat, m: nat)
    requires d < m * RADIX_ROOT
    ensures HdHigh(d) < m
  {
    Halves(d);
    if HdHigh(d) >= m {
      MulMono(m, HdHigh(d), RADIX_ROOT);
    }
  }

  /** No intermediate value exceeds the bounds that keep it in a machine word. */
  lemma ProductBounds(x: nat, y: nat, addend: nat, carry: nat, low: nat, high: nat)
    requires x < RADIX && y < RADIX && addend < RADIX && carry < RADIX
    requires low == ProductLow(x, y, addend, carry) && high == ProductHigh(x, y, low, carry)
    ensures low <= RADIX + RADIX_ROOT * (RADIX_ROOT - 2) + (RADIX_ROOT - 1)
    ensures high <= RADIX + RADIX_ROOT * (RADIX_ROOT - 2) + (RADIX_ROOT - 1)
    ensures ProductCarry(x, y, high) <= RADIX_ROOT * (RADIX_ROOT - 1) + (RADIX_ROOT - 1)
    ensures ProductCarry(x, y, high) < RADIX
  {
    Halves(x);
    Halves(y);
    Halves(carry);
    HalfProduct(HdLow(x), HdLow(y));
    HalfProduct(HdHigh(x), HdLow(y));
    HalfProduct(HdLow(x), HdHigh(y));
    HalfProduct(HdHigh(x), HdHigh(y));
    var r: int := RADIX_ROOT;
    BoundSums(r);
    HighBound(low, 2 * RADIX_ROOT - 1);
    HighBound(high, 2 * RADIX_ROOT - 1);
  }

  lemma BoundSums(r: int)
    ensures (r - 1) * (r - 1) == r * r - 2 * r + 1 && r * (r - 2) == r * r - 2 * r && r * (r - 1) == r * r - r
    ensures (2 * r - 1) * r == 2 * (r * r) - r
  {
  }

  // ----- the general case -----

  /** One row: adds xDigit * y to the digits of r from start on, and the last carry to the digit above. */
  method MultiplyRow(r: array<nat>, start: nat, xDigit: nat, y: seq<nat>)
    requires start + |y| < r.Length && AllDigits(r[..]) && xDigit < RADIX && AllDigits(y) && r[start + |y|] == 0
    modifies r
    ensures AllDigits(r[..]) && r[..start] == old(r[..start]) && r[start + |y| + 1..] == old(r[start + |y| + 1..])
    ensures Val(r[start..start + |y| + 1]) == Val(old(r[start..start + |y|])) + xDigit * Val(y)
  {
    hide Val, Pow, SumSoFar, ProductLow, ProductHigh, ProductDigit, ProductCarry;
    ghost var before := r[start..start + |y|];
    ghost var above := r[start + |y| + 1..];
    var carry: nat := 0;
    var j := 0;
    SumStart(before, y, xDigit);
    assert r[start..start] == [];
    while j < |y|
      invariant 0 <= j <= |y| && carry < RADIX && AllDigits(r[..])
      invariant SumSoFar(before, y, xDigit, r[start..start + j], carry)
      invariant r[..start] == old(r[..start]) && r[start + j..start + |y|] == before[j..]
      invariant r[start + |y|] == 0 && r[start + |y| + 1..] == above
    {
      ghost var s, c := r[start..start + j], carry;
      assert r[start + j] == r[start + j..start + |y|][0] == before[j];
      var low := ProductLow(xDigit, y[j], r[start + j], carry);
      var high := ProductHigh(xDigit, y[j], low, carry);
      DoubleProduct(xDigit, y[j], r[start + j], carry, low, high);
      ProductBounds(xDigit, y[j], r[start + j], carry, low, high);
      r[start + j] := ProductDigit(low, high);
      carry := ProductCarry(xDigit, y[j], high);
      SumNext(before, y, xDigit, s, r[start + j], c, carry);
      j := j + 1;
      assert r[start..start + j] == s + [r[start + j - 1]];
    }
    SumEnd(before, y, xDigit, r[start..start + |y|], carry);
    ValSnoc(r[start..start + |y|], carry);
    r[start + |y|] := r[start + |y|] + carry;
    assert r[start..start + |y| + 1] == r[start..start + |y|] + [carry];
  }

  lemma RowSum(p: int, w: int, d: int, v: int, x: int)
    ensures p * (w + d * v) == p * w + (p * d) * v
    ensures (x + p * d) * v == x * v + (p * d) * v
  {
    MulOut(p, w, d, v);
  }

  /** What a row does to the whole product. */
  lemma RowAdds(was: seq<nat>, now: seq<nat>, x: seq<nat>, y: seq<nat>, i: nat)
    requires i < |x| && |now| == |was| && i + |y| + 1 <= |was| && was[i + |y|] == 0
    requires now[..i] == was[..i]
    requires Val(now[i..i + |y| + 1]) == Val(was[i..i + |y|]) + x[i] * Val(y)
    requires Val(was[..i + |y|]) == Val(x[..i]) * Val(y)
    ensures Val(now[..i + |y| + 1]) == Val(x[..i + 1]) * Val(y)
  {
    hide Val;
    var n := |y|;
    assert now[..i + n + 1] == now[..i] + now[i..i + n + 1] && was[..i + n] == was[..i] + was[i..i + n];
    ValAppend(now[..i], now[i..i + n + 1]);
    ValAppend(was[..i], was[i..i + n]);
    ValNext(x, i);
    RowSum(Pow(i), Val(was[i..i + n]), x[i], Val(y), Val(x[..i]));
  }

  method BignumMultiplyUnsigned(x0: Bignum, y0: Bignum, negative: bool) returns (b: Bignum)
    requires Normal(x0) && Normal(y0) && !x0.IsZero() && !y0.IsZero()
    ensures Normal(b) && b.negative == negative && !b.IsZero()
    ensures b.Magnitude() == x0.Magnitude() * y0.Magnitude()
  {
    ValTop(x0.digits);
    ValTop(y0.digits);
    MulMono(1, y0.Magnitude(), x0.Magnitude());
    TrimmedZero([]);
    if y0.Length() > x0.Length() {
      b := MultiplyDigits(y0.digits, x0.digits, negative);
    } else {
      b := MultiplyDigits(x0.digits, y0.digits, negative);
    }
  }

  method MultiplyDigits(x: seq<nat>, y: seq<nat>, negative: bool) returns (b: Bignum)
    requires AllDigits(x) && AllDigits(y)
    ensures Normal(b) && b.Magnitude() == Val(x) * Val(y) && b.negative == (negative && !b.IsZero())
  {
    hide Val, Pow;
    RadixBound();
    var r := new nat[|x| + |y|](_ => 0);
    var i := 0;
    assert x[..0] == [];
    ValZeros([]);
    ValZeros(r[..|y|]);
    while i < |x|
      invariant 0 <= i <= |x| && AllDigits(r[..])
      invariant Val(r[..i + |y|]) == Val(x[..i]) * Val(y)
      invariant forall k | i + |y| <= k < r.Length :: r[k] == 0
    {
      ghost var was := r[..];
      MultiplyRow(r, i, x[i], y);
      assert was[..i] == r[..][..i] && was[i + |y| + 1..] == r[i + |y| + 1..];
      assert r[i..i + |y| + 1] == r[..][i..i + |y| + 1] && was[i..i + |y|] == was[..][i..i + |y|];
      RowAdds(was, r[..], x, y, i);
      forall k | i + |y| + 1 <= k < r.Length ensures r[k] == 0 {
        assert r[k] == r[i + |y| + 1..][k - (i + |y| + 1)] == was[i + |y| + 1..][k - (i + |y| + 1)] == was[k];
      }
      i := i + 1;
      assert r[..][..i + |y|] == r[..i + |y|];
    }
    assert x[..i] == x && r[..i + |y|] == r[..];
    b := BignumTrim(r, negative);
  }

  // ----- factors of half a digit -----

  lemma OneLess(v: int, k: int)
    ensures v + (k - 1) * v == v * k
  {
  }

  lemma SmallFactor(factor: nat)
    requires factor < RADIX_ROOT
    ensures HdLow(factor) == factor && HdHigh(factor) == 0 && factor < RADIX
  {
    RadixBound();
    Halves(factor);
    HighBound(factor, 1);
  }

  lemma ScaleStep(d: nat, factor: nat, carry: nat, low: nat, high: nat)
    requires d < RADIX && factor < RADIX_ROOT && carry < RADIX && factor > 0
    requires low == factor * HdLow(d) + HdLow(carry)
    requires high == factor * HdHigh(d) + HdHigh(low) + HdHigh(carry)
    ensures ProductDigit(low, high) < RADIX && HdHigh(high) < RADIX
    ensures ProductDigit(low, high) + RADIX * HdHigh(high) == d + (factor - 1) * d + carry
  {
    SmallFactor(factor);
    RadixBound();
    assert low == ProductLow(d, factor, 0, carry) by { assert factor * HdLow(d) == HdLow(d) * factor; }
    assert high == ProductHigh(d, factor, low, carry) by { assert factor * HdHigh(d) == HdHigh(d) * factor; }
    assert ProductCarry(d, factor, high) == HdHigh(high);
    DoubleProduct(d, factor, 0, carry, low, high);
    ProductBounds(d, factor, 0, carry, low, high);
    assert d * factor == d + (factor - 1) * d;
  }

  lemma NoCarry(s: seq<nat>, carry: nat, v: nat)
    requires Val(s) + carry * Pow(|s|) == v && v < Pow(|s|)
    ensures carry == 0
  {
    if carry > 0 { MulMono(1, carry, Pow(|s|)); }
  }

  /** One digit times a factor of half a digit, and the carry out. */
  function ScaleUpDigit(d: nat, factor: nat, carry: nat): (r: (nat, nat))
    requires d < RADIX && 0 < factor < RADIX_ROOT && carry < RADIX
    ensures r.0 < RADIX && r.1 < RADIX
    ensures r.0 + RADIX * r.1 == d + (factor - 1) * d + carry
  {
    MulMono(0, factor, HdLow(d));
    MulMono(0, factor, HdHigh(d));
    var low := factor * HdLow(d) + HdLow(carry);
    var high := factor * HdHigh(d) + HdHigh(low) + HdHigh(carry);
    ScaleStep(d, factor, carry, low, high);
    (HdCons(HdLow(high), HdLow(low)), HdHigh(high))
  }

  /** Multiplies in place; the product must fit. */
  method BignumDestructiveScaleUp(r: array<nat>, factor: nat)
    requires AllDigits(r[..]) && 1 < factor < RADIX_ROOT && Val(r[..]) * factor < Pow(r.Length)
    modifies r
    ensures AllDigits(r[..]) && Val(r[..]) == old(Val(r[..])) * factor
  {
    hide Val, Pow, SumSoFar, ScaleUpDigit, RADIX, RADIX_ROOT;
    RadixBound();
    SmallFactor(factor);
    ghost var before := r[..];
    var carry: nat := 0;
    var scan := 0;
    SumStart(before, before, factor - 1);
    assert r[..0] == [];
    while scan < r.Length
      invariant 0 <= scan <= r.Length && carry < RADIX && AllDigits(r[..])
      invariant SumSoFar(before, before, factor - 1, r[..scan], carry)
      invariant r[scan..] == before[scan..]
    {
      ghost var s, c := r[..scan], carry;
      var twoDigits := r[scan];
      assert twoDigits == r[scan..][0] == before[scan];
      var step := ScaleUpDigit(twoDigits, factor, carry);
      r[scan], carry := step.0, step.1;
      SumNext(before, before, factor - 1, s, r[scan], c, carry);
      scan := scan + 1;
      assert r[..scan] == s + [r[scan - 1]];
    }
    SumEnd(before, before, factor - 1, r[..scan], carry);
    assert r[..scan] == r[..];
    OneLess(Val(before), factor);
    NoCarry(r[..], carry, Val(before) * factor);
  }

  method BignumMultiplyUnsignedSmallFactor(x: Bignum, y: nat, negative: bool) returns (b: Bignum)
    requires Normal(x) && !x.IsZero() && 1 < y < RADIX_ROOT
    ensures Normal(b) && b.Magnitude() == x.Magnitude() * y && b.negative == negative && !b.IsZero()
  {
    hide Val, Pow;
    var p := new nat[x.Length() + 1](i requires 0 <= i <= x.Length() => if i < x.Length() then x.digits[i] else 0);
    assert p[..] == x.digits + [0];
    ValSnoc(x.digits, 0);
    RadixBound();
    SmallFactor(y);
    ScaledFits(x.digits, y);
    BignumDestructiveScaleUp(p, y);
    ValTop(x.digits);
    MulMono(1, y, x.Magnitude());
    TrimmedZero([]);
    b := BignumTrim(p, negative);
  }

  lemma ScaledFits(s: seq<nat>, y: nat)
    requires AllDigits(s) && y < RADIX
    ensures Val(s) * y < Pow(|s| + 1)
  {
    ValBound(s);
    ProductBelow(Val(s), Pow(|s|), y, RADIX);
  }

  lemma ProductBelow(v: nat, p: nat, y: nat, b: nat)
    requires v < p && y < b
    ensures v * y < b * p
  {
    MulMono(v, p - 1, y);
    MulMono(y, b, p - 1);
    assert b * (p - 1) == b * p - b;
  }

  // ----- signed multiplication -----

  lemma SignedProduct(x: Bignum, y: Bignum, b: Bignum)
    requires b.Magnitude() == x.Magnitude() * y.Magnitude() && b.negative == (x.negative != y.negative)
    ensures b.Value() == x.Value() * y.Value()
  {
    var m, n: int := x.Magnitude(), y.Magnitude();
    assert (-m) * n == -(m * n) && m * (-n) == -(m * n) && (-m) * (-n) == m * n;
  }

  method BignumMultiply(x: Bignum, y: Bignum) returns (b: Bignum)
    requires Normal(x) && Normal(y)
    ensures Normal(b) && b.Value() == x.Value() * y.Value()
  {
    hide Val, RADIX, RADIX_ROOT;
    TrimmedZero([]);
    var negative := if x.negative then !y.negative else y.negative;
    if x.IsZero() { return x; }
    if y.IsZero() { return y; }
    if x.Length() == 1 {
      var digit := x.digits[0];
      assert x.digits == [digit];
      ValOne(digit);
      if digit == 1 {
        b := BignumNewSign(y, negative);
        SignedProduct(x, y, b);
        return;
      }
      if digit < RADIX_ROOT {
        b := BignumMultiplyUnsignedSmallFactor(y, digit, negative);
        SignedProduct(x, y, b);
        return;
      }
    }
    if y.Length() == 1 {
      var digit := y.digits[0];
      assert y.digits == [digit];
      ValOne(digit);
      if digit == 1 {
        b := BignumNewSign(x, negative);
        SignedProduct(x, y, b);
        return;
      }
      if digit < RADIX_ROOT {
        b := BignumMultiplyUnsignedSmallFactor(x, digit, negative);
        SignedProduct(x, y, b);
        return;
      }
    }
    b := BignumMultiplyUnsigned(x, y, negative);
    SignedProduct(x, y, b);
  }
}
