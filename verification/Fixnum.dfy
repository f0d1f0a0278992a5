/**
 Fixnums as in src/microcode/object.h, and their product, the portable one of src/microcode/mul.c.
 */
module Fixnums {
  import opened Common
  import opened Digits
  import opened Bits

  type FixnumBits = n: nat | 7 <= n < BIGNUM_DIGIT_LENGTH witness (AtLeastEight(); 7)

  lemma AtLeastEight()
    ensures BIGNUM_DIGIT_LENGTH >= 8
  {
  }

  /** The bits of a fixnum besides its sign: fewer than those of a bignum digit. */
  const FIXNUM_LENGTH: FixnumBits

  /** The bits of a machine integer. */
  const LONG_LENGTH: nat := FIXNUM_LENGTH + 7

  const HALF_WORD_SIZE: nat := LONG_LENGTH / 2

  predicate InRange(z: int) {
    -(Pow2(FIXNUM_LENGTH) as int) <= z < Pow2(FIXNUM_LENGTH)
  }

  /** What an unsigned machine integer holds of x. */
  function Wrap(x: nat): nat {
    Mod(x, Pow2(LONG_LENGTH))
  }

  /** The number that a fixnum object with this datum stands for. */
  function FixnumToLong(datum: nat): int {
    if datum < Pow2(FIXNUM_LENGTH) then datum else datum - Pow2(FIXNUM_LENGTH + 1)
  }

  lemma Sizes()
    ensures Pow2(FIXNUM_LENGTH + 1) == 2 * Pow2(FIXNUM_LENGTH)
    ensures HALF_WORD_SIZE <= FIXNUM_LENGTH
    ensures Pow2(FIXNUM_LENGTH - HALF_WORD_SIZE) * Pow2(HALF_WORD_SIZE) == Pow2(FIXNUM_LENGTH)
    ensures 2 * Pow2(FIXNUM_LENGTH) <= Pow2(HALF_WORD_SIZE) * Pow2(HALF_WORD_SIZE) <= Pow2(LONG_LENGTH)
  {
    Pow2Add(FIXNUM_LENGTH - HALF_WORD_SIZE, HALF_WORD_SIZE);
    Pow2Add(HALF_WORD_SIZE, HALF_WORD_SIZE);
    Pow2Mono(FIXNUM_LENGTH + 1, HALF_WORD_SIZE + HALF_WORD_SIZE);
    Pow2Mono(HALF_WORD_SIZE + HALF_WORD_SIZE, LONG_LENGTH);
  }

  lemma DivModIs(a: nat, half: nat)
    requires half > 0
    ensures a == Div(a, half) * half + Mod(a, half) && Mod(a, half) < half
  {
  }

  lemma ModSmall(a: nat, half: nat)
    requires a < half
    ensures Mod(a, half) == a
  {
  }

  /** A magnitude in two halves. */
  lemma InHalves(a: nat, half: nat)
    requires half > 0 && a < half * half
    ensures a == Div(a, half) * half + Mod(a, half) && Div(a, half) < half
    ensures Mod(Div(a, half), half) == Div(a, half)
  {
    hide Div, Mod;
    DivModIs(a, half);
    if Div(a, half) >= half {
      MulMono(half, Div(a, half), half);
      assert false;
    }
    ModSmall(Div(a, half), half);
  }

  lemma HalvesProduct(ha: nat, la: nat, hb: nat, lb: nat, half: nat)
    ensures (ha * half + la) * (hb * half + lb) == (ha * hb) * (half * half) + (la * hb + ha * lb) * half + la * lb
  {
    assert (ha * half) * (hb * half) == (ha * hb) * (half * half);
    assert (ha * half) * lb == (ha * lb) * half;
    assert la * (hb * half) == (la * hb) * half;
    assert (la * hb + ha * lb) * half == (la * hb) * half + (ha * lb) * half;
  }

  lemma BelowSquare(x: nat, y: nat, half: nat)
    requires x < half && y < half
    ensures x * y < half * half
  {
    MulMono(x, half, y);
    MulStrict(y, half, half);
  }

  /** The part of a product that comes from a high half and a low half. */
  function Middle(ha: nat, la: nat, hb: nat, lb: nat): nat {
    la * hb + ha * lb
  }

  /** The product of magnitudes whose high halves are not both positive, from its parts. */
  lemma ProductParts(a: nat, b: nat, half: nat)
    requires half > 0 && a < half * half && b < half * half
    requires Div(a, half) == 0 || Div(b, half) == 0
    ensures var ha, la, hb, lb := Div(a, half), Mod(a, half), Div(b, half), Mod(b, half);
            && 0 <= la * lb < half * half && Middle(ha, la, hb, lb) < half * half
            && a * b == Middle(ha, la, hb, lb) * half + la * lb
  {
    var ha, la, hb, lb := Div(a, half), Mod(a, half), Div(b, half), Mod(b, half);
    InHalves(a, half);
    InHalves(b, half);
    HalvesProduct(ha, la, hb, lb, half);
    BelowSquare(la, lb, half);
    BelowSquare(la, hb, half);
    BelowSquare(ha, lb, half);
    assert ha * hb == 0 && (ha * lb == 0 || la * hb == 0);
  }

  lemma BothHigh(a: nat, b: nat, half: nat)
    requires half > 0 && a < half * half && b < half * half && Div(a, half) > 0 && Div(b, half) > 0
    ensures a * b >= half * half
  {
    InHalves(a, half);
    InHalves(b, half);
    MulMono(1, Div(a, half), half);
    MulMono(1, Div(b, half), half);
    MulMono(half, a, half);
    MulMono(half, b, a);
  }

  lemma WrapSmall(x: nat)
    requires x < Pow2(LONG_LENGTH)
    ensures Wrap(x) == x
  {
  }

  lemma SignedProduct(n: int, m: int, a: nat, b: nat, f: nat)
    requires a == (if n < 0 then -n else n) && b == (if m < 0 then -m else m)
    ensures n * m == (if (n < 0) == (m < 0) then a * b else -(a * b))
    ensures a * b < f <==> -(f as int) < n * m < f
  {
    MulMono(0, a, b);
  }

  /** The product of two fixnums from the halves of their magnitudes; nothing when its magnitude is out of range. */
  method Mul(n: int, m: int) returns (r: Option<int>)
    requires InRange(n) && InRange(m)
    ensures r.Some? <==> -(Pow2(FIXNUM_LENGTH) as int) < n * m < Pow2(FIXNUM_LENGTH)
    ensures r.Some? ==> r.value == n * m
  {
    hide Pow2, Div, Mod, Wrap, Middle;
    Sizes();
    var sign := (n < 0) == (m < 0);
    var a: nat := if n < 0 then -n else n;
    var b: nat := if m < 0 then -m else m;
    SignedProduct(n, m, a, b, Pow2(FIXNUM_LENGTH));
    var half := Pow2(HALF_WORD_SIZE);
    InHalves(a, half);
    InHalves(b, half);
    var hiA, hiB := Mod(Div(a, half), half), Mod(Div(b, half), half);
    if hiA > 0 && hiB > 0 {
      BothHigh(a, b, half);
      return None;
    }
    ProductParts(a, b, half);
    var loA, loB := Mod(a, half), Mod(b, half);
    MulMono(0, Middle(hiA, loA, hiB, loB), half);
    var loC := Wrap(loA * loB);
    WrapSmall(loA * loB);
    if loC >= Pow2(FIXNUM_LENGTH) {
      return None;
    }
    var middle := Wrap(Middle(hiA, loA, hiB, loB));
    WrapSmall(Middle(hiA, loA, hiB, loB));
    if middle >= Pow2(FIXNUM_LENGTH - HALF_WORD_SIZE) {
      MulMono(Pow2(FIXNUM_LENGTH - HALF_WORD_SIZE), middle, half);
      assert a * b >= Pow2(FIXNUM_LENGTH);
      return None;
    }
    var c := loC + middle * half;
    assert c == a * b;
    if c < Pow2(FIXNUM_LENGTH) {
      var datum := if sign || c == 0 then c else Pow2(FIXNUM_LENGTH + 1) - c;
      return Some(FixnumToLong(datum));
    }
    return None;
  }

  /** The least fixnum is no product for Mul, though it is a fixnum. */
  lemma LeastFixnum()
    ensures InRange(-(Pow2(FIXNUM_LENGTH) as int)) && InRange(1)
    ensures forall z: int | InRange(z) ::
              !(-(Pow2(FIXNUM_LENGTH) as int) < z < Pow2(FIXNUM_LENGTH)) <==> z == -(Pow2(FIXNUM_LENGTH) as int)
  {
    Pow2Grows(FIXNUM_LENGTH);
  }
}
