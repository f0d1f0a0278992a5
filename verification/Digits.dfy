/**
 Digits of the unlimited-precision integers of src/microcode/bignum.c, and the numbers they stand for.
 */
module Digits {
  import opened Common

  function Pow2(n: nat): (r: nat)
    ensures r >= 1
  {
    if n == 0 then 1 else 2 * Pow2(n - 1)
  }

  type HalfDigitBits = n: nat | 4 <= n witness 4

  /** The number of bits in half a digit: any number from four on. */
  const BIGNUM_HALF_DIGIT_LENGTH: HalfDigitBits

  const BIGNUM_DIGIT_LENGTH: Positive := 2 * BIGNUM_HALF_DIGIT_LENGTH
  const RADIX_ROOT: Positive := Pow2(BIGNUM_HALF_DIGIT_LENGTH)
  const RADIX: Positive := RADIX_ROOT * RADIX_ROOT

  lemma RootEven()
    ensures RADIX_ROOT >= 2 && RADIX_ROOT % 2 == 0
  {
    assert RADIX_ROOT == 2 * Pow2(BIGNUM_HALF_DIGIT_LENGTH - 1);
  }

  lemma SquareOfEven(h: nat)
    requires h >= 1
    ensures (2 * h) * (2 * h) == 2 * (h * (2 * h)) && h * (2 * h) >= 2 * h
  {
  }

  lemma RadixBound()
    ensures RADIX >= 4 && RADIX >= 2 * RADIX_ROOT && RADIX % 2 == 0
  {
    hide Pow2;
    RootEven();
    SquareOfEven(RADIX_ROOT / 2);
  }

  /** The low and high halves of a digit, and a digit from its halves. */
  function HdLow(d: nat): (r: nat)
    ensures r < RADIX_ROOT
  {
    d % RADIX_ROOT
  }

  function HdHigh(d: nat): nat {
    Div(d, RADIX_ROOT)
  }

  function Div(n: nat, d: Positive): nat {
    n / d
  }

  function Mod(n: nat, d: Positive): (r: nat)
    ensures r < d
  {
    n % d
  }

  function HdCons(high: nat, low: nat): nat
    requires low < RADIX_ROOT
  {
    high * RADIX_ROOT + low
  }

  lemma Halves(d: nat)
    ensures d == HdHigh(d) * RADIX_ROOT + HdLow(d)
    ensures d < RADIX ==> HdHigh(d) < RADIX_ROOT
  {
    if d < RADIX && HdHigh(d) >= RADIX_ROOT {
      assert HdHigh(d) * RADIX_ROOT >= RADIX_ROOT * RADIX_ROOT by { MulMono(RADIX_ROOT, HdHigh(d), RADIX_ROOT); }
      assert false;
    }
  }

  lemma ConsBound(high: nat, low: nat)
    requires high < RADIX_ROOT && low < RADIX_ROOT
    ensures HdCons(high, low) < RADIX
  {
    MulMono(high + 1, RADIX_ROOT, RADIX_ROOT);
    assert (high + 1) * RADIX_ROOT == high * RADIX_ROOT + RADIX_ROOT;
  }

  lemma MulOut(a: int, b: int, c: int, d: int)
    ensures a * (b + c * d) == a * b + (a * c) * d
  {
    assert a * (c * d) == (a * c) * d;
  }

  lemma MulMono(a: nat, b: nat, c: nat)
    requires a <= b
    ensures a * c <= b * c && c * a <= c * b
  {
  }

  lemma MulStrict(a: nat, b: nat, c: nat)
    requires a < b && c > 0
    ensures a * c < b * c && c * a < c * b
  {
    MulMono(a + 1, b, c);
  }

  lemma NextTimes(x: int, r: int)
    ensures (x + 1) * r == x * r + r
  {
  }

  /** The number with the given digits, least significant first. */
  function Val(s: seq<nat>): nat {
    if s == [] then 0 else s[0] + RADIX * Val(s[1..])
  }

  function Pow(n: nat): (r: nat)
    ensures r >= 1
  {
    if n == 0 then 1 else RADIX * Pow(n - 1)
  }

  predicate AllDigits(s: seq<nat>) {
    forall i | 0 <= i < |s| :: s[i] < RADIX
  }

  lemma {:induction false} PowAdd(m: nat, n: nat)
    ensures Pow(m + n) == Pow(m) * Pow(n)
  {
    if m == 0 {
    } else {
      PowAdd(m - 1, n);
      assert RADIX * (Pow(m - 1) * Pow(n)) == (RADIX * Pow(m - 1)) * Pow(n);
    }
  }

  lemma {:induction false} ValAppend(s: seq<nat>, t: seq<nat>)
    ensures Val(s + t) == Val(s) + Pow(|s|) * Val(t)
  {
    if s == [] {
      assert s + t == t;
    } else {
      ValAppend(s[1..], t);
      assert (s + t)[1..] == s[1..] + t;
      MulOut(RADIX, Val(s[1..]), Pow(|s| - 1), Val(t));
    }
  }

  lemma ValOne(d: nat)
    ensures Val([d]) == d
  {
    assert [d][1..] == [];
  }

  lemma ValCons(d: nat, s: seq<nat>)
    ensures Val([d] + s) == d + RADIX * Val(s)
  {
    assert ([d] + s)[1..] == s;
  }

  lemma ValSnoc(s: seq<nat>, d: nat)
    ensures Val(s + [d]) == Val(s) + Pow(|s|) * d
  {
    ValAppend(s, [d]);
    ValOne(d);
  }

  /** The value of one digit more of a sequence. */
  lemma ValNext(s: seq<nat>, i: nat)
    requires i < |s|
    ensures Val(s[..i + 1]) == Val(s[..i]) + Pow(i) * s[i]
  {
    assert s[..i + 1] == s[..i] + [s[i]];
    ValSnoc(s[..i], s[i]);
  }

  lemma {:induction false} ValBound(s: seq<nat>)
    requires AllDigits(s)
    ensures Val(s) < Pow(|s|)
  {
    if s != [] {
      ValBound(s[1..]);
      MulMono(Val(s[1..]) + 1, Pow(|s| - 1), RADIX);
      assert RADIX * (Val(s[1..]) + 1) == RADIX * Val(s[1..]) + RADIX;
    }
  }

  lemma {:induction false} ValZeros(s: seq<nat>)
    requires forall i | 0 <= i < |s| :: s[i] == 0
    ensures Val(s) == 0
  {
    if s != [] { ValZeros(s[1..]); }
  }

  /** A number whose top digit is not zero is at least that power of the radix. */
  lemma ValTop(s: seq<nat>)
    requires s != [] && s[|s| - 1] != 0
    ensures Val(s) >= Pow(|s| - 1) && Val(s) > 0
  {
    var n := |s| - 1;
    assert s == s[..n] + [s[n]];
    ValSnoc(s[..n], s[n]);
    MulMono(1, s[n], Pow(n));
  }

  lemma PowMono(m: nat, n: nat)
    requires m <= n
    ensures Pow(m) <= Pow(n)
  {
    PowAdd(m, n - m);
    MulMono(1, Pow(n - m), Pow(m));
  }

  /** Numbers of equal length with equal values have equal digits. */
  lemma {:induction false} ValInjective(s: seq<nat>, t: seq<nat>)
    requires AllDigits(s) && AllDigits(t) && |s| == |t| && Val(s) == Val(t)
    ensures s == t
  {
    if s != [] {
      DivUnique(RADIX, Val(s[1..]), s[0], Val(t[1..]), t[0]);
      ValInjective(s[1..], t[1..]);
      assert s == [s[0]] + s[1..] && t == [t[0]] + t[1..];
    }
  }

  /** Quotient and remainder are determined. */
  lemma DivUnique(b: nat, q: int, r: int, q': int, r': int)
    requires b > 0 && 0 <= r < b && 0 <= r' < b && b * q + r == b * q' + r'
    ensures q == q' && r == r'
  {
    if q < q' {
      assert b * q' == b * q + b * (q' - q);
      MulMono(1, q' - q, b);
    } else if q > q' {
      assert b * q == b * q' + b * (q - q');
      MulMono(1, q - q', b);
    }
  }

  lemma QuotientUnique(n: nat, v: nat, q: nat, r: nat)
    requires q * v + r == n && r < v
    ensures q == n / v && r == n % v
  {
    DivUnique(v, q, r, n / v, n % v);
  }
}
