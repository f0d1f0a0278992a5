/**
 Division of bignums: the loop over the digits of the quotient, and the signed operations.
 */
module BignumQuotients {
  import opened Digits
  import opened Bits
  import opened Bignums
  import opened BignumDigitwiseDivision
  import opened BignumLongDivision

  // ----- all digits of the quotient -----

  /**
   After the digits qs of the quotient, u holds what is left of the numerator n: below v from digit j on, and
   nothing above.
   */
  ghost predicate DividedDownTo(n: nat, v: seq<nat>, u: seq<nat>, j: nat, qs: seq<nat>) {
    && AllDigits(u) && AllDigits(qs) && j + |v| + |qs| == |u|
    && Val(u) + Pow(j) * (Val(qs) * Val(v)) == n
    && Val(u[j..j + |v|]) < Val(v)
    && forall k | j + |v| <= k < |u| :: u[k] == 0
  }

  lemma InThree(u: seq<nat>, i: nat, m: nat)
    requires i + m <= |u|
    ensures Val(u) == Val(u[..i]) + Pow(i) * Val(u[i..i + m]) + Pow(i + m) * Val(u[i + m..])
  {
    hide Val;
    assert u == u[..i + m] + u[i + m..] && u[..i + m] == u[..i] + u[i..i + m];
    ValAppend(u[..i + m], u[i + m..]);
    ValAppend(u[..i], u[i..i + m]);
  }

  lemma QuotientDigit(p: int, b: int, q: int, qs: int, v: int, was: int, now: int)
    requires was - now == q * v
    ensures p * now + p * ((q + b * qs) * v) == p * was + (b * p) * (qs * v)
  {
    assert (q + b * qs) * v == q * v + b * (qs * v);
    assert p * (q * v + b * (qs * v)) == p * (q * v) + p * (b * (qs * v));
    assert p * (b * (qs * v)) == (b * p) * (qs * v);
    assert p * was == p * (now + q * v);
  }

  /** One digit of the quotient more. */
  lemma DividedNext(n: nat, v: seq<nat>, was: seq<nat>, now: seq<nat>, j: nat, qs: seq<nat>, q: nat)
    requires DividedDownTo(n, v, was, j + 1, qs)
    requires |now| == |was| && AllDigits(now) && q < RADIX && now[..j] == was[..j]
    requires now[j + |v| + 1..] == was[j + |v| + 1..] && now[j + |v|] == 0
    requires Val(now[j..j + |v|]) == Val(was[j..j + |v| + 1]) - q * Val(v) && Val(now[j..j + |v|]) < Val(v)
    ensures DividedDownTo(n, v, now, j, [q] + qs)
  {
    hide Val;
    var m := |v|;
    InThree(was, j, m + 1);
    InThree(now, j, m + 1);
    WindowTop(now, j, m);
    ValCons(q, qs);
    assert Val(now[j..j + m + 1]) == Val(now[j..j + m]);
    QuotientDigit(Pow(j), RADIX, q, Val(qs), Val(v), Val(was[j..j + m + 1]), Val(now[j..j + m + 1]));
    assert Pow(j + 1) == RADIX * Pow(j);
    forall k | j + m <= k < |now| ensures now[k] == 0 {
      if k > j + m { assert now[k] == now[j + m + 1..][k - (j + m + 1)] == was[k]; }
    }
  }

  lemma WindowSplit(u: seq<nat>, j: nat, m: nat)
    requires j + 1 + m <= |u| && AllDigits(u)
    ensures u[j..j + m + 1] == [u[j]] + u[j + 1..j + 1 + m] && AllDigits(u[j..j + m + 1])
    ensures u[j..j + m + 1][1..] == u[j + 1..j + 1 + m]
  {
  }

  lemma DividedEnd(n: nat, v: seq<nat>, u: seq<nat>, qs: seq<nat>)
    requires DividedDownTo(n, v, u, 0, qs)
    ensures AllDigits(qs) && AllDigits(u)
    ensures Val(qs) == n / Val(v) && Val(u) == n % Val(v)
  {
    hide Val;
    InThree(u, 0, |v|);
    assert u[..0] == [];
    ValZeros(u[|v|..]);
    ValZeros([]);
    assert Pow(0) * Val(u[0..|v|]) == Val(u[0..|v|]) && Pow(|v|) * 0 == 0;
    assert Pow(0) * (Val(qs) * Val(v)) == Val(qs) * Val(v);
    QuotientUnique(n, Val(v), Val(qs), Val(u));
  }

  predicate NormalizedDivisor(v: seq<nat>) {
    AllDigits(v) && |v| >= 2 && v[|v| - 1] >= RADIX / 2
  }

  /** Divides u by v in place, leaving the remainder, and stores the quotient into q if there is one. */
  method BignumDivideUnsignedNormalized(u: array<nat>, v: seq<nat>, q: array?<nat>)
    requires AllDigits(u[..]) && NormalizedDivisor(v) && |v| <= u.Length && q != u
    requires Val(u[u.Length - |v|..]) < Val(v)
    requires q != null ==> q.Length == u.Length - |v|
    modifies u
    modifies if q == null then {} else {q}
    ensures AllDigits(u[..]) && Val(u[..]) == old(Val(u[..])) % Val(v)
    ensures q != null ==> AllDigits(q[..]) && Val(q[..]) == old(Val(u[..])) / Val(v)
  {
    hide Val, Pow, DividedDownTo;
    RadixBound();
    var m := |v|;
    ghost var n := Val(u[..]);
    ghost var qs: seq<nat> := [];
    var j := u.Length - m;
    DividedStart(v, u[..]);
    while 0 < j
      invariant 0 <= j <= u.Length - m
      invariant |qs| == u.Length - m - j
      invariant DividedDownTo(n, v, u[..], j, qs)
      invariant q != null ==> q[j..] == qs
    {
      j := j - 1;
      ghost var was := u[..];
      DividedWindow(n, v, was, j, qs);
      ghost var w := was[j..j + m + 1];
      var guess := EstimateDigit(u[j + m], u[j + m - 1], u[j + m - 2], v[m - 1], v[m - 2], w, v);
      assert u[..][j..j + m + 1] == u[j..j + m + 1];
      var qj := BignumDivideSubtract(v, guess, u, j);
      ghost var now := u[..];
      assert now[..j] == was[..j] && now[j + m + 1..] == was[j + m + 1..] && now[j..j + m] == u[j..j + m];
      DividedNext(n, v, was, now, j, qs, qj);
      if q != null {
        ghost var rest := q[j + 1..];
        q[j] := qj;
        assert q[j + 1..] == rest && q[j..] == [qj] + rest;
      }
      qs := [qj] + qs;
    }
    DividedEnd(n, v, u[..], qs);
    assert q != null ==> q[..] == q[0..];
  }

  lemma DividedStart(v: seq<nat>, u: seq<nat>)
    requires AllDigits(u) && |v| <= |u| && Val(u[|u| - |v|..]) < Val(v)
    ensures DividedDownTo(Val(u), v, u, |u| - |v|, [])
  {
    hide Val, Pow, AllDigits;
    var j := |u| - |v|;
    assert u[j..j + |v|] == u[j..];
    ValZeros([]);
    NothingYet(Pow(j), Val(v));
    assert AllDigits([]) by { NoDigits(); }
  }

  lemma NoDigits()
    ensures AllDigits([])
  {
  }

  lemma NothingYet(p: int, v: int)
    ensures p * (0 * v) == 0
  {
  }

  /** The next digits to divide. */
  lemma DividedWindow(n: nat, v: seq<nat>, u: seq<nat>, j: nat, qs: seq<nat>)
    requires NormalizedDivisor(v) && DividedDownTo(n, v, u, j + 1, qs)
    ensures AllDigits(u)
    ensures Windowed(u[j..j + |v| + 1], v) && Val(u[j..j + |v| + 1][1..]) < Val(v)
  {
    RadixBound();
    WindowSplit(u, j, |v|);
  }

  // ----- denominators of two digits and more -----

  lemma ScaledTop(d: seq<nat>, s: nat, v: seq<nat>, top: nat)
    requires AllDigits(d) && AllDigits(v) && |d| == |v| >= 2 && Val(v) == Val(d) * s
    requires top == d[|d| - 1] * s && top >= RADIX / 2
    ensures NormalizedDivisor(v) && v[|v| - 1] >= top
  {
    hide Val;
    var n := |d| - 1;
    ValNext(d, n);
    ValNext(v, n);
    assert d[..n + 1] == d && v[..n + 1] == v;
    ValBound(v[..n]);
    TopArithmetic(Pow(n), Val(d[..n]), d[n], s, Val(v[..n]), v[n]);
  }

  lemma TopArithmetic(p: nat, lowD: nat, d: nat, s: nat, lowV: nat, v: nat)
    requires (lowD + p * d) * s == lowV + p * v && lowV < p
    ensures v >= d * s
  {
    assert (lowD + p * d) * s == lowD * s + p * (d * s);
    MulMono(0, lowD, s);
    if v < d * s {
      assert p * (v + 1) == p * v + p;
      MulMono(v + 1, d * s, p);
    }
  }

  /** A denominator shifted until its top bit is set still fits. */
  lemma ScaledFits(d: seq<nat>, shift: nat)
    requires AllDigits(d) && d != [] && shift <= BIGNUM_DIGIT_LENGTH && d[|d| - 1] * Pow2(shift) < RADIX
    ensures Val(d) * Pow2(shift) < Pow(|d|)
  {
    hide Val, Pow2, RADIX;
    var n, s, p := |d| - 1, Pow2(shift), Pow2(BIGNUM_DIGIT_LENGTH - shift);
    RadixSplit(shift);
    assert d[n] < p by { if d[n] >= p { MulMono(p, d[n], s); } }
    ValNext(d, n);
    assert d[..n + 1] == d;
    ValBound(d[..n]);
    ScaledBelow(Val(d[..n]), Pow(n), d[n], p, s, RADIX);
  }

  lemma ScaledBelow(low: nat, pn: nat, top: nat, p: nat, s: nat, b: nat)
    requires low < pn && top < p && b == s * p && s > 0
    ensures (low + pn * top) * s < b * pn
  {
    MulMono(top + 1, p, pn);
    assert pn * (top + 1) == pn * top + pn;
    var all, most: nat := pn * p, low + pn * top;
    MulStrict(most, all, s);
    assert all * s == (s * p) * pn;
  }

  /** The top digits of the numerator are below the denominator. */
  lemma TopBelow(u: seq<nat>, v: seq<nat>)
    requires AllDigits(u) && AllDigits(v) && 0 < |v| <= |u| && u[|u| - 1] < v[|v| - 1]
    ensures Val(u[|u| - |v|..]) < Val(v)
  {
    var t := u[|u| - |v|..];
    assert t[|v|..] == v[|v|..] == [];
    CompareAt(t, v, |v| - 1);
  }

  method BignumDivideUnsignedLargeDenominator(numerator: Bignum, denominator: Bignum, quotient: bool, remainder: bool,
                                              qNegative: bool, rNegative: bool)
    returns (q: Bignum, r: Bignum)
    requires Normal(numerator) && Normal(denominator) && 2 <= denominator.Length() <= numerator.Length() + 1
    requires denominator.Magnitude() > 0
    ensures quotient ==> Normal(q) && q.Magnitude() == numerator.Magnitude() / denominator.Magnitude()
    ensures quotient ==> q.negative == (qNegative && !q.IsZero())
    ensures remainder ==> Normal(r) && r.Magnitude() == numerator.Magnitude() % denominator.Magnitude()
    ensures remainder ==> r.negative == (rNegative && !r.IsZero())
  {
    hide Val, Pow, Pow2;
    RadixBound();
    var lengthN, lengthD := numerator.Length() + 1, denominator.Length();
    var qDigits: array?<nat> := null;
    if quotient { qDigits := new nat[lengthN - lengthD]; }
    var u := new nat[lengthN];
    var v1, shift := NormalizeDigit(denominator.digits[lengthD - 1]);
    ghost var s := Pow2(shift);
    ScaledDivision(numerator.Magnitude(), denominator.Magnitude(), s);
    if shift == 0 {
      CopyWithZero(numerator.digits, u);
      ScaleByOne(numerator.Magnitude(), denominator.Magnitude());
      TopBelow(u[..], denominator.digits);
      assert u[..][u.Length - lengthD..] == u[u.Length - lengthD..];
      BignumDivideUnsignedNormalized(u, denominator.digits, qDigits);
    } else {
      var v := new nat[lengthD];
      BignumDestructiveNormalization(numerator.digits, u, shift);
      ScaledFits(denominator.digits, shift);
      BignumDestructiveNormalization(denominator.digits, v, shift);
      ScaledTop(denominator.digits, s, v[..], v1);
      MulMono(1, denominator.digits[lengthD - 1], s);
      TopBelow(u[..], v[..]);
      assert u[..][u.Length - lengthD..] == u[u.Length - lengthD..];
      BignumDivideUnsignedNormalized(u, v[..], qDigits);
      if remainder { BignumDestructiveUnnormalization(u, shift); }
    }
    q, r := BIGNUM_ZERO, BIGNUM_ZERO;
    if quotient { q := BignumTrim(qDigits, qNegative); }
    if remainder { r := BignumTrim(u, rNegative); }
  }

  lemma ScaleByOne(n: nat, v: nat)
    ensures Pow2(0) == 1 && n * Pow2(0) == n && v * Pow2(0) == v
  {
  }

  method CopyWithZero(source: seq<nat>, target: array<nat>)
    requires AllDigits(source) && target.Length == |source| + 1
    modifies target
    ensures AllDigits(target[..]) && Val(target[..]) == Val(source) && target[|source|] == 0
  {
    forall i | 0 <= i < |source| { target[i] := source[i]; }
    target[|source|] := 0;
    assert target[..] == source + [0];
    ValSnoc(source, 0);
    RadixBound();
  }

  // ----- signed division -----

  function Abs(n: int): nat {
    if n < 0 then -n else n
  }

  /** Quotient and remainder truncated towards zero: the remainder has the sign of the numerator. */
  predicate Truncates(n: int, d: int, q: int, r: int) {
    n == q * d + r && Abs(r) < Abs(d) && (r < 0 ==> n < 0) && (r > 0 ==> n > 0)
  }

  function Quotient(n: int, d: int): int
    requires d != 0
  {
    if (n < 0) == (d < 0) then Abs(n) / Abs(d) else -(Abs(n) / Abs(d))
  }

  function Remainder(n: int, d: int): int
    requires d != 0
  {
    if n < 0 then -(Abs(n) % Abs(d)) else Abs(n) % Abs(d)
  }

  lemma SignsOut(q: int, d: int)
    ensures (-q) * d == -(q * d) && q * (-d) == -(q * d) && (-q) * (-d) == q * d
  {
  }

  lemma FromAbsolute(n: int, d: int, q: int, r: int)
    requires d != 0 && q >= 0 && Abs(n) == q * Abs(d) + r && 0 <= r < Abs(d)
    ensures Truncates(n, d, if (n < 0) == (d < 0) then q else -q, if n < 0 then -r else r)
  {
    SignsOut(q, d);
    MulMono(0, q, Abs(d));
    if d < 0 { assert q * Abs(d) == q * (-d); } else { assert q * Abs(d) == q * d; }
  }

  lemma QuotientTruncates(n: int, d: int)
    requires d != 0
    ensures Truncates(n, d, Quotient(n, d), Remainder(n, d))
  {
    hide Truncates;
    var a: nat, b: nat := Abs(n), Abs(d);
    assert b > 0;
    hide Abs;
    var q, r := a / b, a % b;
    DivMod(a, b);
    DivSign(a, b);
    FromAbsolute(n, d, q, r);
  }

  lemma DivSign(a: nat, b: nat)
    requires b > 0
    ensures a / b >= 0
  {
  }

  /** No other numbers do. */
  lemma TruncatesUnique(n: int, d: int, q: int, r: int)
    requires d != 0 && Truncates(n, d, q, r)
    ensures q == Quotient(n, d) && r == Remainder(n, d)
  {
    QuotientTruncates(n, d);
    var q', r' := Quotient(n, d), Remainder(n, d);
    Difference(q, q', d);
    Difference(q', q, d);
    assert Abs(r' - r) < Abs(d) && Abs(r - r') < Abs(d);
    if q - q' >= 1 { SmallMultiple(q - q', d); }
    if q' - q >= 1 { SmallMultiple(q' - q, d); }
  }

  lemma Difference(a: int, b: int, d: int)
    ensures (a - b) * d == a * d - b * d
  {
  }

  lemma SmallMultiple(k: int, d: int)
    requires k >= 1
    ensures Abs(k * d) >= Abs(d)
  {
    if d < 0 { MulMono(1, k, -d); SignsOut(k, d); } else { MulMono(1, k, d); }
  }

  lemma FromMagnitudes(n: Bignum, d: Bignum)
    requires Normal(n) && Normal(d) && !d.IsZero()
    ensures d.Value() != 0 && d.Magnitude() > 0
    ensures Abs(n.Value()) == n.Magnitude() && Abs(d.Value()) == d.Magnitude()
    ensures n.IsZero() <==> n.Value() == 0
    ensures n.negative <==> n.Value() < 0
    ensures d.negative <==> d.Value() < 0
  {
    TrimmedZero(n.digits);
    TrimmedZero(d.digits);
  }

  lemma EqualOrLess(n: nat, d: nat)
    requires 0 < d
    ensures n == d ==> n / d == 1 && n % d == 0
    ensures n < d ==> n / d == 0 && n % d == n
    ensures d == 1 ==> n / d == n && n % d == 0
  {
    if n == d { QuotientUnique(n, d, 1, 0); }
    if n < d { QuotientUnique(n, d, 0, n); }
  }

  lemma LongerOrEqual(x: Bignum, y: Bignum)
    requires Trimmed(x.digits) && Trimmed(y.digits) && x.Magnitude() <= y.Magnitude()
    ensures x.Length() <= y.Length()
  {
    if x.Length() > y.Length() { TrimmedLength(y.digits, x.digits); }
  }

  datatype Division = DivideByZero | Divided(quotient: Bignum, remainder: Bignum)

  method BignumDivide(numerator: Bignum, denominator: Bignum) returns (b: Division)
    requires Normal(numerator) && Normal(denominator)
    ensures b.DivideByZero? <==> denominator.Value() == 0
    ensures b.Divided? ==> Normal(b.quotient) && Normal(b.remainder)
    ensures b.Divided? ==> Truncates(numerator.Value(), denominator.Value(), b.quotient.Value(), b.remainder.Value())
  {
    hide Val;
    TrimmedZero(denominator.digits);
    if denominator.IsZero() { return DivideByZero; }
    FromMagnitudes(numerator, denominator);
    QuotientTruncates(numerator.Value(), denominator.Value());
    EqualOrLess(numerator.Magnitude(), denominator.Magnitude());
    if numerator.IsZero() { return Divided(numerator, numerator); }
    var rNegative := numerator.negative;
    var qNegative := if denominator.negative then !rNegative else rNegative;
    TrimmedZero([]);
    var c := BignumCompareUnsigned(numerator, denominator);
    var q, r;
    if c == Equal {
      q, r := BignumOne(qNegative), BIGNUM_ZERO;
    } else if c == Less {
      q, r := BIGNUM_ZERO, numerator;
    } else {
      LongerOrEqual(denominator, numerator);
      q, r := DivideGreater(numerator, denominator, qNegative, rNegative);
    }
    b := Divided(q, r);
  }

  /** The case of a numerator above the denominator: by the size of the denominator. */
  method DivideGreater(numerator: Bignum, denominator: Bignum, qNegative: bool, rNegative: bool)
    returns (q: Bignum, r: Bignum)
    requires Normal(numerator) && Normal(denominator) && 0 < denominator.Length() <= numerator.Length()
    requires 0 < denominator.Magnitude() && !numerator.IsZero()
    ensures Normal(q) && q.Magnitude() == numerator.Magnitude() / denominator.Magnitude()
    ensures Normal(r) && r.Magnitude() == numerator.Magnitude() % denominator.Magnitude()
    ensures q.negative == (qNegative && !q.IsZero()) && r.negative == (rNegative && !r.IsZero())
  {
    hide Val;
    if denominator.Length() == 1 {
      var digit := denominator.digits[0];
      assert denominator.digits == [digit];
      ValOne(digit);
      if digit == 1 {
        TrimmedZero([]);
        EqualOrLess(numerator.Magnitude(), 1);
        return BignumNewSign(numerator, qNegative), BIGNUM_ZERO;
      } else if digit < RADIX_ROOT {
        q, r := BignumDivideUnsignedSmallDenominator(numerator, digit, qNegative, rNegative);
      } else {
        q, r := BignumDivideUnsignedMediumDenominator(numerator, digit, true, true, qNegative, rNegative);
      }
    } else {
      q, r := BignumDivideUnsignedLargeDenominator(numerator, denominator, true, true, qNegative, rNegative);
    }
  }

  datatype OutOfBand = OutOfBand | Number(value: Bignum)

  method BignumQuotient(numerator: Bignum, denominator: Bignum) returns (b: OutOfBand)
    requires Normal(numerator) && Normal(denominator)
    ensures b.OutOfBand? <==> denominator.Value() == 0
    ensures b.Number? ==> Normal(b.value) && b.value.Value() == Quotient(numerator.Value(), denominator.Value())
  {
    hide Val;
    TrimmedZero(denominator.digits);
    if denominator.IsZero() { return OutOfBand; }
    FromMagnitudes(numerator, denominator);
    EqualOrLess(numerator.Magnitude(), denominator.Magnitude());
    if numerator.IsZero() { return Number(numerator); }
    var qNegative := if denominator.negative then !numerator.negative else numerator.negative;
    TrimmedZero([]);
    var c := BignumCompareUnsigned(numerator, denominator);
    var q;
    if c == Equal {
      q := BignumOne(qNegative);
    } else if c == Less {
      q := BIGNUM_ZERO;
    } else if denominator.Length() == 1 {
      var digit := denominator.digits[0];
      assert denominator.digits == [digit];
      ValOne(digit);
      var r;
      if digit == 1 {
        q := BignumNewSign(numerator, qNegative);
      } else if digit < RADIX_ROOT {
        q, r := BignumDivideUnsignedSmallDenominator(numerator, digit, qNegative, false);
      } else {
        q, r := BignumDivideUnsignedMediumDenominator(numerator, digit, true, false, qNegative, false);
      }
    } else {
      LongerOrEqual(denominator, numerator);
      var r;
      q, r := BignumDivideUnsignedLargeDenominator(numerator, denominator, true, false, qNegative, false);
    }
    b := Number(q);
  }

  /** What is above the low digit does not matter to a divisor of the radix. */
  lemma LowDigitOnly(digit: nat, rest: nat, d: nat, p: nat)
    requires d > 0 && RADIX == d * p
    ensures (digit + RADIX * rest) % d == digit % d
  {
    var q, r := digit / d, digit % d;
    DivMod(digit, d);
    assert RADIX * rest == (p * rest) * d;
    assert (q + p * rest) * d == q * d + (p * rest) * d;
    QuotientUnique(digit + RADIX * rest, d, q + p * rest, r);
  }

  /** The remainder by a power of two that fits a digit is in the low digit. */
  lemma LowDigitRemainder(s: seq<nat>, d: nat)
    requires AllDigits(s) && s != [] && 0 < d < RADIX && Bitwise(AND, d, d - 1) == 0
    ensures Bitwise(AND, d - 1, s[0]) == Val(s) % d && Val(s) % d < RADIX
  {
    hide Bitwise, Pow2;
    var k := PowerOfTwo(d);
    RadixPow2();
    if k > BIGNUM_DIGIT_LENGTH { Pow2Mono(BIGNUM_DIGIT_LENGTH, k); }
    AndMask(s[0], k);
    BitwiseSwapped(AND, d - 1, s[0]);
    RadixSplit(k);
    LowDigitOnly(s[0], Val(s[1..]), d, Pow2(BIGNUM_DIGIT_LENGTH - k));
  }

  method BignumRemainder(numerator: Bignum, denominator: Bignum) returns (b: OutOfBand)
    requires Normal(numerator) && Normal(denominator)
    ensures b.OutOfBand? <==> denominator.Value() == 0
    ensures b.Number? ==> Normal(b.value) && b.value.Value() == Remainder(numerator.Value(), denominator.Value())
  {
    hide Val, Bitwise;
    TrimmedZero(denominator.digits);
    if denominator.IsZero() { return OutOfBand; }
    FromMagnitudes(numerator, denominator);
    EqualOrLess(numerator.Magnitude(), denominator.Magnitude());
    if numerator.IsZero() { return Number(numerator); }
    TrimmedZero([]);
    var c := BignumCompareUnsigned(numerator, denominator);
    if c == Equal {
      return Number(BIGNUM_ZERO);
    } else if c == Less {
      return Number(numerator);
    }
    var q, r;
    if denominator.Length() == 1 {
      var digit := denominator.digits[0];
      assert denominator.digits == [digit];
      ValOne(digit);
      if Bitwise(AND, digit, digit - 1) == 0 {
        var unsignedRemainder := Bitwise(AND, digit - 1, numerator.digits[0]);
        LowDigitRemainder(numerator.digits, digit);
        if unsignedRemainder == 0 { return Number(BIGNUM_ZERO); }
        return Number(BignumDigitToBignum(unsignedRemainder, numerator.negative));
      }
      if digit < RADIX_ROOT {
        if digit == 1 { AndZero(1); }
        r := BignumRemainderUnsignedSmallDenominator(numerator, digit, numerator.negative);
        return Number(r);
      }
      q, r := BignumDivideUnsignedMediumDenominator(numerator, digit, false, true, false, numerator.negative);
    } else {
      LongerOrEqual(denominator, numerator);
      q, r := BignumDivideUnsignedLargeDenominator(numerator, denominator, false, true, false, numerator.negative);
    }
    b := Number(r);
  }

  /** The three operations agree. */
  lemma OperationsAgree(n: int, d: int, q: int, r: int)
    requires d != 0
    ensures Truncates(n, d, q, r) <==> q == Quotient(n, d) && r == Remainder(n, d)
  {
    QuotientTruncates(n, d);
    if Truncates(n, d, q, r) { TruncatesUnique(n, d, q, r); }
  }
}
