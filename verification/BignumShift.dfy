/**
 Shifts of bignums: left multiplies by a power of two, right divides by one and rounds down.
 */
module BignumShifts {
  import opened Digits
  import opened Bits
  import opened Bignums
  import opened BignumDigitwiseDivision
  import opened BignumStreams
  import opened BignumBitwise

  // ----- powers of two and lengths -----

  /** Shifting by whole digits and then by bits. */
  lemma ShiftAmount(digits: nat, bits: nat)
    ensures Pow2(digits * BIGNUM_DIGIT_LENGTH + bits) == Pow(digits) * Pow2(bits)
  {
    PowIsPow2(digits);
    Pow2Add(digits * BIGNUM_DIGIT_LENGTH, bits);
  }

  lemma LengthInBitsUnique(x: nat, n: nat)
    requires n > 0 && Pow2(n - 1) <= x < Pow2(n)
    ensures LengthInBits(x) == n
  {
    LengthInBitsExact(x);
    var k := LengthInBits(x);
    if k < n { Pow2Mono(k, n - 1); }
    if k > n { Pow2Mono(n, k - 1); }
  }

  lemma ShiftedLength(x: nat, m: nat)
    requires x > 0
    ensures LengthInBits(x * Pow2(m)) == LengthInBits(x) + m
  {
    LengthInBitsExact(x);
    var k := LengthInBits(x);
    Pow2Add(k - 1, m);
    Pow2Add(k, m);
    MulMono(Pow2(k - 1), x, Pow2(m));
    MulStrict(x, Pow2(k), Pow2(m));
    LengthInBitsUnique(x * Pow2(m), k + m);
  }

  lemma CeilingUnique(n: nat, len: nat)
    requires n > 0 && len > 0 && (len - 1) * BIGNUM_DIGIT_LENGTH < n <= len * BIGNUM_DIGIT_LENGTH
    ensures BitsToDigits(n) == len
  {
    var d := BIGNUM_DIGIT_LENGTH;
    NextTimes(len - 1, d);
    QuotientUnique(n + (d - 1), d, len, n + (d - 1) - len * d);
  }

  /** A trimmed number has as many digits as its bits need. */
  lemma LengthFromBits(s: seq<nat>)
    requires Trimmed(s) && s != []
    ensures |s| == BitsToDigits(LengthInBits(Val(s)))
  {
    var n := LengthInBits(Val(s));
    ValTop(s);
    ValBound(s);
    LengthInBitsExact(Val(s));
    PowIsPow2(|s| - 1);
    PowIsPow2(|s|);
    if (|s| - 1) * BIGNUM_DIGIT_LENGTH >= n { Pow2Mono(n, (|s| - 1) * BIGNUM_DIGIT_LENGTH); }
    if n > |s| * BIGNUM_DIGIT_LENGTH { Pow2Mono(|s| * BIGNUM_DIGIT_LENGTH, n - 1); }
    CeilingUnique(n, |s|);
  }

  /** The bits of a number from those of its top digit. */
  lemma BitsFromTop(s: seq<nat>)
    requires Trimmed(s) && s != []
    ensures LengthInBits(Val(s)) == (|s| - 1) * BIGNUM_DIGIT_LENGTH + LengthInBits(s[|s| - 1])
  {
    hide Val, Pow, Pow2, LengthInBits, RADIX, RADIX_ROOT;
    var n: nat := |s| - 1;
    var d: nat := s[n];
    LengthInBitsExact(d);
    var k: nat := LengthInBits(d);
    ValNext(s, n);
    assert s[..n + 1] == s;
    ValBound(s[..n]);
    MulMono(0, n, BIGNUM_DIGIT_LENGTH);
    var whole: nat := n * BIGNUM_DIGIT_LENGTH;
    ShiftAmount(n, k);
    ShiftAmount(n, k - 1);
    Between(Val(s[..n]), Pow(n), d, Pow2(k - 1), Pow2(k));
    LengthInBitsUnique(Val(s), whole + k);
  }

  lemma Between(low: nat, w: nat, d: nat, a: nat, b: nat)
    requires low < w && a <= d < b
    ensures w * a <= low + w * d < w * b
  {
    MulMono(a, d, w);
    MulMono(d + 1, b, w);
    assert w * (d + 1) == w * d + w;
  }

  // ----- left -----

  lemma MaskedShift(digit: nat, shift: nat)
    requires digit < RADIX && 0 < shift < BIGNUM_DIGIT_LENGTH
    ensures var p := Pow2(BIGNUM_DIGIT_LENGTH - shift);
      Bitwise(AND, digit * Pow2(shift), RADIX - 1) == (digit % p) * Pow2(shift)
  {
    hide Bitwise, Pow2;
    var p: nat, s: nat := Pow2(BIGNUM_DIGIT_LENGTH - shift), Pow2(shift);
    RadixSplit(shift);
    RadixPow2();
    MulMono(0, digit, s);
    var x: nat := digit * s;
    AndMask(x, BIGNUM_DIGIT_LENGTH);
    ModOfShifted(digit, p, s, RADIX);
  }

  lemma ModOfShifted(n: nat, p: nat, s: nat, b: nat)
    requires p > 0 && s > 0 && b == s * p
    ensures (n * s) % b == (n % p) * s && (n * s) / b == n / p
  {
    var h: nat, l: nat := n / p, n % p;
    DivMod(n, p);
    Distribute(p, h, l, s);
    MulStrict(l, p, s);
    QuotientUnique(n * s, b, h, l * s);
  }

  /** One digit shifted left over the bits that come in from below, and the bits that go up. */
  function ShiftDigitLeft(digit: nat, temp: nat, shift: nat): (r: (nat, nat))
    requires digit < RADIX && 0 < shift < BIGNUM_DIGIT_LENGTH && temp < Pow2(shift)
    ensures r.0 < RADIX && r.1 < Pow2(shift)
    ensures r.0 + RADIX * r.1 == digit + (Pow2(shift) - 1) * digit + temp
  {
    MulMono(0, digit, Pow2(shift));
    ShiftedDigit(digit, temp, shift);
    (Bitwise(IOR, Bitwise(AND, digit * Pow2(shift), RADIX - 1), temp), Div(digit, Pow2(BIGNUM_DIGIT_LENGTH - shift)))
  }

  lemma ShiftedDigit(digit: nat, temp: nat, shift: nat)
    requires digit < RADIX && 0 < shift < BIGNUM_DIGIT_LENGTH && temp < Pow2(shift)
    ensures var d := Bitwise(IOR, Bitwise(AND, digit * Pow2(shift), RADIX - 1), temp);
      var up := Div(digit, Pow2(BIGNUM_DIGIT_LENGTH - shift));
      d < RADIX && up < Pow2(shift) && d + RADIX * up == digit + (Pow2(shift) - 1) * digit + temp
  {
    hide Bitwise, Pow2;
    var right := BIGNUM_DIGIT_LENGTH - shift;
    MaskedShift(digit, shift);
    RadixSplit(right);
    ShiftSplit(digit, temp, Pow2(right), Pow2(shift), RADIX);
    IorDisjoint(digit % Pow2(right), shift, temp);
  }

  lemma OneLessTimes(d: int, s: int)
    ensures d + (s - 1) * d == d * s
  {
  }

  method BignumShiftLeft(n: Bignum, m: nat) returns (b: Bignum)
    requires Normal(n)
    ensures Normal(b) && b.Value() == n.Value() * Pow2(m)
  {
    hide Val, Pow, Pow2, Bitwise, LengthInBits, BitsToDigits, DigitsFor, Div, Mod, RADIX, RADIX_ROOT;
    TrimmedZero(n.digits);
    NoShift(n.Value());
    if m == 0 || n.IsZero() { return n; }
    var ln := n.Length();
    var delta := LengthInBits(n.digits[ln - 1]);
    var zeroes, shift := Div(m, BIGNUM_DIGIT_LENGTH), Mod(m, BIGNUM_DIGIT_LENGTH);
    var ln2 := ln - 1 + DigitsFor(delta + m);
    var low: seq<nat> := seq(zeroes, _ => 0);
    var high: seq<nat>;
    if shift == 0 {
      high := n.digits;
    } else {
      high := ShiftDigitsLeft(n.digits, shift);
    }
    ShiftedWhole(n.digits, low, high, m);
    b := Bignum(n.negative, low + high);
    AllocatedExactly(n.digits, b.digits, m, ln2);
    TrimmedZero(b.digits);
    SignedShift(n.Magnitude(), Pow2(m));
  }

  lemma NoShift(z: int)
    ensures z * Pow2(0) == z && 0 * Pow2(0) == 0
  {
  }

  lemma SignedShift(n: int, p: int)
    ensures (-n) * p == -(n * p)
  {
  }

  method ShiftDigitsLeft(n: seq<nat>, shift: nat) returns (r: seq<nat>)
    requires Trimmed(n) && n != [] && 0 < shift < BIGNUM_DIGIT_LENGTH
    ensures Trimmed(r) && r != [] && Val(r) == Val(n) * Pow2(shift)
  {
    hide Val, Pow, Pow2, ShiftDigitLeft, SumSoFar, RADIX, RADIX_ROOT;
    r := [];
    var temp: nat := 0;
    var scan := 0;
    Pow2Positive(shift);
    SumStart(n, n, Pow2(shift) - 1);
    while scan < |n|
      invariant 0 <= scan <= |n| && |r| == scan && temp < Pow2(shift)
      invariant SumSoFar(n, n, Pow2(shift) - 1, r, temp)
    {
      var step := ShiftDigitLeft(n[scan], temp, shift);
      SumNext(n, n, Pow2(shift) - 1, r, step.0, temp, step.1);
      r := r + [step.0];
      temp := step.1;
      scan := scan + 1;
    }
    SumEnd(n, n, Pow2(shift) - 1, r, temp);
    OneLessTimes(Val(n), Pow2(shift));
    if temp != 0 {
      ValSnoc(r, temp);
      RadixSplit(shift);
      MulMono(1, Pow2(BIGNUM_DIGIT_LENGTH - shift), Pow2(shift));
      r := r + [temp];
    } else {
      MulMono(1, Pow2(shift), Val(n));
      SumTop(r, n, (Pow2(shift) - 1) * Val(n));
    }
  }

  lemma Pow2Positive(n: nat)
    ensures Pow2(n) >= 1
  {
  }

  lemma WholeAndBits(m: nat)
    ensures m == Div(m, BIGNUM_DIGIT_LENGTH) * BIGNUM_DIGIT_LENGTH + Mod(m, BIGNUM_DIGIT_LENGTH)
  {
  }

  lemma ShiftedWhole(n: seq<nat>, low: seq<nat>, high: seq<nat>, m: nat)
    requires Trimmed(high) && high != []
    requires |low| == Div(m, BIGNUM_DIGIT_LENGTH) && forall i | 0 <= i < |low| :: low[i] == 0
    requires Val(high) == Val(n) * Pow2(Mod(m, BIGNUM_DIGIT_LENGTH))
    ensures Trimmed(low + high) && Val(low + high) == Val(n) * Pow2(m)
  {
    hide Val, Pow;
    RadixBound();
    ValAppend(low, high);
    ValZeros(low);
    WholeAndBits(m);
    ShiftAmount(|low|, Mod(m, BIGNUM_DIGIT_LENGTH));
    Reorder(Pow(|low|), Val(n), Pow2(Mod(m, BIGNUM_DIGIT_LENGTH)));
  }

  lemma Reorder(p: int, n: int, s: int)
    ensures p * (n * s) == n * (p * s)
  {
  }

  /** The number of digits that hold n bits, as the shifts count them. */
  function DigitsFor(n: nat): nat {
    Div(n, BIGNUM_DIGIT_LENGTH) + if Mod(n, BIGNUM_DIGIT_LENGTH) != 0 then 1 else 0
  }

  lemma Ceiling(n: nat)
    ensures BitsToDigits(n) == DigitsFor(n)
  {
    var d: nat := BIGNUM_DIGIT_LENGTH;
    hide BIGNUM_DIGIT_LENGTH;
    var q: nat, r: nat := n / d, n % d;
    DivMod(n, d);
    NextTimes(q, d);
    if r == 0 { QuotientUnique(n + (d - 1), d, q, d - 1); } else { QuotientUnique(n + (d - 1), d, q + 1, r - 1); }
  }

  lemma CeilingOfSum(k: nat, n: nat)
    ensures DigitsFor(k * BIGNUM_DIGIT_LENGTH + n) == k + DigitsFor(n)
  {
    var d: nat := BIGNUM_DIGIT_LENGTH;
    hide BIGNUM_DIGIT_LENGTH;
    MulMono(0, k, d);
    var q: nat, r: nat := n / d, n % d;
    DivMod(n, d);
    Gathered(k, q, d);
    QuotientUnique(k * d + n, d, k + q, r);
  }

  lemma Gathered(k: int, q: int, d: int)
    ensures (k + q) * d == k * d + q * d
  {
  }

  /** The length computed before shifting is the number of digits stored. */
  lemma AllocatedExactly(n: seq<nat>, r: seq<nat>, m: nat, ln2: nat)
    requires Trimmed(n) && n != [] && Trimmed(r) && r != [] && Val(r) == Val(n) * Pow2(m)
    requires ln2 == |n| - 1 + DigitsFor(LengthInBits(n[|n| - 1]) + m)
    ensures |r| == ln2
  {
    hide Val, LengthInBits, Pow2;
    LengthFromBits(r);
    TrimmedZero(n);
    ShiftedLength(Val(n), m);
    BitsFromTop(n);
    var bits: nat := LengthInBits(n[|n| - 1]) + m;
    MulMono(0, |n| - 1, BIGNUM_DIGIT_LENGTH);
    Ceiling((|n| - 1) * BIGNUM_DIGIT_LENGTH + bits);
    CeilingOfSum(|n| - 1, bits);
  }

  /** The digits of a shifted machine integer. */
  method ShiftLong(n0: nat, shift: nat) returns (high: seq<nat>)
    requires n0 > 0 && shift < BIGNUM_DIGIT_LENGTH
    ensures AllDigits(high) && high != [] && high[|high| - 1] != 0 && Val(high) == n0 * Pow2(shift)
  {
    hide Val, Pow, Pow2, Bitwise, RADIX, RADIX_ROOT, Div;
    var n: nat := n0;
    FirstShifted(n, shift);
    MulMono(0, n, Pow2(shift));
    var d := Bitwise(AND, n * Pow2(shift), RADIX - 1);
    high := [d];
    n := Div(n, Pow2(BIGNUM_DIGIT_LENGTH - shift));
    while n > 0
      invariant AllDigits(high) && high != []
      invariant Val(high) + Pow(|high|) * n == n0 * Pow2(shift)
      invariant n == 0 ==> high[|high| - 1] != 0
      decreases n
    {
      NextShifted(high, n);
      d := Bitwise(AND, n, RADIX - 1);
      high := high + [d];
      n := Div(n, RADIX);
    }
    NothingAbove(Pow(|high|));
  }

  method UnsignedLongToShiftedBignum(n: nat, m: nat, sign: bool) returns (b: Bignum)
    ensures Normal(b) && b.Value() == Signed(n * Pow2(m), sign)
  {
    hide Val, Pow, Pow2, Bitwise, LengthInBits, BitsToDigits, DigitsFor, Div, Mod, RADIX, RADIX_ROOT;
    TrimmedZero([]);
    assert 0 * Pow2(m) == 0;
    if n == 0 { return BIGNUM_ZERO; }
    var delta := LengthInBits(n);
    var zeroes, shift := Div(m, BIGNUM_DIGIT_LENGTH), Mod(m, BIGNUM_DIGIT_LENGTH);
    var ln := DigitsFor(delta + m);
    var low: seq<nat> := seq(zeroes, _ => 0);
    var high := ShiftLong(n, shift);
    ShiftedNumber(n, low, high, m);
    b := Bignum(sign, low + high);
    LengthFromBits(b.digits);
    ShiftedLength(n, m);
    Ceiling(delta + m);
    assert |b.digits| == ln;
  }

  lemma NothingAbove(p: int)
    ensures p * 0 == 0
  {
  }

  lemma FirstShifted(n: nat, shift: nat)
    requires n > 0 && shift < BIGNUM_DIGIT_LENGTH
    ensures var d := Bitwise(AND, n * Pow2(shift), RADIX - 1);
      var rest := Div(n, Pow2(BIGNUM_DIGIT_LENGTH - shift));
      d < RADIX && Val([d]) + Pow(1) * rest == n * Pow2(shift) && (rest == 0 ==> d != 0)
  {
    hide Bitwise, Pow2, Val, Pow;
    var p: nat, s: nat := Pow2(BIGNUM_DIGIT_LENGTH - shift), Pow2(shift);
    RadixSplit(shift);
    RadixPow2();
    MulMono(0, n, s);
    var x: nat := n * s;
    AndMask(x, BIGNUM_DIGIT_LENGTH);
    ModOfShifted(n, p, s, RADIX);
    DivMod(x, RADIX);
    ValOne(x % RADIX);
    PowOne();
    MulMono(1, n, s);
    assert RADIX * 0 == 0;
  }

  lemma PowOne()
    ensures Pow(1) == RADIX
  {
    assert Pow(0) == 1;
  }

  lemma NextShifted(high: seq<nat>, rest: nat)
    requires rest > 0
    ensures var d := Bitwise(AND, rest, RADIX - 1);
      d < RADIX && Div(rest, RADIX) < rest && (Div(rest, RADIX) == 0 ==> d != 0)
      && Val(high + [d]) + Pow(|high| + 1) * Div(rest, RADIX) == Val(high) + Pow(|high|) * rest
  {
    hide Val, Pow, Bitwise, Pow2;
    RadixPow2();
    AndMask(rest, BIGNUM_DIGIT_LENGTH);
    hide RADIX_ROOT;
    RadixBound();
    SmallerQuotient(rest, RADIX);
    hide RADIX;
    ValSnoc(high, rest % RADIX);
    NextPow(|high|);
    Regroup(Pow(|high|), RADIX, rest / RADIX, rest % RADIX);
  }

  lemma ShiftedNumber(n: nat, low: seq<nat>, high: seq<nat>, m: nat)
    requires AllDigits(high) && high != [] && high[|high| - 1] != 0
    requires |low| == Div(m, BIGNUM_DIGIT_LENGTH) && forall i | 0 <= i < |low| :: low[i] == 0
    requires Val(high) == n * Pow2(Mod(m, BIGNUM_DIGIT_LENGTH))
    ensures Trimmed(low + high) && Val(low + high) == n * Pow2(m)
  {
    hide Val, Pow;
    RadixBound();
    ValAppend(low, high);
    ValZeros(low);
    WholeAndBits(m);
    ShiftAmount(|low|, Mod(m, BIGNUM_DIGIT_LENGTH));
    Reorder(Pow(|low|), n, Pow2(Mod(m, BIGNUM_DIGIT_LENGTH)));
  }

  // ----- right -----

  /** A result, or a read past the last digit of the number. */
  datatype Shifted = PastEnd | Shifted(value: Bignum)

  /**
   The digits r and the bits extra above them are the digits of n as far as they go, without the lowest bits, which
   are low.
   */
  ghost predicate ShiftedSoFar(n: seq<nat>, r: seq<nat>, extra: nat, p: nat, low: nat) {
    |r| < |n| && AllDigits(r) && (Val(r) + Pow(|r|) * extra) * p + low == Val(n[..|r| + 1])
  }

  lemma ShiftedStart(n: seq<nat>, p: nat)
    requires n != [] && p > 0
    ensures ShiftedSoFar(n, [], Div(n[0], p), p, Mod(n[0], p))
  {
    assert n[..1] == [n[0]];
    ValOne(n[0]);
    DivMod(n[0], p);
    assert Val([]) + Pow(0) * (n[0] / p) == n[0] / p;
  }

  lemma ShiftedSum(w: int, r: int, e: int, h: int, l: int, p: int, s: int, low: int)
    ensures ((r + w * (l * s + e)) + ((p * s) * w) * h) * p + low
      == ((r + w * e) * p + low) + ((p * s) * w) * (p * h + l)
  {
    assert w * (l * s + e) == w * e + w * (l * s);
    assert (w * (l * s)) * p == ((p * s) * w) * l;
    assert (((p * s) * w) * h) * p == ((p * s) * w) * (p * h);
    assert (r + w * e + w * (l * s) + ((p * s) * w) * h) * p
      == (r + w * e) * p + (w * (l * s)) * p + (((p * s) * w) * h) * p;
  }

  /** The digit stored joins the low bits of the next digit with what the last one left over. */
  function ShiftDigitRight(digit: nat, extra: nat, bits: nat): (d: nat)
    requires 0 < bits < BIGNUM_DIGIT_LENGTH && digit < RADIX && extra < Pow2(BIGNUM_DIGIT_LENGTH - bits)
    ensures d < RADIX && d == (digit % Pow2(bits)) * Pow2(BIGNUM_DIGIT_LENGTH - bits) + extra
    ensures Div(digit, Pow2(bits)) < Pow2(BIGNUM_DIGIT_LENGTH - bits)
    ensures Div(digit, Pow2(bits)) == 0 && digit != 0 ==> d != 0
  {
    RightDigit(digit, extra, bits);
    MulMono(0, Bitwise(AND, digit, Pow2(bits) - 1), Pow2(BIGNUM_DIGIT_LENGTH - bits));
    Bitwise(IOR, Bitwise(AND, digit, Pow2(bits) - 1) * Pow2(BIGNUM_DIGIT_LENGTH - bits), extra)
  }

  lemma RightDigit(digit: nat, extra: nat, bits: nat)
    requires 0 < bits < BIGNUM_DIGIT_LENGTH && digit < RADIX && extra < Pow2(BIGNUM_DIGIT_LENGTH - bits)
    ensures var d := (digit % Pow2(bits)) * Pow2(BIGNUM_DIGIT_LENGTH - bits) + extra;
      d < RADIX
      && Bitwise(IOR, Bitwise(AND, digit, Pow2(bits) - 1) * Pow2(BIGNUM_DIGIT_LENGTH - bits), extra) == d
      && Div(digit, Pow2(bits)) < Pow2(BIGNUM_DIGIT_LENGTH - bits)
      && (Div(digit, Pow2(bits)) == 0 && digit != 0 ==> d != 0)
  {
    hide Bitwise, Pow2;
    var p: nat, s: nat := Pow2(bits), Pow2(BIGNUM_DIGIT_LENGTH - bits);
    RadixSplit(bits);
    AndMask(digit, bits);
    IorDisjoint(digit % p, BIGNUM_DIGIT_LENGTH - bits, extra);
    ShiftSplit(digit, extra, p, s, RADIX);
    DivMod(digit, p);
    if digit / p == 0 && digit != 0 {
      assert 0 * p == 0;
      MulMono(1, digit % p, s);
    }
  }

  lemma ShiftedNext(n: seq<nat>, r: seq<nat>, extra: nat, bits: nat, low: nat)
    requires 0 < bits < BIGNUM_DIGIT_LENGTH && AllDigits(n) && |r| + 1 < |n|
    requires ShiftedSoFar(n, r, extra, Pow2(bits), low) && extra < Pow2(BIGNUM_DIGIT_LENGTH - bits)
    ensures var digit := n[|r| + 1];
      ShiftedSoFar(n, r + [ShiftDigitRight(digit, extra, bits)], Div(digit, Pow2(bits)), Pow2(bits), low)
  {
    hide Val, Pow2, ShiftDigitRight;
    var digit := n[|r| + 1];
    var d := ShiftDigitRight(digit, extra, bits);
    var p: nat, s: nat := Pow2(bits), Pow2(BIGNUM_DIGIT_LENGTH - bits);
    RadixSplit(bits);
    var h: nat, l: nat := digit / p, digit % p;
    DivMod(digit, p);
    ValNext(n, |r| + 1);
    ValSnoc(r, d);
    NextPow(|r|);
    hide RADIX, RADIX_ROOT, Pow;
    ShiftedSum(Pow(|r|), Val(r), extra, h, l, p, s, low);
  }

  /** Reads past the end when there are no digits left and bits to shift by. */
  method BignumShiftRightUnsigned(n: Bignum, digits: nat, bits: nat) returns (r: Shifted)
    requires Normal(n) && !n.negative && digits <= n.Length() && bits < BIGNUM_DIGIT_LENGTH
    ensures r.PastEnd? <==> digits == n.Length() && bits != 0
    ensures r.Shifted? ==> Normal(r.value) && r.value.Value() == n.Value() / Pow2(digits * BIGNUM_DIGIT_LENGTH + bits)
  {
    hide Val, Pow;
    DropDigits(n.digits, digits, bits);
    if bits == 0 {
      return Shifted(Bignum(false, n.digits[digits..]));
    }
    if digits == n.Length() { return PastEnd; }
    var high := ShiftDigitsRight(n.digits[digits..], bits);
    r := Shifted(Bignum(false, high));
  }

  lemma DropDigits(n: seq<nat>, digits: nat, bits: nat)
    requires digits <= |n| && AllDigits(n)
    ensures Val(n) / Pow2(digits * BIGNUM_DIGIT_LENGTH + bits) == Val(n[digits..]) / Pow2(bits)
    ensures Val(n[digits..]) / Pow2(0) == Val(n[digits..])
  {
    hide Val, Pow, Pow2;
    ShiftAmount(digits, bits);
    assert n == n[..digits] + n[digits..];
    ValAppend(n[..digits], n[digits..]);
    ValBound(n[..digits]);
    var a: nat, w: nat, p: nat := Val(n[digits..]), Pow(digits), Pow2(bits);
    DivMod(a, p);
    NestedDivision(Val(n[..digits]), w, a / p, a % p, p);
    DivByOne(a);
  }

  lemma DivByOne(a: nat)
    ensures a / Pow2(0) == a
  {
  }

  lemma NestedDivision(low: nat, w: nat, q: nat, r: nat, p: nat)
    requires low < w && r < p
    ensures w * p > 0 && (low + w * (q * p + r)) / (w * p) == q
  {
    MulMono(r + 1, p, w);
    assert w * (r + 1) == w * r + w;
    assert w * (q * p + r) == q * (w * p) + w * r;
    QuotientUnique(low + w * (q * p + r), w * p, q, low + w * r);
  }

  method ShiftDigitsRight(n: seq<nat>, bits: nat) returns (r: seq<nat>)
    requires Trimmed(n) && n != [] && 0 < bits < BIGNUM_DIGIT_LENGTH
    ensures Trimmed(r) && Val(r) == Val(n) / Pow2(bits)
    ensures |r| == |n| - if Div(n[|n| - 1], Pow2(bits)) == 0 then 1 else 0
  {
    hide Val, Pow, Bitwise, Pow2, ShiftedSoFar, ShiftDigitRight, RADIX, RADIX_ROOT, Div;
    var scan := 1;
    var extra: nat := Div(n[0], Pow2(bits));
    ghost var low := Mod(n[0], Pow2(bits));
    r := [];
    ShiftedStart(n, Pow2(bits));
    FirstExtra(n[0], bits);
    while scan < |n|
      invariant 1 <= scan <= |n| && |r| == scan - 1
      invariant ShiftedSoFar(n, r, extra, Pow2(bits), low) && extra < Pow2(BIGNUM_DIGIT_LENGTH - bits)
      invariant extra == Div(n[scan - 1], Pow2(bits))
      invariant extra == 0 && n[scan - 1] != 0 && r != [] ==> r[|r| - 1] != 0
    {
      var digit := n[scan];
      ShiftedNext(n, r, extra, bits, low);
      r := r + [ShiftDigitRight(digit, extra, bits)];
      extra := Div(digit, Pow2(bits));
      scan := scan + 1;
    }
    ShiftedEnd(n, r, extra, bits, low);
    if extra != 0 { r := r + [extra]; }
  }

  lemma FirstExtra(digit: nat, bits: nat)
    requires digit < RADIX && bits <= BIGNUM_DIGIT_LENGTH
    ensures Div(digit, Pow2(bits)) < Pow2(BIGNUM_DIGIT_LENGTH - bits)
  {
    RadixSplit(bits);
    DivMod(digit, Pow2(bits));
    hide Pow2;
    SplitBelow(digit / Pow2(bits), digit % Pow2(bits), Pow2(bits), Pow2(BIGNUM_DIGIT_LENGTH - bits));
  }

  lemma ShiftedEnd(n: seq<nat>, r: seq<nat>, extra: nat, bits: nat, low: nat)
    requires bits <= BIGNUM_DIGIT_LENGTH && low < Pow2(bits) && extra < Pow2(BIGNUM_DIGIT_LENGTH - bits)
    requires ShiftedSoFar(n, r, extra, Pow2(bits), low) && |r| + 1 == |n|
    ensures AllDigits(r) && extra < RADIX
    ensures Val(r + [extra]) == Val(n) / Pow2(bits)
    ensures extra == 0 ==> Val(r) == Val(n) / Pow2(bits)
  {
    assert n[..|r| + 1] == n;
    ValSnoc(r, extra);
    RadixSplit(bits);
    MulMono(1, Pow2(bits), Pow2(BIGNUM_DIGIT_LENGTH - bits));
    hide Val, Pow, Pow2;
    NothingAbove(Pow(|r|));
    QuotientUnique(Val(n), Pow2(bits), Val(r + [extra]), low);
  }

  /** The complement of such a number has no digit at that place although the number itself does. */
  predicate MissingDigit(n: Bignum, digits: nat, bits: nat) {
    bits != 0 && n.Value() == -(Pow(digits) as int)
  }

  /** Reads past the end exactly on the negatives of powers of the radix with bits to shift by. */
  method BignumShiftRight(n: Bignum, m: nat) returns (r: Shifted)
    requires Normal(n)
    ensures r.PastEnd? <==> MissingDigit(n, Div(m, BIGNUM_DIGIT_LENGTH), Mod(m, BIGNUM_DIGIT_LENGTH))
    ensures r.Shifted? ==> Normal(r.value) && r.value.Value() == n.Value() / Pow2(m)
  {
    hide Val, Pow, Pow2, Div, Mod, RADIX, RADIX_ROOT;
    TrimmedZero(n.digits);
    TrimmedZero([]);
    var digits, bits := Div(m, BIGNUM_DIGIT_LENGTH), Mod(m, BIGNUM_DIGIT_LENGTH);
    WholeAndBits(m);
    if digits >= n.Length() {
      AllShiftedOut(n, m);
      r := Shifted(if n.negative then BignumOne(true) else BIGNUM_ZERO);
    } else if n.negative {
      var c := NotNegative(n);
      ComplementLength(n, c);
      ComplementQuotient(c.Value(), Pow2(m));
      MissingWhen(n, c, digits);
      r := BignumShiftRightUnsigned(c, digits, bits);
      if r.Shifted? {
        var b := BignumBitwiseNot(r.value);
        r := Shifted(b);
      }
    } else {
      PowPositive(digits);
      r := BignumShiftRightUnsigned(n, digits, bits);
    }
  }

  lemma PowPositive(n: nat)
    ensures Pow(n) >= 1
  {
  }

  lemma ComplementQuotient(z: int, p: int)
    requires p > 0
    ensures (-1 - z) / p == -1 - z / p
  {
    var q, r := z / p, z % p;
    assert z == p * q + r;
    ComplementParts(p, q, r);
    DivUnique(p, -1 - q, p - 1 - r, (-1 - z) / p, (-1 - z) % p);
  }

  lemma AllShiftedOut(n: Bignum, m: nat)
    requires Normal(n) && Div(m, BIGNUM_DIGIT_LENGTH) >= n.Length()
    ensures n.Value() / Pow2(m) == if n.negative then -1 else 0
    ensures n.Value() != -(Pow(Div(m, BIGNUM_DIGIT_LENGTH)) as int)
  {
    hide Val, Pow2, Pow;
    TrimmedZero(n.digits);
    ValBound(n.digits);
    var k := Div(m, BIGNUM_DIGIT_LENGTH);
    PowMono(n.Length(), k);
    WholeAndBits(m);
    ShiftAmount(k, Mod(m, BIGNUM_DIGIT_LENGTH));
    MulMono(1, Pow2(Mod(m, BIGNUM_DIGIT_LENGTH)), Pow(k));
    OutDivision(n.Magnitude(), Pow2(m));
  }

  lemma OutDivision(v: int, p: int)
    requires 0 <= v < p
    ensures v / p == 0 && (v > 0 ==> (-v) / p == -1)
  {
    QuotientUnique(v, p, 0, v);
    if v > 0 {
      assert p * (-1) == -p;
      DivUnique(p, -1, p - v, (-v) / p, (-v) % p);
    }
  }

  /** The complement of a number is at most one digit shorter. */
  lemma ComplementLength(n: Bignum, c: Bignum)
    requires Normal(n) && Normal(c) && n.negative && !c.negative && c.Value() == -1 - n.Value()
    ensures n.Length() - 1 <= c.Length() <= n.Length()
    ensures c.Length() == n.Length() - 1 <==> n.Value() == -(Pow(n.Length() - 1) as int)
  {
    hide Val;
    TrimmedZero(n.digits);
    ValTop(n.digits);
    ValBound(n.digits);
    ValBound(c.digits);
    var k := n.Length();
    if c.Length() > k { TrimmedLength(n.digits, c.digits); }
    if c.Length() < k {
      PowMono(c.Length(), k - 1);
      if c.Length() < k - 1 {
        NextPow(k - 2);
        RadixBound();
        MulMono(4, RADIX, Pow(k - 2));
        PowMono(c.Length(), k - 2);
      }
    } else if c.digits != [] {
      ValTop(c.digits);
    }
  }

  lemma MissingWhen(n: Bignum, c: Bignum, digits: nat)
    requires Normal(n) && Normal(c) && n.negative && !c.negative && c.Value() == -1 - n.Value() && digits < n.Length()
    ensures digits <= c.Length()
    ensures digits == c.Length() <==> n.Value() == -(Pow(digits) as int)
  {
    hide Val;
    ComplementLength(n, c);
    TrimmedZero(n.digits);
    ValTop(n.digits);
    if digits < n.Length() - 1 {
      PowMono(digits + 1, n.Length() - 1);
      RadixBound();
      MulMono(4, RADIX, Pow(digits));
    }
  }

  lemma SmallDivision(a: nat, b: nat)
    requires a < b
    ensures a / b == 0 && a % b == a
  {
    QuotientUnique(a, b, 0, a);
  }
}
