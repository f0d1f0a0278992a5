/**
 The exact integers of src/microcode/artutl.c: fixnums where the value is in range, bignums otherwise.
 */
module Integers {
  import opened Common
  import opened Digits
  import opened Bits
  import opened Bignums
  import opened BignumMultiplication
  import opened BignumDigitwiseDivision
  import opened BignumQuotients
  import opened BignumStreams
  import opened BignumBitwise
  import opened BignumShifts
  import opened Fixnums

  datatype Integer = Fixnum(n: int) | Big(b: Bignum) {
    function Value(): int {
      if Fixnum? then n else b.Value()
    }
  }

  /** A fixnum exactly when the value is in range. */
  predicate Canonical(i: Integer) {
    if i.Fixnum? then InRange(i.n) else Normal(i.b) && !InRange(i.b.Value())
  }

  /** A value has one canonical representation. */
  lemma CanonicalUnique(i: Integer, j: Integer)
    requires Canonical(i) && Canonical(j) && i.Value() == j.Value()
    ensures i == j
  {
    if i.Big? && j.Big? { NormalUnique(i.b, j.b); }
  }

  // ----- which bignums fit in a word -----

  /** How far beyond the least word a negative number may be and still be said to fit, counting from one. */
  function Beyond(nBits: nat): nat {
    if Mod(nBits, BIGNUM_DIGIT_LENGTH) == 0 then 0 else Pow(Div(nBits, BIGNUM_DIGIT_LENGTH))
  }

  /** What bignum_fits_in_word_p answers: it looks at the top digit only. */
  ghost predicate SaidToFit(z: int, nBits: nat, twosComplement: bool) {
    if z >= 0 then z < Pow2(nBits) else twosComplement && -z < Pow2(nBits) + Beyond(nBits)
  }

  /** Where that differs from the range of two's-complement words. */
  lemma FitsWhen(z: int, nBits: nat)
    ensures (SaidToFit(z, nBits, true) <==> -(Pow2(nBits) as int) <= z < Pow2(nBits))
      <==> !(if Beyond(nBits) == 0 then z == -(Pow2(nBits) as int)
             else -(Pow2(nBits) as int) - Beyond(nBits) < z < -(Pow2(nBits) as int))
  {
  }

  /** For words of fewer bits than a digit it is right. */
  lemma SmallWordsRight(z: int, nBits: nat)
    requires 0 < nBits < BIGNUM_DIGIT_LENGTH
    ensures SaidToFit(z, nBits, true) <==> -(Pow2(nBits) as int) <= z < Pow2(nBits)
  {
    SmallDivision(nBits, BIGNUM_DIGIT_LENGTH);
    assert Pow(0) == 1;
  }

  /** For unsigned words it is right. */
  lemma UnsignedRight(z: int, nBits: nat)
    ensures SaidToFit(z, nBits, false) <==> 0 <= z < Pow2(nBits)
  {
  }

  /** For longer ones it is not: this number is one too low. */
  lemma LongWordsWrong()
    ensures var nBits: nat := BIGNUM_DIGIT_LENGTH + 1;
      var z := -(Pow2(nBits) as int) - 1;
      SaidToFit(z, nBits, true) && !(-(Pow2(nBits) as int) <= z < Pow2(nBits))
  {
    var d: nat := BIGNUM_DIGIT_LENGTH;
    QuotientUnique(d + 1, d, 1, 1);
    RadixBound();
    PowOne();
  }

  lemma TopDigitBounds(s: seq<nat>, len: nat)
    requires Trimmed(s) && |s| == len > 0
    ensures s[len - 1] * Pow(len - 1) <= Val(s) < s[len - 1] * Pow(len - 1) + Pow(len - 1)
  {
    hide Val, Pow;
    ValNext(s, len - 1);
    assert s[..len] == s;
    ValBound(s[..len - 1]);
  }

  /** Comparing the top digit with a power of two of what is above the lower digits. */
  lemma TopDigitDecides(v: nat, msd: nat, p: nat, max: nat)
    requires msd * p <= v < msd * p + p && p > 0
    ensures msd < max <==> v < max * p
    ensures msd <= max <==> v < max * p + p
  {
    if msd < max { MulMono(msd + 1, max, p); } else { MulMono(max, msd, p); }
    NextTimes(msd, p);
    if msd > max {
      MulMono(max + 1, msd, p);
      NextTimes(max, p);
    }
  }

  method BignumFitsInWordP(bignum: Bignum, wordLength: nat, twosComplement: bool) returns (fits: bool)
    requires Normal(bignum) && wordLength > 1
    ensures fits <==> SaidToFit(bignum.Value(), if twosComplement then wordLength - 1 else wordLength, twosComplement)
  {
    hide Val, Pow, Pow2, LengthInBits, Div, Mod;
    TrimmedZero(bignum.digits);
    var nBits: nat;
    if twosComplement {
      nBits := wordLength - 1;
    } else {
      if bignum.negative { return false; }
      nBits := wordLength;
    }
    var length := bignum.Length();
    var maxDigits := BitsToDigits(nBits);
    LengthDecides(bignum.digits, nBits);
    if length < maxDigits { return true; }
    if length > maxDigits { return false; }
    SameLength(bignum.digits, nBits);
    var msd := bignum.digits[length - 1];
    var max := Pow2(nBits - (length - 1) * BIGNUM_DIGIT_LENGTH);
    fits := msd < max || (twosComplement && msd == max && bignum.negative);
  }

  /** The number of digits that nBits fill, and how far that many go. */
  lemma DigitsForBits(nBits: nat)
    requires nBits > 0
    ensures var max := BitsToDigits(nBits);
      && max > 0 && (max - 1) * BIGNUM_DIGIT_LENGTH < nBits <= max * BIGNUM_DIGIT_LENGTH
      && (Mod(nBits, BIGNUM_DIGIT_LENGTH) != 0 ==>
            Div(nBits, BIGNUM_DIGIT_LENGTH) == max - 1 && nBits < max * BIGNUM_DIGIT_LENGTH)
      && (Mod(nBits, BIGNUM_DIGIT_LENGTH) == 0 ==> nBits == max * BIGNUM_DIGIT_LENGTH)
  {
    var d: nat := BIGNUM_DIGIT_LENGTH;
    hide BIGNUM_DIGIT_LENGTH;
    var q: nat, r: nat := nBits / d, nBits % d;
    DivMod(nBits, d);
    NextTimes(q, d);
    if r == 0 {
      QuotientUnique(nBits + (d - 1), d, q, d - 1);
      assert 0 * d == 0;
      NextTimes(q - 1, d);
    } else {
      QuotientUnique(nBits + (d - 1), d, q + 1, r - 1);
    }
  }

  lemma LengthDecides(s: seq<nat>, nBits: nat)
    requires Trimmed(s) && nBits > 0
    ensures |s| < BitsToDigits(nBits) ==> Val(s) < Pow2(nBits)
    ensures |s| > BitsToDigits(nBits) ==> Val(s) >= Pow2(nBits)
    ensures |s| > BitsToDigits(nBits) && Mod(nBits, BIGNUM_DIGIT_LENGTH) != 0 ==>
      Val(s) >= Pow2(nBits) + Pow(Div(nBits, BIGNUM_DIGIT_LENGTH))
  {
    hide Val, Pow, Pow2, BitsToDigits, RADIX, RADIX_ROOT, Div, Mod;
    DigitsForBits(nBits);
    var max := BitsToDigits(nBits);
    MulMono(0, max - 1, BIGNUM_DIGIT_LENGTH);
    PowIsPow2(max - 1);
    PowIsPow2(max);
    if |s| < max {
      ValBound(s);
      PowMono(|s|, max - 1);
      Pow2Mono((max - 1) * BIGNUM_DIGIT_LENGTH, nBits);
    } else if |s| > max {
      ValTop(s);
      PowMono(max, |s| - 1);
      MoreDigits(nBits, max * BIGNUM_DIGIT_LENGTH, (max - 1) * BIGNUM_DIGIT_LENGTH);
    }
  }

  lemma MoreDigits(n: nat, above: nat, below: nat)
    requires below <= n <= above
    ensures Pow2(n) <= Pow2(above)
    ensures n < above ==> Pow2(n) + Pow2(below) <= Pow2(above)
  {
    hide Pow2;
    Pow2Mono(n, above);
    Pow2Mono(below, n);
    NextPow2(n);
    if n < above { Pow2Mono(n + 1, above); }
  }

  lemma NextPow2(n: nat)
    ensures Pow2(n + 1) == 2 * Pow2(n)
  {
  }

  lemma SameLength(s: seq<nat>, nBits: nat)
    requires Trimmed(s) && nBits > 0 && |s| == BitsToDigits(nBits)
    ensures |s| > 0 && 0 <= (|s| - 1) * BIGNUM_DIGIT_LENGTH < nBits
    ensures s[|s| - 1] < Pow2(nBits - (|s| - 1) * BIGNUM_DIGIT_LENGTH) <==> Val(s) < Pow2(nBits)
    ensures s[|s| - 1] <= Pow2(nBits - (|s| - 1) * BIGNUM_DIGIT_LENGTH) <==> Val(s) < Pow2(nBits) + Pow(|s| - 1)
    ensures Mod(nBits, BIGNUM_DIGIT_LENGTH) != 0 ==> Div(nBits, BIGNUM_DIGIT_LENGTH) == |s| - 1
    ensures Mod(nBits, BIGNUM_DIGIT_LENGTH) == 0 ==>
      s[|s| - 1] < Pow2(nBits - (|s| - 1) * BIGNUM_DIGIT_LENGTH)
  {
    hide Val, Pow, Pow2, BitsToDigits, RADIX_ROOT, RADIX, Div, Mod, BIGNUM_DIGIT_LENGTH;
    DigitsForBits(nBits);
    var len: nat := |s|;
    MulMono(0, len - 1, BIGNUM_DIGIT_LENGTH);
    var low: nat := (len - 1) * BIGNUM_DIGIT_LENGTH;
    var rest: nat := nBits - low;
    Pow2Add(rest, low);
    PowIsPow2(len - 1);
    TopDigitBounds(s, len);
    TopDigitDecides(Val(s), s[len - 1], Pow(len - 1), Pow2(rest));
    NextTimes(len - 1, BIGNUM_DIGIT_LENGTH);
    RadixPow2();
  }

  // ----- conversions -----

  method BignumToLong(bignum: Bignum) returns (n: int)
    requires Normal(bignum)
    ensures n == bignum.Value()
  {
    hide Val;
    if bignum.IsZero() {
      TrimmedZero(bignum.digits);
      return 0;
    }
    var accumulator: nat := 0;
    var scan := bignum.Length();
    assert bignum.digits[scan..] == [];
    ValZeros([]);
    while 0 < scan
      invariant 0 <= scan <= bignum.Length() && accumulator == Val(bignum.digits[scan..])
    {
      scan := scan - 1;
      assert bignum.digits[scan..] == [bignum.digits[scan]] + bignum.digits[scan + 1..];
      ValCons(bignum.digits[scan], bignum.digits[scan + 1..]);
      MulMono(0, RADIX, accumulator);
      accumulator := RADIX * accumulator + bignum.digits[scan];
    }
    assert bignum.digits[0..] == bignum.digits;
    n := if bignum.negative then -(accumulator as int) else accumulator;
  }

  method LongToInteger(n: int) returns (r: Integer)
    ensures Canonical(r) && r.Value() == n
  {
    if InRange(n) {
      r := Fixnum(n);
    } else {
      var b := LongToBignum(n);
      r := Big(b);
    }
  }

  method BignumToInteger(bignum: Bignum) returns (r: Integer)
    requires Normal(bignum)
    ensures Canonical(r) && r.Value() == bignum.Value()
  {
    SmallWordsRight(bignum.Value(), FIXNUM_LENGTH);
    var fits := BignumFitsInWordP(bignum, FIXNUM_LENGTH + 1, true);
    if fits {
      var n := BignumToLong(bignum);
      r := Fixnum(n);
    } else {
      r := Big(bignum);
    }
  }

  method ToBignum(i: Integer) returns (b: Bignum)
    requires Canonical(i)
    ensures Normal(b) && b.Value() == i.Value()
  {
    if i.Fixnum? { b := LongToBignum(i.n); } else { b := i.b; }
  }

  // ----- sums and products -----

  method IntegerNegate(n: Integer) returns (r: Integer)
    requires Canonical(n)
    ensures Canonical(r) && r.Value() == -n.Value()
  {
    if n.Fixnum? {
      r := LongToInteger(-n.n);
    } else {
      var b := BignumNegate(n.b);
      r := BignumToInteger(b);
    }
  }

  method IntegerAdd(n: Integer, m: Integer) returns (r: Integer)
    requires Canonical(n) && Canonical(m)
    ensures Canonical(r) && r.Value() == n.Value() + m.Value()
  {
    if n.Fixnum? && m.Fixnum? {
      r := LongToInteger(n.n + m.n);
    } else {
      var x := ToBignum(n);
      var y := ToBignum(m);
      var b := BignumAdd(x, y);
      r := BignumToInteger(b);
    }
  }

  method IntegerSubtract(n: Integer, m: Integer) returns (r: Integer)
    requires Canonical(n) && Canonical(m)
    ensures Canonical(r) && r.Value() == n.Value() - m.Value()
  {
    if n.Fixnum? && m.Fixnum? {
      r := LongToInteger(n.n - m.n);
    } else {
      var x := ToBignum(n);
      var y := ToBignum(m);
      var b := BignumSubtract(x, y);
      r := BignumToInteger(b);
    }
  }

  method IntegerMultiply(n: Integer, m: Integer) returns (r: Integer)
    requires Canonical(n) && Canonical(m)
    ensures Canonical(r) && r.Value() == n.Value() * m.Value()
  {
    if n.Fixnum? && m.Fixnum? {
      var result := Mul(n.n, m.n);
      if result.Some? { return Fixnum(result.value); }
    }
    var x := ToBignum(n);
    var y := ToBignum(m);
    var b := BignumMultiply(x, y);
    r := BignumToInteger(b);
  }

  // ----- division -----

  /** Quotient and remainder of machine integers, dividing nonnegative ones only. */
  function LongQuotient(lx: int, ly: int): (q: int)
    requires ly != 0
    ensures q == Quotient(lx, ly)
  {
    if lx < 0 then (if ly < 0 then (-lx) / (-ly) else -((-lx) / ly))
    else if ly < 0 then -(lx / (-ly)) else lx / ly
  }

  function LongRemainder(lx: int, ly: int): (r: int)
    requires ly != 0
    ensures r == Remainder(lx, ly)
  {
    if lx < 0 then -((-lx) % (if ly < 0 then -ly else ly)) else lx % (if ly < 0 then -ly else ly)
  }

  /** A remainder by a fixnum is a fixnum. */
  lemma RemainderInRange(n: int, d: int)
    requires d != 0 && InRange(d)
    ensures InRange(Remainder(n, d))
  {
    DivMod(Abs(n), Abs(d));
  }

  method IntegerQuotient(n: Integer, d: Integer) returns (r: Option<Integer>)
    requires Canonical(n) && Canonical(d)
    ensures r.None? <==> d.Value() == 0
    ensures r.Some? ==> Canonical(r.value) && r.value.Value() == Quotient(n.Value(), d.Value())
  {
    hide Quotient, InRange;
    if n.Fixnum? && d.Fixnum? {
      if d.n == 0 { return None; }
      var q := LongToInteger(LongQuotient(n.n, d.n));
      return Some(q);
    }
    var x := ToBignum(n);
    var y := ToBignum(d);
    var result := BignumQuotient(x, y);
    if result.OutOfBand? { return None; }
    var q := BignumToInteger(result.value);
    r := Some(q);
  }

  method IntegerRemainder(n: Integer, d: Integer) returns (r: Option<Integer>)
    requires Canonical(n) && Canonical(d)
    ensures r.None? <==> d.Value() == 0
    ensures r.Some? ==> Canonical(r.value) && r.value.Value() == Remainder(n.Value(), d.Value())
  {
    hide Remainder, InRange;
    if n.Fixnum? && d.Fixnum? {
      if d.n == 0 { return None; }
      var m := LongToInteger(LongRemainder(n.n, d.n));
      return Some(m);
    }
    var x := ToBignum(n);
    var y := ToBignum(d);
    var result := BignumRemainder(x, y);
    if result.OutOfBand? { return None; }
    var m := BignumToInteger(result.value);
    r := Some(m);
  }

  method IntegerDivide(n: Integer, d: Integer) returns (zero: bool, q: Integer, r: Integer)
    requires Canonical(n) && Canonical(d)
    ensures zero <==> d.Value() == 0
    ensures !zero ==> Canonical(q) && Canonical(r) && Truncates(n.Value(), d.Value(), q.Value(), r.Value())
  {
    hide Quotient, Remainder, Truncates, InRange;
    q, r := n, n;
    if n.Fixnum? && d.Fixnum? {
      if d.n == 0 { return true, q, r; }
      var quotient, remainder := DivideLongs(n.n, d.n);
      q := LongToInteger(quotient);
      RemainderInRange(n.n, d.n);
      r := Fixnum(remainder);
      QuotientTruncates(n.n, d.n);
      return false, q, r;
    }
    var x := ToBignum(n);
    var y := ToBignum(d);
    var result := BignumDivide(x, y);
    if result.DivideByZero? { return true, q, r; }
    q := BignumToInteger(result.quotient);
    r := BignumToInteger(result.remainder);
    zero := false;
  }

  method DivideLongs(n: int, d: int) returns (quotient: int, remainder: int)
    requires d != 0
    ensures quotient == Quotient(n, d) && remainder == Remainder(n, d)
  {
    var lx, ly := n, d;
    if lx < 0 {
      lx := -lx;
      if ly < 0 {
        ly := -ly;
        quotient := lx / ly;
      } else {
        quotient := -(lx / ly);
      }
      remainder := -(lx % ly);
    } else {
      if ly < 0 {
        ly := -ly;
        quotient := -(lx / ly);
      } else {
        quotient := lx / ly;
      }
      remainder := lx % ly;
    }
  }

  // ----- bitwise operations -----

  /** An operation on the bits of two machine integers in two's complement. */
  function LongBitwise(t: Table, x: int, y: int): int
    decreases Size(x) + Size(y)
  {
    if -1 <= x <= 0 && -1 <= y <= 0 then (if t.At(x == -1, y == -1) then -1 else 0)
    else BitValue(t.At(x % 2 == 1, y % 2 == 1)) + 2 * LongBitwise(t, x / 2, y / 2)
  }

  lemma LongBitwiseNext(t: Table, x: int, y: int)
    ensures LongBitwise(t, x, y) % 2 == BitValue(t.At(x % 2 == 1, y % 2 == 1))
    ensures LongBitwise(t, x, y) / 2 == LongBitwise(t, x / 2, y / 2)
  {
  }

  lemma {:induction false} LongBitwiseBit(t: Table, x: int, y: int, i: nat)
    ensures Bit(LongBitwise(t, x, y), i) == t.At(Bit(x, i), Bit(y, i))
    decreases i
  {
    hide LongBitwise, Bit;
    var z := LongBitwise(t, x, y);
    LongBitwiseNext(t, x, y);
    if i == 0 {
      BitZero(x);
      BitZero(y);
      BitZero(z);
    } else {
      BitNext(x, i - 1);
      BitNext(y, i - 1);
      BitNext(z, i - 1);
      LongBitwiseBit(t, x / 2, y / 2, i - 1);
    }
  }

  lemma {:induction false} LongBitwiseRange(t: Table, x: int, y: int, k: nat)
    requires -(Pow2(k) as int) <= x < Pow2(k) && -(Pow2(k) as int) <= y < Pow2(k)
    ensures -(Pow2(k) as int) <= LongBitwise(t, x, y) < Pow2(k)
    decreases k
  {
    if k > 0 { LongBitwiseRange(t, x / 2, y / 2, k - 1); }
  }

  method IntegerBitwiseNot(n: Integer) returns (r: Integer)
    requires Canonical(n)
    ensures Canonical(r) && r.Value() == -1 - n.Value()
  {
    if n.Fixnum? {
      r := Fixnum(-1 - n.n);
    } else {
      var b := BignumBitwiseNot(n.b);
      r := Big(b);
    }
  }

  /** Any of the ten operations. */
  method IntegerBitwise(op: Operation, n: Integer, m: Integer) returns (r: Integer)
    requires Canonical(n) && Canonical(m)
    ensures Canonical(r) && Pointwise(op.Truth(), n.Value(), m.Value(), r.Value())
    ensures forall i: nat :: Bit(r.Value(), i) == op.Truth().At(Bit(n.Value(), i), Bit(m.Value(), i))
  {
    hide LongBitwise, Bit, Val;
    if n.Fixnum? && m.Fixnum? {
      LongBitwiseRange(op.Truth(), n.n, m.n, FIXNUM_LENGTH);
      forall i: nat { LongBitwiseBit(op.Truth(), n.n, m.n, i); }
      r := Fixnum(LongBitwise(op.Truth(), n.n, m.n));
    } else {
      hide Pointwise;
      var x := ToBignum(n);
      var y := ToBignum(m);
      var b := BitwiseSigned(op, x, y);
      r := BignumToInteger(b);
    }
  }

  // ----- shifts -----

  /** When a shifted fixnum is a fixnum still. */
  lemma ShiftRange(n: nat, m: nat)
    requires n > 0
    ensures m + LengthInBits(n) <= FIXNUM_LENGTH <==> n * Pow2(m) < Pow2(FIXNUM_LENGTH)
  {
    hide LengthInBits, Pow2;
    LengthInBitsExact(n);
    var k := LengthInBits(n);
    ShiftedLength(n, m);
    MulMono(1, n, Pow2(m));
    LengthInBitsExact(n * Pow2(m));
    if m + k <= FIXNUM_LENGTH { Pow2Mono(m + k, FIXNUM_LENGTH); } else { Pow2Mono(FIXNUM_LENGTH, m + k - 1); }
  }

  /** The same for the negative of n, by the length of its complement. */
  lemma NegativeShiftRange(n: nat, m: nat)
    requires n > 0
    ensures m + LengthInBits(n - 1) <= FIXNUM_LENGTH <==> n * Pow2(m) <= Pow2(FIXNUM_LENGTH)
  {
    hide LengthInBits, Pow2;
    LengthInBitsExact(n - 1);
    var k := LengthInBits(n - 1);
    Pow2Add(k, m);
    if m + k <= FIXNUM_LENGTH {
      Pow2Mono(m + k, FIXNUM_LENGTH);
      MulMono(n, Pow2(k), Pow2(m));
    } else if k == 0 {
      ZeroLength(n - 1);
      Pow2Mono(FIXNUM_LENGTH + 1, m);
      NextPow2(FIXNUM_LENGTH);
    } else {
      ZeroLength(n - 1);
      Pow2Add(k - 1, m);
      MulMono(Pow2(k - 1) + 1, n, Pow2(m));
      NextTimes(Pow2(k - 1), Pow2(m));
      Pow2Mono(FIXNUM_LENGTH, m + k - 1);
    }
  }

  lemma ZeroLength(n: nat)
    ensures LengthInBits(n) == 0 <==> n == 0
  {
  }

  /** A number out of range stays out of range when it is multiplied. */
  lemma StaysOut(z: int, m: nat)
    requires !InRange(z)
    ensures !InRange(z * Pow2(m))
  {
    if z >= 0 {
      MulMono(1, Pow2(m), z);
    } else {
      MulMono(1, Pow2(m), -z);
      SignsOut(z, Pow2(m));
    }
  }

  method IntegerShiftLeft(n: Integer, m: nat) returns (r: Integer)
    requires Canonical(n)
    ensures Canonical(r) && r.Value() == n.Value() * Pow2(m)
  {
    hide LengthInBits, Pow2, Val;
    NoShift(n.Value());
    if m == 0 { return n; }
    if n.Big? {
      StaysOut(n.b.Value(), m);
      var b := BignumShiftLeft(n.b, m);
      return Big(b);
    }
    var n1 := n.n;
    if n1 < 0 {
      NegativeShiftRange(-n1, m);
      SignsOut(n1, Pow2(m));
      if m + LengthInBits(-1 - n1) <= FIXNUM_LENGTH {
        r := Fixnum(-((-n1) * Pow2(m)));
      } else {
        var b := UnsignedLongToShiftedBignum(-n1, m, false);
        b := BignumNegate(b);
        r := Big(b);
      }
    } else if 0 < n1 {
      ShiftRange(n1, m);
      MulMono(0, n1, Pow2(m));
      if m + LengthInBits(n1) <= FIXNUM_LENGTH {
        r := Fixnum(n1 * Pow2(m));
      } else {
        var b := UnsignedLongToShiftedBignum(n1, m, false);
        r := Big(b);
      }
    } else {
      ZeroInRange();
      ZeroTimes(Pow2(m));
      r := Fixnum(0);
    }
  }

  lemma ZeroTimes(p: int)
    ensures 0 * p == 0
  {
  }

  lemma ZeroInRange()
    ensures InRange(0) && InRange(-1)
  {
  }

  lemma QuotientInRange(z: int, m: nat)
    requires InRange(z)
    ensures InRange(z / Pow2(m))
    ensures m >= LONG_LENGTH ==> z / Pow2(m) == if z < 0 then -1 else 0
  {
    if m >= LONG_LENGTH { Pow2Mono(FIXNUM_LENGTH + 1, m); }
    NextPow2(FIXNUM_LENGTH);
    hide Pow2;
    QuotientBounds(z, Pow2(m), Pow2(FIXNUM_LENGTH));
  }

  lemma QuotientBounds(z: int, p: int, k: int)
    requires p > 0 && k > 0 && -k <= z < k
    ensures -k <= z / p < k
    ensures p > k ==> z / p == if z < 0 then -1 else 0
  {
    var q, r := z / p, z % p;
    assert z == p * q + r && 0 <= r < p;
    if q >= 0 {
      MulMono(1, p, q);
      if q >= 1 { MulMono(1, q, p); }
    } else {
      assert p * (-q) == -(p * q);
      if q <= -2 {
        assert p * (-q - 1) == p * (-q) - p;
        MulMono(1, p, -q - 1);
        MulMono(1, -q - 1, p);
      }
    }
  }

  /** Where shifting a bignum right reads past its end, and its floor division otherwise. */
  method IntegerShiftRight(n: Integer, m: nat) returns (r: Option<Integer>)
    requires Canonical(n)
    ensures r.None? <==>
      m != 0 && n.Big? && MissingDigit(n.b, Div(m, BIGNUM_DIGIT_LENGTH), Mod(m, BIGNUM_DIGIT_LENGTH))
    ensures r.Some? ==> Canonical(r.value) && r.value.Value() == n.Value() / Pow2(m)
  {
    hide Pow2, Val, InRange, Pow, Div, Mod;
    if m == 0 {
      FloorByOne(n.Value());
      return Some(n);
    }
    if n.Fixnum? {
      var n1 := n.n;
      QuotientInRange(n1, m);
      ComplementQuotient(-1 - n1, Pow2(m));
      if m >= LONG_LENGTH {
        return Some(Fixnum(if n1 < 0 then -1 else 0));
      }
      return Some(Fixnum(if n1 < 0 then -1 - (-1 - n1) / Pow2(m) else n1 / Pow2(m)));
    }
    var s := BignumShiftRight(n.b, m);
    if s.PastEnd? { return None; }
    var i := BignumToInteger(s.value);
    r := Some(i);
  }

  /** The negative of the radix is a bignum, and shifting it right by one digit and one bit is such a read. */
  lemma MissingDigitExample()
    ensures var n, m := Big(Bignum(true, [0, 1])), BIGNUM_DIGIT_LENGTH + 1;
      && Canonical(n) && n.Value() == -(RADIX as int)
      && MissingDigit(n.b, Div(m, BIGNUM_DIGIT_LENGTH), Mod(m, BIGNUM_DIGIT_LENGTH))
  {
    var m := BIGNUM_DIGIT_LENGTH + 1;
    RadixBound();
    AtLeastEight();
    RadixValue();
    Pow2Mono(FIXNUM_LENGTH + 1, BIGNUM_DIGIT_LENGTH);
    RadixPow2();
    QuotientUnique(m, BIGNUM_DIGIT_LENGTH, 1, 1);
  }

  lemma RadixValue()
    ensures Val([0, 1]) == RADIX && AllDigits([0, 1]) && Pow(1) == RADIX
  {
    RadixBound();
    ValCons(0, [1]);
    ValOne(1);
    assert Pow(0) == 1;
  }

  lemma FloorByOne(z: int)
    ensures z / Pow2(0) == z
  {
  }
}
