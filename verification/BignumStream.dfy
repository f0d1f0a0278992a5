/**
 Conversion of bignums to and from streams of digits in a small radix.
 */
module BignumStreams {
  import opened Digits
  import opened Bits
  import opened Bignums
  import opened BignumMultiplication
  import opened BignumDigitwiseDivision

  // ----- what the streams stand for -----

  /** The digits of n, least significant first, without leading zeros. */
  function RadixDigits(n: nat, radix: nat): seq<nat>
    requires radix > 1
  {
    if n == 0 then [] else SmallerQuotient(n, radix); [Mod(n, radix)] + RadixDigits(Div(n, radix), radix)
  }

  lemma SmallerQuotient(n: nat, d: nat)
    requires n > 0 && d > 1
    ensures Div(n, d) < n && n == Div(n, d) * d + Mod(n, d)
    ensures Div(n, d) == 0 ==> Mod(n, d) == n
    ensures Div(n, d) == n / d && Mod(n, d) == n % d
  {
    DivMod(n, d);
    MulMono(2, d, n / d);
    assert 0 * d == 0;
  }

  /** The number fed one digit after the other, most significant first. */
  function Fed(s: seq<nat>, radix: nat): nat {
    if s == [] then 0 else Fed(s[..|s| - 1], radix) * radix + s[|s| - 1]
  }

  function Reversed(s: seq<nat>): seq<nat> {
    if s == [] then [] else Reversed(s[1..]) + [s[0]]
  }

  /** Feeding the emitted digits in reverse gives the number back. */
  lemma {:induction false} FedReversed(n: nat, radix: nat)
    requires radix > 1
    ensures Fed(Reversed(RadixDigits(n, radix)), radix) == n
  {
    if n > 0 {
      SmallerQuotient(n, radix);
      hide Div, Mod;
      var q := Div(n, radix);
      FedReversed(q, radix);
      var d := RadixDigits(n, radix);
      assert d[1..] == RadixDigits(q, radix);
      var r := Reversed(d);
      assert r[..|r| - 1] == Reversed(d[1..]) && r[|r| - 1] == Mod(n, radix);
    }
  }

  lemma {:induction false} RadixDigitsBelow(n: nat, radix: nat, i: nat)
    requires radix > 1 && i < |RadixDigits(n, radix)|
    ensures RadixDigits(n, radix)[i] < radix
  {
    hide Div, Mod;
    SmallerQuotient(n, radix);
    if i > 0 { RadixDigitsBelow(Div(n, radix), radix, i - 1); }
  }

  /** The first of the digits fed counts most. */
  lemma {:induction false} FedFirst(d: nat, s: seq<nat>, radix: nat)
    requires radix > 0
    ensures Fed([], radix) == 0 && Fed([d] + s, radix) == d * Power(radix, |s|) + Fed(s, radix)
    decreases |s|
  {
    if s == [] {
      assert [d] + s == [d] && [d][..0] == [];
      assert Power(radix, 0) == 1;
    } else {
      var n := |s| - 1;
      assert ([d] + s)[..n + 1] == [d] + s[..n];
      FedFirst(d, s[..n], radix);
      Distributed(d, Power(radix, n), Fed(s[..n], radix), radix);
    }
  }

  lemma Distributed(d: nat, p: nat, f: nat, radix: nat)
    ensures (d * p + f) * radix == d * (radix * p) + f * radix
  {
    assert d * p * radix == d * (radix * p);
  }

  /** Digit i of n, and that the last one is not zero. */
  lemma {:induction false} RadixDigitAt(n: nat, radix: nat, i: nat)
    requires radix > 1 && i < |RadixDigits(n, radix)|
    ensures RadixDigits(n, radix)[i] == (n / Power(radix, i)) % radix
    ensures i == |RadixDigits(n, radix)| - 1 ==> RadixDigits(n, radix)[i] > 0
    decreases i
  {
    SmallerQuotient(n, radix);
    hide Div, Mod;
    var q := Div(n, radix);
    if i == 0 {
      assert Power(radix, 0) == 1 && n / 1 == n;
      if q > 0 { assert |RadixDigits(q, radix)| > 0; }
    } else {
      RadixDigitAt(q, radix, i - 1);
      QuotientsCompose(n, radix, Power(radix, i - 1));
    }
  }

  lemma QuotientsCompose(n: nat, a: nat, b: nat)
    requires a > 0 && b > 0
    ensures a * b > 0 && (n / a) / b == n / (a * b)
  {
    var q, r := n / a, n % a;
    var q', r' := q / b, q % b;
    DivMod(n, a);
    DivMod(q, b);
    MulMono(1, a, b);
    assert n == (q' * b + r') * a + r == q' * (a * b) + (r' * a + r);
    MulMono(r' + 1, b, a);
    assert (r' + 1) * a == r' * a + a;
    MulMono(0, r', a);
    QuotientUnique(n, a * b, q', r' * a + r);
  }

  function Power(b: nat, n: nat): (r: nat)
    requires b > 0
    ensures r > 0
  {
    if n == 0 then 1 else MulMono(1, b, Power(b, n - 1)); b * Power(b, n - 1)
  }

  lemma {:induction false} FedBound(s: seq<nat>, radix: nat)
    requires radix > 0 && forall i | 0 <= i < |s| :: s[i] < radix
    ensures Fed(s, radix) < Power(radix, |s|)
  {
    if s != [] {
      var t := s[..|s| - 1];
      FedBound(t, radix);
      MulMono(Fed(t, radix) + 1, Power(radix, |t|), radix);
      NextTimes(Fed(t, radix), radix);
    }
  }

  // ----- lengths -----

  /** The number of bits up to the highest one. */
  function LengthInBits(x: nat): nat {
    if x == 0 then 0 else 1 + LengthInBits(x / 2)
  }

  lemma {:induction false} LengthInBitsExact(x: nat)
    ensures x < Pow2(LengthInBits(x))
    ensures x > 0 ==> LengthInBits(x) > 0 && Pow2(LengthInBits(x) - 1) <= x
  {
    if x > 0 { LengthInBitsExact(x / 2); }
  }

  function BitsToDigits(n: nat): nat {
    (n + (BIGNUM_DIGIT_LENGTH - 1)) / BIGNUM_DIGIT_LENGTH
  }

  lemma {:induction false} PowIsPow2(n: nat)
    ensures Pow(n) == Pow2(n * BIGNUM_DIGIT_LENGTH)
  {
    if n > 0 {
      PowIsPow2(n - 1);
      RadixPow2();
      Pow2Add(BIGNUM_DIGIT_LENGTH, (n - 1) * BIGNUM_DIGIT_LENGTH);
      NextTimes(n - 1, BIGNUM_DIGIT_LENGTH);
    }
  }

  lemma DigitsCoverBits(n: nat)
    ensures n <= BitsToDigits(n) * BIGNUM_DIGIT_LENGTH
  {
    DivMod(n + (BIGNUM_DIGIT_LENGTH - 1), BIGNUM_DIGIT_LENGTH);
  }

  lemma {:induction false} PowerBelow(b: nat, k: nat, n: nat)
    requires 0 < b <= Pow2(k)
    ensures Power(b, n) <= Pow2(n * k)
  {
    if n > 0 {
      PowerBelow(b, k, n - 1);
      Pow2Add(k, (n - 1) * k);
      NextTimes(n - 1, k);
      MulMono(b, Pow2(k), Power(b, n - 1));
      MulMono(Power(b, n - 1), Pow2((n - 1) * k), Pow2(k));
    } else {
      assert 0 * k == 0;
    }
  }

  /** The space allocated for n digits is enough for every number of them. */
  lemma StreamFits(n: nat, radix: nat)
    requires radix > 0
    ensures Power(radix, n) <= Pow(BitsToDigits(n * LengthInBits(radix)))
  {
    LengthInBitsExact(radix);
    PowerBelow(radix, LengthInBits(radix), n);
    var bits := n * LengthInBits(radix);
    DigitsCoverBits(bits);
    PowIsPow2(BitsToDigits(bits));
    Pow2Mono(bits, BitsToDigits(bits) * BIGNUM_DIGIT_LENGTH);
  }

  lemma {:induction false} PowerMono(b: nat, m: nat, n: nat)
    requires b > 0 && m <= n
    ensures Power(b, m) <= Power(b, n)
    decreases n
  {
    if m < n {
      PowerMono(b, m, n - 1);
      MulMono(1, b, Power(b, n - 1));
    }
  }

  // ----- from a machine integer -----

  /** The digits shifted out of a positive number. */
  method LongDigits(n: nat) returns (digits: seq<nat>)
    requires n > 0
    ensures Trimmed(digits) && digits != [] && Val(digits) == n
  {
    hide Val, Pow, RADIX, RADIX_ROOT, Div, Mod;
    RadixBound();
    var accumulator := n;
    digits := [];
    FirstLongDigit(n);
    while true
      invariant accumulator > 0 && AllDigits(digits)
      invariant Val(digits) + Pow(|digits|) * accumulator == n
      decreases accumulator
    {
      var digit, rest := Mod(accumulator, RADIX), Div(accumulator, RADIX);
      ValSnoc(digits, digit);
      SmallerQuotient(accumulator, RADIX);
      Regroup(Pow(|digits|), RADIX, rest, digit);
      NextPow(|digits|);
      digits := digits + [digit];
      accumulator := rest;
      if accumulator == 0 {
        assert Pow(|digits|) * 0 == 0;
        break;
      }
    }
  }

  lemma FirstLongDigit(n: nat)
    ensures Val([]) + Pow(0) * n == n
  {
  }

  method LongToBignum(n: int) returns (b: Bignum)
    ensures Normal(b) && b.Value() == n
  {
    hide Val;
    TrimmedZero([]);
    if n == 0 { return BIGNUM_ZERO; }
    if n == 1 { return BignumOne(false); }
    if n == -1 { return BignumOne(true); }
    var accumulator: nat := if n < 0 then -n else n;
    var digits := LongDigits(accumulator);
    b := Bignum(n < 0, digits);
  }

  lemma NextPow(n: nat)
    ensures Pow(n + 1) == RADIX * Pow(n)
  {
  }

  lemma Regroup(p: int, b: int, q: int, d: int)
    ensures p * (q * b + d) == p * d + (b * p) * q
  {
    assert p * (q * b) == (b * p) * q;
  }

  // ----- to a stream -----

  lemma {:induction false} ZeroVal(s: seq<nat>)
    requires Val(s) == 0
    ensures forall i | 0 <= i < |s| :: s[i] == 0
  {
    if s != [] {
      MulMono(1, RADIX, Val(s[1..]));
      ZeroVal(s[1..]);
      assert forall i | 1 <= i < |s| :: s[i] == s[1..][i - 1];
    }
  }

  /** A small number leaves the top digits zero. */
  lemma TopZeros(s: seq<nat>, k: nat)
    requires k <= |s| && Val(s) < Pow(k)
    ensures forall i | k <= i < |s| :: s[i] == 0
  {
    hide Val;
    assert s == s[..k] + s[k..];
    ValAppend(s[..k], s[k..]);
    if Val(s[k..]) > 0 { MulMono(1, Val(s[k..]), Pow(k)); }
    ZeroVal(s[k..]);
    forall i | k <= i < |s| ensures s[i] == 0 { assert s[i] == s[k..][i - k]; }
  }

  lemma TopDigitCounts(s: seq<nat>, k: nat)
    requires AllDigits(s) && 0 < k <= |s| && forall i | k <= i < |s| :: s[i] == 0
    ensures Val(s) < Pow(k) && (s[k - 1] != 0 ==> Val(s) > 0)
  {
    hide Val;
    assert s == s[..k] + s[k..];
    ValAppend(s[..k], s[k..]);
    ValZeros(s[k..]);
    assert Pow(k) * 0 == 0;
    ValBound(s[..k]);
    if s[k - 1] != 0 { ValTop(s[..k]); }
  }

  lemma AllZero(s: seq<nat>)
    requires forall i | 0 <= i < |s| :: s[i] == 0
    ensures Val(s) == 0
  {
    ValZeros(s);
  }

  /** Calls the consumer on the digits, which are collected here. */
  method BignumToDigitStream(bignum: Bignum, radix: nat) returns (emitted: seq<nat>)
    requires Normal(bignum) && 1 < radix < RADIX_ROOT
    ensures emitted == RadixDigits(bignum.Magnitude(), radix)
  {
    hide Val, Pow, RADIX_ROOT, RADIX, RadixDigits;
    emitted := [];
    if !bignum.IsZero() {
      var working := new nat[bignum.Length()](i requires 0 <= i < bignum.Length() => bignum.digits[i]);
      assert working[..] == bignum.digits;
      var scan := working.Length;
      while 0 < scan
        invariant 0 <= scan <= working.Length && AllDigits(working[..])
        invariant forall i | scan <= i < working.Length :: working[i] == 0
        invariant emitted + RadixDigits(Val(working[..]), radix) == RadixDigits(bignum.Magnitude(), radix)
        decreases scan, Val(working[..])
      {
        if working[scan - 1] == 0 {
          scan := scan - 1;
        } else {
          TopDigitCounts(working[..], scan);
          ghost var v := Val(working[..]);
          var digit := BignumDestructiveScaleDown(working, radix);
          SmallerQuotient(v, radix);
          TopZeros(working[..], scan);
          NextRadixDigit(emitted, v, radix);
          emitted := emitted + [digit];
        }
      }
      AllZero(working[..]);
      NoRadixDigits(radix);
    } else {
      AllZero([]);
      NoRadixDigits(radix);
    }
  }

  lemma NoRadixDigits(radix: nat)
    requires radix > 1
    ensures RadixDigits(0, radix) == []
  {
  }

  lemma NextRadixDigit(e: seq<nat>, v: nat, radix: nat)
    requires radix > 1 && v > 0
    ensures e + RadixDigits(v, radix) == e + [v % radix] + RadixDigits(v / radix, radix)
  {
    SmallerQuotient(v, radix);
  }

  // ----- from a stream -----

  /** Adds a digit in place; the sum must fit. */
  method BignumDestructiveAdd(r: array<nat>, n: nat)
    requires AllDigits(r[..]) && n < RADIX && Val(r[..]) + n < Pow(r.Length) && r.Length > 0
    modifies r
    ensures AllDigits(r[..]) && Val(r[..]) == old(Val(r[..])) + n
  {
    hide Val, Pow, RADIX_ROOT, RADIX;
    RadixBound();
    ghost var before := r[..];
    var scan := 0;
    var digit: nat := r[scan] + n;
    AddStart(before, n);
    while true
      invariant 0 <= scan < r.Length && AllDigits(r[..])
      invariant r[scan + 1..] == before[scan + 1..]
      invariant digit <= RADIX - 1 + RADIX - 1
      invariant Val(r[..scan]) + Pow(scan) * digit == Val(before[..scan + 1]) + n
      decreases r.Length - scan
    {
      if digit < RADIX {
        r[scan] := digit;
        AddEnd(before, r[..], scan, n);
        return;
      }
      r[scan] := digit - RADIX;
      ValNext(r[..], scan);
      assert r[..][..scan + 1] == r[..scan + 1] && r[..][..scan] == r[..scan];
      if scan + 1 == r.Length {
        AddOverflow(Val(r[..scan]), Pow(scan), digit, RADIX);
        assert before[..scan + 1] == before;
        NextPow(scan);
        assert false;
      }
      assert r[scan + 1] == r[scan + 1..][0] == before[scan + 1];
      AddNext(before, scan, Val(r[..scan]), digit, n);
      scan := scan + 1;
      digit := r[scan] + 1;
    }
  }

  lemma AddStart(s: seq<nat>, n: nat)
    requires s != []
    ensures Val(s[..0]) + Pow(0) * (s[0] + n) == Val(s[..1]) + n
  {
    assert s[..1] == [s[0]];
    ValOne(s[0]);
    assert s[..0] == [];
    assert Pow(0) * (s[0] + n) == s[0] + n;
  }

  lemma AddNext(s: seq<nat>, i: nat, low: nat, digit: nat, n: nat)
    requires i + 1 < |s| && digit >= RADIX
    requires low + Pow(i) * digit == Val(s[..i + 1]) + n
    ensures low + Pow(i) * (digit - RADIX) + Pow(i + 1) * (s[i + 1] + 1) == Val(s[..i + 2]) + n
  {
    hide Val;
    ValNext(s, i + 1);
    NextPow(i);
    CarryOn(Pow(i), digit, RADIX, s[i + 1]);
  }

  lemma CarryOn(p: int, digit: int, b: int, d: int)
    ensures p * (digit - b) + (b * p) * (d + 1) == p * digit + (b * p) * d
  {
  }

  lemma AddOverflow(low: nat, p: nat, digit: nat, b: nat)
    requires digit >= b
    ensures low + p * digit >= b * p
  {
    MulMono(b, digit, p);
  }

  lemma AddEnd(was: seq<nat>, now: seq<nat>, i: nat, n: nat)
    requires |was| == |now| && i < |was| && now[i + 1..] == was[i + 1..]
    requires Val(now[..i]) + Pow(i) * now[i] == Val(was[..i + 1]) + n
    ensures Val(now) == Val(was) + n
  {
    hide Val;
    ValNext(now, i);
    assert now == now[..i + 1] + now[i + 1..] && was == was[..i + 1] + was[i + 1..];
    ValAppend(now[..i + 1], now[i + 1..]);
    ValAppend(was[..i + 1], was[i + 1..]);
  }

  function Signed(n: int, negative: bool): int {
    if negative then -n else n
  }

  /** Takes the digits from the producer in order, most significant first. */
  method DigitStreamToBignum(digits: seq<nat>, radix: nat, negative: bool) returns (b: Bignum)
    requires 1 < radix < RADIX_ROOT && forall i | 0 <= i < |digits| :: digits[i] < radix
    ensures Normal(b) && b.Value() == Signed(Fed(digits, radix), negative)
  {
    hide Val, Pow, RADIX, RADIX_ROOT, BitsToDigits, Fed;
    SmallFactor(radix);
    AllZero([]);
    FedShort(digits, radix);
    if |digits| == 0 { return BIGNUM_ZERO; }
    if |digits| == 1 {
      b := LongToBignum(Signed(digits[0], negative));
      return;
    }
    var length := BitsToDigits(|digits| * LengthInBits(radix));
    StreamFits(|digits|, radix);
    var result := new nat[length](_ => 0);
    AllZero(result[..]);
    RadixBound();
    var i := 0;
    assert digits[..0] == [];
    FedShort([], radix);
    PositiveLength(digits, radix);
    while i < |digits|
      invariant 0 <= i <= |digits| && AllDigits(result[..])
      invariant Val(result[..]) == Fed(digits[..i], radix)
    {
      FeedNext(digits, i, radix);
      BignumDestructiveScaleUp(result, radix);
      BignumDestructiveAdd(result, digits[i]);
      i := i + 1;
    }
    assert digits[..i] == digits;
    b := BignumTrim(result, negative);
  }

  lemma FedShort(s: seq<nat>, radix: nat)
    ensures s == [] ==> Fed(s, radix) == 0
    ensures |s| == 1 ==> Fed(s, radix) == s[0]
  {
    if |s| == 1 {
      assert s[..0] == [];
      assert 0 * radix == 0;
    }
  }

  lemma PositiveLength(s: seq<nat>, radix: nat)
    requires |s| > 1 && radix > 1
    ensures BitsToDigits(|s| * LengthInBits(radix)) > 0
  {
    var bits := |s| * LengthInBits(radix);
    MulMono(1, LengthInBits(radix), |s|);
    DigitsCoverBits(bits);
    assert 0 * BIGNUM_DIGIT_LENGTH == 0;
  }

  /** Taking one digit more; neither step overflows the space allocated. */
  lemma FeedNext(s: seq<nat>, i: nat, radix: nat)
    requires i < |s| && 1 < radix && forall k | 0 <= k < |s| :: s[k] < radix
    ensures Fed(s[..i + 1], radix) == Fed(s[..i], radix) * radix + s[i]
    ensures Fed(s[..i + 1], radix) < Power(radix, |s|)
  {
    assert s[..i + 1][..i] == s[..i];
    FedBound(s[..i + 1], radix);
    PowerMono(radix, i + 1, |s|);
  }

  /** A bignum comes back from the reverse of its digits. */
  lemma StreamsUndoEachOther(b: Bignum, radix: nat, c: Bignum)
    requires Normal(b) && Normal(c) && radix > 1
    requires c.Value() == Signed(Fed(Reversed(RadixDigits(b.Magnitude(), radix)), radix), b.negative)
    ensures c == b
  {
    FedReversed(b.Magnitude(), radix);
    NormalUnique(b, c);
  }
}
