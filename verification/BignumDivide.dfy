/**
 Division of bignums by a digit: small denominators, medium ones, and the shifts that normalise them.
 */
module BignumDigitwiseDivision {
  import opened Digits
  import opened Bits
  import opened Bignums
  import opened BignumDigitDivision

  // ----- from the top digit down -----

  /** The digits q are the top of the quotient of n by v, and r is what is carried to the digit below. */
  ghost predicate QuotientSoFar(n: seq<nat>, q: seq<nat>, v: nat, r: nat) {
    |q| <= |n| && AllDigits(q) && Val(q) * v + r == Val(n[|n| - |q|..])
  }

  lemma QuotientStart(n: seq<nat>, v: nat)
    ensures QuotientSoFar(n, [], v, 0)
  {
    assert n[|n|..] == [];
  }

  lemma QuotientNext(n: seq<nat>, q: seq<nat>, v: nat, r: nat, d: nat, r': nat)
    requires QuotientSoFar(n, q, v, r) && |q| < |n| && d < RADIX
    requires d * v + r' == r * RADIX + n[|n| - |q| - 1]
    ensures QuotientSoFar(n, [d] + q, v, r')
  {
    hide Val;
    var i := |n| - |q| - 1;
    assert n[i..] == [n[i]] + n[i + 1..];
    ValCons(n[i], n[i + 1..]);
    ValCons(d, q);
    LowerDigit(d, Val(q), v, r, r', n[i], RADIX);
  }

  lemma LowerDigit(d: int, q: int, v: int, r: int, r': int, digit: int, b: int)
    requires d * v + r' == r * b + digit
    ensures (d + b * q) * v + r' == digit + b * (q * v + r)
  {
    assert (d + b * q) * v == d * v + b * (q * v);
    assert b * (q * v + r) == b * (q * v) + r * b;
  }

  lemma QuotientEnd(n: seq<nat>, q: seq<nat>, v: nat, r: nat)
    requires QuotientSoFar(n, q, v, r) && |q| == |n| && r < v
    ensures AllDigits(q) && Val(q) == Val(n) / v && r == Val(n) % v
  {
    assert n[0..] == n;
    QuotientUnique(Val(n), v, Val(q), r);
  }

  // ----- denominators below half a digit -----

  lemma PartBelow(a: nat, b: nat, v: nat, root: nat)
    requires a < v && b < root
    ensures (a * root + b) / v < root
  {
    MulMono(a + 1, v, root);
    assert (a + 1) * root == a * root + root;
    var q := (a * root + b) / v;
    if q >= root { MulMono(root, q, v); }
  }

  lemma ScaleDownSum(r: int, h: int, l: int, v: int, q1: int, r1: int, q2: int, r2: int, root: int, b: int)
    requires q1 * v + r1 == r * root + h && q2 * v + r2 == r1 * root + l && b == root * root
    ensures (q1 * root + q2) * v + r2 == r * b + (h * root + l)
  {
    assert (q1 * v + r1) * root == (r * root + h) * root;
    assert (q1 * v) * root == (q1 * root) * v && (r * root) * root == r * b;
    assert (q1 * root + q2) * v == (q1 * root) * v + q2 * v;
  }

  lemma ScaleDownFacts(r: nat, h: nat, l: nat, v: nat, q1: nat, r1: nat, q2: nat, r2: nat, root: nat, b: nat)
    requires r < v < root && h < root && l < root && b == root * root
    requires q1 == Div(r * root + h, v) && r1 == Mod(r * root + h, v)
    requires q2 == Div(r1 * root + l, v) && r2 == Mod(r1 * root + l, v)
    ensures q1 < root && q2 < root && r2 < v
    ensures q1 * root + q2 < b
    ensures (q1 * root + q2) * v + r2 == r * b + (h * root + l)
  {
    var n1, n2 := r * root + h, r1 * root + l;
    DivMod(n1, v);
    DivMod(n2, v);
    PartBelow(r, h, v, root);
    PartBelow(r1, l, v, root);
    TwoBelow(q1, q2, root);
    ScaleDownSum(r, h, l, v, q1, r1, q2, r2, root, b);
  }

  lemma DivMod(n: nat, v: nat)
    requires v > 0
    ensures (n / v) * v + n % v == n && n % v < v
  {
  }

  lemma TwoBelow(a: nat, b: nat, root: nat)
    requires a < root && b < root
    ensures a * root + b < root * root
  {
    MulMono(a + 1, root, root);
    assert (a + 1) * root == a * root + root;
  }

  /** Half a digit of the quotient at a time; d is the next digit, r what is left over from above. */
  function ScaleDownDigit(r: nat, d: nat, v: nat): (s: (nat, nat))
    requires r < v < RADIX_ROOT && d < RADIX
    ensures s.0 * v + s.1 == r * RADIX + d
    ensures s.0 < RADIX && s.1 < v
  {
    Halves(d);
    var h, l := HdHigh(d), HdLow(d);
    var n1 := HdCons(r, h);
    var q1, r1 := Div(n1, v), Mod(n1, v);
    var n2 := HdCons(r1, l);
    var q2, r2 := Div(n2, v), Mod(n2, v);
    ScaleDownFacts(r, h, l, v, q1, r1, q2, r2, RADIX_ROOT, RADIX);
    (HdCons(q1, q2), r2)
  }

  /** Divides in place and returns the remainder. */
  method BignumDestructiveScaleDown(n: array<nat>, denominator: nat) returns (remainder: nat)
    requires AllDigits(n[..]) && 1 < denominator < RADIX_ROOT
    modifies n
    ensures AllDigits(n[..]) && Val(n[..]) == old(Val(n[..])) / denominator
    ensures remainder == old(Val(n[..])) % denominator
  {
    hide Val, QuotientSoFar, ScaleDownDigit;
    ghost var before := n[..];
    remainder := 0;
    var scan := n.Length;
    QuotientStart(before, denominator);
    assert n[scan..] == [];
    while 0 < scan
      invariant 0 <= scan <= n.Length && remainder < denominator
      invariant n[..scan] == before[..scan]
      invariant QuotientSoFar(before, n[scan..], denominator, remainder)
    {
      ghost var q, r := n[scan..], remainder;
      scan := scan - 1;
      var twoDigits := n[scan];
      assert twoDigits == n[..scan + 1][scan] == before[scan];
      var step := ScaleDownDigit(remainder, twoDigits, denominator);
      n[scan] := step.0;
      remainder := step.1;
      QuotientNext(before, q, denominator, r, n[scan], remainder);
      assert n[scan..] == [n[scan]] + q;
    }
    QuotientEnd(before, n[0..], denominator, remainder);
    assert n[0..] == n[..];
  }

  function BignumDigitToBignum(digit: nat, negative: bool): (b: Bignum)
    requires digit < RADIX
    ensures Normal(b) && b.Magnitude() == digit && b.negative == (negative && !b.IsZero())
  {
    ValOne(digit);
    if digit == 0 then BIGNUM_ZERO else Bignum(negative, [digit])
  }

  method BignumRemainderUnsignedSmallDenominator(n: Bignum, d: nat, negative: bool) returns (b: Bignum)
    requires AllDigits(n.digits) && 1 < d < RADIX_ROOT
    ensures Normal(b) && b.Magnitude() == n.Magnitude() % d && b.negative == (negative && !b.IsZero())
  {
    hide Val, QuotientSoFar, ScaleDownDigit;
    var scan := n.Length();
    var r: nat := 0;
    ghost var q: seq<nat> := [];
    QuotientStart(n.digits, d);
    while 0 < scan
      invariant 0 <= scan <= n.Length() && r < d && |q| == n.Length() - scan
      invariant QuotientSoFar(n.digits, q, d, r)
    {
      scan := scan - 1;
      var twoDigits := n.digits[scan];
      var step := ScaleDownDigit(r, twoDigits, d);
      QuotientNext(n.digits, q, d, r, step.0, step.1);
      q := [step.0] + q;
      r := step.1;
    }
    QuotientEnd(n.digits, q, d, r);
    RadixBound();
    b := BignumDigitToBignum(r, negative);
  }

  method BignumDivideUnsignedSmallDenominator(numerator: Bignum, denominator: nat, qNegative: bool, rNegative: bool)
    returns (q: Bignum, r: Bignum)
    requires AllDigits(numerator.digits) && 1 < denominator < RADIX_ROOT
    ensures Normal(q) && q.Magnitude() == numerator.Magnitude() / denominator
    ensures q.negative == (qNegative && !q.IsZero())
    ensures Normal(r) && r.Magnitude() == numerator.Magnitude() % denominator
    ensures r.negative == (rNegative && !r.IsZero())
  {
    hide Val;
    var n := new nat[numerator.Length()](i requires 0 <= i < numerator.Length() => numerator.digits[i]);
    assert n[..] == numerator.digits;
    var remainder := BignumDestructiveScaleDown(n, denominator);
    q := BignumTrim(n, qNegative);
    RadixBound();
    r := BignumDigitToBignum(remainder, rNegative);
  }

  // ----- shifting whole numbers within a digit -----

  lemma NormalizationStep(digit: nat, carry: nat, left: nat, right: nat)
    requires left + right == BIGNUM_DIGIT_LENGTH && digit < RADIX && carry < Pow2(left)
    ensures var d := Bitwise(IOR, Bitwise(AND, digit, Pow2(right) - 1) * Pow2(left), carry);
      d < RADIX && d + RADIX * (digit / Pow2(right)) == digit + (Pow2(left) - 1) * digit + carry
    ensures digit / Pow2(right) < Pow2(left)
  {
    hide Bitwise, Pow2;
    RadixSplit(right);
    AndMask(digit, right);
    IorDisjoint(digit % Pow2(right), left, carry);
    ShiftSplit(digit, carry, Pow2(right), Pow2(left), RADIX);
  }

  /** A digit of p * s values shifted left over s values. */
  lemma ShiftSplit(digit: nat, carry: nat, p: nat, s: nat, b: nat)
    requires p > 0 && b == p * s && digit < b && carry < s
    ensures digit / p < s
    ensures (digit % p) * s + carry < b
    ensures (digit % p) * s + carry + b * (digit / p) == digit + (s - 1) * digit + carry
  {
    var h: nat, l: nat := digit / p, digit % p;
    DivMod(digit, p);
    assert digit == p * h + l;
    SplitBelow(h, l, p, s);
    MulMono(l + 1, p, s);
    NextTimes(l, s);
    Distribute(p, h, l, s);
    NextTimes(s - 1, digit);
  }

  lemma Distribute(p: int, h: int, l: int, s: int)
    ensures (p * h + l) * s == (p * s) * h + l * s
  {
    assert (p * h) * s == (p * s) * h;
  }

  /** And shifted right, with c coming in from above. */
  lemma ShiftJoin(digit: nat, c: nat, p: nat, s: nat, b: nat)
    requires p > 0 && b == p * s && digit < b && c < p
    ensures digit / p < s
    ensures c * s + digit / p < b
    ensures (c * s + digit / p) * p + digit % p == c * b + digit
  {
    var h, l := digit / p, digit % p;
    assert digit == p * h + l;
    SplitBelow(h, l, p, s);
    MulMono(c + 1, p, s);
    assert (c + 1) * s == c * s + s;
    assert (c * s + h) * p == c * (p * s) + p * h;
  }

  lemma SplitBelow(h: nat, l: nat, p: nat, s: nat)
    requires p * h + l < p * s && p > 0
    ensures h < s
  {
    if h >= s { MulMono(s, h, p); }
  }

  /** The low bits of a digit shifted over the carry, and its high bits. */
  function NormalizedDigit(digit: nat, carry: nat, left: nat, right: nat): (r: (nat, nat))
    requires left + right == BIGNUM_DIGIT_LENGTH && digit < RADIX && carry < Pow2(left)
    ensures r.0 < RADIX && r.1 < Pow2(left)
    ensures r.0 + RADIX * r.1 == digit + (Pow2(left) - 1) * digit + carry
  {
    NormalizationStep(digit, carry, left, right);
    MulMono(0, Bitwise(AND, digit, Pow2(right) - 1), Pow2(left));
    (Bitwise(IOR, Bitwise(AND, digit, Pow2(right) - 1) * Pow2(left), carry), Div(digit, Pow2(right)))
  }

  /** Shifts source left into target, which must have room. */
  method BignumDestructiveNormalization(source: seq<nat>, target: array<nat>, shiftLeft: nat)
    requires AllDigits(source) && 0 < shiftLeft < BIGNUM_DIGIT_LENGTH
    requires |source| <= target.Length <= |source| + 1
    requires target.Length == |source| ==> Val(source) * Pow2(shiftLeft) < Pow(|source|)
    modifies target
    ensures AllDigits(target[..]) && Val(target[..]) == Val(source) * Pow2(shiftLeft)
    ensures target.Length > |source| ==> target[|source|] < Pow2(shiftLeft)
  {
    hide Val, Pow, Pow2, NormalizedDigit, SumSoFar, RADIX, RADIX_ROOT;
    var carry: nat := 0;
    var shiftRight := BIGNUM_DIGIT_LENGTH - shiftLeft;
    var scan := 0;
    SumStart(source, source, Pow2(shiftLeft) - 1);
    assert target[..0] == [];
    while scan < |source|
      invariant 0 <= scan <= |source| && carry < Pow2(shiftLeft)
      invariant SumSoFar(source, source, Pow2(shiftLeft) - 1, target[..scan], carry)
    {
      ghost var s, c := target[..scan], carry;
      var step := NormalizedDigit(source[scan], carry, shiftLeft, shiftRight);
      target[scan], carry := step.0, step.1;
      SumNext(source, source, Pow2(shiftLeft) - 1, s, target[scan], c, carry);
      scan := scan + 1;
      assert target[..scan] == s + [target[scan - 1]];
    }
    SumEnd(source, source, Pow2(shiftLeft) - 1, target[..scan], carry);
    assert Val(source) * Pow2(shiftLeft) == Val(source) + (Pow2(shiftLeft) - 1) * Val(source);
    if scan < target.Length {
      ValSnoc(target[..scan], carry);
      target[scan] := carry;
      assert target[..] == target[..scan] + [carry];
      RadixSplit(shiftLeft);
      MulMono(1, Pow2(shiftRight), Pow2(shiftLeft));
    } else {
      assert target[..] == target[..scan];
      TopCarry(target[..], carry, Val(source) * Pow2(shiftLeft));
    }
  }

  lemma TopCarry(s: seq<nat>, carry: nat, v: nat)
    requires Val(s) + carry * Pow(|s|) == v && v < Pow(|s|)
    ensures carry == 0
  {
    if carry > 0 { MulMono(1, carry, Pow(|s|)); }
  }

  lemma UnnormalizationStep(digit: nat, c: nat, left: nat, right: nat)
    requires left + right == BIGNUM_DIGIT_LENGTH && digit < RADIX && c < Pow2(right)
    ensures var d := Bitwise(IOR, digit / Pow2(right), c * Pow2(left));
      d < RADIX && d * Pow2(right) + digit % Pow2(right) == c * RADIX + digit
    ensures Bitwise(AND, digit, Pow2(right) - 1) == digit % Pow2(right)
  {
    hide Bitwise, Pow2;
    RadixSplit(right);
    AndMask(digit, right);
    ShiftJoin(digit, c, Pow2(right), Pow2(left), RADIX);
    IorDisjoint(c, left, digit / Pow2(right));
    BitwiseSwapped(IOR, digit / Pow2(right), c * Pow2(left));
  }

  /** Shifts right in place; the bits shifted out must be zeros. */
  method BignumDestructiveUnnormalization(n: array<nat>, shiftRight: nat)
    requires AllDigits(n[..]) && 0 < shiftRight < BIGNUM_DIGIT_LENGTH && Val(n[..]) % Pow2(shiftRight) == 0
    modifies n
    ensures AllDigits(n[..]) && Val(n[..]) == old(Val(n[..])) / Pow2(shiftRight)
  {
    hide Val, Pow2, Bitwise, QuotientSoFar;
    ghost var before := n[..];
    var shiftLeft := BIGNUM_DIGIT_LENGTH - shiftRight;
    var mask := Pow2(shiftRight) - 1;
    var scan := n.Length;
    var carry: nat := 0;
    ghost var c: nat := 0;
    QuotientStart(before, Pow2(shiftRight));
    assert n[scan..] == [];
    while 0 < scan
      invariant 0 <= scan <= n.Length && c < Pow2(shiftRight) && carry == c * Pow2(shiftLeft)
      invariant n[..scan] == before[..scan]
      invariant QuotientSoFar(before, n[scan..], Pow2(shiftRight), c)
    {
      ghost var q, c0 := n[scan..], c;
      scan := scan - 1;
      var digit := n[scan];
      assert digit == n[..scan + 1][scan] == before[scan];
      UnnormalizationStep(digit, c, shiftLeft, shiftRight);
      n[scan] := Bitwise(IOR, digit / Pow2(shiftRight), carry);
      carry := Bitwise(AND, digit, mask) * Pow2(shiftLeft);
      c := digit % Pow2(shiftRight);
      QuotientNext(before, q, Pow2(shiftRight), c0, n[scan], c);
      assert n[scan..] == [n[scan]] + q;
    }
    QuotientEnd(before, n[0..], Pow2(shiftRight), c);
    assert n[0..] == n[..];
  }

  /** Shifts a digit left until its top bit is set. */
  method NormalizeDigit(d: nat) returns (v: nat, shift: nat)
    requires 0 < d < RADIX
    ensures v == d * Pow2(shift) && RADIX / 2 <= v < RADIX && shift < BIGNUM_DIGIT_LENGTH
  {
    RadixBound();
    v, shift := d, 0;
    while v < RADIX / 2
      invariant v == d * Pow2(shift) && 0 < v < RADIX
      decreases RADIX - v
    {
      Doubled(d, Pow2(shift));
      v := v * 2;
      shift := shift + 1;
    }
    RadixPow2();
    MulMono(1, d, Pow2(shift));
    if shift >= BIGNUM_DIGIT_LENGTH { Pow2Mono(BIGNUM_DIGIT_LENGTH, shift); }
  }

  lemma Doubled(d: int, p: int)
    ensures (d * p) * 2 == d * (2 * p)
  {
  }

  /** A scaled division has the same quotient and a scaled remainder. */
  lemma ScaledDivision(n: nat, v: nat, s: nat)
    requires v > 0 && s > 0
    ensures v * s > 0
    ensures (n * s) / (v * s) == n / v && (n * s) % (v * s) == (n % v) * s
    ensures ((n % v) * s) / s == n % v && ((n % v) * s) % s == 0
  {
    var q, r := n / v, n % v;
    MulStrict(r, v, s);
    assert n * s == (v * s) * q + r * s by { assert n == v * q + r; assert (v * q) * s == (v * s) * q; }
    DivUnique(v * s, q, r * s, (n * s) / (v * s), (n * s) % (v * s));
    DivUnique(s, r, 0, (r * s) / s, (r * s) % s);
  }

  // ----- denominators of one digit -----

  method BignumDivideUnsignedMediumDenominator(numerator: Bignum, denominator0: nat, quotient: bool, remainder: bool,
                                               qNegative: bool, rNegative: bool)
    returns (q: Bignum, r: Bignum)
    requires AllDigits(numerator.digits) && RADIX_ROOT <= denominator0 < RADIX
    ensures quotient ==> Normal(q) && q.Magnitude() == numerator.Magnitude() / denominator0
    ensures quotient ==> q.negative == (qNegative && !q.IsZero())
    ensures remainder ==> Normal(r) && r.Magnitude() == numerator.Magnitude() % denominator0
    ensures remainder ==> r.negative == (rNegative && !r.IsZero())
  {
    hide Val, Pow, QuotientSoFar;
    RadixBound();
    var denominator, shift := NormalizeDigit(denominator0);
    var digits: array<nat>;
    ghost var s := Pow2(shift);
    if shift == 0 {
      digits := new nat[numerator.Length()](i requires 0 <= i < numerator.Length() => numerator.digits[i]);
      assert digits[..] == numerator.digits && s == 1;
    } else {
      digits := new nat[numerator.Length() + 1];
      BignumDestructiveNormalization(numerator.digits, digits, shift);
    }
    ScaledDivision(numerator.Magnitude(), denominator0, s);
    q, r := BIGNUM_ZERO, BIGNUM_ZERO;
    var rest := DivideByDigit(digits, denominator, quotient);
    if quotient { q := BignumTrim(digits, qNegative); }
    if remainder {
      if shift != 0 { rest := rest / Pow2(shift); }
      r := BignumDigitToBignum(rest, rNegative);
    }
  }

  /** The loops over the digits; only the one for the quotient stores into them. */
  method DivideByDigit(n: array<nat>, v: nat, store: bool) returns (r: nat)
    requires AllDigits(n[..]) && RADIX_ROOT <= v < RADIX
    modifies n
    ensures r == old(Val(n[..])) % v
    ensures store ==> AllDigits(n[..]) && Val(n[..]) == old(Val(n[..])) / v
  {
    hide Val, QuotientSoFar;
    r := 0;
    ghost var before := n[..];
    ghost var q: seq<nat> := [];
    var scan := n.Length;
    QuotientStart(before, v);
    while 0 < scan
      invariant 0 <= scan <= n.Length && r < v && |q| == n.Length - scan
      invariant n[..scan] == before[..scan]
      invariant QuotientSoFar(before, q, v, r) && (store ==> n[scan..] == q)
    {
      scan := scan - 1;
      ghost var r0 := r;
      assert n[scan] == n[..scan + 1][scan] == before[scan];
      var qj;
      r, qj := BignumDigitDivide(r, n[scan], v);
      QuotientNext(before, q, v, r0, qj, r);
      q := [qj] + q;
      if store { n[scan] := qj; }
    }
    QuotientEnd(before, q, v, r);
    assert store ==> n[..] == n[0..];
  }
}
