/**
 Division by bignums of two digits and more: estimate, multiply and subtract, add back.
 */
module BignumLongDivision {
  import opened Digits
  import opened Bits
  import opened Bignums
  import opened BignumMultiplication
  import opened BignumDigitDivision
  import opened BignumDigitwiseDivision

  // ----- the estimate -----

  /** The top two digits of v, and the top three of the part of the numerator it divides. */
  function TopTwo(v: seq<nat>): nat
    requires |v| >= 2
  {
    v[|v| - 1] * RADIX + v[|v| - 2]
  }

  function TopThree(w: seq<nat>): nat
    requires |w| >= 3
  {
    (w[|w| - 1] * RADIX + w[|w| - 2]) * RADIX + w[|w| - 3]
  }

  /** A number is its top digits times a power and something below that power. */
  lemma TwoAndRest(v: seq<nat>) returns (low: nat)
    requires |v| >= 2 && AllDigits(v)
    ensures Val(v) == low + Pow(|v| - 2) * TopTwo(v) && low < Pow(|v| - 2)
  {
    hide Val;
    var n := |v| - 2;
    ValNext(v, n);
    ValNext(v, n + 1);
    assert v[..n + 2] == v;
    ValBound(v[..n]);
    low := Val(v[..n]);
    PowerSplit(Pow(n), v[n + 1], v[n], RADIX);
  }

  lemma PowerSplit(p: int, a: int, b: int, r: int)
    ensures p * b + (r * p) * a == p * (a * r + b)
  {
    assert (r * p) * a == p * (a * r);
  }

  lemma ThreeAndRest(w: seq<nat>) returns (low: nat)
    requires |w| >= 3 && AllDigits(w)
    ensures Val(w) == low + Pow(|w| - 3) * TopThree(w) && low < Pow(|w| - 3)
  {
    hide Val;
    var n := |w| - 3;
    ValNext(w, n);
    ValNext(w, n + 1);
    ValNext(w, n + 2);
    assert w[..n + 3] == w;
    ValBound(w[..n]);
    low := Val(w[..n]);
    PowerSplit(Pow(n), w[n + 1], w[n], RADIX);
    PowerSplit(Pow(n), w[n + 2] * RADIX + w[n + 1], w[n], RADIX);
    PowerSplit(Pow(n + 1), w[n + 2], w[n + 1], RADIX);
    assert Pow(n + 1) * (w[n + 2] * RADIX + w[n + 1]) == (RADIX * Pow(n)) * (w[n + 2] * RADIX + w[n + 1]);
  }

  /** The comparand is what the guess leaves of the top three digits; the guess is not below the quotient. */
  ghost predicate Guessing(g: int, ch: int, cl: int, v1: int, w: seq<nat>, v: seq<nat>)
    requires |w| >= 3
  {
    ch * RADIX + cl == TopThree(w) - g * (v1 * RADIX) && Val(w) < (g + 1) * Val(v)
  }

  lemma TooBig(g: int, s: int, t: int, p: int, lowV: int, lowW: int)
    requires g * s > t && g >= 0 && p > 0 && lowV >= 0 && lowW < p
    ensures lowW + p * t < g * (lowV + p * s)
  {
    assert g * (lowV + p * s) == g * lowV + p * (g * s);
    assert p * (g * s) >= p * (t + 1) by { ScaleUp(p, t + 1, g * s); }
    assert p * (t + 1) == p * t + p;
    assert g * lowV >= 0;
  }

  lemma ScaleUp(p: int, a: int, b: int)
    requires p >= 0 && a <= b
    ensures p * a <= p * b
  {
  }

  lemma NotTooBig(g: int, s: int, t: int, p: int, lowV: int, lowW: int, b: int)
    requires g * s <= t && 0 <= g < b && p > 0 && 0 <= lowV < p && lowW >= 0 && s >= b
    ensures (g - 1) * (lowV + p * s) <= lowW + p * t
  {
    var v := lowV + p * s;
    assert (g - 1) * v == g * v - v && g * v == g * lowV + p * (g * s);
    ScaleUp(p, g * s, t);
    ScaleUp(p, b, s);
    assert g * lowV <= b * p by { ScaleUp(g, lowV, p); ScaleUp(p, g, b); }
  }

  lemma SplitProduct(g: int, v1: int, v2: int, r: int)
    ensures g * (v1 * r + v2) == g * v2 + g * (v1 * r)
    ensures (g - 1) * (v1 * r) == g * (v1 * r) - v1 * r
  {
  }

  predicate Windowed(w: seq<nat>, v: seq<nat>) {
    |v| >= 2 && |w| == |v| + 1 && AllDigits(v) && AllDigits(w) && v[|v| - 1] > 0
  }

  /** Lowering a guess whose product exceeds the comparand keeps it at least the quotient. */
  lemma GuessLower(g: nat, ch: nat, cl: nat, w: seq<nat>, v: seq<nat>)
    requires Windowed(w, v) && Guessing(g, ch, cl, v[|v| - 1], w, v)
    requires g * v[|v| - 2] > ch * RADIX + cl
    ensures g > 0 && Guessing(g - 1, ch + v[|v| - 1], cl, v[|v| - 1], w, v)
  {
    hide Val, Pow, AllDigits, TopThree;
    var v1, v2 := v[|v| - 1], v[|v| - 2];
    if g == 0 { assert g * v2 == 0; }
    SplitProduct(g, v1, v2, RADIX);
    var lowV := TwoAndRest(v);
    var lowW := ThreeAndRest(w);
    TooBig(g, TopTwo(v), TopThree(w), Pow(|v| - 2), lowV, lowW);
    assert (ch + v1) * RADIX == ch * RADIX + v1 * RADIX;
    assert (g - 1 + 1) * Val(v) == g * Val(v);
  }

  /** A guess whose product does not exceed the comparand is at most one above the quotient. */
  lemma GuessEnough(g: nat, ch: nat, cl: nat, w: seq<nat>, v: seq<nat>)
    requires Windowed(w, v) && Guessing(g, ch, cl, v[|v| - 1], w, v) && g < RADIX
    requires g * v[|v| - 2] <= ch * RADIX + cl
    ensures (g - 1) * Val(v) <= Val(w) < (g + 1) * Val(v)
  {
    hide Val, Pow, AllDigits, TopThree;
    var v1, v2 := v[|v| - 1], v[|v| - 2];
    SplitProduct(g, v1, v2, RADIX);
    var lowV := TwoAndRest(v);
    var lowW := ThreeAndRest(w);
    MulMono(1, v1, RADIX);
    NotTooBig(g, TopTwo(v), TopThree(w), Pow(|v| - 2), lowV, lowW, RADIX);
  }

  lemma FirstGuessTop(q: int, r: int, v1: int, v2: int, x: int, c: int, b: int)
    requires x == q * v1 + r && r < v1 && q >= 0 && v2 >= 0 && 0 <= c < b
    ensures r * b + c == (x * b + c) - q * (v1 * b)
    ensures (q + 1) * (v1 * b + v2) > x * b + c
  {
    assert x * b == q * (v1 * b) + r * b;
    assert (q + 1) * (v1 * b + v2) == q * (v1 * b) + v1 * b + (q + 1) * v2;
    assert (q + 1) * v2 >= 0;
    assert v1 * b >= (r + 1) * b == r * b + b by { ScaleUp(b, r + 1, v1); }
  }

  /** The first guess when the top digit of the numerator differs from that of v. */
  lemma FirstGuessing(w: seq<nat>, v: seq<nat>, q: nat, r: nat)
    requires Windowed(w, v)
    requires w[|w| - 1] * RADIX + w[|w| - 2] == q * v[|v| - 1] + r && r < v[|v| - 1]
    ensures Guessing(q, r, w[|w| - 3], v[|v| - 1], w, v)
  {
    hide Val, Pow;
    var lowV := TwoAndRest(v);
    var lowW := ThreeAndRest(w);
    var x := w[|w| - 1] * RADIX + w[|w| - 2];
    FirstGuessTop(q, r, v[|v| - 1], v[|v| - 2], x, w[|w| - 3], RADIX);
    TooBig(q + 1, TopTwo(v), TopThree(w), Pow(|v| - 2), lowV, lowW);
  }

  /** And when it is the same. */
  lemma LargestGuessing(w: seq<nat>, v: seq<nat>)
    requires Windowed(w, v) && w[|w| - 1] == v[|v| - 1] && Val(w[1..]) < Val(v)
    ensures Guessing(RADIX - 1, w[|w| - 2] + v[|v| - 1], w[|w| - 3], v[|v| - 1], w, v)
  {
    var v1, b: int := v[|v| - 1], RADIX;
    LargestComparand(w[|w| - 2], v1, w[|w| - 3], b);
    MulMono(Val(w[1..]) + 1, Val(v), RADIX);
    assert RADIX * (Val(w[1..]) + 1) == RADIX * Val(w[1..]) + RADIX;
  }

  /** The top digit of the numerator does not exceed that of v. */
  lemma TopNotAbove(w: seq<nat>, v: seq<nat>)
    requires Windowed(w, v) && Val(w[1..]) < Val(v)
    ensures w[|w| - 1] <= v[|v| - 1]
  {
    if w[|w| - 1] > v[|v| - 1] {
      assert w[1..][|v|..] == v[|v|..] == [];
      CompareAt(v, w[1..], |v| - 1);
    }
  }

  lemma CompareTwo(ch: nat, cl: nat, ph: nat, pl: nat)
    requires cl < RADIX && pl < RADIX
    ensures (ch > ph || (ch == ph && cl >= pl)) <==> ch * RADIX + cl >= ph * RADIX + pl
  {
    if ch > ph {
      MulMono(ph + 1, ch, RADIX);
      assert (ph + 1) * RADIX == ph * RADIX + RADIX;
    } else if ch < ph {
      MulMono(ch + 1, ph, RADIX);
      assert (ch + 1) * RADIX == ch * RADIX + RADIX;
    }
  }

  /** The double-digit product of two digits. */
  method TwoDigitProduct(v2: nat, guess: nat) returns (ph: nat, pl: nat)
    ensures ph * RADIX + pl == guess * v2 && pl < RADIX
  {
    var v2l, v2h, gl, gh := HdLow(v2), HdHigh(v2), HdLow(guess), HdHigh(guess);
    pl := v2l * gl;
    ph := v2l * gh + v2h * gl + HdHigh(pl);
    RadixBound();
    SmallFactor(0);
    assert pl == ProductLow(v2, guess, 0, 0);
    assert ph == ProductHigh(v2, guess, pl, 0);
    DoubleProduct(v2, guess, 0, 0, pl, ph);
    pl, ph := HdCons(HdLow(ph), HdLow(pl)), v2h * gh + HdHigh(ph);
  }

  lemma PastTwoDigits(ch: nat, cl: nat, g: nat, v2: nat)
    requires ch >= RADIX && g < RADIX && v2 < RADIX
    ensures g * v2 <= ch * RADIX + cl
  {
    MulMono(g, RADIX, v2);
    MulMono(v2, RADIX, RADIX);
    MulMono(RADIX, ch, RADIX);
  }

  /** Estimates one digit of the quotient: the digit itself or one more. */
  method EstimateDigit(uj: nat, uj1: nat, uj2: nat, v1: nat, v2: nat, ghost w: seq<nat>, ghost v: seq<nat>)
    returns (guess: nat)
    requires Windowed(w, v) && Val(w[1..]) < Val(v) && RADIX_ROOT <= v1
    requires uj == w[|w| - 1] && uj1 == w[|w| - 2] && uj2 == w[|w| - 3] && v1 == v[|v| - 1] && v2 == v[|v| - 2]
    ensures guess < RADIX
    ensures (guess - 1) * Val(v) <= Val(w) < (guess + 1) * Val(v)
  {
    hide Val, Guessing;
    TopNotAbove(w, v);
    var ch: nat;
    var cl: nat;
    if uj != v1 {
      cl := uj2;
      ch, guess := BignumDigitDivide(uj, uj1, v1);
      FirstGuessing(w, v, guess, ch);
    } else {
      cl := uj2;
      ch := uj1 + v1;
      guess := RADIX - 1;
      LargestGuessing(w, v);
    }
    while true
      invariant guess < RADIX && Guessing(guess, ch, cl, v1, w, v) && cl < RADIX
      decreases guess
    {
      var ph, pl := TwoDigitProduct(v2, guess);
      CompareTwo(ch, cl, ph, pl);
      if ch > ph || (ch == ph && cl >= pl) { break; }
      GuessLower(guess, ch, cl, w, v);
      guess := guess - 1;
      ch := ch + v1;
      if ch >= RADIX {
        PastTwoDigits(ch, cl, guess, v2);
        break;
      }
    }
    GuessEnough(guess, ch, cl, w, v);
  }

  // ----- multiply and subtract, add back -----

  /** A difference below zero borrows; the carry out still fits a digit. */
  lemma SubtractStep(v: nat, g: nat, carry: nat, u: nat, digit: nat, high: nat)
    requires v < RADIX && g < RADIX && carry < RADIX && u < RADIX && digit < RADIX
    requires digit + RADIX * high == v * g + carry
    ensures high < RADIX
    ensures u < digit ==> high + 1 < RADIX
  {
    var b: int := RADIX;
    MulMono(v, b - 1, g);
    MulMono(g, b - 1, b - 1);
    assert (b - 1) * (b - 1) == b * b - 2 * b + 1;
    assert b * (b - 1) == b * b - b;
    assert digit + b * high <= b * b - b;
    if high >= b { MulMono(b, high, b); }
    if digit > 0 && high >= b - 1 {
      ScaleUp(b, b - 1, high);
    }
  }

  /** One digit of u less the product of a digit of v and the guess, and the carry out. */
  function SubtractDigit(v: nat, guess: nat, u: nat, carry: nat): (r: (nat, nat))
    requires v < RADIX && guess < RADIX && u < RADIX && carry < RADIX
    ensures r.0 < RADIX && r.1 < RADIX
    ensures r.0 + RADIX * (-(r.1 as int)) == u + (-(guess as int)) * v + (-(carry as int))
  {
    var pl := ProductLow(v, guess, 0, carry);
    var ph := ProductHigh(v, guess, pl, carry);
    DoubleProduct(v, guess, 0, carry, pl, ph);
    var digit, high := ProductDigit(pl, ph), ProductCarry(v, guess, ph);
    SubtractStep(v, guess, carry, u, digit, high);
    var diff: int := u - digit;
    SubtractSum(v, guess, carry, digit, high, diff);
    if diff < 0 then (diff + RADIX, high + 1) else (diff, high)
  }

  method SubtractProduct(v: seq<nat>, guess: nat, u: array<nat>, start: nat) returns (carry: nat)
    requires AllDigits(v) && guess < RADIX && AllDigits(u[..]) && start + |v| < u.Length
    modifies u
    ensures AllDigits(u[..]) && u[..start] == old(u[..start]) && u[start + |v|..] == old(u[start + |v|..])
    ensures Val(u[start..start + |v|]) - carry * Pow(|v|) == Val(old(u[start..start + |v|])) - guess * Val(v)
  {
    hide Val, Pow, SumSoFar, SubtractDigit;
    ghost var before, above := u[start..start + |v|], u[start + |v|..];
    carry := 0;
    var j := 0;
    SumStart(before, v, -(guess as int));
    assert u[start..start] == [];
    while j < |v|
      invariant 0 <= j <= |v| && carry < RADIX && AllDigits(u[..])
      invariant SumSoFar(before, v, -(guess as int), u[start..start + j], -(carry as int))
      invariant u[..start] == old(u[..start]) && u[start + j..start + |v|] == before[j..]
      invariant u[start + |v|..] == above
    {
      ghost var s, c := u[start..start + j], carry;
      assert u[start + j] == u[start + j..start + |v|][0] == before[j];
      var step := SubtractDigit(v[j], guess, u[start + j], carry);
      u[start + j], carry := step.0, step.1;
      SumNext(before, v, -(guess as int), s, u[start + j], -(c as int), -(carry as int));
      j := j + 1;
      assert u[start..start + j] == s + [u[start + j - 1]];
    }
    SumEnd(before, v, -(guess as int), u[start..start + |v|], -(carry as int));
    SignedProducts(carry, Pow(|v|), guess, Val(v));
  }

  lemma SubtractSum(v: int, g: int, c: int, digit: int, high: int, diff: int)
    requires digit + RADIX * high == v * g + c
    ensures diff + RADIX * (-high) == (diff + digit) + (-g) * v + (-c)
    ensures diff + RADIX + RADIX * (-(high + 1)) == (diff + digit) + (-g) * v + (-c)
  {
    assert (-g) * v == -(v * g);
    assert RADIX * (-high) == -(RADIX * high) && RADIX * (-(high + 1)) == -(RADIX * high) - RADIX;
  }

  lemma SignedProducts(a: int, b: int, c: int, d: int)
    ensures (-a) * b == -(a * b) && (-c) * d == -(c * d)
  {
  }

  method AddBack(v: seq<nat>, u: array<nat>, start: nat) returns (carry: nat)
    requires AllDigits(v) && AllDigits(u[..]) && start + |v| < u.Length
    modifies u
    ensures AllDigits(u[..]) && u[..start] == old(u[..start]) && u[start + |v|..] == old(u[start + |v|..])
    ensures carry <= 1
    ensures Val(u[start..start + |v|]) + carry * Pow(|v|) == Val(old(u[start..start + |v|])) + Val(v)
  {
    hide Val, Pow, SumSoFar;
    ghost var before, above := u[start..start + |v|], u[start + |v|..];
    carry := 0;
    var j := 0;
    SumStart(before, v, 1);
    assert u[start..start] == [];
    while j < |v|
      invariant 0 <= j <= |v| && carry <= 1 && AllDigits(u[..])
      invariant SumSoFar(before, v, 1, u[start..start + j], carry)
      invariant u[..start] == old(u[..start]) && u[start + j..start + |v|] == before[j..]
      invariant u[start + |v|..] == above
    {
      ghost var s, c := u[start..start + j], carry;
      assert u[start + j] == u[start + j..start + |v|][0] == before[j];
      var sum := v[j] + u[start + j] + carry;
      if sum < RADIX {
        u[start + j] := sum;
        carry := 0;
      } else {
        u[start + j] := sum - RADIX;
        carry := 1;
      }
      SumNext(before, v, 1, s, u[start + j], c, carry);
      j := j + 1;
      assert u[start..start + j] == s + [u[start + j - 1]];
    }
    SumEnd(before, v, 1, u[start..start + |v|], carry);
  }

  lemma WindowTop(u: seq<nat>, start: nat, n: nat)
    requires start + n < |u|
    ensures Val(u[start..start + n + 1]) == Val(u[start..start + n]) + Pow(n) * u[start + n]
  {
    assert u[start..start + n + 1] == u[start..start + n] + [u[start + n]];
    ValSnoc(u[start..start + n], u[start + n]);
  }

  function WithinDigit(sum: nat): nat {
    if sum < RADIX then sum else sum - RADIX
  }

  /** Adding v back in after a subtraction that went below zero, and letting the carry run over the top digit. */
  method AddBackOver(v: seq<nat>, u: array<nat>, start: nat, ghost d: int)
    requires AllDigits(v) && AllDigits(u[..]) && start + |v| < u.Length && u[start + |v|] == RADIX - 1
    requires Val(u[start..start + |v|]) == d + Pow(|v|) && 0 <= d + Val(v) && d < 0
    modifies u
    ensures AllDigits(u[..]) && u[..start] == old(u[..start]) && u[start + |v| + 1..] == old(u[start + |v| + 1..])
    ensures u[start + |v|] == 0 && Val(u[start..start + |v|]) == d + Val(v)
  {
    hide Val, Pow;
    var n := |v|;
    ghost var above := u[start + n..];
    var carry := AddBack(v, u, start);
    assert u[start + n] == u[start + n..][0] == above[0] && u[start + n + 1..] == above[1..];
    ValBound(u[start..start + n]);
    assert 0 * Pow(n) == 0;
    if carry == 1 {
      ghost var low := u[start..start + n];
      var sum := u[start + n] + carry;
      u[start + n] := WithinDigit(sum);
      assert u[start..start + n] == low;
    }
  }

  /** What the top digit and the carry say about the difference d. */
  lemma AfterSubtract(low: nat, p: nat, top: nat, carry: nat, v: nat, d: int, l: int, n: int,
                      product: int)
    requires low < p && 0 < v < p && 0 <= d + v && d < v && d == n - product
    requires n == l + p * top && low - carry * p == l - product
    ensures d >= 0 ==> top == carry && low == d
    ensures d < 0 ==> top - carry == -1 && low == d + p
  {
    assert p * (top - carry) == p * top - carry * p;
    SignOfCarry(low, p, top - carry, v, d);
  }

  /** Subtracts guess * v from the digits of u from start on, or (guess - 1) * v when that is too much. */
  method BignumDivideSubtract(v: seq<nat>, guess: nat, u: array<nat>, start: nat) returns (q: nat)
    requires AllDigits(v) && guess < RADIX && AllDigits(u[..]) && start + |v| < u.Length && Val(v) > 0
    requires (guess - 1) * Val(v) <= Val(u[start..start + |v| + 1]) < (guess + 1) * Val(v)
    modifies u
    ensures AllDigits(u[..]) && u[..start] == old(u[..start]) && u[start + |v| + 1..] == old(u[start + |v| + 1..])
    ensures q < RADIX && u[start + |v|] == 0
    ensures Val(u[start..start + |v|]) == Val(old(u[start..start + |v| + 1])) - q * Val(v)
    ensures Val(u[start..start + |v|]) < Val(v)
  {
    hide Val, Pow, AllDigits;
    var n := |v|;
    ghost var total := Val(u[start..start + n + 1]);
    ghost var l, top, above := Val(u[start..start + n]), u[start + n], u[start + n..];
    ghost var d: int := total - guess * Val(v);
    GuessBounds(guess, Val(v));
    WindowTop(u[..], start, n);
    assert u[..][start..start + n + 1] == u[start..start + n + 1] && u[..][start..start + n] == u[start..start + n];
    ValBound(v);
    if guess == 0 {
      NoTop(l, Pow(n), top, Val(v));
      return 0;
    }
    var carry := SubtractProduct(v, guess, u, start);
    assert u[start + n] == u[start + n..][0] == above[0];
    assert u[start + n + 1..] == above[1..];
    DigitsOfSlice(u[..], start, start + n);
    ValBound(u[..][start..start + n]);
    assert u[..][start..start + n] == u[start..start + n];
    AfterSubtract(Val(u[start..start + n]), Pow(n), top, carry, Val(v), d, l, total, guess * Val(v));
    if carry == 0 {
      return guess;
    }
    var diff: int := (u[start + n] as int) - carry;
    q := if diff < 0 then guess - 1 else guess;
    ghost var low, below := u[start..start + n], u[..start];
    DigitsAfterStore(u[..], start + n, if diff < 0 then RADIX - 1 else 0);
    u[start + n] := if diff < 0 then diff + RADIX else diff;
    assert u[start..start + n] == low && u[..start] == below && u[start + n + 1..] == above[1..];
    if diff < 0 { AddBackOver(v, u, start, d); }
  }

  lemma DigitsOfSlice(s: seq<nat>, i: nat, j: nat)
    requires AllDigits(s) && i <= j <= |s|
    ensures AllDigits(s[i..j])
  {
  }

  lemma DigitsAfterStore(s: seq<nat>, i: nat, d: nat)
    requires AllDigits(s) && i < |s| && d < RADIX
    ensures AllDigits(s[i := d])
  {
  }

  lemma NoTop(low: nat, p: nat, top: nat, v: nat)
    requires low + p * top < v <= p
    ensures top == 0
  {
    if top > 0 { MulMono(1, top, p); }
  }
}
