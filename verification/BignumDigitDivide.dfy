/**
 Two digits divided by one, half a digit at a time.
 */
module BignumDigitDivision {
  import opened Digits

  /** The number three half digits stand for. */
  function Three(a: int, b: int, c: int): int {
    (a * RADIX_ROOT + b) * RADIX_ROOT + c
  }

  lemma ThreeSign(a: nat, b: nat, c: nat)
    ensures Three(a, b, c) >= 0
  {
    MulMono(0, a, RADIX_ROOT);
    MulMono(0, a * RADIX_ROOT + b, RADIX_ROOT);
  }

  /** One half digit less the product of another and the guess, and the carry out. */
  function BddsMulsub(vn: nat, guess: nat, un: int, carryIn: nat): (r: (int, nat))
    requires 0 <= un < RADIX_ROOT
    ensures 0 <= r.0 < RADIX_ROOT
    ensures r.0 - r.1 * RADIX_ROOT == un - vn * guess - carryIn
  {
    var product := vn * guess + carryIn;
    Halves(product);
    var diff := un - HdLow(product);
    if diff < 0 then (diff + RADIX_ROOT, HdHigh(product) + 1) else (diff, HdHigh(product))
  }

  function BddsAdd(vn: nat, un: int, carryIn: nat): (r: (int, nat))
    requires 0 <= un < RADIX_ROOT && vn < RADIX_ROOT && carryIn <= 1
    ensures 0 <= r.0 < RADIX_ROOT && r.1 <= 1
    ensures r.0 + r.1 * RADIX_ROOT == vn + un + carryIn
  {
    var sum := vn + un + carryIn;
    if sum < RADIX_ROOT then (sum, 0) else (sum - RADIX_ROOT, 1)
  }

  /** The number two half digits stand for is below the radix. */
  lemma TwoBound(a: int, b: int)
    requires 0 <= a < RADIX_ROOT && 0 <= b < RADIX_ROOT
    ensures 0 <= a * RADIX_ROOT + b < RADIX
  {
    ConsBound(a, b);
  }

  lemma Mulsubs(v1: int, v2: int, g: int, u0: int, u1: int, u2: int, n1: int, n2: int, c2: int, c: int,
                r: int, b: int, v: int, n: int)
    requires n2 - c2 * r == u2 - v2 * g && n1 - c * r == u1 - v1 * g - c2
    requires b == r * r && v == v1 * r + v2 && n == (u0 * r + u1) * r + u2
    ensures (n1 * r + n2) + b * (u0 - c) == n - g * v
  {
    assert (n1 - c * r) * r == (u1 - v1 * g - c2) * r;
    assert c * r * r == b * c && (v1 * g) * r == g * (v1 * r) && u0 * r * r == b * u0;
    assert b * (u0 - c) == b * u0 - b * c && g * v == g * (v1 * r) + g * v2;
  }

  lemma Adds(v1: int, v2: int, u1: int, u2: int, n1: int, n2: int, c2: int, c: int, r: int)
    requires n2 + c2 * r == v2 + u2 && n1 + c * r == v1 + u1 + c2
    ensures (n1 * r + n2) + (r * r) * c == (u1 * r + u2) + (v1 * r + v2)
  {
    assert (n1 + c * r) * r == (v1 + u1 + c2) * r;
    assert c * r * r == (r * r) * c;
  }

  /** low + b * k is between -v and v, so k says which side of zero it is on. */
  lemma SignOfCarry(low: int, b: int, k: int, v: int, d: int)
    requires 0 <= low < b && 0 < v <= b && low + b * k == d && -v <= d < v
    ensures d >= 0 ==> k == 0
    ensures d < 0 ==> k == -1
  {
    if k >= 1 { MulMono(1, k, b); }
    if k <= -2 {
      assert b * (-k) == -(b * k);
      MulMono(2, -k, b);
    }
  }

  /** After the subtraction the two low half digits hold the difference, or the difference plus one radix. */
  lemma AfterMulsubs(v1: nat, v2: nat, g: nat, u0: int, u1: int, u2: int, s2: (int, nat), s1: (int, nat), d: int)
    requires v1 < RADIX_ROOT && v2 < RADIX_ROOT && 0 <= u1 < RADIX_ROOT && 0 <= u2 < RADIX_ROOT
    requires s2 == BddsMulsub(v2, g, u2, 0) && s1 == BddsMulsub(v1, g, u1, s2.1)
    requires d == Three(u0, u1, u2) - g * HdCons(v1, v2) && 0 <= d + HdCons(v1, v2) && d < HdCons(v1, v2)
    ensures d >= 0 ==> u0 == s1.1 && s1.0 * RADIX_ROOT + s2.0 == d
    ensures d < 0 ==> u0 - s1.1 == -1 && s1.0 * RADIX_ROOT + s2.0 == d + RADIX
  {
    hide HdLow, HdHigh, BddsMulsub;
    TwoBound(v1, v2);
    TwoBound(s1.0, s2.0);
    ghost var v, n: int := HdCons(v1, v2), Three(u0, u1, u2);
    assert v == v1 * RADIX_ROOT + v2 && n == (u0 * RADIX_ROOT + u1) * RADIX_ROOT + u2;
    assert RADIX == RADIX_ROOT * RADIX_ROOT;
    hide *;
    Mulsubs(v1, v2, g, u0, u1, u2, s1.0, s2.0, s2.1, s1.1, RADIX_ROOT, RADIX, v, n);
    SignOfCarry(s1.0 * RADIX_ROOT + s2.0, RADIX, u0 - s1.1, v, d);
  }

  lemma AfterAdds(v1: nat, v2: nat, u1: int, u2: int, a2: (int, nat), a1: (int, nat), d: int)
    requires v1 < RADIX_ROOT && v2 < RADIX_ROOT && 0 <= u1 < RADIX_ROOT && 0 <= u2 < RADIX_ROOT
    requires a2 == BddsAdd(v2, u2, 0) && a1 == BddsAdd(v1, u1, a2.1)
    requires u1 * RADIX_ROOT + u2 == d + RADIX && 0 <= d + HdCons(v1, v2) && d < 0
    ensures a1.0 * RADIX_ROOT + a2.0 == d + HdCons(v1, v2)
  {
    hide HdLow, HdHigh, BddsAdd;
    Adds(v1, v2, u1, u2, a1.0, a2.0, a2.1, a1.1, RADIX_ROOT);
    TwoBound(v1, v2);
    TwoBound(a1.0, a2.0);
  }

  lemma GuessBounds(g: int, v: int)
    ensures (g - 1) * v == g * v - v && (g + 1) * v == g * v + v
  {
  }

  /**
   Subtracts guess times v1 v2 from the three half digits of u from j on; a guess one too large is put right.
   The half digit u[j] is left with a value nobody reads.
   */
  method BignumDigitDivideSubtract(v1: nat, v2: nat, guess: nat, u: array<int>, j: nat) returns (q: nat)
    requires j + 2 < u.Length && v1 < RADIX_ROOT && v2 < RADIX_ROOT && 0 < HdCons(v1, v2)
    requires forall k | j <= k < j + 3 :: 0 <= u[k] < RADIX_ROOT
    requires (guess - 1) * HdCons(v1, v2) <= Three(u[j], u[j + 1], u[j + 2]) < (guess + 1) * HdCons(v1, v2)
    modifies u
    ensures q == guess || q == guess - 1
    ensures 0 <= u[j + 1] < RADIX_ROOT && 0 <= u[j + 2] < RADIX_ROOT
    ensures u[j + 1] * RADIX_ROOT + u[j + 2] == old(Three(u[j], u[j + 1], u[j + 2])) - q * HdCons(v1, v2)
    ensures u[j + 1] * RADIX_ROOT + u[j + 2] < HdCons(v1, v2)
    ensures forall k | 0 <= k < u.Length && !(j <= k < j + 3) :: u[k] == old(u[k])
  {
    hide HdLow, HdHigh, HdCons, Three, BddsMulsub, BddsAdd;
    ghost var v: int := HdCons(v1, v2);
    ghost var d := Three(u[j], u[j + 1], u[j + 2]) - guess * v;
    GuessBounds(guess, v);
    ThreeSign(u[j], u[j + 1], u[j + 2]);
    var step2 := BddsMulsub(v2, guess, u[j + 2], 0);
    var step1 := BddsMulsub(v1, guess, u[j + 1], step2.1);
    AfterMulsubs(v1, v2, guess, u[j], u[j + 1], u[j + 2], step2, step1, d);
    TwoBound(step1.0, step2.0);
    u[j + 2], u[j + 1] := step2.0, step1.0;
    var carry := step1.1;
    if carry == 0 {
      return guess;
    }
    var diff := u[j] - carry;
    if diff < 0 {
      u[j] := diff + RADIX;
    } else {
      u[j] := diff;
      return guess;
    }
    var add2 := BddsAdd(v2, u[j + 2], 0);
    var add1 := BddsAdd(v1, u[j + 1], add2.1);
    AfterAdds(v1, v2, u[j + 1], u[j + 2], add2, add1, d);
    u[j + 2], u[j + 1] := add2.0, add1.0;
    if add1.1 == 1 { u[j] := u[j] + 1; }
    q := guess - 1;
  }

  lemma GuessSum(g: int, v1: int, v2: int, r: int)
    ensures (g + 1) * (v1 * r + v2) == ((g + 1) * v1) * r + (g + 1) * v2
    ensures (g + 1) * v1 == g * v1 + v1
  {
    assert (g + 1) * (v1 * r) == ((g + 1) * v1) * r;
  }

  /** A guess from the top half digit only is never too small. */
  lemma FirstGuess(x: nat, c: nat, v1: nat, v2: nat, guess: nat, r: nat)
    requires v1 > 0 && guess == x / v1 && c < r
    ensures x * r + c < (guess + 1) * (v1 * r + v2)
  {
    assert x < guess * v1 + v1;
    GuessSum(guess, v1, v2, r);
    var y: nat := (guess + 1) * v1;
    MulMono(x + 1, y, r);
    NextTimes(x, r);
    MulMono(0, guess + 1, v2);
  }

  lemma LargestGuess(a: nat, b: nat, c: nat, v: nat)
    requires b < RADIX_ROOT && c < RADIX_ROOT && HdCons(a, b) < v
    ensures Three(a, b, c) < RADIX_ROOT * v
  {
    MulMono(HdCons(a, b) + 1, v, RADIX_ROOT);
    assert (HdCons(a, b) + 1) * RADIX_ROOT == HdCons(a, b) * RADIX_ROOT + RADIX_ROOT;
  }

  lemma FirstComparand(x: nat, v1: nat, c: int, r: int)
    requires v1 > 0
    ensures (x % v1) * r + c == (x * r + c) - (x / v1) * (v1 * r)
  {
    var q := x / v1;
    assert x == q * v1 + x % v1;
    assert (q * v1) * r == q * (v1 * r);
  }

  lemma LargestComparand(b: int, v1: int, c: int, r: int)
    ensures (b + v1) * r + c == ((v1 * r + b) * r + c) - (r - 1) * (v1 * r)
  {
    assert (v1 * r) * r == r * (v1 * r);
  }

  lemma BelowRadix(guess: nat, v2: nat)
    requires guess < RADIX_ROOT && v2 < RADIX_ROOT
    ensures guess * v2 < RADIX
  {
    MulMono(guess, RADIX_ROOT, v2);
    MulStrict(v2, RADIX_ROOT, RADIX_ROOT);
  }

  lemma FirstGuessBound(a: nat, b: nat, v1: nat)
    requires a < v1 && b < RADIX_ROOT
    ensures HdCons(a, b) / v1 < RADIX_ROOT
  {
    var q := HdCons(a, b) / v1;
    MulMono(a + 1, v1, RADIX_ROOT);
    assert (a + 1) * RADIX_ROOT == a * RADIX_ROOT + RADIX_ROOT;
    if q >= RADIX_ROOT { MulMono(RADIX_ROOT, q, v1); }
  }

  lemma HigherTop(a: nat, b: nat, c: nat, d: nat)
    requires a < c && b < RADIX_ROOT && d < RADIX_ROOT
    ensures HdCons(a, b) < HdCons(c, d)
  {
    MulMono(a + 1, c, RADIX_ROOT);
    assert (a + 1) * RADIX_ROOT == a * RADIX_ROOT + RADIX_ROOT;
  }

  /** The comparand is what the guess leaves of n apart from its product with v2; the guess is not too small. */
  ghost predicate Comparing(g: int, comparand: int, step: int, v2: int, v: int, n: int) {
    v == step + v2 && comparand == n - g * step && n < (g + 1) * v
  }

  lemma Lower(g: nat, step: int, v2: nat, v: int, n: int, comparand: nat)
    requires Comparing(g, comparand, step, v2, v, n) && g * v2 > comparand
    ensures g > 0
    ensures Comparing(g - 1, comparand + step, step, v2, v, n)
  {
    assert g * v == g * step + g * v2;
    assert (g - 1) * step == g * step - step && (g - 1 + 1) * v == g * v;
  }

  lemma Enough(g: int, step: int, v2: int, v: int, n: int, comparand: int)
    requires Comparing(g, comparand, step, v2, v, n) && g * v2 <= comparand
    ensures g * v <= n < (g + 1) * v
  {
    assert g * v == g * step + g * v2;
  }

  method BddLower(guess0: nat, comparand0: nat, v1: nat, v2: nat, ghost v: nat, ghost n: int) returns (guess: nat)
    requires guess0 < RADIX_ROOT && v2 < RADIX_ROOT
    requires Comparing(guess0, comparand0, v1 * RADIX_ROOT, v2, v, n)
    ensures guess <= guess0
    ensures guess * v <= n < (guess + 1) * v
  {
    hide *;
    guess := guess0;
    var comparand: nat := comparand0;
    var step := v1 * RADIX_ROOT;
    while guess * v2 > comparand
      invariant guess <= guess0
      invariant Comparing(guess, comparand, step, v2, v, n)
      decreases guess
    {
      Lower(guess, step, v2, v, n, comparand);
      guess := guess - 1;
      comparand := comparand + step;
      if comparand >= RADIX {
        BelowRadix(guess, v2);
        break;
      }
    }
    Enough(guess, step, v2, v, n, comparand);
  }

  lemma FirstComparing(a: nat, b: nat, c: nat, v1: nat, v2: nat)
    requires a < v1 && b < RADIX_ROOT && c < RADIX_ROOT && v2 < RADIX_ROOT
    ensures var x := HdCons(a, b);
      x / v1 < RADIX_ROOT
      && Comparing(x / v1, HdCons(x % v1, c), v1 * RADIX_ROOT, v2, HdCons(v1, v2), Three(a, b, c))
  {
    var x := HdCons(a, b);
    FirstGuess(x, c, v1, v2, x / v1, RADIX_ROOT);
    FirstGuessBound(a, b, v1);
    FirstComparand(x, v1, c, RADIX_ROOT);
  }

  lemma LargestComparing(b: nat, c: nat, v1: nat, v2: nat)
    requires b < RADIX_ROOT && c < RADIX_ROOT && v2 < RADIX_ROOT && HdCons(v1, b) < HdCons(v1, v2)
    ensures Comparing(RADIX_ROOT - 1, HdCons(b + v1, c), v1 * RADIX_ROOT, v2, HdCons(v1, v2), Three(v1, b, c))
  {
    LargestGuess(v1, b, c, HdCons(v1, v2));
    LargestComparand(b, v1, c, RADIX_ROOT);
  }

  /** The loop that lowers the guess stops at the very quotient. */
  method BddGuess(a: nat, b: nat, c: nat, v1: nat, v2: nat) returns (guess: nat)
    requires a < RADIX_ROOT && b < RADIX_ROOT && c < RADIX_ROOT && 0 < v1 < RADIX_ROOT && v2 < RADIX_ROOT
    requires HdCons(a, b) < HdCons(v1, v2)
    ensures guess < RADIX_ROOT
    ensures guess * HdCons(v1, v2) <= Three(a, b, c) < (guess + 1) * HdCons(v1, v2)
  {
    hide *;
    ThreeSign(a, b, c);
    var comparand: nat;
    if a > v1 { HigherTop(v1, v2, a, b); }
    if a != v1 {
      var ujUj1 := HdCons(a, b);
      guess := ujUj1 / v1;
      comparand := HdCons(ujUj1 % v1, c);
      FirstComparing(a, b, c, v1, v2);
    } else {
      guess := RADIX_ROOT - 1;
      comparand := HdCons(b + v1, c);
      LargestComparing(b, c, v1, v2);
    }
    guess := BddLower(guess, comparand, v1, v2, HdCons(v1, v2), Three(a, b, c));
  }

  method BddStep(u: array<int>, j: nat, v1: nat, v2: nat) returns (q: nat)
    requires j + 2 < u.Length && 0 < v1 < RADIX_ROOT && v2 < RADIX_ROOT
    requires forall k | j <= k < j + 3 :: 0 <= u[k] < RADIX_ROOT
    requires HdCons(u[j], u[j + 1]) < HdCons(v1, v2)
    modifies u
    ensures q < RADIX_ROOT
    ensures 0 <= u[j + 1] < RADIX_ROOT && 0 <= u[j + 2] < RADIX_ROOT
    ensures HdCons(u[j + 1], u[j + 2]) == old(Three(u[j], u[j + 1], u[j + 2])) - q * HdCons(v1, v2)
    ensures HdCons(u[j + 1], u[j + 2]) < HdCons(v1, v2)
    ensures forall k | 0 <= k < u.Length && !(j <= k < j + 3) :: u[k] == old(u[k])
  {
    var guess := BddGuess(u[j], u[j + 1], u[j + 2], v1, v2);
    MulMono(1, v1, RADIX_ROOT);
    assert (guess - 1) * HdCons(v1, v2) <= guess * HdCons(v1, v2);
    q := BignumDigitDivideSubtract(v1, v2, guess, u, j);
  }

  /** Dividing the top three half digits, and then the remainder and the last one, divides the two digits. */
  lemma TwoSteps(q1: int, q2: int, v: int, u0: int, u1: int, u2: int, u3: int, m1: int, m2: int, r: int,
                 root: int, b: int)
    requires b == root * root
    requires m1 * root + m2 == (u0 * root + u1) * root + u2 - q1 * v
    requires r == (m1 * root + m2) * root + u3 - q2 * v
    ensures (u0 * root + u1) * b + (u2 * root + u3) == (q1 * root + q2) * v + r
  {
    var uh := u0 * root + u1;
    assert (m1 * root + m2) * root == (uh * root + u2 - q1 * v) * root;
    assert (uh * root) * root == uh * b && (q1 * v) * root == (q1 * root) * v;
    assert (q1 * root + q2) * v == (q1 * root) * v + q2 * v;
  }

  lemma HdConsZero(low: nat)
    requires low < RADIX_ROOT
    ensures HdCons(0, low) < RADIX_ROOT
  {
  }

  /** The exact quotient and remainder of uh * RADIX + ul by v. */
  method BignumDigitDivide(uh: nat, ul: nat, v: nat) returns (r: nat, q: nat)
    requires uh < v && ul < RADIX && RADIX_ROOT <= v < RADIX
    ensures uh * RADIX + ul == q * v + r && r < v && q < RADIX
  {
    if uh == 0 {
      if ul < v {
        return ul, 0;
      } else if ul == v {
        return 0, 1;
      }
    }
    Halves(uh);
    Halves(ul);
    Halves(v);
    var u := new int[] [HdHigh(uh), HdLow(uh), HdHigh(ul), HdLow(ul)];
    var v1, v2 := HdHigh(v), HdLow(v);
    if v1 == 0 { HdConsZero(v2); }
    assert HdCons(v1, v2) == v && HdCons(u[0], u[1]) == uh;
    assert RADIX == RADIX_ROOT * RADIX_ROOT;
    hide HdLow, HdHigh, RADIX, RADIX_ROOT;
    ghost var u0, u1, u2, u3 := u[0], u[1], u[2], u[3];
    var q1 := BddStep(u, 0, v1, v2);
    ghost var m1, m2 := u[1], u[2];
    var q2 := BddStep(u, 1, v1, v2);
    r := HdCons(u[2], u[3]);
    q := HdCons(q1, q2);
    ConsBound(q1, q2);
    TwoSteps(q1, q2, v, u0, u1, u2, u3, m1, m2, r, RADIX_ROOT, RADIX);
  }
}
