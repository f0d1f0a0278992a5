/**
 Sign-magnitude bignums: comparison, addition, subtraction.
 */
module Bignums {
  import opened Digits

  /** A bignum: its digits, least significant first, and whether it is negative. */
  datatype Bignum = Bignum(negative: bool, digits: seq<nat>) {
    function Length(): nat { |digits| }

    predicate IsZero() { digits == [] }

    function Magnitude(): nat { Val(digits) }

    function Value(): int {
      if negative then -(Val(digits) as int) else Val(digits)
    }
  }

  /** Digits below the radix, the top one not zero, and no negative zero. */
  predicate Trimmed(s: seq<nat>) {
    AllDigits(s) && (s != [] ==> s[|s| - 1] != 0)
  }

  predicate Normal(b: Bignum) {
    Trimmed(b.digits) && (b.digits == [] ==> !b.negative)
  }

  const BIGNUM_ZERO := Bignum(false, [])

  function BignumOne(negative: bool): (b: Bignum)
    ensures b.Value() == if negative then -1 else 1
    ensures Normal(b)
  {
    ValOne(1);
    RadixBound();
    Bignum(negative, [1])
  }

  lemma TrimmedZero(s: seq<nat>)
    requires Trimmed(s)
    ensures Val(s) == 0 <==> s == []
  {
    if s != [] { ValTop(s); }
  }

  /** A number has one trimmed digit sequence. */
  lemma TrimmedUnique(s: seq<nat>, t: seq<nat>)
    requires Trimmed(s) && Trimmed(t) && Val(s) == Val(t)
    ensures s == t
  {
    if |s| < |t| { TrimmedLength(s, t); }
    if |t| < |s| { TrimmedLength(t, s); }
    ValInjective(s, t);
  }

  lemma TrimmedLength(s: seq<nat>, t: seq<nat>)
    requires Trimmed(s) && Trimmed(t) && |s| < |t|
    ensures Val(s) < Val(t)
  {
    ValBound(s);
    ValTop(t);
    PowMono(|s|, |t| - 1);
  }

  /** A normal bignum is determined by its value. */
  lemma NormalUnique(x: Bignum, y: Bignum)
    requires Normal(x) && Normal(y) && x.Value() == y.Value()
    ensures x == y
  {
    TrimmedZero(x.digits);
    TrimmedZero(y.digits);
    TrimmedUnique(x.digits, y.digits);
  }

  /** Drops leading zero digits. */
  method BignumTrim(r: array<nat>, negative: bool) returns (b: Bignum)
    requires AllDigits(r[..])
    ensures Normal(b) && Val(b.digits) == Val(r[..])
    ensures b.negative == (negative && b.digits != [])
    ensures b.digits <= r[..] && forall i | |b.digits| <= i < r.Length :: r[i] == 0
  {
    var scan := r.Length;
    while 0 < scan && r[scan - 1] == 0
      invariant 0 <= scan <= r.Length
      invariant forall i | scan <= i < r.Length :: r[i] == 0
    {
      scan := scan - 1;
    }
    assert r[..] == r[..scan] + r[scan..];
    ValAppend(r[..scan], r[scan..]);
    ValZeros(r[scan..]);
    b := Bignum(scan != 0 && negative, r[..scan]);
  }

  function BignumNewSign(b: Bignum, negative: bool): (r: Bignum)
    ensures Normal(b) && !b.IsZero() ==> Normal(r)
    ensures r.Magnitude() == b.Magnitude()
  {
    Bignum(negative, b.digits)
  }

  // ----- comparison -----

  datatype Comparison = Less | Equal | Greater

  function Compare(x: int, y: int): Comparison {
    if x < y then Less else if x == y then Equal else Greater
  }

  /** The highest digit in which two numbers differ decides. */
  lemma CompareAt(x: seq<nat>, y: seq<nat>, i: nat)
    requires AllDigits(x) && AllDigits(y) && |x| == |y| && i < |x| && x[i + 1..] == y[i + 1..] && x[i] < y[i]
    ensures Val(x) < Val(y)
  {
    assert x == x[..i + 1] + x[i + 1..] && y == y[..i + 1] + y[i + 1..];
    ValAppend(x[..i + 1], x[i + 1..]);
    ValAppend(y[..i + 1], y[i + 1..]);
    ValNext(x, i);
    ValNext(y, i);
    ValBound(x[..i]);
    MulMono(x[i] + 1, y[i], Pow(i));
    assert Pow(i) * (x[i] + 1) == Pow(i) * x[i] + Pow(i);
  }

  method BignumCompareUnsigned(x: Bignum, y: Bignum) returns (c: Comparison)
    requires Trimmed(x.digits) && Trimmed(y.digits)
    ensures c == Compare(x.Magnitude(), y.Magnitude())
  {
    if x.Length() < y.Length() {
      TrimmedLength(x.digits, y.digits);
      return Less;
    }
    if x.Length() > y.Length() {
      TrimmedLength(y.digits, x.digits);
      return Greater;
    }
    var scan := x.Length();
    assert x.digits[scan..] == y.digits[scan..];
    while 0 < scan
      invariant 0 <= scan <= x.Length()
      invariant x.digits[scan..] == y.digits[scan..]
    {
      scan := scan - 1;
      if x.digits[scan] < y.digits[scan] {
        CompareAt(x.digits, y.digits, scan);
        return Less;
      }
      if x.digits[scan] > y.digits[scan] {
        CompareAt(y.digits, x.digits, scan);
        return Greater;
      }
      assert x.digits[scan..] == [x.digits[scan]] + x.digits[scan + 1..];
      assert y.digits[scan..] == [y.digits[scan]] + y.digits[scan + 1..];
    }
    assert x.digits[0..] == x.digits && y.digits[0..] == y.digits;
    c := Equal;
  }

  method BignumTest(x: Bignum) returns (c: Comparison)
    requires Normal(x)
    ensures c == Compare(x.Value(), 0)
  {
    TrimmedZero(x.digits);
    c := if x.IsZero() then Equal else if x.negative then Less else Greater;
  }

  method BignumCompare(x: Bignum, y: Bignum) returns (c: Comparison)
    requires Normal(x) && Normal(y)
    ensures c == Compare(x.Value(), y.Value())
  {
    TrimmedZero(x.digits);
    TrimmedZero(y.digits);
    if x.IsZero() {
      c := if y.IsZero() then Equal else if y.negative then Greater else Less;
    } else if y.IsZero() {
      c := if x.negative then Less else Greater;
    } else if x.negative {
      if y.negative { c := BignumCompareUnsigned(y, x); } else { c := Less; }
    } else {
      if y.negative { c := Greater; } else { c := BignumCompareUnsigned(x, y); }
    }
  }

  method BignumEqualP(x: Bignum, y: Bignum) returns (equal: bool)
    requires Normal(x) && Normal(y)
    ensures equal <==> x.Value() == y.Value()
  {
    TrimmedZero(x.digits);
    TrimmedZero(y.digits);
    if x.Value() == y.Value() { NormalUnique(x, y); }
    if x.IsZero() {
      equal := y.IsZero();
    } else if y.IsZero() || x.negative != y.negative || x.Length() != y.Length() {
      equal := false;
    } else {
      var scan := 0;
      while scan < x.Length()
        invariant 0 <= scan <= x.Length()
        invariant x.digits[..scan] == y.digits[..scan]
      {
        if x.digits[scan] != y.digits[scan] {
          return false;
        }
        scan := scan + 1;
      }
      assert x.digits[..scan] == x.digits && y.digits[..scan] == y.digits;
      equal := true;
    }
  }

  // ----- addition -----

  /**
   The digits s are those of x + k * y as far as they go, and carry is what is left over for the next one.
   A borrow is a negative carry.
   */
  ghost predicate SumSoFar(x: seq<nat>, y: seq<nat>, k: int, s: seq<nat>, carry: int) {
    && |s| <= |x| && |y| <= |x|
    && AllDigits(s)
    && Val(s) + carry * Pow(|s|) == Val(x[..|s|]) + k * Val(if |s| < |y| then y[..|s|] else y)
  }

  /** What a digit adds: nothing where the number has none. */
  function DigitAt(y: seq<nat>, i: nat): nat {
    if i < |y| then y[i] else 0
  }

  lemma SumStart(x: seq<nat>, y: seq<nat>, k: int)
    requires |y| <= |x|
    ensures SumSoFar(x, y, k, [], 0)
  {
    assert x[..0] == [] && (if 0 < |y| then y[..0] else y) == [];
  }

  lemma Spread(p: int, x: int, k: int, y: int, c: int)
    ensures p * (x + k * y + c) == p * x + k * (p * y) + c * p
  {
    assert p * (k * y) == k * (p * y);
  }

  /** The value of one digit more, past the end of the number too. */
  lemma ValNextOrEnd(y: seq<nat>, i: nat)
    ensures Val(if i + 1 < |y| then y[..i + 1] else y) == Val(if i < |y| then y[..i] else y) + Pow(i) * DigitAt(y, i)
  {
    if i < |y| {
      ValNext(y, i);
      assert i + 1 == |y| ==> y[..i + 1] == y;
    }
  }

  lemma SumNext(x: seq<nat>, y: seq<nat>, k: int, s: seq<nat>, d: nat, carry: int, carry': int)
    requires SumSoFar(x, y, k, s, carry) && |s| < |x| && d < RADIX
    requires d + RADIX * carry' == x[|s|] + k * DigitAt(y, |s|) + carry
    ensures SumSoFar(x, y, k, s + [d], carry')
  {
    hide Val;
    var i := |s|;
    ValNext(x, i);
    ValNextOrEnd(y, i);
    ValSnoc(s, d);
    Spread(Pow(i), x[i], k, DigitAt(y, i), carry);
    var y0, y1 := Val(if i < |y| then y[..i] else y), Val(if i + 1 < |y| then y[..i + 1] else y);
    assert Pow(i + 1) == RADIX * Pow(i);
    Rearranged(Pow(i), RADIX, k, y0, y1, DigitAt(y, i), d, carry');
  }

  lemma Rearranged(p: int, b: int, k: int, y0: int, y1: int, digit: int, d: int, carry': int)
    requires y1 == y0 + p * digit
    ensures k * y1 == k * y0 + k * (p * digit)
    ensures p * (d + b * carry') == p * d + carry' * (b * p)
  {
    MulOut(p, d, b, carry');
    assert (p * b) * carry' == carry' * (b * p);
  }

  lemma SumEnd(x: seq<nat>, y: seq<nat>, k: int, s: seq<nat>, carry: int)
    requires SumSoFar(x, y, k, s, carry) && |s| == |x|
    ensures AllDigits(s) && Val(s) + carry * Pow(|x|) == Val(x) + k * Val(y)
  {
    assert x[..|s|] == x;
  }

  method BignumAddUnsigned(x0: Bignum, y0: Bignum, negative: bool) returns (b: Bignum)
    requires Normal(x0) && Normal(y0) && !x0.IsZero() && !y0.IsZero()
    ensures Normal(b) && b.negative == negative
    ensures b.Magnitude() == x0.Magnitude() + y0.Magnitude()
  {
    if y0.Length() > x0.Length() {
      b := AddLonger(y0.digits, x0.digits, negative);
    } else {
      b := AddLonger(x0.digits, y0.digits, negative);
    }
  }

  method AddLonger(x: seq<nat>, y: seq<nat>, negative: bool) returns (b: Bignum)
    requires Trimmed(x) && AllDigits(y) && |y| <= |x| && x != []
    ensures Trimmed(b.digits) && b.digits != [] && b.negative == negative
    ensures b.Magnitude() == Val(x) + Val(y)
  {
    hide Val, Pow, SumSoFar;
    RadixBound();
    var r := new nat[|x| + 1];
    var carry: int := 0;
    var scan := 0;
    SumStart(x, y, 1);
    assert r[..0] == [];
    while scan < |y|
      invariant 0 <= scan <= |y| && 0 <= carry <= 1
      invariant SumSoFar(x, y, 1, r[..scan], carry)
    {
      ghost var s, c := r[..scan], carry;
      var sum := x[scan] + y[scan] + carry;
      if sum < RADIX {
        r[scan] := sum;
        carry := 0;
      } else {
        r[scan] := sum - RADIX;
        carry := 1;
      }
      SumNext(x, y, 1, s, r[scan], c, carry);
      scan := scan + 1;
      assert r[..scan] == s + [r[scan - 1]];
    }
    if carry != 0 {
      while scan < |x|
        invariant |y| <= scan <= |x| && carry == 1
        invariant SumSoFar(x, y, 1, r[..scan], carry)
      {
        ghost var s := r[..scan];
        var sum := x[scan] + 1;
        if sum < RADIX {
          r[scan] := sum;
          carry := 0;
        } else {
          r[scan] := sum - RADIX;
        }
        SumNext(x, y, 1, s, r[scan], 1, carry);
        scan := scan + 1;
        assert r[..scan] == s + [r[scan - 1]];
        if carry == 0 { break; }
      }
    }
    while scan < |x|
      invariant |y| <= scan <= |x| && (scan < |x| ==> carry == 0) && 0 <= carry <= 1
      invariant SumSoFar(x, y, 1, r[..scan], carry)
    {
      ghost var s := r[..scan];
      r[scan] := x[scan];
      SumNext(x, y, 1, s, r[scan], 0, 0);
      scan := scan + 1;
      assert r[..scan] == s + [r[scan - 1]];
    }
    SumEnd(x, y, 1, r[..scan], carry);
    if carry != 0 {
      ValSnoc(r[..scan], 1);
      r[scan] := 1;
      assert r[..] == r[..scan] + [1];
      return Bignum(negative, r[..]);
    }
    SumTop(r[..scan], x, Val(y));
    return Bignum(negative, r[..scan]);
  }

  /** A sum as long as its longer summand needs no trimming. */
  lemma SumTop(r: seq<nat>, x: seq<nat>, y: nat)
    requires AllDigits(r) && Trimmed(x) && x != [] && |r| == |x| && Val(r) == Val(x) + y
    ensures Trimmed(r)
  {
    var n := |r| - 1;
    if r[n] == 0 {
      ValNext(r, n);
      assert r[..n + 1] == r;
      ValBound(r[..n]);
      ValTop(x);
      assert false;
    }
  }

  // ----- subtraction -----

  lemma NoBorrow(s: seq<nat>, borrow: int, difference: int)
    requires AllDigits(s) && Val(s) + (-borrow) * Pow(|s|) == difference && difference >= 0 && borrow >= 0
    ensures borrow == 0
  {
    ValBound(s);
    if borrow > 0 {
      assert (-borrow) * Pow(|s|) == -(borrow * Pow(|s|));
      MulMono(1, borrow, Pow(|s|));
    }
  }

  method BignumSubtractUnsigned(x0: Bignum, y0: Bignum) returns (b: Bignum)
    requires Normal(x0) && Normal(y0)
    ensures Normal(b) && b.Value() == x0.Magnitude() - y0.Magnitude()
  {
    hide Val, Pow, SumSoFar;
    var c := BignumCompareUnsigned(x0, y0);
    if c == Equal {
      TrimmedZero([]);
      return BIGNUM_ZERO;
    } else if c == Less {
      b := SubtractSmaller(y0.digits, x0.digits, true);
    } else {
      b := SubtractSmaller(x0.digits, y0.digits, false);
    }
    TrimmedZero(b.digits);
  }

  method SubtractSmaller(x: seq<nat>, y: seq<nat>, negative: bool) returns (b: Bignum)
    requires Trimmed(x) && Trimmed(y) && Val(y) < Val(x)
    ensures Normal(b) && Val(b.digits) == Val(x) - Val(y) && b.negative == (negative && !b.IsZero())
  {
    hide Val, Pow, SumSoFar;
    RadixBound();
    if |x| < |y| { TrimmedLength(x, y); }
    var r := new nat[|x|];
    var borrow: int := 0;
    var scan := 0;
    SumStart(x, y, -1);
    assert r[..0] == [];
    while scan < |y|
      invariant 0 <= scan <= |y| <= |x| && 0 <= borrow <= 1
      invariant SumSoFar(x, y, -1, r[..scan], -borrow)
    {
      ghost var s, c := r[..scan], borrow;
      var difference: int := x[scan] - y[scan] - borrow;
      if difference < 0 {
        r[scan] := difference + RADIX;
        borrow := 1;
      } else {
        r[scan] := difference;
        borrow := 0;
      }
      SumNext(x, y, -1, s, r[scan], -c, -borrow);
      scan := scan + 1;
      assert r[..scan] == s + [r[scan - 1]];
    }
    if borrow != 0 {
      while scan < |x|
        invariant |y| <= scan <= |x| && borrow == 1
        decreases |x| - scan
        invariant SumSoFar(x, y, -1, r[..scan], -borrow)
      {
        ghost var s := r[..scan];
        var difference: int := x[scan] - borrow;
        if difference < 0 {
          r[scan] := difference + RADIX;
        } else {
          r[scan] := difference;
          borrow := 0;
        }
        SumNext(x, y, -1, s, r[scan], -1, -borrow);
        scan := scan + 1;
        assert r[..scan] == s + [r[scan - 1]];
        if borrow == 0 { break; }
      }
    }
    if scan == |x| {
      SumEnd(x, y, -1, r[..scan], -borrow);
      NoBorrow(r[..scan], borrow, Val(x) - Val(y));
    }
    while scan < |x|
      invariant |y| <= scan <= |x| && borrow == 0
      invariant SumSoFar(x, y, -1, r[..scan], 0)
    {
      ghost var s := r[..scan];
      r[scan] := x[scan];
      SumNext(x, y, -1, s, r[scan], 0, 0);
      scan := scan + 1;
      assert r[..scan] == s + [r[scan - 1]];
    }
    SumEnd(x, y, -1, r[..scan], 0);
    assert r[..scan] == r[..];
    b := BignumTrim(r, negative);
  }

  // ----- signed addition and subtraction -----

  method BignumAdd(x: Bignum, y: Bignum) returns (b: Bignum)
    requires Normal(x) && Normal(y)
    ensures Normal(b) && b.Value() == x.Value() + y.Value()
  {
    if x.IsZero() {
      b := y;
    } else if y.IsZero() {
      b := x;
    } else if x.negative {
      if y.negative { b := BignumAddUnsigned(x, y, true); } else { b := BignumSubtractUnsigned(y, x); }
    } else {
      if y.negative { b := BignumSubtractUnsigned(x, y); } else { b := BignumAddUnsigned(x, y, false); }
    }
  }

  method BignumSubtract(x: Bignum, y: Bignum) returns (b: Bignum)
    requires Normal(x) && Normal(y)
    ensures Normal(b) && b.Value() == x.Value() - y.Value()
  {
    if x.IsZero() {
      b := if y.IsZero() then y else BignumNewSign(y, !y.negative);
    } else if y.IsZero() {
      b := x;
    } else if x.negative {
      if y.negative { b := BignumSubtractUnsigned(y, x); } else { b := BignumAddUnsigned(x, y, true); }
    } else {
      if y.negative { b := BignumAddUnsigned(x, y, false); } else { b := BignumSubtractUnsigned(x, y); }
    }
  }

  method BignumNegate(x: Bignum) returns (b: Bignum)
    requires Normal(x)
    ensures Normal(b) && b.Value() == -x.Value()
  {
    b := if x.IsZero() then x else BignumNewSign(x, !x.negative);
  }
}
