/**
 Bitwise operations on sign-magnitude bignums, which treat them as infinite two's complement.
 */
module BignumBitwise {
  import opened Digits
  import opened Bits
  import opened Bignums

  /** What an operation gives when its other argument is zero. */
  datatype Trivial = Zero | Same | Complement | MinusOne {
    function Of(z: int): int {
      match this
      case Zero => 0
      case Same => z
      case Complement => -1 - z
      case MinusOne => -1
    }
  }

  datatype Operation = And | Andc2 | Andc1 | Xor | Ior | Nor | Eqv | Orc2 | Orc1 | Nand {
    /** The truth table of the operation. */
    function Truth(): Table {
      match this
      case And => Table(false, false, false, true)
      case Andc2 => Table(false, false, true, false)
      case Andc1 => Table(false, true, false, false)
      case Xor => Table(false, true, true, false)
      case Ior => Table(false, true, true, true)
      case Nor => Table(true, false, false, false)
      case Eqv => Table(true, false, false, true)
      case Orc2 => Table(true, false, true, true)
      case Orc1 => Table(true, true, false, true)
      case Nand => Table(true, true, true, false)
    }

    /** The result for a zero second argument, and for a zero first one. */
    function ZeroSecond(): Trivial {
      match this
      case And => Zero
      case Andc2 => Same
      case Andc1 => Zero
      case Xor => Same
      case Ior => Same
      case Nor => Complement
      case Eqv => Complement
      case Orc2 => MinusOne
      case Orc1 => Complement
      case Nand => MinusOne
    }

    function ZeroFirst(): Trivial {
      match this
      case And => Zero
      case Andc2 => Zero
      case Andc1 => Same
      case Xor => Same
      case Ior => Same
      case Nor => Complement
      case Eqv => Complement
      case Orc2 => Complement
      case Orc1 => MinusOne
      case Nand => MinusOne
    }

    /** The unsigned operations to use for a negative second argument, a negative first one, and two. */
    function PositiveNegative(): Operation {
      match this
      case And => Andc2
      case Andc2 => And
      case Andc1 => Nor
      case Xor => Eqv
      case Ior => Orc2
      case Nor => Andc1
      case Eqv => Xor
      case Orc2 => Ior
      case Orc1 => Nand
      case Nand => Orc1
    }

    function NegativePositive(): Operation {
      match this
      case And => Andc1
      case Andc2 => Nor
      case Andc1 => And
      case Xor => Eqv
      case Ior => Orc1
      case Nor => Andc2
      case Eqv => Xor
      case Orc2 => Nand
      case Orc1 => Ior
      case Nand => Orc2
    }

    function NegativeNegative(): Operation {
      match this
      case And => Nor
      case Andc2 => Andc1
      case Andc1 => Andc2
      case Xor => Xor
      case Ior => Nand
      case Nor => And
      case Eqv => Eqv
      case Orc2 => Orc1
      case Orc1 => Orc2
      case Nand => Ior
    }
  }

  /** Every bit of z is the operation on the bits of x and y. */
  /** What the operations do with two bits. */
  lemma OperationsAre(op: Operation, a: bool, b: bool)
    ensures op.Truth().At(a, b) ==
              match op
              case And => a && b
              case Andc2 => a && !b
              case Andc1 => !a && b
              case Xor => a != b
              case Ior => a || b
              case Nor => !(a || b)
              case Eqv => a == b
              case Orc2 => a || !b
              case Orc1 => !a || b
              case Nand => !(a && b)
  {
  }

  ghost predicate Pointwise(t: Table, x: int, y: int, z: int) {
    forall i: nat :: Bit(z, i) == t.At(Bit(x, i), Bit(y, i))
  }

  /** There is one such integer. */
  lemma PointwiseUnique(t: Table, x: int, y: int, z: int, z': int)
    requires Pointwise(t, x, y, z) && Pointwise(t, x, y, z')
    ensures z == z'
  {
    BitsDetermine(z, z');
  }

  /** The dispatch on signs uses the operation that complements the right arguments. */
  lemma DispatchTables(op: Operation)
    ensures op.PositiveNegative().Truth() == op.Truth().NotSecond()
    ensures op.NegativePositive().Truth() == op.Truth().NotFirst()
    ensures op.NegativeNegative().Truth() == op.Truth().NotFirst().NotSecond()
  {
  }

  method BignumBitwiseNot(b: Bignum) returns (r: Bignum)
    requires Normal(b)
    ensures Normal(r) && r.Value() == -1 - b.Value()
  {
    r := BignumSubtract(BignumOne(true), b);
  }

  // ----- digits -----

  ghost predicate BitwiseSoFar(t: Table, x: seq<nat>, y: seq<nat>, r: seq<nat>)
    requires !t.ff
  {
    && |y| <= |x| && |r| <= |x| && AllDigits(r)
    && forall i | 0 <= i < |r| :: r[i] == Bitwise(t, x[i], DigitAt(y, i))
  }

  /** Operating digit by digit operates on the whole numbers. */
  lemma {:induction false} BitwiseDigits(t: Table, x: seq<nat>, y: seq<nat>, r: seq<nat>)
    requires !t.ff && BitwiseSoFar(t, x, y, r) && |r| == |x| && AllDigits(x) && AllDigits(y)
    ensures Val(r) == Bitwise(t, Val(x), Val(y))
  {
    if x != [] {
      RadixPow2();
      var x', y' := x[1..], if y == [] then [] else y[1..];
      forall i | 0 <= i < |r[1..]| ensures r[1..][i] == Bitwise(t, x'[i], DigitAt(y', i)) {
        assert r[1..][i] == r[i + 1];
      }
      BitwiseDigits(t, x', y', r[1..]);
      if y == [] { RadixBound(); }
      BitwiseSplit(t, x[0], DigitAt(y, 0), Val(x'), Val(y'), BIGNUM_DIGIT_LENGTH);
    }
  }

  /** The loops over the digits of the longer and the shorter argument. */
  method BitwiseLonger(t: Table, x: seq<nat>, y: seq<nat>) returns (b: Bignum)
    requires !t.ff && AllDigits(x) && AllDigits(y) && |y| <= |x|
    ensures Normal(b) && b.Value() == Bitwise(t, Val(x), Val(y))
  {
    hide Val, Pow, Bitwise, RADIX;
    var r := new nat[|x|];
    var scan := 0;
    RadixBound();
    while scan < |y|
      invariant 0 <= scan <= |y| && BitwiseSoFar(t, x, y, r[..scan])
    {
      BitwiseDigit(t, x[scan], y[scan]);
      ghost var s := r[..scan];
      r[scan] := Bitwise(t, x[scan], y[scan]);
      scan := scan + 1;
      assert r[..scan] == s + [r[scan - 1]];
    }
    while scan < |x|
      invariant |y| <= scan <= |x| && BitwiseSoFar(t, x, y, r[..scan])
    {
      BitwiseDigit(t, x[scan], 0);
      ghost var s := r[..scan];
      r[scan] := Bitwise(t, x[scan], 0);
      scan := scan + 1;
      assert r[..scan] == s + [r[scan - 1]];
    }
    assert r[..scan] == r[..];
    BitwiseDigits(t, x, y, r[..]);
    b := BignumTrim(r, false);
  }

  /** The unsigned operation without its postoperation: the longer argument goes first. */
  method BitwiseMagnitudes(t: Table, x: Bignum, y: Bignum) returns (b: Bignum)
    requires !t.ff && Normal(x) && Normal(y) && !x.negative && !y.negative
    ensures Normal(b) && Pointwise(t, x.Value(), y.Value(), b.Value())
  {
    hide Val, Bit, Bitwise;
    if x.Length() < y.Length() {
      BitwiseSwapped(t, x.Magnitude(), y.Magnitude());
      b := BitwiseLonger(t.Swapped(), y.digits, x.digits);
    } else {
      b := BitwiseLonger(t, x.digits, y.digits);
    }
    forall i: nat ensures Bit(b.Value(), i) == t.At(Bit(x.Value(), i), Bit(y.Value(), i)) {
      BitwiseBit(t, x.Magnitude(), y.Magnitude(), i);
    }
  }

  lemma PointwiseNot(t: Table, x: int, y: int, z: int)
    requires Pointwise(t, x, y, z)
    ensures Pointwise(t.Not(), x, y, -1 - z)
  {
    hide Bit;
    forall i: nat ensures Bit(-1 - z, i) == t.Not().At(Bit(x, i), Bit(y, i)) { BitComplement(z, i); }
  }

  lemma PointwiseArguments(t: Table, x: int, y: int, z: int, negateX: bool, negateY: bool)
    requires Pointwise(if negateX then (if negateY then t.NotFirst().NotSecond() else t.NotFirst())
                       else if negateY then t.NotSecond() else t,
                       if negateX then -1 - x else x, if negateY then -1 - y else y, z)
    ensures Pointwise(t, x, y, z)
  {
    hide Bit;
    forall i: nat ensures Bit(z, i) == t.At(Bit(x, i), Bit(y, i)) {
      BitComplement(x, i);
      BitComplement(y, i);
    }
  }

  /** A zero argument leaves the other one, its complement, or all bits alike. */
  lemma PointwiseZero(op: Operation, z: int)
    ensures Pointwise(op.Truth(), 0, z, op.ZeroFirst().Of(z))
    ensures Pointwise(op.Truth(), z, 0, op.ZeroSecond().Of(z))
  {
    hide Bit;
    forall i: nat ensures Bit(op.ZeroFirst().Of(z), i) == op.Truth().At(Bit(0, i), Bit(z, i)) {
      BitOfZero(i);
      BitComplement(0, i);
      BitComplement(z, i);
    }
    forall i: nat ensures Bit(op.ZeroSecond().Of(z), i) == op.Truth().At(Bit(z, i), Bit(0, i)) {
      BitOfZero(i);
      BitComplement(0, i);
      BitComplement(z, i);
    }
  }

  // ----- the operations -----

  /** Both arguments are nonnegative. */
  method BitwiseUnsigned(op: Operation, x: Bignum, y: Bignum) returns (b: Bignum)
    requires Normal(x) && Normal(y) && !x.negative && !y.negative
    ensures Normal(b) && Pointwise(op.Truth(), x.Value(), y.Value(), b.Value())
    decreases if op.Orc1? || op.Orc2? then 2 else 0
  {
    hide Pointwise, Normal, Val;
    match op
    case And => b := BitwiseMagnitudes(AND, x, y);
    case Andc2 => b := BitwiseMagnitudes(ANDC2, x, y);
    case Andc1 => b := BitwiseMagnitudes(ANDC1, x, y);
    case Xor => b := BitwiseMagnitudes(XOR, x, y);
    case Ior => b := BitwiseMagnitudes(IOR, x, y);
    case Nor =>
      b := BitwiseMagnitudes(IOR, x, y);
      PointwiseNot(IOR, x.Value(), y.Value(), b.Value());
      b := BignumBitwiseNot(b);
    case Eqv =>
      b := BitwiseMagnitudes(XOR, x, y);
      PointwiseNot(XOR, x.Value(), y.Value(), b.Value());
      b := BignumBitwiseNot(b);
    case Nand =>
      b := BitwiseMagnitudes(AND, x, y);
      PointwiseNot(AND, x.Value(), y.Value(), b.Value());
      b := BignumBitwiseNot(b);
    case Orc2 =>
      b := BitwiseSigned(Andc1, x, y);
      PointwiseNot(Andc1.Truth(), x.Value(), y.Value(), b.Value());
      b := BignumBitwiseNot(b);
    case Orc1 =>
      b := BitwiseSigned(Andc2, x, y);
      PointwiseNot(Andc2.Truth(), x.Value(), y.Value(), b.Value());
      b := BignumBitwiseNot(b);
  }

  method WithZero(trivial: Trivial, other: Bignum) returns (b: Bignum)
    requires Normal(other)
    ensures Normal(b) && b.Value() == trivial.Of(other.Value())
  {
    TrimmedZero([]);
    match trivial
    case Zero => b := BIGNUM_ZERO;
    case Same => b := other;
    case Complement => b := BignumBitwiseNot(other);
    case MinusOne => b := BignumOne(true);
  }

  /** The ten operations on bignums of any sign. */
  method BitwiseSigned(op: Operation, x: Bignum, y: Bignum) returns (b: Bignum)
    requires Normal(x) && Normal(y)
    ensures Normal(b) && Pointwise(op.Truth(), x.Value(), y.Value(), b.Value())
    decreases if x.negative || y.negative || op.Orc1? || op.Orc2? then 3 else 1
  {
    hide Pointwise, Val;
    TrimmedZero(x.digits);
    TrimmedZero(y.digits);
    var t := op.Truth();
    if x.IsZero() {
      b := WithZero(op.ZeroFirst(), y);
      PointwiseZero(op, y.Value());
      return;
    }
    if y.IsZero() {
      b := WithZero(op.ZeroSecond(), x);
      PointwiseZero(op, x.Value());
      return;
    }
    DispatchTables(op);
    hide Normal;
    if !x.negative {
      if !y.negative {
        b := BitwiseUnsigned(op, x, y);
      } else {
        var y' := NotNegative(y);
        b := BitwiseUnsigned(op.PositiveNegative(), x, y');
        PointwiseArguments(t, x.Value(), y.Value(), b.Value(), false, true);
      }
    } else {
      var x' := NotNegative(x);
      if !y.negative {
        b := BitwiseUnsigned(op.NegativePositive(), x', y);
        PointwiseArguments(t, x.Value(), y.Value(), b.Value(), true, false);
      } else {
        var y' := NotNegative(y);
        b := BitwiseUnsigned(op.NegativeNegative(), x', y');
        PointwiseArguments(t, x.Value(), y.Value(), b.Value(), true, true);
      }
    }
  }

  /** The complement of a negative bignum is not negative. */
  method NotNegative(b: Bignum) returns (r: Bignum)
    requires Normal(b) && b.negative
    ensures Normal(r) && !r.negative && r.Value() == -1 - b.Value()
  {
    r := BignumBitwiseNot(b);
    TrimmedZero(b.digits);
    TrimmedZero(r.digits);
  }
}
