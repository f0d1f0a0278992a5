/**
 The Blowfish cipher of src/blowfish/blowfish.c and its chaining modes, for any subkeys.
 */
module Blowfish {
  import opened Bits
  import opened Digits

  type Byte = n: nat | n < 0x100
  type Word = n: nat | n < 0x1_0000_0000
  type Box = Byte -> Word

  /** The subkeys: eighteen words and four tables of a word for each byte. */
  datatype Key = Key(P: seq<Word>, S0: Box, S1: Box, S2: Box, S3: Box)

  predicate Valid(B: Key) {
    |B.P| == 18
  }

  /** Two words, which a block of eight bytes stands for. */
  datatype Block = Block(L: Word, R: Word)

  // ----- machine operations on words -----

  lemma Powers()
    ensures Pow2(8) == 0x100 && Pow2(16) == 0x1_0000 && Pow2(24) == 0x100_0000 && Pow2(32) == 0x1_0000_0000
  {
    Pow2Add(8, 8);
    Pow2Add(8, 16);
    Pow2Add(8, 24);
  }

  function Xor(x: Word, y: Word): Word {
    Powers();
    BitwiseBound(XOR, x, y, 32);
    Bitwise(XOR, x, y)
  }

  /** A sum that wraps around. */
  function Sum(x: Word, y: Word): Word {
    (x + y) % 0x1_0000_0000
  }

  /** A word shifted right by k bits, and its lowest eight bits. */
  function ByteAt(x: Word, k: nat): Byte {
    MaskedByte(Div(x, Pow2(k)));
    hide Bitwise;
    Bitwise(AND, Div(x, Pow2(k)), 0xff)
  }

  lemma MaskedByte(x: nat)
    ensures Bitwise(AND, x, 0xff) == x % 0x100
  {
    Powers();
    AndMask(x, 8);
  }

  function F(B: Key, x: Word): Word {
    Sum(Xor(Sum(B.S0(ByteAt(x, 24)), B.S1(ByteAt(x, 16))), B.S2(ByteAt(x, 8))), B.S3(ByteAt(x, 0)))
  }

  // ----- the cipher -----

  /** Rounds 2i and 2i + 1, and their undoing. */
  function Forward(B: Key, b: Block, i: nat): Block
    requires Valid(B) && i < 8
  {
    var L1 := Xor(b.L, B.P[2 * i]);
    var R1 := Xor(b.R, F(B, L1));
    var R2 := Xor(R1, B.P[2 * i + 1]);
    Block(Xor(L1, F(B, R2)), R2)
  }

  function Backward(B: Key, b: Block, i: nat): Block
    requires Valid(B) && i < 8
  {
    var L1 := Xor(b.L, F(B, b.R));
    var R1 := Xor(b.R, B.P[2 * i + 1]);
    var R2 := Xor(R1, F(B, L1));
    Block(Xor(L1, B.P[2 * i]), R2)
  }

  /** The first n pairs of rounds. */
  function ForwardRounds(B: Key, b: Block, n: nat): Block
    requires Valid(B) && n <= 8
  {
    if n == 0 then b else Forward(B, ForwardRounds(B, b, n - 1), n - 1)
  }

  function BackwardRounds(B: Key, b: Block, n: nat): Block
    requires Valid(B) && n <= 8
    decreases n
  {
    if n == 0 then b else BackwardRounds(B, Backward(B, b, n - 1), n - 1)
  }

  function PairsOfRounds(B: Key): (n: nat)
    requires Valid(B)
    ensures n == 8
  {
    |B.P| / 2 - 1
  }

  function Encrypt32(B: Key, b: Block): Block
    requires Valid(B)
  {
    var c := ForwardRounds(B, b, PairsOfRounds(B));
    Block(Xor(c.R, B.P[17]), Xor(c.L, B.P[16]))
  }

  function Decrypt32(B: Key, b: Block): Block
    requires Valid(B)
  {
    BackwardRounds(B, Block(Xor(b.R, B.P[16]), Xor(b.L, B.P[17])), PairsOfRounds(B))
  }

  lemma {:induction false} XorUndone(x: nat, y: nat)
    ensures Bitwise(XOR, Bitwise(XOR, x, y), y) == x
    decreases x + y
  {
    if x + y > 0 {
      XorUndone(x / 2, y / 2);
      var z := Bitwise(XOR, x, y);
      BitwiseNext(XOR, x, y);
      hide Bitwise;
      BitwiseNext(XOR, z, y);
    }
  }

  lemma XorTwice(x: Word, y: Word)
    ensures Xor(Xor(x, y), y) == x
  {
    XorUndone(x, y);
  }

  lemma RoundsUndone(B: Key, b: Block, i: nat)
    requires Valid(B) && i < 8
    ensures Backward(B, Forward(B, b, i), i) == b
    ensures Forward(B, Backward(B, b, i), i) == b
  {
    hide F, Xor;
    var L1 := Xor(b.L, B.P[2 * i]);
    var R1 := Xor(b.R, F(B, L1));
    var R2 := Xor(R1, B.P[2 * i + 1]);
    XorTwice(L1, F(B, R2));
    XorTwice(R1, B.P[2 * i + 1]);
    XorTwice(b.R, F(B, L1));
    XorTwice(b.L, B.P[2 * i]);
    var l1 := Xor(b.L, F(B, b.R));
    var r1 := Xor(b.R, B.P[2 * i + 1]);
    var r2 := Xor(r1, F(B, l1));
    XorTwice(l1, B.P[2 * i]);
    XorTwice(r1, F(B, l1));
    XorTwice(b.R, B.P[2 * i + 1]);
    XorTwice(b.L, F(B, b.R));
  }

  lemma {:induction false} AllRoundsUndone(B: Key, b: Block, n: nat)
    requires Valid(B) && n <= 8
    ensures BackwardRounds(B, ForwardRounds(B, b, n), n) == b
    ensures ForwardRounds(B, BackwardRounds(B, b, n), n) == b
    decreases n
  {
    hide Forward, Backward, Xor;
    if n > 0 {
      RoundsUndone(B, ForwardRounds(B, b, n - 1), n - 1);
      AllRoundsUndone(B, b, n - 1);
      AllRoundsUndone(B, Backward(B, b, n - 1), n - 1);
      RoundsUndone(B, b, n - 1);
    }
  }

  /** Encryption and decryption undo each other, for all subkeys. */
  lemma MutualInverses(B: Key, b: Block)
    requires Valid(B)
    ensures Decrypt32(B, Encrypt32(B, b)) == b
    ensures Encrypt32(B, Decrypt32(B, b)) == b
  {
    hide ForwardRounds, BackwardRounds, Xor;
    var c := ForwardRounds(B, b, PairsOfRounds(B));
    XorTwice(c.L, B.P[16]);
    XorTwice(c.R, B.P[17]);
    AllRoundsUndone(B, b, PairsOfRounds(B));
    var d := Block(Xor(b.R, B.P[16]), Xor(b.L, B.P[17]));
    AllRoundsUndone(B, d, PairsOfRounds(B));
    XorTwice(b.R, B.P[16]);
    XorTwice(b.L, B.P[17]);
  }

  method BlowfishEncrypt32(B: Key, Lp: Word, Rp: Word) returns (L': Word, R': Word)
    requires Valid(B)
    ensures Block(L', R') == Encrypt32(B, Block(Lp, Rp))
  {
    hide F, Xor;
    var L, R := Lp, Rp;
    var i := 0;
    while i < 8
      invariant 0 <= i <= 8 && Block(L, R) == ForwardRounds(B, Block(Lp, Rp), i)
    {
      L := Xor(L, B.P[2 * i]);
      R := Xor(R, F(B, L));
      R := Xor(R, B.P[2 * i + 1]);
      L := Xor(L, F(B, R));
      i := i + 1;
    }
    L := Xor(L, B.P[16]);
    R := Xor(R, B.P[17]);
    L', R' := R, L;
  }

  method BlowfishDecrypt32(B: Key, Lp: Word, Rp: Word) returns (L': Word, R': Word)
    requires Valid(B)
    ensures Block(L', R') == Decrypt32(B, Block(Lp, Rp))
  {
    hide F, Xor;
    var L, R := Rp, Lp;
    R := Xor(R, B.P[17]);
    L := Xor(L, B.P[16]);
    ghost var start := Block(L, R);
    var i := 8;
    while i > 0
      invariant 0 <= i <= 8 && BackwardRounds(B, Block(L, R), i) == BackwardRounds(B, start, PairsOfRounds(B))
    {
      i := i - 1;
      L := Xor(L, F(B, R));
      R := Xor(R, B.P[2 * i + 1]);
      R := Xor(R, F(B, L));
      L := Xor(L, B.P[2 * i]);
    }
    L', R' := L, R;
  }

  // ----- bytes -----

  function Shifted(b: Byte, k: nat): nat {
    b * Pow2(k)
  }

  /** Each byte shifted to its place and joined by an inclusive or. */
  function Be32Dec(p: seq<Byte>): (v: Word)
    requires |p| == 4
    ensures v == (p[0] as int) * 0x100_0000 + (p[1] as int) * 0x1_0000 + (p[2] as int) * 0x100 + p[3] as int
  {
    BigEndian(p[0], p[1], p[2], p[3]);
    hide Bitwise;
    Bitwise(IOR, Shifted(p[0], 24), Bitwise(IOR, Shifted(p[1], 16), Bitwise(IOR, Shifted(p[2], 8), p[3])))
  }

  function Be32Enc(v: Word): (p: seq<Byte>)
    ensures |p| == 4
  {
    [ByteAt(v, 24), ByteAt(v, 16), ByteAt(v, 8), ByteAt(v, 0)]
  }

  /** Four bytes in the places of a word. */
  lemma BigEndian(a: Byte, b: Byte, c: Byte, d: Byte)
    ensures Bitwise(IOR, Shifted(a, 24), Bitwise(IOR, Shifted(b, 16), Bitwise(IOR, Shifted(c, 8), d)))
      == a * 0x100_0000 + b * 0x1_0000 + c * 0x100 + d
  {
    hide Bitwise;
    Powers();
    IorDisjoint(c, 8, d);
    IorDisjoint(b, 16, c * 0x100 + d);
    IorDisjoint(a, 24, b * 0x1_0000 + (c * 0x100 + d));
  }

  lemma Quotients(a: Byte, b: Byte, c: Byte, d: Byte)
    ensures var x := a * 0x100_0000 + b * 0x1_0000 + c * 0x100 + d;
      x / 0x100_0000 == a && x / 0x1_0000 == a * 0x100 + b && x / 0x100 == a * 0x1_0000 + b * 0x100 + c
  {
    var x: nat := a * 0x100_0000 + b * 0x1_0000 + c * 0x100 + d;
    DivUnique(0x100_0000, a, b * 0x1_0000 + c * 0x100 + d, x / 0x100_0000, x % 0x100_0000);
    DivUnique(0x1_0000, a * 0x100 + b, c * 0x100 + d, x / 0x1_0000, x % 0x1_0000);
    DivUnique(0x100, a * 0x1_0000 + b * 0x100 + c, d, x / 0x100, x % 0x100);
  }

  lemma ByteIs(x: Word, k: nat, q: nat, r: nat, b: Byte)
    requires x / Pow2(k) == q && q == r * 0x100 + b
    ensures ByteAt(x, k) == b
  {
    MaskedByte(q);
    DivUnique(0x100, r, b, q / 0x100, q % 0x100);
  }

  /** The bytes of a word. */
  lemma BytesOf(x: Word, a: Byte, b: Byte, c: Byte, d: Byte)
    requires x == a * 0x100_0000 + b * 0x1_0000 + c * 0x100 + d
    ensures ByteAt(x, 24) == a && ByteAt(x, 16) == b && ByteAt(x, 8) == c && ByteAt(x, 0) == d
  {
    Powers();
    Quotients(a, b, c, d);
    assert x / Pow2(0) == x;
    hide Bitwise, Pow2, ByteAt;
    ByteIs(x, 24, a, 0, a);
    ByteIs(x, 16, a * 0x100 + b, a, b);
    ByteIs(x, 8, a * 0x1_0000 + b * 0x100 + c, a * 0x100 + b, c);
    ByteIs(x, 0, x, a * 0x1_0000 + b * 0x100 + c, d);
  }

  lemma HasBytes(v: Word) returns (a: Byte, b: Byte, c: Byte, d: Byte)
    ensures v == a * 0x100_0000 + b * 0x1_0000 + c * 0x100 + d
  {
    var q: nat := v / 0x100;
    d := v % 0x100;
    var q': nat := q / 0x100;
    c := q % 0x100;
    b := q' % 0x100;
    a := q' / 0x100;
  }

  lemma EncodedWord(v: Word)
    ensures Be32Dec(Be32Enc(v)) == v
  {
    var a, b, c, d := HasBytes(v);
    hide Bitwise, ByteAt;
    BytesOf(v, a, b, c, d);
    BigEndian(a, b, c, d);
  }

  lemma DecodedWord(p: seq<Byte>)
    requires |p| == 4
    ensures Be32Enc(Be32Dec(p)) == p
  {
    hide Bitwise;
    BigEndian(p[0], p[1], p[2], p[3]);
    BytesOf(Be32Dec(p), p[0], p[1], p[2], p[3]);
  }

  function ToBlock(p: seq<Byte>): Block
    requires |p| == 8
  {
    Block(Be32Dec(p[..4]), Be32Dec(p[4..]))
  }

  function ToBytes(b: Block): (p: seq<Byte>)
    ensures |p| == 8
  {
    Be32Enc(b.L) + Be32Enc(b.R)
  }

  /** Blocks and their bytes determine each other. */
  lemma BlockBytes(b: Block, p: seq<Byte>)
    requires |p| == 8
    ensures ToBlock(ToBytes(b)) == b && ToBytes(ToBlock(p)) == p
  {
    hide Be32Dec, Be32Enc;
    EncodedWord(b.L);
    EncodedWord(b.R);
    DecodedWord(p[..4]);
    DecodedWord(p[4..]);
    assert ToBytes(b)[..4] == Be32Enc(b.L) && ToBytes(b)[4..] == Be32Enc(b.R);
    assert p == p[..4] + p[4..];
  }

  function EncryptBytes(B: Key, p: seq<Byte>): (r: seq<Byte>)
    requires Valid(B) && |p| == 8
    ensures |r| == 8
  {
    ToBytes(Encrypt32(B, ToBlock(p)))
  }

  function DecryptBytes(B: Key, p: seq<Byte>): (r: seq<Byte>)
    requires Valid(B) && |p| == 8
    ensures |r| == 8
  {
    ToBytes(Decrypt32(B, ToBlock(p)))
  }

  lemma BytesInverse(B: Key, p: seq<Byte>)
    requires Valid(B) && |p| == 8
    ensures DecryptBytes(B, EncryptBytes(B, p)) == p
    ensures EncryptBytes(B, DecryptBytes(B, p)) == p
  {
    hide ToBlock, ToBytes, Encrypt32, Decrypt32;
    var b := ToBlock(p);
    BlockBytes(Encrypt32(B, b), p);
    BlockBytes(Decrypt32(B, b), p);
    MutualInverses(B, b);
  }

  // ----- what is computed -----

  /** The round function in numbers: u is the first sum with the bits of the third table's word flipped in. */
  lemma RoundFunction(B: Key, x: Word, a: Byte, b: Byte, c: Byte, d: Byte, u: nat)
    requires x == a * 0x100_0000 + b * 0x1_0000 + c * 0x100 + d
    requires forall i: nat :: Bit(u, i) <==> (Bit((B.S0(a) + B.S1(b)) % 0x1_0000_0000, i) != Bit(B.S2(c), i))
    ensures F(B, x) == (u + B.S3(d)) % 0x1_0000_0000
  {
    hide Bitwise, Bit;
    BytesOf(x, a, b, c, d);
    var s := Sum(B.S0(a), B.S1(b));
    XorBits(s, B.S2(c));
    BitsDetermine(u, Xor(s, B.S2(c)));
  }

  lemma XorBits(x: Word, y: Word)
    ensures forall i: nat :: Bit(Xor(x, y), i) == (Bit(x, i) != Bit(y, i))
  {
    hide Bitwise, Bit;
    forall i: nat ensures Bit(Xor(x, y), i) == (Bit(x, i) != Bit(y, i)) {
      BitwiseBit(XOR, x, y, i);
    }
  }

  /**
   Encryption is sixteen rounds with the subkeys in order. In each, the left half is joined with a subkey and what
   the round function makes of it with the right half, and the halves change places. The last change is undone and
   both halves are joined with the last two subkeys.
   */
  lemma SixteenRounds(B: Key, L: seq<Word>, R: seq<Word>)
    requires Valid(B) && |L| == |R| == 17
    requires forall i | 0 <= i < 16 :: R[i + 1] == Xor(L[i], B.P[i]) && L[i + 1] == Xor(R[i], F(B, R[i + 1]))
    ensures Encrypt32(B, Block(L[0], R[0])) == Block(Xor(R[16], B.P[17]), Xor(L[16], B.P[16]))
  {
    hide F, Xor;
    PairsAreRounds(B, L, R, 8);
  }

  lemma {:induction false} PairsAreRounds(B: Key, L: seq<Word>, R: seq<Word>, n: nat)
    requires Valid(B) && |L| == |R| == 17 && n <= 8
    requires forall i | 0 <= i < 16 :: R[i + 1] == Xor(L[i], B.P[i]) && L[i + 1] == Xor(R[i], F(B, R[i + 1]))
    ensures ForwardRounds(B, Block(L[0], R[0]), n) == Block(L[2 * n], R[2 * n])
    decreases n
  {
    hide F, Xor;
    if n > 0 {
      PairsAreRounds(B, L, R, n - 1);
      var i := 2 * n - 2;
      assert R[i + 1] == Xor(L[i], B.P[i]) && L[i + 1] == Xor(R[i], F(B, R[i + 1]));
      assert R[i + 1 + 1] == Xor(L[i + 1], B.P[i + 1]) && L[i + 1 + 1] == Xor(R[i + 1], F(B, R[i + 1 + 1]));
    }
  }
}
