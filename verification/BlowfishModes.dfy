/**
 The chaining modes of src/blowfish/blowfish.c: CBC, CFB and OFB (sections 6.2, 6.3 and 6.4 of NIST SP 800-38A).
 */
module BlowfishModes {
  import opened Bits
  import opened Blowfish
  import opened Digits

  // ----- cipher block chaining -----

  function XorBlocks(a: Block, b: Block): Block {
    Block(Xor(a.L, b.L), Xor(a.R, b.R))
  }

  /** The vector for the data after s: the last block of s. */
  function LastBlock(iv: Block, s: seq<Block>): Block {
    if s == [] then iv else s[|s| - 1]
  }

  function CbcEncrypt(B: Key, iv: Block, s: seq<Block>): (r: seq<Block>)
    requires Valid(B)
    ensures |r| == |s|
  {
    if s == [] then [] else
      var before := CbcEncrypt(B, iv, s[..|s| - 1]);
      before + [Encrypt32(B, XorBlocks(LastBlock(iv, before), s[|s| - 1]))]
  }

  function CbcDecryptBlock(B: Key, iv: Block, s: seq<Block>, k: nat): Block
    requires Valid(B) && k < |s|
  {
    XorBlocks(Decrypt32(B, s[k]), if k == 0 then iv else s[k - 1])
  }

  function CbcDecrypt(B: Key, iv: Block, s: seq<Block>): (r: seq<Block>)
    requires Valid(B)
    ensures |r| == |s|
    ensures forall k | 0 <= k < |s| :: r[k] == CbcDecryptBlock(B, iv, s, k)
  {
    seq(|s|, k requires 0 <= k < |s| => CbcDecryptBlock(B, iv, s, k))
  }

  lemma XorBlocksTwice(a: Block, b: Block)
    ensures XorBlocks(XorBlocks(a, b), a) == b && XorBlocks(a, b) == XorBlocks(b, a)
  {
    XorCommutes(a.L, b.L);
    XorCommutes(a.R, b.R);
    XorTwice(b.L, a.L);
    XorTwice(b.R, a.R);
  }

  lemma XorCommutes(x: Word, y: Word)
    ensures Xor(x, y) == Xor(y, x)
  {
    BitwiseSwapped(XOR, x, y);
  }

  /** The block at k of an encryption, which does not depend on the blocks after it. */
  lemma {:induction false} CbcEncryptAt(B: Key, iv: Block, s: seq<Block>, k: nat)
    requires Valid(B) && k < |s|
    ensures var e := CbcEncrypt(B, iv, s);
      var last := if k == 0 then iv else e[k - 1];
      e[k] == Encrypt32(B, Block(Xor(last.L, s[k].L), Xor(last.R, s[k].R)))
    ensures CbcEncrypt(B, iv, s[..k]) == CbcEncrypt(B, iv, s)[..k]
    decreases |s|
  {
    hide Encrypt32, Xor;
    var n := |s| - 1;
    var before := CbcEncrypt(B, iv, s[..n]);
    assert CbcEncrypt(B, iv, s)[..n] == before;
    if k < n {
      CbcEncryptAt(B, iv, s[..n], k);
      assert s[..n][..k] == s[..k];
      assert CbcEncrypt(B, iv, s)[..k] == before[..k];
    }
  }

  /** Decryption recovers the data, however many blocks there are. */
  lemma CbcInverse(B: Key, iv: Block, s: seq<Block>)
    requires Valid(B)
    ensures CbcDecrypt(B, iv, CbcEncrypt(B, iv, s)) == s
  {
    hide Encrypt32, Decrypt32, Xor, CbcEncrypt;
    var e := CbcEncrypt(B, iv, s);
    forall k | 0 <= k < |s| ensures CbcDecrypt(B, iv, e)[k] == s[k] {
      CbcEncryptAt(B, iv, s, k);
      var last := if k == 0 then iv else e[k - 1];
      MutualInverses(B, XorBlocks(last, s[k]));
      XorBlocksTwice(last, s[k]);
    }
  }

  /** Data in two parts, the second with the vector that the first one leaves, gives the same as in one. */
  lemma {:induction false} CbcEncryptSplit(B: Key, iv: Block, a: seq<Block>, b: seq<Block>)
    requires Valid(B)
    ensures var e := CbcEncrypt(B, iv, a); CbcEncrypt(B, iv, a + b) == e + CbcEncrypt(B, LastBlock(iv, e), b)
    decreases |b|
  {
    hide Encrypt32, XorBlocks;
    if b == [] {
      assert a + b == a;
    } else {
      var n := |b| - 1;
      assert (a + b)[..|a + b| - 1] == a + b[..n];
      CbcEncryptSplit(B, iv, a, b[..n]);
      var e := CbcEncrypt(B, iv, a);
      var f := CbcEncrypt(B, LastBlock(iv, e), b[..n]);
      assert LastBlock(iv, e + f) == LastBlock(LastBlock(iv, e), f);
    }
  }

  lemma CbcDecryptSplit(B: Key, iv: Block, a: seq<Block>, b: seq<Block>)
    requires Valid(B)
    ensures CbcDecrypt(B, iv, a + b) == CbcDecrypt(B, iv, a) + CbcDecrypt(B, LastBlock(iv, a), b)
  {
    hide Decrypt32, XorBlocks;
    var d, e := CbcDecrypt(B, iv, a + b), CbcDecrypt(B, LastBlock(iv, a), b);
    forall k | 0 <= k < |b| ensures d[|a| + k] == e[k] {
      assert d[|a| + k] == CbcDecryptBlock(B, iv, a + b, |a| + k);
    }
    forall k | 0 <= k < |a| ensures d[k] == CbcDecrypt(B, iv, a)[k] {
      assert d[k] == CbcDecryptBlock(B, iv, a + b, k);
    }
  }

  // ----- blocks in memory -----

  /** Block k of a buffer. */
  function At(p: seq<Byte>, k: nat): Block
    requires 8 * k + 8 <= |p|
  {
    Block(Be32Dec(p[8 * k..8 * k + 4]), Be32Dec(p[8 * k + 4..8 * k + 8]))
  }

  function Blocks(p: seq<Byte>): (r: seq<Block>)
    ensures |r| == |p| / 8 && forall k | 0 <= k < |r| :: r[k] == At(p, k)
  {
    seq(|p| / 8, k requires 0 <= k < |p| / 8 => At(p, k))
  }

  /** A block's words, the highest byte first. */
  lemma AtIs(p: seq<Byte>, k: nat, a: Byte, b: Byte, c: Byte, d: Byte)
    requires 8 * k + 8 <= |p|
    ensures p[8 * k..8 * k + 4] == [a, b, c, d] ==> At(p, k).L == a * 0x100_0000 + b * 0x1_0000 + c * 0x100 + d
    ensures p[8 * k + 4..8 * k + 8] == [a, b, c, d] ==> At(p, k).R == a * 0x100_0000 + b * 0x1_0000 + c * 0x100 + d
  {
    hide Bitwise;
  }

  /** The blocks determine the bytes. */
  lemma BlocksDetermine(p: seq<Byte>, q: seq<Byte>)
    requires |p| == |q| && |p| % 8 == 0 && Blocks(p) == Blocks(q)
    ensures p == q
  {
    hide At;
    forall i | 0 <= i < |p| ensures p[i] == q[i] {
      var k := i / 8;
      assert At(p, k) == Blocks(p)[k] == Blocks(q)[k] == At(q, k);
      BlockDetermines(p, q, k, i);
    }
  }

  lemma BlockDetermines(p: seq<Byte>, q: seq<Byte>, k: nat, i: nat)
    requires 8 * k <= i < 8 * k + 8 <= |p| == |q| && At(p, k) == At(q, k)
    ensures p[i] == q[i]
  {
    hide Be32Dec;
    if i < 8 * k + 4 {
      WordDetermines(p, q, 8 * k, i);
    } else {
      WordDetermines(p, q, 8 * k + 4, i);
    }
  }

  lemma WordDetermines(p: seq<Byte>, q: seq<Byte>, at: nat, i: nat)
    requires at <= i < at + 4 <= |p| == |q| && Be32Dec(p[at..at + 4]) == Be32Dec(q[at..at + 4])
    ensures p[i] == q[i]
  {
    hide Be32Dec, Be32Enc;
    DecodedWord(p[at..at + 4]);
    DecodedWord(q[at..at + 4]);
    assert p[i] == p[at..at + 4][i - at] && q[i] == q[at..at + 4][i - at];
  }

  /** Data that was encrypted block by block into c and decrypted into d is the same bytes again. */
  lemma CbcBytesRoundTrip(B: Key, iv: Block, s: seq<Byte>, c: seq<Byte>, d: seq<Byte>)
    requires Valid(B) && |s| % 8 == 0 && |c| == |s| && |d| == |s|
    requires Blocks(c) == CbcEncrypt(B, iv, Blocks(s)) && Blocks(d) == CbcDecrypt(B, iv, Blocks(c))
    ensures d == s
  {
    hide Blocks, CbcEncrypt, CbcDecrypt;
    CbcInverse(B, iv, Blocks(s));
    BlocksDetermine(d, s);
  }

  method Load(p: array<Byte>, k: nat) returns (L: Word, R: Word)
    requires 8 * k + 8 <= p.Length
    ensures Block(L, R) == At(p[..], k)
  {
    hide Be32Dec;
    assert p[8 * k..8 * k + 4] == p[..][8 * k..8 * k + 4];
    assert p[8 * k + 4..8 * k + 8] == p[..][8 * k + 4..8 * k + 8];
    L, R := Be32Dec(p[8 * k..8 * k + 4]), Be32Dec(p[8 * k + 4..8 * k + 8]);
  }

  /** Stores block k, and changes no other byte. */
  method Store(p: array<Byte>, k: nat, L: Word, R: Word)
    requires 8 * k + 8 <= p.Length
    modifies p
    ensures At(p[..], k) == Block(L, R)
    ensures forall j | 0 <= j && 8 * j + 8 <= p.Length && j != k :: At(p[..], j) == old(At(p[..], j))
    ensures forall i | 8 * k + 8 <= i < p.Length :: p[i] == old(p[i])
  {
    hide Be32Enc, Be32Dec;
    ghost var was := p[..];
    StoreWord(p, 8 * k, L);
    StoreWord(p, 8 * k + 4, R);
    EncodedWord(L);
    EncodedWord(R);
    assert p[..][8 * k..8 * k + 4] == Be32Enc(L) && p[..][8 * k + 4..8 * k + 8] == Be32Enc(R);
    OthersStay(was, p[..], k);
  }

  method StoreWord(p: array<Byte>, at: nat, v: Word)
    requires at + 4 <= p.Length
    modifies p
    ensures forall i | 0 <= i < 4 :: p[at + i] == Be32Enc(v)[i]
    ensures forall i | 0 <= i < p.Length && !(at <= i < at + 4) :: p[i] == old(p[i])
  {
    hide Be32Enc;
    var b := Be32Enc(v);
    p[at], p[at + 1], p[at + 2], p[at + 3] := b[0], b[1], b[2], b[3];
  }

  lemma OthersStay(was: seq<Byte>, now: seq<Byte>, k: nat)
    requires |was| == |now| && 8 * k + 8 <= |was|
    requires forall i | 0 <= i < |was| && !(8 * k <= i < 8 * k + 8) :: now[i] == was[i]
    ensures forall j: nat | 8 * j + 8 <= |was| && j != k :: At(now, j) == At(was, j)
  {
    hide Be32Dec;
    forall j: nat | 8 * j + 8 <= |was| && j != k ensures At(now, j) == At(was, j) {
      assert now[8 * j..8 * j + 4] == was[8 * j..8 * j + 4];
      assert now[8 * j + 4..8 * j + 8] == was[8 * j + 4..8 * j + 8];
    }
  }

  /** The output may be the input. */
  method BlowfishEncryptCbc(B: Key, iv: array<Byte>, input: array<Byte>, output: array<Byte>, n: nat)
    requires Valid(B) && iv.Length == 8 && n % 8 == 0 && n <= input.Length && n <= output.Length
    requires iv != input && iv != output
    modifies iv, output
    ensures Blocks(output[..n]) == CbcEncrypt(B, old(At(iv[..], 0)), old(Blocks(input[..n])))
    ensures output[n..] == old(output[n..])
    ensures At(iv[..], 0) == if n == 0 then old(At(iv[..], 0)) else At(output[..], n / 8 - 1)
  {
    hide Encrypt32, XorBlocks, CbcEncrypt, At;
    ghost var v, data, tail := At(iv[..], 0), Blocks(input[..n]), output[..];
    ghost var e := CbcEncrypt(B, v, data);
    BlocksAt(input[..], n);
    var L, R := Load(iv, 0);
    var i := 0;
    while i < n / 8
      invariant 0 <= i <= n / 8 && iv[..] == old(iv[..])
      invariant forall k | 0 <= k < i :: At(output[..], k) == e[k]
      invariant forall k | i <= k < n / 8 :: At(input[..], k) == data[k]
      invariant forall k | n <= k < output.Length :: output[k] == tail[k]
      invariant Block(L, R) == if i == 0 then v else e[i - 1]
    {
      CbcEncryptAt(B, v, data, i);
      ghost var last, was := Block(L, R), input[..];
      var L_, R_ := Load(input, i);
      L := Xor(L, L_);
      R := Xor(R, R_);
      XorsBlocks(last, data[i], L, R);
      L, R := BlowfishEncrypt32(B, L, R);
      Store(output, i, L, R);
      i := i + 1;
    }
    BlocksAt(output[..], n);
    assert Blocks(output[..][..n]) == e;
    assert output[..][..n] == output[..n];
    Store(iv, 0, L, R);
  }

  lemma XorsBlocks(a: Block, b: Block, L: Word, R: Word)
    requires L == Xor(a.L, b.L) && R == Xor(a.R, b.R)
    ensures Block(L, R) == XorBlocks(a, b)
  {
  }

  lemma BlocksAt(p: seq<Byte>, n: nat)
    requires n <= |p|
    ensures forall k | 0 <= k < n / 8 :: Blocks(p[..n])[k] == At(p, k)
  {
    hide Be32Dec;
    forall k | 0 <= k < n / 8 ensures Blocks(p[..n])[k] == At(p, k) {
      assert p[..n][8 * k..8 * k + 4] == p[8 * k..8 * k + 4];
      assert p[..n][8 * k + 4..8 * k + 8] == p[8 * k + 4..8 * k + 8];
    }
  }

  /** From the last block to the first; the output may be the input. */
  method BlowfishDecryptCbc(B: Key, iv: array<Byte>, input: array<Byte>, output: array<Byte>, n: nat)
    requires Valid(B) && iv.Length == 8 && n % 8 == 0 && n <= input.Length && n <= output.Length
    requires iv != input && iv != output
    modifies iv, output
    ensures Blocks(output[..n]) == CbcDecrypt(B, old(At(iv[..], 0)), old(Blocks(input[..n])))
    ensures output[n..] == old(output[n..])
    ensures At(iv[..], 0) == if n == 0 then old(At(iv[..], 0)) else old(At(input[..], n / 8 - 1))
  {
    hide Decrypt32, XorBlocks, At;
    ghost var v, data, tail := At(iv[..], 0), Blocks(input[..n]), output[..];
    BlocksAt(input[..], n);
    assert input[..][..n] == input[..n];
    var i := n / 8;
    if i == 0 { return; }
    var L0, R0 := Load(input, i - 1);
    var L, R := DecryptDown(B, input, output, n, L0, R0, v, data);
    var L_, R_ := Load(iv, 0);
    L, R := DecryptChained(B, L, R, L_, R_);
    Store(output, 0, L, R);
    WholeOutput(output[..], tail, n, CbcDecrypt(B, v, data));
    assert output[..][..n] == output[..n] && output[..][n..] == output[n..] && tail[n..] == old(output[n..]);
    Store(iv, 0, L0, R0);
  }

  /** All blocks but the first, which is left in the result. */
  method DecryptDown(B: Key, input: array<Byte>, output: array<Byte>, n: nat, L0: Word, R0: Word, ghost v: Block,
                     ghost data: seq<Block>)
    returns (L: Word, R: Word)
    requires Valid(B) && 8 <= n && n % 8 == 0 && n <= input.Length && n <= output.Length && |data| == n / 8
    requires Block(L0, R0) == data[n / 8 - 1] && forall k | 0 <= k < n / 8 :: At(input[..], k) == data[k]
    modifies output
    ensures forall k | 1 <= k < n / 8 :: At(output[..], k) == CbcDecrypt(B, v, data)[k]
    ensures forall k | n <= k < output.Length :: output[k] == old(output[k])
    ensures Block(L, R) == data[0]
  {
    hide Decrypt32, XorBlocks, At, CbcDecrypt;
    ghost var d, tail := CbcDecrypt(B, v, data), output[..];
    L, R := L0, R0;
    var i := n / 8 - 1;
    while i > 0
      invariant 0 <= i < n / 8
      invariant forall k | i < k < n / 8 :: At(output[..], k) == d[k]
      invariant forall k | 0 <= k <= i :: At(input[..], k) == data[k]
      invariant forall k | n <= k < output.Length :: output[k] == tail[k]
      invariant Block(L, R) == data[i]
    {
      var L_, R_ := Load(input, i - 1);
      L, R := DecryptChained(B, L, R, L_, R_);
      Store(output, i, L, R);
      L, R := L_, R_;
      i := i - 1;
    }
  }

  /** One block decrypted and joined with the one before it. */
  method DecryptChained(B: Key, L0: Word, R0: Word, L_: Word, R_: Word) returns (L: Word, R: Word)
    requires Valid(B)
    ensures Block(L, R) == XorBlocks(Decrypt32(B, Block(L0, R0)), Block(L_, R_))
  {
    hide Decrypt32;
    L, R := BlowfishDecrypt32(B, L0, R0);
    L := Xor(L, L_);
    R := Xor(R, R_);
  }

  lemma WholeOutput(p: seq<Byte>, was: seq<Byte>, n: nat, d: seq<Block>)
    requires n <= |p| && |was| == |p| && |d| == n / 8
    requires forall k | 0 <= k < n / 8 :: At(p, k) == d[k]
    requires forall k | n <= k < |p| :: p[k] == was[k]
    ensures Blocks(p[..n]) == d && p[n..] == was[n..]
  {
    hide At;
    BlocksAt(p, n);
  }

  // ----- cipher and output feedback -----

  function XorByte(x: Byte, y: Byte): Byte {
    Powers();
    BitwiseBound(XOR, x, y, 8);
    Bitwise(XOR, x, y)
  }

  lemma XorByteTwice(x: Byte, y: Byte)
    ensures XorByte(XorByte(x, y), y) == x
  {
    XorUndone(x, y);
  }

  lemma XorByteBits(x: Byte, y: Byte, i: nat)
    ensures Bit(XorByte(x, y), i) == (Bit(x, i) != Bit(y, i))
  {
    BitwiseBit(XOR, x, y, i);
  }

  datatype Mode = CfbEncrypting | CfbDecrypting | Ofb

  /** What is threaded through the calls: the vector, and how much of it is used up. */
  datatype Stream = Stream(iv: seq<Byte>, off: nat)

  predicate ValidStream(st: Stream) {
    |st.iv| == 8 && st.off < 8
  }

  function Refreshed(B: Key, st: Stream): (r: seq<Byte>)
    requires Valid(B) && ValidStream(st)
    ensures |r| == 8
  {
    if st.off == 0 then EncryptBytes(B, st.iv) else st.iv
  }

  /** One byte: what comes out, and what is kept for the next one. */
  function Step(B: Key, mode: Mode, st: Stream, t: Byte): (r: (Byte, Stream))
    requires Valid(B) && ValidStream(st)
    ensures ValidStream(r.1)
  {
    var iv := Refreshed(B, st);
    var x := XorByte(t, iv[st.off]);
    var off := (st.off + 1) % 8;
    match mode
    case CfbEncrypting => (x, Stream(iv[st.off := x], off))
    case CfbDecrypting => (x, Stream(iv[st.off := t], off))
    case Ofb => (x, Stream(iv, off))
  }

  function Run(B: Key, mode: Mode, st: Stream, s: seq<Byte>): (r: (seq<Byte>, Stream))
    requires Valid(B) && ValidStream(st)
    ensures |r.0| == |s| && ValidStream(r.1)
    decreases |s|
  {
    if s == [] then ([], st) else
      var before := Run(B, mode, st, s[..|s| - 1]);
      var last := Step(B, mode, before.1, s[|s| - 1]);
      (before.0 + [last.0], last.1)
  }

  lemma RunSnoc(B: Key, mode: Mode, st: Stream, s: seq<Byte>, t: Byte)
    requires Valid(B) && ValidStream(st)
    ensures var before := Run(B, mode, st, s);
      var last := Step(B, mode, before.1, t);
      Run(B, mode, st, s + [t]) == (before.0 + [last.0], last.1)
  {
    assert (s + [t])[..|s|] == s;
  }

  /** The offset counts the bytes since the last block boundary. */
  lemma {:induction false} OffsetAfter(B: Key, mode: Mode, st: Stream, s: seq<Byte>)
    requires Valid(B) && ValidStream(st)
    ensures Run(B, mode, st, s).1.off == (st.off + |s|) % 8
    decreases |s|
  {
    hide Step, Run;
    if s == [] {
      RunEmpty(B, mode, st);
    } else {
      var n := |s| - 1;
      OffsetAfter(B, mode, st, s[..n]);
      RunSnoc(B, mode, st, s[..n], s[n]);
      assert s == s[..n] + [s[n]];
      StepOffset(B, mode, Run(B, mode, st, s[..n]).1, s[n]);
      OffsetNext(st.off, n);
    }
  }

  lemma StepOffset(B: Key, mode: Mode, st: Stream, t: Byte)
    requires Valid(B) && ValidStream(st)
    ensures Step(B, mode, st, t).1.off == (st.off + 1) % 8
  {
    hide Refreshed, XorByte;
  }

  lemma OffsetNext(off: nat, n: nat)
    ensures ((off + n) % 8 + 1) % 8 == (off + (n + 1)) % 8
  {
  }

  lemma RunEmpty(B: Key, mode: Mode, st: Stream)
    requires Valid(B) && ValidStream(st)
    ensures Run(B, mode, st, []) == ([], st)
  {
  }

  /** Chunks that thread the vector and the offset give the same as one call. */
  lemma {:induction false} RunSplit(B: Key, mode: Mode, st: Stream, a: seq<Byte>, b: seq<Byte>)
    requires Valid(B) && ValidStream(st)
    ensures var first := Run(B, mode, st, a);
      var second := Run(B, mode, first.1, b);
      var all := Run(B, mode, st, a + b);
      all.0 == first.0 + second.0 && all.1 == second.1
    decreases |b|
  {
    hide Step, Run;
    var first := Run(B, mode, st, a);
    if b == [] {
      assert a + b == a;
      RunEmpty(B, mode, first.1);
    } else {
      var n := |b| - 1;
      var second := Run(B, mode, first.1, b[..n]);
      RunSplit(B, mode, st, a, b[..n]);
      assert a + b == (a + b[..n]) + [b[n]] && b == b[..n] + [b[n]];
      RunSnoc(B, mode, st, a + b[..n], b[n]);
      RunSnoc(B, mode, first.1, b[..n], b[n]);
      var last := Step(B, mode, second.1, b[n]);
      assert (first.0 + second.0) + [last.0] == first.0 + (second.0 + [last.0]);
    }
  }

  lemma StepInverse(B: Key, st: Stream, t: Byte)
    requires Valid(B) && ValidStream(st)
    ensures var e := Step(B, CfbEncrypting, st, t); Step(B, CfbDecrypting, st, e.0) == (t, e.1)
    ensures var e := Step(B, Ofb, st, t); Step(B, Ofb, st, e.0) == (t, e.1)
  {
    hide Refreshed, XorByte;
    XorByteTwice(t, Refreshed(B, st)[st.off]);
  }

  /** Decrypting recovers the data and ends in the same state, from any offset. */
  lemma {:induction false} CfbInverse(B: Key, st: Stream, s: seq<Byte>)
    requires Valid(B) && ValidStream(st)
    ensures var e := Run(B, CfbEncrypting, st, s);
      var d := Run(B, CfbDecrypting, st, e.0);
      d.0 == s && d.1 == e.1
    decreases |s|
  {
    if s != [] {
      hide Step, Run;
      var n := |s| - 1;
      RunSnoc(B, CfbEncrypting, st, s[..n], s[n]);
      assert s == s[..n] + [s[n]];
      CfbInverse(B, st, s[..n]);
      var c := Run(B, CfbEncrypting, st, s[..n]);
      StepInverse(B, c.1, s[n]);
      RunSnoc(B, CfbDecrypting, st, c.0, Step(B, CfbEncrypting, c.1, s[n]).0);
    }
  }

  lemma {:induction false} OfbInverse(B: Key, st: Stream, s: seq<Byte>)
    requires Valid(B) && ValidStream(st)
    ensures var e := Run(B, Ofb, st, s);
      var d := Run(B, Ofb, st, e.0);
      d.0 == s && d.1 == e.1
    decreases |s|
  {
    if s != [] {
      hide Step, Run;
      var n := |s| - 1;
      RunSnoc(B, Ofb, st, s[..n], s[n]);
      assert s == s[..n] + [s[n]];
      OfbInverse(B, st, s[..n]);
      var c := Run(B, Ofb, st, s[..n]);
      StepInverse(B, c.1, s[n]);
      RunSnoc(B, Ofb, st, c.0, Step(B, Ofb, c.1, s[n]).0);
    }
  }

  /** The byte at i of a run, and the state after it. */
  lemma {:induction false} RunAt(B: Key, mode: Mode, st: Stream, s: seq<Byte>, i: nat)
    requires Valid(B) && ValidStream(st) && i < |s|
    ensures Step(B, mode, Run(B, mode, st, s[..i]).1, s[i]).0 == Run(B, mode, st, s).0[i]
    ensures Run(B, mode, st, s[..i + 1]).1 == Step(B, mode, Run(B, mode, st, s[..i]).1, s[i]).1
    decreases |s|
  {
    hide Step;
    var n := |s| - 1;
    if i < n {
      RunAt(B, mode, st, s[..n], i);
      assert s[..n][..i] == s[..i] && s[..n][..i + 1] == s[..i + 1];
    } else {
      assert s[..i + 1] == s;
    }
  }

  /** The part of the vector that is used up, which is all of it at offset 0. */
  function Used(st: Stream): seq<Byte>
    requires ValidStream(st)
  {
    if st.off == 0 then st.iv else st.iv[..st.off]
  }

  /** In CFB: the vector, when h is what is used up of the first vector and then the output. */
  function CfbVector(B: Key, iv: seq<Byte>, h: seq<Byte>): seq<Byte>
    requires Valid(B) && |iv| == 8
  {
    var q, r := 8 * (|h| / 8), |h| % 8;
    if q == 0 then h + iv[r..] else if r == 0 then h[q - 8..q] else h[q..] + EncryptBytes(B, h[q - 8..q])[r..]
  }

  /** The byte that is joined with the next one. */
  function CfbKey(B: Key, iv: seq<Byte>, h: seq<Byte>): Byte
    requires Valid(B) && |iv| == 8
  {
    var q, r := 8 * (|h| / 8), |h| % 8;
    if q == 0 then iv[r] else EncryptBytes(B, h[q - 8..q])[r]
  }

  lemma CfbNext(B: Key, iv: seq<Byte>, h: seq<Byte>, t: Byte)
    requires Valid(B) && |iv| == 8 && h != []
    ensures |CfbVector(B, iv, h)| == 8
    ensures var x := XorByte(t, CfbKey(B, iv, h));
      && |CfbVector(B, iv, h + [x])| == 8
      && Step(B, CfbEncrypting, Stream(CfbVector(B, iv, h), |h| % 8), t)
         == (x, Stream(CfbVector(B, iv, h + [x]), |h + [x]| % 8))
  {
    hide EncryptBytes, XorByte, CfbVector, CfbKey;
    var x := XorByte(t, CfbKey(B, iv, h));
    var k, r := |h| / 8, |h| % 8;
    InBlock(|h|, k, r);
    if k == 0 {
      VectorBegun(B, iv, h, x);
    } else {
      VectorLater(B, iv, h, k, r, x);
    }
  }

  lemma InBlock(n: nat, k: nat, r: nat)
    requires k == n / 8 && r == n % 8
    ensures n == 8 * k + r && r < 8
    ensures (n + 1) / 8 == (if r == 7 then k + 1 else k) && (n + 1) % 8 == if r == 7 then 0 else r + 1
  {
  }

  lemma VectorAt(B: Key, iv: seq<Byte>, h: seq<Byte>, k: nat, r: nat)
    requires Valid(B) && |iv| == 8 && |h| == 8 * k + r && r < 8
    ensures CfbVector(B, iv, h) ==
      if k == 0 then h + iv[r..] else if r == 0 then h[8 * k - 8..8 * k]
      else h[8 * k..] + EncryptBytes(B, h[8 * k - 8..8 * k])[r..]
    ensures CfbKey(B, iv, h) == if k == 0 then iv[r] else EncryptBytes(B, h[8 * k - 8..8 * k])[r]
  {
    hide EncryptBytes;
    assert |h| / 8 == k && |h| % 8 == r;
  }

  lemma VectorBegun(B: Key, iv: seq<Byte>, h: seq<Byte>, x: Byte)
    requires Valid(B) && |iv| == 8 && 0 < |h| < 8
    ensures |CfbVector(B, iv, h)| == 8 && CfbVector(B, iv, h)[|h| := x] == CfbVector(B, iv, h + [x])
    ensures CfbVector(B, iv, h)[|h|] == CfbKey(B, iv, h)
  {
    hide EncryptBytes, CfbVector, CfbKey;
    VectorAt(B, iv, h, 0, |h|);
    if |h| == 7 {
      VectorAt(B, iv, h + [x], 1, 0);
      assert (h + [x])[0..8] == h + [x];
    } else {
      VectorAt(B, iv, h + [x], 0, |h| + 1);
    }
    assert h + iv[|h|..] == h + [iv[|h|]] + iv[|h| + 1..];
  }

  lemma VectorLater(B: Key, iv: seq<Byte>, h: seq<Byte>, k: nat, r: nat, x: Byte)
    requires Valid(B) && |iv| == 8 && |h| == 8 * k + r && r < 8 && k > 0
    ensures |CfbVector(B, iv, h)| == 8
    ensures var v := if r == 0 then EncryptBytes(B, CfbVector(B, iv, h)) else CfbVector(B, iv, h);
      v[r := x] == CfbVector(B, iv, h + [x]) && v[r] == CfbKey(B, iv, h)
  {
    hide EncryptBytes, CfbVector, CfbKey;
    VectorAt(B, iv, h, k, r);
    var e := EncryptBytes(B, h[8 * k - 8..8 * k]);
    var h' := h + [x];
    assert h'[8 * k - 8..8 * k] == h[8 * k - 8..8 * k] && h'[8 * k..] == h[8 * k..] + [x];
    if r == 7 {
      VectorAt(B, iv, h', k + 1, 0);
      assert h'[8 * k..8 * k + 8] == h'[8 * k..];
    } else {
      VectorAt(B, iv, h', k, r + 1);
    }
  }

  lemma {:induction false} CfbState(B: Key, st: Stream, s: seq<Byte>)
    requires Valid(B) && ValidStream(st)
    ensures var e := Run(B, CfbEncrypting, st, s);
      var h := Used(st) + e.0;
      e.1 == Stream(CfbVector(B, st.iv, h), |h| % 8)
    decreases |s|
  {
    hide EncryptBytes, Run, Step, XorByte, CfbKey;
    if s == [] {
      RunEmpty(B, CfbEncrypting, st);
      assert Used(st) + [] == Used(st);
    } else {
      hide CfbVector;
      var n := |s| - 1;
      CfbState(B, st, s[..n]);
      RunSnoc(B, CfbEncrypting, st, s[..n], s[n]);
      assert s == s[..n] + [s[n]];
      var before := Run(B, CfbEncrypting, st, s[..n]);
      var h := Used(st) + before.0;
      CfbNext(B, st.iv, h, s[n]);
      assert Used(st) + (before.0 + [XorByte(s[n], CfbKey(B, st.iv, h))]) == h + [XorByte(s[n], CfbKey(B, st.iv, h))];
    }
  }

  lemma CfbByte(B: Key, st: Stream, s: seq<Byte>, i: nat)
    requires Valid(B) && ValidStream(st) && i < |s|
    ensures var e := Run(B, CfbEncrypting, st, s).0;
      e[i] == XorByte(s[i], CfbKey(B, st.iv, Used(st) + e[..i]))
  {
    hide EncryptBytes, Run, Step, XorByte, CfbVector, CfbKey;
    CfbState(B, st, s[..i]);
    CfbNext(B, st.iv, Used(st) + Run(B, CfbEncrypting, st, s[..i]).0, s[i]);
    RunAt(B, CfbEncrypting, st, s, i);
    RunPrefix(B, CfbEncrypting, st, s, i);
  }

  /**
   Cipher feedback: with what is used up of the vector put before the output, byte r of block k is joined with byte r
   of the encrypted block before it, or with that of the vector in the block that was begun.
   */
  lemma CfbEncryptAt(B: Key, st: Stream, s: seq<Byte>, i: nat, k: nat, r: nat)
    requires Valid(B) && ValidStream(st) && i < |s|
    requires (if st.off == 0 then 8 else st.off) + i == 8 * k + r && r < 8
    ensures var e := Run(B, CfbEncrypting, st, s).0;
      var h := (if st.off == 0 then st.iv else st.iv[..st.off]) + e;
      e[i] == XorByte(s[i], if k == 0 then st.iv[r] else EncryptBytes(B, h[8 * k - 8..8 * k])[r])
  {
    hide EncryptBytes, Run, XorByte, CfbKey;
    var e := Run(B, CfbEncrypting, st, s).0;
    CfbByte(B, st, s, i);
    var h := Used(st) + e[..i];
    assert Used(st) + e == h + e[i..];
    KeyIn(B, st.iv, h, Used(st) + e, k, r);
  }

  lemma KeyIn(B: Key, iv: seq<Byte>, h: seq<Byte>, all: seq<Byte>, k: nat, r: nat)
    requires Valid(B) && |iv| == 8 && |h| == 8 * k + r && r < 8 && h <= all
    ensures CfbKey(B, iv, h) == if k == 0 then iv[r] else EncryptBytes(B, all[8 * k - 8..8 * k])[r]
  {
    hide EncryptBytes;
    VectorAt(B, iv, h, k, r);
    if k > 0 { assert all[8 * k - 8..8 * k] == h[8 * k - 8..8 * k]; }
  }

  lemma {:induction false} RunPrefix(B: Key, mode: Mode, st: Stream, s: seq<Byte>, i: nat)
    requires Valid(B) && ValidStream(st) && i <= |s|
    ensures Run(B, mode, st, s[..i]).0 == Run(B, mode, st, s).0[..i]
  {
    hide Run;
    RunSplit(B, mode, st, s[..i], s[i..]);
    assert s == s[..i] + s[i..];
  }

  /** The vectors that come from encrypting the first one again and again. */
  ghost predicate Encryptions(B: Key, iv: seq<Byte>, vs: seq<seq<Byte>>)
    requires Valid(B)
  {
    && |vs| > 0 && vs[0] == iv && (forall j | 0 <= j < |vs| :: |vs[j]| == 8)
    && (forall j | 0 < j < |vs| :: vs[j] == EncryptBytes(B, vs[j - 1]))
  }

  /** In OFB the vector is the one for the block. */
  lemma {:induction false} OfbVector(B: Key, st: Stream, s: seq<Byte>, vs: seq<seq<Byte>>, k: nat, r: nat)
    requires Valid(B) && ValidStream(st) && Encryptions(B, st.iv, vs)
    requires |Used(st)| + |s| == 8 * k + r && r < 8 && k < |vs| && r < |vs[k]|
    ensures Run(B, Ofb, st, s).1.off == r
    ensures Refreshed(B, Run(B, Ofb, st, s).1) == vs[k]
    decreases |s|
  {
    hide EncryptBytes, Run, XorByte;
    if s == [] {
      RunEmpty(B, Ofb, st);
      assert k > 0 ==> vs[1] == EncryptBytes(B, vs[0]);
    } else {
      var n := |s| - 1;
      RunSnoc(B, Ofb, st, s[..n], s[n]);
      assert s == s[..n] + [s[n]];
      if r == 0 {
        OfbVector(B, st, s[..n], vs, k - 1, 7);
      } else {
        OfbVector(B, st, s[..n], vs, k, r - 1);
      }
    }
  }

  /** Output feedback: byte r of block k is joined with byte r of the vector encrypted k times. */
  lemma OfbAt(B: Key, st: Stream, s: seq<Byte>, vs: seq<seq<Byte>>, i: nat, k: nat, r: nat)
    requires Valid(B) && ValidStream(st) && i < |s|
    requires (if st.off == 0 then 8 else st.off) + i == 8 * k + r && r < 8 && k < |vs|
    requires vs[0] == st.iv && forall j | 0 <= j < |vs| :: |vs[j]| == 8
    requires forall j | 0 < j < |vs| :: vs[j] == EncryptBytes(B, vs[j - 1])
    ensures Run(B, Ofb, st, s).0[i] == XorByte(s[i], vs[k][r])
  {
    hide EncryptBytes, Run, XorByte, Refreshed;
    OfbVector(B, st, s[..i], vs, k, r);
    RunAt(B, Ofb, st, s, i);
  }

  lemma WholeBlock(p: seq<Byte>)
    requires |p| == 8
    ensures ToBlock(p) == At(p, 0)
  {
  }

  /** Encrypts the vector when all of it has been used. */
  method Refresh(B: Key, iv: array<Byte>, off: nat)
    requires Valid(B) && iv.Length == 8 && off < 8
    modifies iv
    ensures iv[..] == Refreshed(B, Stream(old(iv[..]), off))
  {
    hide Encrypt32, ToBytes, ToBlock, At;
    if off == 0 {
      ghost var iv0 := iv[..];
      var L, R := Load(iv, 0);
      L, R := BlowfishEncrypt32(B, L, R);
      Store(iv, 0, L, R);
      WholeBlock(iv0);
      WholeBlock(iv[..]);
      BlockBytes(Block(L, R), iv[..]);
    }
  }

  /** All of the output so far, what is still to be read, and the state between. */
  ghost predicate Progress(B: Key, mode: Mode, st: Stream, data: seq<Byte>, output: seq<Byte>, was: seq<Byte>,
                           input: seq<Byte>, now: Stream, i: nat)
    requires Valid(B) && ValidStream(st)
  {
    && i <= |data| <= |output| && |data| <= |input| && |was| == |output|
    && now == Run(B, mode, st, data[..i]).1
    && (forall k | 0 <= k < i :: output[k] == Run(B, mode, st, data).0[k])
    && (forall k | i <= k < |data| :: input[k] == data[k])
    && (forall k | |data| <= k < |output| :: output[k] == was[k])
  }

  lemma ProgressNext(B: Key, mode: Mode, st: Stream, data: seq<Byte>, output: seq<Byte>, was: seq<Byte>,
                     input: seq<Byte>, now: Stream, i: nat, x: Byte, input': seq<Byte>, now': Stream)
    requires Valid(B) && ValidStream(st) && Progress(B, mode, st, data, output, was, input, now, i) && i < |data|
    requires ValidStream(now) && Step(B, mode, now, data[i]) == (x, now')
    requires |input'| == |input| && forall k | i < k < |input| :: input'[k] == input[k]
    ensures Progress(B, mode, st, data, output[i := x], was, input', now', i + 1)
  {
    hide Step, Run;
    RunAt(B, mode, st, data, i);
  }

  lemma ProgressStart(B: Key, mode: Mode, st: Stream, output: seq<Byte>, input: seq<Byte>, n: nat)
    requires Valid(B) && ValidStream(st) && n <= |output| && n <= |input|
    ensures Progress(B, mode, st, input[..n], output, output, input, st, 0)
  {
  }

  lemma ProgressEnd(B: Key, mode: Mode, st: Stream, data: seq<Byte>, output: seq<Byte>, was: seq<Byte>,
                    input: seq<Byte>, now: Stream)
    requires Valid(B) && ValidStream(st) && Progress(B, mode, st, data, output, was, input, now, |data|)
    ensures output[..|data|] == Run(B, mode, st, data).0 && now == Run(B, mode, st, data).1
    ensures output[|data|..] == was[|data|..]
  {
    hide Run;
    assert data[..|data|] == data;
  }

  lemma ProgressByte(B: Key, mode: Mode, st: Stream, data: seq<Byte>, output: seq<Byte>, was: seq<Byte>,
                     input: seq<Byte>, now: Stream, i: nat)
    requires Valid(B) && ValidStream(st) && Progress(B, mode, st, data, output, was, input, now, i) && i < |data|
    ensures input[i] == data[i]
  {
  }

  method BlowfishEncryptCfb64(B: Key, iv: array<Byte>, off0: nat, input: array<Byte>, output: array<Byte>, n: nat)
    returns (off: nat)
    requires Valid(B) && iv.Length == 8 && off0 < 8 && n <= input.Length && n <= output.Length
    requires iv != input && iv != output
    modifies iv, output
    ensures output[..n] == Run(B, CfbEncrypting, Stream(old(iv[..]), off0), old(input[..n])).0
    ensures Stream(iv[..], off) == Run(B, CfbEncrypting, Stream(old(iv[..]), off0), old(input[..n])).1
    ensures output[n..] == old(output[n..])
  {
    hide Run, Refreshed, Progress, XorByte;
    off := off0;
    ghost var st, data, was := Stream(iv[..], off), input[..n], output[..];
    assert input[..][..n] == data;
    ProgressStart(B, CfbEncrypting, st, output[..], input[..], n);
    var i := 0;
    while i < n
      invariant 0 <= i <= n && off < 8
      invariant Progress(B, CfbEncrypting, st, data, output[..], was, input[..], Stream(iv[..], off), i)
    {
      ghost var out, inp, now := output[..], input[..], Stream(iv[..], off);
      ProgressByte(B, CfbEncrypting, st, data, out, was, inp, now, i);
      Refresh(B, iv, off);
      ghost var v := iv[..];
      var x := XorByte(input[i], iv[off]);
      output[i] := x;
      iv[off] := x;
      assert iv[..] == v[off := x] && output[..] == out[i := x];
      off := (off + 1) % 8;
      ProgressNext(B, CfbEncrypting, st, data, out, was, inp, now, i, x, input[..], Stream(iv[..], off));
      i := i + 1;
    }
    ProgressEnd(B, CfbEncrypting, st, data, output[..], was, input[..], Stream(iv[..], off));
    assert output[..][..n] == output[..n] && output[..][n..] == output[n..] && was[n..] == old(output[n..]);
  }

  method BlowfishDecryptCfb64(B: Key, iv: array<Byte>, off0: nat, input: array<Byte>, output: array<Byte>, n: nat)
    returns (off: nat)
    requires Valid(B) && iv.Length == 8 && off0 < 8 && n <= input.Length && n <= output.Length
    requires iv != input && iv != output
    modifies iv, output
    ensures output[..n] == Run(B, CfbDecrypting, Stream(old(iv[..]), off0), old(input[..n])).0
    ensures Stream(iv[..], off) == Run(B, CfbDecrypting, Stream(old(iv[..]), off0), old(input[..n])).1
    ensures output[n..] == old(output[n..])
  {
    hide Run, Refreshed, Progress, XorByte;
    off := off0;
    ghost var st, data, was := Stream(iv[..], off), input[..n], output[..];
    assert input[..][..n] == data;
    ProgressStart(B, CfbDecrypting, st, output[..], input[..], n);
    var i := 0;
    while i < n
      invariant 0 <= i <= n && off < 8
      invariant Progress(B, CfbDecrypting, st, data, output[..], was, input[..], Stream(iv[..], off), i)
    {
      ghost var out, inp, now := output[..], input[..], Stream(iv[..], off);
      ProgressByte(B, CfbDecrypting, st, data, out, was, inp, now, i);
      Refresh(B, iv, off);
      ghost var v := iv[..];
      var t := input[i];
      output[i] := XorByte(t, iv[off]);
      iv[off] := t;
      assert iv[..] == v[off := t] && output[..] == out[i := XorByte(t, v[off])];
      ghost var used := off;
      off := (off + 1) % 8;
      ProgressNext(B, CfbDecrypting, st, data, out, was, inp, now, i, XorByte(t, v[used]), input[..],
                   Stream(iv[..], off));
      i := i + 1;
    }
    ProgressEnd(B, CfbDecrypting, st, data, output[..], was, input[..], Stream(iv[..], off));
    assert output[..][..n] == output[..n] && output[..][n..] == output[n..] && was[n..] == old(output[n..]);
  }

  /** Encryption and decryption are the same. */
  method BlowfishEncryptOfb64(B: Key, iv: array<Byte>, off0: nat, input: array<Byte>, output: array<Byte>, n: nat)
    returns (off: nat)
    requires Valid(B) && iv.Length == 8 && off0 < 8 && n <= input.Length && n <= output.Length
    requires iv != input && iv != output
    modifies iv, output
    ensures output[..n] == Run(B, Ofb, Stream(old(iv[..]), off0), old(input[..n])).0
    ensures Stream(iv[..], off) == Run(B, Ofb, Stream(old(iv[..]), off0), old(input[..n])).1
    ensures output[n..] == old(output[n..])
  {
    hide Run, Refreshed, Progress, XorByte;
    off := off0;
    ghost var st, data, was := Stream(iv[..], off), input[..n], output[..];
    assert input[..][..n] == data;
    ProgressStart(B, Ofb, st, output[..], input[..], n);
    var i := 0;
    while i < n
      invariant 0 <= i <= n && off < 8
      invariant Progress(B, Ofb, st, data, output[..], was, input[..], Stream(iv[..], off), i)
    {
      ghost var out, inp, now := output[..], input[..], Stream(iv[..], off);
      ProgressByte(B, Ofb, st, data, out, was, inp, now, i);
      Refresh(B, iv, off);
      ghost var v := iv[..];
      output[i] := XorByte(input[i], iv[off]);
      assert output[..] == out[i := XorByte(data[i], v[off])] && iv[..] == v;
      ghost var used := off;
      off := (off + 1) % 8;
      ProgressNext(B, Ofb, st, data, out, was, inp, now, i, XorByte(data[i], v[used]), input[..],
                   Stream(iv[..], off));
      i := i + 1;
    }
    ProgressEnd(B, Ofb, st, data, output[..], was, input[..], Stream(iv[..], off));
    assert output[..][..n] == output[..n] && output[..][n..] == output[n..] && was[n..] == old(output[n..]);
  }
}
