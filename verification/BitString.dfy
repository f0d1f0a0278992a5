/**
 Bit strings, from src/microcode/bitstr.c: copying a range of bits between words of different alignment.
 */
module BitStrings {
  const OBJECT_LENGTH := 64

  /** A machine word by its bits, the least significant first. */
  type Word = s: seq<bool> | |s| == 64 witness seq(64, _ => false)

  function And(x: Word, y: Word): (r: Word)
    ensures forall b | 0 <= b < 64 :: r[b] == (x[b] && y[b])
  {
    seq(64, b requires 0 <= b < 64 => x[b] && y[b])
  }

  function AndNot(x: Word, y: Word): (r: Word)
    ensures forall b | 0 <= b < 64 :: r[b] == (x[b] && !y[b])
  {
    seq(64, b requires 0 <= b < 64 => x[b] && !y[b])
  }

  function Or(x: Word, y: Word): (r: Word)
    ensures forall b | 0 <= b < 64 :: r[b] == (x[b] || y[b])
  {
    seq(64, b requires 0 <= b < 64 => x[b] || y[b])
  }

  function Shl(x: Word, n: nat): (r: Word)
    requires n < 64
    ensures forall b | 0 <= b < 64 :: r[b] == if b < n then false else x[b - n]
  {
    seq(64, b requires 0 <= b < 64 => if b < n then false else x[b - n])
  }

  function Shr(x: Word, n: nat): (r: Word)
    requires n < 64
    ensures forall b | 0 <= b < 64 :: r[b] == if b + n < 64 then x[b + n] else false
  {
    seq(64, b requires 0 <= b < 64 => if b + n < 64 then x[b + n] else false)
  }

  /** The low n bits; a mask of all of them is not defined. */
  function LowMask(n: nat): (r: Word)
    requires n < 64
    ensures forall b | 0 <= b < 64 :: r[b] == (b < n)
  {
    seq(64, b requires 0 <= b < 64 => b < n)
  }

  function AnyMask(n: nat, offset: nat): (r: Word)
    requires n < 64 && offset < 64
    ensures forall b | 0 <= b < 64 :: r[b] == (offset <= b < offset + n)
  {
    Shl(LowMask(n), offset)
  }

  const NO_BITS: Word := seq(64, _ => false)

  // ----- the bits of a sequence of words -----

  /** The bit at a position, counted from the least significant bit of the first word. */
  function BitOf(words: seq<Word>, q: int): bool {
    if 0 <= q < 64 * |words| then words[q / 64][q % 64] else false
  }

  lemma BitOfWord(words: seq<Word>, w: int, b: int)
    requires 0 <= w < |words| && 0 <= b < 64
    ensures BitOf(words, 64 * w + b) == words[w][b]
  {
    assert (64 * w + b) / 64 == w && (64 * w + b) % 64 == b;
  }

  /** Copying bit by bit, from the top down: count bits that end below position `to` come from those below `from`. */
  ghost predicate Copied(src: seq<Word>, from: int, was: seq<Word>, now: seq<Word>, to: int, count: int) {
    && |now| == |was|
    && forall p | 0 <= p < 64 * |was| ::
      BitOf(now, p) == if to - count <= p < to then BitOf(src, p - to + from) else BitOf(was, p)
  }

  /** The bits of a word from lo to hi are source bits, shift positions away; the others are as they were. */
  ghost predicate WordCopied(src: seq<Word>, shift: int, was: Word, now: Word, w: int, lo: int, hi: int) {
    forall b | 0 <= b < 64 :: now[b] == if lo <= b < hi then BitOf(src, 64 * w + b + shift) else was[b]
  }

  /** The copy goes on downwards by one word, or the part of one. */
  lemma CopyWord(src: seq<Word>, from: int, was: seq<Word>, now: seq<Word>, to: int, count: int, w: int, x: Word,
                 lo: int, hi: int)
    requires Copied(src, from, was, now, to, count) && 0 <= w < |was| && 0 <= lo <= hi <= 64 && count >= 0
    requires if count == 0 then to == 64 * w + hi else to - count == 64 * (w + 1) && hi == 64
    requires WordCopied(src, from - to, now[w], x, w, lo, hi)
    ensures Copied(src, from, was, now[w := x], to, to - (64 * w + lo))
  {
    var then_ := now[w := x];
    forall p | 0 <= p < 64 * |was|
      ensures BitOf(then_, p) == if 64 * w + lo <= p < to then BitOf(src, p - to + from) else BitOf(was, p)
    {
      var v, b := p / 64, p % 64;
      assert p == 64 * v + b;
      BitOfWord(then_, v, b);
      BitOfWord(now, v, b);
    }
  }

  // ----- source words -----

  lemma Aligned(src: seq<Word>, v: int, b: int)
    requires 0 <= v < |src| && 0 <= b < 64
    ensures BitOf(src, 64 * v + b) == src[v][b]
  {
    BitOfWord(src, v, b);
  }

  /** Bits taken from a higher position in the source come from the word or the next one. */
  lemma Above(src: seq<Word>, v: int, b: int, d: int)
    requires 0 < d < 64 && 0 <= b < 64
    ensures b + d < 64 && 0 <= v < |src| ==> BitOf(src, 64 * v + b + d) == src[v][b + d]
    ensures b + d >= 64 && 0 <= v + 1 < |src| ==> BitOf(src, 64 * v + b + d) == src[v + 1][b + d - 64]
  {
    if b + d < 64 {
      if 0 <= v < |src| { BitOfWord(src, v, b + d); }
    } else if 0 <= v + 1 < |src| {
      BitOfWord(src, v + 1, b + d - 64);
    }
  }

  /** And from a lower one, from the word or the one before. */
  lemma Below(src: seq<Word>, v: int, b: int, d: int)
    requires 0 < d < 64 && 0 <= b < 64
    ensures b >= d && 0 <= v < |src| ==> BitOf(src, 64 * v + b - d) == src[v][b - d]
    ensures b < d && 0 <= v - 1 < |src| ==> BitOf(src, 64 * v + b - d) == src[v - 1][b - d + 64]
  {
    if b >= d {
      if 0 <= v < |src| { BitOfWord(src, v, b - d); }
    } else if 0 <= v - 1 < |src| {
      BitOfWord(src, v - 1, b - d + 64);
    }
  }

  lemma AlignedWord(src: seq<Word>, w: int, v: int, shift: int, was: Word, x: Word, lo: int, hi: int)
    requires 0 <= v < |src| && shift == 64 * (v - w) && 0 <= lo <= hi <= 64
    requires forall b | 0 <= b < 64 :: x[b] == if lo <= b < hi then src[v][b] else was[b]
    ensures WordCopied(src, shift, was, x, w, lo, hi)
  {
    forall b | 0 <= b < 64 ensures x[b] == if lo <= b < hi then BitOf(src, 64 * w + b + shift) else was[b] {
      Aligned(src, v, b);
    }
  }

  lemma AboveWord(src: seq<Word>, w: int, v: int, d: int, shift: int, was: Word, x: Word, lo: int, hi: int)
    requires 0 < d < 64 && shift == 64 * (v - w) + d && 0 <= lo <= hi <= 64
    requires lo + d < 64 ==> 0 <= v < |src|
    requires hi + d > 64 ==> 0 <= v + 1 < |src|
    requires forall b | 0 <= b < 64 ::
      x[b] == if lo <= b < hi then (if b + d < 64 then src[v][b + d] else src[v + 1][b + d - 64]) else was[b]
    ensures WordCopied(src, shift, was, x, w, lo, hi)
  {
    forall b | 0 <= b < 64 ensures x[b] == if lo <= b < hi then BitOf(src, 64 * w + b + shift) else was[b] {
      Above(src, v, b, d);
    }
  }

  lemma BelowWord(src: seq<Word>, w: int, v: int, d: int, shift: int, was: Word, x: Word, lo: int, hi: int)
    requires 0 < d < 64 && shift == 64 * (v - w) - d && 0 <= lo <= hi <= 64
    requires hi > d ==> 0 <= v < |src|
    requires lo < d ==> 0 <= v - 1 < |src|
    requires forall b | 0 <= b < 64 ::
      x[b] == if lo <= b < hi then (if b >= d then src[v][b - d] else src[v - 1][b - d + 64]) else was[b]
    ensures WordCopied(src, shift, was, x, w, lo, hi)
  {
    forall b | 0 <= b < 64 ensures x[b] == if lo <= b < hi then BitOf(src, 64 * w + b + shift) else was[b] {
      Below(src, v, b, d);
    }
  }

  // ----- the copy -----

  /** The bits under the mask come from the source word, the others from the destination word. */
  function MaskedTransfer(source: Word, destination: Word, nbits: nat, offset: nat): (r: Word)
    requires nbits < 64 && offset < 64
    ensures forall b | 0 <= b < 64 :: r[b] == if offset <= b < offset + nbits then source[b] else destination[b]
  {
    var mask := AnyMask(nbits, offset);
    Or(And(source, mask), AndNot(destination, mask))
  }

  lemma NothingCopied(src: seq<Word>, from: int, was: seq<Word>, to: int)
    ensures Copied(src, from, was, was, to, 0)
  {
  }

  /**
   Stores one word; the bits from lo to hi of it are the next bits of the copy.
   Pointers are the indices behind the words they point to.
   */
  method StoreWord(dst: array<Word>, w: int, x: Word, ghost src: seq<Word>, ghost from: int, ghost was: seq<Word>,
                   ghost to: int, ghost count: int, ghost lo: int, ghost hi: int)
    requires Copied(src, from, was, dst[..], to, count) && 0 <= w < dst.Length && 0 <= lo <= hi <= 64 && count >= 0
    requires if count == 0 then to == 64 * w + hi else to - count == 64 * (w + 1) && hi == 64
    requires WordCopied(src, from - to, dst[w], x, w, lo, hi)
    modifies dst
    ensures Copied(src, from, was, dst[..], to, to - (64 * w + lo))
    ensures forall i | 0 <= i < dst.Length && i != w :: dst[i] == old(dst[i])
  {
    assert |was| == dst.Length;
    hide Copied, WordCopied;
    CopyWord(src, from, was, dst[..], to, count, w, x, lo, hi);
    ghost var now := dst[..];
    dst[w] := x;
    assert dst[..] == now[w := x];
  }

  /**
   The bits are inside the buffers. When the source bits are lower in their words and do not fit one word, the last
   source word read is the one with the bit below them.
   */
  predicate InBounds(src: seq<Word>, source: int, sourceOffset: int, dst: array<Word>, destination: int,
                     destinationOffset: int, nbits: nat)
  {
    && 0 <= sourceOffset < 64 && 0 <= destinationOffset < 64
    && source <= |src| && destination <= dst.Length
    && 64 * source - sourceOffset - nbits >= 0 && 64 * destination - destinationOffset - nbits >= 0
    && (sourceOffset > destinationOffset && nbits > 64 - sourceOffset ==> 64 * source - sourceOffset - nbits > 0)
  }

  /** Source and destination bits have the same places in their words. */
  method CopyAligned(src: seq<Word>, source0: int, offset: int, dst: array<Word>, destination0: int, nbits0: nat)
    requires InBounds(src, source0, offset, dst, destination0, offset, nbits0) && nbits0 > 0
    modifies dst
    ensures Copied(src, 64 * source0 - offset, old(dst[..]), dst[..], 64 * destination0 - offset, nbits0)
  {
    hide Copied, WordCopied, And, AndNot, Or, LowMask, MaskedTransfer;
    var source, destination, nbits := source0, destination0, nbits0;
    ghost var was, from, to, shift := dst[..], 64 * source - offset, 64 * destination - offset, source - destination;
    NothingCopied(src, from, was, to);
    if offset != 0 {
      var head := 64 - offset;
      if nbits <= head {
        var x := MaskedTransfer(src[source - 1], dst[destination - 1], nbits, head - nbits);
        AlignedWord(src, destination - 1, source - 1, from - to, dst[destination - 1], x, head - nbits, head);
        StoreWord(dst, destination - 1, x, src, from, was, to, 0, head - nbits, head);
        nbits := 0;
      } else {
        var mask := LowMask(head);
        var temp := dst[destination - 1];
        destination, source := destination - 1, source - 1;
        var x := Or(And(src[source], mask), AndNot(temp, mask));
        AlignedWord(src, destination, source, from - to, temp, x, 0, head);
        StoreWord(dst, destination, x, src, from, was, to, 0, 0, head);
        nbits := nbits - head;
      }
    }
    while nbits >= 64
      invariant 0 <= nbits <= nbits0 && source - destination == shift
      invariant nbits > 0 ==> to - (nbits0 - nbits) == 64 * destination
      invariant destination <= destination0
      invariant Copied(src, from, was, dst[..], to, nbits0 - nbits)
    {
      destination, source := destination - 1, source - 1;
      AlignedWord(src, destination, source, from - to, dst[destination], src[source], 0, 64);
      StoreWord(dst, destination, src[source], src, from, was, to, nbits0 - nbits, 0, 64);
      nbits := nbits - 64;
    }
    if nbits > 0 {
      var x := MaskedTransfer(src[source - 1], dst[destination - 1], nbits, 64 - nbits);
      AlignedWord(src, destination - 1, source - 1, from - to, dst[destination - 1], x, 64 - nbits, 64);
      StoreWord(dst, destination - 1, x, src, from, was, to, nbits0 - nbits, 64 - nbits, 64);
    }
  }

  /** Source bits are higher in their words: each destination word joins two source words. */
  method CopyFromAbove(src: seq<Word>, source0: int, sourceOffset: int, dst: array<Word>, destination0: int,
                       destinationOffset: int, nbits0: nat)
    requires InBounds(src, source0, sourceOffset, dst, destination0, destinationOffset, nbits0) && nbits0 > 0
    requires sourceOffset < destinationOffset
    modifies dst
    ensures Copied(src, 64 * source0 - sourceOffset, old(dst[..]), dst[..], 64 * destination0 - destinationOffset,
                   nbits0)
  {
    hide Copied, WordCopied, And, AndNot, Or, LowMask, AnyMask, Shl, Shr;
    var source, destination, nbits := source0, destination0, nbits0;
    ghost var was, from, to := dst[..], 64 * source - sourceOffset, 64 * destination - destinationOffset;
    ghost var shift := source - destination;
    NothingCopied(src, from, was, to);
    var offset1 := destinationOffset - sourceOffset;
    var offset2 := 64 - offset1;
    var head := 64 - destinationOffset;
    if nbits <= head {
      var mask := AnyMask(nbits, head - nbits);
      var temp := dst[destination - 1];
      var x := Or(And(Shr(src[source - 1], offset1), mask), AndNot(temp, mask));
      AboveWord(src, destination - 1, source - 1, offset1, from - to, temp, x, head - nbits, head);
      StoreWord(dst, destination - 1, x, src, from, was, to, 0, head - nbits, head);
      return;
    }
    var mask1, mask2 := LowMask(offset1), LowMask(offset2);
    var mask := LowMask(head);
    var temp := dst[destination - 1];
    destination := destination - 1;
    var x := Or(And(Shr(src[source - 1], offset1), mask), AndNot(temp, mask));
    AboveWord(src, destination, source - 1, offset1, from - to, temp, x, 0, head);
    StoreWord(dst, destination, x, src, from, was, to, 0, 0, head);
    nbits := nbits - head;
    while nbits >= 64
      invariant 0 <= nbits < nbits0 && source - destination == shift + 1
      invariant to - (nbits0 - nbits) == 64 * destination && destination <= destination0
      invariant Copied(src, from, was, dst[..], to, nbits0 - nbits)
    {
      source := source - 1;
      var i := Shl(And(src[source], mask1), offset2);
      destination := destination - 1;
      x := Or(And(Shr(src[source - 1], offset1), mask2), i);
      AboveWord(src, destination, source - 1, offset1, from - to, dst[destination], x, 0, 64);
      StoreWord(dst, destination, x, src, from, was, to, nbits0 - nbits, 0, 64);
      nbits := nbits - 64;
    }
    if nbits > 0 {
      var destTail := And(dst[destination - 1], LowMask(64 - nbits));
      if nbits <= offset1 {
        x := Or(Shl(And(src[source - 1], AnyMask(nbits, offset1 - nbits)), offset2), destTail);
        AboveWord(src, destination - 1, source - 2, offset1, from - to, dst[destination - 1], x, 64 - nbits, 64);
      } else {
        source := source - 1;
        var i := Shl(And(src[source], mask1), offset2);
        var j := nbits - offset1;
        x := Or(Or(Shr(And(src[source - 1], AnyMask(j, 64 - j)), offset1), i), destTail);
        AboveWord(src, destination - 1, source - 1, offset1, from - to, dst[destination - 1], x, 64 - nbits, 64);
      }
      StoreWord(dst, destination - 1, x, src, from, was, to, nbits0 - nbits, 64 - nbits, 64);
    }
  }

  /** The buffer has a source word shifted up over offset1 zeros, and from hi on what the destination word had. */
  ghost predicate Buffered(buffer: Word, source: Word, destination: Word, offset1: int, hi: int) {
    0 < offset1 < 64 && forall b | 0 <= b < 64 ::
      buffer[b] == if b < offset1 then false else if b < hi then source[b - offset1] else destination[b]
  }

  lemma BufferedFirst(source: Word, destination: Word, sourceOffset: nat, offset1: nat)
    requires 0 < offset1 <= sourceOffset < 64
    ensures var head := 64 - sourceOffset;
      var kept: Word :=
        if head + offset1 < 64 then AndNot(destination, LowMask(head + offset1)) else NO_BITS;
      Buffered(Or(kept, Shl(And(source, LowMask(head)), offset1)), source, destination, offset1, head + offset1)
  {
  }

  lemma BufferedNext(source: Word, destination: Word, offset1: nat)
    requires 0 < offset1 < 64
    ensures Buffered(Shl(source, offset1), source, destination, offset1, 64)
  {
  }

  /** The buffer joined with the top of the source word below. */
  lemma BufferedWord(buffer: Word, src: seq<Word>, w: int, v: int, offset1: int, shift: int, was: Word, hi: int)
    requires 1 <= v < |src| && Buffered(buffer, src[v], was, offset1, hi) && offset1 <= hi <= 64
    requires shift == 64 * (v - w) - offset1
    ensures WordCopied(src, shift, was, Or(buffer, And(Shr(src[v - 1], 64 - offset1), LowMask(offset1))), w, 0, hi)
  {
    hide WordCopied;
    var x := Or(buffer, And(Shr(src[v - 1], 64 - offset1), LowMask(offset1)));
    BelowWord(src, w, v, offset1, shift, was, x, 0, hi);
  }

  /** The same with only the top nbits of those, above what the destination word had. */
  lemma BufferedTail(buffer: Word, src: seq<Word>, w: int, v: int, offset1: int, shift: int, was: Word, hi: int,
                     nbits: nat)
    requires 1 <= v < |src| && Buffered(buffer, src[v], was, offset1, hi) && offset1 <= hi <= 64 && nbits <= offset1
    requires shift == 64 * (v - w) - offset1
    ensures WordCopied(src, shift, was,
      Or(Or(buffer, And(was, LowMask(offset1 - nbits))),
         And(Shr(src[v - 1], 64 - offset1), AnyMask(nbits, offset1 - nbits))), w, offset1 - nbits, hi)
  {
    hide WordCopied;
    var x := Or(Or(buffer, And(was, LowMask(offset1 - nbits))),
                And(Shr(src[v - 1], 64 - offset1), AnyMask(nbits, offset1 - nbits)));
    BelowWord(src, w, v, offset1, shift, was, x, offset1 - nbits, hi);
  }

  /** The top of a destination word from the bits below the top of a source word. */
  lemma LastWord(src: seq<Word>, w: int, v: int, offset1: int, shift: int, was: Word, nbits: nat)
    requires 0 <= v < |src| && 0 < offset1 < 64 && 0 < nbits && nbits + offset1 < 64
    requires shift == 64 * (v - w) - offset1
    ensures WordCopied(src, shift, was,
      Or(And(was, LowMask(64 - nbits)), AndNot(Shl(src[v], offset1), LowMask(64 - nbits))), w, 64 - nbits, 64)
  {
    hide WordCopied;
    var x := Or(And(was, LowMask(64 - nbits)), AndNot(Shl(src[v], offset1), LowMask(64 - nbits)));
    BelowWord(src, w, v, offset1, shift, was, x, 64 - nbits, 64);
  }

  /** The last bits of the copy: what is in the buffer, and those still to come from below. */
  method TailFromBelow(src: seq<Word>, source: int, offset1: nat, dst: array<Word>, destination0: int, nbits0: nat,
                       destBuffer: Word, ghost from: int, ghost was: seq<Word>, ghost to: int, ghost total: int,
                       ghost hi: int, ghost count: int)
    requires 0 < offset1 < 64 && nbits0 < 64 && 1 <= source < |src| && 1 <= destination0 <= dst.Length
    requires to - (total - nbits0) == 64 * (destination0 - 1) + offset1 && to - total >= 0
    requires offset1 <= hi <= 64 && count >= 0 && from - to == 64 * (source - (destination0 - 1)) - offset1
    requires if count == 0 then to == 64 * (destination0 - 1) + hi else to - count == 64 * destination0 && hi == 64
    requires Copied(src, from, was, dst[..], to, count)
    requires Buffered(destBuffer, src[source], dst[destination0 - 1], offset1, hi)
    modifies dst
    ensures Copied(src, from, was, dst[..], to, total)
  {
    hide Copied, WordCopied, And, AndNot, Or, LowMask, AnyMask, Shl, Shr, Buffered;
    var destination, nbits := destination0, nbits0;
    var offset2 := 64 - offset1;
    var mask1 := LowMask(offset1);
    if nbits <= offset1 {
      var x := Or(Or(destBuffer, And(dst[destination - 1], LowMask(offset1 - nbits))),
                  And(Shr(src[source - 1], offset2), AnyMask(nbits, offset1 - nbits)));
      BufferedTail(destBuffer, src, destination - 1, source, offset1, from - to, dst[destination - 1], hi, nbits);
      StoreWord(dst, destination - 1, x, src, from, was, to, count, offset1 - nbits, hi);
    } else {
      destination := destination - 1;
      var x := Or(destBuffer, And(Shr(src[source - 1], offset2), mask1));
      BufferedWord(destBuffer, src, destination, source, offset1, from - to, dst[destination], hi);
      StoreWord(dst, destination, x, src, from, was, to, count, 0, hi);
      nbits := nbits - offset1;
      var mask := LowMask(64 - nbits);
      x := Or(And(dst[destination - 1], mask), AndNot(Shl(src[source - 1], offset1), mask));
      LastWord(src, destination - 1, source - 1, offset1, from - to, dst[destination - 1], nbits);
      StoreWord(dst, destination - 1, x, src, from, was, to, to - 64 * destination, 64 - nbits, 64);
    }
  }

  /** Source bits are lower in their words: what is left over from one source word goes on in a buffer. */
  method CopyFromBelow(src: seq<Word>, source0: int, sourceOffset: int, dst: array<Word>, destination0: int,
                       destinationOffset: int, nbits0: nat)
    requires InBounds(src, source0, sourceOffset, dst, destination0, destinationOffset, nbits0) && nbits0 > 0
    requires sourceOffset > destinationOffset
    modifies dst
    ensures Copied(src, 64 * source0 - sourceOffset, old(dst[..]), dst[..], 64 * destination0 - destinationOffset,
                   nbits0)
  {
    hide Copied, WordCopied, And, AndNot, Or, LowMask, AnyMask, Shl, Shr, Buffered;
    var source, destination, nbits := source0, destination0, nbits0;
    ghost var was, from, to := dst[..], 64 * source - sourceOffset, 64 * destination - destinationOffset;
    ghost var shift := source - destination;
    NothingCopied(src, from, was, to);
    var offset1 := sourceOffset - destinationOffset;
    var offset2 := 64 - offset1;
    var head := 64 - sourceOffset;
    if nbits <= head {
      var mask := AnyMask(nbits, offset1 + (head - nbits));
      var temp := dst[destination - 1];
      var x := Or(And(Shl(src[source - 1], offset1), mask), AndNot(temp, mask));
      BelowWord(src, destination - 1, source - 1, offset1, from - to, temp, x, offset1 + (head - nbits), head + offset1);
      StoreWord(dst, destination - 1, x, src, from, was, to, 0, offset1 + (head - nbits), head + offset1);
      return;
    }
    var mask1 := LowMask(offset1);
    var destBuffer: Word := if head + offset1 < 64 then AndNot(dst[destination - 1], LowMask(head + offset1)) else NO_BITS;
    source := source - 1;
    destBuffer := Or(destBuffer, Shl(And(src[source], LowMask(head)), offset1));
    nbits := nbits - head;
    BufferedFirst(src[source], dst[destination - 1], sourceOffset, offset1);
    // The top of the word at the destination pointer is in the buffer; its low offset1 bits are still to come.
    ghost var hi, count := head + offset1, 0;
    while nbits >= 64
      invariant 0 <= nbits < nbits0 && source - destination == shift - 1
      invariant to - (nbits0 - nbits) == 64 * (destination - 1) + offset1 && destination <= destination0
      invariant offset1 <= hi <= 64
      invariant if count == 0 then to == 64 * (destination - 1) + hi else to - count == 64 * destination && hi == 64
      invariant Copied(src, from, was, dst[..], to, count) && count >= 0
      invariant Buffered(destBuffer, src[source], dst[destination - 1], offset1, hi)
    {
      destination := destination - 1;
      var x := Or(destBuffer, And(Shr(src[source - 1], offset2), mask1));
      BufferedWord(destBuffer, src, destination, source, offset1, from - to, dst[destination], hi);
      StoreWord(dst, destination, x, src, from, was, to, count, 0, hi);
      source := source - 1;
      destBuffer := Shl(src[source], offset1);
      BufferedNext(src[source], dst[destination - 1], offset1);
      hi, count := 64, to - 64 * destination;
      nbits := nbits - 64;
    }
    TailFromBelow(src, source, offset1, dst, destination, nbits, destBuffer, from, was, to, nbits0, hi, count);
  }

  /** Copies nbits bits downwards from below the offsets, which are measured from the top of the first words. */
  method CopyBits(src: seq<Word>, source: int, sourceOffset: int, dst: array<Word>, destination: int,
                  destinationOffset: int, nbits: nat)
    requires nbits > 0 ==> InBounds(src, source, sourceOffset, dst, destination, destinationOffset, nbits)
    modifies dst
    ensures Copied(src, 64 * source - sourceOffset, old(dst[..]), dst[..], 64 * destination - destinationOffset, nbits)
  {
    if nbits == 0 {
      NothingCopied(src, 64 * source - sourceOffset, dst[..], 64 * destination - destinationOffset);
      return;
    }
    hide Copied;
    if sourceOffset == destinationOffset {
      CopyAligned(src, source, sourceOffset, dst, destination, nbits);
    } else if sourceOffset < destinationOffset {
      CopyFromAbove(src, source, sourceOffset, dst, destination, destinationOffset, nbits);
    } else {
      CopyFromBelow(src, source, sourceOffset, dst, destination, destinationOffset, nbits);
    }
  }

  // ----- bit strings -----

  const BIT_STRING_FIRST_WORD := 2

  /** A bit string: a header word, a word for its length, and its bits from the least significant one on. */
  ghost predicate BitString(words: seq<Word>, length: nat) {
    64 * BIT_STRING_FIRST_WORD + length <= 64 * |words|
  }

  function BitStringRef(words: seq<Word>, i: int): bool {
    BitOf(words, 64 * BIT_STRING_FIRST_WORD + i)
  }

  /** The words of a bit string from the first on, each with its lowest bit first. */
  lemma BitStringRefIs(words: seq<Word>, length: nat, i: nat)
    requires BitString(words, length) && i < length
    ensures 0 <= BIT_STRING_FIRST_WORD + i / 64 < |words|
    ensures BitStringRef(words, i) == words[BIT_STRING_FIRST_WORD + i / 64][i % 64]
  {
    BitOfWord(words, BIT_STRING_FIRST_WORD + i / 64, i % 64);
  }

  function BitStringIndexToWord(index: int): int {
    BIT_STRING_FIRST_WORD + 1 + index / OBJECT_LENGTH
  }

  function EndOffset(end: nat): nat {
    if end % OBJECT_LENGTH == 0 then 0 else OBJECT_LENGTH - end % OBJECT_LENGTH
  }

  /** The pointer and the offset for the end of a range are the position behind its last bit. */
  lemma EndPosition(end: nat)
    requires end > 0
    ensures 64 * BitStringIndexToWord(end - 1) - EndOffset(end) == 64 * BIT_STRING_FIRST_WORD + end
    ensures 0 <= EndOffset(end) < 64
  {
  }

  datatype Moved = Done | BadRangeArgument(argument: nat)

  /** Copies the bits of the source from start1 to end1 to the destination from start2 on. */
  method BitSubstringMoveRight(src: seq<Word>, length1: nat, start1: nat, end1: nat, dst: array<Word>, length2: nat,
                               start2: nat)
    returns (result: Moved)
    requires BitString(src, length1) && BitString(dst[..], length2)
    modifies dst
    ensures result.Done? <==> start1 <= end1 <= length1 && start2 + (end1 - start1) <= length2
    ensures result == BadRangeArgument(2) <==> start1 > end1
    ensures result == BadRangeArgument(3) <==> length1 < end1 && start1 <= end1
    ensures result == BadRangeArgument(5) <==> start1 <= end1 <= length1 && start2 + (end1 - start1) > length2
    ensures !result.Done? ==> dst[..] == old(dst[..])
    ensures result.Done? ==> forall i | -(64 * BIT_STRING_FIRST_WORD) <= i < 64 * (dst.Length - BIT_STRING_FIRST_WORD) ::
      BitStringRef(dst[..], i) == if start2 <= i < start2 + (end1 - start1) then BitStringRef(src, i - start2 + start1)
                                  else BitStringRef(old(dst[..]), i)
  {
    var nbits: int := end1 - start1;
    var end2: int := start2 + nbits;
    if start1 > end1 { return BadRangeArgument(2); }
    if end1 > length1 { return BadRangeArgument(3); }
    if end2 > length2 { return BadRangeArgument(5); }
    result := Done;
    if nbits > 0 {
      EndPosition(end1);
      EndPosition(end2);
    }
    ghost var was := dst[..];
    ghost var from, to := 64 * BIT_STRING_FIRST_WORD + end1, 64 * BIT_STRING_FIRST_WORD + end2;
    CopyBits(src, BitStringIndexToWord(end1 - 1), EndOffset(end1), dst, BitStringIndexToWord(end2 - 1),
             EndOffset(end2), nbits);
    BitsMoved(src, from, was, dst[..], to, nbits);
  }

  lemma BitsMoved(src: seq<Word>, from: int, was: seq<Word>, now: seq<Word>, to: int, nbits: nat)
    requires nbits > 0 ==> Copied(src, from, was, now, to, nbits)
    requires nbits == 0 ==> exists f, t :: Copied(src, f, was, now, t, 0)
    ensures |now| == |was|
    ensures forall i | -(64 * BIT_STRING_FIRST_WORD) <= i < 64 * (|was| - BIT_STRING_FIRST_WORD) ::
      BitStringRef(now, i) ==
        if to - nbits <= 64 * BIT_STRING_FIRST_WORD + i < to then
          BitOf(src, 64 * BIT_STRING_FIRST_WORD + i - to + from)
        else
          BitStringRef(was, i)
  {
    hide BitOf;
  }
}
