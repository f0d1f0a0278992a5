/**
 What each operation of the collector does to memory and the bookkeeping, for the operations in GcLoop.
 */
module GcMoves {
  import opened Objects
  import opened HeapGraph
  import opened GcState
  import opened GcLists
  import opened GcSteps
  import opened GcScan
  import opened GcQueue
  import opened GcRoom

  /** What handling one word may change in the bookkeeping. */
  ghost predicate Progress(b: Book, b': Book) {
    && Grows(b.fwd, b'.fwd)
    && b'.scan == b.scan
    && b.own <= b'.own
    && (b'.fwd == b.fwd ==> b'.own == b.own)
    && (forall e | e in b.fwd :: e in b'.status <==> e in b.status)
    && (forall e :: (e in b'.status && b'.status[e].Popped?) <==> (e in b.status && b.status[e].Popped?))
    && (forall e :: (e in b'.status && b'.status[e].Scanned?) <==> (e in b.status && b.status[e].Scanned?))
  }

  lemma ProgressTrans(b: Book, b': Book, b'': Book)
    requires Progress(b, b') && Progress(b', b'')
    ensures Progress(b, b'')
  {
    if b''.fwd == b.fwd {
      assert b'.fwd == b.fwd by {
        assert forall x | x in b'.fwd :: x in b.fwd && b'.fwd[x] == b''.fwd[x];
      }
    }
  }

  /** The ephemerons of `addr` that waited are queued; nothing else changes. */
  ghost predicate QueuedFor(c: Setup, b: Book, b': Book, addr: nat) {
    && b'.fwd == b.fwd && b'.own == b.own && b'.scan == b.scan && b'.chain == b.chain && b'.elist == b.elist
    && b'.status.Keys == b.status.Keys
    && (forall e | e in b.status && IsEphemeron(c.g, e) ::
          b'.status[e] == if b.status[e].Waiting? && Key(c.g, e).datum == addr then Queued else b.status[e])
  }

  /** Memory outside fromspace. */
  ghost predicate OutsideSame(c: Setup, h: seq<Word>, h': seq<Word>) {
    |h'| == |h| && forall x | 0 <= x < |h| && !(c.g.lo <= x < c.g.hi) :: h'[x] == h[x]
  }

  function WeakReferentAddress(w: Word): nat {
    if w.tag.IsPointer() then w.datum else 0
  }

  lemma ListedKey(c: Setup, m: Memory, b: Book, e: nat)
    requires WellFormed(c.g) && Sizes(c, m, b) && Placed(c, b) && CellsOk(c, m, b) && ListOk(c, m, b) && e in b.status
    ensures e in b.fwd && IsEphemeron(c.g, e) && b.fwd[e] + EPHEMERON_SIZE <= |m.to|
    ensures m.to[b.fwd[e] + EPHEMERON_KEY] == Key(c.g, e) && Points(c.g, Key(c.g, e))
  {
    hide WellFormed, CellsOk, BlockOk, Links, RefAt;
    ListedSize(c, m, b);
    var k := b.fwd[e] + EPHEMERON_KEY;
    assert b.own[k] == e;
    CellAt(c, m, b, k);
  }

  lemma TableLists(c: Setup, m: Memory, b: Book, h: nat)
    requires Inv(c, m, b) && h < |m.table|
    ensures |b.buckets| == |m.table|
    ensures Links(c, m.to, b.fwd, b.buckets[h], EPHEMERON_NEXT, m.table[h])
    ensures Links(c, m.to, b.fwd, b.queued, EPHEMERON_NEXT, m.queue)
    ensures forall e | e in b.buckets[h] :: e in b.status && b.status[e].Waiting?
    ensures forall e | e in b.queued :: e in b.status && b.status[e].Queued?
    ensures Distinct(b.queued)
  {
    hide SetupOk, Placed, CellsOk, ScanPlace, AllLive, HeapOk, ChainOk, ListOk;
    assert BucketOk(c, m, b, h);
  }

  /** The effect of copying object a on the bookkeeping. */
  ghost predicate CopiedTo(c: Setup, b: Book, b': Book, a: nat) {
    && Progress(b, b')
    && a in b'.fwd && b'.fwd[a] == |b.own|
    && (KeysOk(c, b, b.fwd.Keys + {a}) ==> KeysOk(c, b', b'.fwd.Keys))
    && (AllWaiting(b) ==> AllWaiting(b'))
  }

  function PlainMemory(c: Setup, m: Memory, a: nat): Memory
    requires a in c.g.blocks && a + c.g.blocks[a].size <= |c.g.mem| && a < |m.heap|
  {
    m.(heap := m.heap[a := Word(BrokenHeart, c.newStart + |m.to|)], to := m.to + Body(c, a))
  }

  lemma ExtendCopied(c: Setup, b: Book, b': Book, a: nat)
    requires a in c.g.blocks && a !in b.fwd
    requires b'.fwd == Extend(c, b, a).fwd && b'.own == Extend(c, b, a).own && b'.scan == b.scan && b'.status == b.status
    ensures CopiedTo(c, b, b', a)
  {
    assert b'.fwd.Keys == b.fwd.Keys + {a};
    assert a in b'.fwd;
  }

  lemma WeakDone(c: Setup, m: Memory, b: Book, w: Word)
    requires Inv(c, m, b) && Handled(c, w) && w.tag.WeakCons? && Points(c.g, w) && w.datum !in b.fwd
    requires w.datum + 1 < |c.g.mem| && w.datum + 1 < |m.heap| && w.datum in c.g.blocks && Points(c.g, c.g.mem[w.datum])
    ensures Inv(c, WeakMemory(c, m, w.datum), ExtendWeak(c, b, w.datum))
    ensures CopiedTo(c, b, ExtendWeak(c, b, w.datum), w.datum)
  {
    hide Inv, Live, Handled, CopiedTo, WeakCopy;
    WeakCopyInv(c, m, b, w);
    WeakKeeps(c, m, b, w.datum);
    ExtendCopied(c, b, ExtendWeak(c, b, w.datum), w.datum);
  }

  lemma PlainDone(c: Setup, m: Memory, b: Book, a: nat)
    requires Inv(c, m, b) && Live(c.g, c.roots, a)
    requires a in c.g.blocks && a + c.g.blocks[a].size <= |c.g.mem| && a < |m.heap| && a !in b.fwd
    requires PlainCopy(c, Extend(c, b, a).fwd, a)
    ensures Inv(c, PlainMemory(c, m, a), Extend(c, b, a))
    ensures CopiedTo(c, b, Extend(c, b, a), a)
  {
    hide Inv, Live, CopiedTo, PlainCopy;
    PlainKeeps(c, m, b, PlainMemory(c, m, a), a);
    ExtendCopied(c, b, Extend(c, b, a), a);
  }

  lemma PlainWeakDone(c: Setup, m: Memory, b: Book, w: Word)
    requires Inv(c, m, b) && Handled(c, w) && w.tag.WeakCons? && Points(c.g, w) && w.datum !in b.fwd
    requires w.datum in c.g.blocks && w.datum + c.g.blocks[w.datum].size <= |c.g.mem| && w.datum < |m.heap|
    requires 1 <= c.g.blocks[w.datum].size && !Points(c.g, c.g.mem[w.datum])
    ensures Inv(c, PlainMemory(c, m, w.datum), Extend(c, b, w.datum))
    ensures CopiedTo(c, b, Extend(c, b, w.datum), w.datum)
  {
    hide Inv, Live, Handled, CopiedTo, PlainCopy;
    PlainWeakInv(c, m, b, w);
    PlainDone(c, m, b, w.datum);
  }

  lemma PlainEphemeronDone(c: Setup, m: Memory, b: Book, w: Word)
    requires Inv(c, m, b) && Handled(c, w) && w.tag.Ephemeron? && Points(c.g, w) && w.datum !in b.fwd
    requires w.datum in c.g.blocks && w.datum + c.g.blocks[w.datum].size <= |c.g.mem| && w.datum < |m.heap|
    requires IsEphemeron(c.g, w.datum)
    requires Points(c.g, Key(c.g, w.datum)) ==> Key(c.g, w.datum).datum in b.fwd.Keys + {w.datum}
    ensures Inv(c, PlainMemory(c, m, w.datum), Extend(c, b, w.datum))
    ensures CopiedTo(c, b, Extend(c, b, w.datum), w.datum)
  {
    hide Inv, Live, Handled, CopiedTo, PlainCopy;
    PlainEphemeron(c, m, b, w);
    PlainDone(c, m, b, w.datum);
  }

  lemma ListedDone(c: Setup, m: Memory, b: Book, w: Word)
    requires Inv(c, m, b) && Handled(c, w) && w.tag.Ephemeron? && Points(c.g, w) && w.datum !in b.fwd
    requires w.datum < |m.heap| && |b.buckets| == |m.table| > 0 && w.datum !in b.status
    requires IsEphemeron(c.g, w.datum) && Points(c.g, Key(c.g, w.datum)) && Key(c.g, w.datum).datum !in b.fwd.Keys + {w.datum}
    ensures Inv(c, ListedMemory(c, m, w.datum), ListedBook(c, m, b, w.datum))
    ensures CopiedTo(c, b, ListedBook(c, m, b, w.datum), w.datum)
  {
    hide Inv, Live, Handled, CopiedTo, ListedCopy;
    ListedEphemeron(c, m, b, w);
    ListedKeeps(c, m, b, w.datum);
    ListedCopied(c, m, b, w.datum);
  }

  lemma ListedCopied(c: Setup, m: Memory, b: Book, e: nat)
    requires IsEphemeron(c.g, e) && |b.buckets| == |m.table| > 0 && e !in b.status && e !in b.fwd
    requires Key(c.g, e).datum !in b.fwd.Keys + {e}
    ensures CopiedTo(c, b, ListedBook(c, m, b, e), e)
  {
    var b' := ListedBook(c, m, b, e);
    assert b'.fwd.Keys == b.fwd.Keys + {e};
    assert e in b'.fwd;
  }

  lemma EphemeronBody(c: Setup, e: nat)
    requires IsEphemeron(c.g, e) && BlockOk(c.g, e)
    ensures c.g.blocks[e].size == EPHEMERON_SIZE
    ensures Body(c, e) == [MARKED_EPHEMERON_MANIFEST, Key(c.g, e), Datum(c.g, e), SHARP_F, SHARP_F]
    ensures Key(c.g, e).tag.IsPointer() ==> Key(c.g, e).datum != 0
  {
    assert c.g.blocks[e].size == EPHEMERON_SIZE;
    var body := Body(c, e);
    assert body[0] == c.g.mem[e] && body[1] == c.g.mem[e + 1] && body[2] == c.g.mem[e + 2]
        && body[3] == c.g.mem[e + 3] && body[4] == c.g.mem[e + 4];
  }

  lemma EphemeronShape(c: Setup, m: Memory, b: Book, w: Word)
    requires Inv(c, m, b) && Handled(c, w) && w.tag.Ephemeron? && Points(c.g, w) && w.datum !in b.fwd
    ensures IsEphemeron(c.g, w.datum) && c.g.blocks[w.datum].size == EPHEMERON_SIZE
    ensures c.g.lo <= w.datum && w.datum + EPHEMERON_SIZE <= c.g.hi <= |c.g.mem| == |m.heap|
    ensures Body(c, w.datum) == [MARKED_EPHEMERON_MANIFEST, Key(c.g, w.datum), Datum(c.g, w.datum), SHARP_F, SHARP_F]
    ensures Key(c.g, w.datum).tag.IsPointer() ==> Key(c.g, w.datum).datum != 0
    ensures |m.table| > 0 && |b.buckets| == |m.table| && w.datum !in b.status
  {
    hide WellFormed, Placed, CellsOk, ScanPlace, AllLive, HeapOk, ChainOk, Handled, GoodRange;
    HandledPointer(c, m, b, w);
    EphemeronBody(c, w.datum);
  }

  lemma KeyForwarded(c: Setup, m: Memory, b: Book, e: nat)
    requires Inv(c, m, b) && IsEphemeron(c.g, e) && e < |m.heap|
    ensures var h := m.heap[e := Word(BrokenHeart, c.newStart + |m.to|)];
            Points(c.g, Key(c.g, e)) ==>
            && Key(c.g, e).datum < |h|
            && (h[Key(c.g, e).datum].tag.BrokenHeart? <==> Key(c.g, e).datum in b.fwd.Keys + {e})
  {
    hide Placed, CellsOk, ScanPlace, AllLive, ChainOk, ListOk, TableOk;
    assert BlockOk(c.g, e);
    if Points(c.g, Key(c.g, e)) {
      assert BlockOk(c.g, Key(c.g, e).datum);
    }
  }

  lemma PlainEphemeron(c: Setup, m: Memory, b: Book, w: Word)
    requires Inv(c, m, b) && Handled(c, w) && w.tag.Ephemeron? && Points(c.g, w) && IsEphemeron(c.g, w.datum)
    requires Points(c.g, Key(c.g, w.datum)) ==> Key(c.g, w.datum).datum in b.fwd.Keys + {w.datum}
    ensures PlainCopy(c, Extend(c, b, w.datum).fwd, w.datum) && Live(c.g, c.roots, w.datum)
  {
    hide Placed, CellsOk, ScanPlace, AllLive, HeapOk, ChainOk, ListOk, TableOk;
    HandledPointer(c, m, b, w);
  }

  lemma ListedEphemeron(c: Setup, m: Memory, b: Book, w: Word)
    requires Inv(c, m, b) && Handled(c, w) && w.tag.Ephemeron? && Points(c.g, w) && IsEphemeron(c.g, w.datum) && w.datum !in b.fwd
    requires Points(c.g, Key(c.g, w.datum))
    ensures ListedCopy(c, b, w.datum) && Live(c.g, c.roots, w.datum)
  {
    hide Placed, CellsOk, ScanPlace, AllLive, HeapOk, ChainOk, ListOk, TableOk;
    HandledPointer(c, m, b, w);
  }

  lemma WeakPairShape(c: Setup, m: Memory, b: Book, w: Word)
    requires Inv(c, m, b) && Handled(c, w) && w.tag.WeakCons? && Points(c.g, w)
    ensures var a := w.datum;
            && a in c.g.blocks && c.g.blocks[a] == Block(WeakKind, 2) && a + 2 <= |c.g.mem| == |m.heap|
            && c.g.lo <= a && a + 2 <= c.g.hi && 0 < a
            && (c.g.mem[a].tag.IsPointer() ==> c.g.mem[a].datum != 0)
  {
    hide Placed, CellsOk, ScanPlace, AllLive, HeapOk, ChainOk, ListOk, TableOk;
    HandledPointer(c, m, b, w);
  }

  lemma WeakCopyInv(c: Setup, m: Memory, b: Book, w: Word)
    requires Inv(c, m, b) && Handled(c, w) && w.tag.WeakCons? && Points(c.g, w) && w.datum < |c.g.mem|
    requires Points(c.g, c.g.mem[w.datum])
    ensures WeakCopy(c, w.datum) && Live(c.g, c.roots, w.datum)
  {
    hide Placed, CellsOk, ScanPlace, AllLive, HeapOk, ChainOk, ListOk, TableOk;
    HandledPointer(c, m, b, w);
  }

  lemma PlainWeakInv(c: Setup, m: Memory, b: Book, w: Word)
    requires Inv(c, m, b) && Handled(c, w) && w.tag.WeakCons? && Points(c.g, w) && w.datum < |c.g.mem|
    requires !Points(c.g, c.g.mem[w.datum])
    ensures w.datum in c.g.blocks && PlainCopy(c, Extend(c, b, w.datum).fwd, w.datum) && Live(c.g, c.roots, w.datum)
  {
    hide Placed, CellsOk, ScanPlace, AllLive, HeapOk, ChainOk, ListOk, TableOk;
    HandledPointer(c, m, b, w);
  }

  /** A word the scan can meet. */
  ghost predicate Handled(c: Setup, w: Word) {
    Good(c.g, w) && (Points(c.g, w) ==> Live(c.g, c.roots, w.datum))
  }

  lemma HandledPointer(c: Setup, m: Memory, b: Book, w: Word)
    requires Inv(c, m, b) && Handled(c, w) && w.tag.IsPointer()
    ensures w.datum != 0
    ensures Points(c.g, w) ==> Live(c.g, c.roots, w.datum)
    ensures Points(c.g, w) ==> w.datum in c.g.blocks && BlockOk(c.g, w.datum) && Fits(w.tag, c.g.blocks[w.datum])
  {
    hide Placed, CellsOk, ScanPlace, AllLive, HeapOk, ChainOk, ListOk, TableOk;
  }

  lemma CopiedProgress(c: Setup, b: Book, b': Book, a: nat)
    requires Progress(b, b') && a in c.g.blocks && a !in b'.fwd
    ensures Progress(b, Extend(c, b', a))
    ensures b'.fwd.Keys < Extend(c, b', a).fwd.Keys && c.g.blocks.Keys - Extend(c, b', a).fwd.Keys < c.g.blocks.Keys - b'.fwd.Keys
  {
    assert a in Extend(c, b', a).fwd;
    assert Progress(b', Extend(c, b', a));
    ProgressTrans(b, b', Extend(c, b', a));
    assert a in c.g.blocks.Keys - b'.fwd.Keys;
  }

  lemma TupleCopy(c: Setup, m: Memory, b: Book, w: Word)
    requires Inv(c, m, b) && Handled(c, w) && w.tag.Tuple? && Points(c.g, w)
    ensures w.datum in c.g.blocks && c.g.blocks[w.datum] == Block(TupleKind, w.tag.words)
    ensures Live(c.g, c.roots, w.datum)
    ensures PlainCopy(c, b.fwd[w.datum := |b.own|], w.datum)
  {
    hide Placed, CellsOk, ScanPlace, AllLive, HeapOk, ChainOk, ListOk, TableOk, Live;
    HandledPointer(c, m, b, w);
  }

  /** The second word of a copied pair is the one the pair had. */
  lemma CdrCopied(c: Setup, m: Memory, b: Book, a: nat)
    requires Inv(c, m, b) && a in b.fwd && a in c.g.blocks && c.g.blocks[a] == Block(TupleKind, 2)
    requires b.scan <= b.fwd[a]
    ensures b.fwd[a] + 1 < |m.to| && Handled(c, m.to[b.fwd[a] + 1])
    ensures a + 1 < |c.g.mem| && m.to[b.fwd[a] + 1] == c.g.mem[a + 1]
  {
    hide HeapOk, ChainOk, ListOk, TableOk, Live, ScanPlace;
    assert BlockOk(c.g, a);
    var i := b.fwd[a] + 1;
    assert b.own[i] == a && CellOk(c, m, b, i);
    if Points(c.g, c.g.mem[a + 1]) {
      LiveStrong(c.g, c.roots, a, 1);
    }
  }

  // ----- lists kept together -----

  /** Whether a is a pair whose tail starts with a pair in fromspace. */
  predicate HasTail(g: Graph, a: nat) {
    && a in g.blocks && g.blocks[a] == Block(TupleKind, 2) && a + 1 < |g.mem|
    && g.mem[a + 1].tag == TC_LIST && Points(g, g.mem[a + 1])
  }

  /** The tail's first pair stands right behind the copy of a, or had been copied before. */
  predicate TailNear(g: Graph, fwd: map<nat, nat>, a: nat)
    requires HasTail(g, a) && a in fwd
  {
    g.mem[a + 1].datum in fwd && fwd[g.mem[a + 1].datum] <= fwd[a] + 2
  }

  /** The copied pairs, but for `pending`, have their tails near. */
  ghost predicate TailsNear(g: Graph, fwd: map<nat, nat>, pending: set<nat>) {
    forall a | a in fwd && a !in pending && HasTail(g, a) :: TailNear(g, fwd, a)
  }

  lemma FirstPending(c: Setup, b: Book, a: nat)
    requires a in c.g.blocks && a !in b.fwd && TailsNear(c.g, b.fwd, {})
    ensures TailsNear(c.g, Extend(c, b, a).fwd, {a})
  {
    var fwd' := Extend(c, b, a).fwd;
    forall x | x in fwd' && x != a && HasTail(c.g, x)
      ensures TailNear(c.g, fwd', x)
    {
      assert TailNear(c.g, b.fwd, x);
    }
  }

  /** Copying anything but a pair. */
  lemma NoPair(c: Setup, b: Book, b': Book, a: nat)
    requires a in c.g.blocks && a !in b.fwd && TailsNear(c.g, b.fwd, {}) && c.g.blocks[a] != Block(TupleKind, 2)
    requires b'.fwd == Extend(c, b, a).fwd
    ensures TailsNear(c.g, b'.fwd, {})
  {
    FirstPending(c, b, a);
  }

  lemma WeakForwarded(c: Setup, b: Book, a: nat)
    requires a in c.g.blocks
    ensures ExtendWeak(c, b, a).fwd == Extend(c, b, a).fwd
  {
  }

  lemma ListedForwarded(c: Setup, m: Memory, b: Book, e: nat)
    requires IsEphemeron(c.g, e) && |b.buckets| == |m.table| > 0
    ensures ListedBook(c, m, b, e).fwd == Extend(c, b, e).fwd
  {
  }

  /** The copy of a is the last one so far. */
  ghost predicate LastCopy(c: Setup, b: Book, a: nat) {
    a in b.fwd && a in c.g.blocks && b.fwd[a] + 2 == |b.own|
  }

  lemma SameLast(c: Setup, b: Book, b': Book, a: nat)
    requires LastCopy(c, b, a) && Progress(b, b') && b'.fwd == b.fwd
    ensures LastCopy(c, b', a)
  {
  }

  lemma NewLast(c: Setup, b: Book, a: nat)
    requires a in c.g.blocks && c.g.blocks[a].size == 2
    ensures LastCopy(c, Extend(c, b, a), a)
  {
  }

  /** Copying the pending pair's tail right behind it. */
  lemma NextPending(c: Setup, b: Book, last: nat)
    requires TailsNear(c.g, b.fwd, {last}) && LastCopy(c, b, last) && HasTail(c.g, last)
    requires c.g.mem[last + 1].datum in c.g.blocks && c.g.mem[last + 1].datum !in b.fwd
    ensures TailsNear(c.g, Extend(c, b, c.g.mem[last + 1].datum).fwd, {c.g.mem[last + 1].datum})
  {
    hide HasTail;
    TailOf(c.g, last);
    var a := c.g.mem[last + 1].datum;
    var fwd' := Extend(c, b, a).fwd;
    forall x | x in fwd' && x != a && HasTail(c.g, x)
      ensures TailNear(c.g, fwd', x)
    {
      if x != last {
        assert TailNear(c.g, b.fwd, x);
        TailOf(c.g, x);
      }
    }
  }

  lemma TailOf(g: Graph, a: nat)
    requires HasTail(g, a)
    ensures a + 1 < |g.mem|
  {
  }

  /** Nothing is pending when the last pair's tail has been copied before. */
  lemma NothingPending(c: Setup, m: Memory, b: Book, last: nat)
    requires Inv(c, m, b) && TailsNear(c.g, b.fwd, {last}) && LastCopy(c, b, last)
    requires HasTail(c.g, last) ==> c.g.mem[last + 1].datum in b.fwd
    ensures TailsNear(c.g, b.fwd, {})
  {
    hide CellsOk, ScanPlace, AllLive, HeapOk, ChainOk, ListOk, TableOk, WellFormed;
    if HasTail(c.g, last) {
      assert TailNear(c.g, b.fwd, last);
    }
  }

  lemma TailTogether(c: Setup, b: Book, a: nat, tail: nat)
    requires WellFormed(c.g) && Placed(c, b) && TailsNear(c.g, b.fwd, {})
    requires a in b.fwd && HasTail(c.g, a) && tail == c.g.mem[a + 1].datum
    ensures tail in b.fwd && (b.fwd[tail] == b.fwd[a] + 2 || b.fwd[tail] <= b.fwd[a])
  {
    assert TailNear(c.g, b.fwd, a);
    hide Placed, WellFormed;
    if a != tail { ApartPlaces(c, b, a, tail); }
  }

  /** The tail of each copied pair stands right behind it, or was copied before it. */
  lemma TailsTogether(c: Setup, m: Memory, b: Book)
    requires Inv(c, m, b) && TailsNear(c.g, b.fwd, {})
    ensures forall a | a in b.fwd && a in c.g.blocks && c.g.blocks[a] == Block(TupleKind, 2) && a + 1 < |c.g.mem|
                       && c.g.mem[a + 1].tag == TC_LIST && c.g.lo <= c.g.mem[a + 1].datum < c.g.hi ::
              && c.g.mem[a + 1].datum in b.fwd
              && (b.fwd[c.g.mem[a + 1].datum] == b.fwd[a] + 2 || b.fwd[c.g.mem[a + 1].datum] <= b.fwd[a])
  {
    hide Placed, WellFormed, TailsNear, Sizes, CellsOk, ScanPlace, AllLive, HeapOk, ChainOk, ListOk, TableOk;
    forall a | a in b.fwd && HasTail(c.g, a)
      ensures c.g.mem[a + 1].datum in b.fwd
      ensures b.fwd[c.g.mem[a + 1].datum] == b.fwd[a] + 2 || b.fwd[c.g.mem[a + 1].datum] <= b.fwd[a]
    {
      TailTogether(c, b, a, c.g.mem[a + 1].datum);
    }
  }

  lemma ApartPlaces(c: Setup, b: Book, x: nat, y: nat)
    requires WellFormed(c.g) && Placed(c, b) && x in b.fwd && y in b.fwd && x != y
    ensures b.fwd[x] + c.g.blocks[x].size <= b.fwd[y] || b.fwd[y] + c.g.blocks[y].size <= b.fwd[x]
  {
    assert BlockOk(c.g, x) && BlockOk(c.g, y);
    assert b.own[b.fwd[x]] == x && b.own[b.fwd[y]] == y;
  }

  lemma VectorCopy(c: Setup, m: Memory, b: Book, w: Word)
    requires Inv(c, m, b) && Handled(c, w) && w.tag.Vector? && Points(c.g, w) && w.datum !in b.fwd
    ensures w.datum in c.g.blocks && w.datum < |m.heap| && 1 + m.heap[w.datum].datum == c.g.blocks[w.datum].size
    ensures Live(c.g, c.roots, w.datum)
    ensures PlainCopy(c, b.fwd[w.datum := |b.own|], w.datum)
  {
    hide Placed, CellsOk, ScanPlace, AllLive, ChainOk, ListOk, TableOk, Live;
    HandledPointer(c, m, b, w);
  }

  lemma QueuedPhase(c: Setup, b: Book, b': Book, keys: set<nat>, addr: nat)
    requires KeysOk(c, b, keys) && QueuedFor(c, b, b', addr) && addr !in keys
    ensures KeysOk(c, b', keys + {addr})
  {
    forall e | e in b'.status && IsEphemeron(c.g, e)
      ensures b'.status[e].Waiting? <==> Key(c.g, e).datum !in keys + {addr}
    {
      assert e in b.status.Keys;
    }
  }

  lemma QueuedProgress(c: Setup, b: Book, b': Book, addr: nat)
    requires QueuedFor(c, b, b', addr)
    requires forall e | e in b'.status :: IsEphemeron(c.g, e)
    ensures Progress(b, b')
  {
    forall e
      ensures e in b.status <==> e in b'.status
    {
      assert e in b.status.Keys <==> e in b'.status.Keys;
    }
  }

  lemma QueuedProgressInv(c: Setup, m: Memory, b: Book, b': Book, addr: nat)
    requires QueuedFor(c, b, b', addr) && Inv(c, m, b')
    ensures Progress(b, b')
  {
    hide SetupOk, Placed, CellsOk, ScanPlace, AllLive, HeapOk, ChainOk, TableOk, QueuedFor, Progress;
    QueuedProgress(c, b, b', addr);
  }

  /** There is room for an object not copied yet, and its words are still in place. */
  lemma TransportReady(c: Setup, m: Memory, b: Book, a: nat)
    requires Inv(c, m, b) && a in c.g.blocks && a !in b.fwd
    ensures BlockOk(c.g, a) && a + c.g.blocks[a].size <= |m.heap|
    ensures m.heap[a..a + c.g.blocks[a].size] == Body(c, a)
    ensures |m.to| + c.g.blocks[a].size <= |c.seeds| + c.g.hi - c.g.lo && |b.own| == |m.to|
  {
    hide Placed, CellsOk, ScanPlace, AllLive, HeapOk, ChainOk, ListOk, TableOk;
    BodyInHeap(c, m, b, a);
    RoomFor(c, b, a);
  }

  lemma ListedKeyInv(c: Setup, m: Memory, b: Book, e: nat)
    requires Inv(c, m, b) && e in b.status
    ensures e in b.fwd && IsEphemeron(c.g, e) && b.fwd[e] + EPHEMERON_SIZE <= |m.to|
    ensures m.to[b.fwd[e] + EPHEMERON_KEY] == Key(c.g, e) && Points(c.g, Key(c.g, e))
  {
    hide WellFormed, Placed, CellsOk, ScanPlace, AllLive, HeapOk, ChainOk, ListOk, TableOk;
    ListedKey(c, m, b, e);
  }
}
