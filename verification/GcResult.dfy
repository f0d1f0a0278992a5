/**
 What a collection leaves behind: every copied object's words, settled.
 */
module GcResult {
  import opened Objects
  import opened HeapGraph
  import opened GcState
  import opened GcLists
  import opened GcSteps
  import opened GcScan
  import opened GcQueue
  import opened GcMoves

  /** Whether a copied ephemeron loses its key and datum. */
  predicate Broken(c: Setup, fwd: map<nat, nat>, e: nat)
    requires IsEphemeron(c.g, e)
  {
    Points(c.g, Key(c.g, e)) && Key(c.g, e).datum !in fwd
  }

  /** The final word of slot j of copied object a. */
  function Settled(c: Setup, fwd: map<nat, nat>, a: nat, j: nat): Word
    requires a in c.g.blocks && a + j < |c.g.mem|
  {
    var o := c.g.mem[a + j];
    match c.g.blocks[a].kind
    case RawKind => o
    case WeakKind => if j == 0 && Points(c.g, o) && o.datum !in fwd then GC_RECLAIMED else Relocate(c, fwd, o)
    case EphemeronKind =>
      if IsEphemeron(c.g, a) && Broken(c, fwd, a) then (if j == 0 then MARKED_EPHEMERON_MANIFEST else SHARP_F)
      else Relocate(c, fwd, o)
    case _ => Relocate(c, fwd, o)
  }

  /** The scan is over and no ephemeron is left on the queue. */
  ghost predicate ScanComplete(c: Setup, m: Memory, b: Book) {
    && Inv(c, m, b)
    && b.scan == |m.to|
    && KeysOk(c, b, b.fwd.Keys)
    && (forall e | e in b.status :: b.status[e].Waiting? || b.status[e].Scanned?)
  }

  predicate RootsTraced(c: Setup, fwd: map<nat, nat>) {
    forall w | w in c.roots && Points(c.g, w) :: w.datum in fwd
  }

  // ----- the copied objects form a closed set -----

  lemma StrongTraced(c: Setup, m: Memory, b: Book, a: nat, j: nat)
    requires WellFormed(c.g) && Placed(c, b) && CellsOk(c, m, b) && |b.own| == |m.to| && b.scan == |m.to|
    requires a in b.fwd && Strong(c.g, a, j) && Points(c.g, c.g.mem[a + j])
    ensures c.g.mem[a + j].datum in b.fwd
  {
    hide WellFormed, CellsOk;
    var i := b.fwd[a] + j;
    assert b.own[i] == a;
    CellAt(c, m, b, i);
  }

  lemma DatumTraced(c: Setup, m: Memory, b: Book, e: nat)
    requires ScanComplete(c, m, b) && e in b.fwd && IsEphemeron(c.g, e)
    requires Points(c.g, Key(c.g, e)) ==> Key(c.g, e).datum in b.fwd
    requires Points(c.g, Datum(c.g, e))
    ensures Datum(c.g, e).datum in b.fwd
  {
    hide CellsOk, ScanPlace, AllLive, HeapOk, ChainOk, ListOk, TableOk;
    assert BlockOk(c.g, e);
    var i := b.fwd[e] + EPHEMERON_DATUM;
    assert b.own[i] == e;
    CellAt(c, m, b, i);
    if e in b.status {
      assert Points(c.g, Key(c.g, e)) by { ListedKeyInv(c, m, b, e); }
    }
  }

  lemma CopiedClosed(c: Setup, m: Memory, b: Book)
    requires ScanComplete(c, m, b) && RootsTraced(c, b.fwd)
    ensures Closed(c.g, c.roots, b.fwd.Keys)
  {
    hide WellFormed, Placed, CellsOk, ScanPlace, AllLive, HeapOk, ChainOk, ListOk, TableOk, KeysOk;
    var s := b.fwd.Keys;
    forall a: nat, j: nat | a in s && Strong(c.g, a, j) && Points(c.g, c.g.mem[a + j])
      ensures c.g.mem[a + j].datum in s
    {
      StrongTraced(c, m, b, a, j);
    }
    forall e | e in s && IsEphemeron(c.g, e) && (Points(c.g, Key(c.g, e)) ==> Key(c.g, e).datum in s) && Points(c.g, Datum(c.g, e))
      ensures Datum(c.g, e).datum in s
    {
      DatumTraced(c, m, b, e);
    }
  }

  /** The copied objects are exactly the live ones. */
  lemma CopiedLive(c: Setup, m: Memory, b: Book)
    requires ScanComplete(c, m, b) && RootsTraced(c, b.fwd)
    ensures forall a :: a in b.fwd <==> Live(c.g, c.roots, a)
  {
    assert AllLive(c, b);
    hide ScanComplete, Inv, Closed;
    CopiedClosed(c, m, b);
    LeastClosed(c.g, c.roots, b.fwd.Keys);
    forall a
      ensures a in b.fwd <==> Live(c.g, c.roots, a)
    {
      assert a in b.fwd <==> a in b.fwd.Keys;
    }
  }

  // ----- settling -----

  /** Cells that only settle in the weak pass: the cars of chained pairs, and listed ephemerons. */
  predicate Unsettled(c: Setup, b: Book, a: nat, j: nat) {
    (a in b.status) || (a in b.chain && j == 0)
  }

  lemma ScannedSettled(c: Setup, m: Memory, b: Book, i: nat)
    requires CellOk(c, m, b, i) && b.scan == |m.to| && BlockOk(c.g, b.own[i])
    requires !Unsettled(c, b, b.own[i], i - b.fwd[b.own[i]])
    requires Chained(c, b, b.own[i]) ==> b.own[i] in b.chain
    requires IsEphemeron(c.g, b.own[i]) && b.own[i] !in b.status ==>
               (Points(c.g, Key(c.g, b.own[i])) ==> Key(c.g, b.own[i]).datum in b.fwd)
    ensures m.to[i] == Settled(c, b.fwd, b.own[i], i - b.fwd[b.own[i]])
  {
  }

  lemma MarkedKeyInv(c: Setup, m: Memory, b: Book, e: nat)
    requires Inv(c, m, b) && e in b.fwd && IsEphemeron(c.g, e) && e !in b.status
    ensures Points(c.g, Key(c.g, e)) ==> Key(c.g, e).datum in b.fwd
  {
    hide CellsOk, ScanPlace, AllLive, HeapOk, ChainOk, ListOk, TableOk;
    assert BlockOk(c.g, e);
    var k := b.fwd[e] + EPHEMERON_KEY;
    assert b.own[k] == e;
    CellAt(c, m, b, k);
    MarkedKey(c, m, b, e, k);
  }

  /** The scan alone settles everything else. */
  lemma ScanSettles(c: Setup, m: Memory, b: Book, i: nat)
    requires Inv(c, m, b) && b.scan == |m.to| && |c.seeds| <= i < |m.to|
    requires !Unsettled(c, b, b.own[i], i - b.fwd[b.own[i]])
    ensures b.own[i] in c.g.blocks && b.own[i] + (i - b.fwd[b.own[i]]) < |c.g.mem|
    ensures m.to[i] == Settled(c, b.fwd, b.own[i], i - b.fwd[b.own[i]])
  {
    hide CellsOk, ScanPlace, AllLive, HeapOk, ListOk, TableOk;
    var a := b.own[i];
    assert BlockOk(c.g, a);
    CellAt(c, m, b, i);
    if IsEphemeron(c.g, a) && a !in b.status {
      MarkedKeyInv(c, m, b, a);
    }
    ScannedSettled(c, m, b, i);
  }

  /** Tospace with the first p listed ephemerons settled. */
  ghost predicate EphemeronsDone(c: Setup, m: Memory, b: Book, to: seq<Word>, p: nat) {
    && |to| == |m.to| == |b.own| && p <= |b.elist|
    && (forall i | 0 <= i < |to| :: EphemeronCell(c, m, b, to, p, i))
  }

  ghost predicate EphemeronCell(c: Setup, m: Memory, b: Book, to: seq<Word>, p: nat, i: nat) {
    && i < |to| && i < |m.to| && i < |b.own|
    && to[i] == if |c.seeds| <= i && p <= |b.elist| && b.own[i] in b.elist[..p] && b.own[i] in b.fwd && b.own[i] in c.g.blocks
                    && b.fwd[b.own[i]] <= i && b.own[i] + (i - b.fwd[b.own[i]]) < |c.g.mem|
                then Settled(c, b.fwd, b.own[i], i - b.fwd[b.own[i]]) else m.to[i]
  }

  /** What update_ephemerons writes over a listed ephemeron. */
  function SettledEphemeron(c: Setup, fwd: map<nat, nat>, to: seq<Word>, k: nat, e: nat): (r: seq<Word>)
    requires k + EPHEMERON_SIZE <= |to| && IsEphemeron(c.g, e)
    ensures |r| == |to|
  {
    var key := if Broken(c, fwd, e) then SHARP_F else Relocate(c, fwd, Key(c.g, e));
    to[k := MARKED_EPHEMERON_MANIFEST][k + EPHEMERON_KEY := key][k + EPHEMERON_LIST := SHARP_F][k + EPHEMERON_NEXT := SHARP_F]
      [k + EPHEMERON_DATUM := if Broken(c, fwd, e) then SHARP_F else to[k + EPHEMERON_DATUM]]
  }

  /** A listed ephemeron's datum has been relocated unless the ephemeron is to be broken. */
  lemma ListedDatum(c: Setup, m: Memory, b: Book, e: nat)
    requires ScanComplete(c, m, b) && e in b.status && e in b.fwd && IsEphemeron(c.g, e)
    requires b.fwd[e] + EPHEMERON_SIZE <= |m.to| && c.g.blocks[e].size == EPHEMERON_SIZE && Points(c.g, Key(c.g, e))
    ensures !Broken(c, b.fwd, e) ==> m.to[b.fwd[e] + EPHEMERON_DATUM] == Relocate(c, b.fwd, Datum(c.g, e))
  {
    hide SetupOk, CellsOk, ScanPlace, AllLive, HeapOk, ChainOk, ListOk, TableOk;
    var k := b.fwd[e] + EPHEMERON_DATUM;
    assert b.own[k] == e;
    CellAt(c, m, b, k);
  }

  lemma EphemeronWord(c: Setup, fwd: map<nat, nat>, e: nat, to: seq<Word>, k: nat, j: nat)
    requires IsEphemeron(c.g, e) && BlockOk(c.g, e) && k + EPHEMERON_SIZE <= |to| && j < EPHEMERON_SIZE
    requires !Broken(c, fwd, e) ==> to[k + EPHEMERON_DATUM] == Relocate(c, fwd, Datum(c.g, e))
    ensures SettledEphemeron(c, fwd, to, k, e)[k + j] == Settled(c, fwd, e, j)
  {
    hide GoodRange;
  }

  lemma ScanCompleteInv(c: Setup, m: Memory, b: Book)
    requires ScanComplete(c, m, b)
    ensures Inv(c, m, b)
  {
  }

  lemma ListedBlock(c: Setup, m: Memory, b: Book, e: nat)
    requires Inv(c, m, b) && e in c.g.blocks
    ensures BlockOk(c.g, e)
  {
    hide Placed, CellsOk, ScanPlace, AllLive, HeapOk, ChainOk, ListOk, TableOk, BlockOk;
  }

  lemma PrefixMembers(items: seq<nat>, p: nat)
    requires p < |items| && Distinct(items)
    ensures items[p] !in items[..p]
    ensures forall x :: x in items[..p + 1] <==> x in items[..p] || x == items[p]
  {
    assert items[..p + 1] == items[..p] + [items[p]];
  }

  lemma UndoneCell(c: Setup, m: Memory, b: Book, to: seq<Word>, p: nat, slot: nat)
    requires Sizes(c, m, b) && Placed(c, b) && EphemeronsDone(c, m, b, to, p) && p < |b.elist| && Distinct(b.elist)
    requires b.elist[p] in b.fwd && c.g.blocks[b.elist[p]].size == EPHEMERON_SIZE && slot < EPHEMERON_SIZE
    ensures b.fwd[b.elist[p]] + slot < |to| && to[b.fwd[b.elist[p]] + slot] == m.to[b.fwd[b.elist[p]] + slot]
  {
    var k := b.fwd[b.elist[p]] + slot;
    PrefixMembers(b.elist, p);
    assert b.own[k] == b.elist[p];
    assert EphemeronCell(c, m, b, to, p, k);
  }

  lemma ListLinks(c: Setup, m: Memory, b: Book)
    requires Inv(c, m, b)
    ensures Distinct(b.elist) && Links(c, m.to, b.fwd, b.elist, EPHEMERON_LIST, m.list)
    ensures forall e :: e in b.elist <==> e in b.status
  {
    hide SetupOk, Placed, CellsOk, ScanPlace, AllLive, HeapOk, ChainOk, TableOk;
  }

  lemma NextEphemeron(c: Setup, m: Memory, b: Book, to: seq<Word>, p: nat)
    requires ScanComplete(c, m, b) && EphemeronsDone(c, m, b, to, p) && p < |b.elist|
    ensures var e := b.elist[p];
            && e in b.status && e in b.fwd && IsEphemeron(c.g, e) && b.fwd[e] + EPHEMERON_SIZE <= |to|
            && Points(c.g, Key(c.g, e)) && to[b.fwd[e] + EPHEMERON_KEY] == Key(c.g, e)
            && to[b.fwd[e] + EPHEMERON_LIST] == RefAt(c, b.fwd, b.elist, p + 1)
            && to[b.fwd[e] + EPHEMERON_DATUM] == m.to[b.fwd[e] + EPHEMERON_DATUM]
  {
    hide Inv, ScanComplete, Sizes, Placed, EphemeronsDone;
    ScanCompleteInv(c, m, b);
    ListLinks(c, m, b);
    LinkOf(c, m.to, b.fwd, b.elist, EPHEMERON_LIST, m.list, p);
    var e := b.elist[p];
    assert e in b.elist;
    ListedKeyInv(c, m, b, e);
    ListedSizeInv(c, m, b, e);
    InvPlaced(c, m, b);
    DoneLength(c, m, b, to, p);
    UndoneCell(c, m, b, to, p, EPHEMERON_KEY);
    UndoneCell(c, m, b, to, p, EPHEMERON_LIST);
    UndoneCell(c, m, b, to, p, EPHEMERON_DATUM);
  }

  lemma InvPlaced(c: Setup, m: Memory, b: Book)
    requires Inv(c, m, b)
    ensures Sizes(c, m, b) && Placed(c, b)
  {
    hide SetupOk, Placed, CellsOk, ScanPlace, AllLive, HeapOk, ChainOk, ListOk, TableOk;
  }

  lemma DoneLength(c: Setup, m: Memory, b: Book, to: seq<Word>, p: nat)
    requires EphemeronsDone(c, m, b, to, p)
    ensures |to| == |m.to| == |b.own|
  {
  }

  lemma ListedSizeInv(c: Setup, m: Memory, b: Book, e: nat)
    requires Inv(c, m, b) && e in b.status
    ensures e in b.fwd && e in c.g.blocks && c.g.blocks[e].size == EPHEMERON_SIZE
  {
    hide WellFormed, Placed, CellsOk, ScanPlace, AllLive, HeapOk, ChainOk, TableOk;
    ListedSize(c, m, b);
  }

  lemma OtherCell(c: Setup, m: Memory, b: Book, to: seq<Word>, p: nat, i: nat)
    requires Placed(c, b) && EphemeronsDone(c, m, b, to, p) && p < |b.elist| && Distinct(b.elist) && i < |to|
    requires var e := b.elist[p];
             e in b.fwd && IsEphemeron(c.g, e) && c.g.blocks[e].size == EPHEMERON_SIZE && b.fwd[e] + EPHEMERON_SIZE <= |to|
             && !(b.fwd[e] <= i < b.fwd[e] + EPHEMERON_SIZE)
    ensures EphemeronCell(c, m, b, SettledEphemeron(c, b.fwd, to, b.fwd[b.elist[p]], b.elist[p]), p + 1, i)
  {
    hide Settled;
    PrefixMembers(b.elist, p);
    assert EphemeronCell(c, m, b, to, p, i);
  }

  lemma EphemeronDone(c: Setup, m: Memory, b: Book, to: seq<Word>, p: nat)
    requires ScanComplete(c, m, b) && EphemeronsDone(c, m, b, to, p) && p < |b.elist|
    requires b.elist[p] in b.fwd && IsEphemeron(c.g, b.elist[p]) && b.fwd[b.elist[p]] + EPHEMERON_SIZE <= |to|
    ensures EphemeronsDone(c, m, b, SettledEphemeron(c, b.fwd, to, b.fwd[b.elist[p]], b.elist[p]), p + 1)
  {
    hide Inv, ScanComplete, Sizes, Placed, BlockOk, Broken, SettledEphemeron, Settled, EphemeronCell, Links, RefAt,
         Distinct;
    var e, q := b.elist[p], p + 1;
    var k := b.fwd[e];
    var to' := SettledEphemeron(c, b.fwd, to, k, e);
    ScanCompleteInv(c, m, b);
    InvPlaced(c, m, b);
    ListLinks(c, m, b);
    NextEphemeron(c, m, b, to, p);
    ListedSizeInv(c, m, b, e);
    ListedBlock(c, m, b, e);
    ListedDatum(c, m, b, e);
    forall i | 0 <= i < |to'|
      ensures EphemeronCell(c, m, b, to', q, i)
    {
      if k <= i < k + EPHEMERON_SIZE {
        EphemeronWord(c, b.fwd, e, to, k, i - k);
        assert k + (i - k) == i && e + (i - k) < |c.g.mem|;
        OwnCell(c, m, b, to', p, i);
      } else {
        OtherCell(c, m, b, to, p, i);
      }
    }
  }

  lemma OwnCell(c: Setup, m: Memory, b: Book, to: seq<Word>, p: nat, i: nat)
    requires Placed(c, b) && p < |b.elist| && i < |to| == |m.to| == |b.own|
    requires var e := b.elist[p];
             e in b.fwd && IsEphemeron(c.g, e) && c.g.blocks[e].size == EPHEMERON_SIZE
             && b.fwd[e] <= i < b.fwd[e] + EPHEMERON_SIZE && e + (i - b.fwd[e]) < |c.g.mem|
             && to[i] == Settled(c, b.fwd, e, i - b.fwd[e])
    ensures EphemeronCell(c, m, b, to, p + 1, i)
  {
    hide Settled;
    assert b.own[i] == b.elist[p];
    assert b.elist[..p + 1][p] == b.elist[p];
  }

  /** Tospace with the cars of the first p chained pairs settled too. */
  ghost predicate WeakCell(c: Setup, m: Memory, b: Book, to0: seq<Word>, to: seq<Word>, p: nat, i: nat) {
    && i < |to| && i < |to0| && i < |b.own|
    && to[i] == if |c.seeds| <= i && p <= |b.chain| && b.own[i] in b.chain[..p] && b.own[i] in b.fwd && b.fwd[b.own[i]] == i
                    && b.own[i] in c.g.blocks && b.own[i] < |c.g.mem|
                then Settled(c, b.fwd, b.own[i], 0) else to0[i]
  }

  ghost predicate WeakDoneTo(c: Setup, m: Memory, b: Book, to0: seq<Word>, to: seq<Word>, p: nat) {
    && |to| == |to0| == |b.own| && p <= |b.chain|
    && (forall i | 0 <= i < |to| :: WeakCell(c, m, b, to0, to, p, i))
  }

  /** What the chain and the heap say of chained pair p. */
  lemma ChainItem(c: Setup, m: Memory, b: Book, p: nat)
    requires SetupOk(c) && Sizes(c, m, b) && Placed(c, b) && HeapOk(c, m, b) && ChainOk(c, m, b) && p < |b.chain|
    ensures var a := b.chain[p];
            && a in b.fwd && b.fwd[a] < |m.to| && a in c.g.blocks && a + 1 < |c.g.mem| == |m.heap| && a != 0
            && Points(c.g, c.g.mem[a]) && c.g.blocks[a].kind.WeakKind?
            && b.own[b.fwd[a]] == a && |c.seeds| <= b.fwd[a]
            && m.heap[a] == Word(BrokenHeart, c.newStart + b.fwd[a])
            && m.heap[a + 1] == Word(c.g.mem[a].tag, ChainAt(b.chain, p + 1))
  {
    hide GoodRange, ChainOk;
    var a := b.chain[p];
    ChainLink(c, m, b, p);
    assert BlockOk(c.g, a);
    assert b.own[b.fwd[a]] == a;
  }

  lemma Forwarded(c: Setup, m: Memory, b: Book, x: nat)
    requires WellFormed(c.g) && HeapOk(c, m, b) && x in c.g.blocks
    ensures x < |m.heap| && (m.heap[x].tag.BrokenHeart? <==> x in b.fwd)
    ensures x in b.fwd ==> m.heap[x].datum == c.newStart + b.fwd[x]
  {
    assert BlockOk(c.g, x);
  }

  lemma MaskedCar(c: Setup, m: Memory, b: Book, a: nat)
    requires Placed(c, b) && CellsOk(c, m, b) && |m.to| == |b.own|
    requires a in b.fwd && a in c.g.blocks && c.g.blocks[a].kind.WeakKind? && a < |c.g.mem| && Points(c.g, c.g.mem[a])
    requires b.fwd[a] < |m.to| && b.own[b.fwd[a]] == a && |c.seeds| <= b.fwd[a]
    ensures m.to[b.fwd[a]] == Word(TC_FALSE, c.g.mem[a].datum)
  {
    CellAt(c, m, b, b.fwd[a]);
  }

  lemma CarObject(c: Setup, a: nat)
    requires WellFormed(c.g) && a in c.g.blocks && c.g.blocks[a].kind.WeakKind? && a < |c.g.mem| && Points(c.g, c.g.mem[a])
    ensures c.g.mem[a].datum in c.g.blocks
  {
    assert BlockOk(c.g, a);
  }

  lemma WeakNotListed(c: Setup, m: Memory, b: Book, a: nat)
    requires Inv(c, m, b) && a in c.g.blocks && c.g.blocks[a].kind.WeakKind?
    ensures a !in b.status && a !in b.elist
  {
    hide SetupOk, Placed, CellsOk, ScanPlace, AllLive, HeapOk, ChainOk, TableOk;
  }

  lemma NextWeak(c: Setup, m: Memory, b: Book, to0: seq<Word>, to: seq<Word>, p: nat)
    requires ScanComplete(c, m, b) && EphemeronsDone(c, m, b, to0, |b.elist|) && WeakDoneTo(c, m, b, to0, to, p) && p < |b.chain|
    ensures var a := b.chain[p];
            && a in b.fwd && b.fwd[a] < |to| && a in c.g.blocks && a + 1 < |c.g.mem| == |m.heap| && a != 0
            && Points(c.g, c.g.mem[a]) && to[b.fwd[a]] == Word(TC_FALSE, c.g.mem[a].datum)
            && c.g.blocks[a].kind.WeakKind? && b.own[b.fwd[a]] == a && |c.seeds| <= b.fwd[a]
            && m.heap[a] == Word(BrokenHeart, c.newStart + b.fwd[a])
            && m.heap[a + 1] == Word(c.g.mem[a].tag, ChainAt(b.chain, p + 1))
            && c.g.mem[a].datum < |m.heap|
            && (m.heap[c.g.mem[a].datum].tag.BrokenHeart? <==> c.g.mem[a].datum in b.fwd)
            && (c.g.mem[a].datum in b.fwd ==> m.heap[c.g.mem[a].datum].datum == c.newStart + b.fwd[c.g.mem[a].datum])
  {
    hide WellFormed, Placed, CellsOk, ScanPlace, AllLive, HeapOk, ListOk, TableOk, KeysOk, Settled;
    var a := b.chain[p];
    ChainItem(c, m, b, p);
    MaskedCar(c, m, b, a);
    CarObject(c, a);
    Forwarded(c, m, b, c.g.mem[a].datum);
    WeakNotListed(c, m, b, a);
    PrefixMembers(b.chain, p);
    assert EphemeronCell(c, m, b, to0, |b.elist|, b.fwd[a]) && WeakCell(c, m, b, to0, to, p, b.fwd[a]);
  }

  lemma WeakStep(c: Setup, m: Memory, b: Book, to0: seq<Word>, to: seq<Word>, p: nat)
    requires ScanComplete(c, m, b) && EphemeronsDone(c, m, b, to0, |b.elist|) && WeakDoneTo(c, m, b, to0, to, p) && p < |b.chain|
    requires b.chain[p] in b.fwd && b.fwd[b.chain[p]] < |to| && b.chain[p] in c.g.blocks && b.chain[p] < |c.g.mem|
    ensures WeakDoneTo(c, m, b, to0, to[b.fwd[b.chain[p]] := Settled(c, b.fwd, b.chain[p], 0)], p + 1)
  {
    hide SetupOk, CellsOk, ScanPlace, AllLive, HeapOk, TableOk, ListOk, KeysOk, Settled, EphemeronsDone;
    var a, q := b.chain[p], p + 1;
    var to' := to[b.fwd[a] := Settled(c, b.fwd, a, 0)];
    NextWeak(c, m, b, to0, to, p);
    PrefixMembers(b.chain, p);
    forall i | 0 <= i < |to'|
      ensures WeakCell(c, m, b, to0, to', q, i)
    {
      assert WeakCell(c, m, b, to0, to, p, i);
    }
  }

  /** In the end every copied object is settled. */
  ghost predicate AllSettled(c: Setup, b: Book, to: seq<Word>) {
    && |to| == |b.own|
    && (forall i | 0 <= i < |c.seeds| && i < |to| :: to[i] == Relocate(c, b.fwd, c.seeds[i]))
    && (forall i | |c.seeds| <= i < |to| :: SettledCell(c, b, to, i))
  }

  ghost predicate SettledCell(c: Setup, b: Book, to: seq<Word>, i: nat) {
    && i < |to| && i < |b.own| && b.own[i] in b.fwd && b.own[i] in c.g.blocks && b.fwd[b.own[i]] <= i
    && b.own[i] + (i - b.fwd[b.own[i]]) < |c.g.mem|
    && to[i] == Settled(c, b.fwd, b.own[i], i - b.fwd[b.own[i]])
  }

  lemma CellBounds(c: Setup, b: Book, i: nat)
    requires WellFormed(c.g) && Placed(c, b) && |c.seeds| <= i < |b.own|
    ensures b.own[i] in b.fwd && b.own[i] in c.g.blocks && b.fwd[b.own[i]] <= i
    ensures b.own[i] + (i - b.fwd[b.own[i]]) < |c.g.mem|
  {
    assert BlockOk(c.g, b.own[i]);
  }

  lemma CellSettles(c: Setup, m: Memory, b: Book, to0: seq<Word>, to: seq<Word>, i: nat)
    requires ScanComplete(c, m, b) && |c.seeds| <= i < |to| && |to| == |m.to|
    requires EphemeronCell(c, m, b, to0, |b.elist|, i) && WeakCell(c, m, b, to0, to, |b.chain|, i)
    ensures SettledCell(c, b, to, i)
  {
    hide WellFormed, Placed, CellsOk, ScanPlace, AllLive, HeapOk, TableOk, KeysOk, Settled, ChainAt, Links, RefAt;
    CellBounds(c, b, i);
    var a := b.own[i];
    assert b.elist[..|b.elist|] == b.elist && b.chain[..|b.chain|] == b.chain;
    if a in b.status {
      assert a in b.elist;
      if a in b.chain { ChainMember(c, m, b, a); }
    } else if a in b.chain && i == b.fwd[a] {
      assert a !in b.elist;
    } else {
      ScanSettles(c, m, b, i);
    }
  }

  lemma Settles(c: Setup, m: Memory, b: Book, to0: seq<Word>, to: seq<Word>)
    requires ScanComplete(c, m, b) && EphemeronsDone(c, m, b, to0, |b.elist|) && WeakDoneTo(c, m, b, to0, to, |b.chain|)
    ensures AllSettled(c, b, to)
  {
    hide SetupOk, Placed, ScanPlace, AllLive, HeapOk, ListOk, TableOk, ChainOk, KeysOk, Settled, CellOk;
    forall i | |c.seeds| <= i < |to|
      ensures SettledCell(c, b, to, i)
    {
      assert EphemeronCell(c, m, b, to0, |b.elist|, i) && WeakCell(c, m, b, to0, to, |b.chain|, i);
      CellSettles(c, m, b, to0, to, i);
    }
    forall i | 0 <= i < |c.seeds| && i < |to|
      ensures to[i] == Relocate(c, b.fwd, c.seeds[i])
    {
      assert EphemeronCell(c, m, b, to0, |b.elist|, i) && WeakCell(c, m, b, to0, to, |b.chain|, i);
    }
  }
}
