/**
 Facts about whole scans: of a root area in oldspace, of tospace, and of the data of queued ephemerons.
 */
module GcRun {
  import opened Objects
  import opened HeapGraph
  import opened GcState
  import opened GcLists
  import opened GcSteps
  import opened GcScan
  import opened GcQueue
  import opened GcMoves
  import opened GcResult

  /** Progress, with the scan pointer free to move. */
  ghost predicate Advance(b: Book, b': Book) {
    Progress(b, b'.(scan := b.scan))
  }

  lemma AdvanceTrans(b: Book, b': Book, b'': Book)
    requires Advance(b, b') && Advance(b', b'')
    ensures Advance(b, b'')
  {
    ProgressTrans(b, b'.(scan := b.scan), b''.(scan := b.scan));
  }

  lemma ProgressAdvance(b: Book, b': Book)
    requires Progress(b, b')
    ensures Advance(b, b')
  {
    assert b'.(scan := b.scan) == b';
  }

  lemma AdvanceScan(b: Book, n: nat)
    ensures Advance(b, b.(scan := n))
  {
    assert b.(scan := n).(scan := b.scan) == b;
  }

  lemma TracedMono(c: Setup, fwd: map<nat, nat>, fwd': map<nat, nat>, t: Word, o: Word)
    requires Traced(c, fwd, t, o) && Grows(fwd, fwd')
    ensures Traced(c, fwd', t, o)
  {
  }

  // ----- the word under the scan pointer -----

  /** What an unscanned cell of a block the scan does not skip holds. */
  function Pending(c: Setup, b: Book, i: nat): Word
    requires i < |b.own| && b.own[i] in b.fwd && b.own[i] in c.g.blocks && b.fwd[b.own[i]] <= i
    requires b.own[i] + (i - b.fwd[b.own[i]]) < |c.g.mem|
  {
    var a, j := b.own[i], i - b.fwd[b.own[i]];
    var o := c.g.mem[a + j];
    if c.g.blocks[a].kind.WeakKind? && j == 0 && Points(c.g, o) then Word(TC_FALSE, o.datum) else o
  }

  lemma CellWaits(c: Setup, m: Memory, b: Book, i: nat)
    requires CellOk(c, m, b, i) && b.scan <= i && !Skipped(c, b, b.own[i])
    ensures m.to[i] == Pending(c, b, i)
  {
  }

  /** Handling a word does not touch the cell the word came from. */
  lemma UnscannedStays(c: Setup, m: Memory, b: Book, m': Memory, b': Book)
    requires Inv(c, m, b) && Inv(c, m', b') && Progress(b, b')
    requires b.scan < |m.to| && !m.to[b.scan].tag.ManifestNM?
    ensures b.scan < |m'.to| && m'.to[b.scan] == m.to[b.scan]
  {
    hide SetupOk, CellsOk, ScanPlace, AllLive, HeapOk, ChainOk, ListOk, TableOk;
    assert |m.to| <= |m'.to|;
    WordAtScan(c, m, b);
    if b.scan < |c.seeds| {
      SeedAt(c, m, b, b.scan);
      SeedAt(c, m', b', b.scan);
    } else {
      var a := b.own[b.scan];
      assert b'.own[b.scan] == a && a in b.fwd;
      CellAt(c, m, b, b.scan);
      CellAt(c, m', b', b.scan);
      CellWaits(c, m, b, b.scan);
      CellWaits(c, m', b', b.scan);
    }
  }

  lemma SeedAt(c: Setup, m: Memory, b: Book, i: nat)
    requires CellsOk(c, m, b) && i < |c.seeds| && i < |m.to| && b.scan <= i
    ensures m.to[i] == c.seeds[i]
  {
  }

  lemma HandledAtScan(c: Setup, m: Memory, b: Book)
    requires Inv(c, m, b) && b.scan < |m.to| && !m.to[b.scan].tag.ManifestNM?
    ensures Handled(c, m.to[b.scan])
  {
    hide SetupOk, Sizes, Placed, CellsOk, ScanPlace, AllLive, HeapOk, ChainOk, ListOk, TableOk;
    WordAtScan(c, m, b);
  }

  lemma ScanPhase(c: Setup, b: Book, n: nat, keys: set<nat>)
    ensures KeysOk(c, b, keys) ==> KeysOk(c, b.(scan := n), keys)
    ensures AllWaiting(b) ==> AllWaiting(b.(scan := n))
  {
  }

  // ----- a root area -----

  /** The positions from i up to end that a scan of h visits. */
  function ScanPoints(h: seq<Word>, i: nat, end: nat): (r: set<nat>)
    requires end <= |h|
    ensures forall x | x in r :: i <= x < end
    decreases end - i
  {
    if i >= end then {}
    else if h[i].tag.ManifestNM? then ScanPoints(h, i + 1 + h[i].datum, end)
    else {i} + ScanPoints(h, i + 1, end)
  }

  /** The part of a root area below s has been scanned, the rest has not. */
  ghost predicate AreaScanned(c: Setup, fwd: map<nat, nat>, h0: seq<Word>, h: seq<Word>, points: set<nat>, s: nat) {
    && |h| == |h0|
    && (forall x | 0 <= x < |h| && !(c.g.lo <= x < c.g.hi) ::
          if x in points && x < s then Traced(c, fwd, h[x], h0[x]) else h[x] == h0[x])
  }

  lemma AreaGrows(c: Setup, fwd: map<nat, nat>, fwd': map<nat, nat>,
                  h0: seq<Word>, h: seq<Word>, h': seq<Word>, points: set<nat>, s: nat)
    requires AreaScanned(c, fwd, h0, h, points, s) && Grows(fwd, fwd') && OutsideSame(c, h, h')
    ensures AreaScanned(c, fwd', h0, h', points, s)
  {
  }

  /** The remaining positions are those a scan from s visits. */
  ghost predicate Remaining(h0: seq<Word>, points: set<nat>, s: nat, end: nat) {
    && end <= |h0|
    && (forall x | x in points && s <= x :: x in ScanPoints(h0, s, end))
    && ScanPoints(h0, s, end) <= points
  }

  lemma RemainingStep(h0: seq<Word>, points: set<nat>, s: nat, end: nat)
    requires Remaining(h0, points, s, end) && s < end
    ensures h0[s].tag.ManifestNM? ==> Remaining(h0, points, s + 1 + h0[s].datum, end)
    ensures h0[s].tag.ManifestNM? ==> forall x | x in points :: !(s <= x < s + 1 + h0[s].datum)
    ensures !h0[s].tag.ManifestNM? ==> s in points && Remaining(h0, points, s + 1, end)
  {
  }

  lemma OldspaceWrite(c: Setup, m: Memory, b: Book, x: nat, w: Word)
    requires Inv(c, m, b) && x < |m.heap| && !(c.g.lo <= x < c.g.hi)
    ensures Inv(c, m.(heap := m.heap[x := w]), b)
  {
    hide Placed, ScanPlace, AllLive, CellsOk, ListOk, TableOk, HeapOk, ChainOk;
    var m' := m.(heap := m.heap[x := w]);
    HeapWrite(c, m, b, x, w);
    ChainWrite(c, m, b, x, w);
    CellsWrite(c, m, b, m');
    TableWrite(c, m, b, m');
    ListWrite(c, m, b, m');
  }

  lemma HeapWrite(c: Setup, m: Memory, b: Book, x: nat, w: Word)
    requires WellFormed(c.g) && HeapOk(c, m, b) && x < |m.heap| && !(c.g.lo <= x < c.g.hi)
    ensures HeapOk(c, m.(heap := m.heap[x := w]), b)
  {
    var m' := m.(heap := m.heap[x := w]);
    forall a | a in c.g.blocks
      ensures c.g.lo <= a && a + c.g.blocks[a].size <= c.g.hi && 1 <= c.g.blocks[a].size
    {
      assert BlockOk(c.g, a);
    }
    forall a, y | a in c.g.blocks && a < y < a + c.g.blocks[a].size && y < |m'.heap| && a !in b.chain
      ensures m'.heap[y] == c.g.mem[y]
    {
      assert m.heap[y] == c.g.mem[y];
    }
  }

  lemma ChainWrite(c: Setup, m: Memory, b: Book, x: nat, w: Word)
    requires WellFormed(c.g) && ChainOk(c, m, b) && x < |m.heap| && !(c.g.lo <= x < c.g.hi)
    ensures ChainOk(c, m.(heap := m.heap[x := w]), b)
  {
    hide ChainAt;
    var m' := m.(heap := m.heap[x := w]);
    forall i | 0 <= i < |b.chain| && b.chain[i] + 1 < |m.heap|
      ensures m'.heap[b.chain[i] + 1] == m.heap[b.chain[i] + 1]
    {
      ChainLink(c, m, b, i);
      assert BlockOk(c.g, b.chain[i]);
    }
    KeepChain(c, m, b, m', b);
  }

  lemma ListWrite(c: Setup, m: Memory, b: Book, m': Memory)
    requires ListOk(c, m, b) && m'.to == m.to && m'.list == m.list
    ensures ListOk(c, m', b)
  {
  }

  lemma CellsWrite(c: Setup, m: Memory, b: Book, m': Memory)
    requires CellsOk(c, m, b) && m'.to == m.to
    ensures CellsOk(c, m', b)
  {
    forall i | |c.seeds| <= i < |m.to|
      ensures CellOk(c, m', b, i)
    {
      assert CellOk(c, m, b, i);
    }
  }

  lemma TableWrite(c: Setup, m: Memory, b: Book, m': Memory)
    requires TableOk(c, m, b) && m'.to == m.to && m'.table == m.table && m'.queue == m.queue
    ensures TableOk(c, m', b)
  {
    forall h | 0 <= h < |m.table|
      ensures BucketOk(c, m', b, h)
    {
      assert BucketOk(c, m, b, h);
    }
  }

  // ----- the ephemeron pass -----

  /** The first p listed ephemerons have been queued if their key was live. */
  ghost predicate FirstQueued(c: Setup, b: Book, p: nat) {
    && p <= |b.elist|
    && (forall e | e in b.status && IsEphemeron(c.g, e) && !b.status[e].Waiting? ::
          b.status[e].Queued? && Key(c.g, e).datum in b.fwd)
    && (forall i | 0 <= i < p :: b.elist[i] in b.status && IsEphemeron(c.g, b.elist[i])
          && (b.status[b.elist[i]].Waiting? ==> Key(c.g, b.elist[i]).datum !in b.fwd))
  }

  lemma QueuedStep(c: Setup, m: Memory, b: Book, b': Book, p: nat)
    requires Inv(c, m, b) && FirstQueued(c, b, p) && p < |b.elist|
    requires IsEphemeron(c.g, b.elist[p])
    requires if Key(c.g, b.elist[p]).datum in b.fwd then QueuedFor(c, b, b', Key(c.g, b.elist[p]).datum) else b' == b
    ensures FirstQueued(c, b', p + 1)
  {
    hide SetupOk, Sizes, Placed, CellsOk, ScanPlace, AllLive, HeapOk, ChainOk, TableOk, Links, Points;
    assert forall e :: e in b'.status <==> e in b'.status.Keys;
    assert b.elist[p] in b.elist;
  }

  lemma AllQueued(c: Setup, m: Memory, b: Book)
    requires Inv(c, m, b) && FirstQueued(c, b, |b.elist|)
    ensures KeysOk(c, b, b.fwd.Keys)
  {
    hide SetupOk, Sizes, Placed, CellsOk, ScanPlace, AllLive, HeapOk, ChainOk, TableOk;
    forall e | e in b.status && IsEphemeron(c.g, e)
      ensures b.status[e].Waiting? <==> Key(c.g, e).datum !in b.fwd.Keys
    {
      assert e in b.elist;
      var i :| 0 <= i < |b.elist| && b.elist[i] == e;
    }
  }

  lemma ListItem(c: Setup, m: Memory, b: Book, p: nat)
    requires Inv(c, m, b) && p < |b.elist|
    ensures var e := b.elist[p];
            && e in b.status && e in b.fwd && IsEphemeron(c.g, e) && b.fwd[e] + EPHEMERON_SIZE <= |m.to|
            && RefAt(c, b.fwd, b.elist, p) == Word(Ephemeron, c.newStart + b.fwd[e])
            && m.to[b.fwd[e] + EPHEMERON_LIST] == RefAt(c, b.fwd, b.elist, p + 1)
            && Points(c.g, Key(c.g, e)) && m.to[b.fwd[e] + EPHEMERON_KEY] == Key(c.g, e)
            && Key(c.g, e).datum < |m.heap|
            && (m.heap[Key(c.g, e).datum].tag.BrokenHeart? <==> Key(c.g, e).datum in b.fwd)
            && (Key(c.g, e).datum in b.fwd ==> m.heap[Key(c.g, e).datum].datum == c.newStart + b.fwd[Key(c.g, e).datum])
  {
    hide Inv, Links, RefAt, Distinct;
    ListLinks(c, m, b);
    var e := b.elist[p];
    assert e in b.elist;
    LinkOf(c, m.to, b.fwd, b.elist, EPHEMERON_LIST, m.list, p);
    ListedKeyInv(c, m, b, e);
    KeyObject(c, m, b, e);
  }

  lemma KeyObject(c: Setup, m: Memory, b: Book, e: nat)
    requires Inv(c, m, b) && IsEphemeron(c.g, e) && Points(c.g, Key(c.g, e))
    ensures var k := Key(c.g, e).datum;
            && k < |m.heap| && (m.heap[k].tag.BrokenHeart? <==> k in b.fwd)
            && (k in b.fwd ==> m.heap[k].datum == c.newStart + b.fwd[k])
  {
    hide Placed, CellsOk, ScanPlace, AllLive, ChainOk, ListOk, TableOk, HeapOk;
    assert BlockOk(c.g, e);
    Forwarded(c, m, b, Key(c.g, e).datum);
  }

  /** The datum of an ephemeron just taken off the queue. */
  lemma PoppedDatum(c: Setup, m: Memory, b: Book, e: nat)
    requires Inv(c, m, b) && e in b.status && b.status[e].Popped? && KeysOk(c, b, b.fwd.Keys)
    ensures e in b.fwd && IsEphemeron(c.g, e) && b.fwd[e] + EPHEMERON_SIZE <= |m.to|
    ensures m.to[b.fwd[e] + EPHEMERON_DATUM] == Datum(c.g, e)
    ensures Handled(c, Datum(c.g, e))
  {
    hide SetupOk, CellsOk, ScanPlace, HeapOk, ChainOk, ListOk, TableOk, Live, BlockOk, Strong;
    ListedKeyInv(c, m, b, e);
    ListedSizeInv(c, m, b, e);
    var k := b.fwd[e] + EPHEMERON_DATUM;
    assert b.own[k] == e;
    CellAt(c, m, b, k);
    GoodDatum(c, m, b, e);
    if Points(c.g, Datum(c.g, e)) {
      assert Live(c.g, c.roots, e) && Live(c.g, c.roots, Key(c.g, e).datum);
      LiveDatum(c.g, c.roots, e);
    }
  }

  lemma GoodDatum(c: Setup, m: Memory, b: Book, e: nat)
    requires Inv(c, m, b) && IsEphemeron(c.g, e)
    ensures Good(c.g, Datum(c.g, e))
  {
    hide Placed, CellsOk, ScanPlace, AllLive, HeapOk, ChainOk, ListOk, TableOk;
    assert BlockOk(c.g, e);
  }

  lemma DatumPhase(c: Setup, b: Book, e: nat, keys: set<nat>)
    requires KeysOk(c, b, keys) && e in b.status && b.status[e].Popped?
    ensures KeysOk(c, DatumBook(b, e), keys)
  {
  }

  lemma PopPhase(c: Setup, m: Memory, b: Book, keys: set<nat>)
    requires Inv(c, m, b) && KeysOk(c, b, keys) && |b.queued| > 0
    ensures b.queued[0] in b.status && b.status[b.queued[0]].Queued?
    ensures KeysOk(c, PopBook(b), keys)
  {
    hide SetupOk, Sizes, Placed, CellsOk, ScanPlace, AllLive, HeapOk, ChainOk, ListOk, TableOk;
    QueuedItem(c, m, b);
  }

  /** Ephemerons still to be scanned; with the objects still to be copied, the measure of the pass. */
  ghost function Unscanned(b: Book): set<nat> {
    set e | e in b.fwd.Keys && !(e in b.status && b.status[e].Scanned?)
  }

  /** One turn of the ephemeron pass scans one ephemeron more, or copies an object more. */
  lemma TurnDecreases(b: Book, b1: Book, b2: Book, e: nat)
    requires |b.queued| > 0 && e == b.queued[0] && e in b.fwd && e in b.status && b.status[e].Queued?
    requires Advance(PopBook(b), b1) && e in b1.status && b1.status[e].Popped?
    requires Advance(DatumBook(b1, e), b2)
    ensures b.fwd.Keys <= b2.fwd.Keys
    ensures b2.fwd.Keys == b.fwd.Keys ==> Unscanned(b2) < Unscanned(b)
    ensures (forall x | x in b.status :: !b.status[x].Popped?) ==> forall x | x in b2.status :: !b2.status[x].Popped?
  {
    assert forall x :: x in b.fwd <==> x in b.fwd.Keys;
    assert e in Unscanned(b) && e !in Unscanned(b2);
  }

  lemma NoneQueued(c: Setup, m: Memory, b: Book)
    requires Inv(c, m, b) && KeysOk(c, b, b.fwd.Keys) && b.scan == |m.to|
    requires !m.queue.tag.Ephemeron?
    requires forall x | x in b.status :: !b.status[x].Popped?
    ensures ScanComplete(c, m, b)
  {
    hide SetupOk, Sizes, Placed, CellsOk, ScanPlace, AllLive, HeapOk, ChainOk, ListOk, BucketOk, Links;
    LinkHead(c, m.to, b.fwd, b.queued, EPHEMERON_NEXT, m.queue);
    LinksEnd(c, m.to, b.fwd, b.queued, EPHEMERON_NEXT, m.queue, 0);
  }

  lemma SameCopied(c: Setup, m: Memory, b: Book, m': Memory, b': Book)
    requires Inv(c, m, b) && Inv(c, m', b') && Progress(b, b')
    ensures b.fwd.Keys <= b'.fwd.Keys && |m.to| <= |m'.to|
    ensures b'.fwd.Keys == b.fwd.Keys ==> |m'.to| == |m.to|
  {
    hide SetupOk, Placed, CellsOk, ScanPlace, AllLive, HeapOk, ChainOk, ListOk, TableOk;
    assert forall x :: x in b.fwd <==> x in b.fwd.Keys;
    if b'.fwd.Keys == b.fwd.Keys {
      assert forall x :: x in b'.fwd <==> x in b'.fwd.Keys;
      assert b'.fwd == b.fwd;
    }
  }

  lemma MoreCopied(c: Setup, m: Memory, b: Book, b': Book)
    requires Inv(c, m, b') && b.fwd.Keys <= b'.fwd.Keys
    ensures b'.fwd.Keys == b.fwd.Keys || c.g.blocks.Keys - b'.fwd.Keys < c.g.blocks.Keys - b.fwd.Keys
  {
    hide SetupOk, CellsOk, ScanPlace, AllLive, HeapOk, ChainOk, ListOk, TableOk;
    if b'.fwd.Keys != b.fwd.Keys {
      assert b'.fwd.Keys == b.fwd.Keys + (b'.fwd.Keys - b.fwd.Keys);
      var x :| x in b'.fwd.Keys - b.fwd.Keys;
      assert x in c.g.blocks.Keys - b.fwd.Keys;
    }
  }

  lemma ProgressSelf(b: Book)
    ensures Progress(b, b)
  {
  }

  lemma AreaStart(c: Setup, fwd: map<nat, nat>, h0: seq<Word>, points: set<nat>, start: nat, end: nat)
    requires end <= |h0| && points == ScanPoints(h0, start, end)
    ensures Remaining(h0, points, start, end) && AreaScanned(c, fwd, h0, h0, points, start)
    ensures forall x | x in points :: x < end
  {
  }

  lemma AreaWord(c: Setup, fwd: map<nat, nat>, h0: seq<Word>, h: seq<Word>, points: set<nat>, s: nat)
    requires AreaScanned(c, fwd, h0, h, points, s) && s < |h| && !(c.g.lo <= s < c.g.hi)
    ensures h[s] == h0[s]
  {
  }

  lemma AreaSkip(c: Setup, fwd: map<nat, nat>, h0: seq<Word>, h: seq<Word>, points: set<nat>, s: nat, s': nat)
    requires AreaScanned(c, fwd, h0, h, points, s) && s <= s'
    requires forall x | x in points :: !(s <= x < s')
    ensures AreaScanned(c, fwd, h0, h, points, s')
  {
  }

  lemma AreaStep(c: Setup, b: Book, b': Book, h0: seq<Word>, h: seq<Word>, h': seq<Word>, points: set<nat>, s: nat, w: Word)
    requires AreaScanned(c, b.fwd, h0, h, points, s) && s < |h| && !(c.g.lo <= s < c.g.hi) && s in points
    requires Progress(b, b') && OutsideSame(c, h, h') && Traced(c, b'.fwd, w, h[s])
    ensures AreaScanned(c, b'.fwd, h0, h'[s := w], points, s + 1)
  {
    AreaGrows(c, b.fwd, b'.fwd, h0, h, h', points, s);
  }

  lemma AreaEnd(c: Setup, fwd: map<nat, nat>, h0: seq<Word>, h: seq<Word>, points: set<nat>, s: nat, end: nat)
    requires AreaScanned(c, fwd, h0, h, points, s) && end <= s && (forall x | x in points :: x < end)
    ensures AreaScanned(c, fwd, h0, h, points, end)
  {
  }

  lemma HandledRoot(c: Setup, m: Memory, b: Book, w: Word)
    requires Inv(c, m, b) && w in c.roots
    ensures Handled(c, w)
  {
    hide Placed, CellsOk, ScanPlace, AllLive, HeapOk, ChainOk, ListOk, TableOk;
    if Points(c.g, w) { LiveRoot(c.g, c.roots, w); }
  }

  lemma ListStart(c: Setup, m: Memory, b: Book)
    requires Inv(c, m, b) && AllWaiting(b)
    ensures FirstQueued(c, b, 0) && m.list == RefAt(c, b.fwd, b.elist, 0)
  {
    hide SetupOk, Sizes, Placed, CellsOk, ScanPlace, AllLive, HeapOk, ChainOk, TableOk;
    LinkHead(c, m.to, b.fwd, b.elist, EPHEMERON_LIST, m.list);
  }

  lemma ElistEnd(c: Setup, m: Memory, b: Book, p: nat)
    requires ScanComplete(c, m, b) && p <= |b.elist| && !RefAt(c, b.fwd, b.elist, p).tag.Ephemeron?
    ensures p == |b.elist|
  {
    hide Inv;
    ListLinks(c, m, b);
    LinksEnd(c, m.to, b.fwd, b.elist, EPHEMERON_LIST, m.list, p);
  }

  lemma ListEnd(c: Setup, m: Memory, b: Book, p: nat)
    requires Inv(c, m, b) && p <= |b.elist| && !RefAt(c, b.fwd, b.elist, p).tag.Ephemeron?
    ensures p == |b.elist|
  {
    hide Inv;
    ListLinks(c, m, b);
    LinksEnd(c, m.to, b.fwd, b.elist, EPHEMERON_LIST, m.list, p);
  }

  lemma QueuedSame(c: Setup, b: Book, b': Book, addr: nat)
    requires QueuedFor(c, b, b', addr)
    ensures b'.fwd == b.fwd && b'.own == b.own && b'.scan == b.scan && b'.elist == b.elist
  {
  }

  lemma FirstStatuses(c: Setup, m: Memory, b: Book, p: nat)
    requires Inv(c, m, b) && FirstQueued(c, b, p)
    ensures forall e | e in b.status :: !b.status[e].Popped? && !b.status[e].Scanned?
  {
    hide SetupOk, Sizes, Placed, CellsOk, ScanPlace, AllLive, HeapOk, ChainOk, TableOk;
  }

  lemma QueueFront(c: Setup, m: Memory, b: Book)
    requires Inv(c, m, b) && m.queue.tag.Ephemeron?
    ensures |b.queued| > 0 && b.queued[0] in b.fwd && m.queue == Word(Ephemeron, c.newStart + b.fwd[b.queued[0]])
  {
    hide SetupOk, Sizes, Placed, CellsOk, ScanPlace, AllLive, HeapOk, ChainOk, ListOk, BucketOk;
  }

  lemma PoppedStays(c: Setup, m: Memory, b1: Book, b2: Book, e: nat)
    requires Inv(c, m, b2) && Progress(b1, b2) && e in b1.status && b1.status[e].Popped? && e in b1.fwd
    requires IsEphemeron(c.g, e) && (Points(c.g, Datum(c.g, e)) ==> Datum(c.g, e).datum in b2.fwd)
    ensures DatumReady(c, b2, e) && b2.fwd[e] == b1.fwd[e]
  {
  }

  /** What a turn of the ephemeron pass does before it scans tospace. */
  ghost predicate Turn(b: Book, b': Book) {
    exists e, b1, b2 :: Turned(b, b1, b2, b', e)
  }

  ghost predicate Turned(b: Book, b1: Book, b2: Book, b': Book, e: nat) {
    && |b.queued| > 0 && e == b.queued[0] && e in b.fwd && e in b.status && b.status[e].Queued?
    && b1 == PopBook(b) && Progress(b1, b2)
    && e in b2.status && b2.status[e].Popped?
    && b' == DatumBook(b2, e)
  }

  lemma TurnMade(b: Book, b1: Book, b2: Book, e: nat)
    requires |b.queued| > 0 && e == b.queued[0] && e in b.fwd && e in b.status && b.status[e].Queued?
    requires b1 == PopBook(b) && Progress(b1, b2)
    ensures Turn(b, DatumBook(b2, e))
  {
    assert Turned(b, b1, b2, DatumBook(b2, e), e);
  }

  lemma TurnDone(b: Book, b1: Book, b2: Book)
    requires Turn(b, b1) && Advance(b1, b2)
    requires forall x | x in b.status :: !b.status[x].Popped?
    ensures Grows(b.fwd, b2.fwd) && b.fwd.Keys <= b2.fwd.Keys
    ensures b2.fwd.Keys == b.fwd.Keys ==> Unscanned(b2) < Unscanned(b)
    ensures forall x | x in b2.status :: !b2.status[x].Popped?
  {
    var e, b', b'' :| Turned(b, b', b'', b1, e);
    ProgressAdvance(b', b'');
    TurnDecreases(b, b'', b2, e);
  }

  lemma EphemeronsStart(c: Setup, m: Memory, b: Book)
    requires ScanComplete(c, m, b)
    ensures EphemeronsDone(c, m, b, m.to, 0) && m.list == RefAt(c, b.fwd, b.elist, 0)
  {
    hide Inv;
    ListLinks(c, m, b);
    InvPlaced(c, m, b);
    forall i | 0 <= i < |m.to|
      ensures EphemeronCell(c, m, b, m.to, 0, i)
    {
    }
  }

  lemma KeyObjectOf(c: Setup, m: Memory, b: Book, e: nat)
    requires ScanComplete(c, m, b) && IsEphemeron(c.g, e) && Points(c.g, Key(c.g, e))
    ensures var k := Key(c.g, e).datum;
            && k < |m.heap| && (m.heap[k].tag.BrokenHeart? <==> k in b.fwd)
            && (k in b.fwd ==> m.heap[k].datum == c.newStart + b.fwd[k])
  {
    hide Inv;
    KeyObject(c, m, b, e);
  }

  lemma NewKey(c: Setup, fwd: map<nat, nat>, e: nat, w: Word)
    requires IsEphemeron(c.g, e) && Points(c.g, Key(c.g, e))
    requires w == if Key(c.g, e).datum in fwd then Word(Key(c.g, e).tag, c.newStart + fwd[Key(c.g, e).datum]) else SHARP_F
    ensures w == if Broken(c, fwd, e) then SHARP_F else Relocate(c, fwd, Key(c.g, e))
    ensures w == SHARP_F <==> Broken(c, fwd, e)
  {
  }

  lemma WeakStart(c: Setup, m: Memory, b: Book, to0: seq<Word>)
    requires ScanComplete(c, m, b) && EphemeronsDone(c, m, b, to0, |b.elist|)
    ensures WeakDoneTo(c, m, b, to0, to0, 0) && m.weakChain == ChainAt(b.chain, 0)
  {
    hide SetupOk, Placed, CellsOk, ScanPlace, AllLive, HeapOk, ListOk, TableOk, KeysOk;
    forall i | 0 <= i < |to0|
      ensures WeakCell(c, m, b, to0, to0, 0, i)
    {
    }
  }

  lemma NewCar(c: Setup, fwd: map<nat, nat>, a: nat, w: Word)
    requires a in c.g.blocks && a < |c.g.mem| && c.g.blocks[a].kind.WeakKind? && Points(c.g, c.g.mem[a])
    requires var o := c.g.mem[a];
             w == if o.datum in fwd then Word(o.tag, c.newStart + fwd[o.datum]) else GC_RECLAIMED
    ensures w == Settled(c, fwd, a, 0)
  {
  }

  lemma ChainEnd(c: Setup, m: Memory, b: Book, p: nat)
    requires ScanComplete(c, m, b) && p <= |b.chain| && ChainAt(b.chain, p) == 0
    ensures p == |b.chain|
  {
    hide Placed, CellsOk, ScanPlace, AllLive, HeapOk, ListOk, TableOk, KeysOk;
    if p < |b.chain| {
      ChainItem0(c, m, b, p);
    }
  }

  lemma ChainItem0(c: Setup, m: Memory, b: Book, p: nat)
    requires WellFormed(c.g) && ChainOk(c, m, b) && p < |b.chain|
    ensures b.chain[p] != 0
  {
    ChainLink(c, m, b, p);
    assert BlockOk(c.g, b.chain[p]);
  }

  // ----- a whole collection -----

  /** A root area outside fromspace. */
  predicate Area(g: Graph, start: nat, end: nat) {
    end <= |g.mem| && (end <= g.lo || g.hi <= start)
  }

  /** The words of a root area that a scan visits. */
  function AreaWords(g: Graph, start: nat, end: nat): set<Word>
    requires end <= |g.mem|
  {
    set x | x in ScanPoints(g.mem, start, end) && x < |g.mem| :: g.mem[x]
  }

  function RootWords(g: Graph, fixedObjects: Word, history: Word, start: nat, end: nat, start': nat, end': nat): set<Word>
    requires end <= |g.mem| && end' <= |g.mem|
  {
    {fixedObjects, history} + AreaWords(g, start, end) + AreaWords(g, start', end')
  }

  /** Bookkeeping when two seeds have been put in tospace and the table has n empty buckets. */
  function OpenBook(n: nat): Book {
    Book(map[], [0, 0], 0, [], [], seq(n, _ => []), [], map[])
  }

  lemma OpenInv(c: Setup, m: Memory, b: Book)
    requires b == OpenBook(|m.table|) && |m.table| > 0 && |c.seeds| == 2 && m.to == c.seeds
    requires WellFormed(c.g) && 0 < c.newStart && (forall w | w in c.roots :: Good(c.g, w))
    requires forall w | w in c.seeds :: w in c.roots
    requires m.heap == c.g.mem && m.weakChain == 0 && m.list == m.queue == SHARP_F
    requires forall h | 0 <= h < |m.table| :: m.table[h] == SHARP_F
    ensures Inv(c, m, b) && AllWaiting(b) && b.scan == 0
  {
    hide WellFormed, Good, Live;
    forall h | 0 <= h < |m.table|
      ensures BucketOk(c, m, b, h)
    {
      assert b.buckets[h] == [];
    }
  }

  lemma {:induction false} SamePoints(h: seq<Word>, h': seq<Word>, i: nat, end: nat)
    requires end <= |h| == |h'| && (forall x | i <= x < end :: h'[x] == h[x])
    ensures ScanPoints(h', i, end) == ScanPoints(h, i, end)
    decreases end - i
  {
    if i < end {
      if h[i].tag.ManifestNM? {
        SamePoints(h, h', i + 1 + h[i].datum, end);
      } else {
        SamePoints(h, h', i + 1, end);
      }
    }
  }

  /** Scanning the first root area leaves the second as it was. */
  lemma SecondArea(c: Setup, fwd: map<nat, nat>, h0: seq<Word>, h: seq<Word>, p1: set<nat>, s1: nat, e1: nat, s2: nat, e2: nat)
    requires Area(c.g, s1, e1) && Area(c.g, s2, e2) && (e1 <= s2 || e2 <= s1) && h0 == c.g.mem
    requires p1 == ScanPoints(h0, s1, e1) && AreaScanned(c, fwd, h0, h, p1, e1)
    requires AreaWords(c.g, s2, e2) <= c.roots
    ensures |h| == |h0| && ScanPoints(h, s2, e2) == ScanPoints(h0, s2, e2)
    ensures forall x | x in ScanPoints(h0, s2, e2) :: h[x] in c.roots
  {
    forall x | s2 <= x < e2
      ensures h[x] == h0[x]
    {
    }
    SamePoints(h0, h, s2, e2);
    forall x | x in ScanPoints(h0, s2, e2)
      ensures h[x] in c.roots
    {
      assert h0[x] in AreaWords(c.g, s2, e2);
    }
  }

  lemma BothAreas(c: Setup, b1: Book, b2: Book, h0: seq<Word>, h1: seq<Word>, h2: seq<Word>, p1: set<nat>, p2: set<nat>,
                  s1: nat, e1: nat, s2: nat, e2: nat)
    requires Area(c.g, s1, e1) && Area(c.g, s2, e2) && (e1 <= s2 || e2 <= s1) && h0 == c.g.mem
    requires p1 == ScanPoints(h0, s1, e1) && AreaScanned(c, b1.fwd, h0, h1, p1, e1)
    requires p2 == ScanPoints(h0, s2, e2) && AreaScanned(c, b2.fwd, h1, h2, p2, e2)
    requires Progress(b1, b2)
    ensures AreaScanned(c, b2.fwd, h0, h2, p1 + p2, |h0|)
  {
    forall x | 0 <= x < |h2| && !(c.g.lo <= x < c.g.hi)
      ensures if x in p1 + p2 then Traced(c, b2.fwd, h2[x], h0[x]) else h2[x] == h0[x]
    {
      if x in p1 {
        assert x !in p2;
        TracedMono(c, b1.fwd, b2.fwd, h1[x], h0[x]);
      }
    }
  }

  lemma ScanStart(b0: Book, b1: Book, b2: Book)
    requires b0.scan == 0 && Progress(b0, b1) && Progress(b1, b2)
    ensures b2.scan == 0
  {
  }

  lemma RootsTracedMono(c: Setup, fwd: map<nat, nat>, fwd': map<nat, nat>)
    requires RootsTraced(c, fwd) && Grows(fwd, fwd')
    ensures RootsTraced(c, fwd')
  {
  }

  lemma AdvanceGrows(b: Book, b': Book)
    requires Advance(b, b')
    ensures Grows(b.fwd, b'.fwd)
  {
  }

  lemma SeedsTraced(c: Setup, m: Memory, b: Book, w: Word)
    requires Inv(c, m, b) && b.scan == |m.to| && w in c.seeds && Points(c.g, w)
    ensures w.datum in b.fwd
  {
    hide SetupOk, Placed, ScanPlace, AllLive, HeapOk, ChainOk, ListOk, TableOk, CellOk;
    var i :| 0 <= i < |c.seeds| && c.seeds[i] == w;
    assert ScanOk(c, b, i, m.to[i], c.seeds[i]);
  }

  /** Once tospace has been scanned, every root's referent has been copied. */
  lemma RootsDone(c: Setup, m: Memory, b: Book, b': Book, h0: seq<Word>, h: seq<Word>, p1: set<nat>, p2: set<nat>,
                  s1: nat, e1: nat, s2: nat, e2: nat)
    requires Inv(c, m, b') && b'.scan == |m.to| && Advance(b, b')
    requires Area(c.g, s1, e1) && Area(c.g, s2, e2) && h0 == c.g.mem
    requires p1 == ScanPoints(h0, s1, e1) && p2 == ScanPoints(h0, s2, e2)
    requires |c.seeds| == 2 && c.roots == RootWords(c.g, c.seeds[0], c.seeds[1], s1, e1, s2, e2)
    requires AreaScanned(c, b.fwd, h0, h, p1 + p2, |h0|)
    ensures RootsTraced(c, b'.fwd)
  {
    hide Inv, ScanPoints;
    AdvanceGrows(b, b');
    forall w | w in c.roots && Points(c.g, w)
      ensures w.datum in b'.fwd
    {
      if w in c.seeds {
        SeedsTraced(c, m, b', w);
      } else {
        assert w in AreaWords(c.g, s1, e1) + AreaWords(c.g, s2, e2);
        var x :| x in p1 + p2 && x < |h0| && h0[x] == w;
        assert Traced(c, b.fwd, h[x], h0[x]);
      }
    }
  }

  lemma AreasKept(c: Setup, b2: Book, b3: Book, b4: Book,
                  h0: seq<Word>, h2: seq<Word>, h3: seq<Word>, h4: seq<Word>, points: set<nat>)
    requires AreaScanned(c, b2.fwd, h0, h2, points, |h0|)
    requires Advance(b2, b3) && Grows(b3.fwd, b4.fwd) && OutsideSame(c, h2, h3) && OutsideSame(c, h3, h4)
    ensures AreaScanned(c, b4.fwd, h0, h4, points, |h0|)
  {
    AdvanceGrows(b2, b3);
    AreaGrows(c, b2.fwd, b3.fwd, h0, h2, h3, points, |h0|);
    AreaGrows(c, b3.fwd, b4.fwd, h0, h3, h4, points, |h0|);
  }

  lemma InvSetup(c: Setup, m: Memory, b: Book)
    requires Inv(c, m, b)
    ensures SetupOk(c) && b.scan <= |m.to|
  {
    hide SetupOk, Placed, CellsOk, ScanPlace, AllLive, HeapOk, ChainOk, ListOk, TableOk;
  }

  lemma RootParts(g: Graph, fixedObjects: Word, history: Word, s1: nat, e1: nat, s2: nat, e2: nat)
    requires e1 <= |g.mem| && e2 <= |g.mem|
    ensures var roots := RootWords(g, fixedObjects, history, s1, e1, s2, e2);
            && fixedObjects in roots && history in roots
            && (forall x | x in ScanPoints(g.mem, s1, e1) :: g.mem[x] in roots)
            && AreaWords(g, s2, e2) <= roots
  {
    forall x | x in ScanPoints(g.mem, s1, e1)
      ensures g.mem[x] in AreaWords(g, s1, e1)
    {
    }
  }
}
