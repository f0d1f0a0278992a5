/**
 What holds of memory between two steps of a collection.
 */
module GcState {
  import opened Objects
  import opened HeapGraph

  /**
   What does not change during a collection: the graph, the roots, where newspace starts, and the roots put first
   in tospace.
   */
  datatype Setup = Setup(g: Graph, roots: set<Word>, newStart: nat, seeds: seq<Word>)

  /** The collector's memory: oldspace, the filled part of tospace, the ephemeron table, and the heads of its lists. */
  datatype Memory = Memory(heap: seq<Word>, to: seq<Word>, table: seq<Word>, weakChain: nat, list: Word, queue: Word)

  /**
   A listed ephemeron waits in the table, is queued to have its datum scanned, has just left the queue, or has had
   its datum scanned.
   */
  datatype Status = Waiting | Queued | Popped | Scanned

  /**
   The proof's bookkeeping. `fwd` gives the tospace index of each copied object, `own` the object each
   tospace word was copied for; `scan` is how far tospace has been scanned. The sequences are the contents
   of the linked lists threaded through memory.
   */
  datatype Book = Book(fwd: map<nat, nat>, own: seq<nat>, scan: nat, chain: seq<nat>,
                       elist: seq<nat>, buckets: seq<seq<nat>>, queued: seq<nat>, status: map<nat, Status>)

  ghost predicate SetupOk(c: Setup) {
    && WellFormed(c.g)
    && 0 < c.newStart
    && (forall w | w in c.roots :: Good(c.g, w))
    && (forall w | w in c.seeds :: w in c.roots)
  }

  // ----- relocation -----

  /** The word that stands in newspace for an old word. */
  function Relocate(c: Setup, fwd: map<nat, nat>, o: Word): Word {
    if Points(c.g, o) && o.datum in fwd then Word(o.tag, c.newStart + fwd[o.datum]) else o
  }

  predicate Traced(c: Setup, fwd: map<nat, nat>, t: Word, o: Word) {
    t == Relocate(c, fwd, o) && (Points(c.g, o) ==> o.datum in fwd)
  }

  predicate ScanOk(c: Setup, b: Book, i: nat, t: Word, o: Word) {
    if i < b.scan then Traced(c, b.fwd, t, o) else t == o
  }

  // ----- where copies are -----

  ghost predicate Sizes(c: Setup, m: Memory, b: Book) {
    && |b.own| == |m.to|
    && |c.seeds| <= |m.to|
    && b.scan <= |m.to|
    && |m.heap| == |c.g.mem|
    && |m.table| > 0
  }

  /** Copies fill tospace after the seeds, one copy of each copied object, without overlap. */
  ghost predicate Placed(c: Setup, b: Book) {
    && |c.seeds| <= |b.own|
    && (forall a | a in b.fwd :: a in c.g.blocks && |c.seeds| <= b.fwd[a] && b.fwd[a] + c.g.blocks[a].size <= |b.own|)
    && (forall i | |c.seeds| <= i < |b.own| ::
          && b.own[i] in b.fwd
          && b.fwd[b.own[i]] <= i < b.fwd[b.own[i]] + c.g.blocks[b.own[i]].size)
    && (forall a, i | a in b.fwd && b.fwd[a] <= i < b.fwd[a] + c.g.blocks[a].size :: b.own[i] == a)
  }

  // ----- what copies contain -----

  ghost predicate CellOk(c: Setup, m: Memory, b: Book, i: nat) {
    && i < |m.to| && i < |b.own|
    && var a := b.own[i];
    && a in b.fwd && a in c.g.blocks
    && b.fwd[a] <= i
    && var j := i - b.fwd[a];
    && a + j < |c.g.mem|
    && var t, o := m.to[i], c.g.mem[a + j];
    match c.g.blocks[a].kind
    case RawKind => t == o
    case WeakKind => if j == 0 && Points(c.g, o) then t == Word(TC_FALSE, o.datum) else ScanOk(c, b, i, t, o)
    case EphemeronKind =>
      if a in b.status then
        && (j == 0 ==> t == UNMARKED_EPHEMERON_MANIFEST)
        && (j == EPHEMERON_KEY ==> t == o)
        && (j == EPHEMERON_DATUM ==> if b.status[a].Scanned? then Traced(c, b.fwd, t, o) else t == o)
      else
        && ScanOk(c, b, i, t, o)
        && (j == EPHEMERON_KEY && Points(c.g, o) ==> o.datum in b.fwd)
    case _ => ScanOk(c, b, i, t, o)
  }

  ghost predicate CellsOk(c: Setup, m: Memory, b: Book) {
    && (forall i | 0 <= i < |c.seeds| && i < |m.to| :: ScanOk(c, b, i, m.to[i], c.seeds[i]))
    && (forall i | |c.seeds| <= i < |m.to| :: CellOk(c, m, b, i))
  }

  /** The scan pointer is never inside a block the scan has to skip. */
  ghost predicate ScanPlace(c: Setup, b: Book) {
    forall a | a in b.fwd && a in c.g.blocks && (c.g.blocks[a].kind.RawKind? || a in b.status) ::
      !(b.fwd[a] < b.scan < b.fwd[a] + c.g.blocks[a].size)
  }

  ghost predicate AllLive(c: Setup, b: Book) {
    forall a | a in b.fwd :: Live(c.g, c.roots, a)
  }

  // ----- oldspace -----

  ghost predicate HeapOk(c: Setup, m: Memory, b: Book) {
    && |m.heap| == |c.g.mem|
    && (forall a | a in c.g.blocks && a < |m.heap| ::
          m.heap[a] == if a in b.fwd then Word(BrokenHeart, c.newStart + b.fwd[a]) else c.g.mem[a])
    && (forall a, x | a in c.g.blocks && a < x < a + c.g.blocks[a].size && x < |m.heap| && a !in b.chain ::
          m.heap[x] == c.g.mem[x])
  }

  // ----- the weak chain, threaded through the second words of old weak pairs -----

  function ChainAt(chain: seq<nat>, i: nat): nat {
    if i < |chain| then chain[i] else 0
  }

  predicate Chained(c: Setup, b: Book, a: nat) {
    && a in b.fwd
    && a in c.g.blocks
    && c.g.blocks[a].kind.WeakKind?
    && a + 1 < |c.g.mem|
    && Points(c.g, c.g.mem[a])
  }

  /** The second word of the i-th pair of the chain has the type of the pair's car and refers to the next pair. */
  ghost predicate ChainedAt(c: Setup, heap: seq<Word>, b: Book, i: nat)
    requires i < |b.chain|
  {
    && Chained(c, b, b.chain[i])
    && b.chain[i] + 1 < |heap|
    && heap[b.chain[i] + 1] == Word(c.g.mem[b.chain[i]].tag, ChainAt(b.chain, i + 1))
  }

  ghost predicate ChainOk(c: Setup, m: Memory, b: Book) {
    && m.weakChain == ChainAt(b.chain, 0)
    && (forall i | 0 <= i < |b.chain| :: ChainedAt(c, m.heap, b, i))
    && (forall i, j | 0 <= i < j < |b.chain| :: b.chain[i] != b.chain[j])
    && (forall a | Chained(c, b, a) :: a in b.chain)
  }

  // ----- lists threaded through copied ephemerons -----

  function RefAt(c: Setup, fwd: map<nat, nat>, items: seq<nat>, i: nat): Word {
    if i < |items| && items[i] in fwd then Word(Ephemeron, c.newStart + fwd[items[i]]) else SHARP_F
  }

  predicate Distinct(items: seq<nat>) {
    forall i, j | 0 <= i < j < |items| :: items[i] != items[j]
  }

  /** Item i's slot refers to the item after it. */
  ghost predicate LinkedAt(c: Setup, to: seq<Word>, fwd: map<nat, nat>, items: seq<nat>, slot: nat, i: nat)
    requires i < |items|
  {
    && items[i] in fwd
    && fwd[items[i]] + slot < |to|
    && to[fwd[items[i]] + slot] == RefAt(c, fwd, items, i + 1)
  }

  ghost predicate Links(c: Setup, to: seq<Word>, fwd: map<nat, nat>, items: seq<nat>, slot: nat, head: Word) {
    head == RefAt(c, fwd, items, 0) && forall i | 0 <= i < |items| :: LinkedAt(c, to, fwd, items, slot, i)
  }

  function Hash(c: Setup, e: nat, n: nat): nat
    requires IsEphemeron(c.g, e) && n > 0
  {
    Key(c.g, e).datum % n
  }

  /** The ephemeron list holds exactly the copied ephemerons whose key was not known to be live when they were copied. */
  ghost predicate ListOk(c: Setup, m: Memory, b: Book) {
    && Distinct(b.elist)
    && (forall e :: e in b.elist <==> e in b.status)
    && (forall e | e in b.status :: e in b.fwd && IsEphemeron(c.g, e) && Points(c.g, Key(c.g, e)))
    && Links(c, m.to, b.fwd, b.elist, EPHEMERON_LIST, m.list)
  }

  ghost predicate BucketOk(c: Setup, m: Memory, b: Book, h: nat) {
    && h < |m.table| && h < |b.buckets|
    && Distinct(b.buckets[h])
    && Links(c, m.to, b.fwd, b.buckets[h], EPHEMERON_NEXT, m.table[h])
    && (forall e | e in b.buckets[h] ::
          e in b.status && b.status[e].Waiting? && IsEphemeron(c.g, e) && Hash(c, e, |m.table|) == h)
  }

  /** The table holds exactly the waiting ephemerons, each under its key's hash; the queue exactly the queued ones. */
  ghost predicate TableOk(c: Setup, m: Memory, b: Book) {
    && |b.buckets| == |m.table| > 0
    && (forall h | 0 <= h < |m.table| :: BucketOk(c, m, b, h))
    && (forall e | e in b.status && b.status[e].Waiting? && IsEphemeron(c.g, e) :: e in b.buckets[Hash(c, e, |m.table|)])
    && Distinct(b.queued)
    && Links(c, m.to, b.fwd, b.queued, EPHEMERON_NEXT, m.queue)
    && (forall e :: e in b.queued <==> e in b.status && b.status[e].Queued?)
  }

  /** While data are being scanned: an ephemeron waits exactly as long as its key is outside `keys`. */
  ghost predicate KeysOk(c: Setup, b: Book, keys: set<nat>) {
    forall e | e in b.status && IsEphemeron(c.g, e) :: (b.status[e].Waiting? <==> Key(c.g, e).datum !in keys)
  }

  /** Before that: every listed ephemeron waits. */
  predicate AllWaiting(b: Book) {
    forall e | e in b.status :: b.status[e].Waiting?
  }

  ghost predicate Inv(c: Setup, m: Memory, b: Book) {
    && SetupOk(c)
    && Sizes(c, m, b)
    && Placed(c, b)
    && CellsOk(c, m, b)
    && ScanPlace(c, b)
    && AllLive(c, b)
    && HeapOk(c, m, b)
    && ChainOk(c, m, b)
    && ListOk(c, m, b)
    && TableOk(c, m, b)
  }
}
