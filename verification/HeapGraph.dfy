/**
 The object graph a collection starts from, and which of its objects are live.
 */
module HeapGraph {
  import opened Objects

  datatype Kind = TupleKind | VectorKind | RawKind | WeakKind | EphemeronKind

  datatype Block = Block(kind: Kind, size: nat)

  /** Memory before the collection. Fromspace is [lo, hi); `blocks` gives the objects in it. */
  datatype Graph = Graph(lo: nat, hi: nat, blocks: map<nat, Block>, mem: seq<Word>)

  predicate Points(g: Graph, w: Word) {
    w.tag.IsPointer() && g.lo <= w.datum < g.hi
  }

  predicate Fits(t: Tag, k: Block) {
    match t
    case Tuple(n, _) => k == Block(TupleKind, n)
    case Vector(_) => k.kind.VectorKind? || k.kind.RawKind?
    case WeakCons => k.kind.WeakKind?
    case Ephemeron => k.kind.EphemeronKind?
    case _ => false
  }

  /** A word the collector may meet while it scans an object's fields or a root. */
  predicate Good(g: Graph, w: Word) {
    && !w.tag.BrokenHeart?
    && !w.tag.ManifestNM?
    && (w.tag.IsPointer() ==> w.datum != 0)
    && (Points(g, w) ==> w.datum in g.blocks && Fits(w.tag, g.blocks[w.datum]))
  }

  ghost predicate GoodRange(g: Graph, from: nat, to: nat)
    requires to <= |g.mem|
  {
    forall x | from <= x < to :: Good(g, g.mem[x])
  }

  ghost predicate BlockOk(g: Graph, a: nat)
    requires a in g.blocks
  {
    var k := g.blocks[a];
    && g.lo <= a
    && 1 <= k.size
    && a + k.size <= g.hi <= |g.mem|
    && match k.kind
       case TupleKind => GoodRange(g, a, a + k.size)
       case VectorKind => g.mem[a] == Word(TC_MANIFEST_VECTOR, k.size - 1) && GoodRange(g, a + 1, a + k.size)
       case RawKind => g.mem[a] == Word(ManifestNM, k.size - 1)
       case WeakKind => k.size == 2 && GoodRange(g, a, a + 2)
       case EphemeronKind =>
         && k.size == EPHEMERON_SIZE
         && g.mem[a] == MARKED_EPHEMERON_MANIFEST
         && GoodRange(g, a + 1, a + EPHEMERON_SIZE)
         && g.mem[a + EPHEMERON_LIST] == g.mem[a + EPHEMERON_NEXT] == SHARP_F
  }

  ghost predicate WellFormed(g: Graph) {
    && 0 < g.lo <= g.hi <= |g.mem|
    && (forall a | a in g.blocks :: BlockOk(g, a))
    && (forall a, b | a in g.blocks && b in g.blocks && a < b :: a + g.blocks[a].size <= b)
  }

  predicate IsEphemeron(g: Graph, e: nat) {
    e in g.blocks && g.blocks[e].kind.EphemeronKind? && e + EPHEMERON_SIZE <= |g.mem|
  }

  function Key(g: Graph, e: nat): Word
    requires IsEphemeron(g, e)
  {
    g.mem[e + EPHEMERON_KEY]
  }

  function Datum(g: Graph, e: nat): Word
    requires IsEphemeron(g, e)
  {
    g.mem[e + EPHEMERON_DATUM]
  }

  /** Slot j of object a keeps what it refers to alive, whatever else is alive. */
  predicate Strong(g: Graph, a: nat, j: nat) {
    && a in g.blocks
    && j < g.blocks[a].size
    && a + j < |g.mem|
    && match g.blocks[a].kind
       case TupleKind => true
       case VectorKind => 1 <= j
       case RawKind => false
       case WeakKind => j == 1
       case EphemeronKind => false
  }

  /**
   A set of objects that holds what the roots refer to, what its members refer to strongly, and the
   datum of each of its ephemerons whose key is in the set or is not collectable at all.
   */
  ghost predicate Closed(g: Graph, roots: set<Word>, s: set<nat>) {
    && (forall w | w in roots && Points(g, w) :: w.datum in s)
    && (forall a: nat, j: nat | a in s && Strong(g, a, j) && Points(g, g.mem[a + j]) :: g.mem[a + j].datum in s)
    && (forall e | e in s && IsEphemeron(g, e) && (Points(g, Key(g, e)) ==> Key(g, e).datum in s) && Points(g, Datum(g, e)) ::
          Datum(g, e).datum in s)
  }

  /** Membership in the least closed set. */
  ghost predicate Live(g: Graph, roots: set<Word>, a: nat) {
    forall s: set<nat> | Closed(g, roots, s) :: a in s
  }

  /** No two live ephemerons have the same live object as their key. */
  ghost predicate DistinctKeys(g: Graph, roots: set<Word>) {
    forall e, f | IsEphemeron(g, e) && IsEphemeron(g, f) && e != f && Live(g, roots, e) && Live(g, roots, f)
                  && Points(g, Key(g, e)) && Points(g, Key(g, f)) && Live(g, roots, Key(g, e).datum) ::
      Key(g, e).datum != Key(g, f).datum
  }

  lemma LiveRoot(g: Graph, roots: set<Word>, w: Word)
    requires w in roots && Points(g, w)
    ensures Live(g, roots, w.datum)
  {
  }

  lemma LiveStrong(g: Graph, roots: set<Word>, a: nat, j: nat)
    requires Live(g, roots, a) && Strong(g, a, j) && Points(g, g.mem[a + j])
    ensures Live(g, roots, g.mem[a + j].datum)
  {
  }

  lemma LiveDatum(g: Graph, roots: set<Word>, e: nat)
    requires Live(g, roots, e) && IsEphemeron(g, e)
    requires Points(g, Key(g, e)) ==> Live(g, roots, Key(g, e).datum)
    requires Points(g, Datum(g, e))
    ensures Live(g, roots, Datum(g, e).datum)
  {
  }

  /** A closed set all of whose members are live is the set of live objects. */
  lemma LeastClosed(g: Graph, roots: set<Word>, s: set<nat>)
    requires Closed(g, roots, s)
    requires forall a | a in s :: Live(g, roots, a)
    ensures forall a :: a in s <==> Live(g, roots, a)
  {
  }
}
