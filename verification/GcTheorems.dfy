/**
 What a finished collection means for the program: the same graph in newspace, with dead weak
 references and dead ephemerons cleared.
 */
module GcTheorems {
  import opened Common
  import opened Objects
  import opened HeapGraph
  import opened GcState
  import opened GcRoom
  import opened GcMoves
  import opened GcResult

  /** A finished collection: copies are settled, and the copied objects are the live ones. */
  ghost predicate Finished(c: Setup, b: Book, to: seq<Word>) {
    && SetupOk(c)
    && Placed(c, b)
    && AllSettled(c, b, to)
    && (forall a :: a in b.fwd <==> Live(c.g, c.roots, a))
    && TailsNear(c.g, b.fwd, {})
  }

  // ----- each copied object -----

  /** Slot j of copied object a is at its forwarding address, settled. */
  lemma SlotSettled(c: Setup, b: Book, to: seq<Word>, a: nat, j: nat)
    requires Finished(c, b, to) && a in b.fwd && j < c.g.blocks[a].size
    ensures b.fwd[a] + j < |to| && a + j < |c.g.mem|
    ensures to[b.fwd[a] + j] == Settled(c, b.fwd, a, j)
  {
    hide SetupOk, Settled;
    var i := b.fwd[a] + j;
    assert b.own[i] == a;
    assert SettledCell(c, b, to, i);
  }

  /**
   An ephemeron keeps its key and its datum if its key is live or cannot be collected, and then its
   datum has been copied; otherwise it loses both.
   */
  lemma EphemeronRule(c: Setup, b: Book, to: seq<Word>, e: nat)
    requires Finished(c, b, to) && e in b.fwd && IsEphemeron(c.g, e)
    ensures b.fwd[e] + EPHEMERON_SIZE <= |to|
    ensures to[b.fwd[e]] == MARKED_EPHEMERON_MANIFEST
    ensures to[b.fwd[e] + EPHEMERON_LIST] == to[b.fwd[e] + EPHEMERON_NEXT] == SHARP_F
    ensures var key, datum := to[b.fwd[e] + EPHEMERON_KEY], to[b.fwd[e] + EPHEMERON_DATUM];
            if Points(c.g, Key(c.g, e)) && !Live(c.g, c.roots, Key(c.g, e).datum)
            then key == datum == SHARP_F
            else Traced(c, b.fwd, key, Key(c.g, e)) && Traced(c, b.fwd, datum, Datum(c.g, e))
  {
    hide Live, Placed, AllSettled;
    EphemeronBlock(c, b, e);
    SlotSettled(c, b, to, e, 0);
    SlotSettled(c, b, to, e, EPHEMERON_KEY);
    SlotSettled(c, b, to, e, EPHEMERON_DATUM);
    SlotSettled(c, b, to, e, EPHEMERON_LIST);
    SlotSettled(c, b, to, e, EPHEMERON_NEXT);
    if !Broken(c, b.fwd, e) && Points(c.g, Datum(c.g, e)) {
      assert Live(c.g, c.roots, e);
      LiveDatum(c.g, c.roots, e);
    }
  }

  lemma EphemeronBlock(c: Setup, b: Book, e: nat)
    requires SetupOk(c) && IsEphemeron(c.g, e)
    ensures c.g.blocks[e].size == EPHEMERON_SIZE && c.g.mem[e] == MARKED_EPHEMERON_MANIFEST
    ensures c.g.mem[e + EPHEMERON_LIST] == c.g.mem[e + EPHEMERON_NEXT] == SHARP_F
  {
    assert BlockOk(c.g, e);
  }

  /** The car of a weak pair follows its referent, with its type kept, or becomes the reclaimed marker. */
  lemma WeakPairRule(c: Setup, b: Book, to: seq<Word>, a: nat)
    requires Finished(c, b, to) && a in b.fwd && c.g.blocks[a].kind.WeakKind?
    ensures a + 1 < |c.g.mem| && b.fwd[a] + 1 < |to|
    ensures to[b.fwd[a]] ==
              if Points(c.g, c.g.mem[a]) && !Live(c.g, c.roots, c.g.mem[a].datum) then GC_RECLAIMED
              else Relocate(c, b.fwd, c.g.mem[a])
    ensures Traced(c, b.fwd, to[b.fwd[a] + 1], c.g.mem[a + 1])
  {
    hide Live, AllSettled;
    assert BlockOk(c.g, a);
    SlotSettled(c, b, to, a, 0);
    SlotSettled(c, b, to, a, 1);
    if Points(c.g, c.g.mem[a + 1]) {
      assert Live(c.g, c.roots, a) && Strong(c.g, a, 1);
      LiveStrong(c.g, c.roots, a, 1);
    }
  }

  /** Tospace cell i belongs to some copy. */
  ghost predicate Covered(c: Setup, b: Book, i: nat) {
    exists a :: a in b.fwd && a in c.g.blocks && b.fwd[a] <= i < b.fwd[a] + c.g.blocks[a].size
  }

  /** Copies do not overlap, and together with the seeds they fill tospace. */
  lemma CopiesTile(c: Setup, b: Book, to: seq<Word>)
    requires Finished(c, b, to)
    ensures forall x, y | x in b.fwd && y in b.fwd && x != y ::
              b.fwd[x] + c.g.blocks[x].size <= b.fwd[y] || b.fwd[y] + c.g.blocks[y].size <= b.fwd[x]
    ensures forall i | |c.seeds| <= i < |to| :: Covered(c, b, i)
  {
    hide Live;
    forall x, y | x in b.fwd && y in b.fwd && x != y
      ensures b.fwd[x] + c.g.blocks[x].size <= b.fwd[y] || b.fwd[y] + c.g.blocks[y].size <= b.fwd[x]
    {
      assert BlockOk(c.g, x) && BlockOk(c.g, y);
      assert b.own[b.fwd[x]] == x && b.own[b.fwd[y]] == y;
    }
    forall i | |c.seeds| <= i < |to|
      ensures Covered(c, b, i)
    {
      assert b.own[i] in b.fwd;
    }
  }

  // ----- the graph -----

  /** Slot j can be read through a pointer of this type to a block with this first word. */
  predicate SlotOk(t: Tag, header: Word, j: nat) {
    match t
    case Tuple(n, _) => j < n
    case Vector(_) => !header.tag.ManifestNM? && 1 <= j <= header.datum
    case WeakCons => j < 2
    case Ephemeron => j in {EPHEMERON_KEY, EPHEMERON_DATUM}
    case _ => false
  }

  /** What slot j of object a holds once dead weak references and ephemerons are cleared. */
  function Kept(c: Setup, fwd: map<nat, nat>, a: nat, j: nat): Word
    requires a in c.g.blocks && a + j < |c.g.mem|
  {
    var o := c.g.mem[a + j];
    if c.g.blocks[a].kind.WeakKind? && j == 0 && Points(c.g, o) && o.datum !in fwd then GC_RECLAIMED
    else if IsEphemeron(c.g, a) && Broken(c, fwd, a) then SHARP_F
    else o
  }

  /** The word a path of slots leads to from word w, in the graph before the collection. */
  function FollowOld(c: Setup, fwd: map<nat, nat>, w: Word, path: seq<nat>): Option<Word>
    decreases |path|
  {
    if path == [] then Some(w)
    else if Points(c.g, w) && w.datum in c.g.blocks && w.datum + path[0] < |c.g.mem| && SlotOk(w.tag, c.g.mem[w.datum], path[0])
    then FollowOld(c, fwd, Kept(c, fwd, w.datum, path[0]), path[1..])
    else None
  }

  /** The same in newspace, from what is in memory there alone. */
  function FollowNew(start: nat, to: seq<Word>, w: Word, path: seq<nat>): Option<Word>
    decreases |path|
  {
    if path == [] then Some(w)
    else if w.tag.IsPointer() && start <= w.datum && w.datum - start + path[0] < |to| && SlotOk(w.tag, to[w.datum - start], path[0])
    then FollowNew(start, to, to[w.datum - start + path[0]], path[1..])
    else None
  }

  /** Pointers that do not point into fromspace do not point into newspace either. */
  predicate Outside(c: Setup, to: seq<Word>, w: Word) {
    w.tag.IsPointer() && !Points(c.g, w) ==> !(c.newStart <= w.datum < c.newStart + |to|)
  }

  ghost predicate AllOutside(c: Setup, to: seq<Word>) {
    && (forall w | w in c.roots :: Outside(c, to, w))
    && (forall w | w in c.g.mem :: Outside(c, to, w))
  }

  predicate Reached(c: Setup, b: Book, w: Word) {
    Points(c.g, w) ==> w.datum in b.fwd
  }

  lemma SlotInside(c: Setup, w: Word, j: nat)
    requires SetupOk(c) && Good(c.g, w) && Points(c.g, w) && SlotOk(w.tag, c.g.mem[w.datum], j)
    ensures w.datum in c.g.blocks && j < c.g.blocks[w.datum].size && !c.g.blocks[w.datum].kind.RawKind?
    ensures w.datum + j < |c.g.mem| && Good(c.g, c.g.mem[w.datum + j])
  {
    assert BlockOk(c.g, w.datum);
  }

  lemma NoSlot(c: Setup, b: Book, to: seq<Word>, w: Word, j: nat)
    requires Finished(c, b, to) && Good(c.g, w) && Points(c.g, w) && w.datum in b.fwd
    ensures w.datum in c.g.blocks && b.fwd[w.datum] < |to| && w.datum < |c.g.mem|
    ensures SlotOk(w.tag, c.g.mem[w.datum], j) <==> SlotOk(w.tag, to[b.fwd[w.datum]], j)
  {
    hide Live, Placed, AllSettled;
    assert BlockOk(c.g, w.datum);
    SlotSettled(c, b, to, w.datum, 0);
  }

  /** What a readable slot of a live object keeps is again good, and live if it points. */
  lemma KeptReached(c: Setup, b: Book, to: seq<Word>, w: Word, j: nat)
    requires Finished(c, b, to) && Good(c.g, w) && Points(c.g, w) && w.datum in b.fwd && SlotOk(w.tag, c.g.mem[w.datum], j)
    ensures w.datum in c.g.blocks && w.datum + j < |c.g.mem| && b.fwd[w.datum] + j < |to|
    ensures var o := Kept(c, b.fwd, w.datum, j);
            && Good(c.g, o) && Reached(c, b, o) && (o in c.g.mem || !o.tag.IsPointer())
            && to[b.fwd[w.datum] + j] == Relocate(c, b.fwd, o)
  {
    hide Live, Placed, AllSettled, BlockOk;
    var a := w.datum;
    SlotInside(c, w, j);
    SlotSettled(c, b, to, a, j);
    assert Live(c.g, c.roots, a);
    if Strong(c.g, a, j) && Points(c.g, c.g.mem[a + j]) {
      LiveStrong(c.g, c.roots, a, j);
    } else if IsEphemeron(c.g, a) && j == EPHEMERON_DATUM && !Broken(c, b.fwd, a) && Points(c.g, Datum(c.g, a)) {
      LiveDatum(c.g, c.roots, a);
    }
    EphemeronSlot(c, w, j);
  }

  lemma EphemeronSlot(c: Setup, w: Word, j: nat)
    requires SetupOk(c) && Good(c.g, w) && Points(c.g, w) && SlotOk(w.tag, c.g.mem[w.datum], j) && w.datum in c.g.blocks
    ensures c.g.blocks[w.datum].kind.EphemeronKind? ==> IsEphemeron(c.g, w.datum) && j in {EPHEMERON_KEY, EPHEMERON_DATUM}
    ensures Strong(c.g, w.datum, j) || c.g.blocks[w.datum].kind.EphemeronKind? || (c.g.blocks[w.datum].kind.WeakKind? && j == 0)
  {
    assert BlockOk(c.g, w.datum);
  }

  /**
   Paths lead to corresponding words: whatever a path leads to in the old graph, the same path from the
   relocated word leads to its relocated form in newspace, and it leads nowhere in newspace when it led
   nowhere before.
   */
  lemma {:induction false} SamePaths(c: Setup, b: Book, to: seq<Word>, w: Word, path: seq<nat>)
    requires Finished(c, b, to) && AllOutside(c, to)
    requires Good(c.g, w) && Reached(c, b, w) && Outside(c, to, w)
    ensures FollowNew(c.newStart, to, Relocate(c, b.fwd, w), path) ==
              match FollowOld(c, b.fwd, w, path)
              case Some(o) => Some(Relocate(c, b.fwd, o))
              case None => None
    decreases |path|
  {
    hide Live, Placed, AllSettled, SetupOk, Finished;
    if path != [] && Points(c.g, w) {
      NoSlot(c, b, to, w, path[0]);
      if SlotOk(w.tag, c.g.mem[w.datum], path[0]) {
        KeptReached(c, b, to, w, path[0]);
        SamePaths(c, b, to, Kept(c, b.fwd, w.datum, path[0]), path[1..]);
      }
    }
  }

  lemma RootReached(c: Setup, b: Book, to: seq<Word>, w: Word)
    requires Finished(c, b, to) && w in c.roots
    ensures Good(c.g, w) && Reached(c, b, w)
  {
    hide Placed, AllSettled;
    if Points(c.g, w) { LiveRoot(c.g, c.roots, w); }
  }

  /** Every path from every root is kept. */
  lemma SameGraph(c: Setup, b: Book, to: seq<Word>)
    requires Finished(c, b, to) && AllOutside(c, to)
    ensures forall w, path | w in c.roots ::
              FollowNew(c.newStart, to, Relocate(c, b.fwd, w), path) ==
              match FollowOld(c, b.fwd, w, path)
              case Some(o) => Some(Relocate(c, b.fwd, o))
              case None => None
  {
    hide Live, Placed, AllSettled, SetupOk, Finished, FollowOld, FollowNew;
    forall w, path | w in c.roots
      ensures FollowNew(c.newStart, to, Relocate(c, b.fwd, w), path) ==
                match FollowOld(c, b.fwd, w, path)
                case Some(o) => Some(Relocate(c, b.fwd, o))
                case None => None
    {
      RootReached(c, b, to, w);
      SamePaths(c, b, to, w, path);
    }
  }

  /** Sharing and cycles survive: two words name one object before exactly when they do after. */
  lemma SameSharing(c: Setup, b: Book, to: seq<Word>, w: Word, v: Word)
    requires Finished(c, b, to)
    requires Points(c.g, w) && Points(c.g, v) && w.datum in b.fwd && v.datum in b.fwd
    ensures w.datum == v.datum <==> Relocate(c, b.fwd, w).datum == Relocate(c, b.fwd, v).datum
  {
    hide Live, AllSettled;
    assert BlockOk(c.g, w.datum) && BlockOk(c.g, v.datum);
    assert b.own[b.fwd[w.datum]] == w.datum && b.own[b.fwd[v.datum]] == v.datum;
  }

  /** Lists are kept together: the tail of a pair stands right behind it, unless it was copied before the pair. */
  lemma ListsTogether(c: Setup, b: Book, to: seq<Word>)
    requires Finished(c, b, to)
    ensures forall a | a in b.fwd && a in c.g.blocks && c.g.blocks[a] == Block(TupleKind, 2) && a + 1 < |c.g.mem|
                       && c.g.mem[a + 1].tag == TC_LIST && c.g.lo <= c.g.mem[a + 1].datum < c.g.hi ::
              && c.g.mem[a + 1].datum in b.fwd
              && (b.fwd[c.g.mem[a + 1].datum] == b.fwd[a] + 2 || b.fwd[c.g.mem[a + 1].datum] <= b.fwd[a])
  {
    hide AllSettled, Live, Placed, WellFormed, TailsNear;
    forall a | a in b.fwd && HasTail(c.g, a)
      ensures c.g.mem[a + 1].datum in b.fwd
      ensures b.fwd[c.g.mem[a + 1].datum] == b.fwd[a] + 2 || b.fwd[c.g.mem[a + 1].datum] <= b.fwd[a]
    {
      TailTogether(c, b, a, c.g.mem[a + 1].datum);
    }
  }
}
