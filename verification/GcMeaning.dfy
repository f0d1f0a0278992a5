/**
 What a finished collection leaves, word by word: the definitions that the theorems use, written out.
 */
module GcMeanings {
  import opened Objects
  import opened HeapGraph
  import opened GcState
  import opened GcResult
  import opened GcRun
  import opened GcTheorems

  /**
   Slot j of a copied object. A word that points into fromspace points to the copy of the same object with the same
   type, any other word is as it was; but raw data is as it was, the car of a weak pair is the reclaimed marker when
   its object was not copied, and an ephemeron has false for its key and its datum when its key was not copied.
   */
  lemma SlotMeans(c: Setup, b: Book, to: seq<Word>, a: nat, j: nat)
    requires Finished(c, b, to) && a in b.fwd && j < c.g.blocks[a].size
    ensures b.fwd[a] + j < |to| && a + j < |c.g.mem| && a + c.g.blocks[a].size <= |c.g.mem|
    ensures c.g.blocks[a].kind.EphemeronKind? ==> c.g.blocks[a].size == 5
    ensures var o, t, kind := c.g.mem[a + j], to[b.fwd[a] + j], c.g.blocks[a].kind;
      var points := o.tag.IsPointer() && c.g.lo <= o.datum < c.g.hi;
      if kind.RawKind? then t == o
      else if kind.WeakKind? && j == 0 && points && o.datum !in b.fwd then t == Word(Immediate(8), 10)
      else if kind.EphemeronKind? && (j == 1 || j == 2) && c.g.mem[a + 1].tag.IsPointer()
              && c.g.lo <= c.g.mem[a + 1].datum < c.g.hi && c.g.mem[a + 1].datum !in b.fwd
      then t == Word(Immediate(0), 0)
      else if points then o.datum in b.fwd && t == Word(o.tag, c.newStart + b.fwd[o.datum])
      else t == o
  {
    BlockShape(c, a);
    SlotSettled(c, b, to, a, j);
    hide Finished, Points, Settled, Broken, IsEphemeron, Holds;
    if Holds(c, b.fwd, a, j) { SlotCopied(c, b, to, a, j); }
    SettledMeans(c, b.fwd, a, j, to[b.fwd[a] + j]);
  }

  lemma SettledMeans(c: Setup, fwd: map<nat, nat>, a: nat, j: nat, t: Word)
    requires SetupOk(c) && a in c.g.blocks && j < c.g.blocks[a].size && a + j < |c.g.mem|
    requires t == Settled(c, fwd, a, j)
    requires Holds(c, fwd, a, j) ==> c.g.mem[a + j].datum in fwd
    ensures a + c.g.blocks[a].size <= |c.g.mem| && (c.g.blocks[a].kind.EphemeronKind? ==> c.g.blocks[a].size == 5)
    ensures var o, kind := c.g.mem[a + j], c.g.blocks[a].kind;
      var points := o.tag.IsPointer() && c.g.lo <= o.datum < c.g.hi;
      if kind.RawKind? then t == o
      else if kind.WeakKind? && j == 0 && points && o.datum !in fwd then t == Word(Immediate(8), 10)
      else if kind.EphemeronKind? && (j == 1 || j == 2) && c.g.mem[a + 1].tag.IsPointer()
              && c.g.lo <= c.g.mem[a + 1].datum < c.g.hi && c.g.mem[a + 1].datum !in fwd
      then t == Word(Immediate(0), 0)
      else if points then o.datum in fwd && t == Word(o.tag, c.newStart + fwd[o.datum])
      else t == o
  {
    BlockShape(c, a);
    hide SetupOk;
  }

  lemma BlockShape(c: Setup, a: nat)
    requires SetupOk(c) && a in c.g.blocks
    ensures a + c.g.blocks[a].size <= |c.g.mem|
    ensures c.g.blocks[a].kind.VectorKind? ==> c.g.mem[a] == Word(TC_MANIFEST_VECTOR, c.g.blocks[a].size - 1)
    ensures c.g.blocks[a].kind.EphemeronKind? ==> c.g.blocks[a].size == EPHEMERON_SIZE && IsEphemeron(c.g, a)
    ensures c.g.blocks[a].kind.EphemeronKind? ==> c.g.mem[a] == MARKED_EPHEMERON_MANIFEST
    ensures c.g.blocks[a].kind.EphemeronKind? ==> c.g.mem[a + EPHEMERON_LIST] == c.g.mem[a + EPHEMERON_NEXT] == SHARP_F
    ensures c.g.blocks[a].kind.WeakKind? ==> c.g.blocks[a].size == 2
  {
    assert BlockOk(c.g, a);
  }

  lemma SlotLive(c: Setup, a: nat, j: nat)
    requires Live(c.g, c.roots, a) && a in c.g.blocks && j < c.g.blocks[a].size && a + j < |c.g.mem|
    requires Points(c.g, c.g.mem[a + j]) && SetupOk(c)
    requires !c.g.blocks[a].kind.RawKind? && !(c.g.blocks[a].kind.WeakKind? && j == 0)
    requires c.g.blocks[a].kind.EphemeronKind? ==>
                IsEphemeron(c.g, a) && j == EPHEMERON_DATUM
                && (Points(c.g, Key(c.g, a)) ==> Live(c.g, c.roots, Key(c.g, a).datum))
    ensures Live(c.g, c.roots, c.g.mem[a + j].datum)
  {
    BlockShape(c, a);
    hide Live, SetupOk;
    if c.g.blocks[a].kind.EphemeronKind? {
      LiveDatum(c.g, c.roots, a);
    } else {
      LiveStrong(c.g, c.roots, a, j);
    }
  }

  /** Whether what slot j points to must have been copied. */
  predicate Holds(c: Setup, fwd: map<nat, nat>, a: nat, j: nat)
    requires a in c.g.blocks && a + j < |c.g.mem|
  {
    && !c.g.blocks[a].kind.RawKind? && !(c.g.blocks[a].kind.WeakKind? && j == 0)
    && !(IsEphemeron(c.g, a) && (j == EPHEMERON_KEY || Broken(c, fwd, a))) && Points(c.g, c.g.mem[a + j])
  }

  /** What a slot keeps has been copied. */
  lemma SlotCopied(c: Setup, b: Book, to: seq<Word>, a: nat, j: nat)
    requires Finished(c, b, to) && a in b.fwd && j < c.g.blocks[a].size && a + j < |c.g.mem| && Holds(c, b.fwd, a, j)
    ensures c.g.mem[a + j].datum in b.fwd
  {
    assert SetupOk(c) && a in c.g.blocks;
    hide Live, SetupOk, Finished;
    BlockShape(c, a);
    CopiedAreLive(c, b, to, a);
    CopiedAreLive(c, b, to, c.g.mem[a + j].datum);
    if IsEphemeron(c.g, a) { CopiedAreLive(c, b, to, Key(c.g, a).datum); }
    SlotLive(c, a, j);
  }

  /** What the roots point to has been copied. */
  lemma RootsCopied(c: Setup, b: Book, to: seq<Word>, w: Word)
    requires Finished(c, b, to) && w in c.roots && w.tag.IsPointer() && c.g.lo <= w.datum < c.g.hi
    ensures w.datum in b.fwd
  {
    LiveRoot(c.g, c.roots, w);
  }

  /** The first words of tospace are the roots put there, relocated. */
  lemma SeedsRelocated(c: Setup, b: Book, to: seq<Word>, i: nat)
    requires Finished(c, b, to) && i < |c.seeds|
    ensures i < |to|
    ensures var o := c.seeds[i];
      if o.tag.IsPointer() && c.g.lo <= o.datum < c.g.hi
      then o.datum in b.fwd && to[i] == Word(o.tag, c.newStart + b.fwd[o.datum]) else to[i] == o
  {
    hide Live;
    if Points(c.g, c.seeds[i]) { LiveRoot(c.g, c.roots, c.seeds[i]); }
  }

  lemma SlotsHeld(g: Graph, s: set<nat>)
    requires forall x: nat, y: nat | x in s && x in g.blocks && x <= y < x + g.blocks[x].size && y < |g.mem|
                  && (g.blocks[x].kind.TupleKind? || (g.blocks[x].kind.VectorKind? && y > x)
                      || (g.blocks[x].kind.WeakKind? && y == x + 1))
                  && g.mem[y].tag.IsPointer() && g.lo <= g.mem[y].datum < g.hi ::
               g.mem[y].datum in s
    ensures forall a: nat, j: nat | a in s && Strong(g, a, j) && Points(g, g.mem[a + j]) :: g.mem[a + j].datum in s
  {
    forall a: nat, j: nat | a in s && Strong(g, a, j) && Points(g, g.mem[a + j])
      ensures g.mem[a + j].datum in s
    {
      var y := a + j;
      assert g.mem[y].tag.IsPointer();
    }
  }

  lemma DataHeld(g: Graph, s: set<nat>)
    requires forall e: nat {:trigger g.blocks[e]} | e in s && e in g.blocks && g.blocks[e].kind.EphemeronKind? && e + 5 <= |g.mem|
                  && (g.mem[e + 1].tag.IsPointer() && g.lo <= g.mem[e + 1].datum < g.hi
                      ==> g.mem[e + 1].datum in s)
                  && g.mem[e + 2].tag.IsPointer() && g.lo <= g.mem[e + 2].datum < g.hi ::
               g.mem[e + 2].datum in s
    ensures forall e | e in s && IsEphemeron(g, e) && (Points(g, Key(g, e)) ==> Key(g, e).datum in s)
                       && Points(g, Datum(g, e)) :: Datum(g, e).datum in s
  {
    forall e | e in s && IsEphemeron(g, e) && (Points(g, Key(g, e)) ==> Key(g, e).datum in s) && Points(g, Datum(g, e))
      ensures Datum(g, e).datum in s
    {
      assert g.mem[e + 2] == Datum(g, e) && g.mem[e + 1] == Key(g, e);
    }
  }

  /** The copied objects are the live ones. */
  lemma CopiedAreLive(c: Setup, b: Book, to: seq<Word>, a: nat)
    requires Finished(c, b, to)
    ensures a in b.fwd <==> Live(c.g, c.roots, a)
  {
    hide Live;
  }

  /**
   Nothing else is live: any set that holds what the roots point to, what its objects point to from slots that keep
   alive, and the data of its ephemerons whose keys it holds, holds all live objects.
   */
  lemma NothingElseLive(g: Graph, roots: set<Word>, s: set<nat>, a: nat)
    requires Live(g, roots, a)
    requires forall w | w in roots && w.tag.IsPointer() && g.lo <= w.datum < g.hi :: w.datum in s
    requires forall x: nat, y: nat | x in s && x in g.blocks && x <= y < x + g.blocks[x].size && y < |g.mem|
                  && (g.blocks[x].kind.TupleKind? || (g.blocks[x].kind.VectorKind? && y > x)
                      || (g.blocks[x].kind.WeakKind? && y == x + 1))
                  && g.mem[y].tag.IsPointer() && g.lo <= g.mem[y].datum < g.hi ::
               g.mem[y].datum in s
    requires forall e: nat {:trigger g.blocks[e]} | e in s && e in g.blocks && g.blocks[e].kind.EphemeronKind? && e + 5 <= |g.mem|
                  && (g.mem[e + 1].tag.IsPointer() && g.lo <= g.mem[e + 1].datum < g.hi
                      ==> g.mem[e + 1].datum in s)
                  && g.mem[e + 2].tag.IsPointer() && g.lo <= g.mem[e + 2].datum < g.hi ::
               g.mem[e + 2].datum in s
    ensures a in s
  {
    hide Live, Strong, Key, Datum, IsEphemeron, Points, Closed;
    SlotsHeld(g, s);
    DataHeld(g, s);
    InClosed(g, roots, s, a);
  }

  lemma InClosed(g: Graph, roots: set<Word>, s: set<nat>, a: nat)
    requires Live(g, roots, a)
    requires forall w | w in roots && w.tag.IsPointer() && g.lo <= w.datum < g.hi :: w.datum in s
    requires forall x: nat, j: nat | x in s && Strong(g, x, j) && Points(g, g.mem[x + j]) :: g.mem[x + j].datum in s
    requires forall e | e in s && IsEphemeron(g, e) && (Points(g, Key(g, e)) ==> Key(g, e).datum in s)
                        && Points(g, Datum(g, e)) :: Datum(g, e).datum in s
    ensures a in s
  {
    assert Closed(g, roots, s);
  }

  // ----- the root areas -----

  /** Where a scan of h stops on its way from i to end: at every word, but past the blocks that are not traced. */
  ghost predicate Stops(h: seq<Word>, i: nat, end: nat, stops: seq<nat>) {
    && stops != [] && stops[0] == i && end <= stops[|stops| - 1] && end <= |h|
    && forall k | 0 <= k < |stops| - 1 ::
         stops[k] < end && stops[k + 1] == if h[stops[k]].tag.ManifestNM? then stops[k] + 1 + h[stops[k]].datum else stops[k] + 1
  }

  /** A scan visits the words it stops at, but for the manifests. */
  lemma {:induction false} ScanVisits(h: seq<Word>, i: nat, end: nat, stops: seq<nat>, x: nat)
    requires Stops(h, i, end, stops)
    ensures x in ScanPoints(h, i, end) <==> x in stops && x < end && !h[x].tag.ManifestNM?
    decreases |stops|
  {
    if |stops| > 1 {
      StopsOn(h, i, end, stops);
      hide Stops;
      ScanVisits(h, stops[1], end, stops[1..], x);
      assert x in stops <==> x == i || x in stops[1..] by { assert stops == [stops[0]] + stops[1..]; }
    }
  }

  lemma StopsOn(h: seq<Word>, i: nat, end: nat, stops: seq<nat>)
    requires Stops(h, i, end, stops) && |stops| > 1
    ensures i == stops[0] < end <= |h| && stops[1] == if h[i].tag.ManifestNM? then i + 1 + h[i].datum else i + 1
    ensures Stops(h, stops[1], end, stops[1..])
  {
    assert stops[0 + 1] == stops[1];
    var rest := stops[1..];
    forall k | 0 <= k < |rest| - 1
      ensures rest[k] < end
      ensures rest[k + 1] == if h[rest[k]].tag.ManifestNM? then rest[k] + 1 + h[rest[k]].datum else rest[k] + 1
    {
      assert rest[k] == stops[k + 1] && rest[k + 1] == stops[(k + 1) + 1];
    }
  }

  /** Every word a scan of the root areas stops at is relocated; nothing else outside fromspace has changed. */
  lemma RootAreasRelocated(c: Setup, b: Book, to: seq<Word>, h0: seq<Word>, h: seq<Word>, s1: nat, e1: nat, s2: nat,
                           e2: nat, stops1: seq<nat>, stops2: seq<nat>, x: nat)
    requires Stops(h0, s1, e1, stops1) && Stops(h0, s2, e2, stops2)
    requires AreaScanned(c, b.fwd, h0, h, ScanPoints(h0, s1, e1) + ScanPoints(h0, s2, e2), |h0|)
    requires x < |h0| && !(c.g.lo <= x < c.g.hi)
    ensures |h| == |h0|
    ensures var o := h0[x];
      var visited := !o.tag.ManifestNM? && ((x in stops1 && x < e1) || (x in stops2 && x < e2));
      if visited && o.tag.IsPointer() && c.g.lo <= o.datum < c.g.hi
      then o.datum in b.fwd && h[x] == Word(o.tag, c.newStart + b.fwd[o.datum]) else h[x] == o
  {
    ScanVisits(h0, s1, e1, stops1, x);
    ScanVisits(h0, s2, e2, stops2, x);
  }

  /** The roots are the two words put in tospace first and the words that a scan of the root areas visits. */
  lemma RootsAre(g: Graph, fixedObjects: Word, history: Word, s1: nat, e1: nat, s2: nat, e2: nat, stops1: seq<nat>,
                 stops2: seq<nat>, w: Word)
    requires Stops(g.mem, s1, e1, stops1) && Stops(g.mem, s2, e2, stops2)
    ensures w in RootWords(g, fixedObjects, history, s1, e1, s2, e2) <==>
              || w == fixedObjects || w == history
              || (exists x :: x in stops1 && x < e1 && g.mem[x] == w && !w.tag.ManifestNM?)
              || (exists x :: x in stops2 && x < e2 && g.mem[x] == w && !w.tag.ManifestNM?)
  {
    AreaWordsAre(g, s1, e1, stops1, w);
    AreaWordsAre(g, s2, e2, stops2, w);
  }

  lemma AreaWordsAre(g: Graph, start: nat, end: nat, stops: seq<nat>, w: Word)
    requires Stops(g.mem, start, end, stops)
    ensures w in AreaWords(g, start, end) <==>
              exists x :: x in stops && x < end && g.mem[x] == w && !w.tag.ManifestNM?
  {
    forall x: nat
      ensures x in ScanPoints(g.mem, start, end) <==> x in stops && x < end && !g.mem[x].tag.ManifestNM?
    {
      ScanVisits(g.mem, start, end, stops, x);
    }
  }
}
