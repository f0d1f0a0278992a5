/**
 The image that a dump leaves: where each object was put, what was put there, and what the scan made of it.
 */
module DumpImages {
  import opened Objects
  import opened HeapGraph

  predicate IsSymbol(t: Tag) {
    t == TC_INTERNED_SYMBOL || t == TC_UNINTERNED_SYMBOL
  }

  /** What a symbol's copy has in the place of its value. */
  function SymbolValue(t: Tag): Word {
    if t == TC_INTERNED_SYMBOL then BROKEN_HEART_ZERO else UNBOUND_OBJECT
  }

  /**
   The image begins at address `start`; `place` says where in it an object is, `via` by which type it was first met,
   `envs` whether environments may be in it.
   */
  datatype Dump = Dump(start: nat, envs: bool, place: map<nat, nat>, via: map<nat, Tag>)

  ghost predicate Extends(d: Dump, d': Dump) {
    && d'.start == d.start && d'.envs == d.envs
    && forall a | a in d.place :: a in d'.place && d'.place[a] == d.place[a]
  }

  /** The words put for an object: for a symbol, its name and no value. */
  function CopyOf(g: Graph, t: Tag, a: nat): (s: seq<Word>)
    requires a in g.blocks && a + g.blocks[a].size <= |g.mem|
    ensures |s| == g.blocks[a].size
  {
    if IsSymbol(t) && g.blocks[a].size == 2 then [g.mem[a], SymbolValue(t)] else g.mem[a..a + g.blocks[a].size]
  }

  /** The word that stands for w in the image. */
  predicate ForwardedTo(d: Dump, w: Word, r: Word) {
    if w.tag.IsPointer() then
      w.datum in d.place && r == Word(w.tag, d.start + d.place[w.datum]) && (w.tag == TC_ENVIRONMENT ==> d.envs)
    else r == w
  }

  /** A scan of s from i comes to p. */
  ghost predicate Parses(s: seq<Word>, i: nat, p: nat)
    decreases |s| - i
  {
    i == p || (i < |s| && Parses(s, if s[i].tag.ManifestNM? then i + 1 + s[i].datum else i + 1, p))
  }

  lemma {:induction false} ParsesLonger(s: seq<Word>, t: seq<Word>, i: nat, p: nat)
    requires Parses(s, i, p)
    ensures Parses(s + t, i, p)
    decreases |s| - i
  {
    if i != p {
      ParsesLonger(s, t, if s[i].tag.ManifestNM? then i + 1 + s[i].datum else i + 1, p);
    }
  }

  lemma {:induction false} ParsesShift(s: seq<Word>, t: seq<Word>, i: nat, p: nat)
    requires Parses(t, i, p)
    ensures Parses(s + t, |s| + i, |s| + p)
    decreases |t| - i
  {
    if i != p {
      assert (s + t)[|s| + i] == t[i];
      ParsesShift(s, t, if t[i].tag.ManifestNM? then i + 1 + t[i].datum else i + 1, p);
    }
  }

  lemma {:induction false} ParsesJoin(s: seq<Word>, i: nat, j: nat, k: nat)
    requires Parses(s, i, j) && Parses(s, j, k)
    ensures Parses(s, i, k)
    decreases |s| - i
  {
    if i != j {
      ParsesJoin(s, if s[i].tag.ManifestNM? then i + 1 + s[i].datum else i + 1, j, k);
    }
  }

  lemma ParsesAppend(s: seq<Word>, t: seq<Word>)
    requires Parses(s, 0, |s|) && Parses(t, 0, |t|)
    ensures Parses(s + t, 0, |s + t|)
  {
    hide Parses;
    ParsesLonger(s, t, 0, |s|);
    ParsesShift(s, t, 0, |t|);
    ParsesJoin(s + t, 0, |s|, |s| + |t|);
  }

  lemma {:induction false} ParsesForward(s: seq<Word>, i: nat, p: nat)
    requires Parses(s, i, p)
    ensures i <= p
    decreases |s| - i
  {
    if i != p {
      ParsesForward(s, if s[i].tag.ManifestNM? then i + 1 + s[i].datum else i + 1, p);
    }
  }

  /** A scan that comes to p and to q comes to the farther one from the nearer one. */
  lemma {:induction false} ParsesOn(s: seq<Word>, i: nat, p: nat, q: nat)
    requires Parses(s, i, p) && Parses(s, i, q) && p <= q
    ensures Parses(s, p, q)
    decreases |s| - i
  {
    if i != p {
      ParsesForward(s, i, p);
      ParsesOn(s, if s[i].tag.ManifestNM? then i + 1 + s[i].datum else i + 1, p, q);
    }
  }

  /** A scan never stops inside a block it skips. */
  lemma ParsesSkips(s: seq<Word>, p: nat, q: nat)
    requires Parses(s, 0, p) && Parses(s, 0, q) && p < q && p < |s| && s[p].tag.ManifestNM?
    ensures p + 1 + s[p].datum <= q
  {
    ParsesOn(s, 0, p, q);
    ParsesForward(s, p + 1 + s[p].datum, q);
  }

  /** The scan of s meets w. */
  ghost predicate Met(s: seq<Word>, w: Word) {
    exists i :: 0 <= i < |s| && s[i] == w && Parses(s, 0, i)
  }

  // ----- what was put where -----

  /** Object a was put for a word that the scan met before it. */
  ghost predicate PutAt(g: Graph, d: Dump, was: seq<Word>, a: nat)
    requires a in d.place
  {
    && a in g.blocks && BlockOk(g, a) && a in d.via && Fits(d.via[a], g.blocks[a])
    && 1 <= d.place[a] && d.place[a] + g.blocks[a].size <= |was|
    && was[d.place[a]..d.place[a] + g.blocks[a].size] == CopyOf(g, d.via[a], a)
    && Parses(was, 0, d.place[a]) && Met(was[..d.place[a]], Word(d.via[a], a))
  }

  ghost predicate Covered(g: Graph, d: Dump, i: nat) {
    exists a :: a in d.place && a in g.blocks && d.place[a] <= i < d.place[a] + g.blocks[a].size
  }

  /** No two objects share a word of the image. */
  ghost predicate Disjoint(g: Graph, d: Dump) {
    forall a, b | a in d.place && b in d.place && a != b && a in g.blocks && b in g.blocks ::
      d.place[a] + g.blocks[a].size <= d.place[b] || d.place[b] + g.blocks[b].size <= d.place[a]
  }

  ghost predicate AllPut(g: Graph, d: Dump, was: seq<Word>) {
    forall a | a in d.place :: PutAt(g, d, was, a)
  }

  /** The root and then the objects, one after the other, each once. */
  ghost predicate Laid(g: Graph, root: Word, d: Dump, was: seq<Word>) {
    && |was| >= 1 && was[0] == root && Parses(was, 0, |was|)
    && AllPut(g, d, was) && Disjoint(g, d)
    && (forall i | 1 <= i < |was| :: Covered(g, d, i))
  }

  lemma FirstLaid(g: Graph, root: Word, start: nat, envs: bool)
    requires !root.tag.ManifestNM?
    ensures Laid(g, root, Dump(start, envs, map[], map[]), [root])
  {
    assert Parses([root], 1, 1);
  }

  function Put(g: Graph, d: Dump, was: seq<Word>, t: Tag, a: nat): Dump {
    d.(place := d.place[a := |was|], via := d.via[a := t])
  }

  /** The words of an object can be scanned. */
  lemma CopyParses(g: Graph, t: Tag, a: nat)
    requires a in g.blocks && BlockOk(g, a) && Fits(t, g.blocks[a])
    ensures Parses(CopyOf(g, t, a), 0, |CopyOf(g, t, a)|)
  {
    var s := CopyOf(g, t, a);
    if g.blocks[a].kind.RawKind? {
      assert s[0] == Word(ManifestNM, |s| - 1);
      assert Parses(s, |s|, |s|);
    } else {
      forall k | 0 <= k < |s|
        ensures !s[k].tag.ManifestNM?
      {
        assert s[k] == g.mem[a + k] || s[k] == SymbolValue(t);
        assert g.blocks[a].kind.VectorKind? || g.blocks[a].kind.EphemeronKind? || Good(g, g.mem[a + k]);
        assert k > 0 ==> Good(g, g.mem[a + k]);
      }
      PlainParses(s, 0);
    }
  }

  lemma {:induction false} PlainParses(s: seq<Word>, i: nat)
    requires i <= |s| && forall k | i <= k < |s| :: !s[k].tag.ManifestNM?
    ensures Parses(s, i, |s|)
    decreases |s| - i
  {
    if i < |s| {
      PlainParses(s, i + 1);
    }
  }

  lemma PutStays(g: Graph, d: Dump, was: seq<Word>, d': Dump, more: seq<Word>, a: nat)
    requires a in d.place && PutAt(g, d, was, a)
    requires a in d'.place && d'.place[a] == d.place[a] && a in d'.via && d'.via[a] == d.via[a]
    ensures PutAt(g, d', was + more, a)
  {
    hide Parses, BlockOk;
    ParsesLonger(was, more, 0, d.place[a]);
    var p, n := d.place[a], g.blocks[a].size;
    assert (was + more)[p..p + n] == was[p..p + n] && (was + more)[..p] == was[..p];
  }

  lemma PutNew(g: Graph, d: Dump, was: seq<Word>, t: Tag, a: nat)
    requires Parses(was, 0, |was|) && |was| >= 1
    requires a in g.blocks && BlockOk(g, a) && Fits(t, g.blocks[a]) && Met(was, Word(t, a))
    ensures PutAt(g, Put(g, d, was, t, a), was + CopyOf(g, t, a), a)
    ensures Parses(was + CopyOf(g, t, a), 0, |was + CopyOf(g, t, a)|)
  {
    assert g.blocks[a].size >= 1 && a + g.blocks[a].size <= |g.mem|;
    hide Parses, CopyOf, BlockOk;
    var s := CopyOf(g, t, a);
    assert (was + s)[|was|..|was| + |s|] == s && (was + s)[..|was|] == was;
    CopyParses(g, t, a);
    ParsesLonger(was, s, 0, |was|);
    ParsesAppend(was, s);
  }

  lemma PutAllPut(g: Graph, root: Word, d: Dump, was: seq<Word>, t: Tag, a: nat)
    requires Laid(g, root, d, was) && a !in d.place
    requires a in g.blocks && BlockOk(g, a) && Fits(t, g.blocks[a]) && Met(was, Word(t, a))
    ensures AllPut(g, Put(g, d, was, t, a), was + CopyOf(g, t, a))
  {
    assert a + g.blocks[a].size <= |g.mem|;
    hide Parses, BlockOk, CopyOf, PutAt, Disjoint;
    var d' := Put(g, d, was, t, a);
    forall x | x in d'.place
      ensures PutAt(g, d', was + CopyOf(g, t, a), x)
    {
      if x == a {
        PutNew(g, d, was, t, a);
      } else {
        PutIs(g, root, d, was, x);
        PutStays(g, d, was, d', CopyOf(g, t, a), x);
      }
    }
  }

  lemma PutDisjoint(g: Graph, root: Word, d: Dump, was: seq<Word>, t: Tag, a: nat)
    requires Laid(g, root, d, was) && a !in d.place && a in g.blocks
    ensures Disjoint(g, Put(g, d, was, t, a))
  {
    hide Parses, PutAt, AllPut;
    var d' := Put(g, d, was, t, a);
    forall x, y | x in d'.place && y in d'.place && x != y && x in g.blocks && y in g.blocks
      ensures d'.place[x] + g.blocks[x].size <= d'.place[y] || d'.place[y] + g.blocks[y].size <= d'.place[x]
    {
      if x == a { PutIs(g, root, d, was, y); } else { PutIs(g, root, d, was, x); }
    }
  }

  /** Putting one more object. */
  lemma PutKeeps(g: Graph, root: Word, d: Dump, was: seq<Word>, t: Tag, a: nat)
    requires Laid(g, root, d, was) && a !in d.place
    requires a in g.blocks && BlockOk(g, a) && Fits(t, g.blocks[a]) && Met(was, Word(t, a))
    ensures Laid(g, root, Put(g, d, was, t, a), was + CopyOf(g, t, a))
    ensures Extends(d, Put(g, d, was, t, a))
  {
    assert a + g.blocks[a].size <= |g.mem|;
    hide Parses, BlockOk, CopyOf, PutAt, Covered, Disjoint, AllPut;
    PutNew(g, d, was, t, a);
    PutAllPut(g, root, d, was, t, a);
    PutDisjoint(g, root, d, was, t, a);
    forall i | 1 <= i < |was| + g.blocks[a].size
      ensures Covered(g, Put(g, d, was, t, a), i)
    {
      PutCovers(g, root, d, was, t, a, i);
    }
  }

  lemma PutCovers(g: Graph, root: Word, d: Dump, was: seq<Word>, t: Tag, a: nat, i: nat)
    requires Laid(g, root, d, was) && a in g.blocks && a !in d.place && 1 <= i < |was| + g.blocks[a].size
    ensures Covered(g, Put(g, d, was, t, a), i)
  {
    hide PutAt, Parses;
    var d' := Put(g, d, was, t, a);
    if i < |was| {
      assert Covered(g, d, i);
      var x :| x in d.place && x in g.blocks && d.place[x] <= i < d.place[x] + g.blocks[x].size;
      assert x in d'.place && d'.place[x] == d.place[x];
    } else {
      assert a in d'.place;
    }
  }

  lemma PutIs(g: Graph, root: Word, d: Dump, was: seq<Word>, a: nat)
    requires Laid(g, root, d, was) && a in d.place
    ensures PutAt(g, d, was, a) && a in g.blocks && a in d.via && d.place[a] + g.blocks[a].size <= |was|
    ensures 1 <= g.blocks[a].size
  {
  }

  // ----- what the scan made of it -----

  /** The words of `was` from i to end have been scanned, and those of `to` are what became of them. */
  ghost predicate ScannedAs(d: Dump, was: seq<Word>, to: seq<Word>, i: nat, end: nat)
    decreases |was| - i
  {
    && |to| == |was| && i <= end <= |was|
    && (i == end
        || if was[i].tag.ManifestNM? then
             var k := i + 1 + was[i].datum;
             k <= end && to[i..k] == was[i..k] && ScannedAs(d, was, to, k, end)
           else
             ForwardedTo(d, was[i], to[i]) && ScannedAs(d, was, to, i + 1, end))
  }

  lemma {:induction false} ScannedStays(d: Dump, was: seq<Word>, to: seq<Word>, d': Dump, was': seq<Word>, to': seq<Word>,
                                      i: nat, end: nat)
    requires ScannedAs(d, was, to, i, end) && Extends(d, d') && was <= was' && |to'| == |was'|
    requires forall k | i <= k < end && k < |to| :: to'[k] == to[k]
    ensures ScannedAs(d', was', to', i, end)
    decreases |was| - i
  {
    if i < end {
      assert was'[i] == was[i];
      if was[i].tag.ManifestNM? {
        var k := i + 1 + was[i].datum;
        assert to'[i..k] == to[i..k] && was'[i..k] == was[i..k];
        ScannedStays(d, was, to, d', was', to', k, end);
      } else {
        ScannedStays(d, was, to, d', was', to', i + 1, end);
      }
    }
  }

  lemma {:induction false} ScannedJoin(d: Dump, was: seq<Word>, to: seq<Word>, i: nat, j: nat, k: nat)
    requires ScannedAs(d, was, to, i, j) && ScannedAs(d, was, to, j, k)
    ensures ScannedAs(d, was, to, i, k)
    decreases |was| - i
  {
    if i < j {
      ScannedJoin(d, was, to, if was[i].tag.ManifestNM? then i + 1 + was[i].datum else i + 1, j, k);
    }
  }

  lemma {:induction false} ScannedParses(d: Dump, was: seq<Word>, to: seq<Word>, i: nat, end: nat)
    requires ScannedAs(d, was, to, i, end)
    ensures Parses(was, i, end)
    decreases |was| - i
  {
    if i < end {
      ScannedParses(d, was, to, if was[i].tag.ManifestNM? then i + 1 + was[i].datum else i + 1, end);
    }
  }

  /** One more word scanned. */
  lemma ScannedWord(d: Dump, was: seq<Word>, to: seq<Word>, end: nat)
    requires ScannedAs(d, was, to, 0, end) && end < |was|
    requires !was[end].tag.ManifestNM? && ForwardedTo(d, was[end], to[end])
    ensures ScannedAs(d, was, to, 0, end + 1)
  {
    assert ScannedAs(d, was, to, end, end + 1);
    ScannedJoin(d, was, to, 0, end, end + 1);
  }

  /** One more block skipped. */
  lemma ScannedSkip(d: Dump, was: seq<Word>, to: seq<Word>, end: nat)
    requires ScannedAs(d, was, to, 0, end) && end < |was| && was[end].tag.ManifestNM?
    requires end + 1 + was[end].datum <= |was| && to[end..] == was[end..]
    ensures ScannedAs(d, was, to, 0, end + 1 + was[end].datum)
  {
    var k := end + 1 + was[end].datum;
    assert to[end..k] == to[end..][..k - end] && was[end..k] == was[end..][..k - end];
    assert ScannedAs(d, was, to, end, k);
    ScannedJoin(d, was, to, 0, end, k);
  }

  /** A scan that has come by p has scanned what is from p on. */
  lemma {:induction false} ScannedFrom(d: Dump, was: seq<Word>, to: seq<Word>, i: nat, p: nat, end: nat)
    requires ScannedAs(d, was, to, i, end) && Parses(was, i, p) && p <= end
    ensures ScannedAs(d, was, to, p, end)
    decreases |was| - i
  {
    if i != p {
      ParsesForward(was, if was[i].tag.ManifestNM? then i + 1 + was[i].datum else i + 1, p);
      ScannedFrom(d, was, to, if was[i].tag.ManifestNM? then i + 1 + was[i].datum else i + 1, p, end);
    }
  }

  /** Words without manifests are forwarded one by one. */
  lemma {:induction false} PlainScanned(d: Dump, was: seq<Word>, to: seq<Word>, p: nat, k: nat, end: nat)
    requires ScannedAs(d, was, to, p, end) && p + k < end
    requires forall j | p <= j <= p + k && j < |was| :: !was[j].tag.ManifestNM?
    ensures ForwardedTo(d, was[p + k], to[p + k])
    decreases k
  {
    if k > 0 {
      PlainScanned(d, was, to, p + 1, k - 1, end);
    }
  }

  // ----- the image -----

  /** Slot k of object a, in the image. */
  ghost predicate SlotDumped(g: Graph, d: Dump, to: seq<Word>, a: nat, k: nat)
    requires a in d.place && a in g.blocks && a in d.via && k < g.blocks[a].size
  {
    && a + k < |g.mem| && d.place[a] + k < |to|
    && if g.blocks[a].kind.RawKind? then to[d.place[a] + k] == g.mem[a + k]
       else if IsSymbol(d.via[a]) && g.blocks[a].size == 2 && k == 1 then to[d.place[a] + k] == SymbolValue(d.via[a])
       else ForwardedTo(d, g.mem[a + k], to[d.place[a] + k])
  }

  /** Slot k of object b is one that the image keeps: not in raw data, and not a symbol's value. */
  predicate Kept(g: Graph, d: Dump, b: nat, k: nat) {
    && b in d.place && b in g.blocks && b in d.via && k < g.blocks[b].size && b + k < |g.mem|
    && !g.blocks[b].kind.RawKind? && !(IsSymbol(d.via[b]) && g.blocks[b].size == 2 && k == 1)
  }

  /** Object a is in the image because the root, or a slot of an object put before it, points to it. */
  ghost predicate Reached(g: Graph, root: Word, d: Dump, a: nat)
    requires a in d.place && a in d.via
  {
    || root == Word(d.via[a], a)
    || exists b, k :: Kept(g, d, b, k) && d.place[b] < d.place[a] && g.mem[b + k] == Word(d.via[a], a)
  }

  /**
   The image is the root and the objects reached from it, each once and without overlap, with every pointer leading
   to the place of the object that it led to before; only symbols have lost their values.
   */
  ghost predicate ImageOf(g: Graph, root: Word, d: Dump, to: seq<Word>) {
    && |to| >= 1 && ForwardedTo(d, root, to[0])
    && (forall a | a in d.place :: a in g.blocks && a in d.via && Fits(d.via[a], g.blocks[a]) && Reached(g, root, d, a))
    && (forall a, k: nat | a in d.place && a in g.blocks && a in d.via && k < g.blocks[a].size :: SlotDumped(g, d, to, a, k))
    && Disjoint(g, d) && (forall i | 1 <= i < |to| :: Covered(g, d, i))
  }

  lemma ObjectDumped(g: Graph, root: Word, d: Dump, was: seq<Word>, to: seq<Word>, a: nat, k: nat)
    requires Laid(g, root, d, was) && ScannedAs(d, was, to, 0, |was|)
    requires a in d.place && a in g.blocks && a in d.via && k < g.blocks[a].size
    ensures SlotDumped(g, d, to, a, k)
  {
    hide ScannedAs, Parses, BlockOk, CopyOf, Fits, Laid;
    PutIs(g, root, d, was, a);
    var p, n := d.place[a], g.blocks[a].size;
    ScannedFrom(d, was, to, 0, p, |was|);
    PutWord(g, d, was, a, k);
    if g.blocks[a].kind.RawKind? {
      PutWord(g, d, was, a, 0);
      RawScanned(d, was, to, p, |was|);
      assert to[p..p + n][k] == was[p..p + n][k];
    } else {
      forall j | p <= j <= p + k && j < |was|
        ensures !was[j].tag.ManifestNM?
      {
        PutWord(g, d, was, a, j - p);
      }
      PlainScanned(d, was, to, p, k, |was|);
    }
  }

  /** Word k of what was put for object a. */
  lemma PutWord(g: Graph, d: Dump, was: seq<Word>, a: nat, k: nat)
    requires a in d.place && PutAt(g, d, was, a) && k < g.blocks[a].size
    ensures a + k < |g.mem| && d.place[a] + k < |was|
    ensures was[d.place[a] + k] ==
              if IsSymbol(d.via[a]) && g.blocks[a].size == 2 && k == 1 then SymbolValue(d.via[a]) else g.mem[a + k]
    ensures !g.blocks[a].kind.RawKind? ==> !was[d.place[a] + k].tag.ManifestNM?
    ensures g.blocks[a].kind.RawKind? ==> !(IsSymbol(d.via[a]) && g.blocks[a].size == 2)
    ensures g.blocks[a].kind.RawKind? && k == 0 ==> was[d.place[a]] == Word(ManifestNM, g.blocks[a].size - 1)
  {
    var p, n := d.place[a], g.blocks[a].size;
    assert was[p..p + n][k] == was[p + k];
    if !g.blocks[a].kind.RawKind? { PlainWords(g, d.via[a], a, k); }
  }

  lemma PlainWords(g: Graph, t: Tag, a: nat, j: nat)
    requires a in g.blocks && BlockOk(g, a) && Fits(t, g.blocks[a]) && !g.blocks[a].kind.RawKind? && j < g.blocks[a].size
    ensures !CopyOf(g, t, a)[j].tag.ManifestNM?
  {
    assert j > 0 ==> Good(g, g.mem[a + j]);
    assert g.blocks[a].kind.VectorKind? || g.blocks[a].kind.EphemeronKind? || Good(g, g.mem[a + j]);
  }

  lemma RawScanned(d: Dump, was: seq<Word>, to: seq<Word>, p: nat, end: nat)
    requires ScannedAs(d, was, to, p, end) && p < end && was[p].tag.ManifestNM?
    ensures p + 1 + was[p].datum <= |was| == |to|
    ensures to[p..p + 1 + was[p].datum] == was[p..p + 1 + was[p].datum]
  {
  }

  /** A pointer that the scan meets in what was put for object b is that of a kept slot of b. */
  lemma MetInKept(g: Graph, d: Dump, was: seq<Word>, b: nat, i: nat)
    requires b in d.place && PutAt(g, d, was, b) && d.place[b] <= i < d.place[b] + g.blocks[b].size
    requires i < |was| && Parses(was, 0, i) && was[i].tag.IsPointer()
    ensures Kept(g, d, b, i - d.place[b]) && g.mem[b + (i - d.place[b])] == was[i]
  {
    hide Parses, BlockOk, CopyOf, Met;
    PutWord(g, d, was, b, i - d.place[b]);
    PutWord(g, d, was, b, 0);
    if g.blocks[b].kind.RawKind? && d.place[b] < i {
      ParsesSkips(was, d.place[b], i);
    }
  }

  lemma PlacedReached(g: Graph, root: Word, d: Dump, was: seq<Word>, a: nat)
    requires Laid(g, root, d, was) && a in d.place
    ensures a in g.blocks && a in d.via && Fits(d.via[a], g.blocks[a]) && Reached(g, root, d, a)
  {
    hide Parses, BlockOk, CopyOf, Kept, PutAt, Disjoint, AllPut;
    PutIs(g, root, d, was, a);
    PutMet(g, d, was, a);
    var before := was[..d.place[a]];
    var i :| 0 <= i < |before| && before[i] == Word(d.via[a], a) && Parses(before, 0, i);
    if i > 0 {
      assert Covered(g, d, i);
      var b :| b in d.place && b in g.blocks && d.place[b] <= i < d.place[b] + g.blocks[b].size;
      PutIs(g, root, d, was, b);
      assert was == before + was[d.place[a]..];
      ParsesLonger(before, was[d.place[a]..], 0, i);
      MetInKept(g, d, was, b, i);
    }
  }

  lemma PutMet(g: Graph, d: Dump, was: seq<Word>, a: nat)
    requires a in d.place && PutAt(g, d, was, a)
    ensures a in d.via && Fits(d.via[a], g.blocks[a]) && d.via[a].IsPointer()
    ensures d.place[a] <= |was| && Met(was[..d.place[a]], Word(d.via[a], a))
  {
  }

  lemma ImageMade(g: Graph, root: Word, d: Dump, was: seq<Word>, to: seq<Word>)
    requires Laid(g, root, d, was) && ScannedAs(d, was, to, 0, |was|) && !root.tag.ManifestNM?
    ensures ImageOf(g, root, d, to)
  {
    hide SlotDumped, Fits, BlockOk, Reached, AllPut, Disjoint, Covered, Parses, ForwardedTo;
    forall a | a in d.place
      ensures a in g.blocks && a in d.via && Fits(d.via[a], g.blocks[a]) && Reached(g, root, d, a)
    {
      PlacedReached(g, root, d, was, a);
    }
    forall a, k: nat | a in d.place && a in g.blocks && a in d.via && k < g.blocks[a].size
      ensures SlotDumped(g, d, to, a, k)
    {
      ObjectDumped(g, root, d, was, to, a, k);
    }
  }

  /** Slot k of a dumped object, in the image. */
  lemma DumpedSlot(g: Graph, root: Word, d: Dump, to: seq<Word>, a: nat, k: nat)
    requires ImageOf(g, root, d, to) && a in d.place && a in g.blocks && k < g.blocks[a].size
    ensures a in d.via && a + k < |g.mem| && d.place[a] + k < |to|
    ensures var o, t := g.mem[a + k], to[d.place[a] + k];
      if g.blocks[a].kind.RawKind? then t == o
      else if d.via[a] == Tuple(2, 0x1D) && k == 1 then t == Word(BrokenHeart, 0)
      else if d.via[a] == Tuple(2, 0x05) && k == 1 then t == Word(Immediate(0x32), 1)
      else if o.tag.IsPointer()
      then o.datum in d.place && t == Word(o.tag, d.start + d.place[o.datum]) && (o.tag == Vector(0x12) ==> d.envs)
      else t == o
  {
    hide Disjoint, Covered, Reached;
    assert SlotDumped(g, d, to, a, k);
  }

  /** The words that a dump of the root must meet: it follows pointers, but not to the value of a symbol. */
  ghost predicate ClosedWords(g: Graph, root: Word, words: set<Word>) {
    && root in words
    && forall w, y: nat | w in words && w.tag.IsPointer() && w.datum in g.blocks && y < |g.mem|
                          && w.datum <= y < w.datum + g.blocks[w.datum].size && !g.blocks[w.datum].kind.RawKind?
                          && !(IsSymbol(w.tag) && y == w.datum + 1) ::
         g.mem[y] in words
  }

  lemma WordIn(g: Graph, root: Word, words: set<Word>, t: Tag, b: nat, k: nat)
    requires ClosedWords(g, root, words) && Word(t, b) in words && t.IsPointer() && b in g.blocks
    requires k < g.blocks[b].size && b + k < |g.mem| && !g.blocks[b].kind.RawKind? && !(IsSymbol(t) && k == 1)
    ensures g.mem[b + k] in words
  {
    var w, y: nat := Word(t, b), b + k;
    assert w in words && g.mem[y] == g.mem[b + k];
  }

  /** Nothing is in the image that the root does not reach. */
  lemma {:induction false} ImageLeast(g: Graph, root: Word, d: Dump, to: seq<Word>, words: set<Word>, a: nat)
    requires ImageOf(g, root, d, to) && a in d.place && a in d.via
    requires ClosedWords(g, root, words)
    ensures Word(d.via[a], a) in words
    decreases d.place[a]
  {
    hide SlotDumped, Disjoint, Covered, ClosedWords;
    assert Reached(g, root, d, a);
    if root != Word(d.via[a], a) {
      var b, k :| Kept(g, d, b, k) && d.place[b] < d.place[a] && g.mem[b + k] == Word(d.via[a], a);
      ImageLeast(g, root, d, to, words, b);
      WordIn(g, root, words, d.via[b], b, k);
    } else {
      RootIn(g, root, words);
    }
  }

  lemma RootIn(g: Graph, root: Word, words: set<Word>)
    requires ClosedWords(g, root, words)
    ensures root in words
  {
  }

  // ----- lists kept together -----

  /** Whether a is a pair, and not dumped as a symbol, whose tail starts with a pair. */
  predicate HasTail(g: Graph, d: Dump, a: nat) {
    && a in d.place && a in d.via && a in g.blocks && g.blocks[a].size == 2 && a + 1 < |g.mem|
    && (g.blocks[a].kind.TupleKind? || g.blocks[a].kind.WeakKind?) && !IsSymbol(d.via[a])
    && g.mem[a + 1].tag == TC_LIST
  }

  /** The tail's first pair is right behind a in the image, or was put before. */
  predicate TailNear(g: Graph, d: Dump, a: nat)
    requires HasTail(g, d, a)
  {
    g.mem[a + 1].datum in d.place && d.place[g.mem[a + 1].datum] <= d.place[a] + 2
  }

  /** The pairs put, but for `pending`, have their tails near. */
  ghost predicate TailsNear(g: Graph, d: Dump, pending: set<nat>) {
    forall a | HasTail(g, d, a) && a !in pending :: TailNear(g, d, a)
  }

  /** The last object put is the pair a. */
  predicate LastPut(g: Graph, d: Dump, was: seq<Word>, a: nat) {
    && a in d.place && a in g.blocks && g.blocks[a].size == 2 && a + 1 < |g.mem| && d.place[a] + 2 == |was|
  }

  lemma NoneNear(g: Graph, start: nat, envs: bool)
    ensures TailsNear(g, Dump(start, envs, map[], map[]), {})
  {
  }

  lemma FirstPending(g: Graph, d: Dump, was: seq<Word>, t: Tag, a: nat)
    requires TailsNear(g, d, {}) && a !in d.place && a in g.blocks
    ensures TailsNear(g, Put(g, d, was, t, a), {a})
    ensures g.blocks[a].size != 2 || IsSymbol(t) || !(g.blocks[a].kind.TupleKind? || g.blocks[a].kind.WeakKind?)
            ==> TailsNear(g, Put(g, d, was, t, a), {})
    ensures g.blocks[a].size == 2 && a + 1 < |g.mem| ==> LastPut(g, Put(g, d, was, t, a), was + CopyOf(g, t, a), a)
  {
    var d' := Put(g, d, was, t, a);
    forall x | HasTail(g, d', x) && x != a
      ensures TailNear(g, d', x)
    {
      assert HasTail(g, d, x) && TailNear(g, d, x);
    }
  }

  /** The pending pair's tail is put right behind it. */
  lemma NextPending(g: Graph, d: Dump, was: seq<Word>, last: nat, a: nat)
    requires TailsNear(g, d, {last}) && LastPut(g, d, was, last) && g.mem[last + 1] == Word(TC_LIST, a)
    requires a !in d.place && a in g.blocks && g.blocks[a].size == 2 && a + 2 <= |g.mem|
    ensures TailsNear(g, Put(g, d, was, TC_LIST, a), {a})
    ensures LastPut(g, Put(g, d, was, TC_LIST, a), was + CopyOf(g, TC_LIST, a), a)
  {
    var d' := Put(g, d, was, TC_LIST, a);
    forall x | HasTail(g, d', x) && x != a
      ensures TailNear(g, d', x)
    {
      assert HasTail(g, d, x);
      if x != last { assert TailNear(g, d, x); }
    }
  }

  /** Nothing is pending when the last pair's tail is none or was put before. */
  lemma NothingPending(g: Graph, root: Word, d: Dump, was: seq<Word>, last: nat)
    requires Laid(g, root, d, was) && TailsNear(g, d, {last}) && LastPut(g, d, was, last)
    requires g.mem[last + 1].tag == TC_LIST ==> g.mem[last + 1].datum in d.place
    ensures TailsNear(g, d, {})
  {
    hide Parses, PutAt, Disjoint, Covered;
    if HasTail(g, d, last) {
      PutIs(g, root, d, was, g.mem[last + 1].datum);
    }
  }

  /** In the image the tail of a pair stands right behind the pair, or before it. */
  lemma DumpedTail(g: Graph, root: Word, d: Dump, to: seq<Word>, a: nat)
    requires ImageOf(g, root, d, to) && TailsNear(g, d, {})
    requires a in d.place && a in g.blocks && g.blocks[a].size == 2 && a + 1 < |g.mem|
    requires g.blocks[a].kind.TupleKind? || g.blocks[a].kind.WeakKind?
    requires g.mem[a + 1].tag == TC_LIST && a in d.via && d.via[a] !in {Tuple(2, 0x1D), Tuple(2, 0x05)}
    ensures var tail := g.mem[a + 1].datum;
      tail in d.place && (d.place[tail] == d.place[a] + 2 || d.place[tail] <= d.place[a])
  {
    hide SlotDumped, Covered, Reached;
    assert HasTail(g, d, a) && TailNear(g, d, a);
    assert g.mem[a + 1].datum in g.blocks;
  }

  // ----- what must be met, and the room it takes -----

  /** Pointers that the scan meets are among the words that it must meet. */
  lemma {:induction false} MetAmong(g: Graph, root: Word, d: Dump, was: seq<Word>, words: set<Word>, i: nat)
    requires Laid(g, root, d, was) && ClosedWords(g, root, words) && i < |was| && Parses(was, 0, i)
    requires was[i].tag.IsPointer()
    ensures was[i] in words
    decreases i
  {
    hide Parses, BlockOk, CopyOf, Kept, PutAt, Disjoint, AllPut, ClosedWords;
    if i == 0 {
      RootIn(g, root, words);
    } else {
      assert Covered(g, d, i);
      var b :| b in d.place && b in g.blocks && d.place[b] <= i < d.place[b] + g.blocks[b].size;
      PutIs(g, root, d, was, b);
      MetInKept(g, d, was, b, i);
      PlacedAmong(g, root, d, was, words, b, i);
      KeptIs(g, d, b, i - d.place[b]);
      WordIn(g, root, words, d.via[b], b, i - d.place[b]);
    }
  }

  lemma KeptIs(g: Graph, d: Dump, b: nat, k: nat)
    requires Kept(g, d, b, k) && Fits(d.via[b], g.blocks[b])
    ensures b in g.blocks && k < g.blocks[b].size && b + k < |g.mem| && !g.blocks[b].kind.RawKind?
    ensures !(IsSymbol(d.via[b]) && k == 1)
  {
  }

  /** The pointer that a placed object was put for, which was met before it. */
  lemma {:induction false} PlacedAmong(g: Graph, root: Word, d: Dump, was: seq<Word>, words: set<Word>, a: nat, bound: nat)
    requires Laid(g, root, d, was) && ClosedWords(g, root, words) && a in d.place && d.place[a] <= bound
    ensures a in d.via && a in g.blocks && Fits(d.via[a], g.blocks[a]) && Word(d.via[a], a) in words
    decreases bound, 1
  {
    hide Parses, BlockOk, CopyOf, Kept, PutAt, Disjoint, AllPut, ClosedWords, Covered;
    PutIs(g, root, d, was, a);
    PutMet(g, d, was, a);
    var p := d.place[a];
    var before := was[..p];
    var i :| 0 <= i < |before| && before[i] == Word(d.via[a], a) && Parses(before, 0, i);
    assert was == before + was[p..];
    ParsesLonger(before, was[p..], 0, i);
    MetAmong(g, root, d, was, words, i);
  }

  function Addresses(words: set<Word>): set<nat> {
    set w | w in words && w.tag.IsPointer() :: w.datum
  }

  /** The words that the objects of a set take, those below address n. */
  function Total(g: Graph, s: set<nat>, n: nat): nat {
    if n == 0 then 0
    else Total(g, s, n - 1) + if n - 1 in s && n - 1 in g.blocks then g.blocks[n - 1].size else 0
  }

  lemma {:induction false} TotalNone(g: Graph, n: nat)
    ensures Total(g, {}, n) == 0
  {
    if n > 0 { TotalNone(g, n - 1); }
  }

  lemma {:induction false} TotalMore(g: Graph, s: set<nat>, a: nat, n: nat)
    requires a !in s && a in g.blocks
    ensures Total(g, s + {a}, n) == Total(g, s, n) + if a < n then g.blocks[a].size else 0
  {
    if n > 0 { TotalMore(g, s, a, n - 1); }
  }

  lemma {:induction false} TotalMono(g: Graph, s: set<nat>, t: set<nat>, n: nat)
    requires s <= t
    ensures Total(g, s, n) <= Total(g, t, n)
  {
    if n > 0 { TotalMono(g, s, t, n - 1); }
  }

  /** All objects together take no more than memory. */
  lemma {:induction false} TotalFits(g: Graph, s: set<nat>, n: nat, end: nat)
    requires WellFormed(g) && forall a | a in g.blocks && a < n :: a + g.blocks[a].size <= end
    ensures Total(g, s, n) <= end
    decreases n
  {
    if n > 0 {
      if n - 1 in s && n - 1 in g.blocks {
        TotalFits(g, s, n - 1, n - 1);
      } else {
        TotalFits(g, s, n - 1, end);
      }
    }
  }

  lemma PutCounts(g: Graph, d: Dump, was: seq<Word>, t: Tag, a: nat)
    requires |was| == 1 + Total(g, d.place.Keys, |g.mem|) && a !in d.place && a in g.blocks
    requires a + g.blocks[a].size <= |g.mem| && 1 <= g.blocks[a].size
    ensures |was + CopyOf(g, t, a)| == 1 + Total(g, Put(g, d, was, t, a).place.Keys, |g.mem|)
  {
    TotalMore(g, d.place.Keys, a, |g.mem|);
    assert Put(g, d, was, t, a).place.Keys == d.place.Keys + {a};
  }

  /** There is room for one more object while there is room for all. */
  lemma RoomForNext(g: Graph, root: Word, d: Dump, was: seq<Word>, words: set<Word>, w: Word, room: nat)
    requires Laid(g, root, d, was) && |was| == 1 + Total(g, d.place.Keys, |g.mem|)
    requires ClosedWords(g, root, words) && 1 + Total(g, Addresses(words), |g.mem|) <= room
    requires Met(was, w) && w.tag.IsPointer() && w.datum in g.blocks && w.datum !in d.place && w.datum < |g.mem|
    ensures |was| + g.blocks[w.datum].size <= room
  {
    hide Parses, ClosedWords, Laid;
    var i :| 0 <= i < |was| && was[i] == w && Parses(was, 0, i);
    MetAmong(g, root, d, was, words, i);
    forall a | a in d.place
      ensures a in Addresses(words)
    {
      PlacedAmong(g, root, d, was, words, a, d.place[a]);
      PlacedPointer(g, d, words, a);
    }
    TotalMore(g, d.place.Keys, w.datum, |g.mem|);
    TotalMono(g, d.place.Keys + {w.datum}, Addresses(words), |g.mem|);
  }

  lemma PlacedPointer(g: Graph, d: Dump, words: set<Word>, a: nat)
    requires a in d.via && a in g.blocks && Fits(d.via[a], g.blocks[a]) && Word(d.via[a], a) in words
    ensures a in Addresses(words)
  {
    var w := Word(d.via[a], a);
    assert w in words && w.tag.IsPointer() && w.datum == a;
  }
}
