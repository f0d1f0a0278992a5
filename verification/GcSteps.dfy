/**
 Each step of a collection keeps the invariant.
 */
module GcSteps {
  import opened Objects
  import opened HeapGraph
  import opened GcState
  import opened GcLists

  // ----- growing the forwarding map -----

  function Copies(n: nat, a: nat): (s: seq<nat>)
    ensures |s| == n && forall i | 0 <= i < n :: s[i] == a
  {
    seq(n, _ => a)
  }

  /** The bookkeeping after the next object copied is a. */
  function Extend(c: Setup, b: Book, a: nat): Book
    requires a in c.g.blocks
  {
    b.(fwd := b.fwd[a := |b.own|], own := b.own + Copies(c.g.blocks[a].size, a))
  }

  lemma ExtendPlaced(c: Setup, b: Book, a: nat)
    requires Placed(c, b) && a in c.g.blocks && a !in b.fwd && 1 <= c.g.blocks[a].size
    ensures Placed(c, Extend(c, b, a))
  {
    var b' := Extend(c, b, a);
    forall i | |c.seeds| <= i < |b'.own|
      ensures b'.own[i] in b'.fwd
      ensures b'.fwd[b'.own[i]] <= i < b'.fwd[b'.own[i]] + c.g.blocks[b'.own[i]].size
    {
      if i < |b.own| {
        assert b'.own[i] == b.own[i];
      } else {
        assert b'.own[i] == a;
      }
    }
    forall x, i | x in b'.fwd && b'.fwd[x] <= i < b'.fwd[x] + c.g.blocks[x].size
      ensures b'.own[i] == x
    {
      if x == a {
        assert b'.own[i] == a;
      } else {
        assert b.own[i] == x && b'.own[i] == b.own[i];
      }
    }
  }

  /** Cells already there are unaffected by a copy placed after them. */
  lemma ExtendCell(c: Setup, m: Memory, b: Book, m': Memory, b': Book, i: nat)
    requires |m.to| == |b.own| && CellOk(c, m, b, i)
    requires i < |m'.to| && m'.to[i] == m.to[i] && i < |b'.own| && b'.own[i] == b.own[i]
    requires Grows(b.fwd, b'.fwd) && b'.scan == b.scan
    requires b.own[i] in b.status <==> b.own[i] in b'.status
    requires b.own[i] in b.status ==> b'.status[b.own[i]] == b.status[b.own[i]]
    ensures CellOk(c, m', b', i)
  {
  }

  lemma ExtendCells(c: Setup, m: Memory, b: Book, m': Memory, b': Book)
    requires |m.to| == |b.own| && |c.seeds| <= |m.to| && CellsOk(c, m, b) && Placed(c, b)
    requires m.to <= m'.to && b.own <= b'.own && |m'.to| == |b'.own|
    requires Grows(b.fwd, b'.fwd) && b'.scan == b.scan
    requires forall x | x in b.fwd :: (x in b.status <==> x in b'.status) && (x in b.status ==> b'.status[x] == b.status[x])
    requires forall i | |m.to| <= i < |m'.to| :: CellOk(c, m', b', i)
    ensures CellsOk(c, m', b')
  {
    forall i | |c.seeds| <= i < |m'.to|
      ensures CellOk(c, m', b', i)
    {
      if i < |m.to| {
        assert CellOk(c, m, b, i);
        assert m'.to[i] == m.to[i] && b'.own[i] == b.own[i];
        ExtendCell(c, m, b, m', b', i);
      }
    }
  }

  lemma ExtendHeap(c: Setup, m: Memory, b: Book, m': Memory, a: nat)
    requires HeapOk(c, m, b) && WellFormed(c.g)
    requires a in c.g.blocks && a !in b.fwd
    requires m'.heap == m.heap[a := Word(BrokenHeart, c.newStart + |b.own|)]
    ensures HeapOk(c, m', Extend(c, b, a))
  {
  }

  /** No object starts at the second word of an object with two words or more. */
  lemma SecondWord(g: Graph, w: nat, a: nat)
    requires WellFormed(g) && w in g.blocks && a in g.blocks && g.blocks[w].size >= 2
    ensures w + 1 != a
  {
    hide BlockOk;
    if w < a {
      assert w + g.blocks[w].size <= a;
    }
  }

  lemma InsideGraph(g: Graph, a: nat)
    requires WellFormed(g) && a in g.blocks
    ensures a < |g.mem|
  {
    assert BlockOk(g, a);
  }

  lemma ChainedSecondWord(c: Setup, b: Book, w: nat, a: nat)
    requires WellFormed(c.g) && Chained(c, b, w) && a in c.g.blocks
    ensures w + 1 != a
  {
    assert BlockOk(c.g, w);
    SecondWord(c.g, w, a);
  }

  lemma NotChained(c: Setup, b: Book, a: nat)
    requires a !in b.fwd
    ensures !Chained(c, b, a)
  {
  }

  lemma ExtendChained(c: Setup, b: Book, a: nat, x: nat)
    requires a in c.g.blocks && x != a
    ensures Chained(c, Extend(c, b, a), x) <==> Chained(c, b, x)
    ensures Chained(c, b, x) ==> x + 1 < |c.g.mem|
  {
  }

  lemma ChainLink(c: Setup, m: Memory, b: Book, p: nat)
    requires ChainOk(c, m, b) && p < |b.chain|
    ensures Chained(c, b, b.chain[p]) && b.chain[p] + 1 < |m.heap|
    ensures m.heap[b.chain[p] + 1] == Word(c.g.mem[b.chain[p]].tag, ChainAt(b.chain, p + 1))
  {
    assert ChainedAt(c, m.heap, b, p);
  }

  lemma ChainMember(c: Setup, m: Memory, b: Book, a: nat)
    requires ChainOk(c, m, b) && a in b.chain
    ensures Chained(c, b, a)
  {
    var p :| 0 <= p < |b.chain| && b.chain[p] == a;
    ChainLink(c, m, b, p);
  }

  /** The chain stays when its pairs and their second words do. */
  lemma KeepChain(c: Setup, m: Memory, b: Book, m': Memory, b': Book)
    requires ChainOk(c, m, b) && m'.weakChain == m.weakChain && b'.chain == b.chain && |m'.heap| == |m.heap|
    requires forall x :: Chained(c, b', x) <==> Chained(c, b, x)
    requires forall i | 0 <= i < |b.chain| && b.chain[i] + 1 < |m.heap| ::
               m'.heap[b.chain[i] + 1] == m.heap[b.chain[i] + 1]
    ensures ChainOk(c, m', b')
  {
    hide Chained, ChainAt;
    forall i | 0 <= i < |b.chain|
      ensures ChainedAt(c, m'.heap, b', i)
    {
      ChainLink(c, m, b, i);
    }
  }

  lemma ExtendChain(c: Setup, m: Memory, b: Book, m': Memory, a: nat)
    requires ChainOk(c, m, b) && WellFormed(c.g) && |m.heap| == |c.g.mem|
    requires a in c.g.blocks && a !in b.fwd && !Chained(c, Extend(c, b, a), a)
    requires m'.heap == m.heap[a := Word(BrokenHeart, c.newStart + |b.own|)] && m'.weakChain == m.weakChain
    ensures ChainOk(c, m', Extend(c, b, a))
  {
    hide WellFormed, Chained, ChainAt;
    var b' := Extend(c, b, a);
    NotChained(c, b, a);
    InsideGraph(c.g, a);
    forall x
      ensures Chained(c, b', x) <==> Chained(c, b, x)
    {
      if x != a { ExtendChained(c, b, a, x); }
    }
    forall i | 0 <= i < |b.chain| && b.chain[i] + 1 < |m.heap|
      ensures m'.heap[b.chain[i] + 1] == m.heap[b.chain[i] + 1]
    {
      ChainLink(c, m, b, i);
      ChainedSecondWord(c, b, b.chain[i], a);
    }
    KeepChain(c, m, b, m', b');
  }

  /** A copy that leaves the ephemerons' lists alone. */
  lemma ExtendLists(c: Setup, m: Memory, b: Book, m': Memory, b': Book)
    requires ListOk(c, m, b) && TableOk(c, m, b)
    requires m.to <= m'.to && Grows(b.fwd, b'.fwd)
    requires m'.list == m.list && m'.table == m.table && m'.queue == m.queue
    requires b'.elist == b.elist && b'.buckets == b.buckets && b'.queued == b.queued && b'.status == b.status
    ensures ListOk(c, m', b') && TableOk(c, m', b')
  {
    KeepLinks(c, m.to, b.fwd, b.elist, EPHEMERON_LIST, m.list, m'.to, b'.fwd);
    KeepLinks(c, m.to, b.fwd, b.queued, EPHEMERON_NEXT, m.queue, m'.to, b'.fwd);
    forall h | 0 <= h < |m.table|
      ensures BucketOk(c, m', b', h)
    {
      assert BucketOk(c, m, b, h);
      KeepLinks(c, m.to, b.fwd, b.buckets[h], EPHEMERON_NEXT, m.table[h], m'.to, b'.fwd);
    }
  }

  // ----- copying an object that is neither a weak pair in need of the chain nor a listed ephemeron -----

  /** The words of object a in the graph. */
  function Body(c: Setup, a: nat): seq<Word>
    requires a in c.g.blocks && a + c.g.blocks[a].size <= |c.g.mem|
  {
    c.g.mem[a..a + c.g.blocks[a].size]
  }

  /** Until it is copied, an object's words are those of the graph. */
  lemma BodyInHeap(c: Setup, m: Memory, b: Book, a: nat)
    requires WellFormed(c.g) && HeapOk(c, m, b) && ChainOk(c, m, b)
    requires a in c.g.blocks && a !in b.fwd
    ensures BlockOk(c.g, a)
    ensures m.heap[a..a + c.g.blocks[a].size] == Body(c, a)
  {
    assert BlockOk(c.g, a);
    var n := c.g.blocks[a].size;
    if a in b.chain {
      ChainMember(c, m, b, a);
    }
    forall x | a <= x < a + n
      ensures m.heap[x] == c.g.mem[x]
    {
    }
  }

  /** An object that is copied as it stands. */
  ghost predicate PlainCopy(c: Setup, fwd: map<nat, nat>, a: nat) {
    && a in c.g.blocks
    && BlockOk(c.g, a)
    && match c.g.blocks[a].kind
       case WeakKind => !Points(c.g, c.g.mem[a])
       case EphemeronKind => Points(c.g, Key(c.g, a)) ==> Key(c.g, a).datum in fwd
       case _ => true
  }

  lemma PlainCell(c: Setup, m: Memory, b: Book, a: nat, i: nat)
    requires PlainCopy(c, b.fwd, a) && a in b.fwd && a !in b.status
    requires b.fwd[a] <= i < b.fwd[a] + c.g.blocks[a].size && i < |m.to| && i < |b.own|
    requires b.own[i] == a && b.scan <= b.fwd[a] && m.to[i] == c.g.mem[a + (i - b.fwd[a])]
    ensures CellOk(c, m, b, i)
  {
  }

  lemma PlainCells(c: Setup, m: Memory, b: Book, m': Memory, a: nat)
    requires Sizes(c, m, b) && Placed(c, b) && CellsOk(c, m, b) && ListOk(c, m, b)
    requires a !in b.fwd && a in c.g.blocks && PlainCopy(c, Extend(c, b, a).fwd, a)
    requires m'.to == m.to + Body(c, a)
    ensures CellsOk(c, m', Extend(c, b, a))
  {
    var b' := Extend(c, b, a);
    assert a !in b.status;
    forall i | |m.to| <= i < |m'.to|
      ensures CellOk(c, m', b', i)
    {
      PlainCell(c, m', b', a, i);
    }
    ExtendCells(c, m, b, m', b');
  }

  lemma ExtendScanPlace(c: Setup, b: Book, a: nat)
    requires ScanPlace(c, b) && b.scan <= |b.own| && a in c.g.blocks
    ensures ScanPlace(c, Extend(c, b, a))
  {
  }

  lemma PlainKeeps(c: Setup, m: Memory, b: Book, m': Memory, a: nat)
    requires Inv(c, m, b)
    requires a !in b.fwd && a in c.g.blocks && PlainCopy(c, Extend(c, b, a).fwd, a) && Live(c.g, c.roots, a)
    requires m' == m.(heap := m.heap[a := Word(BrokenHeart, c.newStart + |m.to|)], to := m.to + Body(c, a))
    ensures Inv(c, m', Extend(c, b, a))
  {
    hide WellFormed, Placed, CellsOk, HeapOk, ChainOk, ListOk, TableOk, ScanPlace;
    var b' := Extend(c, b, a);
    assert Placed(c, b') by { ExtendPlaced(c, b, a); }
    assert CellsOk(c, m', b') by { PlainCells(c, m, b, m', a); }
    assert HeapOk(c, m', b') by { ExtendHeap(c, m, b, m', a); }
    assert ChainOk(c, m', b') by { ExtendChain(c, m, b, m', a); }
    assert ListOk(c, m', b') && TableOk(c, m', b') by { ExtendLists(c, m, b, m', b'); }
    assert ScanPlace(c, b') by { ExtendScanPlace(c, b, a); }
    assert AllLive(c, b');
  }

  // ----- copying a weak pair whose car has to wait for the weak pass -----

  function ExtendWeak(c: Setup, b: Book, a: nat): Book
    requires a in c.g.blocks
  {
    Extend(c, b, a).(chain := [a] + b.chain)
  }

  ghost predicate WeakCopy(c: Setup, a: nat) {
    && a in c.g.blocks && c.g.blocks[a].kind.WeakKind? && BlockOk(c.g, a)
    && Points(c.g, c.g.mem[a])
  }

  function WeakMemory(c: Setup, m: Memory, a: nat): Memory
    requires a + 1 < |m.heap| && a + 1 < |c.g.mem|
  {
    m.(heap := m.heap[a := Word(BrokenHeart, c.newStart + |m.to|)][a + 1 := Word(c.g.mem[a].tag, m.weakChain)],
       to := m.to + [Word(TC_FALSE, c.g.mem[a].datum), c.g.mem[a + 1]],
       weakChain := a)
  }

  lemma WeakCells(c: Setup, m: Memory, b: Book, a: nat)
    requires Sizes(c, m, b) && Placed(c, b) && CellsOk(c, m, b) && ListOk(c, m, b)
    requires a !in b.fwd && WeakCopy(c, a)
    ensures CellsOk(c, WeakMemory(c, m, a), ExtendWeak(c, b, a))
  {
    var m', b' := WeakMemory(c, m, a), ExtendWeak(c, b, a);
    assert a !in b.status;
    ExtendCells(c, m, b, m', b');
  }

  lemma WeakHeap(c: Setup, m: Memory, b: Book, a: nat)
    requires Sizes(c, m, b) && HeapOk(c, m, b) && WellFormed(c.g)
    requires a !in b.fwd && WeakCopy(c, a)
    ensures HeapOk(c, WeakMemory(c, m, a), ExtendWeak(c, b, a))
  {
    var m', b' := WeakMemory(c, m, a), ExtendWeak(c, b, a);
    forall x | x in c.g.blocks && x < |m.heap|
      ensures m'.heap[x] == if x in b'.fwd then Word(BrokenHeart, c.newStart + b'.fwd[x]) else c.g.mem[x]
    {
      assert x != a + 1;
    }
    forall x, y | x in c.g.blocks && x < y < x + c.g.blocks[x].size && y < |m.heap| && x !in b'.chain
      ensures m'.heap[y] == c.g.mem[y]
    {
      assert x in b.chain ==> x in b'.chain;
      assert a in b'.chain;
      assert y != a + 1 && y != a;
    }
  }

  lemma WeakNew(c: Setup, b: Book, a: nat)
    requires WeakCopy(c, a)
    ensures Chained(c, ExtendWeak(c, b, a), a) && a + 1 < |c.g.mem|
  {
  }

  lemma WeakChained(c: Setup, b: Book, a: nat, x: nat)
    requires a in c.g.blocks && x != a
    ensures Chained(c, ExtendWeak(c, b, a), x) <==> Chained(c, b, x)
    ensures Chained(c, b, x) ==> x + 1 < |c.g.mem|
  {
  }

  lemma ChainPushed(chain: seq<nat>, a: nat)
    ensures ChainAt([a] + chain, 0) == a
    ensures forall i: nat {:trigger ChainAt([a] + chain, i + 1)} {:trigger ChainAt(chain, i)} ::
              ChainAt([a] + chain, i + 1) == ChainAt(chain, i)
  {
  }

  lemma WeakChain(c: Setup, m: Memory, b: Book, a: nat)
    requires Sizes(c, m, b) && ChainOk(c, m, b) && WellFormed(c.g)
    requires a !in b.fwd && WeakCopy(c, a)
    ensures ChainOk(c, WeakMemory(c, m, a), ExtendWeak(c, b, a))
  {
    hide WellFormed, Chained, ChainAt;
    var m', b' := WeakMemory(c, m, a), ExtendWeak(c, b, a);
    WeakNew(c, b, a);
    NotChained(c, b, a);
    if a in b.chain {
      ChainMember(c, m, b, a);
    }
    ChainPushed(b.chain, a);
    forall i | 0 <= i < |b'.chain|
      ensures ChainedAt(c, m'.heap, b', i)
    {
      if i > 0 {
        var w := b.chain[i - 1];
        assert b'.chain[i] == w;
        ChainLink(c, m, b, i - 1);
        WeakChained(c, b, a, w);
        ChainedSecondWord(c, b, w, a);
        assert ChainAt(b'.chain, i + 1) == ChainAt(b.chain, i);
      }
    }
    forall x | Chained(c, b', x)
      ensures x in b'.chain
    {
      if x != a {
        WeakChained(c, b, a, x);
        assert x in b.chain;
      }
    }
  }

  lemma WeakKeeps(c: Setup, m: Memory, b: Book, a: nat)
    requires Inv(c, m, b)
    requires a !in b.fwd && WeakCopy(c, a) && Live(c.g, c.roots, a)
    ensures Inv(c, WeakMemory(c, m, a), ExtendWeak(c, b, a))
  {
    hide WellFormed, Placed, CellsOk, HeapOk, ChainOk, ListOk, TableOk, ScanPlace;
    var m', b' := WeakMemory(c, m, a), ExtendWeak(c, b, a);
    assert Placed(c, b') by { ExtendPlaced(c, b, a); WeakPlaced(c, b, a); }
    assert CellsOk(c, m', b') by { WeakCells(c, m, b, a); }
    assert HeapOk(c, m', b') by { WeakHeap(c, m, b, a); }
    assert ChainOk(c, m', b') by { WeakChain(c, m, b, a); }
    assert ListOk(c, m', b') && TableOk(c, m', b') by { ExtendLists(c, m, b, m', b'); }
    assert ScanPlace(c, b') by { ExtendScanPlace(c, b, a); WeakPlaced(c, b, a); }
    assert AllLive(c, b');
  }

  lemma WeakPlaced(c: Setup, b: Book, a: nat)
    requires a in c.g.blocks
    ensures Placed(c, Extend(c, b, a)) ==> Placed(c, ExtendWeak(c, b, a))
    ensures ScanPlace(c, Extend(c, b, a)) ==> ScanPlace(c, ExtendWeak(c, b, a))
  {
  }

  // ----- copying an ephemeron whose key is not known to be live -----

  function ListedBook(c: Setup, m: Memory, b: Book, e: nat): Book
    requires IsEphemeron(c.g, e) && |b.buckets| == |m.table| > 0
  {
    var h := Hash(c, e, |m.table|);
    Extend(c, b, e).(elist := [e] + b.elist, buckets := b.buckets[h := [e] + b.buckets[h]], status := b.status[e := Waiting])
  }

  function ListedMemory(c: Setup, m: Memory, e: nat): Memory
    requires IsEphemeron(c.g, e) && |m.table| > 0 && e < |m.heap|
  {
    var h := Hash(c, e, |m.table|);
    var ref := Word(Ephemeron, c.newStart + |m.to|);
    m.(heap := m.heap[e := Word(BrokenHeart, c.newStart + |m.to|)],
       to := m.to + [UNMARKED_EPHEMERON_MANIFEST, Key(c.g, e), Datum(c.g, e), m.list, m.table[h]],
       table := m.table[h := ref],
       list := ref)
  }

  ghost predicate ListedCopy(c: Setup, b: Book, e: nat) {
    && IsEphemeron(c.g, e) && BlockOk(c.g, e) && e !in b.fwd
    && Points(c.g, Key(c.g, e))
  }

  lemma ListedCell(c: Setup, m: Memory, b: Book, e: nat, i: nat)
    requires |b.own| == |m.to| && |b.buckets| == |m.table| > 0 && e < |m.heap| && ListedCopy(c, b, e)
    requires |m.to| <= i < |m.to| + EPHEMERON_SIZE
    ensures CellOk(c, ListedMemory(c, m, e), ListedBook(c, m, b, e), i)
  {
    var m', b' := ListedMemory(c, m, e), ListedBook(c, m, b, e);
    assert b'.own[i] == e;
    assert b'.fwd[e] == |m.to|;
  }

  lemma ListedCells(c: Setup, m: Memory, b: Book, e: nat)
    requires Sizes(c, m, b) && Placed(c, b) && CellsOk(c, m, b) && ListOk(c, m, b) && |b.buckets| == |m.table|
    requires ListedCopy(c, b, e)
    ensures CellsOk(c, ListedMemory(c, m, e), ListedBook(c, m, b, e))
  {
    var m', b' := ListedMemory(c, m, e), ListedBook(c, m, b, e);
    assert e !in b.status;
    forall i | |m.to| <= i < |m'.to|
      ensures CellOk(c, m', b', i)
    {
      ListedCell(c, m, b, e, i);
    }
    ExtendCells(c, m, b, m', b');
  }

  lemma ListedList(c: Setup, m: Memory, b: Book, e: nat)
    requires Sizes(c, m, b) && ListOk(c, m, b) && |b.buckets| == |m.table|
    requires ListedCopy(c, b, e)
    ensures ListOk(c, ListedMemory(c, m, e), ListedBook(c, m, b, e))
  {
    var m', b' := ListedMemory(c, m, e), ListedBook(c, m, b, e);
    KeepLinks(c, m.to, b.fwd, b.elist, EPHEMERON_LIST, m.list, m'.to, b'.fwd);
    PushLinks(c, m'.to, b'.fwd, b.elist, EPHEMERON_LIST, m.list, e);
  }

  lemma ListedBucket(c: Setup, m: Memory, b: Book, e: nat, h: nat)
    requires Sizes(c, m, b) && |b.buckets| == |m.table| && BucketOk(c, m, b, h)
    requires ListedCopy(c, b, e) && e !in b.status
    ensures BucketOk(c, ListedMemory(c, m, e), ListedBook(c, m, b, e), h)
  {
    var m', b' := ListedMemory(c, m, e), ListedBook(c, m, b, e);
    if h == Hash(c, e, |m.table|) {
      KeepLinks(c, m.to, b.fwd, b.buckets[h], EPHEMERON_NEXT, m.table[h], m'.to, b'.fwd);
      PushLinks(c, m'.to, b'.fwd, b.buckets[h], EPHEMERON_NEXT, m.table[h], e);
    } else {
      KeepLinks(c, m.to, b.fwd, b.buckets[h], EPHEMERON_NEXT, m.table[h], m'.to, b'.fwd);
    }
  }

  lemma ListedTable(c: Setup, m: Memory, b: Book, e: nat)
    requires Sizes(c, m, b) && ListOk(c, m, b) && TableOk(c, m, b)
    requires ListedCopy(c, b, e)
    ensures TableOk(c, ListedMemory(c, m, e), ListedBook(c, m, b, e))
  {
    var m', b' := ListedMemory(c, m, e), ListedBook(c, m, b, e);
    KeepLinks(c, m.to, b.fwd, b.queued, EPHEMERON_NEXT, m.queue, m'.to, b'.fwd);
    forall h | 0 <= h < |m'.table|
      ensures BucketOk(c, m', b', h)
    {
      assert BucketOk(c, m, b, h);
      ListedBucket(c, m, b, e, h);
    }
  }

  lemma ListedScanPlace(c: Setup, m: Memory, b: Book, e: nat)
    requires ScanPlace(c, b) && b.scan <= |b.own| && ListedCopy(c, b, e) && |b.buckets| == |m.table| > 0
    ensures ScanPlace(c, ListedBook(c, m, b, e))
  {
  }

  lemma ListedOthers(c: Setup, m: Memory, b: Book, e: nat)
    requires ListedCopy(c, b, e) && |b.buckets| == |m.table| > 0 && e < |m.heap|
    requires Placed(c, Extend(c, b, e))
    requires HeapOk(c, ListedMemory(c, m, e), Extend(c, b, e)) && ChainOk(c, ListedMemory(c, m, e), Extend(c, b, e))
    ensures Placed(c, ListedBook(c, m, b, e))
    ensures HeapOk(c, ListedMemory(c, m, e), ListedBook(c, m, b, e))
    ensures ChainOk(c, ListedMemory(c, m, e), ListedBook(c, m, b, e))
  {
    var b1, b' := Extend(c, b, e), ListedBook(c, m, b, e);
    forall x
      ensures Chained(c, b', x) <==> Chained(c, b1, x)
    {
    }
    KeepChain(c, ListedMemory(c, m, e), b1, ListedMemory(c, m, e), b');
  }

  lemma ListedKeeps(c: Setup, m: Memory, b: Book, e: nat)
    requires Inv(c, m, b)
    requires ListedCopy(c, b, e) && Live(c.g, c.roots, e)
    ensures |b.buckets| == |m.table| > 0 && e < |m.heap|
    ensures Inv(c, ListedMemory(c, m, e), ListedBook(c, m, b, e))
  {
    hide WellFormed, Placed, CellsOk, HeapOk, ChainOk, ListOk, BucketOk, ScanPlace;
    var m', b' := ListedMemory(c, m, e), ListedBook(c, m, b, e);
    assert Placed(c, b') && HeapOk(c, m', b') && ChainOk(c, m', b') by {
      ExtendPlaced(c, b, e);
      ExtendHeap(c, m, b, m', e);
      ExtendChain(c, m, b, m', e);
      ListedOthers(c, m, b, e);
    }
    assert CellsOk(c, m', b') by { ListedCells(c, m, b, e); }
    assert ListOk(c, m', b') by { ListedList(c, m, b, e); }
    assert TableOk(c, m', b') by { ListedTable(c, m, b, e); }
    assert ScanPlace(c, b') by { ListedScanPlace(c, m, b, e); }
    assert AllLive(c, b');
  }
}
