/**
 Scanning tospace, and moving ephemerons from the table to the queue, keep the invariant.
 */
module GcScan {
  import opened Objects
  import opened HeapGraph
  import opened GcState
  import opened GcLists
  import opened GcSteps

  predicate Skipped(c: Setup, b: Book, a: nat) {
    a in c.g.blocks && (c.g.blocks[a].kind.RawKind? || a in b.status)
  }

  /** A cell the scan has not reached, of a block it does not skip, holds its old word or a masked car. */
  lemma UnscannedCell(c: Setup, m: Memory, b: Book, i: nat)
    requires CellOk(c, m, b, i) && b.scan <= i && BlockOk(c.g, b.own[i]) && !Skipped(c, b, b.own[i])
    requires i < b.fwd[b.own[i]] + c.g.blocks[b.own[i]].size
    ensures Good(c.g, m.to[i]) && !m.to[i].tag.ManifestNM?
    ensures Points(c.g, m.to[i]) ==>
              var a, j := b.own[i], i - b.fwd[b.own[i]];
              m.to[i] == c.g.mem[a + j] && (Strong(c.g, a, j) || (IsEphemeron(c.g, a) && j in {EPHEMERON_KEY, EPHEMERON_DATUM}))
  {
  }

  lemma SkippedCell(c: Setup, m: Memory, b: Book, i: nat)
    requires CellOk(c, m, b, i) && i == b.fwd[b.own[i]] && BlockOk(c.g, b.own[i]) && Skipped(c, b, b.own[i])
    requires b.own[i] in b.status ==> IsEphemeron(c.g, b.own[i])
    ensures m.to[i].tag.ManifestNM? && 1 + m.to[i].datum == c.g.blocks[b.own[i]].size
  {
  }

  lemma MarkedKey(c: Setup, m: Memory, b: Book, e: nat, k: nat)
    requires CellOk(c, m, b, k) && b.own[k] == e && e !in b.status && IsEphemeron(c.g, e)
    requires k == b.fwd[e] + EPHEMERON_KEY
    ensures Points(c.g, Key(c.g, e)) ==> Key(c.g, e).datum in b.fwd
  {
  }

  /** What an unscanned pointer refers to is live. */
  lemma UnscannedLive(c: Setup, m: Memory, b: Book, i: nat)
    requires Placed(c, b) && CellsOk(c, m, b) && AllLive(c, b) && |b.own| == |m.to|
    requires |c.seeds| <= i < |m.to| && b.scan <= i && BlockOk(c.g, b.own[i]) && !Skipped(c, b, b.own[i])
    requires Points(c.g, m.to[i])
    ensures Live(c.g, c.roots, m.to[i].datum)
  {
    hide CellsOk, Live, BlockOk;
    var a := b.own[i];
    var j := i - b.fwd[a];
    assert Live(c.g, c.roots, a);
    assert CellOk(c, m, b, i) by { CellAt(c, m, b, i); }
    UnscannedCell(c, m, b, i);
    if Strong(c.g, a, j) {
      LiveStrong(c.g, c.roots, a, j);
    } else {
      var k := b.fwd[a] + EPHEMERON_KEY;
      assert EPHEMERON_KEY < c.g.blocks[a].size by { BlockSize(c.g, a); }
      assert b.own[k] == a;
      assert CellOk(c, m, b, k) by { CellAt(c, m, b, k); }
      MarkedKey(c, m, b, a, k);
      if j == EPHEMERON_KEY {
        assert Live(c.g, c.roots, Key(c.g, a).datum);
      } else {
        LiveDatum(c.g, c.roots, a);
      }
    }
  }

  lemma CellAt(c: Setup, m: Memory, b: Book, i: nat)
    requires CellsOk(c, m, b) && |c.seeds| <= i < |m.to|
    ensures CellOk(c, m, b, i)
  {
  }

  lemma BlockSize(g: Graph, e: nat)
    requires IsEphemeron(g, e) && BlockOk(g, e)
    ensures g.blocks[e].size == EPHEMERON_SIZE
  {
  }

  /** What the scan can meet: a manifest to skip, or a word that is safe to relocate. */
  lemma WordAtScan(c: Setup, m: Memory, b: Book)
    requires SetupOk(c) && Sizes(c, m, b) && Placed(c, b) && CellsOk(c, m, b)
    requires ScanPlace(c, b) && AllLive(c, b) && ListOk(c, m, b)
    requires b.scan < |m.to|
    ensures var t := m.to[b.scan];
            if t.tag.ManifestNM? then
              && |c.seeds| <= b.scan
              && Skipped(c, b, b.own[b.scan])
              && b.fwd[b.own[b.scan]] == b.scan
              && 1 + t.datum == c.g.blocks[b.own[b.scan]].size
            else
              Good(c.g, t) && (Points(c.g, t) ==> Live(c.g, c.roots, t.datum))
    ensures |c.seeds| <= b.scan && !m.to[b.scan].tag.ManifestNM? ==> !Skipped(c, b, b.own[b.scan])
  {
    hide CellOk, BlockOk, Live;
    if b.scan < |c.seeds| {
      assert c.seeds[b.scan] in c.seeds;
      assert m.to[b.scan] == c.seeds[b.scan];
      if Points(c.g, m.to[b.scan]) {
        LiveRoot(c.g, c.roots, m.to[b.scan]);
      }
    } else {
      var a := b.own[b.scan];
      assert a in b.fwd && BlockOk(c.g, a);
      assert CellOk(c, m, b, b.scan);
      if Skipped(c, b, a) {
        SkippedCell(c, m, b, b.scan);
      } else {
        UnscannedCell(c, m, b, b.scan);
        if Points(c.g, m.to[b.scan]) {
          UnscannedLive(c, m, b, b.scan);
        }
      }
    }
  }

  function StepMemory(c: Setup, m: Memory, b: Book): Memory
    requires b.scan < |m.to|
  {
    m.(to := m.to[b.scan := Relocate(c, b.fwd, m.to[b.scan])])
  }

  lemma StepCell(c: Setup, m: Memory, b: Book, i: nat)
    requires b.scan < |m.to| == |b.own| && CellOk(c, m, b, i)
    requires !m.to[b.scan].tag.ManifestNM?
    requires Points(c.g, m.to[b.scan]) ==> m.to[b.scan].datum in b.fwd
    requires i == b.scan ==> !Skipped(c, b, b.own[i])
    ensures CellOk(c, StepMemory(c, m, b), b.(scan := b.scan + 1), i)
  {
  }

  lemma StepCells(c: Setup, m: Memory, b: Book)
    requires Sizes(c, m, b) && CellsOk(c, m, b) && b.scan < |m.to|
    requires !m.to[b.scan].tag.ManifestNM?
    requires Points(c.g, m.to[b.scan]) ==> m.to[b.scan].datum in b.fwd
    requires |c.seeds| <= b.scan ==> !Skipped(c, b, b.own[b.scan])
    ensures CellsOk(c, StepMemory(c, m, b), b.(scan := b.scan + 1))
  {
    var m', b' := StepMemory(c, m, b), b.(scan := b.scan + 1);
    forall i | |c.seeds| <= i < |m.to|
      ensures CellOk(c, m', b', i)
    {
      assert CellOk(c, m, b, i);
      StepCell(c, m, b, i);
    }
  }

  /** A write to a cell that no listed ephemeron owns leaves the lists alone. */
  lemma WriteLinks(c: Setup, b: Book, to: seq<Word>, items: seq<nat>, slot: nat, head: Word, i: nat, w: Word)
    requires Links(c, to, b.fwd, items, slot, head) && |to| == |b.own| && i < |to|
    requires forall e | e in items && e in b.fwd :: b.fwd[e] + slot != i
    ensures Links(c, to[i := w], b.fwd, items, slot, head)
  {
    KeepLinks(c, to, b.fwd, items, slot, head, to[i := w], b.fwd);
  }

  lemma NotListed(c: Setup, m: Memory, b: Book, i: nat, slot: nat)
    requires Sizes(c, m, b) && Placed(c, b) && slot < EPHEMERON_SIZE
    requires forall e | e in b.status :: e in b.fwd && c.g.blocks[e].size == EPHEMERON_SIZE
    requires i < |m.to| && (|c.seeds| <= i ==> b.own[i] !in b.status)
    ensures forall e | e in b.status :: b.fwd[e] + slot != i
  {
    forall e | e in b.status
      ensures b.fwd[e] + slot != i
    {
      assert b.own[b.fwd[e] + slot] == e;
    }
  }

  lemma ListedSize(c: Setup, m: Memory, b: Book)
    requires WellFormed(c.g) && ListOk(c, m, b)
    ensures forall e | e in b.status :: e in b.fwd && c.g.blocks[e].size == EPHEMERON_SIZE
  {
    forall e | e in b.status
      ensures e in b.fwd && c.g.blocks[e].size == EPHEMERON_SIZE
    {
      assert BlockOk(c.g, e);
    }
  }

  lemma WriteBucket(c: Setup, m: Memory, b: Book, b': Book, i: nat, w: Word, h: nat)
    requires |b.own| == |m.to| && i < |m.to| && BucketOk(c, m, b, h)
    requires forall e | e in b.status && e in b.fwd :: b.fwd[e] + EPHEMERON_NEXT != i
    requires exists s: nat :: b' == b.(scan := s)
    ensures BucketOk(c, m.(to := m.to[i := w]), b', h)
  {
    WriteLinks(c, b, m.to, b.buckets[h], EPHEMERON_NEXT, m.table[h], i, w);
  }

  /** Writing a cell outside the listed ephemerons keeps the lists. */
  lemma WriteLists(c: Setup, m: Memory, b: Book, b': Book, i: nat, w: Word)
    requires WellFormed(c.g) && Sizes(c, m, b) && Placed(c, b) && ListOk(c, m, b) && TableOk(c, m, b)
    requires i < |m.to| && (|c.seeds| <= i ==> b.own[i] !in b.status)
    requires exists s: nat :: b' == b.(scan := s)
    ensures ListOk(c, m.(to := m.to[i := w]), b') && TableOk(c, m.(to := m.to[i := w]), b')
  {
    hide WellFormed, Placed, BucketOk;
    var m' := m.(to := m.to[i := w]);
    ListedSize(c, m, b);
    NotListed(c, m, b, i, EPHEMERON_LIST);
    NotListed(c, m, b, i, EPHEMERON_NEXT);
    WriteLinks(c, b, m.to, b.elist, EPHEMERON_LIST, m.list, i, w);
    WriteLinks(c, b, m.to, b.queued, EPHEMERON_NEXT, m.queue, i, w);
    forall h | 0 <= h < |m'.table|
      ensures BucketOk(c, m', b', h)
    {
      WriteBucket(c, m, b, b', i, w, h);
    }
  }

  lemma StepPlace(c: Setup, m: Memory, b: Book)
    requires Sizes(c, m, b) && Placed(c, b) && ListOk(c, m, b) && b.scan < |m.to|
    requires |c.seeds| <= b.scan ==> !Skipped(c, b, b.own[b.scan])
    ensures ScanPlace(c, b.(scan := b.scan + 1))
  {
  }

  lemma ScanFrame(c: Setup, m: Memory, b: Book, m': Memory, b': Book)
    requires Sizes(c, m, b) && Placed(c, b) && HeapOk(c, m, b) && ChainOk(c, m, b) && AllLive(c, b)
    requires m'.heap == m.heap && m'.weakChain == m.weakChain && |m'.to| == |m.to| && |m'.table| == |m.table|
    requires b'.fwd == b.fwd && b'.own == b.own && b'.chain == b.chain && b'.scan <= |m.to|
    ensures Sizes(c, m', b') && Placed(c, b') && HeapOk(c, m', b') && ChainOk(c, m', b') && AllLive(c, b')
  {
    forall a
      ensures Chained(c, b', a) <==> Chained(c, b, a)
    {
    }
    KeepChain(c, m, b, m', b');
  }

  /** Relocating the word under the scan pointer and moving on. */
  lemma StepKeeps(c: Setup, m: Memory, b: Book)
    requires Inv(c, m, b) && b.scan < |m.to|
    requires !m.to[b.scan].tag.ManifestNM?
    requires Points(c.g, m.to[b.scan]) ==> m.to[b.scan].datum in b.fwd
    ensures Inv(c, StepMemory(c, m, b), b.(scan := b.scan + 1))
  {
    hide WellFormed, CellsOk, HeapOk, ChainOk, ListOk, TableOk, ScanPlace, AllLive;
    var m', b' := StepMemory(c, m, b), b.(scan := b.scan + 1);
    WordAtScan(c, m, b);
    assert CellsOk(c, m', b') by { StepCells(c, m, b); }
    assert ListOk(c, m', b') && TableOk(c, m', b') by {
      WriteLists(c, m, b, b', b.scan, Relocate(c, b.fwd, m.to[b.scan]));
    }
    assert ScanPlace(c, b') by { StepPlace(c, m, b); }
    ScanFrame(c, m, b, m', b');
  }

  lemma SkipCells(c: Setup, m: Memory, b: Book, n: nat)
    requires Sizes(c, m, b) && Placed(c, b) && CellsOk(c, m, b) && ListOk(c, m, b)
    requires |c.seeds| <= b.scan < |m.to| && n == c.g.blocks[b.own[b.scan]].size && b.fwd[b.own[b.scan]] == b.scan
    requires Skipped(c, b, b.own[b.scan])
    ensures CellsOk(c, m, b.(scan := b.scan + n))
  {
    var a := b.own[b.scan];
    var b' := b.(scan := b.scan + n);
    forall i | |c.seeds| <= i < |m.to|
      ensures CellOk(c, m, b', i)
    {
      assert CellOk(c, m, b, i);
      if b.scan <= i < b.scan + n {
        assert b.own[i] == a;
      }
    }
  }

  lemma SkipPlace(c: Setup, b: Book, n: nat)
    requires Placed(c, b) && |c.seeds| <= b.scan < |b.own|
    requires n == c.g.blocks[b.own[b.scan]].size && b.fwd[b.own[b.scan]] == b.scan && n > 0
    ensures ScanPlace(c, b.(scan := b.scan + n))
  {
    var a := b.own[b.scan];
    var k := b.scan + n - 1;
    assert b.own[k] == a;
    assert forall x | x in b.fwd && b.fwd[x] <= k < b.fwd[x] + c.g.blocks[x].size :: b.own[k] == x;
  }

  /** Stepping over a block with a non-marked manifest. */
  lemma SkipKeeps(c: Setup, m: Memory, b: Book)
    requires Inv(c, m, b) && b.scan < |m.to| && m.to[b.scan].tag.ManifestNM?
    ensures b.scan + 1 + m.to[b.scan].datum <= |m.to|
    ensures Inv(c, m, b.(scan := b.scan + 1 + m.to[b.scan].datum))
  {
    hide WellFormed, CellsOk, HeapOk, ChainOk, ListOk, TableOk, ScanPlace, AllLive;
    WordAtScan(c, m, b);
    var n := 1 + m.to[b.scan].datum;
    var b' := b.(scan := b.scan + n);
    assert CellsOk(c, m, b') by { SkipCells(c, m, b, n); }
    assert ScanPlace(c, b') by { SkipPlace(c, b, n); }
    ScanFrame(c, m, b, m, b');
    assert ListOk(c, m, b') && TableOk(c, m, b') by { SkipLists(c, m, b, b'); }
  }

  lemma SkipLists(c: Setup, m: Memory, b: Book, b': Book)
    requires ListOk(c, m, b) && TableOk(c, m, b)
    requires exists s: nat :: b' == b.(scan := s)
    ensures ListOk(c, m, b') && TableOk(c, m, b')
  {
    forall h | 0 <= h < |m.table|
      ensures BucketOk(c, m, b', h)
    {
      assert BucketOk(c, m, b, h);
    }
  }
}
