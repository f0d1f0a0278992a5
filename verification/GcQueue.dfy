/**
 Moving ephemerons from the table to the queue, and from the queue to having their datum scanned,
 keeps the invariant.
 */
module GcQueue {
  import opened Objects
  import opened HeapGraph
  import opened GcState
  import opened GcLists
  import opened GcSteps
  import opened GcScan

  /** The tospace cell of slot `slot` of copied ephemeron e. */
  function Cell(b: Book, e: nat, slot: nat): nat
    requires e in b.fwd
  {
    b.fwd[e] + slot
  }

  /** Unlinking item p of a list: its predecessor's link, or the head, takes over its link. */
  function UnlinkedTo(b: Book, to: seq<Word>, items: seq<nat>, p: nat, next: Word): (r: seq<Word>)
    ensures |r| == |to|
  {
    if 0 < p < |items| && items[p - 1] in b.fwd && b.fwd[items[p - 1]] + EPHEMERON_NEXT < |to|
    then to[b.fwd[items[p - 1]] + EPHEMERON_NEXT := next] else to
  }

  /** Memory after item p of bucket h has been moved to the front of the queue. */
  function QueueMemory(c: Setup, m: Memory, b: Book, h: nat, p: nat): Memory
    requires h < |b.buckets| && h < |m.table| && p < |b.buckets[h]|
    requires b.buckets[h][p] in b.fwd && b.fwd[b.buckets[h][p]] + EPHEMERON_NEXT < |m.to|
  {
    var items := b.buckets[h];
    var k := b.fwd[items[p]] + EPHEMERON_NEXT;
    var next := m.to[k];
    m.(table := if p == 0 then m.table[h := next] else m.table,
       to := UnlinkedTo(b, m.to, items, p, next)[k := m.queue],
       queue := Word(Ephemeron, c.newStart + b.fwd[items[p]]))
  }

  function QueueBook(b: Book, h: nat, p: nat): Book
    requires h < |b.buckets| && p < |b.buckets[h]|
  {
    var e := b.buckets[h][p];
    b.(buckets := b.buckets[h := Without(b.buckets[h], p)], queued := [e] + b.queued, status := b.status[e := Queued])
  }

  /** The cells of different listed ephemerons, and different slots of one, are different. */
  ghost predicate Apart(c: Setup, b: Book) {
    && (forall e | e in b.status :: e in b.fwd)
    && (forall e, f | e in b.status && f in b.status && e != f ::
          b.fwd[e] + EPHEMERON_SIZE <= b.fwd[f] || b.fwd[f] + EPHEMERON_SIZE <= b.fwd[e])
  }

  lemma ListedApart(c: Setup, m: Memory, b: Book)
    requires WellFormed(c.g) && Placed(c, b) && ListOk(c, m, b)
    ensures Apart(c, b)
  {
    ListedSize(c, m, b);
    forall e, f | e in b.status && f in b.status && e != f
      ensures b.fwd[e] + EPHEMERON_SIZE <= b.fwd[f] || b.fwd[f] + EPHEMERON_SIZE <= b.fwd[e]
    {
      assert b.own[b.fwd[e]] == e && b.own[b.fwd[f]] == f;
    }
  }

  lemma ItemLinked(c: Setup, m: Memory, b: Book, h: nat, p: nat)
    requires h < |b.buckets| && p < |b.buckets[h]| && BucketOk(c, m, b, h)
    ensures var e := b.buckets[h][p];
            e in b.status && b.status[e].Waiting? && e in b.fwd && b.fwd[e] + EPHEMERON_NEXT < |m.to|
  {
    assert b.buckets[h][p] in b.buckets[h];
    LinkOf(c, m.to, b.fwd, b.buckets[h], EPHEMERON_NEXT, m.table[h], p);
  }

  /** Cells of listed ephemerons other than item p of bucket h and its predecessor are not written. */
  lemma MovedCell(c: Setup, m: Memory, b: Book, h: nat, p: nat, x: nat, slot: nat)
    requires h < |b.buckets| && h < |m.table| && p < |b.buckets[h]| && BucketOk(c, m, b, h) && Apart(c, b)
    requires b.buckets[h][p] in b.fwd && b.fwd[b.buckets[h][p]] + EPHEMERON_NEXT < |m.to|
    requires x in b.status && slot < EPHEMERON_SIZE && x in b.fwd && b.fwd[x] + slot < |m.to|
    requires slot == EPHEMERON_NEXT ==> x != b.buckets[h][p] && (p > 0 ==> x != b.buckets[h][p - 1])
    ensures QueueMemory(c, m, b, h, p).to[b.fwd[x] + slot] == m.to[b.fwd[x] + slot]
  {
    ItemLinked(c, m, b, h, p);
    if p > 0 { ItemLinked(c, m, b, h, p - 1); }
  }

  lemma OtherItem(c: Setup, m: Memory, b: Book, h: nat, p: nat, i: nat)
    requires h < |b.buckets| && h < |m.table| && p < |b.buckets[h]| && BucketOk(c, m, b, h) && Apart(c, b)
    requires b.buckets[h][p] in b.fwd && b.fwd[b.buckets[h][p]] + EPHEMERON_NEXT < |m.to|
    requires i < |b.buckets[h]| && i != p && i != p - 1
    ensures b.buckets[h][i] in b.fwd && b.fwd[b.buckets[h][i]] + EPHEMERON_NEXT < |m.to|
    ensures var k := b.fwd[b.buckets[h][i]] + EPHEMERON_NEXT;
            QueueMemory(c, m, b, h, p).to[k] == m.to[k]
  {
    hide Apart, Links;
    ItemLinked(c, m, b, h, i);
    MovedCell(c, m, b, h, p, b.buckets[h][i], EPHEMERON_NEXT);
  }

  lemma PredecessorItem(c: Setup, m: Memory, b: Book, h: nat, p: nat)
    requires h < |b.buckets| && h < |m.table| && 0 < p < |b.buckets[h]| && BucketOk(c, m, b, h) && Apart(c, b)
    requires b.buckets[h][p] in b.fwd && b.fwd[b.buckets[h][p]] + EPHEMERON_NEXT < |m.to|
    ensures b.buckets[h][p - 1] in b.fwd && b.fwd[b.buckets[h][p - 1]] + EPHEMERON_NEXT < |m.to|
    ensures QueueMemory(c, m, b, h, p).to[b.fwd[b.buckets[h][p - 1]] + EPHEMERON_NEXT]
         == m.to[b.fwd[b.buckets[h][p]] + EPHEMERON_NEXT]
  {
    hide Links;
    ItemLinked(c, m, b, h, p - 1);
    ItemLinked(c, m, b, h, p);
  }

  lemma BucketLinks(c: Setup, m: Memory, b: Book, h: nat)
    requires BucketOk(c, m, b, h)
    ensures Links(c, m.to, b.fwd, b.buckets[h], EPHEMERON_NEXT, m.table[h])
  {
  }

  lemma UnlinkedLinks(c: Setup, m: Memory, b: Book, h: nat, p: nat)
    requires h < |b.buckets| && h < |m.table| && p < |b.buckets[h]| && BucketOk(c, m, b, h) && Apart(c, b)
    requires b.buckets[h][p] in b.fwd && b.fwd[b.buckets[h][p]] + EPHEMERON_NEXT < |m.to|
    ensures var m' := QueueMemory(c, m, b, h, p);
            Links(c, m'.to, b.fwd, Without(b.buckets[h], p), EPHEMERON_NEXT, m'.table[h])
  {
    hide BucketOk, Apart, Links, UnlinkedTo;
    var items := b.buckets[h];
    var m' := QueueMemory(c, m, b, h, p);
    BucketLinks(c, m, b, h);
    forall i | 0 <= i < |items| && i != p && i != p - 1
      ensures items[i] in b.fwd && b.fwd[items[i]] + EPHEMERON_NEXT < |m.to|
      ensures m'.to[b.fwd[items[i]] + EPHEMERON_NEXT] == m.to[b.fwd[items[i]] + EPHEMERON_NEXT]
    {
      OtherItem(c, m, b, h, p, i);
    }
    if p > 0 {
      PredecessorItem(c, m, b, h, p);
    }
    UnlinkLinks(c, m.to, b.fwd, items, EPHEMERON_NEXT, m.table[h], p, m'.to);
  }

  lemma UnlinkKeeps(c: Setup, m: Memory, b: Book, h: nat, p: nat)
    requires h < |b.buckets| && h < |m.table| && p < |b.buckets[h]| && BucketOk(c, m, b, h) && Apart(c, b)
    requires b.buckets[h][p] in b.fwd && b.fwd[b.buckets[h][p]] + EPHEMERON_NEXT < |m.to|
    ensures BucketOk(c, QueueMemory(c, m, b, h, p), QueueBook(b, h, p), h)
  {
    hide Apart, Links;
    UnlinkedLinks(c, m, b, h, p);
    WithoutMembers(b.buckets[h], p);
  }

  lemma MoveLinks(c: Setup, m: Memory, b: Book, h: nat, p: nat, items: seq<nat>, slot: nat, head: Word)
    requires h < |b.buckets| && h < |m.table| && p < |b.buckets[h]| && BucketOk(c, m, b, h) && Apart(c, b)
    requires slot < EPHEMERON_SIZE && Links(c, m.to, b.fwd, items, slot, head)
    requires forall e | e in items :: e in b.status
    requires slot == EPHEMERON_NEXT ==> forall e | e in items :: e !in b.buckets[h]
    requires b.buckets[h][p] in b.fwd && b.fwd[b.buckets[h][p]] + EPHEMERON_NEXT < |m.to|
    ensures Links(c, QueueMemory(c, m, b, h, p).to, b.fwd, items, slot, head)
  {
    hide BucketOk, Apart;
    var m' := QueueMemory(c, m, b, h, p);
    forall i | 0 <= i < |items| && items[i] in b.fwd && b.fwd[items[i]] + slot < |m.to|
      ensures m'.to[b.fwd[items[i]] + slot] == m.to[b.fwd[items[i]] + slot]
    {
      assert items[i] in items;
      assert b.buckets[h][p] in b.buckets[h];
      assert p > 0 ==> b.buckets[h][p - 1] in b.buckets[h];
      MovedCell(c, m, b, h, p, items[i], slot);
    }
    KeepLinks(c, m.to, b.fwd, items, slot, head, m'.to, b.fwd);
  }

  /** After the move the queue starts with the moved ephemeron. */
  lemma MoveQueue(c: Setup, m: Memory, b: Book, h: nat, p: nat)
    requires h < |b.buckets| && h < |m.table| && p < |b.buckets[h]| && BucketOk(c, m, b, h) && Apart(c, b)
    requires TableOk(c, m, b)
    requires b.buckets[h][p] in b.fwd && b.fwd[b.buckets[h][p]] + EPHEMERON_NEXT < |m.to|
    ensures var m', b' := QueueMemory(c, m, b, h, p), QueueBook(b, h, p);
            && Distinct(b'.queued) && Links(c, m'.to, b'.fwd, b'.queued, EPHEMERON_NEXT, m'.queue)
            && (forall e :: e in b'.queued <==> e in b'.status && b'.status[e].Queued?)
  {
    hide Apart, Links;
    var m', b' := QueueMemory(c, m, b, h, p), QueueBook(b, h, p);
    var e := b.buckets[h][p];
    ItemLinked(c, m, b, h, p);
    assert forall x | x in b.queued :: x !in b.buckets[h];
    MoveLinks(c, m, b, h, p, b.queued, EPHEMERON_NEXT, m.queue);
    PushLinks(c, m'.to, b.fwd, b.queued, EPHEMERON_NEXT, m.queue, e);
    assert forall x :: x in b'.queued <==> x == e || x in b.queued;
  }

  lemma MoveBucket(c: Setup, m: Memory, b: Book, h: nat, p: nat, h': nat)
    requires h < |b.buckets| && h < |m.table| && p < |b.buckets[h]| && BucketOk(c, m, b, h)
    requires h' != h && BucketOk(c, m, b, h') && Apart(c, b)
    requires b.buckets[h][p] in b.fwd && b.fwd[b.buckets[h][p]] + EPHEMERON_NEXT < |m.to|
    ensures BucketOk(c, QueueMemory(c, m, b, h, p), QueueBook(b, h, p), h')
  {
    hide Apart, Links;
    assert forall e | e in b.buckets[h'] :: e !in b.buckets[h];
    ItemLinked(c, m, b, h, p);
    assert b.buckets[h][p] in b.buckets[h];
    MoveLinks(c, m, b, h, p, b.buckets[h'], EPHEMERON_NEXT, m.table[h']);
  }

  lemma MoveTable(c: Setup, m: Memory, b: Book, h: nat, p: nat)
    requires h < |b.buckets| && h < |m.table| && p < |b.buckets[h]|
    requires Apart(c, b) && TableOk(c, m, b)
    requires b.buckets[h][p] in b.fwd && b.fwd[b.buckets[h][p]] + EPHEMERON_NEXT < |m.to|
    ensures TableOk(c, QueueMemory(c, m, b, h, p), QueueBook(b, h, p))
  {
    hide Apart, Links;
    var m', b' := QueueMemory(c, m, b, h, p), QueueBook(b, h, p);
    var e := b.buckets[h][p];
    assert BucketOk(c, m, b, h);
    MoveQueue(c, m, b, h, p);
    forall h' | 0 <= h' < |m'.table|
      ensures BucketOk(c, m', b', h')
    {
      assert BucketOk(c, m, b, h');
      if h' == h { UnlinkKeeps(c, m, b, h, p); } else { MoveBucket(c, m, b, h, p, h'); }
    }
    WithoutMembers(b.buckets[h], p);
    forall x | x in b'.status && b'.status[x].Waiting? && IsEphemeron(c.g, x)
      ensures x in b'.buckets[Hash(c, x, |m'.table|)]
    {
      assert x != e && x in b.buckets[Hash(c, x, |m.table|)];
    }
  }

  lemma WrittenCell(c: Setup, m: Memory, b: Book, h: nat, p: nat, i: nat)
    requires h < |b.buckets| && h < |m.table| && p < |b.buckets[h]| && BucketOk(c, m, b, h)
    requires Sizes(c, m, b) && Placed(c, b) && i < |m.to|
    requires forall e | e in b.status :: e in b.fwd && c.g.blocks[e].size == EPHEMERON_SIZE
    requires b.buckets[h][p] in b.fwd && b.fwd[b.buckets[h][p]] + EPHEMERON_NEXT < |m.to|
    ensures QueueMemory(c, m, b, h, p).to[i] != m.to[i] ==>
              |c.seeds| <= i && b.own[i] in b.status && i == b.fwd[b.own[i]] + EPHEMERON_NEXT
  {
    var e := b.buckets[h][p];
    ItemLinked(c, m, b, h, p);
    assert b.own[b.fwd[e] + EPHEMERON_NEXT] == e;
    if p > 0 {
      var d := b.buckets[h][p - 1];
      ItemLinked(c, m, b, h, p - 1);
      assert b.own[b.fwd[d] + EPHEMERON_NEXT] == d;
    }
  }

  lemma MoveCell(c: Setup, m: Memory, b: Book, m': Memory, b': Book, e: nat, i: nat)
    requires CellOk(c, m, b, i) && |m'.to| == |m.to|
    requires m'.to[i] != m.to[i] ==> b.own[i] in b.status && IsEphemeron(c.g, b.own[i]) && i == b.fwd[b.own[i]] + EPHEMERON_NEXT
    requires b'.fwd == b.fwd && b'.own == b.own && b'.scan == b.scan
    requires e in b.status && b.status[e].Waiting? && b'.status == b.status[e := Queued]
    ensures CellOk(c, m', b', i)
  {
  }

  lemma MoveCells(c: Setup, m: Memory, b: Book, h: nat, p: nat)
    requires h < |b.buckets| && h < |m.table| && p < |b.buckets[h]| && BucketOk(c, m, b, h)
    requires WellFormed(c.g) && Sizes(c, m, b) && Placed(c, b) && CellsOk(c, m, b) && ListOk(c, m, b)
    requires b.buckets[h][p] in b.fwd && b.fwd[b.buckets[h][p]] + EPHEMERON_NEXT < |m.to|
    ensures CellsOk(c, QueueMemory(c, m, b, h, p), QueueBook(b, h, p))
  {
    hide WellFormed, Placed, CellOk, BucketOk;
    var m', b' := QueueMemory(c, m, b, h, p), QueueBook(b, h, p);
    ListedSize(c, m, b);
    ItemLinked(c, m, b, h, p);
    forall i | 0 <= i < |c.seeds|
      ensures m'.to[i] == m.to[i]
    {
      WrittenCell(c, m, b, h, p, i);
    }
    forall i | |c.seeds| <= i < |m.to|
      ensures CellOk(c, m', b', i)
    {
      WrittenCell(c, m, b, h, p, i);
      MoveCell(c, m, b, m', b', b.buckets[h][p], i);
    }
  }

  lemma QueueFrame(c: Setup, m: Memory, b: Book, h: nat, p: nat)
    requires h < |b.buckets| && h < |m.table| && p < |b.buckets[h]|
    requires b.buckets[h][p] in b.status && ListOk(c, m, b)
    requires b.buckets[h][p] in b.fwd && b.fwd[b.buckets[h][p]] + EPHEMERON_NEXT < |m.to|
    requires ScanPlace(c, b) && Apart(c, b) && BucketOk(c, m, b, h)
    ensures ScanPlace(c, QueueBook(b, h, p))
    ensures ListOk(c, QueueMemory(c, m, b, h, p), QueueBook(b, h, p))
  {
    MoveLinks(c, m, b, h, p, b.elist, EPHEMERON_LIST, m.list);
  }

  /** Moving item p of bucket h to the queue. */
  lemma QueueKeeps(c: Setup, m: Memory, b: Book, h: nat, p: nat)
    requires Inv(c, m, b)
    requires h < |m.table| && p < |b.buckets[h]|
    ensures b.buckets[h][p] in b.fwd && b.fwd[b.buckets[h][p]] + EPHEMERON_NEXT < |m.to|
    ensures Inv(c, QueueMemory(c, m, b, h, p), QueueBook(b, h, p))
  {
    hide WellFormed, Placed, CellsOk, HeapOk, ChainOk, ListOk, ScanPlace, AllLive, Apart, Links;
    var e := b.buckets[h][p];
    assert BucketOk(c, m, b, h);
    ListedApart(c, m, b);
    ItemLinked(c, m, b, h, p);
    var m', b' := QueueMemory(c, m, b, h, p), QueueBook(b, h, p);
    assert CellsOk(c, m', b') by { MoveCells(c, m, b, h, p); }
    assert TableOk(c, m', b') by { MoveTable(c, m, b, h, p); }
    assert ListOk(c, m', b') && ScanPlace(c, b') by { QueueFrame(c, m, b, h, p); }
    ScanFrame(c, m, b, m', b');
  }

  // ----- taking an ephemeron off the queue -----

  function PopMemory(m: Memory, b: Book): Memory
    requires |b.queued| > 0 && b.queued[0] in b.fwd && b.fwd[b.queued[0]] + EPHEMERON_NEXT < |m.to|
  {
    m.(queue := m.to[b.fwd[b.queued[0]] + EPHEMERON_NEXT])
  }

  function PopBook(b: Book): Book
    requires |b.queued| > 0
  {
    b.(queued := b.queued[1..], status := b.status[b.queued[0] := Popped])
  }

  lemma QueuedItem(c: Setup, m: Memory, b: Book)
    requires TableOk(c, m, b) && |b.queued| > 0
    ensures var e := b.queued[0];
            e in b.status && b.status[e].Queued? && e in b.fwd && b.fwd[e] + EPHEMERON_NEXT < |m.to|
  {
    assert b.queued[0] in b.queued;
    LinkOf(c, m.to, b.fwd, b.queued, EPHEMERON_NEXT, m.queue, 0);
  }

  lemma PopTable(c: Setup, m: Memory, b: Book)
    requires |b.queued| > 0 && TableOk(c, m, b)
    requires b.queued[0] in b.fwd && b.fwd[b.queued[0]] + EPHEMERON_NEXT < |m.to|
    ensures TableOk(c, PopMemory(m, b), PopBook(b))
  {
    hide Links;
    var m', b' := PopMemory(m, b), PopBook(b);
    var e := b.queued[0];
    QueuedItem(c, m, b);
    DropLinks(c, m.to, b.fwd, b.queued, EPHEMERON_NEXT, m.queue);
    forall h | 0 <= h < |m.table|
      ensures BucketOk(c, m', b', h)
    {
      assert BucketOk(c, m, b, h);
    }
    assert forall x :: x in b.queued <==> x == e || x in b'.queued;
  }

  lemma StatusCells(c: Setup, m: Memory, b: Book, b': Book, e: nat, s: Status)
    requires Sizes(c, m, b) && CellsOk(c, m, b)
    requires e in b.status && !b.status[e].Scanned? && !s.Scanned?
    requires b'.fwd == b.fwd && b'.own == b.own && b'.scan == b.scan && b'.status == b.status[e := s]
    ensures CellsOk(c, m, b')
  {
    forall i | |c.seeds| <= i < |m.to|
      ensures CellOk(c, m, b', i)
    {
      assert CellOk(c, m, b, i);
    }
  }

  lemma PopList(c: Setup, m: Memory, b: Book)
    requires |b.queued| > 0 && b.queued[0] in b.status && ListOk(c, m, b)
    requires b.queued[0] in b.fwd && b.fwd[b.queued[0]] + EPHEMERON_NEXT < |m.to|
    ensures ListOk(c, PopMemory(m, b), PopBook(b))
  {
  }

  lemma PopKeeps(c: Setup, m: Memory, b: Book)
    requires Inv(c, m, b) && |b.queued| > 0
    ensures b.queued[0] in b.fwd && b.fwd[b.queued[0]] + EPHEMERON_NEXT < |m.to|
    ensures Inv(c, PopMemory(m, b), PopBook(b))
  {
    hide WellFormed, Placed, CellsOk, HeapOk, ChainOk, AllLive, ListOk, TableOk;
    var e := b.queued[0];
    QueuedItem(c, m, b);
    var m', b' := PopMemory(m, b), PopBook(b);
    assert CellsOk(c, m', b') by { StatusCells(c, m, b, b', e, Popped); PopSame(c, m, b, b'); }
    assert TableOk(c, m', b') by { PopTable(c, m, b); }
    assert ListOk(c, m', b') by { PopList(c, m, b); }
    ScanFrame(c, m, b, m', b');
  }

  lemma PopSame(c: Setup, m: Memory, b: Book, b': Book)
    requires |b.queued| > 0 && b.queued[0] in b.fwd && b.fwd[b.queued[0]] + EPHEMERON_NEXT < |m.to|
    requires CellsOk(c, m, b')
    ensures CellsOk(c, PopMemory(m, b), b')
  {
    forall i | |c.seeds| <= i < |m.to|
      ensures CellOk(c, PopMemory(m, b), b', i)
    {
      assert CellOk(c, m, b', i);
    }
  }

  // ----- scanning the datum of an ephemeron taken off the queue -----

  function DatumMemory(c: Setup, m: Memory, b: Book, e: nat): Memory
    requires e in b.fwd && b.fwd[e] + EPHEMERON_DATUM < |m.to| && IsEphemeron(c.g, e)
  {
    m.(to := m.to[b.fwd[e] + EPHEMERON_DATUM := Relocate(c, b.fwd, Datum(c.g, e))])
  }

  function DatumBook(b: Book, e: nat): Book {
    b.(status := b.status[e := Scanned])
  }

  ghost predicate DatumReady(c: Setup, b: Book, e: nat) {
    && e in b.status && b.status[e].Popped? && IsEphemeron(c.g, e) && e in b.fwd
    && (Points(c.g, Datum(c.g, e)) ==> Datum(c.g, e).datum in b.fwd)
  }

  lemma DatumCells(c: Setup, m: Memory, b: Book, e: nat)
    requires WellFormed(c.g) && Sizes(c, m, b) && Placed(c, b) && CellsOk(c, m, b) && ListOk(c, m, b)
    requires DatumReady(c, b, e) && b.fwd[e] + EPHEMERON_DATUM < |m.to|
    ensures CellsOk(c, DatumMemory(c, m, b, e), DatumBook(b, e))
  {
    hide BlockOk, ListOk, WellFormed;
    var m', b' := DatumMemory(c, m, b, e), DatumBook(b, e);
    ListedSize(c, m, b);
    assert b.own[Cell(b, e, EPHEMERON_DATUM)] == e;
    forall i | |c.seeds| <= i < |m.to|
      ensures CellOk(c, m', b', i)
    {
      assert CellOk(c, m, b, i);
    }
  }

  lemma DatumLinks(c: Setup, m: Memory, b: Book, e: nat, items: seq<nat>, slot: nat, head: Word)
    requires Links(c, m.to, b.fwd, items, slot, head) && Apart(c, b)
    requires forall x | x in items :: x in b.status
    requires DatumReady(c, b, e) && b.fwd[e] + EPHEMERON_DATUM < |m.to|
    requires slot in {EPHEMERON_LIST, EPHEMERON_NEXT}
    ensures Links(c, DatumMemory(c, m, b, e).to, b.fwd, items, slot, head)
  {
    forall i | 0 <= i < |items|
      ensures items[i] in b.fwd && b.fwd[items[i]] + slot != b.fwd[e] + EPHEMERON_DATUM
    {
      assert items[i] in b.status;
    }
    KeepLinks(c, m.to, b.fwd, items, slot, head, DatumMemory(c, m, b, e).to, b.fwd);
  }

  lemma DatumLists(c: Setup, m: Memory, b: Book, e: nat)
    requires ListOk(c, m, b) && TableOk(c, m, b) && Apart(c, b)
    requires DatumReady(c, b, e) && b.fwd[e] + EPHEMERON_DATUM < |m.to|
    ensures ListOk(c, DatumMemory(c, m, b, e), DatumBook(b, e)) && TableOk(c, DatumMemory(c, m, b, e), DatumBook(b, e))
  {
    hide Links, Apart;
    var m', b' := DatumMemory(c, m, b, e), DatumBook(b, e);
    DatumLinks(c, m, b, e, b.elist, EPHEMERON_LIST, m.list);
    DatumLinks(c, m, b, e, b.queued, EPHEMERON_NEXT, m.queue);
    forall h | 0 <= h < |m.table|
      ensures BucketOk(c, m', b', h)
    {
      assert BucketOk(c, m, b, h);
      DatumLinks(c, m, b, e, b.buckets[h], EPHEMERON_NEXT, m.table[h]);
    }
  }

  lemma DatumKeeps(c: Setup, m: Memory, b: Book, e: nat)
    requires Inv(c, m, b) && DatumReady(c, b, e)
    ensures b.fwd[e] + EPHEMERON_DATUM < |m.to|
    ensures Inv(c, DatumMemory(c, m, b, e), DatumBook(b, e))
  {
    hide WellFormed, CellsOk, HeapOk, ChainOk, AllLive, ListOk, TableOk, Apart;
    ListedSize(c, m, b);
    ListedApart(c, m, b);
    assert b.fwd[e] + EPHEMERON_DATUM < |m.to|;
    var m', b' := DatumMemory(c, m, b, e), DatumBook(b, e);
    assert CellsOk(c, m', b') by { DatumCells(c, m, b, e); }
    assert ListOk(c, m', b') && TableOk(c, m', b') by { DatumLists(c, m, b, e); }
    ScanFrame(c, m, b, m', b');
  }
}
