/**
 The walk of queue_ephemerons_for_key through a bucket of the ephemeron table: when it ends, and what it has done
 then. After a match the walk goes on from the slot of the ephemeron just queued, that is, in the queue. Nothing
 is asked of the keys here.
 */
module GcWalk {
  import opened Objects
  import opened HeapGraph
  import opened GcState
  import opened GcLists
  import opened GcSteps
  import opened GcQueue
  import opened GcMoves

  /** The walk is about to follow the link at `loc`, in the table or in tospace. */
  datatype Walk = Walk(m: Memory, inTable: bool, loc: nat)

  function Entry(w: Walk): Word {
    if w.inTable then
      if w.loc < |w.m.table| then w.m.table[w.loc] else SHARP_F
    else
      if w.loc < |w.m.to| then w.m.to[w.loc] else SHARP_F
  }

  /** Unlinks the entry whose next slot is given, and puts it at the front of the queue. */
  function Requeue(w: Walk, next: nat): Memory
    requires next < |w.m.to|
    requires if w.inTable then w.loc < |w.m.table| else w.loc < |w.m.to|
  {
    var linked := if w.inTable then w.m.(table := w.m.table[w.loc := w.m.to[next]])
                  else w.m.(to := w.m.to[w.loc := w.m.to[next]]);
    linked.(to := linked.to[next := linked.queue], queue := Entry(w))
  }

  /** One turn of the loop. */
  function WalkStep(start: nat, addr: nat, w: Walk): Walk {
    var entry := Entry(w);
    if !entry.tag.Ephemeron? || entry.datum < start || entry.datum - start + EPHEMERON_SIZE > |w.m.to| then w
    else
      var index := entry.datum - start;
      var next := index + EPHEMERON_NEXT;
      if addr == WeakReferentAddress(w.m.to[index + EPHEMERON_KEY]) then Walk(Requeue(w, next), false, next)
      else Walk(w.m, false, next)
  }

  function WalkAfter(start: nat, addr: nat, w: Walk, n: nat): Walk {
    if n == 0 then w else WalkStep(start, addr, WalkAfter(start, addr, w, n - 1))
  }

  function Begin(m: Memory, addr: nat): Walk
    requires |m.table| > 0
  {
    Walk(m, true, addr % |m.table|)
  }

  /** After n turns the walk is over. */
  predicate Over(start: nat, addr: nat, w: Walk, n: nat) {
    !Entry(WalkAfter(start, addr, w, n)).tag.Ephemeron?
  }

  ghost predicate Ends(start: nat, addr: nat, w: Walk) {
    exists n: nat :: Over(start, addr, w, n)
  }

  lemma AfterNone(start: nat, addr: nat, w: Walk)
    ensures WalkAfter(start, addr, w, 0) == w
  {
  }

  lemma AfterOneMore(start: nat, addr: nat, w: Walk, n: nat)
    ensures WalkAfter(start, addr, w, n + 1) == WalkStep(start, addr, WalkAfter(start, addr, w, n))
  {
  }

  lemma {:induction false} AfterSum(start: nat, addr: nat, w: Walk, i: nat, j: nat)
    ensures WalkAfter(start, addr, w, i + j) == WalkAfter(start, addr, WalkAfter(start, addr, w, i), j)
    decreases j
  {
    if j > 0 {
      AfterSum(start, addr, w, i, j - 1);
    }
  }

  lemma {:induction false} OverStays(start: nat, addr: nat, w: Walk, n: nat)
    requires !Entry(w).tag.Ephemeron?
    ensures WalkAfter(start, addr, w, n) == w
  {
    if n > 0 {
      OverStays(start, addr, w, n - 1);
    }
  }

  /** All turns at which the walk is over find the same memory. */
  lemma OverSame(start: nat, addr: nat, w: Walk, n: nat, k: nat)
    requires Over(start, addr, w, n) && n <= k
    ensures Over(start, addr, w, k) && WalkAfter(start, addr, w, k) == WalkAfter(start, addr, w, n)
  {
    AfterSum(start, addr, w, n, k - n);
    OverStays(start, addr, WalkAfter(start, addr, w, n), k - n);
  }

  // ----- two queued ephemerons of the key that are unlinked and pushed in turn -----

  /** The walk stands behind the queue's first ephemeron, at x, before another one, at y, both of the key. */
  ghost predicate Trapped(start: nat, addr: nat, w: Walk, x: nat, y: nat) {
    && !w.inTable && w.loc == x + EPHEMERON_NEXT
    && x + EPHEMERON_SIZE <= |w.m.to| && y + EPHEMERON_SIZE <= |w.m.to|
    && (x + EPHEMERON_SIZE <= y || y + EPHEMERON_SIZE <= x)
    && WeakReferentAddress(w.m.to[x + EPHEMERON_KEY]) == addr == WeakReferentAddress(w.m.to[y + EPHEMERON_KEY])
    && w.m.to[x + EPHEMERON_NEXT] == Word(Ephemeron, start + y)
    && w.m.queue == Word(Ephemeron, start + x)
  }

  lemma TrappedStep(start: nat, addr: nat, w: Walk, x: nat, y: nat)
    requires Trapped(start, addr, w, x, y)
    ensures Trapped(start, addr, WalkStep(start, addr, w), y, x)
  {
  }

  /** Two turns lead back to where they started. */
  lemma TrappedCycle(start: nat, addr: nat, w: Walk, x: nat, y: nat)
    requires Trapped(start, addr, w, x, y)
    ensures WalkStep(start, addr, WalkStep(start, addr, w)) == w
  {
    var w1 := WalkStep(start, addr, w);
    TrappedStep(start, addr, w, x, y);
    var w2 := WalkStep(start, addr, w1);
    assert w1.m.to == w.m.to[x + EPHEMERON_NEXT := w.m.to[y + EPHEMERON_NEXT]][y + EPHEMERON_NEXT := w.m.queue];
    assert w2.m.to == w1.m.to[y + EPHEMERON_NEXT := w1.m.to[x + EPHEMERON_NEXT]][x + EPHEMERON_NEXT := w1.m.queue];
    assert w2.m.to == w.m.to;
  }

  lemma {:induction false} TrappedStays(start: nat, addr: nat, w: Walk, x: nat, y: nat, n: nat)
    requires Trapped(start, addr, w, x, y)
    ensures Entry(WalkAfter(start, addr, w, n)).tag.Ephemeron?
    ensures if n % 2 == 0 then WalkAfter(start, addr, w, n) == w else WalkAfter(start, addr, w, n) == WalkStep(start, addr, w)
  {
    hide WalkStep;
    TrappedStep(start, addr, w, x, y);
    TrappedCycle(start, addr, w, x, y);
    if n > 0 {
      TrappedStays(start, addr, w, x, y, n - 1);
    }
  }

  /** A walk that gets there never ends. */
  lemma TrappedForever(start: nat, addr: nat, w: Walk, k: nat, x: nat, y: nat)
    requires Trapped(start, addr, WalkAfter(start, addr, w, k), x, y)
    ensures !Ends(start, addr, w)
  {
    hide WalkAfter, Trapped;
    forall n: nat
      ensures !Over(start, addr, w, n)
    {
      if Over(start, addr, w, n) {
        OverSame(start, addr, w, n, n + k);
        AfterSum(start, addr, w, k, n);
        TrappedStays(start, addr, WalkAfter(start, addr, w, k), x, y, n);
      }
    }
  }

  // ----- what a walk reads and writes -----

  /** Not a reference to an ephemeron, or one to the copy of an ephemeron of the set. */
  ghost predicate RefOk(c: Setup, fwd: map<nat, nat>, listed: set<nat>, x: Word) {
    x.tag.Ephemeron? ==> exists e :: e in listed && e in fwd && x == Word(Ephemeron, c.newStart + fwd[e])
  }

  /** All that the walk can meet are references to listed ephemerons. */
  ghost predicate Sound(c: Setup, fwd: map<nat, nat>, listed: set<nat>, w: Walk) {
    && (if w.inTable then w.loc < |w.m.table| else exists e :: e in listed && e in fwd && w.loc == fwd[e] + EPHEMERON_NEXT)
    && (forall h | 0 <= h < |w.m.table| :: RefOk(c, fwd, listed, w.m.table[h]))
    && (forall e | e in listed :: e in fwd && fwd[e] + EPHEMERON_SIZE <= |w.m.to|)
    && (forall e | e in listed && e in fwd && fwd[e] + EPHEMERON_SIZE <= |w.m.to| ::
          RefOk(c, fwd, listed, w.m.to[fwd[e] + EPHEMERON_NEXT]))
    && RefOk(c, fwd, listed, w.m.queue)
  }

  lemma SoundStep(c: Setup, fwd: map<nat, nat>, listed: set<nat>, addr: nat, w: Walk)
    requires Sound(c, fwd, listed, w)
    ensures Sound(c, fwd, listed, WalkStep(c.newStart, addr, w))
  {
    if Entry(w).tag.Ephemeron? {
      var e :| e in listed && e in fwd && Entry(w) == Word(Ephemeron, c.newStart + fwd[e]);
      assert WalkStep(c.newStart, addr, w).loc == fwd[e] + EPHEMERON_NEXT;
    }
  }

  lemma StepSizes(start: nat, addr: nat, w: Walk)
    ensures |WalkStep(start, addr, w).m.to| == |w.m.to| && |WalkStep(start, addr, w).m.table| == |w.m.table|
  {
  }

  lemma {:induction false} SoundAfter(c: Setup, fwd: map<nat, nat>, listed: set<nat>, addr: nat, w: Walk, n: nat)
    requires Sound(c, fwd, listed, w)
    ensures Sound(c, fwd, listed, WalkAfter(c.newStart, addr, w, n))
    ensures |WalkAfter(c.newStart, addr, w, n).m.to| == |w.m.to|
    ensures |WalkAfter(c.newStart, addr, w, n).m.table| == |w.m.table|
  {
    hide WalkStep, Sound;
    if n > 0 {
      SoundAfter(c, fwd, listed, addr, w, n - 1);
      SoundStep(c, fwd, listed, addr, WalkAfter(c.newStart, addr, w, n - 1));
      StepSizes(c.newStart, addr, WalkAfter(c.newStart, addr, w, n - 1));
    }
  }

  lemma LinksSound(c: Setup, to: seq<Word>, fwd: map<nat, nat>, items: seq<nat>, slot: nat, head: Word, listed: set<nat>, i: nat)
    requires Links(c, to, fwd, items, slot, head) && forall e | e in items :: e in listed
    ensures RefOk(c, fwd, listed, head)
    ensures i < |items| ==> items[i] in fwd && fwd[items[i]] + slot < |to| && RefOk(c, fwd, listed, to[fwd[items[i]] + slot])
  {
    LinkHead(c, to, fwd, items, slot, head);
    if |items| > 0 {
      LinkOf(c, to, fwd, items, slot, head, 0);
    }
    if i < |items| {
      LinkOf(c, to, fwd, items, slot, head, i);
      if i + 1 < |items| {
        LinkOf(c, to, fwd, items, slot, head, i + 1);
      }
    }
  }

  /** The ephemerons that wait or are queued. */
  ghost function OnLists(b: Book): set<nat> {
    set e | e in b.status && (b.status[e].Waiting? || b.status[e].Queued?)
  }

  lemma OnListsSound(c: Setup, m: Memory, b: Book, e: nat)
    requires Inv(c, m, b) && e in OnLists(b)
    ensures e in b.fwd && b.fwd[e] + EPHEMERON_SIZE <= |m.to|
    ensures RefOk(c, b.fwd, OnLists(b), m.to[b.fwd[e] + EPHEMERON_NEXT])
  {
    hide SetupOk, Sizes, Placed, CellsOk, ScanPlace, AllLive, HeapOk, ChainOk, ListOk, RefOk, Links;
    ListedKeyInv(c, m, b, e);
    var listed := OnLists(b);
    if b.status[e].Queued? {
      var i :| 0 <= i < |b.queued| && b.queued[i] == e;
      LinksSound(c, m.to, b.fwd, b.queued, EPHEMERON_NEXT, m.queue, listed, i);
    } else {
      var h := Hash(c, e, |m.table|);
      assert BucketOk(c, m, b, h);
      var i :| 0 <= i < |b.buckets[h]| && b.buckets[h][i] == e;
      LinksSound(c, m.to, b.fwd, b.buckets[h], EPHEMERON_NEXT, m.table[h], listed, i);
    }
  }

  lemma BeginSound(c: Setup, m: Memory, b: Book, addr: nat)
    requires Inv(c, m, b)
    ensures |m.table| > 0 && Sound(c, b.fwd, OnLists(b), Begin(m, addr))
  {
    hide SetupOk, Sizes, Placed, CellsOk, ScanPlace, AllLive, HeapOk, ChainOk, ListOk, RefOk, Links;
    var listed := OnLists(b);
    forall h | 0 <= h < |m.table|
      ensures RefOk(c, b.fwd, listed, m.table[h])
    {
      assert BucketOk(c, m, b, h);
      LinksSound(c, m.to, b.fwd, b.buckets[h], EPHEMERON_NEXT, m.table[h], listed, 0);
    }
    LinksSound(c, m.to, b.fwd, b.queued, EPHEMERON_NEXT, m.queue, listed, 0);
    forall e | e in listed
      ensures e in b.fwd && b.fwd[e] + EPHEMERON_SIZE <= |m.to| && RefOk(c, b.fwd, listed, m.to[b.fwd[e] + EPHEMERON_NEXT])
    {
      OnListsSound(c, m, b, e);
    }
  }

  /** At every turn, the link and the ephemeron that it refers to are inside the table and tospace. */
  lemma WalkInside(c: Setup, m: Memory, b: Book, addr: nat, n: nat)
    requires Inv(c, m, b) && |m.table| > 0
    ensures var w := WalkAfter(c.newStart, addr, Begin(m, addr), n);
            && |w.m.to| == |m.to| && |w.m.table| == |m.table|
            && (if w.inTable then w.loc < |m.table| else w.loc < |m.to|)
            && (Entry(w).tag.Ephemeron? ==>
                  c.newStart <= Entry(w).datum && Entry(w).datum - c.newStart + EPHEMERON_SIZE <= |m.to|)
  {
    hide Inv, WalkAfter;
    BeginSound(c, m, b, addr);
    SoundAfter(c, b.fwd, OnLists(b), addr, Begin(m, addr), n);
  }

  // ----- the turns of a walk, item by item -----

  predicate Matches(c: Setup, e: nat, addr: nat) {
    IsEphemeron(c.g, e) && Key(c.g, e).datum == addr
  }

  predicate NoneOf(c: Setup, items: seq<nat>, addr: nat) {
    forall i | 0 <= i < |items| :: !Matches(c, items[i], addr)
  }

  /** The place of the first ephemeron of the key, or the length. */
  function FirstMatch(c: Setup, items: seq<nat>, addr: nat): (p: nat)
    ensures p <= |items| && NoneOf(c, items[..p], addr) && (p < |items| ==> Matches(c, items[p], addr))
    ensures p == |items| <==> NoneOf(c, items, addr)
  {
    if items == [] then 0
    else if Matches(c, items[0], addr) then 0
    else
      var p := FirstMatch(c, items[1..], addr);
      assert forall i | 0 < i < |items| :: items[i] == items[1..][i - 1];
      p + 1
  }

  /** What the walk does when it ends: it queues the first ephemeron of the key in the bucket. */
  function Queueing(c: Setup, b: Book, h: nat, addr: nat): Book
    requires h < |b.buckets|
  {
    var p := FirstMatch(c, b.buckets[h], addr);
    if p < |b.buckets[h]| then QueueBook(b, h, p) else b
  }

  /** A turn at a listed ephemeron. */
  lemma StepAt(c: Setup, m: Memory, b: Book, addr: nat, w: Walk, e: nat)
    requires Inv(c, m, b) && w.m == m && e in b.status && e in b.fwd
    requires Entry(w) == Word(Ephemeron, c.newStart + b.fwd[e])
    ensures b.fwd[e] + EPHEMERON_SIZE <= |m.to| && (if w.inTable then w.loc < |m.table| else w.loc < |m.to|)
    ensures WalkStep(c.newStart, addr, w) ==
            Walk(if Matches(c, e, addr) then Requeue(w, b.fwd[e] + EPHEMERON_NEXT) else m, false, b.fwd[e] + EPHEMERON_NEXT)
  {
    hide Inv, Requeue;
    ListedKeyInv(c, m, b, e);
  }

  /** Where the walk is before item k, when nothing has matched. */
  function Before(b: Book, m: Memory, h: nat, items: seq<nat>, k: nat): Walk
    requires k <= |items| && (k > 0 ==> items[k - 1] in b.fwd)
  {
    if k == 0 then Walk(m, true, h) else Walk(m, false, b.fwd[items[k - 1]] + EPHEMERON_NEXT)
  }

  lemma BucketMember(c: Setup, m: Memory, b: Book, h: nat, k: nat)
    requires Inv(c, m, b) && h < |m.table|
    ensures |b.buckets| == |m.table|
    ensures k < |b.buckets[h]| ==> b.buckets[h][k] in b.status && b.buckets[h][k] in b.fwd
    ensures 0 < k <= |b.buckets[h]| ==> b.buckets[h][k - 1] in b.fwd
    ensures k <= |b.buckets[h]| ==> Entry(Before(b, m, h, b.buckets[h], k)) == RefAt(c, b.fwd, b.buckets[h], k)
  {
    hide Inv, RefAt;
    TableLists(c, m, b, h);
    var items := b.buckets[h];
    if k < |items| {
      assert items[k] in items;
      LinkOf(c, m.to, b.fwd, items, EPHEMERON_NEXT, m.table[h], k);
    }
    if 0 < k <= |items| {
      LinkOf(c, m.to, b.fwd, items, EPHEMERON_NEXT, m.table[h], k - 1);
    }
    LinkHead(c, m.to, b.fwd, items, EPHEMERON_NEXT, m.table[h]);
  }

  lemma RefIs(c: Setup, fwd: map<nat, nat>, items: seq<nat>, k: nat)
    requires k < |items| ==> items[k] in fwd
    ensures RefAt(c, fwd, items, k) == if k < |items| then Word(Ephemeron, c.newStart + fwd[items[k]]) else SHARP_F
  {
  }

  /** As long as nothing matches, the walk goes from item to item of the bucket. */
  lemma {:induction false} BucketTurns(c: Setup, m: Memory, b: Book, addr: nat, k: nat)
    requires Inv(c, m, b) && |m.table| == |b.buckets| > 0
    requires var items := b.buckets[addr % |m.table|]; k <= |items| && NoneOf(c, items[..k], addr)
    ensures var h := addr % |m.table|;
            && (k > 0 ==> b.buckets[h][k - 1] in b.fwd)
            && WalkAfter(c.newStart, addr, Begin(m, addr), k) == Before(b, m, h, b.buckets[h], k)
  {
    hide Inv, RefAt, WalkStep;
    var h := addr % |m.table|;
    var items := b.buckets[h];
    BucketMember(c, m, b, h, k);
    if k > 0 {
      assert items[..k - 1] == items[..k][..k - 1];
      assert items[..k][k - 1] == items[k - 1];
      BucketTurns(c, m, b, addr, k - 1);
      BucketMember(c, m, b, h, k - 1);
      RefIs(c, b.fwd, items, k - 1);
      StepAt(c, m, b, addr, Before(b, m, h, items, k - 1), items[k - 1]);
    }
  }

  lemma NothingFound(c: Setup, m: Memory, b: Book, addr: nat)
    requires Inv(c, m, b) && |m.table| == |b.buckets| > 0 && NoneOf(c, b.buckets[addr % |m.table|], addr)
    ensures var n := |b.buckets[addr % |m.table|]|;
            Over(c.newStart, addr, Begin(m, addr), n) && WalkAfter(c.newStart, addr, Begin(m, addr), n).m == m
  {
    hide Inv, RefAt, WalkAfter;
    var h := addr % |m.table|;
    var items := b.buckets[h];
    assert items[..|items|] == items;
    BucketTurns(c, m, b, addr, |items|);
    BucketMember(c, m, b, h, |items|);
    RefIs(c, b.fwd, items, |items|);
  }

  /** The first match moves the ephemeron to the queue and the walk behind it. */
  lemma MatchFound(c: Setup, m: Memory, b: Book, addr: nat, p: nat)
    requires Inv(c, m, b) && |m.table| == |b.buckets| > 0
    requires p == FirstMatch(c, b.buckets[addr % |m.table|], addr) < |b.buckets[addr % |m.table|]|
    ensures var h := addr % |m.table|;
            var e := b.buckets[h][p];
            && e in b.fwd && b.fwd[e] + EPHEMERON_NEXT < |m.to|
            && WalkAfter(c.newStart, addr, Begin(m, addr), p + 1)
               == Walk(QueueMemory(c, m, b, h, p), false, b.fwd[e] + EPHEMERON_NEXT)
            && Inv(c, QueueMemory(c, m, b, h, p), QueueBook(b, h, p))
  {
    hide Inv, RefAt, WalkStep, QueueMemory;
    var h := addr % |m.table|;
    var items := b.buckets[h];
    BucketTurns(c, m, b, addr, p);
    BucketMember(c, m, b, h, p);
    RefIs(c, b.fwd, items, p);
    var w := Before(b, m, h, items, p);
    StepAt(c, m, b, addr, w, items[p]);
    QueueKeeps(c, m, b, h, p);
    RequeueIs(c, m, b, h, p, w);
  }

  lemma RequeueIs(c: Setup, m: Memory, b: Book, h: nat, p: nat, w: Walk)
    requires h < |m.table| && h < |b.buckets| && p < |b.buckets[h]| && b.buckets[h][p] in b.fwd
    requires b.fwd[b.buckets[h][p]] + EPHEMERON_NEXT < |m.to| && (p > 0 ==> b.buckets[h][p - 1] in b.fwd)
    requires w == Before(b, m, h, b.buckets[h], p) && (!w.inTable ==> w.loc < |m.to|)
    requires Entry(w) == Word(Ephemeron, c.newStart + b.fwd[b.buckets[h][p]])
    ensures Requeue(w, b.fwd[b.buckets[h][p]] + EPHEMERON_NEXT) == QueueMemory(c, m, b, h, p)
  {
  }

  lemma QueueMember(c: Setup, m: Memory, b: Book, k: nat)
    requires Inv(c, m, b) && 0 < k <= |b.queued|
    ensures b.queued[k - 1] in b.fwd && b.queued[k - 1] in b.status
    ensures k < |b.queued| ==> b.queued[k] in b.status && b.queued[k] in b.fwd
    ensures Entry(Walk(m, false, b.fwd[b.queued[k - 1]] + EPHEMERON_NEXT)) == RefAt(c, b.fwd, b.queued, k)
  {
    hide SetupOk, Placed, CellsOk, ScanPlace, AllLive, HeapOk, ChainOk, ListOk, RefAt, BucketOk, Links;
    LinkOf(c, m.to, b.fwd, b.queued, EPHEMERON_NEXT, m.queue, k - 1);
    assert b.queued[k - 1] in b.queued;
    if k < |b.queued| {
      assert b.queued[k] in b.queued;
      LinkOf(c, m.to, b.fwd, b.queued, EPHEMERON_NEXT, m.queue, k);
    }
  }

  /** Behind the first of the queue, the walk goes from item to item of the queue as long as nothing matches. */
  lemma {:induction false} QueueTurns(c: Setup, m: Memory, b: Book, addr: nat, k: nat)
    requires Inv(c, m, b) && k < |b.queued| && NoneOf(c, b.queued[1..k + 1], addr)
    ensures b.queued[0] in b.fwd && b.queued[k] in b.fwd
    ensures WalkAfter(c.newStart, addr, Walk(m, false, b.fwd[b.queued[0]] + EPHEMERON_NEXT), k)
         == Walk(m, false, b.fwd[b.queued[k]] + EPHEMERON_NEXT)
  {
    hide Inv, RefAt, WalkStep;
    QueueMember(c, m, b, 1);
    QueueMember(c, m, b, k + 1);
    if k > 0 {
      assert b.queued[1..k] == b.queued[1..k + 1][..k - 1];
      assert b.queued[1..k + 1][k - 1] == b.queued[k];
      QueueTurns(c, m, b, addr, k - 1);
      QueueMember(c, m, b, k);
      RefIs(c, b.fwd, b.queued, k);
      StepAt(c, m, b, addr, Walk(m, false, b.fwd[b.queued[k - 1]] + EPHEMERON_NEXT), b.queued[k]);
    }
  }

  /** With no ephemeron of the key on the queue, the walk runs to the end of the queue. */
  lemma QueueRunsOut(c: Setup, m: Memory, b: Book, addr: nat)
    requires Inv(c, m, b) && |b.queued| > 0 && NoneOf(c, b.queued[1..], addr)
    ensures b.queued[0] in b.fwd
    ensures var w := Walk(m, false, b.fwd[b.queued[0]] + EPHEMERON_NEXT);
            Over(c.newStart, addr, w, |b.queued| - 1) && WalkAfter(c.newStart, addr, w, |b.queued| - 1).m == m
  {
    hide Inv, RefAt, WalkAfter;
    var k := |b.queued| - 1;
    assert b.queued[1..k + 1] == b.queued[1..];
    QueueTurns(c, m, b, addr, k);
    QueueMember(c, m, b, k + 1);
    RefIs(c, b.fwd, b.queued, k + 1);
  }

  /** With one there, it is trapped between that one and the one just queued. */
  lemma QueueTraps(c: Setup, m: Memory, b: Book, addr: nat, k: nat)
    requires Inv(c, m, b) && 0 < k < |b.queued| && NoneOf(c, b.queued[1..k], addr)
    requires Matches(c, b.queued[0], addr) && Matches(c, b.queued[k], addr)
    ensures b.queued[0] in b.fwd && b.queued[k] in b.fwd
    ensures Trapped(c.newStart, addr, WalkAfter(c.newStart, addr, Walk(m, false, b.fwd[b.queued[0]] + EPHEMERON_NEXT), k),
                    b.fwd[b.queued[k]], b.fwd[b.queued[0]])
  {
    hide Inv, RefAt, WalkStep, Trapped;
    QueueTurns(c, m, b, addr, k - 1);
    QueueMember(c, m, b, 1);
    QueueMember(c, m, b, k);
    RefIs(c, b.fwd, b.queued, k);
    var w := Walk(m, false, b.fwd[b.queued[k - 1]] + EPHEMERON_NEXT);
    StepAt(c, m, b, addr, w, b.queued[k]);
    FirstQueuedIs(c, m, b);
    QueuedKeys(c, m, b, 0);
    QueuedKeys(c, m, b, k);
    QueuedKeys(c, m, b, k - 1);
    QueuedApart(c, m, b, 0, k);
    if k > 1 {
      QueuedApart(c, m, b, 0, k - 1);
      QueuedApart(c, m, b, k - 1, k);
    } else {
      QueuedApart(c, m, b, 0, k);
    }
    TrapSprings(c.newStart, addr, w, b.fwd[b.queued[k]], b.fwd[b.queued[0]], b.fwd[b.queued[k - 1]]);
  }

  /** Requeueing the ephemeron at x behind the one at z, when the one at y is the first of the queue. */
  lemma TrapSprings(start: nat, addr: nat, w: Walk, x: nat, y: nat, z: nat)
    requires !w.inTable && w.loc == z + EPHEMERON_NEXT
    requires x + EPHEMERON_SIZE <= |w.m.to| && y + EPHEMERON_SIZE <= |w.m.to| && z + EPHEMERON_SIZE <= |w.m.to|
    requires x + EPHEMERON_SIZE <= y || y + EPHEMERON_SIZE <= x
    requires x + EPHEMERON_SIZE <= z || z + EPHEMERON_SIZE <= x
    requires y == z || y + EPHEMERON_SIZE <= z || z + EPHEMERON_SIZE <= y
    requires WeakReferentAddress(w.m.to[x + EPHEMERON_KEY]) == addr == WeakReferentAddress(w.m.to[y + EPHEMERON_KEY])
    requires Entry(w) == Word(Ephemeron, start + x) && w.m.queue == Word(Ephemeron, start + y)
    ensures Trapped(start, addr, Walk(Requeue(w, x + EPHEMERON_NEXT), false, x + EPHEMERON_NEXT), x, y)
  {
  }

  lemma FirstQueuedIs(c: Setup, m: Memory, b: Book)
    requires Inv(c, m, b) && |b.queued| > 0
    ensures b.queued[0] in b.fwd && m.queue == Word(Ephemeron, c.newStart + b.fwd[b.queued[0]])
  {
    hide SetupOk, Placed, CellsOk, ScanPlace, AllLive, HeapOk, ChainOk, ListOk, BucketOk, Links;
    LinkHead(c, m.to, b.fwd, b.queued, EPHEMERON_NEXT, m.queue);
    LinkOf(c, m.to, b.fwd, b.queued, EPHEMERON_NEXT, m.queue, 0);
  }

  lemma QueuedKeys(c: Setup, m: Memory, b: Book, k: nat)
    requires Inv(c, m, b) && k < |b.queued|
    ensures b.queued[k] in b.fwd && IsEphemeron(c.g, b.queued[k]) && b.fwd[b.queued[k]] + EPHEMERON_SIZE <= |m.to|
    ensures WeakReferentAddress(m.to[b.fwd[b.queued[k]] + EPHEMERON_KEY]) == Key(c.g, b.queued[k]).datum
  {
    hide Inv;
    QueueMember(c, m, b, k + 1);
    ListedKeyInv(c, m, b, b.queued[k]);
  }

  lemma QueuedApart(c: Setup, m: Memory, b: Book, i: nat, j: nat)
    requires Inv(c, m, b) && i < |b.queued| && j < |b.queued| && i != j
    ensures b.queued[i] in b.fwd && b.queued[j] in b.fwd
    ensures b.fwd[b.queued[i]] + EPHEMERON_SIZE <= b.fwd[b.queued[j]] || b.fwd[b.queued[j]] + EPHEMERON_SIZE <= b.fwd[b.queued[i]]
  {
    hide WellFormed, Sizes, CellsOk, ScanPlace, AllLive, HeapOk, ChainOk, BucketOk, Links, Placed, ListOk;
    QueueMember(c, m, b, i + 1);
    QueueMember(c, m, b, j + 1);
    ListedApart(c, m, b);
    assert b.queued[i] != b.queued[j];
  }

  // ----- when the walk ends -----

  /** Of the bucket and the queue, at most one holds an ephemeron of the key. */
  ghost predicate WalkStops(c: Setup, b: Book, h: nat, addr: nat) {
    h < |b.buckets| && (NoneOf(c, b.buckets[h], addr) || NoneOf(c, b.queued, addr))
  }

  lemma TableSize(c: Setup, m: Memory, b: Book)
    requires Inv(c, m, b)
    ensures |m.table| == |b.buckets| > 0
  {
    hide SetupOk, Placed, CellsOk, ScanPlace, AllLive, HeapOk, ChainOk, ListOk, BucketOk;
  }

  /** How long it takes, and the memory it leaves. */
  lemma WalkResult(c: Setup, m: Memory, b: Book, addr: nat) returns (n: nat)
    requires Inv(c, m, b) && |m.table| == |b.buckets| > 0 && WalkStops(c, b, addr % |m.table|, addr)
    ensures Over(c.newStart, addr, Begin(m, addr), n)
    ensures Inv(c, WalkAfter(c.newStart, addr, Begin(m, addr), n).m, Queueing(c, b, addr % |m.table|, addr))
  {
    hide Inv, WalkAfter, QueueMemory, FirstMatch;
    var h := addr % |m.table|;
    var p := FirstMatch(c, b.buckets[h], addr);
    if p == |b.buckets[h]| {
      n := p;
      NothingFound(c, m, b, addr);
    } else {
      MatchFound(c, m, b, addr, p);
      var m', b' := QueueMemory(c, m, b, h, p), QueueBook(b, h, p);
      assert b'.queued[1..] == b.queued;
      QueueRunsOut(c, m', b', addr);
      n := p + 1 + |b.queued|;
      AfterSum(c.newStart, addr, Begin(m, addr), p + 1, |b.queued|);
    }
  }

  lemma WalkTrapped(c: Setup, m: Memory, b: Book, addr: nat)
    requires Inv(c, m, b) && |m.table| == |b.buckets| > 0 && !WalkStops(c, b, addr % |m.table|, addr)
    ensures !Ends(c.newStart, addr, Begin(m, addr))
  {
    hide Inv, WalkAfter, QueueMemory, FirstMatch, Ends, Trapped;
    var h := addr % |m.table|;
    var p := FirstMatch(c, b.buckets[h], addr);
    MatchFound(c, m, b, addr, p);
    var m', b' := QueueMemory(c, m, b, h, p), QueueBook(b, h, p);
    var j := FirstMatch(c, b.queued, addr);
    assert b'.queued[1..j + 1] == b.queued[..j];
    QueueTraps(c, m', b', addr, j + 1);
    AfterSum(c.newStart, addr, Begin(m, addr), p + 1, j + 1);
    TrappedForever(c.newStart, addr, Begin(m, addr), p + 1 + (j + 1), b'.fwd[b'.queued[j + 1]], b'.fwd[b'.queued[0]]);
  }

  /** The walk ends if and only if bucket and queue do not both hold an ephemeron of the key. */
  lemma WalkEndsWhen(c: Setup, m: Memory, b: Book, addr: nat)
    requires Inv(c, m, b)
    ensures |m.table| > 0
    ensures Ends(c.newStart, addr, Begin(m, addr)) <==> WalkStops(c, b, addr % |m.table|, addr)
  {
    hide Inv;
    TableSize(c, m, b);
    if WalkStops(c, b, addr % |m.table|, addr) {
      var n := WalkResult(c, m, b, addr);
      assert Over(c.newStart, addr, Begin(m, addr), n);
    } else {
      WalkTrapped(c, m, b, addr);
    }
  }

  // ----- when it has queued what it should -----

  predicate WaitsFor(c: Setup, b: Book, e: nat, addr: nat) {
    e in b.status && b.status[e].Waiting? && Matches(c, e, addr)
  }

  ghost predicate AtMostOneWaits(c: Setup, b: Book, addr: nat) {
    forall e, f | WaitsFor(c, b, e, addr) && WaitsFor(c, b, f, addr) :: e == f
  }

  /** The walk ends, and in the memory it leaves exactly the ephemerons of the key that waited have been queued. */
  ghost predicate QueuesAll(c: Setup, m: Memory, b: Book, addr: nat) {
    |m.table| > 0 &&
    exists n: nat, b': Book ::
      && Over(c.newStart, addr, Begin(m, addr), n)
      && Inv(c, WalkAfter(c.newStart, addr, Begin(m, addr), n).m, b')
      && QueuedFor(c, b, b', addr)
  }

  /** Who waits for the key waits in its bucket. */
  lemma WaitsInBucket(c: Setup, m: Memory, b: Book, addr: nat, e: nat)
    requires Inv(c, m, b) && |m.table| == |b.buckets| > 0
    ensures WaitsFor(c, b, e, addr) <==> Matches(c, e, addr) && e in b.buckets[addr % |m.table|]
  {
    hide SetupOk, Placed, CellsOk, ScanPlace, AllLive, HeapOk, ChainOk, ListOk, Links;
    assert BucketOk(c, m, b, addr % |m.table|);
  }

  lemma InNoneOf(c: Setup, items: seq<nat>, addr: nat, e: nat)
    requires NoneOf(c, items, addr) && e in items
    ensures !Matches(c, e, addr)
  {
  }

  lemma QueueingFor(c: Setup, m: Memory, b: Book, addr: nat)
    requires Inv(c, m, b) && |m.table| == |b.buckets| > 0 && AtMostOneWaits(c, b, addr)
    ensures QueuedFor(c, b, Queueing(c, b, addr % |m.table|, addr), addr)
  {
    hide Inv, FirstMatch;
    var h := addr % |m.table|;
    var p := FirstMatch(c, b.buckets[h], addr);
    var b' := Queueing(c, b, h, addr);
    if p < |b.buckets[h]| {
      WaitsInBucket(c, m, b, addr, b.buckets[h][p]);
    }
    forall e | e in b.status && IsEphemeron(c.g, e)
      ensures e in b'.status
      ensures b'.status[e] == if b.status[e].Waiting? && Key(c.g, e).datum == addr then Queued else b.status[e]
    {
      WaitsInBucket(c, m, b, addr, e);
      if p == |b.buckets[h]| && e in b.buckets[h] {
        InNoneOf(c, b.buckets[h], addr, e);
      }
    }
    assert b'.status.Keys == b.status.Keys;
  }

  /** One list only hangs from a head. */
  lemma {:induction false} LinksAgree(c: Setup, to: seq<Word>, fwd: map<nat, nat>, a: seq<nat>, b: seq<nat>, slot: nat, head: Word,
                                    i: nat)
    requires Links(c, to, fwd, a, slot, head) && Links(c, to, fwd, b, slot, head)
    requires forall x, y | x in fwd && y in fwd && fwd[x] == fwd[y] :: x == y
    requires i <= |a| && i <= |b| && RefAt(c, fwd, a, i) == RefAt(c, fwd, b, i)
    ensures a[i..] == b[i..]
    decreases |a| - i
  {
    hide Links;
    if i == |a| {
      LinksEnd(c, to, fwd, b, slot, head, i);
    } else if i == |b| {
      LinksEnd(c, to, fwd, a, slot, head, i);
    } else {
      LinkOf(c, to, fwd, a, slot, head, i);
      LinkOf(c, to, fwd, b, slot, head, i);
      assert a[i] == b[i];
      LinksAgree(c, to, fwd, a, b, slot, head, i + 1);
      assert a[i..] == [a[i]] + a[i + 1..] && b[i..] == [b[i]] + b[i + 1..];
    }
  }

  lemma CopiesDiffer(c: Setup, m: Memory, b: Book)
    requires Inv(c, m, b)
    ensures forall x, y | x in b.fwd && y in b.fwd && b.fwd[x] == b.fwd[y] :: x == y
  {
    hide CellsOk, ScanPlace, AllLive, HeapOk, ChainOk, ListOk, TableOk;
    forall x, y | x in b.fwd && y in b.fwd && b.fwd[x] == b.fwd[y]
      ensures x == y
    {
      assert BlockOk(c.g, x) && BlockOk(c.g, y);
      assert b.own[b.fwd[x]] == x && b.own[b.fwd[y]] == y;
    }
  }

  /** Memory determines the queue. */
  lemma SameQueue(c: Setup, m: Memory, b: Book, b': Book)
    requires Inv(c, m, b) && Inv(c, m, b') && b'.fwd == b.fwd
    ensures b'.queued == b.queued
  {
    hide SetupOk, Placed, CellsOk, ScanPlace, AllLive, HeapOk, ChainOk, ListOk, BucketOk, Links;
    CopiesDiffer(c, m, b);
    LinkHead(c, m.to, b.fwd, b.queued, EPHEMERON_NEXT, m.queue);
    LinkHead(c, m.to, b.fwd, b'.queued, EPHEMERON_NEXT, m.queue);
    LinksAgree(c, m.to, b.fwd, b.queued, b'.queued, EPHEMERON_NEXT, m.queue, 0);
    assert b.queued[0..] == b.queued && b'.queued[0..] == b'.queued;
  }

  lemma StatusQueued(c: Setup, m: Memory, b: Book, e: nat)
    requires Inv(c, m, b)
    ensures e in b.queued <==> e in b.status && b.status[e].Queued?
  {
    hide SetupOk, Placed, CellsOk, ScanPlace, AllLive, HeapOk, ChainOk, ListOk, BucketOk, Links;
  }

  lemma LiveListed(c: Setup, m: Memory, b: Book, e: nat)
    requires Inv(c, m, b) && e in b.status
    ensures Live(c.g, c.roots, e) && IsEphemeron(c.g, e) && Points(c.g, Key(c.g, e))
  {
    hide SetupOk, Sizes, Placed, CellsOk, ScanPlace, HeapOk, ChainOk, TableOk, Live, Links;
  }

  lemma CopiedIsLive(c: Setup, m: Memory, b: Book, a: nat)
    requires Inv(c, m, b) && a in b.fwd
    ensures Live(c.g, c.roots, a)
  {
    hide SetupOk, Sizes, Placed, CellsOk, ScanPlace, HeapOk, ChainOk, ListOk, TableOk, Live;
  }

  /** When no two live ephemerons share a live key, the walk for a live key ends and queues all that it should. */
  lemma DistinctStops(c: Setup, m: Memory, b: Book, addr: nat)
    requires Inv(c, m, b) && |m.table| == |b.buckets| > 0 && DistinctKeys(c.g, c.roots) && Live(c.g, c.roots, addr)
    ensures WalkStops(c, b, addr % |m.table|, addr)
    ensures QueuedFor(c, b, Queueing(c, b, addr % |m.table|, addr), addr)
  {
    hide Inv, Live, Queueing, QueuedFor, DistinctKeys;
    forall e, f | e in b.status && f in b.status && Matches(c, e, addr) && Matches(c, f, addr)
      ensures e == f
    {
      OnlyOne(c, m, b, addr, e, f);
    }
    var h := addr % |m.table|;
    forall i, j | 0 <= i < |b.buckets[h]| && 0 <= j < |b.queued| && Matches(c, b.buckets[h][i], addr)
      ensures !Matches(c, b.queued[j], addr)
    {
      WaitsInBucket(c, m, b, addr, b.buckets[h][i]);
      StatusQueued(c, m, b, b.queued[j]);
      assert b.queued[j] in b.queued;
    }
    QueueingFor(c, m, b, addr);
  }

  lemma OnlyOne(c: Setup, m: Memory, b: Book, addr: nat, e: nat, f: nat)
    requires Inv(c, m, b) && DistinctKeys(c.g, c.roots) && Live(c.g, c.roots, addr)
    requires e in b.status && f in b.status && Matches(c, e, addr) && Matches(c, f, addr)
    ensures e == f
  {
    hide Inv, Live;
    LiveListed(c, m, b, e);
    LiveListed(c, m, b, f);
  }

  /** A walk that has queued all that waited has found one at most. */
  lemma OneQueued(c: Setup, m: Memory, b: Book, addr: nat, n: nat, b': Book, e: nat)
    requires Inv(c, m, b) && |m.table| == |b.buckets| > 0
    requires Over(c.newStart, addr, Begin(m, addr), n)
    requires Inv(c, WalkAfter(c.newStart, addr, Begin(m, addr), n).m, b') && QueuedFor(c, b, b', addr)
    requires WaitsFor(c, b, e, addr)
    ensures var h := addr % |m.table|;
            var p := FirstMatch(c, b.buckets[h], addr);
            p < |b.buckets[h]| && e == b.buckets[h][p] && NoneOf(c, b.queued, addr)
  {
    hide Inv, FirstMatch, WalkAfter, NoneOf;
    var h := addr % |m.table|;
    var items := b.buckets[h];
    var p := FirstMatch(c, items, addr);
    WaitsInBucket(c, m, b, addr, e);
    if p == |items| {
      InNoneOf(c, items, addr, e);
    }
    WalkEndsWhen(c, m, b, addr);
    var k := WalkResult(c, m, b, addr);
    if n <= k { OverSame(c.newStart, addr, Begin(m, addr), n, k); } else { OverSame(c.newStart, addr, Begin(m, addr), k, n); }
    var m' := WalkAfter(c.newStart, addr, Begin(m, addr), n).m;
    SameQueue(c, m', QueueBook(b, h, p), b');
    StatusQueued(c, m', b', e);
    StatusQueued(c, m, b, e);
    assert e in b'.queued;
  }

  /**
   The walk does what it is for, queueing exactly the waiting ephemerons of the key, if and only if none waits, or
   one waits and none is on the queue.
   */
  lemma QueuesAllWhen(c: Setup, m: Memory, b: Book, addr: nat)
    requires Inv(c, m, b)
    ensures QueuesAll(c, m, b, addr)
      <==> (forall e :: !WaitsFor(c, b, e, addr)) || (AtMostOneWaits(c, b, addr) && NoneOf(c, b.queued, addr))
  {
    hide Inv, FirstMatch, WalkAfter, NoneOf;
    TableSize(c, m, b);
    var h := addr % |m.table|;
    if (forall e :: !WaitsFor(c, b, e, addr)) || (AtMostOneWaits(c, b, addr) && NoneOf(c, b.queued, addr)) {
      NoneWaiting(c, m, b, addr);
      var n := WalkResult(c, m, b, addr);
      QueueingFor(c, m, b, addr);
      assert Over(c.newStart, addr, Begin(m, addr), n);
    } else if QueuesAll(c, m, b, addr) {
      var n: nat, b': Book :| Over(c.newStart, addr, Begin(m, addr), n)
        && Inv(c, WalkAfter(c.newStart, addr, Begin(m, addr), n).m, b') && QueuedFor(c, b, b', addr);
      forall e | WaitsFor(c, b, e, addr)
        ensures NoneOf(c, b.queued, addr)
        ensures FirstMatch(c, b.buckets[h], addr) < |b.buckets[h]| && e == b.buckets[h][FirstMatch(c, b.buckets[h], addr)]
      {
        OneQueued(c, m, b, addr, n, b', e);
      }
    }
  }

  lemma NoneWaiting(c: Setup, m: Memory, b: Book, addr: nat)
    requires Inv(c, m, b) && |m.table| == |b.buckets| > 0
    ensures (forall e :: !WaitsFor(c, b, e, addr)) ==> NoneOf(c, b.buckets[addr % |m.table|], addr)
  {
    hide Inv;
    var items := b.buckets[addr % |m.table|];
    forall i | 0 <= i < |items|
      ensures WaitsFor(c, b, items[i], addr) <==> Matches(c, items[i], addr)
    {
      WaitsInBucket(c, m, b, addr, items[i]);
    }
  }

  // ----- what fails for a shared key -----

  /** Two ephemerons that wait for one key, and none on the queue: the first call queues one, the second never returns. */
  lemma SecondCallNeverReturns(c: Setup, m: Memory, b: Book, addr: nat, e: nat, f: nat) returns (n: nat)
    requires Inv(c, m, b) && NoneOf(c, b.queued, addr)
    requires WaitsFor(c, b, e, addr) && WaitsFor(c, b, f, addr) && e != f
    ensures |m.table| > 0 && Over(c.newStart, addr, Begin(m, addr), n)
    ensures var m' := WalkAfter(c.newStart, addr, Begin(m, addr), n).m;
            |m'.table| > 0 && !Ends(c.newStart, addr, Begin(m', addr))
  {
    hide Inv, FirstMatch, WalkAfter, NoneOf;
    TableSize(c, m, b);
    n := WalkResult(c, m, b, addr);
    var h := addr % |m.table|;
    var p := FirstMatch(c, b.buckets[h], addr);
    var m' := WalkAfter(c.newStart, addr, Begin(m, addr), n).m;
    WaitsInBucket(c, m, b, addr, e);
    WaitsInBucket(c, m, b, addr, f);
    if p == |b.buckets[h]| { InNoneOf(c, b.buckets[h], addr, e); }
    var b' := QueueBook(b, h, p);
    var other := if e == b.buckets[h][p] then f else e;
    assert WaitsFor(c, b', other, addr);
    TableSize(c, m', b');
    WaitsInBucket(c, m', b', addr, other);
    if NoneOf(c, b'.buckets[addr % |m'.table|], addr) { InNoneOf(c, b'.buckets[addr % |m'.table|], addr, other); }
    assert b'.queued[0] in b'.queued;
    if NoneOf(c, b'.queued, addr) { InNoneOf(c, b'.queued, addr, b'.queued[0]); }
    WalkEndsWhen(c, m', b', addr);
  }

  /** The copies of two ephemerons with the key at 50, the second one first in the only bucket. */
  function TwoEphemerons(): Memory {
    var key := Word(TC_LIST, 50);
    Memory([],
           [UNMARKED_EPHEMERON_MANIFEST, key, SHARP_F, SHARP_F, SHARP_F,
            UNMARKED_EPHEMERON_MANIFEST, key, SHARP_F, SHARP_F, Word(Ephemeron, 100)],
           [Word(Ephemeron, 105)], 0, SHARP_F, SHARP_F)
  }

  /** The first call ends after one turn; the second is back after three turns where it was after one, and never ends. */
  lemma TwoEphemeronsFail()
    ensures var first := WalkAfter(100, 50, Begin(TwoEphemerons(), 50), 1);
            && Over(100, 50, Begin(TwoEphemerons(), 50), 1)
            && |first.m.table| > 0
            && WalkAfter(100, 50, Begin(first.m, 50), 3) == WalkAfter(100, 50, Begin(first.m, 50), 1)
            && !Ends(100, 50, Begin(first.m, 50))
  {
    hide Ends;
    var w0 := Begin(TwoEphemerons(), 50);
    var w1 := WalkStep(100, 50, w0);
    assert WalkAfter(100, 50, w0, 0) == w0;
    assert w1.m.table == [Word(Ephemeron, 100)] && w1.m.queue == Word(Ephemeron, 105) && !w1.inTable && w1.loc == 9;
    var v0 := Begin(w1.m, 50);
    var v1 := WalkStep(100, 50, v0);
    assert WalkAfter(100, 50, v0, 0) == v0;
    assert WalkAfter(100, 50, v0, 1) == v1;
    assert Trapped(100, 50, v1, 0, 5);
    TrappedCycle(100, 50, v1, 0, 5);
    AfterSum(100, 50, v0, 1, 2);
    assert WalkAfter(100, 50, v1, 0) == v1;
    assert WalkAfter(100, 50, v1, 1) == WalkStep(100, 50, v1);
    TrappedForever(100, 50, v0, 1, 0, 5);
  }
}
