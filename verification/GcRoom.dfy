/**
 Tospace as large as the seeds and fromspace together is large enough: every word of fromspace
 is copied at most once.
 */
module GcRoom {
  import opened Objects
  import opened HeapGraph
  import opened GcState

  ghost predicate NoRepeats(s: seq<nat>) {
    forall i, j | 0 <= i < j < |s| :: s[i] != s[j]
  }

  /** The numbers from lo up to hi. */
  function Interval(lo: nat, hi: nat): (r: set<nat>)
    requires lo <= hi
    ensures forall x :: x in r <==> lo <= x < hi
    ensures |r| == hi - lo
    decreases hi - lo
  {
    if lo == hi then {} else {lo} + Interval(lo + 1, hi)
  }

  function ToSet(s: seq<nat>): set<nat> {
    set x | x in s
  }

  lemma {:induction false} Elements(s: seq<nat>)
    requires NoRepeats(s)
    ensures |ToSet(s)| == |s|
  {
    if s != [] {
      var t := s[1..];
      Elements(t);
      assert s[0] !in t;
      assert ToSet(s) == {s[0]} + ToSet(t);
    }
  }

  lemma Subset(a: set<nat>, b: set<nat>)
    requires a <= b
    ensures |a| <= |b|
  {
    assert |b| == |a + (b - a)| == |a| + |b - a|;
  }

  lemma Pigeonhole(s: seq<nat>, lo: nat, hi: nat)
    requires NoRepeats(s) && lo <= hi
    requires forall i | 0 <= i < |s| :: lo <= s[i] < hi
    ensures |s| <= hi - lo
  {
    Elements(s);
    Subset(ToSet(s), Interval(lo, hi));
  }

  /** The oldspace address of the word copied to tospace cell i. */
  function Source(c: Setup, b: Book, i: nat): int {
    if i < |b.own| && b.own[i] in b.fwd then b.own[i] + i - b.fwd[b.own[i]] else -1
  }

  ghost predicate Disjoint(g: Graph) {
    forall a, b | a in g.blocks && b in g.blocks && a < b :: a + g.blocks[a].size <= b
  }

  /** No fromspace word is copied to two tospace cells. */
  lemma CopiedOnce(c: Setup, b: Book, i: nat, j: nat)
    requires Placed(c, b) && Disjoint(c.g)
    requires |c.seeds| <= i < |b.own| && |c.seeds| <= j < |b.own| && i != j
    ensures Source(c, b, i) != Source(c, b, j)
  {
  }

  /** A cell's source lies in the object the cell was copied for. */
  lemma SourceInside(c: Setup, b: Book, i: nat)
    requires Placed(c, b) && |c.seeds| <= i < |b.own|
    ensures b.own[i] in c.g.blocks
    ensures b.own[i] <= Source(c, b, i) < b.own[i] + c.g.blocks[b.own[i]].size
  {
  }

  /** The sources of the copied words, in tospace order, followed by the words of object a. */
  function Sources(c: Setup, b: Book, a: nat, k: nat): nat
    requires |c.seeds| <= |b.own|
  {
    var i := |c.seeds| + k;
    if i < |b.own| then (if Source(c, b, i) >= 0 then Source(c, b, i) else 0) else a + (i - |b.own|)
  }

  lemma SourcesInside(c: Setup, b: Book, a: nat, k: nat)
    requires WellFormed(c.g) && Placed(c, b) && a in c.g.blocks
    requires |c.seeds| + k < |b.own| + c.g.blocks[a].size
    ensures c.g.lo <= Sources(c, b, a, k) < c.g.hi
  {
    assert BlockOk(c.g, a);
    if |c.seeds| + k < |b.own| {
      SourceInside(c, b, |c.seeds| + k);
      assert BlockOk(c.g, b.own[|c.seeds| + k]);
    }
  }

  lemma SourcesDiffer(c: Setup, b: Book, a: nat, j: nat, k: nat)
    requires Disjoint(c.g) && Placed(c, b) && a in c.g.blocks && a !in b.fwd
    requires j < k && |c.seeds| + k < |b.own| + c.g.blocks[a].size
    ensures Sources(c, b, a, j) != Sources(c, b, a, k)
  {
    if |c.seeds| + j < |b.own| { SourceInside(c, b, |c.seeds| + j); }
    if |c.seeds| + k < |b.own| {
      SourceInside(c, b, |c.seeds| + k);
      CopiedOnce(c, b, |c.seeds| + j, |c.seeds| + k);
    }
  }

  /** There is room for an object not copied yet. */
  lemma RoomFor(c: Setup, b: Book, a: nat)
    requires WellFormed(c.g) && Placed(c, b)
    requires a in c.g.blocks && a !in b.fwd
    ensures |b.own| + c.g.blocks[a].size <= |c.seeds| + c.g.hi - c.g.lo
  {
    assert Disjoint(c.g) && |c.seeds| <= |b.own|;
    hide WellFormed, Placed, Disjoint, Sources;
    var n := |b.own| - |c.seeds| + c.g.blocks[a].size;
    var s := seq(n, k requires 0 <= k < n => Sources(c, b, a, k));
    forall k | 0 <= k < |s|
      ensures c.g.lo <= s[k] < c.g.hi
    {
      SourcesInside(c, b, a, k);
    }
    forall j, k | 0 <= j < k < |s|
      ensures s[j] != s[k]
    {
      SourcesDiffer(c, b, a, j, k);
    }
    assert c.g.lo <= c.g.hi by { SourcesInside(c, b, a, n - 1); }
    Pigeonhole(s, c.g.lo, c.g.hi);
  }
}
