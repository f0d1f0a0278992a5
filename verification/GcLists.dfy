/**
 Lists threaded through a slot of copied ephemerons: growing, pushing, dropping the first item, unlinking one.
 */
module GcLists {
  import opened Objects
  import opened HeapGraph
  import opened GcState

  ghost predicate Grows(fwd: map<nat, nat>, fwd': map<nat, nat>) {
    forall x | x in fwd :: x in fwd' && fwd'[x] == fwd[x]
  }

  /** The links of a list's items are the same in two memories. */
  ghost predicate SameLinks(to: seq<Word>, to': seq<Word>, fwd: map<nat, nat>, items: seq<nat>, slot: nat) {
    && |to| <= |to'|
    && (forall i | 0 <= i < |items| && items[i] in fwd && fwd[items[i]] + slot < |to| ::
          to'[fwd[items[i]] + slot] == to[fwd[items[i]] + slot])
  }

  lemma LinkHead(c: Setup, to: seq<Word>, fwd: map<nat, nat>, items: seq<nat>, slot: nat, head: Word)
    requires Links(c, to, fwd, items, slot, head)
    ensures head == RefAt(c, fwd, items, 0)
  {
  }

  lemma LinkOf(c: Setup, to: seq<Word>, fwd: map<nat, nat>, items: seq<nat>, slot: nat, head: Word, p: nat)
    requires Links(c, to, fwd, items, slot, head) && p < |items|
    ensures items[p] in fwd && fwd[items[p]] + slot < |to|
    ensures RefAt(c, fwd, items, p) == Word(Ephemeron, c.newStart + fwd[items[p]])
    ensures to[fwd[items[p]] + slot] == RefAt(c, fwd, items, p + 1)
  {
    assert LinkedAt(c, to, fwd, items, slot, p);
  }

  /** A reference into a list ends only where the list does. */
  lemma LinksEnd(c: Setup, to: seq<Word>, fwd: map<nat, nat>, items: seq<nat>, slot: nat, head: Word, p: nat)
    requires Links(c, to, fwd, items, slot, head) && p <= |items| && !RefAt(c, fwd, items, p).tag.Ephemeron?
    ensures p == |items|
  {
    if p < |items| {
      LinkOf(c, to, fwd, items, slot, head, p);
    }
  }

  lemma KeepLinks(c: Setup, to: seq<Word>, fwd: map<nat, nat>, items: seq<nat>, slot: nat, head: Word,
                  to': seq<Word>, fwd': map<nat, nat>)
    requires Links(c, to, fwd, items, slot, head)
    requires Grows(fwd, fwd') && SameLinks(to, to', fwd, items, slot)
    ensures Links(c, to', fwd', items, slot, head)
  {
    forall i | 0 <= i < |items|
      ensures LinkedAt(c, to', fwd', items, slot, i)
    {
      LinkOf(c, to, fwd, items, slot, head, i);
      if i + 1 < |items| {
        LinkOf(c, to, fwd, items, slot, head, i + 1);
      }
    }
    if |items| > 0 {
      LinkOf(c, to, fwd, items, slot, head, 0);
    }
  }

  lemma PushLinks(c: Setup, to: seq<Word>, fwd: map<nat, nat>, items: seq<nat>, slot: nat, head: Word, e: nat)
    requires Links(c, to, fwd, items, slot, head)
    requires e in fwd && fwd[e] + slot < |to| && to[fwd[e] + slot] == head
    ensures Links(c, to, fwd, [e] + items, slot, Word(Ephemeron, c.newStart + fwd[e]))
  {
    var items' := [e] + items;
    forall i | 0 <= i < |items'|
      ensures LinkedAt(c, to, fwd, items', slot, i)
    {
      if i > 0 {
        assert items'[i] == items[i - 1];
        LinkOf(c, to, fwd, items, slot, head, i - 1);
        assert RefAt(c, fwd, items', i + 1) == RefAt(c, fwd, items, i);
      } else {
        assert RefAt(c, fwd, items', 1) == RefAt(c, fwd, items, 0);
      }
    }
  }

  lemma DropLinks(c: Setup, to: seq<Word>, fwd: map<nat, nat>, items: seq<nat>, slot: nat, head: Word)
    requires Links(c, to, fwd, items, slot, head) && |items| > 0
    ensures items[0] in fwd && fwd[items[0]] + slot < |to|
    ensures Links(c, to, fwd, items[1..], slot, to[fwd[items[0]] + slot])
  {
    var items' := items[1..];
    LinkOf(c, to, fwd, items, slot, head, 0);
    forall i | 0 <= i < |items'|
      ensures LinkedAt(c, to, fwd, items', slot, i)
    {
      assert items'[i] == items[i + 1];
      LinkOf(c, to, fwd, items, slot, head, i + 1);
      assert RefAt(c, fwd, items', i + 1) == RefAt(c, fwd, items, i + 2);
    }
    assert RefAt(c, fwd, items', 0) == RefAt(c, fwd, items, 1);
  }

  function Without(items: seq<nat>, p: nat): seq<nat>
    requires p < |items|
  {
    items[..p] + items[p + 1..]
  }

  lemma WithoutMembers(items: seq<nat>, p: nat)
    requires p < |items| && Distinct(items)
    ensures Distinct(Without(items, p))
    ensures forall x :: x in Without(items, p) <==> x in items && x != items[p]
  {
    var items' := Without(items, p);
    forall x | x in items && x != items[p]
      ensures x in items'
    {
      var i :| 0 <= i < |items| && items[i] == x;
      assert items'[if i < p then i else i - 1] == x;
    }
  }

  lemma WithoutAt(c: Setup, fwd: map<nat, nat>, items: seq<nat>, p: nat, i: nat)
    requires p < |items|
    ensures |Without(items, p)| == |items| - 1
    ensures i < |items| - 1 ==> Without(items, p)[i] == items[if i < p then i else i + 1]
    ensures RefAt(c, fwd, Without(items, p), i) == RefAt(c, fwd, items, if i < p then i else i + 1)
  {
  }

  /** Only the links of item p and its predecessor differ, and the predecessor's is now what item p's was. */
  ghost predicate Bypassed(to: seq<Word>, to': seq<Word>, fwd: map<nat, nat>, items: seq<nat>, slot: nat, p: nat) {
    && |to'| == |to|
    && (forall i | 0 <= i < |items| && i != p && i != p - 1 && items[i] in fwd && fwd[items[i]] + slot < |to| ::
          to'[fwd[items[i]] + slot] == to[fwd[items[i]] + slot])
    && (0 < p < |items| && items[p - 1] in fwd && items[p] in fwd
        && fwd[items[p - 1]] + slot < |to| && fwd[items[p]] + slot < |to| ==>
          to'[fwd[items[p - 1]] + slot] == to[fwd[items[p]] + slot])
  }

  lemma UnlinkAt(c: Setup, to: seq<Word>, fwd: map<nat, nat>, items: seq<nat>, slot: nat, head: Word,
                 p: nat, to': seq<Word>, i: nat)
    requires Links(c, to, fwd, items, slot, head) && p < |items| && Bypassed(to, to', fwd, items, slot, p)
    requires i < |Without(items, p)|
    ensures LinkedAt(c, to', fwd, Without(items, p), slot, i)
  {
    hide RefAt, Without, Links;
    WithoutAt(c, fwd, items, p, i);
    WithoutAt(c, fwd, items, p, i + 1);
    LinkOf(c, to, fwd, items, slot, head, p);
    LinkOf(c, to, fwd, items, slot, head, if i < p then i else i + 1);
  }

  /** Unlinking item p: its predecessor's link, or the head, takes over its link. */
  lemma UnlinkLinks(c: Setup, to: seq<Word>, fwd: map<nat, nat>, items: seq<nat>, slot: nat, head: Word,
                    p: nat, to': seq<Word>)
    requires Links(c, to, fwd, items, slot, head) && p < |items| && Bypassed(to, to', fwd, items, slot, p)
    ensures items[p] in fwd && fwd[items[p]] + slot < |to|
    ensures Links(c, to', fwd, Without(items, p), slot, if p == 0 then to[fwd[items[p]] + slot] else head)
  {
    hide RefAt, Without, LinkedAt, Bypassed;
    WithoutAt(c, fwd, items, p, 0);
    LinkOf(c, to, fwd, items, slot, head, p);
    LinkHead(c, to, fwd, items, slot, head);
    forall i | 0 <= i < |Without(items, p)|
      ensures LinkedAt(c, to', fwd, Without(items, p), slot, i)
    {
      UnlinkAt(c, to, fwd, items, slot, head, p, to', i);
    }
  }
}
