/**
 The merge sort of src/microcode/findprim.c, in which two arrays change places at each level of the recursion.
 */
module MergeSorting {
  import opened AvlTrees

  /** A primitive's descriptor; only its name counts for the order. */
  datatype Descriptor = Descriptor(schemeName: Name, entry: nat)

  function Key(d: Descriptor): Name {
    Folded(d.schemeName)
  }

  /** Compares names without regard to case; the length decides when one is a prefix of the other. */
  method StrcmpCiByLength(s1: Name, s2: Name) returns (order: int)
    ensures order < 0 <==> Order(Folded(s1), Folded(s2)) < 0
    ensures order > 0 <==> Order(Folded(s1), Folded(s2)) > 0
  {
    var f1, f2 := Folded(s1), Folded(s2);
    assert f1[0..] == f1 && f2[0..] == f2;
    var length := if |s1| < |s2| then |s1| else |s2|;
    var i := 0;
    while i < length
      invariant 0 <= i <= length
      invariant Order(f1, f2) == Order(f1[i..], f2[i..])
    {
      var c1, c2 := ToUpper(s1[i]), ToUpper(s2[i]);
      if c1 < c2 { return -1; }
      if c1 > c2 { return 1; }
      assert f1[i..][1..] == f1[i + 1..] && f2[i..][1..] == f2[i + 1..];
      i := i + 1;
    }
    order := |s1| - |s2|;
  }

  method CompareDescriptors(d1: Descriptor, d2: Descriptor) returns (order: int)
    ensures order == Order(Key(d1), Key(d2))
  {
    OrderValues(Key(d1), Key(d2));
    var value := StrcmpCiByLength(d1.schemeName, d2.schemeName);
    order := if value > 0 then 1 else if value < 0 then -1 else 0;
  }

  // ----- what sorting gives -----

  function Merge(a: seq<Descriptor>, b: seq<Descriptor>): (r: seq<Descriptor>)
    ensures |r| == |a| + |b|
  {
    if a == [] then b
    else if b == [] then a
    else if Order(Key(a[0]), Key(b[0])) < 0 then [a[0]] + Merge(a[1..], b)
    else [b[0]] + Merge(a, b[1..])
  }

  function Sort(s: seq<Descriptor>): (r: seq<Descriptor>)
    ensures |r| == |s|
  {
    if |s| <= 1 then s else
      var middle := (|s| + 1) / 2;
      Merge(Sort(s[..middle]), Sort(s[middle..]))
  }

  ghost predicate Increasing(s: seq<Descriptor>) {
    forall i, j | 0 <= i < j < |s| :: Order(Key(s[i]), Key(s[j])) < 0
  }

  ghost predicate Distinct(s: seq<Descriptor>) {
    forall i, j | 0 <= i < j < |s| :: Key(s[i]) != Key(s[j])
  }

  /** No key of one occurs in the other. */
  ghost predicate Apart(a: seq<Descriptor>, b: seq<Descriptor>) {
    forall i, j | 0 <= i < |a| && 0 <= j < |b| :: Key(a[i]) != Key(b[j])
  }

  lemma {:induction false} MergePermutes(a: seq<Descriptor>, b: seq<Descriptor>)
    ensures multiset(Merge(a, b)) == multiset(a) + multiset(b)
  {
    if a != [] && b != [] {
      assert a == [a[0]] + a[1..] && b == [b[0]] + b[1..];
      if Order(Key(a[0]), Key(b[0])) < 0 { MergePermutes(a[1..], b); } else { MergePermutes(a, b[1..]); }
    }
  }

  /** Sorting permutes. */
  lemma {:induction false} SortPermutes(s: seq<Descriptor>)
    ensures multiset(Sort(s)) == multiset(s)
  {
    hide Merge, Sort;
    if |s| > 1 {
      var middle := (|s| + 1) / 2;
      SortUnfolds(s);
      SortPermutes(s[..middle]);
      SortPermutes(s[middle..]);
      MergePermutes(Sort(s[..middle]), Sort(s[middle..]));
      assert s == s[..middle] + s[middle..];
    } else {
      SortShort(s);
    }
  }

  lemma MemberOf(s: seq<Descriptor>, t: seq<Descriptor>, k: nat)
    requires multiset(s) == multiset(t) && k < |s|
    ensures s[k] in t
  {
    assert s[k] in multiset(s);
  }

  /** The first of a merge is the first of one of the parts, and below all the others. */
  lemma {:induction false} MergeIncreases(a: seq<Descriptor>, b: seq<Descriptor>)
    requires Increasing(a) && Increasing(b) && Apart(a, b)
    ensures Increasing(Merge(a, b))
  {
    if a != [] && b != [] {
      OrderZero(Key(a[0]), Key(b[0]));
      OrderReversed(Key(a[0]), Key(b[0]));
      if Order(Key(a[0]), Key(b[0])) < 0 {
        MergeIncreases(a[1..], b);
        FirstBelow(a[0], a[1..], b);
      } else {
        MergeIncreases(a, b[1..]);
        FirstBelow(b[0], a, b[1..]);
      }
    }
  }

  /** Something below the first of either part is below all of their merge. */
  lemma FirstBelow(d: Descriptor, a: seq<Descriptor>, b: seq<Descriptor>)
    requires Increasing(a) && Increasing(b)
    requires a != [] ==> Order(Key(d), Key(a[0])) < 0
    requires b != [] ==> Order(Key(d), Key(b[0])) < 0
    ensures forall k | 0 <= k < |Merge(a, b)| :: Order(Key(d), Key(Merge(a, b)[k])) < 0
  {
    MergePermutes(a, b);
    var m := Merge(a, b);
    forall k | 0 <= k < |m| ensures Order(Key(d), Key(m[k])) < 0 {
      assert multiset(m) == multiset(a + b);
      MemberOf(m, a + b, k);
      if m[k] in a {
        var i :| 0 <= i < |a| && a[i] == m[k];
        if i > 0 { OrderTransitive(Key(d), Key(a[0]), Key(a[i])); }
      } else {
        var i :| 0 <= i < |b| && b[i] == m[k];
        if i > 0 { OrderTransitive(Key(d), Key(b[0]), Key(b[i])); }
      }
    }
  }

  lemma StillApart(a: seq<Descriptor>, b: seq<Descriptor>, a': seq<Descriptor>, b': seq<Descriptor>)
    requires Apart(a, b) && multiset(a') == multiset(a) && multiset(b') == multiset(b)
    ensures Apart(a', b')
  {
    forall i, j | 0 <= i < |a'| && 0 <= j < |b'| ensures Key(a'[i]) != Key(b'[j]) {
      MemberOf(a', a, i);
      MemberOf(b', b, j);
    }
  }

  /** Sorting distinct keys puts them in order. */
  lemma {:induction false} SortIncreases(s: seq<Descriptor>)
    requires Distinct(s)
    ensures Increasing(Sort(s))
  {
    if |s| > 1 {
      var middle := (|s| + 1) / 2;
      var a, b := s[..middle], s[middle..];
      SortIncreases(a);
      SortIncreases(b);
      SortPermutes(a);
      SortPermutes(b);
      assert Apart(a, b);
      StillApart(a, b, Sort(a), Sort(b));
      MergeIncreases(Sort(a), Sort(b));
    }
  }

  /** Merging comes to two equal keys. */
  predicate Clash(a: seq<Descriptor>, b: seq<Descriptor>) {
    a != [] && b != [] &&
    var order := Order(Key(a[0]), Key(b[0]));
    order == 0 || (if order < 0 then Clash(a[1..], b) else Clash(a, b[1..]))
  }

  /** Merging ordered parts comes to equal keys exactly when there are any. */
  lemma {:induction false} ClashWhen(a: seq<Descriptor>, b: seq<Descriptor>)
    requires Increasing(a) && Increasing(b)
    ensures Clash(a, b) <==> !Apart(a, b)
  {
    if a != [] && b != [] {
      OrderZero(Key(a[0]), Key(b[0]));
      OrderReversed(Key(a[0]), Key(b[0]));
      if Order(Key(a[0]), Key(b[0])) < 0 {
        ClashWhen(a[1..], b);
        BelowAll(a[0], b);
        assert forall i | 0 <= i < |a| - 1 :: a[1..][i] == a[i + 1];
      } else if Order(Key(a[0]), Key(b[0])) > 0 {
        ClashWhen(a, b[1..]);
        BelowAll(b[0], a);
        assert forall j | 0 <= j < |b| - 1 :: b[1..][j] == b[j + 1];
      }
    }
  }

  lemma BelowAll(d: Descriptor, s: seq<Descriptor>)
    requires s != [] && Increasing(s) && Order(Key(d), Key(s[0])) < 0
    ensures forall i | 0 <= i < |s| :: Key(s[i]) != Key(d)
  {
    forall i | 0 <= i < |s|
      ensures Key(s[i]) != Key(d)
    {
      if i > 0 { OrderTransitive(Key(d), Key(s[0]), Key(s[i])); }
      OrderZero(Key(d), Key(s[i]));
    }
  }

  // ----- the sort in place -----

  lemma MergeStep(a: seq<Descriptor>, b: seq<Descriptor>)
    ensures a == [] && b != [] ==> Merge(a, b) == [b[0]] + Merge(a, b[1..])
    ensures b == [] && a != [] ==> Merge(a, b) == [a[0]] + Merge(a[1..], b)
    ensures a != [] && b != [] ==>
      Merge(a, b) == if Order(Key(a[0]), Key(b[0])) < 0 then [a[0]] + Merge(a[1..], b) else [b[0]] + Merge(a, b[1..])
  {
    if a == [] && b != [] { assert b == [b[0]] + b[1..]; }
    if b == [] && a != [] { assert a == [a[0]] + a[1..]; }
  }

  lemma ClashStep(a: seq<Descriptor>, b: seq<Descriptor>)
    ensures a == [] || b == [] ==> !Clash(a, b)
    ensures a != [] && b != [] && Order(Key(a[0]), Key(b[0])) < 0 ==> (Clash(a, b) <==> Clash(a[1..], b))
    ensures a != [] && b != [] && Order(Key(a[0]), Key(b[0])) > 0 ==> (Clash(a, b) <==> Clash(a, b[1..]))
    ensures a != [] && b == [] ==> !Clash(a[1..], b)
    ensures b != [] && a == [] ==> !Clash(a, b[1..])
  {
  }

  /** The next of a merge of two ranges, and what is left of them. */
  lemma MergeTails(t: seq<Descriptor>, i: nat, m: nat, j: nat, n: nat)
    requires i <= m <= |t| && j <= n <= |t|
    ensures i < m ==> t[i..m][0] == t[i]
    ensures j < n ==> t[j..n][0] == t[j]
    ensures i < m && (j == n || Order(Key(t[i]), Key(t[j])) < 0) ==>
      Merge(t[i..m], t[j..n]) == [t[i]] + Merge(t[i + 1..m], t[j..n])
      && (Clash(t[i..m], t[j..n]) <==> Clash(t[i + 1..m], t[j..n]))
    ensures j < n && (i == m || Order(Key(t[i]), Key(t[j])) > 0) ==>
      Merge(t[i..m], t[j..n]) == [t[j]] + Merge(t[i..m], t[j + 1..n])
      && (Clash(t[i..m], t[j..n]) <==> Clash(t[i..m], t[j + 1..n]))
  {
    hide Merge, Order, Key, Clash;
    MergeStep(t[i..m], t[j..n]);
    ClashStep(t[i..m], t[j..n]);
    assert i < m ==> t[i..m][1..] == t[i + 1..m];
    assert j < n ==> t[j..n][1..] == t[j + 1..n];
  }

  /** What has been stored, and the merge of what is left, are the merge of the two parts. */
  ghost predicate MergedSoFar(a: seq<Descriptor>, b: seq<Descriptor>, done: seq<Descriptor>, t: seq<Descriptor>,
                              i: nat, m: nat, j: nat, n: nat)
  {
    && i <= m <= |t| && j <= n <= |t| && done + Merge(t[i..m], t[j..n]) == Merge(a, b)
    && (Clash(t[i..m], t[j..n]) <==> Clash(a, b))
  }

  lemma TakeFirst(a: seq<Descriptor>, b: seq<Descriptor>, done: seq<Descriptor>, t: seq<Descriptor>, i: nat, m: nat,
                  j: nat, n: nat)
    requires MergedSoFar(a, b, done, t, i, m, j, n) && i < m && (j == n || Order(Key(t[i]), Key(t[j])) < 0)
    ensures MergedSoFar(a, b, done + [t[i]], t, i + 1, m, j, n)
  {
    hide Merge, Order, Key, Clash;
    MergeTails(t, i, m, j, n);
  }

  lemma TakeSecond(a: seq<Descriptor>, b: seq<Descriptor>, done: seq<Descriptor>, t: seq<Descriptor>, i: nat, m: nat,
                   j: nat, n: nat)
    requires MergedSoFar(a, b, done, t, i, m, j, n) && j < n && (i == m || Order(Key(t[i]), Key(t[j])) > 0)
    ensures MergedSoFar(a, b, done + [t[j]], t, i, m, j + 1, n)
  {
    hide Merge, Order, Key, Clash;
    MergeTails(t, i, m, j, n);
  }

  lemma AllMerged(a: seq<Descriptor>, b: seq<Descriptor>, done: seq<Descriptor>, t: seq<Descriptor>, i: nat, j: nat)
    requires MergedSoFar(a, b, done, t, i, i, j, j)
    ensures done == Merge(a, b) && !Clash(a, b)
  {
  }

  lemma ClashNow(a: seq<Descriptor>, b: seq<Descriptor>, done: seq<Descriptor>, t: seq<Descriptor>, i: nat, m: nat,
                 j: nat, n: nat)
    requires MergedSoFar(a, b, done, t, i, m, j, n) && i < m && j < n && Order(Key(t[i]), Key(t[j])) == 0
    ensures Clash(a, b)
  {
    hide Merge, Order, Key;
  }

  /** Merges the halves of temp into array; stops at equal keys. */
  method MergeHalves(low: nat, high1: nat, high: nat, array_: array<Descriptor>, temp: array<Descriptor>)
    returns (repeated: bool)
    requires array_ != temp && low <= high1 + 1 <= high + 1 <= array_.Length && high + 1 <= temp.Length
    modifies array_
    ensures repeated <==> Clash(temp[low..high1 + 1], temp[high1 + 1..high + 1])
    ensures !repeated ==> array_[low..high + 1] == Merge(temp[low..high1 + 1], temp[high1 + 1..high + 1])
    ensures array_[..low] == old(array_[..low]) && array_[high + 1..] == old(array_[high + 1..])
  {
    hide Merge, Order, Clash, Key, Folded, MergedSoFar;
    ghost var t := temp[..];
    ghost var a, b := t[low..high1 + 1], t[high1 + 1..high + 1];
    assert a == temp[low..high1 + 1] && b == temp[high1 + 1..high + 1];
    var low1, low2 := low, high1 + 1;
    var index := low;
    assert array_[low..low] == [];
    assert MergedSoFar(a, b, [], t, low, high1 + 1, high1 + 1, high + 1) by { NothingMerged(t, low, high1 + 1, high + 1); }
    while index <= high
      invariant low <= low1 <= high1 + 1 <= low2 <= high + 1 && index - low == (low1 - low) + (low2 - (high1 + 1))
      invariant MergedSoFar(a, b, array_[low..index], t, low1, high1 + 1, low2, high + 1) && temp[..] == t
      invariant array_[..low] == old(array_[..low]) && array_[high + 1..] == old(array_[high + 1..])
      decreases high + 1 - index
    {
      ghost var done := array_[low..index];
      var first: bool;
      if low1 > high1 {
        first := false;
      } else if low2 > high {
        first := true;
      } else {
        OrderValues(Key(temp[low1]), Key(temp[low2]));
        var order := CompareDescriptors(temp[low1], temp[low2]);
        if order == 0 {
          ClashNow(a, b, done, t, low1, high1 + 1, low2, high + 1);
          return true;
        }
        first := order == -1;
      }
      if first {
        TakeFirst(a, b, done, t, low1, high1 + 1, low2, high + 1);
        StoreNext(array_, low, index, high, temp[low1]);
        low1 := low1 + 1;
      } else {
        TakeSecond(a, b, done, t, low1, high1 + 1, low2, high + 1);
        StoreNext(array_, low, index, high, temp[low2]);
        low2 := low2 + 1;
      }
      index := index + 1;
    }
    AllMerged(a, b, array_[low..index], t, low1, low2);
    repeated := false;
  }

  lemma NothingMerged(t: seq<Descriptor>, low: nat, m: nat, n: nat)
    requires low <= m <= n <= |t|
    ensures MergedSoFar(t[low..m], t[m..n], [], t, low, m, m, n)
  {
    hide Merge;
    assert [] + Merge(t[low..m], t[m..n]) == Merge(t[low..m], t[m..n]);
  }

  method StoreNext(array_: array<Descriptor>, low: nat, index: nat, high: nat, d: Descriptor)
    requires low <= index <= high < array_.Length
    modifies array_
    ensures array_[low..index + 1] == old(array_[low..index]) + [d]
    ensures array_[..low] == old(array_[..low]) && array_[high + 1..] == old(array_[high + 1..])
  {
    array_[index] := d;
  }

  lemma DistinctParts(s: seq<Descriptor>, m: nat)
    requires m <= |s|
    ensures Distinct(s) <==> Distinct(s[..m]) && Distinct(s[m..]) && Apart(s[..m], s[m..])
  {
    var a, b := s[..m], s[m..];
    if Distinct(a) && Distinct(b) && Apart(a, b) {
      forall i, j | 0 <= i < j < |s|
        ensures Key(s[i]) != Key(s[j])
      {
        if j < m {
          assert Key(a[i]) != Key(a[j]);
        } else if i < m {
          assert Key(a[i]) != Key(b[j - m]);
        } else {
          assert Key(b[i - m]) != Key(b[j - m]);
        }
      }
    }
  }

  lemma SortUnfolds(s: seq<Descriptor>)
    requires |s| > 1
    ensures var middle := (|s| + 1) / 2; Sort(s) == Merge(Sort(s[..middle]), Sort(s[middle..]))
  {
  }

  lemma SortShort(s: seq<Descriptor>)
    requires |s| <= 1
    ensures Sort(s) == s && Distinct(s)
  {
  }

  /** Sorts the range of one array with the help of the other; stops exactly when there are equal keys. */
  method FpMergesort(low: nat, high: int, array_: array<Descriptor>, temp: array<Descriptor>) returns (repeated: bool)
    requires array_ != temp && low <= high + 1 <= array_.Length && high + 1 <= temp.Length
    requires array_[low..high + 1] == temp[low..high + 1]
    modifies array_, temp
    ensures !repeated ==> array_[low..high + 1] == Sort(old(array_[low..high + 1]))
    ensures repeated <==> !Distinct(old(array_[low..high + 1]))
    ensures array_[..low] == old(array_[..low]) && array_[high + 1..] == old(array_[high + 1..])
    ensures temp[..low] == old(temp[..low]) && temp[high + 1..] == old(temp[high + 1..])
    decreases high - low + 1
  {
    hide Sort, Merge, Distinct, Apart, Clash;
    ghost var s := array_[low..high + 1];
    SortShort(if |s| <= 1 then s else []);
    if high <= low { return false; }
    var high1 := (low + high) / 2;
    var low2 := high1 + 1;
    ghost var middle := low2 - low;
    assert middle == (|s| + 1) / 2;
    DistinctParts(s, middle);
    repeated := SortHalves(low, high1, high, array_, temp);
    if repeated { return; }
    SortUnfolds(s);
    SortedClash(s, middle);
    ghost var was, now := array_[..low], temp[..low];
    repeated := MergeHalves(low, high1, high, array_, temp);
  }

  /** When each half is free of repeated keys, merging the sorted halves comes to any that there are. */
  lemma SortedClash(s: seq<Descriptor>, m: nat)
    requires m <= |s| && Distinct(s[..m]) && Distinct(s[m..])
    ensures Clash(Sort(s[..m]), Sort(s[m..])) <==> !Distinct(s)
  {
    hide Sort, Distinct, Apart, Clash;
    var a, b := s[..m], s[m..];
    DistinctParts(s, m);
    SortPermutes(a);
    SortPermutes(b);
    SortIncreases(a);
    SortIncreases(b);
    ClashWhen(Sort(a), Sort(b));
    if Apart(a, b) { StillApart(a, b, Sort(a), Sort(b)); }
    if Apart(Sort(a), Sort(b)) { StillApart(Sort(a), Sort(b), a, b); }
  }

  /** Sorts the two halves in temp, using the other array. */
  method SortHalves(low: nat, high1: nat, high: nat, array_: array<Descriptor>, temp: array<Descriptor>)
    returns (repeated: bool)
    requires array_ != temp && low <= high1 < high < array_.Length && high < temp.Length
    requires array_[low..high + 1] == temp[low..high + 1]
    modifies array_, temp
    ensures var a, b := old(temp[low..high1 + 1]), old(temp[high1 + 1..high + 1]);
      && a == old(array_[low..high + 1])[..high1 + 1 - low] && b == old(array_[low..high + 1])[high1 + 1 - low..]
      && (!repeated ==> temp[low..high1 + 1] == Sort(a) && temp[high1 + 1..high + 1] == Sort(b))
      && (repeated <==> !Distinct(a) || !Distinct(b))
    ensures array_[..low] == old(array_[..low]) && array_[high + 1..] == old(array_[high + 1..])
    ensures temp[..low] == old(temp[..low]) && temp[high + 1..] == old(temp[high + 1..])
    decreases high - low + 1, 0
  {
    hide Sort, Distinct;
    ghost var p0, q0 := array_[..], temp[..];
    Halves(p0, q0, low, high1, high);
    repeated := FpMergesort(low, high1, temp, array_);
    ghost var p1, q1 := array_[..], temp[..];
    Outside(p0, p1, low, high1, high);
    Outside(q0, q1, low, high1, high);
    if repeated { return; }
    repeated := FpMergesort(high1 + 1, high, temp, array_);
    ghost var p2, q2 := array_[..], temp[..];
    OutsideUpper(p1, p2, low, high1, high);
    OutsideUpper(q1, q2, low, high1, high);
  }

  lemma Halves(p: seq<Descriptor>, q: seq<Descriptor>, low: nat, high1: nat, high: nat)
    requires low <= high1 < high < |p| && high < |q| && p[low..high + 1] == q[low..high + 1]
    ensures p[low..high1 + 1] == q[low..high1 + 1] == p[low..high + 1][..high1 + 1 - low]
    ensures p[high1 + 1..high + 1] == q[high1 + 1..high + 1] == p[low..high + 1][high1 + 1 - low..]
  {
  }

  /** Nothing has changed except from low to high1. */
  lemma Outside(p: seq<Descriptor>, q: seq<Descriptor>, low: nat, high1: nat, high: nat)
    requires |p| == |q| && low <= high1 < high < |p| && q[..low] == p[..low] && q[high1 + 1..] == p[high1 + 1..]
    ensures q[high1 + 1..high + 1] == p[high1 + 1..high + 1] && q[high + 1..] == p[high + 1..]
  {
    assert q[high1 + 1..high + 1] == q[high1 + 1..][..high - high1];
    assert q[high + 1..] == q[high1 + 1..][high - high1..];
  }

  lemma OutsideUpper(p: seq<Descriptor>, q: seq<Descriptor>, low: nat, high1: nat, high: nat)
    requires |p| == |q| && low <= high1 < high < |p| && q[..high1 + 1] == p[..high1 + 1] && q[high + 1..] == p[high + 1..]
    ensures q[low..high1 + 1] == p[low..high1 + 1] && q[..low] == p[..low]
  {
    assert q[low..high1 + 1] == q[..high1 + 1][low..];
    assert q[..low] == q[..high1 + 1][..low];
  }

  /** Sorts all the descriptors of a buffer. */
  method SortBuffer(result: array<Descriptor>, bufferIndex: nat) returns (repeated: bool)
    requires bufferIndex <= result.Length
    modifies result
    ensures result[bufferIndex..] == old(result[bufferIndex..])
    ensures repeated <==> !Distinct(old(result[..bufferIndex]))
    ensures !repeated ==> result[..bufferIndex] == Sort(old(result[..bufferIndex]))
  {
    hide Sort, Distinct;
    if bufferIndex <= 0 {
      SortShort([]);
      assert result[..0] == [];
      return false;
    }
    var temp := new Descriptor[bufferIndex](i requires 0 <= i < result.Length reads result => result[i]);
    assert result[0..bufferIndex] == result[..bufferIndex];
    assert forall i | 0 <= i < bufferIndex :: temp[i] == result[i];
    assert temp[0..bufferIndex] == result[0..bufferIndex];
    repeated := FpMergesort(0, bufferIndex - 1, result, temp);
    assert result[0..bufferIndex] == result[..bufferIndex];
  }
}
