/**
 The balanced trees of src/microcode/avltree.c as values: insertion with rotations, building from sorted names, and
 what they keep.
 */
module AvlTrees {
  // ----- names -----

  type Name = seq<char>

  function ToUpper(c: char): char {
    if 'a' <= c <= 'z' then c - 'a' + 'A' else c
  }

  function Folded(s: Name): (r: Name)
    ensures |r| == |s|
  {
    seq(|s|, i requires 0 <= i < |s| => ToUpper(s[i]))
  }

  /** The order of names: -1, 0 or 1 by the first difference, a prefix coming first. */
  function Order(a: Name, b: Name): int {
    if a == [] then (if b == [] then 0 else -1)
    else if b == [] then 1
    else if a[0] < b[0] then -1
    else if a[0] > b[0] then 1
    else Order(a[1..], b[1..])
  }

  /** Folding makes a capital of each small letter, and leaves other characters. */
  lemma FoldedIs(s: Name, i: nat)
    requires i < |s|
    ensures Folded(s)[i] as int == s[i] as int - if 97 <= s[i] as int <= 122 then 32 else 0
  {
  }

  /** The order is that of the first characters that differ; a name comes before those it is the beginning of. */
  lemma {:induction false} OrderIs(a: Name, b: Name)
    ensures Order(a, b) < 0 <==>
              exists k :: 0 <= k <= |a| && k <= |b| && a[..k] == b[..k]
                && if k == |a| then k < |b| else k < |b| && a[k] < b[k]
    decreases a
  {
    if a == [] {
      assert a[..0] == b[..0];
    } else if b != [] {
      if a[0] == b[0] {
        OrderIs(a[1..], b[1..]);
        LessShift(a, b);
      } else {
        assert a[..0] == b[..0];
        forall k | 0 < k <= |a| && k <= |b| ensures a[..k] != b[..k] {
          assert a[..k][0] != b[..k][0];
        }
      }
    }
  }

  lemma LessShift(a: Name, b: Name)
    requires a != [] && b != [] && a[0] == b[0]
    ensures (exists k :: 0 <= k <= |a| && k <= |b| && a[..k] == b[..k]
                           && if k == |a| then k < |b| else k < |b| && a[k] < b[k])
      <==> (exists k :: 0 <= k <= |a[1..]| && k <= |b[1..]| && a[1..][..k] == b[1..][..k]
                          && if k == |a[1..]| then k < |b[1..]| else k < |b[1..]| && a[1..][k] < b[1..][k])
  {
    if k :| 0 <= k <= |a| && k <= |b| && a[..k] == b[..k] && if k == |a| then k < |b| else k < |b| && a[k] < b[k] {
      assert k > 0;
      assert a[1..][..k - 1] == a[..k][1..] && b[1..][..k - 1] == b[..k][1..];
    }
    if k :| 0 <= k <= |a[1..]| && k <= |b[1..]| && a[1..][..k] == b[1..][..k]
            && if k == |a[1..]| then k < |b[1..]| else k < |b[1..]| && a[1..][k] < b[1..][k] {
      assert a[..k + 1] == [a[0]] + a[1..][..k] && b[..k + 1] == [b[0]] + b[1..][..k];
    }
  }

  /** Compares names without regard to case, character by character. */
  method StrcmpCi(s1: Name, s2: Name) returns (order: int)
    ensures order == Order(Folded(s1), Folded(s2))
  {
    var f1, f2 := Folded(s1), Folded(s2);
    assert f1[0..] == f1 && f2[0..] == f2;
    var i := 0;
    while true
      invariant 0 <= i <= |s1| && i <= |s2|
      invariant Order(f1, f2) == Order(f1[i..], f2[i..])
      decreases |s1| - i
    {
      if i == |s1| { return if i == |s2| then 0 else -1; }
      if i == |s2| { return 1; }
      var c1, c2 := ToUpper(s1[i]), ToUpper(s2[i]);
      if c1 < c2 { return -1; }
      if c1 > c2 { return 1; }
      assert f1[i..][1..] == f1[i + 1..] && f2[i..][1..] == f2[i + 1..];
      i := i + 1;
    }
  }

  lemma {:induction false} OrderZero(a: Name, b: Name)
    ensures Order(a, b) == 0 <==> a == b
    decreases a
  {
    if a != [] && b != [] {
      OrderZero(a[1..], b[1..]);
      assert a == [a[0]] + a[1..] && b == [b[0]] + b[1..];
    }
  }

  lemma {:induction false} OrderReversed(a: Name, b: Name)
    ensures Order(b, a) == -Order(a, b)
    decreases a
  {
    if a != [] && b != [] { OrderReversed(a[1..], b[1..]); }
  }

  lemma {:induction false} OrderTransitive(a: Name, b: Name, c: Name)
    requires Order(a, b) < 0 && Order(b, c) < 0
    ensures Order(a, c) < 0
    decreases a
  {
    if a != [] && a[0] == b[0] == c[0] { OrderTransitive(a[1..], b[1..], c[1..]); }
  }

  lemma {:induction false} OrderValues(a: Name, b: Name)
    ensures Order(a, b) in {-1, 0, 1}
    decreases a
  {
    if a != [] && b != [] { OrderValues(a[1..], b[1..]); }
  }

  // ----- trees -----

  datatype Tree = Empty | Node(left: Tree, name: Name, value: nat, rite: Tree)

  function Max(a: nat, b: nat): nat {
    if a >= b then a else b
  }

  function Height(t: Tree): nat {
    if t.Empty? then 0 else 1 + Max(Height(t.left), Height(t.rite))
  }

  /** Sibling heights differ by at most one everywhere. */
  predicate Balanced(t: Tree) {
    t.Node? ==> (Balanced(t.left) && Balanced(t.rite)
      && Height(t.left) <= Height(t.rite) + 1 && Height(t.rite) <= Height(t.left) + 1)
  }

  type Entry = (Name, nat)

  /** The names, folded, with their values. */
  function Entries(t: Tree): set<Entry> {
    if t.Empty? then {} else Entries(t.left) + {(Folded(t.name), t.value)} + Entries(t.rite)
  }

  ghost predicate AllBelow(s: set<Entry>, key: Name) {
    forall e | e in s :: Order(e.0, key) < 0
  }

  ghost predicate AllAbove(s: set<Entry>, key: Name) {
    forall e | e in s :: Order(key, e.0) < 0
  }

  ghost predicate Sorted(t: Tree) {
    t.Node? ==> (Sorted(t.left) && Sorted(t.rite)
      && AllBelow(Entries(t.left), Folded(t.name)) && AllAbove(Entries(t.rite), Folded(t.name)))
  }

  function Size(t: Tree): nat {
    if t.Empty? then 0 else Size(t.left) + 1 + Size(t.rite)
  }

  function Fib(n: nat): nat {
    if n < 2 then n else Fib(n - 1) + Fib(n - 2)
  }

  lemma {:induction false} FibMono(m: nat, n: nat)
    requires m <= n
    ensures Fib(m) <= Fib(n)
    decreases n
  {
    if m < n {
      FibMono(m, n - 1);
      if n >= 2 { assert Fib(n) == Fib(n - 1) + Fib(n - 2); }
    }
  }

  /** The least balanced trees have Fibonacci-sized branches. */
  lemma {:induction false} SizeAtLeastFib(t: Tree)
    requires Balanced(t)
    ensures Size(t) >= Fib(Height(t) + 2) - 1
  {
    if t.Node? {
      SizeAtLeastFib(t.left);
      SizeAtLeastFib(t.rite);
      var h := Height(t);
      FibMono(h, Height(t.left) + 2);
      FibMono(h, Height(t.rite) + 2);
      FibMono(h + 1, Max(Height(t.left), Height(t.rite)) + 2);
      assert Fib(h + 2) == Fib(h + 1) + Fib(h);
      assert h >= 1;
      FibMono(h - 1, h);
    }
  }

  // ----- rotations and rebalancing -----

  function RotateLeft(t: Tree): (r: Tree)
    requires t.Node? && t.rite.Node?
    ensures r.Node? && r.left.Node?
  {
    Node(Node(t.left, t.name, t.value, t.rite.left), t.rite.name, t.rite.value, t.rite.rite)
  }

  function RotateRite(t: Tree): (r: Tree)
    requires t.Node? && t.left.Node?
    ensures r.Node? && r.rite.Node?
  {
    Node(t.left.left, t.left.name, t.left.value, Node(t.left.rite, t.name, t.value, t.rite))
  }

  function RebalanceLeft(t: Tree): Tree
    requires t.Node?
  {
    if 1 + Height(t.rite) >= Height(t.left) then t
    else
      var q := t.left;
      if Height(q.rite) > Height(q.left) then RotateRite(t.(left := RotateLeft(q))) else RotateRite(t)
  }

  function RebalanceRite(t: Tree): Tree
    requires t.Node?
  {
    if 1 + Height(t.left) >= Height(t.rite) then t
    else
      var q := t.rite;
      if Height(q.left) > Height(q.rite) then RotateLeft(t.(rite := RotateRite(q))) else RotateLeft(t)
  }

  lemma RotationsKeep(t: Tree)
    requires t.Node? && Sorted(t)
    ensures t.rite.Node? ==> Entries(RotateLeft(t)) == Entries(t) && Sorted(RotateLeft(t))
    ensures t.left.Node? ==> Entries(RotateRite(t)) == Entries(t) && Sorted(RotateRite(t))
  {
    if t.rite.Node? {
      var a, b := Folded(t.name), Folded(t.rite.name);
      assert (b, t.rite.value) in Entries(t.rite);
      forall e | e in Entries(t.left) ensures Order(e.0, b) < 0 { OrderTransitive(e.0, a, b); }
      assert AllAbove(Entries(t.rite.left), a);
    }
    if t.left.Node? {
      var a, b := Folded(t.name), Folded(t.left.name);
      assert (b, t.left.value) in Entries(t.left);
      forall e | e in Entries(t.rite) ensures Order(b, e.0) < 0 { OrderTransitive(b, a, e.0); }
      assert AllBelow(Entries(t.left.rite), a);
    }
  }

  lemma RebalancingLeftKeeps(t: Tree)
    requires t.Node? && Sorted(t)
    ensures Entries(RebalanceLeft(t)) == Entries(t) && Sorted(RebalanceLeft(t))
  {
    hide RotateLeft, RotateRite, Order;
    if t.left.Node? {
      RotationsKeep(t);
      if t.left.rite.Node? {
        RotationsKeep(t.left);
        var u := t.(left := RotateLeft(t.left));
        assert Sorted(u) && Entries(u) == Entries(t);
        RotationsKeep(u);
      }
    }
  }

  lemma RebalancingRiteKeeps(t: Tree)
    requires t.Node? && Sorted(t)
    ensures Entries(RebalanceRite(t)) == Entries(t) && Sorted(RebalanceRite(t))
  {
    hide RotateLeft, RotateRite, Order;
    if t.rite.Node? {
      RotationsKeep(t);
      if t.rite.left.Node? {
        RotationsKeep(t.rite);
        var u := t.(rite := RotateRite(t.rite));
        assert Sorted(u) && Entries(u) == Entries(t);
        RotationsKeep(u);
      }
    }
  }

  lemma NodeHeights(t: Tree)
    requires t.Node?
    ensures Height(t) == 1 + Max(Height(t.left), Height(t.rite))
    ensures Balanced(t) <==> (Balanced(t.left) && Balanced(t.rite)
      && Height(t.left) <= Height(t.rite) + 1 && Height(t.rite) <= Height(t.left) + 1)
  {
  }

  lemma NoHeight(t: Tree)
    ensures Height(t) > 0 <==> t.Node?
  {
  }

  /** A branch that is two higher than the other is brought down. */
  lemma LeftRebalanced(t: Tree)
    requires t.Node? && Balanced(t.left) && Balanced(t.rite)
    requires Height(t.rite) <= Height(t.left) + 1 && Height(t.left) <= Height(t.rite) + 2
    ensures Balanced(RebalanceLeft(t))
    ensures Height(t) - 1 <= Height(RebalanceLeft(t)) <= Height(t)
  {
    hide Height, Balanced;
    NodeHeights(t);
    if 1 + Height(t.rite) < Height(t.left) {
      var q := t.left;
      NoHeight(q);
      NodeHeights(q);
      if Height(q.rite) > Height(q.left) {
        var p := q.rite;
        NoHeight(p);
        NodeHeights(p);
        NodeHeights(Node(q.left, q.name, q.value, p.left));
        NodeHeights(Node(p.rite, t.name, t.value, t.rite));
      } else {
        NodeHeights(Node(q.rite, t.name, t.value, t.rite));
      }
      NodeHeights(RebalanceLeft(t));
    }
  }

  lemma RiteRebalanced(t: Tree)
    requires t.Node? && Balanced(t.left) && Balanced(t.rite)
    requires Height(t.left) <= Height(t.rite) + 1 && Height(t.rite) <= Height(t.left) + 2
    ensures Balanced(RebalanceRite(t))
    ensures Height(t) - 1 <= Height(RebalanceRite(t)) <= Height(t)
  {
    hide Height, Balanced;
    NodeHeights(t);
    if 1 + Height(t.left) < Height(t.rite) {
      var q := t.rite;
      NoHeight(q);
      NodeHeights(q);
      if Height(q.left) > Height(q.rite) {
        var p := q.left;
        NoHeight(p);
        NodeHeights(p);
        NodeHeights(Node(t.left, t.name, t.value, p.left));
        NodeHeights(Node(p.rite, q.name, q.value, q.rite));
      } else {
        NodeHeights(Node(t.left, t.name, t.value, q.left));
      }
      NodeHeights(RebalanceRite(t));
    }
  }

  // ----- insertion and lookup -----

  function Insert(t: Tree, name: Name, value: nat): (r: Tree)
    ensures r.Node?
  {
    if t.Empty? then Node(Empty, name, value, Empty)
    else
      var order := Order(Folded(name), Folded(t.name));
      if order == 0 then t
      else if order < 0 then RebalanceLeft(t.(left := Insert(t.left, name, value)))
      else RebalanceRite(t.(rite := Insert(t.rite, name, value)))
  }

  function Lookup(t: Tree, name: Name): Tree {
    if t.Empty? then t
    else
      var order := Order(Folded(name), Folded(t.name));
      if order == 0 then t else if order < 0 then Lookup(t.left, name) else Lookup(t.rite, name)
  }

  ghost predicate Has(s: set<Entry>, key: Name) {
    exists v: nat :: (key, v) in s
  }

  /** Lookup finds the entry of a name, and nothing exactly when there is none. */
  lemma {:induction false} LookupFinds(t: Tree, name: Name)
    requires Sorted(t)
    ensures Lookup(t, name).Empty? <==> !Has(Entries(t), Folded(name))
    ensures Lookup(t, name).Node? ==> (Folded(name), Lookup(t, name).value) in Entries(t)
    ensures forall v: nat | (Folded(name), v) in Entries(t) :: Lookup(t, name).Node? && Lookup(t, name).value == v
  {
    if t.Node? {
      var key, here := Folded(name), Folded(t.name);
      OrderZero(key, here);
      OrderReversed(key, here);
      OrderZero(key, key);
      var order := Order(key, here);
      if order < 0 { LookupFinds(t.left, name); }
      if order > 0 { LookupFinds(t.rite, name); }
      forall v: nat | (key, v) in Entries(t) ensures Lookup(t, name).Node? && Lookup(t, name).value == v {
        if (key, v) in Entries(t.left) { assert Order(key, here) < 0; }
        if (key, v) in Entries(t.rite) { assert Order(here, key) < 0; }
      }
      if order == 0 { assert (key, t.value) in Entries(t); }
    }
  }

  /** Insertion keeps the order, and adds the name unless it is there already. */
  lemma {:induction false} InsertAdds(t: Tree, name: Name, value: nat)
    requires Sorted(t)
    ensures Sorted(Insert(t, name, value))
    ensures Entries(Insert(t, name, value))
      == if Has(Entries(t), Folded(name)) then Entries(t) else Entries(t) + {(Folded(name), value)}
  {
    if t.Node? {
      var key, here := Folded(name), Folded(t.name);
      OrderZero(key, here);
      OrderReversed(key, here);
      LookupFinds(t, name);
      var order := Order(key, here);
      if order < 0 {
        LookupFinds(t.left, name);
        InsertAdds(t.left, name, value);
        var u := t.(left := Insert(t.left, name, value));
        assert Sorted(u);
        RebalancingLeftKeeps(u);
      } else if order > 0 {
        LookupFinds(t.rite, name);
        InsertAdds(t.rite, name, value);
        var u := t.(rite := Insert(t.rite, name, value));
        assert Sorted(u);
        RebalancingRiteKeeps(u);
      }
    }
  }

  /** And keeps the balance, growing by one level at most. */
  lemma {:induction false} InsertBalances(t: Tree, name: Name, value: nat)
    requires Balanced(t)
    ensures Balanced(Insert(t, name, value))
    ensures Height(t) <= Height(Insert(t, name, value)) <= Height(t) + 1
  {
    hide Order;
    if t.Node? {
      var order := Order(Folded(name), Folded(t.name));
      if order < 0 {
        InsertBalances(t.left, name, value);
        LeftRebalanced(t.(left := Insert(t.left, name, value)));
      } else if order > 0 {
        InsertBalances(t.rite, name, value);
        RiteRebalanced(t.(rite := Insert(t.rite, name, value)));
      }
    }
  }

  /** The names as they were given, in the order of the tree. */
  function InOrder(t: Tree): seq<Entry> {
    if t.Empty? then [] else InOrder(t.left) + [(t.name, t.value)] + InOrder(t.rite)
  }

  lemma RotationsInOrder(t: Tree)
    requires t.Node?
    ensures t.rite.Node? ==> InOrder(RotateLeft(t)) == InOrder(t)
    ensures t.left.Node? ==> InOrder(RotateRite(t)) == InOrder(t)
  {
    if t.rite.Node? {
      Regrouped(InOrder(t.left), (t.name, t.value), InOrder(t.rite.left), (t.rite.name, t.rite.value), InOrder(t.rite.rite));
    }
    if t.left.Node? {
      Regrouped(InOrder(t.left.left), (t.left.name, t.left.value), InOrder(t.left.rite), (t.name, t.value), InOrder(t.rite));
    }
  }

  lemma Regrouped(a: seq<Entry>, x: Entry, b: seq<Entry>, y: Entry, c: seq<Entry>)
    ensures (a + [x] + b) + [y] + c == a + [x] + (b + [y] + c)
  {
  }

  lemma RebalancingInOrder(t: Tree)
    requires t.Node?
    ensures InOrder(RebalanceLeft(t)) == InOrder(t) && InOrder(RebalanceRite(t)) == InOrder(t)
  {
    hide RotateLeft, RotateRite;
    RotationsInOrder(t);
    if t.left.Node? {
      RotationsInOrder(t.left);
      if t.left.rite.Node? { RotationsInOrder(t.(left := RotateLeft(t.left))); }
    }
    if t.rite.Node? {
      RotationsInOrder(t.rite);
      if t.rite.left.Node? { RotationsInOrder(t.(rite := RotateRite(t.rite))); }
    }
  }

  /** Insertion puts the name, as it was given, somewhere between the others; with a name that is there it does nothing. */
  lemma {:induction false} InsertInOrder(t: Tree, name: Name, value: nat) returns (k: nat)
    requires Balanced(t)
    ensures Lookup(t, name).Node? ==> Insert(t, name, value) == t
    ensures k <= |InOrder(t)|
    ensures Lookup(t, name).Empty? ==>
              InOrder(Insert(t, name, value)) == InOrder(t)[..k] + [(name, value)] + InOrder(t)[k..]
  {
    hide Order, RebalanceLeft, RebalanceRite, Height;
    k := 0;
    if t.Node? {
      var order := Order(Folded(name), Folded(t.name));
      AlreadyBalanced(t);
      if order < 0 {
        k := InsertInOrder(t.left, name, value);
        RebalancingInOrder(t.(left := Insert(t.left, name, value)));
        PutLeft(InOrder(t.left), (t.name, t.value), InOrder(t.rite), k, (name, value));
      } else if order > 0 {
        var k' := InsertInOrder(t.rite, name, value);
        RebalancingInOrder(t.(rite := Insert(t.rite, name, value)));
        k := PutRite(InOrder(t.left), (t.name, t.value), InOrder(t.rite), k', (name, value));
      }
    }
  }

  lemma PutLeft(l: seq<Entry>, e: Entry, r: seq<Entry>, k: nat, x: Entry)
    requires k <= |l|
    ensures (l[..k] + [x] + l[k..]) + [e] + r == (l + [e] + r)[..k] + [x] + (l + [e] + r)[k..]
  {
    assert (l + [e] + r)[k..] == l[k..] + [e] + r;
  }

  lemma PutRite(l: seq<Entry>, e: Entry, r: seq<Entry>, k: nat, x: Entry) returns (k': nat)
    requires k <= |r|
    ensures k' <= |l + [e] + r|
    ensures l + [e] + (r[..k] + [x] + r[k..]) == (l + [e] + r)[..k'] + [x] + (l + [e] + r)[k'..]
  {
    k' := |l| + 1 + k;
    assert (l + [e] + r)[..k'] == l + [e] + r[..k] && (l + [e] + r)[k'..] == r[k..];
  }

  lemma AlreadyBalanced(t: Tree)
    requires t.Node? && Balanced(t)
    ensures RebalanceLeft(t) == t && RebalanceRite(t) == t
  {
  }

  // ----- any number of insertions -----

  function InsertAll(list: seq<Entry>): Tree {
    if list == [] then Empty else
      var t := InsertAll(list[..|list| - 1]);
      Insert(t, list[|list| - 1].0, list[|list| - 1].1)
  }

  /** The value a name was first inserted with. */
  ghost predicate FirstValue(list: seq<Entry>, key: Name, value: nat) {
    exists i | 0 <= i < |list| :: Folded(list[i].0) == key && list[i].1 == value
      && forall j | 0 <= j < i :: Folded(list[j].0) != key
  }

  /** After any insertions the tree is sorted and balanced, and holds each name with its first value. */
  lemma {:induction false} InsertionsKeep(list: seq<Entry>)
    ensures Sorted(InsertAll(list)) && Balanced(InsertAll(list))
    ensures forall key: Name, value: nat :: (key, value) in Entries(InsertAll(list)) <==> FirstValue(list, key, value)
  {
    if list != [] {
      var before, last := list[..|list| - 1], list[|list| - 1];
      InsertionsKeep(before);
      var t := InsertAll(before);
      InsertAdds(t, last.0, last.1);
      InsertBalances(t, last.0, last.1);
      forall key: Name, value: nat
        ensures (key, value) in Entries(InsertAll(list)) <==> FirstValue(list, key, value)
      {
        FirstValueNext(list, key, value);
        assert Has(Entries(t), Folded(last.0)) <==> exists v: nat :: FirstValue(before, Folded(last.0), v);
      }
    }
  }

  lemma FirstValueNext(list: seq<Entry>, key: Name, value: nat)
    requires list != []
    ensures var before, last := list[..|list| - 1], list[|list| - 1];
      FirstValue(list, key, value) <==>
        FirstValue(before, key, value)
        || (Folded(last.0) == key && last.1 == value && !exists v: nat :: FirstValue(before, key, v))
  {
    var n := |list| - 1;
    var before, last := list[..n], list[n];
    if FirstValue(before, key, value) {
      var i :| 0 <= i < n && Folded(before[i].0) == key && before[i].1 == value
        && forall j | 0 <= j < i :: Folded(before[j].0) != key;
      assert list[i] == before[i];
    }
    if exists j :: 0 <= j < n && Folded(list[j].0) == key {
      FirstOccurrence(before, key);
    } else if Folded(last.0) == key && last.1 == value {
      assert list[n] == last;
    }
  }

  lemma FirstOccurrence(list: seq<Entry>, key: Name)
    requires exists j :: 0 <= j < |list| && Folded(list[j].0) == key
    ensures exists v: nat :: FirstValue(list, key, v)
  {
    var i := 0;
    while Folded(list[i].0) != key
      invariant 0 <= i < |list|
      invariant forall j | 0 <= j < i :: Folded(list[j].0) != key
      decreases |list| - i
    {
      i := i + 1;
    }
    assert FirstValue(list, key, list[i].1);
  }

  /** Looking a name up gives the value of its first insertion, and nothing for other names. */
  lemma LookupAfterInsertions(list: seq<Entry>, name: Name)
    ensures var found := Lookup(InsertAll(list), name);
      && (found.Node? ==> FirstValue(list, Folded(name), found.value))
      && (found.Empty? ==> forall i | 0 <= i < |list| :: Folded(list[i].0) != Folded(name))
  {
    InsertionsKeep(list);
    LookupFinds(InsertAll(list), name);
    if Lookup(InsertAll(list), name).Empty? {
      if exists i :: 0 <= i < |list| && Folded(list[i].0) == Folded(name) { FirstOccurrence(list, Folded(name)); }
    }
  }

  // ----- building from sorted names -----

  datatype Built = Built(tree: Tree, bias: nat)

  /** Where the names are split, an odd one out going left or right by the bias, and the next bias. */
  function Middle(high: nat, bias: nat): nat
    requires high > 1 && bias <= 1
  {
    if high % 2 == 0 then high / 2 - bias else high / 2
  }

  function NextBias(high: nat, bias: nat): (r: nat)
    requires bias <= 1
    ensures r <= 1
  {
    if high % 2 == 0 then 1 - bias else bias
  }

  function Build(names: seq<Name>, value: nat, bias: nat): (b: Built)
    requires bias <= 1
    ensures b.bias <= 1
    decreases |names|
  {
    var high := |names|;
    if high > 1 then
      var middle := Middle(high, bias);
      var next := middle + 1;
      var l := Build(names[..middle], value, NextBias(high, bias));
      var r := Build(names[next..], value + next, l.bias);
      Built(Node(l.tree, names[middle], value + middle, r.tree), r.bias)
    else if high == 1 then Built(Node(Empty, names[0], value, Empty), bias)
    else Built(Empty, bias)
  }

  function BuiltHeight(n: nat): nat {
    if n == 0 then 0 else 1 + BuiltHeight(n / 2)
  }

  lemma {:induction false} BuiltHeightMono(m: nat, n: nat)
    requires m <= n
    ensures BuiltHeight(m) <= BuiltHeight(n)
    ensures n <= m + 1 ==> BuiltHeight(n) <= BuiltHeight(m) + 1
    decreases n
  {
    if m > 0 { BuiltHeightMono(m / 2, n / 2); }
  }

  /** The sizes of the two parts differ by one at most. */
  lemma MiddleSplits(high: nat, bias: nat)
    requires high > 1 && bias <= 1
    ensures var middle := Middle(high, bias);
      var rest := high - middle - 1;
      rest >= 0 && Max(middle, rest) == high / 2 && middle <= rest + 1 && rest <= middle + 1
  {
  }

  /** The height depends on the number of names only, so the tree is balanced for either bias. */
  lemma {:induction false} BuildBalances(names: seq<Name>, value: nat, bias: nat)
    requires bias <= 1
    ensures Height(Build(names, value, bias).tree) == BuiltHeight(|names|)
    ensures Balanced(Build(names, value, bias).tree)
    decreases |names|
  {
    var high := |names|;
    if high > 1 {
      MiddleSplits(high, bias);
      var middle := Middle(high, bias);
      var next := middle + 1;
      hide Middle, NextBias;
      var l := Build(names[..middle], value, NextBias(high, bias));
      var r := Build(names[next..], value + next, l.bias);
      BuildBalances(names[..middle], value, NextBias(high, bias));
      BuildBalances(names[next..], value + next, l.bias);
      var t := Build(names, value, bias).tree;
      assert t == Node(l.tree, names[middle], value + middle, r.tree);
      hide Build;
      HalvesHeight(high, middle);
      NodeHeights(t);
    }
  }

  lemma HalvesHeight(high: nat, middle: nat)
    requires high > 1 && middle < high
    requires Max(middle, high - middle - 1) == high / 2 && middle <= high - middle && high - middle - 1 <= middle + 1
    ensures 1 + Max(BuiltHeight(middle), BuiltHeight(high - middle - 1)) == BuiltHeight(high)
    ensures BuiltHeight(middle) <= BuiltHeight(high - middle - 1) + 1
    ensures BuiltHeight(high - middle - 1) <= BuiltHeight(middle) + 1
  {
    if middle <= high - middle - 1 {
      BuiltHeightMono(middle, high - middle - 1);
    } else {
      BuiltHeightMono(high - middle - 1, middle);
    }
  }

  ghost predicate Increasing(names: seq<Name>) {
    forall i, j | 0 <= i < j < |names| :: Order(Folded(names[i]), Folded(names[j])) < 0
  }

  /** The names numbered from value on. */
  function Numbered(names: seq<Name>, value: nat): set<Entry> {
    set i | 0 <= i < |names| :: (Folded(names[i]), value + i)
  }

  lemma NumberedSplit(names: seq<Name>, value: nat, m: nat)
    requires m < |names|
    ensures Numbered(names, value)
      == Numbered(names[..m], value) + {(Folded(names[m]), value + m)} + Numbered(names[m + 1..], value + (m + 1))
  {
    forall i | 0 <= i < |names|
      ensures (Folded(names[i]), value + i) in
        Numbered(names[..m], value) + {(Folded(names[m]), value + m)} + Numbered(names[m + 1..], value + (m + 1))
    {
      if i < m {
        assert names[..m][i] == names[i];
      } else if i > m {
        var j := i - (m + 1);
        assert names[m + 1..][j] == names[i];
      }
    }
    var tail := names[m + 1..];
    forall j | 0 <= j < |tail| ensures (Folded(tail[j]), value + (m + 1) + j) in Numbered(names, value) {
      var i := m + 1 + j;
      assert tail[j] == names[i];
    }
    forall j | 0 <= j < m ensures (Folded(names[..m][j]), value + j) in Numbered(names, value) {
      assert names[..m][j] == names[j];
    }
  }

  lemma NumberedOrder(names: seq<Name>, value: nat, m: nat)
    requires m < |names| && Increasing(names)
    ensures AllBelow(Numbered(names[..m], value), Folded(names[m]))
    ensures AllAbove(Numbered(names[m + 1..], value + (m + 1)), Folded(names[m]))
    ensures Increasing(names[..m]) && Increasing(names[m + 1..])
  {
  }

  /** And sorted, with the names numbered from value on. */
  lemma {:induction false} BuildSorts(names: seq<Name>, value: nat, bias: nat)
    requires bias <= 1 && Increasing(names)
    ensures Sorted(Build(names, value, bias).tree)
    ensures Entries(Build(names, value, bias).tree) == Numbered(names, value)
    decreases |names|
  {
    hide *;
    var high := |names|;
    if high > 1 {
      var middle := Middle(high, bias);
      MiddleSplits(high, bias);
      var next := middle + 1;
      var l := Build(names[..middle], value, NextBias(high, bias));
      var r := Build(names[next..], value + next, l.bias);
      BuildParts(names, value, bias);
      NodeOf(l.tree, names[middle], value + middle, r.tree);
      NumberedOrder(names, value, middle);
      NumberedSplit(names, value, middle);
      BuildSorts(names[..middle], value, NextBias(high, bias));
      BuildSorts(names[next..], value + next, l.bias);
    } else {
      AtMostOne(names, value);
      BuildSmall(names, value, bias);
      Singletons(names, value);
    }
  }

  /** For any names: the tree has them in their order, numbered from value on. */
  lemma {:induction false} BuildInOrder(names: seq<Name>, value: nat, bias: nat)
    requires bias <= 1
    ensures |InOrder(Build(names, value, bias).tree)| == |names|
    ensures forall i | 0 <= i < |names| :: InOrder(Build(names, value, bias).tree)[i] == (names[i], value + i)
    decreases |names|
  {
    hide Build, Middle, NextBias;
    var high := |names|;
    if high > 1 {
      MiddleSplits(high, bias);
      BuildParts(names, value, bias);
      var middle := Middle(high, bias);
      var l := Build(names[..middle], value, NextBias(high, bias));
      BuildInOrder(names[..middle], value, NextBias(high, bias));
      BuildInOrder(names[middle + 1..], value + (middle + 1), l.bias);
    } else {
      BuildSmall(names, value, bias);
    }
  }

  /** The even sizes met while n names are split in two again and again. */
  function EvenSplits(n: nat): nat {
    if n <= 1 then 0 else if n % 2 == 0 then 1 + EvenSplits(n / 2) + EvenSplits(n / 2 - 1) else 2 * EvenSplits(n / 2)
  }

  /** The bias says which branch of an even number of names is the larger one. */
  lemma LargerBranch(names: seq<Name>, value: nat, bias: nat)
    requires bias <= 1 && |names| > 1
    ensures Build(names, value, bias).tree.Node?
    ensures |InOrder(Build(names, value, bias).tree.left)| == |names| / 2 - if |names| % 2 == 0 then bias else 0
  {
    MiddleSplits(|names|, bias);
    BuildParts(names, value, bias);
    BiasIs(|names|, bias);
    hide Build, NextBias, Middle, InOrder, EvenSplits;
    BuildInOrder(names[..Middle(|names|, bias)], value, NextBias(|names|, bias));
  }

  /** The bias after n turns. */
  function Turned(bias: nat, n: nat): (r: nat)
    requires bias <= 1
    ensures r <= 1
  {
    if n % 2 == 0 then bias else 1 - bias
  }

  lemma TurnedOn(bias: nat, m: nat, n: nat)
    requires bias <= 1
    ensures Turned(Turned(bias, m), n) == Turned(bias, m + n)
    ensures Turned(bias, 0) == bias && Turned(bias, 1) == 1 - bias
  {
  }

  /** Each split of an even number of names turns the bias around. */
  lemma {:induction false} BiasTurns(names: seq<Name>, value: nat, bias: nat)
    requires bias <= 1
    ensures Build(names, value, bias).bias == Turned(bias, EvenSplits(|names|))
    decreases |names|
  {
    hide Build, NextBias, Middle, Turned;
    var high := |names|;
    if high > 1 {
      MiddleSplits(high, bias);
      BuildParts(names, value, bias);
      BiasIs(high, bias);
      SplitsAre(high, bias);
      hide EvenSplits;
      var middle, e := Middle(high, bias), if high % 2 == 0 then 1 else 0;
      var l := Build(names[..middle], value, NextBias(high, bias));
      BiasTurns(names[..middle], value, NextBias(high, bias));
      BiasTurns(names[middle + 1..], value + (middle + 1), l.bias);
      TurnedOn(bias, e, EvenSplits(middle));
      TurnedOn(bias, e + EvenSplits(middle), EvenSplits(high - middle - 1));
    } else {
      BuildSmall(names, value, bias);
      TurnedOn(bias, 0, 0);
    }
  }

  lemma BiasIs(high: nat, bias: nat)
    requires high > 1 && bias <= 1
    ensures Middle(high, bias) == high / 2 - if high % 2 == 0 then bias else 0
    ensures NextBias(high, bias) == if high % 2 == 0 then 1 - bias else bias
  {
  }

  lemma SplitsAre(high: nat, bias: nat)
    requires high > 1 && bias <= 1
    ensures 0 <= Middle(high, bias) < high
    ensures var middle := Middle(high, bias);
      EvenSplits(high) == (if high % 2 == 0 then 1 else 0) + EvenSplits(middle) + EvenSplits(high - middle - 1)
  {
    BiasIs(high, bias);
    var h := high / 2;
    hide Middle;
    if high % 2 == 1 {
      assert high - h - 1 == h;
    } else {
      assert high == h + h;
    }
  }

  lemma BuildParts(names: seq<Name>, value: nat, bias: nat)
    requires bias <= 1 && |names| > 1
    ensures NextBias(|names|, bias) <= 1 && 0 <= Middle(|names|, bias) < |names|
    ensures var middle := Middle(|names|, bias);
      var l := Build(names[..middle], value, NextBias(|names|, bias));
      var r := Build(names[middle + 1..], value + (middle + 1), l.bias);
      Build(names, value, bias) == Built(Node(l.tree, names[middle], value + middle, r.tree), r.bias)
  {
    hide Middle, NextBias;
    MiddleSplits(|names|, bias);
  }

  lemma BuildSmall(names: seq<Name>, value: nat, bias: nat)
    requires bias <= 1 && |names| <= 1
    ensures Build(names, value, bias).tree == if names == [] then Empty else Node(Empty, names[0], value, Empty)
    ensures Build(names, value, bias).bias == bias
  {
  }

  lemma NodeOf(l: Tree, name: Name, value: nat, r: Tree)
    ensures Entries(Node(l, name, value, r)) == Entries(l) + {(Folded(name), value)} + Entries(r)
    ensures Sorted(Node(l, name, value, r)) <==> (Sorted(l) && Sorted(r)
      && AllBelow(Entries(l), Folded(name)) && AllAbove(Entries(r), Folded(name)))
  {
  }

  lemma Singletons(names: seq<Name>, value: nat)
    ensures Sorted(Empty) && Entries(Empty) == {}
    ensures names != [] ==> Sorted(Node(Empty, names[0], value, Empty))
    ensures names != [] ==> Entries(Node(Empty, names[0], value, Empty)) == {(Folded(names[0]), value)}
  {
  }

  lemma AtMostOne(names: seq<Name>, value: nat)
    requires |names| <= 1
    ensures Numbered(names, value) == if names == [] then {} else {(Folded(names[0]), value)}
  {
    if names != [] { assert (Folded(names[0]), value + 0) in Numbered(names, value); }
  }
}
