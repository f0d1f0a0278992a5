/**
 The nodes of src/microcode/avltree.c in memory: rotations and insertion change left, rite and height in place.
 */
module AvlNodes {
  import opened AvlTrees

  class TreeNode {
    var height: nat
    var left: TreeNode?
    var rite: TreeNode?
    const name: Name
    const value: nat

    /** The nodes at and below this one, and the tree they make up. */
    ghost var repr: set<TreeNode>
    ghost var tree: Tree

    constructor (name: Name, value: nat)
      ensures Valid() && fresh(repr) && repr == {this} && tree == Node(Empty, name, value, Empty)
      ensures left == null && rite == null && this.name == name && this.value == value
    {
      this.name, this.value := name, value;
      height, left, rite := 1, null, null;
      repr, tree := {this}, Node(Empty, name, value, Empty);
    }

    /** The branches are trees without common nodes. */
    ghost predicate Branches()
      reads this, repr
      decreases repr, 0
    {
      && this in repr
      && (left != null ==> left in repr && left.repr <= repr && this !in left.repr && left.Valid())
      && (rite != null ==> rite in repr && rite.repr <= repr && this !in rite.repr && rite.Valid())
      && (left != null && rite != null ==> left.repr !! rite.repr)
      && repr == {this} + (if left == null then {} else left.repr) + (if rite == null then {} else rite.repr)
    }

    ghost predicate Valid()
      reads this, repr
      ensures Valid() ==> this in repr
      decreases repr, 1
    {
      && Branches()
      && tree == Node(if left == null then Empty else left.tree, name, value, if rite == null then Empty else rite.tree)
      && height == Height(tree)
    }
  }

  lemma Parts(t: TreeNode)
    requires t.Valid()
    ensures t.Branches() && t.tree == Node(TreeOf(t.left), t.name, t.value, TreeOf(t.rite))
    ensures t.height == Height(t.tree)
  {
  }

  lemma BranchParts(t: TreeNode)
    requires t.Branches()
    ensures ValidTree(t.left) && ValidTree(t.rite) && ReprOf(t.left) !! ReprOf(t.rite)
    ensures t !in ReprOf(t.left) && t !in ReprOf(t.rite) && t.repr == {t} + ReprOf(t.left) + ReprOf(t.rite)
  {
  }

  lemma Assembled(t: TreeNode)
    requires ValidTree(t.left) && ValidTree(t.rite) && ReprOf(t.left) !! ReprOf(t.rite)
    requires t !in ReprOf(t.left) && t !in ReprOf(t.rite) && t.repr == {t} + ReprOf(t.left) + ReprOf(t.rite)
    ensures t.Branches()
  {
  }

  ghost function TreeOf(t: TreeNode?): Tree
    reads t
  {
    if t == null then Empty else t.tree
  }

  ghost function ReprOf(t: TreeNode?): set<TreeNode>
    reads t
  {
    if t == null then {} else t.repr
  }

  ghost predicate ValidTree(t: TreeNode?)
    reads t, ReprOf(t)
  {
    t != null ==> t.Valid()
  }

  method BranchHeight(t: TreeNode?) returns (h: nat)
    requires ValidTree(t)
    ensures h == Height(TreeOf(t))
  {
    h := if t == null then 0 else t.height;
  }

  /** The height from the heights of the branches; whatever was stored before is not read. */
  method UpdateHeight(t: TreeNode)
    requires t.Branches()
    modifies t`height, t`tree
    ensures t.Valid() && t.tree == Node(TreeOf(t.left), t.name, t.value, TreeOf(t.rite))
  {
    var l := BranchHeight(t.left);
    var r := BranchHeight(t.rite);
    t.height := 1 + Max(l, r);
    t.tree := Node(TreeOf(t.left), t.name, t.value, TreeOf(t.rite));
  }

  method AttachLeft(t: TreeNode, l: TreeNode?)
    requires ValidTree(l) && ValidTree(t.rite) && t !in ReprOf(l) && t !in ReprOf(t.rite)
    requires ReprOf(l) !! ReprOf(t.rite)
    modifies t`left, t`repr
    ensures t.left == l && t.Branches() && t.repr == {t} + ReprOf(l) + ReprOf(t.rite)
    ensures TreeOf(l) == old(TreeOf(l)) && ReprOf(l) == old(ReprOf(l))
    ensures TreeOf(t.rite) == old(TreeOf(t.rite)) && ReprOf(t.rite) == old(ReprOf(t.rite))
  {
    hide Height, TreeNode.Branches, TreeNode.Valid;
    t.left := l;
    t.repr := {t} + ReprOf(l) + ReprOf(t.rite);
    Assembled(t);
  }

  method AttachRite(t: TreeNode, r: TreeNode?)
    requires ValidTree(r) && ValidTree(t.left) && t !in ReprOf(r) && t !in ReprOf(t.left)
    requires ReprOf(t.left) !! ReprOf(r)
    modifies t`rite, t`repr
    ensures t.rite == r && t.Branches() && t.repr == {t} + ReprOf(t.left) + ReprOf(r)
    ensures TreeOf(r) == old(TreeOf(r)) && ReprOf(r) == old(ReprOf(r))
    ensures TreeOf(t.left) == old(TreeOf(t.left)) && ReprOf(t.left) == old(ReprOf(t.left))
  {
    hide Height, TreeNode.Branches, TreeNode.Valid;
    t.rite := r;
    t.repr := {t} + ReprOf(t.left) + ReprOf(r);
    Assembled(t);
  }

  method DoRotateLeft(t: TreeNode) returns (r: TreeNode)
    requires t.Branches() && t.rite != null
    modifies t, t.rite
    ensures r.Valid() && r.repr == old(t.repr)
    ensures old(t.rite.tree).Node?
    ensures r.tree == RotateLeft(old(Node(TreeOf(t.left), t.name, t.value, t.rite.tree)))
  {
    hide Height, TreeNode.Branches, TreeNode.Valid;
    BranchParts(t);
    Parts(t.rite);
    BranchParts(t.rite);
    var rite := t.rite;
    var beta := rite.left;
    ghost var all := t.repr;
    t.rite := beta;
    t.repr := {t} + ReprOf(t.left) + ReprOf(beta);
    Assembled(t);
    UpdateHeight(t);
    rite.left := t;
    rite.repr := all;
    Assembled(rite);
    UpdateHeight(rite);
    r := rite;
  }

  method DoRotateRite(t: TreeNode) returns (r: TreeNode)
    requires t.Branches() && t.left != null
    modifies t, t.left
    ensures r.Valid() && r.repr == old(t.repr)
    ensures old(t.left.tree).Node?
    ensures r.tree == RotateRite(old(Node(t.left.tree, t.name, t.value, TreeOf(t.rite))))
  {
    hide Height, TreeNode.Branches, TreeNode.Valid;
    BranchParts(t);
    Parts(t.left);
    BranchParts(t.left);
    var left := t.left;
    var beta := left.rite;
    ghost var all := t.repr;
    t.left := beta;
    t.repr := {t} + ReprOf(beta) + ReprOf(t.rite);
    Assembled(t);
    UpdateHeight(t);
    left.rite := t;
    left.repr := all;
    Assembled(left);
    UpdateHeight(left);
    r := left;
  }

  lemma EmptyHeight(t: Tree)
    ensures t.Empty? <==> Height(t) == 0
  {
  }

  method DoRebalanceLeft(t: TreeNode) returns (r: TreeNode)
    requires t.Branches()
    modifies t.repr
    ensures r.Valid() && r.repr == old(t.repr)
    ensures r.tree == RebalanceLeft(old(Node(TreeOf(t.left), t.name, t.value, TreeOf(t.rite))))
  {
    hide Height, TreeNode.Branches, TreeNode.Valid, RotateLeft, RotateRite;
    BranchParts(t);
    var hl := BranchHeight(t.left);
    var hr := BranchHeight(t.rite);
    if 1 + hr >= hl {
      UpdateHeight(t);
      return t;
    }
    var q := t.left;
    EmptyHeight(TreeOf(q));
    Parts(q);
    BranchParts(q);
    var ql := BranchHeight(q.left);
    var qr := BranchHeight(q.rite);
    if qr > ql {
      EmptyHeight(TreeOf(q.rite));
      var p := DoRotateLeft(q);
      t.left := p;
      Assembled(t);
    }
    r := DoRotateRite(t);
  }

  method DoRebalanceRite(t: TreeNode) returns (r: TreeNode)
    requires t.Branches()
    modifies t.repr
    ensures r.Valid() && r.repr == old(t.repr)
    ensures r.tree == RebalanceRite(old(Node(TreeOf(t.left), t.name, t.value, TreeOf(t.rite))))
  {
    hide Height, TreeNode.Branches, TreeNode.Valid, RotateLeft, RotateRite;
    BranchParts(t);
    var hl := BranchHeight(t.left);
    var hr := BranchHeight(t.rite);
    if 1 + hl >= hr {
      UpdateHeight(t);
      return t;
    }
    var q := t.rite;
    EmptyHeight(TreeOf(q));
    Parts(q);
    BranchParts(q);
    var ql := BranchHeight(q.left);
    var qr := BranchHeight(q.rite);
    if ql > qr {
      EmptyHeight(TreeOf(q.left));
      var p := DoRotateRite(q);
      t.rite := p;
      Assembled(t);
    }
    r := DoRotateLeft(t);
  }

  /** A name that is there already is an error, and leaves the tree as it is. */
  method TreeInsert(t: TreeNode?, name: Name, value: nat) returns (r: TreeNode, duplicate: bool)
    requires ValidTree(t)
    modifies ReprOf(t)
    ensures r.Valid() && fresh(r.repr - old(ReprOf(t))) && old(ReprOf(t)) <= r.repr
    ensures duplicate ==> r.repr == old(ReprOf(t))
    ensures r.tree == Insert(old(TreeOf(t)), name, value)
    ensures duplicate <==> Lookup(old(TreeOf(t)), name).Node?
    decreases ReprOf(t)
  {
    if t == null {
      r := new TreeNode(name, value);
      return r, false;
    }
    hide Height, TreeNode.Branches, TreeNode.Valid, RebalanceLeft, RebalanceRite, Order;
    Parts(t);
    BranchParts(t);
    OrderValues(Folded(name), Folded(t.name));
    var order := StrcmpCi(name, t.name);
    if order == 0 { return t, true; }
    if order == -1 {
      var l;
      l, duplicate := TreeInsert(t.left, name, value);
      AttachLeft(t, l);
      r := DoRebalanceLeft(t);
    } else {
      var r';
      r', duplicate := TreeInsert(t.rite, name, value);
      AttachRite(t, r');
      r := DoRebalanceRite(t);
    }
  }

  method TreeLookup(t0: TreeNode?, name: Name) returns (t: TreeNode?)
    requires ValidTree(t0)
    ensures ValidTree(t) && TreeOf(t) == Lookup(TreeOf(t0), name) && (t != null ==> t in ReprOf(t0))
  {
    hide Height, TreeNode.Branches, TreeNode.Valid, Order;
    t := t0;
    while t != null
      invariant ValidTree(t) && Lookup(TreeOf(t0), name) == Lookup(TreeOf(t), name) && ReprOf(t) <= ReprOf(t0)
      decreases ReprOf(t)
    {
      Parts(t);
      BranchParts(t);
      OrderValues(Folded(name), Folded(t.name));
      var order := StrcmpCi(name, t.name);
      if order == 0 { return; }
      t := if order == -1 then t.left else t.rite;
    }
  }

  /** The static bias of tree_build. */
  class Builder {
    var bias: nat

    constructor ()
      ensures bias == 0
    {
      bias := 0;
    }

    method TreeBuild(high: nat, names: seq<Name>, value: nat) returns (t: TreeNode?)
      requires high == |names| && bias <= 1
      modifies this
      ensures bias <= 1 && ValidTree(t) && fresh(ReprOf(t))
      ensures TreeOf(t) == Build(names, value, old(bias)).tree && bias == Build(names, value, old(bias)).bias
      decreases high
    {
      hide Height, TreeNode.Branches, TreeNode.Valid, Middle, NextBias, Build;
      if high <= 1 { BuildSmall(names, value, bias); }
      if high > 1 {
        ghost var bias0 := bias;
        var middle: int := high / 2;
        if high % 2 == 0 {
          middle := middle - bias;
          bias := 1 - bias;
        }
        MiddleSplits(high, bias0);
        BiasIs(high, bias0);
        BuildParts(names, value, bias0);
        var next := middle + 1;
        var node := new TreeNode(names[middle], value + middle);
        var l := TreeBuild(middle, names[..middle], value);
        var r := TreeBuild(high - next, names[next..], value + next);
        AttachLeft(node, l);
        AttachRite(node, r);
        UpdateHeight(node);
        t := node;
      } else if high == 1 {
        t := new TreeNode(names[0], value);
      } else {
        t := null;
      }
    }
  }
}
