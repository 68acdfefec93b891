/** RtlpPromoteAvlTreeNode and RtlpRebalanceAvlTreeNode. */
module AvlRebalance {
  import opened LinkTrees
  import opened AvlShape

  // ---------------------------------------------------------------- promotion

  /** The tree after node t is lifted over its parent. */
  ghost function Promoted(c: Context, t: Tree): Tree
    requires !c.Top? && t.Node?
  {
    if c.InLeft? then Node(t.left, t.link, Node(t.right, c.link, c.right))
    else Node(Node(c.left, c.link, t.left), t.link, t.right)
  }

  ghost function Lifted(o: Cell, x: Links, c: Context, t: Tree): Cell
    requires !c.Top? && t.Node?
  {
    if c.InLeft? then LiftedRight(o, x, t.link, c.link, Root(t.right), c.up)
    else LiftedLeft(o, x, t.link, c.link, Root(t.left), c.up)
  }

  method Promote(node: Links, ghost c: Context, ghost isLeft: bool)
    requires !c.Top? && !c.up.Top? && node.parent == c.link && c.link.parent == c.up.link
    requires (isLeft <==> c.link.left == node) && (!isLeft ==> c.link.right == node)
    requires c.up.InLeft? <==> c.up.link.left == c.link
    requires node != c.link && node != c.up.link && c.link != c.up.link
    requires var b := if isLeft then node.right else node.left; b != node && b != c.link && b != c.up.link
    modifies node`parent, node`left, node`right, c.link`parent, c.link`left, c.link`right,
             c.up.link`left, c.up.link`right, Some(if isLeft then node.right else node.left)`parent
    ensures At(node) == if isLeft then Cell(c.up.link, old(node.left), c.link)
      else Cell(c.up.link, c.link, old(node.right))
    ensures At(c.link) == if isLeft then Cell(node, old(node.right), old(c.link.right))
      else Cell(node, old(c.link.left), old(node.left))
    ensures var b := old(if isLeft then node.right else node.left); b != null ==> b.parent == c.link
    ensures At(c.up.link) == Swung(old(At(c.up.link)), c.up.link, c.up, node)
  {
    var parent := node.parent;
    var superParent := parent.parent;
    var left := IsLeftChild(node);
    var child := if left then node.right else node.left;
    if left {
      parent.left := child;
    } else {
      parent.right := child;
    }
    if child != null {
      child.parent := parent;
    }
    if left {
      node.right := parent;
    } else {
      node.left := parent;
    }
    parent.parent := node;
    if superParent.left == parent {
      superParent.left := node;
    } else {
      superParent.right := node;
    }
    node.parent := superParent;
  }

  /** The same, for all nodes of s. */
  method PromoteAll(node: Links, ghost c: Context, ghost t: Tree, ghost s: set<Links>)
    requires !c.Top? && !c.up.Top? && node.parent == c.link && c.link.parent == c.up.link
    requires t.Node? && node == t.link && node.left == Root(t.left) && node.right == Root(t.right)
    requires (c.InLeft? <==> c.link.left == node) && (!c.InLeft? ==> c.link.right == node)
    requires c.up.InLeft? <==> c.up.link.left == c.link
    requires node != c.link && node != c.up.link && c.link != c.up.link
    requires var b := Root(if c.InLeft? then t.right else t.left); b != node && b != c.link && b != c.up.link
    modifies node`parent, node`left, node`right, c.link`parent, c.link`left, c.link`right,
             c.up.link`left, c.up.link`right, Some(if c.InLeft? then node.right else node.left)`parent
    ensures forall x :: x in s ==> At(x) == Lifted(old(At(x)), x, c, t)
  {
    assert allocated(s);
    Promote(node, c, c.InLeft?);
  }

  lemma PromotedCells(c: Context, t: Tree, x: Links)
    requires !c.Top? && t.Node? && Distinct(Plug(c, t)) && x in Nodes(Plug(c, t))
    ensures InOrder(Plug(c.up, Promoted(c, t))) == InOrder(Plug(c, t))
    ensures WholeCell(Plug(c.up, Promoted(c, t)), x) == Lifted(WholeCell(Plug(c, t), x), x, c, t)
  {
    if c.InLeft? {
      RotateOrder(c.up, t.left, t.link, t.right, c.link, c.right);
      RotateRight(c.up, t.left, t.link, t.right, c.link, c.right, x);
    } else {
      RotateOrder(c.up, c.left, c.link, t.left, t.link, t.right);
      RotateLeft(c.up, c.left, c.link, t.left, t.link, t.right, x);
    }
  }

  lemma PromotionSite(c: Context, t: Tree)
    requires Distinct(Plug(c, t)) && t.Node? && !c.Top? && !c.up.Top?
    ensures t.link != c.link && t.link != c.up.link && c.link != c.up.link
    ensures Root(t.left) != t.link && Root(t.left) != c.link && Root(t.left) != c.up.link
    ensures Root(t.right) != t.link && Root(t.right) != c.link && Root(t.right) != c.up.link
  {
    PlugDistinct(c, t);
    assert c.link in ContextNodes(c) && c.up.link in ContextNodes(c.up);
    assert ContextNodes(c) == ContextNodes(c.up) + {c.link} + Nodes(Sibling(c));
  }

  /** Lifts a node over its parent; only pointers change. */
  method RtlpPromoteAvlTreeNode(node: Links, ghost c: Context, ghost t: Tree)
    requires Rooted(Plug(c, t)) && t.Node? && t.link == node && !c.Top? && !c.up.Top?
    modifies Nodes(Plug(c, t))`parent, Nodes(Plug(c, t))`left, Nodes(Plug(c, t))`right
    ensures Rooted(Plug(c.up, Promoted(c, t)))
    ensures InOrder(Plug(c.up, Promoted(c, t))) == InOrder(Plug(c, t))
    ensures Nodes(Plug(c.up, Promoted(c, t))) == Nodes(Plug(c, t))
  {
    ghost var w, w' := Plug(c, t), Plug(c.up, Promoted(c, t));
    ParentHolds(c, t);
    ParentHolds(c.up, Zip(c, t));
    PromotionSite(c, t);
    Tests(c, t);
    PromotedCells(c, t, node);
    SameOrder(w, w');
    assert allocated(Nodes(w));
    PromoteAll(node, c, t, Nodes(w));
    forall x | x in Nodes(w) ensures At(x) == WholeCell(w', x) {
      assert allocated(x);
      PromotedCells(c, t, x);
      assert old(At(x)) == WholeCell(w, x);
    }
  }

  // ---------------------------------------------------------------- rebalancing

  /** The balance factors after Rebalanced: those of the rotated nodes, by the case, and all
      others as they were. b is 1 if the right side was the higher one and -1 if not. */
  ghost function NewTilt(t: Tree, x: Links): int
    requires Lopsided(t)
  {
    var b := if Tilt(t) == 2 then 1 else -1;
    var h := HighChild(t);
    if Tilt(h) == -b then
      var k := if b == 1 then h.left else h.right;
      if x == t.link then (if Tilt(k) == b then -b else 0)
      else if x == h.link then (if Tilt(k) == -b then b else 0)
      else if x == Root(k) then 0
      else TiltOf(t, x)
    else if x == t.link then (if Tilt(h) == b then 0 else b)
    else if x == h.link then (if Tilt(h) == b then 0 else -b)
    else TiltOf(t, x)
  }

  lemma NewTiltIsTilt(t: Tree, x: Links)
    requires Lopsided(t) && Distinct(t) && x in Nodes(t)
    ensures TiltOf(Rebalanced(t), x) == NewTilt(t, x)
  {
    if Tilt(t) == 2 {
      if Tilt(t.right) == -1 {
        TiltRightDouble(t, x);
      } else {
        TiltRightSingle(t, x);
      }
    } else {
      if Tilt(t.left) == 1 {
        TiltLeftDouble(t, x);
      } else {
        TiltLeftSingle(t, x);
      }
    }
  }

  lemma TiltRightSingle(t: Tree, x: Links)
    requires Lopsided(t) && Distinct(t) && x in Nodes(t) && Tilt(t) == 2 && Tilt(t.right) != -1
    ensures TiltOf(Rebalanced(t), x) == NewTilt(t, x)
  {
    var h := t.right;
    assert Distinct(h) && Avl(h);
    var l' := Node(t.left, t.link, h.left);
    assert Distinct(l') && Distinct(Rebalanced(t));
    NodeTilt(t.left, t.link, t.right, x);
    NodeTilt(h.left, h.link, h.right, x);
    NodeTilt(t.left, t.link, h.left, x);
    NodeTilt(l', h.link, h.right, x);
  }

  lemma TiltLeftSingle(t: Tree, x: Links)
    requires Lopsided(t) && Distinct(t) && x in Nodes(t) && Tilt(t) == -2 && Tilt(t.left) != 1
    ensures TiltOf(Rebalanced(t), x) == NewTilt(t, x)
  {
    var h := t.left;
    assert Distinct(h) && Avl(h);
    var r' := Node(h.right, t.link, t.right);
    assert Distinct(r') && Distinct(Rebalanced(t));
    NodeTilt(t.left, t.link, t.right, x);
    NodeTilt(h.left, h.link, h.right, x);
    NodeTilt(h.right, t.link, t.right, x);
    NodeTilt(h.left, h.link, r', x);
  }

  lemma TiltRightDouble(t: Tree, x: Links)
    requires Lopsided(t) && Distinct(t) && x in Nodes(t) && Tilt(t) == 2 && Tilt(t.right) == -1
    ensures TiltOf(Rebalanced(t), x) == NewTilt(t, x)
  {
    var h := t.right;
    assert Distinct(h) && Avl(h);
    var k := h.left;
    assert Distinct(k) && Avl(k);
    var l', r' := Node(t.left, t.link, k.left), Node(k.right, h.link, h.right);
    DoubleDistinct(t.left, t.link, k.left, k.link, k.right, h.link, h.right);
    NodeTilt(t.left, t.link, t.right, x);
    NodeTilt(h.left, h.link, h.right, x);
    NodeTilt(k.left, k.link, k.right, x);
    NodeTilt(t.left, t.link, k.left, x);
    NodeTilt(k.right, h.link, h.right, x);
    NodeTilt(l', k.link, r', x);
  }

  lemma TiltLeftDouble(t: Tree, x: Links)
    requires Lopsided(t) && Distinct(t) && x in Nodes(t) && Tilt(t) == -2 && Tilt(t.left) == 1
    ensures TiltOf(Rebalanced(t), x) == NewTilt(t, x)
  {
    var h := t.left;
    assert Distinct(h) && Avl(h);
    var k := h.right;
    assert Distinct(k) && Avl(k);
    var l', r' := Node(h.left, h.link, k.left), Node(k.right, t.link, t.right);
    DoubleDistinct(h.left, h.link, k.left, k.link, k.right, t.link, t.right);
    NodeTilt(t.left, t.link, t.right, x);
    NodeTilt(h.left, h.link, h.right, x);
    NodeTilt(k.left, k.link, k.right, x);
    NodeTilt(h.left, h.link, k.left, x);
    NodeTilt(k.right, t.link, t.right, x);
    NodeTilt(l', k.link, r', x);
  }

  /** All ways to arrange three nodes over four subtrees are distinct together. */
  lemma DoubleDistinct(a: Tree, l: Links, b: Tree, k: Links, d: Tree, r: Links, e: Tree)
    requires Distinct(Node(a, l, Node(Node(b, k, d), r, e))) || Distinct(Node(Node(a, l, Node(b, k, d)), r, e))
    ensures Distinct(Node(a, l, b)) && Distinct(Node(d, r, e)) && Distinct(Node(Node(a, l, b), k, Node(d, r, e)))
  {
    RotateOrder(InRight(Top, a, l), b, k, d, r, e);
    RotateOrder(Top, a, l, b, k, Node(d, r, e));
    RotateOrder(Top, a, l, Node(b, k, d), r, e);
    SameOrder(Node(a, l, Node(Node(b, k, d), r, e)), Node(Node(a, l, b), k, Node(d, r, e)));
    SameOrder(Node(Node(a, l, Node(b, k, d)), r, e), Node(Node(a, l, b), k, Node(d, r, e)));
  }

  /** node leans by two towards its higher side, and its balance factor still says one. */
  ghost predicate LeansTooFar(node: Links, t: Tree)
    reads Nodes(t)`balance
  {
    && Lopsided(t) && t.link == node
    && node.balance == (if Tilt(t) == 2 then 1 else -1)
    && forall x {:trigger TiltOf(t, x)} :: x in Nodes(t) && x != node ==> x.balance == TiltOf(t, x)
  }

  lemma HighSide(t: Tree, s: Tree)
    requires Lopsided(t) && Distinct(t)
    requires s == HighChild(t) || (s == HighChild(t).left && HighChild(t).left.Node?)
      || (s == HighChild(t).right && HighChild(t).right.Node?)
    ensures s.Node? && Avl(s) && s.link in Nodes(t) && s.link != t.link && TiltOf(t, s.link) == Tilt(s)
    ensures s != HighChild(t) ==> s.link != HighChild(t).link
  {
    var h := HighChild(t);
    NodeTilt(t.left, t.link, t.right, s.link);
    NodeTilt(h.left, h.link, h.right, s.link);
  }

  /** The context of the higher child, and of the grandchild a double rotation lifts. */
  ghost function HighContext(c: Context, t: Tree): Context
    requires Lopsided(t)
  {
    if Tilt(t) == 2 then InRight(c, t.left, t.link) else InLeft(c, t.link, t.right)
  }

  ghost function InnerChild(t: Tree): Tree
    requires Lopsided(t)
  {
    if Tilt(t) == 2 then t.right.left else t.left.right
  }

  ghost function InnerContext(c: Context, t: Tree): Context
    requires Lopsided(t)
  {
    var d, h := HighContext(c, t), HighChild(t);
    if Tilt(t) == 2 then InLeft(d, h.link, h.right) else InRight(d, h.left, h.link)
  }

  ghost predicate IsDouble(t: Tree)
    requires Lopsided(t)
  {
    Tilt(HighChild(t)) == if Tilt(t) == 2 then -1 else 1
  }

  /** After the rotation, node is right below the new top of its subtree. */
  lemma NodeIsBelowTop(c: Context, t: Tree)
    requires Lopsided(t) && Rooted(Plug(c, Rebalanced(t)))
    ensures t.link.parent == Root(Rebalanced(t))
  {
    var t' := Rebalanced(t);
    if Tilt(t) == 2 {
      ParentHolds(InLeft(c, t'.link, t'.right), t'.left);
    } else {
      ParentHolds(InRight(c, t'.left, t'.link), t'.right);
    }
  }

  method PromoteChild(child: Links, ghost c: Context, ghost t: Tree)
    requires Rooted(Plug(c, t)) && !c.Top? && Lopsided(t) && !IsDouble(t) && child == HighChild(t).link
    modifies Nodes(Plug(c, t))`parent, Nodes(Plug(c, t))`left, Nodes(Plug(c, t))`right
    ensures Rooted(Plug(c, Rebalanced(t))) && InOrder(Plug(c, Rebalanced(t))) == InOrder(Plug(c, t))
    ensures t.link.parent == Root(Rebalanced(t))
  {
    RtlpPromoteAvlTreeNode(child, HighContext(c, t), HighChild(t));
    NodeIsBelowTop(c, t);
  }

  method PromoteGrandchild(subChild: Links, ghost c: Context, ghost t: Tree)
    requires Rooted(Plug(c, t)) && !c.Top? && Lopsided(t) && IsDouble(t) && subChild == InnerChild(t).link
    modifies Nodes(Plug(c, t))`parent, Nodes(Plug(c, t))`left, Nodes(Plug(c, t))`right
    ensures Rooted(Plug(c, Rebalanced(t))) && InOrder(Plug(c, Rebalanced(t))) == InOrder(Plug(c, t))
    ensures t.link.parent == Root(Rebalanced(t))
  {
    ghost var e, k := InnerContext(c, t), InnerChild(t);
    assert Plug(e, k) == Plug(c, t);
    RtlpPromoteAvlTreeNode(subChild, e, k);
    RtlpPromoteAvlTreeNode(subChild, HighContext(c, t), Promoted(e, k));
    NodeIsBelowTop(c, t);
  }

  /** The pointers around a node that leans too far. */
  lemma HighPointers(c: Context, t: Tree)
    requires Rooted(Plug(c, t)) && Lopsided(t) && LeansTooFar(t.link, t)
    ensures Root(HighChild(t)) == (if t.link.balance == 1 then t.link.right else t.link.left)
    ensures HighChild(t).Node? && HighChild(t).link != t.link && HighChild(t).link in Nodes(t)
    ensures HighChild(t).link.balance == Tilt(HighChild(t)) && -1 <= Tilt(HighChild(t)) <= 1
    ensures IsDouble(t) ==>
      && InnerChild(t).Node? && InnerChild(t).link != t.link && InnerChild(t).link != HighChild(t).link
      && InnerChild(t).link in Nodes(t) && InnerChild(t).link.balance == Tilt(InnerChild(t))
      && Root(InnerChild(t)) == if t.link.balance == 1 then HighChild(t).link.left else HighChild(t).link.right
  {
    PlugDistinct(c, t);
    ParentHolds(c, t);
    HighSide(t, HighChild(t));
    ParentHolds(HighContext(c, t), HighChild(t));
    if IsDouble(t) {
      HighSide(t, InnerChild(t));
    }
  }

  /** The balance factors after a double rotation. */
  method SetDoubleBalances(node: Links, child: Links, subChild: Links, balance: int, ghost t: Tree)
    requires LeansTooFar(node, t) && IsDouble(t) && balance == node.balance
    requires child == Root(HighChild(t)) && subChild == Root(InnerChild(t))
    requires subChild.balance == Tilt(InnerChild(t))
    requires node != child && child != subChild && node != subChild && {node, child, subChild} <= Nodes(t)
    modifies node`balance, child`balance, subChild`balance
    ensures forall x {:trigger NewTilt(t, x)} :: x in Nodes(t) ==> x.balance == NewTilt(t, x)
  {
    assert allocated(Nodes(t));
    if subChild.balance == balance {
      child.balance := 0;
      node.balance := -balance;
    } else if subChild.balance == -balance {
      child.balance := balance;
      node.balance := 0;
    } else {
      child.balance := 0;
      node.balance := 0;
    }
    subChild.balance := 0;
  }

  /** The balance factors after a single rotation. */
  method SetSingleBalances(node: Links, child: Links, balance: int, level: bool, ghost t: Tree)
    requires LeansTooFar(node, t) && !IsDouble(t) && balance == node.balance
    requires child == Root(HighChild(t)) && node != child && {node, child} <= Nodes(t)
    requires -1 <= Tilt(HighChild(t)) <= 1 && (level <==> Tilt(HighChild(t)) == 0)
    modifies node`balance, child`balance
    ensures forall x {:trigger NewTilt(t, x)} :: x in Nodes(t) ==> x.balance == NewTilt(t, x)
  {
    assert allocated(Nodes(t));
    if level {
      child.balance := -balance;
    } else {
      child.balance := 0;
      node.balance := 0;
    }
  }

  /** Restores the balance at node, two levels down at most. Returns true if the subtree is as
      high as it was, which happens only on deletion. */
  method RtlpRebalanceAvlTreeNode(node: Links, ghost c: Context, ghost t: Tree) returns (sameHeight: bool)
    requires Rooted(Plug(c, t)) && !c.Top? && LeansTooFar(node, t)
    modifies Nodes(Plug(c, t))`parent, Nodes(Plug(c, t))`left, Nodes(Plug(c, t))`right, Nodes(t)`balance
    ensures Rooted(Plug(c, Rebalanced(t)))
    ensures InOrder(Plug(c, Rebalanced(t))) == InOrder(Plug(c, t))
    ensures node.parent == Root(Rebalanced(t))
    ensures forall x {:trigger NewTilt(t, x)} :: x in Nodes(t) ==> x.balance == NewTilt(t, x)
    ensures sameHeight <==> Tilt(HighChild(t)) == 0
  {
    var balance := node.balance;
    HighPointers(c, t);
    var child := if balance == 1 then node.right else node.left;
    assert allocated(Nodes(t)) && allocated(Nodes(Plug(c, Rebalanced(t))));
    if child.balance == balance {
      PromoteChild(child, c, t);
      SetSingleBalances(node, child, balance, false, t);
      return false;
    }
    if child.balance == -balance {
      var subChild := if balance == 1 then child.left else child.right;
      PromoteGrandchild(subChild, c, t);
      SetDoubleBalances(node, child, subChild, balance, t);
      return false;
    }
    PromoteChild(child, c, t);
    SetSingleBalances(node, child, balance, true, t);
    return true;
  }
}
