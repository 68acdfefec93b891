/** RtlpInsertAvlTreeNode: hanging a new leaf and restoring the balance on the way up. */
module AvlInsert {
  import opened LinkTrees
  import opened AvlShape
  import opened AvlRebalance

  // ---------------------------------------------------------------- the table's tree

  /** The tree hangs as the right child of the table's own node, which has no left child. */
  ghost predicate Hung(c: Context, sentinel: Links)
    decreases c
  {
    !c.Top? && if c.up.Top? then c == InRight(Top, Leaf, sentinel) else Hung(c.up, sentinel)
  }

  /** Every node but the table's own holds its true balance factor. */
  ghost predicate Weighed(w: Tree)
    reads Nodes(w)`balance
  {
    forall x {:trigger TiltOf(w, x)} :: x in Nodes(w) && x != Root(w) ==> x.balance == TiltOf(w, x)
  }

  /** What the table keeps: its own node on top, the tree to the right, in balance. */
  ghost predicate Sound(w: Tree, sentinel: Links)
    reads Nodes(w)`balance
  {
    w.Node? && w.link == sentinel && w.left.Leaf? && Avl(w.right) && Weighed(w)
  }

  lemma {:induction false} PlugAvl(c: Context, t: Tree, sentinel: Links)
    requires Hung(c, sentinel)
    ensures Plug(c, t).Node? && Plug(c, t).link == sentinel && Plug(c, t).left.Leaf?
    ensures Avl(Plug(c, t).right) <==> Avl(t) && AvlContext(c, Height(t))
    ensures Height(Plug(c, t).right) == RootHeight(c, Height(t))
    decreases c
  {
    if !c.up.Top? {
      PlugAvl(c.up, Zip(c, t), sentinel);
      assert Height(Zip(c, t)) == ZipHeight(c, Height(t));
      assert Avl(Zip(c, t)) <==> -1 <= ZipTilt(c, Height(t)) <= 1 && Avl(Sibling(c)) && Avl(t);
    }
  }

  /** The context of any node of the tree ends in the table's own node. */
  lemma {:induction false} LocateHung(c: Context, t: Tree, sentinel: Links, n: Links)
    requires Hung(c, sentinel) && n in Nodes(t)
    ensures Hung(Locate(c, t, n).0, sentinel)
    decreases t
  {
    if n == t.link {
    } else if n in Nodes(t.left) {
      LocateHung(InLeft(c, t.link, t.right), t.left, sentinel, n);
    } else {
      LocateHung(InRight(c, t.left, t.link), t.right, sentinel, n);
    }
  }

  /** The balance factors of a tree and its context, seen one level up. */
  lemma TiltsOneUp(c: Context, t: Tree, h: nat, x: Links)
    requires Distinct(Plug(c, t)) && !c.Top?
    ensures x in Nodes(t) ==> TiltOf(Zip(c, t), x) == TiltOf(t, x)
    ensures x in Nodes(Sibling(c)) ==> TiltOf(Zip(c, t), x) == ContextTilt(c, h, x) && x in ContextNodes(c)
    ensures TiltOf(Zip(c, t), c.link) == ZipTilt(c, Height(t)) && ContextTilt(c, h, c.link) == ZipTilt(c, h)
    ensures x in ContextNodes(c.up) ==>
      ContextTilt(c, h, x) == ContextTilt(c.up, ZipHeight(c, h), x) && x in ContextNodes(c) && x != c.link
    ensures Nodes(Zip(c, t)) == Nodes(t) + {c.link} + Nodes(Sibling(c))
  {
    PlugDistinct(c, t);
    PlugDistinct(c.up, Zip(c, t));
    if c.InLeft? {
      NodeTilt(t, c.link, c.right, x);
    } else {
      NodeTilt(c.left, c.link, t, x);
    }
  }

  lemma {:induction false} SentinelAbove(c: Context, t: Tree, sentinel: Links)
    requires Hung(c, sentinel) && Distinct(Plug(c, t))
    ensures sentinel in ContextNodes(c) && sentinel !in Nodes(t)
    decreases c
  {
    PlugDistinct(c, t);
    if !c.up.Top? {
      SentinelAbove(c.up, Zip(c, t), sentinel);
    }
  }

  // ---------------------------------------------------------------- the climb

  /** The subtree t has just become one higher; the factors above are those from before. */
  ghost predicate Grown(c: Context, t: Tree, sentinel: Links)
    reads ContextNodes(c)`balance, Nodes(t)`balance
  {
    && Hung(c, sentinel) && t.Node? && Avl(t) && (Tilt(t) != 0 || Height(t) == 1)
    && AvlContext(c, Height(t) - 1)
    && (forall x {:trigger TiltOf(t, x)} :: x in Nodes(t) ==> x.balance == TiltOf(t, x))
    && (forall x {:trigger ContextTilt(c, Height(t) - 1, x)} :: x in ContextNodes(c) && x != sentinel ==>
      x.balance == ContextTilt(c, Height(t) - 1, x))
  }

  /** Where the balance factors stand, seen from the parent: its own is the only one that may
      have become wrong. */
  lemma GrownOneUp(c: Context, t: Tree, sentinel: Links)
    requires Distinct(Plug(c, t)) && Grown(c, t, sentinel) && !c.up.Top?
    ensures c.link in Nodes(Zip(c, t)) && c.link != sentinel && sentinel !in Nodes(Zip(c, t))
    ensures c.link !in ContextNodes(c.up)
    ensures c.link.balance == ZipTilt(c, Height(t) - 1)
    ensures Tilt(Zip(c, t)) == ZipTilt(c, Height(t))
    ensures forall x {:trigger TiltOf(Zip(c, t), x)} :: x in Nodes(Zip(c, t)) && x != c.link ==>
      x.balance == TiltOf(Zip(c, t), x)
    ensures forall x {:trigger ContextTilt(c.up, ZipHeight(c, Height(t) - 1), x)} ::
      x in ContextNodes(c.up) && x != sentinel ==>
      x.balance == ContextTilt(c.up, ZipHeight(c, Height(t) - 1), x)
  {
    var h := Height(t) - 1;
    SentinelAbove(c.up, Zip(c, t), sentinel);
    PlugDistinct(c.up, Zip(c, t));
    TiltsOneUp(c, t, h, c.link);
    forall x | x in Nodes(Zip(c, t)) && x != c.link ensures x.balance == TiltOf(Zip(c, t), x) {
      TiltsOneUp(c, t, h, x);
    }
    forall x | x in ContextNodes(c.up) && x != sentinel
      ensures x.balance == ContextTilt(c.up, ZipHeight(c, h), x)
    {
      TiltsOneUp(c, t, h, x);
    }
  }

  /** The parent was level: it now leans towards the grown side, and has grown itself. */
  method LeanTowards(p: Links, left: bool, ghost c: Context, ghost t: Tree, ghost sentinel: Links)
    requires Distinct(Plug(c, t)) && Grown(c, t, sentinel) && p == c.link && !c.up.Top?
    requires p.balance == 0 && (left <==> c.InLeft?)
    modifies p`balance
    ensures Grown(c.up, Zip(c, t), sentinel)
    ensures RootHeight(c.up, Height(Zip(c, t)) - 1) == RootHeight(c, Height(t) - 1)
    ensures sentinel.balance == old(sentinel.balance)
  {
    GrownOneUp(c, t, sentinel);
    p.balance := if left then -1 else 1;
    TiltsOneUp(c, t, Height(t) - 1, p);
  }

  /** The tree is whole again: heights above t are as the balance factors say. */
  lemma Settled(c: Context, t: Tree, sentinel: Links)
    requires Distinct(Plug(c, t)) && Hung(c, sentinel) && Avl(t) && AvlContext(c, Height(t))
    requires forall x {:trigger TiltOf(t, x)} :: x in Nodes(t) ==> x.balance == TiltOf(t, x)
    requires forall x {:trigger ContextTilt(c, Height(t), x)} :: x in ContextNodes(c) && x != sentinel ==>
      x.balance == ContextTilt(c, Height(t), x)
    ensures Sound(Plug(c, t), sentinel)
    ensures Height(Plug(c, t).right) == RootHeight(c, Height(t))
  {
    PlugAvl(c, t, sentinel);
    PlugNodes(c, t);
    PlugDistinct(c, t);
    forall x | x in Nodes(Plug(c, t)) && x != sentinel
      ensures x.balance == TiltOf(Plug(c, t), x)
    {
      PlugTilt(c, t, x);
    }
  }

  /** The same, when the root of u has only just got its true factor. */
  lemma SettledAt(c: Context, u: Tree, sentinel: Links)
    requires Distinct(Plug(c, u)) && Hung(c, sentinel) && u.Node? && Avl(u) && AvlContext(c, Height(u))
    requires u.link.balance == Tilt(u)
    requires forall x {:trigger TiltOf(u, x)} :: x in Nodes(u) && x != u.link ==> x.balance == TiltOf(u, x)
    requires forall x {:trigger ContextTilt(c, Height(u), x)} :: x in ContextNodes(c) && x != sentinel ==>
      x.balance == ContextTilt(c, Height(u), x)
    ensures Sound(Plug(c, u), sentinel)
    ensures Height(Plug(c, u).right) == RootHeight(c, Height(u))
  {
    Settled(c, u, sentinel);
  }

  /** The parent leaned the other way: it is now level, and no higher than before. Or it is the
      table's own node, made to look so: then the tree has become higher. */
  method LevelOut(p: Links, ghost c: Context, ghost t: Tree, ghost sentinel: Links)
    requires Distinct(Plug(c, t)) && Grown(c, t, sentinel) && p == c.link
    requires c.up.Top? || p.balance == if c.InLeft? then 1 else -1
    modifies p`balance
    ensures Sound(Plug(c, t), sentinel) && p.balance == 0
    ensures Height(Plug(c, t).right) == RootHeight(c, Height(t) - 1) + if c.up.Top? then 1 else 0
    ensures !c.up.Top? ==> sentinel.balance == old(sentinel.balance) && sentinel != p
  {
    SentinelAbove(c, t, sentinel);
    if !c.up.Top? {
      GrownOneUp(c, t, sentinel);
      TiltsOneUp(c, t, Height(t) - 1, p);
      assert Plug(c.up, Zip(c, t)) == Plug(c, t) && Height(Zip(c, t)) == ZipHeight(c, Height(t) - 1);
    }
    p.balance := 0;
    if c.up.Top? {
      Settled(c, t, sentinel);
    } else {
      SettledAt(c.up, Zip(c, t), sentinel);
    }
  }

  lemma ReadyToRotate(c: Context, t: Tree, sentinel: Links)
    requires Distinct(Plug(c, t)) && Grown(c, t, sentinel) && !c.up.Top?
    requires c.link.balance == if c.InLeft? then -1 else 1
    ensures var u := Zip(c, t);
      LeansTooFar(c.link, u) && HighChild(u) == t && Height(Rebalanced(u)) == ZipHeight(c, Height(t) - 1)
  {
    GrownOneUp(c, t, sentinel);
    RebalancedIsAvl(Zip(c, t));
  }

  /** The tree is whole again after a rotation of u that restored the height h. */
  lemma SettledRotated(c: Context, u: Tree, sentinel: Links)
    requires Distinct(Plug(c, u)) && Hung(c, sentinel) && Lopsided(u)
    requires AvlContext(c, Height(Rebalanced(u)))
    requires forall x {:trigger NewTilt(u, x)} :: x in Nodes(u) ==> x.balance == NewTilt(u, x)
    requires forall x {:trigger ContextTilt(c, Height(Rebalanced(u)), x)} :: x in ContextNodes(c) && x != sentinel ==>
      x.balance == ContextTilt(c, Height(Rebalanced(u)), x)
    ensures Sound(Plug(c, Rebalanced(u)), sentinel)
    ensures Height(Plug(c, Rebalanced(u)).right) == RootHeight(c, Height(Rebalanced(u)))
  {
    RebalancedIsAvl(u);
    RebalancedOrder(u);
    SameOrder(u, Rebalanced(u));
    PlugDistinct(c, u);
    PlugDistinct(c, Rebalanced(u));
    forall x | x in Nodes(u) ensures x.balance == TiltOf(Rebalanced(u), x) {
      NewTiltIsTilt(u, x);
    }
    Settled(c, Rebalanced(u), sentinel);
  }

  /** The parent leaned the same way already: a rotation brings it back to its old height. */
  method RotateBack(p: Links, ghost c: Context, ghost t: Tree, ghost sentinel: Links) returns (ghost w': Tree)
    requires Rooted(Plug(c, t)) && Grown(c, t, sentinel) && p == c.link && !c.up.Top?
    requires p.balance == if c.InLeft? then -1 else 1
    modifies Nodes(Plug(c, t))`parent, Nodes(Plug(c, t))`left, Nodes(Plug(c, t))`right, Nodes(Plug(c, t))`balance
    ensures Rooted(w') && InOrder(w') == InOrder(Plug(c, t)) && Sound(w', sentinel)
    ensures Height(w'.right) == RootHeight(c, Height(t) - 1)
    ensures sentinel.balance == old(sentinel.balance)
  {
    hide Sound, Rebalanced, InOrder, Distinct, Height, Plug;
    ghost var u := Zip(c, t);
    GrownOneUp(c, t, sentinel);
    ReadyToRotate(c, t, sentinel);
    PlugDistinct(c.up, u);
    PlugNodes(c.up, u);
    assert allocated(ContextNodes(c.up)) && allocated(sentinel);
    var same := RtlpRebalanceAvlTreeNode(p, c.up, u);
    w' := Plug(c.up, Rebalanced(u));
    SettledRotated(c.up, u, sentinel);
  }

  /** What a node's factor can be, and what it says about the climb. */
  lemma GrownCases(c: Context, t: Tree, sentinel: Links)
    requires Distinct(Plug(c, t)) && Grown(c, t, sentinel) && sentinel.balance == -1
    ensures c.up.Top? <==> c.link == sentinel
    ensures c.up.Top? ==> c.InRight?
    ensures !c.up.Top? ==> -1 <= c.link.balance <= 1
  {
    if !c.up.Top? {
      GrownOneUp(c, t, sentinel);
    }
  }

  /** One round of the climb: the parent of the grown subtree is looked at. Returns whether the
      climb is over, and if so whether the whole tree has become higher. */
  method ClimbGrown(newNode: Links, nodeOrParent: Links, sentinel: Links, ghost c: Context, ghost t: Tree)
    returns (done: bool, higher: bool, ghost w': Tree)
    requires Rooted(Plug(c, t)) && Grown(c, t, sentinel) && sentinel.balance == -1
    requires newNode == t.link && nodeOrParent == c.link
    modifies Nodes(Plug(c, t))`parent, Nodes(Plug(c, t))`left, Nodes(Plug(c, t))`right, Nodes(Plug(c, t))`balance
    ensures Rooted(w') && InOrder(w') == InOrder(Plug(c, t))
    ensures done ==> Sound(w', sentinel) && Height(w'.right) == RootHeight(c, Height(t) - 1) + if higher then 1 else 0
    ensures !done ==>
      && !c.up.Top? && w' == Plug(c.up, Zip(c, t)) && Grown(c.up, Zip(c, t), sentinel) && sentinel.balance == -1
      && RootHeight(c.up, Height(Zip(c, t)) - 1) == RootHeight(c, Height(t) - 1)
      && nodeOrParent.parent == c.up.link
  {
    Tests(c, t);
    PlugNodes(c, t);
    GrownCases(c, t, sentinel);
    assert allocated(Nodes(Plug(c, t))) && allocated(sentinel);
    done, higher, w' := true, false, Plug(c, t);
    var isLeft := IsLeftChild(newNode);
    var balance := if isLeft then -1 else 1;
    if nodeOrParent.balance == 0 {
      LeanTowards(nodeOrParent, isLeft, c, t, sentinel);
      ParentHolds(c.up, Zip(c, t));
      done := false;
    } else if nodeOrParent.balance != balance {
      LevelOut(nodeOrParent, c, t, sentinel);
      higher := sentinel.balance == 0;
    } else {
      w' := RotateBack(nodeOrParent, c, t, sentinel);
    }
  }

  // ---------------------------------------------------------------- the new leaf

  /** Hanging a new leaf n in the empty hole of c. */
  lemma LeafCells(c: Context, n: Links, x: Links)
    requires Distinct(Plug(c, Leaf)) && !c.Top? && n !in Nodes(Plug(c, Leaf)) && x in Nodes(Plug(c, Leaf))
    ensures WholeCell(Plug(c, Node(Leaf, n, Leaf)), x) == Swung(WholeCell(Plug(c, Leaf), x), x, c, n)
  {
    var t' := Node(Leaf, n, Leaf);
    PlugNodes(c, Leaf);
    PlugDistinct(c, Leaf);
    PlugDistinct(c, t');
    Regraft(c, Leaf, t', x);
  }

  /** The new leaf's own pointers. */
  lemma LeafHere(c: Context, n: Links)
    requires Distinct(Plug(c, Leaf)) && !c.Top? && n !in Nodes(Plug(c, Leaf))
    ensures Distinct(Plug(c, Node(Leaf, n, Leaf))) && Plug(c, Node(Leaf, n, Leaf)).Node?
    ensures Nodes(Plug(c, Node(Leaf, n, Leaf))) == Nodes(Plug(c, Leaf)) + {n} && c.link in Nodes(Plug(c, Leaf))
    ensures WholeCell(Plug(c, Node(Leaf, n, Leaf)), n) == Cell(c.link, null, null)
    ensures InOrder(Plug(c, Node(Leaf, n, Leaf))) == Before(c) + [n] + After(c)
  {
    hide WholeCell, Before, After, DistinctContext;
    var leaf := Node(Leaf, n, Leaf);
    PlugNodes(c, Leaf);
    PlugNodes(c, leaf);
    PlugDistinct(c, Leaf);
    PlugDistinct(c, leaf);
    PlugInOrder(c, leaf);
    Here(c, leaf);
    PlugRoot(c, leaf);
  }

  method PointTo(n: Links, p: Links, left: bool, ghost c: Context, ghost s: set<Links>)
    requires !c.Top? && p == c.link && (left <==> c.InLeft?) && n !in s && p in s
    modifies p`left, p`right, n`parent
    ensures n.parent == p && forall x :: x in s ==> At(x) == Swung(old(At(x)), x, c, n)
  {
    assert allocated(s);
    if left {
      p.left := n;
      n.parent := p;
    } else {
      p.right := n;
      n.parent := p;
    }
  }

  /** RtlInsertAsLeftChild or RtlInsertAsRightChild. */
  method HangLeaf(n: Links, p: Links, left: bool, ghost c: Context)
    requires Rooted(Plug(c, Leaf)) && !c.Top? && n !in Nodes(Plug(c, Leaf))
    requires p == c.link && (left <==> c.InLeft?) && n.left == null && n.right == null
    modifies p`left, p`right, n`parent
    ensures Rooted(Plug(c, Node(Leaf, n, Leaf)))
    ensures InOrder(Plug(c, Node(Leaf, n, Leaf))) == Before(c) + [n] + After(c)
  {
    ghost var w, w' := Plug(c, Leaf), Plug(c, Node(Leaf, n, Leaf));
    LeafHere(c, n);
    assert allocated(Nodes(w));
    PointTo(n, p, left, c, Nodes(w));
    forall x | x in Nodes(w') ensures At(x) == WholeCell(w', x) {
      if x != n {
        assert allocated(x);
        LeafCells(c, n, x);
        assert old(At(x)) == WholeCell(w, x);
      }
    }
  }

  /** A sound tree with a new leaf in an empty hole: only the leaf's side has grown. */
  lemma LeafGrows(c: Context, n: Links, sentinel: Links)
    requires Distinct(Plug(c, Leaf)) && Hung(c, sentinel) && Sound(Plug(c, Leaf), sentinel)
    requires n !in Nodes(Plug(c, Leaf)) && n.balance == 0
    ensures Grown(c, Node(Leaf, n, Leaf), sentinel)
    ensures RootHeight(c, 0) == Height(Plug(c, Leaf).right)
  {
    PlugAvl(c, Leaf, sentinel);
    PlugNodes(c, Leaf);
    forall x | x in ContextNodes(c) && x != sentinel ensures x.balance == ContextTilt(c, 0, x) {
      PlugTilt(c, Leaf, x);
    }
    assert TiltOf(Node(Leaf, n, Leaf), n) == 0;
  }

  /** The table's own node comes first. */
  lemma {:induction false} HungBefore(c: Context, sentinel: Links)
    requires Hung(c, sentinel)
    ensures |Before(c)| > 0 && Before(c)[0] == sentinel
    decreases c
  {
    if !c.up.Top? {
      HungBefore(c.up, sentinel);
    }
  }
}
