/** RtlpDeleteAvlTreeNode: cutting out a node and restoring the balance on the way up. */
module AvlDelete {
  import opened LinkTrees
  import opened AvlShape
  import opened AvlRebalance
  import opened AvlInsert
  import opened SplayDelete
  import opened SwapLinks
  import opened TableCursor
  import opened Walks

  // ---------------------------------------------------------------- the climb

  /** The subtree t has just become one lower; the factors above are those from before. */
  ghost predicate Shrunk(c: Context, t: Tree, sentinel: Links)
    reads ContextNodes(c)`balance, Nodes(t)`balance
  {
    && Hung(c, sentinel) && Avl(t) && AvlContext(c, Height(t) + 1)
    && (forall x {:trigger TiltOf(t, x)} :: x in Nodes(t) ==> x.balance == TiltOf(t, x))
    && (forall x {:trigger ContextTilt(c, Height(t) + 1, x)} :: x in ContextNodes(c) && x != sentinel
          ==> x.balance == ContextTilt(c, Height(t) + 1, x))
  }

  /** Where the balance factors stand, seen from the parent: its own is the only one that may
      have become wrong. */
  lemma ShrunkOneUp(c: Context, t: Tree, sentinel: Links)
    requires Distinct(Plug(c, t)) && Shrunk(c, t, sentinel) && !c.up.Top?
    ensures c.link in Nodes(Zip(c, t)) && c.link != sentinel && sentinel !in Nodes(Zip(c, t))
    ensures c.link !in ContextNodes(c.up)
    ensures c.link.balance == ZipTilt(c, Height(t) + 1)
    ensures Tilt(Zip(c, t)) == ZipTilt(c, Height(t))
    ensures forall x {:trigger TiltOf(Zip(c, t), x)} :: x in Nodes(Zip(c, t)) && x != c.link ==>
      x.balance == TiltOf(Zip(c, t), x)
    ensures forall x {:trigger ContextTilt(c.up, ZipHeight(c, Height(t) + 1), x)} ::
      x in ContextNodes(c.up) && x != sentinel ==> x.balance == ContextTilt(c.up, ZipHeight(c, Height(t) + 1), x)
  {
    var h := Height(t) + 1;
    SentinelAbove(c.up, Zip(c, t), sentinel);
    PlugDistinct(c.up, Zip(c, t));
    TiltsOneUp(c, t, h, c.link);
    forall x | x in Nodes(Zip(c, t)) && x != c.link ensures x.balance == TiltOf(Zip(c, t), x) {
      TiltsOneUp(c, t, h, x);
    }
    forall x | x in ContextNodes(c.up) && x != sentinel
      ensures x.balance == ContextTilt(c.up, ZipHeight(c, h), x)
    {
      TiltsOneUp(c, t, h, x);
    }
  }

  /** The parent leaned towards the shrunk side: it is now level, and has shrunk itself. */
  method LevelDown(p: Links, ghost c: Context, ghost t: Tree, ghost sentinel: Links)
    requires Distinct(Plug(c, t)) && Shrunk(c, t, sentinel) && p == c.link && !c.up.Top?
    requires p.balance == if c.InLeft? then -1 else 1
    modifies p`balance
    ensures Shrunk(c.up, Zip(c, t), sentinel)
    ensures RootHeight(c.up, Height(Zip(c, t)) + 1) == RootHeight(c, Height(t) + 1)
    ensures sentinel.balance == old(sentinel.balance)
  {
    ShrunkOneUp(c, t, sentinel);
    ContextAbove(c, Height(t) + 1);
    LevelledDown(c, t);
    p.balance := 0;
    ShrunkAt(c.up, Zip(c, t), sentinel);
  }

  lemma LevelledDown(c: Context, t: Tree)
    requires !c.Top? && Avl(t) && Avl(Sibling(c))
    requires ZipTilt(c, Height(t) + 1) == if c.InLeft? then -1 else 1
    ensures Avl(Zip(c, t)) && Tilt(Zip(c, t)) == 0 && Height(Zip(c, t)) + 1 == ZipHeight(c, Height(t) + 1)
  {
    assert Height(Sibling(c)) == Height(t);
    var z := Zip(c, t);
    if c.InLeft? {
      assert z.left == t && z.right == Sibling(c);
    } else {
      assert z.left == Sibling(c) && z.right == t;
    }
  }

  lemma ContextAbove(c: Context, h: nat)
    requires !c.Top? && !c.up.Top? && AvlContext(c, h)
    ensures Avl(Sibling(c)) && AvlContext(c.up, ZipHeight(c, h))
  {
  }

  /** The subtree u is one lower than it was, and its root has only just got its true factor. */
  lemma ShrunkAt(c: Context, u: Tree, sentinel: Links)
    requires Hung(c, sentinel) && u.Node? && Avl(u) && AvlContext(c, Height(u) + 1) && u.link.balance == Tilt(u)
    requires forall x {:trigger TiltOf(u, x)} :: x in Nodes(u) && x != u.link ==> x.balance == TiltOf(u, x)
    requires forall x {:trigger ContextTilt(c, Height(u) + 1, x)} :: x in ContextNodes(c) && x != sentinel ==>
      x.balance == ContextTilt(c, Height(u) + 1, x)
    ensures Shrunk(c, u, sentinel)
  {
    forall x | x in Nodes(u) ensures x.balance == TiltOf(u, x) {
      if x == u.link {
        assert TiltOf(u, x) == Tilt(u);
      }
    }
  }

  /** The parent was level: it now leans away, and is as high as before. Or it is the table's own
      node, made to look level: then the tree has become lower. */
  method LeanAway(p: Links, balance: int, ghost c: Context, ghost t: Tree, ghost sentinel: Links)
    requires Distinct(Plug(c, t)) && Shrunk(c, t, sentinel) && p == c.link
    requires p.balance == 0 && balance == if c.InLeft? then -1 else 1
    modifies p`balance
    ensures Sound(Plug(c, t), sentinel) && p.balance != 0
    ensures Height(Plug(c, t).right) == RootHeight(c, Height(t) + 1) - if c.up.Top? then 1 else 0
    ensures !c.up.Top? ==> sentinel.balance == old(sentinel.balance) && sentinel != p
  {
    SentinelAbove(c, t, sentinel);
    if !c.up.Top? {
      ShrunkOneUp(c, t, sentinel);
      TiltsOneUp(c, t, Height(t) + 1, p);
      assert Plug(c.up, Zip(c, t)) == Plug(c, t) && Height(Zip(c, t)) == ZipHeight(c, Height(t) + 1);
    }
    p.balance := -balance;
    if c.up.Top? {
      Settled(c, t, sentinel);
    } else {
      SettledAt(c.up, Zip(c, t), sentinel);
    }
  }

  lemma ReadyToRotateDown(c: Context, t: Tree, sentinel: Links)
    requires Distinct(Plug(c, t)) && Shrunk(c, t, sentinel) && !c.up.Top?
    requires c.link.balance == if c.InLeft? then 1 else -1
    ensures var u := Zip(c, t);
      && LeansTooFar(c.link, u) && Height(u) == ZipHeight(c, Height(t) + 1)
      && Height(Rebalanced(u)) == if Tilt(HighChild(u)) == 0 then Height(u) else Height(u) - 1
  {
    ShrunkOneUp(c, t, sentinel);
    RebalancedIsAvl(Zip(c, t));
  }

  /** The parent leaned away already: a rotation restores the balance. It keeps the height, and
      all is done, or the subtree has shrunk. */
  method RotateDown(p: Links, ghost c: Context, ghost t: Tree, ghost sentinel: Links)
    returns (sameHeight: bool, ghost u: Tree)
    requires Rooted(Plug(c, t)) && Shrunk(c, t, sentinel) && p == c.link && !c.up.Top?
    requires p.balance == if c.InLeft? then 1 else -1
    modifies Nodes(Plug(c, t))`parent, Nodes(Plug(c, t))`left, Nodes(Plug(c, t))`right, Nodes(Plug(c, t))`balance
    ensures Rooted(Plug(c.up, u)) && InOrder(Plug(c.up, u)) == InOrder(Plug(c, t)) && u.Node? && p.parent == u.link
    ensures sameHeight ==> Sound(Plug(c.up, u), sentinel)
                           && Height(Plug(c.up, u).right) == RootHeight(c, Height(t) + 1)
    ensures !sameHeight ==> Shrunk(c.up, u, sentinel)
                            && RootHeight(c.up, Height(u) + 1) == RootHeight(c, Height(t) + 1)
    ensures sentinel.balance == old(sentinel.balance)
  {
    hide Sound;
    ghost var v := Zip(c, t);
    ShrunkOneUp(c, t, sentinel);
    ReadyToRotateDown(c, t, sentinel);
    u := Rebalanced(v);
    PlugNodes(c.up, v);
    sameHeight := RotateAt(p, c.up, v, sentinel);
  }

  /** The rotation itself; what it means for the climb depends on whether it keeps the height. */
  method RotateAt(p: Links, ghost c: Context, ghost v: Tree, ghost sentinel: Links) returns (sameHeight: bool)
    requires Rooted(Plug(c, v)) && Hung(c, sentinel) && LeansTooFar(p, v) && AvlContext(c, Height(v))
    requires forall x {:trigger ContextTilt(c, Height(v), x)} :: x in ContextNodes(c) && x != sentinel ==>
      x.balance == ContextTilt(c, Height(v), x)
    modifies Nodes(Plug(c, v))`parent, Nodes(Plug(c, v))`left, Nodes(Plug(c, v))`right, Nodes(v)`balance
    ensures Rooted(Plug(c, Rebalanced(v))) && InOrder(Plug(c, Rebalanced(v))) == InOrder(Plug(c, v))
    ensures Rebalanced(v).Node? && p.parent == Rebalanced(v).link
    ensures sameHeight ==> Sound(Plug(c, Rebalanced(v)), sentinel)
                           && Height(Plug(c, Rebalanced(v)).right) == RootHeight(c, Height(v))
    ensures !sameHeight ==> Shrunk(c, Rebalanced(v), sentinel) && Height(Rebalanced(v)) + 1 == Height(v)
  {
    RebalancedIsAvl(v);
    PlugDistinct(c, v);
    PlugNodes(c, v);
    assert allocated(ContextNodes(c));
    sameHeight := RtlpRebalanceAvlTreeNode(p, c, v);
    if sameHeight {
      SettledRotated(c, v, sentinel);
    } else {
      StillShrunk(c, v, sentinel);
    }
  }

  lemma StillShrunk(c: Context, u: Tree, sentinel: Links)
    requires Distinct(u) && Hung(c, sentinel) && Lopsided(u) && AvlContext(c, Height(u))
    requires Tilt(HighChild(u)) != 0
    requires forall x {:trigger NewTilt(u, x)} :: x in Nodes(u) ==> x.balance == NewTilt(u, x)
    requires forall x {:trigger ContextTilt(c, Height(u), x)} :: x in ContextNodes(c) && x != sentinel ==>
      x.balance == ContextTilt(c, Height(u), x)
    ensures Shrunk(c, Rebalanced(u), sentinel) && Height(Rebalanced(u)) + 1 == Height(u)
  {
    RebalancedIsAvl(u);
    RebalancedOrder(u);
    SameOrder(u, Rebalanced(u));
    forall x | x in Nodes(u) ensures x.balance == TiltOf(Rebalanced(u), x) {
      NewTiltIsTilt(u, x);
    }
  }

  /** What a node's factor can be, and what it says about the climb. */
  lemma ShrunkCases(c: Context, t: Tree, sentinel: Links)
    requires Distinct(Plug(c, t)) && Shrunk(c, t, sentinel) && sentinel.balance == 0
    ensures c.up.Top? <==> c.link == sentinel
    ensures c.up.Top? ==> c.InRight?
    ensures !c.up.Top? ==> -1 <= c.link.balance <= 1
  {
    if !c.up.Top? {
      ShrunkOneUp(c, t, sentinel);
    }
  }

  /** One round of the climb: the parent of the shrunk subtree is looked at. Returns whether the
      climb is over, and if so whether the whole tree has become lower. If not, u is the subtree
      one level up, now shrunk, and top its root. */
  method ClimbShrunk(parentNode: Links, balance: int, sentinel: Links, ghost c: Context, ghost t: Tree)
    returns (done: bool, lower: bool, top: Links, ghost u: Tree)
    requires Rooted(Plug(c, t)) && Shrunk(c, t, sentinel) && sentinel.balance == 0
    requires parentNode == c.link && balance == if c.InLeft? then -1 else 1
    modifies Nodes(Plug(c, t))`parent, Nodes(Plug(c, t))`left, Nodes(Plug(c, t))`right, Nodes(Plug(c, t))`balance
    ensures Rooted(Plug(c.up, u)) && InOrder(Plug(c.up, u)) == InOrder(Plug(c, t))
    ensures done ==> Sound(Plug(c.up, u), sentinel)
                     && Height(Plug(c.up, u).right) == RootHeight(c, Height(t) + 1) - if lower then 1 else 0
    ensures !done ==>
      && !c.up.Top? && u.Node? && top == u.link && Shrunk(c.up, u, sentinel) && sentinel.balance == 0
      && RootHeight(c.up, Height(u) + 1) == RootHeight(c, Height(t) + 1)
  {
    hide Sound, RootHeight, Plug, Distinct, InOrder;
    PlugNodes(c, t);
    ShrunkCases(c, t, sentinel);
    assert allocated(Nodes(Plug(c, t))) && allocated(sentinel);
    done, lower, top, u := false, false, parentNode, Zip(c, t);
    if parentNode.balance == balance {
      LevelDown(parentNode, c, t, sentinel);
    } else if parentNode.balance == 0 {
      LeanAway(parentNode, balance, c, t, sentinel);
      done, lower := true, sentinel.balance != 0;
    } else {
      done, u := RotateDown(parentNode, c, t, sentinel);
      top := parentNode.parent;
    }
  }

  // ---------------------------------------------------------------- cutting out

  /** The node's only child, if it has one, takes its place under the parent. */
  method LinkChild(n: Links, p: Links, ghost c: Context, ghost t: Tree) returns (isLeft: bool)
    requires Rooted(Plug(c, t)) && t.Node? && t.link == n && (t.left.Leaf? || t.right.Leaf?)
    requires !c.Top? && p == c.link
    modifies Nodes(Plug(c, t))`parent, Nodes(Plug(c, t))`left, Nodes(Plug(c, t))`right
    ensures Rooted(Plug(c, OnlyChild(t))) && At(n) == old(At(n))
    ensures isLeft <==> c.InLeft?
  {
    ghost var w, w' := Plug(c, t), Plug(c, OnlyChild(t));
    ParentHolds(c, t);
    Tests(c, t);
    PlugDistinct(c, t);
    SpliceNodes(c, t);
    PlugRoot(c, OnlyChild(t));
    var child := if n.left != null then n.left else n.right;
    isLeft := IsLeftChild(n);
    assert allocated(Nodes(w));
    LinkUnder(child, p, isLeft, c, Nodes(w));
    forall x | x in Nodes(w') ensures At(x) == WholeCell(w', x) {
      assert allocated(x);
      SpliceCells(c, t, x);
      assert old(At(x)) == WholeCell(w, x);
    }
  }

  method LinkUnder(child: Links?, p: Links, isLeft: bool, ghost c: Context, ghost s: set<Links>)
    requires !c.Top? && p == c.link && (isLeft <==> c.InLeft?) && child != p
    modifies p`left, p`right, Some(child)`parent
    ensures forall x :: x in s ==>
      At(x) == if x == child then old(At(x)).(parent := p) else Swung(old(At(x)), x, c, child)
  {
    assert allocated(s);
    if isLeft {
      p.left := child;
    } else {
      p.right := child;
    }
    if child != null {
      child.parent := p;
    }
  }

  lemma OnlyChildTilt(w: Tree, c: Context, t: Tree, x: Links)
    requires w == Plug(c, t) && Distinct(w) && t.Node? && (t.left.Leaf? || t.right.Leaf?)
    requires x in Nodes(OnlyChild(t))
    ensures x in Nodes(w) && x in Nodes(t) && TiltOf(w, x) == TiltOf(OnlyChild(t), x)
  {
    PlugDistinct(c, t);
    PlugNodes(c, t);
    PlugTilt(c, t, x);
    NodeTilt(t.left, t.link, t.right, x);
  }

  lemma ContextTiltStays(w: Tree, c: Context, t: Tree, x: Links)
    requires w == Plug(c, t) && Distinct(w) && x in ContextNodes(c)
    ensures x in Nodes(w) && TiltOf(w, x) == ContextTilt(c, Height(t), x)
  {
    PlugDistinct(c, t);
    PlugNodes(c, t);
    PlugTilt(c, t, x);
  }

  lemma OnlyChildIsLower(t: Tree)
    requires t.Node? && (t.left.Leaf? || t.right.Leaf?) && Avl(t)
    ensures Avl(OnlyChild(t)) && Height(OnlyChild(t)) + 1 == Height(t)
  {
  }

  /** Shrunk, with the height from before given. */
  lemma ShrunkFrom(c: Context, t: Tree, h: nat, sentinel: Links)
    requires h == Height(t) + 1 && Hung(c, sentinel) && Avl(t) && AvlContext(c, h)
    requires forall x {:trigger TiltOf(t, x)} :: x in Nodes(t) ==> x.balance == TiltOf(t, x)
    requires forall x {:trigger ContextTilt(c, h, x)} :: x in ContextNodes(c) && x != sentinel ==>
      x.balance == ContextTilt(c, h, x)
    ensures Shrunk(c, t, sentinel)
  {
  }

  /** The shape of what is cut and of what is around it. */
  lemma CutShape(w: Tree, c: Context, t: Tree, sentinel: Links)
    requires w == Plug(c, t) && Hung(c, sentinel) && w.Node? && Avl(w.right) && Distinct(w)
    requires t.Node? && (t.left.Leaf? || t.right.Leaf?)
    ensures Avl(OnlyChild(t)) && Height(OnlyChild(t)) + 1 == Height(t)
    ensures AvlContext(c, Height(t)) && RootHeight(c, Height(t)) == Height(w.right)
    ensures sentinel !in Nodes(t)
  {
    PlugAvl(c, t, sentinel);
    SentinelAbove(c, t, sentinel);
    OnlyChildIsLower(t);
  }

  lemma CutWeights(w: Tree, c: Context, t: Tree, sentinel: Links)
    requires w == Plug(c, t) && Distinct(w) && Weighed(w) && Root(w) == sentinel && sentinel !in Nodes(t)
    requires t.Node? && (t.left.Leaf? || t.right.Leaf?)
    ensures forall x {:trigger TiltOf(OnlyChild(t), x)} :: x in Nodes(OnlyChild(t)) ==>
      x.balance == TiltOf(OnlyChild(t), x)
    ensures forall x {:trigger ContextTilt(c, Height(t), x)} :: x in ContextNodes(c) && x != sentinel ==>
      x.balance == ContextTilt(c, Height(t), x)
  {
    forall x | x in Nodes(OnlyChild(t)) ensures x.balance == TiltOf(OnlyChild(t), x) {
      OnlyChildTilt(w, c, t, x);
    }
    forall x | x in ContextNodes(c) && x != sentinel ensures x.balance == ContextTilt(c, Height(t), x) {
      ContextTiltStays(w, c, t, x);
    }
  }

  /** Once cut out, the subtree is one lower. */
  lemma CutShrinks(w: Tree, c: Context, t: Tree, sentinel: Links)
    requires w == Plug(c, t) && Distinct(w) && Sound(w, sentinel) && Hung(c, sentinel)
    requires t.Node? && (t.left.Leaf? || t.right.Leaf?)
    ensures Shrunk(c, OnlyChild(t), sentinel)
    ensures RootHeight(c, Height(OnlyChild(t)) + 1) == Height(w.right)
  {
    CutShape(w, c, t, sentinel);
    CutWeights(w, c, t, sentinel);
    ShrunkFrom(c, OnlyChild(t), Height(t), sentinel);
  }

  // ---------------------------------------------------------------- taking over

  lemma {:induction false} TradedTilt(t: Tree, a: Links, b: Links, x: Links)
    requires Distinct(t) && x in Nodes(t)
    ensures TiltOf(Traded(t, a, b), Trade(a, b, x)) == TiltOf(t, x)
    ensures Height(Traded(t, a, b)) == Height(t) && (Avl(Traded(t, a, b)) <==> Avl(t))
  {
    TradedHeight(t, a, b);
    match t
    case Leaf =>
    case Node(l, n, r) =>
      TradedHeight(l, a, b);
      TradedHeight(r, a, b);
      TradedNodes(l, a, b, x);
      if x in Nodes(l) {
        TradedTilt(l, a, b, x);
      } else if x in Nodes(r) {
        TradedTilt(r, a, b, x);
      }
  }

  lemma {:induction false} TradedHeight(t: Tree, a: Links, b: Links)
    ensures Height(Traded(t, a, b)) == Height(t) && (Avl(Traded(t, a, b)) <==> Avl(t))
  {
    match t
    case Leaf =>
    case Node(l, n, r) =>
      TradedHeight(l, a, b);
      TradedHeight(r, a, b);
  }

  /** s' is s with a renamed to b, which did not occur. */
  lemma Renamed(s: seq<Links>, s': seq<Links>, a: Links, b: Links)
    requires NoRepeats(s) && a in Elements(s) && b !in Elements(s) && |s'| == |s|
    requires forall k :: 0 <= k < |s| ==> s'[k] == if s[k] == a then b else s[k]
    ensures NoRepeats(s') && Elements(s') == Elements(s) - {a} + {b}
  {
    forall i, j | 0 <= i < j < |s'| ensures s'[i] != s'[j] {
      assert s[i] != s[j] && s[i] in Elements(s) && s[j] in Elements(s);
    }
    var i :| 0 <= i < |s| && s[i] == a;
    assert s'[i] == b;
    forall k | 0 <= k < |s| && s[k] != a ensures s[k] in Elements(s') {
      assert s'[k] == s[k];
    }
  }

  /** When b is not in the tree, trading a and b puts b in a's place. */
  lemma ReplacedNodes(t: Tree, a: Links, b: Links)
    requires Distinct(t) && a in Nodes(t) && b !in Nodes(t)
    ensures Distinct(Traded(t, a, b)) && Nodes(Traded(t, a, b)) == Nodes(t) - {a} + {b}
  {
    var s, s' := InOrder(t), InOrder(Traded(t, a, b));
    TradedOrder(t, a, b);
    DistinctIffNoRepeats(t);
    DistinctIffNoRepeats(Traded(t, a, b));
    InOrderNodes(t);
    InOrderNodes(Traded(t, a, b));
    forall k | 0 <= k < |s| ensures s'[k] == if s[k] == a then b else s[k] {
      assert s[k] in Elements(s);
    }
    Renamed(s, s', a, b);
  }

  /** del gets node's links and balance factor, and node's neighbours are pointed at it. */
  method CopyLinks(del: Links, node: Links)
    requires Local(node) && node.parent != node && del != node
    requires del != node.parent && del != node.left && del != node.right
    requires node.parent.left != del && node.parent.right != del
    modifies del`parent, del`left, del`right, del`balance, node.parent`left, node.parent`right,
             Some(node.left)`parent, Some(node.right)`parent
    ensures At(del) == old(At(node)) && del.balance == node.balance
    ensures node.parent.left == Trade(node, del, old(node.parent.left))
    ensures node.parent.right == Trade(node, del, old(node.parent.right))
    ensures node.left != null ==> node.left.parent == del
    ensures node.right != null ==> node.right.parent == del
  {
    del.parent, del.left, del.right, del.balance := node.parent, node.left, node.right, node.balance;
    if IsLeftChild(node) {
      del.parent.left := del;
    } else {
      del.parent.right := del;
    }
    if del.left != null {
      del.left.parent := del;
    }
    if del.right != null {
      del.right.parent := del;
    }
  }

  method CopyLinksAll(del: Links, node: Links, ghost s: set<Links>)
    requires Local(node) && node.parent != node && Near(node) <= s && Exclusive(node, s) && del !in s
    requires node.parent.left != del && node.parent.right != del
    requires forall x :: x in s ==> x.left != del && x.right != del && x.parent != del
    modifies del`parent, del`left, del`right, del`balance, node.parent`left, node.parent`right,
             Some(node.left)`parent, Some(node.right)`parent
    ensures At(del) == old(At(node)) && del.balance == node.balance
    ensures forall x :: x in s && x != node ==> At(x) == TradeCell(node, del, old(At(x)))
  {
    assert allocated(s);
    CopyLinks(del, node);
  }

  lemma ReplacedCells(w: Tree, a: Links, b: Links, z: Links)
    requires Distinct(w) && a in Nodes(w) && b !in Nodes(w) && z in Nodes(Traded(w, a, b))
    ensures z == b || (z in Nodes(w) && z != a)
    ensures WholeCell(Traded(w, a, b), z) == TradeCell(a, b, WholeCell(w, if z == b then a else z))
    ensures TiltOf(Traded(w, a, b), z) == TiltOf(w, if z == b then a else z)
  {
    ReplacedNodes(w, a, b);
    var x := if z == b then a else z;
    TradedRoot(w, a, b);
    TradedCells(w, a, b, Root(w), x);
    TradedTilt(w, a, b, x);
  }

  /** No link of a tree leads out of it. */
  lemma LinksStayInside(w: Tree, del: Links)
    requires Rooted(w) && del !in Nodes(w)
    ensures forall x :: x in Nodes(w) ==> x.left != del && x.right != del && x.parent != del
  {
    forall x | x in Nodes(w) ensures x.left != del && x.right != del && x.parent != del {
      TreeIsLocal(w, x);
    }
  }

  /** del, which is not in the tree, takes node's place in it. */
  method TakeOver(del: Links, node: Links, ghost w: Tree, ghost sentinel: Links)
    requires Rooted(w) && Sound(w, sentinel) && node in Nodes(w) && node != sentinel && del !in Nodes(w)
    modifies Nodes(w)`parent, Nodes(w)`left, Nodes(w)`right, del`parent, del`left, del`right, del`balance
    ensures Rooted(Traded(w, node, del)) && Sound(Traded(w, node, del), sentinel)
    ensures Height(Traded(w, node, del).right) == Height(w.right)
  {
    ghost var w' := Traded(w, node, del);
    Ready(w, node);
    LinksStayInside(w, del);
    ReplacedNodes(w, node, del);
    TradedRoot(w, node, del);
    TradedHeight(w.right, node, del);
    assert allocated(Nodes(w));
    CopyLinksAll(del, node, Nodes(w));
    forall z | z in Nodes(w') ensures At(z) == WholeCell(w', z) {
      var x := if z == del then node else z;
      ReplacedCells(w, node, del, z);
      assert allocated(x);
      assert old(At(x)) == WholeCell(w, x);
      if z == del {
        NoSelfLinks(w, node, del);
      }
    }
    forall z | z in Nodes(w') && z != sentinel ensures z.balance == TiltOf(w', z) {
      ReplacedCells(w, node, del, z);
    }
  }

  lemma NoSelfLinks(w: Tree, a: Links, b: Links)
    requires Distinct(w) && a in Nodes(w) && a != Root(w) && b !in Nodes(w)
    ensures TradeCell(a, b, WholeCell(w, a)) == WholeCell(w, a)
  {
    var (c, t) := Locate(Top, w, a);
    Here(c, t);
    PlugDistinct(c, t);
    PlugNodes(c, t);
  }

  // ---------------------------------------------------------------- which node to cut out

  /** The first node of a subtree has no left child. */
  lemma {:induction false} LeftmostCell(c: Context, t: Tree)
    requires Distinct(Plug(c, t)) && t.Node?
    ensures InOrder(t) != [] && InOrder(t)[0] in Nodes(t) && InOrder(t)[0] in Nodes(Plug(c, t))
    ensures WholeCell(Plug(c, t), InOrder(t)[0]).left == null
    decreases t
  {
    PlugNodes(c, t);
    if t.left.Node? {
      assert Plug(InLeft(c, t.link, t.right), t.left) == Plug(c, t);
      LeftmostCell(InLeft(c, t.link, t.right), t.left);
    } else {
      Here(c, t);
    }
  }

  lemma RightmostIsLastNode(c: Context, t: Tree)
    requires Distinct(Plug(c, t)) && t.Node?
    ensures InOrder(t) != [] && InOrder(t)[|InOrder(t)| - 1] in Nodes(t)
    ensures InOrder(t)[|InOrder(t)| - 1] in Nodes(Plug(c, t))
    ensures WholeCell(Plug(c, t), InOrder(t)[|InOrder(t)| - 1]).right == null
  {
    PlugNodes(c, t);
    RightmostIsLast(t);
    RightmostCell(c, t);
  }

  /** The context of a node of a sound tree. */
  lemma NodeIsHung(w: Tree, sentinel: Links, n: Links)
    requires Distinct(w) && Sound(w, sentinel) && n in Nodes(w) && n != sentinel
    ensures Hung(Locate(Top, w, n).0, sentinel)
    ensures sentinel in Nodes(w) && sentinel !in Nodes(Locate(Top, w, n).1)
  {
    var c := InRight(Top, Leaf, sentinel);
    assert w == Node(Leaf, sentinel, w.right);
    assert Locate(Top, w, n) == Locate(c, w.right, n);
    LocateHung(c, w.right, sentinel, n);
    SentinelAbove(Locate(Top, w, n).0, Locate(Top, w, n).1, sentinel);
  }

  /** The node that is cut out in node's stead: node itself if it lacks a child, or else its
      neighbour in the order on the higher side. */
  method ChooseStead(node: Links, ghost w: Tree, ghost sentinel: Links) returns (del: Links)
    requires Rooted(w) && Sound(w, sentinel) && node in Nodes(w) && node != sentinel
    ensures del in Nodes(w) && del != sentinel
    ensures WholeCell(w, del).left == null || WholeCell(w, del).right == null
    ensures del != node ==> NextIn(InOrder(w), node) == del || PreviousIn(InOrder(w), node) == del
  {
    ghost var c, t := Locate(Top, w, node).0, Locate(Top, w, node).1;
    ParentHolds(c, t);
    Here(c, t);
    NodeIsHung(w, sentinel, node);
    if node.left == null || node.right == null {
      return node;
    }
    NeighboursInOrder(c, t);
    if node.balance >= 0 {
      LeftmostCell(InRight(c, t.left, node), t.right);
      del := GoLeft(node.right, InRight(c, t.left, node), t.right);
    } else {
      RightmostIsLastNode(InLeft(c, node, t.right), t.left);
      del := GoRight(node.left, InLeft(c, node, t.right), t.left);
    }
  }

  /** What is left when one of two neighbours is taken out of the order. */
  lemma PairInOrder(w: Tree, a: seq<Links>, x: Links, y: Links, b: seq<Links>)
    requires Distinct(w) && InOrder(w) == a + [x, y] + b
    ensures x != y && x !in Elements(a) + Elements(b) && y !in Elements(a) + Elements(b)
    ensures Without(InOrder(w), x) == a + [y] + b && Without(InOrder(w), y) == a + [x] + b
  {
    assert a + [x, y] + b == a + [x] + ([y] + b) == (a + [x]) + [y] + b;
    SidesLackNode(a, x, [y] + b, w);
    SidesLackNode(a + [x], y, b, w);
    WithoutMiddle(a, x, [y] + b);
    WithoutMiddle(a + [x], y, b);
    ElementsConcat(a, [x]);
    ElementsConcat([y], b);
    assert a + ([y] + b) == a + [y] + b;
    assert [x][0] == x && [y][0] == y;
  }

  /** Cutting out a neighbour and putting it in node's place takes node out of the order. */
  lemma SteadOrder(w: Tree, w1: Tree, node: Links, del: Links)
    requires Distinct(w) && node in Nodes(w)
    requires InOrder(w1) == Without(InOrder(w), del) && node != del
    requires NextIn(InOrder(w), node) == del || PreviousIn(InOrder(w), node) == del
    ensures InOrder(Traded(w1, node, del)) == Without(InOrder(w), node)
  {
    var s := InOrder(w);
    InOrderNodes(w);
    DistinctIffNoRepeats(w);
    var a, b := SplitAround(s, node);
    TradedOrder(w1, node, del);
    if NextIn(s, node) == del {
      SplitFirst(a, node, b);
      PairInOrder(w, a, node, del, b[1..]);
      RenameMiddle(a, node, b[1..], del, InOrder(Traded(w1, node, del)));
    } else {
      SplitLast(a, node, b);
      PairInOrder(w, a[..|a| - 1], del, node, b);
      RenameMiddle(a[..|a| - 1], node, b, del, InOrder(Traded(w1, node, del)));
    }
  }

  lemma SplitFirst(a: seq<Links>, x: Links, b: seq<Links>)
    requires b != []
    ensures a + [x] + b == a + [x, b[0]] + b[1..]
  {
  }

  lemma SplitLast(a: seq<Links>, x: Links, b: seq<Links>)
    requires a != []
    ensures a + [x] + b == a[..|a| - 1] + [a[|a| - 1], x] + b
  {
  }

  lemma RenameMiddle(a: seq<Links>, x: Links, b: seq<Links>, y: Links, s: seq<Links>)
    requires |s| == |a| + 1 + |b| && x !in Elements(a) + Elements(b) && y !in Elements(a) + Elements(b)
    requires forall i :: 0 <= i < |s| ==> s[i] == Trade(x, y, (a + [x] + b)[i])
    ensures s == a + [y] + b
  {
    forall i | 0 <= i < |s| ensures s[i] == (a + [y] + b)[i] {
      if i < |a| {
        assert a[i] in Elements(a);
      } else if i > |a| {
        assert b[i - |a| - 1] in Elements(b);
      }
    }
  }
}
