/** RtlSplay: bottom-up splaying of a tree with parent pointers. */
module Splay {
  import opened LinkTrees

  // ---------------------------------------------------------------- pointer steps

  /** The nodes among these are pairwise different. */
  ghost predicate Different(n: Links, p: Links, g: Links, y: Links?, z: Links?, u: Links?) {
    && n != p && n != g && p != g
    && y != n && y != p && y != g
    && z != n && z != p && z != g && (z == null || z != y)
    && (u == null || (u != n && u != p && u != g && u != y && u != z))
  }

  /** N is the left child of P, P the left child of G. */
  method LiftLeftLeft(n: Links, p: Links, g: Links, ghost up: Context)
    requires p.left == n && g.left == p && Hangs(up, g)
    requires Different(n, p, g, n.right, p.right, Above(up))
    modifies n, p, g, Some(n.right)`parent, Some(p.right)`parent, Some(Above(up))`left, Some(Above(up))`right
    ensures At(n) == Cell(Owner(up, n), old(n.left), p)
    ensures At(p) == Cell(n, old(n.right), g)
    ensures At(g) == Cell(p, old(p.right), old(g.right))
    ensures old(n.right) != null ==> old(n.right).parent == p
    ensures old(p.right) != null ==> old(p.right).parent == g
    ensures !up.Top? ==> At(up.link) == Swung(old(At(up.link)), up.link, up, n)
  {
    p.left := n.right;
    g.left := p.right;
    if p.left != null { p.left.parent := p; }
    if g.left != null { g.left.parent := g; }
    if IsRoot(g) {
      n.parent := n;
    } else {
      n.parent := g.parent;
      if IsLeftChild(g) {
        g.parent.left := n;
      } else {
        g.parent.right := n;
      }
    }
    n.right := p;
    p.parent := n;
    p.right := g;
    g.parent := p;
  }

  /** N is the left child of P, P the right child of G. */
  method LiftLeftRight(n: Links, p: Links, g: Links, ghost up: Context)
    requires p.left == n && g.right == p && Hangs(up, g)
    requires Different(n, p, g, n.left, n.right, Above(up))
    modifies n, p, g, Some(n.left)`parent, Some(n.right)`parent, Some(Above(up))`left, Some(Above(up))`right
    ensures At(n) == Cell(Owner(up, n), g, p)
    ensures At(p) == Cell(n, old(n.right), old(p.right))
    ensures At(g) == Cell(n, old(g.left), old(n.left))
    ensures old(n.left) != null ==> old(n.left).parent == g
    ensures old(n.right) != null ==> old(n.right).parent == p
    ensures !up.Top? ==> At(up.link) == Swung(old(At(up.link)), up.link, up, n)
  {
    g.right := n.left;
    p.left := n.right;
    if g.right != null { g.right.parent := g; }
    if p.left != null { p.left.parent := p; }
    if IsRoot(g) {
      n.parent := n;
    } else {
      n.parent := g.parent;
      if IsLeftChild(g) {
        g.parent.left := n;
      } else {
        g.parent.right := n;
      }
    }
    n.left := g;
    g.parent := n;
    n.right := p;
    p.parent := n;
  }

  /** N is the right child of P, P the right child of G. */
  method LiftRightRight(n: Links, p: Links, g: Links, ghost up: Context)
    requires p.right == n && g.right == p && Hangs(up, g)
    requires Different(n, p, g, p.left, n.left, Above(up))
    modifies n, p, g, Some(p.left)`parent, Some(n.left)`parent, Some(Above(up))`left, Some(Above(up))`right
    ensures At(n) == Cell(Owner(up, n), p, old(n.right))
    ensures At(p) == Cell(n, g, old(n.left))
    ensures At(g) == Cell(p, old(g.left), old(p.left))
    ensures old(p.left) != null ==> old(p.left).parent == g
    ensures old(n.left) != null ==> old(n.left).parent == p
    ensures !up.Top? ==> At(up.link) == Swung(old(At(up.link)), up.link, up, n)
  {
    g.right := p.left;
    p.right := n.left;
    if g.right != null { g.right.parent := g; }
    if p.right != null { p.right.parent := p; }
    if IsRoot(g) {
      n.parent := n;
    } else {
      n.parent := g.parent;
      if IsLeftChild(g) {
        g.parent.left := n;
      } else {
        g.parent.right := n;
      }
    }
    n.left := p;
    p.parent := n;
    p.left := g;
    g.parent := p;
  }

  /** N is the right child of P, P the left child of G. */
  method LiftRightLeft(n: Links, p: Links, g: Links, ghost up: Context)
    requires p.right == n && g.left == p && Hangs(up, g)
    requires Different(n, p, g, n.left, n.right, Above(up))
    modifies n, p, g, Some(n.left)`parent, Some(n.right)`parent, Some(Above(up))`left, Some(Above(up))`right
    ensures At(n) == Cell(Owner(up, n), p, g)
    ensures At(p) == Cell(n, old(p.left), old(n.left))
    ensures At(g) == Cell(n, old(n.right), old(g.right))
    ensures old(n.left) != null ==> old(n.left).parent == p
    ensures old(n.right) != null ==> old(n.right).parent == g
    ensures !up.Top? ==> At(up.link) == Swung(old(At(up.link)), up.link, up, n)
  {
    p.right := n.left;
    g.left := n.right;
    if p.right != null { p.right.parent := p; }
    if g.left != null { g.left.parent := g; }
    if IsRoot(g) {
      n.parent := n;
    } else {
      n.parent := g.parent;
      if IsLeftChild(g) {
        g.parent.left := n;
      } else {
        g.parent.right := n;
      }
    }
    n.left := p;
    g.parent := n;
    n.right := g;
    p.parent := n;
  }

  /** N is the left child of the root P. */
  method LiftLeft(n: Links, p: Links, ghost s: set<Links>)
    requires p.left == n && p.parent == p && n != p && n.right != n && n.right != p
    modifies n, p, Some(n.right)`parent
    ensures forall x :: x in s ==> At(x) == LiftedRight(old(At(x)), x, n, p, old(n.right), Top)
  {
    assert allocated(s);
    p.left := n.right;
    if p.left != null { p.left.parent := p; }
    n.parent := n;
    n.right := p;
    p.parent := n;
  }

  /** N is the right child of the root P. */
  method LiftRight(n: Links, p: Links, ghost s: set<Links>)
    requires p.right == n && p.parent == p && n != p && n.left != n && n.left != p
    modifies n, p, Some(n.left)`parent
    ensures forall x :: x in s ==> At(x) == LiftedLeft(old(At(x)), x, n, p, old(n.left), Top)
  {
    assert allocated(s);
    p.right := n.left;
    if p.right != null { p.right.parent := p; }
    n.parent := n;
    n.left := p;
    p.parent := n;
  }

  /** The cell o of x after n, p and g have got the cells cn, cp and cg, after y and z have got
      new parents, and after n has been put into the hole of up. */
  ghost function Rewired(o: Cell, x: Links, n: Links, cn: Cell, p: Links, cp: Cell, g: Links, cg: Cell,
                         y: Links?, yp: Links, z: Links?, zp: Links, up: Context): Cell
  {
    if x == n then cn
    else if x == p then cp
    else if x == g then cg
    else if x == y then o.(parent := yp)
    else if x == z then o.(parent := zp)
    else Swung(o, x, up, n)
  }

  // ---------------------------------------------------------------- rounds on trees

  /** What one round of the loop does: the six rotations, each seen from the node being lifted. */
  ghost function Round(c: Context, t: Tree): (r: (Context, Tree))
    requires !c.Top? && t.Node?
    ensures r.1.Node? && r.1.link == t.link
    ensures Depth(r.0) == if c.up.Top? then 0 else Depth(c) - 2
  {
    var a, n, b := t.left, t.link, t.right;
    match c
    case InLeft(InLeft(up, g, e), p, d) => (up, Node(a, n, Node(b, p, Node(d, g, e))))
    case InLeft(InRight(up, e, g), p, d) => (up, Node(Node(e, g, a), n, Node(b, p, d)))
    case InRight(InRight(up, e, g), d, p) => (up, Node(Node(Node(e, g, d), p, a), n, b))
    case InRight(InLeft(up, g, e), d, p) => (up, Node(Node(d, p, a), n, Node(b, g, e)))
    case InLeft(Top, p, d) => (Top, Node(a, n, Node(b, p, d)))
    case InRight(Top, d, p) => (Top, Node(Node(d, p, a), n, b))
  }

  /** The whole tree after a round. */
  ghost function AfterRound(c: Context, t: Tree): Tree
    requires !c.Top? && t.Node?
  {
    Plug(Round(c, t).0, Round(c, t).1)
  }

  /** The nodes near a node are all different: its children, its parent, its sibling, and the
      same one level up. */
  lemma Neighbours(c: Context, t: Tree)
    requires Distinct(Plug(c, t)) && t.Node? && !c.Top? && !c.up.Top?
    ensures var n, p, g, u := t.link, c.link, c.up.link, Above(c.up.up);
      && Different(n, p, g, Root(t.left), Root(t.right), u)
      && Different(n, p, g, Root(t.left), Root(Sibling(c)), u)
      && Different(n, p, g, Root(t.right), Root(Sibling(c)), u)
  {
    var up := c.up.up;
    PlugDistinct(c, t);
    assert ContextNodes(c) == ContextNodes(c.up) + {c.link} + Nodes(Sibling(c));
    assert ContextNodes(c.up) == ContextNodes(up) + {c.up.link} + Nodes(Sibling(c.up));
    assert DistinctContext(c.up);
  }

  // ---------------------------------------------------------------- p.left == n && g.left == p

  method RewireLeftLeft(n: Links, p: Links, g: Links, ghost up: Context, ghost s: set<Links>)
    requires p.left == n && g.left == p && Hangs(up, g)
    requires Different(n, p, g, n.right, p.right, Above(up))
    modifies n, p, g, Some(n.right)`parent, Some(p.right)`parent, Some(Above(up))`left, Some(Above(up))`right
    ensures forall x :: x in s ==>
      At(x) == Rewired(old(At(x)), x, n, Cell(Owner(up, n), old(At(x)).left, p), p, Cell(n, old(n.right), g),
                   g, Cell(p, old(p.right), old(At(x)).right), old(n.right), p, old(p.right), g, up)
  {
    assert allocated(s);
    LiftLeftLeft(n, p, g, up);
  }

  lemma TwoLiftsLeftLeft(o: Cell, x: Links, n: Links, p: Links, g: Links, y: Links?, z: Links?, up: Context)
    requires Different(n, p, g, y, z, Above(up))
    ensures LiftedRight(LiftedRight(o, x, p, g, z, up), x, n, p, y, up)
         == Rewired(o, x, n, Cell(Owner(up, n), o.left, p), p, Cell(n, y, g),
                   g, Cell(p, z, o.right), y, p, z, g, up)
  {
  }

  lemma CellsLeftLeft(up: Context, a: Tree, n: Links, b: Tree, p: Links, d: Tree, g: Links, e: Tree, x: Links)
    requires Distinct(Plug(InLeft(InLeft(up, g, e), p, d), Node(a, n, b)))
    requires x in Nodes(Plug(InLeft(InLeft(up, g, e), p, d), Node(a, n, b)))
    ensures var o := WholeCell(Plug(InLeft(InLeft(up, g, e), p, d), Node(a, n, b)), x);
      WholeCell(AfterRound(InLeft(InLeft(up, g, e), p, d), Node(a, n, b)), x)
      == Rewired(o, x, n, Cell(Owner(up, n), o.left, p), p, Cell(n, Root(b), g),
                   g, Cell(p, Root(d), o.right), Root(b), p, Root(d), g, up)
  {
    var w := Plug(InLeft(InLeft(up, g, e), p, d), Node(a, n, b));
    RotateRight(up, Node(a, n, b), p, d, g, e, x);
    RotateOrder(up, Node(a, n, b), p, d, g, e);
    SameOrder(w, Plug(up, Node(Node(a, n, b), p, Node(d, g, e))));
    RotateRight(up, a, n, b, p, Node(d, g, e), x);
    assert Different(n, p, g, Root(b), Root(d), Above(up)) by {
      Neighbours(InLeft(InLeft(up, g, e), p, d), Node(a, n, b));
    }
    TwoLiftsLeftLeft(WholeCell(w, x), x, n, p, g, Root(b), Root(d), up);
  }

  lemma OrderLeftLeft(up: Context, a: Tree, n: Links, b: Tree, p: Links, d: Tree, g: Links, e: Tree)
    ensures InOrder(AfterRound(InLeft(InLeft(up, g, e), p, d), Node(a, n, b)))
      == InOrder(Plug(InLeft(InLeft(up, g, e), p, d), Node(a, n, b)))
  {
    RotateOrder(up, Node(a, n, b), p, d, g, e);
    RotateOrder(up, a, n, b, p, Node(d, g, e));
  }

  method StepLeftLeft(n: Links, p: Links, g: Links, ghost c: Context, ghost t: Tree)
    requires Rooted(Plug(c, t)) && t.Node? && c.InLeft? && c.up.InLeft?
    requires n == t.link && p == c.link && g == c.up.link
    modifies Nodes(Plug(c, t))
    ensures Rooted(AfterRound(c, t)) && InOrder(AfterRound(c, t)) == InOrder(Plug(c, t))
  {
    ghost var w, up := Plug(c, t), c.up.up;
    ghost var a, b, d, e := t.left, t.right, c.right, c.up.right;
    ParentHolds(c, t);
    ParentHolds(c.up, Zip(c, t));
    ParentHolds(up, Zip(c.up, Zip(c, t)));
    Neighbours(c, t);
    OrderLeftLeft(up, a, n, b, p, d, g, e);
    SameOrder(w, AfterRound(c, t));
    assert allocated(Nodes(w));
    RewireLeftLeft(n, p, g, up, Nodes(w));
    forall x | x in Nodes(w) ensures At(x) == WholeCell(AfterRound(c, t), x) {
      assert allocated(x);
      CellsLeftLeft(up, a, n, b, p, d, g, e, x);
      assert old(At(x)) == WholeCell(w, x);
    }
  }

  // ---------------------------------------------------------------- p.left == n && g.right == p

  method RewireLeftRight(n: Links, p: Links, g: Links, ghost up: Context, ghost s: set<Links>)
    requires p.left == n && g.right == p && Hangs(up, g)
    requires Different(n, p, g, n.left, n.right, Above(up))
    modifies n, p, g, Some(n.left)`parent, Some(n.right)`parent, Some(Above(up))`left, Some(Above(up))`right
    ensures forall x :: x in s ==>
      At(x) == Rewired(old(At(x)), x, n, Cell(Owner(up, n), g, p), p, Cell(n, old(n.right), old(At(x)).right),
                   g, Cell(n, old(At(x)).left, old(n.left)), old(n.left), g, old(n.right), p, up)
  {
    assert allocated(s);
    LiftLeftRight(n, p, g, up);
  }

  lemma TwoLiftsLeftRight(o: Cell, x: Links, n: Links, p: Links, g: Links, y: Links?, z: Links?, up: Context, e: Tree)
    requires Different(n, p, g, y, z, Above(up))
    ensures LiftedLeft(LiftedRight(o, x, n, p, z, InRight(up, e, g)), x, n, g, y, up)
         == Rewired(o, x, n, Cell(Owner(up, n), g, p), p, Cell(n, z, o.right),
                   g, Cell(n, o.left, y), y, g, z, p, up)
  {
  }

  lemma CellsLeftRight(up: Context, a: Tree, n: Links, b: Tree, p: Links, d: Tree, g: Links, e: Tree, x: Links)
    requires Distinct(Plug(InLeft(InRight(up, e, g), p, d), Node(a, n, b)))
    requires x in Nodes(Plug(InLeft(InRight(up, e, g), p, d), Node(a, n, b)))
    ensures var o := WholeCell(Plug(InLeft(InRight(up, e, g), p, d), Node(a, n, b)), x);
      WholeCell(AfterRound(InLeft(InRight(up, e, g), p, d), Node(a, n, b)), x)
      == Rewired(o, x, n, Cell(Owner(up, n), g, p), p, Cell(n, Root(b), o.right),
                   g, Cell(n, o.left, Root(a)), Root(a), g, Root(b), p, up)
  {
    var w := Plug(InLeft(InRight(up, e, g), p, d), Node(a, n, b));
    RotateRight(InRight(up, e, g), a, n, b, p, d, x);
    RotateOrder(InRight(up, e, g), a, n, b, p, d);
    SameOrder(w, Plug(up, Node(e, g, Node(a, n, Node(b, p, d)))));
    RotateLeft(up, e, g, a, n, Node(b, p, d), x);
    assert Different(n, p, g, Root(a), Root(b), Above(up)) by {
      Neighbours(InLeft(InRight(up, e, g), p, d), Node(a, n, b));
    }
    TwoLiftsLeftRight(WholeCell(w, x), x, n, p, g, Root(a), Root(b), up, e);
  }

  lemma OrderLeftRight(up: Context, a: Tree, n: Links, b: Tree, p: Links, d: Tree, g: Links, e: Tree)
    ensures InOrder(AfterRound(InLeft(InRight(up, e, g), p, d), Node(a, n, b)))
      == InOrder(Plug(InLeft(InRight(up, e, g), p, d), Node(a, n, b)))
  {
    RotateOrder(InRight(up, e, g), a, n, b, p, d);
    RotateOrder(up, e, g, a, n, Node(b, p, d));
  }

  method StepLeftRight(n: Links, p: Links, g: Links, ghost c: Context, ghost t: Tree)
    requires Rooted(Plug(c, t)) && t.Node? && c.InLeft? && c.up.InRight?
    requires n == t.link && p == c.link && g == c.up.link
    modifies Nodes(Plug(c, t))
    ensures Rooted(AfterRound(c, t)) && InOrder(AfterRound(c, t)) == InOrder(Plug(c, t))
  {
    ghost var w, up := Plug(c, t), c.up.up;
    ghost var a, b, d, e := t.left, t.right, c.right, c.up.left;
    ParentHolds(c, t);
    ParentHolds(c.up, Zip(c, t));
    ParentHolds(up, Zip(c.up, Zip(c, t)));
    Neighbours(c, t);
    OrderLeftRight(up, a, n, b, p, d, g, e);
    SameOrder(w, AfterRound(c, t));
    assert allocated(Nodes(w));
    RewireLeftRight(n, p, g, up, Nodes(w));
    forall x | x in Nodes(w) ensures At(x) == WholeCell(AfterRound(c, t), x) {
      assert allocated(x);
      CellsLeftRight(up, a, n, b, p, d, g, e, x);
      assert old(At(x)) == WholeCell(w, x);
    }
  }

  // ---------------------------------------------------------------- p.right == n && g.right == p

  method RewireRightRight(n: Links, p: Links, g: Links, ghost up: Context, ghost s: set<Links>)
    requires p.right == n && g.right == p && Hangs(up, g)
    requires Different(n, p, g, n.left, p.left, Above(up))
    modifies n, p, g, Some(n.left)`parent, Some(p.left)`parent, Some(Above(up))`left, Some(Above(up))`right
    ensures forall x :: x in s ==>
      At(x) == Rewired(old(At(x)), x, n, Cell(Owner(up, n), p, old(At(x)).right), p, Cell(n, g, old(n.left)),
                   g, Cell(p, old(At(x)).left, old(p.left)), old(n.left), p, old(p.left), g, up)
  {
    assert allocated(s);
    LiftRightRight(n, p, g, up);
  }

  lemma TwoLiftsRightRight(o: Cell, x: Links, n: Links, p: Links, g: Links, y: Links?, z: Links?, up: Context)
    requires Different(n, p, g, y, z, Above(up))
    ensures LiftedLeft(LiftedLeft(o, x, p, g, z, up), x, n, p, y, up)
         == Rewired(o, x, n, Cell(Owner(up, n), p, o.right), p, Cell(n, g, y),
                   g, Cell(p, o.left, z), y, p, z, g, up)
  {
  }

  lemma CellsRightRight(up: Context, a: Tree, n: Links, b: Tree, p: Links, d: Tree, g: Links, e: Tree, x: Links)
    requires Distinct(Plug(InRight(InRight(up, e, g), d, p), Node(a, n, b)))
    requires x in Nodes(Plug(InRight(InRight(up, e, g), d, p), Node(a, n, b)))
    ensures var o := WholeCell(Plug(InRight(InRight(up, e, g), d, p), Node(a, n, b)), x);
      WholeCell(AfterRound(InRight(InRight(up, e, g), d, p), Node(a, n, b)), x)
      == Rewired(o, x, n, Cell(Owner(up, n), p, o.right), p, Cell(n, g, Root(a)),
                   g, Cell(p, o.left, Root(d)), Root(a), p, Root(d), g, up)
  {
    var w := Plug(InRight(InRight(up, e, g), d, p), Node(a, n, b));
    RotateLeft(up, e, g, d, p, Node(a, n, b), x);
    RotateOrder(up, e, g, d, p, Node(a, n, b));
    SameOrder(w, Plug(up, Node(Node(e, g, d), p, Node(a, n, b))));
    RotateLeft(up, Node(e, g, d), p, a, n, b, x);
    assert Different(n, p, g, Root(a), Root(d), Above(up)) by {
      Neighbours(InRight(InRight(up, e, g), d, p), Node(a, n, b));
    }
    TwoLiftsRightRight(WholeCell(w, x), x, n, p, g, Root(a), Root(d), up);
  }

  lemma OrderRightRight(up: Context, a: Tree, n: Links, b: Tree, p: Links, d: Tree, g: Links, e: Tree)
    ensures InOrder(AfterRound(InRight(InRight(up, e, g), d, p), Node(a, n, b)))
      == InOrder(Plug(InRight(InRight(up, e, g), d, p), Node(a, n, b)))
  {
    RotateOrder(up, e, g, d, p, Node(a, n, b));
    RotateOrder(up, Node(e, g, d), p, a, n, b);
  }

  method StepRightRight(n: Links, p: Links, g: Links, ghost c: Context, ghost t: Tree)
    requires Rooted(Plug(c, t)) && t.Node? && c.InRight? && c.up.InRight?
    requires n == t.link && p == c.link && g == c.up.link
    modifies Nodes(Plug(c, t))
    ensures Rooted(AfterRound(c, t)) && InOrder(AfterRound(c, t)) == InOrder(Plug(c, t))
  {
    ghost var w, up := Plug(c, t), c.up.up;
    ghost var a, b, d, e := t.left, t.right, c.left, c.up.left;
    ParentHolds(c, t);
    ParentHolds(c.up, Zip(c, t));
    ParentHolds(up, Zip(c.up, Zip(c, t)));
    Neighbours(c, t);
    OrderRightRight(up, a, n, b, p, d, g, e);
    SameOrder(w, AfterRound(c, t));
    assert allocated(Nodes(w));
    RewireRightRight(n, p, g, up, Nodes(w));
    forall x | x in Nodes(w) ensures At(x) == WholeCell(AfterRound(c, t), x) {
      assert allocated(x);
      CellsRightRight(up, a, n, b, p, d, g, e, x);
      assert old(At(x)) == WholeCell(w, x);
    }
  }

  // ---------------------------------------------------------------- p.right == n && g.left == p

  method RewireRightLeft(n: Links, p: Links, g: Links, ghost up: Context, ghost s: set<Links>)
    requires p.right == n && g.left == p && Hangs(up, g)
    requires Different(n, p, g, n.left, n.right, Above(up))
    modifies n, p, g, Some(n.left)`parent, Some(n.right)`parent, Some(Above(up))`left, Some(Above(up))`right
    ensures forall x :: x in s ==>
      At(x) == Rewired(old(At(x)), x, n, Cell(Owner(up, n), p, g), p, Cell(n, old(At(x)).left, old(n.left)),
                   g, Cell(n, old(n.right), old(At(x)).right), old(n.left), p, old(n.right), g, up)
  {
    assert allocated(s);
    LiftRightLeft(n, p, g, up);
  }

  lemma TwoLiftsRightLeft(o: Cell, x: Links, n: Links, p: Links, g: Links, y: Links?, z: Links?, up: Context, e: Tree)
    requires Different(n, p, g, y, z, Above(up))
    ensures LiftedRight(LiftedLeft(o, x, n, p, y, InLeft(up, g, e)), x, n, g, z, up)
         == Rewired(o, x, n, Cell(Owner(up, n), p, g), p, Cell(n, o.left, y),
                   g, Cell(n, z, o.right), y, p, z, g, up)
  {
  }

  lemma CellsRightLeft(up: Context, a: Tree, n: Links, b: Tree, p: Links, d: Tree, g: Links, e: Tree, x: Links)
    requires Distinct(Plug(InRight(InLeft(up, g, e), d, p), Node(a, n, b)))
    requires x in Nodes(Plug(InRight(InLeft(up, g, e), d, p), Node(a, n, b)))
    ensures var o := WholeCell(Plug(InRight(InLeft(up, g, e), d, p), Node(a, n, b)), x);
      WholeCell(AfterRound(InRight(InLeft(up, g, e), d, p), Node(a, n, b)), x)
      == Rewired(o, x, n, Cell(Owner(up, n), p, g), p, Cell(n, o.left, Root(a)),
                   g, Cell(n, Root(b), o.right), Root(a), p, Root(b), g, up)
  {
    var w := Plug(InRight(InLeft(up, g, e), d, p), Node(a, n, b));
    RotateLeft(InLeft(up, g, e), d, p, a, n, b, x);
    RotateOrder(InLeft(up, g, e), d, p, a, n, b);
    SameOrder(w, Plug(up, Node(Node(Node(d, p, a), n, b), g, e)));
    RotateRight(up, Node(d, p, a), n, b, g, e, x);
    assert Different(n, p, g, Root(a), Root(b), Above(up)) by {
      Neighbours(InRight(InLeft(up, g, e), d, p), Node(a, n, b));
    }
    TwoLiftsRightLeft(WholeCell(w, x), x, n, p, g, Root(a), Root(b), up, e);
  }

  lemma OrderRightLeft(up: Context, a: Tree, n: Links, b: Tree, p: Links, d: Tree, g: Links, e: Tree)
    ensures InOrder(AfterRound(InRight(InLeft(up, g, e), d, p), Node(a, n, b)))
      == InOrder(Plug(InRight(InLeft(up, g, e), d, p), Node(a, n, b)))
  {
    RotateOrder(InLeft(up, g, e), d, p, a, n, b);
    RotateOrder(up, Node(d, p, a), n, b, g, e);
  }

  method StepRightLeft(n: Links, p: Links, g: Links, ghost c: Context, ghost t: Tree)
    requires Rooted(Plug(c, t)) && t.Node? && c.InRight? && c.up.InLeft?
    requires n == t.link && p == c.link && g == c.up.link
    modifies Nodes(Plug(c, t))
    ensures Rooted(AfterRound(c, t)) && InOrder(AfterRound(c, t)) == InOrder(Plug(c, t))
  {
    ghost var w, up := Plug(c, t), c.up.up;
    ghost var a, b, d, e := t.left, t.right, c.left, c.up.right;
    ParentHolds(c, t);
    ParentHolds(c.up, Zip(c, t));
    ParentHolds(up, Zip(c.up, Zip(c, t)));
    Neighbours(c, t);
    OrderRightLeft(up, a, n, b, p, d, g, e);
    SameOrder(w, AfterRound(c, t));
    assert allocated(Nodes(w));
    RewireRightLeft(n, p, g, up, Nodes(w));
    forall x | x in Nodes(w) ensures At(x) == WholeCell(AfterRound(c, t), x) {
      assert allocated(x);
      CellsRightLeft(up, a, n, b, p, d, g, e, x);
      assert old(At(x)) == WholeCell(w, x);
    }
  }

  // ---------------------------------------------------------------- under the root

  method StepLeft(n: Links, p: Links, ghost c: Context, ghost t: Tree)
    requires Rooted(Plug(c, t)) && t.Node? && c.InLeft? && c.up.Top? && n == t.link && p == c.link
    modifies Nodes(Plug(c, t))
    ensures Rooted(AfterRound(c, t)) && InOrder(AfterRound(c, t)) == InOrder(Plug(c, t))
  {
    ghost var w, a, b, d := Plug(c, t), t.left, t.right, c.right;
    ParentHolds(c, t);
    ParentHolds(Top, Zip(c, t));
    PlugDistinct(c, t);
    RotateOrder(Top, a, n, b, p, d);
    SameOrder(w, AfterRound(c, t));
    assert allocated(Nodes(w));
    LiftLeft(n, p, Nodes(w));
    forall x | x in Nodes(w) ensures At(x) == WholeCell(AfterRound(c, t), x) {
      assert allocated(x);
      RotateRight(Top, a, n, b, p, d, x);
      assert old(At(x)) == WholeCell(w, x);
    }
  }

  method StepRight(n: Links, p: Links, ghost c: Context, ghost t: Tree)
    requires Rooted(Plug(c, t)) && t.Node? && c.InRight? && c.up.Top? && n == t.link && p == c.link
    modifies Nodes(Plug(c, t))
    ensures Rooted(AfterRound(c, t)) && InOrder(AfterRound(c, t)) == InOrder(Plug(c, t))
  {
    ghost var w, a, b, d := Plug(c, t), t.left, t.right, c.left;
    ParentHolds(c, t);
    ParentHolds(Top, Zip(c, t));
    PlugDistinct(c, t);
    RotateOrder(Top, d, p, a, n, b);
    SameOrder(w, AfterRound(c, t));
    assert allocated(Nodes(w));
    LiftRight(n, p, Nodes(w));
    forall x | x in Nodes(w) ensures At(x) == WholeCell(AfterRound(c, t), x) {
      assert allocated(x);
      RotateLeft(Top, d, p, a, n, b, x);
      assert old(At(x)) == WholeCell(w, x);
    }
  }

  // ---------------------------------------------------------------- RtlSplay

  /** Rounds until the node in the hole is the root. */
  ghost function SplayFrom(c: Context, t: Tree): (w: Tree)
    requires t.Node?
    ensures w.Node? && w.link == t.link
    decreases Depth(c)
  {
    if c.Top? then t else SplayFrom(Round(c, t).0, Round(c, t).1)
  }

  ghost function Splayed(w: Tree, n: Links): (w': Tree)
    requires n in Nodes(w)
    ensures w'.Node? && w'.link == n
  {
    var (c, t) := Locate(Top, w, n);
    SplayFrom(c, t)
  }

  /** How many nodes are above n. */
  ghost function DepthOf(w: Tree, n: Links): nat
    requires n in Nodes(w)
  {
    Depth(Locate(Top, w, n).0)
  }

  lemma RoundOrder(c: Context, t: Tree)
    requires !c.Top? && t.Node?
    ensures InOrder(AfterRound(c, t)) == InOrder(Plug(c, t))
  {
    var a, n, b := t.left, t.link, t.right;
    match c {
      case InLeft(InLeft(up, g, e), p, d) => OrderLeftLeft(up, a, n, b, p, d, g, e);
      case InLeft(InRight(up, e, g), p, d) => OrderLeftRight(up, a, n, b, p, d, g, e);
      case InRight(InRight(up, e, g), d, p) => OrderRightRight(up, a, n, b, p, d, g, e);
      case InRight(InLeft(up, g, e), d, p) => OrderRightLeft(up, a, n, b, p, d, g, e);
      case InLeft(Top, p, d) => RotateOrder(Top, a, n, b, p, d);
      case InRight(Top, d, p) => RotateOrder(Top, d, p, a, n, b);
    }
  }

  /** One round of the loop. */
  method LiftOnce(n: Links, ghost c: Context, ghost t: Tree)
    requires Rooted(Plug(c, t)) && t.Node? && n == t.link && !c.Top?
    modifies Nodes(Plug(c, t))
    ensures Rooted(AfterRound(c, t)) && InOrder(AfterRound(c, t)) == InOrder(Plug(c, t))
  {
    Tests(c, t);
    Tests(c.up, Zip(c, t));
    var p := n.parent;
    var g := p.parent;
    if IsLeftChild(n) {
      if IsLeftChild(p) {
        StepLeftLeft(n, p, g, c, t);
      } else if IsRightChild(p) {
        StepLeftRight(n, p, g, c, t);
      } else {
        StepLeft(n, p, c, t);
      }
    } else {
      if IsRightChild(p) {
        StepRightRight(n, p, g, c, t);
      } else if IsLeftChild(p) {
        StepRightLeft(n, p, g, c, t);
      } else {
        StepRight(n, p, c, t);
      }
    }
  }

  method RtlSplay(links: Links, ghost w: Tree) returns (root: Links, ghost w': Tree, ghost rounds: nat)
    requires Rooted(w) && links in Nodes(w)
    modifies Nodes(w)
    ensures root == links && Rooted(w') && w' == Splayed(w, links)
    ensures InOrder(w') == InOrder(w) && Nodes(w') == Nodes(w)
    ensures rounds == (DepthOf(w, links) + 1) / 2
  {
    var n := links;
    rounds := 0;
    ghost var c, t := Locate(Top, w, n).0, Locate(Top, w, n).1;
    Tests(c, t);
    while !IsRoot(n)
      invariant t.Node? && n == t.link && Rooted(Plug(c, t))
      invariant IsRoot(n) <==> c.Top?
      invariant SplayFrom(c, t) == Splayed(w, links)
      invariant InOrder(Plug(c, t)) == InOrder(w) && Nodes(Plug(c, t)) == Nodes(w)
      invariant rounds + (Depth(c) + 1) / 2 == (DepthOf(w, links) + 1) / 2
      decreases Depth(c)
    {
      LiftOnce(n, c, t);
      SameOrder(Plug(c, t), AfterRound(c, t));
      c, t := Round(c, t).0, Round(c, t).1;
      rounds := rounds + 1;
      Tests(c, t);
    }
    root := n;
    w' := t;
  }
}
