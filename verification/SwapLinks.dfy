/** SwapSplayLinks: two nodes of a tree trade places by rewriting pointers. */
module SwapLinks {
  import opened LinkTrees

  // ---------------------------------------------------------------- renaming

  /** What x becomes when a and b trade names. */
  ghost function Trade(a: Links, b: Links, x: Links?): (y: Links?)
    ensures x == null <==> y == null
  {
    if x == a then b else if x == b then a else x
  }

  ghost function TradeCell(a: Links, b: Links, o: Cell): Cell {
    Cell(Trade(a, b, o.parent), Trade(a, b, o.left), Trade(a, b, o.right))
  }

  /** The tree with a where b was, and b where a was. */
  ghost function Traded(t: Tree, a: Links, b: Links): Tree {
    match t
    case Leaf => Leaf
    case Node(l, n, r) => Node(Traded(l, a, b), Trade(a, b, n), Traded(r, a, b))
  }

  lemma {:induction false} TradedRoot(t: Tree, a: Links, b: Links)
    ensures Root(Traded(t, a, b)) == Trade(a, b, Root(t))
  {
  }

  lemma {:induction false} TradedNodes(t: Tree, a: Links, b: Links, x: Links)
    ensures x in Nodes(t) <==> Trade(a, b, x) in Nodes(Traded(t, a, b))
  {
    match t
    case Leaf =>
    case Node(l, n, r) =>
      TradedNodes(l, a, b, x);
      TradedNodes(r, a, b, x);
  }

  lemma {:induction false} TradedCells(t: Tree, a: Links, b: Links, q: Links?, x: Links)
    requires Distinct(t) && x in Nodes(t)
    ensures CellOf(Traded(t, a, b), Trade(a, b, q), Trade(a, b, x)) == TradeCell(a, b, CellOf(t, q, x))
  {
    match t
    case Leaf =>
    case Node(l, n, r) =>
      TradedRoot(l, a, b);
      TradedRoot(r, a, b);
      TradedNodes(l, a, b, x);
      if x in Nodes(l) {
        TradedCells(l, a, b, n, x);
      } else if x in Nodes(r) {
        TradedCells(r, a, b, n, x);
      }
  }

  lemma {:induction false} TradedOrder(t: Tree, a: Links, b: Links)
    ensures |InOrder(Traded(t, a, b))| == |InOrder(t)|
    ensures forall i :: 0 <= i < |InOrder(t)| ==> InOrder(Traded(t, a, b))[i] == Trade(a, b, InOrder(t)[i])
  {
    match t
    case Leaf =>
    case Node(l, n, r) =>
      TradedOrder(l, a, b);
      TradedOrder(r, a, b);
  }

  lemma TradedDistinct(t: Tree, a: Links, b: Links)
    requires Distinct(t) && a in Nodes(t) && b in Nodes(t)
    ensures Distinct(Traded(t, a, b)) && Nodes(Traded(t, a, b)) == Nodes(t)
  {
    var s, s' := InOrder(t), InOrder(Traded(t, a, b));
    TradedOrder(t, a, b);
    DistinctIffNoRepeats(t);
    DistinctIffNoRepeats(Traded(t, a, b));
    forall i, j | 0 <= i < j < |s'| ensures s'[i] != s'[j] {
      assert s[i] != s[j];
    }
    InOrderNodes(t);
    InOrderNodes(Traded(t, a, b));
    var i :| 0 <= i < |s| && s[i] == a;
    var j :| 0 <= j < |s| && s[j] == b;
    assert s'[i] == b && s'[j] == a;
    forall k | 0 <= k < |s| ensures s'[k] in Elements(s) && s[k] in Elements(s') {
      if s[k] != a && s[k] != b {
        assert s'[k] == s[k];
      }
    }
  }

  lemma {:induction false} TradeIsSymmetric(t: Tree, a: Links, b: Links)
    ensures Traded(t, a, b) == Traded(t, b, a)
  {
    match t
    case Leaf =>
    case Node(l, n, r) =>
      TradeIsSymmetric(l, a, b);
      TradeIsSymmetric(r, a, b);
  }

  // ---------------------------------------------------------------- pointers

  /** RtlInsertAsLeftChild and RtlInsertAsRightChild. */
  method InsertAsLeftChild(p: Links, c: Links)
    modifies p`left, c`parent
    ensures p.left == c && c.parent == p
  {
    p.left := c;
    c.parent := p;
  }

  method InsertAsRightChild(p: Links, c: Links)
    modifies p`right, c`parent
    ensures p.right == c && c.parent == p
  {
    p.right := c;
    c.parent := p;
  }

  /** Makes n's children, and n's parent unless n is the root, point at n. */
  method FixupChildLinks(n: Links, root: bool, leftChild: bool)
    requires n.left != n && n.right != n && (n.left == null || n.left != n.right)
    requires !root ==> n.parent != null && n.parent != n && n.parent != n.left && n.parent != n.right
    modifies n, Some(n.left)`parent, Some(n.right)`parent,
             Some(if root then null else n.parent)`left, Some(if root then null else n.parent)`right
    ensures At(n) == old(At(n))
    ensures n.left != null ==> At(n.left) == old(At(n.left)).(parent := n)
    ensures n.right != null ==> At(n.right) == old(At(n.right)).(parent := n)
    ensures !root && leftChild ==> At(n.parent) == old(At(n.parent)).(left := n)
    ensures !root && !leftChild ==> At(n.parent) == old(At(n.parent)).(right := n)
  {
    if n.left != null {
      InsertAsLeftChild(n, n.left);
    }
    if n.right != null {
      InsertAsRightChild(n, n.right);
    }
    if !root {
      if leftChild {
        InsertAsLeftChild(n.parent, n);
      } else {
        InsertAsRightChild(n.parent, n);
      }
    }
  }

  /** What the links around a node of a tree look like. */
  ghost predicate Local(n: Links)
    reads n, Some(n.parent), Some(n.left), Some(n.right)
  {
    && n.parent != null
    && n.left != n && n.right != n && (n.left == null || n.left != n.right)
    && (n.left != null ==> n.left.parent == n)
    && (n.right != null ==> n.right.parent == n)
    && (n.parent != n ==> n.parent != n.left && n.parent != n.right
                          && (n.parent.left == n <==> n.parent.right != n))
    && (n.parent == n ==> n.parent.left != n)
  }

  ghost function Near(n: Links): set<Links>
    reads n
  {
    {n} + Some(n.parent) + Some(n.left) + Some(n.right)
  }

  /** Copies the links of a and b over each other. When a is the parent of b, that would leave
      each its own parent or child, so those links are set anew. */
  method Overwrite(a: Links, b: Links) returns (rootA: bool, leftA: bool, leftB: bool)
    requires a != b && Local(a) && Local(b) && a.parent != b && b.parent != b
    modifies a, b, Some(a.parent)`left, Some(a.parent)`right
    ensures rootA == old(IsRoot(a)) && leftA == old(IsLeftChild(a)) && leftB == old(IsLeftChild(b))
    ensures At(a) == TradeCell(a, b, old(At(b)))
    ensures At(b) == TradeCell(a, b, old(At(a))).(parent := old(a.parent))
    ensures old(b.parent) != a && !rootA ==>
      old(a.parent).left == old(a.parent.left) && old(a.parent).right == old(a.parent.right)
    ensures !rootA && old(b.parent) == a ==>
      && old(a.parent).left == (if leftA then b else old(a.parent.left))
      && old(a.parent).right == (if leftA then old(a.parent.right) else b)
  {
    var ta, tb := (a.parent, a.left, a.right), (b.parent, b.left, b.right);
    rootA, leftA, leftB := IsRoot(a), IsLeftChild(a), IsLeftChild(b);
    b.parent, b.left, b.right := ta.0, ta.1, ta.2;
    a.parent, a.left, a.right := tb.0, tb.1, tb.2;
    if tb.0 == a {
      if !rootA {
        if leftA {
          InsertAsLeftChild(ta.0, b);
        } else {
          InsertAsRightChild(ta.0, b);
        }
      }
      if leftB {
        InsertAsLeftChild(b, a);
      } else {
        InsertAsRightChild(b, a);
      }
    }
  }

  /** Makes the nodes around a and b, which hold their new links, point back at them. */
  method FixupBoth(a: Links, b: Links, rootA: bool, leftA: bool, leftB: bool)
    requires a != b && a.parent != null && b.parent != null && (rootA <==> b.parent == a)
    requires a.left != a && a.right != a && (a.left == null || a.left != a.right)
    requires b.left != b && b.right != b && (b.left == null || b.left != b.right)
    requires a.left != b && a.right != b && a.parent != a && a.parent != a.left && a.parent != a.right
    requires !rootA ==> b.parent != b && b.parent != b.left && b.parent != b.right
    requires a.left == null || (a.left != b.left && a.left != b.right)
    requires a.right == null || (a.right != b.left && a.right != b.right)
    requires (a.parent == b <==> b.left == a || b.right == a)
    requires a.parent == b ==> if leftB then b.left == a else b.right == a
    requires !rootA && a.parent == b.parent ==> leftA != leftB
    modifies a, b,
             Some(a.left)`parent, Some(a.right)`parent, Some(b.left)`parent, Some(b.right)`parent,
             Some(b.parent)`left, Some(b.parent)`right, Some(a.parent)`left, Some(a.parent)`right
    ensures At(a) == old(At(a)) && At(b) == old(At(b))
    ensures a.left != null ==> a.left.parent == a
    ensures a.right != null ==> a.right.parent == a
    ensures b.left != null ==> b.left.parent == b
    ensures b.right != null ==> b.right.parent == b
    ensures a.parent.left == if leftB then a else if !rootA && b.parent == a.parent then b else old(a.parent.left)
    ensures a.parent.right == if !leftB then a else if !rootA && b.parent == a.parent then b else old(a.parent.right)
    ensures !rootA ==> b.parent.left == if leftA then b else if b.parent == a.parent then a else old(b.parent.left)
    ensures !rootA ==> b.parent.right == if !leftA then b else if b.parent == a.parent then a else old(b.parent.right)
  {
    FixupChildLinks(a, false, leftB);
    FixupChildLinks(b, rootA, leftA);
  }

  /** The swap, once a is known not to be below b, and b not to be the root. */
  method Exchange(a: Links, b: Links)
    requires a != b && Local(a) && Local(b) && a.parent != b && b.parent != b
    requires a.parent.left == b || a.parent.right == b ==> b.parent == a.parent
    requires b.parent.left == a || b.parent.right == a ==> a.parent == b.parent
    modifies a, b,
             Some(a.left)`parent, Some(a.right)`parent, Some(b.left)`parent, Some(b.right)`parent,
             Some(a.parent)`left, Some(a.parent)`right, Some(b.parent)`left, Some(b.parent)`right
    ensures At(a) == TradeCell(a, b, old(At(b)))
    ensures At(b) == TradeCell(a, b, old(At(a)))
    ensures old(a.left) != null && old(a.left) != b ==> old(a.left).parent == b
    ensures old(a.right) != null && old(a.right) != b ==> old(a.right).parent == b
    ensures old(b.left) != null ==> old(b.left).parent == a
    ensures old(b.right) != null ==> old(b.right).parent == a
    ensures old(a.parent) != a ==>
      old(a.parent).left == Trade(a, b, old(a.parent.left)) && old(a.parent).right == Trade(a, b, old(a.parent.right))
    ensures old(b.parent) != a ==>
      old(b.parent).left == Trade(a, b, old(b.parent.left)) && old(b.parent).right == Trade(a, b, old(b.parent.right))
  {
    var rootA, leftA, leftB := Overwrite(a, b);
    FixupBoth(a, b, rootA, leftA, leftB);
    if rootA {
      b.parent := b;
    }
  }

  // ---------------------------------------------------------------- on trees

  lemma TreeIsLocal(w: Tree, n: Links)
    requires Rooted(w) && n in Nodes(w)
    ensures Local(n) && Near(n) <= Nodes(w) && (n.parent == n <==> n == Root(w))
  {
    var (c, t) := Locate(Top, w, n);
    ParentHolds(c, t);
    Tests(c, t);
    assert At(n) == WholeCell(w, n);
    if n.left != null {
      Kin(w, n, n.left);
      assert At(n.left) == WholeCell(w, n.left);
    }
    if n.right != null {
      Kin(w, n, n.right);
      assert At(n.right) == WholeCell(w, n.right);
    }
    Kin(w, n, n);
    if n != Root(w) {
      NotBothWays(w, n);
      assert At(n.parent) == WholeCell(w, n.parent);
      Kin(w, n.parent, n);
    }
  }

  lemma NodeIsKin(w: Tree, x: Links, a: Links)
    requires Rooted(w) && x in Nodes(w) && a in Nodes(w)
    ensures x.left == a || x.right == a ==> x == a.parent && a.parent != a
    ensures x.parent == a ==> x == a || x == a.left || x == a.right
  {
    Kin(w, x, a);
    Kin(w, a, x);
    assert At(x) == WholeCell(w, x) && At(a) == WholeCell(w, a);
  }

  /** Among the nodes of s, only n's parent points down at n, and only n's children up at it. */
  ghost predicate Exclusive(n: Links, s: set<Links>)
    reads n, s
  {
    && (forall x :: x in s && (x.left == n || x.right == n) ==> x == n.parent && n.parent != n)
    && (forall x :: x in s && x.parent == n ==> x == n || x == n.left || x == n.right)
  }

  lemma Ready(w: Tree, n: Links)
    requires Rooted(w) && n in Nodes(w)
    ensures Local(n) && Near(n) <= Nodes(w) && Exclusive(n, Nodes(w))
    ensures n.parent == n <==> n == Root(w)
  {
    TreeIsLocal(w, n);
    forall x | x in Nodes(w)
      ensures x.left == n || x.right == n ==> x == n.parent && n.parent != n
      ensures x.parent == n ==> x == n || x == n.left || x == n.right
    {
      NodeIsKin(w, x, n);
    }
  }

  /** A node that is parent to neither a nor b points at neither. */
  lemma PointsElsewhere(a: Links, b: Links, s: set<Links>, x: Links)
    requires Exclusive(a, s) && Exclusive(b, s) && x in s && x != a.parent && x != b.parent
    ensures x.left == Trade(a, b, x.left) && x.right == Trade(a, b, x.right)
  {
  }

  /** What Exchange does to the links of all nodes of s. */
  method ExchangeAll(a: Links, b: Links, ghost s: set<Links>)
    requires a != b && Local(a) && Local(b) && a.parent != b && b.parent != b
    requires a.parent in s && b.parent in s && Exclusive(a, s) && Exclusive(b, s)
    modifies a, b, Near(a), Near(b)
    ensures At(a) == TradeCell(a, b, old(At(b)))
    ensures At(b) == TradeCell(a, b, old(At(a)))
    ensures forall x :: x in s && x != a && x != b ==>
      && x.parent == Trade(a, b, old(x.parent))
      && x.left == Trade(a, b, old(x.left)) && x.right == Trade(a, b, old(x.right))
  {
    hide IsRoot, TradeCell, At;
    assert allocated(s);
    ghost var pa, pb := a.parent, b.parent;
    forall x | x in s && x != pa && x != pb
      ensures x.left == Trade(a, b, x.left) && x.right == Trade(a, b, x.right)
    {
      PointsElsewhere(a, b, s, x);
    }
    Exchange(a, b);
    forall x | x in s && x != a && x != b
      ensures x.left == Trade(a, b, old(x.left)) && x.right == Trade(a, b, old(x.right))
    {
      assert allocated(x);
      if x != pa && x != pb {
        assert x.left == old(x.left) && x.right == old(x.right);
      }
    }
  }

  lemma TradedWhole(w: Tree, a: Links, b: Links, z: Links)
    requires Distinct(w) && a in Nodes(w) && b in Nodes(w) && z in Nodes(w)
    ensures WholeCell(Traded(w, a, b), z)
         == TradeCell(a, b, WholeCell(w, if z == a then b else if z == b then a else z))
  {
    var x := if z == a then b else if z == b then a else z;
    TradedRoot(w, a, b);
    TradedCells(w, a, b, Root(w), x);
  }

  method SwapOrdered(a: Links, b: Links, ghost w: Tree)
    requires Rooted(w) && a in Nodes(w) && b in Nodes(w) && a != b && a.parent != b && b.parent != b
    modifies Nodes(w)
    ensures Rooted(Traded(w, a, b))
  {
    Ready(w, a);
    Ready(w, b);
    assert allocated(Nodes(w));
    ExchangeAll(a, b, Nodes(w));
    TradedDistinct(w, a, b);
    forall z | z in Nodes(w) ensures At(z) == WholeCell(Traded(w, a, b), z) {
      var x := if z == a then b else if z == b then a else z;
      assert allocated(z) && allocated(x);
      assert old(At(x)) == WholeCell(w, x);
      TradedWhole(w, a, b, z);
    }
  }

  /** Exchanges the places of two nodes, in the adjacent, root and distant cases alike. */
  method SwapSplayLinks(linkA: Links, linkB: Links, ghost w: Tree)
    requires Rooted(w) && linkA in Nodes(w) && linkB in Nodes(w) && linkA != linkB
    modifies Nodes(w)
    ensures Rooted(Traded(w, linkA, linkB))
  {
    Ready(w, linkA);
    Ready(w, linkB);
    if linkA.parent == linkB || IsRoot(linkB) {
      TradeIsSymmetric(w, linkA, linkB);
      SwapOrdered(linkB, linkA, w);
    } else {
      SwapOrdered(linkA, linkB, w);
    }
  }
}
