/** Binary trees of linked nodes, as RTL_SPLAY_LINKS and RTL_BALANCED_LINKS lay them out.

    A node object holds the pointers; a Tree value says which tree the pointers form. A Context
    is a tree with one subtree cut out, so that a change at some depth of a tree is a change of
    the subtree in its hole. Every root is its own parent, as RtlIsRoot expects. */
module LinkTrees {

  /** The links of a node, with the header fields that the tables put next to them: balance for
      the AVL table, flink and blink for the insertion-order list of the generic table. */
  class Links {
    var parent: Links?
    var left: Links?
    var right: Links?
    var balance: int
    var flink: Links?
    var blink: Links?
    var userData: int

    /** A zeroed node. */
    constructor ()
      ensures parent == null && left == null && right == null && balance == 0 && userData == 0
    {
      parent, left, right := null, null, null;
      flink, blink := null, null;
      balance, userData := 0, 0;
    }
  }

  datatype Tree = Leaf | Node(left: Tree, link: Links, right: Tree)

  datatype Context =
    | Top
    | InLeft(up: Context, link: Links, right: Tree)
    | InRight(up: Context, left: Tree, link: Links)

  // ---------------------------------------------------------------- shapes

  ghost function Root(t: Tree): (p: Links?)
    ensures p != null ==> p in Nodes(t)
    ensures p == null <==> t.Leaf?
  {
    if t.Leaf? then null else t.link
  }

  ghost function Nodes(t: Tree): set<Links> {
    match t
    case Leaf => {}
    case Node(l, n, r) => Nodes(l) + {n} + Nodes(r)
  }

  ghost function InOrder(t: Tree): seq<Links> {
    match t
    case Leaf => []
    case Node(l, n, r) => InOrder(l) + [n] + InOrder(r)
  }

  ghost predicate Distinct(t: Tree) {
    match t
    case Leaf => true
    case Node(l, n, r) =>
      && Distinct(l) && Distinct(r)
      && n !in Nodes(l) && n !in Nodes(r) && Nodes(l) !! Nodes(r)
  }

  ghost function Plug(c: Context, t: Tree): Tree
    decreases c
  {
    match c
    case Top => t
    case InLeft(up, n, r) => Plug(up, Node(t, n, r))
    case InRight(up, l, n) => Plug(up, Node(l, n, t))
  }

  ghost function Depth(c: Context): nat {
    if c.Top? then 0 else 1 + Depth(c.up)
  }

  ghost function ContextNodes(c: Context): set<Links> {
    match c
    case Top => {}
    case InLeft(up, n, r) => ContextNodes(up) + {n} + Nodes(r)
    case InRight(up, l, n) => ContextNodes(up) + Nodes(l) + {n}
  }

  /** What comes before, and after, the hole in the order of the nodes. */
  ghost function Before(c: Context): seq<Links> {
    match c
    case Top => []
    case InLeft(up, n, r) => Before(up)
    case InRight(up, l, n) => Before(up) + InOrder(l) + [n]
  }

  ghost function After(c: Context): seq<Links> {
    match c
    case Top => []
    case InLeft(up, n, r) => [n] + InOrder(r) + After(up)
    case InRight(up, l, n) => After(up)
  }

  ghost predicate DistinctContext(c: Context) {
    match c
    case Top => true
    case InLeft(up, n, r) =>
      && n !in Nodes(r) && n !in ContextNodes(up) && Nodes(r) !! ContextNodes(up)
      && Distinct(r) && DistinctContext(up)
    case InRight(up, l, n) =>
      && n !in Nodes(l) && n !in ContextNodes(up) && Nodes(l) !! ContextNodes(up)
      && Distinct(l) && DistinctContext(up)
  }

  lemma GroupedRight(b: seq<Links>, s: seq<Links>, n: Links, r: seq<Links>, a: seq<Links>)
    ensures b + (s + [n] + r) + a == b + s + ([n] + r + a)
  {
  }

  lemma GroupedLeft(b: seq<Links>, l: seq<Links>, n: Links, s: seq<Links>, a: seq<Links>)
    ensures b + (l + [n] + s) + a == (b + l + [n]) + s + a
  {
  }

  lemma {:induction false} PlugInOrder(c: Context, t: Tree)
    ensures InOrder(Plug(c, t)) == Before(c) + InOrder(t) + After(c)
    decreases c
  {
    match c
    case Top =>
    case InLeft(up, n, r) =>
      PlugInOrder(up, Node(t, n, r));
      GroupedRight(Before(up), InOrder(t), n, InOrder(r), After(up));
    case InRight(up, l, n) =>
      PlugInOrder(up, Node(l, n, t));
      GroupedLeft(Before(up), InOrder(l), n, InOrder(t), After(up));
  }

  lemma {:induction false} PlugNodes(c: Context, t: Tree)
    ensures Nodes(Plug(c, t)) == ContextNodes(c) + Nodes(t)
    decreases c
  {
    match c
    case Top =>
    case InLeft(up, n, r) => PlugNodes(up, Node(t, n, r));
    case InRight(up, l, n) => PlugNodes(up, Node(l, n, t));
  }

  lemma Regrouped(p: seq<Links>, l: seq<Links>, n: Links, r: seq<Links>, q: seq<Links>)
    ensures p + (l + [n] + r) + q == (p + l) + [n] + (r + q)
  {
  }

  ghost function Elements(s: seq<Links>): set<Links> {
    set i | 0 <= i < |s| :: s[i]
  }

  lemma ElementsConcat(a: seq<Links>, b: seq<Links>)
    ensures Elements(a + b) == Elements(a) + Elements(b)
  {
    var s := a + b;
    forall x | x in Elements(a) ensures x in Elements(s) {
      var i :| 0 <= i < |a| && a[i] == x;
      assert s[i] == x;
    }
    forall x | x in Elements(b) ensures x in Elements(s) {
      var i :| 0 <= i < |b| && b[i] == x;
      assert s[|a| + i] == x;
    }
  }

  lemma {:induction false} InOrderNodes(t: Tree)
    ensures Elements(InOrder(t)) == Nodes(t)
  {
    match t
    case Leaf =>
    case Node(l, n, r) =>
      InOrderNodes(l);
      InOrderNodes(r);
      ElementsConcat(InOrder(l), [n]);
      ElementsConcat(InOrder(l) + [n], InOrder(r));
      assert Elements([n]) == {n} by { assert [n][0] == n; }
  }

  ghost predicate NoRepeats(s: seq<Links>) {
    forall i, j :: 0 <= i < j < |s| ==> s[i] != s[j]
  }

  ghost predicate NothingShared(a: seq<Links>, b: seq<Links>) {
    forall i, j :: 0 <= i < |a| && 0 <= j < |b| ==> a[i] != b[j]
  }

  lemma NoRepeatsConcat(a: seq<Links>, b: seq<Links>)
    ensures NoRepeats(a + b) <==> NoRepeats(a) && NoRepeats(b) && NothingShared(a, b)
  {
    var s := a + b;
    if NoRepeats(s) {
      forall i, j | 0 <= i < |a| && 0 <= j < |b| ensures a[i] != b[j] {
        assert s[i] == a[i] && s[|a| + j] == b[j];
      }
      forall i, j | 0 <= i < j < |b| ensures b[i] != b[j] {
        assert s[|a| + i] == b[i] && s[|a| + j] == b[j];
      }
      forall i, j | 0 <= i < j < |a| ensures a[i] != a[j] {
        assert s[i] == a[i] && s[j] == a[j];
      }
    }
  }

  lemma NothingSharedNodes(a: seq<Links>, b: seq<Links>)
    ensures NothingShared(a, b) <==> Elements(a) !! Elements(b)
  {
    if Elements(a) !! Elements(b) {
      forall i, j | 0 <= i < |a| && 0 <= j < |b| ensures a[i] != b[j] {
        assert a[i] in Elements(a) && b[j] in Elements(b);
      }
    }
  }

  /** A tree's nodes are distinct exactly when its in-order sequence does not repeat. */
  lemma {:induction false} DistinctIffNoRepeats(t: Tree)
    ensures Distinct(t) <==> NoRepeats(InOrder(t))
  {
    match t
    case Leaf =>
    case Node(l, n, r) =>
      DistinctIffNoRepeats(l);
      DistinctIffNoRepeats(r);
      NoRepeatsConcat(InOrder(l), [n]);
      NoRepeatsConcat(InOrder(l) + [n], InOrder(r));
      NothingSharedNodes(InOrder(l), [n]);
      NothingSharedNodes(InOrder(l) + [n], InOrder(r));
      InOrderNodes(l);
      InOrderNodes(r);
      ElementsConcat(InOrder(l), [n]);
      assert Elements([n]) == {n} by { assert [n][0] == n; }
  }

  lemma {:induction false} PlugDistinct(c: Context, t: Tree)
    ensures Distinct(Plug(c, t)) <==> DistinctContext(c) && Distinct(t) && ContextNodes(c) !! Nodes(t)
    decreases c
  {
    match c
    case Top =>
    case InLeft(up, n, r) => PlugDistinct(up, Node(t, n, r));
    case InRight(up, l, n) => PlugDistinct(up, Node(l, n, t));
  }

  /** Trees with the same in-order sequence have the same nodes, and are distinct together. */
  lemma SameOrder(t: Tree, t': Tree)
    requires InOrder(t) == InOrder(t')
    ensures Nodes(t) == Nodes(t') && (Distinct(t) <==> Distinct(t'))
  {
    InOrderNodes(t);
    InOrderNodes(t');
    DistinctIffNoRepeats(t);
    DistinctIffNoRepeats(t');
  }

  // ---------------------------------------------------------------- pointers

  /** The three pointers of a node. */
  datatype Cell = Cell(parent: Links?, left: Links?, right: Links?)

  /** The pointers node x must hold for the nodes to form t, when t's root has parent q. */
  ghost function CellOf(t: Tree, q: Links?, x: Links): Cell {
    match t
    case Leaf => Cell(null, null, null)
    case Node(l, n, r) =>
      if x == n then Cell(q, Root(l), Root(r))
      else if x in Nodes(l) then CellOf(l, n, x)
      else CellOf(r, n, x)
  }

  /** A whole tree's root is its own parent. */
  ghost function WholeCell(w: Tree, x: Links): Cell {
    CellOf(w, Root(w), x)
  }

  /** The node above the hole; null at the top. */
  ghost function Above(c: Context): (u: Links?)
    ensures !c.Top? ==> u in ContextNodes(c)
    ensures u == null <==> c.Top?
  {
    if c.Top? then null else c.link
  }

  /** The parent pointer of a node p that sits in the hole of c. */
  ghost function Owner(c: Context, p: Links?): Links? {
    if c.Top? then p else c.link
  }

  /** The pointers of a node x of c, when p is in the hole. */
  ghost function ContextCell(c: Context, p: Links?, x: Links): Cell
    decreases c
  {
    match c
    case Top => Cell(null, null, null)
    case InLeft(up, n, r) =>
      if x == n then Cell(Owner(up, n), p, Root(r))
      else if x in Nodes(r) then CellOf(r, n, x)
      else ContextCell(up, n, x)
    case InRight(up, l, n) =>
      if x == n then Cell(Owner(up, n), Root(l), p)
      else if x in Nodes(l) then CellOf(l, n, x)
      else ContextCell(up, n, x)
  }

  /** The cell o of node x, once p has been put into the hole of c. */
  ghost function Swung(o: Cell, x: Links, c: Context, p: Links?): Cell {
    if Above(c) != x then o
    else if c.InLeft? then o.(left := p)
    else o.(right := p)
  }

  lemma CellOutside(t: Tree, q: Links?, x: Links)
    ensures x !in Nodes(t) ==> CellOf(t, q, x) == Cell(null, null, null)
  {
  }

  lemma Reroot(t: Tree, q: Links?, q': Links?, x: Links)
    requires Distinct(t)
    ensures CellOf(t, q', x) == if x == Root(t) then CellOf(t, q, x).(parent := q') else CellOf(t, q, x)
  {
  }

  lemma ContextSwing(c: Context, p: Links?, p': Links?, x: Links)
    requires DistinctContext(c)
    ensures ContextCell(c, p', x) == Swung(ContextCell(c, p, x), x, c, p')
  {
  }

  lemma {:induction false} PlugCell(c: Context, t: Tree, x: Links)
    requires Distinct(Plug(c, t)) && (t.Node? || !c.Top?)
    ensures WholeCell(Plug(c, t), x)
         == if x in Nodes(t) then CellOf(t, Owner(c, Root(t)), x) else ContextCell(c, Root(t), x)
    decreases c
  {
    PlugDistinct(c, t);
    match c
    case Top => CellOutside(t, Root(t), x);
    case InLeft(up, n, r) => PlugCell(up, Node(t, n, r), x);
    case InRight(up, l, n) => PlugCell(up, Node(l, n, t), x);
  }

  /** Putting t' into the hole where t was: outside t', only the pointer into the hole changes. */
  lemma Regraft(c: Context, t: Tree, t': Tree, x: Links)
    requires Distinct(Plug(c, t)) && Distinct(Plug(c, t')) && (!c.Top? || (t.Node? && t'.Node?))
    requires Nodes(t') <= Nodes(t) || x in ContextNodes(c)
    ensures x in Nodes(t') ==> WholeCell(Plug(c, t'), x) == CellOf(t', Owner(c, Root(t')), x)
    ensures x !in Nodes(t) ==> WholeCell(Plug(c, t'), x) == Swung(WholeCell(Plug(c, t), x), x, c, Root(t'))
  {
    PlugDistinct(c, t);
    PlugDistinct(c, t');
    PlugCell(c, t, x);
    PlugCell(c, t', x);
    ContextSwing(c, Root(t), Root(t'), x);
  }

  /** A node's pointers, read off the tree seen from it. */
  lemma Here(c: Context, t: Tree)
    requires t.Node? && Distinct(Plug(c, t))
    ensures t.link in Nodes(Plug(c, t))
    ensures WholeCell(Plug(c, t), t.link) == Cell(Owner(c, t.link), Root(t.left), Root(t.right))
  {
    PlugDistinct(c, t);
    PlugCell(c, t, t.link);
    PlugNodes(c, t);
  }

  /** A tree can be seen from any of its nodes. */
  ghost function Locate(c: Context, t: Tree, n: Links): (r: (Context, Tree))
    requires n in Nodes(t)
    ensures r.1.Node? && r.1.link == n && Plug(r.0, r.1) == Plug(c, t)
    decreases t
  {
    if n == t.link then (c, t)
    else if n in Nodes(t.left) then Locate(InLeft(c, t.link, t.right), t.left, n)
    else Locate(InRight(c, t.left, t.link), t.right, n)
  }

  // ---------------------------------------------------------------- rotations

  /** The cell of x after n, left child of p, has been lifted over p: b is the root of the
      subtree between them and c the context of p. */
  ghost function LiftedRight(o: Cell, x: Links, n: Links, p: Links, b: Links?, c: Context): Cell {
    if x == n then Cell(Owner(c, n), o.left, p)
    else if x == p then Cell(n, b, o.right)
    else if x == b then o.(parent := p)
    else Swung(o, x, c, n)
  }

  /** The same for n, right child of p. */
  ghost function LiftedLeft(o: Cell, x: Links, n: Links, p: Links, b: Links?, c: Context): Cell {
    if x == n then Cell(Owner(c, n), p, o.right)
    else if x == p then Cell(n, o.left, b)
    else if x == b then o.(parent := p)
    else Swung(o, x, c, n)
  }

  lemma RotateOrder(c: Context, a: Tree, n: Links, b: Tree, p: Links, d: Tree)
    ensures InOrder(Plug(c, Node(a, n, Node(b, p, d)))) == InOrder(Plug(c, Node(Node(a, n, b), p, d)))
  {
    var t, t' := Node(Node(a, n, b), p, d), Node(a, n, Node(b, p, d));
    PlugInOrder(c, t);
    PlugInOrder(c, t');
    RotatedSequence(InOrder(a), n, InOrder(b), p, InOrder(d));
  }

  lemma RotatedSequence(x: seq<Links>, n: Links, y: seq<Links>, p: Links, z: seq<Links>)
    ensures (x + [n] + y) + [p] + z == x + [n] + (y + [p] + z)
  {
  }

  lemma LiftRightCells(a: Tree, n: Links, b: Tree, p: Links, d: Tree, c: Context, x: Links)
    requires Distinct(Node(Node(a, n, b), p, d)) && ContextNodes(c) !! Nodes(Node(Node(a, n, b), p, d))
    requires x in Nodes(Node(Node(a, n, b), p, d))
    ensures CellOf(Node(a, n, Node(b, p, d)), Owner(c, n), x)
         == LiftedRight(CellOf(Node(Node(a, n, b), p, d), Owner(c, p), x), x, n, p, Root(b), c)
  {
    var t1, t1' := Node(a, n, b), Node(b, p, d);
    assert Distinct(t1) && Nodes(t1) == Nodes(a) + {n} + Nodes(b);
    assert CellOf(t1, p, x) == if x == n then Cell(p, Root(a), Root(b))
                               else if x in Nodes(a) then CellOf(a, n, x) else CellOf(b, n, x);
    assert CellOf(t1', n, x) == if x == p then Cell(n, Root(b), Root(d))
                                else if x in Nodes(b) then CellOf(b, p, x) else CellOf(d, p, x);
    Reroot(b, n, p, x);
  }

  lemma LiftLeftCells(d: Tree, p: Links, a: Tree, n: Links, b: Tree, c: Context, x: Links)
    requires Distinct(Node(d, p, Node(a, n, b))) && ContextNodes(c) !! Nodes(Node(d, p, Node(a, n, b)))
    requires x in Nodes(Node(d, p, Node(a, n, b)))
    ensures CellOf(Node(Node(d, p, a), n, b), Owner(c, n), x)
         == LiftedLeft(CellOf(Node(d, p, Node(a, n, b)), Owner(c, p), x), x, n, p, Root(a), c)
  {
    var t1, t1' := Node(a, n, b), Node(d, p, a);
    assert Distinct(t1) && Nodes(t1) == Nodes(a) + {n} + Nodes(b);
    assert CellOf(t1, p, x) == if x == n then Cell(p, Root(a), Root(b))
                               else if x in Nodes(a) then CellOf(a, n, x) else CellOf(b, n, x);
    assert CellOf(t1', n, x) == if x == p then Cell(n, Root(d), Root(a))
                                else if x in Nodes(d) then CellOf(d, p, x) else CellOf(a, p, x);
    Reroot(a, n, p, x);
  }

  /** Lifting a left child: the order stays, and the pointers change as LiftedRight says. */
  lemma RotateRight(c: Context, a: Tree, n: Links, b: Tree, p: Links, d: Tree, x: Links)
    requires Distinct(Plug(c, Node(Node(a, n, b), p, d)))
    requires x in Nodes(Plug(c, Node(Node(a, n, b), p, d)))
    ensures Distinct(Plug(c, Node(a, n, Node(b, p, d))))
    ensures WholeCell(Plug(c, Node(a, n, Node(b, p, d))), x)
         == LiftedRight(WholeCell(Plug(c, Node(Node(a, n, b), p, d)), x), x, n, p, Root(b), c)
  {
    var t, t' := Node(Node(a, n, b), p, d), Node(a, n, Node(b, p, d));
    RotateOrder(c, a, n, b, p, d);
    SameOrder(Plug(c, t), Plug(c, t'));
    RotateOrder(Top, a, n, b, p, d);
    SameOrder(t, t');
    Regraft(c, t, t', x);
    PlugDistinct(c, t);
    PlugNodes(c, t);
    if x in Nodes(t) {
      PlugCell(c, t, x);
      LiftRightCells(a, n, b, p, d, c, x);
    } else {
      assert p in Nodes(t) && n in Nodes(t') && (b.Node? ==> Root(b) in Nodes(t.left));
    }
  }

  lemma RotateLeft(c: Context, d: Tree, p: Links, a: Tree, n: Links, b: Tree, x: Links)
    requires Distinct(Plug(c, Node(d, p, Node(a, n, b))))
    requires x in Nodes(Plug(c, Node(d, p, Node(a, n, b))))
    ensures Distinct(Plug(c, Node(Node(d, p, a), n, b)))
    ensures WholeCell(Plug(c, Node(Node(d, p, a), n, b)), x)
         == LiftedLeft(WholeCell(Plug(c, Node(d, p, Node(a, n, b))), x), x, n, p, Root(a), c)
  {
    var t, t' := Node(d, p, Node(a, n, b)), Node(Node(d, p, a), n, b);
    RotateOrder(c, d, p, a, n, b);
    SameOrder(Plug(c, t), Plug(c, t'));
    RotateOrder(Top, d, p, a, n, b);
    SameOrder(t, t');
    Regraft(c, t, t', x);
    PlugDistinct(c, t);
    PlugNodes(c, t);
    if x in Nodes(t) {
      PlugCell(c, t, x);
      LiftLeftCells(d, p, a, n, b, c, x);
    } else {
      assert p in Nodes(t) && n in Nodes(t') && (a.Node? ==> Root(a) in Nodes(t.right));
    }
  }

  // ---------------------------------------------------------------- the heap

  ghost function At(x: Links): Cell
    reads x`parent, x`left, x`right
  {
    Cell(x.parent, x.left, x.right)
  }

  /** The nodes' pointers form the tree w, and no node occurs in it twice. */
  ghost predicate Rooted(w: Tree)
    reads Nodes(w)`parent, Nodes(w)`left, Nodes(w)`right
  {
    && w.Node? && Distinct(w)
    && forall x {:trigger At(x)} {:trigger WholeCell(w, x)} :: x in Nodes(w) ==> At(x) == WholeCell(w, x)
  }

  /** RtlIsLeftChild, RtlIsRightChild and RtlIsRoot. */
  predicate IsLeftChild(n: Links)
    requires n.parent != null
    reads n, n.parent
  {
    n.parent.left == n
  }

  predicate IsRightChild(n: Links)
    requires n.parent != null
    reads n, n.parent
  {
    n.parent.right == n
  }

  predicate IsRoot(n: Links)
    reads n
  {
    n.parent == n
  }

  ghost function Some(x: Links?): set<Links> {
    if x == null then {} else {x}
  }

  /** The pointer into the hole of up is g, and g knows its parent. */
  ghost predicate Hangs(up: Context, g: Links)
    reads g, Some(Above(up))
  {
    && g.parent == Owner(up, g)
    && (!up.Top? ==> (up.InLeft? <==> up.link.left == g))
  }

  ghost function Sibling(c: Context): Tree
    requires !c.Top?
  {
    if c.InLeft? then c.right else c.left
  }

  /** The tree seen from the parent. */
  ghost function Zip(c: Context, t: Tree): Tree
    requires !c.Top?
    ensures Plug(c.up, Zip(c, t)) == Plug(c, t)
  {
    if c.InLeft? then Node(t, c.link, c.right) else Node(c.left, c.link, t)
  }

  /** A node's parent holds it where the tree says. */
  lemma ParentHolds(c: Context, t: Tree)
    requires Rooted(Plug(c, t)) && t.Node?
    ensures t.link in Nodes(Plug(c, t)) && Some(Above(c)) <= Nodes(Plug(c, t))
    ensures At(t.link) == Cell(Owner(c, t.link), Root(t.left), Root(t.right))
    ensures Hangs(c, t.link)
    ensures c.InLeft? ==> c.link.left == t.link
    ensures c.InRight? ==> c.link.right == t.link
    ensures Some(Root(t.left)) <= Nodes(Plug(c, t)) && Some(Root(t.right)) <= Nodes(Plug(c, t))
  {
    var w := Plug(c, t);
    Here(c, t);
    PlugNodes(c, t);
    PlugDistinct(c, t);
    assert At(t.link) == WholeCell(w, t.link);
    if !c.Top? {
      Here(c.up, Zip(c, t));
      assert At(c.link) == WholeCell(w, c.link);
    }
  }

  /** The tests on the pointers find out the shape around a node. */
  lemma Tests(c: Context, t: Tree)
    requires Rooted(Plug(c, t)) && t.Node?
    ensures t.link.parent != null
    ensures IsRoot(t.link) <==> c.Top?
    ensures IsLeftChild(t.link) <==> c.InLeft?
    ensures IsRightChild(t.link) <==> c.InRight?
    ensures !c.Top? ==> t.link.parent == c.link
  {
    ParentHolds(c, t);
    PlugDistinct(c, t);
    if c.Top? {
      assert Root(t.left) != t.link && Root(t.right) != t.link;
    } else {
      assert c.link !in Nodes(t);
      Here(c.up, Zip(c, t));
      assert At(c.link) == WholeCell(Plug(c, t), c.link);
      assert Root(Sibling(c)) != t.link;
    }
  }

  /** Parents and children name each other, in a tree of distinct nodes. */
  lemma Kin(w: Tree, x: Links, y: Links)
    requires Distinct(w) && x in Nodes(w) && y in Nodes(w)
    ensures WholeCell(w, x).left == y ==> WholeCell(w, x).right != y
    ensures WholeCell(w, x).left == y || WholeCell(w, x).right == y ==>
      WholeCell(w, y).parent == x && y != Root(w) && x != y
    ensures WholeCell(w, y).parent == x && y != Root(w) ==>
      WholeCell(w, x).left == y || WholeCell(w, x).right == y
    ensures WholeCell(w, y).parent == y <==> y == Root(w)
  {
    var (c, t) := Locate(Top, w, x);
    Here(c, t);
    PlugDistinct(c, t);
    if t.left.Node? {
      Here(InLeft(c, x, t.right), t.left);
    }
    if t.right.Node? {
      Here(InRight(c, t.left, x), t.right);
    }
    var (d, u) := Locate(Top, w, y);
    Here(d, u);
    PlugDistinct(d, u);
    if !d.Top? {
      Here(d.up, Zip(d, u));
    }
    PlugRoot(d, u);
    PlugRoot(c, t);
  }

  /** The root is in the hole, or else in the context. */
  lemma {:induction false} PlugRoot(c: Context, t: Tree)
    ensures c.Top? ==> Root(Plug(c, t)) == Root(t)
    ensures !c.Top? ==> Root(Plug(c, t)) in ContextNodes(c)
    decreases c
  {
    if !c.Top? {
      PlugRoot(c.up, Zip(c, t));
    }
  }

  /** No node is both above and below another. */
  lemma NotBothWays(w: Tree, x: Links)
    requires Distinct(w) && x in Nodes(w) && x != Root(w)
    ensures var o := WholeCell(w, x); o.parent != o.left && o.parent != o.right
  {
    var (c, t) := Locate(Top, w, x);
    Here(c, t);
    PlugDistinct(c, t);
  }
}
