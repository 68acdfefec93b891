/** RtlDelete and RtlDeleteNoSplay. */
module SplayDelete {
  import opened LinkTrees
  import opened Splay
  import opened SwapLinks

  // ---------------------------------------------------------------- what deletion means

  ghost function Without(s: seq<Links>, x: Links): seq<Links> {
    if s == [] then []
    else (if s[0] == x then [] else [s[0]]) + Without(s[1..], x)
  }

  lemma {:induction false} WithoutConcat(a: seq<Links>, b: seq<Links>, x: Links)
    ensures Without(a + b, x) == Without(a, x) + Without(b, x)
  {
    if a == [] {
      assert a + b == b;
    } else {
      assert (a + b)[1..] == a[1..] + b;
      WithoutConcat(a[1..], b, x);
    }
  }

  lemma {:induction false} WithoutAbsent(s: seq<Links>, x: Links)
    requires x !in Elements(s)
    ensures Without(s, x) == s
  {
    if s != [] {
      assert s[0] in Elements(s);
      forall i | 0 <= i < |s[1..]| ensures s[1..][i] in Elements(s) {
        assert s[1..][i] == s[i + 1];
      }
      WithoutAbsent(s[1..], x);
    }
  }

  lemma WithoutMiddle(a: seq<Links>, x: Links, b: seq<Links>)
    requires x !in Elements(a) && x !in Elements(b)
    ensures Without(a + [x] + b, x) == a + b
  {
    WithoutConcat(a + [x], b, x);
    WithoutConcat(a, [x], x);
    WithoutAbsent(a, x);
    WithoutAbsent(b, x);
    assert Without([x], x) == [] && a + [] == a;
  }

  ghost function Rightmost(t: Tree): Links
    requires t.Node?
  {
    if t.right.Leaf? then t.link else Rightmost(t.right)
  }

  lemma {:induction false} RightmostIsLast(t: Tree)
    requires t.Node?
    ensures |InOrder(t)| > 0 && InOrder(t)[|InOrder(t)| - 1] == Rightmost(t) && Rightmost(t) in Nodes(t)
  {
    if t.right.Node? {
      RightmostIsLast(t.right);
    }
  }

  /** The one child of a node that lacks the other. */
  ghost function OnlyChild(t: Tree): Tree
    requires t.Node?
  {
    if t.left.Node? then t.left else t.right
  }

  /** The tree in which n has, at most, one child: n trades places with its predecessor if it
      has two. */
  ghost function Prepared(w: Tree, n: Links): Tree
    requires n in Nodes(w)
  {
    var t := Locate(Top, w, n).1;
    if t.left.Node? && t.right.Node? then Traded(w, Rightmost(t.left), n) else w
  }

  /** The tree without n: its only child, after Prepared, takes its place. */
  ghost function Removed(w: Tree, n: Links): Tree
    requires n in Nodes(w)
  {
    var w1 := Prepared(w, n);
    if n in Nodes(w1) then
      var (c, t) := Locate(Top, w1, n);
      Plug(c, OnlyChild(t))
    else w
  }

  lemma RegroupLast(p: seq<Links>, l: seq<Links>, n: Links, r: seq<Links>, q: seq<Links>)
    requires |l| > 0
    ensures p + (l + [n] + r) + q == (p + l[..|l| - 1]) + [l[|l| - 1], n] + (r + q)
  {
  }

  /** Taking out a node with at most one child takes it out of the order. */
  lemma SpliceOrder(c: Context, t: Tree)
    requires Distinct(Plug(c, t)) && t.Node? && (t.left.Leaf? || t.right.Leaf?)
    ensures InOrder(Plug(c, OnlyChild(t))) == Without(InOrder(Plug(c, t)), t.link)
  {
    var n, t' := t.link, OnlyChild(t);
    PlugInOrder(c, t);
    PlugInOrder(c, t');
    var p, l, r, q := Before(c), InOrder(t.left), InOrder(t.right), After(c);
    Regrouped(p, l, n, r, q);
    assert InOrder(t') == l + r;
    assert p + (l + r) + q == (p + l) + (r + q);
    SidesLackNode(p + l, n, r + q, Plug(c, t));
    WithoutMiddle(p + l, n, r + q);
  }

  lemma SpliceNodes(c: Context, t: Tree)
    requires Distinct(Plug(c, t)) && t.Node? && (t.left.Leaf? || t.right.Leaf?)
    ensures Distinct(Plug(c, OnlyChild(t)))
    ensures Nodes(Plug(c, OnlyChild(t))) == Nodes(Plug(c, t)) - {t.link}
  {
    PlugDistinct(c, t);
    PlugDistinct(c, OnlyChild(t));
    PlugNodes(c, t);
    PlugNodes(c, OnlyChild(t));
  }

  lemma SidesLackNode(a: seq<Links>, n: Links, b: seq<Links>, w: Tree)
    requires Distinct(w) && InOrder(w) == a + [n] + b
    ensures n !in Elements(a) && n !in Elements(b)
  {
    DistinctIffNoRepeats(w);
    var s := InOrder(w);
    assert s[|a|] == n;
    forall i | 0 <= i < |a| ensures a[i] != n {
      assert s[i] == a[i];
    }
    forall i | 0 <= i < |b| ensures b[i] != n {
      assert s[|a| + 1 + i] == b[i];
    }
  }

  /** Neighbours in the order that trade places. */
  lemma TradedNeighbours(w: Tree, a: seq<Links>, p: Links, n: Links, b: seq<Links>)
    requires Distinct(w) && InOrder(w) == a + [p, n] + b
    ensures InOrder(Traded(w, p, n)) == a + [n, p] + b
    ensures Without(a + [n, p] + b, n) == Without(a + [p, n] + b, n)
  {
    var s, s' := InOrder(w), InOrder(Traded(w, p, n));
    TradedOrder(w, p, n);
    DistinctIffNoRepeats(w);
    assert s[|a|] == p && s[|a| + 1] == n;
    forall i | 0 <= i < |s| ensures s'[i] == (a + [n, p] + b)[i] {
      assert i < |a| ==> s[i] == a[i];
    }
    assert s == (a + [p]) + [n] + b;
    SidesLackNode(a + [p], n, b, w);
    WithoutMiddle(a + [p], n, b);
    ElementsConcat(a, [p]);
    ElementsConcat([p], b);
    assert [p][0] == p && p != n;
    assert a + [n, p] + b == a + [n] + ([p] + b);
    WithoutMiddle(a, n, [p] + b);
    assert a + [p] + b == a + ([p] + b);
  }

  // ---------------------------------------------------------------- pointers

  method RtlSubtreePredecessor(links: Links, ghost c: Context, ghost t: Tree) returns (child: Links?)
    requires Rooted(Plug(c, t)) && t.Node? && t.link == links
    ensures child == if t.left.Node? then Rightmost(t.left) else null
  {
    ParentHolds(c, t);
    child := links.left;
    if child == null {
      return null;
    }
    ghost var d, u := InLeft(c, t.link, t.right), t.left;
    ParentHolds(d, u);
    while child.right != null
      invariant child != null && u.Node? && child == u.link
      invariant Plug(d, u) == Plug(c, t) && Rooted(Plug(d, u))
      invariant child.right == Root(u.right) && Rightmost(u) == Rightmost(t.left)
      decreases u
    {
      assert Plug(InRight(d, u.left, u.link), u.right) == Plug(d, u);
      d, u := InRight(d, u.left, u.link), u.right;
      child := child.right;
      ParentHolds(d, u);
    }
  }

  /** Where n hung, its only child (if any) hangs. */
  method LinkPast(n: Links, ch: Links?, ghost c: Context, ghost s: set<Links>)
    requires Hangs(c, n) && ch != n && n != Above(c) && (ch == null || ch != Above(c))
    modifies Some(Above(c))`left, Some(Above(c))`right, Some(ch)`parent
    ensures forall x :: x in s && x != n ==>
      At(x) == if x == ch then old(At(x)).(parent := Owner(c, ch)) else Swung(old(At(x)), x, c, ch)
  {
    assert allocated(s);
    if IsRoot(n) {
      if ch != null {
        ch.parent := ch;
      }
      return;
    }
    var p := n.parent;
    if IsLeftChild(n) {
      p.left := ch;
    } else {
      p.right := ch;
    }
    if ch != null {
      ch.parent := p;
    }
  }

  lemma SpliceCells(c: Context, t: Tree, x: Links)
    requires Distinct(Plug(c, t)) && t.Node? && (t.left.Leaf? || t.right.Leaf?)
    requires x in Nodes(Plug(c, OnlyChild(t))) && Plug(c, OnlyChild(t)).Node?
    ensures WholeCell(Plug(c, OnlyChild(t)), x) ==
      var o := WholeCell(Plug(c, t), x);
      var ch := Root(OnlyChild(t));
      if x == ch then o.(parent := Owner(c, ch)) else Swung(o, x, c, ch)
  {
    var t' := OnlyChild(t);
    SpliceNodes(c, t);
    PlugDistinct(c, t);
    PlugNodes(c, t');
    PlugNodes(c, t);
    Regraft(c, t, t', x);
    PlugCell(c, t, x);
    Reroot(t', t.link, Owner(c, Root(t')), x);
    if x !in Nodes(t') {
      assert x in ContextNodes(c);
      CellOutside(t', t.link, x);
    }
  }

  method Unlink(n: Links, ghost c: Context, ghost t: Tree) returns (p: Links?, ch: Links?)
    requires Rooted(Plug(c, t)) && t.Node? && t.link == n && (t.left.Leaf? || t.right.Leaf?)
    modifies Nodes(Plug(c, t))
    ensures p == Above(c) && ch == Root(OnlyChild(t))
    ensures Plug(c, OnlyChild(t)).Node? ==> Rooted(Plug(c, OnlyChild(t)))
  {
    ghost var w, w' := Plug(c, t), Plug(c, OnlyChild(t));
    ParentHolds(c, t);
    Tests(c, t);
    PlugDistinct(c, t);
    SpliceNodes(c, t);
    ch := if n.left != null then n.left else n.right;
    p := if IsRoot(n) then null else n.parent;
    assert allocated(Nodes(w));
    LinkPast(n, ch, c, Nodes(w));
    if w'.Node? {
      forall x | x in Nodes(w') ensures At(x) == WholeCell(w', x) {
        assert allocated(x);
        SpliceCells(c, t, x);
        assert old(At(x)) == WholeCell(w, x);
      }
    }
  }

  // ---------------------------------------------------------------- deletion on trees

  /** The rightmost node of a subtree has no right child. */
  lemma {:induction false} RightmostCell(c: Context, t: Tree)
    requires Distinct(Plug(c, t)) && t.Node?
    ensures Rightmost(t) in Nodes(Plug(c, t)) && WholeCell(Plug(c, t), Rightmost(t)).right == null
    decreases t
  {
    if t.right.Node? {
      assert Plug(InRight(c, t.left, t.link), t.right) == Plug(c, t);
      RightmostCell(InRight(c, t.left, t.link), t.right);
    } else {
      Here(c, t);
    }
  }

  /** Prepared leaves n in the tree with at most one child, next to its place in the order. */
  lemma PreparedNode(w: Tree, n: Links)
    requires Distinct(w) && n in Nodes(w)
    ensures Distinct(Prepared(w, n)) && Nodes(Prepared(w, n)) == Nodes(w)
    ensures Without(InOrder(Prepared(w, n)), n) == Without(InOrder(w), n)
    ensures var t := Locate(Top, Prepared(w, n), n).1; t.left.Leaf? || t.right.Leaf?
  {
    var (c, t) := Locate(Top, w, n);
    if t.left.Node? && t.right.Node? {
      var p := Rightmost(t.left);
      PreparedOrder(c, t);
      assert Plug(InLeft(c, n, t.right), t.left) == Plug(c, t);
      RightmostCell(InLeft(c, n, t.right), t.left);
      TradedDistinct(w, p, n);
      TradedWhole(w, p, n, n);
      var (c', t') := Locate(Top, Prepared(w, n), n);
      Here(c', t');
    }
  }

  lemma PreparedOrder(c: Context, t: Tree)
    requires Distinct(Plug(c, t)) && t.Node? && t.left.Node?
    ensures Without(InOrder(Traded(Plug(c, t), Rightmost(t.left), t.link)), t.link)
         == Without(InOrder(Plug(c, t)), t.link)
  {
    var l, n, r := InOrder(t.left), t.link, InOrder(t.right);
    var p := Rightmost(t.left);
    RightmostIsLast(t.left);
    PlugInOrder(c, t);
    var a, b := Before(c) + l[..|l| - 1], r + After(c);
    RegroupLast(Before(c), l, n, r, After(c));
    TradedNeighbours(Plug(c, t), a, p, n, b);
  }

  /** Removed takes n, and nothing else, out of the order. */
  lemma RemovedOrder(w: Tree, n: Links)
    requires Distinct(w) && n in Nodes(w)
    ensures InOrder(Removed(w, n)) == Without(InOrder(w), n)
    ensures Distinct(Removed(w, n)) && Nodes(Removed(w, n)) == Nodes(w) - {n}
  {
    PreparedNode(w, n);
    var (c, t) := Locate(Top, Prepared(w, n), n);
    SpliceOrder(c, t);
    SpliceNodes(c, t);
  }

  /** Trades n with its predecessor if n has two children. */
  method Prepare(n: Links, ghost w: Tree) returns (sp: Links?)
    requires Rooted(w) && n in Nodes(w)
    modifies Nodes(w)
    ensures Rooted(Prepared(w, n))
    ensures sp == null <==> !(Locate(Top, w, n).1.left.Node? && Locate(Top, w, n).1.right.Node?)
    ensures Root(Prepared(w, n)) == if sp != null && n == Root(w) then sp else Root(w)
  {
    ghost var c, t := Locate(Top, w, n).0, Locate(Top, w, n).1;
    ParentHolds(c, t);
    sp := null;
    if n.left != null && n.right != null {
      assert allocated(Nodes(w));
      sp := RtlSubtreePredecessor(n, c, t);
      RightmostIsLast(t.left);
      PlugNodes(c, t);
      PlugDistinct(c, t);
      TradedRoot(w, sp, n);
      PlugRoot(c, t);
      SwapSplayLinks(sp, n, w);
    }
  }

  // ---------------------------------------------------------------- deletion on pointers

  /** The pointers of x once n, which has no second child and the pointers cn, is bypassed. */
  ghost function Bypassed(o: Cell, x: Links, n: Links, cn: Cell): Cell {
    var ch := if cn.left != null then cn.left else cn.right;
    Cell(if x != ch then o.parent else if cn.parent == n then x else cn.parent,
         if o.left == n then ch else o.left,
         if o.right == n then ch else o.right)
  }

  lemma BypassCells(w: Tree, n: Links, x: Links)
    requires Distinct(w) && n in Nodes(w) && x in Nodes(w) && x != n
    requires WholeCell(w, n).left == null || WholeCell(w, n).right == null
    ensures var (c, t) := Locate(Top, w, n);
      WholeCell(Plug(c, OnlyChild(t)), x) == Bypassed(WholeCell(w, x), x, n, WholeCell(w, n))
  {
    var (c, t) := Locate(Top, w, n);
    Here(c, t);
    SpliceNodes(c, t);
    SpliceCells(c, t, x);
    Kin(w, x, n);
    PlugRoot(c, t);
    if !c.Top? {
      Here(c.up, Zip(c, t));
      PlugDistinct(c, t);
    }
  }

  /** p comes right before n. */
  ghost predicate Precedes(s: seq<Links>, p: Links, n: Links) {
    exists i :: 0 <= i && i + 1 < |s| && s[i] == p && s[i + 1] == n
  }

  /** The node before n, where n has a left child, is the rightmost one below it on the left. */
  lemma PredecessorIs(w: Tree, n: Links, p: Links)
    requires Distinct(w) && n in Nodes(w) && Precedes(InOrder(w), p, n) && WholeCell(w, n).left != null
    ensures Locate(Top, w, n).1.left.Node? && p == Rightmost(Locate(Top, w, n).1.left)
  {
    var (c, t) := Locate(Top, w, n);
    Here(c, t);
    RightmostIsLast(t.left);
    PlugInOrder(c, t);
    DistinctIffNoRepeats(w);
    var l, k := InOrder(t.left), |Before(c)| + |InOrder(t.left)|;
    RegroupLast(Before(c), l, n, InOrder(t.right), After(c));
    assert InOrder(w)[k] == n && InOrder(w)[k - 1] == Rightmost(t.left);
    var i :| 0 <= i && i + 1 < |InOrder(w)| && InOrder(w)[i] == p && InOrder(w)[i + 1] == n;
    assert i + 1 == k;
  }

  /** How the predecessor of n is linked: it has no right child, and it is neither the root nor next
      to n, but perhaps as its left child. */
  lemma PredecessorCells(w: Tree, n: Links, p: Links)
    requires Distinct(w) && n in Nodes(w) && Precedes(InOrder(w), p, n) && WholeCell(w, n).left != null
    ensures p in Nodes(w) && p != n && p != Root(w)
    ensures WholeCell(w, p).right == null && WholeCell(w, p).parent != p && WholeCell(w, p).left != n
    ensures WholeCell(w, n).parent != p && WholeCell(w, n).right != p
  {
    var (c, t) := Locate(Top, w, n);
    Here(c, t);
    PredecessorIs(w, n, p);
    var d := InLeft(c, n, t.right);
    RightmostIsLast(t.left);
    assert Plug(d, t.left) == Plug(c, t);
    RightmostCell(d, t.left);
    PlugRoot(d, t.left);
    PlugDistinct(d, t.left);
    PlugNodes(d, t.left);
    Kin(w, p, p);
    Kin(w, p, n);
    assert Root(t.right) != p;
  }

  /** The pointers that deletion leaves where n has one child, or none: n is bypassed. */
  lemma OneChildCells(w: Tree, n: Links, x: Links)
    requires Distinct(w) && n in Nodes(w) && x in Nodes(w) && x != n
    requires WholeCell(w, n).left == null || WholeCell(w, n).right == null
    ensures WholeCell(Removed(w, n), x) == Bypassed(WholeCell(w, x), x, n, WholeCell(w, n))
  {
    var (c, t) := Locate(Top, w, n);
    Here(c, t);
    BypassCells(w, n, x);
  }

  /** Where n has two children: its predecessor p takes its place, and p's left child that of p. */
  lemma TwoChildrenCells(w: Tree, n: Links, p: Links, x: Links)
    requires Distinct(w) && n in Nodes(w) && x in Nodes(w) && x != n && Precedes(InOrder(w), p, n)
    requires WholeCell(w, n).left != null && WholeCell(w, n).right != null
    ensures p in Nodes(w)
    ensures var cn, cp, o := WholeCell(w, n), WholeCell(w, p), WholeCell(w, x);
      WholeCell(Removed(w, n), x) ==
        if x == p then
          Cell(if cn.parent == n then p else cn.parent, if cn.left == p then cp.left else cn.left, cn.right)
        else
          Cell(if x == cp.left then (if cp.parent == n then p else cp.parent)
               else if o.parent == n then p else o.parent,
               if o.left == n then p else if o.left == p then cp.left else o.left,
               if o.right == n then p else if o.right == p then cp.left else o.right)
  {
    var (c, t) := Locate(Top, w, n);
    Here(c, t);
    PredecessorIs(w, n, p);
    PredecessorCells(w, n, p);
    TradedDistinct(w, p, n);
    TradedWhole(w, p, n, n);
    TradedWhole(w, p, n, x);
    BypassCells(Traded(w, p, n), n, x);
    Kin(w, p, x);
    Kin(w, n, x);
    Kin(w, n, n);
    if WholeCell(w, p).left != null {
      Kin(w, p, p);
    }
  }

  /** The root after deletion: as before or, where n was the root, its only child. */
  lemma RemovedRoot(w: Tree, n: Links)
    requires Distinct(w) && n in Nodes(w)
    requires WholeCell(w, n).left == null || WholeCell(w, n).right == null
    ensures var cn := WholeCell(w, n);
      Root(Removed(w, n)) == if cn.parent != n then Root(w) else if cn.left != null then cn.left else cn.right
  {
    var (c, t) := Locate(Top, w, n);
    Here(c, t);
    PlugDistinct(c, t);
    PlugRoot(c, t);
    PlugRoot(c, OnlyChild(t));
    SameRoot(c, t, OnlyChild(t));
  }

  /** Or its predecessor. */
  lemma PromotedRoot(w: Tree, n: Links, p: Links)
    requires Distinct(w) && n in Nodes(w) && Precedes(InOrder(w), p, n)
    requires WholeCell(w, n).left != null && WholeCell(w, n).right != null
    ensures Root(Removed(w, n)) == if WholeCell(w, n).parent == n then p else Root(w)
  {
    PreparedNode(w, n);
    var (c, t) := Locate(Top, w, n);
    Here(c, t);
    PredecessorIs(w, n, p);
    PredecessorCells(w, n, p);
    TradedRoot(w, p, n);
    Kin(w, n, n);
    var (d, u) := Locate(Top, Prepared(w, n), n);
    Here(d, u);
    TradedWhole(w, p, n, n);
    PlugDistinct(d, u);
    SameRoot(d, u, OnlyChild(u));
  }

  lemma {:induction false} SameRoot(c: Context, t: Tree, t': Tree)
    ensures !c.Top? ==> Root(Plug(c, t)) == Root(Plug(c, t'))
    decreases c
  {
    if !c.Top? && !c.up.Top? {
      SameRoot(c.up, Zip(c, t), Zip(c, t'));
    }
  }

  /** The node that deletion splays; null where the node that is cut out is the root. */
  ghost function ToSplay(w: Tree, n: Links): Links?
    requires n in Nodes(w) && n in Nodes(Prepared(w, n))
  {
    Above(Locate(Top, Prepared(w, n), n).0)
  }

  /** It is the parent of n, where n has one child or none. */
  lemma ToSplayIs(w: Tree, n: Links)
    requires Distinct(w) && n in Nodes(w)
    requires WholeCell(w, n).left == null || WholeCell(w, n).right == null
    ensures n in Nodes(Prepared(w, n))
    ensures WholeCell(w, n).parent != null
    ensures ToSplay(w, n) == if WholeCell(w, n).parent == n then null else WholeCell(w, n).parent
  {
    var (c, t) := Locate(Top, w, n);
    Here(c, t);
    PlugDistinct(c, t);
  }

  /** Where n has two, it is the parent of the predecessor p, which is p itself if that was n. */
  lemma ToSplayAbove(w: Tree, n: Links, p: Links)
    requires Distinct(w) && n in Nodes(w) && Precedes(InOrder(w), p, n)
    requires WholeCell(w, n).left != null && WholeCell(w, n).right != null
    ensures p in Nodes(w) && n in Nodes(Prepared(w, n))
    ensures WholeCell(w, p).parent != null
    ensures ToSplay(w, n) == if WholeCell(w, p).parent == n then p else WholeCell(w, p).parent
  {
    PreparedNode(w, n);
    var (c, t) := Locate(Top, w, n);
    Here(c, t);
    PredecessorIs(w, n, p);
    PredecessorCells(w, n, p);
    TradedWhole(w, p, n, n);
    var (d, u) := Locate(Top, Prepared(w, n), n);
    Here(d, u);
    PlugDistinct(d, u);
  }

  // ---------------------------------------------------------------- RtlDelete

  /** Removed, splayed from the parent of the node that was cut out. */
  ghost function Deleted(w: Tree, n: Links): (w': Tree)
    requires Distinct(w) && n in Nodes(w)
    ensures n in Nodes(Prepared(w, n))
    ensures Root(w') == if ToSplay(w, n) == null then Root(Removed(w, n)) else ToSplay(w, n)
  {
    PreparedNode(w, n);
    ToSplayInside(w, n);
    if ToSplay(w, n) == null then Removed(w, n) else Splayed(Removed(w, n), ToSplay(w, n))
  }

  lemma ToSplayInside(w: Tree, n: Links)
    requires Distinct(w) && n in Nodes(w)
    ensures n in Nodes(Prepared(w, n))
    ensures ToSplay(w, n) != null ==> ToSplay(w, n) in Nodes(Removed(w, n))
  {
    PreparedNode(w, n);
    var (c, t) := Locate(Top, Prepared(w, n), n);
    PlugNodes(c, OnlyChild(t));
  }

  /** How many rounds the splay of a deletion takes. */
  ghost function DeletionRounds(w: Tree, n: Links): nat
    requires Distinct(w) && n in Nodes(w)
  {
    PreparedNode(w, n);
    ToSplayInside(w, n);
    if ToSplay(w, n) == null then 0 else (DepthOf(Removed(w, n), ToSplay(w, n)) + 1) / 2
  }

  lemma DeletedRoot(w: Tree, n: Links)
    requires Distinct(w) && n in Nodes(w)
    ensures var cn := WholeCell(w, n);
      cn.left == null || cn.right == null ==>
        Root(Deleted(w, n)) == if cn.parent != n then cn.parent else if cn.left != null then cn.left else cn.right
  {
    var cn := WholeCell(w, n);
    if cn.left == null || cn.right == null {
      ToSplayIs(w, n);
      ToSplayInside(w, n);
      RemovedRoot(w, n);
    }
  }

  lemma DeletedPromotes(w: Tree, n: Links, p: Links)
    requires Distinct(w) && n in Nodes(w) && Precedes(InOrder(w), p, n)
    requires WholeCell(w, n).left != null && WholeCell(w, n).right != null
    ensures p in Nodes(w)
    ensures Root(Deleted(w, n)) == if WholeCell(w, p).parent == n then p else WholeCell(w, p).parent
  {
    ToSplayAbove(w, n, p);
    ToSplayInside(w, n);
  }

  method RtlDelete(links: Links, ghost w: Tree) returns (root: Links?, ghost w': Tree, ghost rounds: nat)
    requires Rooted(w) && links in Nodes(w)
    modifies Nodes(w)
    ensures root == Root(w') && InOrder(w') == Without(InOrder(w), links)
    ensures w'.Node? ==> Rooted(w')
    ensures root == null <==> InOrder(w) == [links]
    ensures w' == Deleted(w, links) && rounds == DeletionRounds(w, links)
    ensures var l, r, up := old(links.left), old(links.right), old(links.parent);
      l == null || r == null ==> root == if up != links then up else if l != null then l else r
    ensures old(links.left) != null && old(links.right) != null ==>
      forall p :: p in Nodes(w) && Precedes(InOrder(w), p, links) ==>
        root == if WholeCell(w, p).parent == links then p else WholeCell(w, p).parent
  {
    PreparedNode(w, links);
    ToSplayInside(w, links);
    DeletedRoot(w, links);
    assert At(links) == WholeCell(w, links);
    assert allocated(Nodes(w));
    var sp := Prepare(links, w);
    ghost var c, t := Locate(Top, Prepared(w, links), links).0, Locate(Top, Prepared(w, links), links).1;
    var p, ch := Unlink(links, c, t);
    RemovedOrder(w, links);
    w' := Removed(w, links);
    if p == null {
      root, rounds := ch, 0;
      PlugRoot(c, OnlyChild(t));
    } else {
      root, w', rounds := RtlSplay(p, w');
    }
    forall p | p in Nodes(w) && Precedes(InOrder(w), p, links)
      && WholeCell(w, links).left != null && WholeCell(w, links).right != null
      ensures root == if WholeCell(w, p).parent == links then p else WholeCell(w, p).parent
    {
      DeletedPromotes(w, links, p);
    }
  }

  // ---------------------------------------------------------------- RtlDeleteNoSplay

  lemma HasPredecessor(w: Tree, n: Links) returns (p: Links)
    requires Distinct(w) && n in Nodes(w) && WholeCell(w, n).left != null
    ensures Precedes(InOrder(w), p, n)
  {
    var (c, t) := Locate(Top, w, n);
    Here(c, t);
    RightmostIsLast(t.left);
    PlugInOrder(c, t);
    var l, k := InOrder(t.left), |Before(c)| + |InOrder(t.left)|;
    RegroupLast(Before(c), l, n, InOrder(t.right), After(c));
    p := InOrder(w)[k - 1];
    assert InOrder(w)[k] == n;
  }

  lemma RootAfter(w: Tree, n: Links)
    requires Distinct(w) && n in Nodes(w)
    ensures n != Root(w) ==> Root(Removed(w, n)) == Root(w)
    ensures var cn := WholeCell(w, n);
      n == Root(w) && (cn.left == null || cn.right == null) ==>
        Root(Removed(w, n)) == if cn.left != null then cn.left else cn.right
    ensures n == Root(w) && WholeCell(w, n).left != null && WholeCell(w, n).right != null ==>
      Root(Removed(w, n)) != null && Precedes(InOrder(w), Root(Removed(w, n)), n)
  {
    Kin(w, n, n);
    if WholeCell(w, n).left != null && WholeCell(w, n).right != null {
      var p := HasPredecessor(w, n);
      PromotedRoot(w, n, p);
    } else {
      RemovedRoot(w, n);
    }
  }

  /** root is *Root on entry, newRoot on exit. */
  method RtlDeleteNoSplay(links: Links, root: Links, ghost w: Tree) returns (newRoot: Links?)
    requires Rooted(w) && links in Nodes(w) && root == Root(w)
    modifies Nodes(w)
    ensures InOrder(Removed(w, links)) == Without(InOrder(w), links)
    ensures newRoot == Root(Removed(w, links))
    ensures Removed(w, links).Node? ==> Rooted(Removed(w, links))
    ensures links != root ==> newRoot == root
    ensures var l, r := old(links.left), old(links.right);
      links == root && (l == null || r == null) ==> newRoot == if l != null then l else r
    ensures links == root && old(links.left) != null && old(links.right) != null ==>
      newRoot != null && Precedes(InOrder(w), newRoot, links)
  {
    newRoot := root;
    PreparedNode(w, links);
    assert At(links) == WholeCell(w, links);
    RootAfter(w, links);
    var sp := Prepare(links, w);
    if sp != null && root == links {
      newRoot := sp;
    }
    ghost var w1 := Prepared(w, links);
    ghost var c, t := Locate(Top, w1, links).0, Locate(Top, w1, links).1;
    var p, ch := Unlink(links, c, t);
    RemovedOrder(w, links);
    PlugRoot(c, t);
    PlugRoot(c, OnlyChild(t));
    SameRoot(c, t, OnlyChild(t));
    if p == null {
      newRoot := ch;
    }
  }
}
