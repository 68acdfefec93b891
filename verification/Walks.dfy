/** RtlRealPredecessor and RtlRealSuccessor: the neighbours of a node in the order of the tree. */
module Walks {
  import opened LinkTrees

  ghost function First(s: seq<Links>): Links? {
    if s == [] then null else s[0]
  }

  ghost function Last(s: seq<Links>): Links? {
    if s == [] then null else s[|s| - 1]
  }

  /** What comes right after, or right before, x in s; null if nothing does. */
  ghost function NextIn(s: seq<Links>, x: Links): Links? {
    if s == [] then null
    else if s[0] == x then First(s[1..])
    else NextIn(s[1..], x)
  }

  ghost function PreviousIn(s: seq<Links>, x: Links): Links? {
    if s == [] then null
    else if s[|s| - 1] == x then Last(s[..|s| - 1])
    else PreviousIn(s[..|s| - 1], x)
  }

  lemma {:induction false} NextInSplit(a: seq<Links>, x: Links, b: seq<Links>)
    requires x !in Elements(a)
    ensures NextIn(a + [x] + b, x) == First(b)
  {
    var s := a + [x] + b;
    if a == [] {
      assert s[1..] == b;
    } else {
      assert a[0] in Elements(a) && s[0] == a[0];
      assert s[1..] == a[1..] + [x] + b;
      forall i | 0 <= i < |a[1..]| ensures a[1..][i] != x {
        assert a[1..][i] == a[i + 1] && a[i + 1] in Elements(a);
      }
      NextInSplit(a[1..], x, b);
    }
  }

  lemma {:induction false} PreviousInSplit(a: seq<Links>, x: Links, b: seq<Links>)
    requires x !in Elements(b)
    ensures PreviousIn(a + [x] + b, x) == Last(a)
    decreases |b|
  {
    var s, k := a + [x] + b, |b| - 1;
    if b == [] {
      assert s[..|s| - 1] == a;
    } else {
      assert b[k] in Elements(b) && s[|s| - 1] == b[k];
      assert s[..|s| - 1] == a + [x] + b[..k];
      forall i | 0 <= i < k ensures b[..k][i] != x {
        assert b[i] in Elements(b);
      }
      PreviousInSplit(a, x, b[..k]);
    }
  }

  /** A node's neighbours in the order, read off the tree seen from it. */
  lemma NeighboursInOrder(c: Context, t: Tree)
    requires Distinct(Plug(c, t)) && t.Node?
    ensures NextIn(InOrder(Plug(c, t)), t.link) == First(InOrder(t.right) + After(c))
    ensures PreviousIn(InOrder(Plug(c, t)), t.link) == Last(Before(c) + InOrder(t.left))
  {
    var a, n, b := Before(c) + InOrder(t.left), t.link, InOrder(t.right) + After(c);
    PlugInOrder(c, t);
    PlugDistinct(c, t);
    Regrouped(Before(c), InOrder(t.left), n, InOrder(t.right), After(c));
    OutsideNodes(c);
    InOrderNodes(t.left);
    InOrderNodes(t.right);
    ElementsConcat(Before(c), InOrder(t.left));
    ElementsConcat(InOrder(t.right), After(c));
    NextInSplit(a, n, b);
    PreviousInSplit(a, n, b);
  }

  lemma {:induction false} OutsideNodes(c: Context)
    ensures Elements(Before(c)) + Elements(After(c)) == ContextNodes(c)
  {
    match c
    case Top =>
    case InLeft(up, n, r) =>
      OutsideNodes(up);
      InOrderNodes(r);
      ElementsConcat([n], InOrder(r));
      ElementsConcat([n] + InOrder(r), After(up));
      assert Elements([n]) == {n} by { assert [n][0] == n; }
    case InRight(up, l, n) =>
      OutsideNodes(up);
      InOrderNodes(l);
      ElementsConcat(Before(up), InOrder(l));
      ElementsConcat(Before(up) + InOrder(l), [n]);
      assert Elements([n]) == {n} by { assert [n][0] == n; }
  }

  // ---------------------------------------------------------------- down

  /** The first node of the subtree at child. */
  method GoLeft(start: Links, ghost c: Context, ghost t: Tree) returns (child: Links)
    requires Rooted(Plug(c, t)) && t.Node? && t.link == start
    ensures child == First(InOrder(t))
  {
    child := start;
    ghost var d, u := c, t;
    ParentHolds(d, u);
    while child.left != null
      invariant u.Node? && child == u.link && child.left == Root(u.left)
      invariant Plug(d, u) == Plug(c, t) && Rooted(Plug(d, u))
      invariant First(InOrder(u)) == First(InOrder(t))
      decreases u
    {
      assert Plug(InLeft(d, u.link, u.right), u.left) == Plug(d, u);
      assert InOrder(u)[0] == InOrder(u.left)[0];
      d, u := InLeft(d, u.link, u.right), u.left;
      child := child.left;
      ParentHolds(d, u);
    }
  }

  /** The last node of the subtree at child. */
  method GoRight(start: Links, ghost c: Context, ghost t: Tree) returns (child: Links)
    requires Rooted(Plug(c, t)) && t.Node? && t.link == start
    ensures child == Last(InOrder(t))
  {
    child := start;
    ghost var d, u := c, t;
    ParentHolds(d, u);
    while child.right != null
      invariant u.Node? && child == u.link && child.right == Root(u.right)
      invariant Plug(d, u) == Plug(c, t) && Rooted(Plug(d, u))
      invariant Last(InOrder(u)) == Last(InOrder(t))
      decreases u
    {
      assert Plug(InRight(d, u.left, u.link), u.right) == Plug(d, u);
      assert Last(InOrder(u)) == Last(InOrder(u.right));
      d, u := InRight(d, u.left, u.link), u.right;
      child := child.right;
      ParentHolds(d, u);
    }
  }

  // ---------------------------------------------------------------- neighbours

  method RtlRealSuccessor(links: Links, ghost w: Tree) returns (next: Links?)
    requires Rooted(w) && links in Nodes(w)
    ensures next == NextIn(InOrder(w), links)
  {
    ghost var c, t := Locate(Top, w, links).0, Locate(Top, w, links).1;
    NeighboursInOrder(c, t);
    ParentHolds(c, t);
    if links.right != null {
      next := GoLeft(links.right, InRight(c, t.left, t.link), t.right);
      return;
    }
    var child := links;
    Tests(c, t);
    ghost var d, u := c, t;
    while IsRightChild(child)
      invariant u.Node? && child == u.link && child.parent != null
      invariant Rooted(Plug(d, u)) && Plug(d, u) == w && After(d) == After(c)
      invariant (IsRightChild(child) <==> d.InRight?) && (IsLeftChild(child) <==> d.InLeft?)
      invariant child.parent == Owner(d, child)
      decreases d
    {
      child := child.parent;
      d, u := d.up, Zip(d, u);
      Tests(d, u);
      ParentHolds(d, u);
    }
    if IsLeftChild(child) {
      return child.parent;
    }
    return null;
  }

  method RtlRealPredecessor(links: Links, ghost w: Tree) returns (previous: Links?)
    requires Rooted(w) && links in Nodes(w)
    ensures previous == PreviousIn(InOrder(w), links)
  {
    ghost var c, t := Locate(Top, w, links).0, Locate(Top, w, links).1;
    NeighboursInOrder(c, t);
    ParentHolds(c, t);
    if links.left != null {
      previous := GoRight(links.left, InLeft(c, t.link, t.right), t.left);
      return;
    }
    var child := links;
    Tests(c, t);
    ghost var d, u := c, t;
    while IsLeftChild(child)
      invariant u.Node? && child == u.link && child.parent != null
      invariant Rooted(Plug(d, u)) && Plug(d, u) == w && Before(d) == Before(c)
      invariant (IsRightChild(child) <==> d.InRight?) && (IsLeftChild(child) <==> d.InLeft?)
      invariant child.parent == Owner(d, child)
      decreases d
    {
      child := child.parent;
      d, u := d.up, Zip(d, u);
      Tests(d, u);
      ParentHolds(d, u);
    }
    if IsRightChild(child) {
      return child.parent;
    }
    return null;
  }
}
