/** Heights and balance factors of trees, and what a rebalancing step does to them. */
module AvlShape {
  import opened LinkTrees

  ghost function Max(x: nat, y: nat): nat {
    if x < y then y else x
  }

  ghost function Height(t: Tree): nat {
    match t
    case Leaf => 0
    case Node(l, n, r) => 1 + Max(Height(l), Height(r))
  }

  /** How much higher the right subtree of t is than its left one. */
  ghost function Tilt(t: Tree): int {
    if t.Leaf? then 0 else Height(t.right) - Height(t.left)
  }

  /** The balance factor node x must hold in t. */
  ghost function TiltOf(t: Tree, x: Links): int {
    match t
    case Leaf => 0
    case Node(l, n, r) =>
      if x == n then Tilt(t)
      else if x in Nodes(l) then TiltOf(l, x)
      else TiltOf(r, x)
  }

  ghost predicate Avl(t: Tree) {
    match t
    case Leaf => true
    case Node(l, n, r) => -1 <= Tilt(t) <= 1 && Avl(l) && Avl(r)
  }

  /** The height of Zip(c, t), for a t of height h. */
  ghost function ZipHeight(c: Context, h: nat): nat
    requires !c.Top?
  {
    1 + Max(h, Height(Sibling(c)))
  }

  /** The balance factor of the node above the hole, with a subtree of height h in the hole. */
  ghost function ZipTilt(c: Context, h: nat): int
    requires !c.Top?
  {
    if c.InLeft? then Height(c.right) - h else h - Height(c.left)
  }

  /** The balance factor node x of c must hold, with a subtree of height h in the hole. */
  ghost function ContextTilt(c: Context, h: nat, x: Links): int
    decreases c
  {
    match c
    case Top => 0
    case InLeft(up, n, r) =>
      if x == n then Height(r) - h
      else if x in Nodes(r) then TiltOf(r, x)
      else ContextTilt(up, 1 + Max(h, Height(r)), x)
    case InRight(up, l, n) =>
      if x == n then h - Height(l)
      else if x in Nodes(l) then TiltOf(l, x)
      else ContextTilt(up, 1 + Max(Height(l), h), x)
  }

  /** All of c but its root is in balance, with a subtree of height h in the hole. The root is
      the table's own node, which takes no part. */
  ghost predicate AvlContext(c: Context, h: nat)
    decreases c
  {
    c.Top? || c.up.Top? || (-1 <= ZipTilt(c, h) <= 1 && Avl(Sibling(c)) && AvlContext(c.up, ZipHeight(c, h)))
  }

  /** The height of the right subtree of the root, with a subtree of height h in the hole. */
  ghost function RootHeight(c: Context, h: nat): nat
    decreases c
  {
    if c.Top? || c.up.Top? then h else RootHeight(c.up, ZipHeight(c, h))
  }

  /** One level of a context, seen from outside it. */
  lemma ZipTilts(c: Context, t: Tree, x: Links)
    requires Distinct(Plug(c, t)) && !c.Top?
    ensures Distinct(Plug(c.up, Zip(c, t))) && Height(Zip(c, t)) == ZipHeight(c, Height(t))
    ensures x in Nodes(t) ==> x in Nodes(Zip(c, t)) && TiltOf(Zip(c, t), x) == TiltOf(t, x)
    ensures x !in Nodes(t) && x in Nodes(Zip(c, t)) ==> TiltOf(Zip(c, t), x) == ContextTilt(c, Height(t), x)
    ensures x !in Nodes(Zip(c, t)) ==> ContextTilt(c, Height(t), x) == ContextTilt(c.up, ZipHeight(c, Height(t)), x)
  {
    PlugDistinct(c.up, Zip(c, t));
    if c.InLeft? {
      ZipTiltsLeft(c, t, x);
    } else {
      ZipTiltsRight(c, t, x);
    }
  }

  lemma ZipTiltsLeft(c: Context, t: Tree, x: Links)
    requires c.InLeft? && Distinct(Node(t, c.link, c.right))
    ensures var u := Node(t, c.link, c.right);
      && (x in Nodes(t) ==> x in Nodes(u) && TiltOf(u, x) == TiltOf(t, x))
      && (x !in Nodes(t) && x in Nodes(u) ==> TiltOf(u, x) == ContextTilt(c, Height(t), x))
      && (x !in Nodes(u) ==> ContextTilt(c, Height(t), x) == ContextTilt(c.up, ZipHeight(c, Height(t)), x))
  {
    NodeTilt(t, c.link, c.right, x);
  }

  lemma ZipTiltsRight(c: Context, t: Tree, x: Links)
    requires c.InRight? && Distinct(Node(c.left, c.link, t))
    ensures var u := Node(c.left, c.link, t);
      && (x in Nodes(t) ==> x in Nodes(u) && TiltOf(u, x) == TiltOf(t, x))
      && (x !in Nodes(t) && x in Nodes(u) ==> TiltOf(u, x) == ContextTilt(c, Height(t), x))
      && (x !in Nodes(u) ==> ContextTilt(c, Height(t), x) == ContextTilt(c.up, ZipHeight(c, Height(t)), x))
  {
    NodeTilt(c.left, c.link, t, x);
  }

  lemma {:induction false} PlugTilt(c: Context, t: Tree, x: Links)
    requires Distinct(Plug(c, t))
    ensures TiltOf(Plug(c, t), x) == if x in Nodes(t) then TiltOf(t, x) else ContextTilt(c, Height(t), x)
    decreases c
  {
    if c.Top? {
      if x !in Nodes(t) {
        TiltOutside(t, x);
      }
    } else {
      ZipTilts(c, t, x);
      PlugTilt(c.up, Zip(c, t), x);
    }
  }

  lemma NodeTilt(l: Tree, n: Links, r: Tree, x: Links)
    requires Distinct(Node(l, n, r))
    ensures Height(Node(l, n, r)) == 1 + Max(Height(l), Height(r))
    ensures x == n ==> TiltOf(Node(l, n, r), x) == Height(r) - Height(l)
    ensures x in Nodes(l) ==> TiltOf(Node(l, n, r), x) == TiltOf(l, x)
    ensures x in Nodes(r) ==> TiltOf(Node(l, n, r), x) == TiltOf(r, x)
  {
  }

  lemma TiltOutside(t: Tree, x: Links)
    requires x !in Nodes(t)
    ensures TiltOf(t, x) == 0
  {
  }

  // ---------------------------------------------------------------- rebalancing

  /** One side is two higher than the other; both are in balance. */
  ghost predicate Lopsided(t: Tree) {
    t.Node? && (Tilt(t) == 2 || Tilt(t) == -2) && Avl(t.left) && Avl(t.right)
  }

  /** The single or double rotation that rebalancing performs. */
  ghost function Rebalanced(t: Tree): (t': Tree)
    requires Lopsided(t)
  {
    if Tilt(t) == 2 then
      var r := t.right;
      if Tilt(r) == -1 then
        Node(Node(t.left, t.link, r.left.left), r.left.link, Node(r.left.right, r.link, r.right))
      else
        Node(Node(t.left, t.link, r.left), r.link, r.right)
    else
      var l := t.left;
      if Tilt(l) == 1 then
        Node(Node(l.left, l.link, l.right.left), l.right.link, Node(l.right.right, t.link, t.right))
      else
        Node(l.left, l.link, Node(l.right, t.link, t.right))
  }

  /** The child on the higher side. */
  ghost function HighChild(t: Tree): Tree
    requires Lopsided(t)
  {
    if Tilt(t) == 2 then t.right else t.left
  }

  /** A rebalanced tree is in balance, and is as high as before if the higher child was level,
      one lower otherwise. */
  lemma RebalancedIsAvl(t: Tree)
    requires Lopsided(t)
    ensures Avl(Rebalanced(t))
    ensures Height(Rebalanced(t)) == if Tilt(HighChild(t)) == 0 then Height(t) else Height(t) - 1
  {
    if Tilt(t) == 2 {
      RightHighIsAvl(t);
    } else {
      LeftHighIsAvl(t);
    }
  }

  lemma RightHighIsAvl(t: Tree)
    requires Lopsided(t) && Tilt(t) == 2
    ensures Avl(Rebalanced(t))
    ensures Height(Rebalanced(t)) == if Tilt(t.right) == 0 then Height(t) else Height(t) - 1
  {
    var h := t.right;
    assert Avl(h);
    if Tilt(h) == -1 {
      assert Avl(h.left);
      TwoAreAvl(t.left, t.link, h.left.left);
      TwoAreAvl(h.left.right, h.link, h.right);
    } else {
      TwoAreAvl(t.left, t.link, h.left);
    }
  }

  lemma LeftHighIsAvl(t: Tree)
    requires Lopsided(t) && Tilt(t) == -2
    ensures Avl(Rebalanced(t))
    ensures Height(Rebalanced(t)) == if Tilt(t.left) == 0 then Height(t) else Height(t) - 1
  {
    var h := t.left;
    assert Avl(h);
    if Tilt(h) == 1 {
      assert Avl(h.right);
      TwoAreAvl(h.left, h.link, h.right.left);
      TwoAreAvl(h.right.right, t.link, t.right);
    } else {
      TwoAreAvl(h.right, t.link, t.right);
    }
  }

  lemma TwoAreAvl(l: Tree, n: Links, r: Tree)
    requires Avl(l) && Avl(r) && -1 <= Height(r) - Height(l) <= 1
    ensures Avl(Node(l, n, r)) && Height(Node(l, n, r)) == 1 + Max(Height(l), Height(r))
  {
  }

  lemma RebalancedOrder(t: Tree)
    requires Lopsided(t)
    ensures InOrder(Rebalanced(t)) == InOrder(t)
  {
    if Tilt(t) == 2 {
      var r := t.right;
      if Tilt(r) == -1 {
        RotateOrder(InRight(Top, t.left, t.link), r.left.left, r.left.link, r.left.right, r.link, r.right);
        RotateOrder(Top, t.left, t.link, r.left.left, r.left.link, Node(r.left.right, r.link, r.right));
      } else {
        RotateOrder(Top, t.left, t.link, r.left, r.link, r.right);
      }
    } else {
      var l := t.left;
      if Tilt(l) == 1 {
        RotateOrder(InLeft(Top, t.link, t.right), l.left, l.link, l.right.left, l.right.link, l.right.right);
        RotateOrder(Top, Node(l.left, l.link, l.right.left), l.right.link, l.right.right, t.link, t.right);
      } else {
        RotateOrder(Top, l.left, l.link, l.right, t.link, t.right);
      }
    }
  }

  // ---------------------------------------------------------------- size

  ghost function Fib(n: nat): nat {
    if n < 2 then n else Fib(n - 1) + Fib(n - 2)
  }

  /** A tree in balance has at least Fib(height + 2) - 1 nodes. */
  lemma {:induction false} AvlSize(t: Tree)
    requires Avl(t)
    ensures |InOrder(t)| >= Fib(Height(t) + 2) - 1
  {
    match t
    case Leaf =>
    case Node(l, n, r) =>
      AvlSize(l);
      AvlSize(r);
      FibMonotone(Height(l) + 2, Height(r) + 2);
      FibMonotone(Height(r) + 2, Height(l) + 2);
  }

  lemma {:induction false} FibMonotone(m: nat, n: nat)
    requires m <= n + 1 && n <= m + 1
    ensures m <= n ==> Fib(m) <= Fib(n)
  {
  }

  /** From the 48th on, Fibonacci numbers do not fit 32 bits. */
  lemma {:induction false} FibPastWord(n: nat)
    requires n >= 48
    ensures Fib(n) > 0xffff_ffff
  {
    if n > 48 {
      FibPastWord(n - 1);
    } else {
      hide Fib;
      Fib24();
      FibSum(n - 24, n - 25);
    }
  }

  lemma Fib24()
    ensures Fib(23) == 28657 && Fib(24) == 46368 && Fib(25) == 75025
  {
    assert Fib(11) == 89 && Fib(12) == 144 && Fib(13) == 233;
    FibSum(11, 11);
    FibSum(12, 11);
  }

  lemma {:induction false} FibSum(m: nat, n: nat)
    ensures Fib(m + n + 1) == Fib(m + 1) * Fib(n + 1) + Fib(m) * Fib(n)
    decreases n
  {
    if n > 0 {
      FibSum(m + 1, n - 1);
      assert Fib(m + 2) == Fib(m + 1) + Fib(m) && Fib(n + 1) == Fib(n) + Fib(n - 1);
      hide Fib;
      Multiplied(Fib(m + 1), Fib(m), Fib(n), Fib(n - 1));
    }
  }

  lemma Multiplied(a: nat, b: nat, c: nat, d: nat)
    ensures (a + b) * c + a * d == a * (c + d) + b * c
  {
  }
}
