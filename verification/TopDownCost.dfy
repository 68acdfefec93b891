/** The amortised cost of the top-down splay: any run of searches takes logarithmically many rounds
    each, on average, whatever the compare routine answers. */
module TopDownCost {
  import opened LinkTrees
  import Searching
  import opened SplayCost
  import opened TopDownSplay

  type Order = Searching.Order

  /** How much more potential the parts have than the tree, less twice its rank. */
  ghost function Gain(t: Tree, l: Tree, r: Tree): int {
    Potential(l) + Potential(r) - Potential(t) - 2 * Rank(t)
  }

  ghost predicate Halves(t: Tree, l: Tree, r: Tree) {
    Size(l) + 1 + Size(r) == Size(t)
  }

  // ---------------------------------------------------------------- single rounds

  /** The end of the way. */
  lemma NothingGained(l: Tree, n: Links, r: Tree)
    ensures Gain(Node(l, n, r), l, r) <= 0 && Halves(Node(l, n, r), l, r)
  {
  }

  lemma EndsTurnedRight(b: Tree, n: Links, p: Links, d: Tree)
    ensures Gain(Node(Node(Leaf, n, b), p, d), Leaf, Node(b, p, d)) <= 0
  {
    var t, u := Node(Node(Leaf, n, b), p, d), Node(b, p, d);
    Log2Monotone(Size(u), Size(t));
    assert Potential(Node(Leaf, n, b)) == Rank(Node(Leaf, n, b)) + Potential(b);
  }

  lemma EndsTurnedLeft(a: Tree, p: Links, b: Tree, n: Links)
    ensures Gain(Node(a, p, Node(b, n, Leaf)), Node(a, p, b), Leaf) <= 0
  {
    var t, u := Node(a, p, Node(b, n, Leaf)), Node(a, p, b);
    Log2Monotone(Size(u), Size(t));
    assert Potential(Node(b, n, Leaf)) == Potential(b) + Rank(Node(b, n, Leaf));
  }

  /** One step down gains nothing. */
  lemma StepRightGains(m: Tree, l: Tree, r: Tree, n: Links, d: Tree)
    requires Halves(m, l, r)
    ensures Gain(Node(m, n, d), l, Node(r, n, d)) <= Gain(m, l, r) && Halves(Node(m, n, d), l, Node(r, n, d))
  {
    Log2Monotone(Size(m), Size(Node(m, n, d)));
    Log2Monotone(Size(Node(r, n, d)), Size(Node(m, n, d)));
  }

  lemma StepLeftGains(m: Tree, l: Tree, r: Tree, a: Tree, n: Links)
    requires Halves(m, l, r)
    ensures Gain(Node(a, n, m), Node(a, n, l), r) <= Gain(m, l, r) && Halves(Node(a, n, m), Node(a, n, l), r)
  {
    Log2Monotone(Size(m), Size(Node(a, n, m)));
    Log2Monotone(Size(Node(a, n, l)), Size(Node(a, n, m)));
  }

  // ---------------------------------------------------------------- rounds that pay

  /** Of two parts of a whole one has a lower rank than the whole; that pays. */
  lemma RanksPay(m: nat, q: nat, w: nat, y: nat, z: nat)
    requires m <= q <= w && y <= w && z <= w && (m < w || y < w || z < w)
    ensures y + z - q - w - 2 * w <= -2 * m - 1
  {
  }

  /** Two steps to the left: the tree is turned. */
  lemma TwoLeftPay(m: Tree, l: Tree, r: Tree, n: Links, b: Tree, p: Links, d: Tree)
    requires m.Node? && Halves(m, l, r)
    ensures var t, r' := Node(Node(m, n, b), p, d), Node(r, n, Node(b, p, d));
      Gain(t, l, r') <= Gain(m, l, r) - 1 && Halves(t, l, r')
  {
    var q := Node(m, n, b);
    var t, z := Node(q, p, d), Node(b, p, d);
    var y := Node(r, n, z);
    assert Potential(t) == Potential(m) + Rank(q) + Potential(b) + Rank(t) + Potential(d);
    assert Potential(y) == Potential(r) + Rank(y) + Potential(b) + Rank(z) + Potential(d);
    OnePartIsLower(Size(m), Size(z), Size(t));
    Monotone3(m, q, t, y);
    RanksPay(Rank(m), Rank(q), Rank(t), Rank(y), Rank(z));
  }

  lemma TwoRightPay(m: Tree, l: Tree, r: Tree, a: Tree, p: Links, b: Tree, n: Links)
    requires m.Node? && Halves(m, l, r)
    ensures var t, l' := Node(a, p, Node(b, n, m)), Node(Node(a, p, b), n, l);
      Gain(t, l', r) <= Gain(m, l, r) - 1 && Halves(t, l', r)
  {
    var q := Node(b, n, m);
    var t, z := Node(a, p, q), Node(a, p, b);
    var y := Node(z, n, l);
    assert Potential(t) == Potential(a) + Rank(t) + Potential(b) + Rank(q) + Potential(m);
    assert Potential(y) == Potential(a) + Rank(z) + Potential(b) + Rank(y) + Potential(l);
    OnePartIsLower(Size(m), Size(z), Size(t));
    Monotone3(m, q, t, y);
    RanksPay(Rank(m), Rank(q), Rank(t), Rank(y), Rank(z));
  }

  /** A step to the left, then one to the right. */
  lemma LeftRightPay(m: Tree, l: Tree, r: Tree, a: Tree, n: Links, p: Links, d: Tree)
    requires m.Node? && Halves(m, l, r)
    ensures var t, l', r' := Node(Node(a, n, m), p, d), Node(a, n, l), Node(r, p, d);
      Gain(t, l', r') <= Gain(m, l, r) - 1 && Halves(t, l', r')
  {
    var q := Node(a, n, m);
    var t, y, z := Node(q, p, d), Node(a, n, l), Node(r, p, d);
    assert Potential(t) == Potential(a) + Rank(q) + Potential(m) + Rank(t) + Potential(d);
    OnePartIsLower(Size(y), Size(z), Size(t));
    Monotone3(m, q, t, y);
    RanksPay(Rank(m), Rank(q), Rank(t), Rank(y), Rank(z));
  }

  lemma RightLeftPay(m: Tree, l: Tree, r: Tree, a: Tree, p: Links, n: Links, d: Tree)
    requires m.Node? && Halves(m, l, r)
    ensures var t, l', r' := Node(a, p, Node(m, n, d)), Node(a, p, l), Node(r, n, d);
      Gain(t, l', r') <= Gain(m, l, r) - 1 && Halves(t, l', r')
  {
    var q := Node(m, n, d);
    var t, y, z := Node(a, p, q), Node(a, p, l), Node(r, n, d);
    assert Potential(t) == Potential(a) + Rank(t) + Potential(m) + Rank(q) + Potential(d);
    OnePartIsLower(Size(y), Size(z), Size(t));
    Monotone3(m, q, t, y);
    RanksPay(Rank(m), Rank(q), Rank(t), Rank(y), Rank(z));
  }

  // ---------------------------------------------------------------- the whole way

  /** The rounds from t on are paid for by twice the potential they release, up to the last two. */
  ghost predicate Paid(t: Tree, p: Parts) {
    Halves(t, p.left, p.right) && p.rounds + 2 * Gain(t, p.left, p.right) <= 2
  }

  /** After a step to the left without a turn, the next cannot be to the left. */
  lemma AfterLeft(compare: (int, int) -> Order, item: int, t: Tree)
    requires t.Node? && compare(item, t.link.userData).Less? && t.left.Node?
    requires !compare(item, t.left.link.userData).Less?
    requires t.left.right.Node? && compare(item, t.left.link.userData).Greater? ==>
      Paid(t.left.right, Parted(compare, item, t.left.right))
    requires t.left.right.Node? && t.left.right.right.Node? && compare(item, t.left.link.userData).Greater? ==>
      Paid(t.left.right.right, Parted(compare, item, t.left.right.right))
    ensures Paid(t, Parted(compare, item, t))
  {
    var q, n, d := t.left, t.link, t.right;
    if compare(item, q.link.userData).Equal? || q.right.Leaf? {
      NothingGained(q.left, q.link, q.right);
      StepRightGains(q, q.left, q.right, n, d);
    } else if !compare(item, q.right.link.userData).Greater? {
      var m := q.right;
      var o := Parted(compare, item, m);
      LeftRightPay(m, o.left, o.right, q.left, q.link, n, d);
    } else if q.right.right.Leaf? {
      EndsTurnedLeft(q.left, q.link, q.right.left, q.right.link);
      StepRightGains(q, Node(q.left, q.link, q.right.left), Leaf, n, d);
    } else {
      var m := q.right.right;
      var o := Parted(compare, item, m);
      TwoRightPay(m, o.left, o.right, q.left, q.link, q.right.left, q.right.link);
      StepRightGains(q, Node(Node(q.left, q.link, q.right.left), q.right.link, o.left), o.right, n, d);
    }
  }

  lemma AfterRight(compare: (int, int) -> Order, item: int, t: Tree)
    requires t.Node? && compare(item, t.link.userData).Greater? && t.right.Node?
    requires !compare(item, t.right.link.userData).Greater?
    requires t.right.left.Node? && compare(item, t.right.link.userData).Less? ==>
      Paid(t.right.left, Parted(compare, item, t.right.left))
    requires t.right.left.Node? && t.right.left.left.Node? && compare(item, t.right.link.userData).Less? ==>
      Paid(t.right.left.left, Parted(compare, item, t.right.left.left))
    ensures Paid(t, Parted(compare, item, t))
  {
    var a, n, q := t.left, t.link, t.right;
    if compare(item, q.link.userData).Equal? || q.left.Leaf? {
      NothingGained(q.left, q.link, q.right);
      StepLeftGains(q, q.left, q.right, a, n);
    } else if !compare(item, q.left.link.userData).Less? {
      var m := q.left;
      var o := Parted(compare, item, m);
      RightLeftPay(m, o.left, o.right, a, n, q.link, q.right);
    } else if q.left.left.Leaf? {
      EndsTurnedRight(q.left.right, q.left.link, q.link, q.right);
      StepLeftGains(q, Leaf, Node(q.left.right, q.link, q.right), a, n);
    } else {
      var m := q.left.left;
      var o := Parted(compare, item, m);
      TwoLeftPay(m, o.left, o.right, q.left.link, q.left.right, q.link, q.right);
      StepLeftGains(q, o.left, Node(o.right, q.left.link, Node(q.left.right, q.link, q.right)), a, n);
    }
  }

  lemma {:induction false} WayPays(compare: (int, int) -> Order, item: int, t: Tree)
    requires t.Node?
    ensures Paid(t, Parted(compare, item, t))
    decreases t
  {
    match compare(item, t.link.userData)
    case Equal => NothingGained(t.left, t.link, t.right);
    case Less =>
      if t.left.Leaf? {
        NothingGained(t.left, t.link, t.right);
      } else if !compare(item, t.left.link.userData).Less? {
        if t.left.right.Node? {
          WayPays(compare, item, t.left.right);
          if t.left.right.right.Node? {
            WayPays(compare, item, t.left.right.right);
          }
        }
        AfterLeft(compare, item, t);
      } else if t.left.left.Leaf? {
        EndsTurnedRight(t.left.right, t.left.link, t.link, t.right);
      } else {
        var m := t.left.left;
        WayPays(compare, item, m);
        var o := Parted(compare, item, m);
        TwoLeftPay(m, o.left, o.right, t.left.link, t.left.right, t.link, t.right);
      }
    case Greater =>
      if t.right.Leaf? {
        NothingGained(t.left, t.link, t.right);
      } else if !compare(item, t.right.link.userData).Greater? {
        if t.right.left.Node? {
          WayPays(compare, item, t.right.left);
          if t.right.left.left.Node? {
            WayPays(compare, item, t.right.left.left);
          }
        }
        AfterRight(compare, item, t);
      } else if t.right.right.Leaf? {
        EndsTurnedLeft(t.left, t.link, t.right.left, t.right.link);
      } else {
        var m := t.right.right;
        WayPays(compare, item, m);
        var o := Parted(compare, item, m);
        TwoRightPay(m, o.left, o.right, t.left, t.link, t.right.left, t.right.link);
      }
  }

  /** Rounds plus twice the potential they build up are logarithmic in the tree's size. */
  lemma TopDownAccess(compare: (int, int) -> Order, item: int, t: Tree)
    requires t.Node?
    ensures Size(TopSplayed(compare, item, t)) == Size(t)
    ensures Parted(compare, item, t).rounds + 2 * (Potential(TopSplayed(compare, item, t)) - Potential(t))
         <= 6 * Rank(t) + 2
  {
    WayPays(compare, item, t);
  }

  // ---------------------------------------------------------------- the operations of a table

  /** The rounds that lead from t to t' are paid for by k and twice the potential they release. */
  ghost predicate PaidFor(t: Tree, t': Tree, rounds: nat, k: nat) {
    rounds + 2 * Potential(t') <= 2 * Potential(t) + k
  }

  /** What one splay costs. */
  ghost predicate SplayPaid(t: Tree, t': Tree, rounds: nat) {
    Size(t') == Size(t) && PaidFor(t, t', rounds, 6 * Rank(t) + 2)
  }

  /** What taking out a root costs. */
  ghost predicate CutPaid(t: Tree, t': Tree, rounds: nat) {
    Size(t') + 1 == Size(t) && PaidFor(t, t', rounds, 6 * Rank(t) + 2)
  }

  lemma SplayPays(compare: (int, int) -> Order, item: int, t: Tree)
    requires t.Node?
    ensures SplayPaid(t, TopSplayed(compare, item, t), Parted(compare, item, t).rounds)
  {
    TopDownAccess(compare, item, t);
  }

  /** A new root raises the potential by no more than its own rank. */
  lemma RerootedPotential(t: Tree, n: Links, before: bool)
    ensures Size(Rerooted(t, n, before)) == Size(t) + 1
    ensures Potential(Rerooted(t, n, before)) <= Potential(t) + Log2(Size(t) + 1)
  {
    if t.Leaf? {
      assert Potential(Node(Leaf, n, Leaf)) == Log2(1);
    } else if before {
      var low := Node(Leaf, t.link, t.right);
      assert Size(low) == 1 + Size(t.right);
      Log2Monotone(Size(low), Size(t));
      assert Potential(low) == Rank(low) + Potential(t.right);
    } else {
      var low := Node(t.left, t.link, Leaf);
      assert Size(low) == Size(t.left) + 1;
      Log2Monotone(Size(low), Size(t));
      assert Potential(low) == Potential(t.left) + Rank(low);
    }
  }

  /** An insertion: a splay, and a new root. */
  lemma InsertionPays(t: Tree, t1: Tree, n: Links, before: bool, rounds: nat)
    requires SplayPaid(t, t1, rounds)
    ensures Size(Rerooted(t1, n, before)) == Size(t) + 1
    ensures PaidFor(t, Rerooted(t1, n, before), rounds, 8 * Log2(Size(t) + 1) + 2)
  {
    RerootedPotential(t1, n, before);
    Log2Monotone(Size(t), Size(t) + 1);
  }

  /** What is left of a tree whose root is taken out: the greatest of the left side, brought to its
      root by a splay, takes the right side. */
  lemma JoiningPays(l: Tree, n: Links, r: Tree, l': Tree, rounds: nat)
    requires l'.Node? && l'.right.Leaf? && SplayPaid(l, l', rounds)
    ensures CutPaid(Node(l, n, r), Node(l'.left, l'.link, r), rounds)
  {
    var t, t' := Node(l, n, r), Node(l'.left, l'.link, r);
    assert Size(l'.right) == 0 && Potential(l'.right) == 0;
    assert Size(l') == Size(l'.left) + 1 && Size(t') == Size(l'.left) + 1 + Size(r);
    Log2Monotone(Size(l), Size(t));
    Log2Monotone(Size(t'), Size(t));
    assert Potential(l') == Potential(l'.left) + Rank(l');
  }

  /** The right side alone. */
  lemma RightSidePays(n: Links, r: Tree)
    ensures CutPaid(Node(Leaf, n, r), r, 0)
  {
  }

  /** A deletion: a splay, and the root taken out. */
  lemma DeletionPays(t: Tree, t1: Tree, t': Tree, first: nat, second: nat)
    requires SplayPaid(t, t1, first) && CutPaid(t1, t', second)
    ensures Size(t') + 1 == Size(t) && PaidFor(t, t', first + second, 12 * Rank(t) + 4)
  {
  }

  // ---------------------------------------------------------------- runs of searches

  lemma {:induction false} PartedNodes(compare: (int, int) -> Order, item: int, t: Tree)
    requires t.Node?
    ensures Nodes(TopSplayed(compare, item, t)) == Nodes(t)
    decreases t
  {
    match compare(item, t.link.userData)
    case Equal =>
    case Less =>
      var u := LeftTurned(compare, item, t);
      assert Nodes(u) == Nodes(t);
      if u.left.Node? {
        PartedNodes(compare, item, u.left);
      }
    case Greater =>
      var u := RightTurned(compare, item, t);
      assert Nodes(u) == Nodes(t);
      if u.right.Node? {
        PartedNodes(compare, item, u.right);
      }
  }

  /** The tree after searches for the items in turn, and the rounds they take in all. */
  ghost function Searches(compare: (int, int) -> Order, items: seq<int>, w: Tree): (r: (Tree, nat))
    requires w.Node?
    reads Nodes(w)`userData
    decreases |items|
  {
    if items == [] then (w, 0)
    else
      PartedNodes(compare, items[0], w);
      var r := Searches(compare, items[1..], TopSplayed(compare, items[0], w));
      (r.0, Parted(compare, items[0], w).rounds + r.1)
  }

  lemma {:induction false} SearchesPay(compare: (int, int) -> Order, items: seq<int>, w: Tree)
    requires w.Node?
    ensures var r := Searches(compare, items, w);
      r.1 + 2 * Potential(r.0) <= |items| * (6 * Rank(w) + 2) + 2 * Potential(w)
    decreases |items|
  {
    if items != [] {
      var w' := TopSplayed(compare, items[0], w);
      TopDownAccess(compare, items[0], w);
      SearchesPay(compare, items[1..], w');
      assert |items| * (6 * Rank(w) + 2) == (|items| - 1) * (6 * Rank(w) + 2) + (6 * Rank(w) + 2);
    }
  }

  /** Any m searches for any items in any tree of n nodes take at most m (6 log n + 2) + 2 n log n
      rounds. */
  lemma TopDownBound(compare: (int, int) -> Order, items: seq<int>, w: Tree)
    requires w.Node?
    ensures Searches(compare, items, w).1 <= |items| * (6 * Log2(Size(w)) + 2) + 2 * (Size(w) * Log2(Size(w)))
  {
    SearchesPay(compare, items, w);
    PotentialBound(w, Rank(w));
  }
}
