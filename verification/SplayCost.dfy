/** The amortised cost of RtlSplay: any run of splays takes logarithmically many rounds each, on
    average. Ranks are whole-number logarithms of subtree sizes. */
module SplayCost {
  import opened LinkTrees
  import opened Splay

  ghost function Size(t: Tree): nat {
    match t
    case Leaf => 0
    case Node(l, n, r) => Size(l) + 1 + Size(r)
  }

  /** The logarithm to base two, rounded down. */
  ghost function Log2(n: nat): nat {
    if n <= 1 then 0 else 1 + Log2(n / 2)
  }

  ghost function Rank(t: Tree): nat {
    Log2(Size(t))
  }

  /** The sum of the ranks of all subtrees. */
  ghost function Potential(t: Tree): nat {
    match t
    case Leaf => 0
    case Node(l, n, r) => Potential(l) + Rank(t) + Potential(r)
  }

  lemma {:induction false} Log2Monotone(m: nat, n: nat)
    requires m <= n
    ensures Log2(m) <= Log2(n)
    decreases n
  {
    if m > 1 {
      Log2Monotone(m / 2, n / 2);
    }
  }

  /** Two numbers of equal rank have a sum of higher rank. */
  lemma {:induction false} Log2Sum(m: nat, n: nat)
    requires 1 <= m && 1 <= n && Log2(m) == Log2(n)
    ensures Log2(m + n) > Log2(m)
    decreases m
  {
    if m > 1 && n > 1 {
      Log2Sum(m / 2, n / 2);
      Log2Monotone(m / 2 + n / 2, (m + n) / 2);
    }
  }

  lemma {:induction false} SizeIsLength(t: Tree)
    ensures Size(t) == |InOrder(t)|
  {
    match t
    case Leaf =>
    case Node(l, n, r) =>
      SizeIsLength(l);
      SizeIsLength(r);
  }

  /** Replacing a subtree by one of the same size changes the potential by the difference. */
  lemma {:induction false} PlugPotential(c: Context, t: Tree, t': Tree)
    requires Size(t) == Size(t')
    ensures Potential(Plug(c, t')) - Potential(Plug(c, t)) == Potential(t') - Potential(t)
    decreases c
  {
    match c
    case Top =>
    case InLeft(up, n, r) => PlugPotential(up, Node(t, n, r), Node(t', n, r));
    case InRight(up, l, n) => PlugPotential(up, Node(l, n, t), Node(l, n, t'));
  }

  /** The tree the round rotates: two levels, or one under the root. */
  ghost function Rotated(c: Context, t: Tree): Tree
    requires !c.Top?
  {
    if c.up.Top? then Zip(c, t) else Zip(c.up, Zip(c, t))
  }

  /** Of two parts of a whole, one has a lower rank. */
  lemma OnePartIsLower(m: nat, n: nat, w: nat)
    requires 1 <= m && 1 <= n && m + n <= w
    ensures Log2(m) < Log2(w) || Log2(n) < Log2(w)
    ensures Log2(m) <= Log2(w) && Log2(n) <= Log2(w)
  {
    Log2Monotone(m, w);
    Log2Monotone(n, w);
    if Log2(m) == Log2(n) {
      Log2Sum(m, n);
      Log2Monotone(m + n, w);
    }
  }

  /** A rotation lifts rank x to rank w. If x was below w, the gain pays for the round and for
      the new subtrees y and z; if not, one of them has a lower rank than p, and that pays. */
  lemma RankGainPays(x: nat, p: nat, w: nat, y: nat, z: nat)
    requires x <= p <= w && y <= w && z <= w && (x < w || y < w || z < w)
    ensures 1 + y + z - x - p <= 3 * (w - x)
  {
  }

  lemma Monotone3(t: Tree, p: Tree, w: Tree, y: Tree)
    requires Size(t) <= Size(p) <= Size(w) && Size(y) <= Size(w)
    ensures Rank(t) <= Rank(p) <= Rank(w) && Rank(y) <= Rank(w)
  {
    Log2Monotone(Size(t), Size(p));
    Log2Monotone(Size(p), Size(w));
    Log2Monotone(Size(y), Size(w));
  }

  lemma PaysLeftLeft(a: Tree, n: Links, b: Tree, p: Links, d: Tree, g: Links, e: Tree)
    ensures var t := Node(a, n, b);
            var w := Node(Node(t, p, d), g, e);
            var w' := Node(a, n, Node(b, p, Node(d, g, e)));
      && Size(w') == Size(w)
      && 1 + Potential(w') - Potential(w) <= 3 * (Rank(w') - Rank(t))
  {
    var t := Node(a, n, b);
    var q := Node(t, p, d);
    var w, w' := Node(Node(t, p, d), g, e), Node(a, n, Node(b, p, Node(d, g, e)));
    var y, z := w'.right, w'.right.right;
    assert Potential(t) == Potential(a) + Rank(t) + Potential(b);
    assert Potential(q) == Potential(t) + Rank(q) + Potential(d);
    assert Potential(w) == Potential(a) + Potential(b) + Potential(d) + Potential(e) + Rank(t) + Rank(q) + Rank(w);
    assert Potential(z) + Potential(y) >= 0;
    assert Potential(w') == Potential(a) + Potential(b) + Potential(d) + Potential(e) + Rank(y) + Rank(z) + Rank(w');
    OnePartIsLower(Size(t), Size(z), Size(w));
    Monotone3(t, q, w, y);
    Monotone3(t, q, w, z);
    RankGainPays(Rank(t), Rank(q), Rank(w), Rank(y), Rank(z));
  }

  lemma PaysLeftRight(a: Tree, n: Links, b: Tree, p: Links, d: Tree, g: Links, e: Tree)
    ensures var t := Node(a, n, b);
            var w := Node(e, g, Node(t, p, d));
            var w' := Node(Node(e, g, a), n, Node(b, p, d));
      && Size(w') == Size(w)
      && 1 + Potential(w') - Potential(w) <= 3 * (Rank(w') - Rank(t))
  {
    var t := Node(a, n, b);
    var q := Node(t, p, d);
    var w, w' := Node(e, g, Node(t, p, d)), Node(Node(e, g, a), n, Node(b, p, d));
    var y, z := w'.left, w'.right;
    assert Potential(t) == Potential(a) + Rank(t) + Potential(b);
    assert Potential(q) == Potential(t) + Rank(q) + Potential(d);
    assert Potential(w) == Potential(a) + Potential(b) + Potential(d) + Potential(e) + Rank(t) + Rank(q) + Rank(w);
    assert Potential(z) + Potential(y) >= 0;
    assert Potential(w') == Potential(a) + Potential(b) + Potential(d) + Potential(e) + Rank(y) + Rank(z) + Rank(w');
    OnePartIsLower(Size(y), Size(z), Size(w));
    Monotone3(t, q, w, y);
    Monotone3(t, q, w, z);
    RankGainPays(Rank(t), Rank(q), Rank(w), Rank(y), Rank(z));
  }

  lemma PaysRightRight(a: Tree, n: Links, b: Tree, p: Links, d: Tree, g: Links, e: Tree)
    ensures var t := Node(a, n, b);
            var w := Node(e, g, Node(d, p, t));
            var w' := Node(Node(Node(e, g, d), p, a), n, b);
      && Size(w') == Size(w)
      && 1 + Potential(w') - Potential(w) <= 3 * (Rank(w') - Rank(t))
  {
    var t := Node(a, n, b);
    var q := Node(d, p, t);
    var w, w' := Node(e, g, Node(d, p, t)), Node(Node(Node(e, g, d), p, a), n, b);
    var y, z := w'.left, w'.left.left;
    assert Potential(t) == Potential(a) + Rank(t) + Potential(b);
    assert Potential(q) == Potential(t) + Rank(q) + Potential(d);
    assert Potential(w) == Potential(a) + Potential(b) + Potential(d) + Potential(e) + Rank(t) + Rank(q) + Rank(w);
    assert Potential(z) + Potential(y) >= 0;
    assert Potential(w') == Potential(a) + Potential(b) + Potential(d) + Potential(e) + Rank(y) + Rank(z) + Rank(w');
    OnePartIsLower(Size(t), Size(z), Size(w));
    Monotone3(t, q, w, y);
    Monotone3(t, q, w, z);
    RankGainPays(Rank(t), Rank(q), Rank(w), Rank(y), Rank(z));
  }

  lemma PaysRightLeft(a: Tree, n: Links, b: Tree, p: Links, d: Tree, g: Links, e: Tree)
    ensures var t := Node(a, n, b);
            var w := Node(Node(d, p, t), g, e);
            var w' := Node(Node(d, p, a), n, Node(b, g, e));
      && Size(w') == Size(w)
      && 1 + Potential(w') - Potential(w) <= 3 * (Rank(w') - Rank(t))
  {
    var t := Node(a, n, b);
    var q := Node(d, p, t);
    var w, w' := Node(Node(d, p, t), g, e), Node(Node(d, p, a), n, Node(b, g, e));
    var y, z := w'.left, w'.right;
    assert Potential(t) == Potential(a) + Rank(t) + Potential(b);
    assert Potential(q) == Potential(t) + Rank(q) + Potential(d);
    assert Potential(w) == Potential(a) + Potential(b) + Potential(d) + Potential(e) + Rank(t) + Rank(q) + Rank(w);
    assert Potential(z) + Potential(y) >= 0;
    assert Potential(w') == Potential(a) + Potential(b) + Potential(d) + Potential(e) + Rank(y) + Rank(z) + Rank(w');
    OnePartIsLower(Size(y), Size(z), Size(w));
    Monotone3(t, q, w, y);
    Monotone3(t, q, w, z);
    RankGainPays(Rank(t), Rank(q), Rank(w), Rank(y), Rank(z));
  }

  /** One round pays for itself with the potential it releases and three times the rank the
      node gains; the last round may cost one more. */
  lemma RoundPays(c: Context, t: Tree)
    requires !c.Top? && t.Node?
    ensures var r := Round(c, t);
      && Size(r.1) == Size(Rotated(c, t))
      && 1 + Potential(r.1) - Potential(Rotated(c, t))
         <= 3 * (Rank(r.1) - Rank(t)) + (if c.up.Top? then 1 else 0)
  {
    var a, n, b := t.left, t.link, t.right;
    match c {
      case InLeft(InLeft(up, g, e), p, d) => PaysLeftLeft(a, n, b, p, d, g, e);
      case InLeft(InRight(up, e, g), p, d) => PaysLeftRight(a, n, b, p, d, g, e);
      case InRight(InRight(up, e, g), d, p) => PaysRightRight(a, n, b, p, d, g, e);
      case InRight(InLeft(up, g, e), d, p) => PaysRightLeft(a, n, b, p, d, g, e);
      case InLeft(Top, p, d) => Monotone3(t, Rotated(c, t), Rotated(c, t), Node(b, p, d));
      case InRight(Top, d, p) => Monotone3(t, Rotated(c, t), Rotated(c, t), Node(d, p, a));
    }
  }

  /** The access lemma, from any point of the loop. */
  lemma {:induction false} SplayFromPays(c: Context, t: Tree)
    requires t.Node?
    ensures Size(SplayFrom(c, t)) == Size(Plug(c, t))
    ensures (Depth(c) + 1) / 2 + Potential(SplayFrom(c, t)) - Potential(Plug(c, t))
         <= 3 * (Rank(Plug(c, t)) - Rank(t)) + 1
    decreases Depth(c)
  {
    if !c.Top? {
      var c', t' := Round(c, t).0, Round(c, t).1;
      RoundPays(c, t);
      PlugPotential(c', Rotated(c, t), t');
      assert Plug(c', Rotated(c, t)) == Plug(c, t);
      PlugSize(c', Rotated(c, t), t');
      SplayFromPays(c', t');
    }
  }

  lemma {:induction false} PlugSize(c: Context, t: Tree, t': Tree)
    requires Size(t) == Size(t')
    ensures Size(Plug(c, t)) == Size(Plug(c, t'))
    decreases c
  {
    match c
    case Top =>
    case InLeft(up, n, r) => PlugSize(up, Node(t, n, r), Node(t', n, r));
    case InRight(up, l, n) => PlugSize(up, Node(l, n, t), Node(l, n, t'));
  }

  /** Rounds of RtlSplay(n) plus the potential it builds up are logarithmic in the tree's size. */
  lemma AccessLemma(w: Tree, n: Links)
    requires n in Nodes(w)
    ensures Size(Splayed(w, n)) == Size(w)
    ensures (DepthOf(w, n) + 1) / 2 + Potential(Splayed(w, n)) - Potential(w) <= 3 * Rank(w) + 1
  {
    var (c, t) := Locate(Top, w, n);
    SplayFromPays(c, t);
  }

  lemma {:induction false} SplayFromOrder(c: Context, t: Tree)
    requires t.Node?
    ensures InOrder(SplayFrom(c, t)) == InOrder(Plug(c, t))
    decreases Depth(c)
  {
    if !c.Top? {
      RoundOrder(c, t);
      SplayFromOrder(Round(c, t).0, Round(c, t).1);
    }
  }

  lemma SplayedNodes(w: Tree, n: Links)
    requires n in Nodes(w)
    ensures InOrder(Splayed(w, n)) == InOrder(w) && Nodes(Splayed(w, n)) == Nodes(w)
  {
    var (c, t) := Locate(Top, w, n);
    SplayFromOrder(c, t);
    InOrderNodes(w);
    InOrderNodes(Splayed(w, n));
  }

  /** The tree after a run of splays, and the rounds they take in all. */
  ghost function Run(w: Tree, accesses: seq<Links>): (r: (Tree, nat))
    requires forall i :: 0 <= i < |accesses| ==> accesses[i] in Nodes(w)
    decreases |accesses|
  {
    if accesses == [] then (w, 0)
    else
      SplayedNodes(w, accesses[0]);
      var r := Run(Splayed(w, accesses[0]), accesses[1..]);
      (r.0, (DepthOf(w, accesses[0]) + 1) / 2 + r.1)
  }

  lemma Distribute(x: nat, y: nat, k: nat)
    ensures (x + 1 + y) * k == x * k + k + y * k
  {
  }

  lemma {:induction false} PotentialBound(t: Tree, k: nat)
    requires Rank(t) <= k
    ensures Potential(t) <= Size(t) * k
  {
    match t
    case Leaf =>
    case Node(l, x, r) =>
      Log2Monotone(Size(l), Size(t));
      Log2Monotone(Size(r), Size(t));
      PotentialBound(l, k);
      PotentialBound(r, k);
      Distribute(Size(l), Size(r), k);
  }

  lemma {:induction false} RunPays(w: Tree, accesses: seq<Links>)
    requires forall i :: 0 <= i < |accesses| ==> accesses[i] in Nodes(w)
    ensures Run(w, accesses).1 + Potential(Run(w, accesses).0) <= |accesses| * (3 * Rank(w) + 1) + Potential(w)
    decreases |accesses|
  {
    if accesses != [] {
      var w' := Splayed(w, accesses[0]);
      SplayedNodes(w, accesses[0]);
      AccessLemma(w, accesses[0]);
      RunPays(w', accesses[1..]);
      assert |accesses| * (3 * Rank(w) + 1) == (|accesses| - 1) * (3 * Rank(w) + 1) + (3 * Rank(w) + 1);
    }
  }

  /** Any m splays of any nodes of any tree of n nodes take at most m (3 log n + 1) + n log n
      rounds. */
  lemma AmortisedBound(w: Tree, accesses: seq<Links>)
    requires forall i :: 0 <= i < |accesses| ==> accesses[i] in Nodes(w)
    ensures Run(w, accesses).1 <= |accesses| * (3 * Log2(Size(w)) + 1) + Size(w) * Log2(Size(w))
  {
    RunPays(w, accesses);
    PotentialBound(w, Rank(w));
  }
}
