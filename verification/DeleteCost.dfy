/** The amortised cost of RtlDelete: deletions and splays, in any order, take logarithmically many
    rounds each, on average. */
module DeleteCost {
  import opened LinkTrees
  import opened Splay
  import opened SplayCost
  import opened SplayDelete
  import opened SwapLinks

  lemma {:induction false} TradedPotential(t: Tree, a: Links, b: Links)
    ensures Size(Traded(t, a, b)) == Size(t) && Potential(Traded(t, a, b)) == Potential(t)
  {
    match t
    case Leaf =>
    case Node(l, n, r) =>
      TradedPotential(l, a, b);
      TradedPotential(r, a, b);
  }

  /** A smaller subtree with less potential leaves a smaller tree with less potential. */
  lemma {:induction false} PlugLess(c: Context, t: Tree, t': Tree)
    requires Size(t') <= Size(t) && Potential(t') <= Potential(t)
    ensures Size(Plug(c, t')) <= Size(Plug(c, t)) && Potential(Plug(c, t')) <= Potential(Plug(c, t))
    decreases c
  {
    match c
    case Top =>
    case InLeft(up, n, r) =>
      Log2Monotone(Size(Node(t', n, r)), Size(Node(t, n, r)));
      PlugLess(up, Node(t, n, r), Node(t', n, r));
    case InRight(up, l, n) =>
      Log2Monotone(Size(Node(l, n, t')), Size(Node(l, n, t)));
      PlugLess(up, Node(l, n, t), Node(l, n, t'));
  }

  /** Taking a node out releases potential. */
  lemma RemovedPotential(w: Tree, n: Links)
    requires Distinct(w) && n in Nodes(w)
    ensures Size(Removed(w, n)) <= Size(w) && Potential(Removed(w, n)) <= Potential(w)
  {
    PreparedNode(w, n);
    var (c, t) := Locate(Top, w, n);
    if t.left.Node? && t.right.Node? {
      TradedPotential(w, Rightmost(t.left), n);
    }
    var (d, u) := Locate(Top, Prepared(w, n), n);
    PlugLess(d, u, OnlyChild(u));
  }

  /** Rounds of RtlDelete(n) plus the potential it builds up are logarithmic in the tree's size. */
  lemma DeletionPays(w: Tree, n: Links)
    requires Distinct(w) && n in Nodes(w)
    ensures Size(Deleted(w, n)) <= Size(w)
    ensures DeletionRounds(w, n) + Potential(Deleted(w, n)) - Potential(w) <= 3 * Rank(w) + 1
  {
    PreparedNode(w, n);
    ToSplayInside(w, n);
    RemovedPotential(w, n);
    if ToSplay(w, n) != null {
      AccessLemma(Removed(w, n), ToSplay(w, n));
      Log2Monotone(Size(Removed(w, n)), Size(w));
    }
  }

  // ---------------------------------------------------------------- runs

  datatype Request = Access(n: Links) | Remove(n: Links)

  /** The tree after a request. */
  ghost function Served(w: Tree, q: Request): (w': Tree)
    requires Distinct(w) && q.n in Nodes(w)
  {
    if q.Access? then Splayed(w, q.n) else Deleted(w, q.n)
  }

  ghost function Rounds(w: Tree, q: Request): nat
    requires Distinct(w) && q.n in Nodes(w)
  {
    if q.Access? then (DepthOf(w, q.n) + 1) / 2 else DeletionRounds(w, q.n)
  }

  /** A request leaves the nodes in their order, but for the one that it removes. */
  lemma ServedOrder(w: Tree, q: Request)
    requires Distinct(w) && q.n in Nodes(w)
    ensures InOrder(Served(w, q)) == if q.Access? then InOrder(w) else Without(InOrder(w), q.n)
    ensures Distinct(Served(w, q))
  {
    if q.Access? {
      SplayedNodes(w, q.n);
      SameOrder(w, Served(w, q));
    } else {
      PreparedNode(w, q.n);
      RemovedOrder(w, q.n);
      ToSplayInside(w, q.n);
      if ToSplay(w, q.n) != null {
        SplayedNodes(Removed(w, q.n), ToSplay(w, q.n));
        SameOrder(Removed(w, q.n), Served(w, q));
      }
    }
  }

  /** Every request is for a node that is there when its turn comes. */
  ghost predicate AllThere(w: Tree, qs: seq<Request>)
    requires Distinct(w)
    decreases |qs|
  {
    qs == [] || (qs[0].n in Nodes(w) && (ServedOrder(w, qs[0]); AllThere(Served(w, qs[0]), qs[1..])))
  }

  /** The tree after a run of requests, and the rounds they take in all. */
  ghost function ServedAll(w: Tree, qs: seq<Request>): (r: (Tree, nat))
    requires Distinct(w) && AllThere(w, qs)
    decreases |qs|
  {
    if qs == [] then (w, 0)
    else
      ServedOrder(w, qs[0]);
      var r := ServedAll(Served(w, qs[0]), qs[1..]);
      (r.0, Rounds(w, qs[0]) + r.1)
  }

  lemma {:induction false} RequestsPay(w: Tree, qs: seq<Request>, k: nat)
    requires Distinct(w) && AllThere(w, qs) && Rank(w) <= k
    ensures ServedAll(w, qs).1 + Potential(ServedAll(w, qs).0) <= |qs| * (3 * k + 1) + Potential(w)
    decreases |qs|
  {
    if qs != [] {
      var q, w' := qs[0], Served(w, qs[0]);
      ServedOrder(w, q);
      if q.Access? {
        AccessLemma(w, q.n);
      } else {
        DeletionPays(w, q.n);
      }
      Log2Monotone(Size(w'), Size(w));
      RequestsPay(w', qs[1..], k);
      assert |qs| * (3 * k + 1) == (|qs| - 1) * (3 * k + 1) + (3 * k + 1);
    }
  }

  /** Any m splays and deletions, in any order, in a tree of n nodes take at most
      m (3 log n + 1) + n log n rounds. */
  lemma DeletionBound(w: Tree, qs: seq<Request>)
    requires Distinct(w) && AllThere(w, qs)
    ensures ServedAll(w, qs).1 <= |qs| * (3 * Log2(Size(w)) + 1) + Size(w) * Log2(Size(w))
  {
    RequestsPay(w, qs, Rank(w));
    PotentialBound(w, Rank(w));
  }

  lemma ServedNodes(w: Tree, q: Request)
    requires Distinct(w) && q.n in Nodes(w)
    ensures Nodes(Served(w, q)) <= Nodes(w)
  {
    hide InOrder, Removed, Deleted, Splayed, Without, Distinct, Nodes;
    ServedOrder(w, q);
    if q.Access? {
      SameOrder(w, Served(w, q));
    } else {
      RemovedOrder(w, q.n);
      SameOrder(Removed(w, q.n), Served(w, q));
    }
  }

  lemma FirstServed(w: Tree, qs: seq<Request>, i: nat)
    requires Distinct(w) && i < |qs| && AllThere(w, qs[i..])
    ensures qs[i].n in Nodes(w) && Distinct(Served(w, qs[i])) && AllThere(Served(w, qs[i]), qs[i + 1..])
    ensures Nodes(Served(w, qs[i])) <= Nodes(w)
    ensures var r := ServedAll(Served(w, qs[i]), qs[i + 1..]);
      ServedAll(w, qs[i..]) == (r.0, Rounds(w, qs[i]) + r.1)
  {
    hide Served, Rounds, Distinct, Nodes;
    assert qs[i..][0] == qs[i] && qs[i..][1..] == qs[i + 1..];
    ServedOrder(w, qs[i]);
    ServedNodes(w, qs[i]);
  }

  method Serve(q: Request, ghost w: Tree) returns (ghost w': Tree, ghost rounds: nat)
    requires Rooted(w) && q.n in Nodes(w)
    modifies Nodes(w)
    ensures w' == Served(w, q) && rounds == Rounds(w, q) && (w'.Node? ==> Rooted(w'))
  {
    var root;
    if q.Access? {
      root, w', rounds := RtlSplay(q.n, w);
    } else {
      root, w', rounds := RtlDelete(q.n, w);
    }
  }

  /** The routines, over any such run. */
  method ServeAll(qs: seq<Request>, ghost w: Tree) returns (ghost w': Tree, ghost rounds: nat)
    requires Rooted(w) && AllThere(w, qs)
    modifies Nodes(w)
    ensures (w', rounds) == ServedAll(w, qs) && (w'.Node? ==> Rooted(w'))
    ensures rounds <= |qs| * (3 * Log2(Size(w)) + 1) + Size(w) * Log2(Size(w))
  {
    DeletionBound(w, qs);
    w', rounds := w, 0;
    assert qs[0..] == qs && qs[|qs|..] == [];
    var i := 0;
    while i < |qs|
      invariant 0 <= i <= |qs| && Distinct(w') && Nodes(w') <= Nodes(w) && (w'.Node? ==> Rooted(w'))
      invariant AllThere(w', qs[i..])
      invariant ServedAll(w, qs) == (ServedAll(w', qs[i..]).0, rounds + ServedAll(w', qs[i..]).1)
    {
      hide *;
      FirstServed(w', qs, i);
      ghost var more;
      w', more := Serve(qs[i], w');
      rounds := rounds + more;
      i := i + 1;
    }
  }
}
