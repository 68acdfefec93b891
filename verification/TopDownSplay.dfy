/** The top-down splay of splay.c. It goes by child links alone: parent links are written and never
    read, and what becomes of them is said apart (Upward). On the way down, the tree falls into
    three: what lies left of the path, what lies right of it, and the subtree still to be searched. */
module TopDownSplay {
  import opened LinkTrees
  import opened Searching
  import opened TableCursor

  /** The child links form t. */
  ghost predicate Linked(t: Tree)
    reads Nodes(t)`left, Nodes(t)`right
  {
    match t
    case Leaf => true
    case Node(l, n, r) => n.left == Root(l) && n.right == Root(r) && Linked(l) && Linked(r)
  }

  /** The node of an arm that has the hole. The source's local node next stands above both arms. */
  ghost function Tip(c: Context, next: Links): Links {
    if c.Top? then next else c.link
  }

  /** The left arm hangs on next's right link and goes on to the right; its hole is a right child. */
  ghost predicate LeftArm(c: Context, next: Links)
    reads next`right, ContextNodes(c)`left, ContextNodes(c)`right
    decreases c
  {
    c.Top? || (c.InRight? && LeftArm(c.up, next)
               && c.link.left == Root(c.left) && Linked(c.left) && Tip(c.up, next).right == c.link)
  }

  ghost predicate RightArm(c: Context, next: Links)
    reads next`left, ContextNodes(c)`left, ContextNodes(c)`right
    decreases c
  {
    c.Top? || (c.InLeft? && RightArm(c.up, next)
               && c.link.right == Root(c.right) && Linked(c.right) && Tip(c.up, next).left == c.link)
  }

  ghost predicate ChildOf(t: Tree, up: Links)
    reads Nodes(t)`parent
  {
    t.Node? ==> t.link.parent == up
  }

  /** The parent link of every child names the node it is a child of. */
  ghost predicate Upward(t: Tree)
    reads Nodes(t)`parent
  {
    match t
    case Leaf => true
    case Node(l, n, r) => ChildOf(l, n) && ChildOf(r, n) && Upward(l) && Upward(r)
  }

  /** The same for an arm; its topmost node is a child of next. */
  ghost predicate ArmUpward(c: Context, next: Links)
    reads ContextNodes(c)`parent
    decreases c
  {
    match c
    case Top => true
    case InLeft(up, n, r) => n.parent == Tip(up, next) && ChildOf(r, n) && Upward(r) && ArmUpward(up, next)
    case InRight(up, l, n) => n.parent == Tip(up, next) && ChildOf(l, n) && Upward(l) && ArmUpward(up, next)
  }

  ghost function NodesBelow(t: Tree): set<Links> {
    if t.Leaf? then {} else Nodes(t.left) + Nodes(t.right)
  }

  /** Upward, in terms of the nodes below the root only. */
  ghost predicate UpwardBelow(t: Tree)
    reads NodesBelow(t)`parent
  {
    t.Node? ==> ChildOf(t.left, t.link) && ChildOf(t.right, t.link) && Upward(t.left) && Upward(t.right)
  }

  ghost predicate PiecesUpward(lc: Context, t: Tree, rc: Context, next: Links)
    reads ContextNodes(lc)`parent, Nodes(t)`parent, ContextNodes(rc)`parent
  {
    ArmUpward(lc, next) && Upward(t) && ArmUpward(rc, next)
  }

  /** The tree that the three parts stand for. */
  ghost function Spread(lc: Context, t: Tree, rc: Context): Tree {
    Plug(lc, Plug(rc, t))
  }

  ghost predicate Pieces(lc: Context, t: Tree, rc: Context, next: Links)
    reads next`left, next`right, ContextNodes(lc)`left, ContextNodes(lc)`right,
          ContextNodes(rc)`left, ContextNodes(rc)`right, Nodes(t)`left, Nodes(t)`right
  {
    LeftArm(lc, next) && Linked(t) && RightArm(rc, next)
  }

  ghost predicate Separate(lc: Context, t: Tree, rc: Context, next: Links) {
    && DistinctContext(lc) && DistinctContext(rc) && Distinct(t)
    && ContextNodes(lc) !! ContextNodes(rc) !! Nodes(t)
    && next !in ContextNodes(lc) && next !in ContextNodes(rc) && next !in Nodes(t)
  }

  lemma Apart(lc: Context, t: Tree, rc: Context, next: Links)
    ensures Distinct(Spread(lc, t, rc)) && next !in Nodes(Spread(lc, t, rc)) <==> Separate(lc, t, rc, next)
    ensures Nodes(Spread(lc, t, rc)) == ContextNodes(lc) + ContextNodes(rc) + Nodes(t)
  {
    PlugDistinct(lc, Plug(rc, t));
    PlugDistinct(rc, t);
    PlugNodes(lc, Plug(rc, t));
    PlugNodes(rc, t);
  }

  lemma {:induction false} ArmsOutside(lc: Context, rc: Context, next: Links)
    ensures LeftArm(lc, next) ==> After(lc) == []
    ensures RightArm(rc, next) ==> Before(rc) == []
    decreases lc, rc
  {
    if lc.InRight? {
      ArmsOutside(lc.up, rc, next);
    } else if rc.InLeft? {
      ArmsOutside(lc, rc.up, next);
    }
  }

  lemma SpreadOrder(lc: Context, t: Tree, rc: Context)
    requires After(lc) == [] && Before(rc) == []
    ensures InOrder(Spread(lc, t, rc)) == Before(lc) + InOrder(t) + After(rc)
  {
    PlugInOrder(lc, Plug(rc, t));
    PlugInOrder(rc, t);
    assert Before(lc) + ([] + InOrder(t) + After(rc)) + [] == Before(lc) + InOrder(t) + After(rc);
  }

  /** Another subtree with the same nodes in the same order. */
  lemma SwapSubtree(lc: Context, t: Tree, t': Tree, rc: Context)
    requires After(lc) == [] && Before(rc) == [] && InOrder(t) == InOrder(t')
    ensures InOrder(Spread(lc, t, rc)) == InOrder(Spread(lc, t', rc))
    ensures Nodes(Spread(lc, t, rc)) == Nodes(Spread(lc, t', rc))
    ensures Distinct(Spread(lc, t, rc)) <==> Distinct(Spread(lc, t', rc))
  {
    SpreadOrder(lc, t, rc);
    SpreadOrder(lc, t', rc);
    SameOrder(Spread(lc, t, rc), Spread(lc, t', rc));
  }

  /** Moving the root and its left subtree over to the left arm keeps the order. */
  lemma LeftArmGrows(lc: Context, t: Tree, rc: Context)
    requires After(lc) == [] && Before(rc) == [] && t.Node?
    ensures var lc' := InRight(lc, t.left, t.link);
      && InOrder(Spread(lc', t.right, rc)) == InOrder(Spread(lc, t, rc))
      && Nodes(Spread(lc', t.right, rc)) == Nodes(Spread(lc, t, rc))
      && (Distinct(Spread(lc', t.right, rc)) <==> Distinct(Spread(lc, t, rc)))
  {
    var lc' := InRight(lc, t.left, t.link);
    SpreadOrder(lc, t, rc);
    SpreadOrder(lc', t.right, rc);
    assert Before(lc) + (InOrder(t.left) + [t.link] + InOrder(t.right)) + After(rc)
        == (Before(lc) + InOrder(t.left) + [t.link]) + InOrder(t.right) + After(rc);
    SameOrder(Spread(lc, t, rc), Spread(lc', t.right, rc));
  }

  // ---------------------------------------------------------------- links

  /** The parent link of a root that goes over to an arm. */
  method NameRight(root: Links, right: Links, next: Links, ghost lc: Context, ghost t: Tree, ghost rc: Context)
    requires Separate(lc, t, rc, next) && t.Node? && root == t.link && right == Tip(rc, next)
    modifies root`parent
    ensures old(PiecesUpward(lc, t, rc, next)) ==> PiecesUpward(lc, t.left, InLeft(rc, root, t.right), next)
  {
    root.parent := right;
    assert old(PiecesUpward(lc, t, rc, next)) ==> ArmUpward(rc, next) && Upward(t.right) && ChildOf(t.right, root);
  }

  method NameLeft(root: Links, left: Links, next: Links, ghost lc: Context, ghost t: Tree, ghost rc: Context)
    requires Separate(lc, t, rc, next) && t.Node? && root == t.link && left == Tip(lc, next)
    modifies root`parent
    ensures old(PiecesUpward(lc, t, rc, next)) ==> PiecesUpward(InRight(lc, t.left, root), t.right, rc, next)
  {
    root.parent := left;
    assert old(PiecesUpward(lc, t, rc, next)) ==> ArmUpward(lc, next) && Upward(t.left) && ChildOf(t.left, root);
  }

  method HangRight(root: Links, right: Links, next: Links, ghost lc: Context, ghost t: Tree, ghost rc: Context)
    requires Pieces(lc, t, rc, next) && Separate(lc, t, rc, next)
    requires t.Node? && root == t.link && right == Tip(rc, next)
    modifies right`left
    ensures Pieces(lc, t.left, InLeft(rc, root, t.right), next)
  {
    right.left := root;
    assert Linked(t.left) && Linked(t.right);
    assert RightArm(rc, next);
  }

  method HangLeft(root: Links, left: Links, next: Links, ghost lc: Context, ghost t: Tree, ghost rc: Context)
    requires Pieces(lc, t, rc, next) && Separate(lc, t, rc, next)
    requires t.Node? && root == t.link && left == Tip(lc, next)
    modifies left`right
    ensures Pieces(InRight(lc, t.left, root), t.right, rc, next)
  {
    left.right := root;
    assert Linked(t.left) && Linked(t.right);
    assert LeftArm(lc, next);
  }

  /** The root and its right subtree go over to the right arm. */
  method LinkRight(root: Links, right: Links, next: Links, ghost lc: Context, ghost t: Tree, ghost rc: Context)
    requires Pieces(lc, t, rc, next) && Separate(lc, t, rc, next)
    requires t.Node? && root == t.link && right == Tip(rc, next)
    modifies right`left, root`parent
    ensures Pieces(lc, t.left, InLeft(rc, root, t.right), next)
    ensures old(PiecesUpward(lc, t, rc, next)) ==> PiecesUpward(lc, t.left, InLeft(rc, root, t.right), next)
  {
    assert allocated(ContextNodes(lc)) && allocated(Nodes(t)) && allocated(ContextNodes(rc));
    assert allocated(Nodes(t.left)) && allocated(ContextNodes(InLeft(rc, root, t.right)));
    HangRight(root, right, next, lc, t, rc);
    NameRight(root, right, next, lc, t, rc);
  }

  method LinkLeft(root: Links, left: Links, next: Links, ghost lc: Context, ghost t: Tree, ghost rc: Context)
    requires Pieces(lc, t, rc, next) && Separate(lc, t, rc, next)
    requires t.Node? && root == t.link && left == Tip(lc, next)
    modifies left`right, root`parent
    ensures Pieces(InRight(lc, t.left, root), t.right, rc, next)
    ensures old(PiecesUpward(lc, t, rc, next)) ==> PiecesUpward(InRight(lc, t.left, root), t.right, rc, next)
  {
    assert allocated(ContextNodes(lc)) && allocated(Nodes(t)) && allocated(ContextNodes(rc));
    assert allocated(Nodes(t.right)) && allocated(ContextNodes(InRight(lc, t.left, root)));
    HangLeft(root, left, next, lc, t, rc);
    NameLeft(root, left, next, lc, t, rc);
  }

  ghost function TurnedRight(t: Tree): Tree
    requires t.Node? && t.left.Node?
  {
    Node(t.left.left, t.left.link, Node(t.left.right, t.link, t.right))
  }

  ghost function TurnedLeft(t: Tree): Tree
    requires t.Node? && t.right.Node?
  {
    Node(Node(t.left, t.link, t.right.left), t.right.link, t.right.right)
  }

  lemma TurnedOrder(t: Tree)
    requires t.Node?
    ensures t.left.Node? ==> InOrder(TurnedRight(t)) == InOrder(t)
    ensures t.right.Node? ==> InOrder(TurnedLeft(t)) == InOrder(t)
  {
    if t.left.Node? {
      RotateOrder(Top, t.left.left, t.left.link, t.left.right, t.link, t.right);
    }
    if t.right.Node? {
      RotateOrder(Top, t.left, t.link, t.right.left, t.right.link, t.right.right);
    }
  }

  /** A child, if it is there, gets its parent link. */
  method Reparent(child: Links?, up: Links, ghost t: Tree)
    requires Distinct(t) && child == Root(t)
    modifies Some(child)`parent
    ensures ChildOf(t, up) && (old(Upward(t)) ==> Upward(t))
  {
    assert Upward(t) ==> UpwardBelow(t);
    if child != null {
      child.parent := up;
    }
    assert old(Upward(t)) ==> UpwardBelow(t);
  }

  /** Two nodes with three subtrees, all their parent links right but those of the middle one and of
      the lower node. */
  ghost predicate PartsUpward(a: Tree, n: Links, b: Tree, p: Links, d: Tree)
    reads Nodes(a)`parent, Nodes(b)`parent, Nodes(d)`parent
  {
    Upward(a) && Upward(b) && Upward(d) && ChildOf(a, n) && ChildOf(d, p)
  }

  lemma TurnUpward(a: Tree, n: Links, b: Tree, p: Links, d: Tree)
    ensures Upward(Node(Node(a, n, b), p, d)) <==> PartsUpward(a, n, b, p, d) && ChildOf(b, n) && n.parent == p
    ensures Upward(Node(a, n, Node(b, p, d))) <==> PartsUpward(a, n, b, p, d) && ChildOf(b, p) && p.parent == n
  {
    assert Upward(Node(Node(a, n, b), p, d)) ==> Upward(Node(a, n, b));
    assert Upward(Node(a, n, Node(b, p, d))) ==> Upward(Node(b, p, d));
  }

  method TurnRight(root: Links, ghost t: Tree) returns (temp: Links)
    requires Linked(t) && Distinct(t) && t.Node? && t.left.Node? && root == t.link
    modifies Nodes(t)`left, Nodes(t)`right, Nodes(t)`parent
    ensures Linked(TurnedRight(t)) && temp == t.left.link
    ensures old(Upward(t)) ==> Upward(TurnedRight(t))
  {
    ghost var a, b, d := t.left.left, t.left.right, t.right;
    TurnUpward(a, t.left.link, b, root, d);
    assert allocated(Nodes(a)) && allocated(Nodes(b)) && allocated(Nodes(d));
    temp := root.left;
    root.left := temp.right;
    Reparent(temp.right, root, b);
    hide Upward;
    temp.right := root;
    root.parent := temp;
    assert Linked(a) && Linked(b) && Linked(d);
    assert Linked(Node(b, root, d));
    TurnUpward(a, temp, b, root, d);
  }

  method TurnLeft(root: Links, ghost t: Tree) returns (temp: Links)
    requires Linked(t) && Distinct(t) && t.Node? && t.right.Node? && root == t.link
    modifies Nodes(t)`left, Nodes(t)`right, Nodes(t)`parent
    ensures Linked(TurnedLeft(t)) && temp == t.right.link
    ensures old(Upward(t)) ==> Upward(TurnedLeft(t))
  {
    ghost var a, b, d := t.left, t.right.left, t.right.right;
    TurnUpward(a, root, b, t.right.link, d);
    assert allocated(Nodes(a)) && allocated(Nodes(b)) && allocated(Nodes(d));
    temp := root.right;
    root.right := temp.left;
    Reparent(temp.left, root, b);
    hide Upward;
    temp.left := root;
    root.parent := temp;
    assert Linked(a) && Linked(b) && Linked(d);
    assert Linked(Node(a, root, b));
    TurnUpward(a, root, b, temp, d);
  }

  // ---------------------------------------------------------------- the splay on trees

  /** What a splay takes the tree apart into: the root it ends at, what goes to the left and to the
      right of it, and the rounds of the loop. */
  datatype Parts = Parts(left: Tree, link: Links, right: Tree, rounds: nat)

  /** The tree that a round to the left goes on with: two steps in that direction turn it first. */
  ghost function LeftTurned(compare: (int, int) -> Order, item: int, t: Tree): (u: Tree)
    requires t.Node?
    reads Nodes(t.left)`userData
    ensures u.Node? && u.left < t && Nodes(u.left) <= Nodes(t)
  {
    if t.left.Node? && compare(item, t.left.link.userData) == Less then TurnedRight(t) else t
  }

  ghost function RightTurned(compare: (int, int) -> Order, item: int, t: Tree): (u: Tree)
    requires t.Node?
    reads Nodes(t.right)`userData
    ensures u.Node? && u.right < t && Nodes(u.right) <= Nodes(t)
  {
    if t.right.Node? && compare(item, t.right.link.userData) == Greater then TurnedLeft(t) else t
  }

  ghost function Parted(compare: (int, int) -> Order, item: int, t: Tree): (p: Parts)
    requires t.Node?
    reads Nodes(t)`userData
    decreases t
  {
    match compare(item, t.link.userData)
    case Equal => Parts(t.left, t.link, t.right, 1)
    case Less =>
      var u := LeftTurned(compare, item, t);
      if u.left.Leaf? then Parts(u.left, u.link, u.right, 1)
      else
        var p := Parted(compare, item, u.left);
        Parts(p.left, p.link, Node(p.right, u.link, u.right), p.rounds + 1)
    case Greater =>
      var u := RightTurned(compare, item, t);
      if u.right.Leaf? then Parts(u.left, u.link, u.right, 1)
      else
        var p := Parted(compare, item, u.right);
        Parts(Node(u.left, u.link, p.left), p.link, p.right, p.rounds + 1)
  }

  /** The tree after a splay. */
  ghost function TopSplayed(compare: (int, int) -> Order, item: int, t: Tree): Tree
    requires t.Node?
    reads Nodes(t)`userData
  {
    var p := Parted(compare, item, t);
    Node(p.left, p.link, p.right)
  }

  /** Where the loop is on its way to the parts p, with rounds of them behind it. */
  ghost predicate OnTheWay(compare: (int, int) -> Order, item: int, lc: Context, t: Tree, rc: Context,
                           rounds: nat, p: Parts)
    requires t.Node?
    reads Nodes(t)`userData
  {
    var q := Parted(compare, item, t);
    && Plug(lc, q.left) == p.left && q.link == p.link && Plug(rc, q.right) == p.right
    && rounds + q.rounds == p.rounds
  }

  // ---------------------------------------------------------------- the descent

  /** What the descent knows: item is greater than everything in the left arm and less than
      everything in the right arm. */
  ghost predicate Narrowed(compare: (int, int) -> Order, item: int, lc: Context, t: Tree, rc: Context)
    reads Before(lc)`userData, After(rc)`userData, InOrder(Spread(lc, t, rc))`userData
  {
    && After(lc) == [] && Before(rc) == [] && Sorts(compare, item, InOrder(Spread(lc, t, rc)))
    && AllCompare(compare, item, Before(lc), Greater) && AllCompare(compare, item, After(rc), Less)
  }

  lemma NarrowedLeft(compare: (int, int) -> Order, item: int, lc: Context, t: Tree, rc: Context)
    requires Narrowed(compare, item, lc, t, rc) && t.Node? && compare(item, t.link.userData) == Less
    ensures Narrowed(compare, item, lc, t.left, InLeft(rc, t.link, t.right))
    ensures AllCompare(compare, item, InOrder(t.right) + After(rc), Less)
  {
    SpreadOrder(lc, t, rc);
    Regrouped(Before(lc), InOrder(t.left), t.link, InOrder(t.right), After(rc));
    SortsSplit(compare, item, Before(lc) + InOrder(t.left), t.link, InOrder(t.right) + After(rc));
    assert After(InLeft(rc, t.link, t.right)) == [t.link] + (InOrder(t.right) + After(rc));
  }

  lemma NarrowedRight(compare: (int, int) -> Order, item: int, lc: Context, t: Tree, rc: Context)
    requires Narrowed(compare, item, lc, t, rc) && t.Node? && compare(item, t.link.userData) == Greater
    ensures Narrowed(compare, item, InRight(lc, t.left, t.link), t.right, rc)
    ensures AllCompare(compare, item, Before(lc) + InOrder(t.left), Greater)
  {
    SpreadOrder(lc, t, rc);
    LeftArmGrows(lc, t, rc);
    Regrouped(Before(lc), InOrder(t.left), t.link, InOrder(t.right), After(rc));
    SortsSplit(compare, item, Before(lc) + InOrder(t.left), t.link, InOrder(t.right) + After(rc));
  }

  ghost predicate Descending(compare: (int, int) -> Order, item: int, lc: Context, t: Tree, rc: Context, next: Links)
    reads next`left, next`right, ContextNodes(lc)`left, ContextNodes(lc)`right,
          ContextNodes(rc)`left, ContextNodes(rc)`right, Nodes(t)`left, Nodes(t)`right,
          Before(lc)`userData, After(rc)`userData, InOrder(Spread(lc, t, rc))`userData
  {
    Pieces(lc, t, rc, next) && Separate(lc, t, rc, next) && Narrowed(compare, item, lc, t, rc)
  }

  lemma SameSubtree(compare: (int, int) -> Order, item: int, lc: Context, t: Tree, t': Tree, rc: Context, next: Links)
    requires Separate(lc, t, rc, next) && Narrowed(compare, item, lc, t, rc) && InOrder(t) == InOrder(t')
    ensures Separate(lc, t', rc, next) && Narrowed(compare, item, lc, t', rc) && Nodes(t') == Nodes(t)
    ensures InOrder(Spread(lc, t', rc)) == InOrder(Spread(lc, t, rc))
  {
    SwapSubtree(lc, t, t', rc);
    SameOrder(t, t');
    Apart(lc, t, rc, next);
    Apart(lc, t', rc, next);
  }

  /** Two steps in the same direction: the child is turned up over the root first. */
  method TurnFirst(root: Links, left: bool, next: Links, ghost lc: Context, ghost t: Tree, ghost rc: Context)
    returns (temp: Links, ghost t': Tree)
    requires Pieces(lc, t, rc, next) && Separate(lc, t, rc, next) && t.Node? && root == t.link
    requires if left then t.left.Node? else t.right.Node?
    modifies Nodes(t)`left, Nodes(t)`right, Nodes(t)`parent
    ensures Pieces(lc, t', rc, next) && t'.Node? && temp == t'.link && InOrder(t') == InOrder(t)
    ensures t' == if left then TurnedRight(t) else TurnedLeft(t)
    ensures old(PiecesUpward(lc, t, rc, next)) ==> PiecesUpward(lc, t', rc, next)
  {
    TurnedOrder(t);
    assert allocated(ContextNodes(lc)) && allocated(ContextNodes(rc));
    if left {
      t' := TurnedRight(t);
      temp := TurnRight(root, t);
    } else {
      t' := TurnedLeft(t);
      temp := TurnLeft(root, t);
    }
  }

  method TurnUp(compare: (int, int) -> Order, item: int, root: Links, left: bool, next: Links,
                ghost lc: Context, ghost t: Tree, ghost rc: Context)
    returns (temp: Links, ghost t': Tree)
    requires Descending(compare, item, lc, t, rc, next) && t.Node? && root == t.link
    requires if left then t.left.Node? else t.right.Node?
    modifies Nodes(t)`left, Nodes(t)`right, Nodes(t)`parent
    ensures Descending(compare, item, lc, t', rc, next) && t'.Node? && temp == t'.link && Nodes(t') == Nodes(t)
    ensures InOrder(t') == InOrder(t) && InOrder(Spread(lc, t', rc)) == InOrder(Spread(lc, t, rc))
    ensures t' == if left then TurnedRight(t) else TurnedLeft(t)
    ensures old(PiecesUpward(lc, t, rc, next)) ==> PiecesUpward(lc, t', rc, next)
  {
    assert allocated(InOrder(Spread(lc, t, rc))) && allocated(Before(lc)) && allocated(After(rc));
    temp, t' := TurnFirst(root, left, next, lc, t, rc);
    SameSubtree(compare, item, lc, t, t', rc, next);
  }

  /** Then the root and its far side go over to the arm on that side. */
  method StepLeft(compare: (int, int) -> Order, item: int, root: Links, right: Links, next: Links,
                  ghost lc: Context, ghost t: Tree, ghost rc: Context)
    requires Descending(compare, item, lc, t, rc, next) && t.Node? && root == t.link && right == Tip(rc, next)
    requires compare(item, root.userData) == Less
    modifies right`left, root`parent
    ensures Descending(compare, item, lc, t.left, InLeft(rc, root, t.right), next)
    ensures old(PiecesUpward(lc, t, rc, next)) ==> PiecesUpward(lc, t.left, InLeft(rc, root, t.right), next)
  {
    Apart(lc, t, rc, next);
    Apart(lc, t.left, InLeft(rc, root, t.right), next);
    NarrowedLeft(compare, item, lc, t, rc);
    assert allocated(InOrder(Spread(lc, t, rc))) && allocated(Before(lc)) && allocated(After(rc));
    assert allocated(After(InLeft(rc, root, t.right)));
    LinkRight(root, right, next, lc, t, rc);
  }

  method StepRight(compare: (int, int) -> Order, item: int, root: Links, left: Links, next: Links,
                   ghost lc: Context, ghost t: Tree, ghost rc: Context)
    requires Descending(compare, item, lc, t, rc, next) && t.Node? && root == t.link && left == Tip(lc, next)
    requires compare(item, root.userData) == Greater
    modifies left`right, root`parent
    ensures Descending(compare, item, InRight(lc, t.left, root), t.right, rc, next)
    ensures old(PiecesUpward(lc, t, rc, next)) ==> PiecesUpward(InRight(lc, t.left, root), t.right, rc, next)
    ensures InOrder(Spread(InRight(lc, t.left, root), t.right, rc)) == InOrder(Spread(lc, t, rc))
  {
    LeftArmGrows(lc, t, rc);
    Apart(lc, t, rc, next);
    Apart(InRight(lc, t.left, root), t.right, rc, next);
    NarrowedRight(compare, item, lc, t, rc);
    assert allocated(InOrder(Spread(lc, t, rc))) && allocated(Before(lc)) && allocated(After(rc));
    assert allocated(Before(InRight(lc, t.left, root)));
    LinkLeft(root, left, next, lc, t, rc);
  }

  /** One round to the left, where item is less than the root. */
  method DescendLeft(compare: (int, int) -> Order, item: int, root: Links, right: Links, next: Links,
                     ghost lc: Context, ghost t: Tree, ghost rc: Context)
    returns (done: bool, root': Links, right': Links, ghost t': Tree, ghost rc': Context)
    requires Descending(compare, item, lc, t, rc, next) && t.Node? && root == t.link && right == Tip(rc, next)
    requires compare(item, root.userData) == Less
    modifies right`left, Nodes(t)`left, Nodes(t)`right, Nodes(t)`parent
    ensures Descending(compare, item, lc, t', rc', next) && t'.Node? && root' == t'.link && right' == Tip(rc', next)
    ensures InOrder(Spread(lc, t', rc')) == InOrder(Spread(lc, t, rc))
    ensures done ==> t'.left.Leaf? && compare(item, root'.userData) == Less
    ensures var u := LeftTurned(compare, item, t);
      && (done <==> u.left.Leaf?)
      && if done then t' == u && rc' == rc else t' == u.left && rc' == InLeft(rc, u.link, u.right)
    ensures old(PiecesUpward(lc, t, rc, next)) ==> PiecesUpward(lc, t', rc', next)
    ensures !done ==> |InOrder(t')| < |InOrder(t)|
  {
    hide PiecesUpward, Sorts, Distinct;
    done, root', right', t', rc' := true, root, right, t, rc;
    if root.left == null {
      return;
    }
    if compare(item, root.left.userData) == Less {
      root', t' := TurnUp(compare, item, root, true, next, lc, t, rc);
      if root'.left == null {
        return;
      }
    }
    ghost var u := t';
    StepLeft(compare, item, root', right, next, lc, u, rc);
    rc' := InLeft(rc, root', u.right);
    right' := root';
    t' := u.left;
    root' := root'.left;
    done := false;
  }

  method DescendRight(compare: (int, int) -> Order, item: int, root: Links, left: Links, next: Links,
                      ghost lc: Context, ghost t: Tree, ghost rc: Context)
    returns (done: bool, root': Links, left': Links, ghost t': Tree, ghost lc': Context)
    requires Descending(compare, item, lc, t, rc, next) && t.Node? && root == t.link && left == Tip(lc, next)
    requires compare(item, root.userData) == Greater
    modifies left`right, Nodes(t)`left, Nodes(t)`right, Nodes(t)`parent
    ensures Descending(compare, item, lc', t', rc, next) && t'.Node? && root' == t'.link && left' == Tip(lc', next)
    ensures InOrder(Spread(lc', t', rc)) == InOrder(Spread(lc, t, rc))
    ensures done ==> t'.right.Leaf? && compare(item, root'.userData) == Greater
    ensures var u := RightTurned(compare, item, t);
      && (done <==> u.right.Leaf?)
      && if done then t' == u && lc' == lc else t' == u.right && lc' == InRight(lc, u.left, u.link)
    ensures old(PiecesUpward(lc, t, rc, next)) ==> PiecesUpward(lc', t', rc, next)
    ensures !done ==> |InOrder(t')| < |InOrder(t)|
  {
    hide PiecesUpward, Sorts, Distinct;
    done, root', left', t', lc' := true, root, left, t, lc;
    if root.right == null {
      return;
    }
    if compare(item, root.right.userData) == Greater {
      root', t' := TurnUp(compare, item, root, false, next, lc, t, rc);
      if root'.right == null {
        return;
      }
    }
    ghost var u := t';
    StepRight(compare, item, root', left, next, lc, u, rc);
    lc' := InRight(lc, u.left, root');
    left' := root';
    t' := u.right;
    root' := root'.right;
    done := false;
  }

  // ---------------------------------------------------------------- the new tree

  /** The root takes the two arms, closed with its own subtrees, as its children. */
  ghost function Joined(lc: Context, t: Tree, rc: Context): Tree
    requires t.Node?
  {
    Node(Plug(lc, t.left), t.link, Plug(rc, t.right))
  }

  lemma JoinedOrder(lc: Context, t: Tree, rc: Context)
    requires After(lc) == [] && Before(rc) == [] && t.Node?
    ensures InOrder(Joined(lc, t, rc)) == InOrder(Spread(lc, t, rc))
    ensures InOrder(Plug(lc, t.left)) == Before(lc) + InOrder(t.left)
    ensures InOrder(Plug(rc, t.right)) == InOrder(t.right) + After(rc)
  {
    SpreadOrder(lc, t, rc);
    PlugInOrder(lc, t.left);
    PlugInOrder(rc, t.right);
    assert Before(lc) + InOrder(t.left) + [] == Before(lc) + InOrder(t.left);
    assert [] + InOrder(t.right) + After(rc) == InOrder(t.right) + After(rc);
    Regrouped(Before(lc), InOrder(t.left), t.link, InOrder(t.right), After(rc));
  }

  lemma {:induction false} CloseLeft(lc: Context, u: Tree, next: Links)
    requires LeftArm(lc, next) && Linked(u) && Tip(lc, next).right == Root(u)
    ensures Linked(Plug(lc, u)) && next.right == Root(Plug(lc, u))
    decreases lc
  {
    if !lc.Top? {
      CloseLeft(lc.up, Node(lc.left, lc.link, u), next);
    }
  }

  lemma {:induction false} CloseRight(rc: Context, u: Tree, next: Links)
    requires RightArm(rc, next) && Linked(u) && Tip(rc, next).left == Root(u)
    ensures Linked(Plug(rc, u)) && next.left == Root(Plug(rc, u))
    decreases rc
  {
    if !rc.Top? {
      CloseRight(rc.up, Node(u, rc.link, rc.right), next);
    }
  }

  lemma {:induction false} CloseUpward(c: Context, u: Tree, next: Links)
    requires ArmUpward(c, next) && Upward(u) && ChildOf(u, Tip(c, next))
    ensures Upward(Plug(c, u)) && ChildOf(Plug(c, u), next)
    decreases c
  {
    match c
    case Top =>
    case InLeft(up, n, r) => CloseUpward(up, Node(u, n, r), next);
    case InRight(up, l, n) => CloseUpward(up, Node(l, n, u), next);
  }

  /** The root's left subtree fills the hole of the left arm, its right subtree that of the right. */
  method FillLeft(root: Links, left: Links, next: Links, ghost lc: Context, ghost u: Tree)
    requires LeftArm(lc, next) && Linked(u) && left == Tip(lc, next) && root.left == Root(u)
    requires DistinctContext(lc) && ContextNodes(lc) !! Nodes(u) && Distinct(u)
    requires next !in ContextNodes(lc) && next !in Nodes(u)
    modifies left`right, Nodes(u)`parent
    ensures Linked(Plug(lc, u)) && next.right == Root(Plug(lc, u))
    ensures old(ArmUpward(lc, next) && Upward(u)) ==> Upward(Plug(lc, u))
  {
    assert allocated(ContextNodes(lc)) && allocated(Nodes(u));
    left.right := root.left;
    Reparent(left.right, left, u);
    assert LeftArm(lc, next);
    CloseLeft(lc, u, next);
    if old(ArmUpward(lc, next) && Upward(u)) {
      CloseUpward(lc, u, next);
    }
  }

  method FillRight(root: Links, right: Links, next: Links, ghost rc: Context, ghost u: Tree)
    requires RightArm(rc, next) && Linked(u) && right == Tip(rc, next) && root.right == Root(u)
    requires DistinctContext(rc) && ContextNodes(rc) !! Nodes(u) && Distinct(u)
    requires next !in ContextNodes(rc) && next !in Nodes(u)
    modifies right`left, Nodes(u)`parent
    ensures Linked(Plug(rc, u)) && next.left == Root(Plug(rc, u))
    ensures old(ArmUpward(rc, next) && Upward(u)) ==> Upward(Plug(rc, u))
  {
    assert allocated(ContextNodes(rc)) && allocated(Nodes(u));
    right.left := root.right;
    Reparent(right.left, right, u);
    assert RightArm(rc, next);
    CloseRight(rc, u, next);
    if old(ArmUpward(rc, next) && Upward(u)) {
      CloseUpward(rc, u, next);
    }
  }

  method FillHoles(root: Links, left: Links, right: Links, next: Links,
                   ghost lc: Context, ghost t: Tree, ghost rc: Context)
    requires Pieces(lc, t, rc, next) && Separate(lc, t, rc, next) && t.Node? && root == t.link
    requires left == Tip(lc, next) && right == Tip(rc, next)
    modifies left`right, right`left, Nodes(t)`parent
    ensures Linked(Plug(lc, t.left)) && next.right == Root(Plug(lc, t.left))
    ensures Linked(Plug(rc, t.right)) && next.left == Root(Plug(rc, t.right))
    ensures old(PiecesUpward(lc, t, rc, next)) ==> Upward(Plug(lc, t.left)) && Upward(Plug(rc, t.right))
  {
    hide InOrder, Plug;
    PlugNodes(lc, t.left);
    assert Linked(t.left) && Linked(t.right);
    assert allocated(ContextNodes(rc)) && allocated(Nodes(t.right)) && allocated(Nodes(Plug(lc, t.left)));
    FillLeft(root, left, next, lc, t.left);
    FillRight(root, right, next, rc, t.right);
  }

  method TakeArms(root: Links, next: Links, ghost l: Tree, ghost r: Tree)
    requires Linked(l) && Linked(r) && next.right == Root(l) && next.left == Root(r)
    requires Distinct(Node(l, root, r)) && root != next
    modifies root`left, root`right, root`parent, Nodes(l)`parent, Nodes(r)`parent
    ensures Linked(Node(l, root, r)) && root.parent == null
    ensures old(Upward(l) && Upward(r)) ==> Upward(Node(l, root, r))
  {
    assert allocated(Nodes(l)) && allocated(Nodes(r));
    root.left := next.right;
    Reparent(next.right, root, l);
    root.right := next.left;
    Reparent(next.left, root, r);
    root.parent := null;
    assert Linked(l) && Linked(r);
  }

  method Join(root: Links, left: Links, right: Links, next: Links, ghost lc: Context, ghost t: Tree, ghost rc: Context)
    requires Pieces(lc, t, rc, next) && Separate(lc, t, rc, next) && t.Node? && root == t.link
    requires left == Tip(lc, next) && right == Tip(rc, next)
    modifies left`right, right`left, root`left, root`right,
             ContextNodes(lc)`parent, ContextNodes(rc)`parent, Nodes(t)`parent
    ensures Linked(Joined(lc, t, rc)) && root.parent == null
    ensures old(PiecesUpward(lc, t, rc, next)) ==> Upward(Joined(lc, t, rc))
  {
    PlugNodes(lc, t.left);
    PlugNodes(rc, t.right);
    PlugDistinct(lc, t.left);
    PlugDistinct(rc, t.right);
    FillHoles(root, left, right, next, lc, t, rc);
    TakeArms(root, next, Plug(lc, t.left), Plug(rc, t.right));
  }

  /** The loop has reached the parts, in that many rounds. */
  ghost predicate Arrived(lc: Context, t: Tree, rc: Context, rounds: nat, p: Parts) {
    t.Node? && Joined(lc, t, rc) == Node(p.left, p.link, p.right) && rounds == p.rounds
  }

  lemma WayStart(compare: (int, int) -> Order, item: int, w: Tree)
    requires w.Node?
    ensures OnTheWay(compare, item, Top, w, Top, 0, Parted(compare, item, w))
  {
  }

  lemma WayLeft(compare: (int, int) -> Order, item: int, lc: Context, t: Tree, rc: Context, rounds: nat, p: Parts)
    requires t.Node? && compare(item, t.link.userData) == Less && OnTheWay(compare, item, lc, t, rc, rounds, p)
    ensures var u := LeftTurned(compare, item, t);
      if u.left.Leaf? then Arrived(lc, u, rc, rounds + 1, p)
      else OnTheWay(compare, item, lc, u.left, InLeft(rc, u.link, u.right), rounds + 1, p)
  {
  }

  lemma WayRight(compare: (int, int) -> Order, item: int, lc: Context, t: Tree, rc: Context, rounds: nat, p: Parts)
    requires t.Node? && compare(item, t.link.userData) == Greater && OnTheWay(compare, item, lc, t, rc, rounds, p)
    ensures var u := RightTurned(compare, item, t);
      if u.right.Leaf? then Arrived(lc, u, rc, rounds + 1, p)
      else OnTheWay(compare, item, InRight(lc, u.left, u.link), u.right, rc, rounds + 1, p)
  {
  }

  lemma WayEnds(compare: (int, int) -> Order, item: int, lc: Context, t: Tree, rc: Context, rounds: nat, p: Parts)
    requires t.Node? && compare(item, t.link.userData) == Equal && OnTheWay(compare, item, lc, t, rc, rounds, p)
    ensures Arrived(lc, t, rc, rounds + 1, p)
  {
  }

  lemma DescentStarts(compare: (int, int) -> Order, item: int, w: Tree, next: Links)
    requires Linked(w) && Distinct(w) && Sorts(compare, item, InOrder(w)) && next !in Nodes(w)
    ensures Descending(compare, item, Top, w, Top, next) && (Upward(w) ==> PiecesUpward(Top, w, Top, next))
  {
  }

  /** The way down, until the root matches or there is nothing further down on item's side. */
  method Descend(compare: (int, int) -> Order, item: int, tableRoot: Links, next: Links, ghost w: Tree)
    returns (found: bool, root: Links, left: Links, right: Links,
             ghost lc: Context, ghost t: Tree, ghost rc: Context, ghost rounds: nat)
    requires Linked(w) && Distinct(w) && w.Node? && tableRoot == w.link && Sorts(compare, item, InOrder(w))
    requires next !in Nodes(w)
    modifies next`left, next`right, Nodes(w)`left, Nodes(w)`right, Nodes(w)`parent
    ensures Descending(compare, item, lc, t, rc, next) && t.Node? && root == t.link
    ensures left == Tip(lc, next) && right == Tip(rc, next)
    ensures InOrder(Spread(lc, t, rc)) == InOrder(w)
    ensures if found then compare(item, root.userData) == Equal else NothingThere(compare, item, t)
    ensures old(Upward(w)) ==> PiecesUpward(lc, t, rc, next)
    ensures Arrived(lc, t, rc, rounds, old(Parted(compare, item, w)))
  {
    hide OnTheWay, Arrived, Parted, LeftTurned, RightTurned;
    hide Pieces, PiecesUpward, Narrowed, Linked, Upward, Separate;
    root, left, right, lc, t, rc, rounds := tableRoot, next, next, Top, w, Top, 0;
    ghost var p := Parted(compare, item, w);
    WayStart(compare, item, w);
    DescentStarts(compare, item, w, next);
    while true
      invariant Descending(compare, item, lc, t, rc, next)
      invariant t.Node? && root == t.link && left == Tip(lc, next) && right == Tip(rc, next)
      invariant InOrder(Spread(lc, t, rc)) == InOrder(w)
      invariant old(Upward(w)) ==> PiecesUpward(lc, t, rc, next)
      invariant OnTheWay(compare, item, lc, t, rc, rounds, p)
      decreases |InOrder(t)|
    {
      SameOrder(Spread(lc, t, rc), w);
      Apart(lc, t, rc, next);
      assert allocated(Nodes(t));
      var done := true;
      var comparison := compare(item, root.userData);
      if comparison == Less {
        WayLeft(compare, item, lc, t, rc, rounds, p);
        done, root, right, t, rc := DescendLeft(compare, item, root, right, next, lc, t, rc);
      } else if comparison == Greater {
        WayRight(compare, item, lc, t, rc, rounds, p);
        done, root, left, t, lc := DescendRight(compare, item, root, left, next, lc, t, rc);
      } else {
        WayEnds(compare, item, lc, t, rc, rounds, p);
      }
      rounds := rounds + 1;
      if done {
        found := comparison == Equal;
        break;
      }
    }
  }

  ghost predicate NothingThere(compare: (int, int) -> Order, item: int, t: Tree)
    requires t.Node?
    reads t.link`userData
  {
    match compare(item, t.link.userData)
    case Less => t.left.Leaf?
    case Greater => t.right.Leaf?
    case Equal => false
  }

  lemma Neighbour(compare: (int, int) -> Order, item: int, lc: Context, t: Tree, rc: Context)
    requires Narrowed(compare, item, lc, t, rc) && t.Node? && NothingThere(compare, item, t)
    ensures AllCompare(compare, item, InOrder(Plug(lc, t.left)), Greater)
    ensures AllCompare(compare, item, InOrder(Plug(rc, t.right)), Less)
  {
    JoinedOrder(lc, t, rc);
    if compare(item, t.link.userData) == Less {
      NarrowedLeft(compare, item, lc, t, rc);
      assert Before(lc) + [] == Before(lc);
    } else {
      NarrowedRight(compare, item, lc, t, rc);
      assert [] + After(rc) == After(rc);
    }
  }

  /** The descent from root, and the tree put together again around the node where it ends. Where
      nothing matches, that node is a neighbour of the place item belongs to. */
  method Splay(compare: (int, int) -> Order, item: int, tableRoot: Links, ghost w: Tree)
    returns (found: bool, root: Links, ghost w': Tree, ghost rounds: nat)
    requires Linked(w) && Distinct(w) && w.Node? && tableRoot == w.link && Sorts(compare, item, InOrder(w))
    modifies Nodes(w)`left, Nodes(w)`right, Nodes(w)`parent
    ensures Linked(w') && InOrder(w') == InOrder(w) && w'.Node? && root == w'.link
    ensures root.parent == null && (old(Upward(w)) ==> Upward(w'))
    ensures w' == old(TopSplayed(compare, item, w)) && rounds == old(Parted(compare, item, w).rounds)
    ensures found <==> compare(item, root.userData) == Equal
    ensures !found ==>
      && AllCompare(compare, item, InOrder(w'.left), Greater) && AllCompare(compare, item, InOrder(w'.right), Less)
  {
    hide OnTheWay, Parted, Upward, PiecesUpward, Linked, Pieces, Separate;
    assert allocated(Nodes(w)) && allocated(InOrder(w));
    var next := new Links();
    var left, right;
    ghost var lc, t, rc;
    found, root, left, right, lc, t, rc, rounds := Descend(compare, item, tableRoot, next, w);
    SameOrder(Spread(lc, t, rc), w);
    Apart(lc, t, rc, next);
    w' := Joined(lc, t, rc);
    JoinedOrder(lc, t, rc);
    if !found {
      Neighbour(compare, item, lc, t, rc);
    }
    assert allocated(InOrder(w'.left)) && allocated(InOrder(w'.right));
    Join(root, left, right, next, lc, t, rc);
  }

  // ---------------------------------------------------------------- insertion at the root

  /** The tree with n as its new root, left or right of the old one. */
  ghost function Rerooted(t: Tree, n: Links, before: bool): Tree {
    if t.Leaf? then Node(Leaf, n, Leaf)
    else if before then Node(t.left, n, Node(Leaf, t.link, t.right))
    else Node(Node(t.left, t.link, Leaf), n, t.right)
  }

  ghost function RerootedAt(t: Tree, before: bool): nat {
    if t.Leaf? then 0 else |InOrder(t.left)| + if before then 0 else 1
  }

  lemma InsertedBeside(l: seq<Links>, x: Links, r: seq<Links>, n: Links)
    ensures InsertedAt(l + [x] + r, |l|, n) == l + [n] + ([] + [x] + r)
    ensures InsertedAt(l + [x] + r, |l| + 1, n) == (l + [x] + []) + [n] + r
  {
  }

  lemma RerootedOrder(t: Tree, n: Links, before: bool)
    ensures RerootedAt(t, before) <= |InOrder(t)|
    ensures InOrder(Rerooted(t, n, before)) == InsertedAt(InOrder(t), RerootedAt(t, before), n)
  {
    if t.Node? {
      InsertedBeside(InOrder(t.left), t.link, InOrder(t.right), n);
    }
  }

  lemma RerootedNodes(t: Tree, n: Links, before: bool)
    requires Distinct(t) && n !in Nodes(t)
    ensures Distinct(Rerooted(t, n, before)) && Nodes(Rerooted(t, n, before)) == Nodes(t) + {n}
  {
  }

  /** Where the splay has ended, item divides the order at the root. */
  lemma RootDivides(compare: (int, int) -> Order, item: int, t: Tree, before: bool)
    requires t.Node? ==>
      && AllCompare(compare, item, InOrder(t.left), Greater) && AllCompare(compare, item, InOrder(t.right), Less)
      && compare(item, t.link.userData) == if before then Less else Greater
    ensures Divides(compare, item, InOrder(t), RerootedAt(t, before))
  {
    var s := InOrder(t);
    if t.Node? {
      var l, r := InOrder(t.left), InOrder(t.right);
      forall i | 0 <= i < |s|
        ensures compare(item, s[i].userData) == if i < RerootedAt(t, before) then Greater else Less
      {
        assert s[i] == if i < |l| then l[i] else if i == |l| then t.link else r[i - |l| - 1];
      }
    }
  }

  /** The source does not set the parent link of the new root's other child, so that one is right
      only where there is no such child. */
  method SplitRoot(n: Links, root: Links?, before: bool, ghost t: Tree)
    requires Linked(t) && Distinct(t) && root == Root(t) && n !in Nodes(t)
    modifies n`left, n`right, n`parent, Some(root)`left, Some(root)`right, Some(root)`parent
    ensures Linked(Rerooted(t, n, before)) && (t.Node? ==> n.parent == null)
    ensures old(Upward(t)) ==>
      (Upward(Rerooted(t, n, before)) <==> t.Leaf? || if before then t.left.Leaf? else t.right.Leaf?)
  {
    if root == null {
      n.left, n.right := null, null;
      return;
    }
    assert Linked(t.left) && Linked(t.right);
    if before {
      n.left := root.left;
      n.right := root;
      root.left := null;
    } else {
      n.right := root.right;
      n.left := root;
      root.right := null;
    }
    n.parent := null;
    root.parent := n;
    assert Linked(t.left) && Linked(t.right);
    assert old(Upward(t)) ==> Upward(t.left) && Upward(t.right);
  }
}
