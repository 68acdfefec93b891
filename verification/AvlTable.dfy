/** The AVL generic table: a balanced tree hung under the table's own node. */
module AvlTable {
  import opened Limits
  import opened LinkTrees
  import opened AvlShape
  import opened AvlInsert
  import opened AvlDelete
  import opened Searching
  import opened SplayDelete
  import opened SwapLinks
  import opened TableCursor
  import opened Walks

  /** TableEmptyTree, TableFoundNode, TableInsertAsLeft and TableInsertAsRight. */
  datatype SearchResult = EmptyTree | FoundNode | InsertAsLeft | InsertAsRight

  lemma TailOf(h: Links, e: seq<Links>, p: seq<Links>, m: seq<Links>, q: seq<Links>)
    requires [] + [h] + e == p + m + q && |p| > 0
    ensures e == p[1..] + m + q
  {
    assert e == ([] + [h] + e)[1..];
    assert (p + m + q)[1..] == p[1..] + m + q;
  }

  lemma HeadAndTail(h: Links, s: seq<Links>)
    requires NoRepeats([h] + s)
    ensures NoRepeats(s) && Elements([h] + s) == Elements(s) + {h} && h !in Elements(s)
  {
    NoRepeatsConcat([h], s);
    NothingSharedNodes([h], s);
    ElementsConcat([h], s);
    assert Elements([h]) == {h} by { assert [h][0] == h; }
  }

  class Table {
    const balancedRoot: Links
    const compareRoutine: (int, int) -> Order
    var numberGenericTableElements: nat
    var depthOfTree: nat
    var restartKey: Links?
    var deleteCount: nat
    var whichOrderedElement: nat
    var orderedPointer: Links?
    ghost var whole: Tree

    ghost predicate Valid()
      reads this, Nodes(whole)`parent, Nodes(whole)`left, Nodes(whole)`right, Nodes(whole)`balance
    {
      && Rooted(whole) && Sound(whole, balancedRoot)
      && depthOfTree == Height(whole.right)
      && numberGenericTableElements == |Elems()| < MAXULONG
      && (restartKey != null ==> restartKey in Nodes(whole))
    }

    /** The table's nodes, in order. */
    ghost function Elems(): seq<Links>
      reads this
    {
      if whole.Node? then InOrder(whole.right) else []
    }

    /** RtlInitializeGenericTableAvl. */
    constructor (compare: (int, int) -> Order)
      ensures Valid() && Elems() == [] && compareRoutine == compare && restartKey == null
      ensures fresh(balancedRoot) && Nodes(whole) == {balancedRoot}
    {
      var root := new Links();
      balancedRoot := root;
      compareRoutine := compare;
      numberGenericTableElements, depthOfTree, deleteCount, whichOrderedElement := 0, 0, 0, 0;
      restartKey, orderedPointer := null, null;
      whole := Node(Leaf, root, Leaf);
      new;
      balancedRoot.parent := balancedRoot;
      assert Nodes(whole) == {balancedRoot};
      assert Distinct(whole.left) && Distinct(whole.right);
    }

    /** Climbs from the new leaf, restoring balance factors; t is the subtree that has grown. */
    method ClimbAfterInsert(leaf: Links, parent: Links, ghost c0: Context)
      requires Rooted(Plug(c0, Node(Leaf, leaf, Leaf))) && Grown(c0, Node(Leaf, leaf, Leaf), balancedRoot)
      requires parent == c0.link && balancedRoot.balance == -1 && depthOfTree == RootHeight(c0, 0)
      modifies this`depthOfTree, this`whole,
               Nodes(Plug(c0, Node(Leaf, leaf, Leaf)))`parent, Nodes(Plug(c0, Node(Leaf, leaf, Leaf)))`left,
               Nodes(Plug(c0, Node(Leaf, leaf, Leaf)))`right, Nodes(Plug(c0, Node(Leaf, leaf, Leaf)))`balance
      ensures Rooted(whole) && Sound(whole, balancedRoot) && depthOfTree == Height(whole.right)
      ensures InOrder(whole) == InOrder(Plug(c0, Node(Leaf, leaf, Leaf)))
    {
      hide Sound, Distinct, RootHeight, Plug, WholeCell;
      var newNode, nodeOrParent := leaf, parent;
      ghost var c, t := c0, Node(Leaf, leaf, Leaf);
      ghost var s := InOrder(Plug(c, t));
      while true
        invariant Rooted(Plug(c, t)) && Grown(c, t, balancedRoot) && balancedRoot.balance == -1
        invariant newNode == t.link && nodeOrParent == c.link
        invariant RootHeight(c, Height(t) - 1) == depthOfTree
        invariant InOrder(Plug(c, t)) == s && Nodes(Plug(c, t)) == Nodes(Plug(c0, Node(Leaf, leaf, Leaf)))
        decreases c
      {
        var done, higher, w' := ClimbGrown(newNode, nodeOrParent, balancedRoot, c, t);
        SameOrder(Plug(c, t), w');
        if done {
          whole := w';
          depthOfTree := depthOfTree + if higher then 1 else 0;
          break;
        }
        c, t := c.up, Zip(c, t);
        newNode, nodeOrParent := nodeOrParent, nodeOrParent.parent;
      }
    }

    /** The table's own node is made to look as if it leaned, so that the climb needs no test for
        the root. */
    method StartClimb(leaf: Links, ghost c: Context)
      requires Distinct(Plug(c, Leaf)) && Hung(c, balancedRoot) && Sound(Plug(c, Leaf), balancedRoot)
      requires leaf !in Nodes(Plug(c, Leaf)) && leaf.balance == 0
      modifies balancedRoot`balance
      ensures Grown(c, Node(Leaf, leaf, Leaf), balancedRoot) && balancedRoot.balance == -1
      ensures RootHeight(c, 0) == Height(Plug(c, Leaf).right)
    {
      ghost var w := Plug(c, Leaf);
      PlugNodes(c, Leaf);
      SentinelAbove(c, Leaf, balancedRoot);
      assert allocated(Nodes(w));
      balancedRoot.balance := -1;
      forall x | x in Nodes(w) && x != balancedRoot ensures x.balance == TiltOf(w, x) {
        assert allocated(x);
        assert old(x.balance) == TiltOf(w, x);
      }
      LeafGrows(c, leaf, balancedRoot);
    }

    /** The first node of all: it becomes the only child of the table's own node. */
    method HangFirst(newNode: Links, ghost c: Context)
      requires Rooted(Plug(c, Leaf)) && Sound(Plug(c, Leaf), balancedRoot) && c == InRight(Top, Leaf, balancedRoot)
      requires newNode !in Nodes(Plug(c, Leaf)) && newNode.balance == 0 && newNode.left == null && newNode.right == null
      modifies this`depthOfTree, this`whole, newNode`parent, balancedRoot`left, balancedRoot`right
      ensures Rooted(whole) && Sound(whole, balancedRoot) && depthOfTree == Height(whole.right)
      ensures whole == Plug(c, Node(Leaf, newNode, Leaf))
    {
      HangLeaf(newNode, balancedRoot, false, c);
      LeafGrows(c, newNode, balancedRoot);
      Settled(c, Node(Leaf, newNode, Leaf), balancedRoot);
      whole := Plug(c, Node(Leaf, newNode, Leaf));
      depthOfTree := 1;
    }

    /** Any later node becomes a child of the node p where the search has ended. */
    method HangBelow(newNode: Links, p: Links, left: bool, ghost c: Context)
      requires Rooted(Plug(c, Leaf)) && Sound(Plug(c, Leaf), balancedRoot) && Hung(c, balancedRoot)
      requires p == c.link && (left <==> c.InLeft?) && depthOfTree == Height(Plug(c, Leaf).right)
      requires newNode !in Nodes(Plug(c, Leaf)) && newNode.balance == 0 && newNode.left == null && newNode.right == null
      modifies this`depthOfTree, this`whole, newNode`parent, newNode`left, newNode`right, newNode`balance,
               Nodes(Plug(c, Leaf))`parent, Nodes(Plug(c, Leaf))`left, Nodes(Plug(c, Leaf))`right,
               Nodes(Plug(c, Leaf))`balance
      ensures Rooted(whole) && Sound(whole, balancedRoot) && depthOfTree == Height(whole.right)
      ensures InOrder(whole) == Before(c) + [newNode] + After(c)
    {
      ghost var leaf := Node(Leaf, newNode, Leaf);
      PlugNodes(c, Leaf);
      PlugNodes(c, leaf);
      assert allocated(Nodes(Plug(c, leaf)));
      HangLeaf(newNode, p, left, c);
      StartClimb(newNode, c);
      ClimbAfterInsert(newNode, p, c);
    }

    lemma OneMore(c: Context, n: Links, w': Tree)
      requires InOrder(w') == Before(c) + [n] + After(c) && Distinct(w')
      ensures Nodes(w') == Nodes(Plug(c, Leaf)) + {n}
      ensures |InOrder(w')| == |InOrder(Plug(c, Leaf))| + 1
    {
      PlugNodes(c, Leaf);
      PlugNodes(c, Node(Leaf, n, Leaf));
      PlugInOrder(c, Leaf);
      PlugInOrder(c, Node(Leaf, n, Leaf));
      SameOrder(w', Plug(c, Node(Leaf, n, Leaf)));
    }

    /** Hangs newNode in the empty place c that the search has found. */
    method RtlpInsertAvlTreeNode(newNode: Links, nodeOrParent: Links?, searchResult: SearchResult, ghost c: Context)
      requires Valid() && newNode !in Nodes(whole) && searchResult != FoundNode
      requires numberGenericTableElements != MAXULONG - 1
      requires Plug(c, Leaf) == whole && Hung(c, balancedRoot)
      requires searchResult.EmptyTree? <==> c.up.Top?
      requires !searchResult.EmptyTree? ==> nodeOrParent == c.link && (searchResult.InsertAsLeft? <==> c.InLeft?)
      modifies this`numberGenericTableElements, this`depthOfTree, this`whole,
               newNode`parent, newNode`left, newNode`right, newNode`balance,
               Nodes(whole)`parent, Nodes(whole)`left, Nodes(whole)`right, Nodes(whole)`balance
      ensures Valid() && InOrder(whole) == Before(c) + [newNode] + After(c)
      ensures Nodes(whole) == old(Nodes(whole)) + {newNode}
      ensures depthOfTree - old(depthOfTree) == Height(whole.right) - old(Height(whole.right))
    {
      newNode.left, newNode.right := null, null;
      newNode.balance := 0;
      numberGenericTableElements := numberGenericTableElements + 1;
      if searchResult.EmptyTree? {
        HangFirst(newNode, c);
        PlugInOrder(c, Node(Leaf, newNode, Leaf));
      } else {
        HangBelow(newNode, nodeOrParent, searchResult.InsertAsLeft?, c);
      }
      OneMore(c, newNode, whole);
    }

    // -------------------------------------------------------------- searching

    /** What the search knows when it looks at node t of context c. */
    ghost predicate Between(buffer: int, c: Context)
      reads Before(c), After(c)
      requires Hung(c, balancedRoot)
    {
      HungBefore(c, balancedRoot);
      AllCompare(compareRoutine, buffer, Before(c)[1..], Greater) && AllCompare(compareRoutine, buffer, After(c), Less)
    }

    lemma ElemsFrom(c: Context, t: Tree)
      requires Hung(c, balancedRoot) && Plug(c, t) == whole
      ensures |Before(c)| > 0 && Elems() == Before(c)[1..] + InOrder(t) + After(c)
    {
      HungBefore(c, balancedRoot);
      PlugAvl(c, t, balancedRoot);
      PlugInOrder(c, t);
      assert InOrder(whole) == [] + [balancedRoot] + Elems();
      TailOf(balancedRoot, Elems(), Before(c), InOrder(t), After(c));
    }

    lemma GoesLeft(buffer: int, c: Context, t: Tree)
      requires Hung(c, balancedRoot) && Plug(c, t) == whole && t.Node? && Sorts(compareRoutine, buffer, Elems())
      requires Between(buffer, c) && compareRoutine(buffer, t.link.userData) == Less
      ensures Between(buffer, InLeft(c, t.link, t.right))
    {
      ElemsFrom(c, t);
      var a, b := Before(c)[1..] + InOrder(t.left), InOrder(t.right) + After(c);
      Regrouped(Before(c)[1..], InOrder(t.left), t.link, InOrder(t.right), After(c));
      SortsSplit(compareRoutine, buffer, a, t.link, b);
      assert After(InLeft(c, t.link, t.right)) == [t.link] + b;
    }

    lemma GoesRight(buffer: int, c: Context, t: Tree)
      requires Hung(c, balancedRoot) && Plug(c, t) == whole && t.Node? && Sorts(compareRoutine, buffer, Elems())
      requires Between(buffer, c) && compareRoutine(buffer, t.link.userData) == Greater
      ensures Between(buffer, InRight(c, t.left, t.link))
    {
      ElemsFrom(c, t);
      HungBefore(c, balancedRoot);
      var a, b := Before(c)[1..] + InOrder(t.left), InOrder(t.right) + After(c);
      Regrouped(Before(c)[1..], InOrder(t.left), t.link, InOrder(t.right), After(c));
      SortsSplit(compareRoutine, buffer, a, t.link, b);
      assert Before(InRight(c, t.left, t.link))[1..] == a + [t.link];
    }

    ghost predicate Seeking(buffer: int, c: Context, t: Tree)
      reads this, Before(c), After(c)
    {
      Hung(c, balancedRoot) && Plug(c, t) == whole && Between(buffer, c)
    }

    lemma FoundElem(c: Context, t: Tree)
      requires Hung(c, balancedRoot) && Plug(c, t) == whole && t.Node?
      ensures t.link in Elements(Elems())
    {
      ElemsFrom(c, t);
      Regrouped(Before(c)[1..], InOrder(t.left), t.link, InOrder(t.right), After(c));
      var i := |Before(c)[1..] + InOrder(t.left)|;
      assert Elems()[i] == t.link;
    }

    /** One comparison: the side to go on, and the child there. */
    method Look(buffer: int, currentNode: Links, ghost c: Context, ghost t: Tree)
      returns (o: Order, child: Links?, ghost c': Context, ghost t': Tree)
      requires Valid() && Sorts(compareRoutine, buffer, Elems()) && Seeking(buffer, c, t) && t.Node?
        && t.link == currentNode
      ensures o == compareRoutine(buffer, currentNode.userData)
      ensures o == Equal ==> currentNode in Elements(Elems())
      ensures o != Equal ==>
        && Seeking(buffer, c', t') && child == Root(t') && c'.link == currentNode && !c'.up.Top?
        && (o == Less <==> c'.InLeft?) && t' < t && Height(t') < Height(t)
    {
      ParentHolds(c, t);
      c', t', child := c, t, null;
      o := compareRoutine(buffer, currentNode.userData);
      if o == Less {
        GoesLeft(buffer, c, t);
        child := currentNode.left;
        c', t' := InLeft(c, t.link, t.right), t.left;
      } else if o == Greater {
        GoesRight(buffer, c, t);
        child := currentNode.right;
        c', t' := InRight(c, t.left, t.link), t.right;
      } else {
        FoundElem(c, t);
      }
    }

    /** RtlpFindAvlTableNodeOrParent. Where buffer is not found, c is the empty place between the
        elements it compares greater than and those it compares less than. */
    method Find(buffer: int)
      returns (result: SearchResult, nodeOrParent: Links?, ghost c: Context, ghost comparisons: nat)
      requires Valid() && Sorts(compareRoutine, buffer, Elems())
      ensures result.EmptyTree? <==> Elems() == []
      ensures result.FoundNode? ==>
        && nodeOrParent != null && nodeOrParent in Elements(Elems())
        && compareRoutine(buffer, nodeOrParent.userData) == Equal
      ensures !result.FoundNode? ==>
        && Seeking(buffer, c, Leaf) && (result.EmptyTree? <==> c.up.Top?)
        && (!result.EmptyTree? ==> nodeOrParent == c.link && (result.InsertAsLeft? <==> c.InLeft?))
      ensures comparisons <= depthOfTree
    {
      c := InRight(Top, Leaf, balancedRoot);
      ghost var t := whole.right;
      ElemsFrom(c, t);
      if numberGenericTableElements == 0 {
        assert t.Leaf?;
        return EmptyTree, null, c, 0;
      }
      assert t.Node?;
      ParentHolds(Top, whole);
      comparisons := 0;
      var currentNode := balancedRoot.right;
      while true
        invariant Valid() && Sorts(compareRoutine, buffer, Elems())
        invariant Seeking(buffer, c, t) && t.Node? && currentNode == t.link
        invariant comparisons + Height(t) <= depthOfTree
        decreases t
      {
        assert allocated(Nodes(whole)) && allocated(Elems());
        var o, child;
        o, child, c, t := Look(buffer, currentNode, c, t);
        comparisons := comparisons + 1;
        if o == Equal {
          return FoundNode, currentNode, c, comparisons;
        }
        if child == null {
          return if o == Less then InsertAsLeft else InsertAsRight, currentNode, c, comparisons;
        }
        currentNode := child;
      }
    }

    // -------------------------------------------------------------- deleting

    /** Climbs from the place where a node has been cut out, restoring balance factors. */
    method ClimbAfterDelete(parent: Links, side: int, ghost c0: Context, ghost t0: Tree)
      requires Rooted(Plug(c0, t0)) && Shrunk(c0, t0, balancedRoot) && balancedRoot.balance == 0
      requires parent == c0.link && side == if c0.InLeft? then -1 else 1
      requires depthOfTree == RootHeight(c0, Height(t0) + 1)
      modifies this`depthOfTree, this`whole, Nodes(Plug(c0, t0))`parent, Nodes(Plug(c0, t0))`left,
               Nodes(Plug(c0, t0))`right, Nodes(Plug(c0, t0))`balance
      ensures Rooted(whole) && Sound(whole, balancedRoot) && depthOfTree == Height(whole.right)
      ensures InOrder(whole) == InOrder(Plug(c0, t0))
    {
      var parentNode, balance := parent, side;
      ghost var c, t := c0, t0;
      ghost var s := InOrder(Plug(c, t));
      while true
        invariant Rooted(Plug(c, t)) && Shrunk(c, t, balancedRoot) && balancedRoot.balance == 0
        invariant parentNode == c.link && balance == if c.InLeft? then -1 else 1
        invariant RootHeight(c, Height(t) + 1) == depthOfTree
        invariant InOrder(Plug(c, t)) == s && Nodes(Plug(c, t)) == Nodes(Plug(c0, t0))
        decreases c
      {
        var done, lower, top, u := ClimbShrunk(parentNode, balance, balancedRoot, c, t);
        SameOrder(Plug(c, t), Plug(c.up, u));
        if done {
          whole := Plug(c.up, u);
          depthOfTree := depthOfTree - if lower then 1 else 0;
          break;
        }
        c, t := c.up, u;
        Tests(c, t);
        balance := if IsRightChild(top) then 1 else -1;
        parentNode := top.parent;
      }
    }

    /** The table's own node is made to look level, so that the climb needs no test for the root. */
    method AssumeLevel(ghost c: Context, ghost t: Tree)
      requires Distinct(Plug(c, t)) && Shrunk(c, t, balancedRoot)
      modifies balancedRoot`balance
      ensures Shrunk(c, t, balancedRoot) && balancedRoot.balance == 0
    {
      SentinelAbove(c, t, balancedRoot);
      balancedRoot.balance := 0;
    }

    /** Cuts out node, or its stead; the climb that is to follow starts at parentNode. */
    method CutOut(node: Links)
      returns (deleteNode: Links, parentNode: Links, side: int, ghost c: Context, ghost t: Tree)
      requires Valid() && node in Nodes(whole) && node != balancedRoot
      modifies Nodes(whole)`parent, Nodes(whole)`left, Nodes(whole)`right, Nodes(whole)`balance
      ensures Rooted(Plug(c, t)) && Shrunk(c, t, balancedRoot)
      ensures parentNode == c.link && side == if c.InLeft? then -1 else 1
      ensures depthOfTree == RootHeight(c, Height(t) + 1)
      ensures Nodes(Plug(c, t)) == Nodes(whole) - {deleteNode} && deleteNode in Nodes(whole)
      ensures InOrder(Plug(c, t)) == Without(InOrder(whole), deleteNode)
      ensures deleteNode != node ==>
        NextIn(InOrder(whole), node) == deleteNode || PreviousIn(InOrder(whole), node) == deleteNode
    {
      hide Distinct, Without, Shrunk, RootHeight, Height, OnlyChild, NextIn, Hung;
      assert allocated(Nodes(whole));
      deleteNode := ChooseStead(node, whole, balancedRoot);
      ghost var u;
      c, u := Locate(Top, whole, deleteNode).0, Locate(Top, whole, deleteNode).1;
      Here(c, u);
      NodeIsHung(whole, balancedRoot, deleteNode);
      ParentHolds(c, u);
      SpliceOrder(c, u);
      SpliceNodes(c, u);
      t := OnlyChild(u);
      parentNode := deleteNode.parent;
      var isLeft := LinkChild(deleteNode, parentNode, c, u);
      side := if isLeft then -1 else 1;
      CutShrinks(whole, c, u, balancedRoot);
    }

    /** Takes node out of the tree. */
    method RtlpDeleteAvlTreeNode(node: Links)
      requires Valid() && node in Nodes(whole) && node != balancedRoot
      modifies this`depthOfTree, this`whole, Nodes(whole)`parent, Nodes(whole)`left, Nodes(whole)`right,
               Nodes(whole)`balance
      ensures Rooted(whole) && Sound(whole, balancedRoot) && depthOfTree == Height(whole.right)
      ensures InOrder(whole) == Without(old(InOrder(whole)), node)
    {
      hide Shrunk;
      ghost var w := whole;
      assert allocated(Nodes(w));
      var deleteNode, parentNode, side;
      ghost var c, t;
      deleteNode, parentNode, side, c, t := CutOut(node);
      AssumeLevel(c, t);
      ClimbAfterDelete(parentNode, side, c, t);
      SameOrder(whole, Plug(c, t));
      if node == deleteNode {
        return;
      }
      SteadOrder(w, whole, node, deleteNode);
      TakeOver(deleteNode, node, whole, balancedRoot);
      TradedRoot(whole, node, deleteNode);
      whole := Traded(whole, node, deleteNode);
    }

    // -------------------------------------------------------------- the table's sequence

    /** What an enumeration has still to hand out. */
    ghost function Rest(): seq<Links>
      reads this
    {
      RestOf(Elems(), restartKey)
    }

    /** What follows the cursor; the table's own node stands before the first element. */
    ghost function RestOf(s: seq<Links>, key: Links?): seq<Links> {
      if key == null then s else AfterIn([balancedRoot] + s, key)
    }

    lemma WholeOrder()
      requires Valid()
      ensures InOrder(whole) == [balancedRoot] + Elems() && NoRepeats(InOrder(whole)) && NoRepeats(Elems())
      ensures Elements(InOrder(whole)) == Nodes(whole) == Elements(Elems()) + {balancedRoot}
      ensures balancedRoot !in Elements(Elems())
    {
      DistinctIffNoRepeats(whole);
      InOrderNodes(whole);
      assert InOrder(whole) == [] + [balancedRoot] + Elems() == [balancedRoot] + Elems();
      HeadAndTail(balancedRoot, Elems());
    }

    // -------------------------------------------------------------- the routines of the table

    /** Where an unsuccessful search has ended: everything before compares greater, everything
        after compares less, and nothing matches. */
    lemma EmptyPlace(buffer: int, c: Context) returns (k: nat)
      requires Valid() && Seeking(buffer, c, Leaf)
      ensures |Before(c)| > 0 && k == |Before(c)| - 1 && Elems() == Before(c)[1..] + After(c)
      ensures Divides(compareRoutine, buffer, Elems(), k) && FirstMatch(compareRoutine, buffer, Elems()) == null
    {
      HungBefore(c, balancedRoot);
      var a, b := Before(c)[1..], After(c);
      assert Elems() == a + b by {
        ElemsFrom(c, Leaf);
        assert a + [] + b == a + b;
      }
      k := |a|;
      NoMatchBetween(compareRoutine, buffer, a, b);
    }

    /** A match at hand means that the search along the table finds one too. */
    lemma SomeMatch(buffer: int, n: Links)
      requires Valid() && n in Elements(Elems()) && compareRoutine(buffer, n.userData) == Equal
      ensures FirstMatch(compareRoutine, buffer, Elems()) != null
      ensures LinearOrder(compareRoutine) && Ascending(compareRoutine, Elems()) ==>
        FirstMatch(compareRoutine, buffer, Elems()) == n
    {
      WholeOrder();
      var i :| 0 <= i < |Elems()| && Elems()[i] == n;
      NoMatch(compareRoutine, buffer, Elems());
      if LinearOrder(compareRoutine) && Ascending(compareRoutine, Elems()) {
        OnlyMatch(compareRoutine, buffer, Elems(), n);
      }
    }

    /** The tree is never deeper than its number of elements allows: 45 levels at the most. */
    lemma DepthBound()
      requires Valid()
      ensures numberGenericTableElements >= Fib(depthOfTree + 2) - 1
      ensures depthOfTree <= 45
    {
      WholeOrder();
      AvlSize(whole.right);
      if depthOfTree > 45 {
        FibPastWord(depthOfTree + 2);
      }
    }

    method RtlLookupElementGenericTableAvl(buffer: int) returns (node: Links?, ghost comparisons: nat)
      requires Valid() && Sorts(compareRoutine, buffer, Elems())
      ensures node == null <==> FirstMatch(compareRoutine, buffer, Elems()) == null
      ensures node != null ==> node in Elements(Elems()) && compareRoutine(buffer, node.userData) == Equal
      ensures LinearOrder(compareRoutine) && Ascending(compareRoutine, Elems()) ==>
        node == FirstMatch(compareRoutine, buffer, Elems())
      ensures comparisons <= depthOfTree
    {
      var searchResult, nodeOrParent;
      ghost var c;
      assert allocated(Nodes(whole)) && allocated(Elems());
      searchResult, nodeOrParent, c, comparisons := Find(buffer);
      if searchResult != FoundNode {
        ghost var k := EmptyPlace(buffer, c);
        return null, comparisons;
      }
      SomeMatch(buffer, nodeOrParent);
      node := nodeOrParent;
    }

    /** A new element that lands before the cursor is not handed out; one that lands after it takes
        its place in what is still to come. */
    ghost predicate InsertedRest(s: seq<Links>, rest: seq<Links>, rest': seq<Links>, k: nat, n: Links) {
      && |rest| <= |s|
      && var p := |s| - |rest|;
        if k < p then rest' == rest else k - p <= |rest| && rest' == InsertedAt(rest, k - p, n)
    }

    lemma InsertedThere(s: seq<Links>, k: nat, n: Links, key: Links?)
      requires NoRepeats([balancedRoot] + s) && k <= |s| && n !in Elements([balancedRoot] + s)
      requires key != null ==> key in Elements([balancedRoot] + s)
      ensures InsertedRest(s, RestOf(s, key), RestOf(InsertedAt(s, k, n), key), k, n)
    {
      var w := [balancedRoot] + s;
      assert [balancedRoot] + InsertedAt(s, k, n) == InsertedAt(w, k + 1, n);
      if key != null {
        var a, b := SplitAround(w, key);
        assert key != n;
        CursorInserted(a, key, b, k + 1, n);
      }
    }

    /** Where a search for a missing element has ended: c is the empty place, k its place in the
        table's sequence. */
    ghost predicate PlaceFound(nodeOrParent: Links?, searchResult: SearchResult, c: Context, k: nat)
      reads this
    {
      && Plug(c, Leaf) == whole && Hung(c, balancedRoot) && (searchResult.EmptyTree? <==> c.up.Top?)
      && (!searchResult.EmptyTree? ==> nodeOrParent == c.link && (searchResult.InsertAsLeft? <==> c.InLeft?))
      && |Before(c)| > 0 && k == |Before(c)| - 1 && Elems() == Before(c)[1..] + After(c)
    }

    /** The new node takes its place in the table's sequence. */
    method PlaceNode(newNode: Links, nodeOrParent: Links?, searchResult: SearchResult, ghost c: Context, ghost k: nat)
      requires Valid() && newNode !in Nodes(whole) && searchResult != FoundNode
      requires numberGenericTableElements != MAXULONG - 1 && PlaceFound(nodeOrParent, searchResult, c, k)
      modifies this`numberGenericTableElements, this`depthOfTree, this`whole,
               newNode`parent, newNode`left, newNode`right, newNode`balance,
               Nodes(whole)`parent, Nodes(whole)`left, Nodes(whole)`right, Nodes(whole)`balance
      ensures Valid() && Elems() == InsertedAt(old(Elems()), k, newNode)
      ensures Nodes(whole) == old(Nodes(whole)) + {newNode}
      ensures depthOfTree - old(depthOfTree) == Height(whole.right) - old(Height(whole.right))
    {
      ghost var h, q := Before(c), After(c);
      RtlpInsertAvlTreeNode(newNode, nodeOrParent, searchResult, c);
      assert InOrder(whole) == [balancedRoot] + Elems() by {
        WholeOrder();
      }
      PlacedThere(balancedRoot, Elems(), h, newNode, q);
    }

    lemma PlacedThere(r: Links, e: seq<Links>, h: seq<Links>, n: Links, q: seq<Links>)
      requires [r] + e == h + [n] + q && h != []
      ensures e == InsertedAt(h[1..] + q, |h| - 1, n)
    {
      assert e == ([r] + e)[1..];
      assert (h + [n] + q)[1..] == h[1..] + [n] + q;
      InsertedBetween(h[1..], n, q);
    }

    lemma InsertedBetween(a: seq<Links>, n: Links, b: seq<Links>)
      ensures InsertedAt(a + b, |a|, n) == a + [n] + b
    {
      assert (a + b)[..|a|] == a && (a + b)[|a|..] == b;
    }

    /** The new node, allocated, hung into the tree and filled. */
    method AddNode(buffer: int, nodeOrParent: Links?, searchResult: SearchResult, ghost c: Context, ghost k: nat)
      returns (node: Links)
      requires Valid() && numberGenericTableElements != MAXULONG - 1
      requires searchResult != FoundNode && PlaceFound(nodeOrParent, searchResult, c, k)
      modifies this`numberGenericTableElements, this`depthOfTree, this`whole,
               Nodes(whole)`parent, Nodes(whole)`left, Nodes(whole)`right, Nodes(whole)`balance
      ensures Valid() && fresh(node) && node.userData == buffer
      ensures Elems() == InsertedAt(old(Elems()), k, node) && Nodes(whole) == old(Nodes(whole)) + {node}
      ensures depthOfTree - old(depthOfTree) == Height(whole.right) - old(Height(whole.right))
    {
      assert allocated(Nodes(whole));
      node := new Links();
      assert node !in Nodes(whole);
      PlaceNode(node, nodeOrParent, searchResult, c, k);
      node.userData := buffer;
    }

    /** RtlInsertElementGenericTableFullAvl, after a search for buffer that has ended in
        nodeOrParent. The allocation routine's answer is a parameter. */
    method RtlInsertElementGenericTableFullAvl(buffer: int, nodeOrParent: Links?, searchResult: SearchResult,
                                               allocates: bool, ghost c: Context, ghost k: nat)
      returns (node: Links?, newElement: bool)
      requires Valid() && (searchResult != FoundNode ==> numberGenericTableElements != MAXULONG - 1)
      requires searchResult.FoundNode? ==> nodeOrParent != null
      requires !searchResult.FoundNode? ==> PlaceFound(nodeOrParent, searchResult, c, k)
      modifies this`numberGenericTableElements, this`depthOfTree, this`whole,
               Nodes(whole)`parent, Nodes(whole)`left, Nodes(whole)`right, Nodes(whole)`balance
      ensures Valid() && (newElement <==> searchResult != FoundNode && allocates)
      ensures searchResult.FoundNode? ==> node == nodeOrParent
      ensures !searchResult.FoundNode? && !allocates ==> node == null
      ensures !newElement ==> whole == old(whole)
      ensures newElement ==>
        && k <= old(|Elems()|) && fresh(node) && node.userData == buffer
        && Elems() == InsertedAt(old(Elems()), k, node) && Nodes(whole) == old(Nodes(whole)) + {node}
        && depthOfTree - old(depthOfTree) == Height(whole.right) - old(Height(whole.right))
    {
      if searchResult == FoundNode {
        return nodeOrParent, false;
      }
      if !allocates {
        return null, false;
      }
      node := AddNode(buffer, nodeOrParent, searchResult, c, k);
      newElement := true;
    }

    /** RtlpFindAvlTableNodeOrParent once more, with what its answer means for the whole table. */
    method FindPlace(buffer: int)
      returns (searchResult: SearchResult, nodeOrParent: Links?, ghost c: Context, ghost k: nat)
      requires Valid() && Sorts(compareRoutine, buffer, Elems())
      ensures searchResult.FoundNode? <==> FirstMatch(compareRoutine, buffer, Elems()) != null
      ensures searchResult.FoundNode? ==>
        && nodeOrParent != null && nodeOrParent in Elements(Elems())
        && compareRoutine(buffer, nodeOrParent.userData) == Equal
      ensures !searchResult.FoundNode? ==>
        && PlaceFound(nodeOrParent, searchResult, c, k)
        && Divides(compareRoutine, buffer, Elems(), k)
    {
      ghost var comparisons;
      assert allocated(Nodes(whole)) && allocated(Elems());
      searchResult, nodeOrParent, c, comparisons := Find(buffer);
      k := 0;
      if searchResult == FoundNode {
        SomeMatch(buffer, nodeOrParent);
      } else {
        k := EmptyPlace(buffer, c);
      }
    }

    /** The search and the insertion: what becomes of the table. */
    method FindAndInsert(buffer: int, allocates: bool) returns (node: Links?, newElement: bool, ghost k: nat)
      requires Valid() && Sorts(compareRoutine, buffer, Elems())
      requires FirstMatch(compareRoutine, buffer, Elems()) == null ==> numberGenericTableElements != MAXULONG - 1
      modifies this`numberGenericTableElements, this`depthOfTree, this`whole,
               Nodes(whole)`parent, Nodes(whole)`left, Nodes(whole)`right, Nodes(whole)`balance
      ensures Valid() && (newElement <==> old(FirstMatch(compareRoutine, buffer, Elems())) == null && allocates)
      ensures node == null <==> old(FirstMatch(compareRoutine, buffer, Elems())) == null && !allocates
      ensures !newElement ==> whole == old(whole) && (node == null || node in Elements(Elems()))
      ensures node != null && !newElement ==> compareRoutine(buffer, node.userData) == Equal
      ensures newElement ==>
        && fresh(node) && node.userData == buffer && Divides(compareRoutine, buffer, old(Elems()), k)
        && Elems() == InsertedAt(old(Elems()), k, node) && Nodes(whole) == old(Nodes(whole)) + {node}
        && depthOfTree - old(depthOfTree) == Height(whole.right) - old(Height(whole.right))
    {
      var searchResult, nodeOrParent;
      ghost var c;
      assert allocated(Nodes(whole)) && allocated(Elems());
      searchResult, nodeOrParent, c, k := FindPlace(buffer);
      node, newElement := RtlInsertElementGenericTableFullAvl(buffer, nodeOrParent, searchResult, allocates, c, k);
    }

    /** The same, and what becomes of an enumeration under way. */
    method InsertWithCursor(buffer: int, allocates: bool)
      returns (node: Links?, newElement: bool, ghost k: nat)
      requires Valid() && Sorts(compareRoutine, buffer, Elems())
      requires FirstMatch(compareRoutine, buffer, Elems()) == null ==> numberGenericTableElements != MAXULONG - 1
      modifies this`numberGenericTableElements, this`depthOfTree, this`whole,
               Nodes(whole)`parent, Nodes(whole)`left, Nodes(whole)`right, Nodes(whole)`balance
      ensures Valid() && (newElement <==> old(FirstMatch(compareRoutine, buffer, Elems())) == null && allocates)
      ensures node == null <==> old(FirstMatch(compareRoutine, buffer, Elems())) == null && !allocates
      ensures !newElement ==>
        && Elems() == old(Elems()) && Rest() == old(Rest())
        && (node != null ==> node in Elements(Elems()) && compareRoutine(buffer, node.userData) == Equal)
      ensures newElement ==>
        && fresh(node) && node.userData == buffer && Divides(compareRoutine, buffer, old(Elems()), k)
        && Elems() == InsertedAt(old(Elems()), k, node)
        && InsertedRest(old(Elems()), old(Rest()), Rest(), k, node)
    {
      ghost var s := Elems();
      WholeOrder();
      assert allocated(s) && allocated(Nodes(whole));
      node, newElement, k := FindAndInsert(buffer, allocates);
      if newElement {
        InsertedThere(s, k, node, restartKey);
      }
    }

    /** RtlInsertElementGenericTableAvl: what becomes of the table, of an enumeration under way, and
        of the order of the data. */
    method RtlInsertElementGenericTableAvl(buffer: int, allocates: bool)
      returns (node: Links?, newElement: bool, ghost k: nat)
      requires Valid() && Sorts(compareRoutine, buffer, Elems())
      requires FirstMatch(compareRoutine, buffer, Elems()) == null ==> numberGenericTableElements != MAXULONG - 1
      modifies this`numberGenericTableElements, this`depthOfTree, this`whole,
               Nodes(whole)`parent, Nodes(whole)`left, Nodes(whole)`right, Nodes(whole)`balance
      ensures Valid() && (newElement <==> old(FirstMatch(compareRoutine, buffer, Elems())) == null && allocates)
      ensures node == null <==> old(FirstMatch(compareRoutine, buffer, Elems())) == null && !allocates
      ensures !newElement ==>
        && Elems() == old(Elems()) && Rest() == old(Rest())
        && (node != null ==> node in Elements(Elems()) && compareRoutine(buffer, node.userData) == Equal)
      ensures newElement ==>
        && fresh(node) && node.userData == buffer && Divides(compareRoutine, buffer, old(Elems()), k)
        && Elems() == InsertedAt(old(Elems()), k, node)
        && InsertedRest(old(Elems()), old(Rest()), Rest(), k, node)
      ensures LinearOrder(compareRoutine) && old(Ascending(compareRoutine, Elems())) ==>
        Ascending(compareRoutine, Elems())
    {
      ghost var s, ascending := Elems(), Ascending(compareRoutine, Elems());
      assert allocated(s);
      node, newElement, k := InsertWithCursor(buffer, allocates);
      if newElement {
        StillAscending(compareRoutine, s, ascending, k, node);
      }
    }

    // -------------------------------------------------------------- deletion and the cursor

    /** What the table's order and the cursor's rest become when n is deleted. */
    lemma DeletedThere(s: seq<Links>, n: Links, key: Links?)
      requires NoRepeats([balancedRoot] + s) && n in Elements(s)
      requires key != null ==> key in Elements([balancedRoot] + s)
      ensures Without([balancedRoot] + s, n) == [balancedRoot] + Without(s, n)
      ensures var key' := if key == n then PreviousIn([balancedRoot] + s, n) else key;
        && RestOf(Without(s, n), key') == Without(RestOf(s, key), n)
        && (key' != null ==> key' in Elements([balancedRoot] + Without(s, n)))
    {
      var w := [balancedRoot] + s;
      HeadAndTail(balancedRoot, s);
      assert w[0] == balancedRoot && w[1..] == s;
      assert Without(w, n) == [balancedRoot] + Without(s, n);
      if key == n {
        CursorSteppedBack(w, n);
      } else if key != null {
        CursorKept(w, key, n);
      }
    }

    lemma NodesWithout(w: Tree, w': Tree, n: Links)
      requires InOrder(w') == Without(InOrder(w), n)
      ensures Nodes(w') == Nodes(w) - {n}
    {
      InOrderNodes(w);
      InOrderNodes(w');
      WithoutElements(InOrder(w), n);
    }

    lemma ElemsWithout(w: Tree, w': Tree, n: Links)
      requires w.Node? && w.left.Leaf? && w.link == balancedRoot && n != balancedRoot
      requires w'.Node? && w'.left.Leaf? && w'.link == balancedRoot && InOrder(w') == Without(InOrder(w), n)
      ensures InOrder(w'.right) == Without(InOrder(w.right), n)
    {
      var s, s' := InOrder(w.right), InOrder(w'.right);
      assert InOrder(w) == [] + [balancedRoot] + s && InOrder(w') == [] + [balancedRoot] + s';
      assert ([] + [balancedRoot] + s)[1..] == s && ([] + [balancedRoot] + s')[1..] == s';
      assert Without(InOrder(w), n) == [balancedRoot] + Without(s, n);
      assert ([balancedRoot] + Without(s, n))[1..] == Without(s, n);
    }

    /** The tree without node, and the count; the cursor has stepped off node before. */
    method RemoveNode(node: Links)
      requires Valid() && node in Elements(Elems()) && restartKey != node
      modifies this`depthOfTree, this`whole, this`numberGenericTableElements, this`deleteCount,
               Nodes(whole)`parent, Nodes(whole)`left, Nodes(whole)`right, Nodes(whole)`balance
      ensures Valid() && Elems() == Without(old(Elems()), node)
      ensures numberGenericTableElements == old(numberGenericTableElements) - 1
      ensures deleteCount == (old(deleteCount) + 1) % 0x1_0000_0000
    {
      ghost var w := whole;
      assert |Without(Elems(), node)| == |Elems()| - 1 && node in Nodes(w) && node != balancedRoot by {
        WholeOrder();
        OneLess(Elems(), node);
      }
      deleteCount := (deleteCount + 1) % 0x1_0000_0000;
      RtlpDeleteAvlTreeNode(node);
      NodesWithout(w, whole, node);
      ElemsWithout(w, whole, node);
      numberGenericTableElements := numberGenericTableElements - 1;
    }

    /** If the cursor is at node, it steps back to the node before. */
    method StepOff(node: Links)
      requires Valid() && node in Elements(Elems())
      modifies this`restartKey
      ensures Valid() && restartKey != node
      ensures RestOf(Without(Elems(), node), restartKey) == Without(old(Rest()), node)
    {
      ghost var s, key := Elems(), restartKey;
      WholeOrder();
      DeletedThere(s, node, key);
      WithoutElements(s, node);
      assert node !in Elements([balancedRoot] + Without(s, node)) by {
        ElementsConcat([balancedRoot], Without(s, node));
        assert Elements([balancedRoot]) == {balancedRoot};
      }
      ElementsConcat([balancedRoot], Without(s, node));
      ElementsConcat([balancedRoot], s);
      assert allocated(Nodes(whole));
      if node == restartKey {
        restartKey := RtlRealPredecessor(node, whole);
      }
    }

    method TakeOut(node: Links)
      requires Valid() && node in Elements(Elems())
      modifies this`depthOfTree, this`whole, this`numberGenericTableElements, this`deleteCount, this`restartKey,
               Nodes(whole)`parent, Nodes(whole)`left, Nodes(whole)`right, Nodes(whole)`balance
      ensures Valid() && Elems() == Without(old(Elems()), node) && Rest() == Without(old(Rest()), node)
      ensures numberGenericTableElements == old(numberGenericTableElements) - 1
      ensures deleteCount == (old(deleteCount) + 1) % 0x1_0000_0000
    {
      assert allocated(Nodes(whole)) && allocated(Elems());
      StepOff(node);
      RemoveNode(node);
    }

    /** RtlDeleteElementGenericTableAvlEx: an enumeration under way goes on as if node had never
        been there. */
    method RtlDeleteElementGenericTableAvlEx(node: Links)
      requires Valid() && node in Elements(Elems())
      modifies this`depthOfTree, this`whole, this`numberGenericTableElements, this`deleteCount, this`restartKey,
               this`whichOrderedElement, this`orderedPointer,
               Nodes(whole)`parent, Nodes(whole)`left, Nodes(whole)`right, Nodes(whole)`balance
      ensures Valid() && Elems() == Without(old(Elems()), node) && node !in Elements(Elems())
      ensures Rest() == Without(old(Rest()), node)
      ensures numberGenericTableElements == old(numberGenericTableElements) - 1
      ensures deleteCount == (old(deleteCount) + 1) % 0x1_0000_0000
      ensures whichOrderedElement == 0 && orderedPointer == null
      ensures old(Ascending(compareRoutine, Elems())) ==> Ascending(compareRoutine, Elems())
    {
      hide Sound, Distinct, Without, Ascending, PreviousIn, Elements;
      ghost var s := Elems();
      assert Ascending(compareRoutine, s) ==> Ascending(compareRoutine, Without(s, node)) by {
        WholeOrder();
        StillAscendingWithout(compareRoutine, s, Ascending(compareRoutine, s), node);
      }
      assert node !in Elements(Without(s, node)) by { WithoutElements(s, node); }
      assert allocated(Nodes(whole)) && allocated(s) && allocated(Without(s, node));
      TakeOut(node);
      whichOrderedElement, orderedPointer := 0, null;
    }

    /** RtlDeleteElementGenericTableAvl. */
    method RtlDeleteElementGenericTableAvl(buffer: int) returns (deleted: bool, ghost node: Links?)
      requires Valid() && Sorts(compareRoutine, buffer, Elems())
      modifies this`depthOfTree, this`whole, this`numberGenericTableElements, this`deleteCount, this`restartKey,
               this`whichOrderedElement, this`orderedPointer,
               Nodes(whole)`parent, Nodes(whole)`left, Nodes(whole)`right, Nodes(whole)`balance
      ensures Valid() && (deleted <==> old(FirstMatch(compareRoutine, buffer, Elems())) != null)
      ensures deleted ==>
        && node != null && node in Elements(old(Elems())) && compareRoutine(buffer, node.userData) == Equal
        && Elems() == Without(old(Elems()), node) && Rest() == Without(old(Rest()), node)
      ensures !deleted ==> Elems() == old(Elems()) && Rest() == old(Rest())
      ensures old(Ascending(compareRoutine, Elems())) ==> Ascending(compareRoutine, Elems())
    {
      var searchResult, nodeOrParent;
      ghost var c, k;
      assert allocated(Nodes(whole)) && allocated(Elems());
      searchResult, nodeOrParent, c, k := FindPlace(buffer);
      node := nodeOrParent;
      if searchResult != FoundNode {
        return false, node;
      }
      RtlDeleteElementGenericTableAvlEx(nodeOrParent);
      return true, node;
    }

    // -------------------------------------------------------------- enumeration

    /** What a step of the cursor hands out, and leaves. */
    lemma CursorStep(key: Links?)
      requires Valid() && (key != null ==> key in Nodes(whole))
      ensures key != null ==> NextIn(InOrder(whole), key) == First(RestOf(Elems(), key))
      ensures key == null ==> RestOf(Elems(), key) == Elems()
      ensures var rest := RestOf(Elems(), key);
        rest != [] ==> rest[0] in Nodes(whole) && RestOf(Elems(), rest[0]) == rest[1..]
    {
      WholeOrder();
      var s := InOrder(whole);
      if key != null {
        CursorMoves(s, key);
      } else if Elems() != [] {
        assert s == [balancedRoot] + [Elems()[0]] + Elems()[1..];
        assert s[1] == Elems()[0];
        AfterInSplit([balancedRoot], Elems()[0], Elems()[1..]);
      }
    }

    /** RtlEnumerateGenericTableWithoutSplayingAvl: the caller's cursor stands for what is still to
        come; the first of that is handed out. */
    method RtlEnumerateGenericTableWithoutSplayingAvl(key: Links?) returns (node: Links?, key': Links?)
      requires Valid() && (key != null ==> key in Nodes(whole))
      ensures key' != null ==> key' in Nodes(whole)
      ensures node == First(RestOf(Elems(), key))
      ensures RestOf(Elems(), key') == if node == null then [] else RestOf(Elems(), key)[1..]
      ensures key' == if node == null then key else node
    {
      CursorStep(key);
      EmptyRest(key);
      assert allocated(Nodes(whole)) && allocated(Elems());
      if numberGenericTableElements == 0 {
        return null, key;
      }
      if key == null {
        ParentHolds(Top, whole);
        ParentHolds(InRight(Top, Leaf, balancedRoot), whole.right);
        node := GoLeft(balancedRoot.right, InRight(Top, Leaf, balancedRoot), whole.right);
        key' := node;
      } else {
        node := RtlRealSuccessor(key, whole);
        key' := if node != null then node else key;
      }
    }

    lemma EmptyRest(key: Links?)
      requires Valid() && (key != null ==> key in Nodes(whole))
      ensures Elems() == [] ==> RestOf(Elems(), key) == []
    {
      WholeOrder();
      if Elems() == [] && key != null {
        assert key == balancedRoot;
        assert ([balancedRoot] + Elems())[0] == key;
      }
    }

    /** RtlEnumerateGenericTableAvl: the same with the table's own cursor. */
    method RtlEnumerateGenericTableAvl(restart: bool) returns (node: Links?)
      requires Valid()
      modifies this`restartKey
      ensures Valid()
      ensures var rest := if restart then Elems() else old(Rest());
        node == First(rest) && Rest() == if rest == [] then [] else rest[1..]
    {
      if restart {
        restartKey := null;
      }
      ghost var rest := Rest();
      assert allocated(Nodes(whole));
      var key;
      node, key := RtlEnumerateGenericTableWithoutSplayingAvl(restartKey);
      restartKey := key;
    }

    // -------------------------------------------------------------- several matches

    /** The element before a node, or the table's own node. */
    method StepBack(node: Links, ghost a: seq<Links>, ghost b: seq<Links>) returns (previous: Links, first: bool)
      requires Valid() && Elems() == a + [node] + b
      ensures first <==> a == []
      ensures !first ==> previous == a[|a| - 1]
    {
      WholeOrder();
      assert Elems()[|a|] == node;
      assert InOrder(whole) == ([balancedRoot] + a) + [node] + b;
      SidesLackNode([balancedRoot] + a, node, b, whole);
      PreviousInSplit([balancedRoot] + a, node, b);
      assert allocated(Nodes(whole));
      var p := RtlRealPredecessor(node, whole);
      previous := p;
      assert InOrder(whole)[|a|] == previous;
      assert previous in Elements(InOrder(whole));
      ghost var c, t := Locate(Top, whole, previous).0, Locate(Top, whole, previous).1;
      Tests(c, t);
      PlugRoot(c, t);
      PlugDistinct(c, t);
      first := previous.parent == previous;
      if a != [] {
        assert Elems()[|a| - 1] == previous;
      }
    }

    /** RtlLookupFirstMatchingElementGenericTableAvl: the first of the matches, whichever of them
        the search has hit upon. */
    method RtlLookupFirstMatchingElementGenericTableAvl(buffer: int) returns (node: Links?, key: Links?)
      requires Valid() && Sorts(compareRoutine, buffer, Elems())
      ensures node == FirstMatch(compareRoutine, buffer, Elems()) && key == node
    {
      var searchResult, nodeOrParent;
      ghost var c, k;
      assert allocated(Nodes(whole)) && allocated(Elems());
      searchResult, nodeOrParent, c, k := FindPlace(buffer);
      if searchResult != FoundNode {
        return null, null;
      }
      ghost var a, b := AroundNode(nodeOrParent);
      var current: Links, previousNode: Links, result := nodeOrParent, nodeOrParent, Equal;
      while result == Equal
        invariant Valid() && Sorts(compareRoutine, buffer, Elems())
        invariant result == Equal ==>
          Elems() == a + [previousNode] + b && compareRoutine(buffer, previousNode.userData) == Equal
        invariant result != Equal ==> FirstMatch(compareRoutine, buffer, Elems()) == current
        decreases |a|, result == Equal
      {
        current := previousNode;
        var first;
        assert allocated(Nodes(whole)) && allocated(Elems());
        previousNode, first := StepBack(current, a, b);
        if first {
          NoneBefore(compareRoutine, buffer, a, current, b);
          break;
        }
        result := compareRoutine(buffer, previousNode.userData);
        if result == Equal {
          ShiftBack(a, current, b);
          a, b := a[..|a| - 1], [current] + b;
        } else {
          NoneBefore(compareRoutine, buffer, a, current, b);
        }
      }
      return current, current;
    }

    lemma AroundNode(n: Links) returns (a: seq<Links>, b: seq<Links>)
      requires Valid() && n in Elements(Elems())
      ensures Elems() == a + [n] + b
    {
      WholeOrder();
      a, b := SplitAround(Elems(), n);
    }

    lemma ShiftBack(a: seq<Links>, n: Links, b: seq<Links>)
      requires a != []
      ensures a + [n] + b == a[..|a| - 1] + [a[|a| - 1]] + ([n] + b)
    {
    }
  }
}
