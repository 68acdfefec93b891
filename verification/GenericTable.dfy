/** The generic table of splay.c: a splay tree for searching and a list for the order of insertion,
    over the same elements. */
module GenericTable {
  import opened InsertOrder
  import opened Limits
  import opened LinkTrees
  import opened Searching
  import opened SplayDelete
  import opened TableCursor
  import Cost = TopDownCost
  import SplayCost
  import opened TopDownSplay
  import opened Walks

  /** What a deletion comes to. Faulted is the access through a null right child. */
  datatype Outcome = Deleted | NotFound | Faulted

  lemma OneMore(s: seq<Links>, n: Links)
    ensures Elements(s + [n]) == Elements(s) + {n}
  {
    ElementsConcat(s, [n]);
    assert Elements([n]) == {n} by { assert [n][0] == n; }
  }

  class Table {
    const insertOrderList: Links
    const compareRoutine: (int, int) -> Order
    var tableRoot: Links?
    var orderedPointer: Links?
    var whichOrderedElement: nat
    var numberGenericTableElements: nat
    ghost var shape: Tree
    /** The elements in the order of insertion. */
    ghost var listed: seq<Links>

    ghost predicate Searchable()
      reads this, Nodes(shape)`left, Nodes(shape)`right, InOrder(shape)`userData
    {
      && Linked(shape) && Distinct(shape) && tableRoot == Root(shape)
      && LinearOrder(compareRoutine) && Ascending(compareRoutine, InOrder(shape))
    }

    /** The tree and the list hold the same elements. */
    ghost predicate Valid()
      reads this, Nodes(shape)`left, Nodes(shape)`right, InOrder(shape)`userData,
            Elements([insertOrderList] + listed)`flink, Elements([insertOrderList] + listed)`blink
    {
      && Searchable() && Ring([insertOrderList] + listed)
      && Elements(listed) == Nodes(shape) && insertOrderList !in Nodes(shape)
      && numberGenericTableElements == |listed|
    }

    constructor (compare: (int, int) -> Order)
      requires LinearOrder(compare)
      ensures Valid() && listed == [] && compareRoutine == compare && fresh(insertOrderList)
      ensures shape == Leaf && insertOrderList.blink == insertOrderList
    {
      var head := new Links();
      insertOrderList := head;
      compareRoutine := compare;
      tableRoot, orderedPointer, whichOrderedElement, numberGenericTableElements := null, head, 0, 0;
      shape, listed := Leaf, [];
      new;
      InitializeListHead(insertOrderList);
      assert [insertOrderList] + listed == [insertOrderList];
      FirstAndLast([insertOrderList] + listed);
    }

    /** A search along the list finds what a search along the tree finds. */
    lemma SameMatch(buffer: int)
      requires Searchable() && Elements(listed) == Nodes(shape)
      ensures FirstMatch(compareRoutine, buffer, listed) == FirstMatch(compareRoutine, buffer, InOrder(shape))
    {
      DistinctIffNoRepeats(shape);
      InOrderNodes(shape);
      SameElements(compareRoutine, buffer, listed, InOrder(shape));
    }

    /** splay, where there is a root. */
    method SplayNode(item: int) returns (found: bool, ghost rounds: nat)
      requires Searchable() && shape.Node?
      modifies this`tableRoot, this`shape, Nodes(shape)`left, Nodes(shape)`right, Nodes(shape)`parent
      ensures Searchable() && InOrder(shape) == old(InOrder(shape)) && (old(Upward(shape)) ==> Upward(shape))
      ensures Cost.SplayPaid(old(shape), shape, rounds)
      ensures found <==> FirstMatch(compareRoutine, item, InOrder(shape)) != null
      ensures found ==> tableRoot == FirstMatch(compareRoutine, item, InOrder(shape))
      ensures shape.Node? && (!found ==>
        && AllCompare(compareRoutine, item, InOrder(shape.left), Greater)
        && AllCompare(compareRoutine, item, InOrder(shape.right), Less)
        && compareRoutine(item, shape.link.userData) != Equal)
    {
      hide Parted, Upward, TopSplayed, Cost.SplayPaid, FirstMatch, Linked, Distinct, LinearOrder, Ascending;
      ghost var w, s := shape, InOrder(shape);
      Cost.SplayPays(compareRoutine, item, w);
      AscendingSorts(compareRoutine, s, item);
      assert allocated(s);
      var root;
      found, root, shape, rounds := TopDownSplay.Splay(compareRoutine, item, tableRoot, w);
      tableRoot := root;
      SameOrder(w, shape);
      RootMatch(item, found);
    }

    /** splay: the element that matches item comes to the root, if there is one. */
    method SplayTable(item: int) returns (found: bool, ghost rounds: nat)
      requires Searchable()
      modifies this`tableRoot, this`shape, Nodes(shape)`left, Nodes(shape)`right, Nodes(shape)`parent
      ensures Searchable() && InOrder(shape) == old(InOrder(shape)) && (old(Upward(shape)) ==> Upward(shape))
      ensures Cost.SplayPaid(old(shape), shape, rounds)
      ensures found <==> FirstMatch(compareRoutine, item, InOrder(shape)) != null
      ensures found ==> tableRoot == FirstMatch(compareRoutine, item, InOrder(shape))
      ensures !found && shape.Node? ==>
        && AllCompare(compareRoutine, item, InOrder(shape.left), Greater)
        && AllCompare(compareRoutine, item, InOrder(shape.right), Less)
        && compareRoutine(item, shape.link.userData) != Equal
    {
      if tableRoot == null {
        return false, 0;
      }
      found, rounds := SplayNode(item);
    }

    lemma RootMatch(item: int, found: bool)
      requires Searchable() && shape.Node? && (found <==> compareRoutine(item, shape.link.userData) == Equal)
      requires !found ==>
        && AllCompare(compareRoutine, item, InOrder(shape.left), Greater)
        && AllCompare(compareRoutine, item, InOrder(shape.right), Less)
      ensures FirstMatch(compareRoutine, item, InOrder(shape)) == if found then shape.link else null
    {
      var s := InOrder(shape);
      if found {
        DistinctIffNoRepeats(shape);
        InOrderNodes(shape);
        OnlyMatch(compareRoutine, item, s, shape.link);
      } else {
        var k := |InOrder(shape.left)|;
        forall i | 0 <= i < |s| ensures compareRoutine(item, s[i].userData) != Equal {
          assert s[i] == if i < k then InOrder(shape.left)[i]
                         else if i == k then shape.link else InOrder(shape.right)[i - k - 1];
        }
        NoMatch(compareRoutine, item, s);
      }
    }

    /** The same, seen from the list. */
    method SplayItem(item: int) returns (found: bool, ghost rounds: nat)
      requires Valid()
      modifies this`tableRoot, this`shape, Nodes(shape)`left, Nodes(shape)`right, Nodes(shape)`parent
      ensures Valid() && listed == old(listed) && InOrder(shape) == old(InOrder(shape))
      ensures (old(Upward(shape)) ==> Upward(shape)) && Cost.SplayPaid(old(shape), shape, rounds)
      ensures found <==> FirstMatch(compareRoutine, item, listed) != null
      ensures found ==> tableRoot == FirstMatch(compareRoutine, item, listed)
      ensures FirstMatch(compareRoutine, item, listed) == old(FirstMatch(compareRoutine, item, listed))
      ensures !found && shape.Node? ==>
        && AllCompare(compareRoutine, item, InOrder(shape.left), Greater)
        && AllCompare(compareRoutine, item, InOrder(shape.right), Less)
        && compareRoutine(item, shape.link.userData) != Equal
    {
      assert allocated(listed) && allocated([insertOrderList] + listed);
      assert allocated(Elements([insertOrderList] + listed));
      ghost var w := shape;
      found, rounds := SplayTable(item);
      SameOrder(w, shape);
      SameMatch(item);
    }

    method RtlLookupElementGenericTable(buffer: int) returns (node: Links?, ghost rounds: nat)
      requires Valid()
      modifies this`tableRoot, this`shape, Nodes(shape)`left, Nodes(shape)`right, Nodes(shape)`parent
      ensures Valid() && listed == old(listed) && InOrder(shape) == old(InOrder(shape))
      ensures node == FirstMatch(compareRoutine, buffer, listed) && (old(Upward(shape)) ==> Upward(shape))
      ensures Cost.SplayPaid(old(shape), shape, rounds)
    {
      var found;
      found, rounds := SplayItem(buffer);
      node := if found then tableRoot else null;
    }

    /** The tree with the new root is a search tree of one more element; the root is its least or
        greatest exactly if it lacks a child. */
    lemma RerootedWell(buffer: int, t: Tree, n: Links, before: bool)
      requires Distinct(t) && n !in Nodes(t) && n.userData == buffer
      requires LinearOrder(compareRoutine) && Ascending(compareRoutine, InOrder(t))
      requires t.Node? ==>
        && AllCompare(compareRoutine, buffer, InOrder(t.left), Greater)
        && AllCompare(compareRoutine, buffer, InOrder(t.right), Less)
        && compareRoutine(buffer, t.link.userData) == if before then Less else Greater
      ensures var t' := Rerooted(t, n, before);
        && Distinct(t') && Nodes(t') == Nodes(t) + {n} && Ascending(compareRoutine, InOrder(t'))
        && (First(InOrder(t')) == n || Last(InOrder(t')) == n
            <==> t.Leaf? || if before then t.left.Leaf? else t.right.Leaf?)
    {
      RootDivides(compareRoutine, buffer, t, before);
      RerootedOrder(t, n, before);
      RerootedNodes(t, n, before);
      AscendingInserted(compareRoutine, InOrder(t), RerootedAt(t, before), n);
      EndsAtRoot(Rerooted(t, n, before));
    }

    /** The new element becomes the root, in its place in the order. */
    method InsertAtRoot(newItem: Links, buffer: int) returns (before: bool)
      requires Searchable() && newItem !in Nodes(shape) && newItem.userData == buffer
      requires shape.Node? ==>
        && AllCompare(compareRoutine, buffer, InOrder(shape.left), Greater)
        && AllCompare(compareRoutine, buffer, InOrder(shape.right), Less)
        && compareRoutine(buffer, shape.link.userData) != Equal
      modifies this`tableRoot, this`shape, newItem`left, newItem`right, newItem`parent,
               Nodes(shape)`left, Nodes(shape)`right, Nodes(shape)`parent
      ensures Searchable() && Nodes(shape) == old(Nodes(shape)) + {newItem} && tableRoot == newItem
      ensures shape == Rerooted(old(shape), newItem, before)
      ensures old(Upward(shape)) ==>
        (Upward(shape) <==> First(InOrder(shape)) == newItem || Last(InOrder(shape)) == newItem)
    {
      ghost var t := shape;
      before := false;
      if tableRoot != null {
        before := compareRoutine(newItem.userData, tableRoot.userData) == Less;
      }
      RerootedWell(buffer, t, newItem, before);
      shape := Rerooted(t, newItem, before);
      assert allocated(InOrder(shape));
      SplitRoot(newItem, tableRoot, before, t);
      tableRoot := newItem;
    }

    /** The new element goes to the end of the list. */
    method AppendItem(newItem: Links)
      requires Ring([insertOrderList] + listed) && newItem !in Elements([insertOrderList] + listed)
      requires numberGenericTableElements == |listed|
      modifies this`numberGenericTableElements, this`whichOrderedElement, this`orderedPointer, this`listed,
               insertOrderList`flink, insertOrderList`blink, newItem`flink, newItem`blink,
               Some(insertOrderList.blink)`flink
      ensures Ring([insertOrderList] + listed) && listed == old(listed) + [newItem]
      ensures numberGenericTableElements == |listed|
      ensures whichOrderedElement == 0 && orderedPointer == insertOrderList
    {
      ghost var f := [insertOrderList] + listed;
      FirstAndLast(f);
      // The source aborts when the list and the count disagree about the table being empty.
      assert insertOrderList.blink == insertOrderList <==> numberGenericTableElements == 0;
      Append(insertOrderList, newItem, f);
      listed := listed + [newItem];
      assert [insertOrderList] + listed == f + [newItem];
      numberGenericTableElements := numberGenericTableElements + 1;
      whichOrderedElement, orderedPointer := 0, insertOrderList;
    }

    lemma ListElements()
      ensures Elements([insertOrderList] + listed) == Elements(listed) + {insertOrderList}
    {
      ElementsConcat([insertOrderList], listed);
      assert Elements([insertOrderList]) == {insertOrderList} by {
        assert [insertOrderList][0] == insertOrderList;
      }
    }

    method AddItem(newItem: Links, buffer: int) returns (before: bool)
      requires Valid() && numberGenericTableElements < MAXULONG
      requires newItem !in Nodes(shape) && newItem != insertOrderList && newItem.userData == buffer
      requires shape.Node? ==>
        && AllCompare(compareRoutine, buffer, InOrder(shape.left), Greater)
        && AllCompare(compareRoutine, buffer, InOrder(shape.right), Less)
        && compareRoutine(buffer, shape.link.userData) != Equal
      modifies this`tableRoot, this`shape, this`numberGenericTableElements, this`whichOrderedElement,
               this`orderedPointer, this`listed,
               newItem`left, newItem`right, newItem`parent, newItem`flink, newItem`blink,
               Nodes(shape)`left, Nodes(shape)`right, Nodes(shape)`parent,
               insertOrderList`flink, insertOrderList`blink, Some(insertOrderList.blink)`flink
      ensures Valid() && listed == old(listed) + [newItem] && tableRoot == newItem
      ensures shape == Rerooted(old(shape), newItem, before)
      ensures whichOrderedElement == 0 && orderedPointer == insertOrderList
      ensures old(Upward(shape)) ==>
        (Upward(shape) <==> First(InOrder(shape)) == newItem || Last(InOrder(shape)) == newItem)
    {
      hide Linked, Distinct, Nodes, InOrder, Ring, Upward, Elements, First, Last, Rerooted;
      ListElements();
      assert allocated(Elements([insertOrderList] + listed));
      before := InsertAtRoot(newItem, buffer);
      assert allocated(Nodes(shape)) && allocated(InOrder(shape));
      OneMore(listed, newItem);
      ghost var up := Upward(shape);
      AppendItem(newItem);
      assert Upward(shape) == up;
    }

    /** A new node for an element that nothing matches. */
    method AddNew(buffer: int) returns (newItem: Links, before: bool)
      requires Valid() && numberGenericTableElements < MAXULONG
      requires shape.Node? ==>
        && AllCompare(compareRoutine, buffer, InOrder(shape.left), Greater)
        && AllCompare(compareRoutine, buffer, InOrder(shape.right), Less)
        && compareRoutine(buffer, shape.link.userData) != Equal
      modifies this`tableRoot, this`shape, this`numberGenericTableElements, this`whichOrderedElement,
               this`orderedPointer, this`listed,
               Nodes(shape)`left, Nodes(shape)`right, Nodes(shape)`parent,
               insertOrderList`flink, insertOrderList`blink, Some(insertOrderList.blink)`flink
      ensures Valid() && fresh(newItem) && newItem.userData == buffer && listed == old(listed) + [newItem]
      ensures tableRoot == newItem && whichOrderedElement == 0 && orderedPointer == insertOrderList
      ensures shape == Rerooted(old(shape), newItem, before)
      ensures old(Upward(shape)) ==>
        (Upward(shape) <==> First(InOrder(shape)) == newItem || Last(InOrder(shape)) == newItem)
    {
      hide Rerooted;
      assert allocated(Nodes(shape)) && allocated(InOrder(shape)) && allocated(Elements([insertOrderList] + listed));
      assert shape.Node? ==> allocated(InOrder(shape.left)) && allocated(InOrder(shape.right));
      newItem := new Links();
      newItem.userData := buffer;
      before := AddItem(newItem, buffer);
    }

    /** RtlInsertElementGenericTable. When there is no memory, it leaves *NewElement as it is: that is
        newElement0. */
    method RtlInsertElementGenericTable(buffer: int, allocates: bool, newElement0: bool)
      returns (node: Links?, newElement: bool, ghost rounds: nat)
      requires Valid()
      requires FirstMatch(compareRoutine, buffer, listed) == null ==> numberGenericTableElements < MAXULONG
      modifies this`tableRoot, this`shape, this`numberGenericTableElements, this`whichOrderedElement,
               this`orderedPointer, this`listed,
               Nodes(shape)`left, Nodes(shape)`right, Nodes(shape)`parent,
               insertOrderList`flink, insertOrderList`blink, Some(insertOrderList.blink)`flink
      ensures Valid()
      ensures var match0 := old(FirstMatch(compareRoutine, buffer, listed));
        if match0 != null || !allocates then
          && listed == old(listed) && node == match0 && newElement == (match0 == null && newElement0)
          && (old(Upward(shape)) ==> Upward(shape)) && Cost.SplayPaid(old(shape), shape, rounds)
        else
          && newElement && fresh(node) && node.userData == buffer && listed == old(listed) + [node]
          && tableRoot == node && whichOrderedElement == 0 && orderedPointer == insertOrderList
          && (old(Upward(shape)) ==>
                (Upward(shape) <==> First(InOrder(shape)) == node || Last(InOrder(shape)) == node))
          && SplayCost.Size(shape) == SplayCost.Size(old(shape)) + 1
          && Cost.PaidFor(old(shape), shape, rounds, 8 * SplayCost.Log2(SplayCost.Size(old(shape)) + 1) + 2)
    {
      hide Cost.PaidFor, Cost.SplayPaid, Rerooted, Upward, SplayCost.Size, Searchable, Ring, First, Last, FirstMatch;
      ghost var t := shape;
      var found;
      found, rounds := SplayItem(buffer);
      if found {
        return tableRoot, false, rounds;
      }
      if !allocates {
        return null, newElement0, rounds;
      }
      ghost var t1 := shape;
      var newItem, before := AddNew(buffer);
      Cost.InsertionPays(t, t1, newItem, before, rounds);
      return newItem, true, rounds;
    }

    // -------------------------------------------------------------- deletion

    /** The tree without its root, which item matched. Where the root has no right child, the source
        goes through a null pointer. */
    method CutRoot(delItem: Links) returns (faulted: bool, ghost rounds: nat)
      requires Searchable() && shape.Node? && delItem == tableRoot
      modifies this`tableRoot, this`shape, Nodes(shape)`left, Nodes(shape)`right, Nodes(shape)`parent
      ensures faulted <==> old(shape.right.Leaf?)
      ensures !faulted ==> Searchable() && InOrder(shape) == old(InOrder(shape.left) + InOrder(shape.right))
      ensures !faulted && old(Upward(shape)) ==> Upward(shape)
      ensures Cost.CutPaid(old(shape), shape, rounds)
    {
      ghost var l, r := shape.left, shape.right;
      AscendingParts(compareRoutine, InOrder(l), delItem, InOrder(r));
      AscendingJoined(compareRoutine, InOrder(l), delItem, InOrder(r));
      if delItem.left == null {
        assert [] + InOrder(r) == InOrder(r);
        Cost.RightSidePays(delItem, r);
        faulted := RaiseRight(delItem.right, r);
        rounds := 0;
      } else {
        tableRoot := delItem.left;
        faulted, rounds := JoinSides(delItem, l, r);
      }
    }

    /** Without a left side, the right side is the tree. */
    method RaiseRight(rightChild: Links?, ghost r: Tree) returns (faulted: bool)
      requires Linked(r) && Distinct(r) && rightChild == Root(r)
      requires LinearOrder(compareRoutine) && Ascending(compareRoutine, InOrder(r))
      modifies this`tableRoot, this`shape, Some(rightChild)`parent
      ensures faulted <==> r.Leaf?
      ensures !faulted ==> Searchable() && InOrder(shape) == InOrder(r) && (old(Upward(r)) ==> Upward(r))
      ensures shape == r
    {
      assert Upward(r) ==> UpwardBelow(r);
      tableRoot := rightChild;
      shape := r;
      if tableRoot == null {
        return true;
      }
      tableRoot.parent := null;
      assert old(Upward(r)) ==> UpwardBelow(r);
      return false;
    }

    /** The greatest element of the left side comes to its root. */
    method SplayLeftSide(delItem: Links, leftChild: Links, ghost l: Tree)
      returns (root: Links, ghost l': Tree, ghost rounds: nat)
      requires Linked(l) && Distinct(l) && l.Node? && leftChild == l.link
      requires LinearOrder(compareRoutine) && Ascending(compareRoutine, InOrder(l))
      requires AllCompare(compareRoutine, delItem.userData, InOrder(l), Greater)
      modifies Nodes(l)`left, Nodes(l)`right, Nodes(l)`parent
      ensures Linked(l') && InOrder(l') == InOrder(l) && l'.Node? && root == l'.link && l'.right.Leaf?
      ensures (old(Upward(l)) ==> Upward(l')) && Cost.SplayPaid(l, l', rounds)
    {
      Cost.SplayPays(compareRoutine, delItem.userData, l);
      AscendingSorts(compareRoutine, InOrder(l), delItem.userData);
      assert allocated(InOrder(l));
      var found;
      found, root, l', rounds := TopDownSplay.Splay(compareRoutine, delItem.userData, leftChild, l);
      NothingRight(delItem.userData, l');
      // The source aborts when the deleted element turns up a second time.
      assert !found;
    }

    /** That element then takes the right side. */
    method JoinSides(delItem: Links, ghost l: Tree, ghost r: Tree) returns (faulted: bool, ghost rounds: nat)
      requires Linked(l) && Linked(r) && Distinct(Node(l, delItem, r)) && l.Node?
      requires tableRoot == l.link && delItem.right == Root(r) && LinearOrder(compareRoutine)
      requires Ascending(compareRoutine, InOrder(l)) && Ascending(compareRoutine, InOrder(l) + InOrder(r))
      requires AllCompare(compareRoutine, delItem.userData, InOrder(l), Greater)
      modifies this`tableRoot, this`shape, Nodes(l)`left, Nodes(l)`right, Nodes(l)`parent, Nodes(r)`parent
      ensures faulted <==> r.Leaf?
      ensures !faulted ==> Searchable() && InOrder(shape) == InOrder(l) + InOrder(r)
      ensures old(Upward(l) && Upward(r)) ==> Upward(shape)
      ensures Cost.CutPaid(Node(l, delItem, r), shape, rounds)
    {
      hide Linked, LinearOrder, AllCompare, Cost.CutPaid, Cost.SplayPaid, Ascending, Upward, ChildOf;
      assert allocated(InOrder(l)) && allocated(InOrder(r)) && allocated(Nodes(r));
      assert allocated(InOrder(l) + InOrder(r));
      var root;
      ghost var l';
      root, l', rounds := SplayLeftSide(delItem, tableRoot, l);
      JoinedWell(l, l', delItem, r);
      Cost.JoiningPays(l, delItem, r, l', rounds);
      tableRoot := root;
      shape := Node(l'.left, root, r);
      faulted := GiveRight(root, delItem.right, l'.left, r);
    }

    /** The two sides, joined at the greatest of the left one. */
    lemma JoinedWell(l: Tree, l': Tree, n: Links, r: Tree)
      requires Distinct(Node(l, n, r)) && InOrder(l') == InOrder(l) && l'.Node? && l'.right.Leaf?
      ensures Distinct(Node(l'.left, l'.link, r)) && Nodes(l') == Nodes(l)
      ensures InOrder(Node(l'.left, l'.link, r)) == InOrder(l) + InOrder(r)
    {
      SameOrder(l, l');
      LeafDropped(InOrder(l'.left), l'.link, InOrder(r));
    }

    lemma LeafDropped(a: seq<Links>, x: Links, b: seq<Links>)
      ensures a + [x] + b == (a + [x] + []) + b
    {
    }

    method GiveRight(root: Links, right: Links?, ghost l: Tree, ghost r: Tree) returns (faulted: bool)
      requires Linked(l) && Linked(r) && Distinct(Node(l, root, r)) && root.left == Root(l) && right == Root(r)
      modifies root`right, Nodes(r)`parent
      ensures faulted <==> r.Leaf?
      ensures Linked(Node(l, root, r))
      ensures old(Upward(l) && Upward(r) && ChildOf(l, root)) ==> Upward(Node(l, root, r))
    {
      assert Upward(r) ==> UpwardBelow(r);
      root.right := right;
      if right == null {
        return true;
      }
      right.parent := root;
      assert Linked(l) && Linked(r);
      assert old(Upward(r)) ==> UpwardBelow(r);
      return false;
    }

    lemma NothingRight(item: int, t: Tree)
      requires t.Node? && AllCompare(compareRoutine, item, InOrder(t), Greater)
      ensures compareRoutine(item, t.link.userData) != Equal
      ensures AllCompare(compareRoutine, item, InOrder(t.right), Less) ==> t.right.Leaf?
    {
      var s, k := InOrder(t), |InOrder(t.left)|;
      assert s[k] == t.link;
      if t.right.Node? {
        var m := |InOrder(t.right.left)|;
        assert InOrder(t.right)[m] == t.right.link && s[k + 1 + m] == InOrder(t.right)[m];
      }
    }

    /** The element leaves the list. */
    method RemoveItem(delItem: Links)
      requires Ring([insertOrderList] + listed) && delItem in Elements(listed)
      requires numberGenericTableElements == |listed|
      modifies this`numberGenericTableElements, this`whichOrderedElement, this`orderedPointer, this`listed,
               Some(delItem.blink)`flink, Some(delItem.flink)`blink, insertOrderList`flink, insertOrderList`blink
      ensures Ring([insertOrderList] + listed) && listed == Without(old(listed), delItem)
      ensures numberGenericTableElements == |listed|
      ensures whichOrderedElement == 0 && orderedPointer == insertOrderList
    {
      HeadDistinct();
      ghost var a, b := SplitAround(listed, delItem);
      WithoutMiddle(a, delItem, b);
      assert [insertOrderList] + listed == ([insertOrderList] + a) + [delItem] + b;
      assert [insertOrderList] + (a + b) == ([insertOrderList] + a) + b;
      numberGenericTableElements := numberGenericTableElements - 1;
      if numberGenericTableElements == 0 {
        InitializeListHead(insertOrderList);
        assert [insertOrderList] + (a + b) == [insertOrderList];
      } else {
        InsertOrder.Unlink(delItem, [insertOrderList] + a, b);
      }
      listed := a + b;
      whichOrderedElement, orderedPointer := 0, insertOrderList;
    }

    lemma HeadDistinct()
      requires NoRepeats([insertOrderList] + listed)
      ensures NoRepeats(listed)
    {
      NoRepeatsConcat([insertOrderList], listed);
    }

    /** The greatest element is the one without anything to its right. */
    lemma LastAtRoot(t: Tree)
      requires Distinct(t) && t.Node?
      ensures Last(InOrder(t)) == t.link <==> t.right.Leaf?
    {
      var s, k, r := InOrder(t), |InOrder(t.left)|, InOrder(t.right);
      assert s[k] == t.link;
      DistinctIffNoRepeats(t);
      if t.right.Node? {
        assert |r| > 0 && s[|s| - 1] != s[k];
      }
    }

    lemma EndsAtRoot(t: Tree)
      requires Distinct(t) && t.Node?
      ensures First(InOrder(t)) == t.link <==> t.left.Leaf?
      ensures Last(InOrder(t)) == t.link <==> t.right.Leaf?
    {
      LastAtRoot(t);
      var s, k, l := InOrder(t), |InOrder(t.left)|, InOrder(t.left);
      assert s[k] == t.link;
      DistinctIffNoRepeats(t);
      if t.left.Node? {
        assert |l| > 0 && s[0] != s[k];
      }
    }

    lemma RootTaken(t: Tree, t': Tree)
      requires Distinct(t) && t.Node? && InOrder(t') == InOrder(t.left) + InOrder(t.right)
      ensures InOrder(t') == Without(InOrder(t), t.link) && Nodes(t') == Nodes(t) - {t.link}
    {
      SidesLackNode(InOrder(t.left), t.link, InOrder(t.right), t);
      WithoutMiddle(InOrder(t.left), t.link, InOrder(t.right));
      InOrderNodes(t);
      InOrderNodes(t');
      WithoutElements(InOrder(t), t.link);
    }

    /** Everything but the fault: what is left when the matching element has come to the root. */
    method DeleteRoot(delItem: Links) returns (faulted: bool, ghost rounds: nat)
      requires Valid() && shape.Node? && delItem == tableRoot
      modifies this`tableRoot, this`shape, this`numberGenericTableElements, this`whichOrderedElement,
               this`orderedPointer, this`listed,
               Nodes(shape)`left, Nodes(shape)`right, Nodes(shape)`parent,
               Some(delItem.blink)`flink, Some(delItem.flink)`blink, insertOrderList`flink, insertOrderList`blink
      ensures (faulted <==> Last(old(InOrder(shape))) == delItem) && Cost.CutPaid(old(shape), shape, rounds)
      ensures !faulted ==>
        && Valid() && listed == Without(old(listed), delItem)
        && InOrder(shape) == Without(old(InOrder(shape)), delItem)
        && whichOrderedElement == 0 && orderedPointer == insertOrderList && (old(Upward(shape)) ==> Upward(shape))
    {
      hide Without, Upward, Ascending, Elements, LinearOrder;
      ghost var t, s := shape, InOrder(shape);
      LastAtRoot(t);
      assert allocated(Elements([insertOrderList] + listed));
      faulted, rounds := CutRoot(delItem);
      if faulted {
        return;
      }
      RootTaken(t, shape);
      WithoutElements(listed, delItem);
      assert allocated(InOrder(shape)) && allocated(Nodes(shape));
      RemoveItem(delItem);
    }

    /** RtlDeleteElementGenericTable. It deletes the element that matches, except when that is the
        greatest of all: then it faults. */
    method RtlDeleteElementGenericTable(buffer: int) returns (outcome: Outcome, ghost rounds: nat)
      requires Valid()
      modifies this`tableRoot, this`shape, this`numberGenericTableElements, this`whichOrderedElement,
               this`orderedPointer, this`listed,
               Nodes(shape)`left, Nodes(shape)`right, Nodes(shape)`parent,
               Nodes(shape)`flink, Nodes(shape)`blink, insertOrderList`flink, insertOrderList`blink
      ensures outcome.NotFound? <==> old(FirstMatch(compareRoutine, buffer, listed)) == null
      ensures outcome.Faulted? <==>
        old(FirstMatch(compareRoutine, buffer, listed)) != null
        && old(FirstMatch(compareRoutine, buffer, listed)) == Last(old(InOrder(shape)))
      ensures outcome.NotFound? ==> Valid() && listed == old(listed) && InOrder(shape) == old(InOrder(shape))
      ensures outcome.Deleted? ==>
        && Valid() && listed == Without(old(listed), old(FirstMatch(compareRoutine, buffer, listed)))
        && InOrder(shape) == Without(old(InOrder(shape)), old(FirstMatch(compareRoutine, buffer, listed)))
        && whichOrderedElement == 0 && orderedPointer == insertOrderList
      ensures !outcome.Faulted? && old(Upward(shape)) ==> Upward(shape)
      ensures SplayCost.Size(shape) <= SplayCost.Size(old(shape))
      ensures Cost.PaidFor(old(shape), shape, rounds, 12 * SplayCost.Rank(old(shape)) + 4)
    {
      ghost var w := shape;
      var found;
      found, rounds := SplayItem(buffer);
      if !found {
        return NotFound, rounds;
      }
      ghost var w1, first := shape, rounds;
      SameOrder(w, shape);
      NeighboursInList(tableRoot);
      var faulted;
      ghost var second;
      faulted, second := DeleteRoot(tableRoot);
      Cost.DeletionPays(w, w1, shape, first, second);
      rounds := first + second;
      outcome := if faulted then Faulted else Deleted;
    }

    /** The links of a list entry lead to elements, or to the head. */
    lemma NeighboursInList(x: Links)
      requires Valid() && x in Nodes(shape)
      ensures Some(x.flink) + Some(x.blink) <= Nodes(shape) + {insertOrderList}
    {
      var f := [insertOrderList] + listed;
      ListElements();
      var i := IndexOf(f, x);
      AtIndex(f, i);
      assert forall j :: 0 <= j < |f| ==> f[j] in Elements(f);
    }

    // -------------------------------------------------------------- enumeration

    /** What an enumeration at key has still to hand out. */
    ghost function RestOf(key: Links?): seq<Links>
      reads this
    {
      if key == null then listed else AfterIn([insertOrderList] + listed, key)
    }

    /** RtlEnumerateGenericTableWithoutSplaying: the elements in the order of insertion. */
    method RtlEnumerateGenericTableWithoutSplaying(key: Links?) returns (node: Links?, key': Links?)
      requires Valid() && (key != null ==> key in Elements(listed))
      ensures node == First(RestOf(key)) && (key' != null ==> key' in Elements(listed))
      ensures RestOf(key') == if node == null then [] else RestOf(key)[1..]
      ensures key' == if node == null then key else node
    {
      ghost var f := [insertOrderList] + listed;
      var start := if key == null then insertOrderList else key;
      ListElements();
      assert f[0] == insertOrderList && AfterIn(f, insertOrderList) == listed;
      CursorMoves(f, start);
      NextIsElement(start);
      var entry := start.flink;
      if entry == insertOrderList {
        return null, key;
      }
      return entry, entry;
    }

    lemma NextIsElement(x: Links)
      requires Ring([insertOrderList] + listed) && x in Elements([insertOrderList] + listed)
      ensures var n := NextIn([insertOrderList] + listed, x);
        && (n == null ==> x.flink == insertOrderList)
        && (n != null ==> n == x.flink && n != insertOrderList && n in Elements(listed))
    {
      var f := [insertOrderList] + listed;
      var i := IndexOf(f, x);
      AtIndex(f, i);
      var a, b := SplitAround(f, x);
      if b != [] {
        assert f[|a| + 1] == b[0] && f[|a| + 1] == listed[|a|];
        assert f[0] == insertOrderList;
      }
    }
  }

  // ---------------------------------------------------------------- two tables

  lemma OnlyElement(t: Tree, n: Links)
    requires Nodes(t) == {n} && Distinct(t)
    ensures InOrder(t) == [n]
  {
    var s := InOrder(t);
    DistinctIffNoRepeats(t);
    InOrderNodes(t);
    assert n in Elements(s);
    assert forall i :: 0 <= i < |s| ==> s[i] in Elements(s) && s[i] == n;
    assert |s| == 1;
  }

  /** A table that holds one element cannot delete it. */
  method DeleteOnly(compare: (int, int) -> Order, x: int) returns (outcome: Outcome)
    requires LinearOrder(compare)
    ensures outcome.Faulted?
  {
    var table := new Table(compare);
    var node, isNew;
    ghost var rounds;
    node, isNew, rounds := table.RtlInsertElementGenericTable(x, true, false);
    assert table.listed == [node] && Elements(table.listed) == {node};
    OnlyElement(table.shape, node);
    Converse(compare, x, x);
    assert FirstMatch(compare, x, table.listed) == node;
    outcome, rounds := table.RtlDeleteElementGenericTable(x);
  }

  lemma NotAtEnds(table: Table, a: Links, c: Links)
    requires table.Searchable() && a in Nodes(table.shape) && c in Nodes(table.shape)
    requires table.compareRoutine(a.userData, c.userData) == Less
    ensures First(InOrder(table.shape)) != c && Last(InOrder(table.shape)) != a
  {
    var s := InOrder(table.shape);
    InOrderNodes(table.shape);
    var i := IndexOf(s, a);
    var j := IndexOf(s, c);
    Converse(table.compareRoutine, a.userData, c.userData);
    Converse(table.compareRoutine, a.userData, a.userData);
  }

  lemma LastOfTwo(table: Table, a: Links, b: Links)
    requires table.Searchable() && Nodes(table.shape) == {a, b}
    requires table.compareRoutine(a.userData, b.userData) == Less
    ensures Last(InOrder(table.shape)) == b
  {
    var s := InOrder(table.shape);
    NotAtEnds(table, a, b);
    InOrderNodes(table.shape);
    assert b in Elements(s);
    assert s[|s| - 1] in Elements(s);
  }

  /** Everything that an insertion writes to belongs to the table. */
  lemma HeadNeighbour(table: Table)
    requires table.Valid()
    ensures Some(table.insertOrderList.blink) <= Elements(table.listed) + {table.insertOrderList}
  {
    FirstAndLast([table.insertOrderList] + table.listed);
    table.ListElements();
  }

  /** An insertion of what is not there, where the parent links are right. */
  method InsertNew(table: Table, buffer: int) returns (node: Links)
    requires table.Valid() && Upward(table.shape) && |table.listed| < MAXULONG
    requires forall n <- Nodes(table.shape) :: table.compareRoutine(buffer, n.userData) != Equal
    modifies table, Nodes(table.shape), table.insertOrderList
    ensures table.Valid() && |table.listed| == old(|table.listed|) + 1
    ensures Nodes(table.shape) == old(Nodes(table.shape)) + {node} && fresh(node) && node.userData == buffer
    ensures forall n <- old(Nodes(table.shape)) :: n.userData == old(n.userData)
    ensures Upward(table.shape) <==> First(InOrder(table.shape)) == node || Last(InOrder(table.shape)) == node
  {
    HeadNeighbour(table);
    assert forall i :: 0 <= i < |table.listed| ==> table.listed[i] in Elements(table.listed);
    NoMatch(table.compareRoutine, buffer, table.listed);
    var isNew;
    ghost var s := table.listed;
    ghost var rounds;
    node, isNew, rounds := table.RtlInsertElementGenericTable(buffer, true, false);
    OneMore(s, node);
  }

  lemma Ordered(compare: (int, int) -> Order, x: int, y: int, z: int)
    requires LinearOrder(compare) && compare(x, y) == Less && compare(y, z) == Less
    ensures compare(x, z) == Less && compare(z, x) == Greater && compare(y, x) == Greater
  {
    Converse(compare, x, y);
    Converse(compare, y, z);
    Converse(compare, x, z);
    assert Consistent(compare, z, x, y) && Consistent(compare, x, y, z);
  }

  /** Three elements, the last of them between the others: the parent links are not right any more. */
  method InsertBetween(compare: (int, int) -> Order, x: int, y: int, z: int) returns (table: Table)
    requires LinearOrder(compare) && compare(x, y) == Less && compare(y, z) == Less
    ensures fresh(table) && table.Valid() && |table.listed| == 3 && !Upward(table.shape)
  {
    hide Ring, Upward, Ascending, First, Linked;
    table := new Table(compare);
    var a := InsertNew(table, x);
    OnlyElement(table.shape, a);
    Ordered(compare, x, y, z);
    var b := InsertNew(table, z);
    LastOfTwo(table, a, b);
    var c := InsertNew(table, y);
    NotAtEnds(table, a, c);
    NotAtEnds(table, c, b);
  }
}
