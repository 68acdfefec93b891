/** A client that enumerates an AVL table, and inserts and deletes elements on the way. */
module AvlPass {
  import opened AvlTable
  import opened Limits
  import opened LinkTrees
  import opened Searching
  import opened SplayDelete
  import opened TableCursor

  datatype Request = Next | Add(buffer: int, allocates: bool) | Remove(buffer: int)

  ghost function StepNode(step: Step): set<Links> {
    match step
    case Delete(x) => {x}
    case Insert(n, _, _) => {n}
    case _ => {}
  }

  ghost function StepNodes(steps: seq<Step>): set<Links>
    decreases |steps|
  {
    if steps == [] then {} else StepNode(steps[0]) + StepNodes(steps[1..])
  }

  /** Where an element that gets place k of the sequence s stands to the cursor. */
  ghost function PlaceOf(s: seq<Links>, rest: seq<Links>, k: nat): Place {
    if k < |s| - |rest| then Behind else if |rest| > |s| then Ahead(0) else Ahead(k - (|s| - |rest|))
  }

  /** The step that a request leads to, where the table holds elems and rest is still to come. An
      element is added exactly if nothing matches and memory is there, in the one place the order has
      for it; one is removed exactly if there is a match. */
  ghost predicate Answers(compare: (int, int) -> Order, elems: seq<Links>, rest: seq<Links>, request: Request,
                          step: Step)
    reads Elements(elems)`userData, StepNode(step)`userData
  {
    match request
    case Next => step == Enumerate
    case Add(buffer, allocates) =>
      if FirstMatch(compare, buffer, elems) != null || !allocates then step == Nothing
      else
        && step.Insert? && step.n !in Elements(elems) && step.n.userData == buffer
        && Divides(compare, buffer, elems, step.at) && step.place == PlaceOf(elems, rest, step.at)
    case Remove(buffer) =>
      var x := FirstMatch(compare, buffer, elems);
      step == if x == null then Nothing else Delete(x)
  }

  /** The steps are those that the requests lead to, one after the other. */
  ghost predicate Follows(compare: (int, int) -> Order, elems: seq<Links>, rest: seq<Links>, requests: seq<Request>,
                          steps: seq<Step>)
    reads Elements(elems)`userData, StepNodes(steps)`userData
    decreases |steps|
  {
    if requests == [] || steps == [] then requests == [] && steps == []
    else
      StepReaches(elems, steps[0]);
      && Answers(compare, elems, rest, requests[0], steps[0])
      && Follows(compare, ElemsAfter(elems, steps[0]), RestAfter(rest, steps[0]), requests[1..], steps[1..])
  }

  lemma StepReaches(elems: seq<Links>, step: Step)
    ensures Elements(ElemsAfter(elems, step)) <= Elements(elems) + StepNode(step)
  {
    match step
    case Delete(x) => WithoutElements(elems, x);
    case Insert(n, at, _) => InsertedElements(elems, if at <= |elems| then at else |elems|, n);
    case _ =>
  }

  lemma PureSteps(s: seq<Links>, rest: seq<Links>, step: Step)
    ensures step.Delete? ==>
      RestAfter(rest, step) == Without(rest, step.x) && ElemsAfter(s, step) == Without(s, step.x)
    ensures step.Nothing? ==> RestAfter(rest, step) == rest && ElemsAfter(s, step) == s
  {
  }

  lemma Placed(table: Table, s: seq<Links>, rest: seq<Links>, rest': seq<Links>, k: nat, n: Links)
    requires k <= |s| && table.InsertedRest(s, rest, rest', k, n)
    ensures rest' == RestAfter(rest, Insert(n, k, PlaceOf(s, rest, k)))
    ensures ElemsAfter(s, Insert(n, k, PlaceOf(s, rest, k))) == InsertedAt(s, k, n)
    ensures |InsertedAt(s, k, n)| == |s| + 1
  {
  }

  method RunAdd(table: Table, buffer: int, allocates: bool) returns (ghost step: Step)
    requires table.Valid() && table.numberGenericTableElements < MAXULONG - 1
    requires LinearOrder(table.compareRoutine) && Ascending(table.compareRoutine, table.Elems())
    modifies table`numberGenericTableElements, table`depthOfTree, table`whole,
             Nodes(table.whole)`parent, Nodes(table.whole)`left, Nodes(table.whole)`right, Nodes(table.whole)`balance
    ensures table.Valid() && Ascending(table.compareRoutine, table.Elems())
    ensures Answers(table.compareRoutine, old(table.Elems()), old(table.Rest()), Add(buffer, allocates), step)
    ensures step.Insert? ==> fresh(step.n)
    ensures Nodes(table.whole) == old(Nodes(table.whole)) + StepNode(step)
    ensures table.numberGenericTableElements <= old(table.numberGenericTableElements) + 1
    ensures table.Rest() == RestAfter(old(table.Rest()), step)
    ensures table.Elems() == ElemsAfter(old(table.Elems()), step)
  {
    hide Rooted, Ascending, Sorts, FirstMatch, LinearOrder, InsertedAt, RestAfter, PlaceOf;
    ghost var s, rest := table.Elems(), table.Rest();
    table.WholeOrder();
    AscendingSorts(table.compareRoutine, s, buffer);
    assert allocated(s) && allocated(Nodes(table.whole));
    var node, newElement;
    ghost var k;
    node, newElement, k := table.RtlInsertElementGenericTableAvl(buffer, allocates);
    table.WholeOrder();
    if newElement {
      InsertedElements(s, k, node);
      step := Insert(node, k, PlaceOf(s, rest, k));
      Placed(table, s, rest, table.Rest(), k, node);
    } else {
      step := Nothing;
    }
    PureSteps(s, rest, step);
  }

  method RunRemove(table: Table, buffer: int) returns (ghost step: Step)
    requires table.Valid()
    requires LinearOrder(table.compareRoutine) && Ascending(table.compareRoutine, table.Elems())
    modifies table`depthOfTree, table`whole, table`numberGenericTableElements, table`deleteCount, table`restartKey,
             table`whichOrderedElement, table`orderedPointer,
             Nodes(table.whole)`parent, Nodes(table.whole)`left, Nodes(table.whole)`right, Nodes(table.whole)`balance
    ensures table.Valid() && Ascending(table.compareRoutine, table.Elems())
    ensures Answers(table.compareRoutine, old(table.Elems()), old(table.Rest()), Remove(buffer), step)
    ensures Nodes(table.whole) == old(Nodes(table.whole)) - StepNode(step)
    ensures table.numberGenericTableElements <= old(table.numberGenericTableElements)
    ensures table.Rest() == RestAfter(old(table.Rest()), step)
    ensures table.Elems() == ElemsAfter(old(table.Elems()), step)
  {
    hide Rooted, Ascending, Sorts, FirstMatch, LinearOrder, Without, RestAfter, Elements, ElemsAfter, Nodes;
    ghost var s, rest := table.Elems(), table.Rest();
    table.WholeOrder();
    AscendingSorts(table.compareRoutine, s, buffer);
    assert allocated(s) && allocated(Nodes(table.whole));
    var deleted;
    ghost var node;
    deleted, node := table.RtlDeleteElementGenericTableAvl(buffer);
    table.WholeOrder();
    if deleted {
      OnlyMatch(table.compareRoutine, buffer, s, node);
      WithoutElements(s, node);
      OneLess(s, node);
      step := Delete(node);
    } else {
      step := Nothing;
    }
    PureSteps(s, rest, step);
  }

  method RunOne(table: Table, request: Request) returns (handed: seq<Links>, ghost step: Step)
    requires table.Valid() && table.numberGenericTableElements < MAXULONG - 1
    requires LinearOrder(table.compareRoutine) && Ascending(table.compareRoutine, table.Elems())
    modifies table`depthOfTree, table`whole, table`numberGenericTableElements, table`deleteCount, table`restartKey,
             table`whichOrderedElement, table`orderedPointer,
             Nodes(table.whole)`parent, Nodes(table.whole)`left, Nodes(table.whole)`right, Nodes(table.whole)`balance
    ensures table.Valid() && Ascending(table.compareRoutine, table.Elems())
    ensures Answers(table.compareRoutine, old(table.Elems()), old(table.Rest()), request, step)
    ensures step.Insert? ==> fresh(step.n)
    ensures forall n <- Nodes(table.whole) :: n in old(Nodes(table.whole)) || fresh(n)
    ensures table.numberGenericTableElements <= old(table.numberGenericTableElements) + 1
    ensures handed == HandedBy(old(table.Rest()), step) && table.Rest() == RestAfter(old(table.Rest()), step)
    ensures table.Elems() == ElemsAfter(old(table.Elems()), step)
  {
    handed := [];
    match request
    case Next =>
      assert allocated(Nodes(table.whole)) && allocated(table.Elems());
      var node := table.RtlEnumerateGenericTableAvl(false);
      handed := if node == null then [] else [node];
      step := Enumerate;
    case Add(buffer, allocates) =>
      step := RunAdd(table, buffer, allocates);
    case Remove(buffer) =>
      step := RunRemove(table, buffer);
  }

  /** Whatever is requested, the table takes the steps that the requests lead to: it holds what they
      leave, and has handed out and has still to hand out what they say. The elements that are added
      are new. */
  method RunSteps(table: Table, requests: seq<Request>) returns (handedOut: seq<Links>, ghost steps: seq<Step>)
    requires table.Valid() && table.numberGenericTableElements + |requests| < MAXULONG
    requires LinearOrder(table.compareRoutine) && Ascending(table.compareRoutine, table.Elems())
    modifies table`depthOfTree, table`whole, table`numberGenericTableElements, table`deleteCount, table`restartKey,
             table`whichOrderedElement, table`orderedPointer,
             Nodes(table.whole)`parent, Nodes(table.whole)`left, Nodes(table.whole)`right, Nodes(table.whole)`balance
    ensures table.Valid() && Ascending(table.compareRoutine, table.Elems())
    ensures Follows(table.compareRoutine, old(table.Elems()), old(table.Rest()), requests, steps)
    ensures table.Elems() == ElemsAfterAll(old(table.Elems()), steps)
    ensures handedOut == HandedOut(old(table.Rest()), steps) && table.Rest() == LeftOver(old(table.Rest()), steps)
    ensures NoRepeats(Joining(steps)) && forall n :: n in Joining(steps) ==> fresh(n)
    decreases |requests|
  {
    hide LinearOrder;
    if requests == [] {
      return [], [];
    }
    assert allocated(Nodes(table.whole)) && allocated(table.Elems());
    var handed;
    ghost var step;
    handed, step := RunOne(table, requests[0]);
    assert allocated(Nodes(table.whole)) && allocated(StepNode(step));
    handedOut, steps := RunSteps(table, requests[1..]);
    NewestJoins(step, steps);
    handedOut := handed + handedOut;
    steps := [step] + steps;
  }

  lemma NewestJoins(step: Step, steps: seq<Step>)
    requires NoRepeats(Joining(steps)) && forall n <- Joining(steps) :: n !in StepNode(step)
    ensures Joining([step] + steps) == JoinedBy(step) + Joining(steps) && NoRepeats(Joining([step] + steps))
  {
    assert ([step] + steps)[0] == step && ([step] + steps)[1..] == steps;
    var a, b := JoinedBy(step), Joining(steps);
    forall i, j | 0 <= i < |a| && 0 <= j < |b| ensures a[i] != b[j] {
      assert b[j] in b;
    }
    NoRepeatsConcat(a, b);
  }

  /** A pass that is over when it stops: each element that was there, or was added ahead of the
      cursor, is handed out once, unless it was removed; no other is; and those that were there come
      in the table's order. */
  method RunPass(table: Table, requests: seq<Request>) returns (handedOut: seq<Links>, ghost steps: seq<Step>)
    requires table.Valid() && table.numberGenericTableElements + |requests| < MAXULONG && table.restartKey == null
    requires LinearOrder(table.compareRoutine) && Ascending(table.compareRoutine, table.Elems())
    modifies table`depthOfTree, table`whole, table`numberGenericTableElements, table`deleteCount, table`restartKey,
             table`whichOrderedElement, table`orderedPointer,
             Nodes(table.whole)`parent, Nodes(table.whole)`left, Nodes(table.whole)`right, Nodes(table.whole)`balance
    ensures table.Valid() && Ascending(table.compareRoutine, table.Elems())
    ensures Follows(table.compareRoutine, old(table.Elems()), old(table.Rest()), requests, steps)
    ensures table.Elems() == ElemsAfterAll(old(table.Elems()), steps)
    ensures table.Rest() == [] ==>
      && NoRepeats(handedOut) && Within(Kept(handedOut, Elements(old(table.Elems()))), old(table.Elems()))
      && Elements(handedOut) <= Elements(old(table.Elems())) + Elements(Joining(steps))
      && forall x <- Elements(old(table.Elems())) + Elements(Joining(steps)) :: Delete(x) !in steps ==>
        x in Elements(handedOut)
  {
    ghost var s := table.Elems();
    assert NoRepeats(s) by { table.WholeOrder(); }
    assert allocated(s) && allocated(Elements(s));
    handedOut, steps := RunSteps(table, requests);
    forall n | n in Elements(Joining(steps)) ensures n !in Elements(s) {
      assert n in Joining(steps) && fresh(n);
    }
    if table.Rest() == [] {
      FullPass(s, steps);
    }
  }
}
