/** A client of the generic table: any run of insertions, searches and deletions, what it leaves and
    what it costs, and a whole enumeration. */
module GenericRun {
  import opened GenericTable
  import opened InsertOrder
  import opened Limits
  import opened LinkTrees
  import opened Searching
  import opened Powers
  import opened SplayDelete
  import opened TableCursor
  import opened TopDownSplay
  import opened Walks
  import Cost = TopDownCost
  import SplayCost

  datatype Request = Insert(buffer: int, allocates: bool) | Lookup(buffer: int) | Delete(buffer: int)

  /** What a request comes to: a search ends at node, a node is added or taken out, or the routine
      faults. */
  datatype Step = Ended(node: Links?) | Inserted(n: Links) | TakenOut(x: Links) | Fault

  ghost function StepNode(step: Step): set<Links> {
    if step.Inserted? then {step.n} else {}
  }

  ghost function StepNodes(steps: seq<Step>): set<Links>
    decreases |steps|
  {
    if steps == [] then {} else StepNode(steps[0]) + StepNodes(steps[1..])
  }

  ghost function ListedAfter(s: seq<Links>, step: Step): seq<Links> {
    match step
    case Inserted(n) => s + [n]
    case TakenOut(x) => Without(s, x)
    case _ => s
  }

  ghost function ListedAfterAll(s: seq<Links>, steps: seq<Step>): seq<Links>
    decreases |steps|
  {
    if steps == [] then s else ListedAfterAll(ListedAfter(s, steps[0]), steps[1..])
  }

  /** x is in s, and all others are less. */
  ghost predicate IsGreatest(compare: (int, int) -> Order, s: seq<Links>, x: Links)
    reads Elements(s)`userData
  {
    x in Elements(s) && forall y <- Elements(s) :: y != x ==> compare(y.userData, x.userData) == Less
  }

  /** The step that a request leads to, where the table lists s. */
  ghost predicate Answers(compare: (int, int) -> Order, s: seq<Links>, request: Request, step: Step)
    reads Elements(s)`userData, StepNode(step)`userData
  {
    var match0 := FirstMatch(compare, request.buffer, s);
    match request
    case Lookup(_) => step == Ended(match0)
    case Insert(buffer, allocates) =>
      if match0 != null || !allocates then step == Ended(match0)
      else step.Inserted? && step.n !in Elements(s) && step.n.userData == buffer
    case Delete(_) =>
      if match0 == null then step == Ended(null)
      else if IsGreatest(compare, s, match0) then step == Fault
      else step == TakenOut(match0)
  }

  /** The steps are those that the requests lead to, one after the other, up to the first fault. */
  ghost predicate Follows(compare: (int, int) -> Order, s: seq<Links>, requests: seq<Request>, steps: seq<Step>)
    reads Elements(s)`userData, StepNodes(steps)`userData
    decreases |steps|
  {
    if requests == [] || steps == [] then requests == [] && steps == []
    else
      StepReaches(s, steps[0]);
      && Answers(compare, s, requests[0], steps[0])
      && if steps[0].Fault? then |steps| == 1
         else Follows(compare, ListedAfter(s, steps[0]), requests[1..], steps[1..])
  }

  lemma StepReaches(s: seq<Links>, step: Step)
    ensures Elements(ListedAfter(s, step)) <= Elements(s) + StepNode(step)
  {
    match step
    case Inserted(n) => OneMore(s, n);
    case TakenOut(x) => WithoutElements(s, x);
    case _ =>
  }

  /** The greatest element of the list stands last in the tree's order. */
  lemma LastIsGreatest(table: Table, x: Links)
    requires table.Valid() && x in Elements(table.listed)
    ensures Last(InOrder(table.shape)) == x <==> IsGreatest(table.compareRoutine, table.listed, x)
  {
    var s := InOrder(table.shape);
    InOrderNodes(table.shape);
    var i := IndexOf(s, x);
    var z := s[|s| - 1];
    assert z in Elements(s);
    Converse(table.compareRoutine, x.userData, x.userData);
    if z == x {
      forall y <- Elements(table.listed) | y != x ensures table.compareRoutine(y.userData, x.userData) == Less {
        var j := IndexOf(s, y);
      }
    } else {
      Converse(table.compareRoutine, x.userData, z.userData);
    }
  }

  /** What one request may cost, in a tree of n elements. */
  ghost function Fee(n: nat): nat {
    12 * SplayCost.Log2(n) + 4
  }

  /** What m requests may cost, where the tree never has more than n elements. */
  ghost function Fees(m: nat, n: nat): nat {
    m * Fee(n)
  }

  /** No routine costs more. */
  lemma FeeIsEnough(t: Tree, t': Tree, rounds: nat)
    requires Cost.SplayPaid(t, t', rounds)
          || Cost.PaidFor(t, t', rounds, 8 * SplayCost.Log2(SplayCost.Size(t) + 1) + 2)
          || Cost.PaidFor(t, t', rounds, 12 * SplayCost.Rank(t) + 4)
    ensures Cost.PaidFor(t, t', rounds, Fee(SplayCost.Size(t) + 1))
  {
    SplayCost.Log2Monotone(SplayCost.Size(t), SplayCost.Size(t) + 1);
  }

  lemma {:induction false} NotLonger(s: seq<Links>, x: Links)
    ensures |Without(s, x)| <= |s|
  {
    if s != [] {
      NotLonger(s[1..], x);
    }
  }

  method RunOne(table: Table, request: Request) returns (faulted: bool, ghost step: Step, ghost rounds: nat)
    requires table.Valid() && table.numberGenericTableElements < MAXULONG
    modifies table`tableRoot, table`shape, table`numberGenericTableElements, table`whichOrderedElement,
             table`orderedPointer, table`listed,
             Nodes(table.shape)`left, Nodes(table.shape)`right, Nodes(table.shape)`parent,
             Nodes(table.shape)`flink, Nodes(table.shape)`blink,
             table.insertOrderList`flink, table.insertOrderList`blink
    ensures Answers(table.compareRoutine, old(table.listed), request, step) && (step.Inserted? ==> fresh(step.n))
    ensures faulted == step.Fault?
    ensures !faulted ==> table.Valid() && table.listed == ListedAfter(old(table.listed), step)
    ensures !faulted ==> table.numberGenericTableElements <= old(table.numberGenericTableElements) + 1
    ensures SplayCost.Size(table.shape) <= SplayCost.Size(old(table.shape)) + 1
    ensures Cost.PaidFor(old(table.shape), table.shape, rounds, Fee(SplayCost.Size(old(table.shape)) + 1))
  {
    hide Linked, Cost.PaidFor, SplayCost.Size, SplayCost.Rank, Fee, FirstMatch, IsGreatest, Without;
    ghost var t, s := table.shape, table.listed;
    HeadNeighbour(table);
    faulted := false;
    match request
    case Lookup(buffer) =>
      var node;
      node, rounds := table.RtlLookupElementGenericTable(buffer);
      step := Ended(node);
      FeeIsEnough(t, table.shape, rounds);
    case Insert(buffer, allocates) =>
      var node, isNew;
      ghost var match0 := FirstMatch(table.compareRoutine, buffer, s);
      node, isNew, rounds := table.RtlInsertElementGenericTable(buffer, allocates, false);
      step := if match0 != null || !allocates then Ended(node) else Inserted(node);
      FeeIsEnough(t, table.shape, rounds);
    case Delete(buffer) =>
      var outcome;
      ghost var match0 := FirstMatch(table.compareRoutine, buffer, s);
      MatchFound(table.compareRoutine, buffer, s);
      if match0 != null {
        LastIsGreatest(table, match0);
      }
      outcome, rounds := table.RtlDeleteElementGenericTable(buffer);
      faulted := outcome.Faulted?;
      if match0 != null {
        NotLonger(s, match0);
      }
      step := match outcome case NotFound => Ended(null) case Deleted => TakenOut(match0) case Faulted => Fault;
      FeeIsEnough(t, table.shape, rounds);
  }

  lemma FirstStep(compare: (int, int) -> Order, s: seq<Links>, requests: seq<Request>, step: Step, steps: seq<Step>)
    requires requests != [] && Answers(compare, s, requests[0], step)
    requires if step.Fault? then steps == [] else Follows(compare, ListedAfter(s, step), requests[1..], steps)
    ensures Follows(compare, s, requests, [step] + steps)
    ensures ListedAfterAll(s, [step] + steps) == ListedAfterAll(ListedAfter(s, step), steps)
    ensures Fault in [step] + steps <==> step.Fault? || Fault in steps
  {
    var all := [step] + steps;
    assert all[0] == step && all[1..] == steps;
  }

  /** Whatever is requested, the table takes the steps that the requests lead to, and lists what they
      leave; and what it costs is logarithmic in the number of elements for each request, on average. */
  method RunRequests(table: Table, requests: seq<Request>) returns (ghost steps: seq<Step>, ghost rounds: nat)
    requires table.Valid() && table.numberGenericTableElements + |requests| <= MAXULONG
    modifies table`tableRoot, table`shape, table`numberGenericTableElements, table`whichOrderedElement,
             table`orderedPointer, table`listed,
             Nodes(table.shape)`left, Nodes(table.shape)`right, Nodes(table.shape)`parent,
             Nodes(table.shape)`flink, Nodes(table.shape)`blink,
             table.insertOrderList`flink, table.insertOrderList`blink
    ensures Follows(table.compareRoutine, old(table.listed), requests, steps)
    ensures Fault !in steps ==> table.Valid() && table.listed == ListedAfterAll(old(table.listed), steps)
    ensures Cost.PaidFor(old(table.shape), table.shape, rounds,
                         Fees(|requests|, SplayCost.Size(old(table.shape)) + |requests|))
    decreases |requests|
  {
    hide Linked, Cost.PaidFor, SplayCost.Size, Fee, Fees, Follows, Answers, ListedAfterAll, ListedAfter;
    NoSteps(table.compareRoutine, table.listed);
    if requests == [] {
      NothingDue(table.shape);
      return [], 0;
    }
    ghost var t, s := table.shape, table.listed;
    assert allocated(Nodes(table.shape)) && allocated(Elements(table.listed));
    var faulted;
    ghost var step, first, rest;
    faulted, step, first := RunOne(table, requests[0]);
    ghost var t1 := table.shape;
    if faulted {
      OneDue(t, t1, first, |requests|);
      FirstStep(table.compareRoutine, s, requests, step, []);
      return [step] + [], first;
    }
    StepReaches(s, step);
    assert allocated(Nodes(table.shape)) && allocated(StepNode(step));
    steps, rest := RunRequests(table, requests[1..]);
    AllDue(t, t1, table.shape, first, rest, |requests|);
    FirstStep(table.compareRoutine, s, requests, step, steps);
    steps := [step] + steps;
    rounds := first + rest;
  }

  lemma NoSteps(compare: (int, int) -> Order, s: seq<Links>)
    ensures Follows(compare, s, [], []) && ListedAfterAll(s, []) == s
  {
  }

  lemma NothingDue(t: Tree)
    ensures Cost.PaidFor(t, t, 0, Fees(0, SplayCost.Size(t)))
  {
  }

  lemma MoreFees(m: nat, k: nat, n: nat)
    requires m <= n
    ensures Fee(m) <= Fee(n) && k * Fee(m) <= k * Fee(n)
  {
    SplayCost.Log2Monotone(m, n);
    Larger(Fee(m), Fee(n), k);
  }

  lemma OneDue(t: Tree, t': Tree, rounds: nat, m: nat)
    requires m > 0 && Cost.PaidFor(t, t', rounds, Fee(SplayCost.Size(t) + 1))
    ensures Cost.PaidFor(t, t', rounds, Fees(m, SplayCost.Size(t) + m))
  {
    MoreFees(SplayCost.Size(t) + 1, 1, SplayCost.Size(t) + m);
    Larger(1, m, Fee(SplayCost.Size(t) + m));
  }

  lemma FeesAdd(size: nat, size1: nat, m: nat)
    requires m > 0 && size1 <= size + 1
    ensures Fee(size + 1) + Fees(m - 1, size1 + (m - 1)) <= Fees(m, size + m)
  {
    var n := size + m;
    MoreFees(size + 1, 1, n);
    MoreFees(size1 + (m - 1), m - 1, n);
    assert m * Fee(n) == Fee(n) + (m - 1) * Fee(n);
  }

  lemma PaidTwice(t: Tree, t1: Tree, t2: Tree, first: nat, rest: nat, a: nat, b: nat, c: nat)
    requires Cost.PaidFor(t, t1, first, a) && Cost.PaidFor(t1, t2, rest, b) && a + b <= c
    ensures Cost.PaidFor(t, t2, first + rest, c)
  {
  }

  lemma AllDue(t: Tree, t1: Tree, t2: Tree, first: nat, rest: nat, m: nat)
    requires m > 0 && SplayCost.Size(t1) <= SplayCost.Size(t) + 1
    requires Cost.PaidFor(t, t1, first, Fee(SplayCost.Size(t) + 1))
    requires Cost.PaidFor(t1, t2, rest, Fees(m - 1, SplayCost.Size(t1) + (m - 1)))
    ensures Cost.PaidFor(t, t2, first + rest, Fees(m, SplayCost.Size(t) + m))
  {
    hide Fee, Fees, Cost.PaidFor;
    var n, n1 := SplayCost.Size(t), SplayCost.Size(t1);
    FeesAdd(n, n1, m);
    PaidTwice(t, t1, t2, first, rest, Fee(n + 1), Fees(m - 1, n1 + (m - 1)), Fees(m, n + m));
  }

  /** From an empty table on, m requests take at most m (12 log m + 4) rounds, whatever they are. */
  method RunFromEmpty(compare: (int, int) -> Order, requests: seq<Request>)
    returns (table: Table, ghost steps: seq<Step>, ghost rounds: nat)
    requires LinearOrder(compare) && |requests| <= MAXULONG
    ensures fresh(table) && table.compareRoutine == compare && Follows(compare, [], requests, steps)
    ensures Fault !in steps ==> table.Valid() && table.listed == ListedAfterAll([], steps)
    ensures rounds <= |requests| * (12 * SplayCost.Log2(|requests|) + 4)
  {
    hide Linked, Follows;
    table := new Table(compare);
    steps, rounds := RunRequests(table, requests);
  }

  lemma HandedOver(out: seq<Links>, rest: seq<Links>, all: seq<Links>)
    requires out + rest == all
    ensures rest != [] ==> (out + [rest[0]]) + rest[1..] == all
    ensures rest == [] ==> out == all
  {
    if rest != [] {
      assert out + rest == (out + [rest[0]]) + rest[1..];
    }
  }

  /** One call of an enumeration that has handed out out so far. */
  method EnumerateOnce(table: Table, key: Links?, out: seq<Links>)
    returns (done: bool, key': Links?, out': seq<Links>)
    requires table.Valid() && (key != null ==> key in Elements(table.listed))
    requires out + table.RestOf(key) == table.listed
    ensures table.Valid() && (done ==> out' == table.listed)
    ensures !done ==>
      && (key' != null ==> key' in Elements(table.listed)) && out' + table.RestOf(key') == table.listed
      && |table.RestOf(key')| < |table.RestOf(key)|
  {
    ghost var rest := table.RestOf(key);
    HandedOver(out, rest, table.listed);
    assert allocated(Nodes(table.shape)) && allocated(InOrder(table.shape));
    assert allocated(Elements([table.insertOrderList] + table.listed));
    hide *;
    var node;
    node, key' := table.RtlEnumerateGenericTableWithoutSplaying(key);
    done, out' := node == null, if node == null then out else out + [node];
  }

  /** An enumeration from the start to the end hands out the elements in the order of insertion. */
  method EnumerateAll(table: Table) returns (elements: seq<Links>)
    requires table.Valid()
    ensures elements == table.listed
  {
    elements := [];
    var key: Links? := null;
    assert table.RestOf(key) == table.listed && elements + table.listed == table.listed;
    hide *;
    var done := false;
    while !done
      invariant done ==> elements == table.listed
      invariant !done ==>
        && table.Valid() && (key != null ==> key in Elements(table.listed))
        && elements + table.RestOf(key) == table.listed
      decreases !done, |table.RestOf(key)|
    {
      done, key, elements := EnumerateOnce(table, key, elements);
    }
  }
}
