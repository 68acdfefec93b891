/** Positions in an ordered sequence of nodes, as an enumeration's cursor keeps them: what comes
    after a node, and what insertions and deletions do to that. */
module TableCursor {
  import opened LinkTrees
  import opened SplayDelete
  import opened Walks

  /** What follows x in s. */
  ghost function AfterIn(s: seq<Links>, x: Links): seq<Links> {
    if s == [] then []
    else if s[0] == x then s[1..]
    else AfterIn(s[1..], x)
  }

  ghost function InsertedAt(s: seq<Links>, k: nat, n: Links): seq<Links>
    requires k <= |s|
  {
    s[..k] + [n] + s[k..]
  }

  lemma {:induction false} AfterInSplit(a: seq<Links>, x: Links, b: seq<Links>)
    requires x !in Elements(a)
    ensures AfterIn(a + [x] + b, x) == b
  {
    var s := a + [x] + b;
    if a == [] {
      assert s[1..] == b;
    } else {
      assert a[0] in Elements(a) && s[0] == a[0];
      assert s[1..] == a[1..] + [x] + b;
      forall i | 0 <= i < |a[1..]| ensures a[1..][i] != x {
        assert a[1..][i] == a[i + 1] && a[i + 1] in Elements(a);
      }
      AfterInSplit(a[1..], x, b);
    }
  }

  /** A sequence without repeats, split at one of its nodes. */
  lemma SplitAround(s: seq<Links>, x: Links) returns (a: seq<Links>, b: seq<Links>)
    requires x in Elements(s) && NoRepeats(s)
    ensures s == a + [x] + b && x !in Elements(a) && x !in Elements(b)
    ensures AfterIn(s, x) == b && NextIn(s, x) == First(b) && PreviousIn(s, x) == Last(a)
  {
    var i :| 0 <= i < |s| && s[i] == x;
    a, b := s[..i], s[i + 1..];
    assert s == a + [x] + b;
    forall j | 0 <= j < |a| ensures a[j] != x {
      assert s[j] != s[i];
    }
    forall j | 0 <= j < |b| ensures b[j] != x {
      assert s[i + 1 + j] != s[i];
    }
    AfterInSplit(a, x, b);
    NextInSplit(a, x, b);
    PreviousInSplit(a, x, b);
  }

  /** Moving the cursor on to the next node takes that node off what is still to come. */
  lemma CursorMoves(s: seq<Links>, key: Links)
    requires NoRepeats(s) && key in Elements(s)
    ensures NextIn(s, key) == First(AfterIn(s, key))
    ensures NextIn(s, key) != null ==>
      NextIn(s, key) in Elements(s) && AfterIn(s, NextIn(s, key)) == AfterIn(s, key)[1..]
  {
    var a, b := SplitAround(s, key);
    if b != [] {
      assert s[|a| + 1] == b[0];
      var a', b' := a + [key], b[1..];
      assert s == a' + [b[0]] + b';
      forall j | 0 <= j < |a'| ensures a'[j] != b[0] {
        assert s[j] == a'[j];
      }
      AfterInSplit(a', b[0], b');
    }
  }

  /** Deleting a node other than the cursor's deletes it from what is still to come. */
  lemma CursorKept(s: seq<Links>, key: Links, x: Links)
    requires NoRepeats(s) && key in Elements(s) && x != key
    ensures key in Elements(Without(s, x))
    ensures AfterIn(Without(s, x), key) == Without(AfterIn(s, key), x)
  {
    var a, b := SplitAround(s, key);
    WithoutConcat(a + [key], b, x);
    WithoutConcat(a, [key], x);
    var a', b' := Without(a, x), Without(b, x);
    assert Without(s, x) == a' + [key] + b';
    assert (a' + [key] + b')[|a'|] == key;
    WithoutElements(a, x);
    AfterInSplit(a', key, b');
  }

  lemma {:induction false} WithoutElements(s: seq<Links>, x: Links)
    ensures Elements(Without(s, x)) == Elements(s) - {x}
  {
    if s != [] {
      WithoutElements(s[1..], x);
      assert s == [s[0]] + s[1..];
      ElementsConcat([s[0]], s[1..]);
      assert Elements([s[0]]) == {s[0]} by { assert [s[0]][0] == s[0]; }
      ElementsConcat([s[0]], Without(s[1..], x));
      assert Without(s, x) == if s[0] == x then Without(s[1..], x) else [s[0]] + Without(s[1..], x);
    }
  }

  /** Deleting the cursor's own node, once the cursor has stepped back. */
  lemma CursorSteppedBack(s: seq<Links>, key: Links)
    requires NoRepeats(s) && key in Elements(s) && s[0] != key
    ensures PreviousIn(s, key) != null && PreviousIn(s, key) in Elements(Without(s, key))
    ensures AfterIn(Without(s, key), PreviousIn(s, key)) == AfterIn(s, key)
    ensures Without(AfterIn(s, key), key) == AfterIn(s, key)
  {
    var a, b := SplitAround(s, key);
    WithoutMiddle(a, key, b);
    WithoutAbsent(b, key);
    assert s[0] == (a + [key] + b)[0];
    AfterLast(a, b) by {
      assert forall i :: 0 <= i < |a| ==> a[i] == s[i];
    }
  }

  lemma AfterLast(a: seq<Links>, b: seq<Links>)
    requires a != [] && NoRepeats(a)
    ensures a[|a| - 1] in Elements(a + b) && AfterIn(a + b, a[|a| - 1]) == b
  {
    var k := |a| - 1;
    assert (a + b)[k] == a[k];
    assert a + b == a[..k] + [a[k]] + b;
    forall j | 0 <= j < k ensures a[..k][j] != a[k] {
      assert a[..k][j] == a[j];
    }
    AfterInSplit(a[..k], a[k], b);
  }

  /** Inserting before the cursor changes nothing of what is still to come; inserting after it adds
      the new node in its place. */
  lemma CursorInserted(a: seq<Links>, key: Links, b: seq<Links>, k: nat, n: Links)
    requires key !in Elements(a) && key != n && k <= |a| + 1 + |b|
    ensures AfterIn(InsertedAt(a + [key] + b, k, n), key)
         == if k <= |a| then b else InsertedAt(b, k - |a| - 1, n)
  {
    if k <= |a| {
      CursorBehind(a, key, b, k, n);
    } else {
      CursorBefore(a, key, b, k - |a| - 1, n);
    }
  }

  lemma CursorBehind(a: seq<Links>, key: Links, b: seq<Links>, k: nat, n: Links)
    requires key !in Elements(a) && key != n && k <= |a|
    ensures AfterIn(InsertedAt(a + [key] + b, k, n), key) == b
  {
    InsertedBefore(a, key, b, k, n);
    InsertedElements(a, k, n);
    AfterInSplit(InsertedAt(a, k, n), key, b);
  }

  lemma CursorBefore(a: seq<Links>, key: Links, b: seq<Links>, k: nat, n: Links)
    requires key !in Elements(a) && k <= |b|
    ensures AfterIn(InsertedAt(a + [key] + b, |a| + 1 + k, n), key) == InsertedAt(b, k, n)
  {
    InsertedBehind(a, key, b, k, n);
    AfterInSplit(a, key, InsertedAt(b, k, n));
  }

  lemma InsertedBefore(a: seq<Links>, x: Links, b: seq<Links>, k: nat, n: Links)
    requires k <= |a|
    ensures InsertedAt(a + [x] + b, k, n) == InsertedAt(a, k, n) + [x] + b
  {
  }

  lemma InsertedBehind(a: seq<Links>, x: Links, b: seq<Links>, k: nat, n: Links)
    requires k <= |b|
    ensures InsertedAt(a + [x] + b, |a| + 1 + k, n) == a + [x] + InsertedAt(b, k, n)
  {
  }

  lemma InsertedElements(s: seq<Links>, k: nat, n: Links)
    requires k <= |s|
    ensures Elements(InsertedAt(s, k, n)) == Elements(s) + {n}
  {
    assert s == s[..k] + s[k..];
    ElementsConcat(s[..k], s[k..]);
    ElementsConcat(s[..k], [n]);
    ElementsConcat(s[..k] + [n], s[k..]);
    assert Elements([n]) == {n} by { assert [n][0] == n; }
  }

  // ---------------------------------------------------------------- parts of a sequence

  /** s is t with some nodes left out. */
  ghost predicate Within(s: seq<Links>, t: seq<Links>) {
    if s == [] then true
    else if t == [] then false
    else (s[0] == t[0] && Within(s[1..], t[1..])) || Within(s, t[1..])
  }

  lemma {:induction false} WithinItself(s: seq<Links>)
    ensures Within(s, s)
  {
    if s != [] {
      WithinItself(s[1..]);
    }
  }

  lemma {:induction false} WithinLonger(s: seq<Links>, t: seq<Links>, x: Links)
    requires Within(s, t)
    ensures Within(s, [x] + t) && Within([x] + s, [x] + t)
  {
    assert ([x] + t)[1..] == t && ([x] + s)[1..] == s;
  }

  lemma {:induction false} WithinWithout(s: seq<Links>, t: seq<Links>, x: Links)
    requires Within(s, Without(t, x))
    ensures Within(s, t)
    decreases t
  {
    if t != [] && s != [] {
      if t[0] == x {
        assert Without(t, x) == Without(t[1..], x);
        WithinWithout(s, t[1..], x);
      } else {
        var v := Without(t[1..], x);
        assert Without(t, x)[1..] == v && Without(t, x) == [t[0]] + v;
        if s[0] == t[0] && Within(s[1..], v) {
          WithinWithout(s[1..], t[1..], x);
        } else {
          assert Within(s, v);
          WithinWithout(s, t[1..], x);
        }
      }
    }
  }

  lemma {:induction false} WithinElements(s: seq<Links>, t: seq<Links>)
    requires Within(s, t)
    ensures Elements(s) <= Elements(t)
    decreases t
  {
    if s != [] {
      HeadElement(s);
      HeadElement(t);
      if s[0] == t[0] && Within(s[1..], t[1..]) {
        WithinElements(s[1..], t[1..]);
      } else {
        WithinElements(s, t[1..]);
      }
    }
  }

  lemma HeadElement(s: seq<Links>)
    requires s != []
    ensures Elements(s) == {s[0]} + Elements(s[1..])
    ensures NoRepeats(s) <==> NoRepeats(s[1..]) && s[0] !in Elements(s[1..])
  {
    assert s == [s[0]] + s[1..];
    ElementsConcat([s[0]], s[1..]);
    NoRepeatsConcat([s[0]], s[1..]);
    NothingSharedNodes([s[0]], s[1..]);
    assert Elements([s[0]]) == {s[0]} by { assert [s[0]][0] == s[0]; }
  }

  lemma {:induction false} WithinNoRepeats(s: seq<Links>, t: seq<Links>)
    requires Within(s, t) && NoRepeats(t)
    ensures NoRepeats(s)
    decreases t
  {
    if s != [] {
      HeadElement(t);
      HeadElement(s);
      if s[0] == t[0] && Within(s[1..], t[1..]) {
        WithinElements(s[1..], t[1..]);
        WithinNoRepeats(s[1..], t[1..]);
      } else {
        WithinNoRepeats(s, t[1..]);
      }
    }
  }

  /** The nodes of s that are in some set. */
  ghost function Kept(s: seq<Links>, some: set<Links>): seq<Links> {
    if s == [] then [] else (if s[0] in some then [s[0]] else []) + Kept(s[1..], some)
  }

  lemma {:induction false} KeptConcat(a: seq<Links>, b: seq<Links>, some: set<Links>)
    ensures Kept(a + b, some) == Kept(a, some) + Kept(b, some)
    decreases a
  {
    if a == [] {
      assert [] + b == b;
    } else {
      KeptConcat(a[1..], b, some);
      assert (a + b)[1..] == a[1..] + b && (a + b)[0] == a[0];
    }
  }

  lemma {:induction false} KeptAll(s: seq<Links>, some: set<Links>)
    requires Elements(s) <= some
    ensures Kept(s, some) == s
  {
    if s != [] {
      HeadElement(s);
      KeptAll(s[1..], some);
    }
  }

  lemma {:induction false} KeptWithout(s: seq<Links>, x: Links, some: set<Links>)
    ensures Kept(Without(s, x), some) == Without(Kept(s, some), x)
  {
    if s != [] {
      var first := if s[0] in some then [s[0]] else [];
      KeptWithout(s[1..], x, some);
      assert Without(s, x) == (if s[0] == x then [] else [s[0]]) + Without(s[1..], x);
      KeptConcat(if s[0] == x then [] else [s[0]], Without(s[1..], x), some);
      WithoutConcat(first, Kept(s[1..], some), x);
    }
  }

  lemma {:induction false} KeptSkips(a: seq<Links>, n: Links, b: seq<Links>, some: set<Links>)
    requires n !in some
    ensures Kept(a + [n] + b, some) == Kept(a + b, some)
    decreases a
  {
    if a == [] {
      assert ([] + [n] + b)[1..] == b && [] + b == b;
    } else {
      KeptSkips(a[1..], n, b, some);
      assert (a + [n] + b)[1..] == a[1..] + [n] + b && (a + b)[1..] == a[1..] + b;
    }
  }

  lemma KeptInserted(s: seq<Links>, k: nat, n: Links, some: set<Links>)
    requires k <= |s| && n !in some
    ensures Kept(InsertedAt(s, k, n), some) == Kept(s, some)
  {
    assert s[..k] + s[k..] == s;
    KeptSkips(s[..k], n, s[k..], some);
  }

  lemma InsertedNoRepeats(s: seq<Links>, k: nat, n: Links)
    requires k <= |s| && NoRepeats(s) && n !in Elements(s)
    ensures NoRepeats(InsertedAt(s, k, n))
  {
    var t := InsertedAt(s, k, n);
    forall i, j | 0 <= i < j < |t| ensures t[i] != t[j] {
      assert i != k ==> t[i] == s[if i < k then i else i - 1] && t[i] in Elements(s);
      assert j != k ==> t[j] == s[if j < k then j else j - 1] && t[j] in Elements(s);
    }
  }

  // ---------------------------------------------------------------- whole passes

  /** A new element lands behind the cursor, or with k of the elements still to come before it. */
  datatype Place = Behind | Ahead(k: nat)

  /** What happens between the calls of an enumeration: another call, a deletion, an insertion at
      index at of the whole sequence, or nothing. */
  datatype Step = Enumerate | Delete(x: Links) | Insert(n: Links, at: nat, place: Place) | Nothing

  /** The whole sequence after a step. */
  ghost function ElemsAfter(elems: seq<Links>, step: Step): seq<Links> {
    match step
    case Delete(x) => Without(elems, x)
    case Insert(n, at, _) => InsertedAt(elems, if at <= |elems| then at else |elems|, n)
    case _ => elems
  }

  ghost function ElemsAfterAll(elems: seq<Links>, steps: seq<Step>): seq<Links>
    decreases |steps|
  {
    if steps == [] then elems else ElemsAfterAll(ElemsAfter(elems, steps[0]), steps[1..])
  }

  ghost function RestAfter(rest: seq<Links>, step: Step): seq<Links> {
    match step
    case Enumerate => if rest == [] then [] else rest[1..]
    case Delete(x) => Without(rest, x)
    case Insert(n, _, Behind) => rest
    case Insert(n, _, Ahead(k)) => InsertedAt(rest, if k <= |rest| then k else |rest|, n)
    case Nothing => rest
  }

  ghost function HandedBy(rest: seq<Links>, step: Step): seq<Links> {
    if step.Enumerate? && rest != [] then [rest[0]] else []
  }

  /** What an enumeration hands out over steps, when rest is still to come at the start. */
  ghost function HandedOut(rest: seq<Links>, steps: seq<Step>): seq<Links>
    decreases |steps|
  {
    if steps == [] then []
    else HandedBy(rest, steps[0]) + HandedOut(RestAfter(rest, steps[0]), steps[1..])
  }

  ghost function LeftOver(rest: seq<Links>, steps: seq<Step>): seq<Links>
    decreases |steps|
  {
    if steps == [] then rest else LeftOver(RestAfter(rest, steps[0]), steps[1..])
  }

  ghost function JoinedBy(step: Step): seq<Links> {
    if step.Insert? && step.place.Ahead? then [step.n] else []
  }

  /** The new elements that land ahead of the cursor. */
  ghost function Joining(steps: seq<Step>): seq<Links>
    decreases |steps|
  {
    if steps == [] then [] else JoinedBy(steps[0]) + Joining(steps[1..])
  }

  ghost function Seen(rest: seq<Links>, steps: seq<Step>): seq<Links> {
    HandedOut(rest, steps) + LeftOver(rest, steps)
  }

  lemma SeenUnfolds(rest: seq<Links>, steps: seq<Step>)
    requires steps != []
    ensures Seen(rest, steps) == HandedBy(rest, steps[0]) + Seen(RestAfter(rest, steps[0]), steps[1..])
  {
  }

  /** What one step hands out and leaves. */
  lemma StepElements(rest: seq<Links>, step: Step)
    ensures Elements(HandedBy(rest, step)) + Elements(RestAfter(rest, step))
         == Elements(rest) + Elements(JoinedBy(step)) - if step.Delete? then {step.x} else {}
  {
    match step
    case Enumerate =>
      if rest != [] {
        HeadElement(rest);
        HeadElement([rest[0]]);
      }
    case Delete(x) => WithoutElements(rest, x);
    case Insert(n, _, Behind) =>
    case Insert(n, _, Ahead(k)) =>
      InsertedElements(rest, if k <= |rest| then k else |rest|, n);
      HeadElement([n]);
    case Nothing =>
  }

  lemma StepNoRepeats(rest: seq<Links>, step: Step)
    requires NoRepeats(rest) && Elements(JoinedBy(step)) !! Elements(rest)
    ensures NoRepeats(RestAfter(rest, step)) && Elements(HandedBy(rest, step)) !! Elements(RestAfter(rest, step))
  {
    match step
    case Enumerate =>
      if rest != [] {
        HeadElement(rest);
        HeadElement([rest[0]]);
      }
    case Delete(x) =>
      WithinItself(Without(rest, x));
      WithinWithout(Without(rest, x), rest, x);
      WithinNoRepeats(Without(rest, x), rest);
    case Insert(n, _, Behind) =>
    case Insert(n, _, Ahead(k)) =>
      HeadElement([n]);
      InsertedNoRepeats(rest, if k <= |rest| then k else |rest|, n);
    case Nothing =>
  }

  lemma StepInOrder(rest: seq<Links>, step: Step, some: set<Links>, s: seq<Links>)
    requires Elements(JoinedBy(step)) !! some
    requires Within(s, Kept(RestAfter(rest, step), some))
    ensures Within(Kept(HandedBy(rest, step), some) + s, Kept(rest, some))
  {
    assert Kept([], some) + s == s;
    match step
    case Enumerate =>
      if rest != [] {
        assert Kept([rest[0]], some) == if rest[0] in some then [rest[0]] else [];
        assert [] + Kept(rest[1..], some) == Kept(rest[1..], some);
        if rest[0] in some {
          WithinLonger(s, Kept(rest[1..], some), rest[0]);
        }
      }
    case Delete(x) =>
      KeptWithout(rest, x, some);
      WithinWithout(s, Kept(rest, some), x);
    case Insert(n, _, Behind) =>
    case Insert(n, _, Ahead(k)) =>
      HeadElement([n]);
      KeptInserted(rest, if k <= |rest| then k else |rest|, n, some);
    case Nothing =>
  }

  /** Nothing is handed out or still to come but what was still to come or has landed ahead of the
      cursor; and of that, all that nobody deletes. */
  lemma {:induction false} PassMissesNothing(rest: seq<Links>, steps: seq<Step>)
    ensures Elements(Seen(rest, steps)) <= Elements(rest) + Elements(Joining(steps))
    ensures forall x <- Elements(rest) + Elements(Joining(steps)) :: Delete(x) !in steps ==>
      x in Elements(Seen(rest, steps))
    decreases |steps|
  {
    if steps == [] {
      assert [] + rest == rest;
    } else {
      var rest', tail := RestAfter(rest, steps[0]), steps[1..];
      SeenUnfolds(rest, steps);
      StepElements(rest, steps[0]);
      PassMissesNothing(rest', tail);
      ElementsConcat(HandedBy(rest, steps[0]), Seen(rest', tail));
      ElementsConcat(JoinedBy(steps[0]), Joining(tail));
    }
  }

  /** No node is handed out twice. */
  lemma {:induction false} PassOnce(rest: seq<Links>, steps: seq<Step>)
    requires NoRepeats(rest) && NoRepeats(Joining(steps)) && Elements(Joining(steps)) !! Elements(rest)
    ensures NoRepeats(Seen(rest, steps))
    decreases |steps|
  {
    if steps == [] {
      assert [] + rest == rest;
    } else {
      var handed, rest', tail := HandedBy(rest, steps[0]), RestAfter(rest, steps[0]), steps[1..];
      SeenUnfolds(rest, steps);
      ElementsConcat(JoinedBy(steps[0]), Joining(tail));
      NoRepeatsConcat(JoinedBy(steps[0]), Joining(tail));
      NothingSharedNodes(JoinedBy(steps[0]), Joining(tail));
      StepElements(rest, steps[0]);
      StepNoRepeats(rest, steps[0]);
      PassOnce(rest', tail);
      PassMissesNothing(rest', tail);
      NothingSharedNodes(handed, Seen(rest', tail));
      NoRepeatsConcat(handed, Seen(rest', tail));
    }
  }

  /** What was there before comes in its order. */
  lemma {:induction false} PassInOrder(rest: seq<Links>, steps: seq<Step>, some: set<Links>)
    requires Elements(Joining(steps)) !! some
    ensures Within(Kept(Seen(rest, steps), some), Kept(rest, some))
    decreases |steps|
  {
    if steps == [] {
      assert [] + rest == rest;
      WithinItself(Kept(rest, some));
    } else {
      var handed, rest', tail := HandedBy(rest, steps[0]), RestAfter(rest, steps[0]), steps[1..];
      SeenUnfolds(rest, steps);
      ElementsConcat(JoinedBy(steps[0]), Joining(tail));
      PassInOrder(rest', tail, some);
      KeptConcat(handed, Seen(rest', tail), some);
      StepInOrder(rest, steps[0], some, Kept(Seen(rest', tail), some));
    }
  }

  /** A full pass, with deletions and insertions between the calls. Every node that was there or
      lands ahead of the cursor is handed out exactly once, unless it is deleted; no other node is;
      and what was there comes in order. */
  lemma FullPass(s: seq<Links>, steps: seq<Step>)
    requires NoRepeats(s) && NoRepeats(Joining(steps)) && Elements(Joining(steps)) !! Elements(s)
    requires LeftOver(s, steps) == []
    ensures NoRepeats(HandedOut(s, steps)) && Within(Kept(HandedOut(s, steps), Elements(s)), s)
    ensures Elements(HandedOut(s, steps)) <= Elements(s) + Elements(Joining(steps))
    ensures forall x <- Elements(s) + Elements(Joining(steps)) :: Delete(x) !in steps ==>
      x in Elements(HandedOut(s, steps))
  {
    assert Seen(s, steps) == HandedOut(s, steps);
    PassOnce(s, steps);
    PassInOrder(s, steps, Elements(s));
    KeptAll(s, Elements(s));
    PassMissesNothing(s, steps);
  }
}
