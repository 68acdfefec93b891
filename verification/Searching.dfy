/** Sequences of nodes searched with a compare routine. */
module Searching {
  import opened LinkTrees
  import opened SplayDelete
  import opened TableCursor

  /** GenericLessThan, GenericGreaterThan and GenericEqual. */
  datatype Order = Less | Greater | Equal

  ghost function Rank(o: Order): nat {
    match o
    case Greater => 0
    case Equal => 1
    case Less => 2
  }

  ghost predicate Consistent(compare: (int, int) -> Order, a: int, b: int, c: int) {
    && (compare(a, b) == Less <==> compare(b, a) == Greater)
    && (compare(a, b) != Greater && compare(b, c) != Greater ==> compare(a, c) != Greater)
  }

  /** A total preorder of the user data, in the three answers of a compare routine. */
  ghost predicate LinearOrder(compare: (int, int) -> Order) {
    forall a, b, c :: Consistent(compare, a, b, c)
  }

  lemma Converse(compare: (int, int) -> Order, x: int, y: int)
    requires LinearOrder(compare)
    ensures compare(x, y) == Less <==> compare(y, x) == Greater
    ensures compare(x, y) == Equal <==> compare(y, x) == Equal
  {
    assert Consistent(compare, x, y, x) && Consistent(compare, y, x, y);
  }

  /** What compares at most x compares less than whatever x is less than. */
  lemma Transitive(compare: (int, int) -> Order, b: int, x: int, y: int)
    requires LinearOrder(compare) && compare(x, y) == Less
    ensures compare(b, x) != Greater ==> compare(b, y) == Less
  {
    Converse(compare, x, y);
    Converse(compare, b, y);
    Converse(compare, y, b);
    assert Consistent(compare, y, b, x);
  }

  /** Along s, buffer compares greater, then equal, then less. A sorted table has this property
      for every buffer; a search for several matches needs no more. */
  ghost predicate Sorts(compare: (int, int) -> Order, buffer: int, s: seq<Links>)
    reads s`userData
  {
    forall i, j :: 0 <= i < j < |s| ==>
      Rank(compare(buffer, s[i].userData)) <= Rank(compare(buffer, s[j].userData))
  }

  ghost predicate AllCompare(compare: (int, int) -> Order, buffer: int, s: seq<Links>, o: Order)
    reads s`userData
  {
    forall i :: 0 <= i < |s| ==> compare(buffer, s[i].userData) == o
  }

  /** buffer belongs between the first k nodes of s and the others. */
  ghost predicate Divides(compare: (int, int) -> Order, buffer: int, s: seq<Links>, k: nat)
    reads s`userData
  {
    k <= |s| && forall i :: 0 <= i < |s| ==>
      compare(buffer, s[i].userData) == if i < k then Greater else Less
  }

  lemma SortsSplit(compare: (int, int) -> Order, buffer: int, a: seq<Links>, n: Links, b: seq<Links>)
    requires Sorts(compare, buffer, a + [n] + b)
    ensures compare(buffer, n.userData) == Less ==> AllCompare(compare, buffer, b, Less)
    ensures compare(buffer, n.userData) == Greater ==> AllCompare(compare, buffer, a, Greater)
  {
    var s := a + [n] + b;
    assert s[|a|] == n;
    assert forall i :: 0 <= i < |a| ==> s[i] == a[i];
    assert forall i :: 0 <= i < |b| ==> s[|a| + 1 + i] == b[i];
  }

  ghost predicate Ascending(compare: (int, int) -> Order, s: seq<Links>)
    reads s`userData
  {
    forall i, j :: 0 <= i < j < |s| ==> compare(s[i].userData, s[j].userData) == Less
  }

  /** What a search along the whole table would find first. */
  ghost function FirstMatch(compare: (int, int) -> Order, buffer: int, s: seq<Links>): (n: Links?)
    reads s`userData
  {
    if s == [] then null
    else if compare(buffer, s[0].userData) == Equal then s[0]
    else FirstMatch(compare, buffer, s[1..])
  }

  /** A table in ascending order can be searched for any buffer. */
  lemma AscendingSorts(compare: (int, int) -> Order, s: seq<Links>, buffer: int)
    requires LinearOrder(compare) && Ascending(compare, s)
    ensures Sorts(compare, buffer, s)
  {
    forall i, j | 0 <= i < j < |s|
      ensures Rank(compare(buffer, s[i].userData)) <= Rank(compare(buffer, s[j].userData))
    {
      Transitive(compare, buffer, s[i].userData, s[j].userData);
    }
  }

  lemma {:induction false} NoMatch(compare: (int, int) -> Order, buffer: int, s: seq<Links>)
    ensures FirstMatch(compare, buffer, s) == null <==>
      forall i :: 0 <= i < |s| ==> compare(buffer, s[i].userData) != Equal
  {
    if s != [] {
      NoMatch(compare, buffer, s[1..]);
      assert forall i :: 0 <= i < |s[1..]| ==> s[1..][i] == s[i + 1];
      assert forall i :: 0 < i < |s| ==> s[i] == s[1..][i - 1];
    }
  }

  lemma {:induction false} MatchFound(compare: (int, int) -> Order, buffer: int, s: seq<Links>)
    ensures var n := FirstMatch(compare, buffer, s);
      n != null ==> n in Elements(s) && compare(buffer, n.userData) == Equal
  {
    if s != [] {
      MatchFound(compare, buffer, s[1..]);
      assert s[0] in Elements(s) && forall i :: 0 <= i < |s[1..]| ==> s[1..][i] == s[i + 1];
    }
  }

  /** Sequences of the same elements agree on what matches, when one of them is in a linear order. */
  lemma SameElements(compare: (int, int) -> Order, buffer: int, s: seq<Links>, t: seq<Links>)
    requires LinearOrder(compare) && Ascending(compare, t) && NoRepeats(t) && Elements(s) == Elements(t)
    ensures FirstMatch(compare, buffer, s) == FirstMatch(compare, buffer, t)
  {
    MatchFound(compare, buffer, s);
    MatchFound(compare, buffer, t);
    var n := FirstMatch(compare, buffer, s);
    if n != null {
      OnlyMatch(compare, buffer, t, n);
    } else {
      NoMatch(compare, buffer, s);
    }
  }

  lemma {:induction false} MatchAfter(compare: (int, int) -> Order, buffer: int, a: seq<Links>, n: Links, b: seq<Links>)
    requires compare(buffer, n.userData) == Equal
    requires forall i :: 0 <= i < |a| ==> compare(buffer, a[i].userData) != Equal
    ensures FirstMatch(compare, buffer, a + [n] + b) == n
  {
    if a != [] {
      assert (a + [n] + b)[1..] == a[1..] + [n] + b;
      MatchAfter(compare, buffer, a[1..], n, b);
    }
  }

  /** In a linear order, at most one element of an ascending table matches. */
  lemma OnlyMatch(compare: (int, int) -> Order, buffer: int, s: seq<Links>, n: Links)
    requires LinearOrder(compare) && Ascending(compare, s) && NoRepeats(s) && n in Elements(s)
    requires compare(buffer, n.userData) == Equal
    ensures FirstMatch(compare, buffer, s) == n
  {
    var a, b := SplitAround(s, n);
    forall i | 0 <= i < |a| ensures compare(buffer, a[i].userData) != Equal {
      assert s[i] == a[i] && s[|a|] == n;
      assert compare(s[i].userData, s[|a|].userData) == Less;
      Transitive(compare, buffer, a[i].userData, n.userData);
    }
    MatchAfter(compare, buffer, a, n, b);
  }

  /** A new element between those its data compares greater than and those it compares less than. */
  lemma AscendingInserted(compare: (int, int) -> Order, s: seq<Links>, k: nat, n: Links)
    requires LinearOrder(compare) && Ascending(compare, s) && k <= |s|
    requires Divides(compare, n.userData, s, k)
    ensures Ascending(compare, InsertedAt(s, k, n))
  {
    var s' := InsertedAt(s, k, n);
    forall i, j | 0 <= i < j < |s'| ensures compare(s'[i].userData, s'[j].userData) == Less {
      if j == k {
        assert s'[i] == s[i];
        Converse(compare, s'[i].userData, n.userData);
      } else if i == k {
        assert s'[j] == s[j - 1];
      } else {
        assert s'[i] == s[if i < k then i else i - 1] && s'[j] == s[if j < k then j else j - 1];
      }
    }
  }

  lemma {:induction false} AscendingWithout(compare: (int, int) -> Order, s: seq<Links>, x: Links)
    requires Ascending(compare, s) && NoRepeats(s) && x in Elements(s)
    ensures Ascending(compare, Without(s, x)) && |Without(s, x)| == |s| - 1
  {
    var a, b := SplitAround(s, x);
    WithoutMiddle(a, x, b);
    forall i, j | 0 <= i < j < |a + b|
      ensures compare((a + b)[i].userData, (a + b)[j].userData) == Less
    {
      assert (a + b)[i] == s[if i < |a| then i else i + 1] && (a + b)[j] == s[if j < |a| then j else j + 1];
    }
  }

  lemma NoMatchBetween(compare: (int, int) -> Order, buffer: int, a: seq<Links>, b: seq<Links>)
    requires AllCompare(compare, buffer, a, Greater) && AllCompare(compare, buffer, b, Less)
    ensures FirstMatch(compare, buffer, a + b) == null && Divides(compare, buffer, a + b, |a|)
  {
    var s := a + b;
    forall i | 0 <= i < |s| ensures compare(buffer, s[i].userData) == if i < |a| then Greater else Less {
      assert s[i] == if i < |a| then a[i] else b[i - |a|];
    }
    NoMatch(compare, buffer, s);
  }

  /** Where the element before a match does not match, no earlier one does. */
  lemma NoneBefore(compare: (int, int) -> Order, buffer: int, a: seq<Links>, n: Links, b: seq<Links>)
    requires Sorts(compare, buffer, a + [n] + b) && compare(buffer, n.userData) == Equal
    requires a == [] || compare(buffer, a[|a| - 1].userData) != Equal
    ensures FirstMatch(compare, buffer, a + [n] + b) == n
  {
    var s := a + [n] + b;
    assert s[|a|] == n;
    forall i | 0 <= i < |a| ensures compare(buffer, a[i].userData) != Equal {
      assert s[i] == a[i] && s[|a| - 1] == a[|a| - 1];
    }
    MatchAfter(compare, buffer, a, n, b);
  }

  lemma StillAscending(compare: (int, int) -> Order, s: seq<Links>, ascending: bool, k: nat, n: Links)
    requires Divides(compare, n.userData, s, k) && (ascending ==> Ascending(compare, s))
    ensures LinearOrder(compare) && ascending ==> Ascending(compare, InsertedAt(s, k, n))
  {
    if LinearOrder(compare) && ascending {
      AscendingInserted(compare, s, k, n);
    }
  }

  lemma StillAscendingWithout(compare: (int, int) -> Order, s: seq<Links>, ascending: bool, n: Links)
    requires NoRepeats(s) && n in Elements(s) && (ascending ==> Ascending(compare, s))
    ensures ascending ==> Ascending(compare, Without(s, n))
  {
    if ascending {
      AscendingWithout(compare, s, n);
    }
  }

  lemma OneLess(s: seq<Links>, x: Links)
    requires NoRepeats(s) && x in Elements(s)
    ensures |Without(s, x)| == |s| - 1
  {
    var a, b := SplitAround(s, x);
    WithoutMiddle(a, x, b);
  }

  /** A sequence in ascending order, cut at one of its nodes. */
  lemma AscendingParts(compare: (int, int) -> Order, a: seq<Links>, n: Links, b: seq<Links>)
    requires LinearOrder(compare) && Ascending(compare, a + [n] + b)
    ensures Ascending(compare, a) && AllCompare(compare, n.userData, a, Greater)
  {
    var s := a + [n] + b;
    assert s[|a|] == n && forall i :: 0 <= i < |a| ==> s[i] == a[i];
    forall i | 0 <= i < |a| ensures compare(n.userData, a[i].userData) == Greater {
      assert compare(s[i].userData, s[|a|].userData) == Less;
      Converse(compare, a[i].userData, n.userData);
    }
  }

  lemma AscendingJoined(compare: (int, int) -> Order, a: seq<Links>, n: Links, b: seq<Links>)
    requires Ascending(compare, a + [n] + b)
    ensures Ascending(compare, a + b)
  {
    var s, t := a + [n] + b, a + b;
    forall i, j | 0 <= i < j < |t| ensures compare(t[i].userData, t[j].userData) == Less {
      assert t[i] == s[if i < |a| then i else i + 1] && t[j] == s[if j < |a| then j else j + 1];
    }
  }
}
