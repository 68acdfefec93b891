/** The circular list in which the generic table keeps its elements in the order of insertion. */
module InsertOrder {
  import opened LinkTrees
  import opened Walks

  /** The neighbours of x in f, going around the end. */
  ghost function NextAround(f: seq<Links>, x: Links): Links?
    requires f != []
  {
    if NextIn(f, x) == null then f[0] else NextIn(f, x)
  }

  ghost function PreviousAround(f: seq<Links>, x: Links): Links?
    requires f != []
  {
    if PreviousIn(f, x) == null then f[|f| - 1] else PreviousIn(f, x)
  }

  /** f is the head followed by the elements; each node's links lead to its neighbours. */
  ghost predicate Ring(f: seq<Links>)
    reads Elements(f)`flink, Elements(f)`blink
  {
    f != [] && NoRepeats(f)
    && forall x {:trigger x.flink} {:trigger x.blink} :: x in Elements(f) ==>
         x.flink == NextAround(f, x) && x.blink == PreviousAround(f, x)
  }

  method InitializeListHead(head: Links)
    modifies head`flink, head`blink
    ensures Ring([head])
  {
    head.flink, head.blink := head, head;
    assert NextIn([head], head) == null && PreviousIn([head], head) == null;
  }

  lemma AtIndex(f: seq<Links>, i: nat)
    requires NoRepeats(f) && i < |f|
    ensures f[i] in Elements(f)
    ensures NextAround(f, f[i]) == f[if i + 1 < |f| then i + 1 else 0]
    ensures PreviousAround(f, f[i]) == f[if i > 0 then i - 1 else |f| - 1]
  {
    var a, x, b := f[..i], f[i], f[i + 1..];
    assert f == a + [x] + b;
    forall j | 0 <= j < |a| ensures a[j] != x {
    }
    forall j | 0 <= j < |b| ensures b[j] != x {
    }
    NextInSplit(a, x, b);
    PreviousInSplit(a, x, b);
  }

  lemma IndexOf(f: seq<Links>, x: Links) returns (i: nat)
    requires x in Elements(f)
    ensures i < |f| && f[i] == x
  {
    i :| i < |f| && f[i] == x;
  }

  lemma FirstAndLast(f: seq<Links>)
    requires NoRepeats(f) && f != []
    ensures f[0] in Elements(f) && f[|f| - 1] in Elements(f)
    ensures NextAround(f, f[|f| - 1]) == f[0] && PreviousAround(f, f[0]) == f[|f| - 1]
    ensures PreviousAround(f, f[0]) == f[0] <==> |f| == 1
  {
    AtIndex(f, 0);
    AtIndex(f, |f| - 1);
  }

  // ---------------------------------------------------------------- appending

  lemma Appended(f: seq<Links>, entry: Links)
    requires NoRepeats(f) && f != [] && entry !in Elements(f)
    ensures NoRepeats(f + [entry]) && Elements(f + [entry]) == Elements(f) + {entry}
    ensures NextAround(f + [entry], entry) == f[0] && PreviousAround(f + [entry], entry) == f[|f| - 1]
  {
    NoRepeatsConcat(f, [entry]);
    ElementsConcat(f, [entry]);
    assert Elements([entry]) == {entry} by { assert [entry][0] == entry; }
    NothingSharedNodes(f, [entry]);
    AtIndex(f + [entry], |f|);
  }

  lemma AppendedAround(f: seq<Links>, entry: Links, x: Links)
    requires NoRepeats(f) && f != [] && entry !in Elements(f) && x in Elements(f)
    ensures NextAround(f + [entry], x) == if x == f[|f| - 1] then entry else NextAround(f, x)
    ensures PreviousAround(f + [entry], x) == if x == f[0] then entry else PreviousAround(f, x)
  {
    var i := IndexOf(f, x);
    Appended(f, entry);
    AtIndex(f, i);
    AtIndex(f + [entry], i);
  }

  method LinkLast(head: Links, entry: Links, ghost s: set<Links>)
    requires entry !in s && head in s && head.blink != null && head.blink in s
    requires head.blink == head ==> head.flink == head
    modifies head`flink, head`blink, entry`flink, entry`blink, Some(head.blink)`flink
    ensures entry.blink == old(head.blink) && entry.flink == head
    ensures forall x :: x in s ==>
      && x.flink == (if x == old(head.blink) then entry else old(x.flink))
      && x.blink == (if x == head then entry else old(x.blink))
  {
    assert allocated(s);
    if head.blink == head {
      head.flink, head.blink := entry, entry;
      entry.flink, entry.blink := head, head;
    } else {
      entry.blink := head.blink;
      entry.blink.flink := entry;
      head.blink := entry;
      entry.flink := head;
    }
  }

  /** The new entry is put between the last one and the head. */
  method Append(head: Links, entry: Links, ghost f: seq<Links>)
    requires Ring(f) && f[0] == head && entry !in Elements(f)
    modifies head`flink, head`blink, entry`flink, entry`blink, Some(head.blink)`flink
    ensures Ring(f + [entry])
  {
    FirstAndLast(f);
    Appended(f, entry);
    assert allocated(Elements(f));
    LinkLast(head, entry, Elements(f));
    forall x | x in Elements(f + [entry])
      ensures x.flink == NextAround(f + [entry], x) && x.blink == PreviousAround(f + [entry], x)
    {
      if x != entry {
        assert allocated(x);
        AppendedAround(f, entry, x);
        assert old(x.flink) == NextAround(f, x) && old(x.blink) == PreviousAround(f, x);
      }
    }
  }

  // ---------------------------------------------------------------- unlinking

  lemma UnlinkedElements(a: seq<Links>, entry: Links, b: seq<Links>)
    requires NoRepeats(a + [entry] + b)
    ensures NoRepeats(a + b) && Elements(a + b) == Elements(a + [entry] + b) - {entry}
  {
    NoRepeatsConcat(a + [entry], b);
    NoRepeatsConcat(a, [entry]);
    NoRepeatsConcat(a, b);
    NothingSharedNodes(a, [entry]);
    NothingSharedNodes(a + [entry], b);
    NothingSharedNodes(a, b);
    ElementsConcat(a + [entry], b);
    ElementsConcat(a, [entry]);
    ElementsConcat(a, b);
    assert Elements([entry]) == {entry} by { assert [entry][0] == entry; }
  }

  lemma Unlinked(a: seq<Links>, entry: Links, b: seq<Links>)
    requires NoRepeats(a + [entry] + b) && a != []
    ensures NoRepeats(a + b) && Elements(a + b) == Elements(a + [entry] + b) - {entry}
    ensures NextAround(a + [entry] + b, entry) in Elements(a + b)
    ensures PreviousAround(a + [entry] + b, entry) in Elements(a + b)
  {
    var f, g, k := a + [entry] + b, a + b, |a|;
    UnlinkedElements(a, entry, b);
    AtIndex(f, k);
    assert f[k] == entry;
    assert g[k - 1] == f[k - 1] && g[if k < |g| then k else 0] == f[if k + 1 < |f| then k + 1 else 0];
  }

  lemma UnlinkedAround(a: seq<Links>, entry: Links, b: seq<Links>, x: Links)
    requires NoRepeats(a + [entry] + b) && a != [] && x in Elements(a + b)
    ensures var f, g := a + [entry] + b, a + b;
      && NextAround(g, x) == (if x == PreviousAround(f, entry) then NextAround(f, entry) else NextAround(f, x))
      && PreviousAround(g, x) == (if x == NextAround(f, entry) then PreviousAround(f, entry) else PreviousAround(f, x))
  {
    var f, g, k := a + [entry] + b, a + b, |a|;
    Unlinked(a, entry, b);
    var i := IndexOf(g, x);
    var j := if i < k then i else i + 1;
    assert f[k] == entry && f[j] == x;
    assert forall i :: 0 <= i < |g| ==> g[i] == f[if i < k then i else i + 1];
    AtIndex(g, i);
    AtIndex(f, j);
    AtIndex(f, k);
  }

  method LinkPast(entry: Links, ghost s: set<Links>)
    requires entry.blink != null && entry.flink != null && entry.blink in s && entry.flink in s
    requires entry !in s
    modifies Some(entry.blink)`flink, Some(entry.flink)`blink
    ensures forall x :: x in s ==>
      && x.flink == (if x == old(entry.blink) then old(entry.flink) else old(x.flink))
      && x.blink == (if x == old(entry.flink) then old(entry.blink) else old(x.blink))
  {
    assert allocated(s);
    entry.blink.flink := entry.flink;
    entry.flink.blink := entry.blink;
  }

  /** The entry's neighbours are linked past it. */
  method Unlink(entry: Links, ghost a: seq<Links>, ghost b: seq<Links>)
    requires Ring(a + [entry] + b) && a != []
    modifies Some(entry.blink)`flink, Some(entry.flink)`blink
    ensures Ring(a + b)
  {
    ghost var f, g := a + [entry] + b, a + b;
    Unlinked(a, entry, b);
    assert entry in Elements(f) by { assert f[|a|] == entry; }
    assert entry.flink == NextAround(f, entry) && entry.blink == PreviousAround(f, entry);
    assert allocated(Elements(g));
    LinkPast(entry, Elements(g));
    forall x | x in Elements(g) ensures x.flink == NextAround(g, x) && x.blink == PreviousAround(g, x) {
      assert allocated(x);
      UnlinkedAround(a, entry, b, x);
      assert old(x.flink) == NextAround(f, x) && old(x.blink) == PreviousAround(f, x);
    }
  }
}
