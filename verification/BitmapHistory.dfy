/** A bitmap used as an allocator: ranges are granted by RtlFindClearBitsAndSet and given back by
    RtlClearBits. */
module BitmapHistory {
  import opened Bitmap
  import opened Limits
  import opened Words

  datatype Range = Range(start: nat, length: nat)

  datatype Request = Allocate(number: nat, hint: nat) | Release(which: nat)

  datatype State = State(bits: seq<bool>, live: seq<Range>)

  ghost predicate Covers(r: Range, k: nat) {
    r.start <= k < r.start + r.length
  }

  ghost predicate Apart(r: Range, s: Range) {
    r.start + r.length <= s.start || s.start + s.length <= r.start
  }

  /** The live ranges lie in the bitmap, none of them empty, no two of them overlap, and together
      they are exactly the set bits. */
  ghost predicate Exact(s: State) {
    && (forall i :: 0 <= i < |s.live| ==> s.live[i].length > 0 && s.live[i].start + s.live[i].length <= |s.bits|)
    && (forall i, j :: 0 <= i < j < |s.live| ==> Apart(s.live[i], s.live[j]))
    && (forall i, k :: 0 <= i < |s.live| && 0 <= k < |s.bits| && Covers(s.live[i], k) ==> s.bits[k])
    && (forall k :: 0 <= k < |s.bits| && s.bits[k] ==> exists i :: 0 <= i < |s.live| && Covers(s.live[i], k))
  }

  /** What a request does; requests for no bits and releases of nothing do nothing. */
  ghost function After(s: State, r: Request): (s': State)
    ensures |s'.bits| == |s.bits|
  {
    match r
    case Allocate(n, hint) =>
      var p := ClearBitsAnswer(s.bits, n, hint);
      if n == 0 || p == MAXULONG then s
      else State(WithRange(s.bits, p, n, true), s.live + [Range(p, n)])
    case Release(i) =>
      if i >= |s.live| then s
      else State(WithRange(s.bits, s.live[i].start, s.live[i].length, false), s.live[..i] + s.live[i + 1..])
  }

  ghost function AfterAll(s: State, requests: seq<Request>): State
    decreases |requests|
  {
    if requests == [] then s else AfterAll(After(s, requests[0]), requests[1..])
  }

  lemma AllocateKeeps(s: State, n: nat, p: nat)
    requires Exact(s) && n > 0 && Window(s.bits, p, n, false)
    ensures Exact(State(WithRange(s.bits, p, n, true), s.live + [Range(p, n)]))
  {
    var r, live := Range(p, n), s.live + [Range(p, n)];
    var b := WithRange(s.bits, p, n, true);
    forall i | 0 <= i < |s.live| ensures Apart(s.live[i], r) {
      var k := if s.live[i].start >= p then s.live[i].start else p;
      assert Covers(s.live[i], k) && k < |s.bits| ==> s.bits[k];
    }
    forall k | 0 <= k < |b| && b[k] ensures exists i :: 0 <= i < |live| && Covers(live[i], k) {
      if p <= k < p + n {
        assert Covers(live[|s.live|], k);
      } else {
        var i :| 0 <= i < |s.live| && Covers(s.live[i], k);
        assert Covers(live[i], k);
      }
    }
  }

  /** The ranges but one: each is another of the old ones, and apart from the one left out. */
  lemma OthersApart(live: seq<Range>, i: nat, j: nat)
    requires i < |live| && j < |live| - 1
    requires forall m, n :: 0 <= m < n < |live| ==> Apart(live[m], live[n])
    ensures (live[..i] + live[i + 1..])[j] == live[if j < i then j else j + 1]
    ensures Apart((live[..i] + live[i + 1..])[j], live[i])
  {
    assert j < i ==> Apart(live[j], live[i]);
    assert j >= i ==> Apart(live[i], live[j + 1]);
  }

  lemma StillCovered(live: seq<Range>, i: nat, k: nat)
    requires i < |live| && !Covers(live[i], k) && exists m :: 0 <= m < |live| && Covers(live[m], k)
    ensures var rest := live[..i] + live[i + 1..]; exists j :: 0 <= j < |rest| && Covers(rest[j], k)
  {
    var m :| 0 <= m < |live| && Covers(live[m], k);
    var rest := live[..i] + live[i + 1..];
    assert rest[if m < i then m else m - 1] == live[m];
  }

  lemma ReleaseKeeps(s: State, i: nat)
    requires Exact(s) && i < |s.live|
    ensures Exact(After(s, Release(i)))
  {
    var r, live := s.live[i], s.live[..i] + s.live[i + 1..];
    var b := WithRange(s.bits, r.start, r.length, false);
    forall j | 0 <= j < |live| ensures live[j] == s.live[if j < i then j else j + 1] && Apart(live[j], r) {
      OthersApart(s.live, i, j);
    }
    forall j, k | 0 <= j < |live| && 0 <= k < |b| && Covers(live[j], k) ensures b[k] {
      assert Covers(s.live[if j < i then j else j + 1], k);
    }
    forall k | 0 <= k < |b| && b[k] ensures exists j :: 0 <= j < |live| && Covers(live[j], k) {
      StillCovered(s.live, i, k);
    }
  }

  lemma StepKeeps(s: State, r: Request)
    requires Exact(s) && |s.bits| < MAXULONG
    ensures Exact(After(s, r))
  {
    match r
    case Allocate(n, hint) =>
      var p := ClearBitsAnswer(s.bits, n, hint);
      if n != 0 && p != MAXULONG {
        if n <= |s.bits| {
          ClearBitsFirstFit(s.bits, n, hint);
        }
        AllocateKeeps(s, n, p);
      }
    case Release(i) =>
      if i < |s.live| {
        ReleaseKeeps(s, i);
      }
  }

  lemma {:induction false} HistoryIsExact(s: State, requests: seq<Request>)
    requires Exact(s) && |s.bits| < MAXULONG
    ensures Exact(AfterAll(s, requests))
    decreases |requests|
  {
    if requests != [] {
      StepKeeps(s, requests[0]);
      HistoryIsExact(After(s, requests[0]), requests[1..]);
    }
  }

  /** From an all-clear bitmap on, whatever is requested, no two live ranges overlap, and the set
      bits are exactly theirs. */
  lemma FromAllClear(b: seq<bool>, requests: seq<Request>)
    requires |b| < MAXULONG && forall k :: 0 <= k < |b| ==> !b[k]
    ensures Exact(AfterAll(State(b, []), requests))
  {
    HistoryIsExact(State(b, []), requests);
  }

  // ---------------------------------------------------------------- the routines' runs

  /** What the routines demand of their callers. */
  ghost predicate Allowed(size: nat, r: Request) {
    r.Allocate? ==>
      && r.number <= MAXULONG && r.hint <= MAXULONG
      && if r.number == 0 then r.hint <= size else r.number <= size ==> r.hint + r.number <= MAXULONG
  }

  method RunRequest(bitmap: BitMap, live: seq<Range>, r: Request) returns (live': seq<Range>)
    requires bitmap.Valid() && Exact(State(bitmap.Bits(), live)) && Allowed(bitmap.sizeOfBitMap, r)
    modifies bitmap.buffer
    ensures State(bitmap.Bits(), live') == After(State(old(bitmap.Bits()), live), r)
  {
    ghost var b := bitmap.Bits();
    live' := live;
    match r
    case Allocate(n, hint) =>
      var outside, position := bitmap.RtlFindClearBitsAndSet(n, hint);
      if n != 0 && position != MAXULONG {
        live' := live + [Range(position, n)];
      }
      if n == 0 {
        assert WithRange(b, position, 0, true) == b;
      }
    case Release(i) =>
      if i < |live| {
        bitmap.RtlClearBits(live[i].start, live[i].length);
        bitmap.RangeChanged(b, live[i].start, live[i].length, false);
        live' := live[..i] + live[i + 1..];
      }
  }

  /** Whatever the requests are, the bitmap and the list of what has been granted and not given back
      come out as the pure account says. */
  method RunRequests(bitmap: BitMap, live0: seq<Range>, requests: seq<Request>) returns (live: seq<Range>)
    requires bitmap.Valid() && Exact(State(bitmap.Bits(), live0))
    requires forall i :: 0 <= i < |requests| ==> Allowed(bitmap.sizeOfBitMap, requests[i])
    modifies bitmap.buffer
    ensures State(bitmap.Bits(), live) == AfterAll(State(old(bitmap.Bits()), live0), requests)
    ensures Exact(State(bitmap.Bits(), live))
  {
    live := live0;
    var i := 0;
    ghost var goal := AfterAll(State(bitmap.Bits(), live0), requests);
    assert requests[0..] == requests;
    while i < |requests|
      invariant 0 <= i <= |requests| && Exact(State(bitmap.Bits(), live))
      invariant AfterAll(State(bitmap.Bits(), live), requests[i..]) == goal
    {
      ghost var s := State(bitmap.Bits(), live);
      StepKeeps(s, requests[i]);
      assert requests[i..][0] == requests[i] && requests[i..][1..] == requests[i + 1..];
      live := RunRequest(bitmap, live, requests[i]);
      i := i + 1;
    }
  }

  /** A new bitmap under any requests: no two ranges that are live overlap, and the bits that are set
      are exactly theirs. */
  method RunFromAllClear(size: nat, requests: seq<Request>) returns (bitmap: BitMap, live: seq<Range>)
    requires size < 0x8000_0000 && forall i :: 0 <= i < |requests| ==> Allowed(size, requests[i])
    ensures fresh(bitmap) && fresh(bitmap.buffer) && bitmap.Valid() && bitmap.sizeOfBitMap == size
    ensures State(bitmap.Bits(), live) == AfterAll(State(seq(size, _ => false), []), requests)
    ensures Exact(State(bitmap.Bits(), live))
  {
    var buffer := new Word[size / 32 + 1](_ => ZERO);
    bitmap := new BitMap(buffer, size);
    assert bitmap.Bits() == seq(size, _ => false);
    live := RunRequests(bitmap, [], requests);
  }
}
