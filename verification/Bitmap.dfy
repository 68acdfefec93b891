/** RTL_BITMAP: runs and ranges of bits, a word at a time. */
module Bitmap {
  import opened Limits
  import opened Words

  // ---------------------------------------------------------------- what the routines mean

  /** How many bits from i on, up to the end, have the value v without a break. */
  ghost function Run(b: seq<bool>, i: nat, v: bool): (n: nat)
    requires i <= |b|
    ensures i + n <= |b|
    decreases |b| - i
  {
    if i < |b| && b[i] == v then 1 + Run(b, i + 1, v) else 0
  }

  lemma {:induction false} RunIs(b: seq<bool>, i: nat, v: bool, n: nat)
    requires i + n <= |b| && (forall k :: i <= k < i + n ==> b[k] == v)
    ensures Run(b, i, v) >= n
    ensures i + n == |b| || b[i + n] != v ==> Run(b, i, v) == n
    decreases n
  {
    if n > 0 {
      RunIs(b, i + 1, v, n - 1);
    }
  }

  lemma {:induction false} RunHolds(b: seq<bool>, i: nat, v: bool)
    requires i <= |b|
    ensures forall k :: i <= k < i + Run(b, i, v) ==> b[k] == v
    ensures i + Run(b, i, v) < |b| ==> b[i + Run(b, i, v)] != v
    decreases |b| - i
  {
    if i < |b| && b[i] == v {
      RunHolds(b, i + 1, v);
    }
  }

  /** n bits from p on that all have the value v. */
  ghost predicate Window(b: seq<bool>, p: nat, n: nat, v: bool) {
    p + n <= |b| && forall k :: p <= k < p + n ==> b[k] == v
  }

  ghost predicate NoWindow(b: seq<bool>, from: nat, to: nat, n: nat, v: bool) {
    forall q {:trigger Window(b, q, n, v)} :: from <= q < to ==> !Window(b, q, n, v)
  }

  ghost predicate FirstWindow(b: seq<bool>, from: nat, n: nat, v: bool, p: nat) {
    from <= p && Window(b, p, n, v) && NoWindow(b, from, p, n, v)
  }

  lemma WindowIffRun(b: seq<bool>, p: nat, n: nat, v: bool)
    requires p <= |b|
    ensures Window(b, p, n, v) <==> Run(b, p, v) >= n
  {
    RunHolds(b, p, v);
    if Window(b, p, n, v) {
      RunIs(b, p, v, n);
    }
  }

  /** No window of v starts within a run of the other value. */
  lemma SkipOther(b: seq<bool>, p: nat, n: nat, v: bool)
    requires p <= |b| && n > 0
    ensures NoWindow(b, p, p + Run(b, p, !v), n, v)
  {
    RunHolds(b, p, !v);
    forall q | p <= q < p + Run(b, p, !v) ensures !Window(b, q, n, v) {
      assert b[q] == !v;
    }
  }

  /** Where a run of v is too short, no window starts within it. */
  lemma SkipShort(b: seq<bool>, p: nat, n: nat, v: bool)
    requires p <= |b| && Run(b, p, v) < n
    ensures NoWindow(b, p, p + Run(b, p, v) + 1, n, v)
  {
    RunHolds(b, p, v);
  }

  /** The first place from from on where n bits of value v start; the length of b if there is none. */
  ghost function LeastWindow(b: seq<bool>, from: nat, n: nat, v: bool): (p: nat)
    requires from <= |b|
    ensures from <= p <= |b| && NoWindow(b, from, p, n, v) && (p < |b| ==> Window(b, p, n, v))
    decreases |b| - from
  {
    if from == |b| || Window(b, from, n, v) then from
    else
      var p := LeastWindow(b, from + 1, n, v);
      assert NoWindow(b, from, p, n, v);
      p
  }

  lemma LeastIsFirst(b: seq<bool>, from: nat, n: nat, v: bool, p: nat)
    requires from <= |b| && n > 0
    ensures FirstWindow(b, from, n, v, p) ==> p == LeastWindow(b, from, n, v) < |b|
    ensures NoWindow(b, from, |b|, n, v) ==> LeastWindow(b, from, n, v) == |b|
  {
    var q := LeastWindow(b, from, n, v);
    if FirstWindow(b, from, n, v, p) {
      assert p < q ==> !Window(b, p, n, v);
    }
  }

  /** What a search for n clear bits answers: the first place from the hint on, or else the first
      place of all. It never grants the whole bitmap. */
  ghost function ClearBitsAnswer(b: seq<bool>, n: nat, hint: nat): nat {
    if n > |b| then MAXULONG
    else if n == 0 then hint
    else if n == |b| then MAXULONG
    else if hint + n < |b| && LeastWindow(b, hint, n, false) < |b| then LeastWindow(b, hint, n, false)
    else if LeastWindow(b, 0, n, false) < |b| then LeastWindow(b, 0, n, false)
    else MAXULONG
  }

  /** A search for set bits goes on from the hint only, and grants the whole bitmap too. */
  ghost function SetBitsAnswer(b: seq<bool>, n: nat, hint: nat): nat {
    if n > |b| then MAXULONG
    else if n == 0 then hint
    else if hint + n <= |b| && LeastWindow(b, hint, n, true) < |b| then LeastWindow(b, hint, n, true)
    else MAXULONG
  }

  /** The search for clear bits is sound, and complete but for one case: asked for as many bits as
      the bitmap has, it fails even where all of them are clear. What it grants is the first window
      from the hint on, if the hint leaves room and there is one, and else the first of all. No bits
      are found at the hint, and more than there are nowhere. */
  lemma ClearBitsFirstFit(b: seq<bool>, n: nat, hint: nat)
    requires |b| < MAXULONG
    ensures n == 0 ==> ClearBitsAnswer(b, n, hint) == hint
    ensures n > |b| ==> ClearBitsAnswer(b, n, hint) == MAXULONG
    ensures 0 < n <= |b| ==> var p := ClearBitsAnswer(b, n, hint);
      && (p == MAXULONG <==> n == |b| || NoWindow(b, 0, |b|, n, false))
      && (p != MAXULONG ==> Window(b, p, n, false))
      && (p != MAXULONG && hint + n < |b| && !NoWindow(b, hint, |b|, n, false) ==> FirstWindow(b, hint, n, false, p))
      && (p != MAXULONG && (hint + n >= |b| || NoWindow(b, hint, |b|, n, false)) ==> FirstWindow(b, 0, n, false, p))
  {
    if n == 0 || n > |b| {
      return;
    }
    LeastIsFirst(b, 0, n, false, 0);
    if hint <= |b| {
      LeastIsFirst(b, hint, n, false, 0);
      var q := LeastWindow(b, hint, n, false);
      assert q < |b| ==> Window(b, q, n, false);
    }
    var p := LeastWindow(b, 0, n, false);
    assert p < |b| ==> Window(b, p, n, false);
  }

  /** The search for set bits goes on from the hint, and is complete. */
  lemma SetBitsFirstFit(b: seq<bool>, n: nat, hint: nat)
    requires |b| < MAXULONG
    ensures n == 0 ==> SetBitsAnswer(b, n, hint) == hint
    ensures n > |b| ==> SetBitsAnswer(b, n, hint) == MAXULONG
    ensures 0 < n <= |b| ==> var p := SetBitsAnswer(b, n, hint);
      && (p == MAXULONG <==> NoWindow(b, hint, |b|, n, true))
      && (p != MAXULONG ==> FirstWindow(b, hint, n, true, p))
  {
    if 0 < n && hint <= |b| {
      LeastIsFirst(b, hint, n, true, 0);
      var q := LeastWindow(b, hint, n, true);
      assert q < |b| ==> Window(b, q, n, true);
    }
  }

  lemma ClearBitsFit(b: seq<bool>, n: nat, hint: nat)
    requires |b| < MAXULONG && (n == 0 ==> hint <= |b|)
    ensures var p := ClearBitsAnswer(b, n, hint); p != MAXULONG ==> p + n <= |b|
  {
    if 0 < n <= |b| {
      ClearBitsFirstFit(b, n, hint);
    }
  }

  /** What a pass of the search for clear bits has to say about the answer. */
  lemma SearchMeans(b: seq<bool>, n: nat, hintIndex: nat, hint: nat, margin: nat, found: bool, p: nat)
    requires 0 < n <= margin <= |b|
    requires (hint == hintIndex && margin == |b|)
          || (hint == 0 && hintIndex != 0 && margin == if hintIndex + n < |b| then hintIndex + n else |b|)
    requires hint != hintIndex && hintIndex + n < |b| ==> NoWindow(b, hintIndex, |b|, n, false)
    requires found ==> FirstWindow(b, hint, n, false, p) && n < |b|
    requires !found && hint + n < margin ==> NoWindow(b, hint, margin - n + 1, n, false)
    requires found && hint == hintIndex ==> hint + n < |b|
    ensures found ==> p == ClearBitsAnswer(b, n, hintIndex)
    ensures !found && hint == hintIndex && hintIndex + n < |b| ==> NoWindow(b, hintIndex, |b|, n, false)
    ensures !found && hint == 0 ==> ClearBitsAnswer(b, n, hintIndex) == MAXULONG
  {
    if found {
      LeastIsFirst(b, hint, n, false, p);
      if hintIndex <= |b| {
        LeastIsFirst(b, hintIndex, n, false, p);
      }
    }
  }

  /** The sum of two ULONGs. */
  function Sum32(x: nat, y: nat): nat {
    (x + y) % 0x1_0000_0000
  }

  ghost function WithRange(b: seq<bool>, p: nat, n: nat, v: bool): (b': seq<bool>)
    ensures |b'| == |b|
  {
    seq(|b|, i requires 0 <= i < |b| => if p <= i < p + n then v else b[i])
  }

  /** A run of clear bits with nothing clear next to it. */
  ghost predicate MaximalRun(b: seq<bool>, s: nat, n: nat) {
    && n > 0 && Window(b, s, n, false)
    && (s == 0 || b[s - 1]) && (s + n == |b| || b[s + n])
  }

  /** The run found from f on, against the maximal runs: it is one itself if it is longer than
      those that start before f, and no other starts where the search goes on to. */
  lemma NextRun(b: seq<bool>, f: nat, i: nat, n: nat, max: nat)
    requires f <= |b| && i == f + Run(b, f, true) && n == Run(b, i, false)
    requires forall s: nat, m: nat :: MaximalRun(b, s, m) && s < f ==> m <= max
    ensures n > max ==> MaximalRun(b, i, n)
    ensures forall s: nat, m: nat :: MaximalRun(b, s, m) && s < f + n ==> m <= max || (s == i && m == n)
    ensures forall s: nat, m: nat :: MaximalRun(b, s, m) && n == 0 ==> s < f
    ensures forall s: nat, m: nat :: MaximalRun(b, s, m) && f <= s ==> s >= i
  {
    RunHolds(b, f, true);
    RunHolds(b, i, false);
    if n > max && i == f > 0 && !b[f - 1] {
      var s := RunStart(b, f);
      assert MaximalRun(b, s, i + n - s);
    }
    forall s: nat, m: nat | MaximalRun(b, s, m) && f <= s
      ensures s >= i && s < |b| && (s == i || s >= i + n)
    {
      LaterRun(b, f, i, n, s, m);
    }
    forall s: nat, m: nat | MaximalRun(b, s, m) && s == i ensures m == n {
      RunIs(b, i, false, m);
    }
  }

  lemma LaterRun(b: seq<bool>, f: nat, i: nat, n: nat, s: nat, m: nat)
    requires f <= i && i + n <= |b| && (forall k :: f <= k < i ==> b[k]) && (forall k :: i <= k < i + n ==> !b[k])
    requires MaximalRun(b, s, m) && f <= s
    ensures s >= i && s < |b| && (s == i || s >= i + n)
  {
    assert !b[s];
    assert s == 0 || b[s - 1];
  }

  /** Where the run of clear bits that f lies in starts. */
  lemma RunStart(b: seq<bool>, f: nat) returns (s: nat)
    requires 0 < f <= |b| && !b[f - 1]
    ensures s < f && (s == 0 || b[s - 1]) && forall k :: s <= k < f ==> !b[k]
  {
    s := f - 1;
    while s > 0 && !b[s - 1]
      invariant s < f && forall k :: s <= k < f ==> !b[k]
    {
      s := s - 1;
    }
  }

  /** The words that a range of bits reaches into. */
  lemma WordsSpanned(start: nat, length: nat, size: nat)
    requires start + length <= size
    ensures var last := start / 32 + (start % 32 + length + 31) / 32;
      start + length <= last * 32 && last <= size / 32 + 1
  {
  }

  class BitMap {
    const sizeOfBitMap: nat
    const buffer: array<Word>

    /** The scans and the masks touch the word that holds the first bit after a range, even where
        the range ends with the bitmap. */
    ghost predicate Valid() {
      sizeOfBitMap < 0x8000_0000 && sizeOfBitMap / 32 < buffer.Length
    }

    /** RtlInitializeBitMap. */
    constructor (buffer: array<Word>, sizeOfBitMap: nat)
      requires sizeOfBitMap < 0x8000_0000 && sizeOfBitMap / 32 < buffer.Length
      ensures Valid() && this.buffer == buffer && this.sizeOfBitMap == sizeOfBitMap
    {
      this.buffer, this.sizeOfBitMap := buffer, sizeOfBitMap;
    }

    ghost function Digit(i: nat): bool
      reads buffer
      requires i / 32 < buffer.Length
    {
      buffer[i / 32][i % 32]
    }

    ghost function Bits(): (b: seq<bool>)
      reads buffer
      requires Valid()
      ensures |b| == sizeOfBitMap && forall i :: 0 <= i < |b| ==> b[i] == Digit(i)
    {
      seq(sizeOfBitMap, i requires 0 <= i < sizeOfBitMap reads buffer => Digit(i))
    }

    /** The digits of word k, and its number, that end a run of v that starts at start. */
    ghost predicate Stops(value: Word, k: nat, start: nat, v: bool)
      reads buffer
    {
      k < buffer.Length && forall j :: 0 <= j < 32 ==>
        (value[j] <==> k * 32 + j >= start && buffer[k][j] != v)
    }

    /** The bits from start up to word k have the value v. */
    ghost predicate Same(k: nat, start: nat, v: bool)
      reads buffer
      requires k <= buffer.Length
    {
      forall i {:trigger Digit(i)} :: start <= i < k * 32 ==> Digit(i) == v
    }

    /** No stop in word k: all of its bits belong to the run. */
    lemma NoStop(value: Word, k: nat, start: nat, v: bool)
      requires Stops(value, k, start, v) && value == ZERO && Same(k, start, v)
      ensures Same(k + 1, start, v)
    {
      forall i | start <= i < (k + 1) * 32 ensures Digit(i) == v {
        if i >= k * 32 {
          assert !value[i - k * 32];
        }
      }
    }

    lemma MaskedStops(value: Word, start: nat, v: bool)
      requires Valid() && start / 32 <= sizeOfBitMap / 32
      requires forall j :: 0 <= j < 32 ==> (value[j] <==> j >= start % 32 && buffer[start / 32][j] != v)
      ensures Stops(value, start / 32, start, v) && Same(start / 32, start, v)
    {
    }

    /** The first word of a scan, without the digits before start. */
    lemma FirstStops(start: nat, v: bool)
      requires Valid() && start / 32 <= sizeOfBitMap / 32
      ensures var w := if v then Not(buffer[start / 32]) else buffer[start / 32];
        Stops(ShiftLeft(ShiftRight(w, start % 32), start % 32), start / 32, start, v)
      ensures Same(start / 32, start, v)
    {
      var w := if v then Not(buffer[start / 32]) else buffer[start / 32];
      MaskedStops(ShiftLeft(ShiftRight(w, start % 32), start % 32), start, v);
    }

    lemma NextStops(k: nat, start: nat, v: bool)
      requires start / 32 < k < buffer.Length
      ensures Stops(if v then Not(buffer[k]) else buffer[k], k, start, v)
    {
    }

    /** No stop up to word k: a run of n bits, if they all lie before word k. */
    lemma RunUpTo(k: nat, start: nat, v: bool, n: nat)
      requires Valid() && k <= buffer.Length && Same(k, start, v) && start + n <= sizeOfBitMap && start + n <= k * 32
      ensures Run(Bits(), start, v) >= n
    {
      assert forall i :: start <= i < start + n ==> Bits()[i] == Digit(i);
      RunIs(Bits(), start, v, n);
    }

    lemma StopAt(value: Word, k: nat, j: nat, start: nat, v: bool)
      requires Valid() && Stops(value, k, start, v) && Same(k, start, v) && start <= sizeOfBitMap
      requires j < 32 && value[j] && (forall i :: 0 <= i < j ==> !value[i])
      ensures k * 32 + j >= start
      ensures Run(Bits(), start, v)
           == if k * 32 + j > sizeOfBitMap then sizeOfBitMap - start else k * 32 + j - start
    {
      var e := k * 32 + j;
      var n := if e > sizeOfBitMap then sizeOfBitMap - start else e - start;
      forall i | start <= i < start + n ensures Bits()[i] == v {
        if i >= k * 32 {
          assert !value[i - k * 32];
        } else {
          assert Digit(i) == v;
        }
      }
      RunIs(Bits(), start, v, n);
    }

    /** The number of bits from start up to the size, which wraps around where start lies behind. */
    function BitsLeft(start: nat): nat {
      (sizeOfBitMap - start) % 0x1_0000_0000
    }

    function Cut(start: nat, maximum: nat): nat {
      if maximum < BitsLeft(start) then maximum else BitsLeft(start)
    }

    /** For a start behind the size: the scan reads words that are not the bitmap's. Either its first
        word is one, or all of that word belongs to the run and the scan goes on. */
    ghost predicate GoesOutside(start: nat, maximum: nat, v: bool)
      requires Valid()
      reads buffer
    {
      start / 32 > sizeOfBitMap / 32
      || (Same(start / 32 + 1, start, v) && Sum32(start % 32 + Cut(start, maximum), 31) / 32 > 1)
    }

    /** For a start behind the size, in the bitmap's last word: what the scan takes for a run. */
    ghost predicate StrayRun(start: nat, maximum: nat, v: bool, length: nat)
      requires Valid() && start / 32 <= sizeOfBitMap / 32
      reads buffer
    {
      if Same(start / 32 + 1, start, v) then length == Cut(start, maximum)
      else
        && start % 32 + length < 32 && Digit(start + length) != v
        && forall i {:trigger Digit(i)} :: start <= i < start + length ==> Digit(i) == v
    }

    lemma StopInWord(value: Word, k: nat, j: nat, start: nat, v: bool)
      requires Valid() && Stops(value, k, start, v) && k == start / 32 == sizeOfBitMap / 32
      requires j < 32 && value[j] && (forall i :: 0 <= i < j ==> !value[i])
      ensures k * 32 + j >= start && !Same(k + 1, start, v) && Digit(k * 32 + j) != v
      ensures forall i {:trigger Digit(i)} :: start <= i < k * 32 + j ==> Digit(i) == v
    {
      assert Digit(k * 32 + j) != v;
      forall i | start <= i < k * 32 + j ensures Digit(i) == v {
        assert !value[i - k * 32];
      }
    }

    /** Where word k - 1 has a stop: the run up to it, cut at the end of the bitmap. */
    method LengthToStop(k: nat, value: Word, startingIndex: nat, ghost v: bool) returns (length: nat)
      requires Valid() && startingIndex <= MAXULONG && 1 <= k <= buffer.Length && value != ZERO
      requires startingIndex > sizeOfBitMap ==> k - 1 == startingIndex / 32 == sizeOfBitMap / 32
      requires Stops(value, k - 1, startingIndex, v) && Same(k - 1, startingIndex, v)
      ensures startingIndex <= sizeOfBitMap ==> length == Run(Bits(), startingIndex, v)
      ensures startingIndex > sizeOfBitMap ==>
        StrayRun(startingIndex, MAXULONG, v, length) && !Same(startingIndex / 32 + 1, startingIndex, v)
    {
      hide Same, Stops, Run;
      var bitPos := BitScanForward(value);
      if startingIndex <= sizeOfBitMap {
        StopAt(value, k - 1, bitPos, startingIndex, v);
      } else {
        StopInWord(value, k - 1, bitPos, startingIndex, v);
      }
      length := k * 32 - startingIndex + bitPos - 32;
      if length > BitsLeft(startingIndex) {
        length := BitsLeft(startingIndex);
      }
    }

    /** What a scan from start on comes to. Within the size it finds the run; where that reaches
        maximum it may be cut there, or not. Behind the size, it may go outside the bitmap. */
    ghost predicate Measured(start: nat, maximum: nat, v: bool, outside: bool, length: nat)
      requires Valid()
      reads buffer
    {
      if start <= sizeOfBitMap then
        && !outside && length <= Run(Bits(), start, v)
        && (length == Run(Bits(), start, v) || length == maximum)
      else
        && (outside <==> GoesOutside(start, maximum, v))
        && (!outside ==> StrayRun(start, maximum, v, length))
    }

    lemma Spanned(start: nat, maximum: nat)
      requires Valid() && start <= sizeOfBitMap
      ensures var n := Cut(start, maximum);
        var last := start / 32 + Sum32(start % 32 + n, 31) / 32;
        n <= maximum && start + n <= sizeOfBitMap && start + n <= last * 32 && last <= sizeOfBitMap / 32 + 1
    {
      assert BitsLeft(start) == sizeOfBitMap - start;
      assert Sum32(start % 32 + Cut(start, maximum), 31) == start % 32 + Cut(start, maximum) + 31;
      hide BitsLeft, Sum32;
      WordsSpanned(start, Cut(start, maximum), sizeOfBitMap);
    }

    lemma StartsOutside(start: nat, maximum: nat, v: bool)
      requires Valid() && start / 32 > sizeOfBitMap / 32
      ensures Measured(start, maximum, v, true, 0)
    {
    }

    lemma RunsOutside(start: nat, maximum: nat, v: bool)
      requires Valid() && start > sizeOfBitMap && start / 32 == sizeOfBitMap / 32 && Same(start / 32 + 1, start, v)
      requires Sum32(start % 32 + Cut(start, maximum), 31) / 32 > 1
      ensures Measured(start, maximum, v, true, 0)
    {
    }

    lemma EndsUnstopped(k: nat, start: nat, maximum: nat, v: bool)
      requires Valid() && start / 32 < k <= sizeOfBitMap / 32 + 1 && Same(k, start, v)
      requires start > sizeOfBitMap ==> k == start / 32 + 1
      requires start / 32 + Sum32(start % 32 + Cut(start, maximum), 31) / 32 <= k
      ensures Measured(start, maximum, v, false, Cut(start, maximum))
    {
      hide Same, Sum32;
      if start <= sizeOfBitMap {
        Spanned(start, maximum);
        RunUpTo(k, start, v, Cut(start, maximum));
      }
    }

    lemma EndsAtStop(start: nat, maximum: nat, v: bool, length: nat)
      requires Valid() && start / 32 <= sizeOfBitMap / 32
      requires start <= sizeOfBitMap ==> length == Run(Bits(), start, v)
      requires start > sizeOfBitMap ==>
        StrayRun(start, MAXULONG, v, length) && !Same(start / 32 + 1, start, v)
      ensures Measured(start, maximum, v, false, length)
    {
    }

    method RtlpGetLengthOfRunClear(startingIndex: nat, maximum: nat) returns (outside: bool, length: nat)
      requires Valid() && startingIndex <= MAXULONG && maximum <= MAXULONG
      ensures Measured(startingIndex, maximum, false, outside, length)
    {
      hide Measured, Stops, Same, ShiftLeft, ShiftRight, Not, Sum32, Cut;
      var k := startingIndex / 32;
      var bitPos := startingIndex % 32;
      var maxLength := Cut(startingIndex, maximum);
      var maxBuffer := k + Sum32(bitPos + maxLength, 31) / 32;
      if startingIndex <= sizeOfBitMap {
        Spanned(startingIndex, maximum);
      }
      if k > sizeOfBitMap / 32 {
        StartsOutside(startingIndex, maximum, false);
        return true, 0;
      }
      var value := ShiftLeft(ShiftRight(buffer[k], bitPos), bitPos);
      FirstStops(startingIndex, false);
      k := k + 1;
      while value == ZERO && k < maxBuffer
        invariant startingIndex / 32 < k <= sizeOfBitMap / 32 + 1
        invariant startingIndex > sizeOfBitMap ==> k == startingIndex / 32 + 1
        invariant Stops(value, k - 1, startingIndex, false) && Same(k - 1, startingIndex, false)
      {
        NoStop(value, k - 1, startingIndex, false);
        if k > sizeOfBitMap / 32 {
          RunsOutside(startingIndex, maximum, false);
          return true, 0;
        }
        NextStops(k, startingIndex, false);
        value := buffer[k];
        k := k + 1;
      }
      if value == ZERO {
        NoStop(value, k - 1, startingIndex, false);
        EndsUnstopped(k, startingIndex, maximum, false);
        return false, maxLength;
      }
      outside := false;
      length := LengthToStop(k, value, startingIndex, false);
      EndsAtStop(startingIndex, maximum, false, length);
    }

    method RtlpGetLengthOfRunSet(startingIndex: nat, maximum: nat) returns (outside: bool, length: nat)
      requires Valid() && startingIndex <= MAXULONG && maximum <= MAXULONG
      ensures Measured(startingIndex, maximum, true, outside, length)
    {
      hide Measured, Stops, Same, ShiftLeft, ShiftRight, Not, Sum32, Cut;
      var k := startingIndex / 32;
      var bitPos := startingIndex % 32;
      var maxLength := Cut(startingIndex, maximum);
      var maxBuffer := k + Sum32(bitPos + maxLength, 31) / 32;
      if startingIndex <= sizeOfBitMap {
        Spanned(startingIndex, maximum);
      }
      if k > sizeOfBitMap / 32 {
        StartsOutside(startingIndex, maximum, true);
        return true, 0;
      }
      var value := ShiftLeft(ShiftRight(Not(buffer[k]), bitPos), bitPos);
      FirstStops(startingIndex, true);
      k := k + 1;
      while value == ZERO && k < maxBuffer
        invariant startingIndex / 32 < k <= sizeOfBitMap / 32 + 1
        invariant startingIndex > sizeOfBitMap ==> k == startingIndex / 32 + 1
        invariant Stops(value, k - 1, startingIndex, true) && Same(k - 1, startingIndex, true)
      {
        NoStop(value, k - 1, startingIndex, true);
        if k > sizeOfBitMap / 32 {
          RunsOutside(startingIndex, maximum, true);
          return true, 0;
        }
        NextStops(k, startingIndex, true);
        value := Not(buffer[k]);
        k := k + 1;
      }
      if value == ZERO {
        NoStop(value, k - 1, startingIndex, true);
        EndsUnstopped(k, startingIndex, maximum, true);
        return false, maxLength;
      }
      outside := false;
      length := LengthToStop(k, value, startingIndex, true);
      EndsAtStop(startingIndex, maximum, true, length);
    }

    // -------------------------------------------------------------- ranges

    /** RtlFillMemoryUlong, from word k on; length is in bytes. */
    method RtlFillMemoryUlong(k: nat, length: nat, fill: Word)
      requires k + length / 4 <= buffer.Length
      modifies buffer
      ensures forall i :: 0 <= i < buffer.Length ==>
        buffer[i] == if k <= i < k + length / 4 then fill else old(buffer[i])
    {
      var count, dest := length / 4, k;
      while count > 0
        invariant count >= 0 && dest + count == k + length / 4
        invariant forall i :: 0 <= i < buffer.Length ==> buffer[i] == if k <= i < dest then fill else old(buffer[i])
      {
        buffer[dest] := fill;
        dest := dest + 1;
        count := count - 1;
      }
    }

    method RtlSetBits(startingIndex: nat, number: nat)
      requires Valid() && startingIndex + number <= sizeOfBitMap
      modifies buffer
      ensures forall i {:trigger Digit(i)} :: 0 <= i < 32 * buffer.Length ==>
        Digit(i) == if startingIndex <= i < startingIndex + number then true else old(Digit(i))
    {
      var k := startingIndex / 32;
      var bits := startingIndex % 32;
      var left := number;
      if bits != 0 {
        var mask := ShiftLeft(ONES, bits);
        bits := 32 - bits;
        if left < bits {
          bits := bits - left;
          mask := ShiftRight(ShiftLeft(mask, bits), bits);
          buffer[k] := Or(buffer[k], mask);
          return;
        }
        buffer[k] := Or(buffer[k], mask);
        k := k + 1;
        left := left - bits;
      }
      RtlFillMemoryUlong(k, left / 8, ONES);
      k := k + left / 32;
      left := left % 32;
      var mask := ShiftLeft(ONES, left);
      buffer[k] := Or(buffer[k], Not(mask));
    }

    method RtlClearBits(startingIndex: nat, number: nat)
      requires Valid() && startingIndex + number <= sizeOfBitMap
      modifies buffer
      ensures forall i {:trigger Digit(i)} :: 0 <= i < 32 * buffer.Length ==>
        Digit(i) == if startingIndex <= i < startingIndex + number then false else old(Digit(i))
    {
      var k := startingIndex / 32;
      var bits := startingIndex % 32;
      var left := number;
      if bits != 0 {
        var mask := ShiftLeft(ONES, bits);
        bits := 32 - bits;
        if left < bits {
          bits := bits - left;
          mask := ShiftRight(ShiftLeft(mask, bits), bits);
          buffer[k] := And(buffer[k], Not(mask));
          return;
        }
        buffer[k] := And(buffer[k], Not(mask));
        k := k + 1;
        left := left - bits;
      }
      RtlFillMemoryUlong(k, left / 8, ZERO);
      k := k + left / 32;
      left := left % 32;
      var mask := ShiftLeft(ONES, left);
      buffer[k] := And(buffer[k], mask);
    }

    // -------------------------------------------------------------- searching

    /** The sum of a place and a length: it wraps around only far behind the bitmap, where a scan is
        outside at once. */
    lemma SumIs(start: nat, n: nat, v: bool)
      requires Valid() && 0 < n <= sizeOfBitMap && start <= MAXULONG
      ensures start + n <= MAXULONG ==> Sum32(start, n) == start + n
      ensures start + n > MAXULONG ==> Sum32(start, n) < n && start > sizeOfBitMap && GoesOutside(start, MAXULONG, v)
    {
    }

    /** One pass of the search for clear bits: the windows that start before limit, and those that
        the last round runs into. */
    method SearchClear(numberToFind: nat, hintIndex: nat, margin: nat)
      returns (outside: bool, found: bool, position: nat)
      requires Valid() && 0 < numberToFind <= margin <= sizeOfBitMap && hintIndex <= MAXULONG
      requires hintIndex + numberToFind > MAXULONG ==> margin == sizeOfBitMap
      ensures outside <==> hintIndex + numberToFind > MAXULONG
      ensures !outside && found ==> hintIndex + numberToFind < margin
      ensures !outside && found ==> FirstWindow(Bits(), hintIndex, numberToFind, false, position)
      ensures !outside && !found ==> NoWindow(Bits(), hintIndex, margin - numberToFind, numberToFind, false)
      ensures !outside && !found && hintIndex + numberToFind < margin ==>
        NoWindow(Bits(), hintIndex, margin - numberToFind + 1, numberToFind, false)
    {
      hide GoesOutside, StrayRun, Sum32;
      var currentBit := hintIndex;
      SumIs(currentBit, numberToFind, true);
      while Sum32(currentBit, numberToFind) < margin
        invariant hintIndex <= currentBit && (currentBit == hintIndex || currentBit <= sizeOfBitMap)
        invariant hintIndex + numberToFind > MAXULONG ==> currentBit == hintIndex
        invariant currentBit + numberToFind <= MAXULONG ==>
          Sum32(currentBit, numberToFind) == currentBit + numberToFind
        invariant NoWindow(Bits(), hintIndex, currentBit, numberToFind, false)
        invariant currentBit > hintIndex ==> NoWindow(Bits(), hintIndex, currentBit + 1, numberToFind, false)
        decreases sizeOfBitMap - currentBit
      {
        var skipped, currentLength;
        outside, skipped := RtlpGetLengthOfRunSet(currentBit, MAXULONG);
        if outside {
          return true, false, 0;
        }
        SkipOther(Bits(), currentBit, numberToFind, false);
        currentBit := currentBit + skipped;
        WindowIffRun(Bits(), currentBit, numberToFind, false);
        outside, currentLength := RtlpGetLengthOfRunClear(currentBit, numberToFind);
        if currentLength >= numberToFind {
          return false, true, currentBit;
        }
        SkipShort(Bits(), currentBit, numberToFind, false);
        currentBit := currentBit + currentLength;
        SumIs(currentBit, numberToFind, true);
      }
      return false, false, 0;
    }

    /** Where the sum of hint and length wraps around, the search starts behind the bitmap, and reads
        there. */
    ghost predicate SumWraps(numberToFind: nat, hintIndex: nat) {
      0 < numberToFind <= sizeOfBitMap && hintIndex + numberToFind > MAXULONG
    }

    method RtlFindClearBits(numberToFind: nat, hintIndex: nat) returns (outside: bool, position: nat)
      requires Valid() && numberToFind <= MAXULONG && hintIndex <= MAXULONG
      ensures outside <==> SumWraps(numberToFind, hintIndex)
      ensures !outside ==> position == ClearBitsAnswer(Bits(), numberToFind, hintIndex)
    {
      if numberToFind > sizeOfBitMap {
        return false, MAXULONG;
      }
      if numberToFind == 0 {
        return false, hintIndex;
      }
      var margin, hint := sizeOfBitMap, hintIndex;
      while true
        invariant (hint == hintIndex && margin == sizeOfBitMap)
               || (hint == 0 && hintIndex != 0 && margin == (if hintIndex + numberToFind < sizeOfBitMap
                                                             then hintIndex + numberToFind else sizeOfBitMap))
        invariant hint != hintIndex ==> hintIndex + numberToFind <= MAXULONG
        invariant hint != hintIndex && hintIndex + numberToFind < sizeOfBitMap ==>
          NoWindow(Bits(), hintIndex, sizeOfBitMap, numberToFind, false)
        decreases hint
      {
        var found;
        outside, found, position := SearchClear(numberToFind, hint, margin);
        if outside {
          return;
        }
        SearchMeans(Bits(), numberToFind, hintIndex, hint, margin, found, position);
        if found {
          return;
        }
        if hint == 0 {
          break;
        }
        var retried := Sum32(hint, numberToFind);
        margin := if retried < sizeOfBitMap then retried else sizeOfBitMap;
        hint := 0;
      }
      return false, MAXULONG;
    }

    method RtlFindSetBits(numberToFind: nat, hintIndex: nat) returns (outside: bool, position: nat)
      requires Valid() && numberToFind <= MAXULONG && hintIndex <= MAXULONG
      ensures outside <==> SumWraps(numberToFind, hintIndex)
      ensures !outside ==> position == SetBitsAnswer(Bits(), numberToFind, hintIndex)
    {
      if numberToFind > sizeOfBitMap {
        return false, MAXULONG;
      }
      if numberToFind == 0 {
        return false, hintIndex;
      }
      hide GoesOutside, StrayRun, Sum32;
      ghost var b := Bits();
      var currentBit := hintIndex;
      SumIs(currentBit, numberToFind, false);
      while Sum32(currentBit, numberToFind) <= sizeOfBitMap
        invariant Valid() && b == Bits()
        invariant hintIndex <= currentBit && (currentBit == hintIndex || currentBit <= sizeOfBitMap)
        invariant SumWraps(numberToFind, hintIndex) ==> currentBit == hintIndex
        invariant currentBit + numberToFind <= MAXULONG ==>
          Sum32(currentBit, numberToFind) == currentBit + numberToFind
        invariant NoWindow(b, hintIndex, currentBit, numberToFind, true)
        decreases sizeOfBitMap - currentBit
      {
        var skipped, currentLength;
        outside, skipped := RtlpGetLengthOfRunClear(currentBit, MAXULONG);
        if outside {
          return true, 0;
        }
        SkipOther(b, currentBit, numberToFind, true);
        currentBit := currentBit + skipped;
        WindowIffRun(b, currentBit, numberToFind, true);
        outside, currentLength := RtlpGetLengthOfRunSet(currentBit, numberToFind);
        if currentLength >= numberToFind {
          LeastIsFirst(b, hintIndex, numberToFind, true, currentBit);
          return false, currentBit;
        }
        SkipShort(b, currentBit, numberToFind, true);
        currentBit := currentBit + currentLength;
        SumIs(currentBit, numberToFind, false);
      }
      if hintIndex <= sizeOfBitMap {
        LeastIsFirst(b, hintIndex, numberToFind, true, 0);
      }
      return false, MAXULONG;
    }

    /** What RtlSetBits and RtlClearBits do, seen as bits. */
    lemma RangeChanged(b: seq<bool>, p: nat, n: nat, v: bool)
      requires Valid() && |b| == sizeOfBitMap
      requires forall i :: 0 <= i < |b| ==> Digit(i) == if p <= i < p + n then v else b[i]
      ensures Bits() == WithRange(b, p, n, v)
    {
    }

    method RtlFindClearBitsAndSet(numberToFind: nat, hintIndex: nat) returns (outside: bool, position: nat)
      requires Valid() && (numberToFind == 0 ==> hintIndex <= sizeOfBitMap)
      requires numberToFind <= MAXULONG && hintIndex <= MAXULONG
      modifies buffer
      ensures outside <==> SumWraps(numberToFind, hintIndex)
      ensures outside ==> Bits() == old(Bits())
      ensures !outside ==>
        && position == ClearBitsAnswer(old(Bits()), numberToFind, hintIndex)
        && Bits() == if position == MAXULONG then old(Bits())
                     else WithRange(old(Bits()), position, numberToFind, true)
    {
      ghost var b := Bits();
      outside, position := RtlFindClearBits(numberToFind, hintIndex);
      if outside {
        return;
      }
      if position != MAXULONG {
        ClearBitsFit(b, numberToFind, hintIndex);
        RtlSetBits(position, numberToFind);
        RangeChanged(b, position, numberToFind, true);
      }
    }

    method RtlFindSetBitsAndClear(numberToFind: nat, hintIndex: nat) returns (outside: bool, position: nat)
      requires Valid() && (numberToFind == 0 ==> hintIndex <= sizeOfBitMap)
      requires numberToFind <= MAXULONG && hintIndex <= MAXULONG
      modifies buffer
      ensures outside <==> SumWraps(numberToFind, hintIndex)
      ensures outside ==> Bits() == old(Bits())
      ensures !outside ==>
        && position == SetBitsAnswer(old(Bits()), numberToFind, hintIndex)
        && Bits() == if position == MAXULONG then old(Bits())
                     else WithRange(old(Bits()), position, numberToFind, false)
    {
      ghost var b := Bits();
      outside, position := RtlFindSetBits(numberToFind, hintIndex);
      if outside {
        return;
      }
      if position != MAXULONG {
        RtlClearBits(position, numberToFind);
        RangeChanged(b, position, numberToFind, false);
      }
    }

    // -------------------------------------------------------------- runs

    /** For a start behind the size, in the bitmap's last word: what the test looks at. */
    ghost predicate StrayWindow(start: nat, length: nat, v: bool)
      requires Valid() && start / 32 <= sizeOfBitMap / 32
      reads buffer
    {
      if Same(start / 32 + 1, start, v) then length <= BitsLeft(start)
      else
        && start % 32 + length < 32
        && forall i {:trigger Digit(i)} :: start <= i < start + length ==> Digit(i) == v
    }

    /** Exactly when a test that starts behind the size reads words that are not the bitmap's: it
        starts in one, or it asks for more than the rest of the bitmap's last word, all of which has the
        value asked for, and the sums that bound the scan do not wrap around. Within that word, the
        test is right about the digits. */
    lemma BehindTheSize(start: nat, length: nat, v: bool)
      requires Valid() && sizeOfBitMap < start <= MAXULONG && length <= MAXULONG
      ensures var wrapped := 0x1_0000_0000 - (start - sizeOfBitMap);
        var n := if length < wrapped then length else wrapped;
        GoesOutside(start, length, v) <==>
          || start / 32 > sizeOfBitMap / 32
          || (32 < start % 32 + n < 0x1_0000_0000 - 31
              && forall i {:trigger Digit(i)} :: start <= i < start + 32 - start % 32 ==> Digit(i) == v)
      ensures start / 32 == sizeOfBitMap / 32 && length <= 32 - start % 32 ==>
        (StrayWindow(start, length, v)
         <==> forall i {:trigger Digit(i)} :: start <= i < start + length ==> Digit(i) == v)
    {
      assert BitsLeft(start) == 0x1_0000_0000 - (start - sizeOfBitMap);
      assert start + 32 - start % 32 == (start / 32 + 1) * 32;
    }

    method RtlAreBitsClear(startingIndex: nat, length: nat) returns (outside: bool, clear: bool)
      requires Valid() && startingIndex <= MAXULONG && length <= MAXULONG
      ensures startingIndex <= sizeOfBitMap ==> !outside && (clear <==> Window(Bits(), startingIndex, length, false))
      ensures startingIndex > sizeOfBitMap ==> (outside <==> GoesOutside(startingIndex, length, false))
      ensures startingIndex > sizeOfBitMap && !outside ==> (clear <==> StrayWindow(startingIndex, length, false))
    {
      if startingIndex <= sizeOfBitMap {
        WindowIffRun(Bits(), startingIndex, length, false);
      }
      var run;
      outside, run := RtlpGetLengthOfRunClear(startingIndex, length);
      clear := run >= length;
    }

    method RtlAreBitsSet(startingIndex: nat, length: nat) returns (outside: bool, allSet: bool)
      requires Valid() && startingIndex <= MAXULONG && length <= MAXULONG
      ensures startingIndex <= sizeOfBitMap ==> !outside && (allSet <==> Window(Bits(), startingIndex, length, true))
      ensures startingIndex > sizeOfBitMap ==> (outside <==> GoesOutside(startingIndex, length, true))
      ensures startingIndex > sizeOfBitMap && !outside ==> (allSet <==> StrayWindow(startingIndex, length, true))
    {
      if startingIndex <= sizeOfBitMap {
        WindowIffRun(Bits(), startingIndex, length, true);
      }
      var run;
      outside, run := RtlpGetLengthOfRunSet(startingIndex, length);
      allSet := run >= length;
    }

    method RtlFindNextForwardRunClear(fromIndex: nat) returns (length: nat, startingRunIndex: nat)
      requires Valid() && fromIndex <= sizeOfBitMap
      ensures startingRunIndex == fromIndex + Run(Bits(), fromIndex, true)
      ensures length == Run(Bits(), startingRunIndex, false)
      ensures length == 0 <==> startingRunIndex == sizeOfBitMap
    {
      var outside, skipped := RtlpGetLengthOfRunSet(fromIndex, MAXULONG);
      startingRunIndex := fromIndex + skipped;
      RunHolds(Bits(), fromIndex, true);
      outside, length := RtlpGetLengthOfRunClear(startingRunIndex, MAXULONG);
    }

    /** RtlFindLongestRunClear: the first of the longest runs. The search goes on by the length of
        the run found, so that it can come back to the end of that run. */
    method RtlFindLongestRunClear() returns (maxNumberOfBits: nat, startingIndex: nat)
      requires Valid()
      ensures maxNumberOfBits == 0 <==> forall i :: 0 <= i < sizeOfBitMap ==> Bits()[i]
      ensures maxNumberOfBits > 0 ==> MaximalRun(Bits(), startingIndex, maxNumberOfBits)
      ensures forall s: nat, n: nat :: MaximalRun(Bits(), s, n) ==>
        n <= maxNumberOfBits && (s < startingIndex ==> n < maxNumberOfBits)
    {
      var fromIndex := 0;
      maxNumberOfBits, startingIndex := 0, 0;
      while true
        invariant fromIndex <= sizeOfBitMap && (maxNumberOfBits == 0 ==> fromIndex == 0 && startingIndex == 0)
        invariant maxNumberOfBits > 0 ==> MaximalRun(Bits(), startingIndex, maxNumberOfBits)
        invariant forall s: nat, n: nat :: MaximalRun(Bits(), s, n) ==>
          && (s < fromIndex ==> n <= maxNumberOfBits)
          && (s < startingIndex ==> n < maxNumberOfBits)
        decreases sizeOfBitMap - fromIndex
      {
        var numberOfBits, index := RtlFindNextForwardRunClear(fromIndex);
        RunHolds(Bits(), fromIndex, true);
        NextRun(Bits(), fromIndex, index, numberOfBits, maxNumberOfBits);
        if numberOfBits == 0 {
          break;
        }
        if numberOfBits > maxNumberOfBits {
          maxNumberOfBits, startingIndex := numberOfBits, index;
        }
        fromIndex := fromIndex + numberOfBits;
      }
      assert maxNumberOfBits > 0 ==> !Bits()[startingIndex];
    }
  }
}
