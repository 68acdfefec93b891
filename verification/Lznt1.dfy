/** RtlDecompressBufferLZNT1: the decoder of the LZNT1 format, section 2.5 of MS-XCA. */
module Lznt1 {
  import opened Bytes
  import opened Powers

  /** Fault is a copy from before the start of the output buffer, which the source does not check. */
  datatype Outcome = Done(out: seq<Byte>) | BadBuffer | InvalidParameter | Fault

  // ---------------------------------------------------------------- how 16 bits are split

  /** How many of the 16 bits of a copy are for its length, when the last byte has index j. */
  function LengthBits(j: nat): int {
    if j < 16 then 12 else LengthBits(j / 2) - 1
  }

  lemma {:induction false} SplitBounds(j: nat)
    requires j < 0x1_0000
    ensures 0 <= LengthBits(j) <= 12
    ensures j < Pow2(16 - LengthBits(j))
    ensures LengthBits(j) < 12 ==> Pow2(15 - LengthBits(j)) <= j
  {
    Pow2Values();
    if j >= 16 {
      Halved(j);
    }
  }

  lemma {:induction false} Halved(j: nat)
    requires 16 <= j
    ensures LengthBits(j) < 12 && j < Pow2(16 - LengthBits(j)) && Pow2(15 - LengthBits(j)) <= j
    ensures forall k: nat :: j < 16 * Pow2(k) ==> LengthBits(j) >= 12 - k
  {
    if j / 2 >= 16 {
      Halved(j / 2);
      forall k: nat | j < 16 * Pow2(k) ensures LengthBits(j) >= 12 - k {
        if k > 0 {
          assert j / 2 < 16 * Pow2(k - 1);
        }
      }
    } else {
      assert LengthBits(j) == 11 && Pow2(5) == 32 && Pow2(4) == 16;
      assert forall k: nat :: j < 16 * Pow2(k) ==> k > 0;
    }
  }

  lemma {:induction false} Pow2Grows(j: nat, k: nat)
    requires j <= k
    ensures Pow2(j) <= Pow2(k)
    decreases k
  {
    if j < k {
      Pow2Grows(j, k - 1);
    }
  }

  /** Of the widths that a copy's distance can have, the decoder takes the least that reaches every
      earlier byte of the chunk. */
  lemma FewestOffsetBits(blockPos: UShort, width: nat)
    requires 0 < blockPos && 4 <= width <= 16
    ensures width >= 16 - LengthBits(blockPos - 1) <==> blockPos <= Pow2(width)
  {
    var w := 16 - LengthBits(blockPos - 1);
    SplitBounds(blockPos - 1);
    if w <= width {
      Pow2Grows(w, width);
    } else {
      Pow2Grows(width, w - 1);
    }
  }

  // ---------------------------------------------------------------- copies

  /** len bytes, each copied from back bytes before the end. */
  function CopyBack(out: seq<Byte>, back: nat, len: nat): (r: seq<Byte>)
    requires 1 <= back <= |out|
    ensures |r| == |out| + len && r[..|out|] == out
    decreases len
  {
    if len == 0 then out
    else
      var next := out + [out[|out| - back]];
      assert next[..|out|] == out;
      CopyBack(next, back, len - 1)
  }

  /** A copy that overlaps itself repeats the last back bytes. */
  lemma {:induction false} CopyIsPeriodic(out: seq<Byte>, back: nat, len: nat, i: nat)
    requires 1 <= back <= |out| && i < len
    ensures CopyBack(out, back, len)[|out| + i] == out[|out| - back + i % back]
    decreases len
  {
    var b := out[|out| - back];
    var next := out + [b];
    var r := CopyBack(next, back, len - 1);
    if i == 0 {
      assert r[|out|] == r[..|next|][|out|] == b;
    } else {
      CopyIsPeriodic(next, back, len - 1, i - 1);
      var m := (i - 1) % back;
      assert i % back == if m + 1 == back then 0 else m + 1 by {
        NextRemainder(i, back);
      }
      assert next[|next| - back + m] == if m + 1 == back then b else out[|out| - back + m + 1];
    }
  }

  lemma NextRemainder(i: nat, n: nat)
    requires i > 0 && n > 0
    ensures i % n == if (i - 1) % n + 1 == n then 0 else (i - 1) % n + 1
  {
    var q, m := (i - 1) / n, (i - 1) % n;
    assert i - 1 == q * n + m;
    if m + 1 == n {
      Unique(i, n, q + 1, 0);
    } else {
      Unique(i, n, q, m + 1);
    }
  }

  // ---------------------------------------------------------------- the decoder

  /** A uint16_t. */
  type UShort = x: nat | x < 0x1_0000

  /** Where the decoder stands: the rest of the chunk has blockSize bytes, blockPos bytes of it have
      been put out, counted in 16 bits, and mask tells the kinds of the next left tokens. */
  datatype Position = Position(blockSize: nat, blockPos: UShort, mask: nat, left: nat)

  /** A block position n bytes on, which wraps around. */
  function Advance(pos: UShort, n: nat): (r: UShort)
    ensures r <= pos + n && (n == 0 ==> r == pos)
  {
    (pos + n) % 0x1_0000
  }

  lemma AdvanceTwice(pos: UShort, m: nat, n: nat)
    ensures Advance(Advance(pos, m), n) == Advance(pos, m + n)
  {
  }

  const NEXT_CHUNK := Position(0, 0, 0, 0)

  /** What is decoded from position p on, with c still to be read and out already put out. */
  ghost function Decode(c: seq<Byte>, out: seq<Byte>, size: nat, p: Position): (o: Outcome)
    requires |out| <= size
    ensures o.Done? ==> |o.out| <= size
    decreases |c|
  {
    if p.blockSize == 0 then
      if c == [] then Done(out) else ReadHeader(c, out, size)
    else if p.left == 0 then
      if c == [] then BadBuffer
      else Decode(c[1..], out, size, Position(p.blockSize - 1, p.blockPos, c[0], 8))
    else if p.mask % 2 == 1 then
      if |c| < 2 || p.blockSize < 2 || p.blockPos == 0 then BadBuffer
      else
        var (back, len) := CopyOf(Word(c, 0), p.blockPos);
        if size - |out| < len then BadBuffer
        else if back > |out| then Fault
        else Decode(c[2..], CopyBack(out, back, len), size,
          Position(p.blockSize - 2, Advance(p.blockPos, len), p.mask / 2, p.left - 1))
    else
      if c == [] || |out| == size then BadBuffer
      else Decode(c[1..], out + [c[0]], size,
        Position(p.blockSize - 1, Advance(p.blockPos, 1), p.mask / 2, p.left - 1))
  }

  ghost function ReadHeader(c: seq<Byte>, out: seq<Byte>, size: nat): (o: Outcome)
    requires c != [] && |out| <= size
    ensures o.Done? ==> |o.out| <= size
    decreases |c|, 0
  {
    if |c| < 2 then InvalidParameter
    else
      var header := Word(c, 0);
      if header < 0x8000 then
        if size - |out| < 4096 || |c| - 2 < 4096 then BadBuffer
        else Decode(c[4098..], out + c[2..4098], size, NEXT_CHUNK)
      else Decode(c[2..], out, size, Position(header % 4096 + 1, 0, 0, 0))
  }

  /** How far back and how long the copy run is. */
  ghost function CopyOf(run: nat, blockPos: UShort): (r: (nat, nat))
    requires 0 < blockPos
    ensures r.0 >= 1 && r.1 >= 3
  {
    SplitBounds(blockPos - 1);
    SplitRun(run, Pow2(LengthBits(blockPos - 1)))
  }

  /** run taken apart at the power of two p. */
  ghost function SplitRun(run: nat, p: nat): (r: (nat, nat))
    requires p > 0
    ensures r.0 >= 1 && r.1 >= 3
  {
    var q: nat, m: nat := run / p, run % p;
    (q + 1, m + 3)
  }

  // ---------------------------------------------------------------- the format

  datatype Token = Literal(byte: Byte) | Copy(back: nat, len: nat)

  /** A chunk with its header's free bits: those that the decoder does not look at. */
  datatype Chunk = Raw(data: seq<Byte>, free: nat) | Packed(tokens: seq<Token>, free: nat)

  ghost function Span(t: Token): nat {
    if t.Literal? then 1 else t.len
  }

  /** A token that can stand where the block position is pos. */
  ghost predicate Fits(t: Token, pos: UShort) {
    t.Literal? || (0 < pos && 1 <= t.back <= pos
                   && LengthBits(pos - 1) >= 0 && 3 <= t.len < Pow2(LengthBits(pos - 1)) + 3)
  }

  ghost predicate AllFit(ts: seq<Token>, pos: UShort)
    decreases |ts|
  {
    ts == [] || (Fits(ts[0], pos) && AllFit(ts[1..], Advance(pos, Span(ts[0]))))
  }

  ghost function SpanAll(ts: seq<Token>): nat
    decreases |ts|
  {
    if ts == [] then 0 else Span(ts[0]) + SpanAll(ts[1..])
  }

  /** What the tokens stand for, one after the other. */
  ghost function Expand(out: seq<Byte>, ts: seq<Token>, pos: UShort): (r: seq<Byte>)
    requires AllFit(ts, pos) && pos <= |out|
    ensures |r| == |out| + SpanAll(ts)
    decreases |ts|
  {
    if ts == [] then out else Expand(ExpandOne(out, ts[0]), ts[1..], Advance(pos, Span(ts[0])))
  }

  ghost function TokenBytes(t: Token, pos: UShort): (b: seq<Byte>)
    requires Fits(t, pos)
    ensures |b| == if t.Literal? then 1 else 2
  {
    if t.Literal? then [t.byte]
    else
      var run := (t.back - 1) * Pow2(LengthBits(pos - 1)) + (t.len - 3);
      RunFits(t, pos);
      [run % 256, run / 256]
  }

  lemma RunFits(t: Token, pos: UShort)
    requires Fits(t, pos) && t.Copy?
    ensures 0 <= (t.back - 1) * Pow2(LengthBits(pos - 1)) + (t.len - 3) < 0x1_0000
  {
    var k := LengthBits(pos - 1);
    SplitBounds(pos - 1);
    assert Pow2(16 - k) * Pow2(k) == 0x1_0000 by {
      Pow2Values();
      Pow2Sum(16 - k, k);
    }
    RunBound(t.back, t.len - 3, Pow2(k), Pow2(16 - k));
  }

  lemma RunBound(back: nat, len: nat, p: nat, q: nat)
    requires 1 <= back <= q && len < p
    ensures 0 <= (back - 1) * p + len < q * p
  {
    Larger(back, q, p);
  }

  ghost function AllTokenBytes(ts: seq<Token>, pos: UShort): seq<Byte>
    requires AllFit(ts, pos)
    decreases |ts|
  {
    if ts == [] then [] else TokenBytes(ts[0], pos) + AllTokenBytes(ts[1..], Advance(pos, Span(ts[0])))
  }

  /** One bit for each token, the first in the least significant place. */
  ghost function Mask(ts: seq<Token>): (m: nat)
    ensures |ts| <= 8 ==> m < Pow2(|ts|)
    decreases |ts|
  {
    if ts == [] then 0 else (if ts[0].Copy? then 1 else 0) + 2 * Mask(ts[1..])
  }

  lemma {:induction false} FitSplit(ts: seq<Token>, n: nat, pos: UShort)
    requires AllFit(ts, pos) && n <= |ts|
    ensures AllFit(ts[..n], pos) && AllFit(ts[n..], Advance(pos, SpanAll(ts[..n])))
    ensures SpanAll(ts) == SpanAll(ts[..n]) + SpanAll(ts[n..])
    decreases n
  {
    if n > 0 {
      FitSplit(ts[1..], n - 1, Advance(pos, Span(ts[0])));
      AdvanceTwice(pos, Span(ts[0]), SpanAll(ts[1..][..n - 1]));
      assert ts[..n][1..] == ts[1..][..n - 1] && ts[n..] == ts[1..][n - 1..];
    } else {
      assert ts[n..] == ts;
    }
  }

  /** What one token puts out. */
  ghost function ExpandOne(out: seq<Byte>, t: Token): (r: seq<Byte>)
    requires t.Copy? ==> 1 <= t.back <= |out|
    ensures |r| == |out| + Span(t)
  {
    if t.Literal? then out + [t.byte] else CopyBack(out, t.back, t.len)
  }

  lemma {:induction false} ExpandSplit(out: seq<Byte>, ts: seq<Token>, n: nat, pos: UShort)
    requires AllFit(ts, pos) && n <= |ts| && pos <= |out|
    requires AllFit(ts[..n], pos) && AllFit(ts[n..], Advance(pos, SpanAll(ts[..n])))
    ensures Expand(out, ts, pos) == Expand(Expand(out, ts[..n], pos), ts[n..], Advance(pos, SpanAll(ts[..n])))
    decreases n
  {
    hide Advance, CopyBack, LengthBits, Pow2;
    if n == 0 {
      assert ts[n..] == ts;
    } else {
      var next, pos' := ExpandOne(out, ts[0]), Advance(pos, Span(ts[0]));
      var g, rest := ts[..n], ts[n..];
      var more := g[1..];
      assert more == ts[1..][..n - 1] && rest == ts[1..][n - 1..] && g[0] == ts[0];
      assert Expand(out, g, pos) == Expand(next, more, pos');
      AdvanceTwice(pos, Span(ts[0]), SpanAll(more));
      assert SpanAll(g) == Span(ts[0]) + SpanAll(more);
      ExpandSplit(next, ts[1..], n - 1, pos');
      assert Expand(out, ts, pos) == Expand(next, ts[1..], pos');
    }
  }

  ghost function GroupSize(ts: seq<Token>): nat {
    if |ts| < 8 then |ts| else 8
  }

  /** The tokens of a chunk, eight to a mask. */
  ghost function PackedBytes(ts: seq<Token>, pos: UShort): seq<Byte>
    requires AllFit(ts, pos)
    decreases |ts|
  {
    if ts == [] then []
    else
      var n := GroupSize(ts);
      FitSplit(ts, n, pos);
      MaskIsByte(ts[..n]);
      [Mask(ts[..n])] + AllTokenBytes(ts[..n], pos) + PackedBytes(ts[n..], Advance(pos, SpanAll(ts[..n])))
  }

  lemma MaskIsByte(ts: seq<Token>)
    requires |ts| <= 8
    ensures Mask(ts) < 256
  {
    Pow2Sum(|ts|, 8 - |ts|);
    assert Pow2(8) == 256;
    Larger(1, Pow2(8 - |ts|), Pow2(|ts|));
  }

  ghost predicate WellFormed(chunk: Chunk) {
    match chunk
    case Raw(data, free) => |data| == 4096 && free < 0x8000
    case Packed(ts, free) => ts != [] && AllFit(ts, 0) && free < 8 && |PackedBytes(ts, 0)| <= 4096
  }

  ghost function ChunkBytes(chunk: Chunk): (b: seq<Byte>)
    requires WellFormed(chunk)
    ensures |b| >= 2
  {
    match chunk
    case Raw(data, free) => [free % 256, free / 256] + data
    case Packed(ts, free) =>
      var header := 0x8000 + 4096 * free + |PackedBytes(ts, 0)| - 1;
      [header % 256, header / 256] + PackedBytes(ts, 0)
  }

  ghost predicate AllWellFormed(chunks: seq<Chunk>) {
    forall i :: 0 <= i < |chunks| ==> WellFormed(chunks[i])
  }

  ghost function Encode(chunks: seq<Chunk>): seq<Byte>
    requires AllWellFormed(chunks)
    decreases |chunks|
  {
    if chunks == [] then [] else ChunkBytes(chunks[0]) + Encode(chunks[1..])
  }

  ghost function ExpandChunk(out: seq<Byte>, chunk: Chunk): (r: seq<Byte>)
    requires WellFormed(chunk)
    ensures |r| >= |out|
  {
    match chunk
    case Raw(data, free) => out + data
    case Packed(ts, free) => Expand(out, ts, 0)
  }

  ghost function ExpandAll(out: seq<Byte>, chunks: seq<Chunk>): (r: seq<Byte>)
    requires AllWellFormed(chunks)
    ensures |r| >= |out|
    decreases |chunks|
  {
    if chunks == [] then out else ExpandAll(ExpandChunk(out, chunks[0]), chunks[1..])
  }

  // ---------------------------------------------------------------- decoding what is well formed

  lemma SplitJoined(back: nat, len: nat, p: nat)
    requires back >= 1 && 3 <= len < p + 3 && p > 0 && (back - 1) * p + (len - 3) >= 0
    ensures SplitRun((back - 1) * p + (len - 3), p) == (back, len)
  {
    Unique((back - 1) * p + (len - 3), p, back - 1, len - 3);
  }

  lemma TwoJoined(run: nat, c: seq<Byte>)
    requires run < 0x1_0000
    ensures var d: seq<Byte> := [run % 256, run / 256] + c; Word(d, 0) == run && d[2..] == c
  {
  }

  lemma TokenRead(t: Token, pos: UShort, c: seq<Byte>)
    requires t.Copy? && Fits(t, pos)
    ensures var b := TokenBytes(t, pos) + c;
      |b| >= 2 && b[2..] == c && CopyOf(Word(b, 0), pos) == (t.back, t.len)
  {
    var k := Pow2(LengthBits(pos - 1));
    RunFits(t, pos);
    TwoJoined((t.back - 1) * k + (t.len - 3), c);
    SplitJoined(t.back, t.len, k);
  }

  lemma DecodeCopy(t: Token, c: seq<Byte>, out: seq<Byte>, size: nat, p: Position)
    requires t.Copy? && Fits(t, p.blockPos) && p.blockPos <= |out| <= size
    requires p.left > 0 && p.mask % 2 == 1 && p.blockSize >= 2
    ensures Decode(TokenBytes(t, p.blockPos) + c, out, size, p)
         == if |out| + t.len > size then BadBuffer
            else Decode(c, CopyBack(out, t.back, t.len), size,
              Position(p.blockSize - 2, Advance(p.blockPos, t.len), p.mask / 2, p.left - 1))
  {
    TokenRead(t, p.blockPos, c);
  }

  lemma DecodeLiteral(t: Token, c: seq<Byte>, out: seq<Byte>, size: nat, p: Position)
    requires t.Literal? && |out| <= size
    requires p.left > 0 && p.mask % 2 == 0 && p.blockSize >= 1
    ensures Decode([t.byte] + c, out, size, p)
         == if |out| + 1 > size then BadBuffer
            else Decode(c, out + [t.byte], size,
              Position(p.blockSize - 1, Advance(p.blockPos, 1), p.mask / 2, p.left - 1))
  {
    assert ([t.byte] + c)[1..] == c;
  }

  /** The position after one token. */
  ghost function Moved(p: Position, t: Token): Position
    requires p.left > 0 && p.blockSize >= (if t.Literal? then 1 else 2)
  {
    Position(p.blockSize - (if t.Literal? then 1 else 2), Advance(p.blockPos, Span(t)), p.mask / 2, p.left - 1)
  }

  ghost function MovedAll(p: Position, ts: seq<Token>): (q: Position)
    requires AllFit(ts, p.blockPos) && |ts| <= p.left && p.blockSize >= |AllTokenBytes(ts, p.blockPos)|
    ensures q.blockPos == (p.blockPos + SpanAll(ts)) % 0x1_0000
    decreases |ts|
  {
    if ts == [] then p
    else
      AdvanceTwice(p.blockPos, Span(ts[0]), SpanAll(ts[1..]));
      MovedAll(Moved(p, ts[0]), ts[1..])
  }

  lemma {:induction false} MovedAllIs(p: Position, ts: seq<Token>)
    requires AllFit(ts, p.blockPos) && |ts| <= p.left && p.blockSize >= |AllTokenBytes(ts, p.blockPos)|
    requires p.mask == Mask(ts)
    ensures MovedAll(p, ts)
         == Position(p.blockSize - |AllTokenBytes(ts, p.blockPos)|, Advance(p.blockPos, SpanAll(ts)), 0, p.left - |ts|)
    decreases |ts|
  {
    if ts != [] {
      AdvanceTwice(p.blockPos, Span(ts[0]), SpanAll(ts[1..]));
      MovedAllIs(Moved(p, ts[0]), ts[1..]);
    }
  }

  /** What the decoder makes of c after the tokens ts. */
  ghost function Continued(ts: seq<Token>, c: seq<Byte>, out: seq<Byte>, size: nat, p: Position): Outcome
    requires AllFit(ts, p.blockPos) && p.blockPos <= |out| <= size
    requires |ts| <= p.left && p.blockSize >= |AllTokenBytes(ts, p.blockPos)|
  {
    if |out| + SpanAll(ts) > size then BadBuffer
    else Decode(c, Expand(out, ts, p.blockPos), size, MovedAll(p, ts))
  }

  lemma DecodeToken(t: Token, c: seq<Byte>, out: seq<Byte>, size: nat, p: Position)
    requires Fits(t, p.blockPos) && p.blockPos <= |out| <= size
    requires p.left > 0 && (p.mask % 2 == 1 <==> t.Copy?) && p.blockSize >= if t.Literal? then 1 else 2
    ensures Decode(TokenBytes(t, p.blockPos) + c, out, size, p)
         == if |out| + Span(t) > size then BadBuffer else Decode(c, ExpandOne(out, t), size, Moved(p, t))
  {
    if t.Literal? {
      DecodeLiteral(t, c, out, size, p);
    } else {
      DecodeCopy(t, c, out, size, p);
    }
  }

  lemma ContinuedOn(ts: seq<Token>, c: seq<Byte>, out: seq<Byte>, size: nat, p: Position)
    requires ts != []
    requires AllFit(ts, p.blockPos) && p.blockPos <= |out| <= size
    requires |ts| <= p.left && p.blockSize >= |AllTokenBytes(ts, p.blockPos)|
    ensures |out| + Span(ts[0]) > size ==> Continued(ts, c, out, size, p) == BadBuffer
    ensures |out| + Span(ts[0]) <= size ==>
      Continued(ts, c, out, size, p) == Continued(ts[1..], c, ExpandOne(out, ts[0]), size, Moved(p, ts[0]))
  {
    hide Advance, LengthBits, Pow2, CopyBack, Decode;
    assert SpanAll(ts) == Span(ts[0]) + SpanAll(ts[1..]);
    assert MovedAll(p, ts) == MovedAll(Moved(p, ts[0]), ts[1..]);
    assert Expand(out, ts, p.blockPos) == Expand(ExpandOne(out, ts[0]), ts[1..], Moved(p, ts[0]).blockPos);
  }

  lemma NextFits(t: Token, p: Position, out: seq<Byte>)
    requires Fits(t, p.blockPos) && p.blockPos <= |out|
    ensures t.Copy? ==> 1 <= t.back <= |out|
    ensures Advance(p.blockPos, Span(t)) <= |ExpandOne(out, t)|
  {
  }

  lemma {:induction false} DecodeGroup(ts: seq<Token>, c: seq<Byte>, out: seq<Byte>, size: nat, p: Position)
    requires AllFit(ts, p.blockPos) && p.blockPos <= |out| <= size
    requires |ts| <= p.left && p.mask == Mask(ts) && p.blockSize >= |AllTokenBytes(ts, p.blockPos)|
    ensures Decode(AllTokenBytes(ts, p.blockPos) + c, out, size, p) == Continued(ts, c, out, size, p)
    decreases |ts|
  {
    hide Decode, Advance, LengthBits, Pow2, CopyBack, ExpandOne, Fits;
    if ts == [] {
      assert AllTokenBytes(ts, p.blockPos) + c == c;
    } else {
      var t, q := ts[0], Moved(p, ts[0]);
      var b, d := TokenBytes(t, p.blockPos), AllTokenBytes(ts[1..], q.blockPos) + c;
      assert AllTokenBytes(ts, p.blockPos) + c == b + d;
      assert q.mask == Mask(ts[1..]) && q.blockSize >= |AllTokenBytes(ts[1..], q.blockPos)|;
      DecodeToken(t, d, out, size, p);
      ContinuedOn(ts, c, out, size, p);
      if |out| + Span(t) <= size {
        NextFits(t, p, out);
        DecodeGroup(ts[1..], c, ExpandOne(out, t), size, q);
      }
    }
  }

  lemma DecodeMask(m: Byte, c: seq<Byte>, out: seq<Byte>, size: nat, p: Position)
    requires |out| <= size && p.blockSize > 0 && p.left == 0
    ensures Decode([m] + c, out, size, p) == Decode(c, out, size, Position(p.blockSize - 1, p.blockPos, m, 8))
  {
    assert ([m] + c)[1..] == c;
  }

  lemma PackedUnfolded(ts: seq<Token>, pos: UShort, c: seq<Byte>)
    returns (g: seq<Token>, rest: seq<Token>, pos': UShort)
    requires AllFit(ts, pos) && ts != []
    ensures 1 <= |g| <= 8 && |rest| < |ts| && (rest == [] || |g| == 8) && pos' == Advance(pos, SpanAll(g))
    ensures ts == g + rest && g == ts[..|g|] && rest == ts[|g|..]
    ensures AllFit(g, pos) && AllFit(rest, pos') && SpanAll(ts) == SpanAll(g) + SpanAll(rest)
    ensures Mask(g) < 256
    ensures PackedBytes(ts, pos) + c == [Mask(g)] + (AllTokenBytes(g, pos) + (PackedBytes(rest, pos') + c))
    ensures |PackedBytes(ts, pos)| == 1 + |AllTokenBytes(g, pos)| + |PackedBytes(rest, pos')|
  {
    var n := GroupSize(ts);
    g, rest := ts[..n], ts[n..];
    pos' := Advance(pos, SpanAll(g));
    FitSplit(ts, n, pos);
    MaskIsByte(g);
    Regrouped([Mask(g)], AllTokenBytes(g, pos), PackedBytes(rest, pos'), c);
  }

  lemma Regrouped(m: seq<Byte>, b: seq<Byte>, r: seq<Byte>, c: seq<Byte>)
    ensures m + b + r + c == m + (b + (r + c))
  {
  }

  /** What is decoded from the bytes of ts on, when they are followed by c. */
  ghost function PackedOutcome(ts: seq<Token>, c: seq<Byte>, out: seq<Byte>, size: nat, pos: UShort): Outcome
    requires AllFit(ts, pos) && pos <= |out| <= size
  {
    if |out| + SpanAll(ts) > size then BadBuffer else Decode(c, Expand(out, ts, pos), size, NEXT_CHUNK)
  }

  lemma PackedOutcomeSplit(ts: seq<Token>, n: nat, c: seq<Byte>, out: seq<Byte>, size: nat, pos: UShort)
    requires AllFit(ts, pos) && pos <= |out| <= size && n <= |ts|
    requires AllFit(ts[..n], pos) && AllFit(ts[n..], Advance(pos, SpanAll(ts[..n])))
    ensures |out| + SpanAll(ts[..n]) > size ==> PackedOutcome(ts, c, out, size, pos) == BadBuffer
    ensures |out| + SpanAll(ts[..n]) <= size ==>
      PackedOutcome(ts, c, out, size, pos)
      == PackedOutcome(ts[n..], c, Expand(out, ts[..n], pos), size, Advance(pos, SpanAll(ts[..n])))
  {
    FitSplit(ts, n, pos);
    ExpandSplit(out, ts, n, pos);
  }

  /** A mask and its group of tokens. */
  lemma DecodeMaskedGroup(g: seq<Token>, d: seq<Byte>, out: seq<Byte>, size: nat, p: Position)
    requires AllFit(g, p.blockPos) && p.blockPos <= |out| <= size
    requires |g| <= 8 && Mask(g) < 256 && p.left == 0 && p.blockSize >= 1 + |AllTokenBytes(g, p.blockPos)|
    ensures Decode([Mask(g)] + (AllTokenBytes(g, p.blockPos) + d), out, size, p)
         == if |out| + SpanAll(g) > size then BadBuffer
            else Decode(d, Expand(out, g, p.blockPos), size,
              Position(p.blockSize - 1 - |AllTokenBytes(g, p.blockPos)|, Advance(p.blockPos, SpanAll(g)), 0, 8 - |g|))
  {
    var p1 := Position(p.blockSize - 1, p.blockPos, Mask(g), 8);
    DecodeMask(Mask(g), AllTokenBytes(g, p.blockPos) + d, out, size, p);
    MovedAllIs(p1, g);
    DecodeGroup(g, d, out, size, p1);
    assert Continued(g, d, out, size, p1)
        == if |out| + SpanAll(g) > size then BadBuffer
          else Decode(d, Expand(out, g, p.blockPos), size, MovedAll(p1, g));
  }

  lemma {:induction false} DecodePacked(ts: seq<Token>, c: seq<Byte>, out: seq<Byte>, size: nat, p: Position)
    requires AllFit(ts, p.blockPos) && p.blockPos <= |out| <= size
    requires p.blockSize == |PackedBytes(ts, p.blockPos)| && (p.left == 0 || ts == [])
    ensures Decode(PackedBytes(ts, p.blockPos) + c, out, size, p) == PackedOutcome(ts, c, out, size, p.blockPos)
    decreases |ts|
  {
    if ts == [] {
      assert PackedBytes(ts, p.blockPos) + c == c;
    } else {
      var g, rest, pos' := PackedUnfolded(ts, p.blockPos, c);
      DecodeMaskedGroup(g, PackedBytes(rest, pos') + c, out, size, p);
      PackedOutcomeSplit(ts, |g|, c, out, size, p.blockPos);
      if |out| + SpanAll(g) <= size {
        var q := Position(|PackedBytes(rest, pos')|, pos', 0, 8 - |g|);
        DecodePacked(rest, c, Expand(out, g, p.blockPos), size, q);
      }
    }
  }

  lemma DecodeRaw(data: seq<Byte>, free: nat, c: seq<Byte>, out: seq<Byte>, size: nat)
    requires |data| == 4096 && free < 0x8000 && |out| <= size
    ensures Decode([free % 256, free / 256] + (data + c), out, size, NEXT_CHUNK)
         == if |out| + 4096 > size then BadBuffer else Decode(c, out + data, size, NEXT_CHUNK)
  {
    var b: seq<Byte> := [free % 256, free / 256] + (data + c);
    TwoJoined(free, data + c);
    assert b[2..4098] == data && b[4098..] == c;
  }

  lemma DecodeHeader(header: nat, c: seq<Byte>, out: seq<Byte>, size: nat)
    requires 0x8000 <= header < 0x1_0000 && |out| <= size
    ensures Decode([header % 256, header / 256] + c, out, size, NEXT_CHUNK)
         == Decode(c, out, size, Position(header % 4096 + 1, 0, 0, 0))
  {
    TwoJoined(header, c);
  }

  lemma HeaderSize(free: nat, n: nat)
    requires free < 8 && 1 <= n <= 4096
    ensures var header := 0x8000 + 4096 * free + n - 1;
      0x8000 <= header < 0x1_0000 && header % 4096 + 1 == n
  {
  }

  lemma DecodePackedChunk(ts: seq<Token>, free: nat, c: seq<Byte>, out: seq<Byte>, size: nat)
    requires WellFormed(Packed(ts, free)) && |out| <= size
    ensures Decode(ChunkBytes(Packed(ts, free)) + c, out, size, NEXT_CHUNK) == PackedOutcome(ts, c, out, size, 0)
  {
    var b := PackedBytes(ts, 0);
    var header := 0x8000 + 4096 * free + |b| - 1;
    assert [header % 256, header / 256] + b + c == [header % 256, header / 256] + (b + c);
    HeaderSize(free, |b|);
    DecodeHeader(header, b + c, out, size);
    DecodePacked(ts, c, out, size, Position(|b|, 0, 0, 0));
  }

  lemma DecodeChunk(chunk: Chunk, c: seq<Byte>, out: seq<Byte>, size: nat)
    requires WellFormed(chunk) && |out| <= size
    ensures Decode(ChunkBytes(chunk) + c, out, size, NEXT_CHUNK)
         == if |ExpandChunk(out, chunk)| > size then BadBuffer
            else Decode(c, ExpandChunk(out, chunk), size, NEXT_CHUNK)
  {
    if chunk.Raw? {
      DecodeRaw(chunk.data, chunk.free, c, out, size);
      assert ChunkBytes(chunk) + c == [chunk.free % 256, chunk.free / 256] + (chunk.data + c);
    } else {
      DecodePackedChunk(chunk.tokens, chunk.free, c, out, size);
    }
  }

  /** Decoding what a sequence of well-formed chunks is encoded as gives what its tokens stand for,
      or says that the output buffer is too small for it. */
  lemma {:induction false} DecodeAll(chunks: seq<Chunk>, out: seq<Byte>, size: nat)
    requires AllWellFormed(chunks) && |out| <= size
    ensures Decode(Encode(chunks), out, size, NEXT_CHUNK)
         == if |ExpandAll(out, chunks)| > size then BadBuffer else Done(ExpandAll(out, chunks))
    decreases |chunks|
  {
    if chunks != [] {
      var next := ExpandChunk(out, chunks[0]);
      DecodeChunk(chunks[0], Encode(chunks[1..]), out, size);
      if |next| <= size {
        DecodeAll(chunks[1..], next, size);
      }
    }
  }

  // ---------------------------------------------------------------- decoding what is cut off

  /** Within a group of tokens. */
  lemma {:induction false} CutGroup(ts: seq<Token>, n: nat, out: seq<Byte>, size: nat, p: Position)
    requires AllFit(ts, p.blockPos) && p.blockPos <= |out| <= size && n < |AllTokenBytes(ts, p.blockPos)|
    requires |ts| <= p.left && p.mask == Mask(ts) && p.blockSize >= |AllTokenBytes(ts, p.blockPos)|
    ensures Decode(AllTokenBytes(ts, p.blockPos)[..n], out, size, p) == BadBuffer
    decreases |ts|
  {
    hide Advance, LengthBits, Pow2, CopyBack, ExpandOne, Fits;
    var t, q := ts[0], Moved(p, ts[0]);
    var b, rest := TokenBytes(t, p.blockPos), AllTokenBytes(ts[1..], q.blockPos);
    if n >= |b| {
      hide Decode;
      assert (b + rest)[..n] == b + rest[..n - |b|];
      DecodeToken(t, rest[..n - |b|], out, size, p);
      if |out| + Span(t) <= size {
        NextFits(t, p, out);
        CutGroup(ts[1..], n - |b|, ExpandOne(out, t), size, q);
      }
    }
  }

  lemma CutConcat(m: seq<Byte>, b: seq<Byte>, r: seq<Byte>, n: nat)
    requires n <= |m + b + r|
    ensures n > |m| + |b| ==> (m + (b + r))[..n] == m + (b + r[..n - |m| - |b|])
    ensures |m| <= n <= |m| + |b| ==> (m + (b + r))[..n] == m + b[..n - |m|]
  {
  }

  /** Within the masks and tokens of a chunk. */
  lemma {:induction false} CutPacked(ts: seq<Token>, n: nat, out: seq<Byte>, size: nat, p: Position)
    requires AllFit(ts, p.blockPos) && p.blockPos <= |out| <= size && n < |PackedBytes(ts, p.blockPos)|
    requires p.blockSize == |PackedBytes(ts, p.blockPos)| && p.left == 0
    ensures Decode(PackedBytes(ts, p.blockPos)[..n], out, size, p) == BadBuffer
    decreases |ts|
  {
    hide Advance, LengthBits, Pow2, CopyBack, AllTokenBytes, Mask, SpanAll;
    var g, rest, pos' := PackedUnfolded(ts, p.blockPos, []);
    var b, r := AllTokenBytes(g, p.blockPos), PackedBytes(rest, pos');
    assert PackedBytes(ts, p.blockPos) == [Mask(g)] + (b + r) by {
      assert PackedBytes(ts, p.blockPos) + [] == PackedBytes(ts, p.blockPos) && r + [] == r;
    }
    CutConcat([Mask(g)], b, r, n);
    if n == 0 {
      assert PackedBytes(ts, p.blockPos)[..n] == [];
    } else if n - 1 < |b| {
      DecodeMask(Mask(g), b[..n - 1], out, size, p);
      CutGroup(g, n - 1, out, size, Position(p.blockSize - 1, p.blockPos, Mask(g), 8));
    } else {
      var n' := n - 1 - |b|;
      DecodeMaskedGroup(g, r[..n'], out, size, p);
      assert n' == 0 ==> r[..n'] == [] && b[..n - 1] == b && b + [] == b;
      if |out| + SpanAll(g) <= size {
        CutPacked(rest, n', Expand(out, g, p.blockPos), size, Position(|r|, pos', 0, 8 - |g|));
      }
    }
  }

  lemma CutPackedChunk(ts: seq<Token>, free: nat, m: nat, out: seq<Byte>, size: nat)
    requires WellFormed(Packed(ts, free)) && 2 <= m < |ChunkBytes(Packed(ts, free))| && |out| <= size
    ensures Decode(ChunkBytes(Packed(ts, free))[..m], out, size, NEXT_CHUNK) == BadBuffer
  {
    hide Decode, PackedBytes, Word;
    var b := PackedBytes(ts, 0);
    var header := 0x8000 + 4096 * free + |b| - 1;
    assert ChunkBytes(Packed(ts, free))[..m] == [header % 256, header / 256] + b[..m - 2];
    HeaderSize(free, |b|);
    DecodeHeader(header, b[..m - 2], out, size);
    CutPacked(ts, m - 2, out, size, Position(|b|, 0, 0, 0));
  }

  /** Within a chunk, behind its header. */
  lemma CutChunk(chunk: Chunk, m: nat, out: seq<Byte>, size: nat)
    requires WellFormed(chunk) && 2 <= m < |ChunkBytes(chunk)| && |out| <= size
    ensures Decode(ChunkBytes(chunk)[..m], out, size, NEXT_CHUNK) == BadBuffer
  {
    match chunk
    case Raw(data, free) =>
      assert ChunkBytes(chunk)[..m] == [free % 256, free / 256] + data[..m - 2];
      TwoJoined(free, data[..m - 2]);
    case Packed(ts, free) => CutPackedChunk(ts, free, m, out, size);
  }

  /** A place in an encoded stream: m bytes into chunk k. */
  ghost predicate IsPlace(chunks: seq<Chunk>, k: nat, m: nat) {
    AllWellFormed(chunks) && k <= |chunks| && if k < |chunks| then m < |ChunkBytes(chunks[k])| else m == 0
  }

  ghost function PlaceOf(chunks: seq<Chunk>, k: nat, m: nat): (n: nat)
    requires IsPlace(chunks, k, m)
  {
    |Encode(chunks[..k])| + m
  }

  lemma NextPlace(chunks: seq<Chunk>, k: nat, m: nat)
    requires IsPlace(chunks, k, m) && k > 0
    ensures IsPlace(chunks[1..], k - 1, m)
    ensures PlaceOf(chunks, k, m) == |ChunkBytes(chunks[0])| + PlaceOf(chunks[1..], k - 1, m)
    ensures forall out :: ExpandAll(out, chunks[..k]) == ExpandAll(ExpandChunk(out, chunks[0]), chunks[1..][..k - 1])
  {
    assert chunks[..k][0] == chunks[0] && chunks[..k][1..] == chunks[1..][..k - 1];
  }

  lemma CutBehind(b: seq<Byte>, c: seq<Byte>, n: nat)
    requires |b| <= n <= |b + c|
    ensures (b + c)[..n] == b + c[..n - |b|]
  {
  }

  lemma {:induction false} PlaceInside(chunks: seq<Chunk>, k: nat, m: nat)
    requires IsPlace(chunks, k, m)
    ensures PlaceOf(chunks, k, m) <= |Encode(chunks)|
    decreases k
  {
    if k > 0 {
      NextPlace(chunks, k, m);
      PlaceInside(chunks[1..], k - 1, m);
    } else {
      assert chunks[..k] == [];
    }
  }

  /** Within the first chunk. */
  lemma CutFirst(chunks: seq<Chunk>, m: nat, out: seq<Byte>, size: nat)
    requires IsPlace(chunks, 0, m) && |out| <= size
    ensures PlaceOf(chunks, 0, m) == m <= |Encode(chunks)|
    ensures Decode(Encode(chunks)[..m], out, size, NEXT_CHUNK)
         == if m == 0 then Done(out) else if m == 1 then InvalidParameter else BadBuffer
  {
    assert chunks[..0] == [];
    if m > 0 {
      assert Encode(chunks)[..m] == ChunkBytes(chunks[0])[..m];
      if m > 1 {
        CutChunk(chunks[0], m, out, size);
      }
    }
  }

  /** Any encoded stream, cut off anywhere. */
  lemma {:induction false} DecodeCut(chunks: seq<Chunk>, k: nat, m: nat, out: seq<Byte>, size: nat)
    requires IsPlace(chunks, k, m) && |out| <= size
    ensures PlaceOf(chunks, k, m) <= |Encode(chunks)|
    ensures Decode(Encode(chunks)[..PlaceOf(chunks, k, m)], out, size, NEXT_CHUNK)
         == if |ExpandAll(out, chunks[..k])| > size then BadBuffer
            else if m == 0 then Done(ExpandAll(out, chunks[..k]))
            else if m == 1 then InvalidParameter
            else BadBuffer
    decreases k
  {
    hide Decode, ChunkBytes, ExpandChunk, WellFormed;
    PlaceInside(chunks, k, m);
    if k == 0 {
      CutFirst(chunks, m, out, size);
      assert chunks[..k] == [];
    } else {
      NextPlace(chunks, k, m);
      var next, n := ExpandChunk(out, chunks[0]), PlaceOf(chunks[1..], k - 1, m);
      PlaceInside(chunks[1..], k - 1, m);
      CutBehind(ChunkBytes(chunks[0]), Encode(chunks[1..]), |ChunkBytes(chunks[0])| + n);
      DecodeChunk(chunks[0], Encode(chunks[1..])[..n], out, size);
      if |next| <= size {
        DecodeCut(chunks[1..], k - 1, m, next, size);
      }
    }
  }

  /** Every place is in a chunk, or at the end. */
  lemma {:induction false} FindPlace(chunks: seq<Chunk>, n: nat) returns (k: nat, m: nat)
    requires AllWellFormed(chunks) && n <= |Encode(chunks)|
    ensures IsPlace(chunks, k, m) && n == PlaceOf(chunks, k, m)
    decreases |chunks|
  {
    if chunks == [] || n < |ChunkBytes(chunks[0])| {
      k, m := 0, n;
      assert chunks[..0] == [];
    } else {
      k, m := FindPlace(chunks[1..], n - |ChunkBytes(chunks[0])|);
      k := k + 1;
      NextPlace(chunks, k, m);
    }
  }

  /** What is decoded from an encoded stream that ends too early: it is decoded exactly where it ends
      with a chunk, to what the chunks before expand to. One byte on is an invalid parameter, and
      everywhere else the buffer is bad. */
  lemma Truncated(chunks: seq<Chunk>, n: nat, size: nat)
    requires AllWellFormed(chunks) && n <= |Encode(chunks)| && |ExpandAll([], chunks)| <= size
    ensures var o := Decode(Encode(chunks)[..n], [], size, NEXT_CHUNK);
      && (o.Done? <==> exists k: nat :: IsPlace(chunks, k, 0) && n == PlaceOf(chunks, k, 0))
      && (forall k: nat :: IsPlace(chunks, k, 0) && n == PlaceOf(chunks, k, 0) ==>
            o == Done(ExpandAll([], chunks[..k])))
      && (o.InvalidParameter? <==> exists k: nat :: IsPlace(chunks, k, 1) && n == PlaceOf(chunks, k, 1))
      && (o.Done? || o.InvalidParameter? || o.BadBuffer?)
  {
    forall k: nat ensures IsPlace(chunks, k, 0) ==> |ExpandAll([], chunks[..k])| <= size {
      if IsPlace(chunks, k, 0) {
        ExpandMore(chunks, k, []);
      }
    }
    var k, m := FindPlace(chunks, n);
    assert IsPlace(chunks, k, 0);
    DecodeCut(chunks, k, m, [], size);
    forall j: nat | IsPlace(chunks, j, 0) && n == PlaceOf(chunks, j, 0)
      ensures Decode(Encode(chunks)[..n], [], size, NEXT_CHUNK) == Done(ExpandAll([], chunks[..j]))
    {
      DecodeCut(chunks, j, 0, [], size);
    }
    forall j: nat | IsPlace(chunks, j, 1) && n == PlaceOf(chunks, j, 1)
      ensures Decode(Encode(chunks)[..n], [], size, NEXT_CHUNK) == InvalidParameter
    {
      assert IsPlace(chunks, j, 0);
      DecodeCut(chunks, j, 1, [], size);
    }
  }

  lemma {:induction false} ExpandMore(chunks: seq<Chunk>, k: nat, out: seq<Byte>)
    requires AllWellFormed(chunks) && k <= |chunks|
    ensures |ExpandAll(out, chunks[..k])| <= |ExpandAll(out, chunks)|
    decreases k
  {
    if k == 0 {
      assert chunks[..0] == [];
    } else {
      assert chunks[..k][0] == chunks[0] && chunks[..k][1..] == chunks[1..][..k - 1];
      ExpandMore(chunks[1..], k - 1, ExpandChunk(out, chunks[0]));
    }
  }

  /** A chunk may not begin with a copy. */
  lemma CopyFirst(header: nat, mask: Byte, c: seq<Byte>, out: seq<Byte>, size: nat)
    requires 0x8000 <= header < 0x1_0000 && header % 4096 > 0 && mask % 2 == 1 && |out| <= size
    ensures Decode([header % 256, header / 256] + ([mask] + c), out, size, NEXT_CHUNK) == BadBuffer
  {
    DecodeHeader(header, [mask] + c, out, size);
    DecodeMask(mask, c, out, size, Position(header % 4096 + 1, 0, 0, 0));
  }

  /** A chunk of a mask alone puts nothing out, whatever the mask says. */
  lemma MaskAlone(header: nat, mask: Byte, c: seq<Byte>, out: seq<Byte>, size: nat)
    requires 0x8000 <= header < 0x1_0000 && header % 4096 == 0 && |out| <= size
    ensures Decode([header % 256, header / 256] + ([mask] + c), out, size, NEXT_CHUNK)
         == Decode(c, out, size, NEXT_CHUNK)
  {
    DecodeHeader(header, [mask] + c, out, size);
    DecodeMask(mask, c, out, size, Position(1, 0, 0, 0));
  }

  /** A chunk may not end within a copy, even where the input goes on. */
  lemma {:induction false} CopyCutShort(ts: seq<Token>, t: Token, c: seq<Byte>, out: seq<Byte>, size: nat, p: Position)
    requires AllFit(ts, p.blockPos) && p.blockPos <= |out| <= size && t.Copy? && |ts| < p.left
    requires p.mask == Mask(ts + [t]) && p.blockSize == |AllTokenBytes(ts, p.blockPos)| + 1
    ensures Decode(AllTokenBytes(ts, p.blockPos) + c, out, size, p) == BadBuffer
    decreases |ts|
  {
    hide Advance, LengthBits, Pow2, CopyBack, ExpandOne, Fits;
    assert (ts + [t])[0] == if ts == [] then t else ts[0];
    if ts != [] {
      hide Decode;
      var q, b := Moved(p, ts[0]), TokenBytes(ts[0], p.blockPos);
      var d := AllTokenBytes(ts[1..], q.blockPos) + c;
      assert AllTokenBytes(ts, p.blockPos) + c == b + d && (ts + [t])[1..] == ts[1..] + [t];
      DecodeToken(ts[0], d, out, size, p);
      if |out| + Span(ts[0]) <= size {
        NextFits(ts[0], p, out);
        CopyCutShort(ts[1..], t, c, ExpandOne(out, ts[0]), size, q);
      }
    }
  }

  /** A copy from before the start of the output, of a length there is room for, is a fault. */
  lemma CopyTooFar(back: nat, len: nat, c: seq<Byte>, out: seq<Byte>, size: nat, p: Position)
    requires p.left > 0 && p.mask % 2 == 1 && p.blockSize >= 2 && p.blockPos > 0 && |out| < back
    requires |out| <= size && LengthBits(p.blockPos - 1) >= 0 && 3 <= len < Pow2(LengthBits(p.blockPos - 1)) + 3
    requires (back - 1) * Pow2(LengthBits(p.blockPos - 1)) + (len - 3) < 0x1_0000
    ensures var run := (back - 1) * Pow2(LengthBits(p.blockPos - 1)) + (len - 3);
      run >= 0 && Decode([run % 256, run / 256] + c, out, size, p)
               == if |out| + len > size then BadBuffer else Fault
  {
    hide Pow2, LengthBits, SplitRun;
    var k := Pow2(LengthBits(p.blockPos - 1));
    Larger(1, back, k);
    var run := (back - 1) * k + (len - 3);
    TwoJoined(run, c);
    SplitJoined(back, len, k);
  }

  // ---------------------------------------------------------------- the routine

  /** NTSTATUS; Going where there is none yet, and ReadBeforeBuffer for the unchecked copy. */
  datatype Status = Going | Success | StatusAccessViolation | StatusInvalidParameter | StatusBadCompressionBuffer
                  | ReadBeforeBuffer

  ghost function StatusOf(o: Outcome): Status {
    match o
    case Done(_) => Success
    case BadBuffer => StatusBadCompressionBuffer
    case InvalidParameter => StatusInvalidParameter
    case Fault => ReadBeforeBuffer
  }

  lemma CopyOneMore(out: seq<Byte>, back: nat, len: nat)
    requires 1 <= back <= |out| && len > 0
    ensures CopyBack(out, back, len) == CopyBack(out + [out[|out| - back]], back, len - 1)
  {
  }

  /** Byte by byte, so that the copy can run into what it has itself written. */
  method CopyRun(a: array<Byte>, d0: nat, back: nat, len0: nat) returns (d: nat)
    requires 1 <= back <= d0 && d0 + len0 <= a.Length
    modifies a
    ensures d == d0 + len0 && a[..d] == CopyBack(old(a[..d0]), back, len0)
  {
    d := d0;
    var len := len0;
    ghost var goal, out := CopyBack(a[..d0], back, len0), a[..d0];
    while len > 0
      invariant d + len == d0 + len0 && out == a[..d] && |out| == d
      invariant CopyBack(out, back, len) == goal
    {
      CopyOneMore(out, back, len);
      out := out + [out[d - back]];
      a[d] := a[d - back];
      d := d + 1;
      len := len - 1;
    }
  }

  /** One bit less for the length each time the position doubles. */
  method SplitWidth(blockPos: UShort) returns (len: nat, back: nat)
    requires 0 < blockPos
    ensures back == LengthBits(blockPos - 1) && len + 1 == Pow2(back)
  {
    SplitBounds(blockPos - 1);
    assert Pow2(12) == 0x1000;
    var j := blockPos - 1;
    len, back := 0xfff, 12;
    while j >= 0x10
      invariant j >= 0 && LengthBits(j) - 12 == LengthBits(blockPos - 1) - back
      invariant len + 1 == Pow2(back)
    {
      SplitStep(j, blockPos - 1, back);
      j := j / 2;
      len := len / 2;
      back := back - 1;
    }
  }

  /** The run taken apart, by the mask len and the shift by back bits. */
  method SplitCopy(run: nat, blockPos: UShort) returns (back: nat, len: nat)
    requires 0 < blockPos
    ensures (back, len) == CopyOf(run, blockPos)
  {
    len, back := SplitWidth(blockPos);
    MaskIsRemainder(run, back);
    ShiftIsQuotient(run, back);
    len := BitAnd(run, len) + 3;
    back := ShiftDown(run, back) + 1;
  }

  lemma SplitStep(j: nat, last: nat, back: nat)
    requires j >= 16 && LengthBits(j) - 12 == LengthBits(last) - back && LengthBits(last) >= 0
    ensures back > 0 && Pow2(back) == 2 * Pow2(back - 1)
  {
    Halved(j);
  }

  /** One token, which the lowest bit of mask says the kind of. */
  method OneToken(input: seq<Byte>, a: array<Byte>, size: nat, c0: nat, d0: nat, blockSize0: nat, blockPos0: UShort,
                  mask: nat, ghost left: nat)
    returns (status: Status, c: nat, d: nat, blockSize: nat, blockPos: UShort)
    requires c0 <= |input| && d0 <= size <= a.Length && 0 < blockSize0 && 0 < left
    modifies a
    ensures c0 <= c <= |input| && d <= size && blockSize < blockSize0
    ensures var o := Decode(input[c0..], old(a[..d0]), size, Position(blockSize0, blockPos0, mask, left));
      if status == Going then
        o == Decode(input[c..], a[..d], size, Position(blockSize, blockPos, mask / 2, left - 1))
      else status == StatusOf(o) != Success
  {
    c, d, blockSize, blockPos := c0, d0, blockSize0 - 1, blockPos0;
    ghost var out := a[..d0];
    if mask % 2 == 1 {
      if |input| - c < 2 || blockSize0 < 2 {
        return StatusBadCompressionBuffer, c, d, blockSize, blockPos;
      }
      var run := Word(input[c..], 0);
      assert input[c + 2..] == input[c..][2..];
      c := c + 2;
      blockSize := blockSize0 - 2;
      if blockPos == 0 {
        return StatusBadCompressionBuffer, c, d, blockSize, blockPos;
      }
      var back, len := SplitCopy(run, blockPos);
      if size - d < len {
        return StatusBadCompressionBuffer, c, d, blockSize, blockPos;
      }
      if back > d {
        return ReadBeforeBuffer, c, d, blockSize, blockPos;
      }
      blockPos := Advance(blockPos, len);
      d := CopyRun(a, d, back, len);
    } else {
      if c == |input| || d == size {
        return StatusBadCompressionBuffer, c, d, blockSize, blockPos;
      }
      a[d] := input[c];
      assert a[..d + 1] == out + [input[c..][0]] && input[c + 1..] == input[c..][1..];
      d, c := d + 1, c + 1;
      blockPos := Advance(blockPos, 1);
    }
    return Going, c, d, blockSize, blockPos;
  }

  /** Up to eight tokens. */
  method OneGroup(input: seq<Byte>, a: array<Byte>, size: nat, c0: nat, d0: nat, blockSize0: nat, blockPos0: UShort,
                  mask0: nat)
    returns (status: Status, c: nat, d: nat, blockSize: nat, blockPos: UShort)
    requires c0 <= |input| && d0 <= size <= a.Length
    modifies a
    ensures c0 <= c <= |input| && d <= size && blockSize <= blockSize0
    ensures var o := Decode(input[c0..], old(a[..d0]), size, Position(blockSize0, blockPos0, mask0, 8));
      if status == Going then
        o == Decode(input[c..], a[..d], size, Position(blockSize, blockPos, 0, 0))
      else status == StatusOf(o) != Success
  {
    c, d, blockSize, blockPos := c0, d0, blockSize0, blockPos0;
    var mask, i := mask0, 0;
    ghost var o := Decode(input[c0..], a[..d0], size, Position(blockSize0, blockPos0, mask0, 8));
    while i < 8 && blockSize > 0
      invariant i <= 8 && c0 <= c <= |input| && d <= size && blockSize <= blockSize0
      invariant o == Decode(input[c..], a[..d], size, Position(blockSize, blockPos, mask, 8 - i))
    {
      status, c, d, blockSize, blockPos := OneToken(input, a, size, c, d, blockSize, blockPos, mask, 8 - i);
      if status != Going {
        return;
      }
      mask := mask / 2;
      i := i + 1;
    }
    return Going, c, d, blockSize, blockPos;
  }

  /** A packed chunk: masks, each with its group. */
  method OneChunk(input: seq<Byte>, a: array<Byte>, size: nat, c0: nat, d0: nat, blockSize0: nat)
    returns (status: Status, c: nat, d: nat)
    requires c0 <= |input| && d0 <= size <= a.Length
    modifies a
    ensures c0 <= c <= |input| && d <= size
    ensures var o := Decode(input[c0..], old(a[..d0]), size, Position(blockSize0, 0, 0, 0));
      if status == Going then o == Decode(input[c..], a[..d], size, NEXT_CHUNK) else status == StatusOf(o) != Success
  {
    c, d := c0, d0;
    var blockSize, blockPos := blockSize0, 0;
    ghost var o := Decode(input[c0..], a[..d0], size, Position(blockSize0, 0, 0, 0));
    while blockSize > 0
      invariant c0 <= c <= |input| && d <= size
      invariant o == Decode(input[c..], a[..d], size, Position(blockSize, blockPos, 0, 0))
    {
      if c == |input| {
        return StatusBadCompressionBuffer, c, d;
      }
      var mask := input[c];
      assert input[c + 1..] == input[c..][1..];
      c := c + 1;
      status, c, d, blockSize, blockPos := OneGroup(input, a, size, c, d, blockSize - 1, blockPos, mask);
      if status != Going {
        return;
      }
    }
    return Going, c, d;
  }

  method RawChunk(input: seq<Byte>, a: array<Byte>, size: nat, c0: nat, d0: nat)
    returns (status: Status, c: nat, d: nat)
    requires c0 + 2 <= |input| && d0 <= size <= a.Length && Word(input[c0..], 0) < 0x8000
    modifies a
    ensures c0 < c <= |input| && d <= size
    ensures var o := Decode(input[c0..], old(a[..d0]), size, NEXT_CHUNK);
      if status == Going then o == Decode(input[c..], a[..d], size, NEXT_CHUNK) else status == StatusOf(o) != Success
  {
    c, d := c0 + 2, d0;
    ghost var out := a[..d];
    if size - d < 4096 || |input| - c < 4096 {
      return StatusBadCompressionBuffer, c, d;
    }
    forall i | 0 <= i < 4096 {
      a[d + i] := input[c + i];
    }
    assert a[..d + 4096] == out + input[c0..][2..4098];
    assert input[c + 4096..] == input[c0..][4098..];
    c, d := c + 4096, d + 4096;
    return Going, c, d;
  }

  /** The whole buffer, chunk by chunk. */
  method AllChunks(input: seq<Byte>, a: array<Byte>, size: nat) returns (status: Status, d: nat)
    requires size <= a.Length
    modifies a
    ensures d <= size
    ensures var o := Decode(input, [], size, NEXT_CHUNK); status == StatusOf(o) && (o.Done? ==> o.out == a[..d])
  {
    var c := 0;
    d := 0;
    ghost var o := Decode(input, [], size, NEXT_CHUNK);
    assert input[0..] == input && a[..0] == [];
    while c < |input|
      invariant c <= |input| && d <= size
      invariant o == Decode(input[c..], a[..d], size, NEXT_CHUNK)
    {
      if |input| - c < 2 {
        return StatusInvalidParameter, d;
      }
      var header := Word(input[c..], 0);
      if header < 0x8000 {
        status, c, d := RawChunk(input, a, size, c, d);
      } else {
        assert input[c + 2..] == input[c..][2..];
        status, c, d := OneChunk(input, a, size, c + 2, d, header % 4096 + 1);
      }
      if status != Going {
        return;
      }
    }
    return Success, d;
  }

  /** RtlDecompressBufferLZNT1. The sizes are those of the parts of the arrays in use. The arrays are
      not the same, so that no byte is overwritten before it is read, and the input can be taken as a
      sequence. */
  method RtlDecompressBufferLZNT1(uncompressed: array?<Byte>, uncompressedSize: nat,
                                  compressed: array?<Byte>, compressedSize: nat, finalSize0: nat)
    returns (status: Status, finalSize: nat)
    requires uncompressed != null ==> uncompressedSize <= uncompressed.Length
    requires compressed != null ==> compressedSize <= compressed.Length && compressed != uncompressed
    modifies if uncompressed == null then {} else {uncompressed}
    ensures (compressed == null || uncompressed == null || compressedSize == 0) ==>
      status == StatusAccessViolation && finalSize == finalSize0
    ensures compressed != null && uncompressed != null && compressedSize > 0 ==>
      var o := Decode(old(compressed[..compressedSize]), [], uncompressedSize, NEXT_CHUNK);
      match o
      case Done(out) => status == Success && finalSize == |out| && uncompressed[..finalSize] == out
      case BadBuffer => status == StatusBadCompressionBuffer && finalSize == uncompressedSize
      case InvalidParameter => status == StatusInvalidParameter && finalSize == uncompressedSize
      case Fault => status == ReadBeforeBuffer && finalSize == uncompressedSize
  {
    if compressed == null || uncompressed == null || compressedSize == 0 {
      return StatusAccessViolation, finalSize0;
    }
    finalSize := uncompressedSize;
    var d;
    status, d := AllChunks(compressed[..compressedSize], uncompressed, uncompressedSize);
    if status == Success {
      finalSize := d;
    }
  }

  /** Decompression inverts the encoding of every well-formed sequence of chunks. */
  lemma RoundTrip(chunks: seq<Chunk>, size: nat)
    requires AllWellFormed(chunks)
    ensures Decode(Encode(chunks), [], size, NEXT_CHUNK)
         == if |ExpandAll([], chunks)| > size then BadBuffer else Done(ExpandAll([], chunks))
  {
    DecodeAll(chunks, [], size);
  }
}
