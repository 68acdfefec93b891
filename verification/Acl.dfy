/** Access control lists as bytes: a header of eight bytes, and behind it the entries, one after the
    other, each with its own size. */
module Acl {
  import opened Bytes

  datatype Option<T> = None | Some(value: T)

  /** Four bytes, the least significant first. */
  function Long(b: seq<Byte>, i: nat): (n: nat)
    requires i + 4 <= |b|
    ensures n < 0x1_0000_0000
  {
    Word(b, i) + 0x1_0000 * Word(b, i + 2)
  }

  function LongBytes(n: nat): (b: seq<Byte>)
    requires n < 0x1_0000_0000
    ensures |b| == 4
  {
    WordBytes(n % 0x1_0000) + WordBytes(n / 0x1_0000)
  }

  // ---------------------------------------------------------------- SIDs

  ghost predicate SidBytes(sid: seq<Byte>) {
    |sid| >= 8 && |sid| == LengthSid(sid)
  }

  function LengthSid(sid: seq<Byte>): (n: nat)
    requires |sid| >= 2
    ensures n >= 8
  {
    var count: int := sid[1];
    8 + 4 * count
  }

  predicate ValidSid(sid: seq<Byte>)
    requires |sid| >= 2
  {
    sid[0] % 16 == 1 && sid[1] <= 15
  }

  ghost function SubBytes(subs: seq<nat>): (b: seq<Byte>)
    requires forall i :: 0 <= i < |subs| ==> subs[i] < 0x1_0000_0000
    ensures |b| == 4 * |subs|
  {
    if subs == [] then [] else LongBytes(subs[0]) + SubBytes(subs[1..])
  }

  /** A SID put together from its parts: it is valid exactly with revision 1, in the lower four bits,
      and at most 15 sub-authorities, and its length is that of all its bytes. */
  lemma SidParts(revision: Byte, authority: seq<Byte>, subs: seq<nat>)
    requires |authority| == 6 && |subs| < 256 && forall i :: 0 <= i < |subs| ==> subs[i] < 0x1_0000_0000
    ensures var sid: seq<Byte> := [revision, |subs|] + authority + SubBytes(subs);
      && LengthSid(sid) == |sid| && SidBytes(sid)
      && (ValidSid(sid) <==> revision % 16 == 1 && |subs| <= 15)
  {
    var sid: seq<Byte> := [revision, |subs|] + authority + SubBytes(subs);
    assert sid[0] == revision && sid[1] == |subs|;
  }

  // ---------------------------------------------------------------- the walk

  /** The walk over left entries from at on reads inside the buffer. */
  ghost predicate Readable(b: seq<Byte>, at: nat, left: nat)
    requires |b| >= 8
    decreases left
  {
    left == 0 || at >= Word(b, 2) || (at + 4 <= |b| && Readable(b, at + Word(b, at + 2), left - 1))
  }

  /** Where the walk over left entries ends; None where it runs into the end of the list or into a
      compound entry that is too new for the list's revision. */
  ghost function Walk(b: seq<Byte>, at: nat, left: nat): Option<nat>
    requires |b| >= 8 && Readable(b, at, left)
    decreases left
  {
    if left == 0 then Some(at)
    else if at >= Word(b, 2) then None
    else if b[at] == 4 && b[0] < 3 then None
    else Walk(b, at + Word(b, at + 2), left - 1)
  }

  /** The places of left entries, each behind the one before it, and of what follows the last. All
      entries begin inside the list, and none is a compound entry too new for the list's revision. */
  ghost predicate IsPath(b: seq<Byte>, path: seq<nat>, at: nat, left: nat)
    requires |b| >= 8
  {
    && |path| == left + 1 && path[0] == at
    && forall i :: 0 <= i < left ==>
      && path[i] < Word(b, 2) && path[i] + 4 <= |b| && path[i + 1] == path[i] + Word(b, path[i] + 2)
      && (b[path[i]] == 4 ==> b[0] >= 3)
  }

  /** The walk comes to an end exactly where there are as many such places, and ends at the last. */
  lemma {:induction false} WalkIsPath(b: seq<Byte>, at: nat, left: nat, end: nat)
    requires |b| >= 8 && Readable(b, at, left)
    ensures Walk(b, at, left) == Some(end) <==> exists path :: IsPath(b, path, at, left) && path[left] == end
    decreases left
  {
    if left == 0 {
      assert IsPath(b, [at], at, 0);
    } else if at < Word(b, 2) && (b[at] == 4 ==> b[0] >= 3) {
      var next := at + Word(b, at + 2);
      WalkIsPath(b, next, left - 1, end);
      if Walk(b, next, left - 1) == Some(end) {
        var path :| IsPath(b, path, next, left - 1) && path[left - 1] == end;
        assert IsPath(b, [at] + path, at, left);
      }
      forall path | IsPath(b, path, at, left) && path[left] == end ensures Walk(b, next, left - 1) == Some(end) {
        assert path[1] == next;
        assert IsPath(b, path[1..], next, left - 1);
      }
    } else {
      assert forall path :: !IsPath(b, path, at, left) || path[0] == at;
    }
  }

  /** RtlFirstFreeAce: whether the list is well formed, and the first free place, if there is one. */
  method RtlFirstFreeAce(acl: array<Byte>) returns (ok: bool, ace: Option<nat>)
    requires acl.Length >= 8 && Readable(acl[..], 8, Word(acl[..], 4))
    ensures var end := Walk(acl[..], 8, Word(acl[..], 4));
      && (ok <==> end.Some?)
      && (ok ==> ace == if Word(acl[..], 4) == 0 || end.value < Word(acl[..], 2) then Some(end.value) else None)
  {
    var b := acl[..];
    var current: nat := 8;
    ace := None;
    var count := Word(b, 4);
    if count == 0 {
      return true, Some(current);
    }
    var i := 0;
    var aclEnd := Word(b, 2);
    while i < count
      invariant 0 <= i <= count && Readable(b, current, count - i)
      invariant Walk(b, current, count - i) == Walk(b, 8, count)
    {
      if current >= aclEnd {
        return false, None;
      }
      if b[current] == 4 && b[0] < 3 {
        return false, None;
      }
      current := current + Word(b, current + 2);
      i := i + 1;
    }
    if current < aclEnd {
      ace := Some(current);
    }
    return true, ace;
  }

  // ---------------------------------------------------------------- lists of entries

  /** An access-allowed entry. */
  datatype Ace = Ace(mask: nat, sid: seq<Byte>)

  ghost predicate ValidAce(a: Ace) {
    a.mask < 0x1_0000_0000 && SidBytes(a.sid) && ValidSid(a.sid)
  }

  ghost function AceBytes(a: Ace): (b: seq<Byte>)
    requires ValidAce(a)
    ensures |b| == 8 + |a.sid|
  {
    [0, 0] + WordBytes(8 + |a.sid|) + LongBytes(a.mask) + a.sid
  }

  ghost predicate AllValid(aces: seq<Ace>) {
    forall i :: 0 <= i < |aces| ==> ValidAce(aces[i])
  }

  ghost function Flat(aces: seq<Ace>): seq<Byte>
    requires AllValid(aces)
    decreases |aces|
  {
    if aces == [] then [] else AceBytes(aces[0]) + Flat(aces[1..])
  }

  /** The bytes b hold the list aces: what every routine below keeps. */
  ghost predicate Holds(b: seq<Byte>, aces: seq<Ace>) {
    && AllValid(aces) && |b| >= 8 && 2 <= b[0] <= 4
    && Word(b, 2) % 4 == 0 && Word(b, 4) == |aces|
    && 8 + |Flat(aces)| <= Word(b, 2) <= |b| && b[8..8 + |Flat(aces)|] == Flat(aces)
  }

  /** The entries read back from the bytes. */
  ghost function Parse(b: seq<Byte>, at: nat, left: nat): (r: Option<seq<Ace>>)
    decreases left
  {
    if left == 0 then Some([])
    else if at + 8 > |b| || Word(b, at + 2) < 8 || at + Word(b, at + 2) > |b| then None
    else
      var size := Word(b, at + 2);
      var rest := Parse(b, at + size, left - 1);
      if rest.None? then None else Some([Ace(Long(b, at + 4), b[at + 8..at + size])] + rest.value)
  }

  lemma LongIs(b: seq<Byte>, i: nat, n: nat)
    requires n < 0x1_0000_0000 && i + 4 <= |b| && b[i..i + 4] == LongBytes(n)
    ensures Long(b, i) == n && FourBytes(b, i, n)
  {
    var c := b[i..i + 4];
    assert c[0] == b[i] && c[1] == b[i + 1] && c[2] == b[i + 2] && c[3] == b[i + 3];
    WordIs(b, i, n % 0x1_0000);
    WordIs(b, i + 2, n / 0x1_0000);
  }

  /** The four bytes at i make n, the least significant first. */
  ghost predicate FourBytes(b: seq<Byte>, i: nat, n: nat) {
    && i + 4 <= |b|
    && var b0: int, b1: int, b2: int, b3: int := b[i], b[i + 1], b[i + 2], b[i + 3];
       b0 + 0x100 * b1 + 0x1_0000 * b2 + 0x100_0000 * b3 == n
  }

  lemma AceParts(a: Ace)
    requires ValidAce(a)
    ensures AceBytes(a)[4..8] == LongBytes(a.mask) && AceBytes(a)[8..8 + |a.sid|] == a.sid
  {
  }

  lemma Slices(b: seq<Byte>, i: nat, j: nat, k: nat, l: nat)
    requires i <= j <= |b| && k <= l <= j - i
    ensures b[i..j][k..l] == b[i + k..i + l]
  {
    var s, t := b[i..j][k..l], b[i + k..i + l];
    assert |s| == |t|;
    forall m | 0 <= m < |s| ensures s[m] == t[m] {
      assert s[m] == b[i..j][k + m];
    }
  }

  /** An entry read back. */
  lemma AceRead(b: seq<Byte>, at: nat, a: Ace)
    requires ValidAce(a) && at + 8 + |a.sid| <= |b| && b[at..at + 8 + |a.sid|] == AceBytes(a)
    ensures b[at] == b[at + 1] == 0 && Word(b, at + 2) == 8 + |a.sid|
    ensures Long(b, at + 4) == a.mask && FourBytes(b, at + 4, a.mask)
    ensures b[at + 8..at + 8 + |a.sid|] == a.sid
  {
    var c := b[at..at + 8 + |a.sid|];
    assert c[0] == b[at] && c[1] == b[at + 1] && c[2] == b[at + 2] && c[3] == b[at + 3];
    WordIs(b, at + 2, 8 + |a.sid|);
    Slices(b, at, at + 8 + |a.sid|, 4, 8);
    Slices(b, at, at + 8 + |a.sid|, 8, 8 + |a.sid|);
    AceParts(a);
    LongIs(b, at + 4, a.mask);
  }

  lemma FirstAndRest(x: seq<Byte>, y: seq<Byte>)
    ensures (x + y)[0..|x|] == x && (x + y)[|x|..|x + y|] == y
  {
  }

  /** The first entry of a list read back, and where the others are. */
  lemma HeadRead(b: seq<Byte>, at: nat, a: Ace, rest: seq<Ace>)
    requires ValidAce(a) && AllValid(rest) && at + 8 + |a.sid| + |Flat(rest)| <= |b|
    requires b[at..at + 8 + |a.sid| + |Flat(rest)|] == AceBytes(a) + Flat(rest)
    ensures b[at] == b[at + 1] == 0 && Word(b, at + 2) == 8 + |a.sid|
    ensures Long(b, at + 4) == a.mask && FourBytes(b, at + 4, a.mask)
    ensures b[at + 8..at + 8 + |a.sid|] == a.sid
    ensures b[at + 8 + |a.sid|..at + 8 + |a.sid| + |Flat(rest)|] == Flat(rest)
  {
    var size, n := 8 + |a.sid|, 8 + |a.sid| + |Flat(rest)|;
    FirstAndRest(AceBytes(a), Flat(rest));
    Slices(b, at, at + n, 0, size);
    Slices(b, at, at + n, size, n);
    AceRead(b, at, a);
  }

  /** The entries are where the walk will look for them: type and flags 0, the size, the four bytes of
      the mask, the SID. */
  ghost predicate ListAt(b: seq<Byte>, at: nat, aces: seq<Ace>)
    requires AllValid(aces)
    decreases |aces|
  {
    at <= |b|
    && (aces != [] ==>
          var a, size := aces[0], 8 + |aces[0].sid|;
          && at + size <= |b| && b[at] == b[at + 1] == 0 && Word(b, at + 2) == size
          && Long(b, at + 4) == a.mask && FourBytes(b, at + 4, a.mask) && b[at + 8..at + size] == a.sid
          && ListAt(b, at + size, aces[1..]))
  }

  lemma {:induction false} FlatIsListed(b: seq<Byte>, at: nat, aces: seq<Ace>)
    requires AllValid(aces) && at + |Flat(aces)| <= |b| && b[at..at + |Flat(aces)|] == Flat(aces)
    ensures ListAt(b, at, aces)
    decreases |aces|
  {
    hide AceBytes, FourBytes, Long, Word;
    if aces != [] {
      HeadRead(b, at, aces[0], aces[1..]);
      FlatIsListed(b, at + 8 + |aces[0].sid|, aces[1..]);
    }
  }

  lemma {:induction false} WalkIs(b: seq<Byte>, at: nat, aces: seq<Ace>)
    requires AllValid(aces) && |b| >= 8 && ListAt(b, at, aces) && at + |Flat(aces)| <= Word(b, 2) <= |b|
    ensures Readable(b, at, |aces|) && Walk(b, at, |aces|) == Some(at + |Flat(aces)|)
    decreases |aces|
  {
    if aces != [] {
      WalkIs(b, at + 8 + |aces[0].sid|, aces[1..]);
    }
  }

  lemma {:induction false} ParseIs(b: seq<Byte>, at: nat, aces: seq<Ace>)
    requires AllValid(aces) && ListAt(b, at, aces)
    ensures Parse(b, at, |aces|) == Some(aces)
    decreases |aces|
  {
    if aces != [] {
      ParseIs(b, at + 8 + |aces[0].sid|, aces[1..]);
      assert [aces[0]] + aces[1..] == aces;
    }
  }

  /** Walking over the bytes of a list gives back exactly its masks and SIDs, in their order, and
      ends right behind the last of them; with that, the list is valid and its sizes add up. */
  lemma HeldList(b: seq<Byte>, aces: seq<Ace>)
    requires Holds(b, aces)
    ensures Parse(b, 8, Word(b, 4)) == Some(aces) && ListAt(b, 8, aces)
    ensures Readable(b, 8, Word(b, 4)) && Walk(b, 8, Word(b, 4)) == Some(8 + |Flat(aces)|)
    ensures 8 + |Flat(aces)| <= Word(b, 2) && Word(b, 2) % 4 == 0 && 2 <= b[0] <= 4
  {
    hide ListAt, Parse, Walk, Readable, Flat, Word;
    FlatIsListed(b, 8, aces);
    WalkIs(b, 8, aces);
    ParseIs(b, 8, aces);
  }

  lemma ThreeParts(x: seq<Byte>, y: seq<Byte>, z: seq<Byte>)
    ensures x + (y + z) == (x + y) + z
  {
  }

  lemma {:induction false} FlatAppend(aces: seq<Ace>, a: Ace)
    requires AllValid(aces) && ValidAce(a)
    ensures AllValid(aces + [a]) && Flat(aces + [a]) == Flat(aces) + AceBytes(a)
    decreases |aces|
  {
    var all := aces + [a];
    if aces == [] {
      assert all[1..] == [] && all[0] == a;
      assert AceBytes(a) + [] == [] + AceBytes(a);
    } else {
      var x, rest := aces[0], aces[1..];
      FlatAppend(rest, a);
      assert all[0] == x && all[1..] == rest + [a];
      ThreeParts(AceBytes(x), Flat(rest), AceBytes(a));
    }
  }

  lemma {:induction false} FlatSize(aces: seq<Ace>)
    requires AllValid(aces)
    ensures |Flat(aces)| >= 16 * |aces| && |Flat(aces)| % 4 == 0
    decreases |aces|
  {
    if aces != [] {
      FlatSize(aces[1..]);
    }
  }

  // ---------------------------------------------------------------- the routines

  datatype Status = Success | BufferTooSmall | InvalidParameter | InvalidSid | UnknownRevision | InvalidAcl
                  | AllottedSpaceExceeded | InvalidInfoClass

  function RoundUp4(n: nat): (r: nat)
    ensures r % 4 == 0 && n <= r < n + 4
  {
    (n + 3) / 4 * 4
  }

  /** RtlCreateAcl. A size of more than 0xfffc rounds up to one that its field cannot hold: then the
      list says that it has no space at all. */
  method RtlCreateAcl(acl: array<Byte>, aclSize: nat, aclRevision: nat) returns (status: Status)
    requires aclSize >= 8 ==> acl.Length >= 8
    modifies acl
    ensures status == if aclSize < 8 then BufferTooSmall
                      else if aclRevision < 2 || aclRevision > 4 || aclSize > 0xffff then InvalidParameter
                      else Success
    ensures status != Success ==> acl[..] == old(acl[..])
    ensures status == Success ==>
      && Word(acl[..], 2) == (if aclSize <= 0xfffc then RoundUp4(aclSize) else 0) && Word(acl[..], 4) == 0
      && acl[0] == aclRevision && acl[1] == acl[6] == acl[7] == 0 && acl[8..] == old(acl[8..])
      && (Holds(acl[..], []) <==> aclSize <= 0xfffc && RoundUp4(aclSize) <= acl.Length)
  {
    if aclSize < 8 {
      return BufferTooSmall;
    }
    if aclRevision < 2 || aclRevision > 4 || aclSize > 0xffff {
      return InvalidParameter;
    }
    var size := RoundUp4(aclSize) % 0x1_0000;
    acl[2], acl[3] := WordBytes(size)[0], WordBytes(size)[1];
    acl[0] := aclRevision;
    acl[4], acl[5] := 0, 0;
    acl[1] := 0;
    acl[6], acl[7] := 0, 0;
    WordIs(acl[..], 2, size);
    WordIs(acl[..], 4, 0);
    return Success;
  }

  /** Puts bytes into the array from at on. */
  method WriteBytes(acl: array<Byte>, at: nat, bytes: seq<Byte>)
    requires at + |bytes| <= acl.Length
    modifies acl
    ensures acl[..] == old(acl[..at]) + bytes + old(acl[at + |bytes|..])
  {
    forall i | 0 <= i < |bytes| {
      acl[at + i] := bytes[i];
    }
  }

  lemma Overwritten(b: seq<Byte>, at: nat, x: seq<Byte>, y: seq<Byte>)
    requires at + |x| + |y| <= |b|
    ensures var c := b[..at] + x + b[at + |x|..];
      c[..at + |x|] + y + c[at + |x| + |y|..] == b[..at] + (x + y) + b[at + |x| + |y|..]
  {
  }

  /** Writes an entry, as RtlpAddKnownAce does for an access-allowed one. */
  method WriteAce(acl: array<Byte>, at: nat, accessMask: nat, sid: seq<Byte>)
    requires at + 8 + |sid| <= acl.Length && ValidAce(Ace(accessMask, sid))
    modifies acl
    ensures acl[..] == old(acl[..at]) + AceBytes(Ace(accessMask, sid)) + old(acl[at + 8 + |sid|..])
  {
    ghost var b := acl[..];
    var header: seq<Byte> := [0, 0] + WordBytes(8 + |sid|) + LongBytes(accessMask);
    WriteBytes(acl, at, header);
    WriteBytes(acl, at + 8, sid);
    Overwritten(b, at, header, sid);
  }

  // ---------------------------------------------------------------- adding entries

  /** A buffer that the routines can work on: they read and write inside it. */
  ghost predicate Usable(b: seq<Byte>) {
    |b| >= 8 && Word(b, 2) <= |b| && Readable(b, 8, Word(b, 4))
  }

  /** A call of RtlAddAccessAllowedAce; no SID stands for a null pointer or an invalid SID. */
  datatype Request = Request(revision: nat, mask: nat, sid: Option<seq<Byte>>)

  ghost predicate ValidRequest(r: Request) {
    r.mask < 0x1_0000_0000 && (r.sid.Some? ==> SidBytes(r.sid.value) && ValidSid(r.sid.value))
  }

  /** The bytes with entry a at at, and the header brought up to date. */
  ghost function Appended(b: seq<Byte>, at: nat, revision: Byte, a: Ace): (b': seq<Byte>)
    requires ValidAce(a) && 8 <= at && at + 8 + |a.sid| <= |b|
    ensures |b'| == |b|
  {
    var count := WordBytes((Word(b, 4) + 1) % 0x1_0000);
    (b[..at] + AceBytes(a) + b[at + 8 + |a.sid|..])[0 := revision][4 := count[0]][5 := count[1]]
  }

  /** What the call answers, for any list, well formed or not. */
  ghost function AddStatus(b: seq<Byte>, r: Request): Status
    requires Usable(b) && ValidRequest(r)
  {
    if r.sid.None? then InvalidSid
    else if b[0] > 4 || r.revision > 4 then UnknownRevision
    else
      var end := Walk(b, 8, Word(b, 4));
      if end.None? then InvalidAcl
      else if end.value + 8 + |r.sid.value| > Word(b, 2) then AllottedSpaceExceeded
      else Success
  }

  ghost function AfterAdd(b: seq<Byte>, r: Request): (b': seq<Byte>)
    requires Usable(b) && ValidRequest(r)
    ensures |b'| == |b|
  {
    if AddStatus(b, r) != Success then b
    else
      WalkGoesOn(b, 8, Word(b, 4));
      Appended(b, Walk(b, 8, Word(b, 4)).value, if r.revision < b[0] then b[0]
        else r.revision, Ace(r.mask, r.sid.value))
  }

  lemma {:induction false} WalkGoesOn(b: seq<Byte>, at: nat, left: nat)
    requires |b| >= 8 && Readable(b, at, left)
    ensures Walk(b, at, left).Some? ==> Walk(b, at, left).value >= at
    decreases left
  {
    if left > 0 && at < Word(b, 2) {
      WalkGoesOn(b, at + Word(b, at + 2), left - 1);
    }
  }

  /** The parts of what Appended puts together. */
  lemma AppendedParts(b: seq<Byte>, at: nat, revision: Byte, a: Ace)
    requires ValidAce(a) && 8 <= at && at + 8 + |a.sid| <= |b|
    ensures var b' := Appended(b, at, revision, a);
      && b'[0] == revision && Word(b', 2) == Word(b, 2) && Word(b', 4) == (Word(b, 4) + 1) % 0x1_0000
      && b'[1] == b[1] && b'[6] == b[6] && b'[7] == b[7]
      && b'[8..at] == b[8..at] && b'[at..at + 8 + |a.sid|] == AceBytes(a)
      && b'[at + 8 + |a.sid|..] == b[at + 8 + |a.sid|..]
  {
    var b' := Appended(b, at, revision, a);
    var c := b[..at] + AceBytes(a) + b[at + 8 + |a.sid|..];
    WordIs(b', 4, (Word(b, 4) + 1) % 0x1_0000);
    assert b'[2] == b[2] && b'[3] == b[3];
    assert b'[8..at] == c[8..at] == b[8..at];
    assert b'[at..at + 8 + |a.sid|] == c[at..at + 8 + |a.sid|];
    assert b'[at + 8 + |a.sid|..] == c[at + 8 + |a.sid|..] == b[at + 8 + |a.sid|..];
  }

  lemma TwoSlices(b: seq<Byte>, i: nat, j: nat, k: nat)
    requires i <= j <= k <= |b|
    ensures b[i..k] == b[i..j] + b[j..k]
  {
  }

  lemma AppendedHolds(b: seq<Byte>, aces: seq<Ace>, revision: Byte, a: Ace)
    requires Holds(b, aces) && ValidAce(a) && 2 <= revision <= 4
    requires 8 + |Flat(aces)| + 8 + |a.sid| <= Word(b, 2)
    ensures Holds(Appended(b, 8 + |Flat(aces)|, revision, a), aces + [a])
  {
    hide Appended, AceBytes, Flat;
    var end := 8 + |Flat(aces)|;
    var b' := Appended(b, end, revision, a);
    FlatAppend(aces, a);
    FlatSize(aces);
    AppendedParts(b, end, revision, a);
    TwoSlices(b', 8, end, end + 8 + |a.sid|);
  }

  /** Writes the entry, and brings the header up to date. */
  method AppendAce(acl: array<Byte>, at: nat, revision: Byte, accessMask: nat, sid: seq<Byte>)
    requires 8 <= at && at + 8 + |sid| <= acl.Length && ValidAce(Ace(accessMask, sid))
    modifies acl
    ensures acl[..] == Appended(old(acl[..]), at, revision, Ace(accessMask, sid))
  {
    ghost var b := acl[..];
    WriteAce(acl, at, accessMask, sid);
    ghost var c := acl[..];
    assert c[4] == b[4] && c[5] == b[5];
    var count := WordBytes((Word(acl[..], 4) + 1) % 0x1_0000);
    acl[4], acl[5] := count[0], count[1];
    acl[0] := revision;
    assert acl[..] == c[0 := revision][4 := count[0]][5 := count[1]];
  }

  /** The SID behind a pointer; its last bytes need not be there unless the first two say so. */
  ghost predicate SidReadable(sid: array<Byte>)
    reads sid
  {
    sid.Length >= 2 && (ValidSid(sid[..]) ==> LengthSid(sid[..]) <= sid.Length)
  }

  ghost function SidAt(sid: array?<Byte>): (s: Option<seq<Byte>>)
    requires sid != null ==> SidReadable(sid)
    reads if sid == null then {} else {sid}
    ensures s.Some? ==> SidBytes(s.value) && ValidSid(s.value)
  {
    if sid == null || !ValidSid(sid[..]) then None else Some(sid[..LengthSid(sid[..])])
  }

  /** RtlAddAccessAllowedAce: either the entry is put at the end, or nothing changes. */
  method RtlAddAccessAllowedAce(acl: array<Byte>, revision: nat, accessMask: nat, sid: array?<Byte>)
    returns (status: Status)
    requires Usable(acl[..]) && accessMask < 0x1_0000_0000
    requires sid != null ==> sid != acl && SidReadable(sid)
    modifies acl
    ensures status == AddStatus(old(acl[..]), Request(revision, accessMask, SidAt(sid)))
    ensures acl[..] == AfterAdd(old(acl[..]), Request(revision, accessMask, SidAt(sid)))
  {
    if sid == null || !ValidSid(sid[..]) {
      return InvalidSid;
    }
    if acl[0] > 4 || revision > 4 {
      return UnknownRevision;
    }
    var newRevision: Byte := if revision < acl[0] then acl[0] else revision;
    WalkGoesOn(acl[..], 8, Word(acl[..], 4));
    var ok, ace := RtlFirstFreeAce(acl);
    if !ok {
      return InvalidAcl;
    }
    if ace.None? {
      return AllottedSpaceExceeded;
    }
    var aceSize := LengthSid(sid[..]) + 8;
    if ace.value + aceSize > Word(acl[..], 2) {
      return AllottedSpaceExceeded;
    }
    AppendAce(acl, ace.value, newRevision, accessMask, sid[..LengthSid(sid[..])]);
    return Success;
  }

  /** The entries a call adds. */
  ghost function Added(b: seq<Byte>, r: Request): (more: seq<Ace>)
    requires Usable(b) && ValidRequest(r)
  {
    if AddStatus(b, r) == Success then [Ace(r.mask, r.sid.value)] else []
  }

  lemma HeldUsable(b: seq<Byte>, aces: seq<Ace>)
    requires Holds(b, aces)
    ensures Usable(b)
  {
    HeldList(b, aces);
  }

  lemma AfterAddIs(b: seq<Byte>, aces: seq<Ace>, r: Request)
    requires Holds(b, aces) && ValidRequest(r)
    ensures Usable(b)
    ensures AddStatus(b, r) == Success ==>
      var revision := if r.revision < b[0] then b[0] else r.revision;
      && 2 <= revision <= 4 && 8 + |Flat(aces)| + 8 + |r.sid.value| <= Word(b, 2)
      && AfterAdd(b, r) == Appended(b, 8 + |Flat(aces)|, revision, Ace(r.mask, r.sid.value))
  {
    HeldList(b, aces);
  }

  lemma AppendedKeeps(b: seq<Byte>, aces: seq<Ace>, revision: Byte, a: Ace)
    requires Holds(b, aces) && ValidAce(a) && 2 <= revision <= 4
    requires 8 + |Flat(aces)| + 8 + |a.sid| <= Word(b, 2)
    ensures Holds(Appended(b, 8 + |Flat(aces)|, revision, a), aces + [a])
    ensures Word(Appended(b, 8 + |Flat(aces)|, revision, a), 2) == Word(b, 2)
  {
    AppendedHolds(b, aces, revision, a);
    AppendedParts(b, 8 + |Flat(aces)|, revision, a);
  }

  /** One call on a list that holds aces. */
  lemma AddKeeps(b: seq<Byte>, aces: seq<Ace>, r: Request)
    requires Holds(b, aces) && ValidRequest(r)
    ensures Usable(b) && Holds(AfterAdd(b, r), aces + Added(b, r)) && Word(AfterAdd(b, r), 2) == Word(b, 2)
  {
    AfterAddIs(b, aces, r);
    if AddStatus(b, r) == Success {
      AppendedKeeps(b, aces, if r.revision < b[0] then b[0] else r.revision, Ace(r.mask, r.sid.value));
    } else {
      assert aces + [] == aces;
    }
  }

  /** What the call answers on a list that holds aces, each status under its own condition: an entry is
      added exactly where it fits, and it may fill the list to its last byte. */
  lemma AddAnswers(b: seq<Byte>, aces: seq<Ace>, r: Request)
    requires Holds(b, aces) && ValidRequest(r)
    ensures Usable(b)
    ensures var status := AddStatus(b, r);
      && (status == InvalidSid <==> r.sid.None?)
      && (status == UnknownRevision <==> r.sid.Some? && r.revision > 4)
      && (status == AllottedSpaceExceeded <==>
            r.sid.Some? && r.revision <= 4 && 8 + |Flat(aces)| + 8 + |r.sid.value| > Word(b, 2))
      && (status == Success <==>
            r.sid.Some? && r.revision <= 4 && 8 + |Flat(aces)| + 8 + |r.sid.value| <= Word(b, 2))
  {
    HeldList(b, aces);
  }

  /** The same for any list, well formed or not, by the places of its entries. */
  lemma AnyListAnswers(b: seq<Byte>, r: Request)
    requires Usable(b) && ValidRequest(r)
    ensures var status, known := AddStatus(b, r), r.sid.Some? && b[0] <= 4 && r.revision <= 4;
      && (status == InvalidSid <==> r.sid.None?)
      && (status == UnknownRevision <==> r.sid.Some? && !known)
      && (status == InvalidAcl <==> known && !exists path :: IsPath(b, path, 8, Word(b, 4)))
      && forall path :: IsPath(b, path, 8, Word(b, 4)) ==>
        && (status == Success <==> known && path[Word(b, 4)] + 8 + |r.sid.value| <= Word(b, 2))
        && (status == AllottedSpaceExceeded <==> known && path[Word(b, 4)] + 8 + |r.sid.value| > Word(b, 2))
  {
    var n := Word(b, 4);
    forall path | IsPath(b, path, 8, n) ensures Walk(b, 8, n) == Some(path[n]) {
      WalkIsPath(b, 8, n, path[n]);
    }
    if Walk(b, 8, n).Some? {
      WalkIsPath(b, 8, n, Walk(b, 8, n).value);
    }
  }

  /** What the call leaves in the header: the greater revision, the same size, one entry more; behind
      the new entry nothing changes. */
  lemma AddHeader(b: seq<Byte>, aces: seq<Ace>, r: Request)
    requires Holds(b, aces) && ValidRequest(r)
    requires r.sid.Some? && r.revision <= 4 && 8 + |Flat(aces)| + 8 + |r.sid.value| <= Word(b, 2)
    ensures Usable(b)
    ensures var b', end := AfterAdd(b, r), 8 + |Flat(aces)| + 8 + |r.sid.value|;
      && b'[0] >= b[0] && b'[0] >= r.revision && (b'[0] == b[0] || b'[0] == r.revision)
      && b'[1] == b[1] && Word(b', 2) == Word(b, 2) && Word(b', 4) == Word(b, 4) + 1
      && b'[6] == b[6] && b'[7] == b[7] && b'[end..] == b[end..]
  {
    hide Appended, AceBytes, Flat, AfterAdd, AddStatus, Walk, Readable, Word;
    AddAnswers(b, aces, r);
    AfterAddIs(b, aces, r);
    AppendedParts(b, 8 + |Flat(aces)|, if r.revision < b[0] then b[0] else r.revision, Ace(r.mask, r.sid.value));
    FlatSize(aces);
  }

  ghost predicate AllValidRequests(rs: seq<Request>) {
    forall i :: 0 <= i < |rs| ==> ValidRequest(rs[i])
  }

  /** The bytes after a run of calls, and the entries of those that succeeded. */
  ghost function AfterAll(b: seq<Byte>, aces: seq<Ace>, rs: seq<Request>): (seq<Byte>, seq<Ace>)
    requires Holds(b, aces) && AllValidRequests(rs)
    decreases |rs|
  {
    if rs == [] then (b, aces)
    else
      AddKeeps(b, aces, rs[0]);
      AfterAll(AfterAdd(b, rs[0]), aces + Added(b, rs[0]), rs[1..])
  }

  /** After any run of calls, walking over the bytes gives back exactly the masks and SIDs of the
      calls that succeeded, in order; the list is valid, and its sizes add up. */
  lemma {:induction false} RunIsListed(b: seq<Byte>, aces: seq<Ace>, rs: seq<Request>)
    requires Holds(b, aces) && AllValidRequests(rs)
    ensures var (b', aces') := AfterAll(b, aces, rs);
      && Holds(b', aces') && Parse(b', 8, Word(b', 4)) == Some(aces') && Usable(b')
      && Walk(b', 8, Word(b', 4)) == Some(8 + |Flat(aces')|) && Word(b', 2) == Word(b, 2)
    decreases |rs|
  {
    hide Holds, Parse, Walk, Readable, Usable, Flat, AfterAdd, Added;
    if rs == [] {
      HeldList(b, aces);
      HeldUsable(b, aces);
    } else {
      AddKeeps(b, aces, rs[0]);
      RunIsListed(AfterAdd(b, rs[0]), aces + Added(b, rs[0]), rs[1..]);
    }
  }

  // ---------------------------------------------------------------- the routines' runs

  /** The arguments of a call of RtlAddAccessAllowedAce on some list. */
  datatype Call = Call(revision: nat, mask: nat, sid: array?<Byte>)

  ghost predicate ValidCall(acl: array<Byte>, c: Call)
    reads if c.sid == null then {} else {c.sid}
  {
    c.mask < 0x1_0000_0000 && (c.sid != null ==> c.sid != acl && SidReadable(c.sid))
  }

  ghost predicate AllValidCalls(acl: array<Byte>, calls: seq<Call>)
    reads set c | c in calls && c.sid != null :: c.sid
  {
    forall i :: 0 <= i < |calls| ==> ValidCall(acl, calls[i])
  }

  ghost function RequestOf(acl: array<Byte>, c: Call): (r: Request)
    requires ValidCall(acl, c)
    reads if c.sid == null then {} else {c.sid}
    ensures ValidRequest(r)
  {
    Request(c.revision, c.mask, SidAt(c.sid))
  }

  ghost function RequestsOf(acl: array<Byte>, calls: seq<Call>): (rs: seq<Request>)
    requires AllValidCalls(acl, calls)
    reads set c | c in calls && c.sid != null :: c.sid
    ensures AllValidRequests(rs) && |rs| == |calls|
    ensures forall i :: 0 <= i < |calls| ==> rs[i] == RequestOf(acl, calls[i])
  {
    if calls == [] then [] else [RequestOf(acl, calls[0])] + RequestsOf(acl, calls[1..])
  }

  method RunCall(acl: array<Byte>, c: Call, ghost aces: seq<Ace>)
    requires Holds(acl[..], aces) && ValidCall(acl, c)
    modifies acl
    ensures ValidCall(acl, c) && RequestOf(acl, c) == old(RequestOf(acl, c)) && Usable(old(acl[..]))
    ensures acl[..] == AfterAdd(old(acl[..]), RequestOf(acl, c))
    ensures Holds(acl[..], aces + Added(old(acl[..]), RequestOf(acl, c)))
  {
    AddKeeps(acl[..], aces, RequestOf(acl, c));
    var status := RtlAddAccessAllowedAce(acl, c.revision, c.mask, c.sid);
  }

  lemma AfterFirst(b: seq<Byte>, aces: seq<Ace>, rs: seq<Request>, i: nat)
    requires Holds(b, aces) && AllValidRequests(rs) && i < |rs|
    ensures AllValidRequests(rs[i..]) && AllValidRequests(rs[i + 1..]) && ValidRequest(rs[i]) && Usable(b)
    ensures Holds(AfterAdd(b, rs[i]), aces + Added(b, rs[i]))
    ensures AfterAll(b, aces, rs[i..]) == AfterAll(AfterAdd(b, rs[i]), aces + Added(b, rs[i]), rs[i + 1..])
  {
    AddKeeps(b, aces, rs[i]);
    assert rs[i..][0] == rs[i] && rs[i..][1..] == rs[i + 1..];
  }

  /** Whatever the calls are, the bytes come out as the pure account says. */
  method RunCalls(acl: array<Byte>, ghost aces0: seq<Ace>, calls: seq<Call>) returns (ghost aces: seq<Ace>)
    requires Holds(acl[..], aces0) && AllValidCalls(acl, calls)
    modifies acl
    ensures (acl[..], aces) == AfterAll(old(acl[..]), aces0, old(RequestsOf(acl, calls)))
  {
    ghost var rs := RequestsOf(acl, calls);
    ghost var goal := AfterAll(acl[..], aces0, rs);
    aces := aces0;
    assert rs[0..] == rs && rs[|rs|..] == [];
    var i := 0;
    while i < |calls|
      invariant 0 <= i <= |calls| && Holds(acl[..], aces) && AllValidRequests(rs[i..])
      invariant forall j :: i <= j < |calls| ==> ValidCall(acl, calls[j]) && rs[j] == RequestOf(acl, calls[j])
      invariant AfterAll(acl[..], aces, rs[i..]) == goal
    {
      hide *;
      ghost var b := acl[..];
      AfterFirst(b, aces, rs, i);
      RunCall(acl, calls[i], aces);
      aces := aces + Added(b, rs[i]);
      i := i + 1;
    }
  }

  /** A new list and any calls on it: reading it back gives the entries of the calls that succeeded,
      in order. */
  method RunFromCreated(acl: array<Byte>, aclSize: nat, aclRevision: nat, calls: seq<Call>)
    returns (ghost created: seq<Byte>, ghost aces: seq<Ace>)
    requires 8 <= aclSize <= 0xfffc && RoundUp4(aclSize) <= acl.Length && 2 <= aclRevision <= 4
    requires AllValidCalls(acl, calls)
    modifies acl
    ensures Holds(created, []) && (acl[..], aces) == AfterAll(created, [], old(RequestsOf(acl, calls)))
    ensures Holds(acl[..], aces) && Parse(acl[..], 8, Word(acl[..], 4)) == Some(aces)
    ensures Word(acl[..], 2) == RoundUp4(aclSize)
  {
    ghost var rs := RequestsOf(acl, calls);
    var status := RtlCreateAcl(acl, aclSize, aclRevision);
    created := acl[..];
    assert AllValidCalls(acl, calls) && RequestsOf(acl, calls) == rs;
    RunIsListed(created, [], rs);
    aces := RunCalls(acl, [], calls);
  }

  /** RtlValidAcl, which holds of every list the routines above have built. */
  method RtlValidAcl(acl: array<Byte>) returns (valid: bool)
    requires acl.Length >= 8 && Readable(acl[..], 8, Word(acl[..], 4))
    ensures valid <==> 2 <= acl[0] <= 4 && Word(acl[..], 2) % 4 == 0 && Walk(acl[..], 8, Word(acl[..], 4)).Some?
  {
    var size := RoundUp4(Word(acl[..], 2)) % 0x1_0000;
    if acl[0] < 2 || acl[0] > 4 {
      return false;
    }
    if size != Word(acl[..], 2) {
      return false;
    }
    var ace;
    valid, ace := RtlFirstFreeAce(acl);
  }

  /** The AclSizeInformation class of RtlQueryInformationAcl. */
  method RtlQuerySizeInformation(acl: array<Byte>, informationLength: nat)
    returns (status: Status, aceCount: nat, bytesInUse: nat, bytesFree: nat)
    requires acl.Length >= 8 && Readable(acl[..], 8, Word(acl[..], 4))
    ensures status == if acl[0] < 2 || acl[0] > 4 then InvalidParameter
                      else if informationLength < 12 then BufferTooSmall
                      else if Walk(acl[..], 8, Word(acl[..], 4)).None? then InvalidParameter
                      else Success
    ensures status == Success ==> aceCount == Word(acl[..], 4)
    ensures status == Success && Word(acl[..], 2) >= 8 ==>
      && var end := Walk(acl[..], 8, Word(acl[..], 4)).value;
      && bytesInUse == (if end <= Word(acl[..], 2) then end else Word(acl[..], 2))
      && bytesInUse + bytesFree == Word(acl[..], 2)
  {
    aceCount, bytesInUse, bytesFree := 0, 0, 0;
    if acl[0] < 2 || acl[0] > 4 {
      return InvalidParameter, aceCount, bytesInUse, bytesFree;
    }
    if informationLength < 12 {
      return BufferTooSmall, aceCount, bytesInUse, bytesFree;
    }
    var ok, ace := RtlFirstFreeAce(acl);
    if !ok {
      return InvalidParameter, aceCount, bytesInUse, bytesFree;
    }
    aceCount := Word(acl[..], 4);
    if ace.Some? {
      bytesInUse := ace.value;
      bytesFree := (Word(acl[..], 2) - bytesInUse) % 0x1_0000_0000;
    } else {
      bytesInUse := Word(acl[..], 2);
      bytesFree := 0;
    }
    return Success, aceCount, bytesInUse, bytesFree;
  }
}
