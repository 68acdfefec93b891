/** Bytes, and the two-byte numbers they make, the low byte first. */
module Bytes {
  type Byte = x: int | 0 <= x < 256

  function Word(b: seq<Byte>, i: nat): (n: nat)
    requires i + 2 <= |b|
    ensures n < 0x1_0000
  {
    var low: int, high: int := b[i], b[i + 1];
    low + 256 * high
  }

  function WordBytes(n: nat): (b: seq<Byte>)
    requires n < 0x1_0000
    ensures |b| == 2
  {
    [n % 256, n / 256]
  }

  lemma WordIs(b: seq<Byte>, i: nat, n: nat)
    requires n < 0x1_0000 && i + 2 <= |b| && b[i] == n % 256 && b[i + 1] == n / 256
    ensures Word(b, i) == n
  {
  }
}
