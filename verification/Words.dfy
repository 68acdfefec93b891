/** 32-bit words by their binary digits, the least significant first, with C's operators. */
module Words {
  type Word = w: seq<bool> | |w| == 32 witness seq(32, _ => false)

  const ZERO: Word := seq(32, _ => false)
  const ONES: Word := seq(32, _ => true)

  function ShiftLeft(w: Word, k: nat): Word
    requires k < 32
  {
    seq(32, j requires 0 <= j < 32 => j >= k && w[j - k])
  }

  function ShiftRight(w: Word, k: nat): Word
    requires k < 32
  {
    seq(32, j requires 0 <= j < 32 => j + k < 32 && w[j + k])
  }

  function And(w: Word, v: Word): Word {
    seq(32, j requires 0 <= j < 32 => w[j] && v[j])
  }

  function Or(w: Word, v: Word): Word {
    seq(32, j requires 0 <= j < 32 => w[j] || v[j])
  }

  function Not(w: Word): Word {
    seq(32, j requires 0 <= j < 32 => !w[j])
  }

  lemma SomeDigit(w: Word)
    ensures w == ZERO || exists i :: 0 <= i < 32 && w[i]
  {
    if forall i :: 0 <= i < 32 ==> !w[i] {
      assert w == ZERO;
    }
  }

  /** BitScanForward: the least significant digit that is set, from digit j on. */
  function BitScanForward(w: Word, j: nat := 0): (k: nat)
    requires w != ZERO && j < 32 && forall i :: 0 <= i < j ==> !w[i]
    ensures k < 32 && w[k] && forall i :: 0 <= i < k ==> !w[i]
    decreases 32 - j
  {
    SomeDigit(w);
    if w[j] then j else BitScanForward(w, j + 1)
  }
}
