/** Powers of two, and the few facts about products that the solver does not find by itself. */
module Powers {

  function Pow2(k: nat): (p: nat)
    ensures p > 0
  {
    if k == 0 then 1 else 2 * Pow2(k - 1)
  }

  lemma {:induction false} Pow2Sum(j: nat, k: nat)
    ensures Pow2(j) * Pow2(k) == Pow2(j + k)
    decreases j
  {
    if j > 0 {
      Pow2Sum(j - 1, k);
      assert Pow2(j) == 2 * Pow2(j - 1) && Pow2(j + k) == 2 * Pow2(j - 1 + k);
      hide Pow2;
      TwiceProduct(Pow2(j - 1), Pow2(k));
    }
  }

  lemma TwiceProduct(x: nat, y: nat)
    ensures 2 * x * y == 2 * (x * y)
  {
  }

  lemma Pow2Values()
    ensures Pow2(4) == 16 && Pow2(16) == 0x1_0000 && Pow2(32) == 0x1_0000_0000
  {
    assert Pow2(8) == 0x100;
    Pow2Sum(8, 8);
    Pow2Sum(16, 16);
  }

  lemma Larger(x: nat, y: nat, z: nat)
    requires x <= y
    ensures x * z <= y * z
  {
  }

  /** Quotient and remainder are unique. */
  lemma Unique(a: nat, d: nat, q: nat, r: nat)
    requires a == q * d + r && r < d
    ensures a / d == q && a % d == r
  {
    var p, s := a / d, a % d;
    assert a == p * d + s;
    if p < q {
      Larger(p + 1, q, d);
    } else if q < p {
      Larger(q + 1, p, d);
    }
  }

  // ---------------------------------------------------------------- masks and shifts

  /** x & y, digit by digit. */
  function BitAnd(x: nat, y: nat): nat {
    if x == 0 || y == 0 then 0
    else 2 * BitAnd(x / 2, y / 2) + if x % 2 == 1 && y % 2 == 1 then 1 else 0
  }

  /** x >> k: the lowest digit is dropped k times. */
  function ShiftDown(x: nat, k: nat): nat {
    if k == 0 then x else ShiftDown(x / 2, k - 1)
  }

  /** Halves of a number taken apart at p are taken apart at 2 p. */
  lemma TwiceAsFar(x: nat, p: nat)
    requires p > 0
    ensures x / (2 * p) == x / 2 / p && x % (2 * p) == 2 * (x / 2 % p) + x % 2
  {
    var h := x / 2;
    var q, r := h / p, h % p;
    assert h == p * q + r;
    assert x == q * (2 * p) + (2 * r + x % 2);
    Unique(x, 2 * p, q, 2 * r + x % 2);
  }

  lemma {:induction false} MaskIsRemainder(x: nat, k: nat)
    ensures BitAnd(x, Pow2(k) - 1) == x % Pow2(k)
    decreases k
  {
    if k == 0 {
    } else {
      MaskIsRemainder(x / 2, k - 1);
      TwiceAsFar(x, Pow2(k - 1));
      assert (Pow2(k) - 1) / 2 == Pow2(k - 1) - 1 && (Pow2(k) - 1) % 2 == 1;
    }
  }

  lemma {:induction false} ShiftIsQuotient(x: nat, k: nat)
    ensures ShiftDown(x, k) == x / Pow2(k)
    decreases k
  {
    if k > 0 {
      ShiftIsQuotient(x / 2, k - 1);
      TwiceAsFar(x, Pow2(k - 1));
    }
  }
}
