/** _aulldvrm: 64-bit division with remainder, on 32-bit registers. */
module Division {
  import opened Powers

  const WORD := 0x1_0000_0000
  const HALF := 0x8000_0000

  type Register = x: nat | x < WORD

  ghost function Wide(hi: nat, lo: nat): nat {
    hi * WORD + lo
  }

  // ---------------------------------------------------------------- instructions

  function Bit(carry: bool): nat {
    if carry then 1 else 0
  }

  /** shr hi,1 and rcr lo,1: the bit shifted out of hi comes into lo. */
  method ShiftRight(hi: Register, lo: Register) returns (hi': Register, lo': Register)
    ensures Wide(hi', lo') == Wide(hi, lo) / 2 && hi' == hi / 2
  {
    var carry := hi % 2 == 1;
    hi' := hi / 2;
    lo' := lo / 2 + if carry then HALF else 0;
  }

  method Mul(x: Register, y: Register) returns (hi: Register, lo: Register)
    ensures Wide(hi, lo) == x * y
  {
    Larger(x, WORD - 1, y);
    hi, lo := x * y / WORD, x * y % WORD;
  }

  lemma QuotientFits(edx: Register, eax: Register, r: Register, q: nat, rem: nat)
    requires edx < r && Wide(edx, eax) == q * r + rem && rem < r
    ensures q < WORD
  {
    Larger(edx + 1, r, WORD);
    if q >= WORD {
      Larger(WORD, q, r);
    }
  }

  /** div r, of edx:eax. It faults when the quotient does not fit a register. */
  method Div(edx: Register, eax: Register, r: Register) returns (quotient: Register, remainder: Register)
    requires edx < r
    ensures Wide(edx, eax) == quotient * r + remainder && remainder < r
  {
    var n := edx * WORD + eax;
    var q, rem := n / r, n % r;
    QuotientFits(edx, eax, r, q, rem);
    quotient, remainder := q, rem;
  }

  method Add(x: Register, y: Register) returns (sum: Register, carry: bool)
    ensures x + y == Bit(carry) * WORD + sum
  {
    sum, carry := (x + y) % WORD, x + y >= WORD;
  }

  /** sbb, and sub where no borrow comes in. */
  method Sbb(x: Register, y: Register, borrow: bool) returns (difference: Register, carry: bool)
    ensures x - y - Bit(borrow) == difference - Bit(carry) * WORD
  {
    var d := x - y - Bit(borrow);
    difference, carry := d % WORD, d < 0;
  }

  method Neg(x: Register) returns (negated: Register, carry: bool)
    ensures carry <==> x != 0
    ensures x + negated == Bit(carry) * WORD
  {
    negated, carry := (WORD - x) % WORD, x != 0;
  }

  // ---------------------------------------------------------------- arithmetic

  /** A product taken from two halves. */
  lemma Halves(x: nat, y: nat, z: nat)
    ensures Wide(x, y) * z == Wide(x * z, y * z)
  {
  }

  /** The result of the multiplication, taken from the dividend. */
  method Remainder(eax0: Register, edx0: Register, dvndLo: Register, dvndHi: Register)
    returns (eax: Register, edx: Register)
    requires Wide(edx0, eax0) <= Wide(dvndHi, dvndLo)
    ensures Wide(edx, eax) == Wide(dvndHi, dvndLo) - Wide(edx0, eax0)
  {
    var carry, ignored;
    eax, edx := eax0, edx0;
    eax, carry := Sbb(eax, dvndLo, false);
    edx, ignored := Sbb(edx, dvndHi, carry);
    edx, ignored := Neg(edx);
    eax, carry := Neg(eax);
    edx, ignored := Sbb(edx, 0, carry);
  }

  // ---------------------------------------------------------------- divisors of one word

  lemma ShortQuotient(h: nat, l: nat, d: nat, q1: nat, r1: nat, q0: nat, r0: nat)
    requires h == q1 * d + r1 && Wide(r1, l) == q0 * d + r0
    ensures Wide(h, l) == Wide(q1, q0) * d + r0
  {
    Halves(q1, q0, d);
  }

  /** Two divisions by one word. */
  method DivideShort(dvndLo: Register, dvndHi: Register, dvsrLo: Register)
    returns (eax: Register, ebx: Register, edx: Register, esi: Register)
    requires dvsrLo > 0
    ensures Wide(edx, eax) == Wide(ebx, esi) * dvsrLo
    ensures Wide(dvndHi, dvndLo) - dvsrLo < Wide(edx, eax) <= Wide(dvndHi, dvndLo)
  {
    var ecx := dvsrLo;
    eax, edx := dvndHi, 0;
    eax, edx := Div(edx, eax, ecx);
    ghost var rest := edx;
    ebx := eax;
    eax := dvndLo;
    eax, edx := Div(edx, eax, ecx);
    esi := eax;
    ShortQuotient(dvndHi, dvndLo, dvsrLo, ebx, rest, esi, edx);
    Halves(ebx, esi, dvsrLo);
    eax, edx := MultiplyBack(ebx, esi, dvsrLo, Wide(dvndHi, dvndLo));
  }

  lemma OneWord(p: nat, hi: nat, lo: nat)
    requires p == Wide(hi, lo) && p < WORD
    ensures hi == 0 && lo == p
  {
  }

  lemma HighWord(p1: nat, p0: nat, total: nat)
    requires Wide(p1, p0) <= total < WORD * WORD
    ensures p1 < WORD
  {
  }

  lemma TwoWords(p1: nat, p0: nat, hi: nat, lo: nat, total: nat)
    requires p0 == Wide(hi, lo) && Wide(p1, p0) <= total < WORD * WORD
    ensures p1 < WORD && p1 + hi < WORD && Wide(p1 + hi, lo) == Wide(p1, p0)
  {
  }

  /** Quotient times divisor; nothing is carried out of the high half. */
  method MultiplyBack(ebx: Register, esi: Register, dvsrLo: Register, ghost total: nat)
    returns (eax: Register, edx: Register)
    requires Wide(ebx * dvsrLo, esi * dvsrLo) <= total < WORD * WORD
    ensures Wide(edx, eax) == Wide(ebx * dvsrLo, esi * dvsrLo)
  {
    ghost var p1, p0 := ebx * dvsrLo, esi * dvsrLo;
    eax := ebx;
    edx, eax := Mul(eax, dvsrLo);
    HighWord(p1, p0, total);
    OneWord(p1, edx, eax);
    var ecx := eax;
    eax := esi;
    edx, eax := Mul(eax, dvsrLo);
    TwoWords(p1, p0, edx, eax, total);
    var carry;
    edx, carry := Add(edx, ecx);
  }

  // ---------------------------------------------------------------- divisors of two words

  /** n is v shifted right by k bits; r is what has been shifted out. */
  ghost predicate Shifted(v: nat, k: nat, n: nat, r: nat) {
    v == Pow2(k) * n + r && r < Pow2(k)
  }

  lemma ShiftOn(v: nat, k: nat, n: nat, r: nat)
    requires Shifted(v, k, n, r)
    ensures Shifted(v, k + 1, n / 2, r + (n % 2) * Pow2(k))
  {
    HalveProduct(Pow2(k), n / 2, n % 2);
  }

  lemma HalveProduct(p: nat, h: nat, b: nat)
    requires b < 2
    ensures p * (2 * h + b) == (2 * p) * h + b * p && b * p <= p
  {
  }

  /** The divisor after k shifts: what is left of its low word, x, below all of its high word. */
  ghost predicate Normalizing(dvsrHi: nat, dvsrLo: nat, k: nat, divisor: nat, x: nat, r: nat) {
    k <= 32 && Shifted(dvsrLo, k, x, r) && divisor == dvsrHi * Pow2(32 - k) + x
  }

  lemma NormalizeOn(dvsrHi: nat, dvsrLo: nat, k: nat, divisor: nat, x: nat, r: nat)
    requires Normalizing(dvsrHi, dvsrLo, k, divisor, x, r) && k < 32
    ensures Normalizing(dvsrHi, dvsrLo, k + 1, divisor / 2, x / 2, r + (x % 2) * Pow2(k))
  {
    ShiftOn(dvsrLo, k, x, r);
    HalfSum(dvsrHi, Pow2(31 - k), x, Pow2(32 - k));
  }

  lemma HalfSum(h: nat, p: nat, x: nat, p2: nat)
    requires p2 == 2 * p
    ensures (h * p2 + x) / 2 == h * p + x / 2
  {
    var n := h * p;
    assert h * p2 == 2 * n;
  }

  /** After 32 shifts there is nothing left of the low word. */
  lemma StillShifting(dvsrHi: Register, dvsrLo: Register, k: nat, divisor: nat, x: nat, r: nat)
    requires Normalizing(dvsrHi, dvsrLo, k, divisor, x, r) && divisor >= WORD
    ensures k < 32
  {
    if k == 32 {
      Pow2Values();
    }
  }

  /** What the shifted divisor says about the divisor. */
  lemma DivisorBounds(dvsrHi: Register, dvsrLo: Register, k: nat, divisor: nat, x: nat, r: nat)
    requires Normalizing(dvsrHi, dvsrLo, k, divisor, x, r)
    ensures Wide(dvsrHi, dvsrLo) == Pow2(k) * divisor + r && r < Pow2(k)
    ensures dvsrHi * WORD <= Pow2(k) * divisor
  {
    assert Pow2(k) * Pow2(32 - k) == WORD by {
      Pow2Sum(k, 32 - k);
      Pow2Values();
    }
    Spread(Pow2(k), Pow2(32 - k), dvsrHi, x, WORD, dvsrLo, r, divisor);
  }

  lemma Spread(p: nat, q: nat, h: nat, x: nat, w: nat, lo: nat, r: nat, divisor: nat)
    requires p * q == w && lo == p * x + r && divisor == h * q + x
    ensures h * w + lo == p * divisor + r && h * w <= p * divisor
  {
    assert p * (h * q + x) == h * (p * q) + p * x;
  }

  /** The estimate is the true quotient, or one more. */
  lemma Estimate(a: nat, d: nat, p: nat, dividend: nat, ra: nat, divisor: nat, rd: nat, q: nat, rest: nat)
    requires a == p * dividend + ra && ra < p && d == p * divisor + rd && rd < p
    requires dividend == q * divisor + rest && rest < divisor
    requires p == 2 || p >= 4
    requires a < WORD * WORD && HALF <= divisor
    ensures q * d < a + d && a < (q + 1) * d
    ensures q * (p * divisor) <= a
  {
    assert a < (q + 1) * d by {
      OneMore(q, divisor);
      NotTooSmall(a, d, p, dividend, ra, divisor, rd, q);
    }
    LeadingPart(a, p, dividend, ra, divisor, q, rest);
    SmallError(p, divisor, q, a);
    WholeProduct(a, d, p * divisor, rd, p, q);
  }

  lemma LeadingPart(a: nat, p: nat, dividend: nat, ra: nat, divisor: nat, q: nat, rest: nat)
    requires a == p * dividend + ra && dividend == q * divisor + rest
    ensures q * (p * divisor) <= a
  {
    assert q * (p * divisor) == p * (q * divisor);
    Larger(q * divisor, dividend, p);
  }

  lemma WholeProduct(a: nat, d: nat, high: nat, rd: nat, p: nat, q: nat)
    requires d == high + rd && rd < p && q * high <= a && q * (p - 1) < high
    ensures q * d < a + d
  {
    assert q * d == q * high + q * rd;
    Larger(rd, p - 1, q);
  }

  lemma NotTooSmall(a: nat, d: nat, p: nat, dividend: nat, ra: nat, divisor: nat, rd: nat, q: nat)
    requires a == p * dividend + ra && ra < p && d == p * divisor + rd
    requires dividend + 1 <= (q + 1) * divisor
    ensures a < (q + 1) * d
  {
    assert a < p * (dividend + 1);
    Larger(dividend + 1, (q + 1) * divisor, p);
    assert (q + 1) * d == (q + 1) * divisor * p + (q + 1) * rd;
  }

  lemma SmallError(p: nat, divisor: nat, q: nat, a: nat)
    requires p == 2 || p >= 4
    requires q * (p * divisor) <= a < WORD * WORD && HALF <= divisor
    ensures q * (p - 1) < p * divisor
  {
    var m := q * p;
    assert q * (p * divisor) == m * divisor;
    Larger(HALF, divisor, m);
    assert m < 2 * WORD;
    Larger(HALF, divisor, p);
    assert q * (p - 1) == m - q;
    if p >= 4 {
      assert p * HALF >= 2 * WORD;
    }
  }

  /** Shifts divisor and dividend down together, until the divisor fits one register. */
  method Normalize(dvndLo: Register, dvndHi: Register, dvsrLo: Register, dvsrHi: Register)
    returns (ebx: Register, eax: Register, edx: Register, ghost k: nat, ghost x: nat, ghost ra: nat, ghost rd: nat)
    requires dvsrHi > 0
    ensures k >= 1 && HALF <= ebx && edx < ebx
    ensures Shifted(Wide(dvndHi, dvndLo), k, Wide(edx, eax), ra) && Normalizing(dvsrHi, dvsrLo, k, ebx, x, rd)
  {
    var ecx := dvsrHi;
    ebx := dvsrLo;
    edx, eax := dvndHi, dvndLo;
    k, x, ra, rd := 0, dvsrLo, 0, 0;
    Pow2Values();
    while true
      invariant ecx > 0 && (k == 0 || edx < HALF)
      invariant Shifted(Wide(dvndHi, dvndLo), k, Wide(edx, eax), ra)
      invariant Normalizing(dvsrHi, dvsrLo, k, Wide(ecx, ebx), x, rd)
      decreases ecx
    {
      StillShifting(dvsrHi, dvsrLo, k, Wide(ecx, ebx), x, rd);
      NormalizeOn(dvsrHi, dvsrLo, k, Wide(ecx, ebx), x, rd);
      ShiftOn(Wide(dvndHi, dvndLo), k, Wide(edx, eax), ra);
      ra, rd := ra + (Wide(edx, eax) % 2) * Pow2(k), rd + (x % 2) * Pow2(k);
      k, x := k + 1, x / 2;
      ecx, ebx := ShiftRight(ecx, ebx);
      edx, eax := ShiftRight(edx, eax);
      if ecx == 0 {
        break;
      }
    }
  }

  /** Estimate times divisor; a carry means that the product has more than 64 bits. */
  method MultiplyLong(esi: Register, dvsrLo: Register, dvsrHi: Register)
    returns (eax: Register, edx: Register, carry: bool)
    requires esi * dvsrHi < WORD
    ensures Bit(carry) * WORD * WORD + Wide(edx, eax) == esi * Wide(dvsrHi, dvsrLo)
  {
    ghost var high, low := esi * dvsrHi, esi * dvsrLo;
    eax := esi;
    edx, eax := Mul(eax, dvsrHi);
    OneWord(high, edx, eax);
    var ecx := eax;
    eax := dvsrLo;
    edx, eax := Mul(eax, esi);
    edx, carry := Add(edx, ecx);
    Halves(dvsrHi, dvsrLo, esi);
  }

  /** Where the product exceeds the dividend, the estimate was one too many. */
  method Correct(estimate: Register, eax0: Register, edx0: Register, carry: bool,
                 dvndLo: Register, dvndHi: Register, dvsrLo: Register, dvsrHi: Register, ghost product: nat)
    returns (eax: Register, edx: Register, esi: Register)
    requires product == Bit(carry) * WORD * WORD + Wide(edx0, eax0)
    requires product < Wide(dvndHi, dvndLo) + Wide(dvsrHi, dvsrLo) && (estimate == 0 ==> product == 0)
    requires estimate > 0 ==> product >= Wide(dvsrHi, dvsrLo)
    ensures product > Wide(dvndHi, dvndLo) ==>
      esi == estimate - 1 && Wide(edx, eax) == product - Wide(dvsrHi, dvsrLo)
    ensures product <= Wide(dvndHi, dvndLo) ==> esi == estimate && Wide(edx, eax) == product
  {
    eax, edx, esi := eax0, edx0, estimate;
    var subtract := true;
    if !carry {
      if edx < dvndHi {
        subtract := false;
      } else if edx == dvndHi {
        if eax <= dvndLo {
          subtract := false;
        }
      }
    }
    assert subtract <==> product > Wide(dvndHi, dvndLo);
    if subtract {
      var borrow;
      esi := esi - 1;
      eax, borrow := Sbb(eax, dvsrLo, false);
      edx, borrow := Sbb(edx, dvsrHi, borrow);
    }
  }

  /** The product of the true quotient with the divisor. */
  method MultiplyAndCorrect(estimate: Register, dvndLo: Register, dvndHi: Register, dvsrLo: Register, dvsrHi: Register)
    returns (eax: Register, edx: Register, esi: Register)
    requires var a, d := Wide(dvndHi, dvndLo), Wide(dvsrHi, dvsrLo);
      estimate * d < a + d && a < (estimate + 1) * d && estimate * dvsrHi < WORD
    ensures Wide(edx, eax) == esi * Wide(dvsrHi, dvsrLo)
    ensures Wide(dvndHi, dvndLo) - Wide(dvsrHi, dvsrLo) < Wide(edx, eax) <= Wide(dvndHi, dvndLo)
  {
    ghost var d := Wide(dvsrHi, dvsrLo);
    var carry;
    eax, edx, carry := MultiplyLong(estimate, dvsrLo, dvsrHi);
    if estimate > 0 {
      Larger(1, estimate, d);
    }
    OneMore(estimate, d);
    eax, edx, esi := Correct(estimate, eax, edx, carry, dvndLo, dvndHi, dvsrLo, dvsrHi, estimate * d);
  }

  lemma OneMore(q: nat, d: nat)
    ensures (q + 1) * d == q * d + d && (q > 0 ==> (q - 1) * d == q * d - d)
  {
  }

  lemma HighProductFits(a: nat, p: nat, divisor: nat, q: nat, dvsrHi: nat)
    requires q * (p * divisor) <= a < WORD * WORD && dvsrHi * WORD <= p * divisor
    ensures q * dvsrHi < WORD
  {
    Larger(dvsrHi * WORD, p * divisor, q);
    assert q * dvsrHi * WORD == dvsrHi * WORD * q;
  }

  lemma GoodEstimate(dvndLo: Register, dvndHi: Register, dvsrLo: Register, dvsrHi: Register, k: nat,
                     dividend: nat, ra: nat, divisor: nat, x: nat, rd: nat, q: nat, rest: nat)
    requires k >= 1 && HALF <= divisor
    requires Shifted(Wide(dvndHi, dvndLo), k, dividend, ra) && Normalizing(dvsrHi, dvsrLo, k, divisor, x, rd)
    requires dividend == q * divisor + rest && rest < divisor
    ensures var a, d := Wide(dvndHi, dvndLo), Wide(dvsrHi, dvsrLo);
      q * d < a + d && a < (q + 1) * d && q * dvsrHi < WORD
  {
    DivisorBounds(dvsrHi, dvsrLo, k, divisor, x, rd);
    var a, d, p := Wide(dvndHi, dvndLo), Wide(dvsrHi, dvsrLo), Pow2(k);
    Estimate(a, d, p, dividend, ra, divisor, rd, q, rest);
    HighProductFits(a, p, divisor, q, dvsrHi);
  }

  /** Divisors of at least 2^32: one division by the leading 32 bits of the divisor. */
  method DivideLong(dvndLo: Register, dvndHi: Register, dvsrLo: Register, dvsrHi: Register)
    returns (eax: Register, ebx: Register, edx: Register, esi: Register)
    requires dvsrHi > 0
    ensures Wide(edx, eax) == Wide(ebx, esi) * Wide(dvsrHi, dvsrLo)
    ensures Wide(dvndHi, dvndLo) - Wide(dvsrHi, dvsrLo) < Wide(edx, eax) <= Wide(dvndHi, dvndLo)
  {
    ghost var k, x, ra, rd;
    ebx, eax, edx, k, x, ra, rd := Normalize(dvndLo, dvndHi, dvsrLo, dvsrHi);
    ghost var dividend := Wide(edx, eax);
    eax, edx := Div(edx, eax, ebx);
    GoodEstimate(dvndLo, dvndHi, dvsrLo, dvsrHi, k, dividend, ra, ebx, x, rd, eax, edx);
    eax, edx, esi := MultiplyAndCorrect(eax, dvndLo, dvndHi, dvsrLo, dvsrHi);
    ebx := 0;
  }

  /** _aulldvrm: the quotient in edx:eax, the remainder in ebx:ecx. */
  method Aulldvrm(dvndLo: Register, dvndHi: Register, dvsrLo: Register, dvsrHi: Register)
    returns (eax: Register, ebx: Register, ecx: Register, edx: Register)
    requires Wide(dvsrHi, dvsrLo) > 0
    ensures Wide(edx, eax) == Wide(dvndHi, dvndLo) / Wide(dvsrHi, dvsrLo)
    ensures Wide(ebx, ecx) == Wide(dvndHi, dvndLo) % Wide(dvsrHi, dvsrLo)
  {
    var esi;
    if dvsrHi == 0 {
      eax, ebx, edx, esi := DivideShort(dvndLo, dvndHi, dvsrLo);
    } else {
      eax, ebx, edx, esi := DivideLong(dvndLo, dvndHi, dvsrLo, dvsrHi);
    }
    eax, edx := Remainder(eax, edx, dvndLo, dvndHi);
    Unique(Wide(dvndHi, dvndLo), Wide(dvsrHi, dvsrLo), Wide(ebx, esi), Wide(edx, eax));
    ecx := edx;
    edx := ebx;
    ebx := ecx;
    ecx := eax;
    eax := esi;
  }
}
