/** Flooring division, and how it is reached from the truncating divide instructions. */
module Division {
  import opened Words

  lemma Euclid(a: int, b: int)
    requires b != 0
    ensures a == b * (a / b) + a % b
    ensures 0 <= a % b < (if b > 0 then b else -b)
  {}

  /** The dividend is restored, and the remainder is zero or lies between zero and the divisor. */
  lemma FloorIsExact(a: int, b: int)
    requires b != 0
    ensures a == FloorDiv(a, b) * b + FloorMod(a, b)
    ensures b > 0 ==> 0 <= FloorMod(a, b) < b
    ensures b < 0 ==> b < FloorMod(a, b) <= 0
  {
    Euclid(a, b);
    if b < 0 && a % b != 0 {
      assert b * (a / b - 1) == b * (a / b) - b;
    }
  }

  lemma TruncIsExact(a: int, b: int)
    requires b != 0
    ensures a == TruncDiv(a, b) * b + TruncMod(a, b)
    ensures a >= 0 ==> 0 <= TruncMod(a, b) < (if b > 0 then b else -b)
    ensures a <= 0 ==> -(if b > 0 then b else -b) < TruncMod(a, b) <= 0
  {
    Euclid(a, b);
    Euclid(-a, b);
    if a < 0 {
      var q := (-a) / b;
      assert b * (-q) == -(b * q);
    }
  }

  function Abs(n: int): nat {
    if n < 0 then -n else n
  }

  lemma AbsProduct(k: int, b: int)
    ensures Abs(k * b) == Abs(k) * Abs(b)
  {
    if k < 0 && b < 0 {
      assert k * b == (-k) * (-b);
    } else if k < 0 {
      assert k * b == -((-k) * b);
    } else if b < 0 {
      assert k * b == -(k * (-b));
    }
  }

  lemma AtLeast(x: nat, y: nat, low: nat)
    requires low <= y
    ensures x * y >= x * low
  {}

  lemma NonzeroMultiple(k: int, b: int)
    requires k != 0 && b != 0
    ensures Abs(k * b) >= Abs(b) && Abs(k * b) >= Abs(k)
  {
    AbsProduct(k, b);
    AtLeast(Abs(k), Abs(b), 1);
    AtLeast(Abs(b), Abs(k), 1);
  }

  lemma DoublingMultiple(k: int, b: int)
    requires Abs(b) >= 2
    ensures Abs(k * b) >= 2 * Abs(k)
  {
    AbsProduct(k, b);
    AtLeast(Abs(k), Abs(b), 2);
  }

  /** Quotient and remainder are determined by those two facts. */
  lemma QuotientUnique(b: int, q: int, r: int, q': int, r': int)
    requires b != 0
    requires q * b + r == q' * b + r'
    requires Abs(r - r') < Abs(b)
    ensures q == q' && r == r'
  {
    assert (q' - q) * b == r - r';
    if q != q' {
      NonzeroMultiple(q' - q, b);
      assert false;
    }
  }

  lemma FloorUnique(a: int, b: int, q: int, r: int)
    requires b != 0 && a == q * b + r
    requires if b > 0 then 0 <= r < b else b < r <= 0
    ensures q == FloorDiv(a, b) && r == FloorMod(a, b)
  {
    FloorIsExact(a, b);
    QuotientUnique(b, q, r, FloorDiv(a, b), FloorMod(a, b));
  }

  /**
   From truncating to flooring results. They agree when the remainder is zero
   or has the sign of b; otherwise FloorDiv is TruncDiv less one, and FloorMod
   is TruncMod plus b.
   */
  lemma CorrectionFloors(a: int, b: int)
    requires b != 0
    ensures var q, r := TruncDiv(a, b), TruncMod(a, b);
      if r == 0 || (r < 0 <==> b < 0)
      then FloorDiv(a, b) == q && FloorMod(a, b) == r
      else FloorDiv(a, b) == q - 1 && FloorMod(a, b) == r + b
  {
    TruncIsExact(a, b);
    var q, r := TruncDiv(a, b), TruncMod(a, b);
    if r == 0 || (r < 0 <==> b < 0) {
      FloorUnique(a, b, q, r);
    } else {
      assert (q - 1) * b == q * b - b;
      FloorUnique(a, b, q - 1, r + b);
    }
  }

  lemma QuotientFits(a: int, b: int, q: int, r: int)
    requires Fits(a) && a == q * b + r && Abs(b) >= 2 && Abs(r) < Abs(b)
    requires r != 0 ==> (r > 0 <==> a > 0) || (r > 0 <==> b > 0)
    ensures Fits(q)
  {
    DoublingMultiple(q, b);
    assert 2 * Abs(q) <= Abs(a) + Abs(b);
    if Abs(b) > Abs(a) && q != 0 {
      NonzeroMultiple(q, b);
    }
    if Abs(b) > Abs(a) && Abs(q) >= 2 {
      DoublingMultiple(b, q);
    }
  }

  /** The truncated and the floored quotient by anything but zero and minus one fit. */
  lemma QuotientBound(a: int, b: int)
    requires Fits(a) && b != 0 && b != -1
    ensures Fits(TruncDiv(a, b)) && Fits(FloorDiv(a, b))
  {
    TruncIsExact(a, b);
    FloorIsExact(a, b);
    if b != 1 {
      QuotientFits(a, b, TruncDiv(a, b), TruncMod(a, b));
      QuotientFits(a, b, FloorDiv(a, b), FloorMod(a, b));
    } else {
      FloorUnique(a, 1, a, 0);
      QuotientUnique(1, TruncDiv(a, 1), TruncMod(a, 1), a, 0);
    }
  }

  lemma FloorByMinusOne(a: int)
    ensures FloorDiv(a, -1) == -a && FloorMod(a, -1) == 0
  {
    FloorUnique(a, -1, -a, 0);
  }

  lemma RemainderFits(a: int, b: int)
    requires b != 0 && Fits(b)
    ensures Fits(FloorMod(a, b))
  {
    FloorIsExact(a, b);
  }

  lemma TruncRemainderFits(a: int, b: int)
    requires b != 0 && Fits(b)
    ensures Fits(TruncMod(a, b))
  {
    TruncIsExact(a, b);
  }

  /** The quotient overflows in exactly one case. */
  lemma QuotientOverflow(a: int, b: int)
    requires b != 0 && Fits(a)
    ensures Fits(FloorDiv(a, b)) <==> !(a == MIN64 && b == -1)
  {
    if b == -1 {
      FloorByMinusOne(a);
    } else {
      QuotientBound(a, b);
    }
  }

  /**
   AArch64 compares the high half of the 128-bit product with the sign of the
   low half; the two agree exactly when the product fits.
   */
  lemma HighHalfTest(product: int)
    ensures Fits(product) <==> product / TWO64 == (if Wrap(product) < 0 then -1 else 0)
  {}
}
