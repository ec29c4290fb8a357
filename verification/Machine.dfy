/**
 Saturating unsigned 128-bit arithmetic.
 */
module Machine {

  const U128_MAX: nat := 0xFFFF_FFFF_FFFF_FFFF_FFFF_FFFF_FFFF_FFFF

  type U128 = n: nat | n <= U128_MAX

  function Min(a: int, b: int): int {
    if a <= b then a else b
  }

  /** The saturated value of a natural number. */
  function Sat(a: nat): nat {
    Min(a, U128_MAX)
  }

  function SatAdd(a: nat, b: nat): nat {
    Sat(a + b)
  }

  function SatSub(a: nat, b: nat): nat {
    if a < b then 0 else a - b
  }

  function SatMul(a: nat, b: nat): (r: nat)
    ensures a <= U128_MAX && b <= 1 ==> r == a * b
  {
    MulNonNegative(a, b);
    Sat(a * b)
  }

  lemma Distribute(a: int, b: int, c: int)
    ensures (a + b) * c == a * c + b * c && c * (a + b) == c * a + c * b
  {
  }

  lemma MulNonNegative(a: nat, b: nat)
    ensures a * b >= 0
  {
  }

  lemma MulMonotone(a: int, b: int, c: nat)
    requires a <= b
    ensures a * c <= b * c && c * a <= c * b
  {
  }

  /** Saturating the factors first does not change a saturated product. */
  lemma SatOfProduct(a: nat, b: nat)
    ensures a * b >= 0
    ensures SatMul(Sat(a), Sat(b)) == Sat(a * b)
  {
  }

  function Quotient(n: nat, d: nat): (q: nat)
    requires d > 0
    ensures q == n / d
  {
    n / d
  }

  lemma DivBounds(a: nat, b: nat)
    requires b > 0
    ensures a / b * b <= a < a / b * b + b
  {
  }

  /** A quotient is the only integer that brackets the dividend. */
  lemma DivUnique(a: nat, b: nat, q: nat)
    requires b > 0 && q * b <= a < q * b + b
    ensures a / b == q
  {
    DivBounds(a, b);
    var d := a / b;
    if d < q {
      MulMonotone(d + 1, q, b);
    } else if d > q {
      MulMonotone(q + 1, d, b);
    }
  }

  lemma DivMonotone(a: nat, b: nat, c: nat)
    requires a <= b && c > 0
    ensures a / c <= b / c
  {
    DivBounds(a, c);
    DivBounds(b, c);
    if a / c > b / c {
      MulMonotone(b / c + 1, a / c, c);
    }
  }
}
