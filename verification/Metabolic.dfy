/**
 Metabolic decay: saturating exponentiation, the decay of one balance, and
 streams that burn along the closed-form curve.
 */
module Metabolic {
  import opened Arithmetic
  import opened Machine

  const DECAY_DENOMINATOR: nat := 1_000_000
  const DEFAULT_DEX_LAMBDA_PPM: nat := 20
  const BASIS_POINTS_DENOMINATOR: nat := 10_000
  const METABOLIC_IDLE_GRACE_TICKS: nat := 14_400
  const METABOLIC_BURN_BP: nat := 2_500

  // ----- exponentiation -----

  lemma {:induction false} PowNonNegative(b: nat, e: nat)
    ensures Arithmetic.Pow(b, e) >= 0
    ensures b > 0 ==> Arithmetic.Pow(b, e) > 0
  {
    if e == 0 {
    } else {
      PowNonNegative(b, e - 1);
    }
  }

  /** What saturating square-and-multiply is worth. */
  function SatPow(b: nat, e: nat): (r: nat)
    ensures r <= U128_MAX
    ensures b > 0 ==> r > 0
  {
    PowNonNegative(b, e);
    Sat(Arithmetic.Pow(b, e))
  }

  method Pow(b: nat, e: nat) returns (acc: nat)
    requires b <= U128_MAX
    ensures acc == Min(Arithmetic.Pow(b, e), U128_MAX)
  {
    acc := 1;
    var base, exp: nat := b, e;
    // The exact values behind the two saturated variables.
    ghost var a: nat, c: nat := 1, b;
    while exp > 0
      invariant acc == Sat(a)
      invariant exp > 0 ==> base == Sat(c)
      invariant a * Arithmetic.Pow(c, exp) == Arithmetic.Pow(b, e)
    {
      SquareStep(a, c, exp);
      if exp % 2 == 1 {
        SatOfProduct(a, c);
        acc := SatMul(acc, base);
        a := a * c;
      }
      exp := exp / 2;
      if exp > 0 {
        SatOfProduct(c, c);
        base := SatMul(base, base);
      }
      c := c * c;
    }
    assert a * Arithmetic.Pow(c, 0) == a;
  }

  lemma SquareStep(a: nat, c: nat, e: nat)
    requires e > 0
    ensures a * c >= 0 && c * c >= 0
    ensures a * Arithmetic.Pow(c, e) == (if e % 2 == 1 then a * c else a) * Arithmetic.Pow(c * c, e / 2)
  {
    PowHalves(a, c, e);
    MulNonNegative(a, c);
    MulNonNegative(c, c);
  }

  // ----- decay of one balance -----

  function Retain(ratePpm: nat): (r: nat)
    ensures 1 <= r <= DECAY_DENOMINATOR
  {
    DECAY_DENOMINATOR - Min(ratePpm, DECAY_DENOMINATOR - 1)
  }

  /** A tick retains what the rate leaves of a million; rates from a million up still retain one part. */
  lemma RetainMeans(ratePpm: nat)
    ensures ratePpm < 1_000_000 ==> Retain(ratePpm) + ratePpm == 1_000_000
    ensures ratePpm >= 1_000_000 ==> Retain(ratePpm) == 1
  {
  }

  /** The balance left after `elapsed` ticks, as the code computes it. */
  function Decayed(balance: nat, ratePpm: nat, elapsed: nat): (r: nat) {
    if balance == 0 || elapsed == 0 then balance
    else
      Quotient(SatMul(balance, SatPow(Retain(ratePpm), elapsed)), SatPow(DECAY_DENOMINATOR, elapsed))
  }

  method DecayedBalance(balance: nat, ratePpm: nat, elapsed: nat) returns (r: nat)
    requires balance <= U128_MAX
    ensures r == Decayed(balance, ratePpm, elapsed)
  {
    if balance == 0 || elapsed == 0 {
      return balance;
    }
    var rate := Min(ratePpm, DECAY_DENOMINATOR - 1);
    var numerator := Pow(DECAY_DENOMINATOR - rate, elapsed);
    var denominator := Pow(DECAY_DENOMINATOR, elapsed);
    PowNonNegative(DECAY_DENOMINATOR, elapsed);
    r := SatMul(balance, numerator) / denominator;
  }

  lemma {:induction false} PowMonotone(a: nat, b: nat, e: nat)
    requires a <= b
    ensures 0 <= Arithmetic.Pow(a, e) <= Arithmetic.Pow(b, e)
  {
    PowNonNegative(a, e);
    PowNonNegative(b, e);
    if e == 0 {
    } else {
      PowMonotone(a, b, e - 1);
      PowNonNegative(a, e - 1);
      PowNonNegative(b, e - 1);
      MulMonotone(a, b, Arithmetic.Pow(a, e - 1));
      MulMonotone(Arithmetic.Pow(a, e - 1), Arithmetic.Pow(b, e - 1), b);
    }
  }

  /** Decay never creates value, whatever saturates. */
  lemma DecayedNeverGrows(balance: nat, ratePpm: nat, elapsed: nat)
    requires balance <= U128_MAX
    ensures Decayed(balance, ratePpm, elapsed) <= balance
  {
    if balance > 0 && elapsed > 0 {
      PowMonotone(Retain(ratePpm), DECAY_DENOMINATOR, elapsed);
      PowNonNegative(DECAY_DENOMINATOR, elapsed);
      var n, d := SatPow(Retain(ratePpm), elapsed), SatPow(DECAY_DENOMINATOR, elapsed);
      hide Arithmetic.Pow, SatPow;
      MulMonotone(n, d, balance);
      DivMonotone(SatMul(balance, n), balance * d, d);
      DivUnique(balance * d, d, balance);
    }
  }

  /** The documented curve: balance * retain^elapsed / 1_000_000^elapsed, rounded down. */
  ghost function ClosedForm(balance: nat, ratePpm: nat, elapsed: nat): nat {
    PowNonNegative(Retain(ratePpm), elapsed);
    PowNonNegative(DECAY_DENOMINATOR, elapsed);
    MulNonNegative(balance, Arithmetic.Pow(Retain(ratePpm), elapsed));
    balance * Arithmetic.Pow(Retain(ratePpm), elapsed) / Arithmetic.Pow(DECAY_DENOMINATOR, elapsed)
  }

  /** Some power of the denominator fits in 128 bits only up to the sixth. */
  lemma DenominatorFits(elapsed: nat)
    ensures Arithmetic.Pow(DECAY_DENOMINATOR, elapsed) <= U128_MAX <==> elapsed <= 6
  {
  }

  lemma LowRegime(b: nat, p: nat, d: nat)
    requires 0 < p <= d <= U128_MAX
    ensures b * p >= 0
    ensures SatMul(b, p) / d == b * p / d <==> b * p < (U128_MAX / d + 1) * d
  {
    MulNonNegative(b, p);
    var c, n := U128_MAX / d, b * p;
    DivBounds(U128_MAX, d);
    DivBounds(n, d);
    assert (c + 1) * d == c * d + d;
    if n > U128_MAX {
      if n < (c + 1) * d {
        DivUnique(n, d, c);
      } else if n / d == c {
        assert false;
      }
    }
  }

  lemma HighRegime(b: nat, p: nat, d: nat)
    requires 0 < b <= U128_MAX < d && 0 < p
    ensures b * p >= 0 && b * Sat(p) >= 0
    ensures SatMul(b, Sat(p)) / U128_MAX == b * p / d <==> b * Sat(p) < U128_MAX || d <= b * p < 2 * d
    ensures SatMul(b, Sat(p)) / U128_MAX == if b * Sat(p) < U128_MAX then 0 else 1
  {
    MulNonNegative(b, p);
    MulNonNegative(b, Sat(p));
    var n := b * p;
    DivBounds(n, d);
    if b * Sat(p) < U128_MAX {
      if p >= U128_MAX {
        MulMonotone(1, b, U128_MAX);
      }
      DivUnique(n, d, 0);
    } else if n < d {
      DivUnique(n, d, 0);
    } else if n < 2 * d {
      DivUnique(n, d, 1);
    } else if n / d == 1 {
      assert false;
    }
  }

  /**
   Exactly when the code's result lies on the documented curve.  Up to six ticks
   the product must not overshoot by a whole unit; from seven ticks on the
   denominator has saturated too, and the result can only be 0 or 1.
   */
  lemma DecayedIsClosedForm(balance: nat, ratePpm: nat, elapsed: nat)
    requires 0 < balance <= U128_MAX && elapsed > 0
    ensures var p, d := Arithmetic.Pow(Retain(ratePpm), elapsed), Arithmetic.Pow(DECAY_DENOMINATOR, elapsed);
            && d > 0
            && (Decayed(balance, ratePpm, elapsed) == ClosedForm(balance, ratePpm, elapsed) <==>
                if elapsed <= 6 then balance * p < (U128_MAX / d + 1) * d
                else balance * Min(p, U128_MAX) < U128_MAX || d <= balance * p < 2 * d)
            && (elapsed > 6 ==> Decayed(balance, ratePpm, elapsed) <= 1)
  {
    var r := Retain(ratePpm);
    PowMonotone(r, DECAY_DENOMINATOR, elapsed);
    PowNonNegative(r, elapsed);
    DenominatorFits(elapsed);
    var p, d := Arithmetic.Pow(r, elapsed), Arithmetic.Pow(DECAY_DENOMINATOR, elapsed);
    assert SatPow(r, elapsed) == Sat(p) && SatPow(DECAY_DENOMINATOR, elapsed) == Sat(d);
    hide Arithmetic.Pow, SatPow, Retain;
    if elapsed <= 6 {
      LowRegime(balance, p, d);
    } else {
      HighRegime(balance, p, d);
    }
  }

  /**
   At the default rate the curve is lost from the seventh elapsed tick on: both powers
   saturate, and a balance of any size is left with one sub-unit.
   */
  lemma DefaultRateCollapses(balance: nat, elapsed: nat)
    requires 0 < balance <= U128_MAX && elapsed >= 7
    ensures Decayed(balance, DEFAULT_DEX_LAMBDA_PPM, elapsed) == 1
  {
    var r := Retain(DEFAULT_DEX_LAMBDA_PPM);
    assert r == 999_980;
    DenominatorFits(elapsed);
    PowOverflows(elapsed - 7);
    var p, d := Arithmetic.Pow(r, elapsed), Arithmetic.Pow(DECAY_DENOMINATOR, elapsed);
    PowNonNegative(DECAY_DENOMINATOR, elapsed);
    hide Arithmetic.Pow;
    MulMonotone(1, balance, U128_MAX);
    HighRegime(balance, p, d);
  }

  lemma {:induction false} PowOverflows(e: nat)
    ensures Arithmetic.Pow(999_980, e + 7) >= U128_MAX
  {
    if e == 0 {
      assert Arithmetic.Pow(999_980, 7) >= U128_MAX;
    } else {
      PowOverflows(e - 1);
    }
  }

  // ----- decaying every tick against decaying once -----

  /** A balance decayed once per tick for n ticks. */
  function PerTick(balance: nat, ratePpm: nat, n: nat): nat {
    if n == 0 then balance else Decayed(PerTick(balance, ratePpm, n - 1), ratePpm, 1)
  }

  /** One unsaturated tick, as multiplication and flooring. */
  lemma OneTick(t: nat, ratePpm: nat)
    requires t * Retain(ratePpm) <= U128_MAX
    ensures t * Retain(ratePpm) >= 0
    ensures Decayed(t, ratePpm, 1) == t * Retain(ratePpm) / DECAY_DENOMINATOR
  {
    var r := Retain(ratePpm);
    assert Arithmetic.Pow(r, 1) == r && Arithmetic.Pow(DECAY_DENOMINATOR, 1) == DECAY_DENOMINATOR;
    MulNonNegative(t, r);
  }

  /** After n ticks the per-tick balance lies below the exact curve by less than n units. */
  lemma {:induction false} PerTickBrackets(balance: nat, ratePpm: nat, n: nat)
    requires balance * Retain(ratePpm) <= U128_MAX
    ensures var t, r, d := PerTick(balance, ratePpm, n), Retain(ratePpm), DECAY_DENOMINATOR;
            && t <= balance
            && t * Arithmetic.Pow(d, n) <= balance * Arithmetic.Pow(r, n)
            && balance * Arithmetic.Pow(r, n) <= (t + n) * Arithmetic.Pow(d, n)
            && (n > 0 ==> balance * Arithmetic.Pow(r, n) < (t + n) * Arithmetic.Pow(d, n))
  {
    if n == 0 {
    } else {
      var t, r, d := PerTick(balance, ratePpm, n - 1), Retain(ratePpm), DECAY_DENOMINATOR;
      PerTickBrackets(balance, ratePpm, n - 1);
      MulMonotone(t, balance, r);
      OneTick(t, ratePpm);
      var t' := PerTick(balance, ratePpm, n);
      assert t' == t * r / d;
      PowNonNegative(d, n - 1);
      PowNonNegative(r, n - 1);
      TickStep(balance, t, t', r, d, n - 1, Arithmetic.Pow(r, n - 1), Arithmetic.Pow(d, n - 1));
    }
  }

  /** One tick of the bracket: the floor loses less than one unit. */
  lemma TickStep(b: nat, t: nat, t': nat, r: nat, d: nat, n: nat, p: nat, q: nat)
    requires 0 < r <= d && q > 0 && t' == t * r / d && t <= b
    requires t * q <= b * p <= (t + n) * q
    ensures t' <= b
    ensures t' * (d * q) <= b * (r * p) < (t' + n + 1) * (d * q)
  {
    DivBounds(t * r, d);
    FloorShrinks(t, t', r, d);
    TickLower(b, t, t', r, d, p, q);
    TickUpper(b, t, t', r, d, n, p, q);
  }

  lemma FloorShrinks(t: nat, t': nat, r: nat, d: nat)
    requires 0 < r <= d && t' * d <= t * r
    ensures t' <= t
  {
    MulMonotone(r, d, t);
    if t' > t {
      MulMonotone(t + 1, t', d);
    }
  }

  lemma TickLower(b: nat, t: nat, t': nat, r: nat, d: nat, p: nat, q: nat)
    requires t' * d <= t * r && t * q <= b * p
    ensures t' * (d * q) <= b * (r * p)
  {
  }

  lemma TickUpper(b: nat, t: nat, t': nat, r: nat, d: nat, n: nat, p: nat, q: nat)
    requires r <= d && q > 0
    requires t * r < t' * d + d && b * p <= (t + n) * q
    ensures b * (r * p) < (t' + n + 1) * (d * q)
  {
    var u, v := (t + n) * r, (t' + n + 1) * d;
    TickNumerators(t, t', r, d, n);
    StrictProduct(u, v, q);
    MulMonotone(b * p, (t + n) * q, r);
    Reorder(b, p, r);
    Reorder(t + n, q, r);
    Reorder(t' + n + 1, d, q);
  }

  lemma TickNumerators(t: nat, t': nat, r: nat, d: nat, n: nat)
    requires r <= d && t * r < t' * d + d
    ensures (t + n) * r < (t' + n + 1) * d
  {
  }

  lemma StrictProduct(u: int, v: int, q: nat)
    requires u < v && q > 0
    ensures u * q < v * q
  {
  }

  lemma Reorder(a: int, b: int, c: int)
    ensures (a * b) * c == (a * c) * b == a * (c * b) == a * (b * c)
  {
  }

  /** Decaying once per tick never exceeds one closed-form decay and falls short of it by at most n - 1. */
  lemma PerTickRounding(balance: nat, ratePpm: nat, n: nat)
    requires 1 <= n <= 6 && balance * Arithmetic.Pow(Retain(ratePpm), n) <= U128_MAX
    ensures PerTick(balance, ratePpm, n) <= Decayed(balance, ratePpm, n) <= PerTick(balance, ratePpm, n) + n - 1
  {
    var r := Retain(ratePpm);
    var p, d := Arithmetic.Pow(r, n), Arithmetic.Pow(DECAY_DENOMINATOR, n);
    PowNonNegative(r, n - 1);
    MulMonotone(1, Arithmetic.Pow(r, n - 1), r);
    MulMonotone(r, p, balance);
    PerTickBrackets(balance, ratePpm, n);
    DenominatorFits(n);
    PowMonotone(r, DECAY_DENOMINATOR, n);
    PowNonNegative(DECAY_DENOMINATOR, n);
    PowNonNegative(r, n);
    if balance > 0 {
      MulMonotone(1, balance, p);
      assert SatPow(r, n) == p && SatPow(DECAY_DENOMINATOR, n) == d;
      hide Arithmetic.Pow, SatPow, Retain;
      RoundingFromBracket(balance * p, d, PerTick(balance, ratePpm, n), n);
    }
  }

  lemma RoundingFromBracket(a: nat, d: nat, t: nat, n: nat)
    requires d > 0 && t * d <= a < (t + n) * d
    ensures t <= a / d <= t + n - 1
  {
    DivBounds(a, d);
    if a / d < t {
      MulMonotone(a / d + 1, t, d);
    }
    if a / d > t + n - 1 {
      MulMonotone(t + n, a / d, d);
    }
  }
}
