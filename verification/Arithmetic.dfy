/**
 Powers, powers of two, and arithmetic modulo the transform's prime.
 */
module Arithmetic {

  /** The transform's modulus, 119 * 2^23 + 1. */
  const MODULUS: int := 998_244_353

  function Pow(b: int, e: nat): int {
    if e == 0 then 1 else b * Pow(b, e - 1)
  }

  function Two(k: nat): (n: nat)
    ensures n > 0
  {
    if k == 0 then 1 else 2 * Two(k - 1)
  }

  ghost predicate IsPowerOfTwo(n: nat) {
    exists k: nat :: n == Two(k)
  }

  /** Congruence modulo MODULUS. */
  ghost predicate Cong(a: int, b: int) {
    a % MODULUS == b % MODULUS
  }

  // ----- powers -----

  lemma {:induction false} PowAdds(b: int, e: nat, f: nat)
    ensures Pow(b, e + f) == Pow(b, e) * Pow(b, f)
  {
    if e == 0 {
    } else {
      PowAdds(b, e - 1, f);
      assert Pow(b, e + f) == b * (Pow(b, e - 1) * Pow(b, f));
    }
  }

  lemma {:induction false} PowMultiplies(b: int, e: nat, f: nat)
    ensures e * f >= 0
    ensures Pow(Pow(b, e), f) == Pow(b, e * f)
  {
    if f == 0 {
    } else {
      PowMultiplies(b, e, f - 1);
      assert e * f == e + e * (f - 1);
      PowAdds(b, e, e * (f - 1));
    }
  }

  lemma {:induction false} PowDistributes(a: int, b: int, e: nat)
    ensures Pow(a * b, e) == Pow(a, e) * Pow(b, e)
  {
    if e == 0 {
    } else {
      PowDistributes(a, b, e - 1);
      MulShuffle(a, b, Pow(a, e - 1), Pow(b, e - 1));
    }
  }

  lemma MulShuffle(a: int, b: int, c: int, d: int)
    ensures (a * b) * (c * d) == (a * c) * (b * d)
  {
  }

  lemma {:induction false} PowOfSquare(b: int, e: nat)
    ensures Pow(b * b, e) == Pow(b, 2 * e)
  {
    assert Pow(b, 2) == b * Pow(b, 1) == b * b;
    PowMultiplies(b, 2, e);
  }

  lemma PowHalf(b: int, e: nat)
    requires e > 0
    ensures Pow(b, e) == (if e % 2 == 1 then b * Pow(b * b, e / 2) else Pow(b * b, e / 2))
  {
    PowOfSquare(b, e / 2);
  }

  /** One step of square-and-multiply keeps the product that is being computed. */
  lemma PowHalves(r: int, b: int, e: nat)
    requires e > 0
    ensures r * Pow(b, e) == (if e % 2 == 1 then r * b else r) * Pow(b * b, e / 2)
  {
    hide Pow;
    PowHalf(b, e);
    MulAssociates(r, b, Pow(b * b, e / 2));
  }

  lemma MulAssociates(a: int, b: int, c: int)
    ensures a * (b * c) == (a * b) * c
  {
  }

  lemma {:induction false} PowOne(e: nat)
    ensures Pow(1, e) == 1
  {
    if e == 0 {
    } else {
      PowOne(e - 1);
    }
  }

  lemma {:induction false} TwoAdds(a: nat, b: nat)
    ensures Two(a + b) == Two(a) * Two(b)
  {
    if a == 0 {
    } else {
      TwoAdds(a - 1, b);
      assert Two(a + b) == 2 * (Two(a - 1) * Two(b));
    }
  }

  lemma {:induction false} TwoIsPow(k: nat)
    ensures Two(k) == Pow(2, k)
  {
    if k == 0 {
    } else {
      TwoIsPow(k - 1);
    }
  }

  lemma {:induction false} TwoGrows(a: nat, b: nat)
    requires a < b
    ensures 2 * Two(a) <= Two(b)
  {
    if a + 1 == b {
    } else {
      TwoGrows(a, b - 1);
    }
  }

  // ----- congruence -----

  lemma MulExpand(m: int, a: int, p: int, b: int, q: int)
    ensures (a + m * p) * (b + m * q) == a * b + m * (a * q + p * b + p * (m * q))
  {
  }

  lemma CongMul(a: int, a': int, b: int, b': int)
    requires Cong(a, a') && Cong(b, b')
    ensures Cong(a * b, a' * b')
  {
    var p := (a - a') / MODULUS;
    var q := (b - b') / MODULUS;
    MulExpand(MODULUS, a', p, b', q);
    var k := a' * q + p * b' + p * (MODULUS * q);
    assert a == a' + MODULUS * p && b == b' + MODULUS * q;
    assert a * b == a' * b' + MODULUS * k;
    CongShift(a' * b', k);
  }

  lemma CongShift(x: int, k: int)
    ensures Cong(x + MODULUS * k, x)
  {
  }

  lemma CongMod(a: int)
    ensures Cong(a % MODULUS, a)
  {
  }

  lemma CongRefl(a: int)
    ensures Cong(a, a)
  {
  }

  lemma CongVia(a: int, b: int, c: int)
    requires Cong(a, b) && Cong(c, b)
    ensures Cong(a, c)
  {
  }

  lemma CongChain(a: int, b: int, c: int)
    requires Cong(a, b) && Cong(b, c)
    ensures Cong(a, c)
  {
  }

  lemma CongAdd(a: int, a': int, b: int, b': int)
    requires Cong(a, a') && Cong(b, b')
    ensures Cong(a + b, a' + b')
    ensures Cong(a - b, a' - b')
  {
    var p := (a - a') / MODULUS;
    var q := (b - b') / MODULUS;
    assert a == a' + MODULUS * p && b == b' + MODULUS * q;
    CongShift(a' + b', p + q);
    CongShift(a' - b', p - q);
  }

  lemma CongFlip(a: int)
    requires Cong(-a, 1)
    ensures Cong(a, -1)
  {
  }

  lemma {:induction false} CongPow(a: int, a': int, e: nat)
    requires Cong(a, a')
    ensures Cong(Pow(a, e), Pow(a', e))
  {
    if e == 0 {
    } else {
      CongPow(a, a', e - 1);
      CongMul(a, a', Pow(a, e - 1), Pow(a', e - 1));
    }
  }

  // ----- the two powers the transform rests on, by squaring chains -----

  lemma PowSquare(b: int, e: nat, v: int, v': int) returns (e': nat)
    requires Cong(Pow(b, e), v) && v * v % MODULUS == v'
    ensures e' == 2 * e && Cong(Pow(b, e'), v')
  {
    e' := 2 * e;
    PowAdds(b, e, e);
    CongMul(Pow(b, e), v, Pow(b, e), v);
  }

  lemma PowSucc(b: int, e: nat, v: int, v': int) returns (e': nat)
    requires Cong(Pow(b, e), v) && b * v % MODULUS == v'
    ensures e' == e + 1 && Cong(Pow(b, e'), v')
  {
    e' := e + 1;
    CongMul(b, b, Pow(b, e), v);
  }

  lemma ThreeTo119(one: nat) returns (e: nat)
    requires one == 1
    ensures e == 119 && Cong(Pow(3, e), 15311432)
  {
    assert Pow(3, one) == 3 * Pow(3, one - 1);
    e := one;
    e := PowSquare(3, e, 3, 9);
    e := PowSucc(3, e, 9, 27);
    e := PowSquare(3, e, 27, 729);
    e := PowSucc(3, e, 729, 2187);
    e := PowSquare(3, e, 2187, 4782969);
    e := PowSquare(3, e, 4782969, 26617260);
    e := PowSucc(3, e, 26617260, 79851780);
    e := PowSquare(3, e, 79851780, 1249487);
    e := PowSucc(3, e, 1249487, 3748461);
    e := PowSquare(3, e, 3748461, 670600046);
    e := PowSucc(3, e, 670600046, 15311432);
  }

  lemma TwoTo119(one: nat) returns (e: nat)
    requires one == 1
    ensures e == 119 && Cong(Pow(2, e), 749268343)
  {
    assert Pow(2, one) == 2 * Pow(2, one - 1);
    e := one;
    e := PowSquare(2, e, 2, 4);
    e := PowSucc(2, e, 4, 8);
    e := PowSquare(2, e, 8, 64);
    e := PowSucc(2, e, 64, 128);
    e := PowSquare(2, e, 128, 16384);
    e := PowSquare(2, e, 16384, 268435456);
    e := PowSucc(2, e, 268435456, 536870912);
    e := PowSquare(2, e, 536870912, 919222256);
    e := PowSucc(2, e, 919222256, 840200159);
    e := PowSquare(2, e, 840200159, 873756348);
    e := PowSucc(2, e, 873756348, 749268343);
  }

  /** 3 is a quadratic non-residue: 3^((MODULUS-1)/2) is -1. */
  lemma ThreeHalfOrder(exponent: nat)
    requires 2 * exponent == MODULUS - 1
    ensures Cong(Pow(3, exponent), 998244352)
  {
    hide Pow;
    hide Cong;
    var e := ThreeTo119(1);
    e := PowSquare(3, e, 15311432, 267099868);
    e := PowSquare(3, e, 267099868, 733596141);
    e := PowSquare(3, e, 733596141, 565042129);
    e := PowSquare(3, e, 565042129, 363395222);
    e := PowSquare(3, e, 363395222, 996173970);
    e := PowSquare(3, e, 996173970, 24514907);
    e := PowSquare(3, e, 24514907, 629671588);
    e := PowSquare(3, e, 629671588, 968855178);
    e := PowSquare(3, e, 968855178, 666702199);
    e := PowSquare(3, e, 666702199, 350007156);
    e := PowSquare(3, e, 350007156, 63912897);
    e := PowSquare(3, e, 63912897, 584193783);
    e := PowSquare(3, e, 584193783, 258648936);
    e := PowSquare(3, e, 258648936, 166035806);
    e := PowSquare(3, e, 166035806, 476477967);
    e := PowSquare(3, e, 476477967, 781712469);
    e := PowSquare(3, e, 781712469, 922799308);
    e := PowSquare(3, e, 922799308, 452798380);
    e := PowSquare(3, e, 452798380, 929031873);
    e := PowSquare(3, e, 929031873, 372528824);
    e := PowSquare(3, e, 372528824, 911660635);
    e := PowSquare(3, e, 911660635, 998244352);
  }

  /** 2^((MODULUS-1)/2) is 1. */
  lemma TwoHalfOrder(exponent: nat)
    requires 2 * exponent == MODULUS - 1
    ensures Cong(Pow(2, exponent), 1)
  {
    hide Pow;
    hide Cong;
    var e := TwoTo119(1);
    e := PowSquare(2, e, 749268343, 854599625);
    e := PowSquare(2, e, 854599625, 275981743);
    e := PowSquare(2, e, 275981743, 121229115);
    e := PowSquare(2, e, 121229115, 564515440);
    e := PowSquare(2, e, 564515440, 500482297);
    e := PowSquare(2, e, 500482297, 929671676);
    e := PowSquare(2, e, 929671676, 972782536);
    e := PowSquare(2, e, 972782536, 319351757);
    e := PowSquare(2, e, 319351757, 216733819);
    e := PowSquare(2, e, 216733819, 307971575);
    e := PowSquare(2, e, 307971575, 823085725);
    e := PowSquare(2, e, 823085725, 900830825);
    e := PowSquare(2, e, 900830825, 765263132);
    e := PowSquare(2, e, 765263132, 896052152);
    e := PowSquare(2, e, 896052152, 842947365);
    e := PowSquare(2, e, 842947365, 158463934);
    e := PowSquare(2, e, 158463934, 645684063);
    e := PowSquare(2, e, 645684063, 624949902);
    e := PowSquare(2, e, 624949902, 625715529);
    e := PowSquare(2, e, 625715529, 911660635);
    e := PowSquare(2, e, 911660635, 998244352);
    e := PowSquare(2, e, 998244352, 1);
  }
}
