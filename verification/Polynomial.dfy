/**
 The discrete Fourier transform as a sum, as polynomial evaluation, and as a
 recursion on even and odd coefficients.  All of it is about values; the
 in-place loops are in module Ntt.
 */
module Polynomial {
  import opened Arithmetic

  /** Every entry is a canonical residue. */
  ghost predicate Canonical(x: seq<int>) {
    forall i :: 0 <= i < |x| ==> 0 <= x[i] < MODULUS
  }

  // ----- the naive transform -----

  /** Sum of x[i] * w^(i*k) for i < j. */
  ghost function PartialDft(x: seq<int>, w: int, k: nat, j: nat): int
    requires j <= |x|
  {
    if j == 0 then 0
    else
      PartialDft(x, w, k, j - 1) + x[j - 1] * Pow(w, (j - 1) * k)
  }

  ghost function Dft(x: seq<int>, w: int, k: nat): int {
    PartialDft(x, w, k, |x|) % MODULUS
  }

  // ----- polynomial evaluation -----

  ghost function Eval(x: seq<int>, z: int): int {
    if |x| == 0 then 0 else x[0] + z * Eval(x[1..], z)
  }

  ghost function Evens(x: seq<int>): (r: seq<int>)
    ensures |r| == |x| / 2
  {
    seq(|x| / 2, i requires 0 <= i < |x| / 2 => x[2 * i])
  }

  ghost function Odds(x: seq<int>): (r: seq<int>)
    ensures |r| == |x| / 2
  {
    seq(|x| / 2, i requires 0 <= i < |x| / 2 => x[2 * i + 1])
  }

  lemma EvalConstant(x: seq<int>, z: int)
    requires |x| == 1
    ensures Eval(x, z) == x[0]
  {
  }

  lemma {:induction false} EvalConcat(x: seq<int>, y: seq<int>, z: int)
    ensures Eval(x + y, z) == Eval(x, z) + Pow(z, |x|) * Eval(y, z)
  {
    if |x| == 0 {
      assert x + y == y;
    } else {
      EvalConcat(x[1..], y, z);
      assert (x + y)[1..] == x[1..] + y;
      EvalConcatStep(z, Eval(x[1..], z), Pow(z, |x| - 1), Eval(y, z));
    }
  }

  lemma EvalConcatStep(z: int, a: int, p: int, b: int)
    ensures z * (a + p * b) == z * a + (z * p) * b
  {
  }

  lemma {:induction false} EvalIsDft(x: seq<int>, w: int, k: nat, j: nat)
    requires j <= |x|
    ensures Eval(x[..j], Pow(w, k)) == PartialDft(x, w, k, j)
  {
    if j == 0 {
    } else {
      var z := Pow(w, k);
      EvalIsDft(x, w, k, j - 1);
      assert x[..j] == x[..j - 1] + [x[j - 1]];
      EvalConcat(x[..j - 1], [x[j - 1]], z);
      EvalConstant([x[j - 1]], z);
      PowMultiplies(w, k, j - 1);
      assert k * (j - 1) == (j - 1) * k;
      assert Pow(z, j - 1) * x[j - 1] == x[j - 1] * Pow(w, (j - 1) * k);
    }
  }

  lemma {:induction false} EvalSplit(x: seq<int>, z: int)
    requires |x| % 2 == 0
    ensures Eval(x, z) == Eval(Evens(x), z * z) + z * Eval(Odds(x), z * z)
  {
    if |x| == 0 {
    } else {
      var t := x[2..];
      EvalSplit(t, z);
      var e, o := Eval(Evens(t), z * z), Eval(Odds(t), z * z);
      assert Evens(x)[1..] == Evens(t);
      assert Odds(x)[1..] == Odds(t);
      assert x[1..][1..] == t;
      calc {
        Eval(x, z);
        x[0] + z * Eval(x[1..], z);
        x[0] + z * (x[1] + z * (e + z * o));
        { EvalSplitStep(x[0], x[1], z, e, o); }
        (x[0] + (z * z) * e) + z * (x[1] + (z * z) * o);
        Eval(Evens(x), z * z) + z * Eval(Odds(x), z * z);
      }
    }
  }

  lemma EvalSplitStep(a: int, b: int, z: int, e: int, o: int)
    ensures a + z * (b + z * (e + z * o)) == (a + (z * z) * e) + z * (b + (z * z) * o)
  {
  }

  lemma {:induction false} EvalCong(x: seq<int>, y: seq<int>, z: int, z': int)
    requires |x| == |y| && Cong(z, z')
    requires forall i :: 0 <= i < |x| ==> Cong(x[i], y[i])
    ensures Cong(Eval(x, z), Eval(y, z'))
  {
    if |x| == 0 {
    } else {
      assert Cong(x[0], y[0]);
      hide Cong;
      EvalCong(x[1..], y[1..], z, z');
      CongMul(z, z', Eval(x[1..], z), Eval(y[1..], z'));
      CongAdd(x[0], y[0], z * Eval(x[1..], z), z' * Eval(y[1..], z'));
    }
  }

  // ----- the recursive transform -----

  ghost function Twiddle(w: int, k: nat): int {
    Pow(w, k) % MODULUS
  }

  ghost function Plus(e: int, t: int, o: int): int {
    (e + t * o) % MODULUS
  }

  ghost function Minus(e: int, t: int, o: int): int {
    (e - t * o) % MODULUS
  }

  /** The decimation-in-time recursion for the transform of 2^m coefficients. */
  ghost function Fft(x: seq<int>, w: int, m: nat): (y: seq<int>)
    requires |x| == Two(m)
    ensures |y| == |x|
    decreases m
  {
    if m == 0 then x
    else
      var h := Two(m - 1);
      var e := Fft(Evens(x), w * w, m - 1);
      var o := Fft(Odds(x), w * w, m - 1);
      seq(h, k requires 0 <= k < h => Plus(e[k], Twiddle(w, k), o[k]))
      + seq(h, k requires 0 <= k < h => Minus(e[k], Twiddle(w, k), o[k]))
  }

  lemma {:induction false} FftCanonical(x: seq<int>, w: int, m: nat)
    requires |x| == Two(m) && Canonical(x)
    ensures Canonical(Fft(x, w, m))
  {
  }

  /** w is a principal 2^m-th root of unity: its half power is -1. */
  ghost predicate Principal(w: int, m: nat) {
    m > 0 ==> Cong(Pow(w, Two(m - 1)), -1)
  }

  lemma PrincipalSquare(w: int, m: nat)
    requires m > 0 && Principal(w, m)
    ensures Principal(w * w, m - 1)
  {
    if m > 1 {
      PowOfSquare(w, Two(m - 2));
    }
  }

  /** The half-turn: w^(k + n/2) is -w^k. */
  lemma HalfTurn(w: int, m: nat, k: nat)
    requires m > 0 && Principal(w, m)
    ensures Cong(Pow(w, k + Two(m - 1)), -Pow(w, k))
  {
    PowAdds(w, k, Two(m - 1));
    CongMul(Pow(w, k), Pow(w, k), Pow(w, Two(m - 1)), -1);
    assert Pow(w, k) * -1 == -Pow(w, k);
  }

  lemma ButterflyCong(e: int, e': int, t: int, t': int, o: int, o': int)
    requires Cong(e, e') && Cong(t, t') && Cong(o, o')
    ensures Cong(Plus(e, t, o), e' + t' * o')
    ensures Cong(Minus(e, t, o), e' - t' * o')
  {
    CongMul(t, t', o, o');
    CongAdd(e, e', t * o, t' * o');
    CongMod(e + t * o);
    CongMod(e - t * o);
  }

  /** The value half a turn away differs only in the sign of the odd part. */
  lemma EvalHalfTurn(x: seq<int>, w: int, m: nat, k: nat)
    requires m > 0 && |x| == Two(m) && Principal(w, m)
    ensures var z := Pow(w, k);
            Cong(Eval(x, Pow(w, k + Two(m - 1))), Eval(Evens(x), z * z) - z * Eval(Odds(x), z * z))
  {
    var z := Pow(w, k);
    HalfTurn(w, m, k);
    EvalCong(x, x, Pow(w, k + Two(m - 1)), -z);
    assert |x| % 2 == 0;
    hide *;
    EvalSplit(x, -z);
    NegSquare(z, Eval(Odds(x), z * z));
  }

  lemma NegSquare(z: int, o: int)
    ensures (-z) * (-z) == z * z && (-z) * o == -(z * o)
  {
  }

  /** One butterfly of the recursion. */
  lemma FftButterfly(x: seq<int>, w: int, m: nat, k: nat)
    requires m > 0 && |x| == Two(m) && k < Two(m - 1)
    ensures var e, o := Fft(Evens(x), w * w, m - 1)[k], Fft(Odds(x), w * w, m - 1)[k];
            && Fft(x, w, m)[k] == Plus(e, Twiddle(w, k), o)
            && Fft(x, w, m)[k + Two(m - 1)] == Minus(e, Twiddle(w, k), o)
  {
  }

  lemma FftConstant(x: seq<int>, w: int, z: int)
    requires |x| == 1
    ensures Cong(Fft(x, w, 0)[0], Eval(x, z))
  {
  }

  /** Each entry of the recursive transform is the polynomial's value at a power of w. */
  lemma {:induction false} FftIsEval(x: seq<int>, w: int, m: nat, k: nat)
    requires |x| == Two(m) && Principal(w, m) && k < Two(m)
    ensures Cong(Fft(x, w, m)[k], Eval(x, Pow(w, k)))
    decreases m
  {
    hide Cong, Eval, Pow, Fft, Evens, Odds, Plus, Minus, Principal;
    if m == 0 {
      FftConstant(x, w, Pow(w, k));
    } else {
      var h := Two(m - 1);
      var j := if k < h then k else k - h;
      var z := Pow(w, j);
      PrincipalSquare(w, m);
      PowDistributes(w, w, j);
      FftButterfly(x, w, m, j);
      FftIsEval(Evens(x), w * w, m - 1, j);
      FftIsEval(Odds(x), w * w, m - 1, j);
      var e, o := Fft(Evens(x), w * w, m - 1)[j], Fft(Odds(x), w * w, m - 1)[j];
      var e', o' := Eval(Evens(x), z * z), Eval(Odds(x), z * z);
      CongMod(z);
      ButterflyCong(e, e', Twiddle(w, j), z, o, o');
      if k < h {
        EvalSplit(x, z);
      } else {
        EvalHalfTurn(x, w, m, j);
        CongVia(Minus(e, Twiddle(w, j), o), e' - z * o', Eval(x, Pow(w, k)));
      }
    }
  }

  /** The recursive transform computes the naive sum. */
  lemma FftIsDft(x: seq<int>, w: int, m: nat, k: nat)
    requires |x| == Two(m) && Canonical(x) && Principal(w, m) && k < Two(m)
    ensures Fft(x, w, m)[k] == Dft(x, w, k)
  {
    FftIsEval(x, w, m, k);
    EvalIsDft(x, w, k, |x|);
    assert x[..|x|] == x;
    FftCanonical(x, w, m);
  }

  // ----- the inverse -----

  /** Evaluation of a sum whose second part is twisted by powers of w. */
  lemma {:induction false} EvalTwisted(y: seq<int>, e: seq<int>, o: seq<int>, c: int, w: int, z: int)
    requires |y| == |e| == |o|
    requires forall j :: 0 <= j < |y| ==> Cong(y[j], e[j] + c * Pow(w, j) * o[j])
    ensures Cong(Eval(y, z), Eval(e, z) + c * Eval(o, z * w))
  {
    if |y| == 0 {
    } else {
      var y', e', o' := y[1..], e[1..], o[1..];
      forall j | 0 <= j < |y'| ensures Cong(y'[j], e'[j] + (c * w) * Pow(w, j) * o'[j]) {
        assert c * Pow(w, j + 1) == c * (w * Pow(w, j)) == (c * w) * Pow(w, j);
        assert Cong(y[j + 1], e[j + 1] + c * Pow(w, j + 1) * o[j + 1]);
      }
      EvalTwisted(y', e', o', c * w, w, z);
      assert Cong(y[0], e[0] + c * Pow(w, 0) * o[0]);
      var a, b := Eval(e', z), Eval(o', z * w);
      hide Cong;
      CongMul(z, z, Eval(y', z), a + (c * w) * b);
      CongAdd(y[0], e[0] + c * Pow(w, 0) * o[0], z * Eval(y', z), z * (a + (c * w) * b));
      TwistStep(c, w, z, a, b, o[0]);
    }
  }

  lemma TwistStep(c: int, w: int, z: int, a: int, b: int, o: int)
    ensures c * Pow(w, 0) * o + z * (a + (c * w) * b) == z * a + c * (o + (z * w) * b)
  {
  }

  /** The inverse of a principal root is principal. */
  lemma PrincipalInverse(w: int, v: int, m: nat)
    requires Principal(w, m) && Cong(w * v, 1)
    ensures Principal(v, m)
  {
    if m > 0 {
      var h := Two(m - 1);
      var a, b := Pow(w, h), Pow(v, h);
      CongPow(w * v, 1, h);
      PowOne(h);
      PowDistributes(w, v, h);
      CongMul(a, -1, b, b);
      assert -1 * b == -b;
      CongFlip(b);
    }
  }

  /** z = v^k turned by half the size: (v^k)^(n/2) is (-1)^k. */
  lemma Parity(v: int, m: nat, k: nat)
    requires m > 0 && Principal(v, m)
    ensures Cong(Pow(Pow(v, k), Two(m - 1)), if k % 2 == 0 then 1 else -1)
  {
    var h := Two(m - 1);
    PowMultiplies(v, k, h);
    PowMultiplies(v, h, k);
    assert k * h == h * k;
    CongPow(Pow(v, h), -1, k);
    PowOfSquare(-1, k / 2);
    PowOne(k / 2);
    assert Pow(-1, k) == if k % 2 == 0 then 1 else -1;
  }

  lemma SignedProduct(a: int, b: int)
    ensures 1 * a * b == a * b && -1 * a * b == -(a * b)
  {
  }

  /** The entries of the two halves of a transform. */
  lemma HalfEntries(x: seq<int>, w: int, m: nat, j: nat)
    requires m > 0 && |x| == Two(m) && j < Two(m - 1)
    ensures var e, o := Fft(Evens(x), w * w, m - 1)[j], Fft(Odds(x), w * w, m - 1)[j];
            && Cong(Fft(x, w, m)[j], e + 1 * Pow(w, j) * o)
            && Cong(Fft(x, w, m)[j + Two(m - 1)], e + -1 * Pow(w, j) * o)
  {
    FftButterfly(x, w, m, j);
    hide Cong, Fft, Evens, Odds, Pow;
    var e, o := Fft(Evens(x), w * w, m - 1)[j], Fft(Odds(x), w * w, m - 1)[j];
    CongMod(Pow(w, j));
    CongRefl(e);
    CongRefl(o);
    ButterflyCong(e, e, Twiddle(w, j), Pow(w, j), o, o);
    SignedProduct(Pow(w, j), o);
  }

  /** The two halves of a transform, evaluated: the even part keeps its sign, the twisted odd part flips it. */
  lemma EvalHalves(x: seq<int>, w: int, m: nat, z: int, s: int)
    requires m > 0 && |x| == Two(m) && Cong(Pow(z, Two(m - 1)), s)
    ensures var a := Eval(Fft(Evens(x), w * w, m - 1), z);
            var b := Eval(Fft(Odds(x), w * w, m - 1), z * w);
            Cong(Eval(Fft(x, w, m), z), (a + b) + s * (a - b))
  {
    hide Cong, Eval, Fft, Evens, Odds, Pow, Twiddle;
    var h := Two(m - 1);
    var y, e, o := Fft(x, w, m), Fft(Evens(x), w * w, m - 1), Fft(Odds(x), w * w, m - 1);
    var a, b := Eval(e, z), Eval(o, z * w);
    forall j | 0 <= j < h
      ensures Cong(y[..h][j], e[j] + 1 * Pow(w, j) * o[j])
      ensures Cong(y[h..][j], e[j] + -1 * Pow(w, j) * o[j])
    {
      HalfEntries(x, w, m, j);
    }
    EvalTwisted(y[..h], e, o, 1, w, z);
    EvalTwisted(y[h..], e, o, -1, w, z);
    EvalConcat(y[..h], y[h..], z);
    assert y == y[..h] + y[h..];
    CongMul(Pow(z, h), s, Eval(y[h..], z), a + -1 * b);
    CongAdd(Eval(y[..h], z), a + 1 * b, Pow(z, h) * Eval(y[h..], z), s * (a + -1 * b));
    assert a + -1 * b == a - b;
  }

  lemma FftInverseConstant(x: seq<int>, w: int, z: int)
    requires |x| == 1
    ensures Cong(Eval(Fft(x, w, 0), z), Two(0) * x[0])
  {
  }

  lemma Doubled(y: int, a: int, b: int, s: int, h: int, c: int)
    requires Cong(y, (a + b) + s * (a - b))
    requires (s == 1 && Cong(a, h * c)) || (s == -1 && Cong(b, h * c))
    ensures Cong(y, (2 * h) * c)
  {
    var t := if s == 1 then a else b;
    hide Cong;
    CongAdd(t, h * c, t, h * c);
    assert (a + b) + s * (a - b) == t + t;
    assert h * c + h * c == (2 * h) * c;
    CongChain(y, t + t, (2 * h) * c);
  }

  lemma FftInverseEven(x: seq<int>, w: int, v: int, m: nat, i: nat)
    requires m > 0 && |x| == Two(m) && i < Two(m - 1)
    requires Cong(Pow(Pow(v, 2 * i), Two(m - 1)), 1)
    requires Cong(Eval(Fft(Evens(x), w * w, m - 1), Pow(v * v, i)), Two(m - 1) * Evens(x)[i])
    ensures Cong(Eval(Fft(x, w, m), Pow(v, 2 * i)), Two(m) * x[2 * i])
  {
    hide Cong, Eval, Fft, Pow;
    var z := Pow(v, 2 * i);
    PowOfSquare(v, i);
    EvalHalves(x, w, m, z, 1);
    var a, b := Eval(Fft(Evens(x), w * w, m - 1), z), Eval(Fft(Odds(x), w * w, m - 1), z * w);
    Doubled(Eval(Fft(x, w, m), z), a, b, 1, Two(m - 1), x[2 * i]);
  }

  lemma FftInverseOdd(x: seq<int>, w: int, v: int, m: nat, i: nat)
    requires m > 0 && |x| == Two(m) && i < Two(m - 1) && Cong(w * v, 1)
    requires Cong(Pow(Pow(v, 2 * i + 1), Two(m - 1)), -1)
    requires Cong(Eval(Fft(Odds(x), w * w, m - 1), Pow(v * v, i)), Two(m - 1) * Odds(x)[i])
    ensures Cong(Eval(Fft(x, w, m), Pow(v, 2 * i + 1)), Two(m) * x[2 * i + 1])
  {
    hide Cong, Eval, Fft, Pow;
    var u, z := Pow(v * v, i), Pow(v, 2 * i + 1);
    OddPoint(v, w, i);
    var o := Fft(Odds(x), w * w, m - 1);
    var a, b := Eval(Fft(Evens(x), w * w, m - 1), z), Eval(o, z * w);
    EvalSame(o, z * w, u);
    CongChain(b, Eval(o, u), Two(m - 1) * x[2 * i + 1]);
    EvalHalves(x, w, m, z, -1);
    Doubled(Eval(Fft(x, w, m), z), a, b, -1, Two(m - 1), x[2 * i + 1]);
  }

  lemma OddPoint(v: int, w: int, i: nat)
    requires Cong(w * v, 1)
    ensures Cong(Pow(v, 2 * i + 1) * w, Pow(v * v, i))
  {
    var u := Pow(v * v, i);
    PowOfSquare(v, i);
    assert Pow(v, 2 * i + 1) == v * u;
    hide Cong, Pow;
    CongRefl(u);
    CongMul(u, u, w * v, 1);
    MulRotate(v, u, w);
  }

  lemma MulRotate(v: int, u: int, w: int)
    ensures v * u * w == u * (w * v)
  {
  }

  lemma EvalSame(x: seq<int>, z: int, z': int)
    requires Cong(z, z')
    ensures Cong(Eval(x, z), Eval(x, z'))
  {
    EvalCong(x, x, z, z');
  }

  /** Evaluating a transform at the powers of the inverse root gives back n times the coefficients. */
  lemma {:induction false} FftInverse(x: seq<int>, w: int, v: int, m: nat, k: nat)
    requires |x| == Two(m) && Principal(w, m) && Cong(w * v, 1) && k < Two(m)
    ensures Cong(Eval(Fft(x, w, m), Pow(v, k)), Two(m) * x[k])
    decreases m
  {
    hide Cong, Eval, Fft, Evens, Odds, Principal, Pow;
    if m == 0 {
      FftInverseConstant(x, w, Pow(v, k));
    } else {
      var i, z := k / 2, Pow(v, k);
      PrincipalInverse(w, v, m);
      Parity(v, m, k);
      PrincipalSquare(w, m);
      CongMul(w * v, 1, w * v, 1);
      MulShuffle(w, v, w, v);
      assert Cong((w * w) * (v * v), 1);
      PowOfSquare(v, i);
      if k % 2 == 0 {
        FftInverse(Evens(x), w * w, v * v, m - 1, i);
        FftInverseEven(x, w, v, m, i);
      } else {
        FftInverse(Odds(x), w * w, v * v, m - 1, i);
        FftInverseOdd(x, w, v, m, i);
      }
    }
  }

  /** Scaling every coefficient scales the value. */
  lemma {:induction false} EvalScaled(x: seq<int>, y: seq<int>, c: int, z: int)
    requires |x| == |y|
    requires forall i :: 0 <= i < |x| ==> Cong(y[i], x[i] * c)
    ensures Cong(Eval(y, z), Eval(x, z) * c)
  {
    if |x| == 0 {
    } else {
      assert Cong(y[0], x[0] * c);
      EvalScaled(x[1..], y[1..], c, z);
      var a, b := Eval(x[1..], z), Eval(y[1..], z);
      CongRefl(z);
      assert (x[0] + z * a) * c == x[0] * c + z * (a * c);
      hide Cong;
      CongMul(z, z, b, a * c);
      CongAdd(y[0], x[0] * c, z * b, z * (a * c));
    }
  }
}
