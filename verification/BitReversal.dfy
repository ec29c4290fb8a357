/**
 Bit reversal, and the block-by-block stages between a bit-reversed array and
 its transform.
 */
module BitReversal {
  import opened Arithmetic
  import opened Machine
  import opened Polynomial

  /** The low b bits of i, in reverse order. */
  function Reverse(i: nat, b: nat): nat {
    if b == 0 then 0
    else
      (if i % 2 == 0 then 0 else Two(b - 1)) + Reverse(i / 2, b - 1)
  }

  lemma {:induction false} ReverseBound(i: nat, b: nat)
    ensures Reverse(i, b) < Two(b)
  {
    if b == 0 {
    } else {
      ReverseBound(i / 2, b - 1);
    }
  }

  /** Peeling the top bit instead of the bottom one. */
  lemma {:induction false} ReverseTop(i: nat, b: nat)
    requires b > 0 && i < Two(b)
    ensures var h := Two(b - 1);
            Reverse(i, b) == if i < h then 2 * Reverse(i, b - 1) else 2 * Reverse(i - h, b - 1) + 1
  {
    if b == 1 {
      assert Reverse(i / 2, 0) == 0;
    } else {
      var h := Two(b - 1);
      ReverseTop(i / 2, b - 1);
      if i >= h {
        assert (i - h) % 2 == i % 2 && (i - h) / 2 == i / 2 - Two(b - 2);
      }
    }
  }

  lemma {:induction false} ReverseInvolution(i: nat, b: nat)
    requires i < Two(b)
    ensures Reverse(Reverse(i, b), b) == i
  {
    if b == 0 {
    } else {
      var r := Reverse(i / 2, b - 1);
      ReverseBound(i / 2, b - 1);
      ReverseBound(i, b);
      ReverseTop(Reverse(i, b), b);
      ReverseInvolution(i / 2, b - 1);
      if i % 2 == 0 {
        assert Reverse(i, b) == r;
      } else {
        assert Reverse(i, b) == Two(b - 1) + r;
      }
    }
  }

  /** Reversing a wide word leaves the reversal of its low bits at the top. */
  lemma {:induction false} ReverseWide(i: nat, b: nat, k: nat)
    requires i < Two(b)
    ensures Reverse(i, b + k) == Reverse(i, b) * Two(k)
  {
    if b == 0 {
      ReverseZero(k);
    } else {
      ReverseWide(i / 2, b - 1, k);
      TwoAdds(b - 1, k);
      Distribute(if i % 2 == 0 then 0 else Two(b - 1), Reverse(i / 2, b - 1), Two(k));
    }
  }

  lemma {:induction false} ReverseZero(k: nat)
    ensures Reverse(0, k) == 0
  {
    if k == 0 {
    } else {
      ReverseZero(k - 1);
    }
  }

  /**
   The contents after the stage that completes blocks of 2^l entries: each block
   holds the transform of one residue class of the input's indices.
   */
  ghost function Stage(x: seq<int>, w: int, m: nat, l: nat): (y: seq<int>)
    requires l <= m && |x| == Two(m)
    ensures |y| == |x|
    decreases m
  {
    if m == l then Fft(x, w, m)
    else Stage(Evens(x), w * w, m - 1, l) + Stage(Odds(x), w * w, m - 1, l)
  }

  /** Before the first stage the contents are the bit-reversed input. */
  lemma {:induction false} StageZero(x: seq<int>, w: int, m: nat, i: nat)
    requires |x| == Two(m) && i < Two(m)
    ensures Reverse(i, m) < |x|
    ensures Stage(x, w, m, 0)[i] == x[Reverse(i, m)]
    decreases m
  {
    ReverseBound(i, m);
    if m == 0 {
    } else {
      var h := Two(m - 1);
      ReverseTop(i, m);
      if i < h {
        StageZero(Evens(x), w * w, m - 1, i);
      } else {
        StageZero(Odds(x), w * w, m - 1, i - h);
      }
    }
  }

  lemma {:induction false} StageCanonical(x: seq<int>, w: int, m: nat, l: nat)
    requires l <= m && |x| == Two(m) && Canonical(x)
    ensures Canonical(Stage(x, w, m, l))
    decreases m
  {
    if m == l {
      FftCanonical(x, w, m);
    } else {
      StageCanonical(Evens(x), w * w, m - 1, l);
      StageCanonical(Odds(x), w * w, m - 1, l);
    }
  }

  /** The positions one butterfly touches, within the array. */
  lemma BlockBounds(m: nat, l: nat, b: nat, j: nat)
    requires l < m && b < Two(m - l - 1) && j < Two(l)
    ensures 0 <= b * Two(l + 1) + j < b * Two(l + 1) + j + Two(l) < (b + 1) * Two(l + 1) <= Two(m)
  {
    TwoAdds(m - l - 1, l + 1);
    MulMonotone(b + 1, Two(m - l - 1), Two(l + 1));
  }

  /** Before the last stage the two halves are independent. */
  lemma StageHalf(x: seq<int>, w: int, m: nat, l: nat, p: nat)
    requires l < m && |x| == Two(m) && p < Two(m)
    ensures Stage(x, w, m, l)[p] ==
            if p < Two(m - 1) then Stage(Evens(x), w * w, m - 1, l)[p]
            else Stage(Odds(x), w * w, m - 1, l)[p - Two(m - 1)]
  {
  }

  /** Stage l turns positions q and q + 2^l into the two outputs of a butterfly with twiddle f. */
  ghost predicate ButterflyAt(x: seq<int>, w: int, m: nat, l: nat, q: nat, f: int)
    requires l < m && |x| == Two(m) && q + Two(l) < Two(m)
  {
    var s, t := Stage(x, w, m, l), Stage(x, w, m, l + 1);
    && t[q] == Plus(s[q], f, s[q + Two(l)])
    && t[q + Two(l)] == Minus(s[q], f, s[q + Two(l)])
  }

  lemma ButterflyLast(x: seq<int>, w: int, m: nat, j: nat)
    requires m > 0 && |x| == Two(m) && j < Two(m - 1)
    ensures ButterflyAt(x, w, m, m - 1, j, Twiddle(w, j))
  {
    FftButterfly(x, w, m, j);
    StageHalf(x, w, m, m - 1, j);
    StageHalf(x, w, m, m - 1, j + Two(m - 1));
  }

  lemma ButterflyLift(x: seq<int>, w: int, m: nat, l: nat, q: nat, f: int)
    requires l + 1 < m && |x| == Two(m) && q + Two(l) < Two(m)
    requires var h := Two(m - 1);
             if q < h then q + Two(l) < h && ButterflyAt(Evens(x), w * w, m - 1, l, q, f)
             else ButterflyAt(Odds(x), w * w, m - 1, l, q - h, f)
    ensures ButterflyAt(x, w, m, l, q, f)
  {
    hide Stage, Plus, Minus, Evens, Odds;
    StageHalf(x, w, m, l, q);
    StageHalf(x, w, m, l, q + Two(l));
    StageHalf(x, w, m, l + 1, q);
    StageHalf(x, w, m, l + 1, q + Two(l));
  }

  /** Where block b lies relative to the two halves of the array. */
  lemma BlockHalf(m: nat, l: nat, b: nat, j: nat, q: nat) returns (b': nat)
    requires l + 1 < m && b < Two(m - l - 1) && j < Two(l) && q == b * Two(l + 1) + j
    ensures b' < Two(m - l - 2)
    ensures b < Two(m - l - 2) ==> b' == b && q + Two(l) < Two(m - 1)
    ensures b >= Two(m - l - 2) ==> q >= Two(m - 1) && q - Two(m - 1) == b' * Two(l + 1) + j
  {
    var g := Two(m - l - 2);
    TwoAdds(m - l - 2, l + 1);
    if b < g {
      b' := b;
      BlockBounds(m - 1, l, b, j);
    } else {
      b' := b - g;
      Distribute(b', g, Two(l + 1));
    }
  }

  lemma TwiddleOfSquare(w: int, m: nat, l: nat, j: nat)
    requires l + 1 < m
    ensures Twiddle(w * w, j * Two(m - l - 2)) == Twiddle(w, j * Two(m - l - 1))
  {
    PowOfSquare(w, j * Two(m - l - 2));
    assert 2 * (j * Two(m - l - 2)) == j * Two(m - l - 1);
  }

  /** One stage is a butterfly on every pair of positions half a block apart. */
  lemma {:induction false} StageButterfly(x: seq<int>, w: int, m: nat, l: nat, b: nat, j: nat, q: nat)
    requires l < m && |x| == Two(m) && b < Two(m - l - 1) && j < Two(l)
    requires q == b * Two(l + 1) + j
    ensures q + Two(l) < Two(m)
    ensures ButterflyAt(x, w, m, l, q, Twiddle(w, j * Two(m - l - 1)))
    decreases m, 1
  {
    hide ButterflyAt, Twiddle, Evens, Odds;
    BlockBounds(m, l, b, j);
    if m == l + 1 {
      assert b == 0 && j * Two(0) == j;
      ButterflyLast(x, w, m, j);
    } else {
      var b' := BlockHalf(m, l, b, j, q);
      TwiddleOfSquare(w, m, l, j);
      StageButterflyInHalf(x, w, m, l, b, j, q);
      ButterflyLift(x, w, m, l, q, Twiddle(w, j * Two(m - l - 1)));
    }
  }

  lemma {:induction false} StageButterflyInHalf(x: seq<int>, w: int, m: nat, l: nat, b: nat, j: nat, q: nat)
    requires l + 1 < m && |x| == Two(m) && b < Two(m - l - 1) && j < Two(l)
    requires q == b * Two(l + 1) + j && q + Two(l) < Two(m)
    ensures var g, h, f := Two(m - l - 2), Two(m - 1), Twiddle(w * w, j * Two(m - l - 2));
            if b < g then q + Two(l) < h && ButterflyAt(Evens(x), w * w, m - 1, l, q, f)
            else q >= h && ButterflyAt(Odds(x), w * w, m - 1, l, q - h, f)
    decreases m, 0
  {
    assert Two(m) == 2 * Two(m - 1);
    hide ButterflyAt, Twiddle, Evens, Odds, Two;
    var b' := BlockHalf(m, l, b, j, q);
    if b < Two(m - l - 2) {
      StageButterfly(Evens(x), w * w, m - 1, l, b', j, q);
    } else {
      StageButterfly(Odds(x), w * w, m - 1, l, b', j, q - Two(m - 1));
    }
  }
}
