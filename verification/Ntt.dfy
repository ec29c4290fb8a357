/**
 The number-theoretic transform engine: bit-reversal and butterfly loops that
 overwrite an array, tied to the naive transform of module Polynomial.
 */
module Ntt {
  import opened Arithmetic
  import opened Polynomial
  import opened BitReversal
  import opened Machine

  const PRIMITIVE_ROOT: int := 3
  const WORD_BITS: nat := 64

  // ----- residues -----

  function AddMod(a: int, b: int): (r: int)
    requires 0 <= a < MODULUS && 0 <= b < MODULUS
    ensures r == (a + b) % MODULUS
  {
    var s := a + b;
    if s >= MODULUS then s - MODULUS else s
  }

  function SubMod(a: int, b: int): (r: int)
    requires 0 <= a < MODULUS && 0 <= b < MODULUS
    ensures r == (a - b) % MODULUS
  {
    if a >= b then a - b else a + MODULUS - b
  }

  function MulMod(a: int, b: int): int {
    a * b % MODULUS
  }

  method ModPow(b: nat, e: nat) returns (result: int)
    ensures 0 <= result < MODULUS
    ensures Cong(result, Pow(b, e))
  {
    result := 1;
    var base, exp := b % MODULUS, e;
    CongMod(b);
    CongPow(b % MODULUS, b, e);
    assert 1 * Pow(base, exp) == Pow(base, exp);
    while exp > 0
      invariant 0 <= result < MODULUS && 0 <= base < MODULUS
      invariant Cong(result * Pow(base, exp), Pow(b, e))
    {
      ModPowStep(result, base, exp);
      if exp % 2 == 1 {
        result := MulMod(result, base);
      }
      base := MulMod(base, base);
      exp := exp / 2;
    }
    assert result * Pow(base, 0) == result;
  }

  lemma ModPowStep(r: int, b: int, e: nat)
    requires e > 0
    ensures Cong((if e % 2 == 1 then MulMod(r, b) else r) * Pow(MulMod(b, b), e / 2), r * Pow(b, e))
  {
    var h := e / 2;
    var r1 := if e % 2 == 1 then r * b else r;
    var r2 := if e % 2 == 1 then MulMod(r, b) else r;
    CongMod(r * b);
    CongMod(b * b);
    CongRefl(r);
    PowHalves(r, b, e);
    hide Pow, Cong;
    CongPow(MulMod(b, b), b * b, h);
    CongMul(r2, r1, Pow(MulMod(b, b), h), Pow(b * b, h));
  }

  /** Fermat's inverse; an inverse whenever a^(MODULUS-1) is 1. */
  method ModInv(a: nat) returns (result: int)
    ensures 0 <= result < MODULUS
    ensures Cong(Pow(a, MODULUS - 1), 1) ==> Cong(a * result, 1)
  {
    result := ModPow(a, MODULUS - 2);
    ModInvCorrect(a, result);
  }

  lemma ModInvCorrect(a: nat, r: int)
    requires Cong(r, Pow(a, MODULUS - 2))
    ensures Cong(Pow(a, MODULUS - 1), 1) ==> Cong(a * r, 1)
  {
    CongRefl(a);
    CongMul(a, a, r, Pow(a, MODULUS - 2));
    assert Pow(a, MODULUS - 1) == a * Pow(a, MODULUS - 2);
  }

  // ----- bit reversal in place -----

  function TrailingZeros(n: nat): (z: nat)
    requires n > 0
  {
    if n % 2 == 1 then 0 else 1 + TrailingZeros(n / 2)
  }

  lemma {:induction false} TrailingZerosOfTwo(m: nat)
    ensures TrailingZeros(Two(m)) == m
  {
    if m == 0 {
    } else {
      TrailingZerosOfTwo(m - 1);
    }
  }

  /** The index computed from a full machine word, as the loop does. */
  function ReverseIndex(i: nat, bits: nat): (r: nat)
    requires bits <= WORD_BITS
  {
    Reverse(i, WORD_BITS) / Two(WORD_BITS - bits)
  }

  lemma DivExact(a: nat, b: nat)
    requires b > 0
    ensures a * b / b == a
  {
    var q := a * b / b;
    if q < a {
      MulMonotone(q + 1, a, b);
    } else if q > a {
      MulMonotone(a + 1, q, b);
    }
  }

  lemma ReverseIndexIsReverse(i: nat, bits: nat)
    requires bits <= WORD_BITS && i < Two(bits)
    ensures ReverseIndex(i, bits) == Reverse(i, bits) < Two(bits)
    ensures Reverse(Reverse(i, bits), bits) == i
  {
    ReverseWide(i, bits, WORD_BITS - bits);
    DivExact(Reverse(i, bits), Two(WORD_BITS - bits));
    hide Two, Reverse;
    ReverseBound(i, bits);
    ReverseInvolution(i, bits);
  }

  method BitReversePermute(a: array<int>, ghost m: nat)
    requires 1 <= m <= WORD_BITS && a.Length == Two(m)
    modifies a
    ensures forall k :: 0 <= k < a.Length ==> 0 <= Reverse(k, m) < a.Length && a[k] == old(a[Reverse(k, m)])
  {
    var n := a.Length;
    var bits := TrailingZeros(n);
    TrailingZerosOfTwo(m);
    ghost var was := a[..];
    ghost var r := seq(n, k requires 0 <= k < n => Reverse(k, m));
    forall k | 0 <= k < n
      ensures ReverseIndex(k, m) == r[k] < n && r[r[k]] == k
    {
      ReverseIndexIsReverse(k, m);
    }
    hide Reverse, ReverseIndex, Two;
    for i := 0 to n
      invariant forall k :: 0 <= k < n ==> a[k] == was[if k < i || r[k] < i then r[k] else k]
    {
      var rev := ReverseIndex(i, bits);
      if i < rev {
        a[i], a[rev] := a[rev], a[i];
      }
    }
    assert forall k :: 0 <= k < n ==> r[k] == Reverse(k, m) && a[k] == was[r[k]];
  }

  // ----- the butterfly loops -----

  /** The loops shared by the two directions; the table decides which one it is. */
  method Butterflies(a: array<int>, table: seq<int>, ghost x: seq<int>, ghost w: int, ghost m: nat)
    requires 1 <= m && a.Length == |table| == |x| == Two(m)
    requires forall i: nat :: i < |table| ==> table[i] == Twiddle(w, i)
    requires Canonical(x) && a[..] == Stage(x, w, m, 0)
    modifies a
    ensures a[..] == Fft(x, w, m)
  {
    var size := a.Length;
    var len := 2;
    ghost var l := 0;
    while len <= size
      invariant l <= m && len == Two(l + 1)
      invariant a[..] == Stage(x, w, m, l)
      decreases m - l
    {
      assert l < m;
      RunStage(a, table, len, x, w, m, l);
      len := len * 2;
      l := l + 1;
    }
    assert l == m by {
      if l < m {
        TwoGrows(l, m);
      }
    }
  }

  /** One pass of the outer loop. */
  method RunStage(a: array<int>, table: seq<int>, len: nat, ghost x: seq<int>, ghost w: int, ghost m: nat, ghost l: nat)
    requires l < m && a.Length == |table| == |x| == Two(m) && len == Two(l + 1)
    requires forall i: nat :: i < |table| ==> table[i] == Twiddle(w, i)
    requires Canonical(x) && a[..] == Stage(x, w, m, l)
    modifies a
    ensures a[..] == Stage(x, w, m, l + 1)
  {
    var size := a.Length;
    var half := len / 2;
    StepSize(m, l);
    var step := size / len;
    ghost var s, t := Stage(x, w, m, l), Stage(x, w, m, l + 1);
    StageCanonical(x, w, m, l);
    hide Stage, Canonical, Twiddle, Two;
    var i := 0;
    ghost var b := 0;
    while i < size
      invariant i == b * len && b <= step
      invariant forall q :: 0 <= q < i ==> a[q] == t[q]
      invariant forall q :: i <= q < size ==> a[q] == s[q]
      decreases size - i
    {
      BlockFits(b, step, len);
      RunBlock(a, table, len, half, step, i, x, w, m, l, b);
      i := i + len;
      b := b + 1;
    }
  }

  lemma StepSize(m: nat, l: nat)
    requires l < m
    ensures Two(m) / Two(l + 1) == Two(m - l - 1)
    ensures Two(m) == Two(m - l - 1) * Two(l + 1)
  {
    TwoAdds(m - l - 1, l + 1);
    DivExact(Two(m - l - 1), Two(l + 1));
  }

  lemma BlockFits(b: nat, step: nat, len: nat)
    requires b * len < step * len
    ensures b < step && b * len + len <= step * len && (b + 1) * len == b * len + len
  {
    if b >= step {
      MulMonotone(step, b, len);
    }
    MulMonotone(b + 1, step, len);
  }

  /** The innermost loop: the butterflies of one block. */
  method RunBlock(a: array<int>, table: seq<int>, len: nat, half: nat, step: nat, i: nat,
                  ghost x: seq<int>, ghost w: int, ghost m: nat, ghost l: nat, ghost b: nat)
    requires l < m && a.Length == |table| == |x| == Two(m)
    requires len == Two(l + 1) && half == Two(l) && len == 2 * half
    requires step == Two(m - l - 1) && b < step && i == b * len
    requires i + len <= a.Length
    requires forall i: nat :: i < |table| ==> table[i] == Twiddle(w, i)
    requires Canonical(Stage(x, w, m, l))
    requires forall q :: i <= q < i + len ==> a[q] == Stage(x, w, m, l)[q]
    modifies a
    ensures forall q :: i <= q < i + len ==> a[q] == Stage(x, w, m, l + 1)[q]
    ensures forall q :: 0 <= q < a.Length && !(i <= q < i + len) ==> a[q] == old(a[q])
  {
    hide Stage, Canonical, Twiddle, Two, MulMod, AddMod, SubMod;
    ghost var s, t := Stage(x, w, m, l), Stage(x, w, m, l + 1);
    var j := 0;
    while j < half
      invariant j <= half
      invariant forall q :: 0 <= q < a.Length ==>
        a[q] == if i <= q < i + j || i + half <= q < i + half + j then t[q] else old(a[q])
    {
      TableIndex(m, l, j);
      ButterflyResult(x, w, m, l, b, j, i + j, table[j * step]);
      var tw := table[j * step];
      var u := a[i + j];
      var v := MulMod(a[i + j + half], tw);
      a[i + j] := AddMod(u, v);
      a[i + j + half] := SubMod(u, v);
      j := j + 1;
    }
  }

  lemma TableIndex(m: nat, l: nat, j: nat)
    requires l < m && j < Two(l)
    ensures 0 <= j * Two(m - l - 1) < Two(m)
  {
    TwoAdds(l, m - l - 1);
    assert Two(m) == 2 * Two(m - 1);
    MulMonotone(j, Two(l), Two(m - l - 1));
  }

  /** What the loop body must write at the two positions of a butterfly. */
  lemma ButterflyResult(x: seq<int>, w: int, m: nat, l: nat, b: nat, j: nat, q: nat, tw: int)
    requires l < m && |x| == Two(m) && b < Two(m - l - 1) && j < Two(l)
    requires q == b * Two(l + 1) + j && tw == Twiddle(w, j * Two(m - l - 1))
    requires Canonical(Stage(x, w, m, l))
    ensures q + Two(l) < Two(m)
    ensures var s, t := Stage(x, w, m, l), Stage(x, w, m, l + 1);
            var v := MulMod(s[q + Two(l)], tw);
            && 0 <= s[q] < MODULUS && 0 <= v < MODULUS
            && t[q] == AddMod(s[q], v)
            && t[q + Two(l)] == SubMod(s[q], v)
  {
    StageButterfly(x, w, m, l, b, j, q);
    hide Stage, Twiddle, Two;
    var s := Stage(x, w, m, l);
    ButterflyResidues(s[q], tw, s[q + Two(l)]);
  }

  /** The loop's arithmetic on residues is the butterfly of the recursion. */
  lemma ButterflyResidues(u: int, tw: int, o: int)
    requires 0 <= u < MODULUS
    ensures AddMod(u, MulMod(o, tw)) == Plus(u, tw, o)
    ensures SubMod(u, MulMod(o, tw)) == Minus(u, tw, o)
  {
    assert o * tw == tw * o;
    var p := tw * o;
    assert (u + p % MODULUS) % MODULUS == (u + p) % MODULUS;
    assert (u - p % MODULUS) % MODULUS == (u - p) % MODULUS;
  }

  // ----- the engine -----

  /** The tables hold the powers of a principal 2^bits-th root of unity and of its inverse. */
  ghost predicate Tables(size: nat, bits: nat, root: int, roots: seq<int>, invRoot: int, invRoots: seq<int>, invSize: int) {
    && 1 <= bits <= WORD_BITS && size == |roots| == |invRoots| == Two(bits)
    && Principal(root, bits) && Cong(root * invRoot, 1) && Cong(size * invSize, 1)
    && (forall i: nat :: i < size ==> roots[i] == Twiddle(root, i))
    && (forall i: nat :: i < size ==> invRoots[i] == Twiddle(invRoot, i))
  }

  method Precompute(size: nat, ghost m: nat)
    returns (root: int, roots: seq<int>, invRoot: int, invRoots: seq<int>, invSize: int)
    requires size == Two(m) && size >= 2 && (MODULUS - 1) % size == 0
    ensures Tables(size, m, root, roots, invRoot, invRoots, invSize)
    ensures root == Pow(PRIMITIVE_ROOT, (MODULUS - 1) / size) % MODULUS
  {
    DivisorBound(size, MODULUS - 1);
    SizeBits(size, m);
    var exp := (MODULUS - 1) / size;
    root := ModPow(PRIMITIVE_ROOT, exp);
    assert root == Pow(PRIMITIVE_ROOT, exp) % MODULUS;
    hide Two, Pow, Cong, Twiddle, Principal;
    RootFacts(size, m, exp, root);
    invRoot := ModInv(root);
    invSize := ModInv(size);
    roots := PowerTable(size, root);
    invRoots := PowerTable(size, invRoot);
  }

  /** Precomputed engine for one transform size. */
  class NttEngine {
    const size: nat
    const roots: seq<int>
    const invRoots: seq<int>
    const invSize: int
    /** size is 2^bits. */
    ghost const bits: nat
    ghost const root: int
    ghost const invRoot: int

    ghost predicate Valid() {
      Tables(size, bits, root, roots, invRoot, invRoots, invSize)
    }

    constructor (size: nat)
      requires IsPowerOfTwo(size) && size >= 2
      requires (MODULUS - 1) % size == 0
      ensures Valid()
      ensures this.size == size
      ensures root == Pow(PRIMITIVE_ROOT, (MODULUS - 1) / size) % MODULUS
    {
      ghost var m :| size == Two(m);
      var root, roots, invRoot, invRoots, invSize := Precompute(size, m);
      this.size := size;
      this.roots := roots;
      this.invRoots := invRoots;
      this.invSize := invSize;
      this.bits := m;
      this.root := root;
      this.invRoot := invRoot;
    }

    /** What the forward transform computes. */
    ghost function Forward(x: seq<int>): (y: seq<int>)
      requires Valid() && |x| == size
      ensures |y| == size
    {
      Fft(x, root, bits)
    }

    /** What the inverse transform computes. */
    ghost function Inverse(x: seq<int>): (y: seq<int>)
      requires Valid() && |x| == size
      ensures |y| == size
    {
      var f := Fft(x, invRoot, bits);
      seq(size, k requires 0 <= k < size => MulMod(f[k], invSize))
    }

    /** In-place forward transform. */
    method Ntt(a: array<int>)
      requires Valid() && a.Length == size && Canonical(a[..])
      modifies a
      ensures a[..] == Forward(old(a[..]))
      ensures Canonical(a[..])
      ensures forall k :: 0 <= k < size ==> a[k] == Dft(old(a[..]), root, k)
    {
      ghost var x := a[..];
      BitReversePermute(a, bits);
      StartOfStages(x, a[..], root, bits);
      Butterflies(a, roots, x, root, bits);
      FftCanonical(x, root, bits);
      forall k | 0 <= k < size ensures a[k] == Dft(x, root, k) {
        FftIsDft(x, root, bits, k);
      }
    }

    /** In-place inverse transform. */
    method Intt(a: array<int>)
      requires Valid() && a.Length == size && Canonical(a[..])
      modifies a
      ensures a[..] == Inverse(old(a[..]))
      ensures Canonical(a[..])
    {
      ghost var x := a[..];
      BitReversePermute(a, bits);
      StartOfStages(x, a[..], invRoot, bits);
      Butterflies(a, invRoots, x, invRoot, bits);
      hide Fft, Canonical;
      Scale(a, invSize);
    }

    /** The inverse undoes the transform on every canonical array. */
    lemma InverseOfForward(x: seq<int>)
      requires Valid() && |x| == size && Canonical(x)
      ensures Inverse(Forward(x)) == x
    {
      PrincipalInverse(root, invRoot, bits);
      forall k | 0 <= k < size ensures Inverse(Forward(x))[k] == x[k] {
        FftInverse(x, root, invRoot, bits, k);
        FftIsEval(Forward(x), invRoot, bits, k);
        var f, e := Fft(Forward(x), invRoot, bits)[k], Eval(Forward(x), Pow(invRoot, k));
        CongRefl(invSize);
        CongMul(f, e, invSize, invSize);
        CongMod(f * invSize);
        CongChain(MulMod(f, invSize), f * invSize, e * invSize);
        Unscale(MulMod(f, invSize), e, size, x[k], invSize);
      }
    }

    /** The transform undoes the inverse on every canonical array. */
    lemma ForwardOfInverse(x: seq<int>)
      requires Valid() && |x| == size && Canonical(x)
      ensures Forward(Inverse(x)) == x
    {
      hide Fft, Eval, Cong, Principal;
      forall k | 0 <= k < size ensures Forward(Inverse(x))[k] == x[k] {
        ForwardOfInverseAt(x, k);
      }
    }

    lemma ForwardOfInverseAt(x: seq<int>, k: nat)
      requires Valid() && |x| == size && Canonical(x) && k < size
      ensures Forward(Inverse(x))[k] == x[k]
    {
      var f, y, z := Fft(x, invRoot, bits), Inverse(x), Pow(root, k);
      PrincipalInverse(root, invRoot, bits);
      assert invRoot * root == root * invRoot;
      FftCanonical(y, root, bits);
      forall i | 0 <= i < size ensures Cong(y[i], f[i] * invSize) {
        CongMod(f[i] * invSize);
      }
      hide Fft, Eval, Cong, Principal;
      FftInverse(x, invRoot, root, bits, k);
      FftIsEval(y, root, bits, k);
      EvalScaled(f, y, invSize, z);
      CongChain(Forward(y)[k], Eval(y, z), Eval(f, z) * invSize);
      Unscale(Forward(y)[k], Eval(f, z), size, x[k], invSize);
    }
  }

  /** The last loop of the inverse. */
  method Scale(a: array<int>, c: int)
    modifies a
    ensures forall k :: 0 <= k < a.Length ==> a[k] == MulMod(old(a[k]), c)
  {
    for i := 0 to a.Length
      invariant forall k :: 0 <= k < a.Length ==> a[k] == if k < i then MulMod(old(a[k]), c) else old(a[k])
    {
      a[i] := MulMod(a[i], c);
    }
  }

  lemma DivisorBound(n: nat, a: nat)
    requires n > 0 && a > 0 && a % n == 0
    ensures n <= a && a / n * n == a
  {
  }

  lemma TwoToThe30(b: nat)
    requires b == 30
    ensures Two(b) == 1_073_741_824
  {
    assert Two(15) == 32768;
    TwoAdds(15, 15);
  }

  lemma SizeBits(size: nat, m: nat)
    requires size == Two(m) && 2 <= size < MODULUS
    ensures 1 <= m <= WORD_BITS
  {
    if m > WORD_BITS {
      var wide := 30;
      TwoToThe30(wide);
      TwoGrows(wide, m);
    }
  }

  /** Both tables are filled by repeated multiplication. */
  method PowerTable(size: nat, root: int) returns (table: seq<int>)
    requires size >= 1
    ensures |table| == size
    ensures forall i: nat :: i < size ==> table[i] == Twiddle(root, i)
  {
    var t := new int[size](_ => 1);
    for i := 1 to size
      invariant forall k: nat :: k < i ==> t[k] == Twiddle(root, k)
    {
      t[i] := MulMod(t[i - 1], root);
      TwiddleSucc(root, i - 1);
    }
    table := t[..];
  }

  lemma TwiddleSucc(root: int, i: nat)
    ensures Twiddle(root, i + 1) == MulMod(Twiddle(root, i), root)
  {
    CongMod(Pow(root, i));
    CongRefl(root);
    CongMul(Twiddle(root, i), Pow(root, i), root, root);
    assert Pow(root, i + 1) == Pow(root, i) * root;
  }

  /** The bit-reversed input is where the stages start. */
  lemma StartOfStages(x: seq<int>, y: seq<int>, w: int, m: nat)
    requires |x| == |y| == Two(m)
    requires forall k :: 0 <= k < |x| ==> 0 <= Reverse(k, m) < |x| && y[k] == x[Reverse(k, m)]
    ensures y == Stage(x, w, m, 0)
  {
    forall k | 0 <= k < |x| ensures y[k] == Stage(x, w, m, 0)[k] {
      StageZero(x, w, m, k);
    }
  }

  /** Why the root is principal and why Fermat's inverses are inverses for it and for the size. */
  lemma RootFacts(size: nat, m: nat, exp: nat, root: nat)
    requires size == Two(m) && size >= 2 && exp * size == MODULUS - 1
    requires Cong(root, Pow(PRIMITIVE_ROOT, exp))
    ensures Principal(root, m)
    ensures Cong(Pow(root, MODULUS - 1), 1)
    ensures Cong(Pow(size, MODULUS - 1), 1)
  {
    var half, order := (MODULUS - 1) / 2, MODULUS - 1;
    ThreeHalfOrder(half);
    TwoHalfOrder(half);
    CongRefl(-1);
    FermatFromHalf(3, half, -1);
    FermatFromHalf(2, half, 1);
    var h := Two(m - 1);
    assert exp * h == half by {
      assert exp * (2 * h) == 2 * (exp * h);
    }
    CongPow(root, Pow(3, exp), h);
    PowMultiplies(3, exp, h);
    RootFermat(3, exp, root, order);
    TwoIsPow(m);
    CongRefl(size);
    RootFermat(2, m, size, order);
  }

  lemma FermatFromHalf(b: int, half: nat, s: int)
    requires Cong(Pow(b, half), s) && s * s == 1
    ensures Cong(Pow(b, 2 * half), 1)
  {
    var e := PowSquare(b, half, s, 1);
  }

  lemma RootFermat(b: int, e: nat, root: int, order: nat)
    requires Cong(Pow(b, order), 1) && Cong(root, Pow(b, e))
    ensures Cong(Pow(root, order), 1)
  {
    hide Cong, Pow;
    CongPow(root, Pow(b, e), order);
    PowMultiplies(b, e, order);
    PowMultiplies(b, order, e);
    assert e * order == order * e;
    CongPow(Pow(b, order), 1, e);
    PowOne(e);
    CongChain(Pow(root, order), Pow(Pow(b, e), order), 1);
  }

  /** Dividing the size out again. */
  lemma Unscale(r: int, e: int, n: int, x: int, c: int)
    requires Cong(r, e * c) && Cong(e, n * x) && Cong(n * c, 1)
    requires 0 <= r < MODULUS && 0 <= x < MODULUS
    ensures r == x
  {
    UnscaleCong(r, e, n, x, c);
  }

  lemma UnscaleCong(r: int, e: int, n: int, x: int, c: int)
    requires Cong(r, e * c) && Cong(e, n * x) && Cong(n * c, 1)
    ensures Cong(r, x)
  {
    hide Cong;
    CongRefl(c);
    CongRefl(x);
    CongMul(e, n * x, c, c);
    CongMul(n * c, 1, x, x);
    assert (n * x) * c == (n * c) * x;
    CongChain(e * c, (n * c) * x, x);
    CongChain(r, e * c, x);
  }
}
