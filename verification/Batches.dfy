/**
 Batches of commutative deltas as values: how they are binned, which of them pass
 the transform's round trip, and what they do to pools.
 */
module Batches {
  import opened Basics
  import opened Arithmetic
  import opened Sums

  const I128_MAX: int := 0x7FFF_FFFF_FFFF_FFFF_FFFF_FFFF_FFFF_FFFF
  const I128_MIN: int := -I128_MAX - 1
  const WORD: nat := 0x1_0000_0000_0000_0000

  datatype Coordinate = Coordinate(c0: nat, c1: nat, c2: nat, c3: nat)
  {
    /** The bin of a coordinate: a weighted sum in wrapping 64-bit arithmetic. */
    function NttIndex(size: nat): (i: nat)
      requires size > 0
      ensures i < size
    {
      var a0 := c0 * 2_654_435_761 % WORD;
      var a1 := (a0 + c1 * 2_654_435_762 % WORD) % WORD;
      var a2 := (a1 + c2 * 2_654_435_763 % WORD) % WORD;
      var a3 := (a2 + c3 * 2_654_435_764 % WORD) % WORD;
      a3 % size
    }
  }

  datatype Delta = Delta(coord: Coordinate, amount: int, pool: PoolId)

  /** The wrapping steps amount to one weighted sum, reduced once. */
  lemma NttIndexMeans(c: Coordinate, size: nat)
    requires size > 0
    ensures c.NttIndex(size) ==
            (c.c0 * 2_654_435_761 + c.c1 * 2_654_435_762 + c.c2 * 2_654_435_763 + c.c3 * 2_654_435_764) % WORD % size
  {
    var p0, p1, p2, p3 := c.c0 * 2_654_435_761, c.c1 * 2_654_435_762, c.c2 * 2_654_435_763, c.c3 * 2_654_435_764;
    Wraps(p0, p1);
    Wraps(p0 + p1, p2);
    Wraps(p0 + p1 + p2, p3);
  }

  lemma Wraps(a: nat, b: nat)
    ensures (a % WORD + b % WORD) % WORD == (a + b) % WORD
  {
  }

  // ----- sums over a batch -----

  ghost function Total(ds: seq<Delta>, f: Delta -> int): int {
    if ds == [] then 0 else Total(ds[..|ds| - 1], f) + f(ds[|ds| - 1])
  }

  lemma {:induction false} TotalConcat(ds: seq<Delta>, es: seq<Delta>, f: Delta -> int)
    ensures Total(ds + es, f) == Total(ds, f) + Total(es, f)
  {
    if es == [] {
      assert ds + es == ds;
    } else {
      var n := |es| - 1;
      TotalConcat(ds, es[..n], f);
      assert (ds + es)[..|ds + es| - 1] == ds + es[..n];
    }
  }

  /** Every sum over a batch is independent of the order of its deltas. */
  lemma {:induction false} TotalIgnoresOrder(ds: seq<Delta>, es: seq<Delta>, f: Delta -> int)
    requires multiset(ds) == multiset(es)
    ensures Total(ds, f) == Total(es, f)
    decreases |ds|
  {
    if ds == [] {
      assert |multiset(es)| == 0;
    } else {
      var n := |ds| - 1;
      var d := ds[n];
      assert ds == ds[..n] + [d];
      assert d in multiset(es);
      var j :| 0 <= j < |es| && es[j] == d;
      var rest := es[..j] + es[j + 1..];
      assert es == es[..j] + ([d] + es[j + 1..]);
      assert multiset(rest) == multiset(es) - multiset{d};
      TotalIgnoresOrder(ds[..n], rest, f);
      TotalConcat(es[..j], [d] + es[j + 1..], f);
      TotalConcat([d], es[j + 1..], f);
      TotalConcat(es[..j], es[j + 1..], f);
      assert Total([d], f) == f(d);
    }
  }

  ghost function InBin(size: nat, i: nat): Delta -> int
    requires size > 0
  {
    (d: Delta) => if d.coord.NttIndex(size) == i then d.amount else 0
  }

  ghost function InPool(pool: PoolId): Delta -> int {
    (d: Delta) => if d.pool == pool then d.amount else 0
  }

  function Positive(x: int): nat {
    if x >= 0 then x else 0
  }

  ghost function Ups(f: Delta -> int): Delta -> int {
    (d: Delta) => Positive(f(d))
  }

  ghost function Downs(f: Delta -> int): Delta -> int {
    (d: Delta) => f(d) - Positive(f(d))
  }

  /** However the batch is ordered, no running sum of `f` leaves the 128-bit signed range. */
  ghost predicate Fits(ds: seq<Delta>, f: Delta -> int) {
    Total(ds, Ups(f)) <= I128_MAX && Total(ds, Downs(f)) >= I128_MIN
  }

  lemma {:induction false} FitsMeans(ds: seq<Delta>, f: Delta -> int)
    ensures Total(ds, Downs(f)) <= Total(ds, f) <= Total(ds, Ups(f))
    ensures Total(ds, Downs(f)) <= 0 <= Total(ds, Ups(f))
  {
    if ds != [] {
      FitsMeans(ds[..|ds| - 1], f);
    }
  }

  lemma {:induction false} FitsPrefix(ds: seq<Delta>, f: Delta -> int, k: nat)
    requires Fits(ds, f) && k <= |ds|
    ensures Fits(ds[..k], f) && I128_MIN <= Total(ds[..k], f) <= I128_MAX
    decreases |ds|
  {
    if k == |ds| {
      assert ds[..k] == ds;
      FitsMeans(ds, f);
    } else {
      var n := |ds| - 1;
      assert ds[..n][..k] == ds[..k];
      FitsPrefix(ds[..n], f, k);
    }
  }

  // ----- binning, with saturation -----

  function Clamp(x: int): int {
    if x > I128_MAX then I128_MAX else if x < I128_MIN then I128_MIN else x
  }

  /** A saturating sum is the nearest value in the 128-bit signed range. */
  lemma ClampMeans(x: int, y: int)
    requires I128_MIN <= y <= I128_MAX
    ensures I128_MIN <= Clamp(x) <= I128_MAX && Abs(x - Clamp(x)) <= Abs(x - y)
  {
  }

  function Abs(x: int): nat {
    if x >= 0 then x else -x
  }

  /** The bins after aggregation; every addition saturates. */
  function Bins(ds: seq<Delta>, size: nat): (b: seq<int>)
    requires size > 0
    ensures |b| == size
  {
    if ds == [] then seq(size, _ => 0)
    else
      var b := Bins(ds[..|ds| - 1], size);
      var d := ds[|ds| - 1];
      var i := d.coord.NttIndex(size);
      b[i := Clamp(b[i] + d.amount)]
  }

  /** A bin whose running sums fit holds the sum of its deltas. */
  lemma {:induction false} BinsAreSums(ds: seq<Delta>, size: nat, i: nat)
    requires size > 0 && i < size && Fits(ds, InBin(size, i))
    ensures Bins(ds, size)[i] == Total(ds, InBin(size, i))
  {
    if ds == [] {
    } else {
      var n := |ds| - 1;
      FitsPrefix(ds, InBin(size, i), n);
      FitsMeans(ds, InBin(size, i));
      BinsAreSums(ds[..n], size, i);
    }
  }

  function PoolSums(ds: seq<Delta>): map<PoolId, int> {
    if ds == [] then map[]
    else
      var m := PoolSums(ds[..|ds| - 1]);
      var d := ds[|ds| - 1];
      m[d.pool := Get(m, d.pool) + d.amount]
  }

  lemma {:induction false} PoolSumsAreSums(ds: seq<Delta>, pool: PoolId)
    ensures pool in PoolSums(ds) <==> exists d :: d in ds && d.pool == pool
    ensures Get(PoolSums(ds), pool) == Total(ds, InPool(pool))
  {
    if ds == [] {
    } else {
      var t, d := ds[..|ds| - 1], ds[|ds| - 1];
      PoolSumsAreSums(t, pool);
      assert ds == t + [d];
    }
  }

  /** A pool whose running sums fit never overflows its aggregate, at any point of any order. */
  lemma PoolSumsFit(ds: seq<Delta>, es: seq<Delta>, pool: PoolId, k: nat)
    requires multiset(ds) == multiset(es) && k <= |es| && Fits(ds, InPool(pool))
    ensures I128_MIN <= Get(PoolSums(es[..k]), pool) <= I128_MAX
  {
    FitsAnyOrder(ds, es, InPool(pool));
    FitsPrefix(es, InPool(pool), k);
    PoolSumsAreSums(es[..k], pool);
  }

  lemma FitsAnyOrder(ds: seq<Delta>, es: seq<Delta>, f: Delta -> int)
    requires multiset(ds) == multiset(es) && Fits(ds, f)
    ensures Fits(es, f)
  {
    TotalIgnoresOrder(ds, es, Ups(f));
    TotalIgnoresOrder(ds, es, Downs(f));
  }

  /** The pools together move by the sum of all deltas. */
  lemma {:induction false} PoolSumsTotal(ds: seq<Delta>)
    ensures Sum(PoolSums(ds)) == Total(ds, (d: Delta) => d.amount)
  {
    if ds == [] {
    } else {
      var t, d := ds[..|ds| - 1], ds[|ds| - 1];
      PoolSumsTotal(t);
      SumUpdate(PoolSums(t), d.pool, Get(PoolSums(t), d.pool) + d.amount);
    }
  }

  /** Bins and pool sums, and with them the whole outcome, are the same for every order of the batch. */
  lemma BatchIgnoresOrder(ds: seq<Delta>, es: seq<Delta>, size: nat)
    requires size > 0 && multiset(ds) == multiset(es)
    requires forall i :: 0 <= i < size ==> Fits(ds, InBin(size, i))
    ensures Bins(ds, size) == Bins(es, size) && PoolSums(ds) == PoolSums(es)
  {
    forall i | 0 <= i < size ensures Bins(ds, size)[i] == Bins(es, size)[i] {
      FitsAnyOrder(ds, es, InBin(size, i));
      BinsAreSums(ds, size, i);
      BinsAreSums(es, size, i);
      TotalIgnoresOrder(ds, es, InBin(size, i));
    }
    var m, n := PoolSums(ds), PoolSums(es);
    forall p: PoolId ensures (p in m <==> p in n) && Get(m, p) == Get(n, p) {
      PoolSumsAreSums(ds, p);
      PoolSumsAreSums(es, p);
      TotalIgnoresOrder(ds, es, InPool(p));
      assert forall d :: d in ds <==> d in multiset(ds);
      assert forall d :: d in es <==> d in multiset(es);
    }
    assert m.Keys == n.Keys;
    assert forall p :: p in m ==> m[p] == Get(m, p) == n[p];
  }

  // ----- bounds from the positive deltas -----

  ghost function PositivePart(ds: seq<Delta>): nat {
    PositiveNonNegative(ds);
    Total(ds, (d: Delta) => Positive(d.amount))
  }

  lemma {:induction false} PositiveNonNegative(ds: seq<Delta>)
    ensures Total(ds, (d: Delta) => Positive(d.amount)) >= 0
  {
    if ds != [] {
      PositiveNonNegative(ds[..|ds| - 1]);
    }
  }

  /** The positive deltas by pool. */
  function Inflows(ds: seq<Delta>): (m: map<PoolId, int>)
    ensures NonNegative(m)
  {
    if ds == [] then map[]
    else
      var m := Inflows(ds[..|ds| - 1]);
      var d := ds[|ds| - 1];
      m[d.pool := Get(m, d.pool) + Positive(d.amount)]
  }

  lemma {:induction false} InflowsBound(ds: seq<Delta>)
    ensures Inflows(ds).Keys == PoolSums(ds).Keys
    ensures forall p :: p in PoolSums(ds) ==> PoolSums(ds)[p] <= Inflows(ds)[p]
    ensures Sum(Inflows(ds)) == PositivePart(ds)
  {
    if ds != [] {
      var t, d := ds[..|ds| - 1], ds[|ds| - 1];
      InflowsBound(t);
      SumUpdate(Inflows(t), d.pool, Get(Inflows(t), d.pool) + Positive(d.amount));
    }
  }

  lemma PositivePartAppend(ds: seq<Delta>, d: Delta)
    ensures PositivePart(ds + [d]) == PositivePart(ds) + Positive(d.amount)
  {
  }

  // ----- field encoding -----

  /** Remainder that takes the sign of the dividend. */
  function TruncRem(x: int, p: int): int
    requires p > 0
  {
    if x >= 0 then x % p else -(-x % p)
  }

  lemma TruncatedIsEuclidean(x: int)
    ensures var r := TruncRem(x, MODULUS);
            (if r < 0 then r + MODULUS else r) == x % MODULUS
  {
  }

  function SignedToField(x: int): (r: int)
    ensures 0 <= r < MODULUS && r == x % MODULUS
  {
    TruncatedIsEuclidean(x);
    var r := TruncRem(x, MODULUS);
    if r < 0 then r + MODULUS else r
  }

  function FieldToSigned(x: int): int {
    if x > MODULUS / 2 then x - MODULUS else x
  }

  /** The representable deltas: at most (MODULUS-1)/2 in absolute value. */
  predicate Representable(x: int) {
    -((MODULUS - 1) / 2) <= x <= (MODULUS - 1) / 2
  }

  /** Encoding and decoding returns a value exactly when it is representable. */
  lemma FieldRoundTrip(x: int)
    ensures FieldToSigned(SignedToField(x)) == x <==> Representable(x)
  {
  }
}
