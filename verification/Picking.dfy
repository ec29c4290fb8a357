/**
 How the ordering picks the next ready node, and when that choice deserves its name.
 */
module Picking {
  import opened Basics
  import opened VectorClocks

  /** What the scan looks at: a ready node's hash and clock. */
  datatype Entry = Entry(hash: TxHash, clock: VectorClock)

  /** The scan's test for replacing the best entry so far. */
  predicate Better(e: Entry, best: Entry) {
    e.clock.HappenedBefore(best.clock) || (e.clock.ConcurrentWith(best.clock) && e.hash < best.hash)
  }

  /** The index the left-to-right scan ends with. */
  function Pick(es: seq<Entry>): (i: nat)
    requires es != []
    ensures i < |es|
  {
    var n := |es| - 1;
    if n == 0 then 0
    else
      var p := Pick(es[..n]);
      if Better(es[n], es[p]) then n else p
  }

  ghost predicate DistinctHashes(es: seq<Entry>) {
    forall i, j :: 0 <= i < j < |es| ==> es[i].hash != es[j].hash
  }

  /** No other entry happened before entry i: what the scan is documented to return. */
  ghost predicate CausallyMinimal(es: seq<Entry>, i: nat)
    requires i < |es|
  {
    forall k :: 0 <= k < |es| ==> !es[k].clock.HappenedBefore(es[i].clock)
  }

  /** Entry i happened before every other entry. */
  ghost predicate Dominates(es: seq<Entry>, i: nat) {
    i < |es| && forall k :: 0 <= k < |es| && k != i ==> es[i].clock.HappenedBefore(es[k].clock)
  }

  ghost predicate ConcurrencyTransitive(clocks: set<VectorClock>) {
    forall a, b, c :: a in clocks && b in clocks && c in clocks && a.ConcurrentWith(b) && b.ConcurrentWith(c) ==> a.ConcurrentWith(c)
  }

  ghost predicate DrawnFrom(es: seq<Entry>, clocks: set<VectorClock>) {
    forall i :: 0 <= i < |es| ==> es[i].clock in clocks
  }

  // ----- unconditionally: a dominating entry is chosen -----

  lemma {:induction false} DominatingIsPicked(es: seq<Entry>, m: nat)
    requires Dominates(es, m)
    ensures Pick(es) == m
  {
    var n := |es| - 1;
    if n > 0 {
      var t := es[..n];
      if m < n {
        assert forall k :: 0 <= k < |t| ==> t[k] == es[k];
        DominatingIsPicked(t, m);
        Asymmetric(es[m].clock, es[n].clock);
      } else {
        assert es[n].clock.HappenedBefore(es[Pick(t)].clock);
      }
    }
  }

  // ----- when concurrency is transitive, the choice is the least entry -----

  /** Among entries that are all concurrent, the smallest hash wins. */
  lemma {:induction false} SmallestHashPicked(es: seq<Entry>)
    requires es != [] && forall i, j :: 0 <= i < j < |es| ==> es[i].clock.ConcurrentWith(es[j].clock)
    ensures forall i :: 0 <= i < |es| ==> es[Pick(es)].hash <= es[i].hash
  {
    hide VectorClock.HappenedBefore;
    var n := |es| - 1;
    if n > 0 {
      var t := es[..n];
      SmallestHashPicked(t);
      assert t[Pick(t)] == es[Pick(t)] && es[Pick(t)].clock.ConcurrentWith(es[n].clock);
      forall i | 0 <= i < n ensures es[Pick(es)].hash <= es[i].hash {
        assert t[i] == es[i];
      }
    }
  }

  lemma BetterTotal(a: Entry, b: Entry)
    requires a.hash != b.hash
    ensures Better(a, b) <==> !Better(b, a)
  {
  }

  lemma BetterTransitive(a: Entry, b: Entry, c: Entry, clocks: set<VectorClock>)
    requires ConcurrencyTransitive(clocks)
    requires a.clock in clocks && b.clock in clocks && c.clock in clocks
    requires Better(a, b) && Better(b, c)
    ensures Better(a, c)
  {
  }

  lemma {:induction false} PickIsLeast(es: seq<Entry>, clocks: set<VectorClock>)
    requires es != [] && DistinctHashes(es) && DrawnFrom(es, clocks) && ConcurrencyTransitive(clocks)
    ensures forall i :: 0 <= i < |es| && i != Pick(es) ==> Better(es[Pick(es)], es[i])
  {
    var n := |es| - 1;
    if n > 0 {
      var t := es[..n];
      assert forall k :: 0 <= k < |t| ==> t[k] == es[k];
      PickIsLeast(t, clocks);
      var p := Pick(t);
      BetterTotal(es[n], es[p]);
      if Better(es[n], es[p]) {
        forall i | 0 <= i < n ensures Better(es[n], es[i]) {
          if i != p {
            assert Better(t[p], t[i]);
            BetterTransitive(es[n], es[p], es[i], clocks);
          }
        }
      } else {
        forall i | 0 <= i <= n && i != p ensures Better(es[p], es[i]) {
          if i < n {
            assert Better(t[p], t[i]);
          }
        }
      }
    }
  }

  lemma BetterIsNotAfter(a: Entry, b: Entry)
    requires Better(a, b)
    ensures !b.clock.HappenedBefore(a.clock)
  {
  }

  /** The scan order is irrelevant. */
  lemma PickIgnoresOrder(es: seq<Entry>, fs: seq<Entry>, clocks: set<VectorClock>)
    requires es != [] && DistinctHashes(es) && DrawnFrom(es, clocks) && ConcurrencyTransitive(clocks)
    requires fs != [] && DistinctHashes(fs)
    requires forall e :: e in es <==> e in fs
    ensures es[Pick(es)] == fs[Pick(fs)]
  {
    PickIsLeast(es, clocks);
    forall i | 0 <= i < |fs| ensures fs[i].clock in clocks {
      assert fs[i] in es;
    }
    PickIsLeast(fs, clocks);
    var e, f := es[Pick(es)], fs[Pick(fs)];
    assert e in fs && f in es;
    if e != f {
      var i :| 0 <= i < |es| && es[i] == f;
      var j :| 0 <= j < |fs| && fs[j] == e;
      assert Better(e, f) && Better(f, e);
      if e.clock.HappenedBefore(f.clock) {
        Asymmetric(e.clock, f.clock);
      } else if f.clock.HappenedBefore(e.clock) {
        Asymmetric(f.clock, e.clock);
      }
    }
  }

  // ----- and only then -----

  /** Whatever hashes the nodes happen to have, and in whatever order they are scanned, a minimal node is picked. */
  ghost predicate AlwaysMinimal(clocks: set<VectorClock>) {
    forall es: seq<Entry> :: es != [] && DistinctHashes(es) && DrawnFrom(es, clocks) ==> CausallyMinimal(es, Pick(es))
  }

  /** Whatever hashes the nodes happen to have, the scan order does not matter. */
  ghost predicate OrderFree(clocks: set<VectorClock>) {
    forall es: seq<Entry>, fs: seq<Entry> ::
      es != [] && DistinctHashes(es) && DrawnFrom(es, clocks) && fs != [] && DistinctHashes(fs) && (forall e :: e in es <==> e in fs)
      ==> es[Pick(es)] == fs[Pick(fs)]
  }

  /** A node that happened before the chosen one: one clock is concurrent with both. */
  lemma MinimalMissed(a: VectorClock, b: VectorClock, c: VectorClock)
    requires a.HappenedBefore(c) && a.ConcurrentWith(b) && b.ConcurrentWith(c)
    ensures var x, y, z := Entry(2, a), Entry(1, b), Entry(0, c);
            && Pick([x, y, z]) == 2 && Pick([z, y, x]) == 2
            && !CausallyMinimal([x, y, z], 2)
  {
  }

  lemma NotBefore(a: VectorClock, b: VectorClock, k: OscillatorId)
    requires k in a.times && b.Get(k) < a.times[k]
    ensures !a.HappenedBefore(b)
  {
  }

  /** Clocks {0:1}, {1:1}, {0:2} with descending hashes. */
  function MissedEntries(): (es: seq<Entry>)
    ensures |es| == 3
  {
    [Entry(2, VectorClock(map[0 := 1])), Entry(1, VectorClock(map[1 := 1])), Entry(0, VectorClock(map[0 := 2]))]
  }

  /** The scan ends with the last of these entries, although the first happened before it. */
  lemma MinimalMissedExample()
    ensures var es := MissedEntries();
            && DistinctHashes(es) && Pick(es) == 2
            && es[0].clock.HappenedBefore(es[2].clock) && !CausallyMinimal(es, 2)
  {
    var a, b, c := VectorClock(map[0 := 1]), VectorClock(map[1 := 1]), VectorClock(map[0 := 2]);
    assert 0 in c.times && a.HappenedBefore(c);
    NotBefore(a, b, 0);
    NotBefore(b, a, 1);
    NotBefore(b, c, 1);
    NotBefore(c, b, 0);
    MinimalMissed(a, b, c);
  }

  /**
   The documented promises of the scan, a causally minimal result and independence of the
   scan order, each hold on a set of clocks exactly when concurrency is transitive there.
   */
  lemma PickPromises(clocks: set<VectorClock>)
    ensures AlwaysMinimal(clocks) <==> ConcurrencyTransitive(clocks)
    ensures OrderFree(clocks) <==> ConcurrencyTransitive(clocks)
  {
    if ConcurrencyTransitive(clocks) {
      TransitiveSuffices(clocks);
    } else {
      TransitiveNeeded(clocks);
    }
  }

  lemma TransitiveSuffices(clocks: set<VectorClock>)
    requires ConcurrencyTransitive(clocks)
    ensures AlwaysMinimal(clocks) && OrderFree(clocks)
  {
    forall es: seq<Entry> | es != [] && DistinctHashes(es) && DrawnFrom(es, clocks)
      ensures CausallyMinimal(es, Pick(es))
    {
      PickIsLeast(es, clocks);
      forall k | 0 <= k < |es| ensures !es[k].clock.HappenedBefore(es[Pick(es)].clock) {
        if k == Pick(es) {
          Irreflexive(es[k].clock);
        } else {
          BetterIsNotAfter(es[Pick(es)], es[k]);
        }
      }
    }
    forall es: seq<Entry>, fs: seq<Entry> |
      es != [] && DistinctHashes(es) && DrawnFrom(es, clocks) && fs != [] && DistinctHashes(fs) && (forall e :: e in es <==> e in fs)
      ensures es[Pick(es)] == fs[Pick(fs)]
    {
      PickIgnoresOrder(es, fs, clocks);
    }
  }

  lemma TransitiveNeeded(clocks: set<VectorClock>)
    requires !ConcurrencyTransitive(clocks)
    ensures !AlwaysMinimal(clocks) && !OrderFree(clocks)
  {
    var a, b, c :| a in clocks && b in clocks && c in clocks && a.ConcurrentWith(b) && b.ConcurrentWith(c) && !a.ConcurrentWith(c);
    if c.HappenedBefore(a) {
      a, c := c, a;
    }
    MissBreaksPromises(a, b, c, clocks);
  }

  lemma MissBreaksPromises(a: VectorClock, b: VectorClock, c: VectorClock, clocks: set<VectorClock>)
    requires a in clocks && b in clocks && c in clocks
    requires a.HappenedBefore(c) && a.ConcurrentWith(b) && b.ConcurrentWith(c)
    ensures !AlwaysMinimal(clocks) && !OrderFree(clocks)
  {
    MinimalMissed(a, b, c);
    var x, y, z := Entry(2, a), Entry(1, b), Entry(0, c);
    var es, fs := [x, y, z], [z, y, x];
    hide Pick, Better, CausallyMinimal;
    assert es != [] && DistinctHashes(es) && DrawnFrom(es, clocks) && fs != [] && DistinctHashes(fs);
    assert !CausallyMinimal(es, Pick(es));
    forall e ensures e in es <==> e in fs {
      assert e in es <==> e == x || e == y || e == z;
      assert e in fs <==> e == x || e == y || e == z;
    }
    assert es[Pick(es)] == z && fs[Pick(fs)] == x;
  }
}
