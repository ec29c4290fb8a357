/**
 Vector clocks: the code's comparison by map entries, and the order it stands for.
 */
module VectorClocks {

  type OscillatorId = nat

  datatype VectorClock = VectorClock(times: map<OscillatorId, nat>)
  {
    function Get(node: OscillatorId): nat {
      if node in times then times[node] else 0
    }

    function Tick(node: OscillatorId): VectorClock {
      VectorClock(times[node := Get(node) + 1])
    }

    function Merge(other: VectorClock): VectorClock {
      VectorClock(map n | n in times.Keys + other.times.Keys ::
                    if Get(n) >= other.Get(n) then Get(n) else other.Get(n))
    }

    predicate HappenedBefore(other: VectorClock) {
      && (forall k :: k in times ==> other.Get(k) >= times[k])
      && (exists k :: k in other.times && Get(k) < other.times[k])
    }

    predicate ConcurrentWith(other: VectorClock) {
      !HappenedBefore(other) && !other.HappenedBefore(this)
    }

    /** Pointwise order, absent entries counting as zero. */
    ghost predicate AtMost(other: VectorClock) {
      forall k :: Get(k) <= other.Get(k)
    }
  }

  const EMPTY := VectorClock(map[])

  /** The in-place merge: one pass over the other clock's entries. */
  method MergeLoop(self: VectorClock, other: VectorClock) returns (r: VectorClock)
    ensures r == self.Merge(other)
  {
    var times := self.times;
    var todo := other.times.Keys;
    while todo != {}
      invariant todo <= other.times.Keys
      invariant times.Keys == self.times.Keys + (other.times.Keys - todo)
      invariant forall n :: n in times ==> times[n] == if n in todo then self.Get(n) else self.Merge(other).times[n]
      decreases todo
    {
      var node :| node in todo;
      var entry := if node in times then times[node] else 0;
      var time := other.times[node];
      times := times[node := if entry >= time then entry else time];
      todo := todo - {node};
    }
    r := VectorClock(times);
    assert r.times == self.Merge(other).times;
  }

  /** The comparison by entries is the strict part of the pointwise order. */
  lemma HappenedBeforeIsStrict(a: VectorClock, b: VectorClock)
    ensures a.HappenedBefore(b) <==> a.AtMost(b) && !b.AtMost(a)
  {
  }

  /** Two clocks are concurrent when each is ahead of the other somewhere, or neither anywhere. */
  lemma ConcurrentMeans(a: VectorClock, b: VectorClock)
    ensures a.ConcurrentWith(b) <==> ((exists k :: a.Get(k) > b.Get(k)) <==> (exists k :: b.Get(k) > a.Get(k)))
  {
    HappenedBeforeIsStrict(a, b);
    HappenedBeforeIsStrict(b, a);
  }

  lemma AtMostItself(a: VectorClock)
    ensures a.AtMost(a)
  {
  }

  lemma AtMostTransitive(a: VectorClock, b: VectorClock, c: VectorClock)
    requires a.AtMost(b) && b.AtMost(c)
    ensures a.AtMost(c)
  {
  }

  lemma Irreflexive(a: VectorClock)
    ensures !a.HappenedBefore(a)
  {
  }

  lemma Transitive(a: VectorClock, b: VectorClock, c: VectorClock)
    requires a.HappenedBefore(b) && b.HappenedBefore(c)
    ensures a.HappenedBefore(c)
  {
  }

  lemma Asymmetric(a: VectorClock, b: VectorClock)
    requires a.HappenedBefore(b)
    ensures !b.HappenedBefore(a)
  {
  }

  /** Merge is the least upper bound. */
  lemma MergeIsJoin(a: VectorClock, b: VectorClock, c: VectorClock)
    ensures a.AtMost(a.Merge(b)) && b.AtMost(a.Merge(b))
    ensures a.Merge(b).AtMost(c) <==> a.AtMost(c) && b.AtMost(c)
  {
  }

  /** Ticking moves a clock strictly forward, by one entry. */
  lemma TickAdvances(a: VectorClock, node: OscillatorId)
    ensures a.HappenedBefore(a.Tick(node))
    ensures forall k :: a.Tick(node).Get(k) == if k == node then a.Get(k) + 1 else a.Get(k)
  {
  }
}
