/**
 Kahn's ordering of the DAG, with the scan that picks among ready nodes.
 */
module Ordering {
  import opened Basics
  import opened VectorClocks
  import opened Picking
  import opened DagModel

  type Degrees = map<TxHash, nat>

  /** The placeholder hash of a cycle report. */
  const NO_HASH: TxHash := 0

  // ----- in-degrees -----

  /** Edges into c from the nodes in `from`. */
  ghost function EdgesFrom(nodes: Nodes, c: TxHash, from: set<TxHash>): nat
    requires c in nodes
  {
    |Preds(nodes, c) * from|
  }

  function Degree(d: Degrees, c: TxHash): nat {
    if c in d then d[c] else 0
  }

  lemma EdgesAdd(nodes: Nodes, c: TxHash, from: set<TxHash>, h: TxHash)
    requires Mirrored(nodes) && c in nodes && h in nodes && h !in from
    ensures EdgesFrom(nodes, c, from + {h}) == EdgesFrom(nodes, c, from) + if c in nodes[h].children then 1 else 0
  {
    var p := Preds(nodes, c);
    if h in p {
      assert p * (from + {h}) == p * from + {h};
    } else {
      assert p * (from + {h}) == p * from;
    }
  }

  lemma EdgesBounds(nodes: Nodes, c: TxHash)
    requires Mirrored(nodes) && c in nodes
    ensures EdgesFrom(nodes, c, {}) == 0
    ensures EdgesFrom(nodes, c, nodes.Keys) == |Preds(nodes, c)|
  {
    assert Preds(nodes, c) * {} == {};
    assert Preds(nodes, c) * nodes.Keys == Preds(nodes, c);
  }

  lemma ChildrenAreNodes(nodes: Nodes, h: TxHash)
    requires Mirrored(nodes) && h in nodes
    ensures nodes[h].children <= nodes.Keys
  {
  }

  /** The counters once the children of the nodes in `done` have been counted. */
  ghost predicate Counted(nodes: Nodes, d: Degrees, done: set<TxHash>) {
    && done <= d.Keys <= nodes.Keys
    && forall c :: c in nodes ==> Degree(d, c) == EdgesFrom(nodes, c, done)
  }

  lemma CountedNone(nodes: Nodes)
    requires Mirrored(nodes)
    ensures Counted(nodes, map[], {})
  {
  }

  lemma CountedAll(nodes: Nodes, d: Degrees)
    requires Mirrored(nodes) && Counted(nodes, d, nodes.Keys)
    ensures d.Keys == nodes.Keys && forall c :: c in nodes ==> d[c] == |Preds(nodes, c)|
  {
    hide EdgesFrom, Mirrored;
    forall c | c in nodes ensures d[c] == |Preds(nodes, c)| {
      EdgesBounds(nodes, c);
      assert d[c] == Degree(d, c);
    }
  }

  lemma CountedMore(nodes: Nodes, d: Degrees, d': Degrees, done: set<TxHash>, h: TxHash)
    requires Mirrored(nodes) && Counted(nodes, d, done) && h in nodes && h !in done
    requires d'.Keys == d.Keys + {h} + nodes[h].children
    requires forall c :: Degree(d', c) == Degree(d, c) + if c in nodes[h].children then 1 else 0
    ensures Counted(nodes, d', done + {h})
  {
    hide EdgesFrom, Mirrored, Degree;
    ChildrenAreNodes(nodes, h);
    forall c | c in nodes ensures Degree(d', c) == EdgesFrom(nodes, c, done + {h}) {
      EdgesAdd(nodes, c, done, h);
    }
  }

  /** Counting every node's children gives every node the number of its predecessors. */
  method InDegrees(nodes: Nodes) returns (inDegree: Degrees)
    requires Mirrored(nodes)
    ensures inDegree.Keys == nodes.Keys
    ensures forall c :: c in nodes ==> inDegree[c] == |Preds(nodes, c)|
  {
    hide Counted, Mirrored;
    inDegree := map[];
    CountedNone(nodes);
    var todo := nodes.Keys;
    ghost var done: set<TxHash> := {};
    while todo != {}
      invariant todo + done == nodes.Keys && todo !! done
      invariant Counted(nodes, inDegree, done)
      decreases todo
    {
      var h :| h in todo;
      var next := CountChildren(inDegree, h, nodes[h].children);
      CountedMore(nodes, inDegree, next, done, h);
      inDegree := next;
      todo, done := todo - {h}, done + {h};
    }
    assert done == nodes.Keys;
    CountedAll(nodes, inDegree);
  }

  /** One pass of the outer loop: enter the node itself, then count its children. */
  method CountChildren(before: Degrees, h: TxHash, children: set<TxHash>) returns (inDegree: Degrees)
    ensures inDegree.Keys == before.Keys + {h} + children
    ensures forall c :: Degree(inDegree, c) == Degree(before, c) + if c in children then 1 else 0
  {
    inDegree := if h in before then before else before[h := 0];
    var todo := children;
    while todo != {}
      invariant todo <= children
      invariant inDegree.Keys == before.Keys + {h} + (children - todo)
      invariant forall c :: Degree(inDegree, c) == Degree(before, c) + if c in children && c !in todo then 1 else 0
      decreases todo
    {
      var child :| child in todo;
      inDegree := inDegree[child := Degree(inDegree, child) + 1];
      todo := todo - {child};
    }
  }

  // ----- picking -----

  function Entries(nodes: Nodes, ready: seq<TxHash>): (es: seq<Entry>)
    requires forall h :: h in ready ==> h in nodes
    ensures |es| == |ready| && forall i :: 0 <= i < |es| ==> es[i] == EntryOf(nodes, ready[i])
  {
    seq(|ready|, i requires 0 <= i < |ready| => EntryOf(nodes, ready[i]))
  }

  method PickMinimalReady(nodes: Nodes, ready: seq<TxHash>) returns (best: Option<nat>)
    requires forall h :: h in ready ==> h in nodes
    ensures best == if ready == [] then None else Some(Pick(Entries(nodes, ready)))
  {
    hide VectorClock.HappenedBefore;
    if ready == [] {
      return None;
    }
    ghost var es := Entries(nodes, ready);
    var bestIdx, bestHash := 0, ready[0];
    var bestClock := nodes[bestHash].shift.vectorClock;
    assert es[..1] == [es[0]];
    var i := 1;
    while i < |ready|
      invariant 1 <= i <= |ready|
      invariant bestIdx < i && bestIdx == Pick(es[..i])
      invariant bestHash == ready[bestIdx] && bestClock == nodes[bestHash].shift.vectorClock
    {
      var h := ready[i];
      var vc := nodes[h].shift.vectorClock;
      assert es[..i + 1][..i] == es[..i] && es[..i + 1][i] == es[i] && es[..i][bestIdx] == es[bestIdx];
      if vc.HappenedBefore(bestClock) {
        bestIdx, bestHash, bestClock := i, h, vc;
      } else if vc.ConcurrentWith(bestClock) {
        if h < bestHash {
          bestIdx, bestHash, bestClock := i, h, vc;
        }
      }
      i := i + 1;
    }
    assert es[..|ready|] == es;
    best := Some(bestIdx);
  }

  /** The picked node among a duplicate-free list of ready nodes. */
  lemma PickedNode(nodes: Nodes, ready: seq<TxHash>)
    requires ready != [] && NoDuplicates(ready) && SeqSet(ready) <= nodes.Keys
    requires forall h :: h in ready ==> h in nodes
    ensures var h := ready[Pick(Entries(nodes, ready))];
            && (forall m :: CausallyFirst(nodes, SeqSet(ready), m) ==> h == m)
            && (ConcurrencyTransitive(Clocks(nodes)) ==> Least(nodes, SeqSet(ready), h))
  {
    var es := Entries(nodes, ready);
    var h := ready[Pick(es)];
    forall m | CausallyFirst(nodes, SeqSet(ready), m) ensures h == m {
      var i :| 0 <= i < |ready| && ready[i] == m;
      forall k | 0 <= k < |es| && k != i ensures es[i].clock.HappenedBefore(es[k].clock) {
        assert ready[k] in SeqSet(ready) && ready[k] != m;
      }
      DominatingIsPicked(es, i);
    }
    if ConcurrencyTransitive(Clocks(nodes)) {
      assert DistinctHashes(es);
      assert DrawnFrom(es, Clocks(nodes));
      PickIsLeast(es, Clocks(nodes));
      forall k | k in SeqSet(ready) && k != h ensures Better(EntryOf(nodes, h), EntryOf(nodes, k)) {
        var i :| 0 <= i < |ready| && ready[i] == k;
        assert Better(es[Pick(es)], es[i]);
      }
    }
  }

  // ----- the order -----

  /** Three unrelated transfers whose clocks and hashes are those of the missed entries. */
  function MissedNodes(): (nodes: Nodes)
    ensures nodes.Keys == {0, 1, 2}
  {
    var es := MissedEntries();
    map[
      2 := NewNode(2, RootShift(0, 1, es[0].clock, 2), 0, 1),
      1 := NewNode(1, RootShift(0, 1, es[1].clock, 1), 0, 1),
      0 := NewNode(0, RootShift(0, 1, es[2].clock, 0), 0, 1)]
  }

  /** A legal DAG in which all three are ready at once: scanned in this order, the one picked is not causally minimal. */
  lemma MinimalMissedInDag()
    ensures var nodes := MissedNodes();
            && Mirrored(nodes) && RootsAre(nodes, {0, 1, 2}) && TopologicalFor(nodes, [0, 1, 2]) && Ready(nodes, {}) == {0, 1, 2}
            && Entries(nodes, [2, 1, 0]) == MissedEntries()
            && !CausallyMinimal(Entries(nodes, [2, 1, 0]), Pick(Entries(nodes, [2, 1, 0])))
  {
    hide Pick, CausallyMinimal, VectorClock.HappenedBefore, Mirrored, RootsAre, TopologicalFor, Ready;
    var nodes := MissedNodes();
    MinimalMissedExample();
    UnlinkedIsLegal(nodes, [0, 1, 2]);
    assert Entries(nodes, [2, 1, 0]) == MissedEntries();
  }

  /** Taking the element at idx out of a list by moving the last one into its place. */
  function SwapRemove<T>(s: seq<T>, idx: nat): (r: seq<T>)
    requires idx < |s|
    ensures |r| == |s| - 1
  {
    var n := |s| - 1;
    if idx == n then s[..n] else s[..n][idx := s[n]]
  }

  lemma SwapRemoveSet<T>(s: seq<T>, idx: nat)
    requires idx < |s| && NoDuplicates(s)
    ensures NoDuplicates(SwapRemove(s, idx))
    ensures SeqSet(SwapRemove(s, idx)) == SeqSet(s) - {s[idx]}
  {
    var n, r := |s| - 1, SwapRemove(s, idx);
    forall x | x in s && x != s[idx] ensures x in r {
      var k :| 0 <= k < |s| && s[k] == x;
      assert x == r[if k == n then idx else k];
    }
  }

  /** The counters while h's children still in `todo` have not been decremented. */
  ghost predicate Counts(nodes: Nodes, inDegree: Degrees, done: set<TxHash>, todo: set<TxHash>) {
    && inDegree.Keys == nodes.Keys
    && forall c :: c in nodes ==> inDegree[c] == |Preds(nodes, c) - done| + if c in todo then 1 else 0
  }

  lemma PredsWithout(nodes: Nodes, c: TxHash, done: set<TxHash>, h: TxHash)
    requires Mirrored(nodes) && c in nodes && h in nodes && h !in done
    ensures |Preds(nodes, c) - done| == |Preds(nodes, c) - (done + {h})| + if c in nodes[h].children then 1 else 0
  {
    var p := Preds(nodes, c);
    if h in p {
      assert p - done == (p - (done + {h})) + {h};
    } else {
      assert p - done == p - (done + {h});
    }
  }

  lemma CountsStart(nodes: Nodes, inDegree: Degrees, done: set<TxHash>, h: TxHash)
    requires Mirrored(nodes) && Counts(nodes, inDegree, done, {}) && h in nodes && h !in done
    ensures Counts(nodes, inDegree, done + {h}, nodes[h].children)
  {
    hide Mirrored, Preds;
    forall c | c in nodes
      ensures inDegree[c] == |Preds(nodes, c) - (done + {h})| + if c in nodes[h].children then 1 else 0
    {
      PredsWithout(nodes, c, done, h);
    }
  }

  /** Ready once h is done, as far as the children outside `todo` have been released. */
  ghost function Released(nodes: Nodes, done: set<TxHash>, h: TxHash, todo: set<TxHash>): set<TxHash>
    requires Mirrored(nodes) && h in nodes
  {
    ChildrenAreNodes(nodes, h);
    (Ready(nodes, done) - {h}) + set c | c in nodes[h].children && c !in todo && Preds(nodes, c) <= done + {h}
  }

  lemma ReadyIsPending(nodes: Nodes, done: set<TxHash>, h: TxHash)
    requires h in Ready(nodes, done)
    ensures h in nodes && h !in done && Preds(nodes, h) <= done
  {
  }

  lemma ReleasedNone(nodes: Nodes, done: set<TxHash>, h: TxHash)
    requires Mirrored(nodes) && h in nodes
    ensures Released(nodes, done, h, nodes[h].children) == Ready(nodes, done) - {h}
  {
  }

  lemma CountsOne(nodes: Nodes, inDegree: Degrees, done: set<TxHash>, todo: set<TxHash>, child: TxHash)
    requires Counts(nodes, inDegree, done, todo) && child in todo && child in nodes
    ensures child in inDegree && inDegree[child] == |Preds(nodes, child) - done| + 1
    ensures Counts(nodes, inDegree[child := inDegree[child] - 1], done, todo - {child})
  {
  }

  lemma ReleasedOne(nodes: Nodes, done: set<TxHash>, h: TxHash, todo: set<TxHash>, child: TxHash)
    requires Mirrored(nodes) && h in nodes && h !in done
    requires child in todo && todo <= nodes[h].children
    ensures child in nodes && child !in Released(nodes, done, h, todo)
    ensures Released(nodes, done, h, todo - {child}) ==
            Released(nodes, done, h, todo) + if |Preds(nodes, child) - (done + {h})| == 0 then {child} else {}
  {
    ChildrenAreNodes(nodes, h);
    var rest := Preds(nodes, child) - (done + {h});
    assert rest == {} <==> Preds(nodes, child) <= done + {h};
    assert h in Preds(nodes, child);
    hide Mirrored, Preds;
  }

  lemma SeqSetAppend<T>(s: seq<T>, x: T)
    requires NoDuplicates(s) && x !in SeqSet(s)
    ensures NoDuplicates(s + [x]) && SeqSet(s + [x]) == SeqSet(s) + {x}
  {
  }

  /** Releasing the children of a node just ordered. */
  method Release(nodes: Nodes, inDegree0: Degrees, ready0: seq<TxHash>, h: TxHash, ghost done: set<TxHash>)
    returns (inDegree: Degrees, ready: seq<TxHash>)
    requires Mirrored(nodes) && h in Ready(nodes, done)
    requires Counts(nodes, inDegree0, done, {})
    requires NoDuplicates(ready0) && SeqSet(ready0) == Ready(nodes, done) - {h}
    requires forall c :: c in done ==> c in nodes && Preds(nodes, c) <= done
    ensures Counts(nodes, inDegree, done + {h}, {})
    ensures NoDuplicates(ready) && SeqSet(ready) == Ready(nodes, done + {h})
  {
    hide Ready, Preds, Counts, Mirrored, Released, SeqSet, NoDuplicates;
    ReadyIsPending(nodes, done, h);
    inDegree, ready := inDegree0, ready0;
    var todo := nodes[h].children;
    CountsStart(nodes, inDegree, done, h);
    ReleasedNone(nodes, done, h);
    ReadyAfter(nodes, done, h);
    while todo != {}
      invariant todo <= nodes[h].children
      invariant Counts(nodes, inDegree, done + {h}, todo)
      invariant NoDuplicates(ready) && SeqSet(ready) == Released(nodes, done, h, todo)
      decreases todo
    {
      var child :| child in todo;
      ReleasedOne(nodes, done, h, todo, child);
      CountsOne(nodes, inDegree, done + {h}, todo, child);
      inDegree := inDegree[child := inDegree[child] - 1];
      if inDegree[child] == 0 {
        SeqSetAppend(ready, child);
        ready := ready + [child];
      }
      todo := todo - {child};
    }
  }

  /** What is ready after h: what was ready before, and those children whose last predecessor h was. */
  lemma ReadyAfter(nodes: Nodes, done: set<TxHash>, h: TxHash)
    requires Mirrored(nodes) && h in Ready(nodes, done)
    requires forall c :: c in done ==> c in nodes && Preds(nodes, c) <= done
    ensures Ready(nodes, done + {h}) == Released(nodes, done, h, {})
  {
  }

  /** What the main loop keeps. */
  ghost predicate Running(nodes: Nodes, inDegree: Degrees, ready: seq<TxHash>, order: seq<TxHash>) {
    && Counts(nodes, inDegree, SeqSet(order), {})
    && NoDuplicates(ready) && SeqSet(ready) == Ready(nodes, SeqSet(order))
    && Prefix(nodes, order)
    && CausalPrecedence(nodes, order)
    && (ConcurrencyTransitive(Clocks(nodes)) ==> CanonicalFrom(nodes, {}) == order + CanonicalFrom(nodes, SeqSet(order)))
  }

  method InitialReady(roots: set<TxHash>, inDegree: Degrees) returns (ready: seq<TxHash>)
    ensures NoDuplicates(ready)
    ensures SeqSet(ready) == set h | h in roots && Degree(inDegree, h) == 0
  {
    ready := [];
    var todo := roots;
    while todo != {}
      invariant todo <= roots && NoDuplicates(ready)
      invariant SeqSet(ready) == set h | h in roots && h !in todo && Degree(inDegree, h) == 0
      decreases todo
    {
      var h :| h in todo;
      if Degree(inDegree, h) == 0 {
        assert h !in SeqSet(ready);
        SeqSetAppend(ready, h);
        ready := ready + [h];
      }
      todo := todo - {h};
    }
  }

  /** The roots are what is ready before anything is ordered. */
  lemma RunningStart(nodes: Nodes, roots: set<TxHash>, inDegree: Degrees, ready: seq<TxHash>)
    requires RootsAre(nodes, roots) && inDegree.Keys == nodes.Keys
    requires forall c :: c in nodes ==> inDegree[c] == |Preds(nodes, c)|
    requires NoDuplicates(ready) && SeqSet(ready) == set h | h in roots && Degree(inDegree, h) == 0
    ensures Running(nodes, inDegree, ready, [])
  {
    hide Preds, Ready, Counts, Prefix, CausalPrecedence, RootsAre, Clocks, ConcurrencyTransitive, CanonicalFrom, Degree, NoDuplicates, SeqSet;
    CountsBefore(nodes, inDegree);
    ReadyBefore(nodes, roots, inDegree);
    NothingOrdered(nodes);
  }

  lemma NothingOrdered(nodes: Nodes)
    ensures Prefix(nodes, []) && CausalPrecedence(nodes, []) && SeqSet<TxHash>([]) == {}
    ensures [] + CanonicalFrom(nodes, {}) == CanonicalFrom(nodes, {})
  {
    hide Ready, CausallyFirst, CanonicalFrom, Preds;
  }

  lemma CountsBefore(nodes: Nodes, inDegree: Degrees)
    requires inDegree.Keys == nodes.Keys
    requires forall c :: c in nodes ==> inDegree[c] == |Preds(nodes, c)|
    ensures Counts(nodes, inDegree, {}, {})
  {
  }

  lemma ReadyBefore(nodes: Nodes, roots: set<TxHash>, inDegree: Degrees)
    requires RootsAre(nodes, roots) && inDegree.Keys == nodes.Keys
    requires forall c :: c in nodes ==> inDegree[c] == |Preds(nodes, c)|
    ensures Ready(nodes, {}) == set h | h in roots && Degree(inDegree, h) == 0
  {
    forall c | c in nodes ensures c in Ready(nodes, {}) <==> c in roots && Degree(inDegree, c) == 0 {
      RootsHaveNoPreds(nodes, c);
    }
  }

  lemma RootsHaveNoPreds(nodes: Nodes, c: TxHash)
    requires c in nodes
    ensures Preds(nodes, c) == {} <==> nodes[c].shift.predecessors == []
    ensures Preds(nodes, c) <= {} <==> |Preds(nodes, c)| == 0
  {
    if nodes[c].shift.predecessors != [] {
      assert nodes[c].shift.predecessors[0] in Preds(nodes, c);
    }
  }

  /** One iteration, apart from the counters. */
  lemma OrderNext(nodes: Nodes, order: seq<TxHash>, h: TxHash)
    requires Prefix(nodes, order) && CausalPrecedence(nodes, order)
    requires h in Ready(nodes, SeqSet(order))
    requires forall m :: CausallyFirst(nodes, Ready(nodes, SeqSet(order)), m) ==> h == m
    ensures SeqSet(order + [h]) == SeqSet(order) + {h}
    ensures Prefix(nodes, order + [h]) && CausalPrecedence(nodes, order + [h])
  {
    var next := order + [h];
    assert h !in SeqSet(order);
    SeqSetAppend(order, h);
    hide NoDuplicates, CausallyFirst;
    assert forall i :: 0 <= i < |order| ==> next[..i] == order[..i];
    assert next[..|order|] == order;
  }

  lemma CanonicalNext(nodes: Nodes, order: seq<TxHash>, h: TxHash)
    requires CanonicalFrom(nodes, {}) == order + CanonicalFrom(nodes, SeqSet(order))
    requires Least(nodes, Ready(nodes, SeqSet(order)), h)
    requires SeqSet(order + [h]) == SeqSet(order) + {h}
    ensures CanonicalFrom(nodes, {}) == (order + [h]) + CanonicalFrom(nodes, SeqSet(order + [h]))
  {
    hide Least, Ready, CanonicalFrom;
    CanonicalStep(nodes, SeqSet(order), h);
    var rest := CanonicalFrom(nodes, SeqSet(order + [h]));
    assert order + ([h] + rest) == (order + [h]) + rest;
  }

  lemma DoneIsClosed(nodes: Nodes, order: seq<TxHash>)
    requires Prefix(nodes, order)
    ensures forall c :: c in SeqSet(order) ==> c in nodes && Preds(nodes, c) <= SeqSet(order)
  {
  }

  /** Nothing is ready: nothing canonical remains, and the order is complete. */
  lemma RunningEnd(nodes: Nodes, log: seq<TxHash>, inDegree: Degrees, order: seq<TxHash>)
    requires TopologicalFor(nodes, log) && Running(nodes, inDegree, [], order)
    ensures |order| == |nodes| && TopologicalFor(nodes, order) && CausalPrecedence(nodes, order)
    ensures ConcurrencyTransitive(Clocks(nodes)) ==> order == CanonicalFrom(nodes, {})
  {
    hide Counts, Prefix, TopologicalFor, CausalPrecedence, ConcurrencyTransitive, Clocks, CanonicalFrom;
    assert SeqSet<TxHash>([]) == {};
    PrefixComplete(nodes, log, order);
    CanonicalEnd(nodes, SeqSet(order));
  }

  lemma CanonicalEnd(nodes: Nodes, done: set<TxHash>)
    requires Ready(nodes, done) == {}
    ensures CanonicalFrom(nodes, done) == []
  {
  }

  /** One step of the main loop: pick, order, release. */
  method Step(nodes: Nodes, inDegree0: Degrees, ready0: seq<TxHash>, order0: seq<TxHash>)
    returns (inDegree: Degrees, ready: seq<TxHash>, order: seq<TxHash>)
    requires Mirrored(nodes) && ready0 != [] && Running(nodes, inDegree0, ready0, order0)
    ensures Running(nodes, inDegree, ready, order)
    ensures |order| == |order0| + 1
  {
    hide Mirrored, Counts, Ready, Preds, Prefix, CausalPrecedence, CausallyFirst, ConcurrencyTransitive, Least, CanonicalFrom, NoDuplicates, Clocks;
    ReadyAreNodes(nodes, SeqSet(order0));
    assert forall x :: x in ready0 ==> x in SeqSet(ready0);
    var idx := PickMinimalReady(nodes, ready0);
    var h := ready0[idx.value];
    PickedNode(nodes, ready0);
    assert h in SeqSet(ready0);
    OrderNext(nodes, order0, h);
    if ConcurrencyTransitive(Clocks(nodes)) {
      CanonicalNext(nodes, order0, h);
    }
    DoneIsClosed(nodes, order0);
    SwapRemoveSet(ready0, idx.value);
    order := order0 + [h];
    inDegree, ready := Release(nodes, inDegree0, SwapRemove(ready0, idx.value), h, SeqSet(order0));
  }

  lemma ReadyAreNodes(nodes: Nodes, done: set<TxHash>)
    ensures Ready(nodes, done) <= nodes.Keys
  {
  }

  /**
   The topological order always exists, lists every node once with predecessors first, takes a
   causally first node whenever one is ready, and depends only on the nodes when concurrency is transitive.
   */
  method TopologicalOrder(nodes: Nodes, roots: set<TxHash>, ghost log: seq<TxHash>) returns (r: Result<seq<TxHash>, DagError>)
    requires Mirrored(nodes) && TopologicalFor(nodes, log) && RootsAre(nodes, roots)
    ensures r.Ok?
    ensures TopologicalFor(nodes, r.value) && CausalPrecedence(nodes, r.value)
    ensures ConcurrencyTransitive(Clocks(nodes)) ==> r.value == CanonicalFrom(nodes, {})
  {
    hide Running, Mirrored, TopologicalFor, RootsAre;
    var inDegree := InDegrees(nodes);
    var ready := InitialReady(roots, inDegree);
    var order: seq<TxHash> := [];
    RunningStart(nodes, roots, inDegree, ready);
    while ready != []
      invariant Running(nodes, inDegree, ready, order)
      decreases |nodes| - |order|
    {
      inDegree, ready, order := Step(nodes, inDegree, ready, order);
      RunningShort(nodes, inDegree, ready, order);
    }
    RunningEnd(nodes, log, inDegree, order);
    if |order| != |nodes| {
      return Err(CausalCycle(NO_HASH));
    }
    r := Ok(order);
  }

  lemma RunningShort(nodes: Nodes, inDegree: Degrees, ready: seq<TxHash>, order: seq<TxHash>)
    requires Running(nodes, inDegree, ready, order)
    ensures |order| <= |nodes|
  {
    NoDuplicatesSize(order);
    SubsetSize(SeqSet(order), nodes.Keys);
  }

  lemma {:induction false} SubsetSize(a: set<TxHash>, b: set<TxHash>)
    requires a <= b
    ensures |a| <= |b|
  {
    assert b == a + (b - a);
  }
}
