/**
 The causal DAG as a value: its nodes, what insertion keeps, and its orders.
 */
module DagModel {
  import opened Basics
  import opened VectorClocks
  import opened Picking

  datatype StatefulShift = StatefulShift(
    domain: DomainId, from: AccountId, to: AccountId, amount: nat,
    vectorClock: VectorClock, predecessors: seq<TxHash>,
    nonce: nat, timestampNs: nat, firstSeenAtNs: nat, signature: Signature)

  datatype DagError =
    | MissingPredecessor(hash: TxHash)
    | InvalidSignature(hash: TxHash)
    | InsufficientBalance(hash: TxHash)
    | DoubleSpend(hash: TxHash)
    | CausalCycle(hash: TxHash)

  datatype ShiftStatus = Accepted | Rejected(error: DagError) | Finalized

  datatype DagNode = DagNode(
    hash: TxHash, shift: StatefulShift, children: set<TxHash>,
    insertedAtTick: nat, status: ShiftStatus, finalizationDepth: nat, firstSeenAtNs: nat,
    finalizedAtTick: Option<nat>, applied: bool)

  type Nodes = map<TxHash, DagNode>

  function Preds(nodes: Nodes, h: TxHash): set<TxHash>
    requires h in nodes
  {
    set p | p in nodes[h].shift.predecessors
  }

  function SeqSet<T>(s: seq<T>): set<T> {
    set x | x in s
  }

  ghost predicate NoDuplicates<T>(s: seq<T>) {
    forall i, j :: 0 <= i < j < |s| ==> s[i] != s[j]
  }

  // ----- the structural invariant -----

  /** Every node is filed under its own hash and its children mirror the predecessor lists. */
  ghost predicate Mirrored(nodes: Nodes) {
    && (forall h :: h in nodes ==> nodes[h].hash == h)
    && (forall h :: h in nodes ==> Preds(nodes, h) <= nodes.Keys)
    && (forall h, c :: h in nodes ==> (c in nodes[h].children <==> c in nodes && h in Preds(nodes, c)))
  }

  /** `log` lists the nodes so that every predecessor comes before its successors. */
  ghost predicate TopologicalFor(nodes: Nodes, log: seq<TxHash>) {
    && NoDuplicates(log)
    && SeqSet(log) == nodes.Keys
    && (forall i :: 0 <= i < |log| ==> log[i] in nodes && Preds(nodes, log[i]) <= SeqSet(log[..i]))
  }

  ghost predicate RootsAre(nodes: Nodes, roots: set<TxHash>) {
    roots == set h | h in nodes && nodes[h].shift.predecessors == []
  }

  // ----- inserting one node -----

  function Linked(nodes: Nodes, preds: seq<TxHash>, hash: TxHash): Nodes {
    map h | h in nodes :: if h in preds then nodes[h].(children := nodes[h].children + {hash}) else nodes[h]
  }

  function NewNode(hash: TxHash, shift: StatefulShift, tick: nat, depth: nat): DagNode {
    DagNode(hash, shift, {}, tick, Accepted, depth, shift.firstSeenAtNs, None, false)
  }

  function Inserted(nodes: Nodes, hash: TxHash, shift: StatefulShift, tick: nat, depth: nat): Nodes {
    Linked(nodes, shift.predecessors, hash)[hash := NewNode(hash, shift, tick, depth)]
  }

  lemma InsertedShifts(nodes: Nodes, hash: TxHash, shift: StatefulShift, tick: nat, depth: nat)
    requires hash !in nodes
    ensures var n := Inserted(nodes, hash, shift, tick, depth);
            && n.Keys == nodes.Keys + {hash} && n[hash].shift == shift
            && (forall h :: h in nodes ==> n[h].shift == nodes[h].shift && n[h].status == nodes[h].status && n[h].applied == nodes[h].applied)
            && (forall h :: h in nodes ==> Preds(n, h) == Preds(nodes, h))
  {
  }

  lemma InsertMirrored(nodes: Nodes, hash: TxHash, shift: StatefulShift, tick: nat, depth: nat)
    requires Mirrored(nodes) && hash !in nodes
    requires forall p :: p in shift.predecessors ==> p in nodes
    ensures Mirrored(Inserted(nodes, hash, shift, tick, depth))
  {
    var n := Inserted(nodes, hash, shift, tick, depth);
    InsertedShifts(nodes, hash, shift, tick, depth);
    forall h, c | h in n ensures c in n[h].children <==> c in n && h in Preds(n, c) {
      if c in nodes && h == hash {
        assert Preds(nodes, c) <= nodes.Keys;
      }
    }
  }

  lemma InsertTopological(nodes: Nodes, log: seq<TxHash>, hash: TxHash, shift: StatefulShift, tick: nat, depth: nat)
    requires TopologicalFor(nodes, log) && hash !in nodes
    requires forall p :: p in shift.predecessors ==> p in nodes
    ensures TopologicalFor(Inserted(nodes, hash, shift, tick, depth), log + [hash])
  {
    var n, l := Inserted(nodes, hash, shift, tick, depth), log + [hash];
    InsertedShifts(nodes, hash, shift, tick, depth);
    assert hash !in SeqSet(log);
    assert SeqSet(l) == SeqSet(log) + {hash};
    forall i | 0 <= i < |l| ensures l[i] in n && Preds(n, l[i]) <= SeqSet(l[..i]) {
      if i < |log| {
        assert l[..i] == log[..i];
      } else {
        assert l[..i] == log;
      }
    }
  }

  // ----- DAGs without edges -----

  /** A transfer between two accounts with the given clock and no predecessors. */
  function RootShift(from: AccountId, amount: nat, clock: VectorClock, nonce: nat): StatefulShift {
    StatefulShift(0, from, from + 1, amount, clock, [], nonce, 0, 1, nonce)
  }

  /** Nodes without edges, each under its own hash. */
  ghost predicate Unlinked(nodes: Nodes) {
    forall h :: h in nodes ==> nodes[h].hash == h && nodes[h].children == {} && nodes[h].shift.predecessors == []
  }

  /** Such nodes are a legal DAG in which everything is a root and ready at once. */
  lemma UnlinkedIsLegal(nodes: Nodes, order: seq<TxHash>)
    requires Unlinked(nodes) && Lists(order, nodes.Keys)
    ensures Mirrored(nodes) && RootsAre(nodes, nodes.Keys) && TopologicalFor(nodes, order) && Ready(nodes, {}) == nodes.Keys
  {
    forall h | h in nodes ensures Preds(nodes, h) == {} {
    }
    hide Preds;
    assert SeqSet(order) == nodes.Keys;
  }

  // ----- Kahn's algorithm, as sets -----

  /** The nodes that may come next once `done` has been ordered. */
  ghost function Ready(nodes: Nodes, done: set<TxHash>): set<TxHash>
  {
    set h | h in nodes && h !in done && Preds(nodes, h) <= done
  }

  /** Ordered so far: every node once, predecessors first. */
  ghost predicate Prefix(nodes: Nodes, order: seq<TxHash>) {
    && NoDuplicates(order)
    && SeqSet(order) <= nodes.Keys
    && (forall i :: 0 <= i < |order| ==> Preds(nodes, order[i]) <= SeqSet(order[..i]))
  }

  /** As long as nodes are missing, one of them is ready: the log rules cycles out. */
  lemma {:induction false} SomethingReady(nodes: Nodes, log: seq<TxHash>, done: set<TxHash>, i: nat)
    requires TopologicalFor(nodes, log) && i <= |log|
    requires Ready(nodes, done) == {}
    ensures SeqSet(log[..i]) <= done
  {
    if i == 0 {
    } else {
      SomethingReady(nodes, log, done, i - 1);
      var h := log[i - 1];
      assert h in nodes && Preds(nodes, h) <= done;
      assert h !in Ready(nodes, done);
      assert log[..i] == log[..i - 1] + [h];
    }
  }

  lemma {:induction false} NoDuplicatesSize<T>(s: seq<T>)
    requires NoDuplicates(s)
    ensures |SeqSet(s)| == |s|
  {
    if s == [] {
    } else {
      var n := |s| - 1;
      NoDuplicatesSize(s[..n]);
      assert SeqSet(s) == SeqSet(s[..n]) + {s[n]};
      assert s[n] !in s[..n];
    }
  }

  /** When nothing is ready any more, everything has been ordered. */
  lemma PrefixComplete(nodes: Nodes, log: seq<TxHash>, order: seq<TxHash>)
    requires TopologicalFor(nodes, log) && Prefix(nodes, order)
    requires Ready(nodes, SeqSet(order)) == {}
    ensures |order| == |nodes| && TopologicalFor(nodes, order)
  {
    SomethingReady(nodes, log, SeqSet(order), |log|);
    assert log[..|log|] == log;
    NoDuplicatesSize(order);
    assert SeqSet(order) == nodes.Keys && |nodes.Keys| == |nodes|;
    forall i | 0 <= i < |order| ensures order[i] in nodes {
      assert order[i] in SeqSet(order);
    }
  }

  // ----- the order as a function of the DAG alone -----

  function EntryOf(nodes: Nodes, h: TxHash): Entry
    requires h in nodes
  {
    Entry(h, nodes[h].shift.vectorClock)
  }

  ghost function Clocks(nodes: Nodes): set<VectorClock> {
    set h | h in nodes :: nodes[h].shift.vectorClock
  }

  /** h comes before every other member of s in the causal-then-hash comparison. */
  ghost predicate Least(nodes: Nodes, s: set<TxHash>, h: TxHash)
    requires s <= nodes.Keys
  {
    h in s && forall k :: k in s && k != h ==> Better(EntryOf(nodes, h), EntryOf(nodes, k))
  }

  /** h causally precedes every other member of s. */
  ghost predicate CausallyFirst(nodes: Nodes, s: set<TxHash>, h: TxHash)
    requires s <= nodes.Keys
  {
    h in s && forall k :: k in s && k != h ==> nodes[h].shift.vectorClock.HappenedBefore(nodes[k].shift.vectorClock)
  }

  lemma LeastUnique(nodes: Nodes, s: set<TxHash>, h: TxHash, k: TxHash)
    requires s <= nodes.Keys && Least(nodes, s, h) && Least(nodes, s, k)
    ensures h == k
  {
  }

  /** Repeatedly taking the least ready node. */
  ghost function CanonicalFrom(nodes: Nodes, done: set<TxHash>): seq<TxHash>
    decreases nodes.Keys - done
  {
    if exists h :: Least(nodes, Ready(nodes, done), h) then
      var h :| Least(nodes, Ready(nodes, done), h);
      [h] + CanonicalFrom(nodes, done + {h})
    else []
  }

  lemma CanonicalStep(nodes: Nodes, done: set<TxHash>, h: TxHash)
    requires Least(nodes, Ready(nodes, done), h)
    ensures CanonicalFrom(nodes, done) == [h] + CanonicalFrom(nodes, done + {h})
  {
    var r := Ready(nodes, done);
    forall k | Least(nodes, r, k) ensures k == h {
      LeastUnique(nodes, r, h, k);
    }
  }

  /** At every position, a ready node that causally precedes all other ready nodes is the one taken. */
  ghost predicate CausalPrecedence(nodes: Nodes, order: seq<TxHash>) {
    forall i, m :: 0 <= i < |order| && CausallyFirst(nodes, Ready(nodes, SeqSet(order[..i])), m) ==> order[i] == m
  }
}
