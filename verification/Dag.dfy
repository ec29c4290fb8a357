/**
 The vector-clock DAG as the node keeps it: insertion, clock derivation,
 finalization and ordering, all by updates to its maps.
 */
module Dag {
  import opened Basics
  import opened VectorClocks
  import opened Picking
  import opened DagModel
  import Ordering
  import DoubleSpends

  type Hasher = StatefulShift -> TxHash
  type Verifier = (PublicKey, StatefulShift) -> bool

  datatype ClockError = WrongOwnTime | UnseenNode | MissingOwnEntry

  // ----- what the causal bookkeeping means -----

  /** Every inserted clock is below its sender's tip, and every tip below the maximum. */
  ghost predicate ClocksBounded(nodes: Nodes, accountTips: map<AccountId, VectorClock>, maxClock: VectorClock) {
    && (forall a :: a in accountTips ==> accountTips[a].AtMost(maxClock))
    && (forall h :: h in nodes ==> nodes[h].shift.from in accountTips && nodes[h].shift.vectorClock.AtMost(accountTips[nodes[h].shift.from]))
  }

  /** Nothing a sender inserted happened after the tip recorded for it. */
  ghost predicate TipsCurrent(nodes: Nodes, tips: map<AccountId, TxHash>) {
    && (forall h :: h in nodes ==> nodes[h].shift.from in tips)
    && (forall a :: a in tips ==> tips[a] in nodes && nodes[tips[a]].shift.from == a)
    && (forall h :: h in nodes ==> !nodes[tips[nodes[h].shift.from]].shift.vectorClock.HappenedBefore(nodes[h].shift.vectorClock))
  }

  /** Everything insertion keeps. */
  ghost predicate WellFormed(nodes: Nodes, roots: set<TxHash>, tips: map<AccountId, TxHash>,
                             accountTips: map<AccountId, VectorClock>, maxClock: VectorClock, log: seq<TxHash>)
  {
    && Mirrored(nodes) && TopologicalFor(nodes, log) && RootsAre(nodes, roots)
    && ClocksBounded(nodes, accountTips, maxClock) && TipsCurrent(nodes, tips)
  }

  function AccountTip(accountTips: map<AccountId, VectorClock>, account: AccountId): VectorClock {
    if account in accountTips then accountTips[account] else EMPTY
  }

  /** An entry of a submitted clock that breaks its rule. */
  predicate Faulty(accountTips: map<AccountId, VectorClock>, maxClock: VectorClock, sender: AccountId, vc: VectorClock, node: AccountId) {
    && node in vc.times
    && if node == sender then vc.times[node] != AccountTip(accountTips, sender).Get(sender) + 1
       else vc.times[node] > maxClock.Get(node)
  }

  lemma {:induction false} SmallestOf(s: set<nat>) returns (k: nat)
    requires s != {}
    ensures k in s && forall x :: x in s ==> k <= x
    decreases |s|
  {
    k :| k in s;
    var rest := s - {k};
    assert forall x :: x in s ==> x == k || x in rest;
    if rest != {} {
      var m := SmallestOf(rest);
      k := if m < k then m else k;
    }
  }

  lemma SmallestExists(s: set<nat>)
    requires s != {}
    ensures exists k :: k in s && forall x :: x in s ==> k <= x
  {
    var k := SmallestOf(s);
  }

  function Smallest(s: set<nat>): (k: nat)
    requires s != {}
    ensures k in s && forall x :: x in s ==> k <= x
  {
    SmallestExists(s);
    var k :| k in s && forall x :: x in s ==> k <= x;
    k
  }

  /** The rules a submitted clock must meet. */
  ghost predicate Acceptable(accountTips: map<AccountId, VectorClock>, maxClock: VectorClock, sender: AccountId, vc: VectorClock) {
    && sender in vc.times
    && forall node :: node in vc.times ==> !Faulty(accountTips, maxClock, sender, vc, node)
  }

  lemma FaultyMeans(accountTips: map<AccountId, VectorClock>, maxClock: VectorClock, sender: AccountId, vc: VectorClock, node: AccountId)
    ensures Faulty(accountTips, maxClock, sender, vc, node) <==>
            && node in vc.times
            && if node == sender then vc.times[node] != AccountTip(accountTips, sender).Get(sender) + 1 else vc.times[node] > maxClock.Get(node)
  {
  }

  lemma FaultsAreEntries(accountTips: map<AccountId, VectorClock>, maxClock: VectorClock, sender: AccountId, vc: VectorClock)
    ensures forall node :: Faulty(accountTips, maxClock, sender, vc, node) ==> node in vc.times
  {
  }

  /** The first faulty entry, in the ascending order in which clocks are gone through. */
  ghost predicate FirstFault(accountTips: map<AccountId, VectorClock>, maxClock: VectorClock, sender: AccountId, vc: VectorClock, node: AccountId) {
    && Faulty(accountTips, maxClock, sender, vc, node)
    && forall k: AccountId :: k < node ==> !Faulty(accountTips, maxClock, sender, vc, k)
  }

  /** A derived clock obeys the rules, and is the sender's tip advanced by one. */
  lemma DerivedIsAcceptable(nodes: Nodes, accountTips: map<AccountId, VectorClock>, maxClock: VectorClock, sender: AccountId)
    requires ClocksBounded(nodes, accountTips, maxClock)
    ensures Acceptable(accountTips, maxClock, sender, AccountTip(accountTips, sender).Tick(sender))
  {
  }

  function FirstMissing(nodes: Nodes, preds: seq<TxHash>): Option<TxHash> {
    if preds == [] then None
    else if preds[0] !in nodes then Some(preds[0])
    else FirstMissing(nodes, preds[1..])
  }

  lemma {:induction false} FirstMissingMeaning(nodes: Nodes, preds: seq<TxHash>)
    ensures FirstMissing(nodes, preds).None? <==> forall p :: p in preds ==> p in nodes
    ensures FirstMissing(nodes, preds).Some? ==> FirstMissing(nodes, preds).value in preds && FirstMissing(nodes, preds).value !in nodes
  {
    if preds == [] {
    } else {
      FirstMissingMeaning(nodes, preds[1..]);
      assert preds == [preds[0]] + preds[1..];
    }
  }

  /** The tip after a sender's shift with this clock has been filed. */
  function NextTip(nodes: Nodes, tips: map<AccountId, TxHash>, shift: StatefulShift, hash: TxHash): TxHash {
    if shift.from !in tips then hash
    else if tips[shift.from] !in nodes then hash
    else if nodes[tips[shift.from]].shift.vectorClock.HappenedBefore(shift.vectorClock) then hash
    else tips[shift.from]
  }

  /** The sender's clock tip after its shift has been filed. */
  function NextClock(accountTips: map<AccountId, VectorClock>, shift: StatefulShift): VectorClock {
    if shift.from in accountTips then accountTips[shift.from].Merge(shift.vectorClock) else shift.vectorClock
  }

  lemma InsertClocks(nodes: Nodes, accountTips: map<AccountId, VectorClock>, maxClock: VectorClock,
                     hash: TxHash, shift: StatefulShift, tick: nat, depth: nat)
    requires ClocksBounded(nodes, accountTips, maxClock) && hash !in nodes
    ensures ClocksBounded(Inserted(nodes, hash, shift, tick, depth),
                          accountTips[shift.from := NextClock(accountTips, shift)], maxClock.Merge(shift.vectorClock))
  {
    hide Inserted, Preds, VectorClock.Merge, VectorClock.AtMost;
    var vc := shift.vectorClock;
    var n := Inserted(nodes, hash, shift, tick, depth);
    var tip := NextClock(accountTips, shift);
    var t, m := accountTips[shift.from := tip], maxClock.Merge(vc);
    InsertedShifts(nodes, hash, shift, tick, depth);
    MergeIsJoin(maxClock, vc, m);
    AtMostItself(m);
    AtMostItself(tip);
    forall a | a in t ensures t[a].AtMost(m) {
      if a in accountTips {
        AtMostTransitive(accountTips[a], maxClock, m);
        MergeIsJoin(accountTips[a], vc, m);
      }
    }
    forall h | h in n ensures n[h].shift.from in t && n[h].shift.vectorClock.AtMost(t[n[h].shift.from]) {
      if shift.from in accountTips {
        MergeIsJoin(accountTips[shift.from], vc, tip);
      }
      if h != hash {
        var was := accountTips[nodes[h].shift.from];
        assert nodes[h].shift.vectorClock.AtMost(was);
        if nodes[h].shift.from == shift.from {
          AtMostTransitive(nodes[h].shift.vectorClock, was, tip);
        }
      }
    }
  }

  lemma InsertTips(nodes: Nodes, tips: map<AccountId, TxHash>, hash: TxHash, shift: StatefulShift, tick: nat, depth: nat)
    requires TipsCurrent(nodes, tips) && hash !in nodes
    ensures var n := Inserted(nodes, hash, shift, tick, depth);
            TipsCurrent(n, tips[shift.from := NextTip(n, tips, shift, hash)])
  {
    var n := Inserted(nodes, hash, shift, tick, depth);
    hide Inserted, NextTip, TipsCurrent, VectorClock.HappenedBefore, Preds;
    InsertedShifts(nodes, hash, shift, tick, depth);
    TipNotOvertaken(nodes, tips, n, hash, shift, hash);
    forall h | h in n && n[h].shift.from == shift.from
      ensures !n[NextTip(n, tips, shift, hash)].shift.vectorClock.HappenedBefore(n[h].shift.vectorClock)
    {
      TipNotOvertaken(nodes, tips, n, hash, shift, h);
    }
    TipsFromPoint(nodes, tips, n, hash, shift, NextTip(n, tips, shift, hash));
  }

  lemma TipsFromPoint(nodes: Nodes, tips: map<AccountId, TxHash>, n: Nodes, hash: TxHash, shift: StatefulShift, tip: TxHash)
    requires TipsCurrent(nodes, tips) && hash !in nodes
    requires n.Keys == nodes.Keys + {hash} && n[hash].shift == shift
    requires forall k :: k in nodes ==> n[k].shift == nodes[k].shift
    requires tip in n && n[tip].shift.from == shift.from
    requires forall h :: h in n && n[h].shift.from == shift.from ==> !n[tip].shift.vectorClock.HappenedBefore(n[h].shift.vectorClock)
    ensures TipsCurrent(n, tips[shift.from := tip])
  {
    hide VectorClock.HappenedBefore;
  }

  /** The new tip of the inserting sender is not before any of its shifts. */
  lemma TipNotOvertaken(nodes: Nodes, tips: map<AccountId, TxHash>, n: Nodes, hash: TxHash, shift: StatefulShift, h: TxHash)
    requires TipsCurrent(nodes, tips) && hash !in nodes
    requires n.Keys == nodes.Keys + {hash} && n[hash].shift == shift
    requires forall k :: k in nodes ==> n[k].shift == nodes[k].shift
    requires h in n && n[h].shift.from == shift.from
    ensures NextTip(n, tips, shift, hash) in n && n[NextTip(n, tips, shift, hash)].shift.from == shift.from
    ensures !n[NextTip(n, tips, shift, hash)].shift.vectorClock.HappenedBefore(n[h].shift.vectorClock)
  {
    Irreflexive(shift.vectorClock);
    hide VectorClock.HappenedBefore;
    if shift.from in tips {
      var tip := nodes[tips[shift.from]].shift.vectorClock;
      if h != hash && tip.HappenedBefore(shift.vectorClock) && shift.vectorClock.HappenedBefore(n[h].shift.vectorClock) {
        Transitive(tip, shift.vectorClock, n[h].shift.vectorClock);
      }
    } else {
      assert h == hash;
    }
  }

  lemma InsertWellFormed(nodes: Nodes, roots: set<TxHash>, tips: map<AccountId, TxHash>, accountTips: map<AccountId, VectorClock>,
                         maxClock: VectorClock, log: seq<TxHash>, hash: TxHash, shift: StatefulShift, tick: nat, depth: nat)
    requires WellFormed(nodes, roots, tips, accountTips, maxClock, log) && hash !in nodes
    requires forall p :: p in shift.predecessors ==> p in nodes
    ensures var n := Inserted(nodes, hash, shift, tick, depth);
            WellFormed(n, if shift.predecessors == [] then roots + {hash} else roots,
                       tips[shift.from := NextTip(n, tips, shift, hash)],
                       accountTips[shift.from := NextClock(accountTips, shift)],
                       maxClock.Merge(shift.vectorClock), log + [hash])
  {
    InsertMirrored(nodes, hash, shift, tick, depth);
    InsertTopological(nodes, log, hash, shift, tick, depth);
    InsertRoots(nodes, roots, hash, shift, tick, depth);
    InsertClocks(nodes, accountTips, maxClock, hash, shift, tick, depth);
    InsertTips(nodes, tips, hash, shift, tick, depth);
  }

  // ----- finalization -----

  predicate Promotable(node: DagNode, tick: nat) {
    node.status == Accepted && (if tick < node.insertedAtTick then 0 else tick - node.insertedAtTick) >= node.finalizationDepth
  }

  function Promoted(nodes: Nodes, tick: nat): Nodes {
    map h | h in nodes ::
      if Promotable(nodes[h], tick) then nodes[h].(status := Finalized, finalizedAtTick := Some(tick)) else nodes[h]
  }

  /** Finalization in the source's numbers: accepted, and inserted at least the domain's depth of ticks ago. */
  lemma PromotedMeans(nodes: Nodes, tick: nat, h: TxHash)
    requires h in nodes
    ensures var n := nodes[h];
            Promoted(nodes, tick)[h] ==
            if n.status == Accepted && (tick >= n.insertedAtTick + n.finalizationDepth || n.finalizationDepth == 0)
            then n.(status := Finalized, finalizedAtTick := Some(tick)) else n
  {
  }

  /** The nodes with those in `bad` rejected as double spends. */
  function Marked(nodes: Nodes, bad: set<TxHash>): Nodes {
    map h | h in nodes :: if h in bad then nodes[h].(status := Rejected(DoubleSpend(h))) else nodes[h]
  }

  lemma MarkedNext(nodes: Nodes, violations: seq<DagError>, i: nat)
    requires i < |violations|
    ensures var h := violations[i].hash;
            var m := Marked(nodes, set e | e in violations[..i] :: e.hash);
            Marked(nodes, set e | e in violations[..i + 1] :: e.hash) ==
            if h in m then m[h := m[h].(status := Rejected(DoubleSpend(h)))] else m
  {
  }

  /** The nodes with those in `done` marked as applied. */
  function WithApplied(nodes: Nodes, done: set<TxHash>): Nodes {
    map h | h in nodes :: if h in done then nodes[h].(applied := true) else nodes[h]
  }

  lemma AppliedNext(nodes: Nodes, hashes: seq<TxHash>, i: nat)
    requires i < |hashes|
    ensures var m := WithApplied(nodes, SeqSet(hashes[..i]));
            WithApplied(nodes, SeqSet(hashes[..i + 1])) ==
            if hashes[i] in m then m[hashes[i] := m[hashes[i]].(applied := true)] else m
  {
  }

  class VectorClockDag {
    const hashOf: Hasher
    const verifies: Verifier

    var nodes: Nodes
    var roots: set<TxHash>
    var tips: map<AccountId, TxHash>
    var balances: map<AccountId, nat>
    var rejected: map<TxHash, DagError>
    var maxClock: VectorClock
    var accountTips: map<AccountId, VectorClock>
    /** The nodes in the order in which they were inserted. */
    ghost var log: seq<TxHash>

    ghost predicate Valid()
      reads this`nodes, this`roots, this`tips, this`accountTips, this`maxClock, this`log
    {
      WellFormed(nodes, roots, tips, accountTips, maxClock, log)
    }

    constructor (hashOf: Hasher, verifies: Verifier)
      ensures Valid() && nodes == map[] && balances == map[] && rejected == map[]
      ensures this.hashOf == hashOf && this.verifies == verifies
    {
      this.hashOf, this.verifies := hashOf, verifies;
      nodes, roots, tips, balances, rejected := map[], {}, map[], map[], map[];
      maxClock, accountTips := EMPTY, map[];
      log := [];
    }

    method SeedBalance(account: AccountId, amount: nat)
      modifies this`balances
      ensures balances == old(balances)[account := (if account in old(balances) then old(balances)[account] else 0) + amount]
    {
      balances := balances[account := (if account in balances then balances[account] else 0) + amount];
    }

    method Insert(shift: StatefulShift, publicKey: PublicKey, tick: nat, finalizationDepth: nat)
      returns (r: Result<TxHash, DagError>)
      requires Valid()
      modifies this
      ensures Valid()
      ensures balances == old(balances)
      ensures r == if !verifies(publicKey, shift) then Err(InvalidSignature(hashOf(shift)))
                   else if hashOf(shift) in old(nodes) then Ok(hashOf(shift))
                   else match FirstMissing(old(nodes), shift.predecessors)
                        case Some(p) => Err(MissingPredecessor(p))
                        case None => Ok(hashOf(shift))
      ensures rejected == if r.Err? then old(rejected)[hashOf(shift) := r.error] else old(rejected)
      ensures r.Err? || hashOf(shift) in old(nodes) ==>
                && nodes == old(nodes) && roots == old(roots) && tips == old(tips)
                && maxClock == old(maxClock) && accountTips == old(accountTips) && log == old(log)
      ensures r.Ok? && hashOf(shift) !in old(nodes) ==>
                && nodes == Inserted(old(nodes), hashOf(shift), shift, tick, finalizationDepth)
                && tips == old(tips)[shift.from := NextTip(nodes, old(tips), shift, hashOf(shift))]
                && maxClock == old(maxClock).Merge(shift.vectorClock)
                && accountTips == old(accountTips)[shift.from := NextClock(old(accountTips), shift)]
                && log == old(log) + [hashOf(shift)]
    {
      hide WellFormed, Inserted, NextTip, NextClock, VectorClock.Merge;
      var hash := hashOf(shift);
      if !verifies(publicKey, shift) {
        rejected := rejected[hash := InvalidSignature(hash)];
        return Err(InvalidSignature(hash));
      }
      if hash in nodes {
        return Ok(hash);
      }
      FirstMissingMeaning(nodes, shift.predecessors);
      var i := 0;
      while i < |shift.predecessors|
        invariant 0 <= i <= |shift.predecessors|
        invariant FirstMissing(nodes, shift.predecessors[i..]) == FirstMissing(nodes, shift.predecessors)
      {
        var pred := shift.predecessors[i];
        if pred !in nodes {
          rejected := rejected[hash := MissingPredecessor(pred)];
          return Err(MissingPredecessor(pred));
        }
        i := i + 1;
      }
      InsertWellFormed(nodes, roots, tips, accountTips, maxClock, log, hash, shift, tick, finalizationDepth);
      File(hash, shift, tick, finalizationDepth);
      r := Ok(hash);
    }

    /** The state changes of a successful insertion. */
    method File(hash: TxHash, shift: StatefulShift, tick: nat, depth: nat)
      requires forall p :: p in shift.predecessors ==> p in nodes
      modifies this
      ensures roots == if shift.predecessors == [] then old(roots) + {hash} else old(roots)
      ensures balances == old(balances) && rejected == old(rejected)
      ensures nodes == Inserted(old(nodes), hash, shift, tick, depth)
      ensures tips == old(tips)[shift.from := NextTip(nodes, old(tips), shift, hash)]
      ensures maxClock == old(maxClock).Merge(shift.vectorClock)
      ensures accountTips == old(accountTips)[shift.from := NextClock(old(accountTips), shift)]
      ensures log == old(log) + [hash]
    {
      LinkedToNone(nodes, hash);
      ghost var was := nodes;
      hide *;
      AdvanceClocks(shift);
      if shift.predecessors == [] {
        roots := roots + {hash};
      } else {
        LinkChildren(hash, shift.predecessors);
      }
      assert nodes == Linked(was, shift.predecessors, hash);
      nodes := nodes[hash := NewNode(hash, shift, tick, depth)];
      assert nodes == Inserted(was, hash, shift, tick, depth) by {
        InsertedIsLinked(was, hash, shift, tick, depth);
      }
      log := log + [hash];
      tips := tips[shift.from := NextTip(nodes, tips, shift, hash)];
    }

    method AdvanceClocks(shift: StatefulShift)
      modifies this`maxClock, this`accountTips
      ensures maxClock == old(maxClock).Merge(shift.vectorClock)
      ensures accountTips == old(accountTips)[shift.from := NextClock(old(accountTips), shift)]
    {
      maxClock := MergeLoop(maxClock, shift.vectorClock);
      var tipClock := shift.vectorClock;
      if shift.from in accountTips {
        tipClock := MergeLoop(accountTips[shift.from], shift.vectorClock);
      }
      accountTips := accountTips[shift.from := tipClock];
    }

    method LinkChildren(hash: TxHash, preds: seq<TxHash>)
      requires forall p :: p in preds ==> p in nodes
      modifies this`nodes
      ensures nodes == Linked(old(nodes), preds, hash)
    {
      ghost var was := nodes;
      assert Linked(was, preds[..0], hash) == was;
      for i := 0 to |preds|
        invariant nodes == Linked(was, preds[..i], hash)
      {
        var p := preds[i];
        LinkOne(was, preds, hash, i);
        nodes := nodes[p := nodes[p].(children := nodes[p].children + {hash})];
      }
      assert preds[..|preds|] == preds;
    }

    /** Goes through a clock's entries in ascending order. */
    method CheckEntries(sender: AccountId, vc: VectorClock) returns (fault: Option<ClockError>)
      ensures fault.None? <==> Acceptable(accountTips, maxClock, sender, vc)
      ensures fault.Some? ==>
                match fault.value
                case WrongOwnTime => FirstFault(accountTips, maxClock, sender, vc, sender)
                case UnseenNode => exists node :: node != sender && FirstFault(accountTips, maxClock, sender, vc, node)
                case MissingOwnEntry => sender !in vc.times && forall node :: !Faulty(accountTips, maxClock, sender, vc, node)
    {
      hide VectorClock.Get, AccountTip, Faulty, Smallest;
      FaultsAreEntries(accountTips, maxClock, sender, vc);
      var expectedOwn := AccountTip(accountTips, sender).Get(sender) + 1;
      var todo := vc.times.Keys;
      while todo != {}
        invariant todo <= vc.times.Keys
        invariant forall node :: node in vc.times && node !in todo ==> !Faulty(accountTips, maxClock, sender, vc, node)
        invariant forall node, k :: node in vc.times && node !in todo && k in todo ==> node < k
        decreases todo
      {
        var node := Smallest(todo);
        FaultyMeans(accountTips, maxClock, sender, vc, node);
        if node == sender {
          if vc.times[node] != expectedOwn {
            return Some(WrongOwnTime);
          }
        } else if vc.times[node] > maxClock.Get(node) {
          assert FirstFault(accountTips, maxClock, sender, vc, node);
          return Some(UnseenNode);
        }
        todo := todo - {node};
      }
      fault := if sender !in vc.times then Some(MissingOwnEntry) else None;
    }

    /** A clock is refused for its first faulty entry, or, if none is, for having no own entry. */
    method ValidateOrDerive(sender: AccountId, provided: Option<VectorClock>) returns (r: Result<VectorClock, ClockError>)
      requires Valid()
      ensures provided.Some? ==> (r.Ok? <==> Acceptable(accountTips, maxClock, sender, provided.value))
      ensures provided.Some? && r.Ok? ==> r.value == provided.value
      ensures provided.None? ==> r == Ok(AccountTip(accountTips, sender).Tick(sender))
      ensures r.Ok? ==> Acceptable(accountTips, maxClock, sender, r.value)
      ensures r.Err? ==>
                match r.error
                case WrongOwnTime => FirstFault(accountTips, maxClock, sender, provided.value, sender)
                case UnseenNode => exists node :: node != sender && FirstFault(accountTips, maxClock, sender, provided.value, node)
                case MissingOwnEntry => sender !in provided.value.times
                                        && forall node :: !Faulty(accountTips, maxClock, sender, provided.value, node)
    {
      if provided.None? {
        DerivedIsAcceptable(nodes, accountTips, maxClock, sender);
        return Ok(AccountTip(accountTips, sender).Tick(sender));
      }
      var fault := CheckEntries(sender, provided.value);
      r := if fault.Some? then Err(fault.value) else Ok(provided.value);
    }

    /** Total on every reachable DAG: the cycle report is never given. */
    method TopologicalOrder() returns (r: Result<seq<TxHash>, DagError>)
      requires Valid()
      ensures r.Ok?
      ensures TopologicalFor(nodes, r.value) && CausalPrecedence(nodes, r.value)
      ensures ConcurrencyTransitive(Clocks(nodes)) ==> r.value == CanonicalFrom(nodes, {})
    {
      r := Ordering.TopologicalOrder(nodes, roots, log);
    }

    method DetectDoubleSpends() returns (violations: seq<DagError>)
      ensures forall e :: e in violations <==> e.DoubleSpend? && DoubleSpends.Flagged(nodes, balances, e.hash)
    {
      violations := DoubleSpends.DetectDoubleSpends(nodes, balances);
    }

    /** Every reported shift becomes rejected, whatever its status was. */
    method MarkDoubleSpends(violations: seq<DagError>)
      requires Valid()
      requires forall e :: e in violations ==> e.DoubleSpend?
      modifies this`nodes
      ensures Valid()
      ensures nodes == Marked(old(nodes), set e | e in violations :: e.hash)
    {
      hide WellFormed;
      ghost var was := nodes;
      for i := 0 to |violations|
        invariant nodes == Marked(was, set e | e in violations[..i] :: e.hash)
      {
        var h := violations[i].hash;
        MarkedNext(was, violations, i);
        if h in nodes {
          nodes := nodes[h := nodes[h].(status := Rejected(DoubleSpend(h)))];
        }
      }
      assert violations[..|violations|] == violations;
      SameShifts(was, nodes, log, roots, tips, accountTips, maxClock);
    }

    /** Marks settled shifts and takes over the settled balances. */
    method Commit(hashes: seq<TxHash>, settledBalances: map<AccountId, nat>)
      requires Valid()
      modifies this`nodes, this`balances
      ensures Valid()
      ensures nodes == WithApplied(old(nodes), SeqSet(hashes)) && balances == settledBalances
    {
      hide WellFormed;
      ghost var was := nodes;
      for i := 0 to |hashes|
        invariant nodes == WithApplied(was, SeqSet(hashes[..i]))
      {
        AppliedNext(was, hashes, i);
        if hashes[i] in nodes {
          nodes := nodes[hashes[i] := nodes[hashes[i]].(applied := true)];
        }
      }
      assert hashes[..|hashes|] == hashes;
      SameShifts(was, nodes, log, roots, tips, accountTips, maxClock);
      balances := settledBalances;
    }

    method PromoteToFinalized(tick: nat) returns (promoted: nat)
      requires Valid()
      modifies this`nodes
      ensures Valid()
      ensures nodes == Promoted(old(nodes), tick)
      ensures promoted == |set h | h in old(nodes) && Promotable(old(nodes)[h], tick)|
    {
      hide WellFormed;
      ghost var was := nodes;
      ghost var chosen: set<TxHash> := {};
      promoted := 0;
      var todo := nodes.Keys;
      while todo != {}
        invariant todo <= was.Keys == nodes.Keys
        invariant forall h :: h in was ==> nodes[h] == if h in todo then was[h] else Promoted(was, tick)[h]
        invariant chosen == set h | h in was && h !in todo && Promotable(was[h], tick)
        invariant promoted == |chosen|
        decreases todo
      {
        var h :| h in todo;
        if Promotable(nodes[h], tick) {
          nodes := nodes[h := nodes[h].(status := Finalized, finalizedAtTick := Some(tick))];
          promoted := promoted + 1;
          chosen := chosen + {h};
        }
        todo := todo - {h};
      }
      assert chosen == set h | h in was && Promotable(was[h], tick);
      assert nodes == Promoted(was, tick);
      SameShifts(was, nodes, log, roots, tips, accountTips, maxClock);
    }
  }

  lemma InsertRoots(nodes: Nodes, roots: set<TxHash>, hash: TxHash, shift: StatefulShift, tick: nat, depth: nat)
    requires RootsAre(nodes, roots) && hash !in nodes
    ensures RootsAre(Inserted(nodes, hash, shift, tick, depth), if shift.predecessors == [] then roots + {hash} else roots)
  {
  }

  lemma LinkedToNone(nodes: Nodes, hash: TxHash)
    ensures Linked(nodes, [], hash) == nodes
  {
  }

  lemma InsertedIsLinked(nodes: Nodes, hash: TxHash, shift: StatefulShift, tick: nat, depth: nat)
    ensures Inserted(nodes, hash, shift, tick, depth) == Linked(nodes, shift.predecessors, hash)[hash := NewNode(hash, shift, tick, depth)]
  {
  }

  lemma LinkOne(nodes: Nodes, preds: seq<TxHash>, hash: TxHash, i: nat)
    requires i < |preds| && preds[i] in nodes
    ensures var l := Linked(nodes, preds[..i], hash);
            preds[i] in l && Linked(nodes, preds[..i + 1], hash) == l[preds[i] := l[preds[i]].(children := l[preds[i]].children + {hash})]
  {
  }

  /** Changing statuses and marks only keeps the whole invariant. */
  lemma SameShifts(nodes: Nodes, nodes': Nodes, log: seq<TxHash>, roots: set<TxHash>, tips: map<AccountId, TxHash>,
                   accountTips: map<AccountId, VectorClock>, maxClock: VectorClock)
    requires nodes'.Keys == nodes.Keys
    requires forall h :: h in nodes ==>
      nodes'[h].hash == nodes[h].hash && nodes'[h].shift == nodes[h].shift && nodes'[h].children == nodes[h].children
    requires WellFormed(nodes, roots, tips, accountTips, maxClock, log)
    ensures WellFormed(nodes', roots, tips, accountTips, maxClock, log)
  {
    SameStructure(nodes, nodes', log, roots);
    hide Mirrored, TopologicalFor, RootsAre, ClocksBounded, TipsCurrent;
    SameClocks(nodes, nodes', accountTips, maxClock);
    SameTips(nodes, nodes', tips);
  }

  lemma SameClocks(nodes: Nodes, nodes': Nodes, accountTips: map<AccountId, VectorClock>, maxClock: VectorClock)
    requires nodes'.Keys == nodes.Keys && forall h :: h in nodes ==> nodes'[h].shift == nodes[h].shift
    requires ClocksBounded(nodes, accountTips, maxClock)
    ensures ClocksBounded(nodes', accountTips, maxClock)
  {
  }

  lemma SameTips(nodes: Nodes, nodes': Nodes, tips: map<AccountId, TxHash>)
    requires nodes'.Keys == nodes.Keys && forall h :: h in nodes ==> nodes'[h].shift == nodes[h].shift
    requires TipsCurrent(nodes, tips)
    ensures TipsCurrent(nodes', tips)
  {
  }

  lemma SameStructure(nodes: Nodes, nodes': Nodes, log: seq<TxHash>, roots: set<TxHash>)
    requires nodes'.Keys == nodes.Keys
    requires forall h :: h in nodes ==>
      nodes'[h].hash == nodes[h].hash && nodes'[h].shift == nodes[h].shift && nodes'[h].children == nodes[h].children
    requires Mirrored(nodes) && TopologicalFor(nodes, log) && RootsAre(nodes, roots)
    ensures Mirrored(nodes') && TopologicalFor(nodes', log) && RootsAre(nodes', roots)
  {
    forall h | h in nodes ensures Preds(nodes', h) == Preds(nodes, h) {
    }
    hide Preds, SeqSet;
    assert RootsAre(nodes', roots);
  }
}
