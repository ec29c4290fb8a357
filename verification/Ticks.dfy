/**
 What one synthesis tick does, as values: which shifts settle, how pending deltas
 are grouped, and how the two copies of the balances are brought together.
 */
module Ticks {
  import opened Basics
  import opened Machine
  import opened Sums
  import opened VectorClocks
  import opened DagModel
  import opened Batches
  import opened Balances
  import opened Certificates
  import opened Domains
  import opened Settlement
  import opened Stake
  import Dag
  import DoubleSpends
  import Metabolic
  import Rewards
  import WaveFields

  type Nonces = map<(AccountId, DomainId), nat>

  const GLOBAL_DOMAIN: DomainId := 0

  // ----- replay protection -----

  /** Queued shifts of one sender and domain carry strictly increasing nonces, none above the recorded one. */
  ghost predicate NoncesIncrease(queued: seq<StatefulShift>, seen: Nonces) {
    && (forall i :: 0 <= i < |queued| ==>
          (queued[i].from, queued[i].domain) in seen && queued[i].nonce <= seen[(queued[i].from, queued[i].domain)])
    && (forall i, j :: 0 <= i < j < |queued| && queued[i].from == queued[j].from && queued[i].domain == queued[j].domain
          ==> queued[i].nonce < queued[j].nonce)
  }

  /** A nonce above everything seen from this sender in this domain. */
  predicate Fresh(seen: Nonces, account: AccountId, domain: DomainId, nonce: nat) {
    (account, domain) in seen ==> nonce > seen[(account, domain)]
  }

  /** A shift that came through the queue and moves something. */
  ghost predicate Genuine(shift: StatefulShift, queued: seq<StatefulShift>) {
    shift in queued && shift.amount > 0
  }

  /** Every shift in the DAG or waiting for it is genuine and filed under its own hash. */
  ghost predicate Sourced(nodes: Nodes, pending: seq<StatefulShift>, queued: seq<StatefulShift>, hashOf: Dag.Hasher) {
    && (forall h :: h in nodes ==> Genuine(nodes[h].shift, queued) && hashOf(nodes[h].shift) == h)
    && (forall s :: s in pending ==> Genuine(s, queued))
  }

  lemma SourcedNext(nodes: Nodes, pending: seq<StatefulShift>, queued: seq<StatefulShift>, hashOf: Dag.Hasher, shift: StatefulShift)
    requires Sourced(nodes, pending, queued, hashOf) && shift.amount > 0
    ensures Sourced(nodes, pending + [shift], queued + [shift], hashOf)
  {
  }

  /** Recording a fresh nonce keeps the queue's nonces increasing, with or without queueing its shift. */
  lemma QueueNext(queued: seq<StatefulShift>, seen: Nonces, shift: StatefulShift)
    requires NoncesIncrease(queued, seen) && Fresh(seen, shift.from, shift.domain, shift.nonce)
    ensures NoncesIncrease(queued, seen[(shift.from, shift.domain) := shift.nonce])
    ensures NoncesIncrease(queued + [shift], seen[(shift.from, shift.domain) := shift.nonce])
  {
  }

  /** A new node has nothing queued, settled or held. */
  lemma NothingYet(hashOf: Dag.Hasher)
    ensures NoncesIncrease([], map[]) && Sourced(map[], [], [], hashOf)
    ensures NoDuplicates<TxHash>([]) && NoDuplicates<(AccountId, DomainId, nat)>([])
    ensures UnitsOf(map[]) == map[] && TotalUnits(map[]) == 0 && Locked(map[]) == 0
  {
    assert Units(map[]) == map[] && AllStakes(map[]) == map[];
  }

  // ----- which ordered shifts settle -----

  ghost predicate HasQuorum(tallies: Tallies, tick: nat, threshold: nat) {
    tick in tallies && exists v :: v in tallies[tick] && tallies[tick][v] >= threshold
  }

  /** Everything that is checked about a shift apart from its fee and its sender's balance. */
  ghost predicate Eligible(nodes: Nodes, r: Registry, keys: Keys, verifies: Dag.Verifier, tallies: Tallies, threshold: nat, h: TxHash)
    requires h in nodes
  {
    var shift := nodes[h].shift;
    && !nodes[h].status.Rejected? && !nodes[h].applied
    && shift.from in keys && verifies(keys[shift.from], shift)
    && shift.domain in r
    && (r[shift.domain].ordering == Strict ==> HasQuorum(tallies, nodes[h].insertedAtTick, threshold))
  }

  ghost function Eligibles(nodes: Nodes, r: Registry, keys: Keys, verifies: Dag.Verifier, tallies: Tallies, threshold: nat): set<TxHash> {
    set h | h in nodes && Eligible(nodes, r, keys, verifies, tallies, threshold, h)
  }

  /** Going through the order, every eligible shift that its sender can pay at that moment. */
  ghost function Settled(sim: Accounts, nodes: Nodes, r: Registry, eligible: set<TxHash>, order: seq<TxHash>): (s: seq<TxHash>)
    requires FeesBounded(r) && forall h :: h in order ==> h in nodes
    ensures forall h :: h in s ==> h in order && h in nodes
  {
    if order == [] then []
    else
      var n := |order| - 1;
      var s := Settled(sim, nodes, r, eligible, order[..n]);
      if order[n] in eligible && Payable(Replay(sim, nodes, r, s), r, nodes[order[n]].shift) then s + [order[n]] else s
  }

  lemma SettledNext(sim: Accounts, nodes: Nodes, r: Registry, eligible: set<TxHash>, order: seq<TxHash>, i: nat)
    requires FeesBounded(r) && i < |order| && forall h :: h in order ==> h in nodes
    ensures var s := Settled(sim, nodes, r, eligible, order[..i]);
            Settled(sim, nodes, r, eligible, order[..i + 1]) ==
            if order[i] in eligible && Payable(Replay(sim, nodes, r, s), r, nodes[order[i]].shift) then s + [order[i]] else s
  {
    assert order[..i + 1][..i] == order[..i];
  }

  /** What settles before the i-th of the order is a prefix of all that settles, and decides whether the i-th does. */
  lemma {:induction false} SettledAt(sim: Accounts, nodes: Nodes, r: Registry, eligible: set<TxHash>, order: seq<TxHash>, i: nat)
    requires FeesBounded(r) && NoDuplicates(order) && i < |order| && forall h :: h in order ==> h in nodes
    ensures var s, before := Settled(sim, nodes, r, eligible, order), Settled(sim, nodes, r, eligible, order[..i]);
            && before <= s && (forall h :: h in before ==> h in order[..i]) && (forall h :: h in s[|before|..] ==> h in order[i..])
            && (order[i] in s <==> order[i] in eligible && Payable(Replay(sim, nodes, r, before), r, nodes[order[i]].shift))
    decreases |order|
  {
    hide Settled, Payable, Replay, FeesBounded, NoDuplicates;
    var n := |order| - 1;
    var t := order[..n];
    var s := Settled(sim, nodes, r, eligible, t);
    assert order[..n + 1] == order;
    SettledNext(sim, nodes, r, eligible, order, n);
    LastIsNew(order, s);
    if i < n {
      assert t[..i] == order[..i] && t[i] == order[i];
      PrefixNoDuplicates(order, n);
      SettledAt(sim, nodes, r, eligible, t, i);
      var before := Settled(sim, nodes, r, eligible, order[..i]);
      assert (s + [order[n]])[|before|..] == s[|before|..] + [order[n]];
      assert order[i..] == t[i..] + [order[n]];
      LastIsNew(order, [order[i]]);
    } else {
      assert (s + [order[n]])[|s|..] == [order[n]] && s[|s|..] == [];
    }
  }

  lemma LastIsNew(order: seq<TxHash>, s: seq<TxHash>)
    requires order != [] && NoDuplicates(order) && forall h :: h in s ==> h in order[..|order| - 1]
    ensures order[|order| - 1] !in s
  {
  }

  /** A fee is defined for every shift of a registered domain unless a flat fee exceeds its amount. */
  lemma FeeDefined(r: Registry, shift: StatefulShift)
    requires FeesBounded(r)
    ensures SignalFee(r, shift).Some? <==> shift.domain in r && (r[shift.domain].feePolicy.Flat? ==> shift.amount >= r[shift.domain].feePolicy.fee)
  {
  }

  lemma {:induction false} SettledFacts(sim: Accounts, nodes: Nodes, r: Registry, eligible: set<TxHash>, order: seq<TxHash>)
    requires FeesBounded(r) && NoDuplicates(order) && forall h :: h in order ==> h in nodes
    ensures var s := Settled(sim, nodes, r, eligible, order);
            NoDuplicates(s) && SeqSet(s) <= eligible && AllPayable(sim, nodes, r, s)
  {
    hide Payable, Replay, AllPayable, SeqSet, NoDuplicates;
    if order != [] {
      var n := |order| - 1;
      var s := Settled(sim, nodes, r, eligible, order[..n]);
      PrefixNoDuplicates(order, n);
      SettledFacts(sim, nodes, r, eligible, order[..n]);
      if order[n] in eligible && Payable(Replay(sim, nodes, r, s), r, nodes[order[n]].shift) {
        ReplayNext(sim, nodes, r, s, order[n]);
        AppendNew(order, s);
      }
    } else {
      NothingPayable(sim, nodes, r);
    }
  }

  /** The last of a duplicate-free order is new to any list drawn from the rest. */
  lemma AppendNew(order: seq<TxHash>, s: seq<TxHash>)
    requires order != [] && NoDuplicates(order) && NoDuplicates(s)
    requires forall h :: h in s ==> h in order[..|order| - 1]
    ensures var x := order[|order| - 1]; NoDuplicates(s + [x]) && SeqSet(s + [x]) == SeqSet(s) + {x}
  {
    var x := order[|order| - 1];
    forall i | 0 <= i < |s| ensures s[i] != x {
      assert s[i] in s && s[i] in order[..|order| - 1];
    }
  }

  lemma PrefixNoDuplicates(order: seq<TxHash>, n: nat)
    requires NoDuplicates(order) && n <= |order|
    ensures NoDuplicates(order[..n])
  {
  }

  lemma NothingPayable(sim: Accounts, nodes: Nodes, r: Registry)
    requires FeesBounded(r)
    ensures AllPayable(sim, nodes, r, []) && NoDuplicates<TxHash>([]) && SeqSet<TxHash>([]) == {}
  {
  }

  /** Accounts that really traded: both sides of a settled shift between different accounts. */
  function ActiveAccounts(nodes: Nodes, hashes: seq<TxHash>): set<AccountId>
    requires forall h :: h in hashes ==> h in nodes
  {
    if hashes == [] then {}
    else
      var n := |hashes| - 1;
      var shift := nodes[hashes[n]].shift;
      ActiveAccounts(nodes, hashes[..n]) + if shift.from != shift.to then {shift.from, shift.to} else {}
  }

  /** The active accounts are the two sides of a settled shift, unless they are the same. */
  lemma {:induction false} ActiveMeans(nodes: Nodes, hashes: seq<TxHash>, a: AccountId)
    requires forall h :: h in hashes ==> h in nodes
    ensures a in ActiveAccounts(nodes, hashes) <==>
            exists h :: h in hashes && nodes[h].shift.from != nodes[h].shift.to && (a == nodes[h].shift.from || a == nodes[h].shift.to)
  {
    if hashes != [] {
      var n := |hashes| - 1;
      ActiveMeans(nodes, hashes[..n], a);
      assert hashes == hashes[..n] + [hashes[n]];
    }
  }

  lemma ActiveNext(nodes: Nodes, hashes: seq<TxHash>, h: TxHash)
    requires h in nodes && forall k :: k in hashes ==> k in nodes
    ensures ActiveAccounts(nodes, hashes + [h]) ==
            ActiveAccounts(nodes, hashes) + if nodes[h].shift.from != nodes[h].shift.to then {nodes[h].shift.from, nodes[h].shift.to} else {}
  {
  }

  lemma NothingSettled(sim: Accounts, nodes: Nodes, r: Registry, eligible: set<TxHash>)
    requires FeesBounded(r)
    ensures Settled(sim, nodes, r, eligible, []) == [] && AllPayable(sim, nodes, r, [])
    ensures Replay(sim, nodes, r, []) == sim && Fees(nodes, r, []) == 0 && ActiveAccounts(nodes, []) == {}
  {
  }

  lemma OrderIsNodes(nodes: Nodes, order: seq<TxHash>)
    requires TopologicalFor(nodes, order)
    ensures NoDuplicates(order) && forall h :: h in order ==> h in nodes
  {
  }

  // ----- the two copies of the balances -----

  function UnitsOf(accounts: Ledger): Accounts {
    map a | a in accounts :: accounts[a].units
  }

  ghost predicate Bounded(sim: Accounts) {
    forall a :: a in sim ==> sim[a] <= U128_MAX
  }

  ghost function SyncedOne(accounts: Ledger, sim: Accounts, active: set<AccountId>, tick: nat, a: AccountId): Balance
    requires Bounded(sim)
  {
    var b := BalanceOf(accounts, a);
    if a in sim then b.(units := sim[a], lastActiveTick := if a in active then tick else b.lastActiveTick) else b
  }

  /** The account map after the settled balances have been written back. */
  ghost function SyncedBack(accounts: Ledger, sim: Accounts, active: set<AccountId>, tick: nat): Ledger
    requires Bounded(sim)
  {
    map a | a in accounts.Keys + sim.Keys :: SyncedOne(accounts, sim, active, tick, a)
  }

  lemma UnitsOfSet(accounts: Ledger, a: AccountId, b: Balance)
    ensures UnitsOf(accounts[a := b]) == UnitsOf(accounts)[a := b.units]
    ensures UnitsOf(accounts).Keys == accounts.Keys && BalanceOf(accounts, a).units == Held(UnitsOf(accounts), a)
    ensures b.(units := 0) == BalanceOf(accounts, a).(units := 0) ==>
              Changed(accounts, accounts[a := b], a, b.units - BalanceOf(accounts, a).units)
  {
  }

  /** One account's units changed by `amount`; nothing else about any account did. */
  ghost predicate Changed(accounts: Ledger, accounts': Ledger, account: AccountId, amount: int) {
    forall a: AccountId ::
      && BalanceOf(accounts', a).units == BalanceOf(accounts, a).units + (if a == account then amount else 0)
      && BalanceOf(accounts', a).(units := 0) == BalanceOf(accounts, a).(units := 0)
  }

  lemma MarkedAgrees(accounts: Ledger, a: AccountId)
    requires a in accounts
    ensures UnitsOf(accounts[a := accounts[a].(decays := false)]) == UnitsOf(accounts)
  {
  }

  lemma UnitsOfKeys(accounts: Ledger)
    ensures UnitsOf(accounts).Keys == accounts.Keys
  {
  }

  lemma UnitsOfTotal(accounts: Ledger)
    ensures Sum(UnitsOf(accounts)) == TotalUnits(accounts)
  {
  }

  lemma SyncedTotal(accounts: Ledger, sim: Accounts, active: set<AccountId>, tick: nat)
    requires accounts.Keys <= sim.Keys && Bounded(sim)
    ensures TotalUnits(SyncedBack(accounts, sim, active, tick)) == Sum(sim)
    ensures UnitsOf(SyncedBack(accounts, sim, active, tick)) == sim
  {
    var s := SyncedBack(accounts, sim, active, tick);
    assert UnitsOf(s).Keys == sim.Keys;
    assert UnitsOf(s) == sim;
    UnitsOfTotal(s);
  }

  // ----- pending deltas by domain -----

  type Pending = seq<(DomainId, Delta)>

  ghost function PendingInflow(pending: Pending): nat {
    if pending == [] then 0
    else PendingInflow(pending[..|pending| - 1]) + Positive(pending[|pending| - 1].1.amount)
  }

  type Batch = map<DomainId, seq<Delta>>

  ghost function Inflow(batch: Batch): (m: map<DomainId, int>)
    ensures NonNegative(m)
  {
    map d | d in batch :: PositivePart(batch[d])
  }

  /** The pending deltas of commutative domains, by domain and in order of arrival. */
  function Grouped(pending: Pending, r: Registry): Batch {
    if pending == [] then map[]
    else
      var b := Grouped(pending[..|pending| - 1], r);
      var (domain, d) := pending[|pending| - 1];
      if domain in r && r[domain].commutative then b[domain := DeltasOf(b, domain) + [d]] else b
  }

  /** The pending deltas tagged with a domain, in order. */
  function OfDomain(pending: Pending, domain: DomainId): seq<Delta> {
    if pending == [] then []
    else
      var rest := OfDomain(pending[..|pending| - 1], domain);
      if pending[|pending| - 1].0 == domain then rest + [pending[|pending| - 1].1] else rest
  }

  /** Grouping keeps, for every domain registered as commutative, exactly its pending deltas in order, and nothing else. */
  lemma {:induction false} GroupedMeans(pending: Pending, r: Registry)
    ensures forall d :: d in Grouped(pending, r) <==> d in r && r[d].commutative && OfDomain(pending, d) != []
    ensures forall d :: d in Grouped(pending, r) ==> Grouped(pending, r)[d] == OfDomain(pending, d)
  {
    if pending != [] {
      GroupedMeans(pending[..|pending| - 1], r);
    }
  }

  /** The sum of the pending deltas whose domain is registered as commutative. */
  function KeptTotal(pending: Pending, r: Registry): int {
    if pending == [] then 0
    else
      var (domain, d) := pending[|pending| - 1];
      KeptTotal(pending[..|pending| - 1], r) + if domain in r && r[domain].commutative then d.amount else 0
  }

  lemma {:induction false} NetsOfGrouped(pending: Pending, r: Registry)
    ensures Sum(Nets(Grouped(pending, r))) == KeptTotal(pending, r)
  {
    hide Sum, Nets;
    if pending == [] {
      NoInflow();
    } else {
      var n := |pending| - 1;
      NetsOfGrouped(pending[..n], r);
      NetsPush(Grouped(pending[..n], r), pending[n].0, pending[n].1);
    }
  }

  lemma NetsPush(batch: Batch, domain: DomainId, d: Delta)
    ensures Sum(Nets(batch[domain := DeltasOf(batch, domain) + [d]])) == Sum(Nets(batch)) + d.amount
  {
    var ds := DeltasOf(batch, domain);
    var f := (x: Delta) => x.amount;
    assert (ds + [d])[..|ds|] == ds;
    assert Total(ds + [d], f) == Total(ds, f) + d.amount;
    SumUpdate(Nets(batch), domain, Total(ds + [d], f));
    assert Nets(batch[domain := ds + [d]]) == Nets(batch)[domain := Total(ds + [d], f)];
  }

  function DeltasOf(batch: Batch, domain: DomainId): seq<Delta> {
    if domain in batch then batch[domain] else []
  }

  lemma InflowPush(batch: Batch, domain: DomainId, d: Delta)
    ensures Sum(Inflow(batch[domain := DeltasOf(batch, domain) + [d]])) == Sum(Inflow(batch)) + Positive(d.amount)
  {
    var ds := DeltasOf(batch, domain);
    PositivePartAppend(ds, d);
    SumUpdate(Inflow(batch), domain, PositivePart(ds + [d]));
    assert Inflow(batch[domain := ds + [d]]) == Inflow(batch)[domain := PositivePart(ds + [d])];
  }

  lemma {:induction false} GroupedInflow(pending: Pending, r: Registry)
    ensures Sum(Inflow(Grouped(pending, r))) <= PendingInflow(pending)
    ensures forall d :: d in Grouped(pending, r) ==> Grouped(pending, r)[d] != []
  {
    hide Inflow, Sum;
    if pending == [] {
      NoInflow();
    } else {
      var n := |pending| - 1;
      GroupedInflow(pending[..n], r);
      InflowPush(Grouped(pending[..n], r), pending[n].0, pending[n].1);
    }
  }

  lemma NoInflow()
    ensures Sum(Inflow(map[])) == 0 && Sum(Nets(map[])) == 0
  {
  }

  /** The sum of a batch's deltas, by domain. */
  ghost function Nets(batch: Batch): map<DomainId, int> {
    map d | d in batch :: Total(batch[d], (x: Delta) => x.amount)
  }

  lemma NetsTake(batch: Batch, domain: DomainId)
    requires domain in batch
    ensures Sum(Nets(batch)) == Sum(PoolSums(batch[domain])) + Sum(Nets(batch - {domain}))
  {
    SumRemove(Nets(batch), domain);
    assert Nets(batch - {domain}) == Nets(batch) - {domain};
    PoolSumsTotal(batch[domain]);
  }

  /** Deltas wait for another tick only if their domain's batch has an unrepresentable bin or withdraws something. */
  ghost predicate OnlyFaultyAgain(pending: Pending, batch: Batch, size: nat)
    requires size > 0
  {
    forall p :: p in pending ==>
      && p.0 in batch && p.1 in batch[p.0]
      && (!WaveFields.BinsRepresentable(batch[p.0], size) || exists d :: d in batch[p.0] && d.amount < 0)
  }

  /** A batch of deposits never overdraws a pool. */
  lemma {:induction false} DepositsCovered(pools: Ledger, ds: seq<Delta>)
    requires forall d :: d in ds ==> d.amount >= 0
    ensures Covered(pools, PoolSums(ds)) && NonNegative(PoolSums(ds))
  {
    if ds != [] {
      DepositsCovered(pools, ds[..|ds| - 1]);
    }
  }

  /** A domain's deltas, tagged with it again. */
  function Tagged(domain: DomainId, ds: seq<Delta>): (p: Pending)
    ensures |p| == |ds| && forall i :: 0 <= i < |p| ==> p[i] == (domain, ds[i])
  {
    seq(|ds|, i requires 0 <= i < |ds| => (domain, ds[i]))
  }

  lemma NoneAgain(batch: Batch, size: nat)
    requires size > 0
    ensures OnlyFaultyAgain([], batch, size)
  {
  }

  /** Queueing a failed domain's deltas again. */
  lemma MayReturn(pending: Pending, batch: Batch, domain: DomainId, pools: Ledger, size: nat)
    requires size > 0 && domain in batch && OnlyFaultyAgain(pending, batch, size)
    ensures (WaveFields.BinsRepresentable(batch[domain], size) && Covered(pools, PoolSums(batch[domain])))
            || OnlyFaultyAgain(pending + Tagged(domain, batch[domain]), batch, size)
  {
    hide WaveFields.BinsRepresentable, PoolSums, Covered;
    if forall d :: d in batch[domain] ==> d.amount >= 0 {
      DepositsCovered(pools, batch[domain]);
    }
  }

  /** The pools, and the deltas waiting for another tick. */
  datatype Flow = Flow(pools: Ledger, waiting: Pending)

  /** One domain's batch: refused, applied in full, or applied up to the first pool that would go negative. */
  ghost function AfterBatch(f: Flow, size: nat, domain: DomainId, ds: seq<Delta>, order: seq<PoolId>): Flow
    requires size > 0 && forall p :: p in order ==> p in PoolSums(ds)
  {
    if !WaveFields.BinsRepresentable(ds, size) then Flow(f.pools, f.waiting + Tagged(domain, ds))
    else
      Flow(Moved(f.pools, AppliedIn(f.pools, PoolSums(ds), order)),
           if Covered(f.pools, PoolSums(ds)) then f.waiting else f.waiting + Tagged(domain, ds))
  }

  /** One turn of the loop over domains, with the order in which it goes through the pools. */
  datatype Turn = Turn(domain: DomainId, order: seq<PoolId>)

  ghost predicate TurnsOf(batch: Batch, turns: seq<Turn>) {
    forall t :: t in turns ==> t.domain in batch && Lists(t.order, PoolSums(batch[t.domain]).Keys)
  }

  function DomainsOf(turns: seq<Turn>): seq<DomainId> {
    seq(|turns|, i requires 0 <= i < |turns| => turns[i].domain)
  }

  ghost function AfterTurns(f: Flow, size: nat, batch: Batch, turns: seq<Turn>): Flow
    requires size > 0 && TurnsOf(batch, turns)
  {
    if turns == [] then f
    else
      var t := turns[|turns| - 1];
      AfterBatch(AfterTurns(f, size, batch, turns[..|turns| - 1]), size, t.domain, batch[t.domain], t.order)
  }

  /** Every domain of the batch has had its one turn, and this is what came of it. */
  ghost predicate CameOf(before: Flow, after: Flow, size: nat, batch: Batch, turns: seq<Turn>) {
    size > 0 && Lists(DomainsOf(turns), batch.Keys) && TurnsOf(batch, turns) && after == AfterTurns(before, size, batch, turns)
  }

  /** What is left of the batch is as it was grouped. */
  ghost predicate Within(batch: Batch, all: Batch) {
    batch.Keys <= all.Keys && forall d :: d in batch ==> batch[d] == all[d] != []
  }

  ghost function Done(all: Batch, batch: Batch): set<DomainId> {
    all.Keys - batch.Keys
  }

  lemma NothingDone(all: Batch)
    ensures Done(all, all) == {} && Lists<DomainId>([], Done(all, all)) && Done(all, map[]) == all.Keys
    ensures (forall d :: d in all ==> all[d] != []) ==> Within(all, all)
  {
  }

  lemma TakeDomain(all: Batch, batch: Batch, domain: DomainId)
    requires Within(batch, all) && domain in batch
    ensures batch[domain] == all[domain] != [] && domain in all && domain !in Done(all, batch)
    ensures Within(batch - {domain}, all) && Done(all, batch - {domain}) == Done(all, batch) + {domain}
    ensures |batch - {domain}| < |batch|
  {
    assert |batch - {domain}| == |batch| - 1;
  }

  lemma NoTurns(f: Flow, size: nat, batch: Batch)
    requires size > 0
    ensures TurnsOf(batch, []) && DomainsOf([]) == [] && AfterTurns(f, size, batch, []) == f
  {
  }

  lemma TurnsNext(f: Flow, size: nat, batch: Batch, turns: seq<Turn>, t: Turn)
    requires size > 0 && TurnsOf(batch, turns) && t.domain in batch && Lists(t.order, PoolSums(batch[t.domain]).Keys)
    ensures TurnsOf(batch, turns + [t]) && DomainsOf(turns + [t]) == DomainsOf(turns) + [t.domain]
    ensures AfterTurns(f, size, batch, turns + [t]) ==
            AfterBatch(AfterTurns(f, size, batch, turns), size, t.domain, batch[t.domain], t.order)
  {
    assert (turns + [t])[..|turns|] == turns;
  }

  /** A deposit of 10 into pool 1 and a withdrawal of 5 from pool 2. */
  function HalfBatch(): (ds: seq<Delta>)
    ensures |ds| == 2
  {
    var c := Coordinate(0, 0, 0, 0);
    [Delta(c, 10, 1), Delta(c, -5, 2)]
  }

  lemma HalfBatchFacts(size: nat)
    requires size > 0
    ensures WaveFields.BinsRepresentable(HalfBatch(), size) && PoolSums(HalfBatch()) == map[1 := 10, 2 := -5]
  {
    var ds := HalfBatch();
    assert ds[..1][..0] == [] && ds[..1] == [ds[0]];
    assert Bins([], size) == seq(size, _ => 0);
    assert PoolSums(ds[..1]) == map[1 := 10];
  }

  /**
   Where pool 2 holds less than 5 the withdrawal fails after the deposit was made, and all of the batch waits again:
   at every further tick the deposit is made once more.
   */
  lemma HalfAppliedAgain(pools: Ledger, size: nat, domain: DomainId)
    requires size > 0 && BalanceOf(pools, 1).units + 10 <= U128_MAX && BalanceOf(pools, 2).units < 5
    ensures var ds := HalfBatch();
            && Lists([1, 2], PoolSums(ds).Keys)
            && var after := AfterBatch(Flow(pools, []), size, domain, ds, [1, 2]);
               && BalanceOf(after.pools, 1).units == BalanceOf(pools, 1).units + 10
               && BalanceOf(after.pools, 2) == BalanceOf(pools, 2)
               && after.waiting == Tagged(domain, ds)
  {
    hide WaveFields.BinsRepresentable, PoolSums;
    HalfBatchFacts(size);
    var moves := map[1 := 10, 2 := -5];
    assert [1, 2][..1] == [1] && [1][..0] == [];
    assert AppliedIn(pools, moves, [1]) == map[1 := 10];
    assert AppliedIn(pools, moves, [1, 2]) == map[1 := 10, 2 := 0];
  }

  lemma InflowTake(batch: Batch, domain: DomainId)
    requires domain in batch
    ensures Sum(Inflow(batch)) == PositivePart(batch[domain]) + Sum(Inflow(batch - {domain}))
    ensures Sum(Inflow(batch - {domain})) >= 0
  {
    SumRemove(Inflow(batch), domain);
    assert Inflow(batch - {domain}) == Inflow(batch) - {domain};
    SumNonNegative(Inflow(batch - {domain}));
  }

  /** A batch that takes effect, in whole or in part, moves the pools by what was applied and stays within its inflow. */
  lemma BatchMoves(pools: Ledger, ds: seq<Delta>, order: seq<PoolId>)
    requires (forall p :: p in order ==> p in PoolSums(ds)) && TotalUnits(pools) + PositivePart(ds) <= U128_MAX
    ensures var applied := AppliedIn(pools, PoolSums(ds), order);
            && TotalUnits(Moved(pools, applied)) == TotalUnits(pools) + Sum(applied)
            && Sum(applied) <= PositivePart(ds)
  {
    hide PoolSums, Inflows, TotalUnits, PositivePart, Sum, AppliedIn;
    var applied, inflows := AppliedIn(pools, PoolSums(ds), order), Inflows(ds);
    AppliedMeans(pools, PoolSums(ds), order);
    InflowsBound(ds);
    SumMonotone(applied, inflows);
    forall p | p in applied ensures BalanceOf(pools, p).units + applied[p] <= U128_MAX {
      UnitsAtMostTotal(pools, p);
      SumBounds(inflows, p);
    }
    MovedTotal(pools, applied);
  }

  // ----- decay -----

  /** The decay rate of the default domain. */
  function DecayRate(r: Registry): nat {
    if Rewards.DEFAULT_DEX_DOMAIN in r then r[Rewards.DEFAULT_DEX_DOMAIN].metabolicLambdaPpm else Metabolic.DEFAULT_DEX_LAMBDA_PPM
  }

  /** The part of decayed value that is burned for good: a quarter, rounded down. */
  function BurnShare(decayed: nat): (b: nat)
    ensures b <= decayed
    ensures decayed <= U128_MAX / 2_500 ==> 4 * b <= decayed < 4 * b + 4
  {
    PercentageWithin(decayed, Metabolic.METABOLIC_BURN_BP);
    SatMul(decayed, Metabolic.METABOLIC_BURN_BP) / Metabolic.BASIS_POINTS_DENOMINATOR
  }

  // ----- filing the pending shifts -----

  const FINALIZATION_DEPTH: nat := 3

  function DepthOf(r: Registry, domain: DomainId): nat {
    if domain in r then r[domain].finalizationDepth else FINALIZATION_DEPTH
  }

  /** What one filing attempt leaves: a valid, new shift whose predecessors are there is inserted, anything else ignored. */
  function FiledOne(now: Nodes, shift: StatefulShift, r: Registry, keys: Keys, hashOf: Dag.Hasher, verifies: Dag.Verifier, tick: nat): Nodes {
    if shift.from in keys && verifies(keys[shift.from], shift) && hashOf(shift) !in now && Dag.FirstMissing(now, shift.predecessors).None?
    then Inserted(now, hashOf(shift), shift, tick, DepthOf(r, shift.domain)) else now
  }

  /** The DAG once the shifts have been filed one after the other. */
  function FiledAll(before: Nodes, shifts: seq<StatefulShift>, r: Registry, keys: Keys,
                    hashOf: Dag.Hasher, verifies: Dag.Verifier, tick: nat): Nodes
  {
    if shifts == [] then before
    else
      var n := |shifts| - 1;
      FiledOne(FiledAll(before, shifts[..n], r, keys, hashOf, verifies, tick), shifts[n], r, keys, hashOf, verifies, tick)
  }

  /** `after` is `before` plus pending shifts, each newly accepted and unapplied under its own hash. */
  ghost predicate Filed(before: Nodes, after: Nodes, shifts: seq<StatefulShift>, r: Registry, keys: Keys,
                        hashOf: Dag.Hasher, verifies: Dag.Verifier, tick: nat)
  {
    && before.Keys <= after.Keys
    && (forall h :: h in before ==>
          after[h].shift == before[h].shift && after[h].status == before[h].status && after[h].applied == before[h].applied)
    && (forall h :: h in after && h !in before ==>
          var n := after[h];
          && n.hash == h && n.firstSeenAtNs == n.shift.firstSeenAtNs && n.finalizedAtTick == None
          && n.shift in shifts && hashOf(n.shift) == h && n.shift.from in keys && verifies(keys[n.shift.from], n.shift)
          && n.status.Accepted? && !n.applied && n.insertedAtTick == tick && n.finalizationDepth == (if n.shift.domain in r then r[n.shift.domain].finalizationDepth else 3))
  }

  /** No pending shift with a known key, a valid signature and filed predecessors was left out. */
  ghost predicate NoneLost(before: Nodes, after: Nodes, shifts: seq<StatefulShift>, keys: Keys, hashOf: Dag.Hasher, verifies: Dag.Verifier) {
    forall s :: s in shifts && s.from in keys && verifies(keys[s.from], s) && (forall p :: p in s.predecessors ==> p in before)
      ==> hashOf(s) in after
  }

  /** Filing adds pending shifts and nothing else, and loses none that is valid and has its predecessors filed. */
  lemma {:induction false} FilingMeans(before: Nodes, shifts: seq<StatefulShift>, r: Registry, keys: Keys,
                                       hashOf: Dag.Hasher, verifies: Dag.Verifier, tick: nat)
    ensures var after := FiledAll(before, shifts, r, keys, hashOf, verifies, tick);
            before.Keys <= after.Keys && Filed(before, after, shifts, r, keys, hashOf, verifies, tick)
            && NoneLost(before, after, shifts, keys, hashOf, verifies)
  {
    hide Filed, NoneLost, FiledOne;
    if shifts == [] {
      FiledNone(before, r, keys, hashOf, verifies, tick);
    } else {
      var n := |shifts| - 1;
      FilingMeans(before, shifts[..n], r, keys, hashOf, verifies, tick);
      var now := FiledAll(before, shifts[..n], r, keys, hashOf, verifies, tick);
      FiledNext(before, now, shifts[..n], shifts[n], r, keys, hashOf, verifies, tick);
      NoneLostNext(before, now, shifts[..n], shifts[n], r, keys, hashOf, verifies, tick);
      assert shifts[..n] + [shifts[n]] == shifts;
    }
  }

  /** The shifts that double-spend detection reports. */
  ghost function Overdrawn(nodes: Nodes, balances: Accounts): set<TxHash> {
    set h | h in nodes && DoubleSpends.Flagged(nodes, balances, h)
  }

  /** The DAG after overdrawn shifts were rejected, even finalized ones, and old enough ones finalized. */
  ghost function Checked(nodes: Nodes, balances: Accounts, tick: nat): Nodes {
    Dag.Promoted(Dag.Marked(nodes, Overdrawn(nodes, balances)), tick)
  }

  lemma FiledNone(nodes: Nodes, r: Registry, keys: Keys, hashOf: Dag.Hasher, verifies: Dag.Verifier, tick: nat)
    ensures Filed(nodes, nodes, [], r, keys, hashOf, verifies, tick) && NoneLost(nodes, nodes, [], keys, hashOf, verifies)
  {
  }

  lemma FiledNext(before: Nodes, now: Nodes, shifts: seq<StatefulShift>, shift: StatefulShift, r: Registry, keys: Keys,
                  hashOf: Dag.Hasher, verifies: Dag.Verifier, tick: nat)
    requires Filed(before, now, shifts, r, keys, hashOf, verifies, tick)
    ensures var next := FiledOne(now, shift, r, keys, hashOf, verifies, tick);
            before.Keys <= next.Keys && Filed(before, next, shifts + [shift], r, keys, hashOf, verifies, tick)
  {
    hide Inserted;
    InsertedNode(now, hashOf(shift), shift, tick, DepthOf(r, shift.domain));
  }

  lemma NoneLostNext(before: Nodes, now: Nodes, shifts: seq<StatefulShift>, shift: StatefulShift, r: Registry, keys: Keys,
                     hashOf: Dag.Hasher, verifies: Dag.Verifier, tick: nat)
    requires NoneLost(before, now, shifts, keys, hashOf, verifies) && before.Keys <= now.Keys
    ensures NoneLost(before, FiledOne(now, shift, r, keys, hashOf, verifies, tick), shifts + [shift], keys, hashOf, verifies)
  {
    hide Inserted;
    Dag.FirstMissingMeaning(now, shift.predecessors);
    if hashOf(shift) !in now {
      InsertedShifts(now, hashOf(shift), shift, tick, DepthOf(r, shift.domain));
    }
  }

  lemma InsertedNode(nodes: Nodes, hash: TxHash, shift: StatefulShift, tick: nat, depth: nat)
    ensures var n := Inserted(nodes, hash, shift, tick, depth);
            && n.Keys == nodes.Keys + {hash} && n[hash] == NewNode(hash, shift, tick, depth)
            && forall h :: h in nodes && h != hash ==>
                 && n[h].shift == nodes[h].shift && n[h].status == nodes[h].status && n[h].applied == nodes[h].applied
                 && n[h].insertedAtTick == nodes[h].insertedAtTick && n[h].finalizationDepth == nodes[h].finalizationDepth
                 && n[h].hash == nodes[h].hash && n[h].firstSeenAtNs == nodes[h].firstSeenAtNs && n[h].finalizedAtTick == nodes[h].finalizedAtTick
  {
  }

  lemma OverdrawnReported(nodes: Nodes, balances: Accounts, violations: seq<DagError>)
    requires forall e :: e in violations <==> e.DoubleSpend? && DoubleSpends.Flagged(nodes, balances, e.hash)
    ensures (set e | e in violations :: e.hash) == Overdrawn(nodes, balances)
    ensures forall e :: e in violations ==> e.DoubleSpend?
  {
    hide DoubleSpends.Flagged;
    DoubleSpends.FlaggedAreNodes(nodes, balances);
    forall h | h in Overdrawn(nodes, balances) ensures h in set e | e in violations :: e.hash {
      assert DoubleSpend(h) in violations;
    }
  }

  /**
   What a tick does to the marks: exactly the overdrawn nodes become rejected, whatever they were, and exactly the
   other accepted ones that are old enough become finalized. Applied marks stay.
   */
  lemma CheckedMarks(nodes: Nodes, balances: Accounts, tick: nat)
    ensures var n := Checked(nodes, balances, tick);
            && n.Keys == nodes.Keys
            && (forall h :: h in nodes ==>
                  n[h].shift == nodes[h].shift && n[h].applied == nodes[h].applied && n[h].insertedAtTick == nodes[h].insertedAtTick)
            && (forall h :: h in nodes ==> (n[h].status.Rejected? <==> nodes[h].status.Rejected? || h in Overdrawn(nodes, balances)))
            && (forall h :: h in nodes ==>
                  (n[h].status.Finalized? <==>
                   h !in Overdrawn(nodes, balances) && (nodes[h].status.Finalized? || Dag.Promotable(nodes[h], tick))))
  {
    hide Overdrawn;
  }

  /** A finalized shift stays finalized, and a settled one unrejected, exactly as long as it is not flagged. */
  lemma FinalityKept(nodes: Nodes, balances: Accounts, tick: nat, h: TxHash)
    requires h in nodes
    ensures nodes[h].status.Finalized? ==>
              (Checked(nodes, balances, tick)[h].status.Finalized? <==> !DoubleSpends.Flagged(nodes, balances, h))
    ensures nodes[h].applied && !nodes[h].status.Rejected? ==>
              (Checked(nodes, balances, tick)[h].status.Rejected? <==> DoubleSpends.Flagged(nodes, balances, h))
  {
    hide DoubleSpends.Flagged, Checked;
    CheckedMarks(nodes, balances, tick);
  }

  /** Two concurrent transfers of 50 by account 0. */
  function SpentPair(): (nodes: Nodes)
    ensures nodes.Keys == {0, 1}
  {
    map[
      0 := NewNode(0, RootShift(0, 50, VectorClock(map[0 := 1]), 0), 0, 3),
      1 := NewNode(1, RootShift(0, 50, VectorClock(map[1 := 1]), 1), 0, 3)]
  }

  lemma SpentPairConcurrent()
    ensures DoubleSpends.Concurrent(SpentPair(), 0, 1) && DoubleSpends.SentBy(SpentPair(), 0) == {0, 1}
    ensures DoubleSpends.Rivals(SpentPair(), 0, 1) == {}
  {
    var a, b := VectorClock(map[0 := 1]), VectorClock(map[1 := 1]);
    assert 0 in a.times && b.Get(0) < a.times[0] && 1 in b.times && a.Get(1) < b.times[1];
    HappenedBeforeIsStrict(a, b);
    HappenedBeforeIsStrict(b, a);
    assert a.Get(0) == 1 && b.Get(1) == 1;
  }

  /** The second of the pair is flagged exactly when the sender holds less than both together; the first never is. */
  lemma SpentPairFlags(balances: Accounts)
    ensures !DoubleSpends.Flagged(SpentPair(), balances, 0)
    ensures DoubleSpends.Flagged(SpentPair(), balances, 1) <==> Held(balances, 0) < 100
  {
    var nodes := SpentPair();
    SpentPairConcurrent();
    hide VectorClock.ConcurrentWith;
    DoubleSpends.EarliestNotFlagged(nodes, balances, 0);
    DoubleSpends.TotalNone(nodes);
    assert DoubleSpends.FlaggedBy(nodes, balances, 0, 1) <==> Held(balances, 0) < 100;
    assert !DoubleSpends.FlaggedBy(nodes, balances, 1, 1);
  }

  /**
   Finality is not permanent: both transfers settle, are finalized at tick 3 while the sender still holds 100,
   and the second is rejected at the next tick once the sender holds less, although its value has moved.
   */
  lemma FinalityLost(balances: Accounts)
    requires Held(balances, 0) < 100
    ensures Mirrored(SpentPair()) && TopologicalFor(SpentPair(), [0, 1])
    ensures var settled := Dag.WithApplied(SpentPair(), {0, 1});
            var final := Checked(settled, map[0 := 100], 3);
            var later := Checked(final, balances, 4);
            && final.Keys == later.Keys == {0, 1}
            && final[0].status.Finalized? && final[1].status.Finalized? && final[1].applied
            && later[0].status.Finalized? && later[1].status.Rejected? && later[1].applied
  {
    hide Checked, DoubleSpends.Flagged, Mirrored, TopologicalFor;
    UnlinkedIsLegal(SpentPair(), [0, 1]);
    var settled := Dag.WithApplied(SpentPair(), {0, 1});
    var final := Checked(settled, map[0 := 100], 3);
    CheckedMarks(settled, map[0 := 100], 3);
    CheckedMarks(final, balances, 4);
    SpentPairFlags(map[0 := 100]);
    SpentPairFlags(balances);
    FlaggedSame(SpentPair(), settled, map[0 := 100]);
    FlaggedSame(SpentPair(), final, balances);
  }

  /** The pair really settles, both transfers in one tick, from a sender holding any amount from 100 up. */
  lemma {:induction false} SpentPairSettles(held: nat, r: Registry)
    requires held >= 100 && FeesBounded(r) && 0 in r && r[0].feePolicy.MetabolicOnly?
    ensures Settled(map[0 := held], SpentPair(), r, {0, 1}, [0, 1]) == [0, 1]
    ensures Held(Replay(map[0 := held], SpentPair(), r, [0, 1]), 0) == held - 100
  {
    hide Settled, Replay, AllPayable, Transfer, Payable, SignalFee, Held, FeesBounded;
    var sim: Accounts, nodes, order := map[0 := held], SpentPair(), [0, 1];
    assert order[..0] == [] && order[..1] == [0] && order[..2] == order;
    NothingSettled(sim, nodes, r, {0, 1});
    HeldAtStart(held);
    FreeTransfer(sim, r, nodes[0].shift);
    SettledNext(sim, nodes, r, {0, 1}, order, 0);
    ReplayNext(sim, nodes, r, [], 0);
    assert [] + [0] == [0] && [0] + [1] == order;
    HalfPaid(sim);
    FreeTransfer(Transfer(sim, 0, 1, 50, 50), r, nodes[1].shift);
    SettledNext(sim, nodes, r, {0, 1}, order, 1);
    ReplayNext(sim, nodes, r, [0], 1);
    HalfPaid(Transfer(sim, 0, 1, 50, 50));
  }

  lemma HeldAtStart(held: nat)
    ensures Held(map[0 := held], 0) == held
  {
  }

  lemma FreeTransfer(sim: Accounts, r: Registry, shift: StatefulShift)
    requires FeesBounded(r) && shift.domain in r && r[shift.domain].feePolicy.MetabolicOnly? && Held(sim, shift.from) >= shift.amount
    ensures Payable(sim, r, shift) && SignalFee(r, shift) == Some(Fee(0, shift.amount))
  {
  }

  lemma HalfPaid(sim: Accounts)
    requires Held(sim, 0) >= 50
    ensures Held(Transfer(sim, 0, 1, 50, 50), 0) == Held(sim, 0) - 50
  {
  }

  // ----- fees -----

  /** The fees each sender owes. */
  function FeeDebts(nodes: Nodes, r: Registry, hashes: seq<TxHash>): Accounts
    requires FeesBounded(r) && forall h :: h in hashes ==> h in nodes
  {
    if hashes == [] then map[]
    else
      var n := |hashes| - 1;
      var shift := nodes[hashes[n]].shift;
      var debts := FeeDebts(nodes, r, hashes[..n]);
      debts[shift.from := Held(debts, shift.from) + FeeOf(r, shift)]
  }

  /** The debts add up to the fees, and the debtors are the senders. */
  lemma {:induction false} FeeDebtsMean(nodes: Nodes, r: Registry, hashes: seq<TxHash>)
    requires FeesBounded(r) && forall h :: h in hashes ==> h in nodes
    ensures Sum(FeeDebts(nodes, r, hashes)) == Fees(nodes, r, hashes)
    ensures forall a :: a in FeeDebts(nodes, r, hashes) <==> exists h :: h in hashes && nodes[h].shift.from == a
  {
    hide Sum, FeeOf, FeesBounded;
    if hashes == [] {
      SumOfNothing<AccountId>();
    } else {
      var n := |hashes| - 1;
      var shift, debts := nodes[hashes[n]].shift, FeeDebts(nodes, r, hashes[..n]);
      FeeDebtsMean(nodes, r, hashes[..n]);
      SumUpdate(debts, shift.from, Held(debts, shift.from) + FeeOf(r, shift));
      assert hashes == hashes[..n] + [hashes[n]];
    }
  }

  /** The same accounts, or more, with the same histories; only units may differ. */
  ghost predicate SameButUnits(before: Ledger, after: Ledger, known: set<AccountId>) {
    && before.Keys <= after.Keys <= known
    && forall a :: a in after ==> after[a].(units := 0) == BalanceOf(before, a).(units := 0)
  }

  /** The accounts while the debtors in `todo` have not been debited yet. */
  ghost predicate PartlyDebited(was: Ledger, now: Ledger, debts: Accounts, todo: set<AccountId>, known: set<AccountId>) {
    && SameButUnits(was, now, known)
    && forall a: AccountId :: BalanceOf(now, a).units == SatSub(BalanceOf(was, a).units, if a in todo then 0 else Held(debts, a))
  }

  lemma DebitStarts(was: Ledger, debts: Accounts, known: set<AccountId>)
    requires was.Keys <= known
    ensures PartlyDebited(was, was, debts, debts.Keys, known)
  {
  }

  lemma DebitStep(was: Ledger, now: Ledger, debts: Accounts, todo: set<AccountId>, known: set<AccountId>, a: AccountId)
    requires PartlyDebited(was, now, debts, todo, known) && a in todo && a in debts && a in known
    ensures var b := BalanceOf(now, a);
            PartlyDebited(was, now[a := b.(units := SatSub(b.units, debts[a]))], debts, todo - {a}, known)
  {
  }

  lemma DebitEnds(was: Ledger, now: Ledger, debts: Accounts, known: set<AccountId>)
    requires PartlyDebited(was, now, debts, {}, known)
    ensures SameButUnits(was, now, known)
    ensures forall a: AccountId :: BalanceOf(now, a).units == SatSub(BalanceOf(was, a).units, Held(debts, a))
  {
  }

  /** Whatever happened to the units, writing the settled balances back gives the same accounts. */
  lemma SyncedIgnoresUnits(before: Ledger, after: Ledger, sim: Accounts, active: set<AccountId>, tick: nat)
    requires SameButUnits(before, after, sim.Keys) && Bounded(sim)
    ensures SyncedBack(after, sim, active, tick) == SyncedBack(before, sim, active, tick)
  {
  }

  /** Senders of settled shifts, and everyone with a settled balance before, have one after. */
  lemma {:induction false} DebtorsKnown(sim: Accounts, nodes: Nodes, r: Registry, hashes: seq<TxHash>)
    requires FeesBounded(r) && (forall h :: h in hashes ==> h in nodes) && AllPayable(sim, nodes, r, hashes)
    ensures FeeDebts(nodes, r, hashes).Keys <= Replay(sim, nodes, r, hashes).Keys
  {
    hide SignalFee;
    if hashes != [] {
      var n := |hashes| - 1;
      var t := hashes[..n];
      assert forall i :: 0 <= i < n ==> t[..i] == hashes[..i];
      DebtorsKnown(sim, nodes, r, t);
    }
  }

  lemma BoundedBySum(sim: Accounts)
    requires Sum(sim) <= U128_MAX
    ensures Bounded(sim)
  {
    forall a | a in sim ensures sim[a] <= U128_MAX {
      SumBounds(sim, a);
    }
  }

  /** The accounts are those before with the settled balances written back. */
  ghost predicate WrittenBack(before: Ledger, after: Ledger, sim: Accounts, active: set<AccountId>, tick: nat) {
    Bounded(sim) && after == SyncedBack(before, sim, active, tick)
  }

  /** The accounts that traded, as far as the listed shifts are known. */
  ghost function ActiveIn(nodes: Nodes, hashes: seq<TxHash>): set<AccountId> {
    if forall h :: h in hashes ==> h in nodes then ActiveAccounts(nodes, hashes) else {}
  }

  /** Settled balances are taken over, and exactly the accounts that really traded are marked active at the tick. */
  lemma WrittenBackMeans(before: Ledger, after: Ledger, sim: Accounts, nodes: Nodes, hashes: seq<TxHash>, tick: nat, a: AccountId)
    requires (forall h :: h in hashes ==> h in nodes) && WrittenBack(before, after, sim, ActiveIn(nodes, hashes), tick)
    ensures a in after <==> a in before || a in sim
    ensures a in after ==>
              var b := BalanceOf(before, a);
              var traded := exists h :: h in hashes && nodes[h].shift.from != nodes[h].shift.to
                                        && (a == nodes[h].shift.from || a == nodes[h].shift.to);
              && after[a].units == (if a in sim then sim[a] else b.units)
              && after[a].lastActiveTick == (if a in sim && traded then tick else b.lastActiveTick)
              && after[a].lastDecayTick == b.lastDecayTick && after[a].decays == b.decays
  {
    hide ActiveAccounts;
    ActiveMeans(nodes, hashes, a);
  }

  lemma SameUntouched(accounts: Ledger, known: set<AccountId>)
    requires accounts.Keys <= known
    ensures SameButUnits(accounts, accounts, known)
  {
  }

  /** Shifts that were not yet applied extend the settled list without repetition. */
  lemma SettledGrows(nodes: Nodes, settled: seq<TxHash>, hashes: seq<TxHash>)
    requires NoDuplicates(settled) && forall h :: h in settled <==> h in nodes && nodes[h].applied
    requires NoDuplicates(hashes) && forall h :: h in hashes ==> h in nodes && !nodes[h].applied
    ensures NoDuplicates(settled + hashes)
    ensures var n := Dag.WithApplied(nodes, SeqSet(hashes));
            && (forall h :: h in settled + hashes <==> h in n && n[h].applied)
            && n.Keys == nodes.Keys && forall h :: h in nodes ==> n[h].shift == nodes[h].shift
  {
    var all := settled + hashes;
    forall i, j | 0 <= i < j < |all| ensures all[i] != all[j] {
      if i < |settled| <= j {
        assert all[i] in settled && all[j] in hashes;
      }
    }
  }

  lemma FiledKeeps(before: Nodes, after: Nodes, shifts: seq<StatefulShift>, r: Registry, keys: Keys,
                   hashOf: Dag.Hasher, verifies: Dag.Verifier, tick: nat, queued: seq<StatefulShift>)
    requires Filed(before, after, shifts, r, keys, hashOf, verifies, tick)
    requires forall h :: h in before ==> Genuine(before[h].shift, queued) && hashOf(before[h].shift) == h
    requires forall s :: s in shifts ==> Genuine(s, queued)
    ensures before.Keys <= after.Keys
    ensures forall h :: (h in after && after[h].applied) <==> (h in before && before[h].applied)
    ensures forall h :: h in after ==> Genuine(after[h].shift, queued) && hashOf(after[h].shift) == h
  {
  }

  lemma DecayKeys(accounts: Ledger, tick: nat, ratePpm: nat, immune: set<AccountId>)
    ensures DecayAll(accounts, tick, ratePpm, immune).Keys == accounts.Keys
  {
  }

  /** Being overdrawn depends on the shifts and their insertion ticks alone. */
  lemma FlaggedSame(nodes: Nodes, nodes': Nodes, balances: Accounts)
    requires nodes'.Keys == nodes.Keys
    requires forall h :: h in nodes ==> nodes'[h].shift == nodes[h].shift && nodes'[h].insertedAtTick == nodes[h].insertedAtTick
    ensures forall h :: DoubleSpends.Flagged(nodes', balances, h) <==> DoubleSpends.Flagged(nodes, balances, h)
  {
    forall x, y | x in nodes && y in nodes
      ensures DoubleSpends.FlaggedBy(nodes', balances, x, y) <==> DoubleSpends.FlaggedBy(nodes, balances, x, y)
    {
      RivalsSame(nodes, nodes', x, y);
    }
  }

  lemma RivalsSame(nodes: Nodes, nodes': Nodes, x: TxHash, y: TxHash)
    requires nodes'.Keys == nodes.Keys && x in nodes && y in nodes
    requires forall h :: h in nodes ==> nodes'[h].shift == nodes[h].shift && nodes'[h].insertedAtTick == nodes[h].insertedAtTick
    ensures var rivals := DoubleSpends.Rivals(nodes, x, y);
            DoubleSpends.Rivals(nodes', x, y) == rivals && DoubleSpends.Total(nodes', rivals) == DoubleSpends.Total(nodes, rivals)
  {
    var rivals := DoubleSpends.Rivals(nodes, x, y);
    assert DoubleSpends.Rivals(nodes', x, y) == rivals;
    assert DoubleSpends.Amounts(nodes', rivals) == DoubleSpends.Amounts(nodes, rivals);
  }

  lemma CheckedFlags(nodes: Nodes, balances: Accounts, tick: nat)
    ensures var n := Checked(nodes, balances, tick);
            forall h :: h in n && DoubleSpends.Flagged(n, balances, h) ==> n[h].status.Rejected?
  {
    hide DoubleSpends.Flagged;
    var n := Checked(nodes, balances, tick);
    FlaggedSame(nodes, n, balances);
  }

  /** What settles was neither rejected nor settled before, and is not overdrawn against the balances it is settled from. */
  lemma SettledNotOverdrawn(filed: Nodes, balances: Accounts, tick: nat, r: Registry, keys: Keys, verifies: Dag.Verifier,
                            tallies: Tallies, threshold: nat, order: seq<TxHash>)
    requires var ready := Checked(filed, balances, tick);
             FeesBounded(r) && NoDuplicates(order) && forall h :: h in order ==> h in ready
    ensures var ready := Checked(filed, balances, tick);
            forall h :: h in Settled(balances, ready, r, Eligibles(ready, r, keys, verifies, tallies, threshold), order) ==>
              h in ready && !ready[h].applied && !ready[h].status.Rejected? && !DoubleSpends.Flagged(ready, balances, h)
  {
    hide Checked, DoubleSpends.Flagged, Settled, NoDuplicates;
    var ready := Checked(filed, balances, tick);
    var eligible := Eligibles(ready, r, keys, verifies, tallies, threshold);
    SettledFacts(balances, ready, r, eligible, order);
    CheckedFlags(filed, balances, tick);
    forall h | h in Settled(balances, ready, r, eligible, order) ensures h in eligible {
      assert h in SeqSet(Settled(balances, ready, r, eligible, order));
    }
  }

  /** Whatever the nodes and the order, concurrent transfers of one sender that settle together fit its balance. */
  lemma ConcurrentSettledFit(filed: Nodes, balances: Accounts, tick: nat, r: Registry, keys: Keys, verifies: Dag.Verifier,
                             tallies: Tallies, threshold: nat, order: seq<TxHash>, sender: AccountId, s: set<TxHash>)
    requires var ready := Checked(filed, balances, tick);
             && FeesBounded(r) && NoDuplicates(order) && (forall h :: h in order ==> h in ready)
             && s <= SeqSet(Settled(balances, ready, r, Eligibles(ready, r, keys, verifies, tallies, threshold), order))
             && s <= DoubleSpends.SentBy(ready, sender) && |s| >= 2
             && forall x, y :: x in s && y in s && x != y ==> DoubleSpends.Concurrent(ready, x, y)
    ensures DoubleSpends.Total(Checked(filed, balances, tick), s) <= Held(balances, sender)
  {
    hide Checked, DoubleSpends.Flagged, Settled, NoDuplicates, Eligibles;
    SettledNotOverdrawn(filed, balances, tick, r, keys, verifies, tallies, threshold, order);
    DoubleSpends.UnflaggedFit(Checked(filed, balances, tick), balances, sender, s);
  }
}
