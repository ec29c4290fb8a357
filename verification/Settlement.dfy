/**
 Applying ordered transfers with fees to a set of balances.
 */
module Settlement {
  import opened Basics
  import opened Sums
  import opened DagModel
  import opened Domains

  type Accounts = map<AccountId, nat>

  function Held(sim: Accounts, a: AccountId): nat {
    if a in sim then sim[a] else 0
  }

  /** Takes the amount from the sender and gives the receiver what the fee leaves. */
  function Transfer(sim: Accounts, from: AccountId, to: AccountId, amount: nat, net: nat): (r: Accounts)
    requires Held(sim, from) >= amount
    ensures r.Keys == sim.Keys + {from, to}
  {
    var s: Accounts := sim[from := Held(sim, from) - amount];
    s[to := Held(s, to) + net]
  }

  lemma TransferTotal(sim: Accounts, from: AccountId, to: AccountId, amount: nat, net: nat)
    requires Held(sim, from) >= amount
    ensures Sum(Transfer(sim, from, to, amount, net)) == Sum(sim) - amount + net
  {
    var s: Accounts := sim[from := Held(sim, from) - amount];
    SumUpdate(sim, from, Held(sim, from) - amount);
    SumUpdate(s, to, Held(s, to) + net);
  }

  /** Why a shift may be settled: its fee is defined and its sender can pay. */
  predicate Payable(sim: Accounts, r: Registry, shift: StatefulShift)
    requires FeesBounded(r)
  {
    SignalFee(r, shift).Some? && Held(sim, shift.from) >= shift.amount
  }

  function Apply(sim: Accounts, r: Registry, shift: StatefulShift): Accounts
    requires FeesBounded(r)
  {
    if Payable(sim, r, shift) then Transfer(sim, shift.from, shift.to, shift.amount, SignalFee(r, shift).value.net) else sim
  }

  function FeeOf(r: Registry, shift: StatefulShift): nat
    requires FeesBounded(r)
  {
    if SignalFee(r, shift).Some? then SignalFee(r, shift).value.fee else 0
  }

  /** The balances after settling the listed shifts one after the other. */
  function Replay(sim: Accounts, nodes: Nodes, r: Registry, hashes: seq<TxHash>): Accounts
    requires FeesBounded(r) && forall h :: h in hashes ==> h in nodes
  {
    if hashes == [] then sim
    else
      var n := |hashes| - 1;
      Apply(Replay(sim, nodes, r, hashes[..n]), r, nodes[hashes[n]].shift)
  }

  /** Every listed shift was payable when its turn came. */
  ghost predicate AllPayable(sim: Accounts, nodes: Nodes, r: Registry, hashes: seq<TxHash>)
    requires FeesBounded(r) && forall h :: h in hashes ==> h in nodes
  {
    forall i :: 0 <= i < |hashes| ==> Payable(Replay(sim, nodes, r, hashes[..i]), r, nodes[hashes[i]].shift)
  }

  function Fees(nodes: Nodes, r: Registry, hashes: seq<TxHash>): nat
    requires FeesBounded(r) && forall h :: h in hashes ==> h in nodes
  {
    if hashes == [] then 0
    else
      var n := |hashes| - 1;
      Fees(nodes, r, hashes[..n]) + FeeOf(r, nodes[hashes[n]].shift)
  }

  /** Settlement conserves value: what accounts lose is exactly the fees. */
  lemma {:induction false} ReplayConserves(sim: Accounts, nodes: Nodes, r: Registry, hashes: seq<TxHash>)
    requires FeesBounded(r) && forall h :: h in hashes ==> h in nodes
    requires AllPayable(sim, nodes, r, hashes)
    ensures Sum(Replay(sim, nodes, r, hashes)) + Fees(nodes, r, hashes) == Sum(sim)
    ensures sim.Keys <= Replay(sim, nodes, r, hashes).Keys
  {
    hide Sum, Transfer, SignalFee;
    if hashes == [] {
    } else {
      var n := |hashes| - 1;
      var t := hashes[..n];
      assert forall i :: 0 <= i < n ==> t[..i] == hashes[..i];
      ReplayConserves(sim, nodes, r, t);
      var shift := nodes[hashes[n]].shift;
      TransferTotal(Replay(sim, nodes, r, t), shift.from, shift.to, shift.amount, SignalFee(r, shift).value.net);
    }
  }

  /** Extending the list by one payable shift. */
  lemma ReplayNext(sim: Accounts, nodes: Nodes, r: Registry, hashes: seq<TxHash>, h: TxHash)
    requires FeesBounded(r) && h in nodes && forall k :: k in hashes ==> k in nodes
    requires AllPayable(sim, nodes, r, hashes) && Payable(Replay(sim, nodes, r, hashes), r, nodes[h].shift)
    ensures AllPayable(sim, nodes, r, hashes + [h])
    ensures var shift := nodes[h].shift;
            && Replay(sim, nodes, r, hashes + [h]) ==
               Transfer(Replay(sim, nodes, r, hashes), shift.from, shift.to, shift.amount, SignalFee(r, shift).value.net)
            && Fees(nodes, r, hashes + [h]) == Fees(nodes, r, hashes) + SignalFee(r, shift).value.fee
  {
    hide SignalFee, Transfer;
    var t := hashes + [h];
    assert t[..|hashes|] == hashes;
    assert forall i :: 0 <= i < |hashes| ==> t[..i] == hashes[..i];
  }

  /** What one settled shift does to each account, sender and receiver possibly the same. */
  lemma ApplyMeaning(sim: Accounts, r: Registry, shift: StatefulShift, a: AccountId)
    requires FeesBounded(r) && Payable(sim, r, shift)
    ensures Held(Apply(sim, r, shift), a) ==
            Held(sim, a) - (if a == shift.from then shift.amount else 0) + (if a == shift.to then shift.amount - FeeOf(r, shift) else 0)
  {
  }
}
