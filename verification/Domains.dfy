/**
 Concurrency domains and their fees, and the supply counters.
 */
module Domains {
  import opened Basics
  import opened Machine
  import opened Metabolic
  import opened DagModel

  datatype OrderingMode = Causal | Commutative | Strict

  datatype FeePolicy = Flat(fee: nat) | Percentage(bp: nat) | MetabolicOnly

  datatype DomainPolicy = DomainPolicy(
    domain: DomainId, commutative: bool, stateful: bool, ordering: OrderingMode,
    finalizationDepth: nat, metabolicLambdaPpm: nat, feePolicy: FeePolicy)

  type Registry = map<DomainId, DomainPolicy>

  /** 100 WAVE at 10^12 sub-units each. */
  const DOMAIN_RESERVATION_FEE: nat := 100_000_000_000_000

  /** The checks made when a policy is built. */
  predicate PolicyAccepted(p: DomainPolicy) {
    p.metabolicLambdaPpm < DECAY_DENOMINATOR && p.finalizationDepth != 0
  }

  /** Percentage fees of at most 100%. */
  predicate FeesBounded(r: Registry) {
    forall d :: d in r && r[d].feePolicy.Percentage? ==> r[d].feePolicy.bp <= 10_000
  }

  function PercentageFee(amount: nat, bp: nat): nat {
    SatMul(amount, bp) / 10_000
  }

  datatype Fee = Fee(fee: nat, net: nat)

  /** The fee of a transfer and what is left for the receiver; None where the code reports an error. */
  function SignalFee(r: Registry, shift: StatefulShift): (f: Option<Fee>)
    requires FeesBounded(r)
    ensures f.Some? ==> f.value.fee + f.value.net == shift.amount
    ensures f.None? <==> shift.domain !in r || (r[shift.domain].feePolicy.Flat? && shift.amount < r[shift.domain].feePolicy.fee)
  {
    if shift.domain !in r then None
    else
      match r[shift.domain].feePolicy
      case Flat(fee) => if shift.amount < fee then None else Some(Fee(fee, shift.amount - fee))
      case Percentage(bp) =>
        PercentageWithin(shift.amount, bp);
        var fee := PercentageFee(shift.amount, bp);
        Some(Fee(fee, shift.amount - fee))
      case MetabolicOnly => Some(Fee(0, shift.amount))
  }

  /** What each policy charges: the flat fee, the stated share rounded down, or nothing. */
  lemma FeeMeaning(r: Registry, shift: StatefulShift)
    requires FeesBounded(r) && SignalFee(r, shift).Some?
    ensures var fee := SignalFee(r, shift).value.fee;
            match r[shift.domain].feePolicy
            case Flat(flat) => fee == flat
            case Percentage(bp) => shift.amount * bp <= U128_MAX ==> 10_000 * fee <= shift.amount * bp < 10_000 * fee + 10_000
            case MetabolicOnly => fee == 0
  {
    if r[shift.domain].feePolicy.Percentage? {
      MulNonNegative(shift.amount, r[shift.domain].feePolicy.bp);
      DivBounds(SatMul(shift.amount, r[shift.domain].feePolicy.bp), 10_000);
    }
  }

  lemma PercentageWithin(amount: nat, bp: nat)
    requires bp <= 10_000
    ensures PercentageFee(amount, bp) <= amount
  {
  }

  /**
   A percentage policy never charges more than is transferred exactly when it asks for at most 10000 basis points.
   A policy is accepted whatever it asks for.
   */
  lemma PercentageBoundIsExact(policy: DomainPolicy)
    requires policy.feePolicy.Percentage?
    ensures var bp := policy.feePolicy.bp;
            (forall amount: nat :: amount <= U128_MAX ==> PercentageFee(amount, bp) <= amount) <==> bp <= 10_000
    ensures PolicyAccepted(policy) <==> PolicyAccepted(policy.(feePolicy := MetabolicOnly))
  {
    var bp := policy.feePolicy.bp;
    if bp <= 10_000 {
      forall amount: nat | amount <= U128_MAX ensures PercentageFee(amount, bp) <= amount {
        PercentageWithin(amount, bp);
      }
    } else {
      assert PercentageFee(10_000, bp) > 10_000;
    }
  }

  const TOTAL_WAVE_SUPPLY: nat := 1_000_000_000_000_000_000_000

  class SupplyTracker {
    var circulating: nat
    var burned: nat

    constructor ()
      ensures circulating == 0 && burned == 0
    {
      circulating, burned := 0, 0;
    }

    method Mint(amount: nat) returns (ok: bool)
      modifies this`circulating
      ensures ok <==> amount == 0 || old(circulating) + amount <= TOTAL_WAVE_SUPPLY
      ensures circulating == old(circulating) + if ok then amount else 0
    {
      if amount == 0 {
        return true;
      }
      if SatAdd(circulating, amount) > TOTAL_WAVE_SUPPLY {
        return false;
      }
      circulating := circulating + amount;
      ok := true;
    }

    method Burn(amount: nat)
      modifies this
      ensures burned == old(burned) + amount
      ensures circulating == SatSub(old(circulating), amount)
    {
      if amount == 0 {
        return;
      }
      circulating := SatSub(circulating, amount);
      burned := burned + amount;
    }
  }
}
