/**
 The operator stake table: locking, slashing and the quorum threshold.
 */
module Stake {
  import opened Basics
  import opened Sums

  datatype OperatorEntry = OperatorEntry(stake: nat, slashNonce: Option<nat>)

  type Operators = map<AccountId, OperatorEntry>

  const NO_ENTRY := OperatorEntry(0, None)

  function EntryOf(ops: Operators, op: AccountId): OperatorEntry {
    if op in ops then ops[op] else NO_ENTRY
  }

  function StakeOf(ops: Operators, op: AccountId): nat {
    EntryOf(ops, op).stake
  }

  predicate IsStaked(ops: Operators, minStake: nat, op: AccountId) {
    op in ops && ops[op].stake >= minStake && ops[op].slashNonce.None?
  }

  /** Stakes that count towards the total: those of operators never slashed. */
  function Active(ops: Operators): (m: map<AccountId, int>)
    ensures NonNegative(m)
  {
    map op | op in ops && ops[op].slashNonce.None? :: ops[op].stake
  }

  function AllStakes(ops: Operators): (m: map<AccountId, int>)
    ensures NonNegative(m)
  {
    map op | op in ops :: ops[op].stake
  }

  ghost function TotalStake(ops: Operators): nat {
    SumNonNegative(Active(ops));
    Sum(Active(ops))
  }

  ghost function Locked(ops: Operators): nat {
    SumNonNegative(AllStakes(ops));
    Sum(AllStakes(ops))
  }

  function Threshold(total: nat): nat {
    if total == 0 then 0 else total / 3 * 2 + 1
  }

  function SlashedOps(ops: Operators, op: AccountId, nonce: nat): Operators {
    ops[op := OperatorEntry(0, Some(nonce))]
  }

  function StakedOps(ops: Operators, op: AccountId, amount: nat): Operators {
    ops[op := EntryOf(ops, op).(stake := amount)]
  }

  /** The threshold is documented as more than two thirds; that holds exactly when the total is not 2 modulo 3. */
  lemma ThresholdIsTwoThirds(total: nat)
    requires total > 0
    ensures 3 * Threshold(total) == 2 * total + 3 - 2 * (total % 3)
    ensures 3 * Threshold(total) > 2 * total <==> total % 3 != 2
    ensures Threshold(total) <= total
  {
  }

  /** An operator adds its stake to the total exactly when it has never been slashed, however small the stake. */
  lemma TotalStakeCounts(ops: Operators, op: AccountId)
    requires op in ops
    ensures TotalStake(ops) == TotalStake(ops - {op}) + if ops[op].slashNonce.None? then ops[op].stake else 0
    ensures TotalStake(map[]) == 0
  {
    assert Active(map[]) == map[];
    if ops[op].slashNonce.None? {
      SumRemove(Active(ops), op);
      assert Active(ops - {op}) == Active(ops) - {op};
    } else {
      assert Active(ops - {op}) == Active(ops);
    }
  }

  /** Locking changes the locked total by the difference of the two stakes. */
  lemma StakeLocks(ops: Operators, op: AccountId, amount: nat)
    ensures Locked(StakedOps(ops, op, amount)) == Locked(ops) - StakeOf(ops, op) + amount
  {
    SumUpdate(AllStakes(ops), op, amount);
    assert AllStakes(StakedOps(ops, op, amount)) == AllStakes(ops)[op := amount];
  }

  lemma LockedAtLeast(ops: Operators, op: AccountId)
    ensures StakeOf(ops, op) <= Locked(ops)
  {
    SumBounds(AllStakes(ops), op);
  }

  /** Slashing takes the whole stake out of the locked total. */
  lemma SlashUnlocks(ops: Operators, op: AccountId, nonce: nat)
    ensures Locked(SlashedOps(ops, op, nonce)) == Locked(ops) - StakeOf(ops, op)
  {
    SumUpdate(AllStakes(ops), op, 0);
    assert AllStakes(SlashedOps(ops, op, nonce)) == AllStakes(ops)[op := 0];
  }

  class StakeTable {
    const minStake: nat
    var operators: Operators
    var slashCounter: nat

    constructor (minStake: nat)
      ensures this.minStake == minStake && operators == map[] && slashCounter == 0
    {
      this.minStake := minStake;
      operators := map[];
      slashCounter := 0;
    }

    /** Sets an operator's locked amount; a slash mark stays. */
    method Stake(operator: AccountId, amount: nat) returns (previous: nat)
      modifies this`operators
      ensures previous == StakeOf(old(operators), operator)
      ensures operators == StakedOps(old(operators), operator, amount)
      ensures operator in operators && operators[operator].stake == amount
              && operators[operator].slashNonce == if operator in old(operators) then old(operators)[operator].slashNonce else None
      ensures operators - {operator} == old(operators) - {operator}
    {
      var entry := EntryOf(operators, operator);
      previous := entry.stake;
      operators := operators[operator := entry.(stake := amount)];
    }

    method Slash(operator: AccountId) returns (nonce: nat, burned: nat)
      modifies this
      ensures nonce == old(slashCounter) && slashCounter == old(slashCounter) + 1
      ensures burned == StakeOf(old(operators), operator)
      ensures operators == SlashedOps(old(operators), operator, nonce)
      ensures operator in operators && operators[operator].stake == 0 && operators[operator].slashNonce == Some(nonce)
      ensures operators - {operator} == old(operators) - {operator}
    {
      nonce := slashCounter;
      slashCounter := slashCounter + 1;
      var entry := EntryOf(operators, operator);
      burned := entry.stake;
      operators := operators[operator := OperatorEntry(0, Some(nonce))];
    }

    method QuorumThreshold() returns (t: nat)
      ensures t == Threshold(TotalStake(operators))
    {
      var total: nat := 0;
      var todo := operators.Keys;
      ghost var seen: map<AccountId, int> := map[];
      while todo != {}
        invariant todo <= operators.Keys
        invariant seen == Restrict(Active(operators), operators.Keys - todo)
        invariant total == Sum(seen)
        decreases todo
      {
        var op :| op in todo;
        if operators[op].slashNonce.None? {
          SumUpdate(seen, op, operators[op].stake);
          seen := seen[op := operators[op].stake];
          total := total + operators[op].stake;
        }
        todo := todo - {op};
      }
      assert seen == Active(operators);
      t := if total == 0 then 0 else total / 3 * 2 + 1;
    }
  }
}
