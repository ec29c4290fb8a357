/**
 The reward pool: how burned value and fees are split between liquidity
 providers and staked operators.
 */
module Rewards {
  import opened Basics
  import opened Machine
  import opened Sums
  import opened Stake

  const OPERATOR_REWARD_BASIS_POINTS: nat := 5_000
  const LP_REWARD_BASIS_POINTS: nat := 5_000

  /** The default domain doubles as the one pool liquidity providers earn in. */
  const DEFAULT_DEX_DOMAIN: DomainId := 0x4445_585f_5741_5645_5f55_5344_4300_0000_0000_0000_0000_0000_0000_0000_0000_0000

  /** Staked operators and their stakes. */
  function StakedOperators(ops: Operators, minStake: nat): (m: map<AccountId, int>)
    ensures NonNegative(m)
  {
    map op | op in ops && IsStaked(ops, minStake, op) :: ops[op].stake
  }

  function Half(burned: nat): nat {
    SatMul(burned, OPERATOR_REWARD_BASIS_POINTS) / 10_000
  }

  function Share(reward: nat, stake: nat, total: nat): nat
    requires total > 0
  {
    SatMul(reward, stake) / total
  }

  /** The operators' shares. */
  function Shares(reward: nat, staked: map<AccountId, int>, total: nat): (m: map<AccountId, int>)
    requires NonNegative(staked) && total > 0
    ensures NonNegative(m)
  {
    map op | op in staked :: Share(reward, staked[op], total)
  }

  /** What one distribution allocates in all. */
  ghost function Allocated(burned: nat, staked: map<AccountId, int>): int
    requires NonNegative(staked)
  {
    SumNonNegative(staked);
    Half(burned) + if Sum(staked) == 0 then 0 else Sum(Shares(Half(burned), staked, Sum(staked)))
  }

  lemma ShareBounds(reward: nat, stake: nat, total: nat)
    requires total > 0
    ensures Share(reward, stake, total) * total <= reward * stake
    ensures reward * stake <= U128_MAX ==> reward * stake < Share(reward, stake, total) * total + total
  {
  }

  lemma SharesStep(reward: nat, staked: map<AccountId, int>, total: nat, op: AccountId)
    requires NonNegative(staked) && total > 0 && op in staked
    ensures Sum(staked) == staked[op] + Sum(staked - {op})
    ensures Sum(Shares(reward, staked, total)) == Share(reward, staked[op], total) + Sum(Shares(reward, staked - {op}, total))
  {
    SumRemove(staked, op);
    SumRemove(Shares(reward, staked, total), op);
    assert Shares(reward, staked, total) - {op} == Shares(reward, staked - {op}, total);
  }

  lemma NoShares(reward: nat, total: nat)
    requires total > 0
    ensures Sum<AccountId>(map[]) == 0 && Sum(Shares(reward, map[], total)) == 0
  {
  }

  /** All shares together, scaled by the total, stay within the reward times all stake. */
  lemma {:induction false} SharesUpper(reward: nat, staked: map<AccountId, int>, total: nat)
    requires NonNegative(staked) && total > 0
    ensures Sum(Shares(reward, staked, total)) * total <= reward * Sum(staked)
    decreases |staked|
  {
    hide Sum, Shares, Share;
    if staked == map[] {
      NoShares(reward, total);
    } else {
      var op :| op in staked;
      SharesStep(reward, staked, total, op);
      SharesUpper(reward, staked - {op}, total);
      ShareBounds(reward, staked[op], total);
      Distribute(Share(reward, staked[op], total), Sum(Shares(reward, staked - {op}, total)), total);
      Distribute(staked[op], Sum(staked - {op}), reward);
    }
  }

  /** Each operator's share is short by less than one sub-unit. */
  lemma {:induction false} SharesLower(reward: nat, staked: map<AccountId, int>, total: nat)
    requires NonNegative(staked) && total > 0
    requires forall op :: op in staked ==> reward * staked[op] <= U128_MAX
    ensures reward * Sum(staked) <= (Sum(Shares(reward, staked, total)) + |staked|) * total
    ensures staked != map[] ==> reward * Sum(staked) < (Sum(Shares(reward, staked, total)) + |staked|) * total
    decreases |staked|
  {
    hide Sum, Shares, Share;
    if staked == map[] {
      NoShares(reward, total);
    } else {
      var op :| op in staked;
      var rest := staked - {op};
      SharesStep(reward, staked, total, op);
      SharesLower(reward, rest, total);
      ShareBounds(reward, staked[op], total);
      assert |staked| == |rest| + 1;
      var s, t := Share(reward, staked[op], total), Sum(Shares(reward, rest, total)) + |rest|;
      Distribute(s + 1, t, total);
      Distribute(s, 1, total);
      Distribute(staked[op], Sum(rest), reward);
    }
  }

  lemma HalfBounds(burned: nat)
    ensures 2 * Half(burned) <= burned
    ensures burned * OPERATOR_REWARD_BASIS_POINTS <= U128_MAX ==> burned <= 2 * Half(burned) + 1
  {
  }

  /** Never more is allocated than was handed in, even when products saturate. */
  lemma NeverOverAllocates(burned: nat, staked: map<AccountId, int>)
    requires NonNegative(staked)
    ensures 0 <= Allocated(burned, staked) <= burned
  {
    HalfBounds(burned);
    SumNonNegative(staked);
    var total := Sum(staked);
    if total > 0 {
      var shares := Shares(Half(burned), staked, total);
      SumNonNegative(shares);
      SharesUpper(Half(burned), staked, total);
      ScaledAtMost(Sum(shares), Half(burned), total);
    }
  }

  lemma ScaledAtMost(a: int, b: int, c: int)
    requires a * c <= b * c && c > 0
    ensures a <= b
  {
  }

  /** Without saturation, n operators of positive total stake cost at most n sub-units of rounding. */
  lemma RoundingAtMostOnePerOperator(burned: nat, staked: map<AccountId, int>)
    requires NonNegative(staked) && Sum(staked) > 0
    requires burned * OPERATOR_REWARD_BASIS_POINTS <= U128_MAX
    requires forall op :: op in staked ==> Half(burned) * staked[op] <= U128_MAX
    ensures burned - Allocated(burned, staked) <= |staked|
  {
    hide Half;
    HalfBounds(burned);
    OperatorRounding(Half(burned), staked);
  }

  lemma OperatorRounding(reward: nat, staked: map<AccountId, int>)
    requires NonNegative(staked) && Sum(staked) > 0
    requires forall op :: op in staked ==> reward * staked[op] <= U128_MAX
    ensures reward < Sum(Shares(reward, staked, Sum(staked))) + |staked|
  {
    assert staked != map[];
    SumNonNegative(staked);
    OperatorRoundingAt(reward, staked, Sum(staked));
  }

  lemma OperatorRoundingAt(reward: nat, staked: map<AccountId, int>, total: nat)
    requires NonNegative(staked) && staked != map[] && total == Sum(staked) > 0
    requires forall op :: op in staked ==> reward * staked[op] <= U128_MAX
    ensures reward < Sum(Shares(reward, staked, total)) + |staked|
  {
    hide Sum, Shares;
    SharesLower(reward, staked, total);
    StrictlyScaled(reward, Sum(Shares(reward, staked, total)) + |staked|, total);
  }

  lemma StrictlyScaled(a: int, b: int, c: int)
    requires a * c < b * c && c > 0
    ensures a < b
  {
  }

  // ----- the pool -----

  ghost function PoolTotal(rewards: map<AccountId, nat>, lpRewards: map<PoolId, nat>): int {
    Sum(rewards) + Sum(lpRewards)
  }

  function Credited<K>(m: map<K, nat>, k: K, amount: nat): map<K, nat> {
    if amount > 0 then m[k := (if k in m then m[k] else 0) + amount] else m
  }

  lemma CreditAdds<K>(m: map<K, nat>, k: K, amount: nat)
    ensures Sum(Credited(m, k, amount)) == Sum(m) + amount
  {
    SumUpdate(m, k, (if k in m then m[k] else 0) + amount);
  }

  /** The balances after every operator in `done` has been paid its share. */
  function Paid(m: map<AccountId, nat>, shares: map<AccountId, int>, done: set<AccountId>): map<AccountId, nat>
    requires NonNegative(shares)
  {
    map op | op in m.Keys + done && (op in m || Get(shares, op) > 0) ::
      (if op in m then m[op] else 0) + if op in done then Get(shares, op) else 0
  }

  lemma PaidNext(m: map<AccountId, nat>, shares: map<AccountId, int>, done: set<AccountId>, op: AccountId)
    requires NonNegative(shares) && op in shares && op !in done
    ensures Paid(m, shares, done + {op}) == Credited(Paid(m, shares, done), op, shares[op])
  {
  }

  /** Operator balances and liquidity-provider balances after `amount` has been shared out. */
  ghost function Shared(pool: (map<AccountId, nat>, map<PoolId, nat>), amount: nat, staked: map<AccountId, int>)
    : (map<AccountId, nat>, map<PoolId, nat>)
    requires NonNegative(staked)
  {
    var total := Sum(staked);
    (if total <= 0 then pool.0 else Paid(pool.0, Shares(Half(amount), staked, total), staked.Keys),
     Credited(pool.1, DEFAULT_DEX_DOMAIN, Half(amount)))
  }

  /** Sharing out nothing changes nothing. */
  lemma SharedNothing(pool: (map<AccountId, nat>, map<PoolId, nat>), staked: map<AccountId, int>)
    requires NonNegative(staked)
    ensures Shared(pool, 0, staked) == pool
  {
    NothingToShare(pool.0, 0, staked);
  }

  /** Half of what is shared out, rounded down, goes to the default pool, and nothing to any other. */
  lemma DefaultPoolPaid(pool: (map<AccountId, nat>, map<PoolId, nat>), amount: nat, staked: map<AccountId, int>, p: PoolId)
    requires NonNegative(staked)
    ensures var lp, lp' := pool.1, Shared(pool, amount, staked).1;
            (if p in lp' then lp'[p] else 0) ==
            (if p in lp then lp[p] else 0) + if p == DEFAULT_DEX_DOMAIN then SatMul(amount, 5_000) / 10_000 else 0
  {
  }

  /** Nobody is paid who has less than the minimum stake, or was slashed, or is no operator at all. */
  lemma BelowMinimumUnpaid(pool: (map<AccountId, nat>, map<PoolId, nat>), amount: nat, ops: Operators, minStake: nat, op: AccountId)
    requires op !in ops || ops[op].stake < minStake || ops[op].slashNonce.Some?
    ensures var rewards := Shared(pool, amount, StakedOperators(ops, minStake)).0;
            (op in rewards <==> op in pool.0) && (op in pool.0 ==> rewards[op] == pool.0[op])
  {
    hide Sum, Share, Half;
  }

  /** Every operator at the minimum stake that was never slashed is paid its share. */
  lemma StakedPaid(pool: (map<AccountId, nat>, map<PoolId, nat>), amount: nat, ops: Operators, minStake: nat, op: AccountId)
    requires op in ops && ops[op].stake >= minStake && ops[op].slashNonce.None? && Sum(StakedOperators(ops, minStake)) > 0
    ensures var rewards := Shared(pool, amount, StakedOperators(ops, minStake)).0;
            (if op in rewards then rewards[op] else 0) ==
            (if op in pool.0 then pool.0[op] else 0) + Share(Half(amount), ops[op].stake, Sum(StakedOperators(ops, minStake)))
  {
    hide Sum, Share, Half;
  }

  /** The shares of the operators in `done`. */
  ghost function PaidSum(shares: map<AccountId, int>, done: set<AccountId>): int {
    Sum(Restrict(shares, done))
  }

  lemma PaidNone(m: map<AccountId, nat>, shares: map<AccountId, int>)
    requires NonNegative(shares)
    ensures forall s: set<AccountId> :: s == {} ==> Paid(m, shares, s) == m && PaidSum(shares, s) == 0
  {
  }

  lemma ShareOf(reward: nat, staked: map<AccountId, int>, total: nat, op: AccountId)
    requires NonNegative(staked) && total > 0 && op in staked
    ensures op in Shares(reward, staked, total) && Shares(reward, staked, total)[op] == Share(reward, staked[op], total)
  {
  }

  lemma PaidStep(m: map<AccountId, nat>, shares: map<AccountId, int>, done: set<AccountId>, op: AccountId)
    requires NonNegative(shares) && op in shares && op !in done
    ensures Paid(m, shares, done + {op}) == Credited(Paid(m, shares, done), op, shares[op])
    ensures PaidSum(shares, done + {op}) == PaidSum(shares, done) + shares[op]
    ensures Sum(Credited(Paid(m, shares, done), op, shares[op])) == Sum(Paid(m, shares, done)) + shares[op]
  {
    hide Sum;
    PaidNext(m, shares, done, op);
    CreditAdds(Paid(m, shares, done), op, shares[op]);
    SumUpdate(Restrict(shares, done), op, shares[op]);
    assert Restrict(shares, done + {op}) == Restrict(shares, done)[op := shares[op]];
  }

  lemma PaidAll(reward: nat, staked: map<AccountId, int>, total: nat)
    requires NonNegative(staked) && total > 0
    ensures PaidSum(Shares(reward, staked, total), staked.Keys) == Sum(Shares(reward, staked, total))
  {
    var shares := Shares(reward, staked, total);
    assert Restrict(shares, staked.Keys) == shares;
  }

  method StakeSum(staked: map<AccountId, int>) returns (total: int)
    ensures total == Sum(staked)
  {
    total := 0;
    var todo := staked.Keys;
    ghost var seen: map<AccountId, int> := map[];
    while todo != {}
      invariant todo <= staked.Keys && seen == Restrict(staked, staked.Keys - todo) && total == Sum(seen)
      decreases todo
    {
      var op :| op in todo;
      SumUpdate(seen, op, staked[op]);
      seen := seen[op := staked[op]];
      total := total + staked[op];
      todo := todo - {op};
    }
    assert seen == staked;
  }

  class RewardPool {
    var rewards: map<AccountId, nat>
    var lpRewards: map<PoolId, nat>

    ghost function Total(): int
      reads this
    {
      PoolTotal(rewards, lpRewards)
    }

    ghost function State(): (map<AccountId, nat>, map<PoolId, nat>)
      reads this
    {
      (rewards, lpRewards)
    }

    constructor ()
      ensures rewards == map[] && lpRewards == map[] && Total() == 0
    {
      rewards, lpRewards := map[], map[];
    }

    /** Every staked operator is paid its share; the pool grows by exactly what the distribution allocates. */
    method Distribute(burned: nat, table: StakeTable)
      modifies this
      ensures Total() == old(Total()) + Allocated(burned, StakedOperators(table.operators, table.minStake))
      ensures State() == Shared(old(State()), burned, StakedOperators(table.operators, table.minStake))
    {
      ghost var staked := StakedOperators(table.operators, table.minStake);
      if Half(burned) == 0 {
        NothingToShare(rewards, burned, staked);
      }
      if burned == 0 {
        return;
      }
      var lpAmount := SatMul(burned, LP_REWARD_BASIS_POINTS) / 10_000;
      CreditAdds(lpRewards, DEFAULT_DEX_DOMAIN, lpAmount);
      lpRewards := Credited(lpRewards, DEFAULT_DEX_DOMAIN, lpAmount);
      var rewardAmount := SatMul(burned, OPERATOR_REWARD_BASIS_POINTS) / 10_000;
      if rewardAmount == 0 {
        return;
      }
      var operators := StakedOperators(table.operators, table.minStake);
      var totalStake := StakeSum(operators);
      SumNonNegative(operators);
      if totalStake == 0 {
        return;
      }
      PayShares(rewardAmount, operators, totalStake);
    }

    method PayShares(reward: nat, staked: map<AccountId, int>, total: nat)
      requires NonNegative(staked) && total > 0
      modifies this`rewards
      ensures rewards == Paid(old(rewards), Shares(reward, staked, total), staked.Keys)
      ensures Sum(rewards) == old(Sum(rewards)) + Sum(Shares(reward, staked, total))
    {
      hide Paid, Sum, Credited, Share, Shares, PaidSum;
      ghost var was := rewards;
      ghost var shares := Shares(reward, staked, total);
      var todo := staked.Keys;
      PaidNone(was, shares);
      while todo != {}
        invariant todo <= staked.Keys
        invariant rewards == Paid(was, shares, staked.Keys - todo)
        invariant Sum(rewards) == Sum(was) + PaidSum(shares, staked.Keys - todo)
        decreases todo
      {
        var op :| op in todo;
        var share := Share(reward, staked[op], total);
        ShareOf(reward, staked, total, op);
        PaidStep(was, shares, staked.Keys - todo, op);
        assert staked.Keys - (todo - {op}) == (staked.Keys - todo) + {op};
        rewards := Credited(rewards, op, share);
        todo := todo - {op};
      }
      assert staked.Keys - todo == staked.Keys;
      PaidAll(reward, staked, total);
    }

    function Balance(operator: AccountId): nat
      reads this
    {
      if operator in rewards then rewards[operator] else 0
    }

    /** Pays out and zeroes an operator's balance: what leaves the pool is what is returned. */
    method Claim(operator: AccountId) returns (amount: nat)
      modifies this`rewards
      ensures amount == old(Balance(operator))
      ensures rewards == old(rewards) - {operator}
      ensures Total() == old(Total()) - amount
    {
      amount := Balance(operator);
      if operator in rewards {
        SumRemove(rewards, operator);
      } else {
        assert rewards - {operator} == rewards;
      }
      rewards := rewards - {operator};
    }

    method ClaimLpReward(pool: PoolId) returns (amount: nat)
      modifies this`lpRewards
      ensures amount == if pool in old(lpRewards) then old(lpRewards)[pool] else 0
      ensures lpRewards == old(lpRewards) - {pool}
      ensures Total() == old(Total()) - amount
    {
      amount := if pool in lpRewards then lpRewards[pool] else 0;
      if pool in lpRewards {
        SumRemove(lpRewards, pool);
      } else {
        assert lpRewards - {pool} == lpRewards;
      }
      lpRewards := lpRewards - {pool};
    }
  }

  /** A zero reward pays nobody. */
  lemma NothingToShare(rewards: map<AccountId, nat>, burned: nat, staked: map<AccountId, int>)
    requires NonNegative(staked) && Half(burned) == 0
    ensures Allocated(burned, staked) == 0
    ensures Sum(staked) > 0 ==> Paid(rewards, Shares(0, staked, Sum(staked)), staked.Keys) == rewards
  {
    SumNonNegative(staked);
    var total := Sum(staked);
    if total > 0 {
      var shares := Shares(0, staked, total);
      forall op | op in shares ensures shares[op] == 0 {
        ShareBounds(0, staked[op], total);
      }
      SumNonNegative(shares);
      SharesUpper(0, staked, total);
      ScaledAtMost(Sum(shares), 0, total);
    }
  }
}
