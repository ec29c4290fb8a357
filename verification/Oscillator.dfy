/**
 The node: minting, staking, domain registration, ingestion with replay
 protection, and the synthesis tick, over two copies of the balances.
 */
module Oscillators {
  import opened Basics
  import opened Arithmetic
  import opened Machine
  import opened Sums
  import opened DagModel
  import opened Picking
  import opened Batches
  import opened Balances
  import opened Stake
  import opened Certificates
  import opened Domains
  import opened Settlement
  import opened Ticks
  import Rewards
  import Metabolic
  import Dag
  import WaveFields

  datatype StakeShift = StakeShift(operator: AccountId, amount: nat, nonce: nat, signature: Signature)

  datatype RegistrationShift = RegistrationShift(account: AccountId, waveAccount: AccountId, usdcAccount: AccountId, nonce: nat)

  /** What a newly registered wallet starts with. */
  const REGISTRATION_GRANT: nat := 10_000_000_000_000

  /** The DAG's copy after an operator's stake has changed. */
  function Relocked(balances: Accounts, operator: AccountId, before: nat, amount: nat): Accounts {
    if amount == before then balances
    else balances[operator := if amount > before then SatSub(Held(balances, operator), amount - before) else Held(balances, operator) + (before - amount)]
  }

  /** An account's balance after a registration: granted if it is one of the wallets and empty, the second wallet exempt from decay. */
  function Granted(b: Balance, reg: RegistrationShift, a: AccountId): Balance {
    var units := if a in {reg.waveAccount, reg.usdcAccount} && b.units == 0 then REGISTRATION_GRANT else b.units;
    b.(units := units, decays := b.decays && a != reg.usdcAccount)
  }

  /** What a registration mints outside the supply cap. */
  function GrantsOf(accounts: Ledger, reg: RegistrationShift): nat {
    (if BalanceOf(accounts, reg.waveAccount).units == 0 then REGISTRATION_GRANT else 0)
    + if reg.usdcAccount != reg.waveAccount && BalanceOf(accounts, reg.usdcAccount).units == 0 then REGISTRATION_GRANT else 0
  }

  /** Value is minted outside the cap exactly when a registered wallet holds nothing. */
  lemma MintedOutsideCap(accounts: Ledger, reg: RegistrationShift)
    ensures GrantsOf(accounts, reg) > 0 <==>
            BalanceOf(accounts, reg.waveAccount).units == 0 || BalanceOf(accounts, reg.usdcAccount).units == 0
  {
  }

  function Seeded(balances: Accounts, a: AccountId): Accounts {
    balances[a := Held(balances, a) + REGISTRATION_GRANT]
  }

  lemma SeededKeys(balances: Accounts, a: AccountId)
    ensures Seeded(balances, a).Keys == balances.Keys + {a}
  {
  }

  /** Both copies are granted the same: two different empty wallets, and no account the DAG would not know of. */
  predicate GrantsBoth(accounts: Ledger, reg: RegistrationShift) {
    && reg.waveAccount != reg.usdcAccount
    && BalanceOf(accounts, reg.waveAccount).units == 0 && BalanceOf(accounts, reg.usdcAccount).units == 0
    && (reg.account in accounts || reg.account == reg.waveAccount || reg.account == reg.usdcAccount)
  }

  lemma AgreeMeans(balances: Accounts, accounts: Ledger)
    ensures balances == UnitsOf(accounts) <==>
            balances.Keys == accounts.Keys && forall a: AccountId :: Held(balances, a) == BalanceOf(accounts, a).units
  {
    if balances.Keys == accounts.Keys && forall a: AccountId :: Held(balances, a) == BalanceOf(accounts, a).units {
      forall a | a in balances ensures balances[a] == UnitsOf(accounts)[a] {
        assert Held(balances, a) == BalanceOf(accounts, a).units;
      }
    }
  }

  /** Copies that agreed before a registration agree after it exactly when both are granted the same. */
  lemma RegistrationAgrees(accounts: Ledger, accounts': Ledger, reg: RegistrationShift)
    requires accounts'.Keys == accounts.Keys + {reg.account, reg.waveAccount, reg.usdcAccount}
    requires forall a: AccountId :: BalanceOf(accounts', a) == Granted(BalanceOf(accounts, a), reg, a)
    ensures Seeded(Seeded(UnitsOf(accounts), reg.waveAccount), reg.usdcAccount) == UnitsOf(accounts') <==> GrantsBoth(accounts, reg)
  {
    hide UnitsOf, BalanceOf;
    var before, w, u := UnitsOf(accounts), reg.waveAccount, reg.usdcAccount;
    var after := Seeded(Seeded(before, w), u);
    AgreeMeans(before, accounts);
    AgreeMeans(after, accounts');
    assert after.Keys == accounts.Keys + {w, u};
    assert Held(after, w) == BalanceOf(accounts, w).units + (if w == u then 2 else 1) * REGISTRATION_GRANT;
    assert Held(after, u) == BalanceOf(accounts, u).units + (if w == u then 2 else 1) * REGISTRATION_GRANT;
  }

  datatype CommutativeShift = CommutativeShift(domain: DomainId, delta: Delta, signature: Signature)

  datatype SynthesisResult = SynthesisResult(metabolicBurned: nat, settled: seq<TxHash>, finalBalances: Accounts)

  /** The domain present from the start. */
  const DEX_POLICY := DomainPolicy(Rewards.DEFAULT_DEX_DOMAIN, true, true, OrderingMode.Causal, 3, Metabolic.DEFAULT_DEX_LAMBDA_PPM, MetabolicOnly)

  class Oscillator {
    const waveField: WaveFields.WaveField
    const dag: Dag.VectorClockDag
    const stakeTable: StakeTable
    const tracker: CertificateTracker
    const rewardPool: Rewards.RewardPool
    const supply: SupplyTracker
    const certVerifies: CertVerifier
    const stakeVerifies: StakeShift -> bool

    var pendingCommutative: Pending
    var pendingStateful: seq<StatefulShift>
    var seenSignatures: set<Signature>
    var seenNonces: Nonces
    var synthesisTick: nat
    var domains: Registry
    /** Running total of decayed value, for reporting. */
    var metabolicBurned: nat

    /** Value minted through SeedAccount and ApplyRegistration, and the part of it that registrations granted. */
    ghost var seeded: nat
    ghost var granted: nat
    /** Sum of all commutative deltas that took effect. */
    ghost var netDeltas: int
    /** Value handed to the reward pool that its divisions left unallocated. */
    ghost var dust: nat
    /** Every shift ever queued, and every shift ever settled, in order. */
    ghost var queued: seq<StatefulShift>
    ghost var settled: seq<TxHash>
    /** Every nonce ever accepted, with its account and domain. */
    ghost var spent: seq<(AccountId, DomainId, nat)>

    // ----- the ledger -----

    ghost function Holdings(): int
      reads this`dust, waveField`accounts, waveField`pools, stakeTable`operators, rewardPool, supply`burned
    {
      TotalUnits(waveField.accounts) + TotalUnits(waveField.pools) + Locked(stakeTable.operators)
      + rewardPool.Total() + dust + supply.burned
    }

    /** Everything that ever came in is still somewhere. */
    ghost predicate Ledgered()
      reads this`dust, this`seeded, this`netDeltas
      reads waveField`accounts, waveField`pools, stakeTable`operators, rewardPool, supply`burned
    {
      Holdings() == seeded + netDeltas <= U128_MAX
    }

    /** Except for grants, what was minted is circulating under the cap or burned. */
    ghost predicate Capped()
      reads this`seeded, this`granted, supply
    {
      supply.circulating <= TOTAL_WAVE_SUPPLY && seeded <= granted + supply.circulating + supply.burned
    }

    /** No nonce was accepted twice for an account and domain, and none lies above the recorded one. */
    ghost predicate SpentOnce()
      reads this`spent, this`seenNonces
    {
      && NoDuplicates(spent)
      && forall e :: e in spent ==> (e.0, e.1) in seenNonces && e.2 <= seenNonces[(e.0, e.1)]
    }

    /** The DAG's copy of the balances names no account the wave field does not have. */
    ghost predicate Mirrors()
      reads waveField`accounts, dag`balances
    {
      dag.balances.Keys <= waveField.accounts.Keys
    }

    /** The two copies of the balances agree. */
    ghost predicate Agree()
      reads waveField`accounts, dag`balances
    {
      dag.balances == UnitsOf(waveField.accounts)
    }

    /** No shift was settled twice, and the settled ones are those marked as applied. */
    ghost predicate SettledOnce()
      reads this`settled, dag`nodes
    {
      && NoDuplicates(settled)
      && forall h :: h in settled <==> h in dag.nodes && dag.nodes[h].applied
    }

    /** Every shift in the DAG or waiting for it was queued, moves something, and is filed under its own hash. */
    ghost predicate Traced()
      reads this`pendingStateful, this`queued, dag`nodes
    {
      Sourced(dag.nodes, pendingStateful, queued, dag.hashOf)
    }

    ghost predicate Valid()
      reads this, waveField, dag, stakeTable, rewardPool, supply
    {
      && waveField.Valid() && dag.Valid()
      && Ledgered() && Mirrors() && SettledOnce() && Traced()
      && FeesBounded(domains) && NoncesIncrease(queued, seenNonces) && SpentOnce() && Capped()
    }

    /** The value not burned exceeds the supply cap by at most what registrations granted and deltas added. */
    lemma LiveWithinCap()
      requires Ledgered() && Capped()
      ensures Holdings() - supply.burned <= TOTAL_WAVE_SUPPLY + granted + netDeltas
    {
    }

    lemma HoldingsBound()
      requires Ledgered()
      ensures TotalUnits(waveField.accounts) + TotalUnits(waveField.pools) + rewardPool.Total() <= seeded + netDeltas
      ensures rewardPool.Total() >= 0
    {
      SumNonNegative(rewardPool.rewards);
      SumNonNegative(rewardPool.lpRewards);
    }

    /** A nonce of a sender in a domain is spent at most once. */
    lemma NonceSpentOnce(h: TxHash, k: TxHash)
      requires Valid() && h in settled && k in settled
      requires h in dag.nodes && k in dag.nodes
      requires var s, t := dag.nodes[h].shift, dag.nodes[k].shift;
               s.from == t.from && s.domain == t.domain && s.nonce == t.nonce
      ensures h == k
    {
      hide WaveFields.WaveField.Valid, Dag.VectorClockDag.Valid, Ledgered, Mirrors, FeesBounded;
      var i :| 0 <= i < |queued| && queued[i] == dag.nodes[h].shift;
      var j :| 0 <= j < |queued| && queued[j] == dag.nodes[k].shift;
    }

    constructor (nttSize: nat, minStake: nat, hashOf: Dag.Hasher, verifies: Dag.Verifier,
                 certVerifies: CertVerifier, stakeVerifies: StakeShift -> bool)
      requires IsPowerOfTwo(nttSize) && nttSize >= 2 && (MODULUS - 1) % nttSize == 0
      ensures Valid() && Agree() && seeded == granted == 0 && netDeltas == 0 && settled == [] && queued == [] && spent == []
      ensures fresh(waveField) && fresh(dag) && fresh(stakeTable) && fresh(tracker) && fresh(rewardPool) && fresh(supply)
    {
      hide WaveFields.WaveField.Valid, Dag.VectorClockDag.Valid, Dag.WellFormed, IsPowerOfTwo, NoncesIncrease, Sourced, NoDuplicates,
           UnitsOf, TotalUnits, Locked, Rewards.RewardPool.Total;
      waveField := new WaveFields.WaveField(nttSize);
      dag := new Dag.VectorClockDag(hashOf, verifies);
      stakeTable := new StakeTable(minStake);
      tracker := new CertificateTracker();
      rewardPool := new Rewards.RewardPool();
      supply := new SupplyTracker();
      this.certVerifies, this.stakeVerifies := certVerifies, stakeVerifies;
      pendingCommutative, pendingStateful, seenSignatures, seenNonces := [], [], {}, map[];
      synthesisTick, metabolicBurned := 0, 0;
      domains := map[Rewards.DEFAULT_DEX_DOMAIN := DEX_POLICY];
      seeded, granted, netDeltas, dust, queued, settled, spent := 0, 0, 0, 0, [], [], [];
      new;
      NothingYet(hashOf);
    }

    // ----- minting, staking, registration -----

    /** Adds to an account in both copies. */
    method CreditBoth(account: AccountId, amount: nat)
      requires TotalUnits(waveField.accounts) + amount <= U128_MAX && Mirrors()
      modifies dag`balances, waveField`accounts
      ensures TotalUnits(waveField.accounts) == old(TotalUnits(waveField.accounts)) + amount
      ensures Mirrors() && (old(Agree()) ==> Agree())
      ensures Changed(old(waveField.accounts), waveField.accounts, account, amount)
      ensures dag.balances == old(dag.balances)[account := Held(old(dag.balances), account) + amount]
    {
      hide TotalUnits, UnitsOf, BalanceOf;
      ghost var was := waveField.accounts;
      UnitsAtMostTotal(was, account);
      dag.SeedBalance(account, amount);
      waveField.CreditAccount(account, amount);
      UnitsOfSet(was, account, waveField.accounts[account]);
    }

    /** Takes from an account in both copies if the wave field's copy covers it. */
    method DebitBoth(account: AccountId, amount: nat) returns (ok: bool)
      requires Mirrors()
      modifies dag`balances, waveField`accounts
      ensures ok <==> BalanceOf(old(waveField.accounts), account).units >= amount
      ensures TotalUnits(waveField.accounts) == old(TotalUnits(waveField.accounts)) - if ok then amount else 0
      ensures Mirrors() && (old(Agree()) ==> Agree())
      ensures Changed(old(waveField.accounts), waveField.accounts, account, if ok then -(amount as int) else 0)
      ensures dag.balances == if ok then old(dag.balances)[account := SatSub(Held(old(dag.balances), account), amount)] else old(dag.balances)
    {
      hide TotalUnits, UnitsOf, BalanceOf;
      ghost var was := waveField.accounts;
      var held := BalanceOf(waveField.accounts, account);
      if held.units < amount {
        return false;
      }
      ok := waveField.DebitAccount(account, amount);
      UnitsOfSet(was, account, waveField.accounts[account]);
      var copy := if account in dag.balances then dag.balances[account] else 0;
      dag.balances := dag.balances[account := SatSub(copy, amount)];
    }

    ghost function StakedNow(): (m: map<AccountId, int>)
      reads stakeTable`operators
      ensures NonNegative(m)
    {
      Rewards.StakedOperators(stakeTable.operators, stakeTable.minStake)
    }

    /** Hands value to the reward pool; what its divisions leave over is recorded. */
    method Reward(amount: nat)
      modifies this`dust, rewardPool
      ensures rewardPool.Total() + dust == old(rewardPool.Total() + dust) + amount
      ensures rewardPool.State() == Rewards.Shared(old(rewardPool.State()), amount, StakedNow())
    {
      hide Rewards.Allocated, Rewards.StakedOperators, Rewards.RewardPool.Total, Rewards.RewardPool.State, Rewards.Shared;
      ghost var staked := StakedNow();
      Rewards.NeverOverAllocates(amount, staked);
      rewardPool.Distribute(amount, stakeTable);
      dust := dust + (amount - Rewards.Allocated(amount, staked));
    }

    // ----- minting, staking, registration -----

    method SeedAccount(account: AccountId, amount: nat) returns (ok: bool)
      requires Valid() && seeded + netDeltas + amount <= U128_MAX
      modifies this`seeded, supply, dag`balances, waveField`accounts
      ensures Valid() && (old(Agree()) ==> Agree())
      ensures ok <==> amount == 0 || old(supply.circulating) + amount <= TOTAL_WAVE_SUPPLY
      ensures seeded == old(seeded) + if ok then amount else 0
      ensures supply.circulating == old(supply.circulating) + if ok then amount else 0
      ensures Changed(old(waveField.accounts), waveField.accounts, account, if ok then amount else 0)
      ensures dag.balances == if ok then old(dag.balances)[account := Held(old(dag.balances), account) + amount] else old(dag.balances)
    {
      hide TotalUnits, Locked, Rewards.RewardPool.Total, SettledOnce, Traced, FeesBounded, NoncesIncrease, SpentOnce, Mirrors, Agree, UnitsOf,
           WaveFields.WaveField.Valid, Dag.VectorClockDag.Valid;
      ok := supply.Mint(amount);
      if !ok {
        return;
      }
      HoldingsBound();
      CreditBoth(account, amount);
      seeded := seeded + amount;
    }

    /** The reservation fee moves from the registrant to the reward pool, and nothing else changes hands. */
    method RegisterDomain(policy: DomainPolicy, registrant: AccountId) returns (ok: bool)
      requires Valid() && (policy.feePolicy.Percentage? ==> policy.feePolicy.bp <= 10_000)
      modifies this`dust, this`domains, waveField`accounts, rewardPool
      ensures Valid() && (old(Agree()) ==> (Agree() <==> !ok))
      ensures ok <==> policy.metabolicLambdaPpm < 1_000_000 && policy.finalizationDepth > 0 && policy.domain !in old(domains)
                      && BalanceOf(old(waveField.accounts), registrant).units >= DOMAIN_RESERVATION_FEE
      ensures domains == if ok then old(domains)[policy.domain := policy] else old(domains)
      ensures Changed(old(waveField.accounts), waveField.accounts, registrant, if ok then -(DOMAIN_RESERVATION_FEE as int) else 0)
      ensures rewardPool.State() == if ok then Rewards.Shared(old(rewardPool.State()), DOMAIN_RESERVATION_FEE, StakedNow()) else old(rewardPool.State())
    {
      hide TotalUnits, Locked, Rewards.RewardPool.Total, Rewards.RewardPool.State, Rewards.Shared, StakedNow, SettledOnce, Traced, NoncesIncrease, UnitsOf, BalanceOf,
           WaveFields.WaveField.Valid, Dag.VectorClockDag.Valid;
      ghost var was := waveField.accounts;
      if !PolicyAccepted(policy) {
        return false;
      }
      if policy.domain in domains {
        return false;
      }
      if BalanceOf(waveField.accounts, registrant).units < DOMAIN_RESERVATION_FEE {
        return false;
      }
      var paid := waveField.DebitAccount(registrant, DOMAIN_RESERVATION_FEE);
      UnitsOfSet(was, registrant, waveField.accounts[registrant]);
      if !paid {
        return false;
      }
      Reward(DOMAIN_RESERVATION_FEE);
      domains := domains[policy.domain := policy];
      ok := true;
    }

    // ----- replay protection and ingestion -----

    method CheckAndRecordNonce(account: AccountId, domain: DomainId, nonce: nat) returns (ok: bool)
      requires NoncesIncrease(queued, seenNonces) && SpentOnce()
      modifies this`seenNonces, this`spent
      ensures NoncesIncrease(queued, seenNonces) && SpentOnce()
      ensures ok <==> Fresh(old(seenNonces), account, domain, nonce)
      ensures seenNonces == if ok then old(seenNonces)[(account, domain) := nonce] else old(seenNonces)
      ensures spent == if ok then old(spent) + [(account, domain, nonce)] else old(spent)
    {
      var key := (account, domain);
      if key in seenNonces {
        if nonce <= seenNonces[key] {
          return false;
        }
      }
      seenNonces := seenNonces[key := nonce];
      spent := spent + [(account, domain, nonce)];
      ok := true;
    }

    /** Locking and unlocking move value between an account and its stake, never more than the account holds. */
    method Relock(operator: AccountId, amount: nat) returns (ok: bool)
      requires Ledgered() && Mirrors()
      modifies stakeTable, dag`balances, waveField`accounts
      ensures Ledgered() && Mirrors() && (old(Agree()) ==> Agree())
      ensures var before := StakeOf(old(stakeTable.operators), operator);
              && (ok <==> BalanceOf(old(waveField.accounts), operator).units + before >= amount)
              && Changed(old(waveField.accounts), waveField.accounts, operator, if ok then before - amount else 0)
              && dag.balances == (if ok then Relocked(old(dag.balances), operator, before, amount) else old(dag.balances))
      ensures stakeTable.operators ==
              if ok && amount != StakeOf(old(stakeTable.operators), operator)
              then StakedOps(old(stakeTable.operators), operator, amount) else old(stakeTable.operators)
    {
      hide TotalUnits, Locked, Rewards.RewardPool.Total, Agree, UnitsOf;
      var previousLocked := StakeOf(stakeTable.operators, operator);
      if amount == previousLocked {
        return true;
      }
      StakeLocks(stakeTable.operators, operator, amount);
      if amount > previousLocked {
        var paid := DebitBoth(operator, amount - previousLocked);
        if !paid {
          return false;
        }
      } else {
        HoldingsBound();
        LockedAtLeast(stakeTable.operators, operator);
        CreditBoth(operator, previousLocked - amount);
      }
      var _ := stakeTable.Stake(operator, amount);
      ok := true;
    }

    /** A stake message takes effect only with a fresh nonce, which is spent even if the account cannot pay. */
    method ApplyStake(stake: StakeShift) returns (ok: bool)
      requires Valid()
      modifies this`seenNonces, this`spent, stakeTable, dag`balances, waveField`accounts
      ensures Valid() && (old(Agree()) ==> Agree())
      ensures var heard := stakeVerifies(stake) && Fresh(old(seenNonces), stake.operator, GLOBAL_DOMAIN, stake.nonce);
              var before := StakeOf(old(stakeTable.operators), stake.operator);
              && seenNonces == (if heard then old(seenNonces)[(stake.operator, GLOBAL_DOMAIN) := stake.nonce] else old(seenNonces))
              && spent == old(spent) + (if heard then [(stake.operator, GLOBAL_DOMAIN, stake.nonce)] else [])
              && (ok <==> heard && BalanceOf(old(waveField.accounts), stake.operator).units + before >= stake.amount)
              && Changed(old(waveField.accounts), waveField.accounts, stake.operator, if ok then before - stake.amount else 0)
              && dag.balances == (if ok then Relocked(old(dag.balances), stake.operator, before, stake.amount) else old(dag.balances))
      ensures stakeTable.operators ==
              if ok && stake.amount != StakeOf(old(stakeTable.operators), stake.operator)
              then StakedOps(old(stakeTable.operators), stake.operator, stake.amount) else old(stakeTable.operators)
    {
      hide Ledgered, SettledOnce, Traced, FeesBounded, NoncesIncrease, SpentOnce, Capped, Mirrors, Agree, UnitsOf, Fresh, Relocked,
           WaveFields.WaveField.Valid, Dag.VectorClockDag.Valid;
      if !stakeVerifies(stake) {
        return false;
      }
      var isFresh := CheckAndRecordNonce(stake.operator, GLOBAL_DOMAIN, stake.nonce);
      if !isFresh {
        return false;
      }
      ok := Relock(stake.operator, stake.amount);
    }

    /** Gives an account the registration grant in the wave field unless it holds something already. */
    method GrantIfEmpty(account: AccountId)
      requires TotalUnits(waveField.accounts) + REGISTRATION_GRANT <= U128_MAX
      modifies this`seeded, this`granted, waveField`accounts
      ensures var grant := if BalanceOf(old(waveField.accounts), account).units == 0 then REGISTRATION_GRANT else 0;
              && seeded == old(seeded) + grant && granted == old(granted) + grant
              && TotalUnits(waveField.accounts) == old(TotalUnits(waveField.accounts)) + grant
              && Changed(old(waveField.accounts), waveField.accounts, account, grant)
      ensures old(waveField.accounts.Keys) <= waveField.accounts.Keys <= old(waveField.accounts.Keys) + {account}
    {
      hide TotalUnits, UnitsOf, BalanceOf;
      ghost var was := waveField.accounts;
      if BalanceOf(waveField.accounts, account).units == 0 {
        UnitsAtMostTotal(was, account);
        waveField.CreditAccount(account, REGISTRATION_GRANT);
        UnitsOfSet(was, account, waveField.accounts[account]);
        seeded := seeded + REGISTRATION_GRANT;
        granted := granted + REGISTRATION_GRANT;
      }
    }

    /** Makes the three accounts of a registration known, the second token's exempt from decay, without changing any units. */
    method EnsureAccounts(reg: RegistrationShift)
      modifies waveField`accounts
      ensures waveField.accounts.Keys == old(waveField.accounts.Keys) + {reg.account, reg.waveAccount, reg.usdcAccount}
      ensures TotalUnits(waveField.accounts) == old(TotalUnits(waveField.accounts))
      ensures forall a: AccountId :: BalanceOf(waveField.accounts, a) ==
                if a == reg.usdcAccount then BalanceOf(old(waveField.accounts), a).(decays := false) else BalanceOf(old(waveField.accounts), a)
    {
      hide TotalUnits;
      waveField.EnsureAccount(reg.account);
      waveField.EnsureAccount(reg.waveAccount);
      waveField.EnsureAccount(reg.usdcAccount);
      waveField.SetNonDecaying(reg.usdcAccount);
    }

    method GrantWallets(reg: RegistrationShift)
      requires TotalUnits(waveField.accounts) + 2 * REGISTRATION_GRANT <= U128_MAX
      modifies this`seeded, this`granted, waveField`accounts
      ensures var grants := GrantsOf(old(waveField.accounts), reg);
              && seeded == old(seeded) + grants && granted == old(granted) + grants
              && TotalUnits(waveField.accounts) == old(TotalUnits(waveField.accounts)) + grants
      ensures waveField.accounts.Keys == old(waveField.accounts.Keys) + {reg.account, reg.waveAccount, reg.usdcAccount}
      ensures forall a: AccountId ::
                BalanceOf(waveField.accounts, a) == Granted(BalanceOf(old(waveField.accounts), a), reg, a)
    {
      hide TotalUnits, BalanceOf;
      EnsureAccounts(reg);
      GrantIfEmpty(reg.waveAccount);
      GrantIfEmpty(reg.usdcAccount);
    }

    /** The DAG's copy is granted to whatever it holds. */
    method SeedCopies(reg: RegistrationShift)
      modifies dag`balances
      ensures dag.balances == Seeded(Seeded(old(dag.balances), reg.waveAccount), reg.usdcAccount)
    {
      dag.SeedBalance(reg.waveAccount, REGISTRATION_GRANT);
      dag.SeedBalance(reg.usdcAccount, REGISTRATION_GRANT);
    }

    /**
     The wave field grants only to empty accounts, the DAG's copy grants always: until the next tick overwrites it,
     that copy may be ahead, or lack the account. The grants bypass the supply cap.
     */
    method GrantBothCopies(reg: RegistrationShift)
      requires Ledgered() && Mirrors() && Capped() && seeded + netDeltas + 2 * REGISTRATION_GRANT <= U128_MAX
      modifies this`seeded, this`granted, dag`balances, waveField`accounts
      ensures Ledgered() && Mirrors() && Capped()
      ensures var grants := GrantsOf(old(waveField.accounts), reg);
              seeded == old(seeded) + grants && granted == old(granted) + grants
      ensures forall a: AccountId ::
                BalanceOf(waveField.accounts, a) == Granted(BalanceOf(old(waveField.accounts), a), reg, a)
      ensures dag.balances == Seeded(Seeded(old(dag.balances), reg.waveAccount), reg.usdcAccount)
      ensures old(Agree()) ==> (Agree() <==> GrantsBoth(old(waveField.accounts), reg))
    {
      hide TotalUnits, Locked, Rewards.RewardPool.Total, UnitsOf, Held, BalanceOf, Granted, GrantsBoth, Seeded;
      ghost var accounts, balances := waveField.accounts, dag.balances;
      HoldingsBound();
      SeedCopies(reg);
      SeededKeys(balances, reg.waveAccount);
      SeededKeys(Seeded(balances, reg.waveAccount), reg.usdcAccount);
      GrantWallets(reg);
      if balances == UnitsOf(accounts) {
        RegistrationAgrees(accounts, waveField.accounts, reg);
      }
    }

    method ApplyRegistration(reg: RegistrationShift) returns (ok: bool)
      requires Valid() && seeded + netDeltas + 2 * REGISTRATION_GRANT <= U128_MAX
      modifies this`seenNonces, this`spent, this`seeded, this`granted, dag`balances, waveField`accounts
      ensures Valid()
      ensures ok <==> Fresh(old(seenNonces), reg.account, GLOBAL_DOMAIN, reg.nonce)
      ensures seenNonces == if ok then old(seenNonces)[(reg.account, GLOBAL_DOMAIN) := reg.nonce] else old(seenNonces)
      ensures spent == old(spent) + if ok then [(reg.account, GLOBAL_DOMAIN, reg.nonce)] else []
      ensures var grants := if ok then GrantsOf(old(waveField.accounts), reg) else 0;
              seeded == old(seeded) + grants && granted == old(granted) + grants
      ensures !ok ==> waveField.accounts == old(waveField.accounts) && dag.balances == old(dag.balances)
      ensures ok ==> forall a: AccountId ::
                BalanceOf(waveField.accounts, a) == Granted(BalanceOf(old(waveField.accounts), a), reg, a)
      ensures ok ==> dag.balances == Seeded(Seeded(old(dag.balances), reg.waveAccount), reg.usdcAccount)
      ensures ok && old(Agree()) ==> (Agree() <==> GrantsBoth(old(waveField.accounts), reg))
    {
      hide Ledgered, Mirrors, Capped, Agree, SettledOnce, Traced, FeesBounded, NoncesIncrease, SpentOnce, Fresh,
           BalanceOf, Granted, GrantsOf, GrantsBoth, Seeded, WaveFields.WaveField.Valid, Dag.VectorClockDag.Valid;
      ok := CheckAndRecordNonce(reg.account, GLOBAL_DOMAIN, reg.nonce);
      if ok {
        GrantBothCopies(reg);
      }
    }

    /** A conflicting certificate burns its operator's whole stake. */
    method IngestCertificate(cert: Certificate, keys: Keys) returns (r: Outcome)
      requires Valid()
      modifies tracker, stakeTable, supply
      ensures Valid()
      ensures (tracker.View(stakeTable), r) == Deliver(old(tracker.View(stakeTable)), stakeTable.minStake, keys, certVerifies, cert)
      ensures var slashed := Locked(old(stakeTable.operators)) - Locked(stakeTable.operators);
              slashed >= 0 && supply.burned == old(supply.burned) + slashed && supply.circulating == SatSub(old(supply.circulating), slashed)
    {
      hide TotalUnits, Locked, Rewards.RewardPool.Total, SettledOnce, Traced, FeesBounded, NoncesIncrease, SpentOnce, Mirrors,
           WaveFields.WaveField.Valid, Dag.VectorClockDag.Valid;
      SlashUnlocks(stakeTable.operators, cert.content.operator, stakeTable.slashCounter);
      var burned;
      r, burned := tracker.Apply(cert, keys, certVerifies, stakeTable);
      supply.Burn(burned);
    }

    method MarkNonDecaying(account: AccountId)
      requires Valid()
      modifies waveField`accounts
      ensures Valid() && (old(Agree()) ==> (Agree() <==> account in old(waveField.accounts)))
      ensures waveField.accounts == old(waveField.accounts)[account := BalanceOf(old(waveField.accounts), account).(decays := false)]
    {
      hide TotalUnits, Locked, Rewards.RewardPool.Total, SettledOnce, Traced, FeesBounded, NoncesIncrease, UnitsOf,
           WaveFields.WaveField.Valid, Dag.VectorClockDag.Valid;
      ghost var was := waveField.accounts;
      waveField.SetNonDecaying(account);
      UnitsOfSet(was, account, waveField.accounts[account]);
      if account in was {
        MarkedAgrees(was, account);
      }
    }

    /** Queues a delta once per signature. */
    method IngestCommutative(shift: CommutativeShift) returns (ok: bool)
      requires Valid()
      modifies this`seenSignatures, this`pendingCommutative
      ensures Valid()
      ensures ok <==> shift.domain in domains && domains[shift.domain].commutative
      ensures var new_ := ok && shift.signature !in old(seenSignatures);
              && seenSignatures == old(seenSignatures) + (if ok then {shift.signature} else {})
              && pendingCommutative == old(pendingCommutative) + if new_ then [(shift.domain, shift.delta)] else []
    {
      hide Ledgered, Mirrors, SettledOnce, Traced, FeesBounded, NoncesIncrease;
      if shift.domain !in domains {
        return false;
      }
      if !domains[shift.domain].commutative {
        return false;
      }
      ok := true;
      if shift.signature in seenSignatures {
        assert seenSignatures == seenSignatures + {shift.signature};
        return;
      }
      seenSignatures := seenSignatures + {shift.signature};
      pendingCommutative := pendingCommutative + [(shift.domain, shift.delta)];
    }

    /** Queues a transfer at most once per signature and only with a nonce above all earlier ones of its sender and domain. */
    method IngestStateful(shift: StatefulShift, nowNs: nat) returns (ok: bool)
      requires Valid()
      modifies this`seenSignatures, this`seenNonces, this`spent, this`pendingStateful, this`queued
      ensures Valid()
      ensures var timely := && shift.domain in domains && domains[shift.domain].stateful
                            && (domains[shift.domain].ordering == Commutative ==> shift.predecessors == [])
                            && Fresh(old(seenNonces), shift.from, shift.domain, shift.nonce);
              var stamped := if shift.firstSeenAtNs == 0 then shift.(firstSeenAtNs := nowNs) else shift;
              var new_ := timely && shift.signature !in old(seenSignatures) && shift.amount != 0;
              && (ok <==> timely && (shift.signature in old(seenSignatures) || shift.amount != 0))
              && seenNonces == (if timely then old(seenNonces)[(shift.from, shift.domain) := shift.nonce] else old(seenNonces))
              && spent == old(spent) + (if timely then [(shift.from, shift.domain, shift.nonce)] else [])
              && seenSignatures == old(seenSignatures) + (if new_ then {shift.signature} else {})
              && pendingStateful == old(pendingStateful) + (if new_ then [stamped] else [])
              && queued == old(queued) + (if new_ then [stamped] else [])
    {
      hide Ledgered, Mirrors, SettledOnce, FeesBounded, NoncesIncrease, SpentOnce, Capped, Sourced, Fresh, WaveFields.WaveField.Valid,
           Dag.VectorClockDag.Valid;
      if shift.domain !in domains {
        return false;
      }
      if !domains[shift.domain].stateful {
        return false;
      }
      if domains[shift.domain].ordering.Commutative? && shift.predecessors != [] {
        return false;
      }
      var stamped := if shift.firstSeenAtNs == 0 then shift.(firstSeenAtNs := nowNs) else shift;
      if Fresh(seenNonces, shift.from, shift.domain, shift.nonce) {
        QueueNext(queued, seenNonces, stamped);
      }
      var isFresh := CheckAndRecordNonce(shift.from, shift.domain, shift.nonce);
      if !isFresh {
        return false;
      }
      if shift.signature in seenSignatures {
        return true;
      }
      if shift.amount == 0 {
        return false;
      }
      SourcedNext(dag.nodes, pendingStateful, queued, dag.hashOf, stamped);
      seenSignatures := seenSignatures + {shift.signature};
      pendingStateful := pendingStateful + [stamped];
      queued := queued + [stamped];
      ok := true;
    }

    // ----- the synthesis tick, phase by phase -----

    ghost function DecayedAccounts(tick: nat): Ledger
      reads this`domains, waveField`accounts, stakeTable`operators
    {
      DecayAll(waveField.accounts, tick, DecayRate(domains), StakedNow().Keys)
    }

    ghost function DecayedPools(tick: nat): Ledger
      reads this`domains, waveField`pools
    {
      DecayAll(waveField.pools, tick, DecayRate(domains), {})
    }

    /** What all balances lose by decaying. */
    ghost function Loss(tick: nat): int
      reads this`domains, waveField`accounts, waveField`pools, stakeTable`operators
    {
      TotalUnits(waveField.accounts) + TotalUnits(waveField.pools) - TotalUnits(DecayedAccounts(tick)) - TotalUnits(DecayedPools(tick))
    }

    /** Decays every balance; a fixed part of what decays is burned, the rest is handed out. */
    method DecayPhase(tick: nat) returns (decayed: nat)
      requires Ledgered()
      modifies this`dust, this`metabolicBurned, waveField`accounts, waveField`pools, rewardPool, supply
      ensures Ledgered()
      ensures waveField.accounts == old(DecayedAccounts(tick)) && waveField.pools == old(DecayedPools(tick))
      ensures decayed == old(Loss(tick)) && metabolicBurned == old(metabolicBurned) + decayed
      ensures supply.burned == old(supply.burned) + BurnShare(decayed)
      ensures supply.circulating == SatSub(old(supply.circulating), BurnShare(decayed))
      ensures rewardPool.State() == Rewards.Shared(old(rewardPool.State()), decayed - BurnShare(decayed), StakedNow())
    {
      hide TotalUnits, Locked, Rewards.RewardPool.Total, Rewards.RewardPool.State, Rewards.Shared, DecayAll, Rewards.StakedOperators;
      HoldingsBound();
      Rewards.SharedNothing(rewardPool.State(), StakedNow());
      var immune := Rewards.StakedOperators(stakeTable.operators, stakeTable.minStake).Keys;
      decayed := waveField.ApplyMetabolicDecay(tick, DecayRate(domains), immune);
      metabolicBurned := metabolicBurned + decayed;
      PercentageWithin(decayed, Metabolic.METABOLIC_BURN_BP);
      var burnShare := SatMul(decayed, Metabolic.METABOLIC_BURN_BP) / Metabolic.BASIS_POINTS_DENOMINATOR;
      var rewardShare := decayed - burnShare;
      if burnShare > 0 {
        supply.Burn(burnShare);
      }
      if rewardShare > 0 {
        Reward(rewardShare);
      }
    }

    /**
     The decay of one account in the terms of the code: an operator at the minimum stake that was never slashed keeps its
     units, and so does a balance that is foreign value or was active within four hours of ticks; any other decays at the
     default domain's rate for the ticks since its last decay.
     */
    lemma DecayedMeans(tick: nat, a: AccountId)
      requires a in waveField.accounts
      ensures var rate := if Rewards.DEFAULT_DEX_DOMAIN in domains then domains[Rewards.DEFAULT_DEX_DOMAIN].metabolicLambdaPpm else 20;
              var ops, b := stakeTable.operators, waveField.accounts[a];
              var spared := || (a in ops && ops[a].stake >= stakeTable.minStake && ops[a].slashNonce.None?)
                            || !b.decays || (b.lastActiveTick > 0 && tick <= b.lastActiveTick + 14_400);
              && a in DecayedAccounts(tick)
              && var d := DecayedAccounts(tick)[a];
                 && d.units == (if spared || tick <= b.lastDecayTick then b.units else Metabolic.Decayed(b.units, rate, tick - b.lastDecayTick))
                 && d.(units := 0) == b.(units := 0, lastDecayTick := tick)
    {
      hide Metabolic.Decayed, DecayOne;
      DecayOneMeans(waveField.accounts[a], tick, DecayRate(domains));
    }

    /** Pools decay likewise, with nobody's stake to spare them. */
    lemma DecayedPoolsMean(tick: nat, p: PoolId)
      requires p in waveField.pools
      ensures var rate := if Rewards.DEFAULT_DEX_DOMAIN in domains then domains[Rewards.DEFAULT_DEX_DOMAIN].metabolicLambdaPpm else 20;
              var b := waveField.pools[p];
              var spared := !b.decays || (b.lastActiveTick > 0 && tick <= b.lastActiveTick + 14_400);
              && p in DecayedPools(tick)
              && DecayedPools(tick)[p].units ==
                 (if spared || tick <= b.lastDecayTick then b.units else Metabolic.Decayed(b.units, rate, tick - b.lastDecayTick))
    {
      hide Metabolic.Decayed, DecayOne;
      DecayOneMeans(waveField.pools[p], tick, DecayRate(domains));
    }

    /** Brings the DAG's copy up to date. */
    method SyncToDag()
      requires Mirrors()
      modifies dag`balances
      ensures Agree()
    {
      var todo := waveField.accounts.Keys;
      while todo != {}
        invariant todo <= waveField.accounts.Keys && Mirrors()
        invariant forall a :: a in waveField.accounts && a !in todo ==> a in dag.balances && dag.balances[a] == waveField.accounts[a].units
        decreases todo
      {
        var a :| a in todo;
        dag.balances := dag.balances[a := waveField.accounts[a].units];
        todo := todo - {a};
      }
      assert dag.balances.Keys == waveField.accounts.Keys;
    }

    /** The DAG once the pending shifts are in. */
    ghost function FiledPending(keys: Keys): Nodes
      reads this`pendingStateful, this`domains, this`synthesisTick, dag`nodes
    {
      FiledAll(dag.nodes, pendingStateful, domains, keys, dag.hashOf, dag.verifies, synthesisTick)
    }

    /** Files the pending shifts in the DAG one after the other. */
    method FilePending(keys: Keys, tick: nat)
      requires dag.Valid()
      modifies this`pendingStateful, dag
      ensures dag.Valid() && pendingStateful == [] && dag.balances == old(dag.balances)
      ensures dag.nodes == FiledAll(old(dag.nodes), old(pendingStateful), domains, keys, dag.hashOf, dag.verifies, tick)
    {
      hide Dag.VectorClockDag.Valid, Inserted;
      var shifts := pendingStateful;
      pendingStateful := [];
      ghost var was := dag.nodes;
      assert shifts[..0] == [];
      for i := 0 to |shifts|
        invariant dag.Valid() && dag.balances == old(dag.balances) && pendingStateful == []
        invariant dag.nodes == FiledAll(was, shifts[..i], domains, keys, dag.hashOf, dag.verifies, tick)
      {
        var shift := shifts[i];
        assert shifts[..i + 1][..i] == shifts[..i];
        if shift.from in keys {
          var _ := dag.Insert(shift, keys[shift.from], tick, DepthOf(domains, shift.domain));
        }
      }
      assert shifts[..|shifts|] == shifts;
    }

    /** Rejects double spends, whatever their status was, and finalizes what is old enough. */
    method CheckSpends(tick: nat)
      requires dag.Valid()
      modifies dag`nodes
      ensures dag.Valid()
      ensures dag.nodes == Checked(old(dag.nodes), dag.balances, tick)
    {
      hide Dag.VectorClockDag.Valid, Dag.Promoted, Dag.Marked;
      var violations := dag.DetectDoubleSpends();
      OverdrawnReported(dag.nodes, dag.balances, violations);
      dag.MarkDoubleSpends(violations);
      var _ := dag.PromoteToFinalized(tick);
    }

    ghost function FlowNow(): Flow
      reads this`pendingCommutative, waveField`pools
    {
      Flow(waveField.pools, pendingCommutative)
    }

    /** Groups the pending deltas and applies them domain by domain, in any order; a failed domain's deltas are queued again. */
    method CommutativePhase() returns (ghost turns: seq<Turn>)
      requires waveField.Valid() && Ledgered() && seeded + netDeltas + PendingInflow(pendingCommutative) <= U128_MAX
      modifies this`pendingCommutative, this`netDeltas, waveField`pools, waveField`spectrum
      ensures waveField.Valid() && Ledgered()
      ensures CameOf(Flow(old(waveField.pools), []), FlowNow(), waveField.engine.size, Grouped(old(pendingCommutative), domains), turns)
      ensures TotalUnits(waveField.pools) - old(TotalUnits(waveField.pools)) == netDeltas - old(netDeltas)
      ensures pendingCommutative == [] ==> netDeltas == old(netDeltas) + KeptTotal(old(pendingCommutative), domains)
      ensures OnlyFaultyAgain(pendingCommutative, Grouped(old(pendingCommutative), domains), waveField.engine.size)
    {
      hide WaveFields.WaveField.Valid, WaveFields.BinsRepresentable, TotalUnits, Locked, Rewards.RewardPool.Total, Grouped, OfDomain, KeptTotal, Nets, Inflow, Sum,
           PoolSums, Moved, Covered, OnlyFaultyAgain, AfterBatch, AfterTurns, TurnsOf, DomainsOf, Lists, Within, Done;
      waveField.SizePositive();
      ghost var before := Flow(waveField.pools, []);
      var batch := Group();
      GroupedInflow(old(pendingCommutative), domains);
      NetsOfGrouped(old(pendingCommutative), domains);
      ghost var all, size := batch, waveField.engine.size;
      turns := [];
      NoInflow();
      NoneAgain(all, size);
      NoTurns(before, size, all);
      NothingDone(all);
      while batch != map[]
        invariant waveField.Valid() && Ledgered() && seeded + netDeltas + Sum(Inflow(batch)) <= U128_MAX
        invariant TotalUnits(waveField.pools) - old(TotalUnits(waveField.pools)) == netDeltas - old(netDeltas)
        invariant Within(batch, all)
        invariant OnlyFaultyAgain(pendingCommutative, all, size)
        invariant pendingCommutative == [] ==> netDeltas + Sum(Nets(batch)) == old(netDeltas) + Sum(Nets(all))
        invariant TurnsOf(all, turns) && Lists(DomainsOf(turns), Done(all, batch))
        invariant FlowNow() == AfterTurns(before, size, all, turns)
        decreases |batch|
      {
        var domain :| domain in batch;
        var ds := batch[domain];
        TakeDomain(all, batch, domain);
        InflowTake(batch, domain);
        NetsTake(batch, domain);
        MayReturn(pendingCommutative, all, domain, waveField.pools, size);
        ListsNext(DomainsOf(turns), Done(all, batch), domain);
        batch := batch - {domain};
        ghost var order := ApplyBatch(domain, ds);
        TurnsNext(before, size, all, turns, Turn(domain, order));
        turns := turns + [Turn(domain, order)];
      }
    }

    method Group() returns (batch: Batch)
      modifies this`pendingCommutative
      ensures pendingCommutative == [] && batch == Grouped(old(pendingCommutative), domains)
      ensures forall d :: d in batch <==> d in domains && domains[d].commutative && OfDomain(old(pendingCommutative), d) != []
      ensures forall d :: d in batch ==> batch[d] == OfDomain(old(pendingCommutative), d)
    {
      GroupedMeans(pendingCommutative, domains);
      var deltas := pendingCommutative;
      pendingCommutative := [];
      batch := map[];
      assert deltas[..0] == [];
      for i := 0 to |deltas|
        invariant pendingCommutative == [] && batch == Grouped(deltas[..i], domains)
      {
        assert deltas[..i + 1][..i] == deltas[..i];
        var (domain, d) := deltas[i];
        if domain in domains {
          if domains[domain].commutative {
            batch := batch[domain := (if domain in batch then batch[domain] else []) + [d]];
          }
        }
      }
      assert deltas[..|deltas|] == deltas;
    }

    /** One domain's batch, gone through in `order`; the deltas that take effect move the ledger. */
    method ApplyBatch(domain: DomainId, ds: seq<Delta>) returns (ghost order: seq<PoolId>)
      requires waveField.Valid() && Ledgered() && seeded + netDeltas + PositivePart(ds) <= U128_MAX
      modifies this`pendingCommutative, this`netDeltas, waveField`pools, waveField`spectrum
      ensures waveField.Valid() && waveField.engine.size > 0 && Lists(order, PoolSums(ds).Keys)
      ensures FlowNow() == AfterBatch(old(FlowNow()), waveField.engine.size, domain, ds, order)
      ensures Ledgered()
      ensures TotalUnits(waveField.pools) - old(TotalUnits(waveField.pools)) == netDeltas - old(netDeltas) <= PositivePart(ds)
      ensures WaveFields.BinsRepresentable(ds, waveField.engine.size) && Covered(old(waveField.pools), PoolSums(ds)) ==>
                netDeltas == old(netDeltas) + Sum(PoolSums(ds)) && pendingCommutative == old(pendingCommutative)
      ensures !(WaveFields.BinsRepresentable(ds, waveField.engine.size) && Covered(old(waveField.pools), PoolSums(ds))) ==>
                pendingCommutative == old(pendingCommutative) + Tagged(domain, ds)
    {
      hide WaveFields.WaveField.Valid, WaveFields.BinsRepresentable, TotalUnits, Locked, Rewards.RewardPool.Total, PoolSums, Moved, Covered, Sum,
           AppliedIn;
      waveField.SizePositive();
      HoldingsBound();
      ghost var pools := waveField.pools;
      var r;
      r, order := waveField.SynthesizeCommutativeBatch(ds);
      BatchMoves(pools, ds, order);
      if WaveFields.BinsRepresentable(ds, waveField.engine.size) {
        netDeltas := netDeltas + Sum(AppliedIn(pools, PoolSums(ds), order));
        if r.Ok? {
          AppliedAll(pools, PoolSums(ds), order);
        }
      }
      if r.Err? {
        pendingCommutative := pendingCommutative + Tagged(domain, ds);
      }
    }

    /** Everything that may settle, given the certificates and stakes this node knows. */
    ghost function EligibleIn(nodes: Nodes, keys: Keys): set<TxHash>
      reads this`domains, tracker`byTick, stakeTable`operators
    {
      Eligibles(nodes, domains, keys, dag.verifies, tracker.byTick, Threshold(TotalStake(stakeTable.operators)))
    }

    /** What makes a shift eligible, in the terms of the code: in a strict domain, some view must hold a quorum for its tick. */
    lemma EligibleMeans(nodes: Nodes, keys: Keys, h: TxHash)
      ensures h in EligibleIn(nodes, keys) <==>
              && h in nodes && !nodes[h].status.Rejected? && !nodes[h].applied
              && var shift := nodes[h].shift;
                 && shift.from in keys && dag.verifies(keys[shift.from], shift) && shift.domain in domains
                 && (domains[shift.domain].ordering == Strict ==>
                       nodes[h].insertedAtTick in tracker.byTick &&
                       exists v :: v in tracker.byTick[nodes[h].insertedAtTick] &&
                                   tracker.byTick[nodes[h].insertedAtTick][v] >= Threshold(TotalStake(stakeTable.operators)))
    {
      hide TotalStake, Threshold;
    }

    /** Decides one ordered shift, up to its fee and its sender's balance. */
    method CheckEligible(h: TxHash, keys: Keys) returns (ok: bool)
      requires h in dag.nodes
      ensures ok <==> h in EligibleIn(dag.nodes, keys)
      ensures ok <==>
              && !dag.nodes[h].status.Rejected? && !dag.nodes[h].applied
              && var shift := dag.nodes[h].shift;
                 && shift.from in keys && dag.verifies(keys[shift.from], shift) && shift.domain in domains
                 && (domains[shift.domain].ordering == Strict ==>
                       dag.nodes[h].insertedAtTick in tracker.byTick &&
                       exists v :: v in tracker.byTick[dag.nodes[h].insertedAtTick] &&
                                   tracker.byTick[dag.nodes[h].insertedAtTick][v] >= Threshold(TotalStake(stakeTable.operators)))
    {
      hide TotalStake, Threshold, EligibleIn;
      EligibleMeans(dag.nodes, keys, h);
      var node := dag.nodes[h];
      if node.status.Rejected? || node.applied {
        return false;
      }
      var shift := node.shift;
      if shift.from !in keys {
        return false;
      }
      if !dag.verifies(keys[shift.from], shift) {
        return false;
      }
      if shift.domain !in domains {
        return false;
      }
      if domains[shift.domain].ordering.Strict? {
        var threshold := stakeTable.QuorumThreshold();
        var quorum := tracker.CheckQuorum(node.insertedAtTick, threshold);
        if quorum.None? {
          return false;
        }
      }
      ok := true;
    }

    /** Goes through the order and settles what is eligible and covered; every sender it debits has a balance entry. */
    method SettleOrdered(order: seq<TxHash>, keys: Keys) returns (hashes: seq<TxHash>, sim: Accounts, active: set<AccountId>, fees: nat)
      requires FeesBounded(domains) && forall h :: h in order ==> h in dag.nodes && dag.nodes[h].shift.amount > 0
      ensures hashes == Settled(dag.balances, dag.nodes, domains, EligibleIn(dag.nodes, keys), order)
      ensures AllPayable(dag.balances, dag.nodes, domains, hashes)
      ensures sim == Replay(dag.balances, dag.nodes, domains, hashes)
      ensures fees == Fees(dag.nodes, domains, hashes) && active == ActiveAccounts(dag.nodes, hashes)
      ensures Sum(sim) + fees == Sum(dag.balances)
    {
      hide Sum, EligibleIn, Settled, Replay, Fees, AllPayable, SignalFee, ActiveAccounts;
      hashes, sim, active, fees := [], dag.balances, {}, 0;
      ghost var eligible := EligibleIn(dag.nodes, keys);
      NothingSettled(dag.balances, dag.nodes, domains, eligible);
      assert order[..0] == [];
      for i := 0 to |order|
        invariant hashes == Settled(dag.balances, dag.nodes, domains, eligible, order[..i])
        invariant AllPayable(dag.balances, dag.nodes, domains, hashes) && sim == Replay(dag.balances, dag.nodes, domains, hashes)
        invariant fees == Fees(dag.nodes, domains, hashes) && active == ActiveAccounts(dag.nodes, hashes)
      {
        var h := order[i];
        SettledNext(dag.balances, dag.nodes, domains, eligible, order, i);
        var ok := CheckEligible(h, keys);
        if ok {
          var shift := dag.nodes[h].shift;
          var fee := SignalFee(domains, shift);
          if fee.Some? && Held(sim, shift.from) >= shift.amount {
            ReplayNext(dag.balances, dag.nodes, domains, hashes, h);
            ActiveNext(dag.nodes, hashes, h);
            sim := sim[shift.from := sim[shift.from] - shift.amount];
            sim := sim[shift.to := Held(sim, shift.to) + fee.value.net];
            fees := fees + fee.value.fee;
            hashes := hashes + [h];
            if shift.from != shift.to {
              active := active + {shift.from, shift.to};
            }
          }
        }
      }
      assert order[..|order|] == order;
      ReplayConserves(dag.balances, dag.nodes, domains, hashes);
    }

    /** Debits the fees from the wave field's copy, as far as it covers them; the settled balances then overwrite it. */
    method DebitFees(hashes: seq<TxHash>, ghost known: set<AccountId>)
      requires FeesBounded(domains) && (forall h :: h in hashes ==> h in dag.nodes)
      requires waveField.accounts.Keys <= known && FeeDebts(dag.nodes, domains, hashes).Keys <= known
      modifies waveField`accounts
      ensures SameButUnits(old(waveField.accounts), waveField.accounts, known)
      ensures forall a: AccountId ::
                BalanceOf(waveField.accounts, a).units ==
                SatSub(BalanceOf(old(waveField.accounts), a).units, Held(FeeDebts(dag.nodes, domains, hashes), a))
    {
      hide BalanceOf, SameButUnits, PartlyDebited;
      var debts := CollectDebts(hashes);
      ghost var was := waveField.accounts;
      var todo := debts.Keys;
      DebitStarts(was, debts, known);
      while todo != {}
        invariant todo <= debts.Keys && PartlyDebited(was, waveField.accounts, debts, todo, known)
        decreases todo
      {
        var a :| a in todo;
        var fee := debts[a];
        var held := BalanceOf(waveField.accounts, a).units;
        DebitStep(was, waveField.accounts, debts, todo, known, a);
        var _ := waveField.DebitAccount(a, if fee <= held then fee else held);
        todo := todo - {a};
      }
      DebitEnds(was, waveField.accounts, debts, known);
    }

    method CollectDebts(hashes: seq<TxHash>) returns (debts: Accounts)
      requires FeesBounded(domains) && forall h :: h in hashes ==> h in dag.nodes
      ensures debts == FeeDebts(dag.nodes, domains, hashes)
    {
      hide SignalFee, FeesBounded;
      debts := map[];
      assert hashes[..0] == [];
      for i := 0 to |hashes|
        invariant debts == FeeDebts(dag.nodes, domains, hashes[..i])
      {
        assert hashes[..i + 1][..i] == hashes[..i];
        var shift := dag.nodes[hashes[i]].shift;
        debts := debts[shift.from := Held(debts, shift.from) + FeeOf(domains, shift)];
      }
      assert hashes[..|hashes|] == hashes;
    }

    /** Writes the settled balances back; accounts that traded start their grace window. */
    method SyncBack(sim: Accounts, active: set<AccountId>, tick: nat)
      requires Bounded(sim)
      modifies waveField`accounts
      ensures waveField.accounts == SyncedBack(old(waveField.accounts), sim, active, tick)
    {
      ghost var was := waveField.accounts;
      var todo := sim.Keys;
      while todo != {}
        invariant todo <= sim.Keys && was.Keys <= waveField.accounts.Keys <= was.Keys + sim.Keys && sim.Keys - todo <= waveField.accounts.Keys
        invariant forall a :: a in waveField.accounts ==>
                    waveField.accounts[a] == if a in todo then BalanceOf(was, a) else SyncedOne(was, sim, active, tick, a)
        decreases todo
      {
        var a :| a in todo;
        waveField.EnsureAccount(a);
        var b := waveField.accounts[a];
        waveField.accounts := waveField.accounts[a := b.(units := sim[a], lastActiveTick := if a in active then tick else b.lastActiveTick)];
        todo := todo - {a};
      }
    }

    /** Pays the fees out, marks the settled shifts, and makes both copies the settled balances. */
    method Finish(hashes: seq<TxHash>, sim: Accounts, active: set<AccountId>, fees: nat, tick: nat)
      requires dag.Valid() && SettledOnce() && Traced() && Agree() && Ledgered() && FeesBounded(domains)
      requires NoDuplicates(hashes) && forall h :: h in hashes ==> h in dag.nodes && !dag.nodes[h].applied
      requires AllPayable(dag.balances, dag.nodes, domains, hashes)
      requires Bounded(sim) && sim == Replay(dag.balances, dag.nodes, domains, hashes) && fees == Fees(dag.nodes, domains, hashes)
      modifies this`settled, this`dust, dag`nodes, dag`balances, waveField`accounts, rewardPool
      ensures dag.Valid() && SettledOnce() && Traced() && Agree() && Ledgered()
      ensures dag.balances == sim && dag.nodes == Dag.WithApplied(old(dag.nodes), SeqSet(hashes))
      ensures waveField.accounts == SyncedBack(old(waveField.accounts), sim, active, tick)
      ensures rewardPool.State() == Rewards.Shared(old(rewardPool.State()), fees, StakedNow())
      ensures settled == old(settled) + hashes
    {
      hide Dag.VectorClockDag.Valid, AllPayable, Replay, Fees, FeesBounded, Sum, TotalUnits, Locked, Rewards.RewardPool.Total, SyncedBack,
           Rewards.RewardPool.State, Rewards.Shared, StakedNow, UnitsOf, Dag.WithApplied, SameButUnits, FeeDebts, NoDuplicates, SeqSet, Genuine, Bounded;
      ghost var accounts := waveField.accounts;
      UnitsOfTotal(accounts);
      UnitsOfKeys(accounts);
      HoldingsBound();
      ReplayConserves(dag.balances, dag.nodes, domains, hashes);
      DebtorsKnown(dag.balances, dag.nodes, domains, hashes);
      SameUntouched(accounts, sim.Keys);
      Rewards.SharedNothing(rewardPool.State(), StakedNow());
      if fees > 0 {
        DebitFees(hashes, sim.Keys);
        Reward(fees);
      }
      SettledGrows(dag.nodes, settled, hashes);
      dag.Commit(hashes, sim);
      SyncedIgnoresUnits(accounts, waveField.accounts, sim, active, tick);
      SyncBack(sim, active, tick);
      SyncedTotal(accounts, sim, active, tick);
      settled := settled + hashes;
    }

    /** Decay, reflected in both copies. */
    method DecayAndSync(tick: nat) returns (decayed: nat)
      requires Ledgered() && Mirrors()
      modifies this`dust, this`metabolicBurned, waveField`accounts, waveField`pools, rewardPool, supply, dag`balances
      ensures Ledgered() && Agree()
      ensures waveField.accounts == old(DecayedAccounts(tick)) && waveField.pools == old(DecayedPools(tick))
      ensures decayed == old(Loss(tick)) && metabolicBurned == old(metabolicBurned) + decayed
      ensures supply.burned == old(supply.burned) + BurnShare(decayed)
      ensures supply.circulating == SatSub(old(supply.circulating), BurnShare(decayed))
      ensures rewardPool.State() == Rewards.Shared(old(rewardPool.State()), decayed - BurnShare(decayed), StakedNow())
    {
      hide Ledgered, UnitsOf, DecayAll, Loss, Rewards.Shared, Rewards.RewardPool.State, BurnShare, StakedNow;
      decayed := DecayPhase(tick);
      DecayKeys(old(waveField.accounts), tick, DecayRate(domains), StakedNow().Keys);
      SyncToDag();
    }

    /** Files the pending shifts and rejects what is overdrawn, keeping the settled marks. */
    method FileAndCheck(keys: Keys, tick: nat)
      requires dag.Valid() && SettledOnce() && Traced()
      modifies this`pendingStateful, dag
      ensures dag.Valid() && SettledOnce() && Traced() && pendingStateful == [] && dag.balances == old(dag.balances)
      ensures dag.nodes == Checked(FiledAll(old(dag.nodes), old(pendingStateful), domains, keys, dag.hashOf, dag.verifies, tick), dag.balances, tick)
    {
      hide Dag.VectorClockDag.Valid, Filed, NoneLost, FiledAll, Checked;
      FilePending(keys, tick);
      FilingMeans(old(dag.nodes), old(pendingStateful), domains, keys, dag.hashOf, dag.verifies, tick);
      FiledKeeps(old(dag.nodes), dag.nodes, old(pendingStateful), domains, keys, dag.hashOf, dag.verifies, tick, queued);
      CheckedMarks(dag.nodes, dag.balances, tick);
      CheckSpends(tick);
    }

    /**
     `hashes` is what settles when `ready` is gone through in `order`, which is topological, and canonical when
     concurrency is transitive; `sim` is what that makes of the balances, and `fees` what it costs.
     */
    ghost predicate SettledBy(ready: Nodes, balances: Accounts, keys: Keys, order: seq<TxHash>, hashes: seq<TxHash>, sim: Accounts, fees: nat)
      reads this`domains, tracker`byTick, stakeTable`operators
    {
      && FeesBounded(domains)
      && TopologicalFor(ready, order) && (forall h :: h in order ==> h in ready)
      && (ConcurrencyTransitive(Clocks(ready)) ==> order == CanonicalFrom(ready, {}))
      && hashes == Settled(balances, ready, domains, EligibleIn(ready, keys), order)
      && sim == Replay(balances, ready, domains, hashes) && fees == Fees(ready, domains, hashes)
    }

    /**
     Which shifts settle: the i-th of the order does exactly if it is neither rejected nor settled, its sender's key is
     known and its signature valid, its domain is registered and, if strict, has a quorum for its insertion tick, the flat
     fee is covered, and the sender holds the amount after the k shifts that settled before it.
     */
    lemma SettledByMeans(ready: Nodes, balances: Accounts, keys: Keys, order: seq<TxHash>, hashes: seq<TxHash>, sim: Accounts, fees: nat, i: nat)
      returns (k: nat)
      requires SettledBy(ready, balances, keys, order, hashes, sim, fees) && i < |order|
      ensures SeqSet(order) == ready.Keys && SeqSet(hashes) <= SeqSet(order)
      ensures order[i] in ready && k <= |hashes| && forall h :: h in hashes ==> h in ready
      ensures (forall h :: h in hashes[..k] ==> h in order[..i]) && (forall h :: h in hashes[k..] ==> h in order[i..])
      ensures var n := ready[order[i]];
              order[i] in hashes <==>
              && !n.status.Rejected? && !n.applied
              && n.shift.from in keys && dag.verifies(keys[n.shift.from], n.shift) && n.shift.domain in domains
              && (domains[n.shift.domain].ordering == Strict ==>
                    n.insertedAtTick in tracker.byTick &&
                    exists v :: v in tracker.byTick[n.insertedAtTick] &&
                                tracker.byTick[n.insertedAtTick][v] >= Threshold(TotalStake(stakeTable.operators)))
              && (domains[n.shift.domain].feePolicy.Flat? ==> n.shift.amount >= domains[n.shift.domain].feePolicy.fee)
              && Held(Replay(balances, ready, domains, hashes[..k]), n.shift.from) >= n.shift.amount
    {
      hide EligibleIn, Replay, Settled, TotalStake, Threshold, CanonicalFrom, Clocks, ConcurrencyTransitive, Preds, Fees, SignalFee, FeesBounded;
      OrderIsNodes(ready, order);
      EligibleMeans(ready, keys, order[i]);
      var before := Settled(balances, ready, domains, EligibleIn(ready, keys), order[..i]);
      k := |before|;
      SettledAt(balances, ready, domains, EligibleIn(ready, keys), order, i);
      assert hashes[..k] == before;
      FeeDefined(domains, ready[order[i]].shift);
    }

    /** Orders the DAG, settles what can be settled, and commits it to both copies. */
    method SettlePhase(keys: Keys, tick: nat) returns (order: seq<TxHash>, hashes: seq<TxHash>, sim: Accounts, fees: nat)
      requires dag.Valid() && SettledOnce() && Traced() && Agree() && Ledgered() && FeesBounded(domains)
      modifies this`settled, this`dust, dag`nodes, dag`balances, waveField`accounts, rewardPool
      ensures SettledBy(old(dag.nodes), old(dag.balances), keys, order, hashes, sim, fees)
      ensures dag.Valid() && SettledOnce() && Traced() && Agree() && Ledgered()
      ensures dag.balances == sim && settled == old(settled) + hashes
      ensures dag.nodes == Dag.WithApplied(old(dag.nodes), SeqSet(hashes))
      ensures WrittenBack(old(waveField.accounts), waveField.accounts, sim, ActiveIn(old(dag.nodes), hashes), tick)
      ensures rewardPool.State() == Rewards.Shared(old(rewardPool.State()), fees, StakedNow())
    {
      hide Dag.VectorClockDag.Valid, SettledOnce, FeesBounded, AllPayable, Replay, Fees, Settled, EligibleIn,
           TopologicalFor, CausalPrecedence, CanonicalFrom, Clocks, ConcurrencyTransitive, SyncedBack, NoDuplicates, Bounded,
           TotalUnits, Sum, Dag.WithApplied, ActiveAccounts, SeqSet, UnitsOf, Locked, Rewards.RewardPool.Total, Rewards.RewardPool.State,
           Rewards.Shared, StakedNow;
      var ordered := dag.TopologicalOrder();
      if ordered.Err? {
        assert false;
      }
      ghost var nodes, balances := dag.nodes, dag.balances;
      order := ordered.value;
      OrderIsNodes(nodes, order);
      var active;
      hashes, sim, active, fees := SettleOrdered(order, keys);
      SettledFacts(balances, nodes, domains, EligibleIn(nodes, keys), order);
      EligibleMeaning(keys, hashes);
      HoldingsBound();
      UnitsOfTotal(waveField.accounts);
      BoundedBySum(sim);
      Finish(hashes, sim, active, fees, tick);
    }

    lemma EligibleMeaning(keys: Keys, hashes: seq<TxHash>)
      requires SeqSet(hashes) <= EligibleIn(dag.nodes, keys)
      ensures forall h :: h in hashes ==> h in dag.nodes && !dag.nodes[h].applied && !dag.nodes[h].status.Rejected?
    {
      forall h | h in hashes ensures h in EligibleIn(dag.nodes, keys) {
        assert h in SeqSet(hashes);
      }
    }

    /** The balances that this tick's decay leaves. */
    ghost function DecayedBalances(): Accounts
      reads this`synthesisTick, this`domains, waveField`accounts, stakeTable`operators
    {
      UnitsOf(DecayedAccounts(synthesisTick))
    }

    /** The DAG that is gone through this tick: pending shifts filed, overdrawn ones rejected, old ones finalized. */
    ghost function ReadyDag(keys: Keys): Nodes
      reads this`pendingStateful, this`domains, this`synthesisTick, dag`nodes, waveField`accounts, stakeTable`operators
    {
      Checked(FiledPending(keys), DecayedBalances(), synthesisTick)
    }

    /** The first half of a tick: decay, and filing what is pending. */
    method Prepare(keys: Keys) returns (decayed: nat)
      requires dag.Valid() && SettledOnce() && Traced() && Ledgered() && Mirrors() && Capped()
      modifies this`pendingStateful, this`synthesisTick, this`metabolicBurned, this`dust
      modifies waveField`accounts, waveField`pools, dag, rewardPool, supply
      ensures dag.Valid() && SettledOnce() && Traced() && Ledgered() && Agree()
      ensures synthesisTick == old(synthesisTick) + 1 && pendingStateful == []
      ensures Capped()
      ensures waveField.accounts == old(DecayedAccounts(synthesisTick)) && waveField.pools == old(DecayedPools(synthesisTick))
      ensures decayed == old(Loss(synthesisTick)) && metabolicBurned == old(metabolicBurned) + decayed
      ensures supply.burned == old(supply.burned) + BurnShare(decayed)
      ensures supply.circulating == SatSub(old(supply.circulating), BurnShare(decayed))
      ensures rewardPool.State() == Rewards.Shared(old(rewardPool.State()), decayed - BurnShare(decayed), StakedNow())
      ensures dag.balances == old(DecayedBalances()) && dag.nodes == old(ReadyDag(keys))
    {
      hide Dag.VectorClockDag.Valid, SettledOnce, Traced, Ledgered, Mirrors, UnitsOf, DecayedAccounts, Loss, StakedNow,
           DecayedPools, FiledAll, Checked, Rewards.Shared, Rewards.RewardPool.State, BurnShare;
      var tick := synthesisTick;
      synthesisTick := tick + 1;
      decayed := DecayAndSync(tick);
      FileAndCheck(keys, tick);
    }

    /**
     One tick. `order` is the order in which the DAG is gone through, and `turns` that of the domains and their pools.
     What settles, what both copies of the balances end as, the marks left in the DAG, the pools and the deltas that
     wait are functions of the old state and those orders, and the ledger still balances.
     */
    method Synthesize(keys: Keys) 
      returns (result: SynthesisResult, ghost order: seq<TxHash>, ghost fees: nat, ghost turns: seq<Turn>)
      requires Valid() && seeded + netDeltas + PendingInflow(pendingCommutative) <= U128_MAX
      modifies this`pendingCommutative, this`pendingStateful, this`synthesisTick, this`metabolicBurned, this`netDeltas, this`dust, this`settled
      modifies waveField, dag, rewardPool, supply
      ensures Valid() && Agree()
      ensures synthesisTick == old(synthesisTick) + 1 && pendingStateful == []
      ensures result.metabolicBurned == old(Loss(synthesisTick)) && metabolicBurned == old(metabolicBurned) + result.metabolicBurned
      ensures supply.burned == old(supply.burned) + BurnShare(result.metabolicBurned)
      ensures supply.circulating == SatSub(old(supply.circulating), BurnShare(result.metabolicBurned))
      ensures SettledBy(old(ReadyDag(keys)), old(DecayedBalances()), keys, order, result.settled, dag.balances, fees)
      ensures settled == old(settled) + result.settled && result.finalBalances == dag.balances
      ensures dag.nodes == Dag.WithApplied(old(ReadyDag(keys)), SeqSet(result.settled))
      ensures WrittenBack(old(DecayedAccounts(synthesisTick)), waveField.accounts, dag.balances,
                          ActiveIn(old(ReadyDag(keys)), result.settled), old(synthesisTick))
      ensures var burn := BurnShare(result.metabolicBurned);
              rewardPool.State() ==
              Rewards.Shared(Rewards.Shared(old(rewardPool.State()), result.metabolicBurned - burn, StakedNow()), fees, StakedNow())
      ensures CameOf(Flow(old(DecayedPools(synthesisTick)), []), FlowNow(), waveField.engine.size,
                     Grouped(old(pendingCommutative), domains), turns)
      ensures netDeltas == old(netDeltas) + TotalUnits(waveField.pools) - TotalUnits(old(DecayedPools(synthesisTick)))
      ensures pendingCommutative == [] ==> netDeltas == old(netDeltas) + KeptTotal(old(pendingCommutative), domains)
      ensures OnlyFaultyAgain(pendingCommutative, Grouped(old(pendingCommutative), domains), waveField.engine.size)
    {
      hide WaveFields.WaveField.Valid, Dag.VectorClockDag.Valid, FeesBounded, NoncesIncrease, SettledOnce, Traced, Ledgered, Agree, Mirrors,
           DecayedBalances, DecayedAccounts, DecayedPools, Loss, CameOf, SpentOnce, Capped, ReadyDag, SettledBy, TotalUnits, Rewards.RewardPool.Total, Rewards.RewardPool.State,
           Rewards.Shared, StakedNow, WrittenBack, ActiveIn, Grouped, KeptTotal, Sum, BurnShare, SeqSet, OnlyFaultyAgain, Dag.WithApplied;
      var tick := synthesisTick;
      var decayed := Prepare(keys);
      turns := CommutativePhase();
      var hashes, sim, paid;
      order, hashes, sim, paid := SettlePhase(keys, tick);
      fees := paid;
      AgreeMirrors();
      result := SynthesisResult(decayed, hashes, sim);
    }

    lemma AgreeMirrors()
      requires Agree()
      ensures Mirrors()
    {
    }
  }
}
