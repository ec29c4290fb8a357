/**
 The wave field: account and pool balances, and batch synthesis guarded by the
 transform's round trip.
 */
module WaveFields {
  import opened Basics
  import opened Arithmetic
  import opened Machine
  import opened Sums
  import opened Batches
  import opened Balances
  import Ntt

  datatype BatchError = RoundTripMismatch(bin: nat) | PoolNegative(pool: PoolId, shortfall: nat)

  /** Every bin's aggregate survives the field encoding. */
  predicate BinsRepresentable(ds: seq<Delta>, size: nat)
    requires size > 0
  {
    forall i :: 0 <= i < size ==> Representable(Bins(ds, size)[i])
  }

  function Encoded(bins: seq<int>): (e: seq<int>)
    ensures |e| == |bins| && forall i :: 0 <= i < |e| ==> e[i] == SignedToField(bins[i])
    ensures forall i :: 0 <= i < |e| ==> 0 <= e[i] < MODULUS
  {
    seq(|bins|, i requires 0 <= i < |bins| => SignedToField(bins[i]))
  }

  class WaveField {
    const engine: Ntt.NttEngine
    var accounts: Ledger
    var pools: Ledger
    var spectrum: seq<int>

    ghost predicate Valid()
      reads this`spectrum
    {
      engine.Valid() && |spectrum| == engine.size
    }

    lemma SizePositive()
      requires Valid()
      ensures engine.size > 0
    {
    }

    constructor (size: nat)
      requires IsPowerOfTwo(size) && size >= 2 && (MODULUS - 1) % size == 0
      ensures Valid() && engine.size == size
      ensures accounts == map[] && pools == map[]
    {
      engine := new Ntt.NttEngine(size);
      accounts, pools, spectrum := map[], map[], seq(size, _ => 0);
    }

    method EnsureAccount(id: AccountId)
      modifies this`accounts
      ensures accounts == old(accounts)[id := BalanceOf(old(accounts), id)]
      ensures TotalUnits(accounts) == old(TotalUnits(accounts))
    {
      SetUnits(accounts, id, BalanceOf(accounts, id));
      if id !in accounts {
        accounts := accounts[id := ZERO];
      }
      assert accounts == old(accounts)[id := BalanceOf(old(accounts), id)];
    }

    method SetNonDecaying(id: AccountId)
      modifies this`accounts
      ensures accounts == old(accounts)[id := BalanceOf(old(accounts), id).(decays := false)]
      ensures TotalUnits(accounts) == old(TotalUnits(accounts))
    {
      SetUnits(accounts, id, BalanceOf(accounts, id).(decays := false));
      accounts := accounts[id := BalanceOf(accounts, id).(decays := false)];
    }

    method CreditAccount(id: AccountId, amount: nat)
      modifies this`accounts
      ensures accounts == old(accounts)[id := BalanceOf(old(accounts), id).(units := SatAdd(BalanceOf(old(accounts), id).units, amount))]
      ensures old(TotalUnits(accounts)) + amount <= U128_MAX ==> TotalUnits(accounts) == old(TotalUnits(accounts)) + amount
    {
      UnitsAtMostTotal(accounts, id);
      var b := BalanceOf(accounts, id);
      SetUnits(accounts, id, b.(units := SatAdd(b.units, amount)));
      accounts := accounts[id := b.(units := SatAdd(b.units, amount))];
    }

    method DebitAccount(id: AccountId, amount: nat) returns (ok: bool)
      modifies this`accounts
      ensures ok <==> BalanceOf(old(accounts), id).units >= amount
      ensures var b := BalanceOf(old(accounts), id);
              accounts == old(accounts)[id := if ok then b.(units := b.units - amount) else b]
      ensures TotalUnits(accounts) == old(TotalUnits(accounts)) - if ok then amount else 0
    {
      var b := BalanceOf(accounts, id);
      ok := b.units >= amount;
      var b' := if ok then b.(units := SatSub(b.units, amount)) else b;
      SetUnits(accounts, id, b');
      accounts := accounts[id := b'];
    }

    /** Decays every account and pool; what the balances lose is what is reported. */
    method ApplyMetabolicDecay(tick: nat, ratePpm: nat, immune: set<AccountId>) returns (burned: nat)
      modifies this`accounts, this`pools
      ensures accounts == DecayAll(old(accounts), tick, ratePpm, immune)
      ensures pools == DecayAll(old(pools), tick, ratePpm, {})
      ensures var loss := old(TotalUnits(accounts) + TotalUnits(pools)) - (TotalUnits(accounts) + TotalUnits(pools));
              loss >= 0 && burned == Sat(loss)
    {
      var a, t := DecayPass(accounts, tick, ratePpm, immune, 0);
      ghost var before := TotalUnits(accounts);
      assert TotalUnits(a) <= before;
      accounts := a;
      var p, t' := DecayPass(pools, tick, ratePpm, {}, t);
      pools := p;
      burned := t';
    }

    /** Aggregates a batch by bin and by pool. */
    method Aggregate(ds: seq<Delta>) returns (bins: seq<int>, aggregates: map<PoolId, int>)
      requires engine.Valid()
      ensures bins == Bins(ds, engine.size) && aggregates == PoolSums(ds)
    {
      var size := engine.size;
      bins, aggregates := seq(size, _ => 0), map[];
      assert ds[..0] == [];
      for k := 0 to |ds|
        invariant bins == Bins(ds[..k], size) && aggregates == PoolSums(ds[..k])
      {
        assert ds[..k + 1][..k] == ds[..k];
        var d := ds[k];
        var idx := d.coord.NttIndex(size);
        bins := bins[idx := Clamp(bins[idx] + d.amount)];
        aggregates := aggregates[d.pool := Get(aggregates, d.pool) + d.amount];
      }
      assert ds[..|ds|] == ds;
    }

    /** Transforms the bins and back: what comes back is what was encoded. */
    method RoundTrip(bins: seq<int>) returns (transformed: seq<int>, recovered: seq<int>)
      requires engine.Valid() && |bins| == engine.size
      ensures transformed == engine.Forward(Encoded(bins))
      ensures recovered == Encoded(bins)
    {
      var size := engine.size;
      var a := new int[size](i requires 0 <= i < size => Encoded(bins)[i]);
      assert a[..] == Encoded(bins);
      engine.Ntt(a);
      transformed := a[..];
      var b := new int[size](i requires 0 <= i < size => transformed[i]);
      assert b[..] == transformed;
      engine.Intt(b);
      engine.InverseOfForward(Encoded(bins));
      recovered := b[..];
    }

    /** The first bin whose value did not survive, if any. */
    method FirstMismatch(bins: seq<int>, recovered: seq<int>) returns (bin: Option<nat>)
      requires recovered == Encoded(bins)
      ensures bin.None? <==> forall i :: 0 <= i < |bins| ==> Representable(bins[i])
      ensures bin.Some? ==> bin.value < |bins| && !Representable(bins[bin.value]) && forall i :: 0 <= i < bin.value ==> Representable(bins[i])
    {
      for i := 0 to |bins|
        invariant forall k :: 0 <= k < i ==> Representable(bins[k])
      {
        FieldRoundTrip(bins[i]);
        if bins[i] != FieldToSigned(recovered[i]) {
          return Some(i);
        }
      }
      bin := None;
    }

    /**
     The batch is refused, with nothing changed, exactly when some bin is not representable;
     otherwise pools are moved one at a time in `order`, and all of them unless one would go negative.
     */
    method SynthesizeCommutativeBatch(ds: seq<Delta>) returns (r: Result<(), BatchError>, ghost order: seq<PoolId>)
      requires Valid()
      modifies this`pools, this`spectrum
      ensures Valid() && Lists(order, PoolSums(ds).Keys)
      ensures (r.Err? && r.error.RoundTripMismatch?) <==> !BinsRepresentable(ds, engine.size)
      ensures r.Ok? <==> BinsRepresentable(ds, engine.size) && Covered(old(pools), PoolSums(ds))
      ensures if BinsRepresentable(ds, engine.size)
              then spectrum == engine.Forward(Encoded(Bins(ds, engine.size)))
                   && pools == Moved(old(pools), AppliedIn(old(pools), PoolSums(ds), order))
              else spectrum == old(spectrum) && pools == old(pools)
    {
      hide Bins, PoolSums, Encoded, Moved, AppliedIn;
      var bins, aggregates := Aggregate(ds);
      var transformed, recovered := RoundTrip(bins);
      var bin := FirstMismatch(bins, recovered);
      if bin.Some? {
        order := ListAfter([], aggregates.Keys);
        return Err(RoundTripMismatch(bin.value)), order;
      }
      spectrum := transformed;
      r, order := MovePools(aggregates);
    }

    /** Moves the pools in any order, stopping at the first that would go negative, which is reported. */
    method MovePools(aggregates: map<PoolId, int>) returns (r: Result<(), BatchError>, ghost order: seq<PoolId>)
      modifies this`pools
      ensures Lists(order, aggregates.Keys)
      ensures r.Ok? <==> Covered(old(pools), aggregates)
      ensures r.Err? ==> r.error.PoolNegative? && r.error.pool in aggregates && !CoveredAt(old(pools), aggregates, r.error.pool)
                         && r.error.shortfall == -aggregates[r.error.pool]
      ensures pools == Moved(old(pools), AppliedIn(old(pools), aggregates, order))
    {
      hide Moved, AppliedIn;
      ghost var was := pools;
      NothingApplied(pools, aggregates);
      order := [];
      var todo := aggregates.Keys;
      while todo != {}
        invariant todo <= aggregates.Keys && Lists(order, aggregates.Keys - todo)
        invariant forall p :: p in order ==> p in aggregates && CoveredAt(was, aggregates, p)
        invariant pools == Moved(was, AppliedIn(was, aggregates, order))
        decreases todo
      {
        var p :| p in todo;
        var aggregate := aggregates[p];
        AppliedMeans(was, aggregates, order);
        MovedNext(was, AppliedIn(was, aggregates, order), p, 0);
        MovedNext(was, AppliedIn(was, aggregates, order), p, aggregate);
        ListsNext(order, aggregates.Keys - todo, p);
        AppliedNext(was, aggregates, order, p);
        assert aggregates.Keys - (todo - {p}) == aggregates.Keys - todo + {p};
        order := order + [p];
        var balance := BalanceOf(pools, p);
        if aggregate >= 0 {
          pools := pools[p := balance.(units := SatAdd(balance.units, aggregate))];
        } else {
          var amount := -aggregate;
          if balance.units < amount {
            pools := pools[p := balance];
            ghost var full := ListAfter(order, aggregates.Keys);
            assert full[..|order|] == order && order[|order| - 1] == p;
            AppliedStops(was, aggregates, full, |order|, p);
            return Err(PoolNegative(p, amount)), full;
          }
          pools := pools[p := balance.(units := SatSub(balance.units, amount))];
        }
        todo := todo - {p};
      }
      assert aggregates.Keys - todo == aggregates.Keys;
      r := Ok(());
    }
  }
}
