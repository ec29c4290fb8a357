/**
 Balances of accounts and pools as values: decay, crediting, and moving pools.
 */
module Balances {
  import opened Basics
  import opened Machine
  import opened Metabolic
  import opened Sums

  datatype Balance = Balance(units: U128, lastDecayTick: nat, decays: bool, lastActiveTick: nat)

  const ZERO := Balance(0, 0, true, 0)

  type Ledger = map<nat, Balance>

  function BalanceOf(m: Ledger, k: nat): Balance {
    if k in m then m[k] else ZERO
  }

  function Units(m: Ledger): (u: map<nat, int>)
    ensures NonNegative(u)
  {
    map k | k in m :: m[k].units
  }

  ghost function TotalUnits(m: Ledger): nat {
    SumNonNegative(Units(m));
    Sum(Units(m))
  }

  lemma SetUnits(m: Ledger, k: nat, b: Balance)
    ensures TotalUnits(m[k := b]) == TotalUnits(m) - BalanceOf(m, k).units + b.units
  {
    SumUpdate(Units(m), k, b.units);
    assert Units(m[k := b]) == Units(m)[k := b.units];
  }

  lemma UnitsAtMostTotal(m: Ledger, k: nat)
    ensures BalanceOf(m, k).units <= TotalUnits(m)
  {
    SumBounds(Units(m), k);
  }

  // ----- decay -----

  /** A balance that is exempt this tick: foreign value, or active within the grace window. */
  predicate Exempt(b: Balance, tick: nat) {
    !b.decays || (b.lastActiveTick != 0 && SatSub(tick, b.lastActiveTick) <= METABOLIC_IDLE_GRACE_TICKS)
  }

  function DecayOne(b: Balance, tick: nat, ratePpm: nat): (r: Balance) {
    if Exempt(b, tick) then b.(lastDecayTick := tick)
    else
      var elapsed := SatSub(tick, b.lastDecayTick);
      DecayedNeverGrows(b.units, ratePpm, elapsed);
      if elapsed == 0 || b.units == 0 then b.(lastDecayTick := tick)
      else b.(units := Decayed(b.units, ratePpm, elapsed), lastDecayTick := tick)
  }

  lemma DecayOneShrinks(b: Balance, tick: nat, ratePpm: nat)
    ensures DecayOne(b, tick, ratePpm).units <= b.units
    ensures Exempt(b, tick) ==> DecayOne(b, tick, ratePpm).units == b.units
    ensures DecayOne(b, tick, ratePpm) == b.(units := DecayOne(b, tick, ratePpm).units, lastDecayTick := tick)
  {
    DecayedNeverGrows(b.units, ratePpm, SatSub(tick, b.lastDecayTick));
  }

  /**
   A balance is spared when it is foreign value or transacted, after tick 0, at most four hours of ticks ago; otherwise
   it decays for the ticks since its last decay. Its decay clock always advances.
   */
  lemma DecayOneMeans(b: Balance, tick: nat, ratePpm: nat)
    ensures var r := DecayOne(b, tick, ratePpm);
            var spared := !b.decays || (b.lastActiveTick > 0 && tick <= b.lastActiveTick + 14_400);
            && r.lastDecayTick == tick && r.decays == b.decays && r.lastActiveTick == b.lastActiveTick
            && r.units == if spared || tick <= b.lastDecayTick then b.units else Decayed(b.units, ratePpm, tick - b.lastDecayTick)
  {
    hide Decayed;
    DecayOneShrinks(b, tick, ratePpm);
    NothingDecays(ratePpm, SatSub(tick, b.lastDecayTick));
  }

  lemma NothingDecays(ratePpm: nat, elapsed: nat)
    ensures Decayed(0, ratePpm, elapsed) == 0
  {
  }

  /** Staked operators keep their units; only their clock advances. */
  function DecayEntry(b: Balance, tick: nat, ratePpm: nat, immune: bool): Balance {
    if immune then b.(lastDecayTick := tick) else DecayOne(b, tick, ratePpm)
  }

  function DecayAll(m: Ledger, tick: nat, ratePpm: nat, immune: set<nat>): Ledger {
    map k | k in m :: DecayEntry(m[k], tick, ratePpm, k in immune)
  }

  method DecayBalanceInPlace(b: Balance, tick: nat, ratePpm: nat) returns (r: Balance, burned: nat)
    ensures r == DecayOne(b, tick, ratePpm) && burned == b.units - r.units
  {
    DecayOneShrinks(b, tick, ratePpm);
    if !b.decays {
      return b.(lastDecayTick := tick), 0;
    }
    if b.lastActiveTick != 0 && SatSub(tick, b.lastActiveTick) <= METABOLIC_IDLE_GRACE_TICKS {
      return b.(lastDecayTick := tick), 0;
    }
    var elapsed := SatSub(tick, b.lastDecayTick);
    if elapsed == 0 || b.units == 0 {
      return b.(lastDecayTick := tick), 0;
    }
    var remaining := DecayedBalance(b.units, ratePpm, elapsed);
    burned := SatSub(b.units, remaining);
    r := b.(units := remaining, lastDecayTick := tick);
  }

  /** One pass over a map of balances, adding what burns to a running total. */
  method DecayPass(m: Ledger, tick: nat, ratePpm: nat, immune: set<nat>, start: U128) returns (r: Ledger, total: nat)
    ensures r == DecayAll(m, tick, ratePpm, immune) && TotalUnits(r) <= TotalUnits(m)
    ensures total == Sat(start + TotalUnits(m) - TotalUnits(r))
  {
    hide DecayEntry, DecayOne, TotalUnits;
    r, total := m, start;
    var todo := m.Keys;
    while todo != {}
      invariant todo <= m.Keys == r.Keys
      invariant forall k :: k in m ==> r[k] == if k in todo then m[k] else DecayEntry(m[k], tick, ratePpm, k in immune)
      invariant TotalUnits(r) <= TotalUnits(m) && total == Sat(start + TotalUnits(m) - TotalUnits(r))
      decreases todo
    {
      var k :| k in todo;
      UnitsAtMostTotal(m, k);
      EntryStep(m[k], tick, ratePpm, k in immune);
      SetUnits(r, k, DecayEntry(m[k], tick, ratePpm, k in immune));
      if k in immune {
        r := r[k := r[k].(lastDecayTick := tick)];
      } else {
        var b, burned := DecayBalanceInPlace(r[k], tick, ratePpm);
        total := SatAdd(total, burned);
        r := r[k := b];
      }
      todo := todo - {k};
    }
  }

  lemma EntryStep(b: Balance, tick: nat, ratePpm: nat, immune: bool)
    ensures DecayEntry(b, tick, ratePpm, immune).units <= b.units
    ensures DecayEntry(b, tick, ratePpm, immune) == if immune then b.(lastDecayTick := tick) else DecayOne(b, tick, ratePpm)
  {
    DecayOneShrinks(b, tick, ratePpm);
  }

  // ----- moving pools -----

  function Shift(units: U128, amount: int): (r: U128)
    ensures 0 <= units + amount <= U128_MAX ==> r == units + amount
  {
    if amount >= 0 then SatAdd(units, amount) else SatSub(units, -amount)
  }

  /** Every pool named in `moves` is created if absent and moved by its amount. */
  function Moved(pools: Ledger, moves: map<PoolId, int>): Ledger {
    map p | p in pools.Keys + moves.Keys ::
      if p in moves then BalanceOf(pools, p).(units := Shift(BalanceOf(pools, p).units, moves[p])) else pools[p]
  }

  /** No pool in `moves` would go negative. */
  predicate Covered(pools: Ledger, moves: map<PoolId, int>) {
    forall p :: p in moves ==> BalanceOf(pools, p).units + moves[p] >= 0
  }

  predicate NoOverflow(pools: Ledger, moves: map<PoolId, int>) {
    forall p :: p in moves ==> BalanceOf(pools, p).units + moves[p] <= U128_MAX
  }

  lemma MovedNext(pools: Ledger, moves: map<PoolId, int>, p: PoolId, amount: int)
    requires p !in moves
    ensures Moved(pools, moves[p := amount]) ==
            Moved(pools, moves)[p := BalanceOf(pools, p).(units := Shift(BalanceOf(pools, p).units, amount))]
    ensures BalanceOf(Moved(pools, moves), p) == BalanceOf(pools, p)
  {
  }

  /** When nothing saturates and nothing goes negative, the pools together move by the sum of the amounts. */
  lemma {:induction false} MovedTotal(pools: Ledger, moves: map<PoolId, int>)
    requires Covered(pools, moves) && NoOverflow(pools, moves)
    ensures TotalUnits(Moved(pools, moves)) == TotalUnits(pools) + Sum(moves)
    ensures forall p :: p in moves ==> p in Moved(pools, moves) && Moved(pools, moves)[p].units == BalanceOf(pools, p).units + moves[p]
    decreases |moves|
  {
    hide TotalUnits, Sum, Moved;
    if moves == map[] {
      MovedNone(pools);
    } else {
      var p :| p in moves;
      var rest := moves - {p};
      MovedTotal(pools, rest);
      MovedStep(pools, moves, p);
      SumRemove(moves, p);
    }
    MovedUnits(pools, moves);
  }

  lemma MovedUnits(pools: Ledger, moves: map<PoolId, int>)
    requires Covered(pools, moves) && NoOverflow(pools, moves)
    ensures forall p :: p in moves ==> p in Moved(pools, moves) && Moved(pools, moves)[p].units == BalanceOf(pools, p).units + moves[p]
  {
  }

  lemma MovedStep(pools: Ledger, moves: map<PoolId, int>, p: PoolId)
    requires Covered(pools, moves) && NoOverflow(pools, moves) && p in moves
    ensures TotalUnits(Moved(pools, moves)) == TotalUnits(Moved(pools, moves - {p})) + moves[p]
  {
    hide TotalUnits, Moved;
    var rest := moves - {p};
    MovedNext(pools, rest, p, moves[p]);
    assert rest[p := moves[p]] == moves;
    var b := BalanceOf(pools, p);
    SetUnits(Moved(pools, rest), p, b.(units := Shift(b.units, moves[p])));
  }

  lemma MovedNone(pools: Ledger)
    ensures Moved(pools, map[]) == pools
    ensures Sum<PoolId>(map[]) == 0
  {
  }

  // ----- moving pools one at a time -----

  predicate CoveredAt(pools: Ledger, moves: map<PoolId, int>, p: PoolId)
    requires p in moves
  {
    BalanceOf(pools, p).units + moves[p] >= 0
  }

  /** What takes effect when the pools are gone through in order: all moves up to the first that is not covered. */
  ghost function AppliedIn(pools: Ledger, moves: map<PoolId, int>, order: seq<PoolId>): map<PoolId, int>
    requires forall p :: p in order ==> p in moves
  {
    if order == [] then map[]
    else
      var n := |order| - 1;
      var done := AppliedIn(pools, moves, order[..n]);
      if exists q :: q in order[..n] && !CoveredAt(pools, moves, q) then done
      else done[order[n] := if CoveredAt(pools, moves, order[n]) then moves[order[n]] else 0]
  }

  lemma NothingApplied(pools: Ledger, moves: map<PoolId, int>)
    ensures Moved(pools, AppliedIn(pools, moves, [])) == pools
  {
    MovedNone(pools);
  }

  lemma AppliedNext(pools: Ledger, moves: map<PoolId, int>, order: seq<PoolId>, p: PoolId)
    requires forall q :: q in order ==> q in moves && CoveredAt(pools, moves, q)
    requires p in moves
    ensures AppliedIn(pools, moves, order + [p]) ==
            AppliedIn(pools, moves, order)[p := if CoveredAt(pools, moves, p) then moves[p] else 0]
  {
    assert (order + [p])[..|order|] == order;
  }

  lemma AppliedHalts(pools: Ledger, moves: map<PoolId, int>, order: seq<PoolId>, q: PoolId)
    requires (forall p :: p in order ==> p in moves) && order != []
    requires q in order[..|order| - 1] && !CoveredAt(pools, moves, q)
    ensures AppliedIn(pools, moves, order) == AppliedIn(pools, moves, order[..|order| - 1])
  {
  }

  /** Nothing after an uncovered pool takes effect. */
  lemma {:induction false} AppliedStops(pools: Ledger, moves: map<PoolId, int>, order: seq<PoolId>, k: nat, q: PoolId)
    requires forall p :: p in order ==> p in moves
    requires k <= |order| && q in order[..k] && !CoveredAt(pools, moves, q)
    ensures AppliedIn(pools, moves, order) == AppliedIn(pools, moves, order[..k])
  {
    hide AppliedIn, CoveredAt;
    if k == |order| {
      assert order[..k] == order;
    } else {
      var n := |order| - 1;
      assert order[..n][..k] == order[..k];
      AppliedStops(pools, moves, order[..n], k, q);
      AppliedHalts(pools, moves, order, q);
    }
  }

  lemma {:induction false} AppliedMeans(pools: Ledger, moves: map<PoolId, int>, order: seq<PoolId>)
    requires forall p :: p in order ==> p in moves
    ensures forall p :: p in AppliedIn(pools, moves, order) ==>
              p in order && AppliedIn(pools, moves, order)[p] == if CoveredAt(pools, moves, p) then moves[p] else 0
    ensures (forall p :: p in order ==> CoveredAt(pools, moves, p)) ==> AppliedIn(pools, moves, order).Keys == set p | p in order
  {
    if order != [] {
      var n := |order| - 1;
      AppliedMeans(pools, moves, order[..n]);
      assert order == order[..n] + [order[n]];
    }
  }

  /** If everything is covered, everything takes effect, whatever the order. */
  lemma AppliedAll(pools: Ledger, moves: map<PoolId, int>, order: seq<PoolId>)
    requires Covered(pools, moves) && Lists(order, moves.Keys)
    ensures AppliedIn(pools, moves, order) == moves
  {
    AppliedMeans(pools, moves, order);
  }

  /** Some pool does not hold afterwards what it held before. */
  ghost predicate Disturbed(before: Ledger, after: Ledger) {
    exists p: PoolId :: BalanceOf(after, p).units != BalanceOf(before, p).units
  }

  /** A failing batch can leave pools moved exactly when it also holds a covered move that has an effect. */
  lemma FailureLeavesTrace(pools: Ledger, moves: map<PoolId, int>)
    requires !Covered(pools, moves)
    ensures (exists order :: Lists(order, moves.Keys) && Disturbed(pools, Moved(pools, AppliedIn(pools, moves, order))))
            <==> exists p :: p in moves && CoveredAt(pools, moves, p) && Shift(BalanceOf(pools, p).units, moves[p]) != BalanceOf(pools, p).units
  {
    forall order | Lists(order, moves.Keys) && Disturbed(pools, Moved(pools, AppliedIn(pools, moves, order)))
      ensures exists p :: p in moves && CoveredAt(pools, moves, p) && Shift(BalanceOf(pools, p).units, moves[p]) != BalanceOf(pools, p).units
    {
      AppliedMeans(pools, moves, order);
      var p :| BalanceOf(Moved(pools, AppliedIn(pools, moves, order)), p).units != BalanceOf(pools, p).units;
      assert p in moves && CoveredAt(pools, moves, p);
    }
    if p :| p in moves && CoveredAt(pools, moves, p) && Shift(BalanceOf(pools, p).units, moves[p]) != BalanceOf(pools, p).units {
      var order := ListAfter([p], moves.Keys);
      FirstTakesEffect(pools, moves, order);
      assert order[0] == p;
      assert BalanceOf(Moved(pools, AppliedIn(pools, moves, order)), p).units != BalanceOf(pools, p).units;
    }
  }

  lemma {:induction false} FirstTakesEffect(pools: Ledger, moves: map<PoolId, int>, order: seq<PoolId>)
    requires (forall p :: p in order ==> p in moves) && order != [] && CoveredAt(pools, moves, order[0])
    ensures order[0] in AppliedIn(pools, moves, order) && AppliedIn(pools, moves, order)[order[0]] == moves[order[0]]
  {
    var n := |order| - 1;
    if n > 0 {
      FirstTakesEffect(pools, moves, order[..n]);
    } else {
      assert order[..n] == [];
    }
  }
}
