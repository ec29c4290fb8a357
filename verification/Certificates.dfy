/**
 The certificate tracker: one certificate per operator and tick, tallies by view.
 */
module Certificates {
  import opened Basics
  import opened Sums
  import opened Stake

  datatype QuorumView = QuorumView(
    commutativeRoot: nat, statefulRoot: nat, evmRoot: nat, balancesRoot: nat, stakeRoot: nat, rewardRoot: nat)

  /** Everything the signature covers. All fields have fixed width, so equal signing bytes are equal contents. */
  datatype Content = Content(
    operator: AccountId, tick: nat, commutativeApplied: nat, statefulApplied: nat, evmApplied: nat,
    view: QuorumView, metabolicBurned: nat, timestampNs: nat)

  datatype Certificate = Certificate(content: Content, signature: Signature)

  type Keys = map<AccountId, PublicKey>
  type CertVerifier = (PublicKey, Certificate) -> bool
  type Slot = (AccountId, nat)
  type Tallies = map<nat, map<QuorumView, nat>>

  datatype SlashingReason = InvalidSignature | UnstakedOperator | ConflictingCertificate

  datatype Outcome = Accepted | Refused(reason: SlashingReason)

  /** A certificate whose signature checks under the registered key of its operator. */
  predicate Valid(keys: Keys, verifies: CertVerifier, cert: Certificate) {
    cert.content.operator in keys && verifies(keys[cert.content.operator], cert)
  }

  /** What one node knows: its stake table, the first certificate per slot with the stake it counted, and its tallies. */
  datatype Observer = Observer(
    ops: Operators, slashes: nat, certs: map<Slot, Certificate>, weights: map<Slot, nat>, tallies: Tallies)

  function SlotOf(cert: Certificate): Slot {
    (cert.content.operator, cert.content.tick)
  }

  function Tally(tallies: Tallies, tick: nat, view: QuorumView): nat {
    if tick in tallies && view in tallies[tick] then tallies[tick][view] else 0
  }

  function Tallied(tallies: Tallies, tick: nat, view: QuorumView, stake: nat): Tallies {
    var groups := if tick in tallies then tallies[tick] else map[];
    tallies[tick := groups[view := Tally(tallies, tick, view) + stake]]
  }

  /** What delivering a certificate does to a node. */
  function Deliver(o: Observer, minStake: nat, keys: Keys, verifies: CertVerifier, cert: Certificate): (Observer, Outcome) {
    var op, slot := cert.content.operator, SlotOf(cert);
    if !Valid(keys, verifies, cert) then (o, Refused(InvalidSignature))
    else if !IsStaked(o.ops, minStake, op) then (o, Refused(UnstakedOperator))
    else if slot in o.certs then
      if o.certs[slot].content != cert.content then
        (o.(ops := SlashedOps(o.ops, op, o.slashes), slashes := o.slashes + 1), Refused(ConflictingCertificate))
      else (o, Accepted)
    else
      (Recorded(o, cert, StakeOf(o.ops, op)), Accepted)
  }

  /** Every outcome of a delivery, by the certificate's signature, the operator's own entry and what is stored for its slot. */
  lemma DeliverMeans(o: Observer, minStake: nat, keys: Keys, verifies: CertVerifier, cert: Certificate)
    ensures var op, tick := cert.content.operator, cert.content.tick;
            var signed := op in keys && verifies(keys[op], cert);
            var eligible := op in o.ops && o.ops[op].stake >= minStake && o.ops[op].slashNonce.None?;
            var (o', r) := Deliver(o, minStake, keys, verifies, cert);
            && (!signed ==> o' == o && r == Refused(InvalidSignature))
            && (signed && !eligible ==> o' == o && r == Refused(UnstakedOperator))
            && (signed && eligible && (op, tick) !in o.certs ==>
                  && r == Accepted && o'.ops == o.ops && o'.slashes == o.slashes
                  && o'.certs == o.certs[(op, tick) := cert] && o'.weights == o.weights[(op, tick) := o.ops[op].stake]
                  && forall t, v :: Tally(o'.tallies, t, v) ==
                       Tally(o.tallies, t, v) + if t == tick && v == cert.content.view then o.ops[op].stake else 0)
            && (signed && eligible && (op, tick) in o.certs && o.certs[(op, tick)].content == cert.content ==> o' == o && r == Accepted)
            && (signed && eligible && (op, tick) in o.certs && o.certs[(op, tick)].content != cert.content ==>
                  && r == Refused(ConflictingCertificate) && o'.slashes == o.slashes + 1
                  && o'.ops == o.ops[op := OperatorEntry(0, Some(o.slashes))]
                  && o'.certs == o.certs && o'.weights == o.weights && o'.tallies == o.tallies)
  {
    var op := cert.content.operator;
    forall t, v ensures Tally(Tallied(o.tallies, cert.content.tick, cert.content.view, StakeOf(o.ops, op)), t, v) ==
                        Tally(o.tallies, t, v) + if t == cert.content.tick && v == cert.content.view then StakeOf(o.ops, op) else 0
    {
      TallyAfter(o.tallies, cert.content.tick, cert.content.view, StakeOf(o.ops, op), t, v);
    }
    hide Tally, Tallied;
  }

  /** A tally changes only for an operator that was at least at the minimum stake and never slashed. */
  lemma TallyNeedsStake(o: Observer, minStake: nat, keys: Keys, verifies: CertVerifier, cert: Certificate, t: nat, v: QuorumView)
    requires Tally(Deliver(o, minStake, keys, verifies, cert).0.tallies, t, v) != Tally(o.tallies, t, v)
    ensures var op := cert.content.operator;
            op in o.ops && o.ops[op].stake >= minStake && o.ops[op].slashNonce.None?
  {
    hide Tally, Deliver;
    DeliverMeans(o, minStake, keys, verifies, cert);
  }

  // ----- what the tallies mean -----

  function Signers(certs: map<Slot, Certificate>): (r: set<AccountId>)
    ensures forall s :: s in certs ==> s.0 in r
  {
    set s | s in certs :: s.0
  }

  predicate Supports(o: Observer, tick: nat, view: QuorumView, op: AccountId) {
    (op, tick) in o.certs && (op, tick) in o.weights && o.certs[(op, tick)].content.view == view
  }

  /** The recorded weights of the operators whose certificate for the tick carries the view. */
  function Supporters(o: Observer, tick: nat, view: QuorumView): (m: map<AccountId, int>)
    ensures NonNegative(m)
    ensures forall op: AccountId :: op in m <==> Supports(o, tick, view, op)
    ensures forall op: AccountId :: op in m ==> (op, tick) in o.weights && m[op] == o.weights[(op, tick)]
  {
    assert forall op: AccountId :: Supports(o, tick, view, op) ==> (op, tick) in o.certs && (op, tick).0 in Signers(o.certs);
    map op | op in Signers(o.certs) && Supports(o, tick, view, op) :: o.weights[(op, tick)]
  }

  /** Every tally is the sum of its supporters' weights; every certificate is filed under its own slot. */
  ghost predicate TalliesAddUp(o: Observer) {
    && o.certs.Keys == o.weights.Keys
    && (forall s :: s in o.certs ==> SlotOf(o.certs[s]) == s)
    && (forall t, v :: Tally(o.tallies, t, v) == Sum(Supporters(o, t, v)))
  }

  /** Recording a first certificate for a slot. */
  function Recorded(o: Observer, cert: Certificate, stake: nat): Observer {
    var slot := SlotOf(cert);
    o.(certs := o.certs[slot := cert], weights := o.weights[slot := stake],
       tallies := Tallied(o.tallies, cert.content.tick, cert.content.view, stake))
  }

  lemma TallyAfter(tallies: Tallies, tick: nat, view: QuorumView, stake: nat, t: nat, v: QuorumView)
    ensures Tally(Tallied(tallies, tick, view, stake), t, v) == Tally(tallies, t, v) + if t == tick && v == view then stake else 0
  {
  }

  lemma SupportersAfter(o: Observer, cert: Certificate, stake: nat, t: nat, v: QuorumView)
    requires o.certs.Keys == o.weights.Keys && SlotOf(cert) !in o.certs
    ensures var s := Supporters(o, t, v);
            Supporters(Recorded(o, cert, stake), t, v) ==
            if t == cert.content.tick && v == cert.content.view then s[cert.content.operator := stake] else s
    ensures t == cert.content.tick ==> cert.content.operator !in Supporters(o, t, v)
  {
    hide Supporters, Tallied;
    var o' := Recorded(o, cert, stake);
    var l, s := Supporters(o', t, v), Supporters(o, t, v);
    var r := if t == cert.content.tick && v == cert.content.view then s[cert.content.operator := stake] else s;
    forall op: AccountId ensures op in l <==> op in r {
      assert Supports(o', t, v, op) <==> Supports(o, t, v, op) || ((op, t) == SlotOf(cert) && v == cert.content.view);
    }
    assert l.Keys == r.Keys;
    forall op | op in l ensures l[op] == r[op] {
    }
  }

  lemma RecordedKeepsTallies(o: Observer, cert: Certificate, stake: nat)
    requires TalliesAddUp(o) && SlotOf(cert) !in o.certs
    ensures TalliesAddUp(Recorded(o, cert, stake))
  {
    hide Supporters, Tally, Tallied;
    var o' := Recorded(o, cert, stake);
    forall t, v ensures Tally(o'.tallies, t, v) == Sum(Supporters(o', t, v)) {
      TallyAfter(o.tallies, cert.content.tick, cert.content.view, stake, t, v);
      SupportersAfter(o, cert, stake, t, v);
      SumUpdate(Supporters(o, t, v), cert.content.operator, stake);
    }
  }

  lemma SlashedKeepsTallies(o: Observer, ops: Operators, n: nat)
    requires TalliesAddUp(o)
    ensures TalliesAddUp(o.(ops := ops, slashes := n))
  {
    var o' := o.(ops := ops, slashes := n);
    forall t, v ensures Supporters(o', t, v) == Supporters(o, t, v) {
    }
    hide Supporters, Tally;
  }

  lemma DeliverKeepsTallies(o: Observer, minStake: nat, keys: Keys, verifies: CertVerifier, cert: Certificate)
    requires TalliesAddUp(o)
    ensures TalliesAddUp(Deliver(o, minStake, keys, verifies, cert).0)
  {
    hide TalliesAddUp, Tallied;
    var op := cert.content.operator;
    SlashedKeepsTallies(o, SlashedOps(o.ops, op, o.slashes), o.slashes + 1);
    if SlotOf(cert) !in o.certs {
      RecordedKeepsTallies(o, cert, StakeOf(o.ops, op));
    }
  }

  /** An operator supports at most one view per tick, and a second certificate for a slot changes no tally. */
  lemma OneViewPerSlot(o: Observer, tick: nat, view: QuorumView, view': QuorumView)
    requires view != view'
    ensures Supporters(o, tick, view).Keys !! Supporters(o, tick, view').Keys
  {
  }

  lemma SecondCertificateCountsNothing(o: Observer, minStake: nat, keys: Keys, verifies: CertVerifier, cert: Certificate)
    requires SlotOf(cert) in o.certs
    ensures var o' := Deliver(o, minStake, keys, verifies, cert).0;
            o'.tallies == o.tallies && o'.certs == o.certs && o'.weights == o.weights
    ensures Deliver(o, minStake, keys, verifies, cert).0.ops != o.ops ==> o.certs[SlotOf(cert)].content != cert.content
  {
  }

  function Run(o: Observer, minStake: nat, keys: Keys, verifies: CertVerifier, certs: seq<Certificate>): Observer {
    if certs == [] then o
    else
      var n := |certs| - 1;
      Deliver(Run(o, minStake, keys, verifies, certs[..n]), minStake, keys, verifies, certs[n]).0
  }

  /** Over any deliveries the tallies stay explained, and the view counted for a slot never changes. */
  lemma {:induction false} RunKeepsTallies(o: Observer, minStake: nat, keys: Keys, verifies: CertVerifier, certs: seq<Certificate>)
    requires TalliesAddUp(o)
    ensures var o' := Run(o, minStake, keys, verifies, certs);
            && TalliesAddUp(o')
            && (forall s :: s in o.certs ==> s in o'.certs && o'.certs[s] == o.certs[s] && o'.weights[s] == o.weights[s])
  {
    hide TalliesAddUp;
    if certs != [] {
      var n := |certs| - 1;
      RunKeepsTallies(o, minStake, keys, verifies, certs[..n]);
      DeliverKeepsTallies(Run(o, minStake, keys, verifies, certs[..n]), minStake, keys, verifies, certs[n]);
    }
  }

  class CertificateTracker {
    var byOperatorTick: map<Slot, Certificate>
    var byTick: Tallies
    /** The stake each stored certificate counted for. */
    ghost var weights: map<Slot, nat>

    /** This tracker together with a stake table. */
    ghost function View(table: StakeTable): Observer
      reads this, table
    {
      Observer(table.operators, table.slashCounter, byOperatorTick, weights, byTick)
    }

    constructor ()
      ensures byOperatorTick == map[] && byTick == map[] && weights == map[]
    {
      byOperatorTick, byTick, weights := map[], map[], map[];
    }

    /** Validates and registers a certificate; a conflict slashes its operator and reports the stake burned. */
    method Apply(cert: Certificate, keys: Keys, verifies: CertVerifier, table: StakeTable) returns (r: Outcome, burned: nat)
      modifies this, table
      ensures (View(table), r) == Deliver(old(View(table)), table.minStake, keys, verifies, cert)
      ensures burned == if r == Refused(ConflictingCertificate) then StakeOf(old(table.operators), cert.content.operator) else 0
    {
      var op := cert.content.operator;
      burned := 0;
      if op !in keys {
        return Refused(InvalidSignature), 0;
      }
      if !verifies(keys[op], cert) {
        return Refused(InvalidSignature), 0;
      }
      if !IsStaked(table.operators, table.minStake, op) {
        return Refused(UnstakedOperator), 0;
      }
      var slot := (op, cert.content.tick);
      if slot in byOperatorTick {
        if byOperatorTick[slot].content != cert.content {
          var _, lost := table.Slash(op);
          return Refused(ConflictingCertificate), lost;
        }
        return Accepted, 0;
      }
      var stake := StakeOf(table.operators, op);
      var view := cert.content.view;
      var groups := if cert.content.tick in byTick then byTick[cert.content.tick] else map[];
      groups := groups[view := if view in groups then groups[view] + stake else stake];
      byTick := byTick[cert.content.tick := groups];
      byOperatorTick := byOperatorTick[slot := cert];
      weights := weights[slot := stake];
      r := Accepted;
    }

    /** Any view that reached the threshold, if there is one. */
    method CheckQuorum(tick: nat, threshold: nat) returns (r: Option<(QuorumView, nat)>)
      ensures r.Some? ==> tick in byTick && r.value.0 in byTick[tick] && r.value.1 == byTick[tick][r.value.0] >= threshold
      ensures r.None? ==> forall v :: tick in byTick && v in byTick[tick] ==> byTick[tick][v] < threshold
    {
      if tick !in byTick {
        return None;
      }
      var todo := byTick[tick].Keys;
      while todo != {}
        invariant todo <= byTick[tick].Keys
        invariant forall v :: v in byTick[tick] && v !in todo ==> byTick[tick][v] < threshold
        decreases todo
      {
        var v :| v in todo;
        if byTick[tick][v] >= threshold {
          return Some((v, byTick[tick][v]));
        }
        todo := todo - {v};
      }
      r := None;
    }
  }
}
