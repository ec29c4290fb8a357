/**
 Agreement between nodes: each has its own tracker and stake table, certificates
 arrive in any order and any number of times, and faulty operators equivocate.
 */
module Agreement {
  import opened Basics
  import opened Sums
  import opened Stake
  import opened Certificates

  /** The operators all nodes start from, their genuine keys, and which of them are honest. */
  datatype Deployment = Deployment(
    ops: Operators, minStake: nat, genuine: Keys, verifies: CertVerifier, honest: set<AccountId>)

  /** Honest operators sign at most one certificate content per tick, and only they can sign under their keys. */
  ghost predicate HonestUnique(d: Deployment) {
    forall c, c' |
      && Valid(d.genuine, d.verifies, c) && Valid(d.genuine, d.verifies, c')
      && SlotOf(c) == SlotOf(c') && c.content.operator in d.honest
      :: c.content == c'.content
  }

  /** A node's key registry may lack operators but holds no false key. */
  ghost predicate Registers(d: Deployment, keys: Keys) {
    forall op :: op in keys ==> op in d.genuine && keys[op] == d.genuine[op]
  }

  ghost function HonestStake(d: Deployment): nat {
    var m: map<AccountId, int> := Restrict(Active(d.ops), d.honest);
    SumNonNegative(m);
    Sum(m)
  }

  ghost function FaultyStake(d: Deployment): nat {
    var m: map<AccountId, int> := Restrict(Active(d.ops), Active(d.ops).Keys - d.honest);
    SumNonNegative(m);
    Sum(m)
  }

  /** A node that has seen nothing yet. */
  function Start(d: Deployment, slashes: nat): Observer {
    Observer(d.ops, slashes, map[], map[], map[])
  }

  /** A node after any deliveries. */
  function Node(d: Deployment, slashes: nat, keys: Keys, certs: seq<Certificate>): Observer {
    Run(Start(d, slashes), d.minStake, keys, d.verifies, certs)
  }

  /** The view has enough support at this node, measured against the node's own present threshold. */
  ghost predicate Quorum(o: Observer, tick: nat, view: QuorumView) {
    && tick in o.tallies && view in o.tallies[tick]
    && o.tallies[tick][view] >= Threshold(TotalStake(o.ops))
  }

  lemma StakesSplit(d: Deployment)
    ensures TotalStake(d.ops) == HonestStake(d) + FaultyStake(d)
  {
    var a: map<AccountId, int> := Active(d.ops);
    var h, f := Restrict(a, d.honest), Restrict(a, a.Keys - d.honest);
    SumDisjoint(h, f);
    assert h + f == a;
  }

  // ----- what every node keeps -----

  /** Each stored certificate is valid and weighs its operator's original stake. */
  ghost predicate CertsSound(d: Deployment, o: Observer) {
    && o.certs.Keys == o.weights.Keys
    && forall s :: s in o.certs ==>
      && SlotOf(o.certs[s]) == s && Valid(d.genuine, d.verifies, o.certs[s])
      && s.0 in Active(d.ops) && o.weights[s] == Active(d.ops)[s.0]
  }

  /** Operators not slashed here are as they were in the deployment, and no honest one was slashed. */
  ghost predicate OpsSound(d: Deployment, o: Observer) {
    && (forall op :: op in o.ops && o.ops[op].slashNonce.None? ==> op in d.ops && d.ops[op] == o.ops[op])
    && (forall op :: op in d.honest && op in Active(d.ops) ==> op in o.ops && o.ops[op] == d.ops[op])
  }

  lemma ValidGenuine(d: Deployment, keys: Keys, cert: Certificate)
    requires Registers(d, keys) && Valid(keys, d.verifies, cert)
    ensures Valid(d.genuine, d.verifies, cert)
  {
  }

  lemma DeliverSound(d: Deployment, o: Observer, keys: Keys, cert: Certificate)
    requires HonestUnique(d) && Registers(d, keys) && CertsSound(d, o) && OpsSound(d, o)
    ensures var o' := Deliver(o, d.minStake, keys, d.verifies, cert).0;
            CertsSound(d, o') && OpsSound(d, o')
  {
    if Valid(keys, d.verifies, cert) && IsStaked(o.ops, d.minStake, cert.content.operator) {
      ValidGenuine(d, keys, cert);
      var slot := SlotOf(cert);
      hide Tallied;
      if slot in o.certs {
        assert SlotOf(o.certs[slot]) == slot;
        assert o.certs[slot].content != cert.content ==> cert.content.operator !in d.honest;
      }
    }
  }

  lemma {:induction false} NodeSound(d: Deployment, slashes: nat, keys: Keys, certs: seq<Certificate>)
    requires HonestUnique(d) && Registers(d, keys)
    ensures var o := Node(d, slashes, keys, certs);
            CertsSound(d, o) && OpsSound(d, o) && TalliesAddUp(o)
  {
    hide CertsSound, OpsSound, TalliesAddUp, HonestUnique, Registers;
    if certs == [] {
      StartSound(d, slashes);
    } else {
      var n := |certs| - 1;
      NodeSound(d, slashes, keys, certs[..n]);
      var o := Node(d, slashes, keys, certs[..n]);
      DeliverSound(d, o, keys, certs[n]);
      DeliverKeepsTallies(o, d.minStake, keys, d.verifies, certs[n]);
    }
  }

  lemma StartSound(d: Deployment, slashes: nat)
    ensures var o := Start(d, slashes);
            CertsSound(d, o) && OpsSound(d, o) && TalliesAddUp(o)
  {
  }

  // ----- counting the support of two views -----

  /** The support of a view, as stake of the deployment. */
  ghost function Backers(o: Observer, tick: nat, view: QuorumView): set<AccountId> {
    Supporters(o, tick, view).Keys
  }

  lemma SupportIsStake(d: Deployment, o: Observer, tick: nat, view: QuorumView)
    requires CertsSound(d, o)
    ensures Supporters(o, tick, view) == Restrict(Active(d.ops), Backers(o, tick, view))
  {
    var s := Supporters(o, tick, view);
    forall op | op in s ensures op in Active(d.ops) && s[op] == Active(d.ops)[op] {
      assert (op, tick) in o.certs;
    }
    assert s.Keys == Restrict(Active(d.ops), s.Keys).Keys;
  }

  /** No honest operator backs two views of one tick, not even at different nodes. */
  lemma HonestBackOnce(d: Deployment, o: Observer, o': Observer, tick: nat, v: QuorumView, v': QuorumView)
    requires HonestUnique(d) && CertsSound(d, o) && CertsSound(d, o') && v != v'
    ensures (Backers(o, tick, v) * d.honest) !! (Backers(o', tick, v') * d.honest)
  {
  }

  /** Stake of a set, split into honest and faulty; the faulty part is at most all faulty stake. */
  lemma StakeOfBackers(d: Deployment, s: set<AccountId>)
    ensures Sum(Restrict(Active(d.ops), s)) <= Sum(Restrict(Active(d.ops), s * d.honest)) + FaultyStake(d)
  {
    var a: map<AccountId, int> := Active(d.ops);
    var h, f, b := Restrict(a, s * d.honest), Restrict(a, s - d.honest), Restrict(a, a.Keys - d.honest);
    SumDisjoint(h, f);
    assert h + f == Restrict(a, s);
    SumMonotone(f, b);
  }

  lemma DisjointHonest(d: Deployment, s: set<AccountId>, t: set<AccountId>)
    requires (s * d.honest) !! (t * d.honest)
    ensures Sum(Restrict(Active(d.ops), s * d.honest)) + Sum(Restrict(Active(d.ops), t * d.honest)) <= HonestStake(d)
  {
    var a: map<AccountId, int> := Active(d.ops);
    var m, n := Restrict(a, s * d.honest), Restrict(a, t * d.honest);
    SumDisjoint(m, n);
    SumMonotone(m + n, Restrict(a, d.honest));
  }

  /** Support for two different views of a tick, anywhere, is bounded by honest stake plus twice the faulty stake. */
  lemma TwoViewsBound(d: Deployment, o: Observer, o': Observer, tick: nat, v: QuorumView, v': QuorumView)
    requires HonestUnique(d) && v != v'
    requires CertsSound(d, o) && TalliesAddUp(o) && CertsSound(d, o') && TalliesAddUp(o')
    ensures Tally(o.tallies, tick, v) + Tally(o'.tallies, tick, v') <= HonestStake(d) + 2 * FaultyStake(d)
  {
    hide HonestUnique, CertsSound, Supporters, HonestStake, FaultyStake, Sum, Active;
    var s, t := Backers(o, tick, v), Backers(o', tick, v');
    SupportIsStake(d, o, tick, v);
    SupportIsStake(d, o', tick, v');
    HonestBackOnce(d, o, o', tick, v, v');
    StakeOfBackers(d, s);
    StakeOfBackers(d, t);
    DisjointHonest(d, s, t);
    assert Tally(o.tallies, tick, v) == Sum(Supporters(o, tick, v));
    assert Tally(o'.tallies, tick, v') == Sum(Supporters(o', tick, v'));
  }

  /** Slashing lowers a node's total, but never below the honest stake. */
  lemma TotalBetween(d: Deployment, o: Observer)
    requires OpsSound(d, o)
    ensures HonestStake(d) <= TotalStake(o.ops) <= TotalStake(d.ops)
  {
    SumMonotone(Restrict(Active(d.ops), d.honest), Active(o.ops));
    SumMonotone(Active(o.ops), Active(d.ops));
  }

  // ----- agreement -----

  /** Faulty stake small enough for a total that no slash has lowered. */
  predicate SafeFixed(total: nat, faulty: nat) {
    faulty < total / 3 + 2 - total % 3
  }

  /** Faulty stake small enough even when every faulty operator may be slashed meanwhile. */
  predicate SafeSlashing(honest: nat, faulty: nat) {
    honest / 3 + 2 > honest % 3 + 2 * faulty
  }

  /**
   With the common total still in force at both nodes, no two nodes, full or light, ever reach
   quorum on different views of a tick.
   */
  lemma AgreementFixedStake(d: Deployment, slashes: nat, keys: Keys, certs: seq<Certificate>,
                            slashes': nat, keys': Keys, certs': seq<Certificate>, tick: nat, v: QuorumView, v': QuorumView)
    requires HonestUnique(d) && Registers(d, keys) && Registers(d, keys')
    requires TotalStake(d.ops) > 0 && SafeFixed(TotalStake(d.ops), FaultyStake(d))
    requires var o, o' := Node(d, slashes, keys, certs), Node(d, slashes', keys', certs');
             && TotalStake(o.ops) == TotalStake(d.ops) == TotalStake(o'.ops)
             && Quorum(o, tick, v) && Quorum(o', tick, v')
    ensures v == v'
  {
    hide HonestUnique, Registers, TotalStake, HonestStake, FaultyStake, CertsSound, OpsSound, TalliesAddUp, Run;
    var o, o' := Node(d, slashes, keys, certs), Node(d, slashes', keys', certs');
    NodeSound(d, slashes, keys, certs);
    NodeSound(d, slashes', keys', certs');
    StakesSplit(d);
    if v != v' {
      TwoViewsBound(d, o, o', tick, v, v');
      assert false;
    }
  }

  /** Agreement survives slashing in between: thresholds drop, recorded tallies stay. */
  lemma AgreementUnderSlashing(d: Deployment, slashes: nat, keys: Keys, certs: seq<Certificate>,
                               slashes': nat, keys': Keys, certs': seq<Certificate>, tick: nat, v: QuorumView, v': QuorumView)
    requires HonestUnique(d) && Registers(d, keys) && Registers(d, keys')
    requires HonestStake(d) > 0 && SafeSlashing(HonestStake(d), FaultyStake(d))
    requires Quorum(Node(d, slashes, keys, certs), tick, v) && Quorum(Node(d, slashes', keys', certs'), tick, v')
    ensures v == v'
  {
    hide HonestUnique, Registers, TotalStake, HonestStake, FaultyStake, CertsSound, OpsSound, TalliesAddUp, Run;
    var o, o' := Node(d, slashes, keys, certs), Node(d, slashes', keys', certs');
    NodeSound(d, slashes, keys, certs);
    NodeSound(d, slashes', keys', certs');
    TotalBetween(d, o);
    TotalBetween(d, o');
    ThresholdMonotone(HonestStake(d), TotalStake(o.ops));
    ThresholdMonotone(HonestStake(d), TotalStake(o'.ops));
    if v != v' {
      TwoViewsBound(d, o, o', tick, v, v');
      assert false;
    }
  }

  lemma ThresholdMonotone(a: nat, b: nat)
    requires a <= b
    ensures Threshold(a) <= Threshold(b)
  {
  }
}
