/**
 The bounds on faulty stake are exact: as soon as one is exceeded, two honest
 operators and one faulty operator can lead two nodes to different quorums.
 */
module Tightness {
  import opened Basics
  import opened Sums
  import opened Stake
  import opened Certificates
  import opened Agreement

  const TICK: nat := 1

  function ViewOf(x: nat): QuorumView {
    QuorumView(x, 0, 0, 0, 0, 0)
  }

  /** Operator op's certificate for the tick, carrying view x. */
  function Cert(op: AccountId, x: nat): Certificate {
    Certificate(Content(op, TICK, 0, 0, 0, ViewOf(x), 0, 0), 0)
  }

  /** Honest operators 0 and 1 sign view 0 and view 1; operator 2 signs anything. */
  predicate Signs(pk: PublicKey, c: Certificate) {
    pk == c.content.operator && (c.content.operator == 2 || c == Cert(c.content.operator, c.content.operator))
  }

  const ALL_KEYS: Keys := map[0 := 0, 1 := 1, 2 := 2]

  function Trio(h0: nat, h1: nat, b: nat): Deployment {
    Deployment(map[0 := OperatorEntry(h0, None), 1 := OperatorEntry(h1, None), 2 := OperatorEntry(b, None)],
               0, ALL_KEYS, (pk: PublicKey, c: Certificate) => Signs(pk, c), {0, 1})
  }

  lemma SumOfThree(h0: nat, h1: nat, b: nat)
    ensures Sum<AccountId>(map[0 := h0, 1 := h1, 2 := b]) == h0 + h1 + b
    ensures Sum<AccountId>(map[2 := b]) == b
    ensures Sum<AccountId>(map[0 := h0, 1 := h1]) == h0 + h1
  {
    var none: map<AccountId, int> := map[];
    assert Sum(none) == 0;
    SumUpdate(none, 0, h0);
    SumUpdate(none[0 := h0], 1, h1);
    SumUpdate(none[0 := h0][1 := h1], 2, b);
    SumUpdate(none, 2, b);
    assert none[0 := h0][1 := h1][2 := b] == map[0 := h0, 1 := h1, 2 := b];
    assert none[0 := h0][1 := h1] == map[0 := h0, 1 := h1];
    assert none[2 := b] == map[2 := b];
  }

  lemma TrioStakes(h0: nat, h1: nat, b: nat)
    ensures var d := Trio(h0, h1, b);
            && HonestUnique(d) && Registers(d, ALL_KEYS)
            && TotalStake(d.ops) == h0 + h1 + b && HonestStake(d) == h0 + h1 && FaultyStake(d) == b
  {
    hide Sum;
    var d := Trio(h0, h1, b);
    SumOfThree(h0, h1, b);
    var a: map<AccountId, int> := Active(d.ops);
    assert a == map[0 := h0, 1 := h1, 2 := b];
    assert Restrict(a, d.honest) == map[0 := h0, 1 := h1];
    assert Restrict(a, a.Keys - d.honest) == map[2 := b];
  }

  lemma RunOne(o: Observer, minStake: nat, keys: Keys, verifies: CertVerifier, a: Certificate)
    ensures Run(o, minStake, keys, verifies, [a]) == Deliver(o, minStake, keys, verifies, a).0
  {
  }

  lemma RunTwo(o: Observer, minStake: nat, keys: Keys, verifies: CertVerifier, a: Certificate, b: Certificate)
    ensures Run(o, minStake, keys, verifies, [a, b]) ==
            Deliver(Deliver(o, minStake, keys, verifies, a).0, minStake, keys, verifies, b).0
  {
    RunOne(o, minStake, keys, verifies, a);
    assert [a, b][..1] == [a];
  }

  lemma RunThree(o: Observer, minStake: nat, keys: Keys, verifies: CertVerifier, a: Certificate, b: Certificate, c: Certificate)
    ensures Run(o, minStake, keys, verifies, [a, b, c]) ==
            Deliver(Run(o, minStake, keys, verifies, [a, b]), minStake, keys, verifies, c).0
  {
    assert [a, b, c][..2] == [a, b];
  }

  /** The node that hears honest operator x and then operator 2, both for view x. */
  lemma HearsTwo(h0: nat, h1: nat, b: nat, x: nat)
    requires x < 2
    ensures var d := Trio(h0, h1, b);
            var o := Node(d, 0, ALL_KEYS, [Cert(x, x), Cert(2, x)]);
            && o.ops == d.ops && o.slashes == 0
            && (2, TICK) in o.certs && o.certs[(2, TICK)] == Cert(2, x)
            && TICK in o.tallies && ViewOf(x) in o.tallies[TICK]
            && o.tallies[TICK][ViewOf(x)] == (if x == 0 then h0 else h1) + b
  {
    var d := Trio(h0, h1, b);
    var o := Start(d, 0);
    RunTwo(o, 0, ALL_KEYS, d.verifies, Cert(x, x), Cert(2, x));
    var o1 := Deliver(o, 0, ALL_KEYS, d.verifies, Cert(x, x)).0;
    assert o1.ops == d.ops && (2, TICK) !in o1.certs;
    assert Tally(o1.tallies, TICK, ViewOf(x)) == if x == 0 then h0 else h1;
  }

  /** Operator 2 then contradicts itself and is slashed; the tally stays. */
  lemma HearsThree(h0: nat, h1: nat, b: nat, x: nat)
    requires x < 2
    ensures var d := Trio(h0, h1, b);
            var o := Node(d, 0, ALL_KEYS, [Cert(x, x), Cert(2, x), Cert(2, 1 - x)]);
            && TotalStake(o.ops) == h0 + h1
            && TICK in o.tallies && ViewOf(x) in o.tallies[TICK]
            && o.tallies[TICK][ViewOf(x)] == (if x == 0 then h0 else h1) + b
  {
    hide Run, Sum, Tallied;
    var d := Trio(h0, h1, b);
    HearsTwo(h0, h1, b, x);
    RunThree(Start(d, 0), 0, ALL_KEYS, d.verifies, Cert(x, x), Cert(2, x), Cert(2, 1 - x));
    var o := Node(d, 0, ALL_KEYS, [Cert(x, x), Cert(2, x)]);
    var o' := Deliver(o, 0, ALL_KEYS, d.verifies, Cert(2, 1 - x)).0;
    assert o' == o.(ops := SlashedOps(d.ops, 2, 0), slashes := 1);
    TotalAfterSlash(h0, h1, b);
  }

  lemma TotalAfterSlash(h0: nat, h1: nat, b: nat)
    ensures TotalStake(SlashedOps(Trio(h0, h1, b).ops, 2, 0)) == h0 + h1
  {
    hide Sum;
    SumOfThree(h0, h1, b);
    var a: map<AccountId, int> := Active(SlashedOps(Trio(h0, h1, b).ops, 2, 0));
    assert a == map[0 := h0, 1 := h1];
  }

  /** How to divide the honest stake so that each part reaches the threshold t together with the faulty stake. */
  function FirstPart(t: nat, b: nat): nat {
    if t <= b then 0 else t - b
  }

  // ----- the two exact bounds -----

  /** Two nodes of the deployment can reach quorum on different views with the common total in force at both. */
  ghost predicate CanDisagreeFixed(d: Deployment) {
    exists slashes, keys, certs, slashes', keys', certs', tick, v, v' {:trigger Quorum(Node(d, slashes, keys, certs), tick, v), Quorum(Node(d, slashes', keys', certs'), tick, v')} ::
      var o, o' := Node(d, slashes, keys, certs), Node(d, slashes', keys', certs');
      && Registers(d, keys) && Registers(d, keys') && v != v'
      && TotalStake(o.ops) == TotalStake(d.ops) == TotalStake(o'.ops)
      && Quorum(o, tick, v) && Quorum(o', tick, v')
  }

  ghost predicate CanDisagreeSlashing(d: Deployment) {
    exists slashes, keys, certs, slashes', keys', certs', tick, v, v' {:trigger Quorum(Node(d, slashes, keys, certs), tick, v), Quorum(Node(d, slashes', keys', certs'), tick, v')} ::
      && Registers(d, keys) && Registers(d, keys') && v != v'
      && Quorum(Node(d, slashes, keys, certs), tick, v) && Quorum(Node(d, slashes', keys', certs'), tick, v')
  }

  /**
   Exactly when total and faulty stake alone rule out disagreement at a common fixed total:
   below the bound no deployment can disagree, at or above it some deployment can.
   */
  lemma FixedBoundIsExact(total: nat, faulty: nat)
    requires total > 0 && faulty <= total
    ensures SafeFixed(total, faulty) <==>
            forall d :: HonestUnique(d) && TotalStake(d.ops) == total && FaultyStake(d) == faulty ==> !CanDisagreeFixed(d)
  {
    if SafeFixed(total, faulty) {
      forall d | HonestUnique(d) && TotalStake(d.ops) == total && FaultyStake(d) == faulty ensures !CanDisagreeFixed(d) {
        SafeFixedSuffices(d);
      }
    } else {
      var t := Threshold(total);
      var h0 := FirstPart(t, faulty);
      TrioDisagreesFixed(h0, total - faulty - h0, faulty);
    }
  }

  lemma SafeFixedSuffices(d: Deployment)
    requires HonestUnique(d) && TotalStake(d.ops) > 0 && SafeFixed(TotalStake(d.ops), FaultyStake(d))
    ensures !CanDisagreeFixed(d)
  {
    hide HonestUnique, TotalStake, FaultyStake, Registers, Quorum, Node;
    if CanDisagreeFixed(d) {
      var slashes, keys, certs, slashes', keys', certs', tick, v, v' {:trigger Quorum(Node(d, slashes, keys, certs), tick, v), Quorum(Node(d, slashes', keys', certs'), tick, v')} :|
        var o, o' := Node(d, slashes, keys, certs), Node(d, slashes', keys', certs');
        && Registers(d, keys) && Registers(d, keys') && v != v'
        && TotalStake(o.ops) == TotalStake(d.ops) == TotalStake(o'.ops)
        && Quorum(o, tick, v) && Quorum(o', tick, v');
      AgreementFixedStake(d, slashes, keys, certs, slashes', keys', certs', tick, v, v');
    }
  }

  lemma TrioDisagreesFixed(h0: nat, h1: nat, b: nat)
    requires var t := Threshold(h0 + h1 + b); h0 + b >= t && h1 + b >= t
    ensures var d := Trio(h0, h1, b);
            && HonestUnique(d) && TotalStake(d.ops) == h0 + h1 + b && FaultyStake(d) == b && CanDisagreeFixed(d)
  {
    hide HonestUnique, TotalStake, HonestStake, FaultyStake, Registers, Trio, Node;
    TrioStakes(h0, h1, b);
    HearsTwo(h0, h1, b, 0);
    HearsTwo(h0, h1, b, 1);
    var d := Trio(h0, h1, b);
    assert Quorum(Node(d, 0, ALL_KEYS, [Cert(0, 0), Cert(2, 0)]), TICK, ViewOf(0));
    assert Quorum(Node(d, 0, ALL_KEYS, [Cert(1, 1), Cert(2, 1)]), TICK, ViewOf(1));
  }

  /** Exactly when honest and faulty stake alone rule out disagreement while operators are being slashed. */
  lemma SlashingBoundIsExact(honest: nat, faulty: nat)
    requires honest > 0
    ensures SafeSlashing(honest, faulty) <==>
            forall d :: HonestUnique(d) && HonestStake(d) == honest && FaultyStake(d) == faulty ==> !CanDisagreeSlashing(d)
  {
    if SafeSlashing(honest, faulty) {
      forall d | HonestUnique(d) && HonestStake(d) == honest && FaultyStake(d) == faulty ensures !CanDisagreeSlashing(d) {
        SafeSlashingSuffices(d);
      }
    } else {
      var t := Threshold(honest);
      var h0 := FirstPart(t, faulty);
      TrioDisagreesSlashing(h0, honest - h0, faulty);
    }
  }

  lemma SafeSlashingSuffices(d: Deployment)
    requires HonestUnique(d) && HonestStake(d) > 0 && SafeSlashing(HonestStake(d), FaultyStake(d))
    ensures !CanDisagreeSlashing(d)
  {
    hide HonestUnique, HonestStake, FaultyStake, Registers, Quorum, Node;
    if CanDisagreeSlashing(d) {
      var slashes, keys, certs, slashes', keys', certs', tick, v, v' {:trigger Quorum(Node(d, slashes, keys, certs), tick, v), Quorum(Node(d, slashes', keys', certs'), tick, v')} :|
        && Registers(d, keys) && Registers(d, keys') && v != v'
        && Quorum(Node(d, slashes, keys, certs), tick, v) && Quorum(Node(d, slashes', keys', certs'), tick, v');
      AgreementUnderSlashing(d, slashes, keys, certs, slashes', keys', certs', tick, v, v');
    }
  }

  lemma TrioDisagreesSlashing(h0: nat, h1: nat, b: nat)
    requires var t := Threshold(h0 + h1); h0 + b >= t && h1 + b >= t
    ensures var d := Trio(h0, h1, b);
            && HonestUnique(d) && HonestStake(d) == h0 + h1 && FaultyStake(d) == b && CanDisagreeSlashing(d)
  {
    hide HonestUnique, TotalStake, HonestStake, FaultyStake, Registers, Trio, Node;
    TrioStakes(h0, h1, b);
    HearsThree(h0, h1, b, 0);
    HearsThree(h0, h1, b, 1);
    var d := Trio(h0, h1, b);
    assert Quorum(Node(d, 0, ALL_KEYS, [Cert(0, 0), Cert(2, 0), Cert(2, 1)]), TICK, ViewOf(0));
    assert Quorum(Node(d, 0, ALL_KEYS, [Cert(1, 1), Cert(2, 1), Cert(2, 0)]), TICK, ViewOf(1));
  }
}
