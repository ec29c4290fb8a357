/**
 A light client: the same tracker and stake table, plus the highest tick seen to reach quorum.
 */
module LightClients {
  import opened Basics
  import opened Stake
  import opened Certificates
  import opened Agreement

  class LightClient {
    const stakeTable: StakeTable
    const tracker: CertificateTracker
    const verifies: CertVerifier
    var keyRegistry: Keys
    var latestFinalizedTick: nat
    /** The ticks at which a quorum was seen. */
    ghost var finalized: set<nat>

    /** The recorded tick is the highest one seen to reach quorum, or 0 before any. */
    ghost predicate Valid()
      reads this
    {
      && (forall t :: t in finalized ==> t <= latestFinalizedTick)
      && (latestFinalizedTick in finalized || (finalized == {} && latestFinalizedTick == 0))
    }

    constructor (stakeTable: StakeTable, tracker: CertificateTracker, verifies: CertVerifier)
      ensures Valid() && finalized == {} && keyRegistry == map[]
      ensures this.stakeTable == stakeTable && this.tracker == tracker && this.verifies == verifies
    {
      this.stakeTable, this.tracker, this.verifies := stakeTable, tracker, verifies;
      keyRegistry, latestFinalizedTick, finalized := map[], 0, {};
    }

    method RegisterKey(account: AccountId, publicKey: PublicKey)
      modifies this`keyRegistry
      ensures keyRegistry == old(keyRegistry)[account := publicKey]
    {
      keyRegistry := keyRegistry[account := publicKey];
    }

    /** Delivers a certificate exactly as a full node does, then looks for a quorum on its tick. */
    method IngestCertificate(cert: Certificate) returns (r: Result<Option<QuorumView>, SlashingReason>)
      requires Valid()
      modifies this`latestFinalizedTick, this`finalized, tracker, stakeTable
      ensures Valid()
      ensures tracker.View(stakeTable) == Deliver(old(tracker.View(stakeTable)), stakeTable.minStake, keyRegistry, verifies, cert).0
      ensures match Deliver(old(tracker.View(stakeTable)), stakeTable.minStake, keyRegistry, verifies, cert).1
              case Refused(reason) => r == Err(reason)
              case Accepted =>
                && r.Ok?
                && (r.value.Some? ==> Quorum(tracker.View(stakeTable), cert.content.tick, r.value.value))
                && (r.value.None? ==> forall v :: !Quorum(tracker.View(stakeTable), cert.content.tick, v))
      ensures finalized == old(finalized) + if r.Ok? && r.value.Some? then {cert.content.tick} else {}
    {
      var outcome, _ := tracker.Apply(cert, keyRegistry, verifies, stakeTable);
      if outcome.Refused? {
        return Err(outcome.reason);
      }
      var tick := cert.content.tick;
      var threshold := stakeTable.QuorumThreshold();
      var quorum := tracker.CheckQuorum(tick, threshold);
      if quorum.None? {
        return Ok(None);
      }
      latestFinalizedTick := if latestFinalizedTick >= tick then latestFinalizedTick else tick;
      finalized := finalized + {tick};
      r := Ok(Some(quorum.value.0));
    }
  }
}
