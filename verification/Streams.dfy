/**
 Value streams that burn along the decay curve, and the engine that owns them.
 */
module Streams {
  import opened Machine
  import opened Metabolic
  import opened Sums

  type StreamId = nat

  /** A stream; its balance at any tick is fixed by the curve anchored at createdTick. */
  datatype Stream = Stream(
    id: StreamId, owner: nat, initialBalance: nat, createdTick: nat, ratePpm: nat,
    remaining: nat, lastUpdateTick: nat)
  {
    function RemainingAt(tick: nat): nat {
      Decayed(initialBalance, ratePpm, SatSub(tick, createdTick))
    }

    /** The stream after `Process(tick)`; it never regains value. */
    function Processed(tick: nat): (s: Stream)
      ensures s.remaining <= remaining
    {
      this.(remaining := Min(RemainingAt(tick), remaining), lastUpdateTick := tick)
    }

    function Burned(tick: nat): nat {
      SatSub(remaining, Processed(tick).remaining)
    }
  }

  /** Up to its creation a stream holds its initial balance, afterwards what the curve leaves of it. */
  lemma RemainingMeans(s: Stream, tick: nat)
    ensures tick <= s.createdTick ==> s.RemainingAt(tick) == s.initialBalance
    ensures tick > s.createdTick ==> s.RemainingAt(tick) == Decayed(s.initialBalance, s.ratePpm, tick - s.createdTick)
  {
  }

  /** Processing leaves the smaller of the curve's value and what was left before, and burns the difference. */
  lemma ProcessMeans(s: Stream, tick: nat)
    ensures s.Processed(tick).remaining == if s.RemainingAt(tick) < s.remaining then s.RemainingAt(tick) else s.remaining
    ensures s.Burned(tick) + s.Processed(tick).remaining == s.remaining
  {
  }

  // ----- one stream over a schedule -----

  function Run(s: Stream, ticks: seq<nat>): Stream {
    if ticks == [] then s else Run(s, ticks[..|ticks| - 1]).Processed(ticks[|ticks| - 1])
  }

  function RunBurn(s: Stream, ticks: seq<nat>): nat {
    if ticks == [] then 0
    else
      var t := ticks[..|ticks| - 1];
      RunBurn(s, t) + Run(s, t).Burned(ticks[|ticks| - 1])
  }

  /** On every schedule the burns add up to what the stream lost. */
  lemma {:induction false} RunConserves(s: Stream, ticks: seq<nat>)
    ensures RunBurn(s, ticks) + Run(s, ticks).remaining == s.remaining
  {
    if ticks == [] {
    } else {
      RunConserves(s, ticks[..|ticks| - 1]);
    }
  }

  /** What is left is the least curve value visited: order and repetition of ticks do not matter. */
  lemma {:induction false} RunIsLeast(s: Stream, ticks: seq<nat>)
    ensures var r := Run(s, ticks).remaining;
            && r <= s.remaining && (forall t :: t in ticks ==> r <= s.RemainingAt(t))
            && (r == s.remaining || exists t :: t in ticks && r == s.RemainingAt(t))
    ensures forall t :: Run(s, ticks).RemainingAt(t) == s.RemainingAt(t)
  {
    if ticks == [] {
    } else {
      var n := |ticks| - 1;
      var p := ticks[..n];
      RunIsLeast(s, p);
      hide Decayed;
      assert forall t :: t in ticks <==> t in p || t == ticks[n];
      assert ticks[n] in ticks;
    }
  }

  lemma RunOrderIrrelevant(s: Stream, ticks: seq<nat>, ticks': seq<nat>)
    requires forall t :: t in ticks <==> t in ticks'
    ensures Run(s, ticks).remaining == Run(s, ticks').remaining
    ensures RunBurn(s, ticks) == RunBurn(s, ticks')
  {
    RunIsLeast(s, ticks);
    RunIsLeast(s, ticks');
    RunConserves(s, ticks);
    RunConserves(s, ticks');
  }

  // ----- the engine -----

  function Remainders(streams: map<StreamId, Stream>): (m: map<StreamId, int>)
    ensures NonNegative(m)
  {
    map id | id in streams :: streams[id].remaining
  }

  ghost function Live(streams: map<StreamId, Stream>): int {
    Sum(Remainders(streams))
  }

  /** The streams after every one was processed once and the exhausted ones dropped. */
  function AllProcessed(streams: map<StreamId, Stream>, tick: nat): map<StreamId, Stream> {
    map id | id in streams && streams[id].Processed(tick).remaining != 0 :: streams[id].Processed(tick)
  }

  lemma LiveUpdate(streams: map<StreamId, Stream>, id: StreamId, s: Stream)
    ensures Live(streams[id := s]) == Live(streams) - Get(Remainders(streams), id) + s.remaining
  {
    SumUpdate(Remainders(streams), id, s.remaining);
    assert Remainders(streams[id := s]) == Remainders(streams)[id := s.remaining];
  }

  lemma LiveRemove(streams: map<StreamId, Stream>, id: StreamId)
    requires id in streams
    ensures Live(streams - {id}) == Live(streams) - streams[id].remaining
  {
    SumRemove(Remainders(streams), id);
    assert Remainders(streams - {id}) == Remainders(streams) - {id};
  }

  /** The streams while `todo` is still waiting to be processed. */
  ghost function Partly(streams: map<StreamId, Stream>, todo: set<StreamId>, tick: nat): map<StreamId, Stream> {
    map id | id in streams && (id in todo || streams[id].Processed(tick).remaining != 0) ::
      if id in todo then streams[id] else streams[id].Processed(tick)
  }

  lemma PartlyDone(was: map<StreamId, Stream>, tick: nat)
    ensures Partly(was, {}, tick) == AllProcessed(was, tick)
  {
  }

  /** Processing one more stream burns exactly what it loses. */
  lemma PartlyStep(was: map<StreamId, Stream>, todo: set<StreamId>, tick: nat, id: StreamId)
    requires todo <= was.Keys && id in todo
    ensures var cur := Partly(was, todo, tick);
            var s := was[id].Processed(tick);
            var next := if s.remaining != 0 then cur[id := s] else cur - {id};
            && id in cur && cur[id] == was[id]
            && Partly(was, todo - {id}, tick) == next
            && Live(cur) - Live(next) == was[id].Burned(tick)
            && Live(next) >= 0
  {
    var cur := Partly(was, todo, tick);
    var s := was[id].Processed(tick);
    var next := if s.remaining != 0 then cur[id := s] else cur - {id};
    assert id in cur && cur[id] == was[id];
    PartlyNext(was, todo, tick, id);
    hide Partly;
    LiveUpdate(cur, id, s);
    LiveRemove(cur, id);
    SumNonNegative(Remainders(next));
  }

  lemma PartlyNext(was: map<StreamId, Stream>, todo: set<StreamId>, tick: nat, id: StreamId)
    requires todo <= was.Keys && id in todo
    ensures var cur := Partly(was, todo, tick);
            var s := was[id].Processed(tick);
            Partly(was, todo - {id}, tick) == if s.remaining != 0 then cur[id := s] else cur - {id}
  {
  }

  class MetabolicDecayEngine {
    var streams: map<StreamId, Stream>
    var totalBurned: nat
    /** Value handed in through AddStream, minus what a re-used id overwrote. */
    ghost var added: int
    /** Burn reported from outside through RecordBurn. */
    ghost var recorded: nat

    /** Burn that a saturated tick total left out of the books. */
    ghost var lost: nat

    /** Every unit ever added is live, burned, or lost to saturation. */
    ghost predicate Valid()
      reads this
    {
      totalBurned + Live(streams) + lost == added + recorded
    }

    constructor ()
      ensures Valid() && streams == map[] && totalBurned == 0 && added == 0 && recorded == 0 && lost == 0
    {
      streams := map[];
      totalBurned := 0;
      added := 0;
      recorded := 0;
      lost := 0;
    }

    method AddStream(s: Stream)
      requires Valid()
      modifies this
      ensures Valid()
      ensures streams == old(streams)[s.id := s]
      ensures totalBurned == old(totalBurned) && recorded == old(recorded) && lost == old(lost)
      ensures added == old(added) + s.remaining - Get(Remainders(old(streams)), s.id)
    {
      LiveUpdate(streams, s.id, s);
      added := added + s.remaining - Get(Remainders(streams), s.id);
      streams := streams[s.id := s];
    }

    method ProcessMetabolicDegradation(tick: nat) returns (tickBurn: nat)
      requires Valid()
      modifies this
      ensures Valid()
      ensures streams == AllProcessed(old(streams), tick)
      ensures forall id :: id in streams <==> id in old(streams) && old(streams)[id].RemainingAt(tick) > 0 && old(streams)[id].remaining > 0
      ensures var loss := Live(old(streams)) - Live(streams);
              loss >= 0 && tickBurn == Sat(loss) && lost == old(lost) + loss - tickBurn
      ensures totalBurned == old(totalBurned) + tickBurn
      ensures added == old(added) && recorded == old(recorded)
    {
      ghost var was := streams;
      tickBurn := 0;
      var todo := streams.Keys;
      assert Partly(was, todo, tick) == was;
      SumNonNegative(Remainders(streams));
      hide Live, Remainders, Partly;
      while todo != {}
        invariant todo <= was.Keys
        invariant streams == Partly(was, todo, tick)
        invariant Live(was) >= Live(streams) && tickBurn == Sat(Live(was) - Live(streams))
        invariant totalBurned == old(totalBurned) && added == old(added) && recorded == old(recorded) && lost == old(lost)
        decreases todo
      {
        var id :| id in todo;
        PartlyStep(was, todo, tick, id);
        var s := streams[id].Processed(tick);
        var burned := streams[id].Burned(tick);
        tickBurn := SatAdd(tickBurn, burned);
        streams := if s.remaining != 0 then streams[id := s] else streams - {id};
        todo := todo - {id};
      }
      PartlyDone(was, tick);
      totalBurned := totalBurned + tickBurn;
      lost := lost + (Live(was) - Live(streams) - tickBurn);
    }

    /** Burn computed elsewhere is added to the running total. */
    method RecordBurn(amount: nat)
      requires Valid()
      modifies this
      ensures Valid()
      ensures totalBurned == old(totalBurned) + amount && recorded == old(recorded) + amount
      ensures streams == old(streams) && added == old(added) && lost == old(lost)
    {
      totalBurned := totalBurned + amount;
      recorded := recorded + amount;
    }
  }
}
