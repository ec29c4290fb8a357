/**
 Double-spend detection among a sender's concurrent shifts.
 */
module DoubleSpends {
  import opened Basics
  import opened VectorClocks
  import opened DagModel
  import opened Sums

  // ----- the rule -----

  function Amount(nodes: Nodes, h: TxHash): nat
    requires h in nodes
  {
    nodes[h].shift.amount
  }

  /** Earlier insertion tick first, then smaller hash. */
  predicate Before(nodes: Nodes, x: TxHash, y: TxHash)
    requires x in nodes && y in nodes
  {
    nodes[x].insertedAtTick < nodes[y].insertedAtTick || (nodes[x].insertedAtTick == nodes[y].insertedAtTick && x < y)
  }

  predicate Concurrent(nodes: Nodes, x: TxHash, y: TxHash)
    requires x in nodes && y in nodes
  {
    nodes[x].shift.vectorClock.ConcurrentWith(nodes[y].shift.vectorClock)
  }

  function SentBy(nodes: Nodes, account: AccountId): set<TxHash> {
    set h | h in nodes && nodes[h].shift.from == account
  }

  function Amounts(nodes: Nodes, s: set<TxHash>): (m: map<TxHash, int>)
    ensures NonNegative(m)
  {
    map h | h in nodes && h in s :: nodes[h].shift.amount
  }

  ghost function Total(nodes: Nodes, s: set<TxHash>): int {
    Sum(Amounts(nodes, s))
  }

  /** The sender's shifts between x and y that are concurrent with x. */
  ghost function Rivals(nodes: Nodes, x: TxHash, y: TxHash): set<TxHash>
    requires x in nodes && y in nodes
  {
    set z | z in SentBy(nodes, nodes[x].shift.from) && Before(nodes, x, z) && Before(nodes, z, y) && Concurrent(nodes, x, z)
  }

  function BalanceOf(balances: map<AccountId, nat>, account: AccountId): nat {
    if account in balances then balances[account] else 0
  }

  /** x and its concurrent successors up to and including y overdraw the sender. */
  ghost predicate FlaggedBy(nodes: Nodes, balances: map<AccountId, nat>, x: TxHash, y: TxHash)
    requires x in nodes && y in nodes
  {
    && nodes[x].shift.from == nodes[y].shift.from && Before(nodes, x, y) && Concurrent(nodes, x, y)
    && Amount(nodes, x) + Total(nodes, Rivals(nodes, x, y)) + Amount(nodes, y) > BalanceOf(balances, nodes[y].shift.from)
  }

  ghost predicate Flagged(nodes: Nodes, balances: map<AccountId, nat>, y: TxHash) {
    y in nodes && exists x :: x in nodes && FlaggedBy(nodes, balances, x, y)
  }

  // ----- what the rule guarantees -----

  lemma BeforeTotal(nodes: Nodes, x: TxHash, y: TxHash)
    requires x in nodes && y in nodes && x != y
    ensures Before(nodes, x, y) <==> !Before(nodes, y, x)
  {
  }

  lemma TotalAdd(nodes: Nodes, s: set<TxHash>, h: TxHash)
    requires h in nodes && h !in s
    ensures Total(nodes, s + {h}) == Total(nodes, s) + Amount(nodes, h)
  {
    SumUpdate(Amounts(nodes, s), h, Amount(nodes, h));
    assert Amounts(nodes, s + {h}) == Amounts(nodes, s)[h := Amount(nodes, h)];
  }

  lemma TotalMonotone(nodes: Nodes, s: set<TxHash>, t: set<TxHash>)
    requires s <= t
    ensures Total(nodes, s) <= Total(nodes, t)
  {
    SumMonotone(Amounts(nodes, s), Amounts(nodes, t));
  }

  lemma {:induction false} Extremes(nodes: Nodes, s: set<TxHash>) returns (lo: TxHash, hi: TxHash)
    requires s != {} && s <= nodes.Keys
    ensures lo in s && hi in s
    ensures forall z :: z in s ==> (z == lo || Before(nodes, lo, z)) && (z == hi || Before(nodes, z, hi))
  {
    var x :| x in s;
    if s == {x} {
      return x, x;
    }
    var lo', hi' := Extremes(nodes, s - {x});
    BeforeTotal(nodes, x, lo');
    BeforeTotal(nodes, x, hi');
    lo := if Before(nodes, x, lo') then x else lo';
    hi := if Before(nodes, hi', x) then x else hi';
    forall z | z in s ensures (z == lo || Before(nodes, lo, z)) && (z == hi || Before(nodes, z, hi)) {
      if z != x {
        assert z in s - {x};
      }
    }
  }

  /** Unflagged concurrent shifts of one sender fit its balance together. */
  lemma UnflaggedFit(nodes: Nodes, balances: map<AccountId, nat>, account: AccountId, s: set<TxHash>)
    requires |s| >= 2 && s <= SentBy(nodes, account)
    requires forall x, y :: x in s && y in s && x != y ==> Concurrent(nodes, x, y)
    requires forall y :: y in s ==> !Flagged(nodes, balances, y)
    ensures Total(nodes, s) <= BalanceOf(balances, account)
  {
    var x, y := Extremes(nodes, s);
    assert |s - {x}| >= 1;
    var z :| z in s - {x};
    BeforeTotal(nodes, x, z);
    var r := Rivals(nodes, x, y);
    assert !FlaggedBy(nodes, balances, x, y);
    assert s <= r + {x} + {y};
    TotalAdd(nodes, r, x);
    TotalAdd(nodes, r + {x}, y);
    TotalMonotone(nodes, s, r + {x} + {y});
  }

  /**
   The rule in the source's numbers: y is flagged exactly when some shift x of the same sender, concurrent with y and
   with a smaller tick or the same tick and a smaller hash, exceeds the balance together with y and with what the sender
   sent between the two concurrently with x.
   */
  lemma FlaggedMeans(nodes: Nodes, balances: map<AccountId, nat>, y: TxHash)
    ensures Flagged(nodes, balances, y) <==>
            y in nodes && exists x ::
              && x in nodes && nodes[x].shift.from == nodes[y].shift.from
              && nodes[x].shift.vectorClock.ConcurrentWith(nodes[y].shift.vectorClock)
              && (nodes[x].insertedAtTick < nodes[y].insertedAtTick || (nodes[x].insertedAtTick == nodes[y].insertedAtTick && x < y))
              && var between := set z | z in nodes && nodes[z].shift.from == nodes[y].shift.from
                   && (nodes[x].insertedAtTick < nodes[z].insertedAtTick || (nodes[x].insertedAtTick == nodes[z].insertedAtTick && x < z))
                   && (nodes[z].insertedAtTick < nodes[y].insertedAtTick || (nodes[z].insertedAtTick == nodes[y].insertedAtTick && z < y))
                   && nodes[x].shift.vectorClock.ConcurrentWith(nodes[z].shift.vectorClock);
                 nodes[x].shift.amount + Total(nodes, between) + nodes[y].shift.amount
                 > (if nodes[y].shift.from in balances then balances[nodes[y].shift.from] else 0)
  {
    hide VectorClock.ConcurrentWith, Total;
    if y in nodes {
      forall x | x in nodes && nodes[x].shift.from == nodes[y].shift.from
        ensures Rivals(nodes, x, y) == set z | z in nodes && nodes[z].shift.from == nodes[y].shift.from
                  && (nodes[x].insertedAtTick < nodes[z].insertedAtTick || (nodes[x].insertedAtTick == nodes[z].insertedAtTick && x < z))
                  && (nodes[z].insertedAtTick < nodes[y].insertedAtTick || (nodes[z].insertedAtTick == nodes[y].insertedAtTick && z < y))
                  && nodes[x].shift.vectorClock.ConcurrentWith(nodes[z].shift.vectorClock)
      {
      }
    }
  }

  /** A sender's shift with the smallest tick, and among those of that tick the smallest hash, is never flagged. */
  lemma EarliestNotFlagged(nodes: Nodes, balances: map<AccountId, nat>, y: TxHash)
    requires y in nodes
    requires forall z :: z in nodes && nodes[z].shift.from == nodes[y].shift.from ==>
               nodes[y].insertedAtTick < nodes[z].insertedAtTick || (nodes[y].insertedAtTick == nodes[z].insertedAtTick && y <= z)
    ensures !Flagged(nodes, balances, y)
  {
  }

  /** Of a sender's only two shifts, concurrent and inserted at different ticks, the later one alone can be flagged. */
  lemma LaterTickFlagged(nodes: Nodes, balances: map<AccountId, nat>, x: TxHash, y: TxHash)
    requires x in nodes && y in nodes && SentBy(nodes, nodes[x].shift.from) == {x, y}
    requires nodes[x].shift.vectorClock.ConcurrentWith(nodes[y].shift.vectorClock)
    requires nodes[x].insertedAtTick < nodes[y].insertedAtTick
    ensures !Flagged(nodes, balances, x)
    ensures Flagged(nodes, balances, y) <==>
            nodes[x].shift.amount + nodes[y].shift.amount > BalanceOf(balances, nodes[x].shift.from)
  {
    hide VectorClock.ConcurrentWith, Total;
    assert y in SentBy(nodes, nodes[x].shift.from);
    assert forall z :: z in nodes && nodes[z].shift.from == nodes[x].shift.from ==> z in SentBy(nodes, nodes[x].shift.from);
    EarliestNotFlagged(nodes, balances, x);
    assert Rivals(nodes, x, y) == {};
    TotalNone(nodes);
    assert !FlaggedBy(nodes, balances, y, y);
    assert FlaggedBy(nodes, balances, x, y) <==>
           nodes[x].shift.amount + nodes[y].shift.amount > BalanceOf(balances, nodes[x].shift.from);
  }

  /** When everything the sender ever sent fits its balance, nothing is flagged. */
  lemma FittingNotFlagged(nodes: Nodes, balances: map<AccountId, nat>, account: AccountId)
    requires Total(nodes, SentBy(nodes, account)) <= BalanceOf(balances, account)
    ensures forall y :: y in SentBy(nodes, account) ==> !Flagged(nodes, balances, y)
  {
    forall x, y | y in SentBy(nodes, account) && x in nodes ensures !FlaggedBy(nodes, balances, x, y) {
      if nodes[x].shift.from == account && Before(nodes, x, y) {
        var r := Rivals(nodes, x, y);
        TotalAdd(nodes, r, x);
        TotalAdd(nodes, r + {x}, y);
        TotalMonotone(nodes, r + {x} + {y}, SentBy(nodes, account));
      }
    }
  }

  // ----- the nested loops -----

  ghost predicate Seniority(nodes: Nodes, hashes: seq<TxHash>) {
    && (forall h :: h in hashes ==> h in nodes)
    && (forall i, j :: 0 <= i < j < |hashes| ==> Before(nodes, hashes[i], hashes[j]))
  }

  /** The sender's shifts, earliest first. */
  method SortBySeniority(nodes: Nodes, s: set<TxHash>) returns (hashes: seq<TxHash>)
    requires s <= nodes.Keys
    ensures Seniority(nodes, hashes) && SeqSet(hashes) == s
  {
    hashes := [];
    var todo := s;
    while todo != {}
      invariant todo <= s && SeqSet(hashes) == s - todo
      invariant Seniority(nodes, hashes)
      invariant forall h, z :: h in hashes && z in todo ==> Before(nodes, h, z)
      decreases todo
    {
      ghost var lo, hi := Extremes(nodes, todo);
      var h :| h in todo && forall z :: z in todo ==> z == h || Before(nodes, h, z);
      assert SeqSet(hashes + [h]) == SeqSet(hashes) + {h};
      hashes := hashes + [h];
      todo := todo - {h};
    }
  }

  /** The members of hashes strictly between positions i and j that are concurrent with the one at i. */
  ghost function Slice(nodes: Nodes, hashes: seq<TxHash>, i: nat, j: nat): set<TxHash>
    requires forall h :: h in hashes ==> h in nodes
    requires i < j <= |hashes|
  {
    set k | i < k < j && Concurrent(nodes, hashes[i], hashes[k]) :: hashes[k]
  }

  lemma SliceIsRivals(nodes: Nodes, account: AccountId, hashes: seq<TxHash>, i: nat, j: nat)
    requires Seniority(nodes, hashes) && SeqSet(hashes) == SentBy(nodes, account) && i < j < |hashes|
    ensures Slice(nodes, hashes, i, j) == Rivals(nodes, hashes[i], hashes[j])
  {
    assert hashes[i] in SeqSet(hashes);
    forall z | z in Rivals(nodes, hashes[i], hashes[j]) ensures z in Slice(nodes, hashes, i, j) {
      assert z in SeqSet(hashes);
      var k :| 0 <= k < |hashes| && hashes[k] == z;
      assert k != i && k != j;
      if k < i {
        BeforeTotal(nodes, hashes[k], hashes[i]);
      } else if k > j {
        BeforeTotal(nodes, hashes[k], hashes[j]);
      }
    }
    forall z | z in Slice(nodes, hashes, i, j) ensures z in Rivals(nodes, hashes[i], hashes[j]) {
      assert z in SeqSet(hashes);
    }
  }

  lemma SliceNext(nodes: Nodes, hashes: seq<TxHash>, i: nat, j: nat)
    requires Seniority(nodes, hashes) && i < j < |hashes|
    ensures hashes[j] !in Slice(nodes, hashes, i, j)
    ensures Slice(nodes, hashes, i, j + 1) ==
            if Concurrent(nodes, hashes[i], hashes[j]) then Slice(nodes, hashes, i, j) + {hashes[j]}
            else Slice(nodes, hashes, i, j)
  {
  }

  /** The pairs that start at position i. */
  method CheckFrom(nodes: Nodes, balances: map<AccountId, nat>, account: AccountId, hashes: seq<TxHash>, i: nat)
    returns (violations: seq<TxHash>)
    requires Seniority(nodes, hashes) && SeqSet(hashes) == SentBy(nodes, account) && i < |hashes|
    ensures forall h :: h in violations <==> h in hashes && FlaggedBy(nodes, balances, hashes[i], h)
  {
    violations := [];
    var balance := BalanceOf(balances, account);
    var spent := nodes[hashes[i]].shift.amount;
    var j := i + 1;
    TotalNone(nodes);
    assert Slice(nodes, hashes, i, i + 1) == {};
    while j < |hashes|
      invariant i < j <= |hashes|
      invariant spent == Amount(nodes, hashes[i]) + Total(nodes, Slice(nodes, hashes, i, j))
      invariant forall h :: h in violations <==> h in hashes[i + 1..j] && FlaggedBy(nodes, balances, hashes[i], h)
    {
      var h2 := hashes[j];
      PairAt(nodes, balances, account, hashes, i, j);
      if Concurrent(nodes, hashes[i], h2) {
        if spent + nodes[h2].shift.amount > balance {
          violations := violations + [h2];
        }
        spent := spent + nodes[h2].shift.amount;
      }
      j := j + 1;
    }
  }

  lemma TotalNone(nodes: Nodes)
    ensures Total(nodes, {}) == 0
  {
  }

  /** One pair of the inner loop. */
  lemma PairAt(nodes: Nodes, balances: map<AccountId, nat>, account: AccountId, hashes: seq<TxHash>, i: nat, j: nat)
    requires Seniority(nodes, hashes) && SeqSet(hashes) == SentBy(nodes, account) && i < j < |hashes|
    ensures var s := Slice(nodes, hashes, i, j);
            var c := Concurrent(nodes, hashes[i], hashes[j]);
            && (FlaggedBy(nodes, balances, hashes[i], hashes[j]) <==>
                c && Amount(nodes, hashes[i]) + Total(nodes, s) + Amount(nodes, hashes[j]) > BalanceOf(balances, account))
            && Total(nodes, Slice(nodes, hashes, i, j + 1)) == Total(nodes, s) + (if c then Amount(nodes, hashes[j]) else 0)
            && hashes[i + 1..j + 1] == hashes[i + 1..j] + [hashes[j]]
  {
    hide Slice, Rivals, Total, Concurrent;
    assert hashes[i] in SeqSet(hashes) && hashes[j] in SeqSet(hashes);
    SliceIsRivals(nodes, account, hashes, i, j);
    SliceNext(nodes, hashes, i, j);
    TotalAdd(nodes, Slice(nodes, hashes, i, j), hashes[j]);
  }

  /** All pairs of one sender. */
  method CheckSender(nodes: Nodes, balances: map<AccountId, nat>, account: AccountId) returns (violations: seq<TxHash>)
    ensures forall h :: h in violations <==> h in SentBy(nodes, account) && Flagged(nodes, balances, h)
  {
    hide FlaggedBy;
    var hashes := SortBySeniority(nodes, SentBy(nodes, account));
    violations := [];
    var i := 0;
    while i < |hashes|
      invariant 0 <= i <= |hashes|
      invariant forall h :: h in violations <==>
        h in SeqSet(hashes) && exists k :: 0 <= k < i && FlaggedBy(nodes, balances, hashes[k], h)
    {
      var more := CheckFrom(nodes, balances, account, hashes, i);
      violations := violations + more;
      i := i + 1;
    }
    forall h | h in SentBy(nodes, account)
      ensures Flagged(nodes, balances, h) <==> exists k :: 0 <= k < |hashes| && FlaggedBy(nodes, balances, hashes[k], h)
    {
      FlaggedAmong(nodes, balances, account, hashes, h);
    }
  }

  lemma FlaggedAmong(nodes: Nodes, balances: map<AccountId, nat>, account: AccountId, hashes: seq<TxHash>, h: TxHash)
    requires Seniority(nodes, hashes) && SeqSet(hashes) == SentBy(nodes, account) && h in SentBy(nodes, account)
    ensures Flagged(nodes, balances, h) <==> exists k :: 0 <= k < |hashes| && FlaggedBy(nodes, balances, hashes[k], h)
  {
    if Flagged(nodes, balances, h) {
      var x :| x in nodes && FlaggedBy(nodes, balances, x, h);
      assert x in SentBy(nodes, account);
      assert x in SeqSet(hashes);
    }
  }

  function Reports(hs: seq<TxHash>): seq<DagError> {
    seq(|hs|, i requires 0 <= i < |hs| => DoubleSpend(hs[i]))
  }

  lemma ReportsMembers(hs: seq<TxHash>)
    ensures forall e :: e in Reports(hs) <==> e.DoubleSpend? && e.hash in hs
  {
    forall e: DagError | e.DoubleSpend? && e.hash in hs ensures e in Reports(hs) {
      var i :| 0 <= i < |hs| && hs[i] == e.hash;
      assert Reports(hs)[i] == e;
    }
  }

  /** Every pass reports exactly the flagged shifts, whatever order the senders are visited in. */
  method DetectDoubleSpends(nodes: Nodes, balances: map<AccountId, nat>) returns (violations: seq<DagError>)
    ensures forall e :: e in violations <==> e.DoubleSpend? && Flagged(nodes, balances, e.hash)
  {
    hide Flagged;
    violations := [];
    var senders := set h | h in nodes :: nodes[h].shift.from;
    var todo := senders;
    while todo != {}
      invariant todo <= senders
      invariant forall e :: e in violations <==>
        e.DoubleSpend? && e.hash in nodes && nodes[e.hash].shift.from !in todo && Flagged(nodes, balances, e.hash)
      decreases todo
    {
      var account :| account in todo;
      var hs := CheckSender(nodes, balances, account);
      ReportsMembers(hs);
      violations := violations + Reports(hs);
      todo := todo - {account};
    }
    FlaggedAreNodes(nodes, balances);
  }

  lemma FlaggedAreNodes(nodes: Nodes, balances: map<AccountId, nat>)
    ensures forall h :: Flagged(nodes, balances, h) ==> h in nodes
  {
  }
}
