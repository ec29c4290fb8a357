/**
 The stake-table and reward-pool commitments: how entries are encoded, and what
 their Merkle roots therefore bind.
 */
module Roots {
  import opened Basics
  import opened Machine
  import opened Arithmetic
  import opened Merkle
  import opened Stake

  // ----- fixed-width integers -----

  /** Big-endian bytes of n in the given width. */
  function BigEndian(n: nat, width: nat): (b: Bytes)
    ensures |b| == width
  {
    if width == 0 then [] else BigEndian(n / 256, width - 1) + [n % 256]
  }

  lemma {:induction false} BigEndianInjective(a: nat, b: nat, width: nat)
    requires a < Two(8 * width) && b < Two(8 * width)
    requires BigEndian(a, width) == BigEndian(b, width)
    ensures a == b
  {
    if width > 0 {
      var x, y := BigEndian(a / 256, width - 1), BigEndian(b / 256, width - 1);
      assert BigEndian(a, width)[..width - 1] == x && BigEndian(b, width)[..width - 1] == y;
      assert BigEndian(a, width)[width - 1] == a % 256 && BigEndian(b, width)[width - 1] == b % 256;
      EightBits(8 * (width - 1));
      BigEndianInjective(a / 256, b / 256, width - 1);
    }
  }

  /** Byte i from the left holds the digit of weight 256^(width-1-i). */
  lemma {:induction false} BigEndianBytes(n: nat, width: nat, i: nat)
    requires i < width
    ensures BigEndian(n, width)[i] == n / Two(8 * (width - 1 - i)) % 256
    decreases width
  {
    if i < width - 1 {
      BigEndianBytes(n / 256, width - 1, i);
      EightBits(8 * (width - 2 - i));
      DivTwice(n, 256, Two(8 * (width - 2 - i)));
    } else {
      assert Two(0) == 1;
    }
  }

  lemma DivTwice(n: nat, a: nat, b: nat)
    requires a > 0 && b > 0
    ensures a * b > 0 && n / a / b == n / (a * b)
  {
    var q := n / a / b;
    DivBounds(n, a);
    DivBounds(n / a, b);
    MulMonotone(1, b, a);
    MulMonotone(q * b, n / a, a);
    MulMonotone(n / a + 1, q * b + b, a);
    MulAssociates(a, b, q);
    MulAssociates(a, b, q + 1);
    DivUnique(n, a * b, q);
  }

  lemma EightBits(k: nat)
    ensures Two(k + 8) == 256 * Two(k)
  {
    TwoAdds(8, k);
    assert Two(8) == 256;
  }

  /** Identifiers are 32 bytes wide, amounts 16. */
  predicate IsId(n: nat) {
    n < Two(8 * 32)
  }

  predicate IsAmount(n: nat) {
    n < Two(8 * 16)
  }

  /** Within a set of items the key determines the item. */
  ghost predicate KeyedOnce(s: set<Item>) {
    forall x, y :: x in s && y in s && x.0 == y.0 ==> x == y
  }

  /** The concatenated bytes, which are what a leaf hashes, determine the item. */
  ghost predicate ReadableSet(s: set<Item>) {
    forall x, y :: x in s && y in s && x.0 + x.1 == y.0 + y.1 ==> x == y
  }

  lemma ListedKeysDiffer(items: seq<Item>, s: set<Item>)
    requires Lists(items, s) && KeyedOnce(s)
    ensures DistinctKeys(items)
  {
  }

  /** The same root exactly for the same set of items. */
  lemma RootDecidesSet(items: seq<Item>, s: set<Item>, items': seq<Item>, s': set<Item>)
    requires Lists(items, s) && Lists(items', s') && KeyedOnce(s) && KeyedOnce(s')
    requires ReadableSet(s + s')
    ensures RootOf(items) == RootOf(items') <==> s == s'
  {
    ListedKeysDiffer(items, s);
    ListedKeysDiffer(items', s');
    if RootOf(items) == RootOf(items') {
      RootBinds(items, items');
      assert forall x :: x in s <==> x in s';
    }
    if s == s' {
      RootIgnoresOrder(items, items');
    }
  }

  lemma SplitFixed(a: Bytes, b: Bytes, c: Bytes, d: Bytes)
    requires a + b == c + d && |a| == |c|
    ensures a == c && b == d
  {
    assert a == (a + b)[..|a|] && c == (c + d)[..|c|];
    assert b == (a + b)[|a|..] && d == (c + d)[|c|..];
  }

  // ----- the stake table -----

  function StakeItem(op: AccountId, e: OperatorEntry): Item {
    (BigEndian(op, 32), BigEndian(e.stake, 16) + [if e.slashNonce.Some? then 1 else 0])
  }

  /** The entry's bytes: 32 of the identifier, 16 of the stake, and one telling whether the operator was slashed. */
  lemma StakeItemLayout(op: AccountId, e: OperatorEntry, i: nat)
    ensures var (key, value) := StakeItem(op, e);
            && |key| == 32 && |value| == 17
            && (i < 32 ==> key[i] == op / Two(8 * (31 - i)) % 256)
            && (i < 16 ==> value[i] == e.stake / Two(8 * (15 - i)) % 256)
            && value[16] == if e.slashNonce == None then 0 else 1
  {
    hide Two, BigEndian;
    if i < 32 {
      BigEndianBytes(op, 32, i);
    }
    if i < 16 {
      BigEndianBytes(e.stake, 16, i);
    }
  }

  ghost function StakeItems(ops: Operators): set<Item> {
    set op | op in ops :: StakeItem(op, ops[op])
  }

  /** The part of a table its root commits to: the stake and whether the operator was slashed, not the slash nonce. */
  ghost function Committed(ops: Operators): map<AccountId, (nat, bool)> {
    map op | op in ops :: (ops[op].stake, ops[op].slashNonce.Some?)
  }

  ghost predicate FitsTable(ops: Operators) {
    forall op :: op in ops ==> IsId(op) && IsAmount(ops[op].stake)
  }

  lemma StakeItemReads(op: AccountId, e: OperatorEntry, op': AccountId, e': OperatorEntry)
    requires IsId(op) && IsAmount(e.stake) && IsId(op') && IsAmount(e'.stake)
    ensures StakeItem(op, e).0 == StakeItem(op', e').0 ==> op == op'
    ensures StakeItem(op, e) == StakeItem(op', e') ==> e.stake == e'.stake && e.slashNonce.Some? == e'.slashNonce.Some?
    ensures StakeItem(op, e).0 + StakeItem(op, e).1 == StakeItem(op', e').0 + StakeItem(op', e').1 ==> StakeItem(op, e) == StakeItem(op', e')
  {
    hide Two;
    var x, y := StakeItem(op, e), StakeItem(op', e');
    if x.0 == y.0 {
      BigEndianInjective(op, op', 32);
    }
    if x == y {
      SplitFixed(BigEndian(e.stake, 16), [if e.slashNonce.Some? then 1 else 0], BigEndian(e'.stake, 16), [if e'.slashNonce.Some? then 1 else 0]);
      BigEndianInjective(e.stake, e'.stake, 16);
    }
    if x.0 + x.1 == y.0 + y.1 {
      SplitFixed(x.0, x.1, y.0, y.1);
    }
  }

  /** Equal stake roots, however the tables are iterated, exactly for equal committed tables. */
  lemma StakeRootBinds(ops: Operators, items: seq<Item>, ops': Operators, items': seq<Item>)
    requires FitsTable(ops) && FitsTable(ops') && Lists(items, StakeItems(ops)) && Lists(items', StakeItems(ops'))
    ensures RootOf(items) == RootOf(items') <==> Committed(ops) == Committed(ops')
  {
    hide StakeItem, IsId, IsAmount, RootOf;
    forall a: AccountId, e: OperatorEntry, b: AccountId, f: OperatorEntry | IsId(a) && IsAmount(e.stake) && IsId(b) && IsAmount(f.stake)
      ensures StakeItem(a, e).0 == StakeItem(b, f).0 ==> a == b
      ensures StakeItem(a, e).0 + StakeItem(a, e).1 == StakeItem(b, f).0 + StakeItem(b, f).1 ==> StakeItem(a, e) == StakeItem(b, f)
    {
      StakeItemReads(a, e, b, f);
    }
    RootDecidesSet(items, StakeItems(ops), items', StakeItems(ops'));
    StakeItemsDecide(ops, ops');
  }

  lemma StakeItemsDecide(ops: Operators, ops': Operators)
    requires FitsTable(ops) && FitsTable(ops')
    ensures StakeItems(ops) == StakeItems(ops') <==> Committed(ops) == Committed(ops')
  {
    if StakeItems(ops) == StakeItems(ops') {
      StakeItemsInclude(ops, ops');
      StakeItemsInclude(ops', ops);
      assert Committed(ops).Keys == Committed(ops').Keys;
    }
    if Committed(ops) == Committed(ops') {
      CommittedIncludes(ops, ops');
      CommittedIncludes(ops', ops);
    }
  }

  lemma StakeItemsInclude(ops: Operators, ops': Operators)
    requires FitsTable(ops) && FitsTable(ops') && StakeItems(ops) <= StakeItems(ops')
    ensures forall op :: op in ops ==> op in ops' && ops[op].stake == ops'[op].stake && ops[op].slashNonce.Some? == ops'[op].slashNonce.Some?
  {
    forall op | op in ops
      ensures op in ops' && ops[op].stake == ops'[op].stake && ops[op].slashNonce.Some? == ops'[op].slashNonce.Some?
    {
      var x := StakeItem(op, ops[op]);
      assert x in StakeItems(ops) && x in StakeItems(ops');
      hide StakeItem, IsId, IsAmount;
      var op' :| op' in ops' && StakeItem(op', ops'[op']) == x;
      StakeItemReads(op, ops[op], op', ops'[op']);
    }
  }

  lemma CommittedIncludes(ops: Operators, ops': Operators)
    requires Committed(ops) == Committed(ops')
    ensures StakeItems(ops) <= StakeItems(ops')
  {
    forall x | x in StakeItems(ops) ensures x in StakeItems(ops') {
      var op :| op in ops && StakeItem(op, ops[op]) == x;
      assert op in Committed(ops) && op in Committed(ops');
      assert Committed(ops)[op] == Committed(ops')[op];
      assert StakeItem(op, ops'[op]) == x;
    }
  }

  // ----- the reward pool -----

  const LP_PREFIX: Bytes := [0x6c, 0x70, 0x3a]

  function RewardItem(op: AccountId, amount: nat): Item {
    (BigEndian(op, 32), BigEndian(amount, 16))
  }

  function LpItem(pool: PoolId, amount: nat): Item {
    (LP_PREFIX + BigEndian(pool, 32), BigEndian(amount, 16))
  }

  /** Both kinds of entries hold 16 bytes of the amount under 32 bytes of the key, pools after the letters "lp:". */
  lemma RewardItemLayout(k: nat, amount: nat, i: nat)
    ensures |RewardItem(k, amount).0| == 32 && |LpItem(k, amount).0| == 35
    ensures LpItem(k, amount).0[..3] == [108, 112, 58] && LpItem(k, amount).0[3..] == RewardItem(k, amount).0
    ensures i < 32 ==> RewardItem(k, amount).0[i] == k / Two(8 * (31 - i)) % 256
    ensures RewardItem(k, amount).1 == LpItem(k, amount).1 && |RewardItem(k, amount).1| == 16
    ensures i < 16 ==> RewardItem(k, amount).1[i] == amount / Two(8 * (15 - i)) % 256
  {
    hide Two, BigEndian;
    if i < 32 {
      BigEndianBytes(k, 32, i);
    }
    if i < 16 {
      BigEndianBytes(amount, 16, i);
    }
  }

  ghost function RewardItems(rewards: map<AccountId, nat>, lp: map<PoolId, nat>): set<Item> {
    (set op | op in rewards :: RewardItem(op, rewards[op])) + (set p | p in lp :: LpItem(p, lp[p]))
  }

  ghost predicate FitsRewards(rewards: map<nat, nat>) {
    forall k :: k in rewards ==> IsId(k) && IsAmount(rewards[k])
  }

  /** An entry of either kind. */
  function Encode(lp: bool, k: nat, amount: nat): Item {
    if lp then LpItem(k, amount) else RewardItem(k, amount)
  }

  /** Kind, key and amount can be read back from an encoded entry. */
  lemma EncodeReads(lp: bool, k: nat, v: nat, lp': bool, k': nat, v': nat)
    requires IsId(k) && IsAmount(v) && IsId(k') && IsAmount(v')
    ensures var x, y := Encode(lp, k, v), Encode(lp', k', v');
            && (x.0 == y.0 ==> lp == lp' && k == k')
            && (x == y ==> v == v')
            && (x.0 + x.1 == y.0 + y.1 ==> x == y)
  {
    hide Two;
    var x, y := Encode(lp, k, v), Encode(lp', k', v');
    if x.0 == y.0 {
      if lp && lp' {
        SplitFixed(LP_PREFIX, BigEndian(k, 32), LP_PREFIX, BigEndian(k', 32));
      }
      BigEndianInjective(k, k', 32);
    }
    if x == y {
      BigEndianInjective(v, v', 16);
    }
    if x.0 + x.1 == y.0 + y.1 {
      assert |x.0 + x.1| == |x.0| + 16 && |y.0 + y.1| == |y.0| + 16;
      SplitFixed(x.0, x.1, y.0, y.1);
    }
  }

  /** Reading the entries back from the items of another pool. */
  lemma RewardItemsInclude(rewards: map<AccountId, nat>, lp: map<PoolId, nat>, rewards': map<AccountId, nat>, lp': map<PoolId, nat>)
    requires FitsRewards(rewards) && FitsRewards(lp) && FitsRewards(rewards') && FitsRewards(lp')
    requires RewardItems(rewards, lp) <= RewardItems(rewards', lp')
    ensures forall k :: k in rewards ==> k in rewards' && rewards[k] == rewards'[k]
    ensures forall k :: k in lp ==> k in lp' && lp[k] == lp'[k]
  {
    forall k | k in rewards ensures k in rewards' && rewards[k] == rewards'[k] {
      assert RewardItem(k, rewards[k]) in RewardItems(rewards, lp);
      FindEntry(rewards', lp', false, k, rewards[k]);
    }
    forall k | k in lp ensures k in lp' && lp[k] == lp'[k] {
      assert LpItem(k, lp[k]) in RewardItems(rewards, lp);
      FindEntry(rewards', lp', true, k, lp[k]);
    }
  }

  lemma FindEntry(rewards: map<AccountId, nat>, lp: map<PoolId, nat>, isLp: bool, k: nat, v: nat)
    requires FitsRewards(rewards) && FitsRewards(lp) && IsId(k) && IsAmount(v)
    requires Encode(isLp, k, v) in RewardItems(rewards, lp)
    ensures if isLp then k in lp && lp[k] == v else k in rewards && rewards[k] == v
  {
    hide RewardItem, LpItem, IsId, IsAmount;
    var x := Encode(isLp, k, v);
    if x in (set op | op in rewards :: RewardItem(op, rewards[op])) {
      var k' :| k' in rewards && RewardItem(k', rewards[k']) == x;
      EncodeReads(isLp, k, v, false, k', rewards[k']);
    } else {
      var k' :| k' in lp && LpItem(k', lp[k']) == x;
      EncodeReads(isLp, k, v, true, k', lp[k']);
    }
  }

  lemma RewardItemsReadable(rewards: map<AccountId, nat>, lp: map<PoolId, nat>, rewards': map<AccountId, nat>, lp': map<PoolId, nat>)
    requires FitsRewards(rewards) && FitsRewards(lp) && FitsRewards(rewards') && FitsRewards(lp')
    ensures KeyedOnce(RewardItems(rewards, lp))
    ensures ReadableSet(RewardItems(rewards, lp) + RewardItems(rewards', lp'))
  {
    hide IsId, IsAmount, RewardItem, LpItem;
    forall x | x in RewardItems(rewards, lp) + RewardItems(rewards', lp')
      ensures exists l, k, v :: IsId(k) && IsAmount(v) && x == Encode(l, k, v)
    {
      if x in RewardItems(rewards, lp) {
        DecodeItem(rewards, lp, x);
      } else {
        DecodeItem(rewards', lp', x);
      }
    }
    forall x, y | x in RewardItems(rewards, lp) + RewardItems(rewards', lp') && y in RewardItems(rewards, lp) + RewardItems(rewards', lp')
      ensures x.0 + x.1 == y.0 + y.1 ==> x == y
    {
      var l, k, v :| IsId(k) && IsAmount(v) && x == Encode(l, k, v);
      var l', k', v' :| IsId(k') && IsAmount(v') && y == Encode(l', k', v');
      EncodeReads(l, k, v, l', k', v');
    }
    forall x, y | x in RewardItems(rewards, lp) && y in RewardItems(rewards, lp) && x.0 == y.0 ensures x == y {
      assert x in RewardItems(rewards, lp) + RewardItems(rewards', lp');
      var l, k, v :| IsId(k) && IsAmount(v) && x == Encode(l, k, v);
      assert y in RewardItems(rewards, lp) + RewardItems(rewards', lp');
      var l', k', v' :| IsId(k') && IsAmount(v') && y == Encode(l', k', v');
      EncodeReads(l, k, v, l', k', v');
      FindEntry(rewards, lp, l, k, v);
      FindEntry(rewards, lp, l, k, v');
    }
  }

  lemma DecodeItem(rewards: map<AccountId, nat>, lp: map<PoolId, nat>, x: Item)
    requires FitsRewards(rewards) && FitsRewards(lp) && x in RewardItems(rewards, lp)
    ensures exists l, k, v :: IsId(k) && IsAmount(v) && x == Encode(l, k, v)
  {
    hide RewardItem, LpItem, IsId, IsAmount;
    if x in (set op | op in rewards :: RewardItem(op, rewards[op])) {
      var k :| k in rewards && RewardItem(k, rewards[k]) == x;
      assert x == Encode(false, k, rewards[k]);
    } else {
      var k :| k in lp && LpItem(k, lp[k]) == x;
      assert x == Encode(true, k, lp[k]);
    }
  }

  /** Equal reward roots exactly for equal operator balances and equal liquidity-provider balances. */
  lemma RewardRootBinds(rewards: map<AccountId, nat>, lp: map<PoolId, nat>, items: seq<Item>,
                        rewards': map<AccountId, nat>, lp': map<PoolId, nat>, items': seq<Item>)
    requires FitsRewards(rewards) && FitsRewards(lp) && FitsRewards(rewards') && FitsRewards(lp')
    requires Lists(items, RewardItems(rewards, lp)) && Lists(items', RewardItems(rewards', lp'))
    ensures RootOf(items) == RootOf(items') <==> rewards == rewards' && lp == lp'
  {
    hide RewardItems, FitsRewards, RootOf;
    RewardItemsReadable(rewards, lp, rewards', lp');
    RewardItemsReadable(rewards', lp', rewards, lp);
    RootDecidesSet(items, RewardItems(rewards, lp), items', RewardItems(rewards', lp'));
    if RewardItems(rewards, lp) == RewardItems(rewards', lp') {
      RewardItemsInclude(rewards, lp, rewards', lp');
      RewardItemsInclude(rewards', lp', rewards, lp);
      assert rewards.Keys == rewards'.Keys && lp.Keys == lp'.Keys;
    }
  }
}
