/**
 The Merkle accumulator: items sorted by key, padded with the last leaf, folded
 level by level.  The hash is modelled by constructors: leaf, node and empty
 inputs start with different tags, so a collision-free hash keeps them apart.
 */
module Merkle {
  import opened Arithmetic

  type Bytes = seq<nat>

  type Item = (Bytes, Bytes)

  datatype Digest = Empty | Leaf(data: Bytes) | Node(left: Digest, right: Digest)

  // ----- byte strings -----

  predicate Less(a: Bytes, b: Bytes) {
    if b == [] then false
    else if a == [] then true
    else a[0] < b[0] || (a[0] == b[0] && Less(a[1..], b[1..]))
  }

  lemma {:induction false} LessTotal(a: Bytes, b: Bytes)
    ensures a != b ==> (Less(a, b) <==> !Less(b, a))
    ensures a == b ==> !Less(a, b)
  {
    if a != [] && b != [] {
      LessTotal(a[1..], b[1..]);
      if a[0] == b[0] && a[1..] == b[1..] {
        assert a == [a[0]] + a[1..] == b;
      }
    }
  }

  /** Lexicographic order: the first difference decides, and a proper prefix comes first. */
  lemma {:induction false} LessMeans(a: Bytes, b: Bytes)
    ensures Less(a, b) <==>
            exists i: nat :: i <= |a| && i <= |b| && a[..i] == b[..i] && ((i == |a| && i < |b|) || (i < |a| && i < |b| && a[i] < b[i]))
  {
    if Less(a, b) {
      var i := Difference(a, b);
    }
    forall i: nat | i <= |a| && i <= |b| && a[..i] == b[..i] && ((i == |a| && i < |b|) || (i < |a| && i < |b| && a[i] < b[i]))
      ensures Less(a, b)
    {
      DifferenceDecides(a, b, i);
    }
  }

  lemma {:induction false} Difference(a: Bytes, b: Bytes) returns (i: nat)
    requires Less(a, b)
    ensures i <= |a| && i <= |b| && a[..i] == b[..i] && ((i == |a| && i < |b|) || (i < |a| && i < |b| && a[i] < b[i]))
  {
    if a == [] || a[0] != b[0] {
      i := 0;
    } else {
      var k := Difference(a[1..], b[1..]);
      i := k + 1;
      assert a[..i] == [a[0]] + a[1..][..k] && b[..i] == [b[0]] + b[1..][..k];
    }
  }

  lemma {:induction false} DifferenceDecides(a: Bytes, b: Bytes, i: nat)
    requires i <= |a| && i <= |b| && a[..i] == b[..i] && ((i == |a| && i < |b|) || (i < |a| && i < |b| && a[i] < b[i]))
    ensures Less(a, b)
  {
    if i > 0 {
      assert a[0] == a[..i][0] == b[..i][0] == b[0];
      assert a[1..][..i - 1] == a[..i][1..] && b[1..][..i - 1] == b[..i][1..];
      DifferenceDecides(a[1..], b[1..], i - 1);
    }
  }

  lemma {:induction false} LessTransitive(a: Bytes, b: Bytes, c: Bytes)
    requires Less(a, b) && Less(b, c)
    ensures Less(a, c)
  {
    if a != [] && a[0] == b[0] == c[0] {
      LessTransitive(a[1..], b[1..], c[1..]);
    }
  }

  // ----- sorting -----

  /** x goes before the first item whose key is not smaller: the sort is stable. */
  function Place(x: Item, s: seq<Item>): seq<Item> {
    if s == [] then [x]
    else if Less(s[0].0, x.0) then [s[0]] + Place(x, s[1..])
    else [x] + s
  }

  function Sort(items: seq<Item>): (s: seq<Item>)
  {
    if items == [] then [] else Place(items[0], Sort(items[1..]))
  }

  ghost predicate DistinctKeys(s: seq<Item>) {
    forall i, j :: 0 <= i < j < |s| ==> s[i].0 != s[j].0
  }

  ghost predicate Ascending(s: seq<Item>) {
    forall i, j :: 0 <= i < j < |s| ==> Less(s[i].0, s[j].0)
  }

  lemma {:induction false} PlaceKeeps(x: Item, s: seq<Item>)
    ensures multiset(Place(x, s)) == multiset(s) + multiset{x}
    ensures |Place(x, s)| == |s| + 1
  {
    if s == [] {
    } else if Less(s[0].0, x.0) {
      PlaceKeeps(x, s[1..]);
      assert s == [s[0]] + s[1..];
    } else {
    }
  }

  lemma {:induction false} SortKeeps(items: seq<Item>)
    ensures multiset(Sort(items)) == multiset(items)
    ensures |Sort(items)| == |items|
  {
    if items != [] {
      SortKeeps(items[1..]);
      PlaceKeeps(items[0], Sort(items[1..]));
      assert items == [items[0]] + items[1..];
    }
  }

  lemma {:induction false} PlaceAscending(x: Item, s: seq<Item>)
    requires Ascending(s) && forall y :: y in s ==> y.0 != x.0
    ensures Ascending(Place(x, s))
  {
    if s == [] {
    } else if Less(s[0].0, x.0) {
      var t := Place(x, s[1..]);
      PlaceAscending(x, s[1..]);
      PlaceKeeps(x, s[1..]);
      forall j | 0 <= j < |t| ensures Less(s[0].0, t[j].0) {
        assert t[j] in multiset(t);
        if t[j] != x {
          assert t[j] in s[1..];
        }
      }
    } else {
      LessTotal(s[0].0, x.0);
      assert s[0] in s;
      forall j | 0 <= j < |s| ensures Less(x.0, s[j].0) {
        if j > 0 {
          LessTransitive(x.0, s[0].0, s[j].0);
        }
      }
    }
  }

  lemma {:induction false} SortAscending(items: seq<Item>)
    requires DistinctKeys(items)
    ensures Ascending(Sort(items))
  {
    if items != [] {
      var t := items[1..];
      SortAscending(t);
      SortKeeps(t);
      forall y | y in Sort(t) ensures y.0 != items[0].0 {
        assert y in multiset(Sort(t));
        assert y in t;
      }
      PlaceAscending(items[0], Sort(t));
    }
  }

  /** Two ascending lists of the same items are the same list. */
  lemma {:induction false} AscendingUnique(s: seq<Item>, t: seq<Item>)
    requires Ascending(s) && Ascending(t)
    requires forall x :: x in s <==> x in t
    ensures s == t
  {
    if s == [] {
      assert forall i :: 0 <= i < |t| ==> t[i] in t;
    } else {
      assert s[0] in t && t != [] && t[0] in s;
      FirstIsSame(s, t);
      forall x ensures x in s[1..] <==> x in t[1..] {
        RestWithoutFirst(s, x);
        RestWithoutFirst(t, x);
      }
      AscendingUnique(s[1..], t[1..]);
      assert s == [s[0]] + s[1..] && t == [t[0]] + t[1..];
    }
  }

  lemma RestWithoutFirst(s: seq<Item>, x: Item)
    requires s != [] && Ascending(s)
    ensures x in s[1..] <==> x in s && x != s[0]
  {
    LessTotal(s[0].0, s[0].0);
    if x in s[1..] {
      var i :| 1 <= i < |s| && s[i] == x;
      assert Less(s[0].0, s[i].0);
    }
  }

  lemma FirstIsSame(s: seq<Item>, t: seq<Item>)
    requires s != [] && t != [] && Ascending(s) && Ascending(t) && s[0] in t && t[0] in s
    ensures s[0] == t[0]
  {
    if s[0] != t[0] {
      var i :| 0 <= i < |t| && t[i] == s[0];
      var j :| 0 <= j < |s| && s[j] == t[0];
      assert Less(t[0].0, t[i].0) && Less(s[0].0, s[j].0);
      LessTotal(s[0].0, t[0].0);
    }
  }

  // ----- leaves and padding -----

  function Leaves(s: seq<Item>): (l: seq<Digest>)
    ensures |l| == |s| && forall i :: 0 <= i < |s| ==> l[i] == Leaf(s[i].0 + s[i].1)
  {
    seq(|s|, i requires 0 <= i < |s| => Leaf(s[i].0 + s[i].1))
  }

  /** The exponent of the smallest power of two that is at least n. */
  function Depth(n: nat): nat {
    if n <= 1 then 0 else 1 + Depth((n + 1) / 2)
  }

  lemma {:induction false} DepthIsLeast(n: nat)
    ensures n <= Two(Depth(n))
    ensures forall m: nat :: n <= Two(m) ==> Depth(n) <= m
  {
    if n > 1 {
      DepthIsLeast((n + 1) / 2);
      forall m: nat | n <= Two(m) ensures Depth(n) <= m {
        assert m > 0;
        assert (n + 1) / 2 <= Two(m - 1);
      }
    }
  }

  function Padded(l: seq<Digest>): (p: seq<Digest>)
    requires l != []
    ensures |p| == Two(Depth(|l|)) && |l| <= |p|
    ensures forall i :: 0 <= i < |p| ==> p[i] == if i < |l| then l[i] else l[|l| - 1]
  {
    DepthIsLeast(|l|);
    l + seq(Two(Depth(|l|)) - |l|, _ => l[|l| - 1])
  }

  ghost predicate Distinct(l: seq<Digest>) {
    forall i, j :: 0 <= i < j < |l| ==> l[i] != l[j]
  }

  /** Padding by the last leaf loses nothing as long as the leaves differ. */
  lemma PaddedInjective(l: seq<Digest>, l': seq<Digest>)
    requires l != [] && l' != [] && Distinct(l) && Distinct(l')
    requires Padded(l) == Padded(l')
    ensures l == l'
  {
  }

  // ----- the tree -----

  /** The digest of a full binary tree with the given leaves. */
  function Tree(level: seq<Digest>, m: nat): Digest
    requires |level| == Two(m)
    decreases m
  {
    if m == 0 then level[0]
    else
      var h := Two(m - 1);
      Node(Tree(level[..h], m - 1), Tree(level[h..], m - 1))
  }

  /** One level up: adjacent digests combined. */
  function Pairs(level: seq<Digest>): (next: seq<Digest>)
    ensures |next| == |level| / 2
    ensures forall i :: 0 <= i < |next| ==> next[i] == Node(level[2 * i], level[2 * i + 1])
  {
    seq(|level| / 2, i requires 0 <= i < |level| / 2 => Node(level[2 * i], level[2 * i + 1]))
  }

  lemma PairsHalves(level: seq<Digest>, h: nat)
    requires |level| == 2 * h && h % 2 == 0
    ensures Pairs(level)[..h / 2] == Pairs(level[..h])
    ensures Pairs(level)[h / 2..] == Pairs(level[h..])
  {
  }

  lemma TreeOfTwo(level: seq<Digest>)
    requires |level| == 2
    ensures Tree(level, 1) == Node(level[0], level[1]) && Tree(Pairs(level), 0) == Node(level[0], level[1])
  {
  }

  lemma TreeUnfold(level: seq<Digest>, m: nat)
    requires m > 0 && |level| == Two(m)
    ensures Tree(level, m) == Node(Tree(level[..Two(m - 1)], m - 1), Tree(level[Two(m - 1)..], m - 1))
  {
  }

  /** Combining adjacent digests does not change the tree's digest. */
  lemma {:induction false} TreeOfPairs(level: seq<Digest>, m: nat)
    requires m > 0 && |level| == Two(m)
    ensures Tree(Pairs(level), m - 1) == Tree(level, m)
  {
    hide Tree, Pairs;
    if m == 1 {
      TreeOfTwo(level);
    } else {
      var h := Two(m - 1);
      TreeOfPairs(level[..h], m - 1);
      TreeOfPairs(level[h..], m - 1);
      PairsHalves(level, h);
      TreeUnfold(level, m);
      TreeUnfold(Pairs(level), m - 1);
    }
  }

  ghost predicate AllLeaves(l: seq<Digest>) {
    forall i :: 0 <= i < |l| ==> l[i].Leaf?
  }

  /** Trees over leaves have equal digests only if they have the same leaves. */
  lemma {:induction false} TreeInjective(l: seq<Digest>, m: nat, l': seq<Digest>, m': nat)
    requires |l| == Two(m) && |l'| == Two(m') && AllLeaves(l) && AllLeaves(l')
    requires Tree(l, m) == Tree(l', m')
    ensures m == m' && l == l'
    decreases m
  {
    assert m == 0 ==> Tree(l, m).Leaf?;
    assert m' == 0 ==> Tree(l', m').Leaf?;
    if m == 0 && m' == 0 {
      assert l == [l[0]] && l' == [l'[0]];
    } else if m > 0 && m' > 0 {
      var h, h' := Two(m - 1), Two(m' - 1);
      TreeInjective(l[..h], m - 1, l'[..h'], m' - 1);
      TreeInjective(l[h..], m - 1, l'[h'..], m' - 1);
      assert l == l[..h] + l[h..] && l' == l'[..h'] + l'[h'..];
    }
  }

  // ----- the accumulator -----

  function RootOf(items: seq<Item>): Digest {
    var leaves := Leaves(Sort(items));
    if leaves == [] then Empty else Tree(Padded(leaves), Depth(|leaves|))
  }

  /** Sorted keys stand in byte order: at the first place where two differ, the earlier one is smaller or has ended. */
  lemma SortIsByteOrder(items: seq<Item>, j: nat, k: nat)
    requires DistinctKeys(items) && j < k < |items|
    ensures |Sort(items)| == |items|
    ensures var a, b := Sort(items)[j].0, Sort(items)[k].0;
            exists i: nat :: i <= |a| && i <= |b| && a[..i] == b[..i] && ((i == |a| && i < |b|) || (i < |a| && i < |b| && a[i] < b[i]))
  {
    SortKeeps(items);
    SortAscending(items);
    LessMeans(Sort(items)[j].0, Sort(items)[k].0);
  }

  lemma SortSingle(x: Item)
    ensures Sort([x]) == [x]
  {
    assert [x][1..] == [];
  }

  /** The root of two items that differ in the first byte of their keys, whichever is listed first. */
  lemma RootOfTwo(x: Item, y: Item)
    requires x.0 != [] && y.0 != [] && x.0[0] < y.0[0]
    ensures RootOf([x, y]) == RootOf([y, x]) == Node(Leaf(x.0 + x.1), Leaf(y.0 + y.1))
  {
    var leaves := [Leaf(x.0 + x.1), Leaf(y.0 + y.1)];
    SortSingle(x);
    SortSingle(y);
    assert [x, y][1..] == [y] && [y, x][1..] == [x] && [x][1..] == [];
    assert Place(x, [y]) == [x, y] && Place(y, []) == [y] && Place(y, [x]) == [x, y];
    assert Leaves([x, y]) == leaves;
    assert Depth(2) == 1 && Padded(leaves) == leaves;
    TreeOfTwo(leaves);
  }

  /** No items have the empty root, and a single item is its own leaf. */
  lemma RootOfFew(x: Item)
    ensures RootOf([]) == Empty && RootOf([x]) == Leaf(x.0 + x.1)
  {
    SortSingle(x);
    assert Leaves([x]) == [Leaf(x.0 + x.1)];
    assert Depth(1) == 0 && Padded(Leaves([x])) == Leaves([x]);
  }

  method Root(items: seq<Item>) returns (root: Digest)
    ensures root == RootOf(items)
  {
    hide Sort, Leaves, Padded, Pairs;
    var leaves := Leaves(Sort(items));
    if leaves == [] {
      return Empty;
    }
    var level := Padded(leaves);
    ghost var m := Depth(|leaves|);
    while |level| > 1
      invariant |level| == Two(m)
      invariant Tree(level, m) == Tree(Padded(leaves), Depth(|leaves|))
      decreases m
    {
      TreeOfPairs(level, m);
      level := CombineLevel(level);
      m := m - 1;
    }
    root := level[0];
  }

  method CombineLevel(level: seq<Digest>) returns (next: seq<Digest>)
    requires |level| % 2 == 0
    ensures next == Pairs(level)
  {
    next := [];
    var i := 0;
    while i + 1 < |level|
      invariant i == 2 * |next| && i <= |level|
      invariant forall k :: 0 <= k < |next| ==> next[k] == Node(level[2 * k], level[2 * k + 1])
    {
      next := next + [Node(level[i], level[i + 1])];
      i := i + 2;
    }
  }

  // ----- binding -----

  /** No two different items of the two lists have the same concatenated bytes. */
  ghost predicate Readable(s: seq<Item>, t: seq<Item>) {
    forall x, y :: (x in s || x in t) && (y in s || y in t) && x.0 + x.1 == y.0 + y.1 ==> x == y
  }

  /** The root does not depend on the order of the items, as long as their keys differ. */
  lemma RootIgnoresOrder(items: seq<Item>, items': seq<Item>)
    requires DistinctKeys(items) && DistinctKeys(items') && forall x :: x in items <==> x in items'
    ensures RootOf(items) == RootOf(items')
  {
    SortedMembers(items);
    SortedMembers(items');
    SortAscending(items);
    SortAscending(items');
    AscendingUnique(Sort(items), Sort(items'));
  }

  lemma SortedMembers(items: seq<Item>)
    ensures forall x :: x in Sort(items) <==> x in items
  {
    SortKeeps(items);
    forall x ensures x in Sort(items) <==> x in items {
      assert x in multiset(Sort(items)) <==> x in multiset(items);
    }
  }

  /** Equal roots mean equal items. */
  lemma RootBinds(items: seq<Item>, items': seq<Item>)
    requires DistinctKeys(items) && DistinctKeys(items') && Readable(items, items')
    requires RootOf(items) == RootOf(items')
    ensures forall x :: x in items <==> x in items'
  {
    var s, s' := Sort(items), Sort(items');
    SortedMembers(items);
    SortedMembers(items');
    SortAscending(items);
    SortAscending(items');
    SameRootSameSorted(s, s');
  }

  lemma SameRootSameSorted(s: seq<Item>, s': seq<Item>)
    requires Ascending(s) && Ascending(s') && Readable(s, s')
    requires (if Leaves(s) == [] then Empty else Tree(Padded(Leaves(s)), Depth(|s|)))
          == (if Leaves(s') == [] then Empty else Tree(Padded(Leaves(s')), Depth(|s'|)))
    ensures s == s'
  {
    var l, l' := Leaves(s), Leaves(s');
    if l == [] || l' == [] {
      TreeNotEmpty(s);
      TreeNotEmpty(s');
    } else {
      LeavesDistinct(s, s');
      LeavesDistinct(s', s);
      TreeInjective(Padded(l), Depth(|l|), Padded(l'), Depth(|l'|));
      PaddedInjective(l, l');
      forall i | 0 <= i < |s| ensures s[i] == s'[i] {
        assert l[i] == l'[i];
        assert s[i] in s && s'[i] in s';
      }
    }
  }

  lemma {:induction false} TreeNotEmpty(s: seq<Item>)
    ensures Leaves(s) != [] ==> Tree(Padded(Leaves(s)), Depth(|s|)) != Empty
  {
  }

  lemma LeavesDistinct(s: seq<Item>, t: seq<Item>)
    requires Ascending(s) && Readable(s, t)
    ensures Distinct(Leaves(s))
  {
    forall i, j | 0 <= i < j < |s| ensures Leaves(s)[i] != Leaves(s)[j] {
      assert Less(s[i].0, s[j].0);
      LessTotal(s[i].0, s[j].0);
      assert s[i] in s && s[j] in s;
    }
  }
}
