module Basics {
  datatype Option<+T> = None | Some(value: T)

  datatype Result<+T, +E> = Ok(value: T) | Err(error: E)

  /** 32-byte identifiers, read as big-endian numbers: the same equality and the same order. */
  type AccountId = nat
  type TxHash = nat
  type DomainId = nat
  type PoolId = nat
  type PublicKey = nat
  type Signature = nat

  /** Each element of the set once, in any order: the iteration of a hash map. */
  ghost predicate Lists<T>(items: seq<T>, s: set<T>) {
    && (forall i, j :: 0 <= i < j < |items| ==> items[i] != items[j])
    && (forall x :: x in items ==> x in s)
    && (forall x :: x in s ==> x in items)
  }

  lemma ListsNext<T>(items: seq<T>, s: set<T>, x: T)
    requires Lists(items, s) && x !in s
    ensures Lists(items + [x], s + {x})
  {
  }

  /** Every set can be listed starting with any of its lists' elements. */
  lemma {:induction false} ListAfter<T>(start: seq<T>, s: set<T>) returns (items: seq<T>)
    requires forall i, j :: 0 <= i < j < |start| ==> start[i] != start[j]
    requires forall x :: x in start ==> x in s
    ensures Lists(items, s) && start <= items
    decreases |s| - |start|
  {
    if exists x :: x in s && x !in start {
      var x :| x in s && x !in start;
      StartFits(start, s);
      StartFits(start + [x], s);
      items := ListAfter(start + [x], s);
    } else {
      items := start;
    }
  }

  lemma {:induction false} StartFits<T>(start: seq<T>, s: set<T>)
    requires forall i, j :: 0 <= i < j < |start| ==> start[i] != start[j]
    requires forall x :: x in start ==> x in s
    ensures |start| <= |s|
    decreases |start|
  {
    if start != [] {
      var n := |start| - 1;
      StartFits(start[..n], s - {start[n]});
    }
  }
}
