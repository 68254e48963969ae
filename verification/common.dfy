/** Shared vocabulary: options and 64-bit saturating arithmetic. */
module Common {

  datatype Option<+T> = None | Some(value: T)

  const U64_MAX: nat := 0xFFFF_FFFF_FFFF_FFFF

  /** Rust's `u64::saturating_add`. */
  function SatAdd(a: nat, b: nat): nat {
    if a + b > U64_MAX then U64_MAX else a + b
  }

  /** Rust's `saturating_sub` on unsigned integers. */
  function SatSub(a: nat, b: nat): nat {
    if a < b then 0 else a - b
  }

  function Max(a: int, b: int): int {
    if a < b then b else a
  }

  function Min(a: int, b: int): int {
    if a < b then a else b
  }
}

/** Iterating over a hash table: the keys come in some order, each exactly once. */
module Iteration {

  lemma SubsetCard<T>(a: set<T>, b: set<T>)
    requires a <= b
    ensures |a| <= |b| && |b - a| == |b| - |a|
    ensures |a| == |b| ==> a == b
  {
    assert b == a + (b - a);
  }

  ghost predicate IsOrderOf<T(!new)>(order: seq<T>, keys: set<T>) {
    && (forall i, j | 0 <= i < j < |order| :: order[i] != order[j])
    && (forall i | 0 <= i < |order| :: order[i] in keys)
    && (forall k | k in keys :: k in order)
  }

  method Enumerate<T(==, !new)>(keys: set<T>) returns (order: seq<T>)
    ensures IsOrderOf(order, keys)
  {
    order := [];
    var rest := keys;
    while rest != {}
      invariant rest <= keys
      invariant forall i | 0 <= i < |order| :: order[i] in keys && order[i] !in rest
      invariant forall i, j | 0 <= i < j < |order| :: order[i] != order[j]
      invariant forall k | k in keys :: k in rest || k in order
      decreases rest
    {
      var k :| k in rest;
      rest := rest - {k};
      order := order + [k];
    }
  }

  /** How many of the first keys are in `chosen`. */
  ghost function CountIn<T>(order: seq<T>, chosen: set<T>): nat {
    if order == [] then 0
    else CountIn(order[..|order| - 1], chosen) + if order[|order| - 1] in chosen then 1 else 0
  }

  lemma OrderFront<T(!new)>(order: seq<T>, keys: set<T>)
    requires IsOrderOf(order, keys) && order != []
    ensures IsOrderOf(order[..|order| - 1], keys - {order[|order| - 1]})
  {
    var last := |order| - 1;
    forall k | k in keys - {order[last]}
      ensures k in order[..last]
    {
      var i :| 0 <= i < |order| && order[i] == k;
      assert order[..last][i] == k;
    }
  }

  lemma {:induction false} CountInPrefix<T(!new)>(order: seq<T>, keys: set<T>, chosen: set<T>)
    requires IsOrderOf(order, keys)
    ensures CountIn(order, chosen) == |keys * chosen|
    decreases |order|
  {
    if order == [] {
      assert keys == {};
      assert keys * chosen == {};
    } else {
      var last := order[|order| - 1];
      var front := order[..|order| - 1];
      OrderFront(order, keys);
      CountInPrefix(front, keys - {last}, chosen);
      if last in chosen {
        assert keys * chosen == (keys - {last}) * chosen + {last};
      } else {
        assert keys * chosen == (keys - {last}) * chosen;
      }
    }
  }

  /** Counting the members of `chosen` along any order gives its size. */
  lemma CountInAll<T(!new)>(order: seq<T>, keys: set<T>, chosen: set<T>)
    requires IsOrderOf(order, keys) && chosen <= keys
    ensures CountIn(order, chosen) == |chosen|
  {
    CountInPrefix(order, keys, chosen);
    assert keys * chosen == chosen;
  }
}

/** Sums of natural numbers over finite sets. */
module Sums {
  import opened Iteration

  ghost function Sum<K>(f: K -> nat, keys: set<K>): nat {
    if keys == {} then 0
    else
      var k :| k in keys;
      f(k) + Sum(f, keys - {k})
  }

  lemma {:induction false} SumSplit<K>(f: K -> nat, keys: set<K>, k: K)
    requires k in keys
    ensures Sum(f, keys) == f(k) + Sum(f, keys - {k})
    decreases keys
  {
    var first :| first in keys && Sum(f, keys) == f(first) + Sum(f, keys - {first});
    if first != k {
      SumSplit(f, keys - {first}, k);
      SumSplit(f, keys - {k}, first);
      assert keys - {k} - {first} == keys - {first} - {k};
    }
  }

  /** The same sum along some order of the set. */
  ghost function SumAlong<K>(f: K -> nat, order: seq<K>): nat {
    if order == [] then 0 else SumAlong(f, order[..|order| - 1]) + f(order[|order| - 1])
  }

  lemma SumAlongStep<K>(f: K -> nat, order: seq<K>, i: nat)
    requires i < |order|
    ensures SumAlong(f, order[..i + 1]) == SumAlong(f, order[..i]) + f(order[i])
  {
    assert order[..i + 1][..i] == order[..i];
  }

  lemma {:induction false} SumAlongIs<K(!new)>(f: K -> nat, order: seq<K>, keys: set<K>)
    requires IsOrderOf(order, keys)
    ensures SumAlong(f, order) == Sum(f, keys)
    decreases |order|
  {
    if order == [] {
      assert keys == {};
    } else {
      var last := order[|order| - 1];
      var front := order[..|order| - 1];
      OrderFront(order, keys);
      SumAlongIs(f, front, keys - {last});
      SumSplit(f, keys, last);
    }
  }

  lemma {:induction false} SumAdditive<K>(f: K -> nat, g: K -> nat, h: K -> nat, keys: set<K>)
    requires forall k | k in keys :: f(k) == g(k) + h(k)
    ensures Sum(f, keys) == Sum(g, keys) + Sum(h, keys)
    decreases keys
  {
    if keys != {} {
      var k :| k in keys;
      SumSplit(f, keys, k);
      SumSplit(g, keys, k);
      SumSplit(h, keys, k);
      SumAdditive(f, g, h, keys - {k});
    }
  }

  lemma {:induction false} SumNothing<K>(f: K -> nat, keys: set<K>)
    requires forall k | k in keys :: f(k) == 0
    ensures Sum(f, keys) == 0
    decreases keys
  {
    if keys != {} {
      var k :| k in keys;
      SumSplit(f, keys, k);
      SumNothing(f, keys - {k});
    }
  }

  lemma {:induction false} SumExtra<K>(f: K -> nat, keys: set<K>, all: set<K>)
    requires keys <= all && forall k | k in all && k !in keys :: f(k) == 0
    ensures Sum(f, all) == Sum(f, keys)
    decreases all
  {
    if k :| k in all && k !in keys {
      SumSplit(f, all, k);
      SumExtra(f, keys, all - {k});
    } else {
      assert all == keys;
    }
  }
}

module ByteStrings {

  type Byte = b: int | 0 <= b < 256

  type Bytes = seq<Byte>

  /** Dictionary order, the order of `Vec<u8>` in Rust and of `bytes` in Python. */
  predicate Less(a: Bytes, b: Bytes) {
    && b != []
    && (a == [] || a[0] < b[0] || (a[0] == b[0] && Less(a[1..], b[1..])))
  }

  lemma LessIrreflexive(a: Bytes)
    ensures !Less(a, a)
  {
  }

  lemma LessTransitive(a: Bytes, b: Bytes, c: Bytes)
    requires Less(a, b) && Less(b, c)
    ensures Less(a, c)
  {
    if a != [] && a[0] == b[0] == c[0] {
      LessTransitive(a[1..], b[1..], c[1..]);
    }
  }

  lemma {:induction false} LessTotal(a: Bytes, b: Bytes)
    requires a != b
    ensures Less(a, b) || Less(b, a)
  {
    if a != [] && b != [] && a[0] == b[0] {
      assert a == [a[0]] + a[1..] && b == [b[0]] + b[1..];
      LessTotal(a[1..], b[1..]);
    }
  }

  lemma LessAsymmetric(a: Bytes, b: Bytes)
    requires Less(a, b)
    ensures !Less(b, a)
  {
    if Less(b, a) {
      LessTransitive(a, b, a);
      LessIrreflexive(a);
    }
  }
}
