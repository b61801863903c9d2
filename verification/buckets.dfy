/** Sharing a sequence of items out over numbered buckets, order kept within each. */
module Buckets {

  function Pick<T>(items: seq<T>, bucket: T -> nat, k: nat): (r: seq<T>)
    ensures |r| <= |items|
  {
    if items == [] then []
    else
      var rest := Pick(items[..|items| - 1], bucket, k);
      if bucket(items[|items| - 1]) == k then rest + [items[|items| - 1]] else rest
  }

  lemma PickSnoc<T>(items: seq<T>, x: T, bucket: T -> nat, k: nat)
    ensures Pick(items + [x], bucket, k) == if bucket(x) == k then Pick(items, bucket, k) + [x] else Pick(items, bucket, k)
  {
    assert (items + [x])[..|items|] == items;
  }

  /** How many items the first `n` buckets hold between them. */
  function Total<T>(items: seq<T>, bucket: T -> nat, n: nat): nat {
    if n == 0 then 0 else |Pick(items, bucket, n - 1)| + Total(items, bucket, n - 1)
  }

  lemma {:induction false} TotalSnoc<T>(items: seq<T>, x: T, bucket: T -> nat, n: nat)
    ensures Total(items + [x], bucket, n) == Total(items, bucket, n) + if bucket(x) < n then 1 else 0
  {
    if n > 0 {
      PickSnoc(items, x, bucket, n - 1);
      TotalSnoc(items, x, bucket, n - 1);
    }
  }

  /** Each item is in exactly one bucket: the sizes add up to the number of items. */
  lemma {:induction false} EveryItemOnce<T>(items: seq<T>, bucket: T -> nat, n: nat)
    requires forall i :: 0 <= i < |items| ==> bucket(items[i]) < n
    ensures Total(items, bucket, n) == |items|
  {
    if items == [] {
      EmptyTotal(bucket, n);
    } else {
      var front, x := items[..|items| - 1], items[|items| - 1];
      assert items == front + [x];
      EveryItemOnce(front, bucket, n);
      TotalSnoc(front, x, bucket, n);
    }
  }

  lemma {:induction false} EmptyTotal<T>(bucket: T -> nat, n: nat)
    ensures Total([], bucket, n) == 0
  {
    if n > 0 { EmptyTotal(bucket, n - 1); }
  }

  /** A bucket holds exactly the items that are placed in it. */
  lemma {:induction false} PickMembers<T(!new)>(items: seq<T>, bucket: T -> nat, k: nat)
    ensures forall x :: x in Pick(items, bucket, k) <==> x in items && bucket(x) == k
  {
    if items != [] {
      var front, x := items[..|items| - 1], items[|items| - 1];
      assert items == front + [x];
      PickMembers(front, bucket, k);
    }
  }

  function Sum(counts: seq<nat>): nat {
    if counts == [] then 0 else Sum(counts[..|counts| - 1]) + counts[|counts| - 1]
  }

  /** Counters that hold the bucket sizes add up to the number of items. */
  lemma {:induction false} CountersAddUp<T>(counts: seq<nat>, items: seq<T>, bucket: T -> nat)
    requires forall k :: 0 <= k < |counts| ==> counts[k] == |Pick(items, bucket, k)|
    ensures Sum(counts) == Total(items, bucket, |counts|)
  {
    if counts != [] {
      CountersAddUp(counts[..|counts| - 1], items, bucket);
    }
  }
}
