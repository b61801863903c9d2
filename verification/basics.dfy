/** Types and small sequence facts shared by the other modules. */
module Basics {

  datatype Option<+T> = None | Some(value: T) {
    function GetOr(default: T): T {
      if Some? then value else default
    }
  }

  newtype byte = x: int | 0 <= x < 256

  type Bytes = seq<byte>

  function Min(a: int, b: int): int {
    if a <= b then a else b
  }

  function Max(a: int, b: int): int {
    if a <= b then b else a
  }

  lemma ConcatAssoc<T>(a: seq<T>, b: seq<T>, c: seq<T>)
    ensures a + b + c == a + (b + c)
  {
  }

  function Flatten<T>(parts: seq<seq<T>>): seq<T> {
    if parts == [] then [] else parts[0] + Flatten(parts[1..])
  }

  lemma {:induction false} FlattenAppend<T>(a: seq<seq<T>>, b: seq<seq<T>>)
    ensures Flatten(a + b) == Flatten(a) + Flatten(b)
  {
    if a == [] {
      assert a + b == b;
    } else {
      assert (a + b)[0] == a[0] && (a + b)[1..] == a[1..] + b;
      FlattenAppend(a[1..], b);
    }
  }

  /** Splitting off the last element, for definitions that recurse from the back. */
  lemma SnocSplit<T>(s: seq<T>)
    requires s != []
    ensures s == s[..|s| - 1] + [s[|s| - 1]]
  {
  }
}

/** Division facts the solver does not find for a symbolic divisor. */
module Modular {

  lemma MulAtLeast(d: int, n: nat)
    ensures d >= 1 ==> d * n >= n
    ensures d <= -1 ==> d * n + n <= 0
  {
    if d >= 1 { assert (d - 1) * n >= 0; }
    if d <= -1 { assert (-d - 1) * n >= 0; }
  }

  lemma ModUnique(a: int, n: nat, q: int, r: int)
    requires 0 <= r < n && a == q * n + r
    ensures a % n == r && a / n == q
  {
    var q', r' := a / n, a % n;
    assert (q' - q) * n == r - r';
    MulAtLeast(q' - q, n);
  }

  lemma OneMore(q: int, n: nat)
    ensures (q + 1) * n == q * n + n
  {
  }

  /** One step round a circle of `n` places. */
  lemma ModSucc(a: int, n: nat)
    requires 0 < n
    ensures (a % n + 1) % n == (a + 1) % n
    ensures (a + 1) % n == if a % n == n - 1 then 0 else a % n + 1
  {
    NextPlace(a, n, a / n, a % n);
  }

  lemma NextPlace(a: int, n: nat, q: int, r: int)
    requires 0 <= r < n && a == q * n + r
    ensures (r + 1) % n == (a + 1) % n
    ensures (a + 1) % n == if r == n - 1 then 0 else r + 1
  {
    if r == n - 1 {
      OneMore(q, n);
      ModUnique(a + 1, n, q + 1, 0);
      ModUnique(n, n, 1, 0);
    } else {
      ModUnique(a + 1, n, q, r + 1);
      ModUnique(r + 1, n, 0, r + 1);
    }
  }

  /** Fewer than `n` steps apart, two positions are never the same place. */
  lemma ModDistinct(a: int, b: int, n: nat)
    requires 0 < b - a < n
    ensures a % n != b % n
  {
    MulAtLeast(b / n - a / n, n);
    assert b - a == (b / n - a / n) * n + (b % n - a % n);
  }

  lemma ModShift(a: nat, i: nat, n: nat)
    requires 0 < n
    ensures (a % n + i) % n == (a + i) % n
  {
    var q, r := (a % n + i) / n, (a % n + i) % n;
    assert a + i == (a / n + q) * n + r;
    ModUnique(a + i, n, a / n + q, r);
  }
}
