/** Machine words, the arithmetic facts about them that the solver should not be left to
  * find, and sums and concatenations used by several modules.
  */
module Words {

  const BASE := 0x1_0000_0000
  const WORD64 := 0x1_0000_0000_0000_0000

  type byte = x: int | 0 <= x < 0x100
  type u32 = x: int | 0 <= x < BASE
  type u64 = x: int | 0 <= x < WORD64

  lemma Multiply(n: nat, a: nat, b: nat)
    requires a <= b
    ensures a * n <= b * n
  {}

  lemma DivMod(x: nat, n: nat)
    requires n > 0
    ensures x == x / n * n + x % n
  {}

  lemma DivBelow(x: nat, n: nat, b: nat)
    requires n > 0 && x < b * n
    ensures x / n < b
  {
    DivMod(x, n);
    if x / n >= b {
      Multiply(n, b, x / n);
      assert false;
    }
  }

  lemma ModAtMost(x: nat, n: nat)
    requires n > 0
    ensures x % n <= x
  {
    DivMod(x, n);
  }

  lemma QuotientAtMost(d: nat, n: nat)
    requires n > 0
    ensures d / n <= d && d / n * n <= d && (d / n * n == d ==> d % n == 0)
  {
    DivMod(d, n);
    if d / n > d {
      Multiply(d / n, 1, n);
      assert false;
    }
  }

  lemma Distribute(a: nat, b: nat, n: nat)
    ensures (a + b) * n == a * n + b * n
  {}

  lemma QuotientGap(x: nat, y: nat, n: nat)
    requires n > 0 && x + n <= y
    ensures x / n < y / n
  {
    DivMod(x, n);
    DivMod(y, n);
    if x / n >= y / n {
      Multiply(n, y / n, x / n);
      assert false;
    }
  }

  lemma {:induction false} QuotientAtLeast(x: nat, n: nat, b: nat)
    requires n > 0 && b * n <= x
    ensures b <= x / n
    decreases b
  {
    if b > 0 {
      Distribute(b - 1, 1, n);
      Multiply(n, 1, b);
      QuotientAtLeast(x - n, n, b - 1);
      QuotientGap(x - n, x, n);
    }
  }

  /** Machine division, kept apart so that proofs can hide it. */
  function Quot(x: u64, n: u64): (q: u64)
    requires n > 0
    ensures q <= x
  {
    QuotientAtMost(x, n);
    x / n
  }

  function Rem(x: u64, n: u64): (r: u64)
    requires n > 0
    ensures r < n
  {
    x % n
  }

  lemma QuotRem(x: u64, n: u64)
    requires n > 0
    ensures x == Quot(x, n) * n + Rem(x, n)
  {
    DivMod(x, n);
  }

  lemma QuotientIs(x: u64, n: u64, q: nat, r: nat)
    requires n > 0 && x == q * n + r && r < n
    ensures Quot(x, n) == q && Rem(x, n) == r
  {
    QuotientAtLeast(x, n, q);
    Distribute(q, 1, n);
    DivBelow(x, n, q + 1);
    DivMod(x, n);
  }

  lemma QuotientMonotone(x: nat, y: nat, n: nat)
    requires n > 0 && x <= y
    ensures x / n <= y / n
  {
    DivMod(x, n);
    DivMod(y, n);
    Distribute(y / n, 1, n);
    if x / n > y / n {
      Multiply(n, y / n + 1, x / n);
      assert false;
    }
  }

  /** A 64-bit word does not wrap. */
  lemma Below(x: u64)
    ensures x % WORD64 == x
  {}

  /** A 32-bit word does not wrap. */
  lemma Below32(x: u32)
    ensures x % BASE == x
  {}

  /** Quotient and remainder are unique. */
  lemma SameSplit(n: nat, q: nat, r: nat, p: nat, t: nat)
    requires r < n && t < n && q * n + r == p * n + t
    ensures q == p && r == t
  {
    Distribute(q, 1, n);
    Distribute(p, 1, n);
    if q < p {
      Multiply(n, q + 1, p);
      assert false;
    } else if p < q {
      Multiply(n, p + 1, q);
      assert false;
    }
  }

  lemma AddMultiple(k: nat, x: nat, n: nat)
    requires n > 0
    ensures (k * n + x) % n == x % n
  {
    DivMod(x, n);
    DivMod(k * n + x, n);
    Distribute(k, x / n, n);
    SameSplit(n, (k * n + x) / n, (k * n + x) % n, k + x / n, x % n);
  }

  // ----- Powers -----------------------------------------------------------------

  function Pow(b: nat, e: nat): (r: nat)
    ensures b > 0 ==> r > 0
  {
    if e == 0 then 1 else b * Pow(b, e - 1)
  }

  lemma {:induction false} PowMonotone(b: nat, x: nat, y: nat)
    requires b > 1 && x <= y
    ensures 0 < Pow(b, x) <= Pow(b, y)
  {
    if x < y {
      PowMonotone(b, x, y - 1);
    } else if y > 0 {
      PowMonotone(b, x - 1, y - 1);
    }
  }

  lemma PowNext(b: nat, x: nat)
    ensures Pow(b, x) == if x == 0 then 1 else b * Pow(b, x - 1)
  {}

  lemma Regroup(a: nat, b: nat, c: nat)
    ensures a * (b * c) == a * b * c
  {}

  lemma {:induction false} PowAdd(b: nat, x: nat, y: nat)
    ensures Pow(b, x + y) == Pow(b, x) * Pow(b, y)
  {
    hide Pow;
    PowNext(b, x);
    if x > 0 {
      PowNext(b, x + y);
      PowAdd(b, x - 1, y);
      Regroup(b, Pow(b, x - 1), Pow(b, y));
    }
  }

  // ----- Samples ----------------------------------------------------------------

  /** The outcome and duration of one route lookup. */
  datatype Lookup = Lookup(unreachable: bool, cycles: u64)

  ghost predicate Sorted(a: seq<u64>) {
    forall i, j :: 0 <= i <= j < |a| ==> a[i] <= a[j]
  }

  function Sum(a: seq<u64>): nat {
    if a == [] then 0 else Sum(a[..|a| - 1]) + a[|a| - 1]
  }

  lemma SumNone(a: seq<u64>)
    ensures a == [] ==> Sum(a) == 0
  {}

  lemma SumOneMore(a: seq<u64>, x: u64)
    ensures Sum(a + [x]) == Sum(a) + x
    ensures Sum(a + [x]) % WORD64 == (Sum(a) % WORD64 + x) % WORD64
  {
    assert (a + [x])[..|a|] == a;
  }

  /** An average whose samples are accumulated in 64 bits, then divided. */
  function Mean(a: seq<u64>): nat {
    if a == [] then 0 else Sum(a) % WORD64 / |a|
  }

  lemma MeanIs(a: seq<u64>, average: u64)
    requires average == Sum(a) % WORD64
    ensures Mean(a) == if |a| > 0 then average / |a| else 0
  {}

  /** Where the samples in the interval from `low` to `high` are. */
  ghost function Where(a: seq<u64>, low: int, high: int): (s: set<int>) {
    set i | 0 <= i < |a| && low <= a[i] <= high
  }

  lemma NowhereInNone(low: int, high: int)
    ensures |Where([], low, high)| == 0
  {
    assert Where([], low, high) == {};
  }

  lemma WhereBack(a: seq<u64>, x: u64, low: int, high: int)
    ensures |Where(a + [x], low, high)| == |Where(a, low, high)| + if low <= x <= high then 1 else 0
  {
    assert Where(a + [x], low, high) == Where(a, low, high) + if low <= x <= high then {|a|} else {};
  }

  /** The places behind the first sample. */
  ghost function WhereBehind(x: u64, a: seq<u64>, low: int, high: int): (s: set<int>) {
    set i | 1 <= i < |[x] + a| && low <= ([x] + a)[i] <= high
  }

  lemma {:induction false} BehindSize(x: u64, a: seq<u64>, low: int, high: int)
    ensures |WhereBehind(x, a, low, high)| == |Where(a, low, high)|
  {
    if a != [] {
      var b, last := a[..|a| - 1], a[|a| - 1];
      BehindSize(x, b, low, high);
      WhereBack(b, last, low, high);
      assert a == b + [last] && [x] + a == [x] + b + [last];
      assert WhereBehind(x, a, low, high) == WhereBehind(x, b, low, high) + if low <= last <= high then {|a|} else {};
    }
  }

  lemma WhereFront(x: u64, a: seq<u64>, low: int, high: int)
    ensures |Where([x] + a, low, high)| == |Where(a, low, high)| + if low <= x <= high then 1 else 0
  {
    BehindSize(x, a, low, high);
    assert Where([x] + a, low, high) == WhereBehind(x, a, low, high) + if low <= x <= high then {0} else {};
  }

  // ----- What a loop keeps ------------------------------------------------------

  /** `idx` lists the numbers of `s` in increasing order. */
  ghost predicate Lists(idx: seq<nat>, s: set<nat>) {
    && (forall i, j :: 0 <= i < j < |idx| ==> idx[i] < idx[j])
    && forall k :: k in idx <==> k in s
  }

  lemma ListsNone()
    ensures Lists([], {})
  {}

  lemma ListsOneMore(idx: seq<nat>, s: set<nat>, k: nat)
    requires Lists(idx, s) && forall j :: j in s ==> j < k
    ensures Lists(idx + [k], s + {k})
  {
    forall i | 0 <= i < |idx|
      ensures idx[i] < k
    {
      assert idx[i] in idx;
    }
  }

  /** The results are the durations of the lookups in `idx`. */
  ghost predicate DurationsOf(idx: seq<nat>, r: seq<u64>, lookup: nat -> Lookup) {
    |r| == |idx| && forall j :: 0 <= j < |idx| ==> r[j] == lookup(idx[j]).cycles
  }

  // ----- Batches ----------------------------------------------------------------

  function Flatten<T>(s: seq<seq<T>>): seq<T> {
    if s == [] then [] else Flatten(s[..|s| - 1]) + s[|s| - 1]
  }

  lemma FlattenOneMore<T>(s: seq<seq<T>>, x: seq<T>)
    ensures Flatten(s + [x]) == Flatten(s) + x
  {
    assert (s + [x])[..|s|] == s;
  }
}
