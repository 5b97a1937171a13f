/** The statistics of the IPv4 benchmark module. */
module Stats {
  import opened Words
  import opened Wrappers

  // ----- Percentile -------------------------------------------------------------

  /** `p * count` in 32 unsigned bits. */
  function Scaled(p: u32, count: u32): (r: u32) {
    p * count % BASE
  }

  /** The percentile as the module reads it: one sample, or the mean of two neighbours
    * with the sum in 64 bits. None stands for a read outside the samples. The second
    * index that the C code adjusts is never used.
    */
  function Percentile(p: u32, sorted: seq<u64>): (r: Option<u64>)
    requires |sorted| < BASE
  {
    var x := Scaled(p, |sorted|);
    var index := x / 100;
    if x % 100 == 0 then
      if index < |sorted| then Some(sorted[index]) else None
    else if index + 1 < |sorted| then
      Some((sorted[index] + sorted[index + 1]) % WORD64 / 2)
    else
      None
  }

  /** The two samples a percentile lies between. */
  function Lower(p: u32, count: u32): nat {
    Scaled(p, count) / 100
  }

  function Upper(p: u32, count: u32): nat {
    if Scaled(p, count) % 100 == 0 then Lower(p, count) else Lower(p, count) + 1
  }

  /** All reads are in bounds exactly when the samples above the percentile amount to
    * at least one.
    */
  lemma ReadsInBounds(p: u32, sorted: seq<u64>)
    requires 0 < |sorted| < BASE && p * |sorted| < BASE
    ensures Percentile(p, sorted).Some? <==> |sorted| * (100 - p) >= 100
  {
    var n := |sorted|;
    assert n * (100 - p) == 100 * n - p * n;
  }

  /** The sum of the two neighbours needs its 64 bits. */
  predicate SumFits(p: u32, sorted: seq<u64>)
    requires |sorted| < BASE && Upper(p, |sorted|) < |sorted|
  {
    Upper(p, |sorted|) == Lower(p, |sorted|) ||
    sorted[Lower(p, |sorted|)] + sorted[Upper(p, |sorted|)] < WORD64
  }

  /** A percentile lies between its two samples exactly when their sum fits. */
  lemma BetweenNeighbours(p: u32, sorted: seq<u64>)
    requires |sorted| < BASE && Sorted(sorted) && Percentile(p, sorted).Some?
    ensures Upper(p, |sorted|) < |sorted|
    ensures SumFits(p, sorted) <==>
      sorted[Lower(p, |sorted|)] <= Percentile(p, sorted).value <= sorted[Upper(p, |sorted|)]
  {
  }

  /** Three samples of 2^64 - 1: their sum of two wraps, and their median is below them. */
  lemma MedianWraps()
    ensures var a: seq<u64> := [WORD64 - 1, WORD64 - 1, WORD64 - 1];
      && Percentile(50, a).Some? && Percentile(50, a).value < a[0]
      && Upper(50, |a|) < |a| && !SumFits(50, a)
  {
    var a: seq<u64> := [WORD64 - 1, WORD64 - 1, WORD64 - 1];
    BetweenNeighbours(50, a);
  }

  lemma Positive(n: nat, x: int)
    requires n * x > 0
    ensures x > 0
  {}

  lemma Narrower(p: nat, q: nat, n: nat)
    requires p <= q && 0 < n && n * (100 - q) >= 100
    ensures p * n <= q * n && n * (100 - p) >= 100
  {
    Positive(n, 100 - q);
    Multiply(n, p, q);
    Multiply(n, 100 - q, 100 - p);
  }

  lemma ScaledIs(p: u32, n: u32)
    requires p * n < BASE
    ensures Scaled(p, n) == p * n
  {
    Multiply(n, 0, p);
    Below32(p * n);
  }

  lemma NeighboursMonotone(p: u32, q: u32, n: u32)
    requires p * n <= q * n < BASE
    ensures Lower(p, n) <= Lower(q, n) && Upper(p, n) <= Upper(q, n)
  {
    hide Scaled;
    ScaledIs(p, n);
    ScaledIs(q, n);
  }

  lemma MeanOfNeighbours(p: u32, sorted: seq<u64>)
    requires |sorted| < BASE && Percentile(p, sorted).Some? && SumFits(p, sorted)
    ensures var a: nat, b: nat := sorted[Lower(p, |sorted|)], sorted[Upper(p, |sorted|)];
      Percentile(p, sorted).value == (a + b) / 2
  {
    hide Scaled;
    var a: nat, b: nat := sorted[Lower(p, |sorted|)], sorted[Upper(p, |sorted|)];
    if Upper(p, |sorted|) != Lower(p, |sorted|) {
      Below(a + b);
    }
  }

  lemma MeanMonotone(p: u32, q: u32, sorted: seq<u64>)
    requires |sorted| < BASE && Sorted(sorted)
    requires Percentile(p, sorted).Some? && Percentile(q, sorted).Some?
    requires Lower(p, |sorted|) <= Lower(q, |sorted|) && Upper(p, |sorted|) <= Upper(q, |sorted|)
    requires SumFits(p, sorted) && SumFits(q, sorted)
    ensures sorted[0] <= Percentile(p, sorted).value <= Percentile(q, sorted).value <= sorted[|sorted| - 1]
  {
    var n := |sorted|;
    MeanOfNeighbours(p, sorted);
    MeanOfNeighbours(q, sorted);
    hide Percentile, Scaled, Lower, Upper;
    var a: nat, b: nat := sorted[Lower(p, n)], sorted[Upper(p, n)];
    var c: nat, d: nat := sorted[Lower(q, n)], sorted[Upper(q, n)];
    assert sorted[0] <= a <= c && b <= d <= sorted[n - 1];
    assert sorted[0] <= b;
    assert c <= sorted[n - 1];
  }

  /** A higher percentile is never smaller, and every percentile is a value between
    * the extreme samples.
    */
  lemma PercentileMonotone(p: u32, q: u32, sorted: seq<u64>)
    requires 0 < |sorted| < BASE && Sorted(sorted)
    requires p <= q && q * |sorted| < BASE && |sorted| * (100 - q) >= 100
    ensures Percentile(p, sorted).Some? && Percentile(q, sorted).Some?
    ensures SumFits(p, sorted) && SumFits(q, sorted) ==>
      sorted[0] <= Percentile(p, sorted).value <= Percentile(q, sorted).value <= sorted[|sorted| - 1]
  {
    hide Percentile, SumFits, Lower, Upper;
    var n := |sorted|;
    Narrower(p, q, n);
    ReadsInBounds(p, sorted);
    ReadsInBounds(q, sorted);
    BetweenNeighbours(p, sorted);
    BetweenNeighbours(q, sorted);
    NeighboursMonotone(p, q, n);
    if SumFits(p, sorted) && SumFits(q, sorted) {
      MeanMonotone(p, q, sorted);
    }
  }

  function AtMost(d: seq<u64>, m: int): (k: nat)
    ensures k <= |d|
  {
    if d == [] then 0 else (if d[0] <= m then 1 else 0) + AtMost(d[1..], m)
  }

  lemma {:induction false} AtMostIs(d: seq<u64>, m: int)
    ensures AtMost(d, m) == |Where(d, 0, m)|
  {
    hide Where;
    if d == [] {
      NowhereInNone(0, m);
    } else {
      AtMostIs(d[1..], m);
      assert d == [d[0]] + d[1..];
      WhereFront(d[0], d[1..], 0, m);
    }
  }

  lemma {:induction false} NoneAtMost(d: seq<u64>, m: int)
    requires forall i :: 0 <= i < |d| ==> d[i] > m
    ensures AtMost(d, m) == 0
  {
    if d != [] {
      NoneAtMost(d[1..], m);
    }
  }

  lemma {:induction false} SortedCount(d: seq<u64>, m: int, k: nat)
    requires Sorted(d) && k < |d|
    ensures AtMost(d, m) > k <==> d[k] <= m
  {
    if k > 0 {
      SortedCount(d[1..], m, k - 1);
      assert d[1..][k - 1] == d[k] >= d[0];
      if d[k] > m {
        assert AtMost(d[1..], m) <= k - 1;
      }
    } else if d[0] > m {
      NoneAtMost(d, m);
    }
  }

  /** A percentile is one by rank: more than `p` percent of the samples are at most it, and
    * hardly more than `p` percent are below it.
    */
  lemma PercentileRank(p: u32, sorted: seq<u64>)
    requires 0 < |sorted| < BASE && Sorted(sorted) && p * |sorted| < BASE && Percentile(p, sorted).Some?
    ensures Upper(p, |sorted|) < |sorted|
    ensures SumFits(p, sorted) ==>
      var v: int := Percentile(p, sorted).value;
      && 100 * |Where(sorted, 0, v)| > p * |sorted|
      && 100 * |Where(sorted, 0, v - 1)| < p * |sorted| + 100
  {
    hide Percentile, SumFits, Where, AtMost, Scaled;
    BetweenNeighbours(p, sorted);
    var v: int := Percentile(p, sorted).value;
    ScaledIs(p, |sorted|);
    SortedCount(sorted, v, Lower(p, |sorted|));
    SortedCount(sorted, v - 1, Upper(p, |sorted|));
    AtMostIs(sorted, v);
    AtMostIs(sorted, v - 1);
  }

  /** The 95th percentile reads past the samples exactly when there are fewer than 20. */
  lemma TwentySamples(sorted: seq<u64>)
    requires 0 < |sorted| && 95 * |sorted| < BASE
    ensures Percentile(95, sorted).Some? <==> |sorted| >= 20
    ensures |sorted| >= 20 ==> Percentile(90, sorted).Some? && Percentile(50, sorted).Some?
  {
    hide Percentile;
    ReadsInBounds(95, sorted);
    ReadsInBounds(90, sorted);
    ReadsInBounds(50, sorted);
  }

  // ----- Sorting ----------------------------------------------------------------

  function Insert(x: u64, a: seq<u64>): (r: seq<u64>)
    ensures multiset(r) == multiset{x} + multiset(a)
    ensures |r| == |a| + 1
  {
    if a == [] || x <= a[0] then [x] + a
    else
      assert a == [a[0]] + a[1..];
      [a[0]] + Insert(x, a[1..])
  }

  lemma InsertMembers(x: u64, a: seq<u64>, low: u64)
    requires low <= x && forall i :: 0 <= i < |a| ==> low <= a[i]
    ensures forall i :: 0 <= i < |Insert(x, a)| ==> low <= Insert(x, a)[i]
  {
    hide Insert;
    var r := Insert(x, a);
    forall i | 0 <= i < |r|
      ensures low <= r[i]
    {
      assert r[i] in multiset(r);
      assert r[i] == x || r[i] in a;
    }
  }

  lemma {:induction false} InsertSorted(x: u64, a: seq<u64>)
    requires Sorted(a)
    ensures Sorted(Insert(x, a))
  {
    if a != [] && x > a[0] {
      InsertSorted(x, a[1..]);
      InsertMembers(x, a[1..], a[0]);
    }
  }

  /** The sorted permutation of the samples, which is what the kernel's sort yields. */
  function SortedCopy(a: seq<u64>): (r: seq<u64>)
    ensures multiset(r) == multiset(a) && |r| == |a|
  {
    if a == [] then []
    else
      assert a == [a[0]] + a[1..];
      Insert(a[0], SortedCopy(a[1..]))
  }

  lemma {:induction false} SortedCopySorted(a: seq<u64>)
    ensures Sorted(SortedCopy(a))
  {
    if a != [] {
      SortedCopySorted(a[1..]);
      InsertSorted(a[0], SortedCopy(a[1..]));
    }
  }

  // ----- Median absolute deviation ----------------------------------------------

  function Deviation(x: u64, centre: u64): (d: u64) {
    if x > centre then x - centre else centre - x
  }

  function Deviations(a: seq<u64>, centre: u64): (r: seq<u64>)
    ensures |r| == |a|
  {
    if a == [] then [] else [Deviation(a[0], centre)] + Deviations(a[1..], centre)
  }

  /** A deviation is at most `m` exactly when the sample is in the interval of that radius
    * around the centre.
    */
  lemma DeviationIs(x: u64, centre: u64, m: int)
    ensures Deviation(x, centre) <= m <==> centre - m <= x <= centre + m
  {}

  lemma {:induction false} InsertCounts(x: u64, a: seq<u64>, m: int)
    ensures AtMost(Insert(x, a), m) == AtMost(a, m) + if x <= m then 1 else 0
  {
    if a == [] || x <= a[0] {
      assert ([x] + a)[1..] == a;
    } else {
      InsertCounts(x, a[1..], m);
      assert ([a[0]] + Insert(x, a[1..]))[1..] == Insert(x, a[1..]);
    }
  }

  lemma SortedDeviationsCons(x: u64, a: seq<u64>, centre: u64)
    ensures SortedCopy(Deviations([], centre)) == []
    ensures SortedCopy(Deviations([x] + a, centre)) == Insert(Deviation(x, centre), SortedCopy(Deviations(a, centre)))
  {
    hide Insert;
    assert ([x] + a)[1..] == a;
    assert ([Deviation(x, centre)] + Deviations(a, centre))[1..] == Deviations(a, centre);
  }

  lemma {:induction false} SortedDeviationsCount(a: seq<u64>, centre: u64, m: int)
    ensures AtMost(SortedCopy(Deviations(a, centre)), m) == |Where(a, centre - m, centre + m)|
  {
    hide Where, Deviation, SortedCopy, Deviations, Insert;
    if a == [] {
      NowhereInNone(centre - m, centre + m);
      SortedDeviationsCons(0, a, centre);
    } else {
      var x, rest := a[0], a[1..];
      assert a == [x] + rest;
      SortedDeviationsCount(rest, centre, m);
      SortedDeviationsCons(x, rest, centre);
      InsertCounts(Deviation(x, centre), SortedCopy(Deviations(rest, centre)), m);
      WhereFront(x, rest, centre - m, centre + m);
      DeviationIs(x, centre, m);
    }
  }

  lemma NoDeviations(centre: u64)
    ensures Deviations([], centre) == []
  {}

  lemma {:induction false} DeviationsAppend(a: seq<u64>, x: u64, centre: u64)
    ensures Deviations(a + [x], centre) == Deviations(a, centre) + [Deviation(x, centre)]
  {
    if a == [] {
      assert a + [x] == [x];
    } else {
      DeviationsAppend(a[1..], x, centre);
      assert (a + [x])[1..] == a[1..] + [x];
    }
  }

  /** Sorts the first `count` samples. */
  method Sort(a: array<u64>, count: nat)
    requires count <= a.Length
    modifies a
    ensures a[..count] == SortedCopy(old(a[..count])) && a[count..] == old(a[count..])
  {
    hide SortedCopy;
    var r := SortedCopy(a[..count]);
    for i := 0 to count
      invariant forall k :: 0 <= k < i ==> a[k] == r[k]
      invariant a[count..] == old(a[count..])
    {
      a[i] := r[i];
    }
  }

  /** The deviation of the module over the first `count` samples: deviations are stored,
    * sorted in place, and their 50th percentile is taken. None stands for a read outside
    * the samples.
    */
  method Mad(a: array<u64>, centre: u64, count: nat) returns (res: Option<u64>)
    requires count <= a.Length && count < BASE
    ensures res == Percentile(50, SortedCopy(Deviations(a[..count], centre)))
  {
    hide Percentile, SortedCopy, Deviations;
    var dmedian := new u64[count];
    var i := 0;
    NoDeviations(centre);
    assert dmedian[..0] == [] && a[..0] == [];
    while i < count
      invariant i <= count
      invariant dmedian[..i] == Deviations(a[..i], centre)
    {
      dmedian[i] := if a[i] > centre then a[i] - centre else centre - a[i];
      assert dmedian[..i + 1] == dmedian[..i] + [dmedian[i]];
      assert a[..i + 1] == a[..i] + [a[i]];
      DeviationsAppend(a[..i], a[i], centre);
      i := i + 1;
    }
    Sort(dmedian, count);
    assert dmedian[..count] == dmedian[..];
    res := Percentile(50, dmedian[..]);
  }

  lemma CountHalves(d: seq<u64>, m: nat)
    requires 2 <= |d| && Sorted(d)
    ensures d[|d| / 2] <= m ==> 2 * AtMost(d, m) >= |d|
    ensures d[|d| / 2] > m && |d| % 2 == 1 ==> 2 * AtMost(d, m) < |d|
    ensures (m <= if |d| % 2 == 0 then d[|d| / 2] else d[|d| / 2 + 1]) ==> 2 * AtMost(d, m - 1) <= |d| + 1
  {
    var h := |d| / 2;
    SortedCount(d, m, h);
    SortedCount(d, m - 1, if |d| % 2 == 0 then h else h + 1);
  }

  lemma Halves(d: seq<u64>)
    requires 2 <= |d| && 50 * |d| < BASE && Sorted(d)
    ensures Percentile(50, d).Some?
    ensures Lower(50, |d|) == |d| / 2
    ensures |d| % 2 == 0 ==> Percentile(50, d).value == d[|d| / 2] && SumFits(50, d)
    ensures |d| % 2 == 1 ==>
      && (SumFits(50, d) <==> var x: nat, y: nat := d[|d| / 2], d[|d| / 2 + 1]; x + y < WORD64)
      && (SumFits(50, d) <==> d[|d| / 2] <= Percentile(50, d).value)
      && (SumFits(50, d) ==> Percentile(50, d).value <= d[|d| / 2 + 1])
  {
    ReadsInBounds(50, d);
    BetweenNeighbours(50, d);
  }

  /** At least half of the samples lie in the interval around the centre whose radius is
    * the deviation, for any centre, exactly when the sum of the two middle deviations
    * fits in 64 bits; and then at most half of them, rounded up, lie strictly closer.
    */
  lemma HalfWithin(a: seq<u64>, centre: u64)
    requires 2 <= |a| && 50 * |a| < BASE
    ensures var d := SortedCopy(Deviations(a, centre));
      && Percentile(50, d).Some?
      && var m: int := Percentile(50, d).value;
      && (2 * |Where(a, centre - m, centre + m)| >= |a| <==> SumFits(50, d))
      && (SumFits(50, d) ==> 2 * |Where(a, centre - m + 1, centre + m - 1)| <= |a| + 1)
  {
    hide Percentile, SumFits, Where, AtMost, SortedCopy, Deviations;
    var d := SortedCopy(Deviations(a, centre));
    SortedCopySorted(Deviations(a, centre));
    Halves(d);
    var m: int := Percentile(50, d).value;
    SortedDeviationsCount(a, centre, m);
    SortedDeviationsCount(a, centre, m - 1);
    CountHalves(d, m);
  }

  lemma SameDeviations()
    ensures var a: seq<u64> := [WORD64 - 1, WORD64 - 1, WORD64 - 1];
      Deviations(a, 0) == a && SortedCopy(a) == a
  {
    var x: u64 := WORD64 - 1;
    DeviationsAppend([], x, 0);
    DeviationsAppend([x], x, 0);
    DeviationsAppend([x, x], x, 0);
    assert Deviations([], 0) == [] && [] + [x] == [x] && [x] + [x] == [x, x] && [x, x] + [x] == [x, x, x];
    assert [x, x, x][1..] == [x, x] && [x, x][1..] == [x] && [x][1..] == [];
    assert SortedCopy([x]) == [x];
    assert SortedCopy([x, x]) == [x, x];
  }

  /** The deviation of the same samples from 0 covers none of them. */
  lemma HalfMissed()
    ensures var a: seq<u64> := [WORD64 - 1, WORD64 - 1, WORD64 - 1];
      var mad := Percentile(50, SortedCopy(Deviations(a, 0)));
      mad.Some? && 2 * |Where(a, 0 - mad.value as int, mad.value)| < |a|
  {
    hide Where, Deviations, SortedCopy, Percentile, SumFits;
    var a: seq<u64> := [WORD64 - 1, WORD64 - 1, WORD64 - 1];
    HalfWithin(a, 0);
    SameDeviations();
    MedianWraps();
  }

  // ----- Average ----------------------------------------------------------------

  /** The exact mean, rounded down. */
  function FloorMean(a: seq<u64>): nat {
    if a == [] then 0 else Sum(a) / |a|
  }

  /** The sum so far is `avg` times `count` plus a remainder below `count`. */
  ghost predicate Split(avg: nat, remainder: nat, a: seq<u64>, count: nat) {
    avg * count + remainder == Sum(a) && (remainder < count || count == 0)
  }

  lemma SplitNone(a: seq<u64>, count: nat)
    ensures a == [] ==> Split(0, 0, a, count)
  {}

  lemma FitsWord(x: nat, count: nat)
    requires count > 0 && x * count <= count * (WORD64 - 1)
    ensures x < WORD64
  {
    if x >= WORD64 {
      Multiply(count, WORD64, x);
      assert false;
    }
  }

  lemma {:induction false} SumBound(a: seq<u64>)
    ensures Sum(a) <= |a| * (WORD64 - 1)
  {
    if a != [] {
      SumBound(a[..|a| - 1]);
    }
  }

  lemma SplitStep(avg: u64, remainder: u64, a: seq<u64>, x: u64, count: u64)
    requires 0 < count < BASE && |a| < count && Split(avg, remainder, a, count)
    ensures var q, r1 := Quot(x, count), Rem(x, count);
      && avg + q < WORD64
      && (remainder >= count - r1 ==>
            avg + q + 1 < WORD64 && Split(avg + q + 1, remainder - (count - r1), a + [x], count))
      && (remainder < count - r1 ==> Split(avg + q, remainder + r1, a + [x], count))
  {
    hide Sum, Quot, Rem;
    var q, r1 := Quot(x, count), Rem(x, count);
    QuotRem(x, count);
    SumOneMore(a, x);
    SumBound(a + [x]);
    Distribute(avg, q, count);
    Distribute(avg + q, 1, count);
    Multiply(WORD64 - 1, |a + [x]|, count);
    FitsWord(if remainder >= count - r1 then avg + q + 1 else avg + q, count);
  }

  lemma SplitMean(avg: nat, remainder: nat, a: seq<u64>, count: nat)
    requires Split(avg, remainder, a, count) && |a| == count && (count == 0 ==> avg == 0)
    ensures avg == FloorMean(a)
  {
    if count > 0 {
      DivMod(Sum(a), count);
      SameSplit(count, avg, remainder, Sum(a) / count, Sum(a) % count);
    }
  }

  /** The mean of the first `count` samples without overflow: quotients and remainders
    * are accumulated apart. Every intermediate is a 64-bit word.
    */
  method Average(results: array<u64>, count: nat) returns (avg: u64)
    requires count <= results.Length && count < BASE
    ensures avg == FloorMean(results[..count])
  {
    avg := 0;
    var remainder: u64 := 0;
    var i := 0;
    SplitNone(results[..0], count);
    hide Sum, Split, FloorMean, Quot, Rem;
    while i < count
      invariant i <= count && (i == 0 ==> avg == 0)
      invariant Split(avg, remainder, results[..i], count)
    {
      SplitStep(avg, remainder, results[..i], results[i], count);
      assert results[..i + 1] == results[..i] + [results[i]];
      var quotient, remainder1 := Quot(results[i], count), Rem(results[i], count);
      avg := avg + quotient;
      if remainder >= count - remainder1 {
        avg := avg + 1;
        remainder := remainder - (count - remainder1);
      } else {
        remainder := remainder + remainder1;
      }
      i := i + 1;
    }
    SplitMean(avg, remainder, results[..count], count);
  }

  /** Accumulating in 64 bits first, as the IPv6 module does, gives the same mean
    * exactly when the sum fits.
    */
  lemma MeansAgree(a: seq<u64>)
    requires 0 < |a| < BASE
    ensures Mean(a) == FloorMean(a) <==> Sum(a) < WORD64
  {
    hide Sum;
    var low := Sum(a) % WORD64;
    if Sum(a) >= WORD64 {
      assert low + |a| <= Sum(a);
      QuotientGap(low, Sum(a), |a|);
    } else {
      Below(Sum(a));
    }
  }
}
