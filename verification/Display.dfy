/** The statistics that the IPv4 module prints, from the raw samples to the histogram. */
module Display {
  import opened Words
  import opened Wrappers
  import opened Stats
  import opened Histogram

  datatype Report =
    | NoMatch
    // A percentile reads past the samples.
    | OutOfBounds
    | Report(min: u64, max: u64, avg: u64, p95: u64, p90: u64, p50: u64, mad: u64, rows: seq<Row>)

  /** Raw width of a bucket, the difference in 64 bits. */
  function Width(min: u64, p95: u64): (w: u64) {
    (p95 - min) % WORD64 / HIST_BUCKETS
  }

  lemma WidthInOrder(min: u64, p95: u64)
    requires min <= p95
    ensures Width(min, p95) == (p95 - min) / HIST_BUCKETS
  {
    Below(p95 - min);
  }

  lemma ShareFits(min: u64, w: u64)
    ensures Share(w) < WORD64 && Start(min, w) <= min
  {
    RoundDownBounds(w, Unit(w));
    RoundDownBounds(min, Unit(w));
    hide Unit, RoundDown;
  }

  // ----- What a report says -----------------------------------------------------

  /** The order of two percentiles, when the sums behind both fit. */
  ghost predicate InOrder(p: u32, x: u64, q: u32, y: u64, a: seq<u64>)
    requires |a| < BASE && Upper(p, |a|) < |a| && Upper(q, |a|) < |a| && a != []
  {
    SumFits(p, a) && SumFits(q, a) ==> a[0] <= x <= y <= a[|a| - 1]
  }

  /** A percentile lies between its two samples exactly when their sum fits; then it is
    * one by rank.
    */
  ghost predicate Between(p: u32, x: u64, a: seq<u64>)
    requires |a| < BASE
  {
    && Percentile(p, a) == Some(x) && Upper(p, |a|) < |a|
    && (SumFits(p, a) <==> a[Lower(p, |a|)] <= x <= a[Upper(p, |a|)])
    && (SumFits(p, a) ==> 100 * |Where(a, 0, x)| > p * |a| && 100 * |Where(a, 0, x - 1)| < p * |a| + 100)
  }

  /** The three percentiles of the sorted samples, in order as far as their sums fit. */
  ghost predicate RightPercentiles(a: seq<u64>, p50: u64, p90: u64, p95: u64)
    requires 20 <= |a| && 95 * |a| < BASE
  {
    && Between(50, p50, a) && Between(90, p90, a) && Between(95, p95, a)
    && InOrder(50, p50, 90, p90, a) && InOrder(90, p90, 95, p95, a)
    && InOrder(50, p50, 95, p95, a) && InOrder(95, p95, 95, p95, a)
  }

  /** The histogram of the sorted samples is finished exactly when the ends of its rows
    * fit; then it accounts for the samples up to the 95th percentile, as far as the
    * buffer goes, and has at most 31 rows unless the rounding unit turned negative.
    */
  ghost predicate RightRows(a: seq<u64>, p95: u64, rows: seq<Row>, full: nat -> bool)
    requires a != [] && Sorted(a)
  {
    var w := Width(a[0], p95);
    var first, share := Start(a[0], w), Share(w);
    && 0 < |rows| && Open(full, |rows| - 1)
    && first <= a[0]
    && (Finished(a, first, share, rows) <==> EndsFit(a, p95, first, share, full))
    && (Finished(a, first, share, rows) ==>
          Counted(rows) == |a| || a[Counted(rows)] > p95 || full(|rows| - 1))
    && (Finished(a, first, share, rows) && a[0] <= p95 && !UnitNegative(w) ==> |rows| <= 31)
  }

  /** The deviation covers at least half of the samples exactly when the sum of the two
    * middle deviations fits.
    */
  ghost predicate CoversHalf(a: seq<u64>, centre: u64, mad: u64)
    requires |a| < BASE
  {
    var d := SortedCopy(Deviations(a, centre));
    && Percentile(50, d) == Some(mad) && Upper(50, |d|) < |d|
    && (2 * |Where(a, centre - mad, centre + mad)| >= |a| <==> SumFits(50, d))
  }

  /** What holds of a printed report over the sorted samples. */
  ghost predicate Faithful(a: seq<u64>, r: Report, full: nat -> bool)
    requires 20 <= |a| && 95 * |a| < BASE && Sorted(a)
  {
    && r.Report?
    && r.min == a[0] && r.max == a[|a| - 1] && r.avg == FloorMean(a)
    && RightPercentiles(a, r.p50, r.p90, r.p95)
    && CoversHalf(a, r.p50, r.mad)
    && RightRows(a, r.p95, r.rows, full)
  }

  // ----- Why it holds -----------------------------------------------------------

  lemma Percentiles(a: seq<u64>)
    requires Sorted(a) && 20 <= |a| && 95 * |a| < BASE
    ensures Percentile(50, a).Some? && Percentile(90, a).Some? && Percentile(95, a).Some?
    ensures RightPercentiles(a, Percentile(50, a).value, Percentile(90, a).value, Percentile(95, a).value)
  {
    hide Percentile, SumFits, Upper, Lower;
    TwentySamples(a);
    BetweenNeighbours(50, a);
    BetweenNeighbours(90, a);
    BetweenNeighbours(95, a);
    PercentileRank(50, a);
    PercentileRank(90, a);
    PercentileRank(95, a);
    PercentileMonotone(50, 90, a);
    PercentileMonotone(90, 95, a);
    PercentileMonotone(50, 95, a);
    PercentileMonotone(95, 95, a);
  }

  lemma MadCovers(a: seq<u64>, centre: u64)
    requires 2 <= |a| && 50 * |a| < BASE
    ensures var d := SortedCopy(Deviations(a, centre));
      Percentile(50, d).Some? && CoversHalf(a, centre, Percentile(50, d).value)
  {
    hide Percentile, SumFits, Where, Deviations, SortedCopy, Upper;
    HalfWithin(a, centre);
    SortedCopySorted(Deviations(a, centre));
    BetweenNeighbours(50, SortedCopy(Deviations(a, centre)));
  }

  /** Which samples a percentile reads depends on their number alone. */
  lemma SameReads(p: u32, a: seq<u64>, b: seq<u64>)
    requires |a| == |b| < BASE
    ensures Percentile(p, a).Some? <==> Percentile(p, b).Some?
  {}

  lemma AtMost31(min: u64, p95: u64, n: nat)
    requires min <= p95 && 0 < n
    ensures var w := Width(min, p95);
      !UnitNegative(w) && RowStart(Start(min, w), Share(w), n - 1) <= p95 ==> n <= 31
  {
    WidthInOrder(min, p95);
    RowsBound(min, p95);
    hide UnitNegative, Start, Share;
    if n > 31 {
      Multiply(Share(Width(min, p95)), 31, n - 1);
    }
  }

  /** Sorts the first `total` samples and computes what is printed of them. `full` stands
    * for the guard on the output buffer, which leaves no room for row `room`.
    */
  method DisplayStatistics(results: array<u64>, total: nat, full: nat -> bool, ghost room: nat) returns (r: Report)
    requires total <= results.Length && total < BASE && full(room)
    modifies results
    ensures results[..total] == SortedCopy(old(results[..total])) && results[total..] == old(results[total..])
    ensures Sorted(results[..total])
    ensures total == 0 ==> r == NoMatch
    ensures 0 < total < 20 ==> r == OutOfBounds
    ensures 20 <= total && 95 * total < BASE ==> Faithful(results[..total], r, full)
  {
    hide Percentile, SortedCopy, Where, Start, Share, UnitNegative, Finished, FloorMean, Deviations, EndsFit, Open,
      Upper, Lower;
    SortedCopySorted(results[..total]);
    Sort(results, total);
    if total == 0 {
      return NoMatch;
    }
    ghost var a := results[..total];
    var p95 := Percentile(95, results[..total]);
    var p90 := Percentile(90, results[..total]);
    var p50 := Percentile(50, results[..total]);
    if 95 * total < BASE {
      TwentySamples(a);
    }
    if p95.None? || p90.None? || p50.None? {
      return OutOfBounds;
    }
    var avg := Average(results, total);
    var mad := Mad(results, p50.value, total);
    SameReads(50, a, SortedCopy(Deviations(a, p50.value)));
    var w := Width(results[0], p95.value);
    ShareFits(results[0], w);
    var rows, i := PrintRows(results[..total], p95.value, Start(results[0], w), Share(w), full, room);
    r := Report(results[0], results[total - 1], avg, p95.value, p90.value, p50.value, mad.value, rows);
    if 20 <= total && 95 * total < BASE {
      Percentiles(a);
      MadCovers(a, p50.value);
      if results[0] <= p95.value {
        AtMost31(results[0], p95.value, |rows|);
      }
    }
  }

  // ----- Samples below 2^63 -----------------------------------------------------

  const HALF := 0x8000_0000_0000_0000

  ghost predicate Moderate(a: seq<u64>) {
    forall i :: 0 <= i < |a| ==> a[i] < HALF
  }

  lemma {:induction false} DeviationsModerate(a: seq<u64>, centre: u64)
    requires Moderate(a) && centre < HALF
    ensures Moderate(Deviations(a, centre))
  {
    if a != [] {
      DeviationsModerate(a[1..], centre);
    }
  }

  lemma SortedModerate(a: seq<u64>)
    requires Moderate(a)
    ensures Moderate(SortedCopy(a))
  {
    forall i | 0 <= i < |a|
      ensures SortedCopy(a)[i] < HALF
    {
      assert SortedCopy(a)[i] in multiset(SortedCopy(a));
      assert SortedCopy(a)[i] in a;
    }
  }

  lemma ModerateFits(p: u32, a: seq<u64>)
    requires Moderate(a) && |a| < BASE && Upper(p, |a|) < |a|
    ensures SumFits(p, a)
  {
    var n := |a|;
    assert Lower(p, n) < n;
    var x: nat, y: nat := a[Lower(p, n)], a[Upper(p, n)];
    assert x + y < WORD64;
  }

  lemma ModerateEnds(a: seq<u64>, p95: u64, full: nat -> bool)
    requires a != [] && Sorted(a) && a[0] <= p95 < HALF
    ensures var w := Width(a[0], p95);
      Start(a[0], w) <= a[0] && EndsFit(a, p95, Start(a[0], w), Share(w), full)
  {
    var w := Width(a[0], p95);
    var first, share := Start(a[0], w), Share(w);
    WidthInOrder(a[0], p95);
    ShareFits(a[0], w);
    RoundDownBounds(w, Unit(w));
    assert share <= HALF;
    hide Unit, RoundDown, Start, Share, Width, RowOf, EndsFit;
    var k := RowOf(p95, first, share);
    RowOfIs(p95, first, share, k);
    NextRow(first, share, k);
    LastEndFits(a, p95, first, share, full);
  }

  /** A right report in which no sum wrapped. */
  ghost predicate Unconditional(a: seq<u64>, r: Report) {
    && r.Report?
    && r.min <= r.p50 <= r.p90 <= r.p95 <= r.max
    && 2 * |Where(a, r.p50 - r.mad, r.p50 + r.mad)| >= |a| > 0
    && var w := Width(r.min, r.p95);
    && Finished(a, Start(r.min, w), Share(w), r.rows)
    && (!UnitNegative(w) ==> |r.rows| <= 31)
  }

  /** On samples below 2^63 no sum wraps: the report is right without conditions. */
  lemma ModerateReport(a: seq<u64>, r: Report, full: nat -> bool)
    requires 20 <= |a| && 95 * |a| < BASE && Sorted(a) && Moderate(a)
    ensures Faithful(a, r, full) ==> Unconditional(a, r)
  {
    hide Percentile, SumFits, Where, Start, Share, UnitNegative, Finished, FloorMean, Deviations, EndsFit, Open,
      Upper, Lower, SortedCopy, Width;
    if Faithful(a, r, full) {
      ModerateFits(50, a);
      ModerateFits(90, a);
      ModerateFits(95, a);
      DeviationsModerate(a, r.p50);
      SortedModerate(Deviations(a, r.p50));
      ModerateFits(50, SortedCopy(Deviations(a, r.p50)));
      ModerateEnds(a, r.p95, full);
    }
  }
}
