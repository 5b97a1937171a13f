/** The histogram of the IPv4 benchmark module: width of a bucket, rows and bars. */
module Histogram {
  import opened Words

  const HIST_BUCKETS := 15
  const HIST_WIDTH := 50

  // ----- Width of a bucket ------------------------------------------------------

  /** Index of the highest bit, or -1. */
  function Log2(w: nat): (l: int)
    ensures l >= -1 && (l == -1 <==> w == 0)
  {
    if w == 0 then -1 else 1 + Log2(w / 2)
  }

  /** A signed 32-bit word. */
  function Wrap(x: int): (r: int)
    ensures -0x8000_0000 <= r < 0x8000_0000
    ensures -0x8000_0000 <= x < 0x8000_0000 ==> r == x
  {
    (x + 0x8000_0000) % BASE - 0x8000_0000
  }

  /** The number of decimal digits the code aims at. */
  function Order(w: u64): (k: nat) {
    var k := (Log2(w) * 3 + 5) / 10;
    if k <= 0 then 1 else k
  }

  /** The rounding unit for `i` digits, in a signed 32-bit word. */
  function Power(i: nat): (u: int)
    ensures -0x8000_0000 <= u < 0x8000_0000
  {
    if i <= 1 then 1 else Wrap(Power(i - 1) * 10)
  }

  lemma {:induction false} Log2Bounds(w: nat)
    requires w > 0
    ensures Pow(2, Log2(w)) <= w < 2 * Pow(2, Log2(w))
  {
    if w > 1 {
      Log2Bounds(w / 2);
    }
  }

  /** Ten to the `m` is below the bits that make the code choose `m + 1` digits. */
  lemma {:induction false} TenBelowTwo(m: nat, l: nat)
    requires 10 * m <= 3 * l
    ensures Pow(10, m) <= Pow(2, l)
    decreases m
  {
    if m >= 3 {
      TenBelowTwo(m - 3, l - 10);
      assert Pow(10, m) == 10 * Pow(10, m - 1) == 100 * Pow(10, m - 2) == 1000 * Pow(10, m - 3);
      assert Pow(2, l) == 2 * Pow(2, l - 1) == 4 * Pow(2, l - 2) == 8 * Pow(2, l - 3);
      assert Pow(2, l - 3) == 2 * Pow(2, l - 4) == 4 * Pow(2, l - 5) == 8 * Pow(2, l - 6);
      assert Pow(2, l - 6) == 2 * Pow(2, l - 7) == 4 * Pow(2, l - 8) == 8 * Pow(2, l - 9);
      assert Pow(2, l - 9) == 2 * Pow(2, l - 10);
    } else {
      PowMonotone(2, if m == 0 then 0 else if m == 1 then 4 else 7, l);
      assert Pow(2, 4) == 16 && Pow(2, 7) == 8 * Pow(2, 4);
      assert Pow(10, 1) == 10 && Pow(10, 2) == 100;
    }
  }

  lemma {:induction false} PowerExact(i: nat)
    requires 1 <= i <= 10
    ensures Power(i) == Pow(10, i - 1)
  {
    if i > 1 {
      PowerExact(i - 1);
      PowMonotone(10, i - 1, 9);
      PowMonotone(10, i - 2, 8);
      assert Pow(10, 3) == 1000 && Pow(10, 6) == 1000 * Pow(10, 3) && Pow(10, 9) == 1000 * Pow(10, 6);
    }
  }

  /** The unit is never null, so the divisions by it are defined. It is negative for 13,
    * 16 and 19 digits.
    */
  lemma PowerSign(i: nat)
    requires 1 <= i <= 19
    ensures Power(i) != 0
    ensures Power(i) < 0 <==> i == 13 || i == 16 || i == 19
  {
    assert Power(2) == 10;
    assert Power(3) == 100;
    assert Power(4) == 1000;
    assert Power(5) == 10000;
    assert Power(6) == 100000;
    assert Power(7) == 1000000;
    assert Power(8) == 10000000;
    assert Power(9) == 100000000;
    assert Power(10) == 1000000000;
    assert Power(11) == 1410065408;
    assert Power(12) == 1215752192;
    assert Power(13) == -727379968;
    assert Power(14) == 1316134912;
    assert Power(15) == 276447232;
    assert Power(16) == -1530494976;
    assert Power(17) == 1874919424;
    assert Power(18) == 1569325056;
    assert Power(19) == -1486618624;
  }

  /** The highest bit of a number tells between which powers of two it lies. */
  lemma Log2AtLeast(w: nat, l: nat)
    requires w > 0
    ensures Log2(w) >= l <==> w >= Pow(2, l)
  {
    Log2Bounds(w);
    var k: nat := Log2(w);
    if k >= l {
      PowMonotone(2, l, k);
    } else {
      PowMonotone(2, k + 1, l);
    }
  }

  lemma SmallPowers()
    ensures Pow(2, 3) == 8 && Pow(2, 10) == 1024 && Pow(2, 16) == 0x1_0000
  {
    assert Pow(2, 1) == 2 && Pow(2, 2) == 4 && Pow(2, 3) == 8;
    PowAdd(2, 2, 3);
    PowAdd(2, 5, 5);
    PowAdd(2, 3, 3);
    PowAdd(2, 6, 10);
  }

  lemma Powers()
    ensures Pow(2, 35) == 0x8_0000_0000 && Pow(2, 64) == WORD64
    ensures Pow(2, 42) == 0x400_0000_0000 && Pow(2, 45) == 0x2000_0000_0000
    ensures Pow(2, 52) == 0x10_0000_0000_0000 && Pow(2, 55) == 0x80_0000_0000_0000
    ensures Pow(2, 62) == 0x4000_0000_0000_0000
  {
    SmallPowers();
    hide Pow;
    PowAdd(2, 16, 16);
    PowAdd(2, 3, 32);
    PowAdd(2, 10, 32);
    PowAdd(2, 3, 42);
    PowAdd(2, 10, 42);
    PowAdd(2, 3, 52);
    PowAdd(2, 10, 52);
    PowAdd(2, 32, 32);
  }

  lemma OrderBound(w: u64)
    ensures 1 <= Order(w) <= 19
    ensures Order(w) <= 10 <==> w < 0x8_0000_0000
  {
    if w > 0 {
      Log2AtLeast(w, 35);
      Log2AtLeast(w, 64);
      Powers();
      hide Log2, Pow;
    }
  }

  /** The raw widths whose rounding unit turns negative in its 32-bit int. */
  predicate UnitNegative(w: u64) {
    || 0x400_0000_0000 <= w < 0x2000_0000_0000
    || 0x10_0000_0000_0000 <= w < 0x80_0000_0000_0000
    || 0x4000_0000_0000_0000 <= w
  }

  lemma OrderOfNone()
    ensures Order(0) == 1 && !UnitNegative(0)
  {}

  /** Which highest bits make the code choose 13, 16 or 19 digits. */
  lemma OrderLevels(w: u64)
    ensures Log2(w) >= 64 || (Order(w) == 13 || Order(w) == 16 || Order(w) == 19 <==>
      42 <= Log2(w) < 45 || 52 <= Log2(w) < 55 || 62 <= Log2(w))
  {
    hide Log2;
  }

  lemma NegativeLevels(w: u64)
    requires w > 0
    ensures Log2(w) < 64
    ensures UnitNegative(w) <==> 42 <= Log2(w) < 45 || 52 <= Log2(w) < 55 || 62 <= Log2(w)
  {
    hide Log2, Pow;
    Powers();
    Log2AtLeast(w, 42);
    Log2AtLeast(w, 45);
    Log2AtLeast(w, 52);
    Log2AtLeast(w, 55);
    Log2AtLeast(w, 62);
    Log2AtLeast(w, 64);
  }

  lemma PowerNegative(w: u64)
    ensures Power(Order(w)) != 0
    ensures Power(Order(w)) < 0 <==> UnitNegative(w)
  {
    hide Power, Log2, Pow, UnitNegative;
    OrderBound(w);
    PowerSign(Order(w));
    OrderLevels(w);
    if w > 0 {
      NegativeLevels(w);
    } else {
      assert Order(w) == 1 && !UnitNegative(w) by { OrderOfNone(); }
    }
  }

  lemma Widened(x: int)
    requires -0x8000_0000 <= x < 0x8000_0000
    ensures x % WORD64 == if x < 0 then x + WORD64 else x
  {}

  lemma UnitNonZero(w: u64)
    ensures Power(Order(w)) % WORD64 > 0
  {
    PowerNegative(w);
    hide Power, Order;
    Widened(Power(Order(w)));
  }

  /** The rounding unit as the 64-bit divisor it becomes. */
  function Unit(w: u64): (u: u64)
    ensures u > 0
  {
    UnitNonZero(w);
    Power(Order(w)) % WORD64
  }

  /** A signed 32-bit word widened to 64 bits is never between 10^10 and 10^18. */
  lemma NotSigned(x: int, t: nat)
    requires -0x8000_0000 <= x < 0x8000_0000
    requires 10_000_000_000 <= t <= 1_000_000_000_000_000_000
    ensures x % WORD64 != t
  {
    assert x % WORD64 == if x < 0 then x + WORD64 else x;
  }

  lemma TenPowers()
    ensures Pow(10, 10) == 10_000_000_000 && Pow(10, 18) == 1_000_000_000_000_000_000
  {
    assert Pow(10, 2) == 100 && Pow(10, 3) == 1000;
    PowAdd(10, 3, 3);
    PowAdd(10, 3, 6);
    PowAdd(10, 9, 9);
    PowAdd(10, 1, 9);
    assert Pow(10, 1) == 10;
  }

  /** The number of digits by the highest bit. */
  lemma OrderTable(w: u64)
    ensures var l := Log2(w);
      && (l < 9 ==> Order(w) == if l < 5 then 1 else 2)
      && (9 <= l < 15 ==> Order(w) == if l < 12 then 3 else 4)
      && (15 <= l < 22 ==> Order(w) == if l < 19 then 5 else 6)
      && (22 <= l < 29 ==> Order(w) == if l < 25 then 7 else 8)
      && (29 <= l < 35 ==> Order(w) == if l < 32 then 9 else 10)
  {
    hide Log2;
  }

  lemma FirstPowers()
    ensures Power(1) == 1 && Power(2) == 10 && Power(3) == 100 && Power(4) == 1000 && Power(5) == 10000
    ensures Power(6) == 100000 && Power(7) == 1000000 && Power(8) == 10000000
    ensures Power(9) == 100000000 && Power(10) == 1000000000
  {
    assert Power(2) == 10;
    assert Power(3) == 100;
    assert Power(4) == 1000;
    assert Power(5) == 10000;
    assert Power(6) == 100000;
    assert Power(7) == 1000000;
    assert Power(8) == 10000000;
    assert Power(9) == 100000000;
  }

  lemma HalfKilo()
    ensures Pow(2, 2) == 4 && Pow(2, 9) == 512
  {
    assert Pow(2, 10) == 2 * Pow(2, 9);
    SmallPowers();
    assert Pow(2, 2) == 2 * Pow(2, 1);
  }

  lemma Thresholds()
    ensures Pow(2, 5) == 0x20 && Pow(2, 9) == 0x200 && Pow(2, 12) == 0x1000 && Pow(2, 15) == 0x8000
    ensures Pow(2, 19) == 0x8_0000 && Pow(2, 22) == 0x40_0000 && Pow(2, 25) == 0x200_0000
    ensures Pow(2, 29) == 0x2000_0000 && Pow(2, 32) == 0x1_0000_0000 && Pow(2, 35) == 0x8_0000_0000
  {
    SmallPowers();
    hide Pow;
    PowAdd(2, 2, 3);
    PowAdd(2, 3, 16);
    PowAdd(2, 3, 19);
    PowAdd(2, 3, 22);
    PowAdd(2, 10, 19);
    PowAdd(2, 16, 16);
    PowAdd(2, 10, 2);
    PowAdd(2, 3, 12);
    PowAdd(2, 10, 25);
    PowAdd(2, 3, 32);
    HalfKilo();
  }

  /** The rounding unit for every raw width below 2^35. */
  lemma UnitTable(w: u64)
    requires w < 0x8_0000_0000
    ensures Unit(w) ==
      if w < 0x20 then 1 else if w < 0x200 then 10 else if w < 0x1000 then 100 else if w < 0x8000 then 1000
      else if w < 0x8_0000 then 10000 else if w < 0x40_0000 then 100000 else if w < 0x200_0000 then 1000000
      else if w < 0x2000_0000 then 10000000 else if w < 0x1_0000_0000 then 100000000 else 1000000000
  {
    hide Log2, Pow, Power, Order;
    FirstPowers();
    OrderTable(w);
    if w > 0 {
      Thresholds();
      Log2AtLeast(w, 5);
      Log2AtLeast(w, 9);
      Log2AtLeast(w, 12);
      Log2AtLeast(w, 15);
      Log2AtLeast(w, 19);
      Log2AtLeast(w, 22);
      Log2AtLeast(w, 25);
      Log2AtLeast(w, 29);
      Log2AtLeast(w, 32);
      Log2AtLeast(w, 35);
    }
    Below(Power(Order(w)));
  }

  /** The unit fits the raw width: it is at most a third of it, and not less than a 54th. */
  lemma UnitFitsWidth(w: u64)
    requires 3 <= w < 0x8_0000_0000
    ensures 3 * Unit(w) <= w < 54 * Unit(w)
  {
    hide Unit;
    UnitTable(w);
  }

  /** The unit is the power of ten that was meant exactly when the raw width is below
    * 2^35; beyond, the multiplication in a 32-bit int overflows.
    */
  lemma UnitExact(w: u64)
    ensures Unit(w) == Pow(10, Order(w) - 1) <==> w < 0x8_0000_0000
  {
    OrderBound(w);
    var i := Order(w);
    if i <= 10 {
      PowerExact(i);
      Below(Power(i));
    } else {
      TenPowers();
      PowMonotone(10, 10, i - 1);
      PowMonotone(10, i - 1, 18);
      NotSigned(Power(i), Pow(10, i - 1));
    }
  }

  function RoundDown(x: nat, u: nat): (r: nat)
    requires u > 0
  {
    x / u * u
  }

  lemma RoundDownBounds(x: nat, u: nat)
    requires u > 0
    ensures RoundDown(x, u) <= x < RoundDown(x, u) + u
    ensures u <= x ==> u <= RoundDown(x, u)
    ensures x < u ==> RoundDown(x, u) == 0
  {
    DivMod(x, u);
    if x < u {
      DivBelow(x, u, 1);
    }
    if u <= x {
      QuotientGap(x - u, x, u);
      Multiply(u, 1, x / u);
    }
  }

  lemma RoundDownMultiple(x: nat, u: nat)
    requires u > 0
    ensures RoundDown(x, u) % u == 0
  {
    AddMultiple(x / u, 0, u);
  }

  /** The width of a bucket, rounded down to the unit but never null. */
  function Share(w: u64): (s: nat)
    ensures s > 0
  {
    var s := RoundDown(w, Unit(w));
    if s <= 0 then 1 else s
  }

  /** The value of the first row. */
  function Start(min: u64, w: u64): (s: nat) {
    RoundDown(min, Unit(w))
  }

  /** The first row starts at the last multiple of the unit up to the smallest sample, and
    * the width of a bucket is the last one up to the raw width, or 1 below the unit.
    */
  lemma Rounded(min: u64, w: u64)
    ensures var u := Unit(w);
      && Start(min, w) % u == 0 && Start(min, w) <= min < Start(min, w) + u
      && (u <= w ==> Share(w) % u == 0 && Share(w) <= w < Share(w) + u)
      && (w < u ==> Share(w) == 1)
  {
    var u := Unit(w);
    hide Unit, RoundDown;
    RoundDownBounds(min, u);
    RoundDownBounds(w, u);
    RoundDownMultiple(min, u);
    RoundDownMultiple(w, u);
  }

  lemma Widths(range: nat, w: nat, gap: nat, unit: nat, rounded: nat)
    requires w == range / HIST_BUCKETS && gap < unit && rounded <= w < rounded + unit
    ensures unit <= rounded ==> range + gap < 31 * rounded && w < 2 * rounded
    ensures w == 0 && unit == 1 ==> range + gap < 31
    ensures w >= 31 ==> range >= 31
    ensures range >= 15 ==> 15 * rounded <= range && 15 <= range
  {}

  lemma UnitOfNone()
    ensures Unit(0) == 1
  {
    OrderOfNone();
  }

  lemma UnitAtMost(w: u64)
    requires 0 < w < 0x8_0000_0000
    ensures Unit(w) <= w
  {
    UnitExact(w);
    Log2Bounds(w);
    TenBelowTwo(Order(w) - 1, Log2(w));
  }

  /** A unit that is not negative is at most the raw width; widened to 64 bits, a
    * negative one exceeds every width a histogram can have.
    */
  lemma UnitSize(w: u64)
    ensures !UnitNegative(w) ==> Unit(w) <= if w == 0 then 1 else w
    ensures UnitNegative(w) ==> 0x8_0000_0000 <= w && (w <= WORD64 / HIST_BUCKETS ==> w < Unit(w))
  {
    PowerNegative(w);
    OrderBound(w);
    hide Power, Order;
    Widened(Power(Order(w)));
    if w == 0 {
      UnitOfNone();
    } else if w < 0x8_0000_0000 {
      UnitAtMost(w);
    }
  }

  /** From the first row to the 95th percentile there are fewer than 31 bucket widths,
    * hence at most 31 rows, exactly when the rounding unit does not turn negative;
    * rounding then keeps more than half of the raw width. There are at least 15 widths
    * unless the samples are closer together than that.
    */
  lemma RowsBound(min: u64, p95: u64)
    requires min <= p95
    ensures var w := (p95 - min) / HIST_BUCKETS;
      && (p95 - Start(min, w) < 31 * Share(w) <==> !UnitNegative(w))
      && (!UnitNegative(w) ==> w < 2 * Share(w) && (w > 0 ==> Share(w) <= w))
      && (p95 - min >= 15 ==> 15 * Share(w) <= p95 - min)
  {
    var w: u64 := (p95 - min) / HIST_BUCKETS;
    UnitSize(w);
    hide Unit, RoundDown, UnitNegative;
    RoundDownBounds(min, Unit(w));
    RoundDownBounds(w, Unit(w));
    Widths(p95 - min, w, min - Start(min, w), Unit(w), RoundDown(w, Unit(w)));
  }

  /** Where the unit is negative the buckets collapse to width 1. */
  lemma BucketsCollapse(min: u64, p95: u64)
    requires min <= p95
    ensures var w := (p95 - min) / HIST_BUCKETS;
      && (UnitNegative(w) <==> w > 1 && Share(w) == 1)
      && (UnitNegative(w) ==> Start(min, w) == 0 || min >= Unit(w))
  {
    var w: u64 := (p95 - min) / HIST_BUCKETS;
    UnitSize(w);
    RoundDownBounds(w, Unit(w));
    RoundDownBounds(min, Unit(w));
    RowsBound(min, p95);
    hide Unit, RoundDown;
  }

  // ----- Rows -------------------------------------------------------------------

  /** How many samples lie in [low, high). */
  function CountIn(a: seq<u64>, low: int, high: int): (k: nat)
    ensures k <= |a|
  {
    if a == [] then 0
    else
      var x := a[|a| - 1];
      CountIn(a[..|a| - 1], low, high) + if low <= x < high then 1 else 0
  }

  lemma {:induction false} CountInIs(a: seq<u64>, low: int, high: int)
    ensures CountIn(a, low, high) == |Where(a, low, high - 1)|
  {
    hide Where;
    if a == [] {
      NowhereInNone(low, high - 1);
    } else {
      var b, x := a[..|a| - 1], a[|a| - 1];
      CountInIs(b, low, high);
      assert a == b + [x];
      WhereBack(b, x, low, high - 1);
    }
  }

  lemma {:induction false} CountAll(a: seq<u64>, low: int, high: int)
    requires forall i :: 0 <= i < |a| ==> low <= a[i] < high
    ensures CountIn(a, low, high) == |a|
  {
    if a != [] {
      CountAll(a[..|a| - 1], low, high);
    }
  }

  lemma {:induction false} CountNone(a: seq<u64>, low: int, high: int)
    requires forall i :: 0 <= i < |a| ==> a[i] < low
    ensures CountIn(a, low, high) == 0
  {
    if a != [] {
      CountNone(a[..|a| - 1], low, high);
    }
  }

  lemma CountOneMore(a: seq<u64>, i: nat, low: int, high: int)
    requires i < |a|
    ensures CountIn(a[..i + 1], low, high) == CountIn(a[..i], low, high) + if low <= a[i] < high then 1 else 0
  {
    assert a[..i + 1][..i] == a[..i];
  }

  lemma {:induction false} CountPrefix(a: seq<u64>, i: nat, low: int, high: int)
    requires i <= |a| && forall j :: i <= j < |a| ==> a[j] >= high
    ensures CountIn(a, low, high) == CountIn(a[..i], low, high)
    decreases |a|
  {
    if i < |a| {
      CountPrefix(a[..|a| - 1], i, low, high);
      assert a[..|a| - 1][..i] == a[..i];
    } else {
      assert a[..i] == a;
    }
  }

  /** A printed row: the value it starts at, how many samples it counts, and its bar of
    * dark, light and blank cells.
    */
  datatype Row = Row(start: nat, count: nat, dark: nat, light: nat, blank: nat)

  function Counted(rows: seq<Row>): nat {
    if rows == [] then 0 else Counted(rows[..|rows| - 1]) + rows[|rows| - 1].count
  }

  lemma CountedOneMore(rows: seq<Row>, row: Row)
    ensures Counted(rows + [row]) == Counted(rows) + row.count
  {
    assert (rows + [row])[..|rows|] == rows;
  }

  /** How many cells stand for `n` of `total` samples. */
  function Cells(n: nat, total: nat): (c: nat)
    requires total > 0
  {
    n * HIST_WIDTH / total
  }

  /** The share of the width that the samples are of the total, rounded down. */
  lemma CellsAre(n: nat, total: nat)
    requires total > 0
    ensures Cells(n, total) * total <= 50 * n < (Cells(n, total) + 1) * total
  {
    DivMod(n * HIST_WIDTH, total);
    Distribute(Cells(n, total), 1, total);
  }

  lemma CellsFit(count: nat, count2: nat, total: nat)
    requires 0 < total && count <= count2 <= total
    ensures Cells(count, total) <= Cells(count2, total) <= HIST_WIDTH
  {
    QuotientMonotone(count * HIST_WIDTH, count2 * HIST_WIDTH, total);
    DivBelow(count2 * HIST_WIDTH, total, HIST_WIDTH + 1);
  }

  /** Draws a bar: dark cells for the row, light cells up to the samples so far, and
    * padding. The three always fill the width.
    */
  method Bar(count: nat, count2: nat, total: nat) returns (dark: nat, light: nat, blank: nat)
    requires 0 < total && count <= count2 <= total
    ensures dark + light + blank == HIST_WIDTH
    ensures dark == Cells(count, total) && dark + light == Cells(count2, total)
  {
    CellsFit(count, count2, total);
    dark, light := 0, 0;
    var j := 0;
    while j < Cells(count, total)
      invariant j == dark <= Cells(count, total)
    {
      dark, j := dark + 1, j + 1;
    }
    while j < Cells(count2, total)
      invariant j == dark + light <= Cells(count2, total)
    {
      light, j := light + 1, j + 1;
    }
    blank := HIST_WIDTH - Cells(count2, total);
  }

  /** Where row number `k` starts. */
  function RowStart(first: nat, share: nat, k: nat): (s: nat) {
    first + k * share
  }

  lemma NextRow(first: nat, share: nat, k: nat)
    ensures RowStart(first, share, k + 1) == RowStart(first, share, k) + share
    ensures RowStart(first, share, 0) == first
  {
    Distribute(k, 1, share);
  }

  /** What row number `k` must hold: dark cells for its samples, light cells up to all
    * samples so far.
    */
  predicate Right(row: Row, k: nat, results: seq<u64>, first: nat, share: nat)
    requires results != []
  {
    && row.dark == Cells(row.count, |results|)
    && row.dark + row.light == Cells(CountIn(results, first, row.start + share), |results|)
    && row.start == RowStart(first, share, k)
    && row.count == CountIn(results, row.start, row.start + share)
    && row.dark + row.light + row.blank == HIST_WIDTH
  }

  /** Every row printed so far holds what it must. */
  ghost predicate AllRight(rows: seq<Row>, results: seq<u64>, first: nat, share: nat)
    requires results != []
  {
    forall k :: 0 <= k < |rows| ==> Right(rows[k], k, results, first, share)
  }

  /** The row [low, high) is being counted and `i` samples are consumed. */
  ghost predicate Counting(a: seq<u64>, i: nat, low: nat, high: nat, count: nat)
    requires i <= |a|
  {
    && (forall j :: 0 <= j < i ==> a[j] < high)
    && (forall j :: i <= j < |a| ==> a[j] >= low)
    && count == CountIn(a[..i], low, high)
  }

  lemma RowDone(a: seq<u64>, i: nat, low: nat, high: nat, count: nat, next: nat)
    requires i <= |a| && Sorted(a) && Counting(a, i, low, high, count)
    requires i == |a| || a[i] >= high
    ensures count == CountIn(a, low, high)
    ensures Counting(a, i, high, next, 0) || next < high
    ensures forall j :: 0 <= j < |a| ==> (a[j] < high <==> j < i)
  {
    CountPrefix(a, i, low, high);
    CountNone(a[..i], high, next);
  }

  lemma CountSoFar(a: seq<u64>, i: nat, first: nat, high: nat)
    requires i <= |a| && forall j :: 0 <= j < |a| ==> first <= a[j] && (a[j] < high <==> j < i)
    ensures CountIn(a, first, high) == i
  {
    CountPrefix(a, i, first, high);
    CountAll(a[..i], first, high);
  }

  /** The rows printed so far are right, and the next one starts at `start` and has
    * counted `count` samples.
    */
  ghost predicate Printing(results: seq<u64>, first: nat, share: nat, rows: seq<Row>, i: nat, start: nat, count: nat) {
    && results != [] && Sorted(results) && i <= |results|
    && AllRight(rows, results, first, share)
    && start == RowStart(first, share, |rows|)
    && i == Counted(rows) + count
    && Counting(results, i, start, start + share, count)
  }

  lemma FirstRow(results: seq<u64>, first: nat, share: nat)
    requires results != [] && Sorted(results) && first <= results[0]
    ensures Printing(results, first, share, [], 0, first, 0)
  {
    NextRow(first, share, 0);
  }

  lemma SameRow(results: seq<u64>, first: nat, share: nat, rows: seq<Row>, i: nat, start: nat, count: nat)
    requires Printing(results, first, share, rows, i, start, count)
    ensures count <= i <= |results|
    ensures i < |results| && results[i] < start + share ==>
      Printing(results, first, share, rows, i + 1, start, count + 1)
  {
    if i < |results| {
      CountOneMore(results, i, start, start + share);
    }
  }

  /** What a finished histogram holds: every row is right, the counts add up to the
    * samples below the end of the last row.
    */
  ghost predicate Finished(results: seq<u64>, first: nat, share: nat, rows: seq<Row>)
    requires results != []
  {
    && Counted(rows) <= |results|
    && AllRight(rows, results, first, share)
    && forall j :: 0 <= j < |results| ==> (results[j] < RowStart(first, share, |rows|) <==> j < Counted(rows))
  }

  lemma RowPrinted(results: seq<u64>, first: nat, share: nat, rows: seq<Row>, i: nat, start: nat, count: nat, row: Row)
    requires results != [] && (i == |results| || (i < |results| && results[i] >= start + share))
    requires forall j :: 0 <= j < |results| ==> first <= results[j]
    requires row.start == start && row.count == count
    requires row.dark == Cells(count, |results|) && row.dark + row.light == Cells(i, |results|)
    requires row.dark + row.light + row.blank == HIST_WIDTH
    ensures Printing(results, first, share, rows, i, start, count) ==>
      && Printing(results, first, share, rows + [row], i, start + share, 0)
      && Finished(results, first, share, rows + [row]) && Counted(rows + [row]) == i
  {
    hide CountIn, Counted, Sorted, RowStart, Cells;
    if Printing(results, first, share, rows, i, start, count) {
      RowDone(results, i, start, start + share, count, start + share + share);
      CountSoFar(results, i, first, start + share);
      CountedOneMore(rows, row);
      NextRow(first, share, |rows|);
    }
  }

  /** The row a sample falls in. */
  function RowOf(x: nat, first: nat, share: nat): (k: nat)
    requires first <= x && share > 0
  {
    (x - first) / share
  }

  lemma RowOfIs(x: nat, first: nat, share: nat, k: nat)
    requires first <= x && share > 0
    ensures k <= RowOf(x, first, share) <==> RowStart(first, share, k) <= x
  {
    var q := RowOf(x, first, share);
    DivMod(x - first, share);
    Distribute(q, 1, share);
    if k <= q {
      Multiply(share, k, q);
    } else {
      Multiply(share, q + 1, k);
    }
  }

  lemma RowsApart(first: nat, share: nat, k: nat, l: nat)
    ensures k <= l ==> RowStart(first, share, k) <= RowStart(first, share, l)
  {
    if k <= l {
      Multiply(share, k, l);
    }
  }

  /** The buffer is not full after any of the first `k` rows. */
  ghost predicate Open(full: nat -> bool, k: nat) {
    forall j :: 0 <= j < k ==> !full(j)
  }

  /** The first row ends below 2^64, and so does the row of every sample up to the 95th
    * percentile, unless the buffer is full before that row.
    */
  ghost predicate EndsFit(results: seq<u64>, p95: u64, first: nat, share: nat, full: nat -> bool)
    requires share > 0 && forall j :: 0 <= j < |results| ==> first <= results[j]
  {
    && first + share < WORD64
    && forall j :: 0 <= j < |results| && results[j] <= p95 && Open(full, RowOf(results[j], first, share)) ==>
         RowStart(first, share, RowOf(results[j], first, share) + 1) < WORD64
  }

  /** Where the printing loop stands: `count` of the `i` samples consumed so far belong
    * to the row that starts at `start`. `wrapped` says that the end of some printed row
    * did not fit 64 bits.
    */
  ghost predicate Standing(results: seq<u64>, p95: u64, first: nat, share: nat, full: nat -> bool,
                           rows: seq<Row>, i: nat, start: nat, count: nat, wrapped: bool)
    requires share > 0 && forall j :: 0 <= j < |results| ==> first <= results[j]
  {
    && results != [] && Open(full, |rows|)
    && if wrapped then !EndsFit(results, p95, first, share, full) && !AllRight(rows, results, first, share)
       else
         && Printing(results, first, share, rows, i, start, count)
         && (rows == [] || start <= p95)
         && (EndsFit(results, p95, first, share, full) ==> start + share < WORD64)
         && (start + share >= WORD64 ==> count == 0 && i < |results|)
  }

  lemma StandingFirst(results: seq<u64>, p95: u64, first: u64, share: u64, full: nat -> bool)
    requires results != [] && Sorted(results) && share > 0 && first <= results[0]
    ensures forall j :: 0 <= j < |results| ==> first <= results[j]
    ensures Standing(results, p95, first, share, full, [], 0, first, 0, false)
  {
    FirstRow(results, first, share);
  }

  /** A row that starts after `k` others, at or below a sample up to the 95th percentile,
    * has an end that fits when all those that matter do.
    */
  lemma RowEndFits(results: seq<u64>, p95: u64, first: nat, share: nat, full: nat -> bool, k: nat, i: nat)
    requires share > 0 && forall j :: 0 <= j < |results| ==> first <= results[j]
    requires EndsFit(results, p95, first, share, full) && Open(full, k)
    requires i < |results| && RowStart(first, share, k) <= results[i] <= p95
    ensures RowStart(first, share, k + 1) < WORD64
  {
    hide RowOf, RowStart;
    var q := RowOf(results[i], first, share);
    RowOfIs(results[i], first, share, k);
    if q > k {
      RowOfIs(results[i], first, share, k + 1);
    }
  }

  lemma WrappedEnd(start: u64, share: u64)
    ensures if start + share < WORD64 then (start + share) % WORD64 == start + share
            else (start + share) % WORD64 < start
  {}

  /** The sample at hand belongs to the current row. */
  lemma StandingSample(results: seq<u64>, p95: u64, first: u64, share: u64, full: nat -> bool,
                       rows: seq<Row>, i: nat, start: u64, count: nat, wrapped: bool)
    requires share > 0 && forall j :: 0 <= j < |results| ==> first <= results[j]
    requires Standing(results, p95, first, share, full, rows, i, start, count, wrapped)
    requires i < |results| && results[i] < (start + share) % WORD64
    ensures Standing(results, p95, first, share, full, rows, i + 1, start, count + 1, wrapped)
  {
    hide EndsFit, AllRight, Open;
    if !wrapped {
      SameRow(results, first, share, rows, i, start, count);
      WrappedEnd(start, share);
      assert results[i] >= start;
      hide Printing;
    }
  }

  lemma {:induction false} CountSome(a: seq<u64>, i: nat, low: int, high: int)
    requires i < |a| && low <= a[i] < high
    ensures CountIn(a, low, high) > 0
  {
    if i < |a| - 1 {
      CountSome(a[..|a| - 1], i, low, high);
    }
  }

  /** A row whose end wraps around misses the sample at hand. */
  lemma WrongRow(results: seq<u64>, first: nat, share: nat, rows: seq<Row>, i: nat, start: nat, row: Row)
    requires Printing(results, first, share, rows, i, start, 0)
    requires start + share >= WORD64 && i < |results|
    requires row.start == start && row.count == 0
    ensures !AllRight(rows + [row], results, first, share)
  {
    CountSome(results, i, start, start + share);
    hide CountIn;
    assert (rows + [row])[|rows|] == row;
    assert !Right(row, |rows|, results, first, share);
  }

  lemma WrongRowStays(results: seq<u64>, first: nat, share: nat, rows: seq<Row>, row: Row)
    requires results != [] && !AllRight(rows, results, first, share)
    ensures !AllRight(rows + [row], results, first, share)
  {
    var k :| 0 <= k < |rows| && !Right(rows[k], k, results, first, share);
    assert !Right((rows + [row])[k], k, results, first, share);
  }

  lemma NextEndFits(results: seq<u64>, p95: u64, first: nat, share: nat, full: nat -> bool, rows: seq<Row>, i: nat)
    requires share > 0 && forall j :: 0 <= j < |results| ==> first <= results[j]
    requires i < |results| && results[i] <= p95 && Open(full, |rows|)
    requires RowStart(first, share, |rows|) <= results[i]
    ensures EndsFit(results, p95, first, share, full) ==> RowStart(first, share, |rows|) + share < WORD64
  {
    hide EndsFit, Open;
    NextRow(first, share, |rows|);
    if EndsFit(results, p95, first, share, full) {
      RowEndFits(results, p95, first, share, full, |rows|, i);
    }
  }

  /** A histogram that is finished without a wrap shows that all ends fitted. */
  lemma AllEndsFit(results: seq<u64>, p95: u64, first: nat, share: nat, full: nat -> bool, rows: seq<Row>, i: nat)
    requires share > 0 && forall j :: 0 <= j < |results| ==> first <= results[j]
    requires Sorted(results) && rows != [] && RowStart(first, share, |rows|) < WORD64
    requires i <= |results|
    requires forall j :: 0 <= j < |results| ==> (results[j] < RowStart(first, share, |rows|) <==> j < i)
    requires i == |results| || results[i] > p95 || full(|rows| - 1)
    ensures EndsFit(results, p95, first, share, full)
  {
    NextRow(first, share, 0);
    RowsApart(first, share, 1, |rows|);
    hide RowOf, RowStart;
    forall j | 0 <= j < |results| && results[j] <= p95 && Open(full, RowOf(results[j], first, share))
      ensures RowStart(first, share, RowOf(results[j], first, share) + 1) < WORD64
    {
      RowOfIs(results[j], first, share, |rows|);
      RowsApart(first, share, RowOf(results[j], first, share) + 1, |rows|);
    }
  }

  /** The loop after a row is printed: it goes on, or it stops and the histogram is
    * finished exactly when all ends fitted.
    */
  ghost predicate AfterRow(results: seq<u64>, p95: u64, first: nat, share: nat, full: nat -> bool,
                           rows: seq<Row>, i: nat, start: nat, wrapped: bool)
    requires rows != [] && results != []
    requires share > 0 && forall j :: 0 <= j < |results| ==> first <= results[j]
  {
    var stops := i >= |results| || results[i] > p95 || full(|rows| - 1);
    && (!stops ==> Standing(results, p95, first, share, full, rows, i, start, 0, wrapped))
    && (stops ==> (Finished(results, first, share, rows) <==> !wrapped))
    && (stops ==> (EndsFit(results, p95, first, share, full) <==> !wrapped))
    && (!wrapped ==> Counted(rows) == i)
  }

  lemma AfterWrongRow(results: seq<u64>, p95: u64, first: nat, share: nat, full: nat -> bool,
                      rows: seq<Row>, i: nat, start: nat)
    requires rows != [] && results != [] && Open(full, |rows| - 1)
    requires share > 0 && forall j :: 0 <= j < |results| ==> first <= results[j]
    requires !EndsFit(results, p95, first, share, full) && !AllRight(rows, results, first, share)
    ensures AfterRow(results, p95, first, share, full, rows, i, start, true)
  {
    hide EndsFit, AllRight, Printing;
  }

  lemma AfterRightRow(results: seq<u64>, p95: u64, first: nat, share: nat, full: nat -> bool,
                      rows: seq<Row>, i: nat, start: nat)
    requires rows != [] && results != [] && Open(full, |rows| - 1)
    requires share > 0 && forall j :: 0 <= j < |results| ==> first <= results[j]
    requires start < WORD64 && (i < |results| ==> start <= results[i])
    ensures Printing(results, first, share, rows, i, start, 0) && Finished(results, first, share, rows) &&
            Counted(rows) == i ==>
      AfterRow(results, p95, first, share, full, rows, i, start, false)
  {
    hide EndsFit, AllRight, Counted, Counting;
    if Printing(results, first, share, rows, i, start, 0) && Finished(results, first, share, rows) &&
       Counted(rows) == i
    {
      assert start == RowStart(first, share, |rows|);
      if i < |results| && results[i] <= p95 && !full(|rows| - 1) {
        NextEndFits(results, p95, first, share, full, rows, i);
      } else {
        AllEndsFit(results, p95, first, share, full, rows, i);
      }
    }
  }

  lemma StandingRow(results: seq<u64>, p95: u64, first: u64, share: u64, full: nat -> bool,
                    rows: seq<Row>, i: nat, start: u64, count: nat, wrapped: bool, row: Row)
    requires share > 0 && forall j :: 0 <= j < |results| ==> first <= results[j]
    requires Standing(results, p95, first, share, full, rows, i, start, count, wrapped)
    requires i >= |results| || results[i] >= (start + share) % WORD64
    requires row.start == start && row.count == count
    requires row.dark == Cells(count, |results|) && row.dark + row.light == Cells(i, |results|)
    requires row.dark + row.light + row.blank == HIST_WIDTH
    ensures var wrapped' := wrapped || start + share >= WORD64;
      AfterRow(results, p95, first, share, full, rows + [row], i, (start + share) % WORD64, wrapped')
  {
    hide AfterRow, Printing, Finished, EndsFit, AllRight, Open, Cells;
    WrappedEnd(start, share);
    if wrapped {
      WrongRowStays(results, first, share, rows, row);
      AfterWrongRow(results, p95, first, share, full, rows + [row], i, (start + share) % WORD64);
    } else if start + share >= WORD64 {
      WrongRow(results, first, share, rows, i, start, row);
      AfterWrongRow(results, p95, first, share, full, rows + [row], i, (start + share) % WORD64);
    } else {
      SameRow(results, first, share, rows, i, start, count);
      RowPrinted(results, first, share, rows, i, start, count, row);
      AfterRightRow(results, p95, first, share, full, rows + [row], i, start + share);
    }
  }

  lemma FewRows(first: nat, share: nat, k: nat)
    requires share > 0
    ensures k <= RowStart(first, share, k)
  {
    Multiply(k, 1, share);
  }

  lemma StandingShort(results: seq<u64>, p95: u64, first: u64, share: u64, full: nat -> bool,
                      rows: seq<Row>, i: nat, start: u64, count: nat, wrapped: bool, room: nat)
    requires share > 0 && forall j :: 0 <= j < |results| ==> first <= results[j]
    requires Standing(results, p95, first, share, full, rows, i, start, count, wrapped)
    requires EndsFit(results, p95, first, share, full) || full(room)
    ensures Open(full, |rows|) && |rows| < WORD64 + room
    ensures !wrapped && rows != [] ==> RowStart(first, share, |rows|) <= p95
  {
    hide EndsFit, AllRight;
    FewRows(first, share, |rows|);
    if !wrapped {
      assert start == RowStart(first, share, |rows|);
    }
    if EndsFit(results, p95, first, share, full) {
      assert !wrapped;
    } else {
      assert full(room);
    }
  }

  /** Prints the rows; the start of the next row is a 64-bit word and may wrap around.
    * `full(k)` says that the buffer guard stops the output after row `k`, and `room` is
    * a row that does not fit the buffer any more, when some end does not fit 64 bits.
    * `i` samples are consumed in all. The histogram is finished exactly when the ends
    * of the rows fit.
    */
  method PrintRows(results: seq<u64>, p95: u64, first: u64, share: u64, full: nat -> bool, ghost room: nat)
    returns (rows: seq<Row>, i: nat)
    requires results != [] && Sorted(results) && share > 0 && first <= results[0]
    requires EndsFit(results, p95, first, share, full) || full(room)
    ensures 0 < |rows| && Open(full, |rows| - 1)
    ensures Finished(results, first, share, rows) <==> EndsFit(results, p95, first, share, full)
    ensures Finished(results, first, share, rows) ==>
      Counted(rows) == i && (|rows| == 1 || RowStart(first, share, |rows| - 1) <= p95)
    ensures i <= |results| && (i == |results| || results[i] > p95 || full(|rows| - 1))
  {
    hide Standing, RowStart, Cells, Finished, EndsFit, Open, Counted;
    var total := |results|;
    var start: u64, count: nat, count2: nat := first, 0, 0;
    ghost var wrapped := false;
    rows, i := [], 0;
    StandingFirst(results, p95, first, share, full);
    while true
      invariant Standing(results, p95, first, share, full, rows, i, start, count, wrapped)
      invariant count <= count2 == i <= total
      decreases WORD64 + room - |rows|, total - i
    {
      var end := (start + share) % WORD64;
      if i < total && results[i] < end {
        StandingSample(results, p95, first, share, full, rows, i, start, count, wrapped);
        count, count2, i := count + 1, count2 + 1, i + 1;
        continue;
      }
      var dark, light, blank := Bar(count, count2, total);
      var row := Row(start, count, dark, light, blank);
      StandingRow(results, p95, first, share, full, rows, i, start, count, wrapped, row);
      StandingShort(results, p95, first, share, full, rows, i, start, count, wrapped, room);
      wrapped := wrapped || start + share >= WORD64;
      rows := rows + [row];
      count := 0;
      start := end;
      if i >= total || results[i] > p95 || full(|rows| - 1) {
        break;
      }
    }
  }

  predicate InRow(x: u64, first: nat, share: nat, k: nat) {
    RowStart(first, share, k) <= x < RowStart(first, share, k + 1)
  }

  /** Unless the buffer is full, every sample up to the 95th percentile falls in
    * exactly one row.
    */
  lemma Covered(results: seq<u64>, p95: u64, first: nat, share: nat, rows: seq<Row>, x: u64)
    requires results != [] && Sorted(results) && share > 0 && first <= results[0]
    requires x in results && x <= p95
    ensures Finished(results, first, share, rows) && (Counted(rows) == |results| || results[Counted(rows)] > p95) ==>
      var k := RowOf(x, first, share);
      && k < |rows| && InRow(x, first, share, k)
      && forall k' :: 0 <= k' < |rows| && InRow(x, first, share, k') ==> k' == k
  {
    hide Right, Counted, RowStart, RowOf;
    var k := RowOf(x, first, share);
    var j :| 0 <= j < |results| && results[j] == x;
    RowOfIs(x, first, share, k);
    RowOfIs(x, first, share, k + 1);
    RowOfIs(x, first, share, |rows|);
    forall k' | 0 <= k' < |rows| && InRow(x, first, share, k')
      ensures k' == k
    {
      RowOfIs(x, first, share, k');
      RowOfIs(x, first, share, k' + 1);
    }
  }

  /** A bound on the 95th percentile alone under which all ends fit. */
  lemma LastEndFits(results: seq<u64>, p95: u64, first: nat, share: nat, full: nat -> bool)
    requires share > 0 && first <= p95 && forall j :: 0 <= j < |results| ==> first <= results[j]
    requires RowStart(first, share, RowOf(p95, first, share) + 1) < WORD64
    ensures EndsFit(results, p95, first, share, full)
  {
    var last := RowOf(p95, first, share) + 1;
    NextRow(first, share, 0);
    RowsApart(first, share, 1, last);
    hide RowOf, RowStart;
    forall j | 0 <= j < |results| && results[j] <= p95
      ensures RowStart(first, share, RowOf(results[j], first, share) + 1) < WORD64
    {
      RowOfIs(results[j], first, share, last);
      RowOfIs(p95, first, share, last);
      RowOfIs(results[j], first, share, RowOf(results[j], first, share));
      RowOfIs(p95, first, share, RowOf(results[j], first, share));
      RowsApart(first, share, RowOf(results[j], first, share) + 1, last);
    }
  }

  /** Samples next to 2^64: the end of the only row wraps around, and the row misses
    * every sample.
    */
  lemma EndsMayWrap(n: nat, full: nat -> bool)
    requires n > 0
    ensures var results: seq<u64> := seq(n, _ => WORD64 - 1);
      && Sorted(results) && !EndsFit(results, WORD64 - 1, WORD64 - 1, 1, full)
      && forall rows: seq<Row> :: rows != [] && rows[0].count == 0 ==> !Finished(results, WORD64 - 1, 1, rows)
  {
    var results: seq<u64> := seq(n, _ => WORD64 - 1);
    CountSome(results, 0, WORD64 - 1, WORD64);
    NextRow(WORD64 - 1, 1, 0);
    forall rows: seq<Row> | rows != [] && rows[0].count == 0
      ensures !Finished(results, WORD64 - 1, 1, rows)
    {
      assert !Right(rows[0], 0, results, WORD64 - 1, 1);
    }
  }
}
