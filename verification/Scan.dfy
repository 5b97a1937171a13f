/** The address scan of the IPv6 benchmark: the step is a fraction of the range, and
  * a lap that leaves the range starts again near its beginning.
  */
module Scan {
  import opened Bits
  import opened Words
  import opened Limbs

  // ----- One step ---------------------------------------------------------------

  /** Limb-wise move. The carry of the C code compares a sum below 2^34 with the
    * largest unsigned long, so on a 64-bit machine it is never set.
    */
  function Shift(a: seq<u32>, off: seq<nat>): (r: seq<u32>)
    requires |a| == |off|
    ensures |r| == |a|
  {
    seq(|a|, i requires 0 <= i < |a| => (a[i] + off[i]) % BASE)
  }

  function Lcg(rnd: u64): u64 {
    (rnd * 1664525 + 1013904223) % WORD64
  }

  /** The offsets of a restart, drawn from the last limb to the first. */
  function Offsets(step: seq<u32>, rnd: u64): (r: (seq<nat>, u64))
    ensures |r.0| == |step|
    ensures forall i :: 0 <= i < |step| ==> r.0[i] <= step[i]
  {
    if step == [] then ([], rnd)
    else
      var (rest, rnd') := Offsets(step[1..], rnd);
      ([And(step[0], Lcg(rnd'))] + rest, Lcg(rnd'))
  }

  /** The quotient before the step of 1 is forced. */
  function Fraction(s: seq<u32>, e: seq<u32>, n: u64): (q: seq<u32>)
    requires |s| == |e| && n > 0
    ensures |q| == |s|
  {
    Divide(Subtract(s, e).limbs, 0, n).limbs
  }

  /** The step of a scan: the divided difference, or 1 when that is null. */
  function Step(s: Address, e: Address, n: u64): (r: Address)
    requires n > 0
  {
    var q := Fraction(s, e, n);
    if AllZero(q) then [0, 0, 0, 1] else q
  }

  datatype Lap = Lap(addr: Address, rnd: u64)

  predicate Overshoots(l: Lap, step: Address, e: Address) {
    !Leq(Shift(l.addr, step), e)
  }

  function Next(l: Lap, s: Address, e: Address, step: Address): Lap {
    if Overshoots(l, step, e) then
      var (off, rnd) := Offsets(step, l.rnd);
      Lap(Shift(s, off), rnd)
    else
      Lap(Shift(l.addr, step), l.rnd)
  }

  /** Where the scan stands after `k` steps. */
  function Position(k: nat, s: Address, e: Address, step: Address): Lap {
    if k == 0 then Lap(s, 0) else Next(Position(k - 1, s, e, step), s, e, step)
  }

  lemma StartsAt(s: Address, e: Address, step: Address)
    ensures Position(0, s, e, step) == Lap(s, 0)
  {}

  /** Step number `k + 1` takes the restart branch. */
  predicate RestartsAt(k: nat, s: Address, e: Address, step: Address) {
    Overshoots(Position(k, s, e, step), step, e)
  }

  // ----- Bounds -----------------------------------------------------------------

  lemma FirstQuotient(x: u32, n: u64)
    requires n > 0
    ensures Digit(x, n) == x / n && Digit(x, n) * n <= x && (Digit(x, n) * n == x ==> Rem(x, n) == 0)
  {
    QuotientAtMost(x, n);
    Below32(x / n);
  }

  /** The first digit of a division, and when it leaves nothing. */
  lemma FirstDigit(x: u32, n: u64)
    requires n > 0
    ensures var quo := Dividend(x, 0);
      && Digit(quo, n) == x / n
      && Digit(quo, n) * n <= x
      && (Digit(quo, n) * n == x ==> Rem(quo, n) == 0)
  {
    hide Digit, Rem;
    Below(x);
    FirstQuotient(x, n);
  }

  lemma TopQuotient(d: seq<u32>, n: u64)
    requires n > 0 && d != []
    ensures var q := Divide(d, 0, n).limbs;
      && q[0] == d[0] / n
      && q[0] * n <= d[0]
      && (q[0] * n == d[0] ==> q[1..] == Divide(d[1..], 0, n).limbs)
  {
    hide Divide, Dividend, Digit, Rem;
    DivideCons(d, 0, n);
    FirstDigit(d[0], n);
  }

  /** `n` times the top limb of the fraction stays within the top limbs of the range,
    * and can only reach the end when the limbs below neither borrow nor receive a
    * remainder.
    */
  lemma TopLimb(s: seq<u32>, e: seq<u32>, n: u64)
    requires |s| == |e| > 0 && n > 0 && Leq(s, e)
    ensures s[0] + Fraction(s, e, n)[0] * n <= e[0]
    ensures s[0] + Fraction(s, e, n)[0] * n == e[0] ==>
      Leq(s[1..], e[1..]) && Fraction(s, e, n)[1..] == Fraction(s[1..], e[1..], n)
  {
    hide Divide;
    var d, rest := Subtract(s, e), Subtract(s[1..], e[1..]);
    CarryIsOrder(s, e);
    CarryIsOrder(s[1..], e[1..]);
    assert d.limbs[0] == e[0] - s[0] - rest.carry && d.limbs[1..] == rest.limbs;
    TopQuotient(d.limbs, n);
  }

  /** The heart of the scan's safety. Moving the start by at most `n` times the
    * fraction, limb by limb and with no carry between limbs, never goes past the
    * end. It holds for every range in order, also when the stored difference is wrong: a limb
    * that borrows takes one from the limb above, which then stays below.
    */
  lemma {:induction false} MoveStaysBelow(s: seq<u32>, e: seq<u32>, n: u64, off: seq<nat>)
    requires |s| == |e| == |off| && n > 0 && Leq(s, e)
    requires forall i :: 0 <= i < |s| ==> off[i] <= Fraction(s, e, n)[i] * n
    ensures Leq(Shift(s, off), e)
  {
    hide Fraction;
    if s != [] {
      TopLimb(s, e, n);
      var moved := Shift(s, off);
      assert moved[0] == s[0] + off[0];
      if moved[0] == e[0] {
        forall i | 0 <= i < |s| - 1
          ensures off[1..][i] <= Fraction(s[1..], e[1..], n)[i] * n
        {
          assert Fraction(s, e, n)[i + 1] == Fraction(s, e, n)[1..][i];
        }
        MoveStaysBelow(s[1..], e[1..], n, off[1..]);
        assert moved[1..] == Shift(s[1..], off[1..]);
      }
    }
  }

  lemma LeqFour(a: Address, b: Address)
    ensures Leq(a, b) <==> if a[..3] == b[..3] then a[3] <= b[3] else Leq(a[..3], b[..3])
  {
    LeqUnrolled(a, b);
    LeqUnrolled(a[1..], b[1..]);
    LeqUnrolled(a[2..], b[2..]);
    LeqUnrolled(a[3..], b[3..]);
    var a', b' := a[..3], b[..3];
    LeqUnrolled(a', b');
    LeqUnrolled(a'[1..], b'[1..]);
    LeqUnrolled(a'[2..], b'[2..]);
    assert a[1..][1..] == a[2..] && b[1..][1..] == b[2..] && a[2..][1..] == a[3..] && b[2..][1..] == b[3..];
    assert a'[1..][1..] == a'[2..] && b'[1..][1..] == b'[2..] && a'[2..][1..] == [] && b'[2..][1..] == [];
    assert a' == b' <==> a[0] == b[0] && a[1] == b[1] && a[2] == b[2];
  }

  lemma LastLimb(s: Address, off: seq<nat>)
    requires |off| == 4 && off[0] == off[1] == off[2] == 0
    ensures Shift(s, off) == s[..3] + [(s[3] + off[3]) % BASE]
  {}

  lemma OneStaysBelow(s: Address, e: Address, off: seq<nat>)
    requires Leq(s, e) && s != e
    requires |off| == 4 && off[0] == off[1] == off[2] == 0 && off[3] <= 1
    ensures Leq(Shift(s, off), e)
  {
    hide Leq, Shift;
    LastLimb(s, off);
    var moved: Address := s[..3] + [(s[3] + off[3]) % BASE];
    LeqFour(s, e);
    LeqFour(moved, e);
    if s[..3] == e[..3] {
      assert s == s[..3] + [s[3]] && e == e[..3] + [e[3]];
      Below32(s[3] + off[3]);
    }
  }

  /** A restart lands at or below the end, whatever the pseudo-random offsets. */
  lemma RestartStaysBelow(s: Address, e: Address, n: u64, off: seq<nat>)
    requires n > 0 && Leq(s, e) && s != e
    requires |off| == 4 && forall i :: 0 <= i < 4 ==> off[i] <= Step(s, e, n)[i]
    ensures Leq(Shift(s, off), e)
  {
    hide Fraction;
    if AllZero(Fraction(s, e, n)) {
      OneStaysBelow(s, e, off);
    } else {
      forall i | 0 <= i < 4
        ensures off[i] <= Fraction(s, e, n)[i] * n
      {
        Multiply(Fraction(s, e, n)[i], 1, n);
      }
      MoveStaysBelow(s, e, n, off);
    }
  }

  /** Every address of the scan is at most the end of the range, as a 128-bit number:
    * for every range with more than one address, every sample count, and every
    * number of steps and restarts.
    */
  lemma {:induction false} NeverPastEnd(k: nat, s: Address, e: Address, n: u64)
    requires n > 0 && Leq(s, e) && s != e
    ensures var a := Position(k, s, e, Step(s, e, n)).addr;
      Leq(a, e) && Value(a) <= Value(e)
  {
    var step := Step(s, e, n);
    LeqIsNumeric(Position(k, s, e, step).addr, e);
    if k > 0 {
      NeverPastEnd(k - 1, s, e, n);
      var l := Position(k - 1, s, e, step);
      if Overshoots(l, step, e) {
        RestartStaysBelow(s, e, n, Offsets(step, l.rnd).0);
      }
    }
  }

  // ----- The first lap ----------------------------------------------------------

  function Scaled(step: seq<u32>, k: nat): (r: seq<nat>)
    ensures |r| == |step|
  {
    seq(|step|, i requires 0 <= i < |step| => step[i] * k)
  }

  lemma OneMore(x: nat, k: nat)
    ensures x * (k + 1) == x * k + x
  {}

  lemma AddTwice(a: nat, x: nat, y: nat)
    ensures ((a + x) % BASE + y) % BASE == (a + (x + y)) % BASE
  {}

  lemma ShiftTwice(a: seq<u32>, step: seq<u32>, k: nat)
    requires |a| == |step|
    ensures Shift(Shift(a, Scaled(step, k)), step) == Shift(a, Scaled(step, k + 1))
  {
    forall i | 0 <= i < |a|
      ensures Shift(Shift(a, Scaled(step, k)), step)[i] == Shift(a, Scaled(step, k + 1))[i]
    {
      OneMore(step[i], k);
      AddTwice(a[i], step[i] * k, step[i]);
    }
  }

  lemma ShiftNone(a: seq<u32>, step: seq<u32>)
    requires |a| == |step|
    ensures Shift(a, Scaled(step, 0)) == a
  {}

  /** As long as no step overshoots, the scan is at the start plus `k` steps. */
  lemma {:induction false} Along(k: nat, s: Address, e: Address, step: Address)
    requires forall j :: 0 <= j < k ==> !RestartsAt(j, s, e, step)
    ensures Position(k, s, e, step) == Lap(Shift(s, Scaled(step, k)), 0)
  {
    hide Leq, Shift, Scaled;
    if k == 0 {
      ShiftNone(s, step);
    } else {
      Along(k - 1, s, e, step);
      ShiftTwice(s, step, k - 1);
      assert !RestartsAt(k - 1, s, e, step);
    }
  }

  /** The first `k` steps stay in the range exactly when each multiple does. */
  lemma {:induction false} StraightLap(k: nat, s: Address, e: Address, step: Address)
    ensures (forall j :: 0 <= j < k ==> !RestartsAt(j, s, e, step))
       <==> (forall j :: 0 < j <= k ==> Leq(Shift(s, Scaled(step, j)), e))
  {
    hide Leq, Shift, Scaled, Next;
    if k > 0 {
      StraightLap(k - 1, s, e, step);
      if forall j :: 0 <= j < k - 1 ==> !RestartsAt(j, s, e, step) {
        Along(k - 1, s, e, step);
        ShiftTwice(s, step, k - 1);
        assert RestartsAt(k - 1, s, e, step) <==> !Leq(Shift(s, Scaled(step, k)), e);
      } else {
        var j :| 0 <= j < k - 1 && RestartsAt(j, s, e, step);
        assert RestartsAt(j, s, e, step);
      }
    }
  }

  /** The range lies within the last limb and has fewer than `n` steps of one, with
    * room above it in that limb.
    */
  predicate TooShort(s: Address, e: Address, n: u64) {
    s[..3] == e[..3] && e[3] - s[3] < n && e[3] < BASE - 1
  }

  /** `n` multiples of the fraction stay in the range. */
  lemma FractionLap(s: Address, e: Address, n: u64)
    requires n > 0 && Leq(s, e)
    ensures forall j :: 0 < j <= n ==> Leq(Shift(s, Scaled(Fraction(s, e, n), j)), e)
  {
    hide Fraction;
    var q := Fraction(s, e, n);
    forall j | 0 < j <= n
      ensures Leq(Shift(s, Scaled(q, j)), e)
    {
      forall i | 0 <= i < 4
        ensures Scaled(q, j)[i] <= q[i] * n
      {
        Multiply(q[i], j, n);
      }
      MoveStaysBelow(s, e, n, Scaled(q, j));
    }
  }

  lemma MovedLimbs(s: Address, j: nat)
    ensures Shift(s, Scaled([0, 0, 0, 1], j)) == s[..3] + [(s[3] + j) % BASE]
  {
    LastLimb(s, Scaled([0, 0, 0, 1], j));
  }

  lemma LastLimbMove(s: Address, e: Address, j: nat)
    requires Leq(s, e)
    ensures Leq(Shift(s, Scaled([0, 0, 0, 1], j)), e) <==> s[..3] == e[..3] ==> (s[3] + j) % BASE <= e[3]
  {
    hide Leq, Shift, Scaled;
    var moved: Address := Shift(s, Scaled([0, 0, 0, 1], j));
    MovedLimbs(s, j);
    LeqFour(s, e);
    LeqFour(moved, e);
    assert moved[..3] == s[..3];
  }

  lemma TailFraction(s: seq<u32>, e: seq<u32>, n: u64)
    requires |s| == |e| > 0 && n > 0 && s[0] == e[0] && Leq(s[1..], e[1..])
    ensures Fraction(s, e, n) == [0] + Fraction(s[1..], e[1..], n)
  {
    CarryIsOrder(s[1..], e[1..]);
    TopLimb(s, e, n);
    assert Subtract(s, e).limbs == [0] + Subtract(s[1..], e[1..]).limbs;
    assert Fraction(s, e, n) == [Fraction(s, e, n)[0]] + Fraction(s, e, n)[1..];
    if Fraction(s, e, n)[0] > 0 {
      Multiply(n, 1, Fraction(s, e, n)[0]);
      assert false;
    }
  }

  lemma OneLimbQuotient(d: u32, n: u64)
    requires n > 0
    ensures Divide([d], 0, n).limbs == [d / n]
  {
    hide Divide;
    TopQuotient([d], n);
  }

  lemma OneLimbFraction(s: u32, e: u32, n: u64)
    requires n > 0 && s <= e
    ensures Fraction([s], [e], n) == [(e - s) / n]
  {
    assert Subtract([s], [e]) == Difference([e - s], 0);
    OneLimbQuotient(e - s, n);
  }

  /** A range within the last limb: its fraction is that of the last limb. */
  lemma {:induction false} LastLimbFraction(s: seq<u32>, e: seq<u32>, n: u64)
    requires |s| == |e| > 0 && n > 0
    requires s[..|s| - 1] == e[..|s| - 1] && s[|s| - 1] <= e[|s| - 1]
    ensures Leq(s, e)
    ensures forall i :: 0 <= i < |s| - 1 ==> Fraction(s, e, n)[i] == 0
    ensures Fraction(s, e, n)[|s| - 1] == (e[|s| - 1] - s[|s| - 1]) / n
  {
    hide Fraction, Subtract;
    if |s| == 1 {
      OneLimbFraction(s[0], e[0], n);
      assert s == [s[0]] && e == [e[0]];
    } else {
      assert s[0] == s[..|s| - 1][0] == e[0];
      assert s[1..][..|s| - 2] == s[..|s| - 1][1..] == e[1..][..|s| - 2];
      LastLimbFraction(s[1..], e[1..], n);
      TailFraction(s, e, n);
    }
  }

  lemma ShortFraction(s: Address, e: Address, n: u64)
    requires n > 0 && s[..3] == e[..3] && s[3] <= e[3]
    ensures AllZero(Fraction(s, e, n)) <==> e[3] - s[3] < n
  {
    hide Fraction;
    LastLimbFraction(s, e, n);
    var d := e[3] - s[3];
    DivMod(d, n);
    if d >= n {
      assert d / n != 0;
    } else {
      DivBelow(d, n, 1);
    }
  }

  /** With the step forced to 1 only the last limb moves. */
  lemma ForcedLap(s: Address, e: Address, n: u64)
    requires n > 0 && Leq(s, e) && s != e && AllZero(Fraction(s, e, n))
    ensures TooShort(s, e, n) <==>
      exists j :: 0 < j <= n && !Leq(Shift(s, Scaled([0, 0, 0, 1], j)), e)
  {
    hide Fraction, Leq, Shift, Scaled, Divide, Subtract;
    LeqFour(s, e);
    forall j: nat
      ensures Leq(Shift(s, Scaled([0, 0, 0, 1], j)), e) <==> s[..3] == e[..3] ==> (s[3] + j) % BASE <= e[3]
    {
      LastLimbMove(s, e, j);
    }
    if s[..3] == e[..3] {
      ShortFraction(s, e, n);
      if e[3] < BASE - 1 {
        var j := e[3] - s[3] + 1;
        assert !Leq(Shift(s, Scaled([0, 0, 0, 1], j)), e);
      }
    }
  }

  /** The restart branch is taken within the first `n` steps exactly when the range is
    * too short.
    */
  lemma FirstLap(s: Address, e: Address, n: u64)
    requires n > 0 && Leq(s, e) && s != e
    ensures var step := Step(s, e, n);
      TooShort(s, e, n) <==>
        exists j :: 0 <= j < n && RestartsAt(j, s, e, step)
  {
    hide Fraction;
    var step := Step(s, e, n);
    StraightLap(n, s, e, step);
    if AllZero(Fraction(s, e, n)) {
      ForcedLap(s, e, n);
    } else {
      FractionLap(s, e, n);
      if s[..3] == e[..3] {
        LeqFour(s, e);
        ShortFraction(s, e, n);
      }
    }
  }

  /** Two probes of a range of two addresses: the second one restarts. */
  lemma ShortRestarts()
    ensures var s: Address, e: Address := [0, 0, 0, 0], [0, 0, 0, 1];
      exists j :: 0 <= j < 2 && RestartsAt(j, s, e, Step(s, e, 2))
  {
    hide Step, RestartsAt;
    FirstLap([0, 0, 0, 0], [0, 0, 0, 1], 2);
  }

  // ----- What a restart draws ---------------------------------------------------

  /** The value of the generator after `n` draws. */
  function Drawn(rnd: u64, n: nat): u64 {
    if n == 0 then rnd else Lcg(Drawn(rnd, n - 1))
  }

  /** Each bit of an offset is set exactly when it is set in the step and in the value
    * drawn for that limb; the last limb gets the first draw.
    */
  ghost predicate Masked(off: seq<nat>, step: seq<u32>, rnd: u64) {
    && |off| == |step|
    && forall i, k: nat :: 0 <= i < |off| ==> (Bit(off[i], k) <==> Bit(step[i], k) && Bit(Drawn(rnd, |off| - i), k))
  }

  lemma {:induction false} OffsetsMasked(step: seq<u32>, rnd: u64)
    ensures Masked(Offsets(step, rnd).0, step, rnd)
    ensures Offsets(step, rnd).1 == Drawn(rnd, |step|)
  {
    hide And, Bit, Lcg;
    if step != [] {
      OffsetsMasked(step[1..], rnd);
      var off := Offsets(step, rnd).0;
      forall i, k: nat | 0 <= i < |off|
        ensures Bit(off[i], k) <==> Bit(step[i], k) && Bit(Drawn(rnd, |off| - i), k)
      {
        if i == 0 {
          AndBits(step[0], Drawn(rnd, |step|), k);
        } else {
          assert off[i] == Offsets(step[1..], rnd).0[i - 1] && step[i] == step[1..][i - 1];
        }
      }
    }
  }

  const INVERSE := 17196263117099653317

  /** The generator loses nothing: its last value can be computed back, so no two values
    * have the same successor.
    */
  lemma LcgInverse(x: u64)
    ensures (Lcg(x) + WORD64 - 1013904223) * INVERSE % WORD64 == x
  {
    var y := x * 1664525 + 1013904223;
    DivMod(y, WORD64);
    var z := (Lcg(x) + WORD64 - 1013904223) * INVERSE;
    var k := 1551689 * x + INVERSE - y / WORD64 * INVERSE;
    assert z == k * WORD64 + x;
    assert k >= 0;
    AddMultiple(k, x, WORD64);
  }

  /** The two low bits of the generator count down. */
  lemma LcgLow(x: u64)
    ensures Lcg(x) % 4 == (x + 3) % 4
  {
    var y := x * 1664525 + 1013904223;
    DivMod(y, WORD64);
    AddMultiple(y / WORD64 * (WORD64 / 4), y % WORD64, 4);
    AddMultiple(416131 * x + 253476055, x + 3, 4);
  }

  lemma DrawLow(rnd: u64, n: nat, low: nat)
    requires Drawn(rnd, n) % 4 == low
    ensures Drawn(rnd, n + 1) % 4 == if low == 0 then 3 else low - 1
  {
    hide Lcg;
    LcgLow(Drawn(rnd, n));
  }

  lemma FourDraws(rnd: u64)
    requires rnd % 4 == 0
    ensures Drawn(rnd, 1) % 4 == 3 && Drawn(rnd, 2) % 4 == 2 && Drawn(rnd, 3) % 4 == 1 && Drawn(rnd, 4) % 4 == 0
  {
    assert Drawn(rnd, 0) == rnd;
    hide Drawn;
    DrawLow(rnd, 0, 0);
    DrawLow(rnd, 1, 3);
    DrawLow(rnd, 2, 2);
    DrawLow(rnd, 3, 1);
  }

  /** How many restarts the first `k` steps take. */
  function Restarts(k: nat, s: Address, e: Address, step: Address): nat {
    if k == 0 then 0 else Restarts(k - 1, s, e, step) + if RestartsAt(k - 1, s, e, step) then 1 else 0
  }

  lemma {:induction false} DrawnOn(rnd: u64, n: nat, m: nat)
    ensures Drawn(Drawn(rnd, n), m) == Drawn(rnd, n + m)
    decreases m
  {
    if m > 0 {
      DrawnOn(rnd, n, m - 1);
    }
  }

  /** A restart draws four values and nothing else does: the generator stands at four
    * draws for each restart so far.
    */
  lemma {:induction false} GeneratorGoesOn(k: nat, s: Address, e: Address, step: Address)
    ensures Position(k, s, e, step).rnd == Drawn(0, 4 * Restarts(k, s, e, step))
  {
    hide Leq, Shift, Offsets, Lcg;
    if k > 0 {
      GeneratorGoesOn(k - 1, s, e, step);
      var l := Position(k - 1, s, e, step);
      OffsetsMasked(step, l.rnd);
      DrawnOn(0, 4 * Restarts(k - 1, s, e, step), 4);
    }
  }

  lemma {:induction false} LowAtRestarts(k: nat, s: Address, e: Address, step: Address)
    ensures Position(k, s, e, step).rnd % 4 == 0
  {
    hide Leq, Shift, Offsets, Drawn;
    if k > 0 {
      LowAtRestarts(k - 1, s, e, step);
      var l := Position(k - 1, s, e, step);
      OffsetsMasked(step, l.rnd);
      FourDraws(l.rnd);
    }
  }

  /** The two low bits of every offset are the same at every restart: in limb `i` they are
    * those of the step that are set in `i`.
    */
  lemma RestartLowBits(k: nat, s: Address, e: Address, step: Address, i: nat)
    requires i < 4
    ensures Offsets(step, Position(k, s, e, step).rnd).0[i] % 4 == And(step[i] % 4, i)
  {
    hide Position, Offsets, Drawn, And, Bit;
    var rnd := Position(k, s, e, step).rnd;
    var off := Offsets(step, rnd).0;
    LowAtRestarts(k, s, e, step);
    FourDraws(rnd);
    OffsetsMasked(step, rnd);
    assert Drawn(rnd, 4 - i) % 4 == i;
    AndLow(off[i], step[i], Drawn(rnd, 4 - i));
  }

  lemma OneAndThree()
    ensures And(1, 3) == 1
  {
    assert And(0, 1) == 0;
  }

  /** A range whose step is forced to 1 restarts at its second address each time: there is
    * no randomness in it.
    */
  lemma ForcedRestart(k: nat, s: Address, e: Address, n: u64)
    requires n > 0 && AllZero(Fraction(s, e, n)) && RestartsAt(k, s, e, Step(s, e, n))
    ensures Position(k + 1, s, e, Step(s, e, n)).addr == s[..3] + [(s[3] + 1) % BASE]
  {
    hide Fraction, Leq, And, Shift, Offsets;
    var step: Address := [0, 0, 0, 1];
    var l := Position(k, s, e, step);
    var off := Offsets(step, l.rnd).0;
    RestartLowBits(k, s, e, step, 3);
    OneAndThree();
    assert off[0] <= step[0] && off[1] <= step[1] && off[2] <= step[2] && off[3] <= step[3];
    LastLimb(s, off);
  }

  // ----- Does the scan stay above its start? ------------------------------------

  /** The first limb that a move changes does not overflow. */
  predicate Up(s: seq<u32>, off: seq<nat>)
    requires |s| == |off|
  {
    s == [] || if off[0] % BASE == 0 then Up(s[1..], off[1..]) else s[0] + off[0] % BASE < BASE
  }

  lemma LimbUp(x: u32, d: nat)
    ensures d % BASE == 0 ==> (x + d) % BASE == x
    ensures d % BASE != 0 ==> (x + d) % BASE != x && (x < (x + d) % BASE <==> x + d % BASE < BASE)
  {}

  /** A move does not lead below the start exactly when it goes up. */
  lemma {:induction false} MoveStaysAbove(s: seq<u32>, off: seq<nat>)
    requires |s| == |off|
    ensures Leq(s, Shift(s, off)) <==> Up(s, off)
  {
    if s != [] {
      MoveStaysAbove(s[1..], off[1..]);
      assert Shift(s, off)[1..] == Shift(s[1..], off[1..]);
      LimbUp(s[0], off[0]);
    }
  }

  function Plus(d: seq<nat>, step: seq<u32>): (r: seq<nat>)
    requires |d| == |step|
    ensures |r| == |d|
  {
    seq(|d|, i requires 0 <= i < |d| => d[i] + step[i])
  }

  /** How far from the start the scan stands after `k` steps, limb by limb: the offsets of
    * the last restart and the steps since.
    */
  function Displacement(k: nat, s: Address, e: Address, step: Address): (d: seq<nat>)
    ensures |d| == 4
  {
    if k == 0 then [0, 0, 0, 0]
    else
      var l := Position(k - 1, s, e, step);
      if Overshoots(l, step, e) then Offsets(step, l.rnd).0 else Plus(Displacement(k - 1, s, e, step), step)
  }

  lemma ShiftPlus(s: Address, d: seq<nat>, step: Address)
    requires |d| == 4
    ensures Shift(Shift(s, d), step) == Shift(s, Plus(d, step))
  {
    forall i | 0 <= i < 4
      ensures Shift(Shift(s, d), step)[i] == Shift(s, Plus(d, step))[i]
    {
      AddTwice(s[i], d[i], step[i]);
    }
  }

  lemma NoShift(s: Address)
    ensures Shift(s, [0, 0, 0, 0]) == s
  {}

  lemma {:induction false} Displaced(k: nat, s: Address, e: Address, step: Address)
    ensures Position(k, s, e, step).addr == Shift(s, Displacement(k, s, e, step))
  {
    hide Leq, Shift, Offsets, Plus;
    if k == 0 {
      assert Shift(s, [0, 0, 0, 0]) == s by { NoShift(s); }
    } else {
      Displaced(k - 1, s, e, step);
      ShiftPlus(s, Displacement(k - 1, s, e, step), step);
    }
  }

  /** Exactly which positions of a run are not below the start, through all restarts. */
  lemma AboveStart(k: nat, s: Address, e: Address, step: Address)
    ensures Value(s) <= Value(Position(k, s, e, step).addr) <==> Up(s, Displacement(k, s, e, step))
  {
    hide Position, Displacement, Up, Leq, Value;
    Displaced(k, s, e, step);
    MoveStaysAbove(s, Displacement(k, s, e, step));
    LeqIsNumeric(s, Position(k, s, e, step).addr);
  }

  /** Before any restart the displacement is `k` times the step. */
  lemma FirstLapAbove(k: nat, s: Address, e: Address, step: Address)
    requires forall j :: 0 <= j < k ==> !RestartsAt(j, s, e, step)
    ensures Value(s) <= Value(Position(k, s, e, step).addr) <==> Up(s, Scaled(step, k))
  {
    hide Position, RestartsAt, Up, Leq, Value, Shift, Scaled;
    Along(k, s, e, step);
    MoveStaysAbove(s, Scaled(step, k));
    LeqIsNumeric(s, Position(k, s, e, step).addr);
  }

  lemma WideIsLong(s: Address, e: Address, n: u64)
    requires n > 0 && Leq(s, e) && Fraction(s, e, n)[0] > 0
    ensures !TooShort(s, e, n)
  {
    hide Fraction, Leq;
    if s[..3] == e[..3] {
      LeqFour(s, e);
      LastLimbFraction(s, e, n);
    }
  }

  lemma UpNext(s: Address, off: seq<nat>)
    requires |off| == 4
    ensures Up(s, off) <==> if off[0] % BASE == 0 then Up(s[1..], off[1..]) else s[0] + off[0] % BASE < BASE
  {}

  lemma TopLimbUp(s: Address, off: seq<nat>, q: u32, k: nat, n: u64)
    requires |off| == 4 && off[0] == q * k && q > 0 && 0 < k <= n && s[0] + q * n < BASE
    ensures Up(s, off)
  {
    hide Up;
    Multiply(q, k, n);
    Multiply(k, 1, q);
    Below32(q * k);
    UpNext(s, off);
  }

  /** A range whose step moves the top limb is probed inside for the whole first lap. */
  lemma FirstLapInside(k: nat, s: Address, e: Address, n: u64)
    requires n > 0 && Leq(s, e) && s != e && Fraction(s, e, n)[0] > 0 && k <= n
    ensures Value(s) <= Value(Position(k, s, e, Step(s, e, n)).addr) <= Value(e)
  {
    hide Fraction, Value, Leq, Position, RestartsAt;
    var step := Step(s, e, n);
    TopLimb(s, e, n);
    WideIsLong(s, e, n);
    FirstLap(s, e, n);
    NeverPastEnd(k, s, e, n);
    if k == 0 {
      StartsAt(s, e, step);
    } else {
      FirstLapAbove(k, s, e, step);
      TopLimbUp(s, Scaled(step, k), step[0], k, n);
    }
  }

  const LOW_START: Address := [0, 0, 0, 0xffff_ffff]
  const LOW_END: Address := [0, 0, 1, 5]

  /** The limb that borrows stores 2^32 - 6 where 6 is meant. */
  lemma LowDifference()
    ensures Subtract(LOW_START, LOW_END) == Difference([0, 0, 0, 0xffff_fffa], 0)
  {
    hide Subtract;
    EmptyDifference();
    var m: u32 := 0xffff_ffff;
    SubtractCons([m], [5]);
    SubtractCons([0, m], [1, 5]);
    SubtractCons([0, 0, m], [0, 1, 5]);
    SubtractCons(LOW_START, LOW_END);
    assert [m][1..] == [] && [5][1..] == [] && [0, m][1..] == [m] && [1, 5][1..] == [5];
    assert [0, 0, m][1..] == [0, m] && [0, 1, 5][1..] == [1, 5];
    assert LOW_START[1..] == [0, 0, m] && LOW_END[1..] == [0, 1, 5];
    assert Subtract([m], [5]) == Difference([0xffff_fffa], 1);
    assert Subtract([0, m], [1, 5]) == Difference([0, 0xffff_fffa], 0);
  }

  lemma LowRange()
    ensures Leq(LOW_START, LOW_END) && LOW_START != LOW_END && !TooShort(LOW_START, LOW_END, 1)
    ensures Value(LOW_END) - Value(LOW_START) == 6
  {
    LeqIsNumeric(LOW_START, LOW_END);
    hide Leq;
    assert LOW_START[..3][2] != LOW_END[..3][2];
  }

  /** The stored difference of a range in order can be wrong. */
  lemma DifferenceWrong()
    ensures Leq(LOW_START, LOW_END)
    ensures Value(Subtract(LOW_START, LOW_END).limbs) != Value(LOW_END) - Value(LOW_START)
  {
    hide Leq, Subtract, TooShort;
    LowRange();
    LowDifference();
  }

  lemma LowStep()
    ensures Step(LOW_START, LOW_END, 1) == [0, 0, 0, 0xffff_fffa]
  {
    hide Divide, Subtract;
    LowDifference();
    FourDigits([0, 0, 0, 0xffff_fffa], 1, [0, 0, 0, 0xffff_fffa], 0, 0, 0, 0);
  }

  lemma UpFour(s: Address, off: seq<nat>)
    requires |off| == 4
    ensures Up(s, off) <==>
      if off[0] % BASE != 0 then s[0] + off[0] % BASE < BASE
      else if off[1] % BASE != 0 then s[1] + off[1] % BASE < BASE
      else if off[2] % BASE != 0 then s[2] + off[2] % BASE < BASE
      else off[3] % BASE == 0 || s[3] + off[3] % BASE < BASE
  {
    assert s[1..][1..] == s[2..] && s[2..][1..] == s[3..] && s[3..][1..] == [];
    assert off[1..][1..] == off[2..] && off[2..][1..] == off[3..] && off[3..][1..] == [];
    assert Up(s[3..], off[3..]) <==> off[3] % BASE == 0 || s[3] + off[3] % BASE < BASE;
    assert Up(s[2..], off[2..]) <==>
      if off[2] % BASE == 0 then Up(s[3..], off[3..]) else s[2] + off[2] % BASE < BASE;
  }

  lemma LowMovesDown()
    ensures !Up(LOW_START, Scaled([0, 0, 0, 0xffff_fffa], 1))
  {
    hide Up;
    var off := Scaled([0, 0, 0, 0xffff_fffa], 1);
    assert off == [0, 0, 0, 0xffff_fffa];
    UpFour(LOW_START, off);
  }

  /** The first probe of that range is below its start. */
  lemma ProbeBelowStart()
    ensures Value(Position(1, LOW_START, LOW_END, Step(LOW_START, LOW_END, 1)).addr) < Value(LOW_START)
  {
    hide Leq, TooShort, Step, Position, RestartsAt, Value, Up;
    LowRange();
    FirstLap(LOW_START, LOW_END, 1);
    LowStep();
    FirstLapAbove(1, LOW_START, LOW_END, [0, 0, 0, 0xffff_fffa]);
    LowMovesDown();
  }

  const HALF_START: Address := [0x2001_0db8, 0x8000_0000, 0, 0]
  const HALF_END: Address := [0x2001_0db9, 0x8000_0000, 0, 0]
  const HALF_STEP: Address := [0, 858993, 1972248982, 1388133430]

  lemma HalfMovesDown(k: nat)
    requires 0 < k <= 5000
    ensures Up(HALF_START, Scaled(HALF_STEP, k)) <==> k <= 2500
  {
    hide Up;
    var off := Scaled(HALF_STEP, k);
    assert off[0] == 0 && off[1] == 858993 * k;
    Below32(858993 * k);
    UpFour(HALF_START, off);
  }

  lemma HalfRange()
    ensures Leq(HALF_START, HALF_END) && HALF_START != HALF_END && !TooShort(HALF_START, HALF_END, 5000)
  {
    assert HALF_START[..3][0] != HALF_END[..3][0];
  }

  lemma HalfDifference()
    ensures Subtract(HALF_START, HALF_END).limbs == [1, 0, 0, 0]
  {
    hide Subtract;
    EmptyDifference();
    SubtractCons([0], [0]);
    SubtractCons([0, 0], [0, 0]);
    SubtractCons([0x8000_0000, 0, 0], [0x8000_0000, 0, 0]);
    SubtractCons(HALF_START, HALF_END);
    assert [0, 0][1..] == [0] && [0x8000_0000, 0, 0][1..] == [0, 0];
    assert HALF_START[1..] == [0x8000_0000, 0, 0] && HALF_END[1..] == [0x8000_0000, 0, 0];
  }

  lemma HalfStep()
    ensures Step(HALF_START, HALF_END, 5000) == HALF_STEP
  {
    hide Divide, Subtract;
    HalfDifference();
    FourDigits([1, 0, 0, 0], 5000, HALF_STEP, 1, 2296, 1616, 336);
  }

  /** Of the 5000 probes of the range from 2001:db8:8000:: to 2001:db9:8000::, the second
    * half is below the start, without any restart.
    */
  lemma HalfBelowStart(k: nat)
    requires 0 < k <= 5000
    ensures Value(Position(k, HALF_START, HALF_END, Step(HALF_START, HALF_END, 5000)).addr) < Value(HALF_START)
       <==> k > 2500
  {
    hide Leq, TooShort, Step, Position, RestartsAt, Value, Up;
    HalfRange();
    FirstLap(HALF_START, HALF_END, 5000);
    HalfStep();
    FirstLapAbove(k, HALF_START, HALF_END, HALF_STEP);
    HalfMovesDown(k);
  }

  // ----- Are the probes distinct? -----------------------------------------------

  lemma SameLimb(a: nat, x: nat, d: nat)
    ensures (a + x) % BASE == (a + (x + d)) % BASE <==> d % BASE == 0
  {}

  /** Two numbers of steps lead to the same address exactly when in each limb the steps
    * between them add up to a multiple of 2^32.
    */
  lemma SameShift(s: Address, step: Address, k: nat, l: nat)
    requires k <= l
    ensures Shift(s, Scaled(step, k)) == Shift(s, Scaled(step, l)) <==>
      forall i :: 0 <= i < 4 ==> step[i] * (l - k) % BASE == 0
  {
    var x, y := Shift(s, Scaled(step, k)), Shift(s, Scaled(step, l));
    forall i | 0 <= i < 4
      ensures x[i] == y[i] <==> step[i] * (l - k) % BASE == 0
    {
      assert step[i] * l == step[i] * k + step[i] * (l - k);
      SameLimb(s[i], step[i] * k, step[i] * (l - k));
    }
    hide Shift, Scaled;
    assert x == y <==> forall i :: 0 <= i < 4 ==> x[i] == y[i];
  }

  /** Before any restart, two probes are of the same address exactly when the steps between
    * them add up to a multiple of 2^32 in each limb.
    */
  lemma SameProbe(k: nat, l: nat, s: Address, e: Address, step: Address)
    requires k <= l && forall j :: 0 <= j < l ==> !RestartsAt(j, s, e, step)
    ensures Position(k, s, e, step).addr == Position(l, s, e, step).addr <==>
      forall i :: 0 <= i < 4 ==> step[i] * (l - k) % BASE == 0
  {
    hide RestartsAt, Shift, Scaled, Position;
    Along(k, s, e, step);
    Along(l, s, e, step);
    SameShift(s, step, k, l);
  }

  const REPEATING_START: Address := [0, 0, 0, 0]
  const REPEATING_END: Address := [2, 0, 0, 0]

  lemma RepeatingRange()
    ensures Leq(REPEATING_START, REPEATING_END) && REPEATING_START != REPEATING_END
    ensures !TooShort(REPEATING_START, REPEATING_END, 4)
  {
    var s, e := REPEATING_START, REPEATING_END;
    assert s[0] < e[0] && s[..3][0] != e[..3][0];
  }

  lemma RepeatingDifference()
    ensures Subtract(REPEATING_START, REPEATING_END).limbs == [2, 0, 0, 0]
  {
    hide Subtract;
    EmptyDifference();
    SubtractCons([0], [0]);
    SubtractCons([0, 0], [0, 0]);
    SubtractCons([0, 0, 0], [0, 0, 0]);
    SubtractCons(REPEATING_START, REPEATING_END);
    assert [0, 0][1..] == [0] && [0, 0, 0][1..] == [0, 0];
    assert REPEATING_START[1..] == [0, 0, 0] && REPEATING_END[1..] == [0, 0, 0];
  }

  lemma RepeatingStep()
    ensures Step(REPEATING_START, REPEATING_END, 4) == [0, 0x8000_0000, 0, 0]
  {
    hide Divide, Subtract;
    RepeatingDifference();
    FourDigits([2, 0, 0, 0], 4, [0, 0x8000_0000, 0, 0], 2, 0, 0, 0);
  }

  /** A range whose four probes are of two addresses. */
  lemma ProbesRepeat(k: nat)
    requires 1 <= k <= 2
    ensures var s, e := REPEATING_START, REPEATING_END;
      var step := Step(s, e, 4);
      Position(k, s, e, step).addr == Position(k + 2, s, e, step).addr
  {
    hide Leq, TooShort, Step, Position, RestartsAt;
    RepeatingRange();
    FirstLap(REPEATING_START, REPEATING_END, 4);
    RepeatingStep();
    SameProbe(k, k + 2, REPEATING_START, REPEATING_END, [0, 0x8000_0000, 0, 0]);
  }

  // ----- Is the scan linear? ----------------------------------------------------

  /** The number the offsets stand for, limbs unbounded. */
  function Weighted(off: seq<nat>): nat
    requires |off| == 4
  {
    ((off[0] * BASE + off[1]) * BASE + off[2]) * BASE + off[3]
  }

  lemma LimbTimes(x: nat, y: nat, k: nat)
    ensures (x * BASE + y) * k == x * k * BASE + y * k
  {
    Distribute(x * BASE, y, k);
    assert x * BASE * k == x * k * BASE;
  }

  lemma OffsetValue(step: Address, k: nat)
    ensures Weighted(Scaled(step, k)) == k * Value(step)
  {
    LimbTimes(step[0], step[1], k);
    LimbTimes(step[0] * BASE + step[1], step[2], k);
    LimbTimes((step[0] * BASE + step[1]) * BASE + step[2], step[3], k);
  }

  lemma ShiftLoses(s: Address, off: seq<nat>)
    requires |off| == 4
    ensures Value(Shift(s, off)) == Value(s) + Weighted(off) <==> forall i :: 0 <= i < 4 ==> s[i] + off[i] < BASE
  {
    var r: Address := Shift(s, off);
    forall i | 0 <= i < 4
      ensures r[i] <= s[i] + off[i] && (r[i] == s[i] + off[i] <==> s[i] + off[i] < BASE)
    {}
    hide Shift;
    if r[0] == s[0] + off[0] && r[1] == s[1] + off[1] && r[2] == s[2] + off[2] && r[3] == s[3] + off[3] {
      assert forall i :: 0 <= i < 4 ==> s[i] + off[i] < BASE;
    }
  }

  /** `k` steps advance the address by `k` times the step, as in a linear space, exactly
    * when no limb overflows: there is no carry from one limb to the next.
    */
  lemma LinearExactly(s: Address, step: Address, k: nat)
    ensures Value(Shift(s, Scaled(step, k))) == Value(s) + k * Value(step) <==>
      forall i :: 0 <= i < 4 ==> s[i] + step[i] * k < BASE
  {
    var off := Scaled(step, k);
    OffsetValue(step, k);
    assert off[0] == step[0] * k && off[1] == step[1] * k && off[2] == step[2] * k && off[3] == step[3] * k;
    hide Scaled;
    ShiftLoses(s, off);
  }

  const DEFAULT_START: Address := [0x2000_0000, 0, 0, 0]
  const DEFAULT_END: Address := [0x3fff_ffff, 0xffff_ffff, 0xffff_ffff, 0xffff_ffff]
  const DEFAULT_LOOP_COUNT: u64 := 5000

  lemma SubtractDefault()
    ensures Subtract(DEFAULT_START, DEFAULT_END).limbs == [0x1fff_ffff, 0xffff_ffff, 0xffff_ffff, 0xffff_ffff]
  {
    var m: u32 := 0xffff_ffff;
    hide Subtract;
    assert Subtract([], []) == Difference([], 0) by { EmptyDifference(); }
    SubtractCons([0], [m]);
    SubtractCons([0, 0], [m, m]);
    SubtractCons([0, 0, 0], [m, m, m]);
    SubtractCons(DEFAULT_START, DEFAULT_END);
    assert [0, 0][1..] == [0] && [m, m][1..] == [m] && [0, 0, 0][1..] == [0, 0] && [m, m, m][1..] == [m, m];
    assert DEFAULT_START[1..] == [0, 0, 0] && DEFAULT_END[1..] == [m, m, m];
  }

  lemma DefaultStep()
    ensures Step(DEFAULT_START, DEFAULT_END, DEFAULT_LOOP_COUNT) == [107374, 783402034, 3394742150, 3257303197]
  {
    hide Divide, Subtract;
    SubtractDefault();
    var m: u32 := 0xffff_ffff;
    FourDigits([0x1fff_ffff, m, m, m], DEFAULT_LOOP_COUNT, [107374, 783402034, 3394742150, 3257303197],
               911, 3951, 3791, 1431);
  }

  /** The default scan of 2000::/3 leaves the linear space at its second step, without
    * any restart.
    */
  lemma DefaultScanIsNotLinear()
    ensures var step := Step(DEFAULT_START, DEFAULT_END, DEFAULT_LOOP_COUNT);
      && Leq(DEFAULT_START, DEFAULT_END)
      && (forall j :: 0 <= j < 2 ==> !RestartsAt(j, DEFAULT_START, DEFAULT_END, step))
      && Value(Position(2, DEFAULT_START, DEFAULT_END, step).addr) != Value(DEFAULT_START) + 2 * Value(step)
  {
    var step := Step(DEFAULT_START, DEFAULT_END, DEFAULT_LOOP_COUNT);
    DefaultStep();
    assert Leq(DEFAULT_START, DEFAULT_END);
    FirstLap(DEFAULT_START, DEFAULT_END, DEFAULT_LOOP_COUNT);
    Along(2, DEFAULT_START, DEFAULT_END, step);
    LinearExactly(DEFAULT_START, step, 2);
  }

  // ----- The code ---------------------------------------------------------------

  /** The carry when the last `i` limbs are done. */
  function CarryAfter(s: Address, e: Address, i: nat): (c: int)
    requires i <= 4
    ensures c == 0 || c == 1
  {
    if i == 4 then Subtract(s, e).carry else CarryInto(s, e, 3 - i)
  }

  lemma FirstCarry(s: Address, e: Address)
    ensures CarryAfter(s, e, 0) == 0 && CarryAfter(s, e, 4) == Subtract(s, e).carry
  {}

  lemma LimbStep(s: Address, e: Address, i: nat)
    requires i < 4
    ensures var x, y, carry := s[3 - i], e[3 - i], CarryAfter(s, e, i);
      var limb, next := Subtract(s, e).limbs[3 - i], CarryAfter(s, e, i + 1);
      if x + carry <= y then limb == y - x - carry && next == 0
      else limb == (x + carry - y) % BASE && next == 1
  {
    hide Subtract, CarryInto;
    LimbAt(s, e, 3 - i);
  }

  /** Computes the difference in place, from the last limb to the first. */
  method ComputeDelta(s: Address, e: Address) returns (delta: array<u32>, carry: int)
    ensures fresh(delta) && delta.Length == 4
    ensures delta[..] == Subtract(s, e).limbs && carry == Subtract(s, e).carry
  {
    hide Subtract, CarryAfter;
    delta := new u32[4];
    carry := 0;
    ghost var limbs := Subtract(s, e).limbs;
    FirstCarry(s, e);
    for i := 0 to 4
      invariant forall k :: 4 - i <= k < 4 ==> delta[k] == limbs[k]
      invariant carry == CarryAfter(s, e, i)
    {
      LimbStep(s, e, i);
      if s[3 - i] + carry <= e[3 - i] {
        delta[3 - i] := e[3 - i] - s[3 - i] - carry;
        carry := 0;
      } else {
        delta[3 - i] := (s[3 - i] + carry - e[3 - i]) % BASE;
        carry := 1;
      }
    }
  }

  /** Long division in place, from the first limb to the last. */
  method DivideInPlace(delta: array<u32>, n: u64)
    requires delta.Length == 4 && n > 0
    modifies delta
    ensures delta[..] == Divide(old(delta[..]), 0, n).limbs
  {
    hide Divide, Rem, Dividend, Digit;
    ghost var d := delta[..];
    ghost var q := Divide(d, 0, n).limbs;
    var rem: u64 := 0;
    assert d[0..] == d && q[0..] == q;
    for i := 0 to 4
      invariant forall k :: 0 <= k < i ==> delta[k] == q[k]
      invariant forall k :: i <= k < 4 ==> delta[k] == d[k]
      invariant Divide(d[i..], rem, n).limbs == q[i..]
    {
      DivideAt(d, q, i, rem, n);
      var quo := Dividend(delta[i], rem);
      rem := Rem(quo, n);
      delta[i] := Digit(quo, n);
    }
  }

  /** The bytes of a word in the opposite order. */
  function Swab(x: u32): u32 {
    x % 0x100 * 0x100_0000 + x / 0x100 % 0x100 * 0x1_0000 + x / 0x1_0000 % 0x100 * 0x100 + x / 0x100_0000
  }

  lemma SwabBytes(a: byte, b: byte, c: byte, d: byte)
    ensures var x: nat, y: nat := ((a * 0x100 + b) * 0x100 + c) * 0x100 + d, ((d * 0x100 + c) * 0x100 + b) * 0x100 + a;
      x < BASE && Swab(x) == y
  {
    var x3: nat := a;
    var x2 := x3 * 0x100 + b;
    var x1 := x2 * 0x100 + c;
    var x := x1 * 0x100 + d;
    assert x / 0x100 == x1 && x % 0x100 == d;
    assert x1 / 0x100 == x2 && x1 % 0x100 == c;
    assert x2 / 0x100 == x3 && x2 % 0x100 == b;
    assert x / 0x1_0000 == x2 && x / 0x100_0000 == x3;
  }

  /** What the probing loop reads as its step. It expects network order, which only the
    * step of a range in order is converted to; the difference of any other range is read
    * with its bytes reversed (on a little-endian machine).
    */
  function Moves(s: Address, e: Address, n: u64): (r: Address)
    requires n > 0
  {
    if Leq(s, e) && s != e then Step(s, e, n)
    else
      var d := Subtract(s, e).limbs;
      [Swab(d[0]), Swab(d[1]), Swab(d[2]), Swab(d[3])]
  }

  lemma Nulls(a: array<u32>)
    requires a.Length == 4
    ensures AllZero(a[..]) <==> a[0] == a[1] == a[2] == a[3] == 0
  {
    assert a[..] == [a[0], a[1], a[2], a[3]];
  }

  lemma InOrder(s: Address, e: Address)
    ensures Subtract(s, e).carry == 0 && !AllZero(Subtract(s, e).limbs) <==> Value(s) < Value(e)
    ensures Value(s) < Value(e) <==> Leq(s, e) && s != e
  {
    CarryIsOrder(s, e);
    NullDifference(s, e);
    LeqIsNumeric(s, e);
    if Value(s) == Value(e) {
      ValueIsInjective(s, e);
    }
  }

  /** The range is scanned when it is in order and has more than one address; a null step
    * is forced to 1. For any other range `scan` keeps the value `stale` that it has
    * before it is given one.
    */
  method PrepareScan(s: Address, e: Address, n: u64, stale: bool) returns (delta: array<u32>, scan: bool)
    requires n > 0
    ensures fresh(delta) && delta.Length == 4
    ensures scan <==> Value(s) < Value(e) || stale
    ensures delta[..] == Moves(s, e, n)
  {
    hide Leq, Divide, Subtract, Value, Swab;
    var carry;
    delta, carry := ComputeDelta(s, e);
    InOrder(s, e);
    Nulls(delta);
    scan := stale;
    if carry == 0 && (delta[0] != 0 || delta[1] != 0 || delta[2] != 0 || delta[3] != 0) {
      scan := true;
      DivideInPlace(delta, n);
      Nulls(delta);
      if delta[0] == 0 && delta[1] == 0 && delta[2] == 0 && delta[3] == 0 {
        delta[3] := 1;
        assert delta[..] == [0, 0, 0, 1];
      }
    } else {
      delta[0], delta[1], delta[2], delta[3] := Swab(delta[0]), Swab(delta[1]), Swab(delta[2]), Swab(delta[3]);
      assert delta[..] == [delta[0], delta[1], delta[2], delta[3]];
    }
  }

  lemma NullStep(l: Lap, s: Address)
    requires l.addr == s
    ensures Next(l, s, s, [0, 0, 0, 0]).addr == s
  {
    hide Leq;
    assert Shift(s, [0, 0, 0, 0]) == s;
    LeqIsNumeric(s, s);
  }

  lemma NoMoves(s: Address, n: u64)
    requires n > 0
    ensures Moves(s, s, n) == [0, 0, 0, 0]
  {
    NullDifference(s, s);
    assert Swab(0) == 0;
  }

  /** A range of one address: the scan stays there. */
  lemma {:induction false} OneAddress(k: nat, s: Address, n: u64)
    requires n > 0
    ensures Position(k, s, s, Moves(s, s, n)).addr == s
  {
    hide Moves, Next;
    NoMoves(s, n);
    if k > 0 {
      OneAddress(k - 1, s, n);
      NullStep(Position(k - 1, s, s, [0, 0, 0, 0]), s);
    }
  }
}
