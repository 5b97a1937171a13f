/** Multi-limb arithmetic on IPv6 addresses.
  *
  * An address is a sequence of 32-bit limbs in host order, most significant first.
  * The functions follow the machine: limbs wrap at 2^32, the 64-bit intermediates of
  * the long division wrap at 2^64.
  */
module Limbs {
  import opened Words

  type Address = a: seq<u32> | |a| == 4 witness [0, 0, 0, 0]

  /** The number a 128-bit address stands for. */
  function Value(a: Address): nat {
    ((a[0] * BASE + a[1]) * BASE + a[2]) * BASE + a[3]
  }

  /** The comparison that ends a lap of the scan, limb by limb from the top. */
  predicate Leq(a: seq<u32>, b: seq<u32>)
    requires |a| == |b|
  {
    a == [] || a[0] < b[0] || (a[0] == b[0] && Leq(a[1..], b[1..]))
  }

  lemma LeqUnrolled(a: seq<u32>, b: seq<u32>)
    requires |a| == |b| > 0
    ensures Leq(a, b) <==> a[0] < b[0] || (a[0] == b[0] && Leq(a[1..], b[1..]))
  {}

  /** The limb-wise order is the order of the numbers. */
  lemma LeqIsNumeric(a: Address, b: Address)
    ensures Leq(a, b) <==> Value(a) <= Value(b)
  {
    LeqUnrolled(a, b);
    LeqUnrolled(a[1..], b[1..]);
    LeqUnrolled(a[2..], b[2..]);
    LeqUnrolled(a[3..], b[3..]);
    assert a[1..][1..] == a[2..] && b[1..][1..] == b[2..];
    assert a[2..][1..] == a[3..] && b[2..][1..] == b[3..];
  }

  lemma {:induction false} LeqIsAntisymmetric(a: seq<u32>, b: seq<u32>)
    requires |a| == |b| && Leq(a, b) && Leq(b, a)
    ensures a == b
  {
    if a != [] {
      LeqIsAntisymmetric(a[1..], b[1..]);
      assert a == [a[0]] + a[1..] == [b[0]] + b[1..] == b;
    }
  }

  lemma ValueIsInjective(a: Address, b: Address)
    requires Value(a) == Value(b)
    ensures a == b
  {
    LeqIsNumeric(a, b);
    LeqIsNumeric(b, a);
    LeqIsAntisymmetric(a, b);
  }

  // ----- Difference -------------------------------------------------------------

  datatype Difference = Difference(limbs: seq<u32>, carry: int)

  /** One limb of the difference, `carry` coming from the limb below. A limb that
    * borrows stores the negated difference.
    */
  function StoredLimb(s: u32, e: u32, carry: int): (d: u32)
    requires 0 <= carry <= 1
  {
    if s + carry <= e then e - s - carry else (s + carry - e) % BASE
  }

  function CarryOut(s: u32, e: u32, carry: int): (c: int)
    requires 0 <= carry <= 1
    ensures 0 <= c <= 1
  {
    if s + carry <= e then 0 else 1
  }

  /** The difference `e - s` as the module computes it. */
  function Subtract(s: seq<u32>, e: seq<u32>): (d: Difference)
    requires |s| == |e|
    ensures |d.limbs| == |s| && (d.carry == 0 || d.carry == 1)
  {
    if s == [] then Difference([], 0)
    else
      var d := Subtract(s[1..], e[1..]);
      Difference([StoredLimb(s[0], e[0], d.carry)] + d.limbs, CarryOut(s[0], e[0], d.carry))
  }

  lemma EmptyDifference()
    ensures Subtract([], []) == Difference([], 0)
  {}

  lemma SubtractCons(s: seq<u32>, e: seq<u32>)
    requires |s| == |e| > 0
    ensures var d := Subtract(s[1..], e[1..]);
      Subtract(s, e) == Difference([StoredLimb(s[0], e[0], d.carry)] + d.limbs, CarryOut(s[0], e[0], d.carry))
  {}

  /** The last carry tells exactly whether the range is the wrong way round. */
  lemma {:induction false} CarryIsOrder(s: seq<u32>, e: seq<u32>)
    requires |s| == |e|
    ensures Subtract(s, e).carry == 0 <==> Leq(s, e)
  {
    if s != [] {
      CarryIsOrder(s[1..], e[1..]);
    }
  }

  predicate AllZero(a: seq<u32>) {
    forall i :: 0 <= i < |a| ==> a[i] == 0
  }

  /** The stored difference is null exactly for the range of a single address, even
    * though borrowing limbs are stored wrong.
    */
  lemma {:induction false} NullDifference(s: seq<u32>, e: seq<u32>)
    requires |s| == |e|
    ensures AllZero(Subtract(s, e).limbs) <==> s == e
    ensures s == e ==> Subtract(s, e).carry == 0
  {
    if s != [] {
      NullDifference(s[1..], e[1..]);
      var d, tail := Subtract(s, e), Subtract(s[1..], e[1..]);
      assert d.limbs[1..] == tail.limbs;
      assert AllZero(d.limbs) <==> d.limbs[0] == 0 && AllZero(tail.limbs) by {
        forall i | 0 <= i < |tail.limbs|
          ensures d.limbs[i + 1] == tail.limbs[i]
        {}
      }
      assert s == e <==> s[0] == e[0] && s[1..] == e[1..] by {
        assert s == [s[0]] + s[1..] && e == [e[0]] + e[1..];
      }
    }
  }

  function CarryInto(s: seq<u32>, e: seq<u32>, i: nat): (c: int)
    requires |s| == |e| && i < |s|
    ensures c == 0 || c == 1
  {
    Subtract(s[i + 1..], e[i + 1..]).carry
  }

  predicate Borrows(s: seq<u32>, e: seq<u32>, i: nat)
    requires |s| == |e| && i < |s|
  {
    s[i] + CarryInto(s, e, i) > e[i]
  }

  /** A borrowing limb that stores the true limb anyway: 2^31 and 2^32 are their own
    * negations modulo 2^32.
    */
  predicate SelfNegating(s: seq<u32>, e: seq<u32>, i: nat)
    requires |s| == |e| && i < |s|
  {
    var x := s[i] + CarryInto(s, e, i) - e[i];
    x == BASE / 2 || x == BASE
  }

  /** The limb of the true difference. */
  function TrueLimb(s: seq<u32>, e: seq<u32>, i: nat): (t: u32)
    requires |s| == |e| && i < |s|
  {
    var x := s[i] + CarryInto(s, e, i);
    if x <= e[i] then e[i] - x else e[i] - x + BASE
  }

  lemma {:induction false} LimbAt(s: seq<u32>, e: seq<u32>, i: nat)
    requires |s| == |e| && i < |s|
    ensures Subtract(s, e).limbs[i] == StoredLimb(s[i], e[i], CarryInto(s, e, i))
    ensures CarryOut(s[i], e[i], CarryInto(s, e, i)) == if i == 0 then Subtract(s, e).carry else CarryInto(s, e, i - 1)
  {
    if i > 0 {
      LimbAt(s[1..], e[1..], i - 1);
      assert s[1..][i..] == s[i + 1..] && e[1..][i..] == e[i + 1..];
      assert s[i..][1..] == s[i + 1..] && e[i..][1..] == e[i + 1..];
    }
  }

  /** A negated limb is the true one exactly for 2^31 and 2^32. */
  lemma Stored(s: u32, e: u32, carry: int)
    requires 0 <= carry <= 1
    ensures s + carry <= e ==> StoredLimb(s, e, carry) == e - s - carry
    ensures s + carry > e ==>
      var x := s + carry - e;
      StoredLimb(s, e, carry) == BASE - x <==> x == BASE / 2 || x == BASE
  {}

  lemma Limb(s: seq<u32>, e: seq<u32>, i: nat)
    requires |s| == |e| && i < |s|
    ensures Subtract(s, e).limbs[i] == TrueLimb(s, e, i) <==> (Borrows(s, e, i) ==> SelfNegating(s, e, i))
    ensures i > 0 ==> CarryInto(s, e, i - 1) == if Borrows(s, e, i) then 1 else 0
    ensures i == 0 ==> Subtract(s, e).carry == if Borrows(s, e, i) then 1 else 0
  {
    hide Subtract, CarryInto, StoredLimb;
    LimbAt(s, e, i);
    Stored(s[i], e[i], CarryInto(s, e, i));
  }

  function TrueLimbs(s: Address, e: Address): (t: Address) {
    [TrueLimb(s, e, 0), TrueLimb(s, e, 1), TrueLimb(s, e, 2), TrueLimb(s, e, 3)]
  }

  lemma LimbsAgree(s: Address, e: Address)
    ensures Subtract(s, e).limbs == TrueLimbs(s, e) <==>
      forall i :: 0 <= i < 4 && Borrows(s, e, i) ==> SelfNegating(s, e, i)
  {
    hide Borrows, SelfNegating, Subtract, TrueLimb;
    forall i | 0 <= i < 4
      ensures Subtract(s, e).limbs[i] == TrueLimbs(s, e)[i] <==> (Borrows(s, e, i) ==> SelfNegating(s, e, i))
    {
      Limb(s, e, i);
    }
  }

  lemma TrueDifference(s: Address, e: Address)
    requires Subtract(s, e).carry == 0
    ensures Value(TrueLimbs(s, e)) == Value(e) - Value(s)
  {
    Limb(s, e, 0);
    Limb(s, e, 1);
    Limb(s, e, 2);
    Limb(s, e, 3);
  }

  /** For a range in order, the stored difference is `e - s` exactly when every
    * borrowing limb is self-negating.
    */
  lemma DifferenceExact(s: Address, e: Address)
    requires Leq(s, e)
    ensures Value(Subtract(s, e).limbs) == Value(e) - Value(s) <==>
      forall i :: 0 <= i < 4 && Borrows(s, e, i) ==> SelfNegating(s, e, i)
  {
    CarryIsOrder(s, e);
    LimbsAgree(s, e);
    TrueDifference(s, e);
    hide Value, Subtract, Borrows, SelfNegating, TrueLimbs;
    if Value(Subtract(s, e).limbs) == Value(TrueLimbs(s, e)) {
      ValueIsInjective(Subtract(s, e).limbs, TrueLimbs(s, e));
    }
  }

  // ----- Division ---------------------------------------------------------------

  datatype Quotient = Quotient(limbs: seq<u32>, rem: u64)

  /** The next dividend, in 64 bits. */
  function Dividend(d: u32, rem: u64): (quo: u64) {
    (d + rem * BASE) % WORD64
  }

  /** The next limb of the quotient, truncated to 32 bits. */
  function Digit(quo: u64, n: u64): (q: u32)
    requires n > 0
  {
    Quot(quo, n) % BASE
  }

  /** Long division by `n` from the top limb, with the truncations of the module. */
  function Divide(d: seq<u32>, rem: u64, n: u64): (q: Quotient)
    requires n > 0
    ensures |q.limbs| == |d|
    ensures rem < n ==> q.rem < n
  {
    if d == [] then Quotient([], rem)
    else
      var quo := Dividend(d[0], rem);
      var rest := Divide(d[1..], Rem(quo, n), n);
      Quotient([Digit(quo, n)] + rest.limbs, rest.rem)
  }

  lemma DivideCons(d: seq<u32>, rem: u64, n: u64)
    requires n > 0
    ensures d == [] ==> Divide(d, rem, n).limbs == []
    ensures d != [] ==>
      var quo := Dividend(d[0], rem);
      Divide(d, rem, n).limbs == [Digit(quo, n)] + Divide(d[1..], Rem(quo, n), n).limbs
  {}

  /** Digit number `i` of the quotient `q`, and what is left to divide. */
  lemma DivideAt(d: seq<u32>, q: seq<u32>, i: nat, rem: u64, n: u64)
    requires n > 0 && i < |d| == |q| && Divide(d[i..], rem, n).limbs == q[i..]
    ensures var quo := Dividend(d[i], rem);
      q[i] == Digit(quo, n) && Divide(d[i + 1..], Rem(quo, n), n).limbs == q[i + 1..]
  {
    DivideCons(d[i..], rem, n);
    hide Divide, Dividend, Digit, Rem;
    assert d[i..][1..] == d[i + 1..] && q[i..][1..] == q[i + 1..];
  }

  lemma DigitIs(x: u32, rem: u64, n: u64, q: u32, r: u64)
    requires 0 < n && x + rem * BASE < WORD64 && x + rem * BASE == q * n + r && r < n
    ensures Digit(Dividend(x, rem), n) == q && Rem(Dividend(x, rem), n) == r
  {
    Below(x + rem * BASE);
    QuotientIs(x + rem * BASE, n, q, r);
    hide Quot, Rem;
    assert q % BASE == q;
  }

  /** A long division, its digits `q` and remainders given. */
  lemma FourDigits(d: Address, n: u64, q: Address, r1: u32, r2: u32, r3: u32, r4: u32)
    requires r1 < n && r2 < n && r3 < n && r4 < n
    requires d[0] == q[0] * n + r1 && d[1] + r1 * BASE == q[1] * n + r2
    requires d[2] + r2 * BASE == q[2] * n + r3 && d[3] + r3 * BASE == q[3] * n + r4
    ensures Divide(d, 0, n).limbs == q
  {
    hide Divide, Dividend, Digit, Rem;
    var p := Divide(d, 0, n).limbs;
    assert d[0..] == d && p[0..] == p;
    DigitIs(d[0], 0, n, q[0], r1);
    DivideAt(d, p, 0, 0, n);
    DigitIs(d[1], r1, n, q[1], r2);
    DivideAt(d, p, 1, r1, n);
    DigitIs(d[2], r2, n, q[2], r3);
    DivideAt(d, p, 2, r2, n);
    DigitIs(d[3], r3, n, q[3], r4);
    DivideAt(d, p, 3, r3, n);
  }

  /** No remainder is shifted out of its 64-bit register. */
  predicate Fits(d: seq<u32>, rem: u64, n: u64)
    requires n > 0
  {
    d == [] || (rem < BASE && Fits(d[1..], Rem(Dividend(d[0], rem), n), n))
  }

  /** The number read so far is `acc`, and the limbs of `a` follow. */
  function Horner(acc: nat, a: seq<u32>): nat
    decreases |a|
  {
    if a == [] then acc else Horner(acc * BASE + a[0], a[1..])
  }

  lemma {:induction false} HornerMonotone(x: nat, y: nat, a: seq<u32>)
    requires x <= y
    ensures Horner(x, a) <= Horner(y, a)
    ensures x < y ==> Horner(x, a) < Horner(y, a)
    decreases a
  {
    if a != [] {
      HornerMonotone(x * BASE + a[0], y * BASE + a[0], a[1..]);
    }
  }

  lemma HornerValue(a: Address)
    ensures Horner(0, a) == Value(a)
  {
    assert a[1..][1..] == a[2..] && a[2..][1..] == a[3..] && a[3..][1..] == [];
    assert Horner(0, a) == Horner(a[0], a[1..]) == Horner(a[0] * BASE + a[1], a[2..]);
    assert Horner((a[0] * BASE + a[1]) * BASE + a[2], a[3..]) == Value(a);
  }

  lemma Truncated(x: nat)
    ensures x % BASE <= x && (x < BASE ==> x % BASE == x)
  {}

  /** Truncating the digit can only lose. */
  lemma DigitKept(quo: u64, n: u64)
    requires n > 0
    ensures Digit(quo, n) * n + Rem(quo, n) <= quo
    ensures quo / n < BASE ==> Digit(quo, n) * n + Rem(quo, n) == quo
  {
    hide Rem;
    QuotRem(quo, n);
    hide Quot;
    Truncated(Quot(quo, n));
    Multiply(n, Digit(quo, n), Quot(quo, n));
  }

  /** One digit: what the digit and the new remainder account for is never more than
    * what came in, and is all of it exactly when nothing was shifted out.
    */
  lemma DigitExact(rem: u64, d: u32, n: u64)
    requires rem < n
    ensures var quo, came := Dividend(d, rem), d + rem * BASE;
      && Digit(quo, n) * n + Rem(quo, n) <= came
      && (Digit(quo, n) * n + Rem(quo, n) == came <==> rem < BASE)
  {
    hide Digit, Rem;
    var came := d + rem * BASE;
    DigitKept(Dividend(d, rem), n);
    if rem < BASE {
      Below(came);
      Multiply(BASE, rem + 1, n);
      DivBelow(came, n, BASE);
    }
  }

  lemma ShiftAndAdd(acc: nat, digit: nat, n: nat)
    ensures (acc * BASE + digit) * n == acc * n * BASE + digit * n
  {
    Distribute(acc * BASE, digit, n);
    assert acc * BASE * n == acc * n * BASE;
  }

  lemma DivideNone(acc: nat, rem: u64, n: u64)
    requires rem < n
    ensures Divide([], rem, n) == Quotient([], rem) && Horner(acc, []) == acc
    ensures Horner(acc * n + rem, []) == acc * n + rem && Fits([], rem, n)
  {}

  lemma DivideUnrolled(acc: nat, d: seq<u32>, rem: u64, n: u64)
    requires n > 0 && d != []
    ensures var quo := Dividend(d[0], rem);
      var q, rest := Divide(d, rem, n), Divide(d[1..], Rem(quo, n), n);
      && Horner(acc, q.limbs) == Horner(acc * BASE + Digit(quo, n), rest.limbs)
      && q.rem == rest.rem
      && Horner(acc * n + rem, d) == Horner((acc * n + rem) * BASE + d[0], d[1..])
      && (Fits(d, rem, n) <==> rem < BASE && Fits(d[1..], Rem(quo, n), n))
  {
    hide Dividend, Digit, Rem;
    var quo := Dividend(d[0], rem);
    var q, rest := Divide(d, rem, n), Divide(d[1..], Rem(quo, n), n);
    assert q.limbs[0] == Digit(quo, n) && q.limbs[1..] == rest.limbs;
  }

  lemma {:induction false} DivideFrom(acc: nat, d: seq<u32>, rem: u64, n: u64)
    requires rem < n
    ensures var q := Divide(d, rem, n);
      && Horner(acc, q.limbs) * n + q.rem <= Horner(acc * n + rem, d)
      && (Horner(acc, q.limbs) * n + q.rem == Horner(acc * n + rem, d) <==> Fits(d, rem, n))
    decreases |d|
  {
    hide Divide, Horner, Fits, Dividend, Digit, Rem;
    if d == [] {
      DivideNone(acc, rem, n);
    } else {
      var quo := Dividend(d[0], rem);
      var digit, left := Digit(quo, n), Rem(quo, n);
      DigitExact(rem, d[0], n);
      ShiftAndAdd(acc, digit, n);
      DivideFrom(acc * BASE + digit, d[1..], left, n);
      DivideUnrolled(acc, d, rem, n);
      HornerMonotone((acc * BASE + digit) * n + left, (acc * n + rem) * BASE + d[0], d[1..]);
    }
  }

  /** Quotient and remainder are those of the number exactly when no remainder
    * outgrows 32 bits on the way.
    */
  lemma DivisionExact(d: Address, n: u64)
    requires n > 0
    ensures var q := Divide(d, 0, n);
      Value(d) == Value(q.limbs) * n + q.rem && q.rem < n <==> Fits(d, 0, n)
  {
    hide Divide, Fits, Value;
    DivideFrom(0, d, 0, n);
    HornerValue(d);
    HornerValue(Divide(d, 0, n).limbs);
  }

  lemma FitsUnrolled(d: seq<u32>, rem: u64, n: u64)
    requires n > 0 && d != [] && rem < BASE
    ensures Fits(d, rem, n) <==> Fits(d[1..], (d[0] + rem * BASE) % n, n)
  {
    Below(d[0] + rem * BASE);
  }

  lemma ModShift(x: nat, y: nat, n: nat)
    requires n > 0
    ensures (y + x % n * BASE) % n == (x * BASE + y) % n
  {
    var k, small := x / n * BASE, y + x % n * BASE;
    DivMod(x, n);
    assert x * BASE + y == k * n + small by {
      assert x / n * n * BASE == k * n;
    }
    AddMultiple(k, small, n);
  }

  /** That no remainder is shifted out, on the input alone: the number read so far, modulo
    * `n`.
    */
  lemma FitsIsPrefixes(d: Address, n: u64)
    requires n > 0
    ensures Fits(d, 0, n) <==>
      (d[0] * BASE + d[1]) % n < BASE && ((d[0] * BASE + d[1]) * BASE + d[2]) % n < BASE
  {
    var x1, x2 := d[0] * BASE + d[1], (d[0] * BASE + d[1]) * BASE + d[2];
    ModAtMost(d[0], n);
    FitsUnrolled(d, 0, n);
    assert d[1..][0] == d[1] && d[1..][1..] == d[2..];
    ModShift(d[0], d[1], n);
    FitsUnrolled(d[1..], d[0] % n, n);
    if x1 % n < BASE {
      assert d[2..][0] == d[2] && d[2..][1..] == d[3..];
      ModShift(x1, d[2], n);
      FitsUnrolled(d[2..], x1 % n, n);
      assert d[3..][1..] == [];
      assert Fits(d[3..], x2 % n, n) <==> x2 % n < BASE;
    }
  }

  /** A remainder that is shifted out: 2^96 divided by 2^33 has a wrong quotient. */
  lemma DivisionWrong()
    ensures var d: Address, n := [1, 0, 0, 0], 0x2_0000_0000;
      var q := Divide(d, 0, n);
      !(Value(d) == Value(q.limbs) * n + q.rem && q.rem < n)
  {
    hide Divide, Fits, Value;
    DivisionExact([1, 0, 0, 0], 0x2_0000_0000);
    FitsIsPrefixes([1, 0, 0, 0], 0x2_0000_0000);
  }

  /** A divisor of at most 2^32 shifts no remainder out. */
  lemma {:induction false} SmallDivisorFits(d: seq<u32>, rem: u64, n: u64)
    requires rem < n <= BASE
    ensures Fits(d, rem, n)
    decreases d
  {
    if d != [] {
      SmallDivisorFits(d[1..], Rem(Dividend(d[0], rem), n), n);
    }
  }

  /** End to end, for a range in order: with a difference whose borrowing limbs are all
    * self-negating, step and remainder are those of the 128-bit difference exactly when
    * no remainder is shifted out; with a sample count of at most 2^32, exactly when the
    * borrowing limbs are self-negating.
    */
  lemma StepExact(s: Address, e: Address, n: u64)
    requires Leq(s, e) && n > 0
    ensures var limbs := Subtract(s, e).limbs;
      var q := Divide(limbs, 0, n);
      var exact := Value(e) - Value(s) == Value(q.limbs) * n + q.rem && q.rem < n;
      var whole := forall i :: 0 <= i < 4 && Borrows(s, e, i) ==> SelfNegating(s, e, i);
      && (whole ==> (exact <==> Fits(limbs, 0, n)))
      && (n <= BASE ==> (exact <==> whole))
  {
    hide Subtract, Divide, Value, Borrows, SelfNegating, Fits;
    DifferenceExact(s, e);
    DivisionExact(Subtract(s, e).limbs, n);
    if n <= BASE {
      SmallDivisorFits(Subtract(s, e).limbs, 0, n);
    }
  }
}
