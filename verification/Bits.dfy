/** Bitwise operations on natural numbers, and what they are bit by bit. */
module Bits {
  import opened Words

  /** Bit number `k`. */
  predicate Bit(x: nat, k: nat) {
    x / Pow(2, k) % 2 == 1
  }

  /** Bitwise AND. */
  function And(x: nat, y: nat): (z: nat)
    ensures z <= x && z <= y
  {
    if x == 0 || y == 0 then 0 else 2 * And(x / 2, y / 2) + if x % 2 == 1 && y % 2 == 1 then 1 else 0
  }

  /** Bitwise OR. */
  function Or(x: nat, y: nat): (z: nat)
    ensures z >= x && z >= y
    decreases x + y
  {
    if x == 0 then y
    else if y == 0 then x
    else 2 * Or(x / 2, y / 2) + if x % 2 == 1 || y % 2 == 1 then 1 else 0
  }

  lemma LastBit(x: nat)
    ensures Bit(x, 0) <==> x % 2 == 1
  {
    assert x / 1 == x;
  }

  lemma Doubled(q: nat, n: nat)
    ensures q * (2 * n) == 2 * (q * n)
  {
    assert q * (2 * n) == (2 * q) * n;
    Distribute(q, q, n);
  }

  lemma Split(x: nat, n: nat, q: nat, r: nat)
    requires n > 0 && x / 2 == q * n + r && r < n
    ensures x / (2 * n) == q
  {
    Doubled(q, n);
    DivMod(x, 2 * n);
    SameSplit(2 * n, x / (2 * n), x % (2 * n), q, 2 * r + x % 2);
  }

  lemma HalfQuotient(x: nat, n: nat)
    requires n > 0
    ensures x / (2 * n) == x / 2 / n
  {
    DivMod(x / 2, n);
    Split(x, n, x / 2 / n, x / 2 % n);
  }

  lemma BitAbove(x: nat, k: nat)
    requires k > 0
    ensures Bit(x, k) <==> Bit(x / 2, k - 1)
  {
    HalfQuotient(x, Pow(2, k - 1));
  }

  lemma AndHalf(x: nat, y: nat)
    ensures And(x, y) / 2 == And(x / 2, y / 2)
    ensures And(x, y) % 2 == 1 <==> x % 2 == 1 && y % 2 == 1
  {}

  lemma OrHalf(x: nat, y: nat)
    ensures Or(x, y) / 2 == Or(x / 2, y / 2)
    ensures Or(x, y) % 2 == 1 <==> x % 2 == 1 || y % 2 == 1
  {}

  /** A bit of the conjunction is set exactly when it is set in both. */
  lemma {:induction false} AndBits(x: nat, y: nat, k: nat)
    ensures Bit(And(x, y), k) <==> Bit(x, k) && Bit(y, k)
    decreases k
  {
    hide And, Bit;
    AndHalf(x, y);
    if k == 0 {
      LastBit(x);
      LastBit(y);
      LastBit(And(x, y));
    } else {
      BitAbove(x, k);
      BitAbove(y, k);
      BitAbove(And(x, y), k);
      AndBits(x / 2, y / 2, k - 1);
    }
  }

  /** A bit of the disjunction is set exactly when it is set in one of the two. */
  lemma {:induction false} OrBits(x: nat, y: nat, k: nat)
    ensures Bit(Or(x, y), k) <==> Bit(x, k) || Bit(y, k)
    decreases k
  {
    hide Or, Bit;
    OrHalf(x, y);
    if k == 0 {
      LastBit(x);
      LastBit(y);
      LastBit(Or(x, y));
    } else {
      BitAbove(x, k);
      BitAbove(y, k);
      BitAbove(Or(x, y), k);
      OrBits(x / 2, y / 2, k - 1);
    }
  }

  lemma TwoBits(x: nat)
    ensures x % 4 == (if Bit(x, 1) then 2 else 0) + (if Bit(x, 0) then 1 else 0)
  {
    hide Bit;
    LastBit(x);
    BitAbove(x, 1);
    LastBit(x / 2);
  }

  lemma AndOfTwo(x: nat, y: nat)
    requires x < 4 && y < 4
    ensures And(x, y) == (if x >= 2 && y >= 2 then 2 else 0) + (if x % 2 == 1 && y % 2 == 1 then 1 else 0)
  {
    AndHalf(x, y);
    AndHalf(x / 2, y / 2);
    assert And(x / 2 / 2, y / 2 / 2) == 0;
  }

  /** The two low bits of what has the common bits of two numbers. */
  lemma AndLow(z: nat, x: nat, y: nat)
    requires forall k: nat :: Bit(z, k) <==> Bit(x, k) && Bit(y, k)
    ensures z % 4 == And(x % 4, y % 4)
  {
    hide Bit;
    assert Bit(z, 0) <==> Bit(x, 0) && Bit(y, 0);
    assert Bit(z, 1) <==> Bit(x, 1) && Bit(y, 1);
    TwoBits(z);
    TwoBits(x);
    TwoBits(y);
    AndOfTwo(x % 4, y % 4);
  }

  /** A number is determined by its bits. */
  lemma {:induction false} SameBits(x: nat, y: nat)
    requires forall k: nat :: Bit(x, k) <==> Bit(y, k)
    ensures x == y
    decreases x + y
  {
    hide Bit;
    if x + y > 0 {
      LastBit(x);
      LastBit(y);
      assert Bit(x, 0) <==> Bit(y, 0);
      forall k: nat
        ensures Bit(x / 2, k) <==> Bit(y / 2, k)
      {
        BitAbove(x, k + 1);
        BitAbove(y, k + 1);
        assert Bit(x, k + 1) <==> Bit(y, k + 1);
      }
      SameBits(x / 2, y / 2);
    }
  }

  /** Without common bits the disjunction is the sum. */
  lemma {:induction false} OrNibbles(k: nat, hi: nat, lo: nat)
    requires lo < Pow(2, k)
    ensures Or(hi * Pow(2, k), lo) == hi * Pow(2, k) + lo
    decreases k
  {
    if hi == 0 || lo == 0 {
      assert hi * Pow(2, k) == 0 || lo == 0;
    } else {
      var e := Pow(2, k - 1);
      assert Pow(2, k) == 2 * e && hi * Pow(2, k) == 2 * (hi * e);
      OrNibbles(k - 1, hi, lo / 2);
    }
  }
}
