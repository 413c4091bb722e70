/** Bitwise exclusive-or on naturals and its relation to aligned power-of-two blocks. */
module Bits {

  function Pow2(e: nat): (p: nat)
    ensures p >= 1
  {
    if e == 0 then 1 else 2 * Pow2(e - 1)
  }

  /** Bitwise exclusive-or, least significant bit first. */
  function Xor(a: nat, b: nat): (x: nat)
    decreases a + b
  {
    if a == 0 && b == 0 then 0 else (a + b) % 2 + 2 * Xor(a / 2, b / 2)
  }

  // ---------- The bits of exclusive-or

  /** Bit `i` of a number, least significant first. */
  function Bit(n: nat, i: nat): (bit: nat) {
    n / Pow2(i) % 2
  }

  lemma HalfOfShift(n: nat, p: nat)
    requires p >= 1
    ensures n / (2 * p) == n / 2 / p
  {
    var q, r := n / 2 / p, n / 2 % p;
    assert n / 2 == p * q + r && n == 2 * (n / 2) + n % 2;
    assert n == (2 * p) * q + (2 * r + n % 2);
    QuotientIs(n, 2 * p, q, 2 * r + n % 2);
  }

  lemma QuotientIs(n: nat, p: nat, q: nat, r: nat)
    requires n == p * q + r && r < p
    ensures n / p == q && n % p == r
  {
    var d, m := n / p, n % p;
    assert n == p * d + m;
    if d > q {
      Multiples(p, q, d);
    } else if d < q {
      Multiples(p, d, q);
    }
  }

  lemma Multiples(p: nat, q: nat, d: nat)
    requires q < d
    ensures p * d >= p * q + p
  {
    assert p * d == p * q + p * (d - q);
    assert p * (d - q) == p + p * (d - q - 1);
  }

  /** The bits of a number above the lowest are those of its half. */
  lemma BitOfHalf(n: nat, i: nat)
    requires i > 0
    ensures Bit(n, i) == Bit(n / 2, i - 1)
  {
    HalfOfShift(n, Pow2(i - 1));
  }

  /** Each bit of the result is the sum, without carry, of the bits of the operands at its place. */
  lemma {:induction false} XorBits(a: nat, b: nat, i: nat)
    ensures Bit(Xor(a, b), i) == (Bit(a, i) + Bit(b, i)) % 2
    decreases i
  {
    XorLow(a, b);
    if i == 0 {
      LowestBit(a);
      LowestBit(b);
      LowestBit(Xor(a, b));
      Parities(a, b);
    } else {
      BitOfHalf(a, i);
      BitOfHalf(b, i);
      BitOfHalf(Xor(a, b), i);
      XorBits(a / 2, b / 2, i - 1);
    }
  }

  lemma LowestBit(n: nat)
    ensures Bit(n, 0) == n % 2
  {
  }

  lemma Parities(a: nat, b: nat)
    ensures (a % 2 + b % 2) % 2 == (a + b) % 2
  {
  }

  lemma XorLow(a: nat, b: nat)
    ensures Xor(a, b) % 2 == (a + b) % 2 && Xor(a, b) / 2 == Xor(a / 2, b / 2)
  {
    if a + b != 0 {
      LowAndHigh(Xor(a, b), (a + b) % 2, Xor(a / 2, b / 2));
    }
  }

  lemma LowAndHigh(x: nat, bit: nat, rest: nat)
    requires bit < 2
    ensures x == bit + 2 * rest <==> x % 2 == bit && x / 2 == rest
  {
  }

  /** A number is determined by its bits. */
  lemma {:induction false} BitsDetermine(a: nat, b: nat)
    requires forall i: nat :: Bit(a, i) == Bit(b, i)
    ensures a == b
    decreases a + b
  {
    assert Bit(a, 0) == Bit(b, 0);
    if a + b != 0 {
      forall i: nat ensures Bit(a / 2, i) == Bit(b / 2, i) {
        BitOfHalf(a, i + 1);
        BitOfHalf(b, i + 1);
        assert Bit(a, i + 1) == Bit(b, i + 1);
      }
      BitsDetermine(a / 2, b / 2);
    }
  }

  /** The distance of two points is the one number whose bits say where the points differ. */
  lemma XorExactly(a: nat, b: nat, x: nat)
    ensures x == Xor(a, b) <==> forall i: nat :: Bit(x, i) == 1 <==> Bit(a, i) != Bit(b, i)
  {
    forall i: nat ensures Bit(Xor(a, b), i) == 1 <==> Bit(a, i) != Bit(b, i) {
      XorBits(a, b, i);
    }
    if forall i: nat :: Bit(x, i) == 1 <==> Bit(a, i) != Bit(b, i) {
      forall i: nat ensures Bit(x, i) == Bit(Xor(a, b), i) {
        assert Bit(x, i) == 1 <==> Bit(a, i) != Bit(b, i);
      }
      BitsDetermine(x, Xor(a, b));
    }
  }

  /** A low part that only one operand has stays as it is, and the high parts are combined. */
  lemma {:induction false} XorHigh(a: nat, b: nat, r: nat, e: nat, p: nat, u: nat, v: nat)
    requires p == Pow2(e) && r < p && u == a * p + r && v == b * p
    ensures Xor(u, v) == Xor(a, b) * p + r
    decreases e
  {
    if e == 0 {
      assert u == a && v == b;
    } else {
      var h, x := Pow2(e - 1), Xor(a, b);
      var y := x * p + r;
      HalfOfSum(a, h, r, u);
      HalfOfSum(b, h, 0, v);
      HalfOfSum(x, h, r, y);
      XorHigh(a, b, r / 2, e - 1, h, u / 2, v / 2);
      XorLow(u, v);
      ParityOfSum(u, v, r);
      SameHalves(Xor(u, v), y);
    }
  }

  lemma HalfOfSum(a: nat, h: nat, r: nat, u: nat)
    requires u == a * (2 * h) + r
    ensures u / 2 == a * h + r / 2 && u % 2 == r % 2
  {
    assert a * (2 * h) == 2 * (a * h);
  }

  lemma ParityOfSum(u: nat, v: nat, r: nat)
    requires u % 2 == r % 2 && v % 2 == 0
    ensures (u + v) % 2 == r % 2
  {
  }

  lemma SameHalves(x: nat, y: nat)
    requires x / 2 == y / 2 && x % 2 == y % 2
    ensures x == y
  {
  }

  lemma {:induction false} XorZero(a: nat)
    ensures Xor(a, 0) == a
  {
    if a != 0 {
      XorZero(a / 2);
    }
  }

  lemma {:induction false} XorCommutes(a: nat, b: nat)
    ensures Xor(a, b) == Xor(b, a)
    decreases a + b
  {
    if a + b != 0 {
      XorCommutes(a / 2, b / 2);
    }
  }

  /** Distance zero means equality. */
  lemma {:induction false} XorIsZero(a: nat, b: nat)
    ensures Xor(a, b) == 0 <==> a == b
    decreases a + b
  {
    if a + b != 0 {
      XorIsZero(a / 2, b / 2);
    }
  }

  /** Two points at the same distance from a target are the same point. */
  lemma {:induction false} XorCancels(a: nat, b: nat, t: nat)
    ensures Xor(a, t) == Xor(b, t) <==> a == b
    decreases a + b + t
  {
    if a + b + t != 0 {
      XorCancels(a / 2, b / 2, t / 2);
    }
  }

  /** Exclusive-or stays inside the width of its operands. */
  lemma {:induction false} XorBound(a: nat, b: nat, e: nat)
    requires a < Pow2(e) && b < Pow2(e)
    ensures Xor(a, b) < Pow2(e)
    decreases e
  {
    if e != 0 {
      XorBound(a / 2, b / 2, e - 1);
    }
  }

  /** An inclusive interval [lo, hi] that is an aligned block of 2^e points. */
  ghost predicate Dyadic(lo: nat, hi: nat, e: nat)
    decreases e
  {
    if e == 0 then lo == hi else lo % 2 == 0 && hi % 2 == 1 && Dyadic(lo / 2, hi / 2, e - 1)
  }

  lemma {:induction false} BlockWidth(lo: nat, hi: nat, e: nat)
    requires Dyadic(lo, hi, e)
    ensures hi + 1 == lo + Pow2(e)
    decreases e
  {
    if e != 0 {
      BlockWidth(lo / 2, hi / 2, e - 1);
    }
  }

  lemma {:induction false} WholeSpace(e: nat)
    ensures Dyadic(0, Pow2(e) - 1, e)
  {
    if e != 0 {
      WholeSpace(e - 1);
    }
  }

  /** Seen from inside an aligned block, every point of the block is nearer than every other point. */
  lemma {:induction false} BlockSeparates(lo: nat, hi: nat, e: nat, t: nat, x: nat)
    requires Dyadic(lo, hi, e) && lo <= t <= hi
    ensures lo <= x <= hi <==> Xor(x, t) < Pow2(e)
    decreases e
  {
    if e == 0 {
      XorIsZero(x, t);
    } else {
      BlockSeparates(lo / 2, hi / 2, e - 1, t / 2, x / 2);
      assert lo <= x <= hi <==> lo / 2 <= x / 2 <= hi / 2;
    }
  }

  lemma DoubleAndHalf(l: nat, h: nat)
    ensures (2 * l) % 2 == 0 && (2 * l) / 2 == l && (2 * h + 1) % 2 == 1 && (2 * h + 1) / 2 == h
  {
  }

  lemma {:induction false} Doubled(l: nat, h: nat, e: nat)
    requires Dyadic(l, h, e)
    ensures Dyadic(2 * l, 2 * h + 1, e + 1)
  {
    DoubleAndHalf(l, h);
    var l2, h2 := 2 * l, 2 * h + 1;
    assert l2 / 2 == l && h2 / 2 == h;
    assert Dyadic(l2, h2, e + 1);
  }

  lemma {:induction false} HalvesAt(lo: nat, mid: nat, hi: nat, e: nat)
    requires e > 0 && Dyadic(lo, hi, e) && mid + 1 == lo + Pow2(e - 1)
    ensures Dyadic(lo, mid, e - 1) && Dyadic(mid + 1, hi, e - 1)
    decreases e
  {
    var l, h := lo / 2, hi / 2;
    if e > 1 {
      var m := l + Pow2(e - 2) - 1;
      HalvesAt(l, m, h, e - 1);
      Doubled(l, m, e - 2);
      Doubled(m + 1, h, e - 2);
      assert lo == 2 * l && mid == 2 * m + 1 && hi == 2 * h + 1;
    } else {
      assert Dyadic(l, h, 0);
    }
  }

  /** An aligned block of more than one point halves into two aligned blocks at its midpoint. */
  lemma Halves(lo: nat, hi: nat, e: nat)
    requires Dyadic(lo, hi, e) && lo != hi
    ensures e > 0 && lo < hi
    ensures Dyadic(lo, lo + (hi - lo) / 2, e - 1)
    ensures Dyadic(lo + (hi - lo) / 2 + 1, hi, e - 1)
  {
    BlockWidth(lo, hi, e);
    HalvesAt(lo, lo + (hi - lo) / 2, hi, e);
  }

  /** Points whose halves differ compare as their halves do. */
  lemma HalvesCompare(a: nat, b: nat, t: nat)
    requires a / 2 != b / 2
    ensures Xor(a, t) < Xor(b, t) <==> Xor(a / 2, t / 2) < Xor(b / 2, t / 2)
  {
    XorCancels(a / 2, b / 2, t / 2);
  }

  /** Halving an aligned block gives an aligned block. */
  lemma HalfBlock(lo: nat, hi: nat, e: nat)
    requires Dyadic(lo, hi, e)
    ensures Dyadic(lo / 2, hi / 2, if e == 0 then 0 else e - 1)
  {
  }

  /** Disjoint blocks stay disjoint when they are halved, unless both are points. */
  lemma HalvesApart(lo1: nat, hi1: nat, e1: nat, lo2: nat, hi2: nat, e2: nat)
    requires Dyadic(lo1, hi1, e1) && Dyadic(lo2, hi2, e2) && hi1 < lo2 && e1 + e2 > 0
    ensures hi1 / 2 < lo2 / 2
  {
  }

  /** Seen from anywhere, of two disjoint aligned blocks one is nearer with all its points. */
  lemma {:induction false} BlocksCompare(lo1: nat, hi1: nat, e1: nat, lo2: nat, hi2: nat, e2: nat, t: nat,
                                         x1: nat, x2: nat, y1: nat, y2: nat)
    requires Dyadic(lo1, hi1, e1) && Dyadic(lo2, hi2, e2) && (hi1 < lo2 || hi2 < lo1)
    requires lo1 <= x1 <= hi1 && lo1 <= y1 <= hi1 && lo2 <= x2 <= hi2 && lo2 <= y2 <= hi2
    ensures Xor(x1, t) < Xor(x2, t) <==> Xor(y1, t) < Xor(y2, t)
    decreases e1 + e2
  {
    if e1 + e2 == 0 {
      assert x1 == y1 && x2 == y2;
    } else {
      HalfBlock(lo1, hi1, e1);
      HalfBlock(lo2, hi2, e2);
      if hi1 < lo2 {
        HalvesApart(lo1, hi1, e1, lo2, hi2, e2);
      } else {
        HalvesApart(lo2, hi2, e2, lo1, hi1, e1);
      }
      assert x1 / 2 != x2 / 2 && y1 / 2 != y2 / 2;
      HalvesCompare(x1, x2, t);
      HalvesCompare(y1, y2, t);
      BlocksCompare(lo1 / 2, hi1 / 2, if e1 == 0 then 0 else e1 - 1, lo2 / 2, hi2 / 2, if e2 == 0 then 0 else e2 - 1,
                    t / 2, x1 / 2, x2 / 2, y1 / 2, y2 / 2);
    }
  }
}
