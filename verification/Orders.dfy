/** Multiplicative orders modulo a prime. */
module Orders {
  import opened NumberTheory
  import opened FiniteProducts

  ghost predicate IsOrder(b: int, p: int, d: int)
    requires p > 0
  {
    d > 0 && Cong(Pow(b, d), 1, p) && forall e :: 0 < e < d ==> !Cong(Pow(b, e), 1, p)
  }

  /** b^(q*d + r) and b^r agree once b^d is 1. */
  lemma PowPeriodic(b: int, m: int, d: nat, q: nat, r: nat)
    requires m > 0 && Cong(Pow(b, d), 1, m)
    ensures q * d + r >= 0 && Cong(Pow(b, q * d + r), Pow(b, r), m)
  {
    assert q * d == d * q;
    PowMul(b, d, q);
    PowAdd(b, d * q, r);
    PowCong(Pow(b, d), 1, q, m);
    PowOne(q);
    CongMul(Pow(b, d * q), 1, Pow(b, r), Pow(b, r), m);
  }

  lemma OrderDivides(b: int, p: int, d: int, e: nat)
    requires p > 0 && IsOrder(b, p, d) && Cong(Pow(b, e), 1, p)
    ensures Divides(d, e)
  {
    var q, r := e / d, e % d;
    assert e == d * q + r && q * d == d * q;
    QuotientNonnegative(e, d);
    PowPeriodic(b, p, d, q, r);
  }

  lemma QuotientNonnegative(e: nat, d: int)
    requires d > 0
    ensures e / d >= 0
  {
    assert e == d * (e / d) + e % d;
    if e / d < 0 {
      MulMonotone(d, e / d, -1);
    }
  }

  lemma LeastPower(b: int, p: int, from: nat, e: nat) returns (d: nat)
    requires p > 0 && 0 < from <= e && Cong(Pow(b, e), 1, p)
    requires forall x :: 0 < x < from ==> !Cong(Pow(b, x), 1, p)
    ensures IsOrder(b, p, d)
    decreases e - from
  {
    if Cong(Pow(b, from), 1, p) {
      d := from;
    } else {
      d := LeastPower(b, p, from + 1, e);
    }
  }

  /** Every residue prime to p has an order, and the order divides p - 1. */
  lemma OrderExists(b: int, p: int) returns (d: nat)
    requires IsPrime(p) && !Divides(p, b)
    ensures IsOrder(b, p, d) && Divides(d, p - 1)
  {
    Fermat(p, b);
    d := LeastPower(b, p, 1, p - 1);
    OrderDivides(b, p, d, p - 1);
  }

  lemma OddTimesOdd(q: int, d: int)
    requires q % 2 == 1 && d % 2 == 1
    ensures (q * d) % 2 == 1
  {
    var x := q / 2;
    assert q == 2 * x + 1;
    assert q * d == 2 * (x * d) + d;
    var y := d / 2;
    DivModUnique(2 * (x * d) + d, 2, x * d + y, 1);
  }

  lemma {:induction false} OddDivisorOfPowerOfTwo(q: int, d: int, n: nat)
    requires q > 0 && q % 2 == 1 && q * d == Pow(2, n)
    ensures q == 1
    decreases n
  {
    if n == 0 {
      PositiveFactor(q, d, 1);
    } else {
      if d % 2 == 1 {
        OddTimesOdd(q, d);
      }
      assert d == 2 * (d / 2);
      assert q * d == 2 * (q * (d / 2));
      OddDivisorOfPowerOfTwo(q, d / 2, n - 1);
    }
  }

  lemma PositiveFactor(q: int, d: int, m: int)
    requires q > 0 && m > 0 && q * d == m
    ensures d > 0 && q <= m
  {
    if d <= 0 {
      MulMonotone(q, d, 0);
    } else {
      MulMonotone(q, 1, d);
    }
  }

  /** A divisor of 2^n that does not divide 2^(n-1) is 2^n itself. */
  lemma FullPowerOfTwo(d: int, n: nat)
    requires d > 0 && n > 0 && Divides(d, Pow(2, n)) && !Divides(d, Pow(2, n - 1))
    ensures d == Pow(2, n)
  {
    var q := DividesWitness(d, Pow(2, n));
    PowPositive(2, n);
    assert d * q == Pow(2, n);
    PositiveFactor(d, q, Pow(2, n));
    if q % 2 == 0 {
      assert q == 2 * (q / 2);
      assert 2 * (d * (q / 2)) == d * q;
      DividesMultiple(d, q / 2);
    } else {
      OddDivisorOfPowerOfTwo(q, d, n);
    }
  }

  /** A square root of 1 modulo a prime is 1 or -1. */
  lemma SquareRootsOfOne(p: int, x: int)
    requires IsPrime(p) && Cong(x * x, 1, p)
    ensures Cong(x, 1, p) || Cong(x, -1, p)
  {
    CongIffDivides(x * x, 1, p);
    assert x * x - 1 == (x - 1) * (x + 1);
    EuclidInt(p, x - 1, x + 1);
    CongIffDivides(x, 1, p);
    CongIffDivides(x, -1, p);
  }
}
