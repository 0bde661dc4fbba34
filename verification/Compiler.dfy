/** The congruence compiler: multiplicative orders, and the residue-class rules
    that say when a prime divides a candidate (src/congruence/compiler.cpp). */
module Compiler {
  import opened NumberTheory
  import opened FiniteProducts
  import opened Orders
  import opened MachineArithmetic
  import opened StrongTest
  import opened Progressions
  import opened Wrappers

  // ----- the multiplicative order

  /** Reducing the exponent by the prime q once more would lose the power 1. */
  ghost predicate ReducedAt(base: int, p: int, order: nat, q: int)
    requires p > 0 && q > 0
  {
    Divides(q, order) ==> !Cong(Pow(base, order / q), 1, p)
  }

  ghost predicate PeriodOf(base: int, p: int, order: nat)
    requires p > 0
  {
    order > 0 && Divides(order, p - 1) && Cong(Pow(base, order), 1, p)
  }

  lemma QuotientDivides(order: nat, q: nat)
    requires order > 0 && q > 0 && Divides(q, order)
    ensures order / q > 0 && order == (order / q) * q && Divides(order / q, order)
  {
    var x := DividesWitness(q, order);
    assert x * q == q * x;
    PositiveFactor(q, x, order);
    DividesMultiple(x, q);
  }

  lemma QuotientOfProduct(order: nat, x: nat, d: nat, q: nat)
    requires order == x * d && x > 0 && q > 0 && Divides(q, x)
    ensures Divides(q, order) && order / q == (x / q) * d && x / q > 0
  {
    QuotientDivides(x, q);
    var y := x / q;
    assert (y * q) * d == (y * d) * q;
    DivModUnique(order, q, y * d, 0);
  }

  lemma ReducedSurvives(base: int, p: int, order: nat, q: nat, r: nat)
    requires p > 1 && order > 0 && q > 0 && Divides(q, order) && r > 0 && ReducedAt(base, p, order, r)
    ensures ReducedAt(base, p, order / q, r)
  {
    QuotientDivides(order, q);
    var o := order / q;
    if Divides(r, o) && Cong(Pow(base, o / r), 1, p) {
      QuotientOfProduct(order, o, q, r);
      assert (o / r) * q == q * (o / r);
      PowPeriodic(base, p, o / r, q, 0);
    }
  }

  /** Dividing out a factor keeps the period and what the other primes know. */
  lemma ReduceStep(base: int, p: int, order: nat, q: nat)
    requires p > 1 && PeriodOf(base, p, order) && q > 1 && Divides(q, order)
    requires Cong(Pow(base, order / q), 1, p)
    ensures PeriodOf(base, p, order / q) && order / q < order
    ensures forall r :: r > 0 && ReducedAt(base, p, order, r) ==> ReducedAt(base, p, order / q, r)
  {
    QuotientDivides(order, q);
    var o := order / q;
    DividesTrans(o, order, p - 1);
    MulMonotone(o, 2, q);
    forall r | r > 0 && ReducedAt(base, p, order, r)
      ensures ReducedAt(base, p, o, r)
    {
      ReducedSurvives(base, p, order, q, r);
    }
  }

  /** The inner loop of multiplicative_order: remove one prime while the power stays 1. */
  method ReduceBy(base: u64, prime: u64, order0: u64, q: u64) returns (order: u64)
    requires prime > 1 && q > 1 && PeriodOf(base, prime, order0)
    ensures PeriodOf(base, prime, order) && ReducedAt(base, prime, order, q)
    ensures forall r :: r > 0 && ReducedAt(base, prime, order0, r) ==> ReducedAt(base, prime, order, r)
  {
    order := order0;
    DivModUnique(1, prime, 0, 1);
    while true
      invariant PeriodOf(base, prime, order)
      invariant forall r :: r > 0 && ReducedAt(base, prime, order0, r) ==> ReducedAt(base, prime, order, r)
      decreases order
    {
      if order % q != 0 {
        return;
      }
      QuotientDivides(order, q);
      var quotient: u64 := order / q by {
        MulMonotone(order / q, 1, q);
      }
      var power := PowerModulo(base, quotient, prime);
      if power != 1 {
        return;
      }
      ReduceStep(base, prime, order, q);
      order := quotient;
    }
  }

  /** The primes below the divisor are gone from the cofactor. */
  ghost predicate RoughFrom(remaining: nat, divisor: nat) {
    forall r :: 2 <= r < divisor && r <= remaining ==> !Divides(r, remaining)
  }

  lemma RoughDivisorIsPrime(remaining: nat, divisor: nat)
    requires 2 <= divisor && remaining > 0 && RoughFrom(remaining, divisor) && Divides(divisor, remaining)
    ensures IsPrime(divisor)
  {
    forall d | 2 <= d < divisor
      ensures !Divides(d, divisor)
    {
      if Divides(d, divisor) {
        DividesTrans(d, divisor, remaining);
        DividesLe(d, remaining);
      }
    }
  }

  /** All multiples of the divisor leave the cofactor; no other prime does. */
  method StripFactor(remaining0: u64, divisor: u64) returns (remaining: u64)
    requires remaining0 > 0 && divisor >= 2 && IsPrime(divisor) && RoughFrom(remaining0, divisor)
    ensures remaining > 0 && Divides(remaining, remaining0) && RoughFrom(remaining, divisor + 1)
    ensures forall r :: IsPrime(r) && r != divisor && Divides(r, remaining0) ==> Divides(r, remaining)
    ensures Divides(divisor, remaining0) ==> remaining < remaining0
  {
    remaining := remaining0;
    while remaining % divisor == 0
      invariant remaining > 0 && Divides(remaining, remaining0) && remaining <= remaining0
      invariant forall r :: IsPrime(r) && r != divisor && Divides(r, remaining0) ==> Divides(r, remaining)
      invariant remaining == remaining0 || remaining < remaining0
      decreases remaining
    {
      QuotientDivides(remaining, divisor);
      DividesTrans(remaining / divisor, remaining, remaining0);
      MulMonotone(remaining / divisor, 2, divisor);
      forall r | IsPrime(r) && r != divisor && Divides(r, remaining)
        ensures Divides(r, remaining / divisor)
      {
        EuclidInt(r, remaining / divisor, divisor);
        if Divides(r, divisor) {
          PrimeDivisorIs(divisor, r);
        }
      }
      remaining := remaining / divisor;
    }
    forall r | 2 <= r < divisor + 1 && r <= remaining
      ensures !Divides(r, remaining)
    {
      if Divides(r, remaining) && r < divisor {
        DividesTrans(r, remaining, remaining0);
      }
    }
  }

  lemma RoughCofactorIsPrime(remaining: nat, divisor: nat)
    requires remaining > 1 && divisor >= 2 && RoughFrom(remaining, divisor) && divisor > remaining / divisor
    ensures IsPrime(remaining)
  {
    if !IsPrime(remaining) {
      var p := SmallPrimeDivisor(remaining);
      QuotientBounds(remaining, divisor);
      MulMonotone(divisor, remaining / divisor + 1, divisor);
      assert divisor * (remaining / divisor + 1) == (remaining / divisor + 1) * divisor;
      DividesLe(p, remaining);
      MulMonotone(divisor, divisor, p);
      MulMonotone(p, divisor, p);
    }
  }

  /** A period that no prime reduces is the least one. */
  lemma FullyReducedIsOrder(base: int, p: int, order: nat)
    requires IsPrime(p) && !Divides(p, base) && PeriodOf(base, p, order)
    requires forall q :: IsPrime(q) && Divides(q, p - 1) ==> ReducedAt(base, p, order, q)
    ensures IsOrder(base, p, order)
  {
    var d := OrderExists(base, p);
    OrderDivides(base, p, d, order);
    QuotientDivides(order, d);
    var x := order / d;
    if x > 1 {
      var q := PrimeDivisor(x);
      QuotientOfProduct(order, x, d, q);
      DividesTrans(q, order, p - 1);
      PowPeriodic(base, p, d, x / q, 0);
    } else {
      assert order == d;
    }
  }

  /** multiplicative_order: trial division of p - 1 finds the least positive
      exponent e with base^e = 1 modulo the prime. */
  method MultiplicativeOrder(base: u64, prime: u64) returns (order: u64)
    requires IsPrime(prime) && !Divides(prime, base)
    ensures IsOrder(base, prime, order) && Divides(order, prime - 1)
  {
    Fermat(prime, base);
    order := prime - 1;
    DividesMultiple(order, 1);
    var remaining: u64 := order;
    var divisor: u64 := 2;
    while divisor <= remaining / divisor
      invariant 2 <= divisor && 0 < remaining < prime && RoughFrom(remaining, divisor)
      invariant PeriodOf(base, prime, order)
      invariant forall q :: IsPrime(q) && Divides(q, prime - 1) ==>
        Divides(q, remaining) || ReducedAt(base, prime, order, q)
      decreases prime - divisor
    {
      QuotientBounds(remaining, divisor);
      if remaining % divisor == 0 {
        RoughDivisorIsPrime(remaining, divisor);
        ghost var before := remaining;
        remaining := StripFactor(remaining, divisor);
        DividesLe(remaining, before);
        order := ReduceBy(base, prime, order, divisor);
      }
      divisor := divisor + 1;
    }
    if remaining > 1 {
      RoughCofactorIsPrime(remaining, divisor);
      forall q | IsPrime(q) && Divides(q, remaining)
        ensures q == remaining
      {
        PrimeDivisorIs(remaining, q);
      }
      order := ReduceBy(base, prime, order, remaining);
    } else {
      forall q | IsPrime(q)
        ensures !Divides(q, remaining)
      {
        DivModUnique(1, q, 0, 1);
      }
    }
    FullyReducedIsOrder(base, prime, order);
  }
}
