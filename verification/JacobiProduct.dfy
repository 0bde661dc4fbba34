/** The symbol of the Jacobi loop is the textbook one: the product of the Legendre
    symbols over the prime factors of the denominator (src/proth/proth.cpp). */
module JacobiProduct {
  import opened NumberTheory
  import opened FiniteProducts
  import opened Reciprocity
  import opened Proth

  // ----- a product in the denominator

  lemma CoprimeToProduct(a: int, m: int, n: int)
    ensures Coprime(a, m * n) <==> Coprime(a, m) && Coprime(a, n)
  {
    if Coprime(a, m * n) {
      CoprimeSymmetric(a, m * n);
      CoprimeFactor(m, n, a);
      CoprimeSymmetric(m, a);
      CoprimeSymmetric(n, a);
    }
    if Coprime(a, m) && Coprime(a, n) {
      CoprimeSymmetric(a, m);
      CoprimeSymmetric(a, n);
      CoprimeProduct(m, n, a);
      CoprimeSymmetric(m * n, a);
    }
  }

  lemma FourProduct(x: int, r: int, y: int, s: int)
    ensures (4 * x + r) * (4 * y + s) == 4 * (x * (4 * y + s) + r * y) + r * s
  {
    assert (4 * x + r) * (4 * y + s) == (4 * x) * (4 * y + s) + r * (4 * y + s);
    assert (4 * x) * (4 * y + s) == 4 * (x * (4 * y + s));
    assert r * (4 * y + s) == 4 * (r * y) + r * s;
  }

  lemma OddProduct(m: nat, n: nat)
    requires m % 2 == 1 && n % 2 == 1
    ensures (m * n) % 2 == 1 && ((m * n) % 4 == 3 <==> (m % 4 == 3) != (n % 4 == 3))
  {
    var x, r, y, s := m / 4, m % 4, n / 4, n % 4;
    FourProduct(x, r, y, s);
    var q := x * n + r * y;
    assert m == 4 * x + r && n == 4 * y + s && m * n == 4 * q + r * s;
    OddRemainders(r, s);
    DivModUnique(m * n, 4, q + (r * s) / 4, (r * s) % 4);
  }

  lemma OddRemainders(r: nat, s: nat)
    requires r < 4 && s < 4 && r % 2 == 1 && s % 2 == 1
    ensures (r * s) % 2 == 1 && 0 <= (r * s) % 4 < 4 && ((r * s) % 4 == 3 <==> (r == 3) != (s == 3))
  {
  }

  /** An odd positive number with the same residues. */
  lemma OddRepresentative(a: nat, n: nat) returns (b: nat)
    requires n % 2 == 1
    ensures b % 2 == 1 && Divides(n, b - a)
  {
    b := if a % 2 == 1 then a else a + n;
    DividesMultiple(n, if a % 2 == 1 then 0 else 1);
  }

  /** The symbol depends on the residue of the numerator only. */
  lemma SameResidue(a: nat, b: nat, n: nat)
    requires n > 0 && Divides(n, b - a)
    ensures JacobiValue(a, n) == JacobiValue(b, n)
  {
    CongIffDivides(b, a, n);
    ReduceNumerator(a, n);
    ReduceNumerator(b, n);
  }

  lemma SignsMultiply(a: nat, m: nat, n: nat)
    requires a % 2 == 1 && m % 2 == 1 && n % 2 == 1 && Coprime(a, m * n)
    ensures GaussSign(a, m * n) == GaussSign(a, m) * GaussSign(a, n)
  {
    OddProduct(m, n);
    CoprimeToProduct(a, m, n);
    ExchangeOperands(a, m * n);
    ExchangeOperands(a, m);
    ExchangeOperands(a, n);
    GaussSignMultiplicative(m, n, a);
    SignValue(m, a);
    SignValue(n, a);
  }

  /** The symbol is multiplicative in its denominator. */
  lemma JacobiMultiplicative(a: nat, m: nat, n: nat)
    requires m % 2 == 1 && n % 2 == 1
    ensures JacobiValue(a, m * n) == JacobiValue(a, m) * JacobiValue(a, n)
  {
    OddProduct(m, n);
    var b := OddRepresentative(a, m * n);
    DividesMultiple(m, n);
    DividesMultiple(n, m);
    assert m * n > 0;
    DividesTrans(m, m * n, b - a);
    DividesTrans(n, m * n, b - a);
    SameResidue(a, b, m * n);
    SameResidue(a, b, m);
    SameResidue(a, b, n);
    CoprimeToProduct(b, m, n);
    if Coprime(b, m * n) {
      SignsMultiply(b, m, n);
    }
  }

  // ----- the prime factors

  /** The Legendre symbol by Euler's criterion. */
  ghost function LegendreValue(a: int, p: int): int
    requires p > 1
  {
    if Divides(p, a) then 0 else if Cong(Pow(a, Half(p)), 1, p) then 1 else -1
  }

  /** Over an odd prime the loop's symbol is the Legendre symbol. */
  lemma JacobiOfPrime(a: nat, p: nat)
    requires IsPrime(p) && p % 2 == 1
    ensures JacobiValue(a, p) == LegendreValue(a, p)
  {
    if Divides(p, a) {
      NotCoprime(a, p);
    } else {
      CoprimePrime(p, a);
      GaussLemma(p, a);
      SignValue(a, p);
      MinusOneIsNotOne(p);
    }
  }

  lemma MinusOneIsNotOne(p: int)
    requires p > 2
    ensures !Cong(-1, 1, p)
  {
    if Cong(-1, 1, p) {
      CongIffDivides(-1, 1, p);
      NoSmallMultiple(p, -2);
    }
  }

  lemma NotCoprime(a: int, p: int)
    requires p > 1 && Divides(p, a)
    ensures !Coprime(a, p)
  {
    forall u, v
      ensures !Bezout(a, p, u, v)
    {
      if Bezout(a, p, u, v) {
        DividesLinear(p, a, p, u, v);
        DivModUnique(1, p, 0, 1);
      }
    }
  }

  ghost predicate OddPrimes(ps: seq<nat>) {
    forall i :: 0 <= i < |ps| ==> IsPrime(ps[i]) && ps[i] % 2 == 1
  }

  function Product(ps: seq<nat>): nat {
    if ps == [] then 1 else ps[0] * Product(ps[1..])
  }

  ghost function Legendres(a: int, ps: seq<nat>): int
    requires OddPrimes(ps)
  {
    if ps == [] then 1 else LegendreValue(a, ps[0]) * Legendres(a, ps[1..])
  }

  lemma {:induction false} OddPrimesProduct(ps: seq<nat>)
    requires OddPrimes(ps)
    ensures Product(ps) % 2 == 1
  {
    if ps != [] {
      OddPrimesProduct(ps[1..]);
      OddProduct(ps[0], Product(ps[1..]));
    }
  }

  /** The symbol of any product of odd primes is the product of their Legendre symbols. */
  lemma {:induction false} JacobiIsProduct(a: nat, ps: seq<nat>)
    requires OddPrimes(ps)
    ensures JacobiValue(a, Product(ps)) == Legendres(a, ps)
  {
    if ps == [] {
      DenominatorOne(a, 1);
    } else {
      OddPrimesProduct(ps[1..]);
      JacobiMultiplicative(a, ps[0], Product(ps[1..]));
      JacobiOfPrime(a, ps[0]);
      JacobiIsProduct(a, ps[1..]);
    }
  }

  /** Every odd denominator is such a product. */
  lemma {:induction false} PrimeFactors(n: nat) returns (ps: seq<nat>)
    requires n % 2 == 1
    ensures OddPrimes(ps) && Product(ps) == n
  {
    if n == 1 {
      ps := [];
    } else {
      var p := PrimeDivisor(n);
      var q := DividesWitness(p, n);
      FactorsOdd(p, q);
      DividesLe(p, n);
      SmallerCofactor(p, q, n);
      var rest := PrimeFactors(q);
      ps := [p] + rest;
      assert ps[1..] == rest && n == p * q;
    }
  }

  lemma FactorsOdd(p: int, q: int)
    requires (q * p) % 2 == 1
    ensures p % 2 == 1 && q % 2 == 1
  {
    if p % 2 == 0 {
      assert q * p == 2 * (q * (p / 2));
      DivModUnique(q * p, 2, q * (p / 2), 0);
    }
    if q % 2 == 0 {
      assert q * p == 2 * ((q / 2) * p);
      DivModUnique(q * p, 2, (q / 2) * p, 0);
    }
  }

  lemma SmallerCofactor(p: int, q: int, n: int)
    requires p >= 2 && n > 0 && n == q * p
    ensures 0 < q < n
  {
    if q <= 0 {
      MulMonotone(p, q, 0);
    }
    MulMonotone(q, 2, p);
  }
}
