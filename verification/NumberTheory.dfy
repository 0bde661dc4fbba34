/** Elementary number theory behind the modular code paths: division with
    remainder, congruences, powers, Euclid's lemma and prime divisors. */
module NumberTheory {

  predicate Divides(d: int, n: int)
    requires d > 0
  {
    n % d == 0
  }

  ghost predicate IsPrime(p: int) {
    p >= 2 && forall d :: 2 <= d < p ==> !Divides(d, p)
  }

  // ----- division with remainder

  lemma MulMonotone(d: int, x: int, y: int)
    requires d >= 0 && x <= y
    ensures d * x <= d * y
  {
  }

  lemma QuotientUnique(d: int, q: int, r: int, q': int, r': int)
    requires 0 <= r < d && 0 <= r' < d && q * d + r == q' * d + r'
    ensures q == q' && r == r'
  {
    assert d * (q' - q) == r - r';
    if q' > q {
      MulMonotone(d, 1, q' - q);
    } else if q' < q {
      MulMonotone(d, q' - q, -1);
    }
  }

  lemma DivModUnique(n: int, d: int, q: int, r: int)
    requires d > 0 && 0 <= r < d && n == q * d + r
    ensures n / d == q && n % d == r
  {
    var q', r' := n / d, n % d;
    assert n == q' * d + r';
    QuotientUnique(d, q, r, q', r');
  }

  lemma QuotientBounds(x: int, d: int)
    requires x >= 0 && d > 0
    ensures 0 <= x / d <= x && (x / d) * d <= x < (x / d + 1) * d
  {
    var q := x / d;
    assert x == d * q + x % d;
    assert (q + 1) * d == d * q + d && q * d == d * q;
    if q < 0 {
      MulMonotone(d, q, -1);
    }
    MulMonotone(q, 1, d);
  }

  lemma DividesMultiple(d: int, q: int)
    requires d > 0
    ensures Divides(d, q * d) && Divides(d, d * q)
    ensures q * d / d == q
  {
    DivModUnique(q * d, d, q, 0);
    assert q * d == d * q;
  }

  lemma DividesWitness(d: int, n: int) returns (q: int)
    requires d > 0 && Divides(d, n)
    ensures n == q * d && q == n / d
  {
    q := n / d;
    assert n == d * q + n % d;
  }

  lemma DividesTrans(a: int, b: int, c: int)
    requires a > 0 && b > 0 && Divides(a, b) && Divides(b, c)
    ensures Divides(a, c)
  {
    var x := DividesWitness(a, b);
    var y := DividesWitness(b, c);
    assert c == (y * x) * a;
    DividesMultiple(a, y * x);
  }

  lemma DividesLinear(d: int, a: int, b: int, x: int, y: int)
    requires d > 0 && Divides(d, a) && Divides(d, b)
    ensures Divides(d, x * a + y * b)
  {
    var p := DividesWitness(d, a);
    var q := DividesWitness(d, b);
    assert x * a + y * b == (x * p + y * q) * d;
    DividesMultiple(d, x * p + y * q);
  }

  lemma DividesLe(d: int, n: int)
    requires d > 0 && n > 0 && Divides(d, n)
    ensures d <= n
  {
    var q := DividesWitness(d, n);
    if q >= 1 {
      MulMonotone(d, 1, q);
    } else {
      MulMonotone(d, q, 0);
    }
  }

  // ----- congruences

  predicate Cong(a: int, b: int, m: int)
    requires m > 0
  {
    a % m == b % m
  }

  lemma CongIffDivides(a: int, b: int, m: int)
    requires m > 0
    ensures Cong(a, b, m) <==> Divides(m, a - b)
  {
    var x, y := a / m, b / m;
    assert a == m * x + a % m && b == m * y + b % m;
    if Cong(a, b, m) {
      assert a - b == (x - y) * m;
      DividesMultiple(m, x - y);
    }
    if Divides(m, a - b) {
      var q := DividesWitness(m, a - b);
      assert a == (q + y) * m + b % m;
      DivModUnique(a, m, q + y, b % m);
    }
  }

  lemma ModSelf(a: int, m: int)
    requires m > 0
    ensures (a % m) % m == a % m
    ensures 0 <= a < m ==> a % m == a
  {
    DivModUnique(a % m, m, 0, a % m);
    if 0 <= a < m {
      DivModUnique(a, m, 0, a);
    }
  }

  lemma CongAdd(a: int, b: int, c: int, d: int, m: int)
    requires m > 0 && Cong(a, b, m) && Cong(c, d, m)
    ensures Cong(a + c, b + d, m) && Cong(a - c, b - d, m)
  {
    CongIffDivides(a, b, m);
    CongIffDivides(c, d, m);
    DividesLinear(m, a - b, c - d, 1, 1);
    DividesLinear(m, a - b, c - d, 1, -1);
    assert 1 * (a - b) + 1 * (c - d) == (a + c) - (b + d);
    assert 1 * (a - b) + (-1) * (c - d) == (a - c) - (b - d);
    CongIffDivides(a + c, b + d, m);
    CongIffDivides(a - c, b - d, m);
  }

  lemma CongMul(a: int, b: int, c: int, d: int, m: int)
    requires m > 0 && Cong(a, b, m) && Cong(c, d, m)
    ensures Cong(a * c, b * d, m)
  {
    CongIffDivides(a, b, m);
    CongIffDivides(c, d, m);
    DividesLinear(m, a - b, c - d, c, b);
    assert c * (a - b) + b * (c - d) == a * c - b * d;
    CongIffDivides(a * c, b * d, m);
  }

  lemma ModAdd(a: int, b: int, m: int)
    requires m > 0
    ensures (a + b) % m == (a % m + b % m) % m
  {
    ModSelf(a, m);
    ModSelf(b, m);
    CongAdd(a, a % m, b, b % m, m);
  }

  lemma ModMul(a: int, b: int, m: int)
    requires m > 0
    ensures (a * b) % m == ((a % m) * (b % m)) % m
    ensures (a * b) % m == ((a % m) * b) % m
  {
    ModSelf(a, m);
    ModSelf(b, m);
    CongMul(a, a % m, b, b % m, m);
    CongMul(a, a % m, b, b, m);
  }

  /** A congruence modulo m survives passing to a divisor of m. */
  lemma CongDivisor(a: int, b: int, m: int, d: int)
    requires m > 0 && d > 0 && Divides(d, m) && Cong(a, b, m)
    ensures Cong(a, b, d)
  {
    CongIffDivides(a, b, m);
    DividesTrans(d, m, a - b);
    CongIffDivides(a, b, d);
  }

  lemma NextCongruent(x: int, index: int, m: int)
    requires m > 0 && Cong(x, index, m) && index < x
    ensures x >= index + m
  {
    CongIffDivides(x, index, m);
    DividesLe(m, x - index);
  }

  lemma CongruentStep(index: int, m: int)
    requires m > 0
    ensures (index + m) % m == index % m
  {
    assert index + m - index == 1 * m;
    DividesMultiple(m, 1);
    CongIffDivides(index + m, index, m);
  }

  lemma SmallestInClass(residue: int, modulus: int, i: int)
    requires 0 <= i < residue < modulus
    ensures i % modulus != residue
  {
    DivModUnique(i, modulus, 0, i);
  }

  lemma DivMonotone(x: nat, y: nat, d: nat)
    requires x <= y && d > 0
    ensures x / d <= y / d
  {
    QuotientBounds(x, d);
    QuotientBounds(y, d);
    MulMonotone(d, if x / d > y / d then y / d + 1 else 0, x / d);
    assert d * (y / d + 1) == (y / d + 1) * d && d * (x / d) == (x / d) * d;
  }

  /** a*x = t has the single solution x = t*inv modulo m. */
  lemma SolveLinear(m: int, a: int, inv: int, x: int, t: int)
    requires m > 0 && Cong(a * inv, 1, m)
    ensures Cong(a * x, t, m) <==> Cong(x, t * inv, m)
  {
    CongMul(a * inv, 1, x, x, m);
    CongMul(a * inv, 1, t, t, m);
    if Cong(a * x, t, m) {
      CongMul(a * x, t, inv, inv, m);
      assert (a * x) * inv == (a * inv) * x;
    }
    if Cong(x, t * inv, m) {
      CongMul(a, a, x, t * inv, m);
      assert a * (t * inv) == (a * inv) * t;
    }
  }

  lemma CongMove(m: int, x: int, y: int, z: int)
    requires m > 0
    ensures Cong(x + y, z, m) <==> Cong(y, z - x, m)
  {
    CongIffDivides(x + y, z, m);
    CongIffDivides(y, z - x, m);
  }

  // ----- powers

  function Pow(b: int, e: nat): int
    decreases e
  {
    if e == 0 then 1 else b * Pow(b, e - 1)
  }

  lemma {:induction false} PowAdd(b: int, e: nat, f: nat)
    ensures Pow(b, e + f) == Pow(b, e) * Pow(b, f)
    decreases e
  {
    if e > 0 {
      PowAdd(b, e - 1, f);
      assert Pow(b, e + f) == b * Pow(b, (e - 1) + f);
      assert b * (Pow(b, e - 1) * Pow(b, f)) == (b * Pow(b, e - 1)) * Pow(b, f);
    }
  }

  lemma {:induction false} PowMul(b: int, e: nat, f: nat)
    ensures e * f >= 0 && Pow(b, e * f) == Pow(Pow(b, e), f)
    decreases f
  {
    if f == 0 {
      assert e * f == 0;
    } else {
      PowMul(b, e, f - 1);
      assert e * f == e + e * (f - 1);
      PowAdd(b, e, e * (f - 1));
    }
  }

  lemma MulShuffle(a: int, b: int, x: int, y: int)
    ensures (a * b) * (x * y) == (a * x) * (b * y)
  {
    assert (a * b) * (x * y) == a * (b * (x * y));
    assert b * (x * y) == x * (b * y);
    assert a * (x * (b * y)) == (a * x) * (b * y);
  }

  lemma {:induction false} PowBaseMul(a: int, b: int, e: nat)
    ensures Pow(a * b, e) == Pow(a, e) * Pow(b, e)
  {
    if e > 0 {
      PowBaseMul(a, b, e - 1);
      MulShuffle(a, b, Pow(a, e - 1), Pow(b, e - 1));
    }
  }

  lemma {:induction false} PowCong(a: int, b: int, e: nat, m: int)
    requires m > 0 && Cong(a, b, m)
    ensures Cong(Pow(a, e), Pow(b, e), m)
  {
    if e > 0 {
      PowCong(a, b, e - 1, m);
      CongMul(a, b, Pow(a, e - 1), Pow(b, e - 1), m);
    }
  }

  lemma PowMod(a: int, e: nat, m: int)
    requires m > 0
    ensures Pow(a % m, e) % m == Pow(a, e) % m
  {
    ModSelf(a, m);
    PowCong(a % m, a, e, m);
  }

  lemma {:induction false} PowOne(e: nat)
    ensures Pow(1, e) == 1
  {
    if e > 0 {
      PowOne(e - 1);
    }
  }

  lemma {:induction false} PowPositive(b: int, e: nat)
    requires b > 0
    ensures Pow(b, e) > 0
  {
    if e > 0 {
      PowPositive(b, e - 1);
    }
  }

  lemma {:induction false} PowMonotone(b: int, e: nat, f: nat)
    requires b >= 1 && e <= f
    ensures Pow(b, e) <= Pow(b, f)
  {
    PowPositive(b, e);
    PowPositive(b, f - e);
    PowAdd(b, e, f - e);
    assert Pow(b, e) * Pow(b, f - e) >= Pow(b, e);
  }

  // ----- primes

  lemma PrimeDivisorIs(p: int, d: int)
    requires IsPrime(p) && d > 0 && Divides(d, p)
    ensures d == 1 || d == p
  {
    DividesLe(d, p);
  }

  lemma RemainderTimes(p: int, a: int, b: int, q: int, r: int)
    requires p == a * q + r
    ensures 1 * (b * p) + (-q) * (a * b) == r * b
  {
    assert b * p == b * (a * q) + b * r;
    assert (-q) * (a * b) == -(b * (a * q));
  }

  lemma DividesShift(p: int, a: int, b: int)
    requires p > 0
    ensures Divides(p, a * b) <==> Divides(p, (a - p) * b)
    ensures Divides(p, a) <==> Divides(p, a - p)
  {
    assert a * b - (a - p) * b == b * p;
    assert a - (a - p) == 1 * p;
    DividesMultiple(p, b);
    DividesMultiple(p, 1);
    CongIffDivides(a * b, (a - p) * b, p);
    CongIffDivides(a, a - p, p);
  }

  /** Euclid's lemma. */
  lemma {:induction false} Euclid(p: int, a: nat, b: int)
    requires IsPrime(p) && Divides(p, a * b)
    ensures Divides(p, a) || Divides(p, b)
    decreases a
  {
    if a == 0 {
      assert Divides(p, 0);
    } else if a == 1 {
      assert a * b == b;
    } else if a >= p {
      DividesShift(p, a, b);
      Euclid(p, a - p, b);
    } else {
      assert !Divides(a, p);
      var q, r := p / a, p % a;
      DividesMultiple(p, b);
      DividesLinear(p, b * p, a * b, 1, -q);
      RemainderTimes(p, a, b, q, r);
      Euclid(p, r, b);
      if Divides(p, r) {
        DividesLe(p, r);
      }
    }
  }

  /** Euclid's lemma without a sign condition. */
  lemma EuclidInt(p: int, a: int, b: int)
    requires IsPrime(p) && Divides(p, a * b)
    ensures Divides(p, a) || Divides(p, b)
  {
    ModMul(a, b, p);
    Euclid(p, a % p, b);
    ModSelf(a, p);
  }

  /** A factor prime to p can be cancelled modulo p. */
  lemma CancelModPrime(p: int, c: int, a: int, b: int)
    requires IsPrime(p) && !Divides(p, c) && Cong(c * a, c * b, p)
    ensures Cong(a, b, p)
  {
    CongIffDivides(c * a, c * b, p);
    assert c * a - c * b == c * (a - b);
    EuclidInt(p, c, a - b);
    CongIffDivides(a, b, p);
  }

  lemma {:induction false} PowNotDivisible(p: int, a: int, e: nat)
    requires IsPrime(p) && !Divides(p, a)
    ensures !Divides(p, Pow(a, e))
  {
    if e == 0 {
      DivModUnique(1, p, 0, 1);
    } else {
      PowNotDivisible(p, a, e - 1);
      if Divides(p, Pow(a, e)) {
        EuclidInt(p, a, Pow(a, e - 1));
      }
    }
  }

  /** Every integer above 1 has a least divisor above 1, and it is prime. */
  lemma {:induction false} PrimeDivisorFrom(n: int, d: int) returns (p: int)
    requires 2 <= d <= n
    requires forall x :: 2 <= x < d ==> !Divides(x, n)
    ensures IsPrime(p) && Divides(p, n) && d <= p <= n
    decreases n - d
  {
    if Divides(d, n) {
      p := d;
      forall x | 2 <= x < d
        ensures !Divides(x, d)
      {
        if Divides(x, d) {
          DividesTrans(x, d, n);
        }
      }
    } else {
      assert Divides(n, n);
      p := PrimeDivisorFrom(n, d + 1);
    }
  }

  lemma PrimeDivisor(n: int) returns (p: int)
    requires n >= 2
    ensures IsPrime(p) && Divides(p, n) && 2 <= p <= n
  {
    p := PrimeDivisorFrom(n, 2);
  }

  /** A composite number has a prime divisor whose square does not exceed it. */
  lemma SmallPrimeDivisor(n: int) returns (p: int)
    requires n >= 2 && !IsPrime(n)
    ensures IsPrime(p) && Divides(p, n) && p * p <= n
  {
    var d :| 2 <= d < n && Divides(d, n);
    var e := DividesWitness(d, n);
    if e <= 1 {
      MulMonotone(d, e, 1);
    }
    assert n == d * e;
    DividesMultiple(e, d);
    var s := if d <= e then d else e;
    MulMonotone(s, s, if d <= e then e else d);
    p := PrimeDivisor(s);
    DividesTrans(p, s, n);
    MulMonotone(p, p, s);
    MulMonotone(s, p, s);
  }
}
