/** The sign of Gauss's lemma over any odd modulus, its multiplicativity and
    quadratic reciprocity. For a prime modulus the sign is Euler's criterion. */
module Reciprocity {
  import opened NumberTheory
  import opened FiniteProducts

  /** a is invertible modulo n, witnessed by a Bezout combination. */
  ghost predicate Coprime(a: int, n: int) {
    exists u, v :: Bezout(a, n, u, v)
  }

  predicate Bezout(a: int, n: int, u: int, v: int) {
    a * u + n * v == 1
  }

  ghost predicate OddPositive(n: int) {
    n > 0 && n % 2 == 1
  }

  function Half(n: int): nat
    requires n > 0
  {
    (n - 1) / 2
  }

  /** 1 when the residue of a*i lies in the lower half of the residues, else -1. */
  function Sign(a: int, n: int, i: int): int {
    if n > 0 && (a * i) % n > Half(n) then -1 else 1
  }

  /** The absolutely least residue of a*i without its sign. */
  function Abs(a: int, n: int, i: int): int
    requires n > 0
  {
    var r := (a * i) % n;
    if r > Half(n) then n - r else r
  }

  function AbsOf(a: int, n: int): int -> int {
    i => if n > 0 then Abs(a, n, i) else 0
  }

  function SignOf(a: int, n: int): int -> int {
    i => Sign(a, n, i)
  }

  /** The product of the signs over the lower half of the residues. */
  function GaussSign(a: int, n: int): int
    requires n > 0
  {
    Prod(SignOf(a, n), Half(n))
  }

  // ----- coprimality

  lemma CoprimeCancel(a: int, n: int, x: int)
    requires n > 0 && Coprime(a, n) && Divides(n, a * x)
    ensures Divides(n, x)
  {
    var u, v :| Bezout(a, n, u, v);
    DividesMultiple(n, v * x);
    DividesLinear(n, a * x, (v * x) * n, u, 1);
    calc {
      u * (a * x) + 1 * ((v * x) * n);
      { BezoutScale(a, n, u, v, x); }
      x;
    }
  }

  lemma BezoutScale(a: int, n: int, u: int, v: int, x: int)
    requires Bezout(a, n, u, v)
    ensures u * (a * x) + (v * x) * n == x
  {
    assert u * (a * x) == (a * u) * x;
    assert (v * x) * n == (n * v) * x;
    assert (a * u) * x + (n * v) * x == (a * u + n * v) * x;
  }

  lemma CoprimeSymmetric(a: int, n: int)
    requires Coprime(a, n)
    ensures Coprime(n, a)
  {
    var u, v :| Bezout(a, n, u, v);
    assert Bezout(n, a, v, u);
  }

  lemma CoprimeMod(a: int, n: int)
    requires n > 0 && Coprime(a, n)
    ensures Coprime(a % n, n)
  {
    var u, v :| Bezout(a, n, u, v);
    var q, r := a / n, a % n;
    assert a == n * q + r;
    assert (n * q + r) * u == n * (q * u) + r * u;
    assert n * (v + q * u) == n * v + n * (q * u);
    assert Bezout(r, n, u, v + q * u);
  }

  lemma CoprimeFactor(b: int, c: int, n: int)
    requires Coprime(b * c, n)
    ensures Coprime(b, n) && Coprime(c, n)
  {
    var u, v :| Bezout(b * c, n, u, v);
    assert b * (c * u) == (b * c) * u;
    assert c * (b * u) == (b * c) * u;
    assert Bezout(b, n, c * u, v);
    assert Bezout(c, n, b * u, v);
  }

  /** Fermat's theorem supplies the inverse modulo a prime. */
  lemma CoprimePrime(p: int, a: int)
    requires IsPrime(p) && !Divides(p, a)
    ensures Coprime(a, p)
  {
    Fermat(p, a);
    CongIffDivides(Pow(a, p - 1), 1, p);
    var q := DividesWitness(p, Pow(a, p - 1) - 1);
    assert Pow(a, p - 1) == a * Pow(a, p - 2);
    assert p * (-q) == -(q * p);
    assert Bezout(a, p, Pow(a, p - 2), -q);
  }

  lemma CoprimeZero(n: int)
    requires n > 0 && Coprime(0, n)
    ensures n == 1
  {
    var u, v :| Bezout(0, n, u, v);
    assert n * v == 1;
    if n >= 2 {
      if v >= 1 {
        MulMonotone(n, 1, v);
      } else {
        MulMonotone(n, v, 0);
      }
    }
  }

  // ----- the absolute residues permute the lower half

  lemma ResidueParts(a: int, n: int, i: int)
    requires OddPositive(n)
    ensures Cong(a * i, Sign(a, n, i) * Abs(a, n, i), n)
    ensures 0 <= Abs(a, n, i) <= Half(n) && (Sign(a, n, i) == 1 || Sign(a, n, i) == -1)
  {
    var r := (a * i) % n;
    ModSelf(a * i, n);
    if r > Half(n) {
      assert -1 * (n - r) == r + (-1) * n;
      DivModUnique(r + (-1) * n, n, -1, r);
      DivModUnique(r, n, 0, r);
    }
  }

  lemma AbsPositive(a: int, n: int, i: int)
    requires OddPositive(n) && Coprime(a, n) && 1 <= i <= Half(n)
    ensures 1 <= Abs(a, n, i) <= Half(n)
  {
    ResidueParts(a, n, i);
    if Abs(a, n, i) == 0 {
      assert (a * i) % n == 0;
      CoprimeCancel(a, n, i);
      DivModUnique(i, n, 0, i);
    }
  }

  /** A residue determines its sign and its absolute value. */
  lemma PartsUnique(n: int, s: int, x: int, t: int, y: int)
    requires OddPositive(n) && 1 <= x <= Half(n) && 1 <= y <= Half(n)
    requires (s == 1 || s == -1) && (t == 1 || t == -1)
    requires Cong(s * x, t * y, n)
    ensures s == t && x == y
  {
    CongIffDivides(s * x, t * y, n);
    var d := s * x - t * y;
    assert -n < d < n;
    if d >= 0 {
      DivModUnique(d, n, 0, d);
    } else {
      DivModUnique(d, n, -1, d + n);
    }
  }

  lemma NoSmallMultiple(n: int, x: int)
    requires n > 0 && Divides(n, x) && -n < x < n
    ensures x == 0
  {
    DivModUnique(x, n, if x < 0 then -1 else 0, if x < 0 then x + n else x);
  }

  lemma AbsInjective(a: int, n: int, i: int, j: int)
    requires OddPositive(n) && Coprime(a, n) && 1 <= i <= Half(n) && 1 <= j <= Half(n)
    requires Abs(a, n, i) == Abs(a, n, j)
    ensures i == j
  {
    ResidueParts(a, n, i);
    ResidueParts(a, n, j);
    var x := Abs(a, n, i);
    if Sign(a, n, i) == Sign(a, n, j) {
      CongIffDivides(a * i, a * j, n);
      assert a * i - a * j == a * (i - j);
      CoprimeCancel(a, n, i - j);
      NoSmallMultiple(n, i - j);
    } else {
      CongAdd(a * i, Sign(a, n, i) * x, a * j, Sign(a, n, j) * x, n);
      assert Sign(a, n, i) * x + Sign(a, n, j) * x == 0;
      CongIffDivides(a * i + a * j, 0, n);
      assert a * i + a * j == a * (i + j);
      CoprimeCancel(a, n, i + j);
      NoSmallMultiple(n, i + j);
    }
  }

  lemma AbsPermutes(a: int, n: int)
    requires OddPositive(n) && Coprime(a, n)
    ensures Permutes(AbsOf(a, n), Half(n))
  {
    forall i | 1 <= i <= Half(n)
      ensures 1 <= AbsOf(a, n)(i) <= Half(n)
    {
      AbsPositive(a, n, i);
    }
    forall i, j | 1 <= i < j <= Half(n)
      ensures AbsOf(a, n)(i) != AbsOf(a, n)(j)
    {
      if Abs(a, n, i) == Abs(a, n, j) {
        AbsInjective(a, n, i, j);
      }
    }
  }

  // ----- Gauss's lemma

  /** The sign product of any sign function and permutation that represent a*i. */
  lemma SignedProduct(p: int, a: int, h: nat, sign: int -> int, abs: int -> int)
    requires IsPrime(p) && h < p && Permutes(abs, h)
    requires forall i :: 1 <= i <= h ==> Cong(a * i, sign(i) * abs(i), p)
    ensures Cong(Pow(a, h), Prod(sign, h), p)
  {
    var id := Identity();
    ProdCong(Times(Always(a), id), Times(sign, After(id, abs)), h, p);
    ProdMul(Always(a), id, h);
    ProdMul(sign, After(id, abs), h);
    ProdPermuted(id, abs, h);
    ProdConst(a, h);
    FactorialNotDivisible(p, h);
    CancelRight(p, Prod(id, h), Pow(a, h), Prod(sign, h));
  }

  lemma CancelRight(p: int, c: int, a: int, b: int)
    requires IsPrime(p) && !Divides(p, c) && Cong(a * c, b * c, p)
    ensures Cong(a, b, p)
  {
    assert a * c == c * a && b * c == c * b;
    CancelModPrime(p, c, a, b);
  }

  /** Modulo a prime, a^((p-1)/2) is the Gauss sign. */
  lemma GaussLemma(p: int, a: int)
    requires IsPrime(p) && p % 2 == 1 && !Divides(p, a)
    ensures Cong(Pow(a, Half(p)), GaussSign(a, p), p)
  {
    CoprimePrime(p, a);
    AbsPermutes(a, p);
    forall i | 1 <= i <= Half(p)
      ensures Cong(a * i, SignOf(a, p)(i) * AbsOf(a, p)(i), p)
    {
      ResidueParts(a, p, i);
    }
    SignedProduct(p, a, Half(p), SignOf(a, p), AbsOf(a, p));
  }

  // ----- multiplicativity

  lemma CongChain(a: int, b: int, i: int, n: int, t: int, y: int, s: int, x: int)
    requires n > 0 && Cong(b * i, t * y, n) && Cong(a * y, s * x, n)
    ensures Cong((a * b) * i, (s * t) * x, n)
  {
    CongMul(a, a, b * i, t * y, n);
    CongMul(t, t, a * y, s * x, n);
    assert (a * b) * i == a * (b * i);
    assert a * (t * y) == t * (a * y);
    assert t * (s * x) == (s * t) * x;
  }

  lemma SignOfProduct(a: int, b: int, n: int, i: int)
    requires OddPositive(n) && Coprime(a * b, n) && Coprime(a, n) && Coprime(b, n) && 1 <= i <= Half(n)
    ensures Sign(a * b, n, i) == Sign(a, n, Abs(b, n, i)) * Sign(b, n, i)
  {
    AbsPositive(b, n, i);
    var t, y := Sign(b, n, i), Abs(b, n, i);
    AbsPositive(a, n, y);
    AbsPositive(a * b, n, i);
    ResidueParts(b, n, i);
    ResidueParts(a, n, y);
    ResidueParts(a * b, n, i);
    CongChain(a, b, i, n, t, y, Sign(a, n, y), Abs(a, n, y));
    PartsUnique(n, Sign(a * b, n, i), Abs(a * b, n, i), Sign(a, n, y) * t, Abs(a, n, y));
  }

  lemma SignsComposeAt(a: int, b: int, n: int, i: int)
    requires OddPositive(n) && Coprime(a * b, n) && 1 <= i <= Half(n)
    ensures SignOf(a * b, n)(i) == SignOf(a, n)(AbsOf(b, n)(i)) * SignOf(b, n)(i)
  {
    CoprimeFactor(a, b, n);
    SignOfProduct(a, b, n, i);
  }

  lemma SignsCompose(a: int, b: int, n: int)
    requires OddPositive(n) && Coprime(a * b, n)
    ensures forall i :: 1 <= i <= Half(n) ==>
      SignOf(a * b, n)(i) == Times(After(SignOf(a, n), AbsOf(b, n)), SignOf(b, n))(i)
  {
    forall i | 1 <= i <= Half(n)
      ensures SignOf(a * b, n)(i) == Times(After(SignOf(a, n), AbsOf(b, n)), SignOf(b, n))(i)
    {
      SignsComposeAt(a, b, n, i);
    }
  }

  lemma GaussSignMultiplicative(a: int, b: int, n: int)
    requires OddPositive(n) && Coprime(a * b, n)
    ensures GaussSign(a * b, n) == GaussSign(a, n) * GaussSign(b, n)
  {
    var h, moved := Half(n), After(SignOf(a, n), AbsOf(b, n));
    SignsCompose(a, b, n);
    CoprimeFactor(a, b, n);
    AbsPermutes(b, n);
    ProdExt(SignOf(a * b, n), Times(moved, SignOf(b, n)), h);
    ProdMul(moved, SignOf(b, n), h);
    ProdPermuted(SignOf(a, n), AbsOf(b, n), h);
  }

  lemma GaussSignMod(a: int, n: int)
    requires n > 0
    ensures GaussSign(a % n, n) == GaussSign(a, n)
  {
    forall i | 1 <= i <= Half(n)
      ensures SignOf(a % n, n)(i) == SignOf(a, n)(i)
    {
      ModMul(a, i, n);
    }
    ProdExt(SignOf(a % n, n), SignOf(a, n), Half(n));
  }

  // ----- parity

  /** (-1)^k */
  function Parity(k: int): int {
    if k % 2 == 0 then 1 else -1
  }

  lemma ParityAdd(x: int, y: int)
    ensures Parity(x + y) == Parity(x) * Parity(y)
  {
  }

  lemma {:induction false} PowMinusOne(n: nat)
    ensures Pow(-1, n) == Parity(n)
  {
    if n > 0 {
      PowMinusOne(n - 1);
    }
  }

  /** The product of n signs, the first k of which are s and the others 1. */
  lemma {:induction false} ProdThreshold(f: int -> int, s: int, k: nat, n: nat)
    requires k <= n
    requires forall i :: 1 <= i <= n ==> f(i) == if i <= k then s else 1
    ensures Prod(f, n) == Pow(s, k)
  {
    if n > k {
      ProdThreshold(f, s, k, n - 1);
    } else {
      ProdExt(f, Always(s), n);
      ProdConst(s, n);
    }
  }

  /** The product of signs that are 1 up to k and -1 afterwards. */
  lemma {:induction false} ProdTail(f: int -> int, k: nat, n: nat)
    requires k <= n
    requires forall i :: 1 <= i <= n ==> f(i) == if i <= k then 1 else -1
    ensures Prod(f, n) == Parity(n - k)
  {
    if n > k {
      ProdTail(f, k, n - 1);
    } else {
      ProdExt(f, Always(1), n);
      ProdConst(1, n);
      PowOne(n);
    }
  }

  /** The second supplementary law: the sign of 2 depends on n modulo 8. */
  lemma GaussSignTwo(n: int)
    requires OddPositive(n)
    ensures GaussSign(2, n) == if n % 8 == 3 || n % 8 == 5 then -1 else 1
  {
    var h := Half(n);
    forall i | 1 <= i <= h
      ensures SignOf(2, n)(i) == if i <= h / 2 then 1 else -1
    {
      DivModUnique(2 * i, n, 0, 2 * i);
    }
    ProdTail(SignOf(2, n), h / 2, h);
    HalfModEight(n);
  }

  lemma HalfModEight(n: int)
    requires OddPositive(n)
    ensures Parity(Half(n) - Half(n) / 2) == if n % 8 == 3 || n % 8 == 5 then -1 else 1
  {
    var t, c := Half(n) / 4, Half(n) % 4;
    assert n == 2 * Half(n) + 1 && Half(n) == 4 * t + c;
    DivModUnique(n, 8, t, 2 * c + 1);
    var e := if c >= 2 then 1 else 0;
    DivModUnique(Half(n), 2, 2 * t + e, c - 2 * e);
    DivModUnique(2 * t + c - e, 2, t + (c - e) / 2, (c - e) % 2);
  }

  // ----- Eisenstein's form

  function Quotient(a: int, n: int, i: int): int {
    if n > 0 then (a * i) / n else 0
  }

  lemma SignParity(a: int, n: int, i: int)
    requires OddPositive(n) && a % 2 == 1
    ensures Parity(i) == Parity(Quotient(a, n, i)) * (Parity(Abs(a, n, i)) * Sign(a, n, i))
  {
    var q, r := (a * i) / n, (a * i) % n;
    assert a * i == n * q + r;
    ParityOddMul(a, i);
    ParityOddMul(n, q);
    ParityAdd(n * q, r);
    if r > Half(n) {
      ParityAdd(n - r, r);
    }
  }

  lemma ParityOddMul(a: int, i: int)
    requires a % 2 == 1
    ensures Parity(a * i) == Parity(i)
  {
    var k := a / 2;
    assert a == 2 * k + 1;
    assert a * i == 2 * (k * i) + i;
  }

  function QuotientParity(a: int, n: int): int -> int {
    i => Parity(Quotient(a, n, i))
  }

  function ParityOf(): int -> int {
    i => Parity(i)
  }

  ghost predicate SignValued(f: int -> int, n: nat) {
    forall i :: 1 <= i <= n ==> f(i) == 1 || f(i) == -1
  }

  ghost predicate ParityFactors(q: int -> int, moved: int -> int, sign: int -> int, h: nat) {
    forall i {:trigger sign(i)} :: 1 <= i <= h ==> Parity(i) == q(i) * (moved(i) * sign(i))
  }

  lemma SplitParities(q: int -> int, moved: int -> int, sign: int -> int, h: nat)
    requires SignValued(q, h) && SignValued(sign, h) && ParityFactors(q, moved, sign, h)
    requires Prod(moved, h) == Prod(ParityOf(), h)
    ensures Prod(sign, h) == Prod(q, h)
  {
    forall i | 1 <= i <= h
      ensures ParityOf()(i) == Times(q, Times(moved, sign))(i)
    {
      assert Parity(i) == q(i) * (moved(i) * sign(i));
    }
    ProdExt(ParityOf(), Times(q, Times(moved, sign)), h);
    ProdMul(q, Times(moved, sign), h);
    ProdMul(moved, sign, h);
    ProdIsSign(ParityOf(), h);
    ProdIsSign(q, h);
    ProdIsSign(sign, h);
    SolveSign(Prod(ParityOf(), h), Prod(q, h), Prod(sign, h));
  }

  lemma SignParities(a: int, n: int)
    requires OddPositive(n) && a % 2 == 1
    ensures ParityFactors(QuotientParity(a, n), After(ParityOf(), AbsOf(a, n)), SignOf(a, n), Half(n))
    ensures SignValued(QuotientParity(a, n), Half(n)) && SignValued(SignOf(a, n), Half(n))
  {
    forall i | 1 <= i <= Half(n)
      ensures Parity(i) == QuotientParity(a, n)(i) * (After(ParityOf(), AbsOf(a, n))(i) * SignOf(a, n)(i))
    {
      SignParity(a, n, i);
    }
  }

  /** For odd a the Gauss sign is the parity of the sum of the quotients a*i/n. */
  lemma Eisenstein(a: int, n: int)
    requires OddPositive(n) && a % 2 == 1 && Coprime(a, n)
    ensures GaussSign(a, n) == Prod(QuotientParity(a, n), Half(n))
  {
    AbsPermutes(a, n);
    ProdPermuted(ParityOf(), AbsOf(a, n), Half(n));
    SignParities(a, n);
    SplitParities(QuotientParity(a, n), After(ParityOf(), AbsOf(a, n)), SignOf(a, n), Half(n));
  }

  lemma SolveSign(m: int, q: int, g: int)
    requires (m == 1 || m == -1) && (q == 1 || q == -1) && (g == 1 || g == -1)
    requires m == q * (m * g)
    ensures g == q
  {
  }

  lemma {:induction false} ProdIsSign(f: int -> int, n: nat)
    requires SignValued(f, n)
    ensures Prod(f, n) == 1 || Prod(f, n) == -1
  {
    if n > 0 {
      ProdIsSign(f, n - 1);
    }
  }

  // ----- lattice points

  /** -1 for the points of the rectangle strictly below the line n*j = a*i. */
  function Below(a: int, n: int, i: int, j: int): int {
    if n * j < a * i then -1 else 1
  }

  function BelowLine(a: int, n: int): (int, int) -> int {
    (i, j) => Below(a, n, i, j)
  }

  lemma QuotientBounds(a: int, n: int, i: int)
    requires OddPositive(n) && OddPositive(a) && 1 <= i <= Half(n)
    ensures 0 <= Quotient(a, n, i) <= Half(a)
  {
    var q := Quotient(a, n, i);
    assert a * i == n * q + (a * i) % n;
    MulMonotone(a, 0, i);
    MulMonotone(a, i, Half(n));
    if q < 0 {
      MulMonotone(n, q, -1);
    } else if q > Half(a) {
      MulMonotone(n, Half(a) + 1, q);
      HalfProducts(a, n);
    }
  }

  lemma ColumnParity(a: int, n: int, i: int)
    requires OddPositive(n) && OddPositive(a) && Coprime(a, n) && 1 <= i <= Half(n)
    ensures RowProducts(BelowLine(a, n), Half(a))(i) == QuotientParity(a, n)(i)
  {
    var q, r := Quotient(a, n, i), (a * i) % n;
    assert a * i == n * q + r;
    QuotientBounds(a, n, i);
    if r == 0 {
      CoprimeCancel(a, n, i);
      NoSmallMultiple(n, i);
    }
    forall j | 1 <= j <= Half(a)
      ensures Row(BelowLine(a, n), i)(j) == if j <= q then -1 else 1
    {
      if j <= q {
        MulMonotone(n, j, q);
      } else {
        MulMonotone(n, q + 1, j);
        assert n * (q + 1) == n * q + n;
      }
    }
    ProdThreshold(Row(BelowLine(a, n), i), -1, q, Half(a));
    PowMinusOne(q);
  }

  lemma HalfProducts(a: int, n: int)
    requires OddPositive(a) && OddPositive(n)
    ensures n * (Half(a) + 1) > a * Half(n)
  {
    var x, y := Half(a), Half(n);
    assert a == 2 * x + 1 && n == 2 * y + 1;
    assert n * (x + 1) == 2 * (y * x) + x + 2 * y + 1;
    assert a * y == 2 * (x * y) + y;
    assert y * x == x * y;
  }

  lemma NotOnLine(a: int, n: int, i: int, j: int)
    requires OddPositive(n) && OddPositive(a) && Coprime(a, n) && 1 <= i <= Half(n)
    ensures n * j != a * i
    ensures Below(a, n, i, j) * Below(n, a, j, i) == -1
  {
    if n * j == a * i {
      DividesMultiple(n, j);
      CoprimeCancel(a, n, i);
      DivModUnique(i, n, 0, i);
    }
  }

  /** The Gauss sign counts the lattice points below the line. */
  lemma GaussSignLattice(a: int, n: int)
    requires OddPositive(a) && OddPositive(n) && Coprime(a, n)
    ensures GaussSign(a, n) == Prod(RowProducts(BelowLine(a, n), Half(a)), Half(n))
  {
    Eisenstein(a, n);
    forall i | 1 <= i <= Half(n)
      ensures QuotientParity(a, n)(i) == RowProducts(BelowLine(a, n), Half(a))(i)
    {
      ColumnParity(a, n, i);
    }
    ProdExt(QuotientParity(a, n), RowProducts(BelowLine(a, n), Half(a)), Half(n));
  }

  lemma RowsComplement(a: int, n: int, i: int)
    requires OddPositive(a) && OddPositive(n) && Coprime(a, n) && 1 <= i <= Half(n)
    ensures RowProducts(BelowLine(a, n), Half(a))(i) * RowProducts(Transpose(BelowLine(n, a)), Half(a))(i)
      == Parity(Half(a))
  {
    var f, g := Row(BelowLine(a, n), i), Row(Transpose(BelowLine(n, a)), i);
    ProdMul(f, g, Half(a));
    forall j | 1 <= j <= Half(a)
      ensures Times(f, g)(j) == Always(-1)(j)
    {
      NotOnLine(a, n, i, j);
    }
    ProdExt(Times(f, g), Always(-1), Half(a));
    ProdConst(-1, Half(a));
    PowMinusOne(Half(a));
  }

  lemma RowsMultiply(f: int -> int, g: int -> int, c: int, n: nat)
    requires forall i :: 1 <= i <= n ==> f(i) * g(i) == c
    ensures Prod(f, n) * Prod(g, n) == Pow(c, n)
  {
    ProdMul(f, g, n);
    ProdExt(Times(f, g), Always(c), n);
    ProdConst(c, n);
  }

  /** The law of quadratic reciprocity for coprime odd positive integers. */
  lemma QuadraticReciprocity(a: int, n: int)
    requires OddPositive(a) && OddPositive(n) && Coprime(a, n)
    ensures GaussSign(a, n) * GaussSign(n, a) == if a % 4 == 3 && n % 4 == 3 then -1 else 1
  {
    var x, y := Half(a), Half(n);
    CoprimeSymmetric(a, n);
    GaussSignLattice(a, n);
    GaussSignLattice(n, a);
    ProdSwap(BelowLine(n, a), x, y);
    forall i | 1 <= i <= y
      ensures RowProducts(BelowLine(a, n), x)(i) * RowProducts(Transpose(BelowLine(n, a)), x)(i) == Parity(x)
    {
      RowsComplement(a, n, i);
    }
    RowsMultiply(RowProducts(BelowLine(a, n), x), RowProducts(Transpose(BelowLine(n, a)), x), Parity(x), y);
    ParityPower(a, n);
  }

  lemma HalfParity(a: int)
    requires OddPositive(a)
    ensures Parity(Half(a)) == if a % 4 == 3 then -1 else 1
  {
    var h := a / 2;
    assert a == 2 * h + 1 && Half(a) == h;
    var t := h / 2;
    assert h == 2 * t + h % 2;
    DivModUnique(a, 4, t, 2 * (h % 2) + 1);
  }

  lemma ParityPower(a: int, n: int)
    requires OddPositive(a) && OddPositive(n)
    ensures Pow(Parity(Half(a)), Half(n)) == if a % 4 == 3 && n % 4 == 3 then -1 else 1
  {
    HalfParity(a);
    HalfParity(n);
    PowOne(Half(n));
    PowMinusOne(Half(n));
  }
}
