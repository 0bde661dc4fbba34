/** Proth certificates for k*2^n + 1: construction, verification and the theorem
    that makes them proofs (src/proth/proth.cpp). */
module Proth {
  import opened NumberTheory
  import opened FiniteProducts
  import opened Reciprocity
  import opened Orders
  import opened Polynomials
  import opened MachineArithmetic
  import opened Wrappers

  // ----- Proth's theorem

  /** Some half power of a is -1 modulo n: the condition a Proth witness meets. */
  predicate EulerWitness(a: int, n: int)
    requires n > 0
  {
    Pow(a, Half(n)) % n == n - 1
  }

  lemma MinusOne(x: int, n: int)
    requires n > 0
    ensures x % n == n - 1 <==> Cong(x, -1, n)
  {
    DivModUnique(-1, n, -1, n - 1);
  }

  lemma HalfOfProth(k: nat, n: nat, value: int)
    requires n > 0 && value == k * Pow(2, n) + 1
    ensures k * Pow(2, n - 1) >= 0 && Half(value) == k * Pow(2, n - 1) && value % 2 == 1
  {
    PowPositive(2, n - 1);
    MulMonotone(k, 0, Pow(2, n - 1));
    assert k * (2 * Pow(2, n - 1)) == 2 * (k * Pow(2, n - 1));
    assert value == 2 * (k * Pow(2, n - 1)) + 1;
  }

  /** Every prime divisor of a Proth number with a witness is 1 modulo 2^n. */
  lemma DivisorModPowerOfTwo(k: nat, n: nat, value: int, a: int, p: int)
    requires k > 0 && n > 0 && value == k * Pow(2, n) + 1 && value > 0
    requires EulerWitness(a, value) && IsPrime(p) && Divides(p, value)
    ensures Divides(Pow(2, n), p - 1)
  {
    HalfOfProth(k, n, value);
    PowPositive(2, n - 1);
    PowPositive(2, n);
    var x, e := Pow(a, k), Pow(2, n - 1);
    MinusOne(Pow(a, Half(value)), value);
    CongDivisor(Pow(a, Half(value)), -1, value, p);
    PowMul(a, k, e);
    assert Cong(Pow(x, e), -1, p);
    SquareIsOne(x, e, p);
    OddPrimeDivisor(p, value);
    assert !Divides(p, x) by {
      if Divides(p, x) {
        PowDivisible(p, x, e);
        CongIffDivides(Pow(x, e), -1, p);
        DividesLinear(p, Pow(x, e), Pow(x, e) - -1, -1, 1);
        DividesLe(p, 1);
      }
    }
    var d := OrderExists(x, p);
    OrderDivides(x, p, d, 2 * e);
    if Divides(d, e) {
      var q := DividesWitness(d, e);
      PositiveFactor(d, q, e);
      PowPeriodic(x, p, d, q, 0);
      assert Cong(1, -1, p);
      CongIffDivides(1, -1, p);
      DividesLe(p, 2);
    }
    FullPowerOfTwo(d, n);
  }

  lemma SquareIsOne(x: int, e: nat, p: int)
    requires p > 0 && Cong(Pow(x, e), -1, p)
    ensures Cong(Pow(x, 2 * e), 1, p)
  {
    PowAdd(x, e, e);
    CongMul(Pow(x, e), -1, Pow(x, e), -1, p);
  }

  lemma OddPrimeDivisor(p: int, value: int)
    requires IsPrime(p) && Divides(p, value) && value % 2 == 1
    ensures p > 2
  {
  }

  lemma PowDivisible(p: int, x: int, e: nat)
    requires p > 0 && e > 0 && Divides(p, x)
    ensures Divides(p, Pow(x, e))
  {
    DividesLinear(p, x, x, Pow(x, e - 1), 0);
    assert Pow(x, e) == Pow(x, e - 1) * x + 0 * x;
  }

  /** Proth's theorem: one witness proves k*2^n + 1 prime when k < 2^n. */
  lemma ProthTheorem(k: nat, n: nat, value: int, a: int)
    requires 0 < k < Pow(2, n) && n > 0 && value == k * Pow(2, n) + 1 && value > 0
    requires EulerWitness(a, value)
    ensures IsPrime(value)
  {
    var m := Pow(2, n);
    MulMonotone(m, 1, k);
    MulMonotone(m, k, m);
    assert k * m == m * k;
    assert (m + 1) * (m + 1) == m * m + 2 * m + 1;
    if !IsPrime(value) {
      var p := SmallPrimeDivisor(value);
      DivisorModPowerOfTwo(k, n, value, a, p);
      DividesLe(m, p - 1);
      SquareMonotone(m + 1, p);
    }
  }

  lemma SquareMonotone(x: int, y: int)
    requires 0 <= x <= y
    ensures x * x <= y * y
  {
    MulMonotone(x, x, y);
    MulMonotone(y, x, y);
  }

  // ----- the Jacobi prefilter

  /** The Jacobi symbol for odd denominators; 0 outside its domain. */
  ghost function JacobiValue(a: int, n: int): int
    requires n >= 0
  {
    if n % 2 == 0 || !Coprime(a, n) then 0 else GaussSign(a, n)
  }

  lemma SignValue(a: int, n: int)
    requires n > 0
    ensures GaussSign(a, n) == 1 || GaussSign(a, n) == -1
  {
    ProdIsSign(SignOf(a, n), Half(n));
  }

  /** Removing a factor 2 from the numerator flips the symbol when n is 3 or 5 modulo 8. */
  lemma HalveNumerator(a: nat, n: nat)
    requires n % 2 == 1 && a % 2 == 0
    ensures Coprime(a / 2, n) <==> Coprime(a, n)
    ensures Coprime(a, n) ==> GaussSign(a, n) == (if n % 8 == 3 || n % 8 == 5 then -1 else 1) * GaussSign(a / 2, n)
  {
    assert a == 2 * (a / 2);
    if Coprime(a, n) {
      CoprimeFactor(2, a / 2, n);
      GaussSignMultiplicative(2, a / 2, n);
      GaussSignTwo(n);
    }
    if Coprime(a / 2, n) {
      var h := n / 2;
      assert n == 2 * h + 1;
      assert Bezout(2, n, -h, 1);
      CoprimeProduct(2, a / 2, n);
    }
  }

  lemma CoprimeProduct(b: int, c: int, n: int)
    requires Coprime(b, n) && Coprime(c, n)
    ensures Coprime(b * c, n)
  {
    var u, v :| Bezout(b, n, u, v);
    var x, y :| Bezout(c, n, x, y);
    var s, t := b * u, c * x;
    assert s + n * v == 1 && t + n * y == 1;
    assert (b * c) * (u * x) == s * t by {
      MulShuffle(b, c, u, x);
    }
    assert s * t == s * (1 - n * y) == s - s * (n * y);
    assert s * (n * y) == n * (s * y);
    assert s * t + n * (v + s * y) == s + n * v by {
      assert n * (v + s * y) == n * v + n * (s * y);
    }
    assert Bezout(b * c, n, u * x, v + s * y);
  }

  lemma CoprimeModBack(a: int, n: int)
    requires n > 0 && Coprime(a % n, n)
    ensures Coprime(a, n)
  {
    var u, v :| Bezout(a % n, n, u, v);
    var q, r := a / n, a % n;
    assert a == n * q + r;
    assert a * u == n * (q * u) + r * u;
    assert n * (v - q * u) == n * v - n * (q * u);
    assert Bezout(a, n, u, v - q * u);
  }

  lemma ReduceNumerator(a: nat, n: nat)
    requires n > 0
    ensures Coprime(a % n, n) <==> Coprime(a, n)
    ensures GaussSign(a % n, n) == GaussSign(a, n)
  {
    if Coprime(a, n) {
      CoprimeMod(a, n);
    }
    if Coprime(a % n, n) {
      CoprimeModBack(a, n);
    }
    GaussSignMod(a, n);
  }

  /** Exchanging two odd numbers flips the symbol when both are 3 modulo 4. */
  lemma ExchangeOperands(a: nat, n: nat)
    requires a % 2 == 1 && n % 2 == 1
    ensures Coprime(n, a) <==> Coprime(a, n)
    ensures Coprime(a, n) ==> GaussSign(a, n) == (if a % 4 == 3 && n % 4 == 3 then -1 else 1) * GaussSign(n, a)
  {
    if Coprime(a, n) {
      CoprimeSymmetric(a, n);
      QuadraticReciprocity(a, n);
      SignValue(a, n);
      SignValue(n, a);
    }
    if Coprime(n, a) {
      CoprimeSymmetric(n, a);
    }
  }

  /** The loop state (sign, numerator, denominator) still denotes the symbol of (a, n). */
  ghost predicate Denotes(sign: int, numerator: int, denominator: int, a: int, n: int)
    requires n > 0
  {
    && (sign == 1 || sign == -1)
    && denominator > 0 && denominator % 2 == 1
    && (Coprime(numerator, denominator) <==> Coprime(a, n))
    && (Coprime(a, n) ==> sign * GaussSign(numerator, denominator) == GaussSign(a, n))
  }

  lemma DenotesHalved(sign: int, x: nat, d: nat, a: int, n: int)
    requires n > 0 && Denotes(sign, x, d, a, n) && x % 2 == 0
    ensures Denotes(if d % 8 == 3 || d % 8 == 5 then -sign else sign, x / 2, d, a, n)
  {
    HalveNumerator(x, d);
    SignValue(x / 2, d);
  }

  lemma DenotesExchanged(sign: int, x: nat, d: nat, a: int, n: int)
    requires n > 0 && Denotes(sign, x, d, a, n) && x % 2 == 1
    ensures Denotes(if d % 4 == 3 && x % 4 == 3 then -sign else sign, d % x, x, a, n)
  {
    ExchangeOperands(x, d);
    ReduceNumerator(d, x);
    SignValue(d, x);
  }

  lemma DenominatorOne(a: int, d: int)
    requires d == 1
    ensures Coprime(a, d) && GaussSign(a, d) == 1
  {
    assert Bezout(a, d, 0, 1);
    assert Half(d) == 0;
  }

  lemma DenotesFinal(sign: int, d: nat, a: nat, n: nat)
    requires n % 2 == 1 && Denotes(sign, 0, d, a, n)
    ensures JacobiValue(a, n) == if d == 1 then sign else 0
  {
    if d == 1 {
      DenominatorOne(0, d);
      assert sign * GaussSign(0, d) == sign;
    } else if Coprime(0, d) {
      CoprimeZero(d);
    }
  }

  /** The binary Jacobi algorithm computes the symbol, including 0 for every
      denominator that is even or shares a factor with the numerator. */
  method JacobiSymbol(numerator0: u64, denominator0: u64) returns (r: int)
    ensures r == JacobiValue(numerator0, denominator0)
  {
    if denominator0 == 0 || denominator0 % 2 == 0 {
      return 0;
    }
    var denominator: u64 := denominator0;
    var numerator: u64 := numerator0 % denominator;
    ReduceNumerator(numerator0, denominator0);
    var sign := 1;
    while numerator != 0
      invariant Denotes(sign, numerator, denominator, numerator0, denominator0)
      invariant numerator < denominator
      decreases denominator
    {
      while numerator % 2 == 0
        invariant Denotes(sign, numerator, denominator, numerator0, denominator0)
        invariant 0 < numerator < denominator
        decreases numerator
      {
        DenotesHalved(sign, numerator, denominator, numerator0, denominator0);
        numerator := numerator / 2;
        var residue := denominator % 8;
        if residue == 3 || residue == 5 {
          sign := -sign;
        }
      }
      DenotesExchanged(sign, numerator, denominator, numerator0, denominator0);
      numerator, denominator := denominator, numerator;
      if numerator % 4 == 3 && denominator % 4 == 3 {
        sign := -sign;
      }
      numerator := numerator % denominator;
    }
    DenotesFinal(sign, denominator, numerator0, denominator0);
    return if denominator == 1 then sign else 0;
  }

  /** Euler's criterion: for a prime the symbol is -1 exactly on the witnesses. */
  lemma EulerCriterion(p: int, a: int)
    requires IsPrime(p) && p % 2 == 1 && 0 < a < p
    ensures JacobiValue(a, p) == -1 <==> EulerWitness(a, p)
  {
    DivModUnique(a, p, 0, a);
    GaussLemma(p, a);
    CoprimePrime(p, a);
    SignValue(a, p);
    DivModUnique(-1, p, -1, p - 1);
    DivModUnique(1, p, 0, 1);
  }

  /** Every odd prime has a witness. */
  lemma WitnessExists(p: int)
    requires IsPrime(p) && p % 2 == 1
    ensures exists a :: 2 <= a < p && EulerWitness(a, p)
  {
    assert p > 2;
    var a := SomePowerIsNotOne(p, Half(p));
    PowOne(Half(p));
    DivModUnique(a, p, 0, a);
    GaussLemma(p, a);
    SignValue(a, p);
    DivModUnique(-1, p, -1, p - 1);
    assert EulerWitness(a, p);
  }

  // ----- certificates

  const CERTIFICATE_FORMAT := "primeforge.proth.certificate.u64.v1"

  datatype Certificate = Certificate(
    formatVersion: string, k: u64, n: u32, value: u64, base: u64, residue: u64)

  datatype PrimalityStatus = Untested | Composite | ProbablePrime | ProvenPrime

  datatype ProofAttempt = ProofAttempt(
    primality: PrimalityStatus, basesTested: u64, modularExponentiations: u64, certificate: Option<Certificate>)

  /** is_supported_u64: the exact domain of the bounded path. */
  predicate IsSupported(k: u64, n: u32) {
    if k == 0 || k % 2 == 0 || n == 0 || n >= 64 then false
    else
      PowPositive(2, n);
      if k >= Pow(2, n) then false else k <= (MAX_U64 - 1) / Pow(2, n)
  }

  /** candidate_value_u64: the value, or which exception rejects it. */
  function CandidateValue(k: u64, n: u32): Result<u64, Exception> {
    if k == 0 || k % 2 == 0 || n == 0 || n >= 64 || k >= Pow(2, n) then Err(InvalidArgument)
    else
      PowPositive(2, n);
      if k > (MAX_U64 - 1) / Pow(2, n) then Err(OverflowError)
      else
        ShiftFits(k, Pow(2, n));
        Ok(k * Pow(2, n) + 1)
  }

  lemma ShiftFits(k: nat, m: int)
    requires m > 0
    ensures k <= (MAX_U64 - 1) / m <==> k * m + 1 <= MAX_U64
  {
    var q, r := (MAX_U64 - 1) / m, (MAX_U64 - 1) % m;
    assert MAX_U64 - 1 == m * q + r && k * m == m * k;
    if k <= q {
      MulMonotone(m, k, q);
    } else {
      MulMonotone(m, q + 1, k);
      assert m * (q + 1) == m * q + m;
    }
  }

  ghost predicate ProthForm(k: int, n: nat, value: int) {
    k > 0 && k % 2 == 1 && n > 0 && k < Pow(2, n) && value == k * Pow(2, n) + 1
  }

  /** The bounded path supports exactly the Proth numbers that fit a word. */
  lemma SupportedExactly(k: u64, n: u32)
    ensures IsSupported(k, n) <==> CandidateValue(k, n).Ok?
    ensures IsSupported(k, n) <==> exists v :: v <= MAX_U64 && ProthForm(k, n, v)
    ensures IsSupported(k, n) ==> ProthForm(k, n, CandidateValue(k, n).value)
  {
    PowPositive(2, n);
    if n >= 64 && k > 0 {
      PowMonotone(2, 64, n);
      assert Pow(2, 64) == TWO_TO_64 by {
        PowMul(2, 8, 8);
        assert Pow(2, 8) == 256;
        assert Pow(256, 8) == TWO_TO_64;
      }
      MulMonotone(Pow(2, n), 1, k);
      assert k * Pow(2, n) == Pow(2, n) * k;
    }
    ShiftFits(k, Pow(2, n));
    if IsSupported(k, n) {
      assert ProthForm(k, n, k * Pow(2, n) + 1);
    }
  }

  /** What a certificate must satisfy: the guards of verify_u64 and the power. */
  ghost predicate GoodCertificate(c: Certificate) {
    && c.formatVersion == CERTIFICATE_FORMAT
    && ProthForm(c.k, c.n, c.value)
    && 2 <= c.base < c.value && c.residue == c.value - 1
    && EulerWitness(c.base, c.value)
  }

  lemma ProthValueOdd(k: int, n: nat, value: int)
    requires ProthForm(k, n, value)
    ensures value >= 3 && value % 2 == 1 && Half(value) == (value - 1) / 2
  {
    HalfOfProth(k, n, value);
    PowPositive(2, n);
    MulMonotone(Pow(2, n), 1, k);
    assert Pow(2, n) * k == k * Pow(2, n);
    assert Pow(2, n) == 2 * Pow(2, n - 1);
    PowPositive(2, n - 1);
  }

  /** verify_u64 accepts exactly the good certificates, and an accepted value is prime. */
  method Verify(c: Certificate) returns (ok: bool)
    ensures ok <==> GoodCertificate(c)
    ensures ok ==> IsPrime(c.value)
  {
    if c.formatVersion != CERTIFICATE_FORMAT || c.base < 2 {
      return false;
    }
    SupportedExactly(c.k, c.n);
    var value := CandidateValue(c.k, c.n);
    if value.Err? {
      return false;
    }
    if c.value != value.value || c.base >= value.value || c.residue != value.value - 1 {
      return false;
    }
    ProthValueOdd(c.k, c.n, c.value);
    var power := PowerMod(c.base, (value.value - 1) / 2, value.value);
    if power == value.value - 1 {
      ProthTheorem(c.k, c.n, c.value, c.base);
    }
    return power == value.value - 1;
  }

  /** A prefiltered base is not a witness, and a base let through that is not a
      witness shows the value composite. */
  lemma PrefilterExact(k: int, n: nat, value: int, a: int)
    requires ProthForm(k, n, value) && 2 <= a < value
    ensures EulerWitness(a, value) ==> JacobiValue(a, value) == -1 && IsPrime(value)
    ensures JacobiValue(a, value) == -1 && !EulerWitness(a, value) ==> !IsPrime(value)
  {
    ProthValueOdd(k, n, value);
    if EulerWitness(a, value) {
      ProthTheorem(k, n, value, a);
    }
    if IsPrime(value) {
      EulerCriterion(value, a);
    }
  }

  /** try_prove_u64: the search certifies the least witness up to its limit when
      there is one, spends exactly one modular power on a prime it proves, and
      always succeeds on a prime whose bases it may all try. */
  method TryProve(k: u64, n: u32, maximumWitness: u64) returns (r: Result<ProofAttempt, Exception>)
    ensures maximumWitness < 2 ==> r == Err(InvalidArgument)
    ensures maximumWitness >= 2 && CandidateValue(k, n).Err? ==> r == Err(CandidateValue(k, n).error)
    ensures maximumWitness >= 2 && CandidateValue(k, n).Ok? ==> r.Ok?
    ensures r.Ok? ==> maximumWitness >= 2 && CandidateValue(k, n).Ok? && var value := CandidateValue(k, n).value;
      && value > 2
      && var last := if maximumWitness < value - 1 then maximumWitness else value - 1;
      match r.value.certificate
      case Some(c) =>
        && GoodCertificate(c) && c.k == k && c.n == n && IsPrime(value)
        && c.base <= last && (forall a :: 2 <= a < c.base ==> !EulerWitness(a, value))
        && r.value == ProofAttempt(ProvenPrime, c.base - 1, 1, Some(c))
      case None =>
        && (forall a :: 2 <= a <= last ==> !EulerWitness(a, value))
        && (IsPrime(value) ==> maximumWitness < value - 1)
        && r.value.primality == Untested && r.value.basesTested == last - 1
  {
    if maximumWitness < 2 {
      return Err(InvalidArgument);
    }
    var candidate := CandidateValue(k, n);
    if candidate.Err? {
      return Err(candidate.error);
    }
    var value := candidate.value;
    SupportedExactly(k, n);
    ProthValueOdd(k, n, value);
    var finalWitness: u64 := if maximumWitness < value - 1 then maximumWitness else value - 1;
    var basesTested: u64, exponentiations: u64 := 0, 0;
    var base: u64 := 2;
    while true
      invariant 2 <= base <= finalWitness && basesTested == base - 2
      invariant exponentiations <= basesTested
      invariant forall a :: 2 <= a < base ==> !EulerWitness(a, value)
      invariant exponentiations > 0 ==> !IsPrime(value)
      decreases finalWitness - base
    {
      basesTested := basesTested + 1;
      PrefilterExact(k, n, value, base);
      var symbol := JacobiSymbol(base, value);
      if symbol == -1 {
        exponentiations := exponentiations + 1;
        var residue := PowerMod(base, (value - 1) / 2, value);
        if residue == value - 1 {
          var c := Certificate(CERTIFICATE_FORMAT, k, n, value, base, residue);
          return Ok(ProofAttempt(ProvenPrime, basesTested, exponentiations, Some(c)));
        }
      }
      if base == finalWitness {
        break;
      }
      base := base + 1;
    }
    if IsPrime(value) {
      WitnessExists(value);
    }
    return Ok(ProofAttempt(Untested, basesTested, exponentiations, None));
  }
}
