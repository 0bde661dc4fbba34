/** Strong probable-prime tests (src/adaptive_bound/adaptive_bound.cpp and
    src/sieve/sieve.cpp): what they decide, and that they never reject a prime. */
module StrongTest {
  import opened NumberTheory
  import opened FiniteProducts
  import opened Orders
  import opened MachineArithmetic

  const SMALL_PRIMES: seq<u64> := [2, 3, 5, 7, 11, 13, 17, 19, 23, 29, 31, 37]
  const SIEVE_WITNESSES: seq<u64> := [2, 325, 9375, 28178, 450775, 9780504, 1795265022]

  /** std::countr_zero on a nonzero word. */
  function CountrZero(x: nat): (s: nat)
    requires x > 0
  {
    if x % 2 == 1 then 0 else 1 + CountrZero(x / 2)
  }

  lemma {:induction false} CountrZeroSplits(x: nat)
    requires x > 0
    ensures var s := CountrZero(x); Pow(2, s) > 0 && x == (x / Pow(2, s)) * Pow(2, s) && (x / Pow(2, s)) % 2 == 1
  {
    var s := CountrZero(x);
    PowPositive(2, s);
    if x % 2 == 0 {
      CountrZeroSplits(x / 2);
      var m := Pow(2, s - 1);
      var d := (x / 2) / m;
      DoubledProduct(x, d, m);
    }
  }

  lemma DoubledProduct(x: nat, d: nat, m: nat)
    requires x % 2 == 0 && x / 2 == d * m && m > 0
    ensures x == d * (2 * m) && x / (2 * m) == d
  {
    assert x == 2 * (x / 2) && 2 * (d * m) == d * (2 * m);
    DivModUnique(x, 2 * m, d, 0);
  }

  /** base^(d*2^j) modulo the value, for value - 1 = d * 2^s with d odd. */
  function Residue(base: int, value: nat, j: nat): int
    requires value > 1
  {
    PowPositive(2, CountrZero(value - 1));
    PowPositive(2, j);
    var d := (value - 1) / Pow(2, CountrZero(value - 1));
    QuotientNonnegative(value - 1, Pow(2, CountrZero(value - 1)));
    MulMonotone(d, 0, Pow(2, j));
    Pow(base, d * Pow(2, j)) % value
  }

  /** The strong probable-prime condition to one base. */
  ghost predicate StrongProbablePrime(base: int, value: nat)
    requires value > 1
  {
    || Residue(base, value, 0) == 1
    || exists j :: 0 <= j < CountrZero(value - 1) && Residue(base, value, j) == value - 1
  }

  lemma ResidueSquares(base: int, value: nat, j: nat)
    requires value > 1
    ensures Residue(base, value, j + 1) == (Residue(base, value, j) * Residue(base, value, j)) % value
  {
    var m := Pow(2, CountrZero(value - 1));
    PowPositive(2, CountrZero(value - 1));
    QuotientNonnegative(value - 1, m);
    var d := (value - 1) / m;
    PowPositive(2, j);
    MulMonotone(d, 0, Pow(2, j));
    var e := d * Pow(2, j);
    assert d * Pow(2, j + 1) == e + e;
    PowAdd(base, e, e);
    ModMul(Pow(base, e), Pow(base, e), value);
  }

  lemma ResidueLast(p: int, base: int)
    requires IsPrime(p) && !Divides(p, base)
    ensures Residue(base, p, CountrZero(p - 1)) == 1
  {
    CountrZeroSplits(p - 1);
    Fermat(p, base);
    DivModUnique(1, p, 0, 1);
  }

  /** Walking down from the last square, the first residue that is not 1 is -1. */
  lemma {:induction false} PrimeChain(p: int, base: int, j: nat)
    requires IsPrime(p) && !Divides(p, base) && Residue(base, p, j) == 1
    ensures Residue(base, p, 0) == 1 || exists i :: 0 <= i < j && Residue(base, p, i) == p - 1
  {
    if j > 0 {
      var x := Residue(base, p, j - 1);
      ResidueSquares(base, p, j - 1);
      DivModUnique(1, p, 0, 1);
      SquareRootsOfOne(p, x);
      DivModUnique(-1, p, -1, p - 1);
      ModSelf(x, p);
      if x == 1 {
        PrimeChain(p, base, j - 1);
      }
    }
  }

  /** A prime passes the strong test to every base it does not divide. */
  lemma PrimesAreStrong(p: int, base: int)
    requires IsPrime(p) && !Divides(p, base)
    ensures StrongProbablePrime(base, p)
  {
    ResidueLast(p, base);
    PrimeChain(p, base, CountrZero(p - 1));
  }

  lemma {:induction false} OnesStayOnes(base: int, value: nat, i: nat, j: nat)
    requires value > 2 && i <= j && Residue(base, value, i) == 1
    ensures Residue(base, value, j) == 1
    decreases j
  {
    if i < j {
      OnesStayOnes(base, value, i, j - 1);
      ResidueSquares(base, value, j - 1);
      DivModUnique(1, value, 0, 1);
    }
  }

  /** What the trial divisions decide before any power is computed. */
  datatype Trial = Prime | Composite | Undecided

  function TrialDivide(value: u64, primes: seq<u64>): (r: Trial)
    requires forall i :: 0 <= i < |primes| ==> primes[i] > 0
  {
    if primes == [] then Undecided
    else if value == primes[0] then Prime
    else if value % primes[0] == 0 then Composite
    else TrialDivide(value, primes[1..])
  }

  lemma {:induction false} TrialNeverRejectsPrimes(value: u64, primes: seq<u64>)
    requires forall i :: 0 <= i < |primes| ==> primes[i] >= 2
    requires IsPrime(value)
    ensures TrialDivide(value, primes) != Composite
  {
    if primes != [] {
      if value % primes[0] == 0 {
        PrimeDivisorIs(value, primes[0]);
      } else {
        TrialNeverRejectsPrimes(value, primes[1..]);
      }
    }
  }

  method RunTrials(value: u64) returns (r: Trial)
    ensures r == TrialDivide(value, SMALL_PRIMES)
  {
    var i := 0;
    while i < |SMALL_PRIMES|
      invariant 0 <= i <= |SMALL_PRIMES|
      invariant TrialDivide(value, SMALL_PRIMES[i..]) == TrialDivide(value, SMALL_PRIMES)
    {
      if value == SMALL_PRIMES[i] {
        return Prime;
      }
      if value % SMALL_PRIMES[i] == 0 {
        return Composite;
      }
      assert SMALL_PRIMES[i..][1..] == SMALL_PRIMES[i + 1..];
      i := i + 1;
    }
    return Undecided;
  }

  lemma UndecidedIsOdd(value: u64)
    requires value >= 2 && TrialDivide(value, SMALL_PRIMES) == Undecided
    ensures value > 2 && value % 2 == 1
  {
    assert SMALL_PRIMES[0] == 2;
  }

  /** The squaring loop with its early exit on residue 1 (base 2 test). */
  method SquareUntilDecided(base: u64, value: u64, first: u64) returns (found: bool)
    requires value > 2 && first == Residue(base, value, 0) && first != 1 && first != value - 1
    ensures found <==> StrongProbablePrime(base, value)
  {
    var shifts := CountrZero(value - 1);
    var residue: u64 := first;
    var index := 1;
    while index < shifts
      invariant 1 <= index && residue == Residue(base, value, index - 1)
      invariant forall j :: 0 <= j < index ==> Residue(base, value, j) != value - 1
    {
      ResidueSquares(base, value, index - 1);
      residue := MultiplyMod(residue, residue, value);
      if residue == value - 1 {
        return true;
      }
      if residue == 1 {
        forall j | 0 <= j < shifts
          ensures Residue(base, value, j) != value - 1
        {
          if j >= index {
            OnesStayOnes(base, value, index, j);
          }
        }
        return false;
      }
      index := index + 1;
    }
    return false;
  }

  method FirstResidue(base: u64, value: u64) returns (residue: u64)
    requires value > 1
    ensures residue == Residue(base, value, 0)
  {
    var shifts := CountrZero(value - 1);
    PowPositive(2, shifts);
    CountrZeroSplits(value - 1);
    QuotientNonnegative(value - 1, Pow(2, shifts));
    MulMonotone(Pow(2, shifts), 1, Pow(2, shifts));
    var odd := (value - 1) / Pow(2, shifts);
    assert odd * 1 == odd;
    assert odd <= value - 1 by {
      MulMonotone(odd, 1, Pow(2, shifts));
    }
    residue := PowerMod(base, odd, value);
  }

  /** is_base2_strong_probable_prime_u64 decides trial division and the strong
      condition to base 2, whatever its early exits; no prime is rejected. */
  method IsBase2StrongProbablePrime(value: u64) returns (r: bool)
    ensures value < 2 ==> !r
    ensures value >= 2 ==> var t := TrialDivide(value, SMALL_PRIMES);
      r <==> t == Prime || (t == Undecided && StrongProbablePrime(2, value))
    ensures IsPrime(value) ==> r
  {
    if value < 2 {
      return false;
    }
    if IsPrime(value) {
      TrialNeverRejectsPrimes(value, SMALL_PRIMES);
    }
    var trial := RunTrials(value);
    if trial != Undecided {
      return trial == Prime;
    }
    UndecidedIsOdd(value);
    if IsPrime(value) {
      DivModUnique(2, value, 0, 2);
      PrimesAreStrong(value, 2);
    }
    var residue := FirstResidue(2, value);
    if residue == 1 || residue == value - 1 {
      CountrZeroPositive(value);
      return true;
    }
    r := SquareUntilDecided(2, value, residue);
  }

  lemma CountrZeroPositive(value: nat)
    requires value > 2 && value % 2 == 1
    ensures CountrZero(value - 1) > 0
  {
  }

  /** One base of the deterministic test: squaring without the early exit. */
  method PassesBase(base: u64, value: u64) returns (passes: bool)
    requires value > 2 && value % 2 == 1
    ensures passes <==> Divides(value, base) || StrongProbablePrime(base, value)
  {
    if base % value == 0 {
      return true;
    }
    var residue := FirstResidue(base, value);
    if residue == 1 || residue == value - 1 {
      CountrZeroPositive(value);
      return true;
    }
    var shifts := CountrZero(value - 1);
    var round := 1;
    while round < shifts
      invariant 1 <= round && residue == Residue(base, value, round - 1)
      invariant forall j :: 0 <= j < round ==> Residue(base, value, j) != value - 1
    {
      ResidueSquares(base, value, round - 1);
      residue := MultiplyMod(residue, residue, value);
      if residue == value - 1 {
        return true;
      }
      round := round + 1;
    }
    return false;
  }

  /** What is_prime_u64 decides: trial division, then seven strong tests. */
  ghost predicate AcceptedAsPrime(value: u64) {
    value >= 2 && (
      || TrialDivide(value, SMALL_PRIMES) == Prime
      || (TrialDivide(value, SMALL_PRIMES) == Undecided && PassesAll(value)))
  }

  ghost predicate PassesAll(value: u64)
    requires value > 1
  {
    forall i :: 0 <= i < |SIEVE_WITNESSES| ==>
      Divides(value, SIEVE_WITNESSES[i]) || StrongProbablePrime(SIEVE_WITNESSES[i], value)
  }

  /** is_prime_u64 accepts exactly what trial division and seven strong tests
      accept, so it accepts every prime. */
  method IsPrimeU64(value: u64) returns (r: bool)
    ensures r <==> AcceptedAsPrime(value)
    ensures IsPrime(value) ==> r
  {
    if value < 2 {
      return false;
    }
    if IsPrime(value) {
      TrialNeverRejectsPrimes(value, SMALL_PRIMES);
    }
    var trial := RunTrials(value);
    if trial != Undecided {
      return trial == Prime;
    }
    UndecidedIsOdd(value);
    var i := 0;
    while i < |SIEVE_WITNESSES|
      invariant 0 <= i <= |SIEVE_WITNESSES|
      invariant forall j :: 0 <= j < i ==>
        Divides(value, SIEVE_WITNESSES[j]) || StrongProbablePrime(SIEVE_WITNESSES[j], value)
    {
      var passes := PassesBase(SIEVE_WITNESSES[i], value);
      if !passes {
        if IsPrime(value) {
          PrimesAreStrong(value, SIEVE_WITNESSES[i]);
        }
        return false;
      }
      i := i + 1;
    }
    return true;
  }
}
