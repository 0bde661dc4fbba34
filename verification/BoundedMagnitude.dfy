/** Magnitudes saturated at a prime: enough to decide whether a nonnegative
    candidate exceeds it, without building the candidate
    (src/family_sieve/family_sieve.cpp). */
module BoundedMagnitude {
  import opened NumberTheory
  import opened MachineArithmetic
  import opened StrongTest
  import opened Progressions
  import opened CompiledRules
  import opened Eliminations
  import opened Wrappers

  datatype BoundedUnsigned = BoundedUnsigned(value: u64, exceedsLimit: bool)

  /** What a saturated value stands for. */
  ghost predicate Caps(b: BoundedUnsigned, x: int, limit: int) {
    x >= 0 && b.exceedsLimit == (x > limit) && b.value == if x > limit then limit else x
  }

  function BoundedValue(value: u64, limit: u64): (r: BoundedUnsigned)
    ensures Caps(r, value, limit)
  {
    BoundedUnsigned(if value < limit then value else limit, value > limit)
  }

  function BoundedMultiply(left: BoundedUnsigned, right: BoundedUnsigned, limit: u64): BoundedUnsigned
    requires left.value <= limit && right.value <= limit
  {
    if (!left.exceedsLimit && left.value == 0) || (!right.exceedsLimit && right.value == 0) then
      BoundedUnsigned(0, false)
    else if left.exceedsLimit || right.exceedsLimit || left.value > limit / right.value then
      BoundedUnsigned(limit, true)
    else
      ProductFits(left.value, right.value, limit);
      BoundedUnsigned(left.value * right.value, false)
  }

  lemma ProductFits(x: nat, y: nat, limit: nat)
    requires y > 0
    ensures 0 <= x * y && (x <= limit / y <==> x * y <= limit)
  {
    QuotientBounds(limit, y);
    MulMonotone(y, 0, x);
    var q := limit / y;
    MulMonotone(y, if x <= q then x else q + 1, if x <= q then q else x);
    assert x * y == y * x && q * y == y * q && (q + 1) * y == y * (q + 1);
  }

  lemma ProductExceeds(x: nat, y: nat, limit: nat)
    requires x > limit && y > 0
    ensures x * y > limit && y * x > limit
  {
    MulMonotone(x, 1, y);
  }

  /** Saturation is a homomorphism for products. */
  lemma MultiplyCaps(left: BoundedUnsigned, right: BoundedUnsigned, limit: u64, x: nat, y: nat)
    requires limit > 0 && Caps(left, x, limit) && Caps(right, y, limit)
    ensures Caps(BoundedMultiply(left, right, limit), x * y, limit)
  {
    if x == 0 || y == 0 {
      assert x * y == 0;
    } else if x > limit {
      ProductExceeds(x, y, limit);
    } else if y > limit {
      ProductExceeds(y, x, limit);
    } else {
      ProductFits(x, y, limit);
    }
  }

  function BoundedAdd(left: BoundedUnsigned, right: BoundedUnsigned, limit: u64): BoundedUnsigned
    requires left.value <= limit && right.value <= limit
  {
    if left.exceedsLimit || right.exceedsLimit || left.value > limit - right.value then BoundedUnsigned(limit, true)
    else BoundedUnsigned(left.value + right.value, false)
  }

  lemma AddCaps(left: BoundedUnsigned, right: BoundedUnsigned, limit: u64, x: nat, y: nat)
    requires Caps(left, x, limit) && Caps(right, y, limit)
    ensures Caps(BoundedAdd(left, right, limit), x + y, limit)
  {
  }

  /** One squaring step on saturated values follows the exact step. */
  lemma PowerStep(result: BoundedUnsigned, base: BoundedUnsigned, limit: u64, r: nat, x: nat, e: nat)
    returns (r': nat, x': nat)
    requires limit > 0 && e > 0 && Caps(result, r, limit) && Caps(base, x, limit)
    ensures Caps(if e % 2 == 1 then BoundedMultiply(result, base, limit) else result, r', limit)
    ensures Caps(BoundedMultiply(base, base, limit), x', limit)
    ensures r' * Pow(x', e / 2) == r * Pow(x, e)
  {
    MultiplyCaps(result, base, limit, r, x);
    MultiplyCaps(base, base, limit, x, x);
    r', x' := if e % 2 == 1 then r * x else r, x * x;
    PowHalve(x, e);
    Regroup(r, if e % 2 == 1 then x else 1, Pow(x * x, e / 2));
  }

  lemma Regroup(r: int, b: int, p: int)
    ensures r * (b * p) == (r * b) * p
  {
  }

  /** Saturated square-and-multiply. */
  method BoundedPower(baseValue: u64, exponent0: u64, limit: u64) returns (result: BoundedUnsigned)
    requires limit > 0
    ensures Caps(result, Pow(baseValue, exponent0), limit)
  {
    result := BoundedValue(1, limit);
    var base := BoundedValue(baseValue, limit);
    var exponent: u64 := exponent0;
    ghost var r: nat, x: nat := 1, baseValue;
    while exponent != 0
      invariant Caps(result, r, limit) && (exponent != 0 ==> Caps(base, x, limit))
      invariant r * Pow(x, exponent) == Pow(baseValue, exponent0)
      decreases exponent
    {
      r, x := PowerStep(result, base, limit, r, x, exponent);
      if exponent % 2 != 0 {
        result := BoundedMultiply(result, base, limit);
      }
      exponent := exponent / 2;
      if exponent != 0 {
        base := BoundedMultiply(base, base, limit);
      }
    }
    assert r * Pow(x, 0) == r;
  }

  datatype BoundedMagnitudeResult = BoundedMagnitudeResult(supported: bool, exceedsPrime: bool)

  /** bounded_proper_factor_magnitude: for nonnegative k, b and c the flag is
      exactly "the candidate exceeds the prime". */
  method BoundedProperFactorMagnitude(f: AffineExponentialFamily, ki: u64, ni: u64, prime: u64)
    returns (r: BoundedMagnitudeResult)
    requires f.InRange(ki, ni) && prime > 0
    ensures r.supported <==> f.Nonnegative(ki)
    ensures r.supported ==> (r.exceedsPrime <==> f.Candidate(ki, ni) > prime)
  {
    ValueAtExact(f.k, ki);
    ValueAtExact(f.n, ni);
    var k := f.k.ValueAt(ki).value;
    if k < 0 || f.base < 0 || f.constant < 0 {
      return BoundedMagnitudeResult(false, false);
    }
    var exponent: u64 := f.n.ValueAt(ni).value;
    var power := BoundedPower(f.base, exponent, prime);
    MultiplyCaps(BoundedValue(k, prime), power, prime, k, Pow(f.base, exponent));
    var scaled := BoundedMultiply(BoundedValue(k, prime), power, prime);
    AddCaps(scaled, BoundedValue(f.constant, prime), prime, k * Pow(f.base, exponent), f.constant);
    var candidate := BoundedAdd(scaled, BoundedValue(f.constant, prime), prime);
    return BoundedMagnitudeResult(true, candidate.exceedsLimit);
  }

  /** proper_factor: the verdict of the exact comparison, reached without the
      exact value whenever the family is nonnegative. */
  method ProperFactorCheck(f: AffineExponentialFamily, ki: u64, ni: u64, prime: u64)
    returns (r: Result<bool, Exception>)
    requires f.InRange(ki, ni) && IsPrime(prime)
    ensures r.Ok? ==> r.value == ProperFactor(f.Candidate(ki, ni), prime)
    ensures r.Err? ==>
      && r.error == LengthError && Divides(prime, f.Candidate(ki, ni)) && !ExactSizeAllowed(f, ni) && !f.Nonnegative(ki)
  {
    var residue := EvaluateModulo(f, ki, ni, prime);
    if residue.value != 0 {
      return Ok(false);
    }
    var bounded := BoundedProperFactorMagnitude(f, ki, ni, prime);
    if bounded.supported {
      return Ok(bounded.exceedsPrime);
    }
    var value := EvaluateExact(f, ki, ni);
    if value.Err? {
      return Err(value.error);
    }
    if value.value <= 1 || value.value % prime != 0 {
      return Ok(false);
    }
    return Ok(Magnitude(value.value) > prime);
  }
}
