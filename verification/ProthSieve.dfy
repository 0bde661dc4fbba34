/** The Proth discovery sieve: the survivors are exactly the odd k of the window for
    which k * 2^n + 1 has no odd prime factor up to the bound
    (src/discovery/proth_sieve.cpp). */
module ProthSieve {
  import opened NumberTheory
  import opened MachineArithmetic
  import opened BasePrimes
  import opened SegmentedSieve
  import opened Words
  import opened Wrappers

  datatype ProthSieveConfig = ProthSieveConfig(kStart: u32, kStop: u32, exponent: u32, maximumPrime: u32) {
    /** validate */
    predicate Valid() {
      && 3 <= kStart <= kStop <= 99_999_999 && kStart % 2 == 1 && kStop % 2 == 1
      && 32 <= exponent <= 99_999_999 && 3 <= maximumPrime <= 4_000_000_000
    }

    function CandidateCount(): nat
      requires Valid()
    {
      (kStop - kStart) / 2 + 1
    }

    function K(i: int): int {
      kStart + 2 * i
    }

    function Value(k: int): int {
      k * Pow(2, exponent) + 1
    }

    /** An odd prime up to the bound divides the candidate's value. */
    ghost predicate HasSmallFactor(k: int) {
      FactorBelow(k, maximumPrime + 1)
    }

    ghost predicate FactorBelow(k: int, bound: int) {
      exists q :: 3 <= q < bound && IsPrime(q) && Divides(q, Value(k))
    }
  }

  // ----- the residue of k that a prime forbids

  /** modular_power on raw words: below 2^32 no product leaves 64 bits. */
  method ModularPower(base0: u64, exponent0: u64, modulus: u64) returns (result: u64)
    requires 1 < modulus <= 4_000_000_000
    ensures result == Pow(base0, exponent0) % modulus && result < modulus
  {
    result := 1;
    var base: u64 := base0 % modulus;
    var exponent: u64 := exponent0;
    ghost var x := Pow(base, exponent);
    PowMod(base0, exponent0, modulus);
    while exponent != 0
      invariant result < modulus && base < modulus && Cong(result * Pow(base, exponent), x, modulus)
      decreases exponent
    {
      SquareStep(x, result, base, exponent, modulus);
      WordProduct(result, base, modulus);
      WordProduct(base, base, modulus);
      if exponent % 2 != 0 {
        var product: u64 := result * base;
        result := product % modulus;
      }
      exponent := exponent / 2;
      if exponent != 0 {
        var square: u64 := base * base;
        base := square % modulus;
      } else {
        assert result * Pow((base * base) % modulus, exponent) == result;
        assert result * Pow(base, exponent) == result;
      }
    }
    ModSelf(result, modulus);
  }

  lemma WordProduct(x: nat, y: nat, m: nat)
    requires x < m && y < m && m <= 4_000_000_000
    ensures 0 <= x * y <= MAX_U64 && 0 <= (x * y) % m < m
  {
    MulMonotone(x, y, m);
    MulMonotone(m, x, m);
    MulMonotone(x, 0, y);
    MulMonotone(m, m, 4_000_000_000);
    MulMonotone(4_000_000_000, m, 4_000_000_000);
  }

  /** (q + 1) / 2 to the n-th inverts 2^n. */
  lemma InverseOfPower(q: int, n: nat)
    requires q > 1 && q % 2 == 1
    ensures Cong(Pow(2, n) * (Pow((q + 1) / 2, n) % q), 1, q)
  {
    var h := (q + 1) / 2;
    assert 2 * h - 1 == 1 * q;
    DividesMultiple(q, 1);
    CongIffDivides(2 * h, 1, q);
    PowCong(2 * h, 1, n, q);
    PowBaseMul(2, h, n);
    PowOne(n);
    ModSelf(Pow(h, n), q);
    CongMul(Pow(2, n), Pow(2, n), Pow(h, n) % q, Pow(h, n), q);
  }

  /** The forbidden residue: q divides k * 2^n + 1 exactly when k is congruent to minus the inverse. */
  lemma ForbiddenResidue(q: int, n: nat, k: int, inverse: int)
    requires q > 1 && Cong(Pow(2, n) * inverse, 1, q)
    ensures Divides(q, k * Pow(2, n) + 1) <==> Cong(k, -inverse, q)
  {
    var p := Pow(2, n);
    ZeroIffDivides(k * p + 1, q);
    CongMove(q, 1, k * p, 0);
    SolveLinear(q, p, inverse, k, -1);
    assert p * k == k * p && (-1) * inverse == -inverse && 1 + k * p == k * p + 1;
  }

  lemma ZeroIffDivides(x: int, q: int)
    requires q > 0
    ensures Divides(q, x) <==> Cong(x, 0, q)
  {
    DivModUnique(0, q, 0, 0);
  }

  /** The start of a prime's progression: the least odd k from the window's start on. */
  ghost predicate ForbiddenK(c: ProthSieveConfig, q: int, k: int)
    requires q > 0
  {
    k % 2 == 1 && k >= c.kStart && Divides(q, c.Value(k))
  }

  /** The distance from the window's start to the first k of a class, before parity. */
  function StartOffset(start: nat, q: int, residue: int): (delta: int)
    requires q > 0 && 0 <= residue < q
    ensures 0 <= delta < q
  {
    (residue + q - start % q) % q
  }

  lemma OffsetInClass(start: nat, q: int, residue: int)
    requires q > 0 && 0 <= residue < q
    ensures Cong(start + StartOffset(start, q, residue), residue, q)
  {
    var s, delta := start % q, StartOffset(start, q, residue);
    ModSelf(residue + q - s, q);
    ModSelf(start, q);
    CongAdd(start, s, delta, residue + q - s, q);
    CongruentStep(residue, q);
  }

  lemma OffsetIsFirst(start: nat, q: int, residue: int, k: int)
    requires q > 0 && 0 <= residue < q && k >= start && Cong(k, residue, q)
    ensures k >= start + StartOffset(start, q, residue)
  {
    OffsetInClass(start, q, residue);
    if k < start + StartOffset(start, q, residue) {
      NextCongruent(start + StartOffset(start, q, residue), k, q);
    }
  }

  lemma ResidueMeaning(c: ProthSieveConfig, q: int, inverse: int, k: int)
    requires q > 1 && Cong(Pow(2, c.exponent) * inverse, 1, q)
    ensures Divides(q, c.Value(k)) <==> Cong(k, (q - inverse) % q, q)
  {
    ForbiddenResidue(q, c.exponent, k, inverse);
    ModSelf(q - inverse, q);
    CongruentStep(-inverse, q);
  }

  /** The residue class of the k that a prime forbids. */
  ghost predicate ForbidsClass(c: ProthSieveConfig, q: int, residue: int)
    requires q > 0
  {
    forall k: int :: Divides(q, c.Value(k)) <==> Cong(k, residue, q)
  }

  method ForbiddenClass(c: ProthSieveConfig, prime: u64) returns (residue: u64)
    requires c.Valid() && IsPrime(prime) && 3 <= prime <= c.maximumPrime
    ensures residue < prime && prime % 2 == 1 && ForbidsClass(c, prime, residue)
  {
    assert prime % 2 == 1 by {
      OddPrime(prime);
    }
    var inverse := ModularPower((prime + 1) / 2, c.exponent, prime);
    InverseOfPower(prime, c.exponent);
    residue := (prime - inverse) % prime;
    hide Cong, Divides, ProthSieveConfig.Value, ProthSieveConfig.Valid;
    forall k: int
      ensures Divides(prime, c.Value(k)) <==> Cong(k, residue, prime)
    {
      ResidueMeaning(c, prime, inverse, k);
    }
  }

  /** A lower bound for the k that a prime forbids. */
  ghost predicate NoneForbiddenBelow(c: ProthSieveConfig, q: int, bound: int)
    requires q > 0
  {
    forall k: int :: ForbiddenK(c, q, k) ==> k >= bound
  }

  lemma ClassStart(c: ProthSieveConfig, q: int, residue: int)
    requires q > 0 && 0 <= residue < q && ForbidsClass(c, q, residue)
    ensures var first := c.kStart + StartOffset(c.kStart, q, residue);
      Divides(q, c.Value(first)) && NoneForbiddenBelow(c, q, first)
  {
    hide Cong, Divides, StartOffset, ProthSieveConfig.Value;
    OffsetInClass(c.kStart, q, residue);
    forall k: int | ForbiddenK(c, q, k)
      ensures k >= c.kStart + StartOffset(c.kStart, q, residue)
    {
      OffsetIsFirst(c.kStart, q, residue, k);
    }
  }

  lemma OddStart(c: ProthSieveConfig, q: int, residue: int, first: int)
    requires q > 0 && q % 2 == 1 && first % 2 == 0 && ForbidsClass(c, q, residue)
    requires Divides(q, c.Value(first)) && NoneForbiddenBelow(c, q, first)
    ensures NoneForbiddenBelow(c, q, first + q) && Divides(q, c.Value(first + q))
  {
    CongruentStep(first, q);
    assert Divides(q, c.Value(first)) <==> Cong(first, residue, q);
    assert Divides(q, c.Value(first + q)) <==> Cong(first + q, residue, q);
    forall k: int | ForbiddenK(c, q, k)
      ensures k >= first + q
    {
      assert Divides(q, c.Value(k)) <==> Cong(k, residue, q);
      NextCongruent(k, first, q);
    }
  }

  /** The first odd k of the class, as the sieve computes it. */
  method FirstForbidden(c: ProthSieveConfig, prime: u64) returns (first: u64, ghost residue: int)
    requires c.Valid() && IsPrime(prime) && 3 <= prime <= c.maximumPrime
    ensures ForbidsClass(c, prime, residue) && ForbiddenK(c, prime, first) && NoneForbiddenBelow(c, prime, first)
  {
    hide Cong, Divides, StartOffset, IsPrime, ProthSieveConfig.Value, ForbidsClass, NoneForbiddenBelow;
    var forbidden := ForbiddenClass(c, prime);
    residue := forbidden;
    first := StartOf(c, prime, forbidden);
  }

  method StartOf(c: ProthSieveConfig, prime: u64, residue: u64) returns (first: u64)
    requires c.Valid() && 3 <= prime <= c.maximumPrime && prime % 2 == 1 && residue < prime
      && ForbidsClass(c, prime, residue)
    ensures ForbiddenK(c, prime, first) && NoneForbiddenBelow(c, prime, first)
  {
    hide Cong, Divides, StartOffset, ProthSieveConfig.Value, ForbidsClass, NoneForbiddenBelow;
    ClassStart(c, prime, residue);
    first := c.kStart + StartOffset(c.kStart, prime, residue);
    if first % 2 == 0 {
      OddStart(c, prime, residue, first);
      first := first + prime;
    }
  }

  lemma CongruentApart(q: int, k: int, l: int)
    requires q > 0 && q % 2 == 1 && k % 2 == 1 && l % 2 == 1 && Cong(l, k, q) && k < l
    ensures l >= k + 2 * q
  {
    NextCongruent(l, k, q);
    CongruentStep(k, q);
    if l > k + q {
      NextCongruent(l, k + q, q);
    }
  }

  lemma TwoSteps(q: int, k: int)
    requires q > 0
    ensures Cong(k + 2 * q, k, q)
  {
    CongruentStep(k, q);
    CongruentStep(k + q, q);
  }

  /** Odd k that the same prime forbids are two of it apart. */
  lemma ForbiddenApart(c: ProthSieveConfig, q: int, residue: int, k: int, l: int)
    requires q > 0 && q % 2 == 1 && k % 2 == 1 && l % 2 == 1 && ForbidsClass(c, q, residue)
    requires Divides(q, c.Value(k))
    ensures Divides(q, c.Value(l)) && k < l ==> l >= k + 2 * q
    ensures l == k + 2 * q ==> Divides(q, c.Value(l))
  {
    hide Divides, ProthSieveConfig.Value;
    assert Divides(q, c.Value(k)) <==> Cong(k, residue, q);
    assert Divides(q, c.Value(l)) <==> Cong(l, residue, q);
    TwoSteps(q, k);
    if Divides(q, c.Value(l)) && k < l {
      CongruentApart(q, k, l);
    }
  }

  // ----- the bit set

  function CountTrue(marks: seq<bool>): nat {
    if marks == [] then 0 else CountTrue(marks[..|marks| - 1]) + if marks[|marks| - 1] then 1 else 0
  }

  lemma {:induction false} CountAfterSet(marks: seq<bool>, i: nat)
    requires i < |marks|
    ensures CountTrue(marks[i := true]) == CountTrue(marks) + if marks[i] then 0 else 1
    decreases |marks|
  {
    var last := |marks| - 1;
    if i < last {
      assert marks[i := true][..last] == marks[..last][i := true];
      CountAfterSet(marks[..last], i);
    } else {
      assert marks[i := true][..last] == marks[..last];
    }
  }

  lemma {:induction false} CountOfNone(n: nat)
    ensures CountTrue(seq(n, _ => false)) == 0
  {
    if n > 0 {
      assert seq(n, _ => false)[..n - 1] == seq(n - 1, _ => false);
      CountOfNone(n - 1);
    }
  }

  class CandidateBitset {
    const bitCount: nat
    var words: seq<Word>
    ghost var marks: seq<bool>

    ghost predicate Valid()
      reads this
    {
      && |marks| == bitCount && |words| == (bitCount + 63) / 64 && TotalBits(words) == CountTrue(marks)
      && forall i :: 0 <= i < bitCount ==> marks[i] == Bit(words, i)
    }

    constructor (bitCount: nat)
      ensures Valid() && this.bitCount == bitCount && marks == seq(bitCount, _ => false)
    {
      this.bitCount := bitCount;
      words := Zeros((bitCount + 63) / 64);
      marks := seq(bitCount, _ => false);
      TotalOfZeros((bitCount + 63) / 64);
      CountOfNone(bitCount);
    }

    method Mark(index: nat) returns (wasClear: bool)
      requires Valid() && index < bitCount
      modifies this
      ensures Valid() && marks == old(marks)[index := true] && wasClear == !old(marks)[index]
    {
      wasClear := !Bit(words, index);
      TotalAfterSet(words, index);
      CountAfterSet(marks, index);
      words := SetBit(words, index);
      marks := marks[index := true];
    }

    predicate Test(index: nat): (marked: bool)
      requires Valid() && index < bitCount
      reads this
      ensures marked == marks[index]
    {
      Bit(words, index)
    }

    method MarkedCount() returns (count: nat)
      requires Valid()
      ensures count == CountTrue(marks)
    {
      count := PopulationCount(words);
    }
  }

  // ----- one prime over the window

  lemma IndexOfK(c: ProthSieveConfig, k: int)
    requires c.Valid() && c.kStart <= k <= c.kStop && k % 2 == 1
    ensures 0 <= (k - c.kStart) / 2 < c.CandidateCount() && c.K((k - c.kStart) / 2) == k
  {
  }

  lemma KInWindow(c: ProthSieveConfig, i: nat)
    requires c.Valid() && i < c.CandidateCount()
    ensures c.kStart <= c.K(i) <= c.kStop && c.K(i) % 2 == 1
  {
  }

  ghost predicate MarksGain(c: ProthSieveConfig, before: seq<bool>, after: seq<bool>, q: int, bound: int)
    requires q > 0
  {
    |after| == |before| &&
    forall i :: 0 <= i < |after| ==> (after[i] <==> before[i] || (Divides(q, c.Value(c.K(i))) && c.K(i) < bound))
  }

  lemma GainStart(c: ProthSieveConfig, marks: seq<bool>, q: int, first: int)
    requires c.Valid() && |marks| == c.CandidateCount() && q > 0 && NoneForbiddenBelow(c, q, first)
    ensures MarksGain(c, marks, marks, q, first)
  {
    forall i | 0 <= i < |marks|
      ensures !(Divides(q, c.Value(c.K(i))) && c.K(i) < first)
    {
      KInWindow(c, i);
      assert ForbiddenK(c, q, c.K(i)) || !Divides(q, c.Value(c.K(i)));
    }
  }

  /** Marking a forbidden k completes everything before the next one. */
  lemma GainStep(c: ProthSieveConfig, before: seq<bool>, marks: seq<bool>, q: int, residue: int, k: int)
    requires c.Valid() && |before| == c.CandidateCount() && q > 0 && q % 2 == 1 && ForbidsClass(c, q, residue)
    requires MarksGain(c, before, marks, q, k) && ForbiddenK(c, q, k) && k <= c.kStop
    ensures MarksGain(c, before, marks[(k - c.kStart) / 2 := true], q, k + 2 * q)
  {
    IndexOfK(c, k);
    var index := (k - c.kStart) / 2;
    hide Divides, ProthSieveConfig.Value, ForbidsClass;
    forall i | 0 <= i < |marks|
      ensures marks[index := true][i] <==> before[i] || (Divides(q, c.Value(c.K(i))) && c.K(i) < k + 2 * q)
    {
      KInWindow(c, i);
      ForbiddenApart(c, q, residue, k, c.K(i));
    }
  }

  lemma GainEnds(c: ProthSieveConfig, before: seq<bool>, after: seq<bool>, q: int, bound: int)
    requires c.Valid() && |before| == c.CandidateCount() && q > 0 && MarksGain(c, before, after, q, bound)
      && bound > c.kStop
    ensures MarksGain(c, before, after, q, c.kStop + 1)
  {
    forall i | 0 <= i < |after|
      ensures c.K(i) < bound && c.K(i) < c.kStop + 1
    {
      KInWindow(c, i);
    }
  }

  lemma NextForbidden(c: ProthSieveConfig, q: int, residue: int, k: int)
    requires q > 0 && q % 2 == 1 && ForbidsClass(c, q, residue) && ForbiddenK(c, q, k)
    ensures ForbiddenK(c, q, k + 2 * q)
  {
    ForbiddenApart(c, q, residue, k, k + 2 * q);
  }

  method MarkK(c: ProthSieveConfig, eliminated: CandidateBitset, k: u64, count: nat) returns (total: nat)
    requires c.Valid() && c.kStart <= k <= c.kStop && k % 2 == 1
    requires eliminated.Valid() && eliminated.bitCount == c.CandidateCount() && count == CountTrue(eliminated.marks)
    modifies eliminated
    ensures eliminated.Valid() && total == CountTrue(eliminated.marks)
    ensures eliminated.marks == old(eliminated.marks)[(k - c.kStart) / 2 := true]
  {
    IndexOfK(c, k);
    CountAfterSet(eliminated.marks, (k - c.kStart) / 2);
    var wasClear := eliminated.Mark((k - c.kStart) / 2);
    total := if wasClear then count + 1 else count;
  }

  /** The marking of one prime: a single mark when the prime is wider than the window. */
  method ApplyPrime(c: ProthSieveConfig, prime: u64, eliminated: CandidateBitset, count: nat) returns (total: nat)
    requires c.Valid() && IsPrime(prime) && 3 <= prime <= c.maximumPrime
    requires eliminated.Valid() && eliminated.bitCount == c.CandidateCount() && count == CountTrue(eliminated.marks)
    modifies eliminated
    ensures eliminated.Valid() && total == CountTrue(eliminated.marks)
    ensures MarksGain(c, old(eliminated.marks), eliminated.marks, prime, c.kStop + 1)
  {
    OddPrime(prime);
    var first, residue := FirstForbidden(c, prime);
    ghost var before := eliminated.marks;
    GainStart(c, before, prime, first);
    hide Divides, IsPrime, MarksGain, ForbidsClass, NoneForbiddenBelow, ProthSieveConfig.Value;
    total := count;
    if prime > c.kStop - c.kStart {
      if first <= c.kStop {
        GainStep(c, before, eliminated.marks, prime, residue, first);
        total := MarkK(c, eliminated, first, total);
        GainEnds(c, before, eliminated.marks, prime, first + 2 * prime);
      } else {
        GainEnds(c, before, eliminated.marks, prime, first);
      }
      return;
    }
    var step: u64 := 2 * prime;
    var k: u64 := first;
    while k <= c.kStop
      invariant ForbiddenK(c, prime, k) && k <= c.kStop + step + first
      invariant eliminated.Valid() && total == CountTrue(eliminated.marks)
      invariant MarksGain(c, before, eliminated.marks, prime, k)
      decreases c.kStop + step - k
    {
      GainStep(c, before, eliminated.marks, prime, residue, k);
      NextForbidden(c, prime, residue, k);
      total := MarkK(c, eliminated, k, total);
      k := k + step;
    }
    GainEnds(c, before, eliminated.marks, prime, k);
  }

  // ----- the whole sieve

  /** The odd k of the window's first i candidates without a small factor. */
  ghost function SurvivorsBelow(c: ProthSieveConfig, i: nat): seq<int> {
    if i == 0 then [] else SurvivorsBelow(c, i - 1) + if c.HasSmallFactor(c.K(i - 1)) then [] else [c.K(i - 1)]
  }

  /** Survivors are exactly the odd k of the window without a small factor, in order. */
  lemma {:induction false} SurvivorsExact(c: ProthSieveConfig, i: nat, k: int)
    ensures k in SurvivorsBelow(c, i) <==>
      c.kStart <= k < c.kStart + 2 * i && (k - c.kStart) % 2 == 0 && !c.HasSmallFactor(k)
    ensures forall a, b :: 0 <= a < b < |SurvivorsBelow(c, i)| ==> SurvivorsBelow(c, i)[a] < SurvivorsBelow(c, i)[b]
    ensures forall a :: 0 <= a < |SurvivorsBelow(c, i)| ==> SurvivorsBelow(c, i)[a] < c.kStart + 2 * i
  {
    if i > 0 {
      SurvivorsExact(c, i - 1, k);
    }
  }

  datatype ProthSieveResult = ProthSieveResult(
    candidateCount: nat, eliminatedCount: nat, primesApplied: nat, survivors: seq<u32>)

  /** The loop over the primes the iterator yields. */
  method ApplyPrimes(c: ProthSieveConfig, primes: seq<u64>, eliminated: CandidateBitset) returns (total: nat)
    requires c.Valid() && primes == PrimesIn(3, c.maximumPrime + 1)
    requires eliminated.Valid() && eliminated.bitCount == c.CandidateCount()
      && eliminated.marks == seq(c.CandidateCount(), _ => false)
    modifies eliminated
    ensures eliminated.Valid() && total == CountTrue(eliminated.marks)
    ensures forall i :: 0 <= i < c.CandidateCount() ==> (eliminated.marks[i] <==> c.HasSmallFactor(c.K(i)))
  {
    PrimesInExact(3, c.maximumPrime + 1);
    CountOfNone(c.CandidateCount());
    total := 0;
    var j := 0;
    while j < |primes|
      invariant 0 <= j <= |primes| && eliminated.Valid() && total == CountTrue(eliminated.marks)
      invariant forall i :: 0 <= i < c.CandidateCount() ==> (eliminated.marks[i] <==> DividedBy(c, primes[..j], c.K(i)))
    {
      assert primes[j] in primes;
      assert primes[..j + 1] == primes[..j] + [primes[j]];
      ghost var before := eliminated.marks;
      total := ApplyPrime(c, primes[j], eliminated, total);
      forall i | 0 <= i < c.CandidateCount()
        ensures eliminated.marks[i] <==> DividedBy(c, primes[..j + 1], c.K(i))
      {
        KInWindow(c, i);
        DividedByAppend(c, primes[..j], primes[j], c.K(i));
      }
      j := j + 1;
    }
    assert primes[..j] == primes;
  }

  ghost predicate DividedBy(c: ProthSieveConfig, primes: seq<u64>, k: int) {
    exists q: int :: q in primes && q > 0 && Divides(q, c.Value(k))
  }

  lemma DividedByAppend(c: ProthSieveConfig, primes: seq<u64>, p: u64, k: int)
    requires p > 0
    ensures DividedBy(c, primes + [p], k) <==> DividedBy(c, primes, k) || Divides(p, c.Value(k))
  {
    assert p in primes + [p];
  }

  method CollectSurvivors(c: ProthSieveConfig, eliminated: CandidateBitset) returns (survivors: seq<u32>)
    requires c.Valid() && eliminated.Valid() && eliminated.bitCount == c.CandidateCount()
    requires forall i :: 0 <= i < c.CandidateCount() ==> (eliminated.marks[i] <==> c.HasSmallFactor(c.K(i)))
    ensures survivors == SurvivorsBelow(c, c.CandidateCount())
    ensures |survivors| == c.CandidateCount() - CountTrue(eliminated.marks)
  {
    survivors := [];
    var index := 0;
    while index < c.CandidateCount()
      invariant 0 <= index <= c.CandidateCount() && survivors == SurvivorsBelow(c, index)
      invariant |survivors| == index - CountTrue(eliminated.marks[..index])
    {
      assert eliminated.marks[..index + 1][..index] == eliminated.marks[..index];
      if !eliminated.Test(index) {
        survivors := survivors + [c.kStart + 2 * index];
      }
      index := index + 1;
    }
    assert eliminated.marks[..index] == eliminated.marks;
  }

  /** sieve_proth_candidates: exactly the survivors, and the population check never fires. */
  method SieveProthCandidates(c: ProthSieveConfig, primes: seq<u64>) returns (r: Result<ProthSieveResult, Exception>)
    requires primes == PrimesIn(3, c.maximumPrime + 1)
    ensures !c.Valid() ==> r == Err(InvalidArgument)
    ensures c.Valid() ==> r.Ok? && r.value.survivors == SurvivorsBelow(c, c.CandidateCount())
    ensures c.Valid() ==> r.value.candidateCount == c.CandidateCount()
    ensures c.Valid() ==> r.value.eliminatedCount + |r.value.survivors| == r.value.candidateCount
  {
    if !c.Valid() {
      return Err(InvalidArgument);
    }
    var eliminated := new CandidateBitset(c.CandidateCount());
    var total := ApplyPrimes(c, primes, eliminated);
    var marked := eliminated.MarkedCount();
    if marked != total {
      return Err(LogicError);
    }
    var survivors := CollectSurvivors(c, eliminated);
    return Ok(ProthSieveResult(c.CandidateCount(), total, |primes|, survivors));
  }

  // ----- elimination is a proof of compositeness

  lemma PowerDoubles(b: int, e: nat)
    ensures Pow(b, e + e) == Pow(b, e) * Pow(b, e)
  {
    PowAdd(b, e, e);
  }

  lemma FirstPowers(b: int)
    ensures Pow(b, 1) == b
  {
    assert Pow(b, 1) == b * Pow(b, 0);
  }

  /** 2^32 exceeds every sieving prime. */
  lemma PowerOfExponent(n: nat)
    requires n >= 32
    ensures Pow(2, n) >= 4_294_967_296
  {
    FirstPowers(2);
    PowerDoubles(2, 1);
    PowerDoubles(2, 2);
    PowerDoubles(2, 4);
    PowerDoubles(2, 8);
    PowerDoubles(2, 16);
    PowMonotone(2, 32, n);
  }

  /** The validated domain makes every eliminated value a proper multiple, hence composite. */
  lemma EliminatedIsComposite(c: ProthSieveConfig, k: int)
    requires c.Valid() && k >= c.kStart && c.HasSmallFactor(k)
    ensures !IsPrime(c.Value(k))
  {
    var q :| 3 <= q <= c.maximumPrime && IsPrime(q) && Divides(q, c.Value(k));
    PowerOfExponent(c.exponent);
    MulMonotone(Pow(2, c.exponent), 1, k);
    assert q < c.Value(k);
  }
}
