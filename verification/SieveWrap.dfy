/** The wrapping counts of the family sieve at inputs: for every candidate count and
    segment size whose rounded-up sum wraps some run falls short of the reference
    (src/family_sieve/family_sieve.cpp). */
module SieveWrap {
  import opened NumberTheory
  import opened MachineArithmetic
  import opened Progressions
  import opened Orders
  import opened CompiledRules
  import opened Eliminations
  import opened SieveCells
  import opened SieveScan
  import opened SievePremark
  import opened RuleTables
  import opened SieveWorkers
  import opened SieveMerge
  import opened SieveVerdict
  import opened ReferenceWords
  import opened FamilySieve
  import opened Words
  import opened Wrappers

  // ----- the families

  function First(count: u64): (first: i64)
    requires count > 1
    ensures first <= 2 < first + count <= MAX_I64 + 1
  {
    if count < 8 then 2 else -(count / 2)
  }

  /** The candidates 2 * k for so many consecutive k, the number 2 among them. */
  function EvenFamily(count: u64): AffineExponentialFamily
    requires count > 1
  {
    var first := First(count);
    AffineExponentialFamily(Progression(first, first + count - 1, 1), Progression(1, 1, 1), 2, 0, AnyParity, AnyParity)
  }

  lemma UnitStepSize(p: Progression)
    requires p.step == 1 && 0 <= p.maximum - p.minimum < MAX_U64
    ensures p.Size() == Ok(p.maximum - p.minimum + 1)
  {
    DivModUnique(p.maximum - p.minimum, 1, p.maximum - p.minimum, 0);
  }

  lemma EvenFamilySizes(count: u64)
    requires count > 1
    ensures EvenFamily(count).Valid() && CandidateCount(EvenFamily(count)) == count
    ensures EvenFamily(count).k.Count() == count && EvenFamily(count).n.Count() == 1
  {
    UnitStepSize(EvenFamily(count).k);
    UnitStepSize(EvenFamily(count).n);
  }

  lemma FirstPower(b: int, e: nat)
    requires e == 1
    ensures Pow(b, e) == b
  {
    assert Pow(b, e) == b * Pow(b, e - 1);
  }

  /** The candidate 4 is in the family, and 2 divides it properly. */
  lemma FourIsEliminated(count: u64)
    requires count > 1
    ensures var f := EvenFamily(count); f.InRange(2 - First(count), 0) && Eliminated(f, [2], 2 - First(count), 0)
  {
    hide FirstProper, Progression.Size, Progression.Count;
    EvenFamilySizes(count);
    var f := EvenFamily(count);
    FirstPower(f.base, f.Exponent(0));
    assert f.Candidate(2 - First(count), 0) == 4 && 2 in [2];
    assert ProperFactor(4, 2);
  }

  // ----- no candidate is too large to evaluate

  lemma {:induction false} WidthBound(x: nat, n: nat)
    requires x < Pow(2, n)
    ensures BitWidth(x) <= n
  {
    if x > 0 {
      assert n > 0 && Pow(2, n) == 2 * Pow(2, n - 1);
      WidthBound(x / 2, n - 1);
    }
  }

  lemma SixtyFour()
    ensures Pow(2, 64) == TWO_TO_64
  {
    PowAdd(2, 32, 32);
    PowAdd(2, 16, 16);
    PowAdd(2, 8, 8);
    assert Pow(2, 8) == 256;
  }

  lemma SmallExponent(count: u64)
    requires count > 1 && EvenFamily(count).InRange(0, 0)
    ensures ExactSizeAllowed(EvenFamily(count), 0)
  {
    hide Progression.Size, Progression.Count;
    EvenFamilySizes(count);
    var f := EvenFamily(count);
    SixtyFour();
    WidthBound(Max(Magnitude(f.k.At(0)), Magnitude(f.k.At(count - 1))), 64);
    assert BitWidth(1) == 1 + BitWidth(0);
  }

  lemma NothingTooLarge(count: u64)
    requires count > 1
    ensures !ListTooLarge(EvenFamily(count), [2]) && !NeedsTooLarge(EvenFamily(count), [2])
  {
    hide Progression.Size, Progression.Count, ExactSizeAllowed, EvenFamily, Divides;
    EvenFamilySizes(count);
    var f := EvenFamily(count);
    SmallExponent(count);
    forall ki, ni, q: u64 | f.InRange(ki, ni)
      ensures !TooLargeFor(f, ki, ni, q)
    {
      assert ni == 0;
    }
  }

  // ----- runs

  lemma TwoIsPrime()
    ensures IsPrime(2) && SortDistinct([2]) == [2]
  {
    assert [2][1..] == [];
    assert SortDistinct([]) == [];
  }

  /** The table of an even family for the prime 2. */
  method CompileEven(count: u64) returns (table: CompiledTable)
    requires count > 1
    ensures ExactTable(table) && table.family == EvenFamily(count) && table.primes == [2]
  {
    hide ExactTable, SortDistinct, IsPrime;
    EvenFamilySizes(count);
    TwoIsPrime();
    var compiled := CompileCongruences(EvenFamily(count), [2], 1);
    forall order
      ensures !IsOrder(0, 2, order)
    {
      NoOrderOfZero(0, 2, order);
    }
    assert EvenFamily(count).base % 2 == 0;
    table := compiled.value;
  }

  function PlainOptions(size: u64): Options {
    Options(DenseBitset, ByK, PrimeMajor, ArrayOfStructures, size, 1, true, false, 0, 0, 0, false, false)
  }

  lemma NoSegments(count: u64, size: u64)
    requires size > 0 && SegmentsWrap(count, size)
    ensures SegmentCount(count, size) == 0 && IsSchedule([], ThreadCount(PlainOptions(size), 0), 0)
  {
    SegmentsTile(count, size);
  }

  /** Whenever a rounded-up sum wraps, a run over an even family without premarking
      returns, and misses eliminations of the reference. */
  method WrappingRunFails(count: u64, size: u64) returns (table: CompiledTable, r: Result<SieveResult, Exception>)
    requires size > 0 && SegmentsWrap(count, size)
    ensures ExactTable(table) && CandidateCount(table.family) == count && Defined(table, PlainOptions(size))
    ensures r.Ok? && r.value.words != Reference(table.family, table.primes)
  {
    hide ExactTable, IsSchedule, Eliminated, ListTooLarge, EarlyWords, Reference;
    table := CompileEven(count);
    EvenFamilySizes(count);
    NothingTooLarge(count);
    NoSegments(count, size);
    r := Run(table, true, PlainOptions(size), []);
    FourIsEliminated(count);
    NotEarly(table, size, 2 - First(count), 0);
  }

  lemma NotEarly(table: CompiledTable, size: u64, ki: nat, ni: nat)
    requires table.family.InRange(ki, ni) && Eliminated(table.family, table.primes, ki, ni)
    ensures !EarlySuffices(table, PlainOptions(size))
  {
    var options := PlainOptions(size);
    assert FirstPrimes(table, options) == [];
    assert !MarkedEarly(table, options, ki, ni);
  }

  /** Two candidates, 2 and 4, in segments of the largest size. */
  method TwoCandidates() returns (table: CompiledTable, r: Result<SieveResult, Exception>)
    ensures ExactTable(table) && CandidateCount(table.family) == 2 && r.Ok?
      && r.value.words != Reference(table.family, table.primes)
  {
    table, r := WrappingRunFails(2, MAX_U64);
  }

  /** The most candidates a word counts, in segments of 8192: a result without any words. */
  method MostCandidates() returns (table: CompiledTable, r: Result<SieveResult, Exception>)
    ensures ExactTable(table) && CandidateCount(table.family) == MAX_U64 && WordsWrap(MAX_U64)
    ensures r.Ok? && r.value.words != Reference(table.family, table.primes)
  {
    table, r := WrappingRunFails(MAX_U64, 8192);
  }
}
