/** Compiling a whole prime list, and the two elimination runs that must agree:
    scalar trial of every prime on every candidate, and application of the
    compiled rules (src/congruence/compiler.cpp). */
module Eliminations {
  import opened NumberTheory
  import opened MachineArithmetic
  import opened StrongTest
  import opened Progressions
  import opened CompiledRules
  import opened Wrappers

  const MAXIMUM_EXACT_BITS: int := 10_000_000

  // ----- the exact-size limit

  /** std::bit_width */
  function BitWidth(x: nat): nat {
    if x == 0 then 0 else 1 + BitWidth(x / 2)
  }

  function Magnitude(x: int): nat {
    if x < 0 then -x else x
  }

  function Min(x: int, y: int): int {
    if x <= y then x else y
  }

  function Max(x: int, y: int): int {
    if x >= y then x else y
  }

  function PowerBits(baseMagnitude: nat, exponent: nat): Option<nat> {
    if baseMagnitude > 1 && exponent != 0 then
      var ceilingLog2 := BitWidth(baseMagnitude - 1);
      QuotientBounds(MAXIMUM_EXACT_BITS + 1, exponent);
      if ceilingLog2 > (MAXIMUM_EXACT_BITS + 1) / exponent then None
      else
        MulMonotone(ceilingLog2, 0, exponent);
        Some(ceilingLog2 * exponent + 1)
    else Some(1)
  }

  /** estimate_exact_bits, taken as the opaque size limit of the exact evaluation. */
  function EstimateExactBits(f: AffineExponentialFamily, ni: nat): int
    requires f.Valid() && ni < f.n.Count()
  {
    match PowerBits(Magnitude(f.base), f.Exponent(ni))
    case None => MAXIMUM_EXACT_BITS + 1
    case Some(powerBits) =>
      var kBits := BitWidth(Max(Magnitude(f.k.At(0)), Magnitude(f.k.At(f.k.Count() - 1))));
      Min(MAXIMUM_EXACT_BITS + 1, powerBits + Max(1, kBits) + 2)
  }

  predicate ExactSizeAllowed(f: AffineExponentialFamily, ni: nat)
    requires f.Valid() && ni < f.n.Count()
  {
    EstimateExactBits(f, ni) <= MAXIMUM_EXACT_BITS
  }

  /** evaluate_exact, with the integer in place of its limbs. */
  function EvaluateExact(f: AffineExponentialFamily, ki: nat, ni: nat): Result<int, Exception>
    requires f.InRange(ki, ni)
  {
    if ExactSizeAllowed(f, ni) then Ok(f.Candidate(ki, ni)) else Err(LengthError)
  }

  // ----- prime lists

  ghost predicate Ascending(s: seq<u64>) {
    forall i, j :: 0 <= i < j < |s| ==> s[i] < s[j]
  }

  function InsertDistinct(x: u64, s: seq<u64>): (r: seq<u64>)
    requires Ascending(s)
    ensures Ascending(r) && forall y :: y in r <==> y == x || y in s
  {
    if s == [] then [x]
    else if x < s[0] then [x] + s
    else if x == s[0] then s
    else
      var t := InsertDistinct(x, s[1..]);
      assert forall y :: y in s <==> y == s[0] || y in s[1..];
      assert forall i :: 0 <= i < |t| ==> t[i] in t;
      [s[0]] + t
  }

  /** std::sort followed by std::unique. */
  function SortDistinct(s: seq<u64>): (r: seq<u64>)
    ensures Ascending(r) && forall y :: y in r <==> y in s
  {
    if s == [] then [] else
      assert forall y :: y in s <==> y == s[0] || y in s[1..];
      InsertDistinct(s[0], SortDistinct(s[1..]))
  }

  /** The primality test decides the listed moduli: the published computation
      behind its seven bases, restricted to the moduli in use. */
  ghost predicate TestDecides(primes: seq<u64>) {
    forall q :: q in primes && AcceptedAsPrime(q) ==> IsPrime(q)
  }

  ghost predicate AllPrime(primes: seq<u64>) {
    forall i :: 0 <= i < |primes| ==> IsPrime(primes[i])
  }

  /** normalized_primes: sorted, without repetitions, refused when a modulus is not accepted. */
  method NormalizedPrimes(primes: seq<u64>) returns (r: Result<seq<u64>, Exception>)
    requires TestDecides(primes)
    ensures r.Ok? <==> forall q :: q in primes ==> IsPrime(q)
    ensures r.Ok? ==> r.value == SortDistinct(primes) && AllPrime(r.value)
    ensures r.Err? ==> r.error == InvalidArgument
  {
    var sorted := SortDistinct(primes);
    var i := 0;
    while i < |sorted|
      invariant 0 <= i <= |sorted|
      invariant forall j :: 0 <= j < i ==> IsPrime(sorted[j])
    {
      assert sorted[i] in sorted;
      var accepted := IsPrimeU64(sorted[i]);
      if !accepted {
        return Err(InvalidArgument);
      }
      i := i + 1;
    }
    forall q | q in primes
      ensures IsPrime(q)
    {
      assert q in sorted;
    }
    return Ok(sorted);
  }

  // ----- compiled tables

  datatype CompiledTable = CompiledTable(
    family: AffineExponentialFamily, periodMultiplier: u64,
    primes: seq<u64>, primeTables: seq<PrimeRuleTable>)

  ghost predicate TableFor(table: PrimeRuleTable, f: AffineExponentialFamily, prime: u64)
    requires prime > 0
  {
    table.period.prime == prime && RulesOf(table.rules, prime) && Exact(table.rules, f, prime)
  }

  /** The guarantee of a validated table. */
  ghost predicate ExactTable(table: CompiledTable) {
    && table.family.Valid() && Ascending(table.primes) && AllPrime(table.primes)
    && |table.primeTables| == |table.primes|
    && forall i :: 0 <= i < |table.primes| ==> TableFor(table.primeTables[i], table.family, table.primes[i])
  }

  /** What compile_congruences makes of a family, a list and a multiplier. */
  ghost predicate Compiled(table: CompiledTable) {
    && table.family.Valid() && table.periodMultiplier > 0 && Ascending(table.primes) && AllPrime(table.primes)
    && |table.primeTables| == |table.primes|
    && forall i :: 0 <= i < |table.primes| ==>
      CompiledTableOf(table.primeTables[i], table.family, table.primes[i], table.periodMultiplier)
  }

  lemma CompiledTwice(t: CompiledTable, u: CompiledTable)
    requires Compiled(t) && Compiled(u) && t.family == u.family && t.primes == u.primes
      && t.periodMultiplier == u.periodMultiplier
    ensures t == u
  {
    hide CompiledTableOf;
    forall i | 0 <= i < |t.primes|
      ensures t.primeTables[i] == u.primeTables[i]
    {
      CompiledOnce(t.primeTables[i], u.primeTables[i], t.family, t.primes[i], t.periodMultiplier);
    }
    assert t.primeTables == u.primeTables;
  }

  lemma {:induction false} SortedStays(s: seq<u64>)
    requires Ascending(s)
    ensures SortDistinct(s) == s
  {
    if s != [] {
      SortedStays(s[1..]);
      assert s == [s[0]] + s[1..];
    }
  }

  /** compile_congruences */
  method CompileCongruences(f: AffineExponentialFamily, primes: seq<u64>, periodMultiplier: u64)
    returns (r: Result<CompiledTable, Exception>)
    requires TestDecides(primes)
    ensures r.Ok? ==> ExactTable(r.value) && r.value.family == f && r.value.primes == SortDistinct(primes)
    ensures r.Ok? ==> Compiled(r.value) && r.value.periodMultiplier == periodMultiplier
    ensures !f.Valid() || periodMultiplier == 0 || (exists q :: q in primes && !IsPrime(q)) ==> r.Err?
    ensures f.Valid() && r.Err? && periodMultiplier > 0 && (forall q :: q in primes ==> IsPrime(q)) ==>
      exists q :: q in primes && PeriodOverflows(f.base % q, q, periodMultiplier)
  {
    hide CompiledTableOf, TableFor, PeriodOverflows, IsPrime;
    var valid := f.Validate();
    if valid.Err? {
      return Err(valid.error);
    }
    if periodMultiplier == 0 {
      return Err(InvalidArgument);
    }
    var normalized := NormalizedPrimes(primes);
    if normalized.Err? {
      return Err(normalized.error);
    }
    var tables := CompileTables(f, normalized.value, periodMultiplier);
    if tables.Err? {
      return Err(tables.error);
    }
    return Ok(CompiledTable(f, periodMultiplier, normalized.value, tables.value));
  }

  /** The loop over the checked primes. */
  method CompileTables(f: AffineExponentialFamily, primes: seq<u64>, periodMultiplier: u64)
    returns (r: Result<seq<PrimeRuleTable>, Exception>)
    requires f.Valid() && periodMultiplier > 0 && AllPrime(primes)
    ensures r.Ok? ==> |r.value| == |primes| && forall j :: 0 <= j < |primes| ==> TableFor(r.value[j], f, primes[j])
    ensures r.Ok? ==> forall j :: 0 <= j < |primes| ==> CompiledTableOf(r.value[j], f, primes[j], periodMultiplier)
    ensures r.Err? ==> exists q :: q in primes && q > 0 && PeriodOverflows(f.base % q, q, periodMultiplier)
  {
    hide CompiledTableOf, PeriodOverflows, RulesOf, Exact;
    var tables := [];
    var i := 0;
    while i < |primes|
      invariant 0 <= i <= |primes| && |tables| == i
      invariant forall j :: 0 <= j < i ==> TableFor(tables[j], f, primes[j])
      invariant forall j :: 0 <= j < i ==> CompiledTableOf(tables[j], f, primes[j], periodMultiplier)
    {
      var table := CompilePrime(f, primes[i], periodMultiplier);
      if table.Err? {
        assert primes[i] in primes;
        return Err(table.error);
      }
      tables := tables + [table.value];
      i := i + 1;
    }
    return Ok(tables);
  }

  // ----- the reference list of eliminations

  datatype CandidateIndex = CandidateIndex(kIndex: nat, nIndex: nat)

  datatype Elimination = Elimination(candidate: CandidateIndex, factor: u64, value: int)

  /** A valid candidate with the prime as a proper factor. */
  predicate ProperFactor(v: int, q: u64) {
    q > 0 && v > 1 && v % q == 0 && v > q
  }

  function FirstProper(primes: seq<u64>, v: int): (r: Option<u64>)
    ensures r.Some? ==> r.value in primes && ProperFactor(v, r.value)
    ensures r.None? ==> forall q :: q in primes ==> !ProperFactor(v, q)
  {
    if primes == [] then None
    else if ProperFactor(v, primes[0]) then Some(primes[0])
    else
      assert forall q :: q in primes <==> q == primes[0] || q in primes[1..];
      FirstProper(primes[1..], v)
  }

  /** In an ascending list the first proper factor is the least one. */
  lemma {:induction false} FirstIsLeast(primes: seq<u64>, v: int, q: u64)
    requires Ascending(primes) && q in primes && ProperFactor(v, q)
    ensures FirstProper(primes, v).Some? && FirstProper(primes, v).value <= q
  {
    if !ProperFactor(v, primes[0]) {
      assert q in primes[1..];
      FirstIsLeast(primes[1..], v, q);
    }
  }

  lemma {:induction false} FirstProperAppend(primes: seq<u64>, q: u64, v: int)
    ensures FirstProper(primes + [q], v) ==
      if FirstProper(primes, v).Some? then FirstProper(primes, v)
      else if ProperFactor(v, q) then Some(q) else None
  {
    if primes == [] {
      assert primes + [q] == [q] && [q][1..] == [];
    } else {
      assert (primes + [q])[1..] == primes[1..] + [q];
      FirstProperAppend(primes[1..], q, v);
    }
  }

  /** The verdict on one candidate. */
  function EliminationAt(f: AffineExponentialFamily, primes: seq<u64>, ki: nat, ni: nat): Option<Elimination>
    requires f.InRange(ki, ni)
  {
    if !f.Admissible(ki, ni) then None
    else
      match FirstProper(primes, f.Candidate(ki, ni))
      case None => None
      case Some(q) => Some(Elimination(CandidateIndex(ki, ni), q, f.Candidate(ki, ni)))
  }

  function AsSeq<T>(o: Option<T>): seq<T> {
    match o
    case None => []
    case Some(x) => [x]
  }

  /** The eliminations of a row below an exponent index, and of the rows below a k index. */
  function RowList(f: AffineExponentialFamily, primes: seq<u64>, ki: nat, nBound: nat): seq<Elimination>
    requires f.Valid() && ki < f.k.Count() && nBound <= f.n.Count()
  {
    if nBound == 0 then [] else
      RowList(f, primes, ki, nBound - 1) + AsSeq(EliminationAt(f, primes, ki, nBound - 1))
  }

  function ReferenceList(f: AffineExponentialFamily, primes: seq<u64>, kBound: nat): seq<Elimination>
    requires f.Valid() && kBound <= f.k.Count()
  {
    if kBound == 0 then [] else
      ReferenceList(f, primes, kBound - 1) + RowList(f, primes, kBound - 1, f.n.Count())
  }

  /** Some admissible candidate that a listed prime divides is too large to evaluate. */
  ghost predicate NeedsTooLarge(f: AffineExponentialFamily, primes: seq<u64>) {
    exists ki, ni, q :: f.InRange(ki, ni) && q in primes && TooLargeFor(f, ki, ni, q)
  }

  ghost predicate TooLargeFor(f: AffineExponentialFamily, ki: nat, ni: nat, q: u64)
    requires f.InRange(ki, ni)
  {
    q > 0 && f.Admissible(ki, ni) && Divides(q, f.Candidate(ki, ni)) && !ExactSizeAllowed(f, ni)
  }

  // ----- the scalar run

  /** The inner loop over the primes for one admissible candidate. */
  method ScalarCandidate(f: AffineExponentialFamily, primes: seq<u64>, ki: u64, ni: u64)
    returns (r: Result<Option<u64>, Exception>)
    requires f.InRange(ki, ni) && AllPrime(primes)
    ensures r.Ok? ==> r.value == FirstProper(primes, f.Candidate(ki, ni))
    ensures r.Ok? ==> ExactSizeAllowed(f, ni) || forall q :: q in primes ==> !Divides(q, f.Candidate(ki, ni))
    ensures r.Err? ==> r.error == LengthError && !ExactSizeAllowed(f, ni)
    ensures r.Err? ==> exists q :: q in primes && Divides(q, f.Candidate(ki, ni))
  {
    ghost var v := f.Candidate(ki, ni);
    var i := 0;
    while i < |primes|
      invariant 0 <= i <= |primes|
      invariant FirstProper(primes[..i], v).None?
      invariant ExactSizeAllowed(f, ni) || forall j :: 0 <= j < i ==> !Divides(primes[j], v)
    {
      assert primes[..i + 1] == primes[..i] + [primes[i]];
      FirstProperAppend(primes[..i], primes[i], v);
      var residue := EvaluateModulo(f, ki, ni, primes[i]);
      if residue.value == 0 {
        var value := EvaluateExact(f, ki, ni);
        if value.Err? {
          assert primes[i] in primes;
          return Err(value.error);
        }
        var accepted := IsPrimeU64(primes[i]);
        if accepted && value.value > 1 && value.value % primes[i] == 0 && value.value > primes[i] {
          FirstProperPrefix(primes, i, v);
          return Ok(Some(primes[i]));
        }
      }
      i := i + 1;
    }
    assert primes[..i] == primes;
    return Ok(None);
  }

  lemma {:induction false} FirstProperPrefix(primes: seq<u64>, i: nat, v: int)
    requires i < |primes| && FirstProper(primes[..i], v).None? && ProperFactor(v, primes[i])
    ensures FirstProper(primes, v) == Some(primes[i])
  {
    if i > 0 {
      assert primes[0] in primes[..i];
      assert primes[..i][1..] == primes[1..][..i - 1];
      FirstProperPrefix(primes[1..], i - 1, v);
    }
  }

  method ScalarRow(f: AffineExponentialFamily, primes: seq<u64>, ki: u64)
    returns (r: Result<seq<Elimination>, Exception>)
    requires f.Valid() && ki < f.k.Count() && AllPrime(primes)
    ensures r.Ok? ==> r.value == RowList(f, primes, ki, f.n.Count())
    ensures r.Ok? ==> forall ni, q :: f.InRange(ki, ni) && q in primes ==> !TooLargeFor(f, ki, ni, q)
    ensures r.Err? ==> r.error == LengthError && NeedsTooLarge(f, primes)
  {
    var list := [];
    var ni: u64 := 0;
    while ni < f.n.Count()
      invariant ni <= f.n.Count() && list == RowList(f, primes, ki, ni)
      invariant forall j, q :: 0 <= j < ni && f.InRange(ki, j) && q in primes ==> !TooLargeFor(f, ki, j, q)
    {
      if f.Admissible(ki, ni) {
        var factor := ScalarCandidate(f, primes, ki, ni);
        if factor.Err? {
          var q :| q in primes && Divides(q, f.Candidate(ki, ni));
          assert TooLargeFor(f, ki, ni, q);
          return Err(factor.error);
        }
        if factor.value.Some? {
          list := list + [Elimination(CandidateIndex(ki, ni), factor.value.value, f.Candidate(ki, ni))];
        }
      }
      ni := ni + 1;
    }
    return Ok(list);
  }

  method ScalarRows(f: AffineExponentialFamily, checked: seq<u64>) returns (r: Result<seq<Elimination>, Exception>)
    requires f.Valid() && AllPrime(checked)
    ensures r.Ok? ==> r.value == ReferenceList(f, checked, f.k.Count()) && !NeedsTooLarge(f, checked)
    ensures r.Err? ==> r.error == LengthError && NeedsTooLarge(f, checked)
  {
    var list := [];
    var ki: u64 := 0;
    while ki < f.k.Count()
      invariant ki <= f.k.Count() && list == ReferenceList(f, checked, ki)
      invariant forall i, ni, q :: 0 <= i < ki && f.InRange(i, ni) && q in checked ==> !TooLargeFor(f, i, ni, q)
    {
      var row := ScalarRow(f, checked, ki);
      if row.Err? {
        return Err(row.error);
      }
      list := list + row.value;
      ki := ki + 1;
    }
    return Ok(list);
  }

  /** scalar_reference_eliminations: the reference list, or a length error exactly
      when a candidate it must evaluate is too large. */
  method ScalarReferenceEliminations(f: AffineExponentialFamily, primes: seq<u64>)
    returns (r: Result<seq<Elimination>, Exception>)
    requires TestDecides(primes)
    ensures !f.Valid() ==> r == Err(f.Validate().error)
    ensures f.Valid() && (exists q :: q in primes && !IsPrime(q)) ==> r == Err(InvalidArgument)
    ensures f.Valid() && (forall q :: q in primes ==> IsPrime(q)) ==>
      if NeedsTooLarge(f, SortDistinct(primes)) then r == Err(LengthError)
      else r == Ok(ReferenceList(f, SortDistinct(primes), f.k.Count()))
  {
    var valid := f.Validate();
    if valid.Err? {
      return Err(valid.error);
    }
    var normalized := NormalizedPrimes(primes);
    if normalized.Err? {
      return Err(normalized.error);
    }
    r := ScalarRows(f, normalized.value);
  }
}
