/** Applying compiled rules: class enumeration and the ordered map of
    eliminations, proved equal to the scalar run (src/congruence/compiler.cpp). */
module TableApplication {
  import opened NumberTheory
  import opened MachineArithmetic
  import opened StrongTest
  import opened Progressions
  import opened CompiledRules
  import opened Eliminations
  import opened Wrappers

  // ----- enumerating a residue class without overflow

  /** The indices are the members of the class below the bound. */
  ghost predicate ClassBelow(indices: seq<u64>, residue: int, modulus: int, bound: int)
    requires modulus > 0
  {
    && (forall j :: 0 <= j < |indices| ==> indices[j] < bound && indices[j] % modulus == residue)
    && (forall i: int :: 0 <= i < bound && i % modulus == residue ==> i in indices)
  }

  lemma ClassGrows(indices: seq<u64>, index: u64, residue: int, modulus: int, bound: int)
    requires modulus > 0 && index < bound <= index + modulus && index % modulus == residue
    requires ClassBelow(indices, residue, modulus, index)
    ensures ClassBelow(indices + [index], residue, modulus, bound)
  {
    forall i: int | 0 <= i < bound && i % modulus == residue
      ensures i in indices + [index]
    {
      if index < i {
        NextCongruent(i, index, modulus);
      }
    }
  }

  /** The strided loop: every index of the class below the count, ascending, and
      the stride is taken only when it cannot leave the range. */
  method EnumerateClass(residue: u64, modulus: u64, count: u64) returns (indices: seq<u64>)
    requires residue < modulus
    ensures Ascending(indices) && ClassBelow(indices, residue, modulus, count)
  {
    indices := [];
    var index: u64 := residue;
    DivModUnique(residue, modulus, 0, residue);
    forall i: int | 0 <= i < residue
      ensures i % modulus != residue
    {
      SmallestInClass(residue, modulus, i);
    }
    while index < count
      invariant index % modulus == residue
      invariant Ascending(indices) && ClassBelow(indices, residue, modulus, if index < count then index else count)
      decreases count - index
    {
      ClassGrows(indices, index, residue, modulus, if modulus > count - 1 - index then count else index + modulus);
      indices := indices + [index];
      if modulus > count - 1 - index {
        return;
      }
      CongruentStep(index, modulus);
      index := index + modulus;
    }
  }

  /** for_each_n_index: exactly the exponent indices the rule matches. */
  method EnumerateExponents(rule: ForbiddenRule, f: AffineExponentialFamily) returns (indices: seq<u64>)
    requires rule.WellFormed() && f.Valid()
    ensures Ascending(indices)
    ensures forall i: int :: 0 <= i < f.n.Count() && rule.MatchesExponent(f, i) <==> i in indices
  {
    var count := f.n.Count();
    match rule.scope {
      case ExactExponent =>
        indices := [];
        if f.n.Contains(rule.exactExponent) {
          IndexOfExact(f.n, rule.exactExponent);
          indices := [f.n.IndexOf(rule.exactExponent).value];
        }
        forall i: int | 0 <= i < count && f.n.At(i) == rule.exactExponent
          ensures f.n.Contains(rule.exactExponent) && indices == [i]
        {
          ContainsMembers(f.n, i);
          AtInjective(f.n, i, f.n.IndexOf(rule.exactExponent).value);
        }
      case PositiveExponents =>
        indices := [];
        var index: u64 := 0;
        while index < count
          invariant index <= count && Ascending(indices) && forall j :: 0 <= j < |indices| ==> indices[j] < index
          invariant forall i: int :: 0 <= i < index && f.n.At(i) > 0 <==> i in indices
        {
          if f.n.At(index) > 0 {
            indices := indices + [index];
          }
          index := index + 1;
        }
      case IndexCongruence =>
        indices := EnumerateClass(rule.exponentIndexResidue, rule.exponentIndexModulus, count);
    }
  }

  // ----- the map of eliminations

  type EliminationMap = map<CandidateIndex, Elimination>

  /** The candidates the current table has visited so far. */
  type Visited = set<CandidateIndex>

  ghost predicate MapCorrect(m: EliminationMap, f: AffineExponentialFamily, primes: seq<u64>, q: u64,
    visited: Visited) {
    forall ki, ni :: f.InRange(ki, ni) ==> EntryCorrect(m, f, primes, q, visited, ki, ni)
  }

  /** What the map must hold for one candidate: the verdict of the finished primes,
      then of the current one if the candidate was visited. */
  ghost predicate EntryCorrect(m: EliminationMap, f: AffineExponentialFamily, primes: seq<u64>, q: u64,
                               visited: Visited, ki: nat, ni: nat)
    requires f.InRange(ki, ni)
  {
    var c := CandidateIndex(ki, ni);
    Lookup(m, c) == EliminationAt(f, if c in visited then primes + [q] else primes, ki, ni)
  }

  function Lookup(m: EliminationMap, c: CandidateIndex): Option<Elimination> {
    if c in m then Some(m[c]) else None
  }

  /** No candidate visited so far was too large. */
  ghost predicate SizesAllowed(f: AffineExponentialFamily, primes: seq<u64>, q: u64, visited: Visited) {
    && (forall ki, ni, p :: f.InRange(ki, ni) && p in primes ==> !TooLargeFor(f, ki, ni, p))
    && (forall ki, ni :: f.InRange(ki, ni) && CandidateIndex(ki, ni) in visited ==> !TooLargeFor(f, ki, ni, q))
  }

  /** The innermost body: one candidate that a rule of prime q matches. */
  method VisitCandidate(f: AffineExponentialFamily, ghost primes: seq<u64>, q: u64, m: EliminationMap,
                        ghost visited: Visited, ki: u64, ni: u64)
    returns (r: Result<EliminationMap, Exception>)
    requires f.InRange(ki, ni) && IsPrime(q) && Divides(q, f.Candidate(ki, ni))
    requires MapCorrect(m, f, primes, q, visited) && SizesAllowed(f, primes, q, visited)
    ensures r.Ok? ==> var v := visited + {CandidateIndex(ki, ni)};
      MapCorrect(r.value, f, primes, q, v) && SizesAllowed(f, primes, q, v)
    ensures r.Err? ==> r.error == LengthError && TooLargeFor(f, ki, ni, q)
  {
    var c := CandidateIndex(ki, ni);
    ghost var v := visited + {c};
    ghost var value := f.Candidate(ki, ni);
    FirstProperAppend(primes, q, value);
    assert EntryCorrect(m, f, primes, q, visited, ki, ni);
    var result := m;
    if f.Admissible(ki, ni) && c !in m {
      var residue := EvaluateModulo(f, ki, ni, q);
      assert residue.value == 0;
      var exact := EvaluateExact(f, ki, ni);
      if exact.Err? {
        return Err(exact.error);
      }
      var accepted := IsPrimeU64(q);
      if accepted && exact.value > 1 && exact.value % q == 0 && exact.value > q {
        result := m[c := Elimination(c, q, exact.value)];
      }
    } else if f.Admissible(ki, ni) {
      EntryWasEvaluated(f, primes, q, visited, m, ki, ni);
    }
    forall i, j | f.InRange(i, j)
      ensures EntryCorrect(result, f, primes, q, v, i, j)
    {
      assert EntryCorrect(m, f, primes, q, visited, i, j);
    }
    return Ok(result);
  }

  /** A candidate already in the map has passed the size check. */
  lemma EntryWasEvaluated(f: AffineExponentialFamily, primes: seq<u64>, q: u64, visited: Visited,
                          m: EliminationMap, ki: nat, ni: nat)
    requires f.InRange(ki, ni) && q > 0 && CandidateIndex(ki, ni) in m
    requires EntryCorrect(m, f, primes, q, visited, ki, ni) && SizesAllowed(f, primes, q, visited)
    ensures ExactSizeAllowed(f, ni)
  {
    var c := CandidateIndex(ki, ni);
    var p := EliminationAt(f, if c in visited then primes + [q] else primes, ki, ni).value.factor;
    assert p in primes + [q];
    assert TooLargeFor(f, ki, ni, p) || ExactSizeAllowed(f, ni);
  }

  /** The candidates of one rule. */
  ghost function ClassOf(f: AffineExponentialFamily, rule: ForbiddenRule): set<CandidateIndex>
    requires f.Valid() && rule.WellFormed()
  {
    set ki: nat, ni: nat | ki < f.k.Count() && ni < f.n.Count() && rule.Matches(f, ki, ni) :: CandidateIndex(ki, ni)
  }

  ghost function ColumnOf(f: AffineExponentialFamily, ks: seq<u64>, ni: nat): set<CandidateIndex> {
    set i | 0 <= i < |ks| :: CandidateIndex(ks[i], ni)
  }

  method VisitColumn(f: AffineExponentialFamily, ghost primes: seq<u64>, q: u64, m0: EliminationMap,
                     ghost visited0: Visited, ks: seq<u64>, ni: u64)
    returns (r: Result<EliminationMap, Exception>)
    requires f.Valid() && ni < f.n.Count() && IsPrime(q)
    requires forall i :: 0 <= i < |ks| ==> ks[i] < f.k.Count() && Divides(q, f.Candidate(ks[i], ni))
    requires MapCorrect(m0, f, primes, q, visited0) && SizesAllowed(f, primes, q, visited0)
    ensures r.Ok? ==> var v := visited0 + ColumnOf(f, ks, ni);
      MapCorrect(r.value, f, primes, q, v) && SizesAllowed(f, primes, q, v)
    ensures r.Err? ==> r.error == LengthError && exists ki :: f.InRange(ki, ni) && TooLargeFor(f, ki, ni, q)
  {
    var m := m0;
    ghost var visited := visited0;
    var i := 0;
    while i < |ks|
      invariant 0 <= i <= |ks| && visited == visited0 + ColumnOf(f, ks[..i], ni)
      invariant MapCorrect(m, f, primes, q, visited) && SizesAllowed(f, primes, q, visited)
    {
      var next := VisitCandidate(f, primes, q, m, visited, ks[i], ni);
      if next.Err? {
        return Err(next.error);
      }
      m := next.value;
      assert ks[..i + 1] == ks[..i] + [ks[i]];
      ColumnGrows(f, ks[..i], ks[i], ni);
      visited := visited + {CandidateIndex(ks[i], ni)};
      i := i + 1;
    }
    assert ks[..i] == ks;
    return Ok(m);
  }

  lemma ColumnGrows(f: AffineExponentialFamily, ks: seq<u64>, k: u64, ni: nat)
    ensures ColumnOf(f, ks + [k], ni) == ColumnOf(f, ks, ni) + {CandidateIndex(k, ni)}
  {
    var longer := ks + [k];
    forall c | c in ColumnOf(f, ks, ni) + {CandidateIndex(k, ni)}
      ensures c in ColumnOf(f, longer, ni)
    {
      if c in ColumnOf(f, ks, ni) {
        var i :| 0 <= i < |ks| && c == CandidateIndex(ks[i], ni);
        assert longer[i] == ks[i];
      } else {
        assert longer[|ks|] == k;
      }
    }
  }

  ghost function ColumnsOf(f: AffineExponentialFamily, ks: seq<u64>, ns: seq<u64>): set<CandidateIndex> {
    if ns == [] then {} else ColumnsOf(f, ks, ns[..|ns| - 1]) + ColumnOf(f, ks, ns[|ns| - 1])
  }

  lemma {:induction false} ColumnsAre(f: AffineExponentialFamily, ks: seq<u64>, ns: seq<u64>, c: CandidateIndex)
    ensures c in ColumnsOf(f, ks, ns) <==> c.kIndex in ks && c.nIndex in ns
  {
    if ns != [] {
      ColumnsAre(f, ks, ns[..|ns| - 1], c);
      assert ns == ns[..|ns| - 1] + [ns[|ns| - 1]];
    }
  }

  /** The two nested loops over one rule visit exactly its class. */
  method VisitRule(f: AffineExponentialFamily, ghost primes: seq<u64>, q: u64, rule: ForbiddenRule,
                   m0: EliminationMap, ghost visited0: Visited)
    returns (r: Result<EliminationMap, Exception>)
    requires f.Valid() && IsPrime(q) && rule.WellFormed()
    requires forall ki, ni :: f.InRange(ki, ni) && rule.Matches(f, ki, ni) ==> Divides(q, f.Candidate(ki, ni))
    requires MapCorrect(m0, f, primes, q, visited0) && SizesAllowed(f, primes, q, visited0)
    ensures r.Ok? ==> var v := visited0 + ClassOf(f, rule);
      MapCorrect(r.value, f, primes, q, v) && SizesAllowed(f, primes, q, v)
    ensures r.Err? ==> r.error == LengthError && exists ki, ni :: f.InRange(ki, ni) && TooLargeFor(f, ki, ni, q)
  {
    var ns := EnumerateExponents(rule, f);
    var ks := EnumerateClass(rule.kIndexResidue, rule.kIndexModulus, f.k.Count());
    var m := m0;
    ghost var visited := visited0;
    var j := 0;
    while j < |ns|
      invariant 0 <= j <= |ns| && visited == visited0 + ColumnsOf(f, ks, ns[..j])
      invariant MapCorrect(m, f, primes, q, visited) && SizesAllowed(f, primes, q, visited)
    {
      assert ns[j] in ns;
      forall i | 0 <= i < |ks|
        ensures ks[i] < f.k.Count() && Divides(q, f.Candidate(ks[i], ns[j]))
      {
        assert ks[i] in ks;
        assert f.InRange(ks[i], ns[j]);
      }
      var next := VisitColumn(f, primes, q, m, visited, ks, ns[j]);
      if next.Err? {
        return Err(next.error);
      }
      m := next.value;
      assert ns[..j + 1][..j] == ns[..j];
      visited := visited + ColumnOf(f, ks, ns[j]);
      j := j + 1;
    }
    assert ns[..j] == ns;
    assert ColumnsOf(f, ks, ns) == ClassOf(f, rule) by {
      forall c
        ensures c in ColumnsOf(f, ks, ns) <==> c in ClassOf(f, rule)
      {
        ColumnsAre(f, ks, ns, c);
      }
    }
    return Ok(m);
  }

  ghost function ClassesOf(f: AffineExponentialFamily, rules: seq<ForbiddenRule>): set<CandidateIndex>
    requires f.Valid() && forall i :: 0 <= i < |rules| ==> rules[i].WellFormed()
  {
    if rules == [] then {} else ClassesOf(f, rules[..|rules| - 1]) + ClassOf(f, rules[|rules| - 1])
  }

  lemma {:induction false} ClassesAreHits(f: AffineExponentialFamily, rules: seq<ForbiddenRule>, ki: nat, ni: nat)
    requires f.InRange(ki, ni) && forall i :: 0 <= i < |rules| ==> rules[i].WellFormed()
    ensures CandidateIndex(ki, ni) in ClassesOf(f, rules) <==> Hits(rules, f, ki, ni)
  {
    if rules != [] {
      var last := |rules| - 1;
      assert rules == rules[..last] + [rules[last]];
      ClassesAreHits(f, rules[..last], ki, ni);
      HitsAppend(rules[..last], rules[last], f, ki, ni);
    }
  }

  /** One prime table: afterwards the map also holds the verdict of its prime. */
  method VisitTable(f: AffineExponentialFamily, ghost primes: seq<u64>, q: u64, rules: seq<ForbiddenRule>,
                    m0: EliminationMap)
    returns (r: Result<EliminationMap, Exception>)
    requires f.Valid() && IsPrime(q) && RulesOf(rules, q) && Exact(rules, f, q)
    requires MapCorrect(m0, f, primes, q, {}) && SizesAllowed(f, primes, q, {})
    ensures r.Ok? ==> forall ki, ni :: f.InRange(ki, ni) ==>
      Lookup(r.value, CandidateIndex(ki, ni)) == EliminationAt(f, primes + [q], ki, ni)
    ensures r.Ok? ==> forall ki, ni, p :: f.InRange(ki, ni) && p in primes + [q] ==> !TooLargeFor(f, ki, ni, p)
    ensures r.Err? ==> r.error == LengthError && exists ki, ni :: f.InRange(ki, ni) && TooLargeFor(f, ki, ni, q)
  {
    var m := m0;
    ghost var visited: Visited := {};
    var i := 0;
    while i < |rules|
      invariant 0 <= i <= |rules| && visited == ClassesOf(f, rules[..i])
      invariant MapCorrect(m, f, primes, q, visited) && SizesAllowed(f, primes, q, visited)
    {
      forall ki, ni | f.InRange(ki, ni) && rules[i].Matches(f, ki, ni)
        ensures Divides(q, f.Candidate(ki, ni))
      {
        assert Hits(rules, f, ki, ni);
      }
      var next := VisitRule(f, primes, q, rules[i], m, visited);
      if next.Err? {
        return Err(next.error);
      }
      m := next.value;
      assert rules[..i + 1][..i] == rules[..i];
      visited := visited + ClassOf(f, rules[i]);
      i := i + 1;
    }
    assert rules[..i] == rules;
    forall ki, ni | f.InRange(ki, ni)
      ensures Lookup(m, CandidateIndex(ki, ni)) == EliminationAt(f, primes + [q], ki, ni)
    {
      TableFinished(f, primes, q, rules, m, visited, ki, ni);
    }
    forall ki, ni, p | f.InRange(ki, ni) && p in primes + [q]
      ensures !TooLargeFor(f, ki, ni, p)
    {
      ClassesAreHits(f, rules, ki, ni);
    }
    return Ok(m);
  }

  /** A candidate no rule matched is not divisible, so the new prime changes nothing for it. */
  lemma TableFinished(f: AffineExponentialFamily, primes: seq<u64>, q: u64, rules: seq<ForbiddenRule>,
                      m: EliminationMap, visited: Visited, ki: nat, ni: nat)
    requires f.InRange(ki, ni) && q > 0 && RulesOf(rules, q) && Exact(rules, f, q)
    requires visited == ClassesOf(f, rules) && MapCorrect(m, f, primes, q, visited)
    ensures Lookup(m, CandidateIndex(ki, ni)) == EliminationAt(f, primes + [q], ki, ni)
  {
    assert EntryCorrect(m, f, primes, q, visited, ki, ni);
    ClassesAreHits(f, rules, ki, ni);
    FirstProperAppend(primes, q, f.Candidate(ki, ni));
  }

  // ----- the ordered result

  /** Iterating the ordered map yields the reference list. */
  method InKeyOrder(f: AffineExponentialFamily, ghost primes: seq<u64>, m: EliminationMap)
    returns (list: seq<Elimination>)
    requires f.Valid()
    requires forall ki, ni :: f.InRange(ki, ni) ==>
      Lookup(m, CandidateIndex(ki, ni)) == EliminationAt(f, primes, ki, ni)
    ensures list == ReferenceList(f, primes, f.k.Count())
  {
    list := [];
    var ki := 0;
    while ki < f.k.Count()
      invariant 0 <= ki <= f.k.Count() && list == ReferenceList(f, primes, ki)
    {
      var row: seq<Elimination> := [];
      var ni := 0;
      while ni < f.n.Count()
        invariant 0 <= ni <= f.n.Count() && row == RowList(f, primes, ki, ni)
      {
        var c := CandidateIndex(ki, ni);
        assert Lookup(m, c) == EliminationAt(f, primes, ki, ni);
        if c in m {
          row := row + [m[c]];
        }
        ni := ni + 1;
      }
      list := list + row;
      ki := ki + 1;
    }
  }

  /** Recompiling what was compiled succeeds. */
  lemma CompiledAgain(table: CompiledTable)
    requires Compiled(table)
    ensures SortDistinct(table.primes) == table.primes && table.family.Valid() && table.periodMultiplier > 0
    ensures forall q :: q in table.primes ==>
      IsPrime(q) && !PeriodOverflows(table.family.base % q, q, table.periodMultiplier)
  {
    hide CompiledTableOf, PeriodOverflows, SortDistinct;
    SortedStays(table.primes);
    forall q | q in table.primes
      ensures IsPrime(q) && !PeriodOverflows(table.family.base % q, q, table.periodMultiplier)
    {
      var i :| 0 <= i < |table.primes| && table.primes[i] == q;
      CompiledFits(table.primeTables[i], table.family, q, table.periodMultiplier);
    }
  }

  /** validate_compiled_table, the recompilation part: exactly the compiled tables pass,
      and every one of them is exact. */
  method ValidateCompiledTable(table: CompiledTable) returns (valid: bool)
    requires TestDecides(table.primes)
    ensures valid <==> Compiled(table)
    ensures valid ==> ExactTable(table)
  {
    hide Compiled, ExactTable, PeriodOverflows, SortDistinct;
    var expected := CompileCongruences(table.family, table.primes, table.periodMultiplier);
    if Compiled(table) {
      CompiledAgain(table);
      CompiledTwice(expected.value, table);
    }
    return expected.Ok? && expected.value == table;
  }

  /** apply_compiled_table on a validated table: the same ordered eliminations as the
      scalar run, the same length error, and the "does not divide" error never. */
  method ApplyCompiledTable(table: CompiledTable, validated: bool) returns (r: Result<seq<Elimination>, Exception>)
    requires validated ==> ExactTable(table)
    ensures !validated ==> r == Err(InvalidArgument)
    ensures validated ==>
      if NeedsTooLarge(table.family, table.primes) then r == Err(LengthError)
      else r == Ok(ReferenceList(table.family, table.primes, table.family.k.Count()))
  {
    if !validated {
      return Err(InvalidArgument);
    }
    var f, primes := table.family, table.primes;
    var m: EliminationMap := map[];
    var i := 0;
    while i < |table.primeTables|
      invariant 0 <= i <= |primes|
      invariant forall ki, ni :: f.InRange(ki, ni) ==>
        Lookup(m, CandidateIndex(ki, ni)) == EliminationAt(f, primes[..i], ki, ni)
      invariant forall ki, ni, p :: f.InRange(ki, ni) && p in primes[..i] ==> !TooLargeFor(f, ki, ni, p)
    {
      assert TableFor(table.primeTables[i], f, primes[i]);
      var next := VisitTable(f, primes[..i], primes[i], table.primeTables[i].rules, m);
      if next.Err? {
        assert primes[i] in primes;
        return Err(next.error);
      }
      m := next.value;
      assert primes[..i + 1] == primes[..i] + [primes[i]];
      i := i + 1;
    }
    assert primes[..i] == primes;
    var list := InKeyOrder(f, primes, m);
    return Ok(list);
  }

  /** Compile, validate and apply: the compiled path returns what the scalar path returns. */
  method CompiledEqualsScalar(f: AffineExponentialFamily, primes: seq<u64>, periodMultiplier: u64)
    returns (compiled: Result<seq<Elimination>, Exception>, scalar: Result<seq<Elimination>, Exception>)
    requires TestDecides(primes) && f.Valid() && periodMultiplier > 0
    requires forall q :: q in primes ==> IsPrime(q) && !PeriodOverflows(f.base % q, q, periodMultiplier)
    ensures compiled == scalar
  {
    hide Compiled, ExactTable;
    var table := CompileCongruences(f, primes, periodMultiplier);
    var valid := ValidateCompiledTable(table.value);
    compiled := ApplyCompiledTable(table.value, valid);
    scalar := ScalarReferenceEliminations(f, primes);
  }
}
