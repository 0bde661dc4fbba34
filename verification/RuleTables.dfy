/** Flattening a compiled table into one list of rules, and why scanning that list
    finds the least listed prime that properly divides a candidate
    (src/family_sieve/family_sieve.cpp). */
module RuleTables {
  import opened NumberTheory
  import opened MachineArithmetic
  import opened Progressions
  import opened CompiledRules
  import opened Eliminations
  import opened SieveCells
  import opened Wrappers

  ghost function Flattened(tables: seq<PrimeRuleTable>): seq<ForbiddenRule> {
    if tables == [] then [] else Flattened(tables[..|tables| - 1]) + tables[|tables| - 1].rules
  }

  /** flatten_rules */
  method FlattenRules(tables: seq<PrimeRuleTable>) returns (rules: seq<ForbiddenRule>)
    ensures rules == Flattened(tables)
  {
    rules := [];
    var i := 0;
    while i < |tables|
      invariant 0 <= i <= |tables| && rules == Flattened(tables[..i])
    {
      assert tables[..i + 1][..i] == tables[..i];
      rules := rules + tables[i].rules;
      i := i + 1;
    }
    assert tables[..i] == tables;
  }

  lemma {:induction false} FlattenedPrefix(tables: seq<PrimeRuleTable>, i: nat)
    requires i < |tables|
    ensures Flattened(tables[..i]) + tables[i].rules <= Flattened(tables)
  {
    var last := |tables| - 1;
    if i < last {
      FlattenedPrefix(tables[..last], i);
      assert tables[..last][..i] == tables[..i];
    }
  }

  /** Every rule of the flattened list comes from some table. */
  lemma {:induction false} FlattenedSource(tables: seq<PrimeRuleTable>, j: nat) returns (i: nat, r: nat)
    requires j < |Flattened(tables)|
    ensures i < |tables| && r < |tables[i].rules| && Flattened(tables)[j] == tables[i].rules[r]
    ensures j == |Flattened(tables[..i])| + r
  {
    var last := |tables| - 1;
    var earlier := Flattened(tables[..last]);
    if j < |earlier| {
      i, r := FlattenedSource(tables[..last], j);
      assert tables[..last][..i] == tables[..i];
    } else {
      i, r := last, j - |earlier|;
    }
  }

  ghost predicate TablesFor(tables: seq<PrimeRuleTable>, f: AffineExponentialFamily, primes: seq<u64>) {
    && Ascending(primes) && AllPrime(primes) && |tables| == |primes|
    && forall i :: 0 <= i < |primes| ==> TableFor(tables[i], f, primes[i])
  }

  lemma {:induction false} EarlierTable(tables: seq<PrimeRuleTable>, j: nat, i: nat)
    requires j < i <= |tables|
    ensures |Flattened(tables[..j])| + |tables[j].rules| <= |Flattened(tables[..i])|
    decreases i
  {
    assert tables[..i][..i - 1] == tables[..i - 1];
    if j < i - 1 {
      EarlierTable(tables, j, i - 1);
    }
  }

  lemma FlattenedInTableOrder(tables: seq<PrimeRuleTable>, a: nat, b: nat) returns (i: nat, j: nat)
    requires a < b < |Flattened(tables)|
    ensures i <= j < |tables| && Flattened(tables)[a] in tables[i].rules && Flattened(tables)[b] in tables[j].rules
  {
    var ra, rb;
    i, ra := FlattenedSource(tables, a);
    j, rb := FlattenedSource(tables, b);
    if j < i {
      EarlierTable(tables, j, i);
    }
  }

  /** The flattened rules run through the primes in ascending order. */
  lemma FlattenedOrdered(tables: seq<PrimeRuleTable>, f: AffineExponentialFamily, primes: seq<u64>)
    requires TablesFor(tables, f, primes)
    ensures Structures(Flattened(tables)).Ordered()
  {
    var rules := Flattened(tables);
    forall a | 0 <= a < |rules|
      ensures rules[a].WellFormed() && IsPrime(rules[a].prime)
    {
      var i, r := FlattenedSource(tables, a);
    }
    forall a, b | 0 <= a < b < |rules|
      ensures rules[a].prime <= rules[b].prime
    {
      var i, j := FlattenedInTableOrder(tables, a, b);
    }
  }

  // ----- what a complete scan finds

  lemma {:induction false} FoundIsLeast(checks: Checks, n: nat, f: AffineExponentialFamily, ki: int, ni: int, i: nat)
    requires checks.Ordered() && i < n <= checks.Count() && f.InRange(ki, ni) && checks.Eliminates(i, f, ki, ni)
    ensures checks.Found(n, f, ki, ni).Some? && checks.Found(n, f, ki, ni).value <= checks.Prime(i)
  {
    if i < n - 1 {
      FoundIsLeast(checks, n - 1, f, ki, ni, i);
    } else if checks.Found(n - 1, f, ki, ni).Some? {
      FoundBounded(checks, n - 1, f, ki, ni);
    }
  }

  /** The verdict every complete scan must reach. */
  function Verdict(f: AffineExponentialFamily, primes: seq<u64>, ki: nat, ni: nat): (r: Option<u64>)
    requires f.InRange(ki, ni)
    ensures r.Some? ==> r.value in primes && f.Admissible(ki, ni) && ProperFactor(f.Candidate(ki, ni), r.value)
  {
    if f.Admissible(ki, ni) then FirstProper(primes, f.Candidate(ki, ni)) else None
  }

  /** The checks examine every listed prime wherever it divides, and nothing else. */
  ghost predicate Complete(checks: Checks, f: AffineExponentialFamily, primes: seq<u64>)
    requires checks.WellFormed()
  {
    && (forall i :: 0 <= i < checks.Count() ==> checks.Prime(i) in primes)
    && (forall ki, ni, q ::
      (f.InRange(ki, ni) && f.Admissible(ki, ni) && q in primes && q > 0 && Divides(q, f.Candidate(ki, ni))) ==>
        Examined(checks, f, ki, ni, q))
  }

  ghost predicate Examined(checks: Checks, f: AffineExponentialFamily, ki: int, ni: int, q: u64)
    requires checks.WellFormed() && f.InRange(ki, ni)
  {
    exists i :: 0 <= i < checks.Count() && checks.Prime(i) == q && checks.Matches(i, f, ki, ni)
  }

  lemma FoundIsVerdict(checks: Checks, f: AffineExponentialFamily, primes: seq<u64>, ki: nat, ni: nat)
    requires checks.Ordered() && Ascending(primes) && Complete(checks, f, primes) && f.InRange(ki, ni)
    ensures checks.Found(checks.Count(), f, ki, ni) == Verdict(f, primes, ki, ni)
  {
    var found, verdict := checks.Found(checks.Count(), f, ki, ni), Verdict(f, primes, ki, ni);
    if verdict.Some? {
      assert Examined(checks, f, ki, ni, verdict.value);
      var i :| 0 <= i < checks.Count() && checks.Prime(i) == verdict.value && checks.Matches(i, f, ki, ni);
      FoundIsLeast(checks, checks.Count(), f, ki, ni, i);
    }
    if found.Some? {
      FirstIsLeast(primes, f.Candidate(ki, ni), found.value);
    }
  }

  lemma EveryPrimeComplete(f: AffineExponentialFamily, primes: seq<u64>)
    requires Ascending(primes) && AllPrime(primes)
    ensures EveryPrime(primes).Ordered() && Complete(EveryPrime(primes), f, primes)
  {
    forall ki, ni, q | f.InRange(ki, ni) && f.Admissible(ki, ni) && q in primes && q > 0
      && Divides(q, f.Candidate(ki, ni))
      ensures Examined(EveryPrime(primes), f, ki, ni, q)
    {
      var i :| 0 <= i < |primes| && primes[i] == q;
      assert EveryPrime(primes).Prime(i) == q;
    }
  }

  lemma StructuresComplete(tables: seq<PrimeRuleTable>, f: AffineExponentialFamily, primes: seq<u64>)
    requires TablesFor(tables, f, primes)
    ensures Structures(Flattened(tables)).Ordered() && Complete(Structures(Flattened(tables)), f, primes)
  {
    FlattenedOrdered(tables, f, primes);
    var rules := Flattened(tables);
    forall a | 0 <= a < |rules|
      ensures rules[a].prime in primes
    {
      var i, r := FlattenedSource(tables, a);
    }
    forall ki, ni, q | f.InRange(ki, ni) && f.Admissible(ki, ni) && q in primes && q > 0
      && Divides(q, f.Candidate(ki, ni))
      ensures Examined(Structures(rules), f, ki, ni, q)
    {
      var i :| 0 <= i < |primes| && primes[i] == q;
      assert TableFor(tables[i], f, q);
      var r :| 0 <= r < |tables[i].rules| && tables[i].rules[r].WellFormed() && tables[i].rules[r].Matches(f, ki, ni);
      FlattenedPrefix(tables, i);
      var a := |Flattened(tables[..i])| + r;
      assert rules[a] == tables[i].rules[r] && Structures(rules).Prime(a) == q;
    }
  }

  lemma ColumnsComplete(c: RuleColumns, rules: seq<ForbiddenRule>, f: AffineExponentialFamily, primes: seq<u64>)
    requires ColumnsOfRules(c, rules) && Structures(rules).Ordered() && Complete(Structures(rules), f, primes)
    ensures Columns(c).Ordered() && Complete(Columns(c), f, primes)
  {
    assert forall i :: 0 <= i < |rules| ==> Columns(c).Prime(i) == Structures(rules).Prime(i);
    forall ki, ni, q | f.InRange(ki, ni) && f.Admissible(ki, ni) && q in primes && q > 0
      && Divides(q, f.Candidate(ki, ni))
      ensures Examined(Columns(c), f, ki, ni, q)
    {
      assert Examined(Structures(rules), f, ki, ni, q);
      var i :| 0 <= i < |rules| && Structures(rules).Prime(i) == q && Structures(rules).Matches(i, f, ki, ni);
      LayoutsAgree(c, rules, i, f, ki, ni);
      assert Columns(c).Prime(i) == q && Columns(c).Matches(i, f, ki, ni);
    }
  }
}
