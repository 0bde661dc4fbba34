/** Forbidden residue classes and their compilation for one prime: a rule of the
    table matches a candidate exactly when the prime divides it
    (src/congruence/compiler.cpp). */
module CompiledRules {
  import opened NumberTheory
  import opened FiniteProducts
  import opened Orders
  import opened MachineArithmetic
  import opened StrongTest
  import opened Progressions
  import opened Compiler
  import opened Wrappers

  datatype ExponentRuleScope = IndexCongruence | ExactExponent | PositiveExponents

  /** One Cartesian class over exponent index and k index; the rule's proof text is not modelled. */
  datatype ForbiddenRule = ForbiddenRule(
    prime: u64, scope: ExponentRuleScope,
    exponentIndexResidue: u64, exponentIndexModulus: u64, exactExponent: i64,
    kIndexResidue: u64, kIndexModulus: u64,
    forbiddenKResidue: u64, powerResidue: u64)
  {
    predicate WellFormed() {
      && exponentIndexModulus > 0 && exponentIndexResidue < exponentIndexModulus
      && kIndexModulus > 0 && kIndexResidue < kIndexModulus
    }

    predicate MatchesExponent(f: AffineExponentialFamily, ni: int)
      requires WellFormed()
    {
      match scope
      case ExactExponent => f.n.At(ni) == exactExponent
      case PositiveExponents => f.n.At(ni) > 0
      case IndexCongruence => ni % exponentIndexModulus == exponentIndexResidue
    }

    /** rule_matches of the family sieve. */
    predicate Matches(f: AffineExponentialFamily, ki: int, ni: int)
      requires WellFormed()
    {
      MatchesExponent(f, ni) && ki % kIndexModulus == kIndexResidue
    }
  }

  datatype PeriodEntry = PeriodEntry(
    prime: u64, baseInvertible: bool, constantDivisible: bool,
    multiplicativeOrder: u64, selectedPeriod: u64, exponentIndexPeriod: u64)

  datatype PrimeRuleTable = PrimeRuleTable(period: PeriodEntry, rules: seq<ForbiddenRule>)

  ghost predicate Hits(rules: seq<ForbiddenRule>, f: AffineExponentialFamily, ki: int, ni: int) {
    exists i :: 0 <= i < |rules| && rules[i].WellFormed() && rules[i].Matches(f, ki, ni)
  }

  ghost predicate RulesOf(rules: seq<ForbiddenRule>, prime: u64) {
    forall i :: 0 <= i < |rules| ==> rules[i].WellFormed() && rules[i].prime == prime
  }

  /** The promise of a compiled table: its rules match exactly the multiples of its prime. */
  ghost predicate Exact(rules: seq<ForbiddenRule>, f: AffineExponentialFamily, prime: u64)
    requires prime > 0
  {
    forall ki, ni :: f.InRange(ki, ni) ==> (Hits(rules, f, ki, ni) <==> Divides(prime, f.Candidate(ki, ni)))
  }

  lemma HitsAppend(rules: seq<ForbiddenRule>, rule: ForbiddenRule, f: AffineExponentialFamily, ki: int, ni: int)
    requires rule.WellFormed()
    ensures Hits(rules + [rule], f, ki, ni) <==> Hits(rules, f, ki, ni) || rule.Matches(f, ki, ni)
  {
    var longer := rules + [rule];
    if i :| 0 <= i < |rules| && rules[i].WellFormed() && rules[i].Matches(f, ki, ni) {
      assert longer[i] == rules[i];
    }
    assert longer[|rules|] == rule;
    if i :| 0 <= i < |longer| && longer[i].WellFormed() && longer[i].Matches(f, ki, ni) {
      assert i < |rules| ==> longer[i] == rules[i];
    }
  }

  // ----- solving linear congruences

  lemma InverseCorrect(p: int, v: int)
    requires IsPrime(p) && !Divides(p, v)
    ensures Cong(v * (Pow(v, p - 2) % p), 1, p)
  {
    Fermat(p, v);
    assert Pow(v, p - 1) == v * Pow(v, p - 2);
    ModSelf(Pow(v, p - 2), p);
    CongMul(v, v, Pow(v, p - 2) % p, Pow(v, p - 2), p);
  }

  function FermatInverse(value: u64, prime: u64): (r: u64)
    requires prime > 1
    ensures r < prime
  {
    Pow(value, prime - 2) % prime
  }

  /** modular_inverse_prime: Fermat's inverse, refusing a zero residue or a rejected modulus. */
  method ModularInversePrime(value: u64, prime: u64) returns (r: Result<u64, Exception>)
    requires IsPrime(prime)
    ensures value == 0 ==> r == Err(InvalidArgument)
    ensures 0 < value < prime ==> r.Ok? && r.value < prime && Cong(value * r.value, 1, prime)
    ensures 0 < value < prime ==> r.value == FermatInverse(value, prime)
  {
    if value == 0 {
      return Err(InvalidArgument);
    }
    var accepted := IsPrimeU64(prime);
    if !accepted {
      return Err(InvalidArgument);
    }
    var power := PowerModulo(value, prime - 2, prime);
    if value < prime {
      DivModUnique(value, prime, 0, value);
      InverseCorrect(prime, value);
    }
    return Ok(power);
  }

  // ----- one k class

  datatype KClass = KClass(found: bool, residue: u64, modulus: u64)

  /** The class as the residues determine it. */
  function KClassOf(k: Progression, target: u64, prime: u64): KClass
    requires k.Valid() && prime > 1 && target < prime
  {
    var step, minimum := k.step % prime, Normalize(k.minimum, prime);
    if step == 0 then KClass(minimum == target, 0, 1)
    else
      var residue := MultiplyMod(SubtractMod(target, minimum, prime), FermatInverse(step, prime), prime);
      KClass(residue < k.Count(), residue, prime)
  }

  /** k_index_class: the k indices whose member is congruent to the target form
      one residue class, possibly everything or nothing. */
  method KIndexClass(k: Progression, target: u64, prime: u64) returns (r: KClass)
    requires k.Valid() && IsPrime(prime) && target < prime
    ensures r.found ==> r.modulus > 0 && r.residue < r.modulus
    ensures r.found ==> forall ki :: 0 <= ki < k.Count() ==>
      (ki % r.modulus == r.residue <==> Cong(k.At(ki), target, prime))
    ensures !r.found ==> forall ki :: 0 <= ki < k.Count() ==> !Cong(k.At(ki), target, prime)
    ensures r == KClassOf(k, target, prime)
  {
    hide FermatInverse;
    var step := k.step % prime;
    var minimum := Normalize(k.minimum, prime);
    ModSelf(target, prime);
    ModSelf(k.step, prime);
    if step == 0 {
      forall ki | 0 <= ki < k.Count()
        ensures Cong(k.At(ki), target, prime) <==> minimum == target
      {
        StepVanishes(prime, k.minimum, ki, k.step);
      }
      if minimum != target {
        return KClass(false, 0, 1);
      }
      return KClass(true, 0, 1);
    }
    var inverse := ModularInversePrime(step, prime);
    var residue := MultiplyMod(SubtractMod(target, minimum, prime), inverse.value, prime);
    forall ki | 0 <= ki < k.Count()
      ensures Cong(k.At(ki), target, prime) <==> ki % prime == residue
    {
      StepInvertible(prime, k.minimum, ki, k.step, inverse.value, target);
    }
    if residue >= k.Count() {
      forall ki | 0 <= ki < k.Count()
        ensures ki % prime != residue
      {
        ModAtMost(ki, prime);
      }
    }
    return KClass(residue < k.Count(), residue, prime);
  }

  lemma ModAtMost(x: nat, m: int)
    requires m > 0
    ensures x % m <= x
  {
    QuotientBounds(x, m);
    assert x == m * (x / m) + x % m;
  }

  lemma StepVanishes(p: int, minimum: int, ki: int, step: int)
    requires p > 0 && step % p == 0
    ensures Cong(minimum + ki * step, minimum, p)
  {
    var q := DividesWitness(p, step);
    assert ki * (q * p) == (ki * q) * p;
    DividesMultiple(p, ki * q);
    CongIffDivides(minimum + ki * step, minimum, p);
  }

  lemma ReducedTarget(p: int, minimum: int, inverse: int, target: int)
    requires p > 0
    ensures (((target - minimum % p) % p) * inverse) % p == ((target - minimum) * inverse) % p
  {
    ModSelf(minimum, p);
    CongAdd(target, target, minimum % p, minimum, p);
    ModSelf(target - minimum % p, p);
    CongMul((target - minimum % p) % p, target - minimum, inverse, inverse, p);
  }

  lemma ReducedInverse(p: int, step: int, inverse: int)
    requires p > 0 && Cong((step % p) * inverse, 1, p)
    ensures Cong(step * inverse, 1, p)
  {
    ModSelf(step, p);
    CongMul(step % p, step, inverse, inverse, p);
  }

  lemma StepInvertible(p: int, minimum: int, ki: int, step: int, inverse: int, target: int)
    requires p > 0 && Cong((step % p) * inverse, 1, p)
    ensures Cong(minimum + ki * step, target, p) <==> ki % p == (((target - minimum % p) % p) * inverse) % p
  {
    ReducedTarget(p, minimum, inverse, target);
    ReducedInverse(p, step, inverse);
    CongMove(p, minimum, ki * step, target);
    SolveLinear(p, step, inverse, ki, target - minimum);
    assert ki * step == step * ki;
  }

  // ----- adding rules

  /** The rule for a target residue of k, unless no k index has it. */
  function ClassRule(f: AffineExponentialFamily, prime: u64, scope: ExponentRuleScope, residue: u64, modulus: u64,
    exact: i64,
                     target: u64, power: u64): seq<ForbiddenRule>
    requires f.Valid() && prime > 1 && target < prime
  {
    var c := KClassOf(f.k, target, prime);
    if c.found then [ForbiddenRule(prime, scope, residue, modulus, exact, c.residue, c.modulus, target, power)] else []
  }

  /** add_rule: the exponents the scope selects, with k congruent to the target. */
  method AddRule(f: AffineExponentialFamily, prime: u64, rules: seq<ForbiddenRule>,
                 scope: ExponentRuleScope, residue: u64, modulus: u64, exact: i64, target: u64, power: u64)
    returns (extended: seq<ForbiddenRule>, ghost model: ForbiddenRule)
    requires f.Valid() && IsPrime(prime) && target < prime && residue < modulus && RulesOf(rules, prime)
    ensures RulesOf(extended, prime) && model.WellFormed()
    ensures model.scope == scope && model.exponentIndexResidue == residue
    ensures model.exponentIndexModulus == modulus && model.exactExponent == exact
    ensures forall ki, ni :: f.InRange(ki, ni) ==> (Hits(extended, f, ki, ni) <==>
      Hits(rules, f, ki, ni) || (model.MatchesExponent(f, ni) && Cong(f.k.At(ki), target, prime)))
    ensures extended == rules + ClassRule(f, prime, scope, residue, modulus, exact, target, power)
  {
    hide KClassOf;
    assert rules + [] == rules;
    var class_ := KIndexClass(f.k, target, prime);
    model := ForbiddenRule(prime, scope, residue, modulus, exact, 0, 1, target, power);
    if !class_.found {
      return rules, model;
    }
    var rule := ForbiddenRule(prime, scope, residue, modulus, exact, class_.residue, class_.modulus, target, power);
    extended := rules + [rule];
    forall ki, ni | f.InRange(ki, ni)
      ensures Hits(extended, f, ki, ni) <==>
        Hits(rules, f, ki, ni) || (model.MatchesExponent(f, ni) && Cong(f.k.At(ki), target, prime))
    {
      HitsAppend(rules, rule, f, ki, ni);
    }
  }

  /** add_all_k_rule: the exponents the scope selects, with every k. */
  method AddAllKRule(f: AffineExponentialFamily, prime: u64, rules: seq<ForbiddenRule>, scope: ExponentRuleScope,
                     residue: u64, modulus: u64, exact: i64)
    returns (extended: seq<ForbiddenRule>, ghost model: ForbiddenRule)
    requires residue < modulus && RulesOf(rules, prime)
    ensures RulesOf(extended, prime) && model.WellFormed()
    ensures model.scope == scope && model.exponentIndexResidue == residue
    ensures model.exponentIndexModulus == modulus && model.exactExponent == exact
    ensures forall ki, ni :: f.InRange(ki, ni) ==>
      (Hits(extended, f, ki, ni) <==> Hits(rules, f, ki, ni) || model.MatchesExponent(f, ni))
    ensures extended == rules + [ForbiddenRule(prime, scope, residue, modulus, exact, 0, 1, 0, 0)]
  {
    var rule := ForbiddenRule(prime, scope, residue, modulus, exact, 0, 1, 0, 0);
    model := rule;
    extended := rules + [rule];
    forall ki, ni | f.InRange(ki, ni)
      ensures Hits(extended, f, ki, ni) <==> Hits(rules, f, ki, ni) || model.MatchesExponent(f, ni)
    {
      HitsAppend(rules, rule, f, ki, ni);
      DivModUnique(ki, 1, ki, 0);
    }
  }

  // ----- a prime that divides the base

  lemma BaseVanishes(p: int, b: int, e: nat, k: int, c: int)
    requires p > 0 && Divides(p, b) && e > 0
    ensures Divides(p, k * Pow(b, e) + c) <==> Divides(p, c)
  {
    DividesLinear(p, b, b, k * Pow(b, e - 1), 0);
    assert (k * Pow(b, e - 1)) * b + 0 * b == k * Pow(b, e) by {
      assert (k * Pow(b, e - 1)) * b == k * (Pow(b, e - 1) * b);
    }
    ModAdd(k * Pow(b, e), c, p);
    ModSelf(c, p);
  }

  lemma NegatedConstant(p: int, c: int)
    requires p > 0
    ensures Cong(if c % p == 0 then 0 else p - c % p, -c, p)
  {
    var r := c % p;
    assert c == p * (c / p) + r;
    var t := if r == 0 then 0 else p - r;
    assert t - -c == ((if r == 0 then 0 else 1) + c / p) * p;
    DividesMultiple(p, (if r == 0 then 0 else 1) + c / p);
    CongIffDivides(t, -c, p);
  }

  lemma ExponentZero(p: int, b: int, k: int, c: int, target: int)
    requires p > 0 && Cong(target, -c, p)
    ensures Divides(p, k * Pow(b, 0) + c) <==> Cong(k, target, p)
  {
    assert k * Pow(b, 0) == k;
    CongIffDivides(k, -c, p);
  }

  /** The residue of the negated constant. */
  function NegatedResidue(constant: int, prime: u64): (r: u64)
    requires prime > 1
    ensures r < prime
  {
    if constant % prime == 0 then 0 else prime - constant % prime
  }

  /** The rules of a prime that divides the base. */
  function DivisorRules(f: AffineExponentialFamily, prime: u64): seq<ForbiddenRule>
    requires f.Valid() && prime > 1
  {
    (if f.n.Contains(0) then ClassRule(f, prime, ExactExponent, 0, 1, 0, NegatedResidue(f.constant, prime), 1) else [])
    + (if f.n.maximum > 0 && f.constant % prime == 0 then [ForbiddenRule(prime, PositiveExponents, 0, 1, 0, 0, 1, 0, 0)]
      else [])
  }

  method CompileDivisorOfBase(f: AffineExponentialFamily, prime: u64) returns (rules: seq<ForbiddenRule>)
    requires f.Valid() && IsPrime(prime) && Divides(prime, f.base)
    ensures RulesOf(rules, prime) && Exact(rules, f, prime) && rules == DivisorRules(f, prime)
  {
    hide ClassRule;
    var constant := Normalize(f.constant, prime);
    rules := [];
    ghost var zero, positive;
    NegatedConstant(prime, f.constant);
    var target: u64 := if constant == 0 then 0 else prime - constant;
    var hasZero := f.n.Contains(0);
    if hasZero {
      rules, zero := AddRule(f, prime, rules, ExactExponent, 0, 1, 0, target, 1);
    }
    ghost var before := rules;
    var addPositive := f.n.maximum > 0 && constant == 0;
    if addPositive {
      rules, positive := AddAllKRule(f, prime, rules, PositiveExponents, 0, 1, 0);
    }
    forall ki, ni | f.InRange(ki, ni)
      ensures Hits(rules, f, ki, ni) <==> Divides(prime, f.Candidate(ki, ni))
    {
      ContainsMembers(f.n, ni);
      var e := f.Exponent(ni);
      if e == 0 {
        ExponentZero(prime, f.base, f.k.At(ki), f.constant, target);
      } else {
        BaseVanishes(prime, f.base, e, f.k.At(ki), f.constant);
      }
    }
  }

  // ----- a prime that does not divide the base

  /** Euclid's algorithm, as std::gcd computes it. */
  function Gcd(a: nat, b: nat): (g: nat)
    requires a > 0 || b > 0
    ensures g > 0 && Divides(g, a) && Divides(g, b)
    decreases b
  {
    if b == 0 then DivModUnique(a, a, 1, 0); DivModUnique(0, a, 0, 0); a
    else
      var g := Gcd(b, a % b);
      GcdStep(g, a, b);
      g
  }

  lemma GcdStep(g: int, a: int, b: int)
    requires g > 0 && b > 0 && Divides(g, b) && Divides(g, a % b)
    ensures Divides(g, a)
  {
    DividesLinear(g, b, a % b, a / b, 1);
    assert a == (a / b) * b + 1 * (a % b);
  }

  lemma PowReduceExponent(b: int, p: int, d: nat, e: nat)
    requires p > 0 && d > 0 && Cong(Pow(b, d), 1, p)
    ensures e % d >= 0 && Cong(Pow(b, e), Pow(b, e % d), p)
  {
    QuotientBounds(e, d);
    PowPeriodic(b, p, d, e / d, e % d);
    assert e == (e / d) * d + e % d;
  }

  lemma PowCongExponent(b: int, p: int, d: nat, e1: nat, e2: nat)
    requires p > 0 && d > 0 && Cong(Pow(b, d), 1, p) && Cong(e1, e2, d)
    ensures Cong(Pow(b, e1), Pow(b, e2), p)
  {
    PowReduceExponent(b, p, d, e1);
    PowReduceExponent(b, p, d, e2);
  }

  lemma MultipleOfPeriod(m: int, g: int, t: int, s: int, index: int, ni: int, step: int)
    requires m > 0 && g > 0 && m * g > 0 && step == s * g && ni - index == t * m
    ensures Cong(ni * step, index * step, m * g)
  {
    assert ni * step - index * step == (ni - index) * step;
    assert (t * m) * (s * g) == (t * s) * (m * g) by {
      MulShuffle(t, m, s, g);
      MulShuffle(t, s, m, g);
    }
    DividesMultiple(m * g, t * s);
    CongIffDivides(ni * step, index * step, m * g);
  }

  /** Indices in one class of the reduced period have exponents in one class of the period. */
  lemma IndexClassPeriod(period: nat, step: int, index: int, ni: int)
    requires period > 0 && step >= 0
    requires var g := Gcd(period, step % period); period / g > 0 && Cong(ni, index, period / g)
    ensures Cong(ni * step, index * step, period)
  {
    var g := Gcd(period, step % period);
    GcdStep(g, step, period);
    var s := DividesWitness(g, step);
    var m := DividesWitness(g, period);
    CongIffDivides(ni, index, m);
    var t := DividesWitness(m, ni - index);
    MultipleOfPeriod(m, g, t, s, index, ni, step);
  }

  /** The residue the compiler computes for the exponent of an index class. */
  lemma ExponentResidue(period: nat, minimum: nat, step: nat, index: nat)
    requires period > 0
    ensures Cong((minimum % period + ((index % period) * (step % period)) % period) % period, minimum
      + index * step, period)
  {
    ModMul(index, step, period);
    ModAdd(minimum, index * step, period);
    ModSelf(minimum + index * step, period);
  }

  /** With an invertible power, divisibility is one congruence on k. */
  lemma DivisibleIffTarget(p: int, k: int, power: int, inverse: int, c: int, negated: int, value: int)
    requires p > 0 && Cong(power * inverse, 1, p) && Cong(negated, -c, p) && Cong(value, k * power + c, p)
    ensures Divides(p, value) <==> Cong(k, (negated * inverse) % p, p)
  {
    ModSelf(negated * inverse, p);
    ModSelf(0, p);
    DivModUnique(0, p, 0, 0);
    CongMove(p, c, k * power, 0);
    CongIffDivides(value, 0, p);
    assert power * k == k * power && c + k * power == k * power + c;
    SolveLinear(p, power, inverse, k, negated);
  }

  lemma ValueByPower(p: int, k: int, b: int, e: nat, power: int, c: int)
    requires p > 0 && Cong(Pow(b, e), power, p)
    ensures Cong(k * Pow(b, e) + c, k * power + c, p)
  {
    CongMul(k, k, Pow(b, e), power, p);
    CongAdd(k * Pow(b, e), k * power, c, c, p);
  }

  /** Every exponent of an index class gives the power the compiler computed for it. */
  lemma ClassPower(f: AffineExponentialFamily, p: nat, order: nat, period: nat, index: nat, ni: int, exponent: nat)
    requires f.Valid() && p > 0 && order > 0 && Cong(Pow(f.base % p, order), 1, p)
    requires period > 0 && Divides(order, period) && 0 <= ni < f.n.Count()
    requires var g := Gcd(period, f.n.step % period); period / g > 0 && Cong(ni, index, period / g)
    requires exponent == (f.n.minimum % period + ((index % period) * (f.n.step % period)) % period) % period
    ensures Cong(Pow(f.base, f.Exponent(ni)), Pow(f.base % p, exponent), p)
  {
    var e := f.Exponent(ni);
    IndexClassPeriod(period, f.n.step, index, ni);
    CongAdd(f.n.minimum, f.n.minimum, ni * f.n.step, index * f.n.step, period);
    ExponentResidue(period, f.n.minimum, f.n.step, index);
    CongDivisor(e, exponent, period, order);
    PowCongExponent(f.base % p, p, order, e, exponent);
    PowMod(f.base, e, p);
  }

  /** The part of exactness that concerns the index classes below a bound. */
  ghost predicate ExactBelow(rules: seq<ForbiddenRule>, f: AffineExponentialFamily, prime: u64, period: nat, bound: nat)
    requires prime > 0 && period > 0
  {
    forall ki, ni :: f.InRange(ki, ni) ==>
      (Hits(rules, f, ki, ni) <==> ni % period < bound && Divides(prime, f.Candidate(ki, ni)))
  }

  /** The rule of one exponent index class. */
  function IndexRule(f: AffineExponentialFamily, prime: u64, period: u64, indexPeriod: u64,
    index: u64): seq<ForbiddenRule>
    requires f.Valid() && prime > 1 && period > 0
  {
    var exponent := AddMod(f.n.minimum % period, MultiplyMod(index % period, f.n.step % period, period), period);
    var power: u64 := Pow(Normalize(f.base, prime), exponent) % prime;
    var target := MultiplyMod(NegatedResidue(f.constant, prime), FermatInverse(power, prime), prime);
    ClassRule(f, prime, IndexCongruence, index, indexPeriod, 0, target, power)
  }

  /** The rules of the first index classes. */
  function IndexRules(f: AffineExponentialFamily, prime: u64, period: u64, indexPeriod: u64,
    bound: u64): seq<ForbiddenRule>
    requires f.Valid() && prime > 1 && period > 0
  {
    if bound == 0 then []
    else IndexRules(f, prime, period, indexPeriod, bound - 1) + IndexRule(f, prime, period, indexPeriod, bound - 1)
  }

  /** The table of a prime, given the order of the base when it is invertible. */
  function TableOf(f: AffineExponentialFamily, prime: u64, order: u64, period: u64): PrimeRuleTable
    requires f.Valid() && prime > 1 && period > 0
  {
    var constantDivisible := f.constant % prime == 0;
    if f.base % prime ==
      0 then PrimeRuleTable(PeriodEntry(prime, false, constantDivisible, 0, 0, 0), DivisorRules(f, prime))
    else
      var divisor := Gcd(period, f.n.step % period);
      QuotientDivides(period, divisor);
      QuotientBounds(period, divisor);
      var indexPeriod: u64 := period / divisor;
      var bound := if indexPeriod < f.n.Count() then indexPeriod else f.n.Count();
      PrimeRuleTable(PeriodEntry(prime, true, constantDivisible, order, period, indexPeriod),
                     IndexRules(f, prime, period, indexPeriod, bound))
  }

  /** The table compile_prime makes: the order is the base's. */
  ghost predicate CompiledTableOf(t: PrimeRuleTable, f: AffineExponentialFamily, prime: u64, periodMultiplier: u64)
    requires f.Valid() && prime > 1
  {
    if f.base % prime == 0 then t == TableOf(f, prime, 1, 1)
    else
      var order, period := t.period.multiplicativeOrder, t.period.selectedPeriod;
      IsOrder(f.base % prime, prime, order) && period == order * periodMultiplier && period > 0
        && t == TableOf(f, prime, order, period)
  }

  /** No power of a multiple of the prime is one. */
  lemma NoOrderOfZero(base: int, prime: u64, order: int)
    requires prime > 1 && base % prime == 0
    ensures !IsOrder(base % prime, prime, order)
  {
    if order > 0 {
      assert Pow(0, order) == 0 * Pow(0, order - 1);
    }
  }

  /** Where a table was compiled the period did not overflow. */
  lemma CompiledFits(t: PrimeRuleTable, f: AffineExponentialFamily, prime: u64, periodMultiplier: u64)
    requires f.Valid() && prime > 1 && CompiledTableOf(t, f, prime, periodMultiplier)
    ensures !PeriodOverflows(f.base % prime, prime, periodMultiplier)
  {
    hide TableOf, IsOrder;
    forall order | IsOrder(f.base % prime, prime, order)
      ensures order * periodMultiplier <= MAX_U64
    {
      if f.base % prime == 0 {
        NoOrderOfZero(f.base, prime, order);
      } else {
        OrderPositive(f.base % prime, prime, order);
        OrderUnique(f.base % prime, prime, t.period.multiplicativeOrder, order);
      }
    }
  }

  lemma OrderPositive(b: int, p: int, d: int)
    requires p > 0 && IsOrder(b, p, d)
    ensures d > 0
  {
  }

  lemma CompiledOnce(t: PrimeRuleTable, u: PrimeRuleTable, f: AffineExponentialFamily, prime: u64,
                     periodMultiplier: u64)
    requires f.Valid() && prime > 1
    requires CompiledTableOf(t, f, prime, periodMultiplier) && CompiledTableOf(u, f, prime, periodMultiplier)
    ensures t == u
  {
    hide TableOf;
    if f.base % prime != 0 {
      OrderUnique(f.base % prime, prime, t.period.multiplicativeOrder, u.period.multiplicativeOrder);
    }
  }

  /** One index class: its power, the k residue it forbids, and the rule for it. */
  method CompileIndexClass(f: AffineExponentialFamily, prime: u64, rules: seq<ForbiddenRule>,
                           order: u64, period: u64, indexPeriod: u64, index: u64)
    returns (extended: seq<ForbiddenRule>)
    requires f.Valid() && IsPrime(prime) && !Divides(prime, f.base)
    requires order > 0 && Cong(Pow(f.base % prime, order), 1, prime) && period > 0 && Divides(order, period)
    requires indexPeriod > 0 && indexPeriod == period / Gcd(period, f.n.step % period)
    requires index < indexPeriod && index < f.n.Count()
    requires RulesOf(rules, prime) && ExactBelow(rules, f, prime, indexPeriod, index)
    ensures RulesOf(extended, prime) && ExactBelow(extended, f, prime, indexPeriod, index + 1)
    ensures extended == rules + IndexRule(f, prime, period, indexPeriod, index)
  {
    hide ClassRule, FermatInverse;
    var base := Normalize(f.base, prime);
    var constant := Normalize(f.constant, prime);
    var offset := MultiplyMod(index % period, f.n.step % period, period);
    var exponent := AddMod(f.n.minimum % period, offset, period);
    var power := PowerModulo(base, exponent, prime);
    NegatedConstant(prime, f.constant);
    var negated: u64 := if constant == 0 then 0 else prime - constant;
    ModSelf(f.base, prime);
    PowNotDivisible(prime, base, exponent);
    ModSelf(Pow(base, exponent), prime);
    var inverse := ModularInversePrime(power, prime);
    var target := MultiplyMod(negated, inverse.value, prime);
    ghost var model;
    extended, model := AddRule(f, prime, rules, IndexCongruence, index, indexPeriod, 0, target, power);
    DivModUnique(index, indexPeriod, 0, index);
    forall ki, ni | f.InRange(ki, ni)
      ensures Hits(extended, f, ki, ni) <==> ni % indexPeriod < index + 1 && Divides(prime, f.Candidate(ki, ni))
    {
      if ni % indexPeriod == index {
        ClassPower(f, prime, order, period, index, ni, exponent);
        ValueByPower(prime, f.k.At(ki), f.base, f.Exponent(ni), power, f.constant);
        DivisibleIffTarget(prime, f.k.At(ki), power, inverse.value, f.constant, negated, f.Candidate(ki, ni));
      }
    }
  }

  lemma PeriodMultiple(order: nat, multiplier: nat)
    requires order > 0 && multiplier > 0
    ensures order * multiplier > 0 && Divides(order, order * multiplier)
    ensures order <= MAX_U64 / multiplier <==> order * multiplier <= MAX_U64
  {
    MulMonotone(order, 1, multiplier);
    DividesMultiple(order, multiplier);
    QuotientBounds(MAX_U64, multiplier);
    assert order * multiplier == multiplier * order;
    var q := MAX_U64 / multiplier;
    MulMonotone(multiplier, if order <= q then order else q + 1, if order <= q then q else order);
    assert multiplier * q == q * multiplier && multiplier * (q + 1) == (q + 1) * multiplier;
  }

  lemma AllClassesCovered(rules: seq<ForbiddenRule>, f: AffineExponentialFamily, prime: u64, period: nat, bound: nat)
    requires prime > 0 && period > 0 && f.Valid() && (bound >= period || bound >= f.n.Count())
    requires ExactBelow(rules, f, prime, period, bound)
    ensures Exact(rules, f, prime)
  {
    forall ki, ni | f.InRange(ki, ni)
      ensures Hits(rules, f, ki, ni) <==> Divides(prime, f.Candidate(ki, ni))
    {
      ModAtMost(ni, period);
    }
  }

  ghost predicate PeriodOverflows(base: int, prime: int, multiplier: int)
    requires prime > 0
  {
    exists order :: IsOrder(base, prime, order) && order * multiplier > MAX_U64
  }

  /** compile_prime: for every family and every period multiplier that does not
      overflow, the rules match exactly the candidates the prime divides. */
  method CompilePrime(f: AffineExponentialFamily, prime: u64, periodMultiplier: u64)
    returns (r: Result<PrimeRuleTable, Exception>)
    requires f.Valid() && IsPrime(prime)
    ensures r.Ok? ==> r.value.period.prime == prime && RulesOf(r.value.rules, prime) && Exact(r.value.rules, f, prime)
    ensures r.Ok? && !Divides(prime, f.base) ==>
      IsOrder(f.base % prime, prime, r.value.period.multiplicativeOrder)
    ensures r.Err? <==>
      !Divides(prime, f.base) && (periodMultiplier == 0 || PeriodOverflows(f.base % prime, prime, periodMultiplier))
    ensures r.Err? ==> r.error == InvalidArgument
    ensures r.Ok? ==> CompiledTableOf(r.value, f, prime, periodMultiplier)
  {
    hide IndexRule, DivisorRules;
    var base := Normalize(f.base, prime);
    var constant := Normalize(f.constant, prime);
    if base == 0 {
      var rules := CompileDivisorOfBase(f, prime);
      return Ok(PrimeRuleTable(PeriodEntry(prime, false, constant == 0, 0, 0, 0), rules));
    }
    ModSelf(f.base, prime);
    var order := MultiplicativeOrder(base, prime);
    forall other | IsOrder(base, prime, other)
      ensures other == order
    {
      OrderUnique(base, prime, order, other);
    }
    if periodMultiplier == 0 {
      return Err(InvalidArgument);
    }
    PeriodMultiple(order, periodMultiplier);
    if order > MAX_U64 / periodMultiplier {
      return Err(InvalidArgument);
    }
    var period: u64 := order * periodMultiplier;
    var divisor := Gcd(period, f.n.step % period);
    QuotientDivides(period, divisor);
    QuotientBounds(period, divisor);
    var indexPeriod: u64 := period / divisor;
    var rules := [];
    var index: u64 := 0;
    while index < indexPeriod && index < f.n.Count()
      invariant index <= indexPeriod
      invariant RulesOf(rules, prime) && ExactBelow(rules, f, prime, indexPeriod, index)
      invariant rules == IndexRules(f, prime, period, indexPeriod, index) && index <= f.n.Count()
    {
      rules := CompileIndexClass(f, prime, rules, order, period, indexPeriod, index);
      index := index + 1;
    }
    AllClassesCovered(rules, f, prime, indexPeriod, index);
    return Ok(PrimeRuleTable(PeriodEntry(prime, true, constant == 0, order, period, indexPeriod), rules));
  }

  lemma OrderUnique(b: int, p: int, d: nat, e: nat)
    requires p > 0 && IsOrder(b, p, d) && IsOrder(b, p, e)
    ensures d == e
  {
  }
}
