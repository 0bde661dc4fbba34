/** Premarking through a periodic template of the first few primes' residue
    classes (src/family_sieve/family_sieve.cpp). */
module CrtTemplate {
  import opened NumberTheory
  import opened MachineArithmetic
  import opened Progressions
  import opened CompiledRules
  import opened Eliminations
  import opened TableApplication
  import opened BoundedMagnitude
  import opened SieveCells
  import opened SieveScan
  import opened SieveLoops
  import opened RuleTables
  import opened SievePremark
  import opened Words
  import opened Wrappers

  predicate InClass(rule: ForbiddenRule, k: nat, n: nat)
    requires rule.WellFormed()
  {
    rule.scope == IndexCongruence && k % rule.kIndexModulus == rule.kIndexResidue
    && n % rule.exponentIndexModulus == rule.exponentIndexResidue
  }

  /** A template cell after a rule: the first prime to claim it keeps it. */
  function Claimed(cell: u64, rule: ForbiddenRule, k: nat, n: nat): u64
    requires rule.WellFormed()
  {
    if cell == 0 && InClass(rule, k, n) then rule.prime else cell
  }

  ghost predicate AllWellFormed(rules: seq<ForbiddenRule>) {
    forall i :: 0 <= i < |rules| ==> rules[i].WellFormed()
  }

  /** The first prime with an index class over (k, n), or 0. */
  ghost function FirstClass(rules: seq<ForbiddenRule>, k: nat, n: nat): u64
    requires AllWellFormed(rules)
  {
    if rules == [] then 0 else Claimed(FirstClass(rules[..|rules| - 1], k, n), rules[|rules| - 1], k, n)
  }

  lemma {:induction false} FirstClassFrom(rules: seq<ForbiddenRule>, k: nat, n: nat) returns (i: nat)
    requires AllWellFormed(rules) && FirstClass(rules, k, n) != 0
    ensures i < |rules| && rules[i].prime == FirstClass(rules, k, n) && InClass(rules[i], k, n)
  {
    var last := |rules| - 1;
    if FirstClass(rules[..last], k, n) != 0 {
      i := FirstClassFrom(rules[..last], k, n);
    } else {
      i := last;
    }
  }

  // ----- periods

  /** Euclid's algorithm gives the greatest common divisor as a combination. */
  lemma {:induction false} Bezout(a: nat, b: nat) returns (u: int, v: int)
    requires a > 0 || b > 0
    ensures Gcd(a, b) == u * a + v * b
    decreases b
  {
    if b == 0 {
      u, v := 1, 0;
    } else {
      var x, y := Bezout(b, a % b);
      u, v := y, x - (a / b) * y;
      BezoutStep(a, b, a / b, a % b, x, y);
    }
  }

  lemma BezoutStep(a: int, b: int, q: int, r: int, x: int, y: int)
    requires a == b * q + r
    ensures x * b + y * r == y * a + (x - q * y) * b
  {
    assert y * r == y * a - y * (b * q) && (x - q * y) * b == x * b - (q * y) * b;
    assert y * (b * q) == (q * y) * b;
  }

  /** Left over the greatest common divisor, times right, divides every common multiple. */
  lemma CommonMultiple(left: nat, right: nat, c: nat)
    requires left > 0 && right > 0 && left / Gcd(left, right) * right > 0 && Divides(left, c) && Divides(right, c)
    ensures Divides(left / Gcd(left, right) * right, c)
  {
    var g := Gcd(left, right);
    var a := DividesWitness(g, left);
    var x := DividesWitness(left, c);
    var y := DividesWitness(right, c);
    var u, v := Bezout(left, right);
    MultipleOf(left, right, c, g, a, x, y, u, v);
    DividesMultiple(a * right, u * y + v * x);
  }

  lemma MultipleOf(left: int, right: int, c: int, g: int, a: int, x: int, y: int, u: int, v: int)
    requires g > 0 && left == a * g && c == x * left && c == y * right && g == u * left + v * right
    ensures c == (u * y + v * x) * (a * right)
  {
    calc {
      c * g;
    == c * (u * left + v * right);
    == u * left * c + v * right * c;
    == u * left * (y * right) + v * right * (x * left);
    == { Shuffle(u, left, y, right); Shuffle(v, right, x, left); }
      (u * y) * (left * right) + (v * x) * (left * right);
    == (u * y + v * x) * (left * right);
    == { assert left * right == (a * right) * g by { assert a * g * right == (a * right) * g; } }
      (u * y + v * x) * ((a * right) * g);
    == ((u * y + v * x) * (a * right)) * g;
    }
    Cancel(c, (u * y + v * x) * (a * right), g);
  }

  lemma Shuffle(p: int, q: int, r: int, s: int)
    ensures p * q * (r * s) == (p * r) * (q * s) && p * q * (r * s) == (p * r) * (s * q)
  {
    assert p * q * (r * s) == p * (q * (r * s)) && q * (r * s) == r * (q * s);
    assert p * (r * (q * s)) == (p * r) * (q * s);
  }

  lemma Cancel(x: int, y: int, g: int)
    requires g > 0 && x * g == y * g
    ensures x == y
  {
    DivModUnique(x * g, g, x, 0);
    DivModUnique(y * g, g, y, 0);
  }

  /** bounded_lcm: the least common multiple, or 0 when none fits in a word. */
  function BoundedLcm(left: u64, right: u64): (r: u64)
    requires left > 0 && right > 0
    ensures r > 0 ==> Divides(left, r) && Divides(right, r)
    ensures r > 0 ==> forall c: nat :: Divides(left, c) && Divides(right, c) ==> Divides(r, c)
    ensures r == 0 ==> forall c: nat :: 0 < c <= MAX_U64 ==> !(Divides(left, c) && Divides(right, c))
  {
    var divisor := Gcd(left, right);
    LcmFits(left, right, divisor);
    LcmLeast(left, right, left / divisor * right);
    if left / divisor > MAX_U64 / right then 0 else left / divisor * right
  }

  lemma LcmLeast(left: u64, right: u64, m: nat)
    requires left > 0 && right > 0 && m == left / Gcd(left, right) * right && m > 0
    ensures forall c: nat :: Divides(left, c) && Divides(right, c) ==> Divides(m, c) && (c > 0 ==> m <= c)
  {
    LcmFits(left, right, Gcd(left, right));
    forall c: nat | Divides(left, c) && Divides(right, c)
      ensures Divides(m, c) && (c > 0 ==> m <= c)
    {
      CommonMultiple(left, right, c);
      if c > 0 {
        DividesLe(m, c);
      }
    }
  }

  lemma LcmFits(left: nat, right: nat, divisor: nat)
    requires left > 0 && right > 0 && divisor > 0 && Divides(divisor, left) && Divides(divisor, right)
    ensures 0 <= left / divisor && 0 < left / divisor * right
    ensures left / divisor <= MAX_U64 / right <==> left / divisor * right <= MAX_U64
    ensures Divides(left, left / divisor * right) && Divides(right, left / divisor * right)
  {
    var a := DividesWitness(divisor, left);
    var b := DividesWitness(divisor, right);
    DivModUnique(left, divisor, a, 0);
    assert a > 0 by {
      MulMonotone(divisor, a, if a > 0 then a else 0);
    }
    MulMonotone(right, 1, a);
    ProductFits(a, right, MAX_U64);
    DividesMultiple(right, a);
    DividesMultiple(left, b);
    assert a * right == b * left by {
      assert a * (b * divisor) == b * (a * divisor);
    }
  }

  /** Both moduli of every index class divide the periods. */
  ghost predicate Periodic(rules: seq<ForbiddenRule>, kPeriod: nat, nPeriod: nat) {
    forall i :: 0 <= i < |rules| && rules[i].WellFormed() && rules[i].scope == IndexCongruence ==>
      Divides(rules[i].kIndexModulus, kPeriod) && Divides(rules[i].exponentIndexModulus, nPeriod)
  }

  lemma PeriodicGrows(rules: seq<ForbiddenRule>, kPeriod: nat, nPeriod: nat, k: nat, n: nat)
    requires Periodic(rules, kPeriod, nPeriod) && kPeriod > 0 && nPeriod > 0 && Divides(kPeriod, k)
      && Divides(nPeriod, n)
    ensures Periodic(rules, k, n)
  {
    forall i | 0 <= i < |rules| && rules[i].WellFormed() && rules[i].scope == IndexCongruence
      ensures Divides(rules[i].kIndexModulus, k) && Divides(rules[i].exponentIndexModulus, n)
    {
      DividesTrans(rules[i].kIndexModulus, kPeriod, k);
      DividesTrans(rules[i].exponentIndexModulus, nPeriod, n);
    }
  }

  /** The template would fit in memory: cells times eight bytes within the limit. */
  predicate Fits(kPeriod: nat, nPeriod: nat, memoryLimit: u64) {
    kPeriod > 0 && nPeriod > 0 && kPeriod <= memoryLimit / 8 / nPeriod
  }

  predicate Small(kPeriod: nat, nPeriod: nat, memoryLimit: u64) {
    Fits(kPeriod, nPeriod, memoryLimit) || (kPeriod == 1 && nPeriod == 1)
  }

  /** Every pair of common periods is a pair of multiples of these. */
  ghost predicate LeastPeriods(rules: seq<ForbiddenRule>, kPeriod: nat, nPeriod: nat)
    requires kPeriod > 0 && nPeriod > 0
  {
    forall k: nat, n: nat :: k > 0 && n > 0 && Periodic(rules, k, n) ==> Divides(kPeriod, k) && Divides(nPeriod, n)
  }

  /** Some pair of common periods gives a template within the limit. */
  ghost predicate TemplateFits(rules: seq<ForbiddenRule>, memoryLimit: u64) {
    exists k: nat, n: nat :: k > 0 && n > 0 && Periodic(rules, k, n) && k * n * 8 <= memoryLimit
  }

  lemma PeriodicPrefix(rules: seq<ForbiddenRule>, more: seq<ForbiddenRule>, k: nat, n: nat)
    requires Periodic(rules + more, k, n)
    ensures Periodic(rules, k, n)
  {
    forall i | 0 <= i < |rules| && rules[i].WellFormed() && rules[i].scope == IndexCongruence
      ensures Divides(rules[i].kIndexModulus, k) && Divides(rules[i].exponentIndexModulus, n)
    {
      assert (rules + more)[i] == rules[i];
    }
  }

  lemma PeriodicLast(rules: seq<ForbiddenRule>, rule: ForbiddenRule, k: nat, n: nat)
    requires Periodic(rules + [rule], k, n) && rule.WellFormed() && rule.scope == IndexCongruence
    ensures Divides(rule.kIndexModulus, k) && Divides(rule.exponentIndexModulus, n)
  {
    assert (rules + [rule])[|rules|] == rule;
  }

  /** The least common multiples with a rule's moduli are least periods again, and when
      they are refused no template fits. */
  lemma NextPeriods(rules: seq<ForbiddenRule>, rule: ForbiddenRule, kPeriod: u64, nPeriod: u64, memoryLimit: u64)
    requires kPeriod > 0 && nPeriod > 0 && LeastPeriods(rules, kPeriod, nPeriod)
    requires rule.WellFormed() && rule.scope == IndexCongruence
    ensures var k, n := BoundedLcm(kPeriod, rule.kIndexModulus), BoundedLcm(nPeriod, rule.exponentIndexModulus);
      if k == 0 || n == 0 || k > memoryLimit / 8 / n then !TemplateFits(rules + [rule], memoryLimit)
      else LeastPeriods(rules + [rule], k, n)
  {
    hide Periodic, BoundedLcm;
    var k, n := BoundedLcm(kPeriod, rule.kIndexModulus), BoundedLcm(nPeriod, rule.exponentIndexModulus);
    forall x: nat, y: nat | x > 0 && y > 0 && Periodic(rules + [rule], x, y)
      ensures k > 0 ==> Divides(k, x)
      ensures n > 0 ==> Divides(n, y)
      ensures k == 0 || n == 0 || k > memoryLimit / 8 / n ==> x * y * 8 > memoryLimit
    {
      PeriodicPrefix(rules, [rule], x, y);
      PeriodicLast(rules, rule, x, y);
      if k == 0 || n == 0 {
        LargeProduct(x, y, memoryLimit);
      } else if k > memoryLimit / 8 / n {
        DividesLe(k, x);
        DividesLe(n, y);
        SmallerFits(k, n, x, y, memoryLimit);
      }
    }
  }

  lemma LargeProduct(x: nat, y: nat, limit: u64)
    requires x > 0 && y > 0 && (x > MAX_U64 || y > MAX_U64)
    ensures x * y * 8 > limit
  {
    MulMonotone(x, 1, y);
    MulMonotone(y, 1, x);
    assert x * y == y * x;
  }

  lemma SmallerFits(k: nat, n: nat, x: nat, y: nat, limit: u64)
    requires 0 < k <= x && 0 < n <= y && k > limit / 8 / n
    ensures x * y * 8 > limit
  {
    ProductFits(k, n, limit / 8);
    MulMonotone(n, k, x);
    MulMonotone(x, n, y);
    assert n * k == k * n && n * x == x * n;
  }

  lemma NoLongerFits(rules: seq<ForbiddenRule>, more: seq<ForbiddenRule>, memoryLimit: u64)
    requires !TemplateFits(rules, memoryLimit)
    ensures !TemplateFits(rules + more, memoryLimit)
  {
    forall k: nat, n: nat | k > 0 && n > 0 && Periodic(rules + more, k, n)
      ensures k * n * 8 > memoryLimit
    {
      PeriodicPrefix(rules, more, k, n);
    }
  }

  lemma OtherScope(rules: seq<ForbiddenRule>, rule: ForbiddenRule, kPeriod: nat, nPeriod: nat)
    requires kPeriod > 0 && nPeriod > 0 && LeastPeriods(rules, kPeriod, nPeriod)
    ensures LeastPeriods(rules + [rule], kPeriod, nPeriod)
  {
    forall k: nat, n: nat | k > 0 && n > 0 && Periodic(rules + [rule], k, n)
      ensures Divides(kPeriod, k) && Divides(nPeriod, n)
    {
      PeriodicPrefix(rules, [rule], k, n);
    }
  }

  method TablePeriods(rules: seq<ForbiddenRule>, kStart: u64, nStart: u64, memoryLimit: u64,
                      ghost earlier: seq<ForbiddenRule>)
    returns (fits: bool, kPeriod: u64, nPeriod: u64)
    requires AllWellFormed(rules) && kStart > 0 && nStart > 0 && Periodic(earlier, kStart, nStart)
      && LeastPeriods(earlier, kStart, nStart)
    requires Small(kStart, nStart, memoryLimit)
    ensures fits ==> kPeriod > 0 && nPeriod > 0 && Periodic(earlier + rules, kPeriod, nPeriod)
    ensures fits ==> LeastPeriods(earlier + rules, kPeriod, nPeriod)
    ensures fits ==> Small(kPeriod, nPeriod, memoryLimit)
    ensures !fits ==> !TemplateFits(earlier + rules, memoryLimit)
  {
    hide TemplateFits, LeastPeriods;
    kPeriod, nPeriod := kStart, nStart;
    var j := 0;
    assert earlier + rules[..0] == earlier;
    while j < |rules|
      invariant 0 <= j <= |rules| && kPeriod > 0 && nPeriod > 0 && Periodic(earlier + rules[..j], kPeriod, nPeriod)
      invariant LeastPeriods(earlier + rules[..j], kPeriod, nPeriod)
      invariant Small(kPeriod, nPeriod, memoryLimit)
    {
      var rule := rules[j];
      assert earlier + rules[..j + 1] == (earlier + rules[..j]) + [rule];
      if rule.scope == IndexCongruence {
        NextPeriods(earlier + rules[..j], rule, kPeriod, nPeriod, memoryLimit);
        var k := BoundedLcm(kPeriod, rule.kIndexModulus);
        var n := BoundedLcm(nPeriod, rule.exponentIndexModulus);
        if k == 0 || n == 0 || k > memoryLimit / 8 / n {
          assert earlier + rules == (earlier + rules[..j + 1]) + rules[j + 1..];
          NoLongerFits(earlier + rules[..j + 1], rules[j + 1..], memoryLimit);
          return false, 0, 0;
        }
        PeriodicGrows(earlier + rules[..j], kPeriod, nPeriod, k, n);
        kPeriod, nPeriod := k, n;
      } else {
        OtherScope(earlier + rules[..j], rule, kPeriod, nPeriod);
      }
      j := j + 1;
    }
    assert rules[..j] == rules;
    return true, kPeriod, nPeriod;
  }

  // ----- the template

  method ClaimRow(factor: array2<u64>, rule: ForbiddenRule, k: u64)
    requires rule.WellFormed() && rule.scope == IndexCongruence && k < factor.Length0
    requires k % rule.kIndexModulus == rule.kIndexResidue
    requires factor.Length1 + rule.exponentIndexModulus <= MAX_U64
    modifies factor
    ensures forall i, j :: 0 <= i < factor.Length0 && 0 <= j < factor.Length1 ==>
      factor[i, j] == if i == k then Claimed(old(factor[i, j]), rule, i, j) else old(factor[i, j])
  {
    var n: u64 := rule.exponentIndexResidue;
    forall j: int | 0 <= j < n
      ensures j % rule.exponentIndexModulus != rule.exponentIndexResidue
    {
      SmallestInClass(n, rule.exponentIndexModulus, j);
    }
    DivModUnique(n, rule.exponentIndexModulus, 0, n);
    while n < factor.Length1
      invariant n % rule.exponentIndexModulus == rule.exponentIndexResidue
      invariant forall i, j :: 0 <= i < factor.Length0 && 0 <= j < factor.Length1 ==>
        factor[i, j] == if i == k && j < n then Claimed(old(factor[i, j]), rule, i, j) else old(factor[i, j])
      decreases factor.Length1 - n
    {
      if factor[k, n] == 0 {
        factor[k, n] := rule.prime;
      }
      forall j: int | n < j && j % rule.exponentIndexModulus == rule.exponentIndexResidue
        ensures j >= n + rule.exponentIndexModulus
      {
        NextCongruent(j, n, rule.exponentIndexModulus);
      }
      CongruentStep(n, rule.exponentIndexModulus);
      n := n + rule.exponentIndexModulus;
    }
  }

  /** One rule claims the free cells of its class. */
  method ClaimClass(factor: array2<u64>, rule: ForbiddenRule)
    requires rule.WellFormed() && rule.scope == IndexCongruence
    requires factor.Length0 + rule.kIndexModulus <= MAX_U64 && factor.Length1 + rule.exponentIndexModulus <= MAX_U64
    modifies factor
    ensures forall i, j :: 0 <= i < factor.Length0 && 0 <= j < factor.Length1 ==>
      factor[i, j] == Claimed(old(factor[i, j]), rule, i, j)
  {
    var k: u64 := rule.kIndexResidue;
    forall i: int | 0 <= i < k
      ensures i % rule.kIndexModulus != rule.kIndexResidue
    {
      SmallestInClass(k, rule.kIndexModulus, i);
    }
    DivModUnique(k, rule.kIndexModulus, 0, k);
    while k < factor.Length0
      invariant k % rule.kIndexModulus == rule.kIndexResidue
      invariant forall i, j :: 0 <= i < factor.Length0 && 0 <= j < factor.Length1 ==>
        factor[i, j] == if i < k then Claimed(old(factor[i, j]), rule, i, j) else old(factor[i, j])
      decreases factor.Length0 - k
    {
      ClaimRow(factor, rule, k);
      forall i: int | k < i && i % rule.kIndexModulus == rule.kIndexResidue
        ensures i >= k + rule.kIndexModulus
      {
        NextCongruent(i, k, rule.kIndexModulus);
      }
      CongruentStep(k, rule.kIndexModulus);
      k := k + rule.kIndexModulus;
    }
  }

  ghost predicate Template(factor: array2<u64>, rules: seq<ForbiddenRule>)
    reads factor
    requires AllWellFormed(rules)
  {
    forall i, j :: 0 <= i < factor.Length0 && 0 <= j < factor.Length1 ==> factor[i, j] == FirstClass(rules, i, j)
  }

  method ClaimTable(factor: array2<u64>, rules: seq<ForbiddenRule>, ghost earlier: seq<ForbiddenRule>)
    requires AllWellFormed(earlier) && AllWellFormed(rules) && Template(factor, earlier)
    requires 0 < factor.Length0 && 0 < factor.Length1 && factor.Length0 * 2 <= MAX_U64 && factor.Length1 * 2 <= MAX_U64
    requires Periodic(rules, factor.Length0, factor.Length1)
    modifies factor
    ensures AllWellFormed(earlier + rules) && Template(factor, earlier + rules)
  {
    var j := 0;
    assert earlier + rules[..0] == earlier;
    while j < |rules|
      invariant 0 <= j <= |rules| && AllWellFormed(earlier + rules[..j]) && Template(factor, earlier + rules[..j])
    {
      ghost var done := earlier + rules[..j];
      assert earlier + rules[..j + 1] == done + [rules[j]] && (done + [rules[j]])[..|done|] == done;
      if rules[j].scope == IndexCongruence {
        DividesLe(rules[j].kIndexModulus, factor.Length0);
        DividesLe(rules[j].exponentIndexModulus, factor.Length1);
        ClaimClass(factor, rules[j]);
      }
      j := j + 1;
    }
    assert rules[..j] == rules;
  }

  // ----- applying the template

  lemma {:induction false} FirstClassPeriodic(rules: seq<ForbiddenRule>, kPeriod: nat, nPeriod: nat, k: nat, n: nat)
    requires AllWellFormed(rules) && Periodic(rules, kPeriod, nPeriod) && kPeriod > 0 && nPeriod > 0
    ensures FirstClass(rules, k, n) == FirstClass(rules, k % kPeriod, n % nPeriod)
  {
    if rules != [] {
      var last := rules[|rules| - 1];
      FirstClassPeriodic(rules[..|rules| - 1], kPeriod, nPeriod, k, n);
      ModSelf(k, kPeriod);
      ModSelf(n, nPeriod);
      if last.scope == IndexCongruence {
        CongDivisor(k % kPeriod, k, kPeriod, last.kIndexModulus);
        CongDivisor(n % nPeriod, n, nPeriod, last.exponentIndexModulus);
      }
    }
  }

  /** What the template makes of a candidate's cell. */
  ghost function TemplateCell(f: AffineExponentialFamily, retain: bool, rules: seq<ForbiddenRule>, c: Cell, ki: nat,
    ni: nat): Cell
    requires AllWellFormed(rules) && f.InRange(ki, ni)
  {
    var q := FirstClass(rules, ki, ni);
    if q != 0 && f.Admissible(ki, ni) && ProperFactor(f.Candidate(ki, ni), q) then Recorded(Direct, retain, c, q) else c
  }

  /** The template has been applied to the candidates before position t. */
  ghost predicate AppliedBelow(f: AffineExponentialFamily, retain: bool, rules: seq<ForbiddenRule>,
                               start: seq<Cell>, cells: seq<Cell>, t: int)
    requires AllWellFormed(rules) && f.Valid()
  {
    |start| == |cells| == CandidateCount(f) &&
    forall ki, ni :: f.InRange(ki, ni) ==> AppliedAt(f, retain, rules, start, cells, t, ki, ni)
  }

  ghost predicate AppliedAt(f: AffineExponentialFamily, retain: bool, rules: seq<ForbiddenRule>,
                            start: seq<Cell>, cells: seq<Cell>, t: int, ki: nat, ni: nat)
    requires AllWellFormed(rules) && f.InRange(ki, ni) && |start| == |cells| == CandidateCount(f)
  {
    PositionExact(f, ki, ni, ByK);
    var i := CanonicalIndex(f, ki, ni);
    cells[i] == if i < t then TemplateCell(f, retain, rules, start[i], ki, ni) else start[i]
  }

  lemma AppliedElsewhere(f: AffineExponentialFamily, retain: bool, rules: seq<ForbiddenRule>,
                         start: seq<Cell>, cells: seq<Cell>, ki: nat, ni: nat, c: Cell, kj: nat, nj: nat)
    requires AllWellFormed(rules) && f.InRange(ki, ni) && f.InRange(kj, nj) && CanonicalIndex(f, ki, ni) < |cells|
    requires AppliedBelow(f, retain, rules, start, cells, CanonicalIndex(f, ki, ni))
    requires c == TemplateCell(f, retain, rules, start[CanonicalIndex(f, ki, ni)], ki, ni)
    ensures AppliedAt(f, retain, rules, start, cells[CanonicalIndex(f, ki, ni) := c], CanonicalIndex(f, ki, ni)
      + 1, kj, nj)
  {
    var i, j := CanonicalIndex(f, ki, ni), CanonicalIndex(f, kj, nj);
    PositionExact(f, kj, nj, ByK);
    assert AppliedAt(f, retain, rules, start, cells, i, kj, nj);
    if i == j {
      CanonicalInjective(f, ki, ni, kj, nj);
    }
    hide AllWellFormed, FirstClass, TemplateCell, AffineExponentialFamily.InRange, CanonicalIndex, CandidateCount;
    assert cells[i := c][j] == if i == j then c else cells[j];
  }

  lemma AppliedAdvances(f: AffineExponentialFamily, retain: bool, rules: seq<ForbiddenRule>,
                        start: seq<Cell>, cells: seq<Cell>, ki: nat, ni: nat, c: Cell)
    requires AllWellFormed(rules) && f.InRange(ki, ni) && CanonicalIndex(f, ki, ni) < |cells|
    requires AppliedBelow(f, retain, rules, start, cells, CanonicalIndex(f, ki, ni))
    requires c == TemplateCell(f, retain, rules, cells[CanonicalIndex(f, ki, ni)], ki, ni)
    ensures AppliedBelow(f, retain, rules, start, cells[CanonicalIndex(f, ki, ni) := c], CanonicalIndex(f, ki, ni) + 1)
  {
    var t := CanonicalIndex(f, ki, ni);
    assert AppliedAt(f, retain, rules, start, cells, t, ki, ni);
    forall kj, nj | f.InRange(kj, nj)
      ensures AppliedAt(f, retain, rules, start, cells[t := c], t + 1, kj, nj)
    {
      AppliedElsewhere(f, retain, rules, start, cells, ki, ni, c, kj, nj);
    }
  }

  ghost predicate Templating(f: AffineExponentialFamily, retain: bool, rules: seq<ForbiddenRule>, board: Board,
                             start: seq<Cell>, t: int)
    reads board
  {
    && f.Valid() && CandidateCount(f) <= MAX_U64 && AllWellFormed(rules)
      && (forall i :: 0 <= i < |rules| ==> IsPrime(rules[i].prime))
    && board.Shape(CandidateCount(f), retain)
    && AppliedBelow(f, retain, rules, start, board.cells, t)
  }

  /** The body of the template's loop over candidates. */
  method ApplyAt(f: AffineExponentialFamily, retain: bool, ghost rules: seq<ForbiddenRule>, factor: array2<u64>,
                 board: Board, ki: u64, ni: u64, ghost start: seq<Cell>, ghost primes: seq<u64>)
    returns (r: Result<(), Exception>)
    requires f.InRange(ki, ni) && Templating(f, retain, rules, board, start, CanonicalIndex(f, ki, ni))
    requires forall i :: 0 <= i < |rules| ==> rules[i].prime in primes
    requires Template(factor, rules) && factor.Length0 > 0 && factor.Length1 > 0
    requires Periodic(rules, factor.Length0, factor.Length1)
    modifies board
    ensures r.Ok? ==> Templating(f, retain, rules, board, start, CanonicalIndex(f, ki, ni) + 1)
    ensures r.Err? ==> r.error == LengthError && ListTooLarge(f, primes)
  {
    FirstClassPeriodic(rules, factor.Length0, factor.Length1, ki, ni);
    PositionExact(f, ki, ni, ByK);
    var index: u64 := ki * f.n.Count() + ni;
    var prime := factor[ki % factor.Length0, ni % factor.Length1];
    ghost var cells := board.cells;
    AppliedAdvances(f, retain, rules, start, cells, ki, ni, TemplateCell(f, retain, rules, cells[index], ki, ni));
    assert cells == cells[index := cells[index]];
    if prime == 0 || !f.Admissible(ki, ni) {
      return Ok(());
    }
    ghost var i := FirstClassFrom(rules, ki, ni);
    var proper := ProperFactorCheck(f, ki, ni, prime);
    if proper.Err? {
      return Err(proper.error);
    }
    if proper.value {
      board.Record(CandidateCount(f), retain, index, prime);
    }
    return Ok(());
  }

  lemma RowEnds(row: int, count: int)
    ensures row * count + 0 == row * count && row * count + count == (row + 1) * count
  {
  }

  method ApplyRow(f: AffineExponentialFamily, retain: bool, ghost rules: seq<ForbiddenRule>, factor: array2<u64>,
                  board: Board, ki: u64, ghost start: seq<Cell>, ghost primes: seq<u64>)
    returns (r: Result<(), Exception>)
    requires f.Valid() && ki < f.k.Count() && Templating(f, retain, rules, board, start, ki * f.n.Count())
    requires Template(factor, rules) && factor.Length0 > 0 && factor.Length1 > 0
    requires Periodic(rules, factor.Length0, factor.Length1)
    requires forall i :: 0 <= i < |rules| ==> rules[i].prime in primes
    modifies board
    ensures r.Ok? ==> Templating(f, retain, rules, board, start, (ki + 1) * f.n.Count())
    ensures r.Err? ==> r.error == LengthError && ListTooLarge(f, primes)
  {
    var count: u64 := f.n.Count();
    RowEnds(ki, count);
    hide Templating, Template, Periodic, Progression.Count, Progression.Size;
    var ni: u64 := 0;
    while ni < count
      invariant ni <= count && Templating(f, retain, rules, board, start, ki * count + ni)
    {
      r := ApplyAt(f, retain, rules, factor, board, ki, ni, start, primes);
      if r.Err? {
        return;
      }
      ni := ni + 1;
    }
    return Ok(());
  }

  method ApplyTemplate(f: AffineExponentialFamily, retain: bool, ghost rules: seq<ForbiddenRule>, factor: array2<u64>,
                       board: Board, ghost primes: seq<u64>)
    returns (r: Result<(), Exception>)
    requires f.Valid() && Templating(f, retain, rules, board, board.cells, 0)
    requires Template(factor, rules) && factor.Length0 > 0 && factor.Length1 > 0
    requires Periodic(rules, factor.Length0, factor.Length1)
    requires forall i :: 0 <= i < |rules| ==> rules[i].prime in primes
    modifies board
    ensures r.Ok? ==> Templating(f, retain, rules, board, old(board.cells), CandidateCount(f))
    ensures r.Err? ==> r.error == LengthError && ListTooLarge(f, primes)
  {
    hide Templating, Template, Periodic;
    ghost var start := board.cells;
    var rows := f.k.Count();
    assert 0 * f.n.Count() == 0;
    var ki: u64 := 0;
    while ki < rows
      invariant ki <= rows && Templating(f, retain, rules, board, start, ki * f.n.Count())
    {
      r := ApplyRow(f, retain, rules, factor, board, ki, start, primes);
      if r.Err? {
        return;
      }
      ki := ki + 1;
    }
    return Ok(());
  }

  // ----- the whole template

  method TemplatePeriods(tables: seq<PrimeRuleTable>, memoryLimit: u64) returns (fits: bool, kPeriod: u64, nPeriod: u64)
    requires AllWellFormed(Flattened(tables))
    ensures fits ==> kPeriod > 0 && nPeriod > 0 && Periodic(Flattened(tables), kPeriod, nPeriod)
    ensures fits ==> LeastPeriods(Flattened(tables), kPeriod, nPeriod)
    ensures fits ==> Small(kPeriod, nPeriod, memoryLimit)
    ensures !fits ==> !TemplateFits(Flattened(tables), memoryLimit)
  {
    hide TemplateFits;
    kPeriod, nPeriod := 1, 1;
    var i := 0;
    OnePeriods(Flattened(tables[..0]));
    while i < |tables|
      invariant 0 <= i <= |tables| && kPeriod > 0 && nPeriod > 0 && Periodic(Flattened(tables[..i]), kPeriod, nPeriod)
      invariant LeastPeriods(Flattened(tables[..i]), kPeriod, nPeriod)
      invariant Small(kPeriod, nPeriod, memoryLimit)
    {
      assert tables[..i + 1][..i] == tables[..i];
      TableWellFormed(tables, i);
      FlattenedRest(tables, i + 1);
      fits, kPeriod, nPeriod := TablePeriods(tables[i].rules, kPeriod, nPeriod, memoryLimit, Flattened(tables[..i]));
      if !fits {
        NoLongerFits(Flattened(tables[..i + 1]), Flattened(tables)[|Flattened(tables[..i + 1])|..], memoryLimit);
        return;
      }
      i := i + 1;
    }
    assert tables[..i] == tables;
    return true, kPeriod, nPeriod;
  }

  lemma OnePeriods(rules: seq<ForbiddenRule>)
    ensures LeastPeriods(rules, 1, 1)
  {
    forall k: nat, n: nat | k > 0 && n > 0 && Periodic(rules, k, n)
      ensures Divides(1, k) && Divides(1, n)
    {
      DividesMultiple(1, k);
      DividesMultiple(1, n);
    }
  }

  lemma FlattenedRest(tables: seq<PrimeRuleTable>, i: nat)
    requires i <= |tables|
    ensures var first, all := Flattened(tables[..i]), Flattened(tables);
      |first| <= |all| && all == first + all[|first|..]
  {
    if i < |tables| {
      FlattenedPrefix(tables, i);
    } else {
      assert tables[..i] == tables;
    }
  }

  lemma TableWellFormed(tables: seq<PrimeRuleTable>, i: nat)
    requires AllWellFormed(Flattened(tables)) && i < |tables|
    ensures AllWellFormed(tables[i].rules) && AllWellFormed(Flattened(tables[..i]))
    ensures forall j :: 0 <= j < |tables[i].rules| ==> tables[i].rules[j] in Flattened(tables)
  {
    hide Flattened;
    FlattenedPrefix(tables, i);
    var earlier, all := Flattened(tables[..i]), Flattened(tables);
    assert forall j :: 0 <= j < |earlier| ==> all[j] == earlier[j];
    assert forall j :: 0 <= j < |tables[i].rules| ==> all[|earlier| + j] == tables[i].rules[j];
  }

  method BuildTemplate(tables: seq<PrimeRuleTable>, kPeriod: u64, nPeriod: u64) returns (factor: array2<u64>)
    requires AllWellFormed(Flattened(tables)) && 0 < kPeriod && 0 < nPeriod && kPeriod * 2 <= MAX_U64
      && nPeriod * 2 <= MAX_U64
    requires Periodic(Flattened(tables), kPeriod, nPeriod)
    ensures fresh(factor) && factor.Length0 == kPeriod && factor.Length1 == nPeriod
      && Template(factor, Flattened(tables))
  {
    factor := new u64[kPeriod, nPeriod]((_, _) => 0);
    var i := 0;
    while i < |tables|
      invariant 0 <= i <= |tables| && AllWellFormed(Flattened(tables[..i])) && Template(factor, Flattened(tables[..i]))
    {
      assert tables[..i + 1][..i] == tables[..i];
      TableWellFormed(tables, i);
      RulesPeriodic(tables, i, kPeriod, nPeriod);
      ClaimTable(factor, tables[i].rules, Flattened(tables[..i]));
      i := i + 1;
    }
    assert tables[..i] == tables;
  }

  lemma RulesPeriodic(tables: seq<PrimeRuleTable>, i: nat, kPeriod: nat, nPeriod: nat)
    requires Periodic(Flattened(tables), kPeriod, nPeriod) && i < |tables| && AllWellFormed(Flattened(tables))
    ensures Periodic(tables[i].rules, kPeriod, nPeriod)
  {
    TableWellFormed(tables, i);
  }

  lemma PeriodsBounded(kPeriod: nat, nPeriod: nat, memoryLimit: u64)
    requires Small(kPeriod, nPeriod, memoryLimit)
    ensures kPeriod * 8 <= MAX_U64 && nPeriod * 8 <= MAX_U64
    ensures 0 < kPeriod * nPeriod && kPeriod * nPeriod * 8 <= MAX_U64
  {
    assert kPeriod == 1 && nPeriod == 1 ==> kPeriod * nPeriod == 1;
    if !Fits(kPeriod, nPeriod, memoryLimit) {
      return;
    }
    ProductFits(kPeriod, nPeriod, memoryLimit / 8);
    MulMonotone(kPeriod, 1, nPeriod);
    MulMonotone(nPeriod, 1, kPeriod);
    assert nPeriod * kPeriod == kPeriod * nPeriod;
  }

  /** The template is applied: at least two primes, and periods within the limit. */
  ghost predicate TemplateApplies(all: seq<PrimeRuleTable>, primeCount: u64, memoryLimit: u64) {
    var limit := Min(primeCount, |all|);
    limit >= 2 && TemplateFits(Flattened(all[..limit]), memoryLimit)
  }

  /** premark_crt_template: left out exactly below two primes or when no template fits;
      applied, a candidate is examined for exactly the first prime with an index class
      over it. */
  method PremarkCrtTemplate(f: AffineExponentialFamily, all: seq<PrimeRuleTable>, ghost primes: seq<u64>,
                            primeCount: u64, memoryLimit: u64, board: Board, retain: bool)
    returns (r: Result<bool, Exception>)
    requires f.Valid() && CandidateCount(f) <= MAX_U64 && TablesFor(all, f, primes)
    requires board.Shape(CandidateCount(f), retain)
    modifies board
    ensures r.Ok? ==> board.Shape(CandidateCount(f), retain)
    ensures r.Ok? ==> r.value == TemplateApplies(all, primeCount, memoryLimit)
    ensures r.Err? ==> TemplateApplies(all, primeCount, memoryLimit)
    ensures r.Ok? && !r.value ==> unchanged(board)
    ensures r.Ok? && r.value ==>
      var rules := Flattened(all[..Min(primeCount, |all|)]);
      && AllWellFormed(rules)
      && AppliedBelow(f, retain, rules, old(board.cells), board.cells, CandidateCount(f))
    ensures r.Err? ==> r.error == LengthError && ListTooLarge(f, primes)
  {
    var limit := Min(primeCount, |all|);
    if limit < 2 {
      return Ok(false);
    }
    var tables := all[..limit];
    ghost var some := primes[..limit];
    StructuresComplete(tables, f, some);
    ghost var rules := Flattened(tables);
    TemplateRules(tables, f, primes, limit);
    var fits, kPeriod, nPeriod := TemplatePeriods(tables, memoryLimit);
    if !fits {
      return Ok(false);
    }
    PeriodsBounded(kPeriod, nPeriod, memoryLimit);
    var cells: u64 := kPeriod * nPeriod;
    if cells == 0 || cells * 8 > memoryLimit {
      LeastTooLarge(rules, kPeriod, nPeriod, memoryLimit);
      return Ok(false);
    }
    assert TemplateFits(rules, memoryLimit);
    var factor := BuildTemplate(tables, kPeriod, nPeriod);
    TemplatingStart(f, retain, rules, board);
    var applied := ApplyTemplate(f, retain, rules, factor, board, primes);
    if applied.Err? {
      return Err(applied.error);
    }
    return Ok(true);
  }

  lemma LeastTooLarge(rules: seq<ForbiddenRule>, kPeriod: nat, nPeriod: nat, memoryLimit: u64)
    requires kPeriod > 0 && nPeriod > 0 && LeastPeriods(rules, kPeriod, nPeriod) && kPeriod * nPeriod * 8 > memoryLimit
    ensures !TemplateFits(rules, memoryLimit)
  {
    forall k: nat, n: nat | k > 0 && n > 0 && Periodic(rules, k, n)
      ensures k * n * 8 > memoryLimit
    {
      DividesLe(kPeriod, k);
      DividesLe(nPeriod, n);
      MulMonotone(nPeriod, kPeriod, k);
      MulMonotone(k, nPeriod, n);
      assert nPeriod * kPeriod == kPeriod * nPeriod && nPeriod * k == k * nPeriod;
    }
  }

  lemma TemplateRules(tables: seq<PrimeRuleTable>, f: AffineExponentialFamily, primes: seq<u64>, limit: nat)
    requires limit <= |primes| && TablesFor(tables, f, primes[..limit])
    ensures AllWellFormed(Flattened(tables))
    ensures forall i :: 0 <= i < |Flattened(tables)| ==>
      IsPrime(Flattened(tables)[i].prime) && Flattened(tables)[i].prime in primes
  {
    StructuresComplete(tables, f, primes[..limit]);
    var rules := Flattened(tables);
    forall i | 0 <= i < |rules|
      ensures rules[i].WellFormed() && IsPrime(rules[i].prime) && rules[i].prime in primes
    {
      assert Structures(rules).Prime(i) == rules[i].prime;
    }
  }

  lemma TemplatingStart(f: AffineExponentialFamily, retain: bool, rules: seq<ForbiddenRule>, board: Board)
    requires f.Valid() && CandidateCount(f) <= MAX_U64 && board.Shape(CandidateCount(f), retain)
    requires AllWellFormed(rules) && forall i :: 0 <= i < |rules| ==> IsPrime(rules[i].prime)
    ensures Templating(f, retain, rules, board, board.cells, 0)
  {
    forall ki, ni | f.InRange(ki, ni)
      ensures AppliedAt(f, retain, rules, board.cells, board.cells, 0, ki, ni)
    {
      PositionExact(f, ki, ni, ByK);
    }
  }
}
