/** What one candidate's place in the family sieve holds, how an inspection
    changes it, and what it must hold after any prefix of the checks
    (src/family_sieve/family_sieve.cpp). */
module SieveCells {
  import opened NumberTheory
  import opened MachineArithmetic
  import opened Progressions
  import opened CompiledRules
  import opened Eliminations
  import opened Wrappers

  // ----- rules laid out as structures or as columns

  datatype RuleColumns = RuleColumns(
    prime: seq<u64>, scope: seq<ExponentRuleScope>, nResidue: seq<u64>, nModulus: seq<u64>,
    exactN: seq<i64>, kResidue: seq<u64>, kModulus: seq<u64>)
  {
    predicate Shape(count: nat) {
      && |prime| == |scope| == |nResidue| == |nModulus| == count
      && |exactN| == |kResidue| == |kModulus| == count
      && forall i :: 0 <= i < count ==> nModulus[i] > 0 && kModulus[i] > 0
    }

    /** columns_match */
    predicate Matches(i: nat, f: AffineExponentialFamily, ki: int, ni: int)
      requires Shape(|prime|) && i < |prime|
    {
      var exponentMatches :=
        if scope[i] == ExactExponent then f.n.At(ni) == exactN[i]
        else if scope[i] == PositiveExponents then f.n.At(ni) > 0
        else ni % nModulus[i] == nResidue[i];
      exponentMatches && ki % kModulus[i] == kResidue[i]
    }
  }

  /** make_columns: the same rules, column by column. */
  method MakeColumns(rules: seq<ForbiddenRule>) returns (c: RuleColumns)
    requires forall i :: 0 <= i < |rules| ==> rules[i].WellFormed()
    ensures ColumnsOfRules(c, rules)
  {
    c := RuleColumns([], [], [], [], [], [], []);
    var i := 0;
    while i < |rules|
      invariant 0 <= i <= |rules| && ColumnsOfRules(c, rules[..i])
    {
      var rule := rules[i];
      c := RuleColumns(
        c.prime + [rule.prime], c.scope + [rule.scope],
        c.nResidue + [rule.exponentIndexResidue], c.nModulus + [rule.exponentIndexModulus],
        c.exactN + [rule.exactExponent], c.kResidue + [rule.kIndexResidue], c.kModulus + [rule.kIndexModulus]);
      i := i + 1;
    }
    assert rules[..i] == rules;
  }

  ghost predicate ColumnsOfRules(c: RuleColumns, rules: seq<ForbiddenRule>) {
    && c.Shape(|rules|)
    && forall i :: 0 <= i < |rules| ==>
      && rules[i].WellFormed() && c.prime[i] == rules[i].prime && c.scope[i] == rules[i].scope
      && c.nResidue[i] == rules[i].exponentIndexResidue && c.nModulus[i] == rules[i].exponentIndexModulus
      && c.exactN[i] == rules[i].exactExponent
      && c.kResidue[i] == rules[i].kIndexResidue && c.kModulus[i] == rules[i].kIndexModulus
  }

  /** Both layouts match the same candidates. */
  lemma LayoutsAgree(c: RuleColumns, rules: seq<ForbiddenRule>, i: nat, f: AffineExponentialFamily, ki: int, ni: int)
    requires ColumnsOfRules(c, rules) && i < |rules|
    ensures c.Matches(i, f, ki, ni) <==> rules[i].Matches(f, ki, ni)
  {
  }

  // ----- the checks of a scan

  /** What a scan runs through: every prime, or the rules in one of two layouts. */
  datatype Checks =
    | EveryPrime(primes: seq<u64>)
    | Structures(rules: seq<ForbiddenRule>)
    | Columns(columns: RuleColumns)
  {

    predicate WellFormed() {
      match this
      case EveryPrime(_) => true
      case Structures(rules) => forall i :: 0 <= i < |rules| ==> rules[i].WellFormed()
      case Columns(c) => c.Shape(|c.prime|)
    }

    function Count(): nat {
      match this
      case EveryPrime(primes) => |primes|
      case Structures(rules) => |rules|
      case Columns(c) => |c.prime|
    }

    function Prime(i: nat): u64
      requires i < Count()
    {
      match this
      case EveryPrime(primes) => primes[i]
      case Structures(rules) => rules[i].prime
      case Columns(c) => c.prime[i]
    }

    predicate Matches(i: nat, f: AffineExponentialFamily, ki: int, ni: int)
      requires WellFormed() && i < Count()
    {
      match this
      case EveryPrime(_) => f.Admissible(ki, ni)
      case Structures(rules) => rules[i].Matches(f, ki, ni)
      case Columns(c) => c.Matches(i, f, ki, ni)
    }

    /** Check i eliminates the candidate. */
    predicate Eliminates(i: nat, f: AffineExponentialFamily, ki: int, ni: int)
      requires WellFormed() && i < Count() && f.InRange(ki, ni)
    {
      Matches(i, f, ki, ni) && f.Admissible(ki, ni) && ProperFactor(f.Candidate(ki, ni), Prime(i))
    }

    /** The prime of the first of the first n checks that eliminates the candidate. */
    function Found(n: nat, f: AffineExponentialFamily, ki: int, ni: int): (r: Option<u64>)
      requires WellFormed() && n <= Count() && f.InRange(ki, ni)
      ensures r.Some? ==> exists i :: 0 <= i < n && r.value == Prime(i) && Eliminates(i, f, ki, ni)
    {
      if n == 0 then None
      else if Found(n - 1, f, ki, ni).Some? then Found(n - 1, f, ki, ni)
      else if Eliminates(n - 1, f, ki, ni) then Some(Prime(n - 1))
      else None
    }

    /** The primes of the checks never decrease and are prime. */
    ghost predicate Ordered() {
      && WellFormed()
      && (forall i :: 0 <= i < Count() ==> IsPrime(Prime(i)))
      && (forall i, j :: 0 <= i < j < Count() ==> Prime(i) <= Prime(j))
    }
  }

  lemma FoundBounded(checks: Checks, n: nat, f: AffineExponentialFamily, ki: int, ni: int)
    requires checks.Ordered() && n < checks.Count() && f.InRange(ki, ni)
    ensures checks.Found(n, f, ki, ni).Some? ==> checks.Found(n, f, ki, ni).value <= checks.Prime(n)
  {
  }

  // ----- cells

  /** A candidate's mark and its least recorded factor, 0 when none is recorded. */
  datatype Cell = Cell(marked: bool, least: u64)

  /** How a scan records: on the board itself, in a worker's words or list, or on
      the board while premarking, where a marked cell is final. */
  datatype Mode = Direct | WorkerDense | WorkerList | Premark

  predicate OnBoard(mode: Mode) {
    mode == Direct || mode == Premark
  }

  /** A premarked cell is consistent: with witnesses retained, marked means witnessed. */
  predicate Consistent(c: Cell, retain: bool) {
    if retain then c.marked <==> c.least != 0 else c.least == 0
  }

  function LowerWitness(least: u64, prime: u64): u64 {
    if least == 0 || prime < least then prime else least
  }

  /** Whether a premarked cell stops a prime from being examined. */
  predicate Skips(premarked: Cell, retain: bool, prime: u64) {
    premarked.marked && (!retain || prime >= premarked.least)
  }

  /** A cell with one more elimination recorded: a dense worker keeps only its first
      witness, the others keep the lowest. */
  function Recorded(mode: Mode, retain: bool, c: Cell, prime: u64): Cell {
    Cell(true, if retain && (mode != WorkerDense || !c.marked) then LowerWitness(c.least, prime) else c.least)
  }

  /** Whether an inspection of this prime stops at the cell it reads. */
  predicate Stops(mode: Mode, retain: bool, read: Cell, prime: u64) {
    if mode == Premark then read.marked else Skips(read, retain, prime)
  }

  /** The effect of one inspection on the cell it writes. The premarked cell is the
      one read: the same cell when the scan writes the board. */
  function Step(mode: Mode, retain: bool, premarked: Cell, c: Cell, eliminates: bool, prime: u64): Cell {
    var read := if OnBoard(mode) then c else premarked;
    if !eliminates || Stops(mode, retain, read, prime) then c else Recorded(mode, retain, c, prime)
  }

  /** Whether a scan with this outcome adds anything to a premarked cell. */
  predicate Adds(mode: Mode, premarked: Cell, retain: bool, found: Option<u64>) {
    found.Some? && !Stops(mode, retain, premarked, found.value)
  }

  /** What the written cell must hold once the first eliminating prime is known. */
  function Outcome(mode: Mode, retain: bool, premarked: Cell, found: Option<u64>): Cell {
    if Adds(mode, premarked, retain, found) then Cell(true, if retain then found.value else 0)
    else if OnBoard(mode) then premarked
    else Cell(false, 0)
  }

  function Extend(found: Option<u64>, eliminates: bool, prime: u64): Option<u64> {
    if found.Some? then found else if eliminates then Some(prime) else None
  }

  /** Inspections in ascending prime order keep a cell at its required outcome. */
  lemma StepKeepsOutcome(mode: Mode, retain: bool, premarked: Cell, found: Option<u64>, eliminates: bool, prime: u64)
    requires Consistent(premarked, retain) && prime > 0
    requires found.Some? ==> 0 < found.value <= prime
    ensures Step(mode, retain, premarked, Outcome(mode, retain, premarked, found), eliminates, prime)
      == Outcome(mode, retain, premarked, Extend(found, eliminates, prime))
  {
  }

  /** A worker's cell merged into the result. */
  function Merged(c: Cell, w: Cell): Cell {
    Cell(c.marked || w.marked, if w.least == 0 then c.least else LowerWitness(c.least, w.least))
  }

  /** The merged verdict of a premarked cell and a worker's cell is the direct one. */
  lemma MergeIsDirect(mode: Mode, retain: bool, premarked: Cell, found: Option<u64>)
    requires !OnBoard(mode) && Consistent(premarked, retain) && (found.Some? ==> found.value > 0)
    ensures Merged(premarked, Outcome(mode, retain, premarked, found)) == Outcome(Direct, retain, premarked, found)
  {
  }

  // ----- traversal order

  datatype BitsetOrientation = ByK | ByN

  /** decode_index: the candidate at a traversal position. */
  function DecodeK(f: AffineExponentialFamily, t: nat, o: BitsetOrientation): int
    requires f.Valid()
  {
    if o == ByK then t / f.n.Count() else t % f.k.Count()
  }

  function DecodeN(f: AffineExponentialFamily, t: nat, o: BitsetOrientation): int
    requires f.Valid()
  {
    if o == ByK then t % f.n.Count() else t / f.k.Count()
  }

  function CandidateCount(f: AffineExponentialFamily): nat
    requires f.Valid()
  {
    MulMonotone(f.k.Count(), 0, f.n.Count());
    f.k.Count() * f.n.Count()
  }

  function CanonicalIndex(f: AffineExponentialFamily, ki: nat, ni: nat): nat
    requires f.InRange(ki, ni)
  {
    MulMonotone(f.n.Count(), 0, ki);
    ki * f.n.Count() + ni
  }

  /** The traversal position of a candidate. */
  function Position(f: AffineExponentialFamily, ki: nat, ni: nat, o: BitsetOrientation): nat
    requires f.InRange(ki, ni)
  {
    if o == ByK then CanonicalIndex(f, ki, ni)
    else
      MulMonotone(f.k.Count(), 0, ni);
      ni * f.k.Count() + ki
  }

  lemma RowMajor(rows: nat, columns: nat, t: nat)
    requires columns > 0 && t < rows * columns
    ensures 0 <= t / columns < rows && 0 <= t % columns < columns && (t / columns) * columns + t % columns == t
  {
    QuotientBounds(t, columns);
    assert t == columns * (t / columns) + t % columns && columns * (t / columns) == (t / columns) * columns;
    MulMonotone(columns, rows, if t / columns < rows then rows else t / columns);
    assert rows * columns == columns * rows;
  }

  lemma RowMajorInverse(rows: nat, columns: nat, i: nat, j: nat)
    requires i < rows && j < columns
    ensures 0 <= i * columns + j < rows * columns
    ensures (i * columns + j) / columns == i && (i * columns + j) % columns == j
  {
    DivModUnique(i * columns + j, columns, i, j);
    MulMonotone(columns, 0, i);
    MulMonotone(columns, i + 1, rows);
    assert columns * (i + 1) == i * columns + columns && columns * rows == rows * columns;
  }

  /** Every position below the count decodes to a candidate at that position. */
  lemma DecodeExact(f: AffineExponentialFamily, t: nat, o: BitsetOrientation)
    requires f.Valid() && t < CandidateCount(f)
    ensures f.InRange(DecodeK(f, t, o), DecodeN(f, t, o))
    ensures Position(f, DecodeK(f, t, o), DecodeN(f, t, o), o) == t
  {
    if o == ByK {
      RowMajor(f.k.Count(), f.n.Count(), t);
    } else {
      assert f.k.Count() * f.n.Count() == f.n.Count() * f.k.Count();
      RowMajor(f.n.Count(), f.k.Count(), t);
    }
  }

  lemma PositionExact(f: AffineExponentialFamily, ki: nat, ni: nat, o: BitsetOrientation)
    requires f.InRange(ki, ni)
    ensures var t := Position(f, ki, ni, o);
      t < CandidateCount(f) && DecodeK(f, t, o) == ki && DecodeN(f, t, o) == ni
    ensures CanonicalIndex(f, ki, ni) < CandidateCount(f)
  {
    RowMajorInverse(f.k.Count(), f.n.Count(), ki, ni);
    RowMajorInverse(f.n.Count(), f.k.Count(), ni, ki);
    assert f.k.Count() * f.n.Count() == f.n.Count() * f.k.Count();
  }
}
