/** Premarking with the first few primes before the segments are scanned
    (src/family_sieve/family_sieve.cpp). */
module SievePremark {
  import opened NumberTheory
  import opened MachineArithmetic
  import opened Progressions
  import opened CompiledRules
  import opened Eliminations
  import opened BoundedMagnitude
  import opened SieveCells
  import opened SieveScan
  import opened SieveLoops
  import opened RuleTables
  import opened Words
  import opened Wrappers

  /** The board is at these stages of a premarking scan that started from other cells. */
  ghost predicate Premarking(s: Scan, board: Board, start: seq<Cell>, stage: int -> int)
    reads board
  {
    && s.Valid() && s.mode == Premark && board.Shape(s.Count(), s.retain)
    && AllConsistent(start, s.retain) && AllConsistent(board.cells, s.retain)
    && s.AtStage(start, start, board.cells, stage)
  }

  lemma PremarkingChange(s: Scan, board: Board, start: seq<Cell>, stage: int -> int, stage': int -> int)
    requires Premarking(s, board, start, stage)
    requires forall t :: s.begin <= t < s.end ==> stage(t) == stage'(t)
    ensures Premarking(s, board, start, stage')
  {
    StageChange(s, start, start, board.cells, stage, stage');
  }

  method Mark(board: Board, ghost count: nat, retain: bool, index: u64, prime: u64)
    requires board.Shape(count, retain) && index < count
    requires !board.cells[index].marked && board.cells[index].least == 0 && prime > 0
    modifies board
    ensures board.Shape(count, retain)
    ensures board.cells == old(board.cells)[index := Recorded(Premark, retain, old(board.cells)[index], prime)]
  {
    board.words := SetBit(board.words, index);
    if retain {
      board.witnesses := board.witnesses[index := prime];
    }
    board.cells := board.cells[index := Recorded(Premark, retain, board.cells[index], prime)];
  }

  /** The innermost body of premark_small_prime_union. */
  method PremarkCandidate(f: AffineExponentialFamily, board: Board, retain: bool, rule: ForbiddenRule, ki: u64, ni: u64)
    returns (r: Result<(), Exception>)
    requires f.InRange(ki, ni) && CanonicalIndex(f, ki, ni) < CandidateCount(f) <= MAX_U64
    requires rule.WellFormed() && IsPrime(rule.prime)
    requires board.Shape(CandidateCount(f), retain) && AllConsistent(board.cells, retain)
    modifies board
    ensures board.Shape(CandidateCount(f), retain) && AllConsistent(board.cells, retain)
    ensures r.Ok? ==> var i := CanonicalIndex(f, ki, ni); board.cells == old(board.cells)[i :=
      Step(Premark, retain, old(board.cells)[i], old(board.cells)[i],
        rule.Matches(f, ki, ni) && f.Admissible(ki, ni) && ProperFactor(f.Candidate(ki, ni), rule.prime), rule.prime)]
    ensures r.Err? ==> r.error == LengthError && SieveTooLarge(f, ki, ni, rule.prime)
  {
    var index: u64 := ki * f.n.Count() + ni;
    assert board.cells == board.cells[index := board.cells[index]];
    if !f.Admissible(ki, ni) || !rule.Matches(f, ki, ni) || Bit(board.words, index) {
      return Ok(());
    }
    var proper := ProperFactorCheck(f, ki, ni, rule.prime);
    if proper.Err? {
      return Err(proper.error);
    }
    if proper.value {
      Mark(board, CandidateCount(f), retain, index, rule.prime);
    }
    return Ok(());
  }

  lemma SweepAdvances(s: Scan, start: seq<Cell>, cells: seq<Cell>, k: nat, ki: nat, ni: nat, c: Cell)
    requires s.f.InRange(ki, ni) && WholeByK(s, s.f, s.retain) && AllConsistent(start, s.retain)
    requires k < s.checks.Count() && OnBoard(s.mode) && CanonicalIndex(s.f, ki, ni) < |cells|
    requires s.AtStage(start, start, cells, Sweep(k, CanonicalIndex(s.f, ki, ni)))
    requires var t := CanonicalIndex(s.f, ki, ni);
      c == Step(s.mode, s.retain, cells[t], cells[t], s.checks.Eliminates(k, s.f, ki, ni), s.checks.Prime(k))
    ensures var t := CanonicalIndex(s.f, ki, ni); s.AtStage(start, start, cells[t := c], Sweep(k, t + 1))
  {
    var t := CanonicalIndex(s.f, ki, ni);
    PositionExact(s.f, ki, ni, ByK);
    StageAdvances(s, start, start, cells, Sweep(k, t), ki, ni, t, t, k, cells[t], c);
    StageChange(s, start, start, cells[t := c], Advanced(Sweep(k, t), t), Sweep(k, t + 1));
  }

  /** What a rule's scan has done when it stands at candidate (ki, ni). */
  method PremarkAt(ghost s: Scan, f: AffineExponentialFamily, retain: bool, board: Board, rule: ForbiddenRule, ki: u64,
                   ni: u64, ghost k: nat, ghost start: seq<Cell>)
    returns (r: Result<(), Exception>)
    requires s.checks.Structures? && k < |s.checks.rules| && rule == s.checks.rules[k] && WholeByK(s, f, retain)
    requires s.f.InRange(ki, ni) && Premarking(s, board, start, Sweep(k, CanonicalIndex(s.f, ki, ni)))
    modifies board
    ensures r.Ok? ==> Premarking(s, board, start, Sweep(k, CanonicalIndex(s.f, ki, ni) + 1))
    ensures r.Err? ==> r.error == LengthError && ScanTooLarge(s)
  {
    PositionExact(s.f, ki, ni, ByK);
    ghost var t := CanonicalIndex(s.f, ki, ni);
    ghost var cells := board.cells;
    assert s.checks.Prime(k) == rule.prime;
    r := PremarkCandidate(f, board, retain, rule, ki, ni);
    if r.Ok? {
      SweepAdvances(s, start, cells, k, ki, ni, board.cells[t]);
    }
  }

  /** A scan of all candidates in canonical order. */
  ghost predicate WholeByK(s: Scan, f: AffineExponentialFamily, retain: bool) {
    s.Valid() && s.f == f && s.retain == retain && s.o == ByK && s.begin == 0 && s.end == s.Count()
  }

  method PremarkRow(ghost s: Scan, f: AffineExponentialFamily, retain: bool, board: Board, rule: ForbiddenRule, ki: u64,
                    ghost k: nat, ghost start: seq<Cell>)
    returns (r: Result<(), Exception>)
    requires s.checks.Structures? && k < |s.checks.rules| && rule == s.checks.rules[k] && WholeByK(s, f, retain)
    requires ki < s.f.k.Count() && Premarking(s, board, start, Sweep(k, ki * s.f.n.Count()))
    modifies board
    ensures r.Ok? ==> Premarking(s, board, start, Sweep(k, (ki + 1) * s.f.n.Count()))
    ensures r.Err? ==> r.error == LengthError && ScanTooLarge(s)
  {
    hide Premarking, Progression.Count, Progression.Size, ScanTooLarge;
    var count := f.n.Count();
    var ni: u64 := 0;
    while ni < count
      invariant ni <= count && Premarking(s, board, start, Sweep(k, ki * count + ni))
    {
      r := PremarkAt(s, f, retain, board, rule, ki, ni, k, start);
      if r.Err? {
        return;
      }
      ni := ni + 1;
    }
    return Ok(());
  }

  method PremarkRule(ghost s: Scan, f: AffineExponentialFamily, retain: bool, board: Board, rule: ForbiddenRule,
                     ghost k: nat, ghost start: seq<Cell>)
    returns (r: Result<(), Exception>)
    requires s.checks.Structures? && k < |s.checks.rules| && rule == s.checks.rules[k] && WholeByK(s, f, retain)
    requires Premarking(s, board, start, Constant(k))
    modifies board
    ensures r.Ok? ==> Premarking(s, board, start, Constant(k + 1))
    ensures r.Err? ==> r.error == LengthError && ScanTooLarge(s)
  {
    PremarkingChange(s, board, start, Constant(k), Sweep(k, 0));
    assert 0 * s.f.n.Count() == 0;
    var rows := f.k.Count();
    var ki: u64 := 0;
    while ki < rows
      invariant ki <= rows && Premarking(s, board, start, Sweep(k, ki * s.f.n.Count()))
    {
      r := PremarkRow(s, f, retain, board, rule, ki, k, start);
      if r.Err? {
        return;
      }
      ki := ki + 1;
    }
    PremarkingChange(s, board, start, Sweep(k, ki * s.f.n.Count()), Constant(k + 1));
    return Ok(());
  }

  method PremarkTable(ghost s: Scan, f: AffineExponentialFamily, retain: bool, board: Board,
                      tables: seq<PrimeRuleTable>, i: nat, ghost start: seq<Cell>)
    returns (r: Result<(), Exception>)
    requires WholeByK(s, f, retain) && s.checks.Structures? && s.checks.rules == Flattened(tables) && i < |tables|
    requires Premarking(s, board, start, Constant(|Flattened(tables[..i])|))
    modifies board
    ensures r.Ok? ==> Premarking(s, board, start, Constant(|Flattened(tables[..i + 1])|))
    ensures r.Err? ==> r.error == LengthError && ScanTooLarge(s)
  {
    hide Premarking;
    ghost var before := |Flattened(tables[..i])|;
    FlattenedPrefix(tables, i);
    assert tables[..i + 1][..i] == tables[..i];
    var rules := tables[i].rules;
    var j := 0;
    while j < |rules|
      invariant 0 <= j <= |rules| && Premarking(s, board, start, Constant(before + j))
    {
      r := PremarkRule(s, f, retain, board, rules[j], before + j, start);
      if r.Err? {
        return;
      }
      j := j + 1;
    }
    return Ok(());
  }

  /** Every unmarked candidate took the verdict of these primes, marked ones stayed. */
  ghost predicate UnionMarked(f: AffineExponentialFamily, retain: bool, start: seq<Cell>, cells: seq<Cell>,
    primes: seq<u64>)
    requires f.Valid()
  {
    |start| == |cells| == CandidateCount(f) &&
    forall ki, ni :: f.InRange(ki, ni) ==> UnionMarkedAt(f, retain, start, cells, primes, ki, ni)
  }

  ghost predicate UnionMarkedAt(f: AffineExponentialFamily, retain: bool, start: seq<Cell>, cells: seq<Cell>,
                                primes: seq<u64>, ki: nat, ni: nat)
    requires f.InRange(ki, ni) && |start| == |cells| == CandidateCount(f)
  {
    PositionExact(f, ki, ni, ByK);
    var i := CanonicalIndex(f, ki, ni);
    cells[i] == Outcome(Premark, retain, start[i], Verdict(f, primes, ki, ni))
  }

  lemma PremarkStart(s: Scan, board: Board)
    requires s.Valid() && s.mode == Premark && board.Shape(s.Count(), s.retain) && AllConsistent(board.cells, s.retain)
    ensures Premarking(s, board, board.cells, Constant(0))
  {
  }

  /** A finished premarking reached the verdict of its primes. */
  lemma PremarkVerdict(s: Scan, board: Board, start: seq<Cell>, primes: seq<u64>)
    requires WholeByK(s, s.f, s.retain) && Premarking(s, board, start, Constant(s.checks.Count()))
    requires Ascending(primes) && Complete(s.checks, s.f, primes)
    ensures UnionMarked(s.f, s.retain, start, board.cells, primes)
    ensures board.Shape(s.Count(), s.retain) && AllConsistent(board.cells, s.retain)
  {
    forall ki, ni | s.f.InRange(ki, ni)
      ensures UnionMarkedAt(s.f, s.retain, start, board.cells, primes, ki, ni)
    {
      assert s.CellAtStage(start, start, board.cells, Constant(s.checks.Count()), ki, ni);
      PositionExact(s.f, ki, ni, ByK);
      FoundIsVerdict(s.checks, s.f, primes, ki, ni);
    }
  }

  lemma NoRules(tables: seq<PrimeRuleTable>)
    ensures |Flattened(tables[..0])| == 0
  {
  }

  /** premark_small_prime_union: an unmarked candidate becomes marked exactly when one
      of the first primes properly divides it, with the least of them as witness. */
  method PremarkSmallPrimeUnion(f: AffineExponentialFamily, all: seq<PrimeRuleTable>, ghost primes: seq<u64>,
                                primeCount: u64, board: Board, retain: bool)
    returns (r: Result<(), Exception>)
    requires f.Valid() && CandidateCount(f) <= MAX_U64 && TablesFor(all, f, primes)
    requires board.Shape(CandidateCount(f), retain) && AllConsistent(board.cells, retain)
    modifies board
    ensures r.Ok? ==> board.Shape(CandidateCount(f), retain) && AllConsistent(board.cells, retain)
    ensures r.Ok? ==> UnionMarked(f, retain, old(board.cells), board.cells, primes[..Min(primeCount, |primes|)])
    ensures r.Err? ==> r.error == LengthError && ListTooLarge(f, primes)
  {
    hide Premarking, Progression.Count, Progression.Size, ScanTooLarge, Flattened;
    var limit := Min(primeCount, |all|);
    ghost var some := primes[..limit];
    var tables := all[..limit];
    StructuresComplete(tables, f, some);
    ghost var start := board.cells;
    ghost var s := Scan(f, Structures(Flattened(tables)), Premark, retain, ByK, 0, CandidateCount(f));
    PremarkStart(s, board);
    NoRules(tables);
    var i := 0;
    while i < limit
      invariant 0 <= i <= limit && Premarking(s, board, start, Constant(|Flattened(tables[..i])|))
    {
      r := PremarkTable(s, f, retain, board, tables, i, start);
      if r.Err? {
        ScanListTooLarge(s, primes);
        return;
      }
      i := i + 1;
    }
    assert tables[..i] == tables;
    PremarkVerdict(s, board, start, some);
    return Ok(());
  }

  /** Some candidate that a listed prime divides needs its exact value and is too large. */
  ghost predicate ListTooLarge(f: AffineExponentialFamily, primes: seq<u64>) {
    exists ki, ni, q :: f.InRange(ki, ni) && q in primes && SieveTooLarge(f, ki, ni, q)
  }

  lemma ScanListTooLarge(s: Scan, primes: seq<u64>)
    requires s.Valid() && ScanTooLarge(s) && forall k :: 0 <= k < s.checks.Count() ==> s.checks.Prime(k) in primes
    ensures ListTooLarge(s.f, primes)
  {
  }
}
