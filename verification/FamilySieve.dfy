/** The family sieve: whatever the options and the schedule, its words are the
    scalar reference's words (src/family_sieve/family_sieve.cpp). */
module FamilySieve {
  import opened NumberTheory
  import opened MachineArithmetic
  import opened Progressions
  import opened CompiledRules
  import opened Eliminations
  import opened SieveCells
  import opened SieveScan
  import opened SieveLoops
  import opened RuleTables
  import opened SievePremark
  import opened BoundedMagnitude
  import opened CrtTemplate
  import opened SieveWorkers
  import opened SieveMerge
  import opened SieveVerdict
  import opened ReferenceWords
  import opened Words
  import opened Wrappers

  /** checked_candidate_count */
  function CheckedCandidateCount(f: AffineExponentialFamily): (r: Result<u64, Exception>)
    requires f.Valid()
    ensures r == if CandidateCount(f) <= MAX_U64 then Ok(CandidateCount(f)) else Err(LengthError)
  {
    ProductFits(f.k.Count(), f.n.Count(), MAX_U64);
    if f.k.Count() > MAX_U64 / f.n.Count() then Err(LengthError) else Ok(f.k.Count() * f.n.Count())
  }

  // ----- words and segments

  /** A std::vector of 64-bit words holds no more. */
  const MAX_ELEMENTS: int := 0x0FFF_FFFF_FFFF_FFFF

  /** The rounded-up quotient as the words compute it: the sum before the division wraps. */
  function SegmentCount(count: u64, size: u64): u64
    requires size > 0
  {
    SumQuotient(count, size);
    ((count + size - 1) % TWO_TO_64) / size
  }

  lemma SumQuotient(count: nat, size: nat)
    requires size > 0
    ensures 0 <= ((count + size - 1) % TWO_TO_64) / size < TWO_TO_64
  {
    QuotientBounds((count + size - 1) % TWO_TO_64, size);
  }

  predicate SegmentsWrap(count: nat, size: nat) {
    count + size - 1 > MAX_U64
  }

  /** Without the wrap the segments tile the candidates; with it there are none. */
  lemma SegmentsTile(count: u64, size: u64)
    requires size > 0
    ensures SegmentsWrap(count, size) ==> SegmentCount(count, size) == 0
    ensures !SegmentsWrap(count, size) ==> forall t: nat :: t < count ==> 0 <= t / size < SegmentCount(count, size)
    ensures forall g: nat :: g < SegmentCount(count, size) ==> SegmentBegin(g, size) < count
  {
    if SegmentsWrap(count, size) {
      DivModUnique(count + size - 1, TWO_TO_64, 1, count + size - 1 - TWO_TO_64);
      DivModUnique(count + size - 1 - TWO_TO_64, size, 0, count + size - 1 - TWO_TO_64);
    } else {
      DivModUnique(count + size - 1, TWO_TO_64, 0, count + size - 1);
      var n := (count + size - 1) / size;
      QuotientBounds(count + size - 1, size);
      assert (n + 1) * size == n * size + size;
      forall t: nat | t < count
        ensures 0 <= t / size < n
      {
        QuotientBounds(t, size);
        DivMonotoneStep(t, size, count);
      }
      forall g: nat | g < n
        ensures SegmentBegin(g, size) < count
      {
        MulMonotone(size, g + 1, n);
        assert (g + 1) * size == g * size + size;
      }
    }
  }

  lemma DivMonotoneStep(t: nat, size: nat, count: nat)
    requires size > 0 && t < count
    ensures t / size < (count + size - 1) / size
  {
    QuotientBounds(t, size);
    QuotientBounds(count + size - 1, size);
    var q, n := t / size, (count + size - 1) / size;
    MulMonotone(size, n + 1, if q >= n then q + 1 else n + 1);
    assert (q + 1) * size == q * size + size && (n + 1) * size == n * size + size;
  }

  /** In direct mode two segments never share a word of the result. */
  lemma SegmentsOwnWords(size: nat, g: nat, h: nat, i: nat, j: nat)
    requires size > 0 && size % 64 == 0 && g < h
    requires SegmentBegin(g, size) <= i < SegmentBegin(g, size) + size
    requires SegmentBegin(h, size) <= j < SegmentBegin(h, size) + size
    ensures i / 64 < j / 64
  {
    var w := size / 64;
    assert size == 64 * w;
    MulMonotone(size, g + 1, h);
    assert (g + 1) * size == g * size + size;
    assert h * size == 64 * (h * w);
    WordOrder(i, j, h * w);
  }

  lemma WordOrder(i: nat, j: nat, boundary: int)
    requires i < 64 * boundary <= j
    ensures i / 64 < j / 64
  {
  }

  function ThreadCount(options: Options, segments: u64): nat {
    Max(1, Min(options.threads, segments))
  }

  /** The static partition, in segment order, is one of the schedules. */
  lemma StaticPartition(segments: nat, workers: nat)
    requires workers > 0
    ensures IsSchedule(seq(segments, g requires 0 <= g < segments => Assignment(g % workers, g)), workers, segments)
  {
    var schedule := seq(segments, g requires 0 <= g < segments => Assignment(g % workers, g));
    forall g | 0 <= g < segments
      ensures g in SegmentsBelow(schedule, workers)
    {
      assert schedule[g].segment == g && schedule[g].worker < workers;
    }
  }

  // ----- the steps of a run

  /** The checks the options select. */
  method SelectChecks(table: CompiledTable, options: Options) returns (checks: Checks)
    requires ExactTable(table)
    ensures checks.Ordered() && Complete(checks, table.family, table.primes)
    ensures checks.EveryPrime? <==> !options.compressedClasses
    ensures options.compressedClasses ==> (checks.Columns? <==> options.metadataLayout == StructureOfArrays)
  {
    var rules := FlattenRules(table.primeTables);
    StructuresComplete(table.primeTables, table.family, table.primes);
    if !options.compressedClasses {
      EveryPrimeComplete(table.family, table.primes);
      return EveryPrime(table.primes);
    }
    if options.metadataLayout == StructureOfArrays {
      var columns := MakeColumns(rules);
      ColumnsComplete(columns, rules, table.family, table.primes);
      return Columns(columns);
    }
    return Structures(rules);
  }

  /** The blank cells every run starts from. */
  ghost function Blank(count: nat): seq<Cell> {
    seq(count, _ => Cell(false, 0))
  }

  lemma UnionOfNothing(f: AffineExponentialFamily, retain: bool, cells: seq<Cell>)
    requires f.Valid() && |cells| == CandidateCount(f)
    ensures UnionMarked(f, retain, cells, cells, [])
  {
    forall ki, ni | f.InRange(ki, ni)
      ensures UnionMarkedAt(f, retain, cells, cells, [], ki, ni)
    {
      PositionExact(f, ki, ni, ByK);
    }
  }

  method PremarkTemplate(table: CompiledTable, options: Options, board: Board) returns (r: Result<bool, Exception>)
    requires ExactTable(table) && CandidateCount(table.family) <= MAX_U64
    requires board.Shape(CandidateCount(table.family), options.retainFactorWitnesses)
    requires board.cells == Blank(CandidateCount(table.family))
    modifies board
    ensures r.Ok? ==> Premarked(table, options, board) && TemplateMarked(table, options, board.cells)
    ensures r.Ok? && options.crtPrimeCount < 2 ==> board.cells == Blank(CandidateCount(table.family))
    ensures r.Err? ==> r.error == LengthError && ListTooLarge(table.family, table.primes)
  {
    ghost var f, retain := table.family, options.retainFactorWitnesses;
    BlankIsSound(f, table.primes, retain);
    if options.crtPrimeCount == 0 {
      UnappliedMarks(table, options, board.cells);
      return Ok(false);
    }
    r := PremarkCrtTemplate(table.family, table.primeTables, table.primes, options.crtPrimeCount,
      options.crtMemoryLimitBytes, board, options.retainFactorWitnesses);
    if r.Ok? && r.value {
      ghost var limit := Min(options.crtPrimeCount, |table.primeTables|);
      ghost var rules := Flattened(table.primeTables[..limit]);
      TemplateRules(table.primeTables[..limit], f, table.primes, limit);
      TemplateIsSound(f, table.primes, retain, rules, old(board.cells), board.cells);
      TemplateIsConsistent(f, retain, rules, old(board.cells), board.cells);
      AppliedMarks(table, options, old(board.cells), board.cells);
    } else if r.Ok? {
      UnappliedMarks(table, options, board.cells);
    }
  }

  /** The first prime with an index class over the candidate properly divides it. */
  ghost predicate ClassMarks(f: AffineExponentialFamily, rules: seq<ForbiddenRule>, ki: nat, ni: nat)
    requires f.InRange(ki, ni)
  {
    AllWellFormed(rules) && f.Admissible(ki, ni)
    && var q := FirstClass(rules, ki, ni); q != 0 && ProperFactor(f.Candidate(ki, ni), q)
  }

  /** The template of the first primes is applied and marks the candidate. */
  ghost predicate TemplateMarks(table: CompiledTable, options: Options, ki: nat, ni: nat)
    requires table.family.InRange(ki, ni)
  {
    && TemplateApplies(table.primeTables, options.crtPrimeCount, options.crtMemoryLimitBytes)
    && ClassMarks(table.family, Flattened(table.primeTables[..Min(options.crtPrimeCount, |table.primeTables|)]), ki, ni)
  }

  ghost predicate TemplateMarked(table: CompiledTable, options: Options, cells: seq<Cell>)
    requires table.family.Valid()
  {
    |cells| == CandidateCount(table.family) &&
    forall ki, ni :: table.family.InRange(ki, ni) ==> TemplateMarkedAt(table, options, cells, ki, ni)
  }

  ghost predicate TemplateMarkedAt(table: CompiledTable, options: Options, cells: seq<Cell>, ki: nat, ni: nat)
    requires table.family.InRange(ki, ni) && |cells| == CandidateCount(table.family)
  {
    PositionExact(table.family, ki, ni, ByK);
    cells[CanonicalIndex(table.family, ki, ni)].marked <==> TemplateMarks(table, options, ki, ni)
  }

  lemma UnappliedMarks(table: CompiledTable, options: Options, cells: seq<Cell>)
    requires table.family.Valid() && cells == Blank(CandidateCount(table.family))
    requires !TemplateApplies(table.primeTables, options.crtPrimeCount, options.crtMemoryLimitBytes)
    ensures TemplateMarked(table, options, cells)
  {
    hide TemplateApplies;
    forall ki, ni | table.family.InRange(ki, ni)
      ensures TemplateMarkedAt(table, options, cells, ki, ni)
    {
      PositionExact(table.family, ki, ni, ByK);
    }
  }

  lemma AppliedMarks(table: CompiledTable, options: Options, start: seq<Cell>, cells: seq<Cell>)
    requires table.family.Valid() && start == Blank(CandidateCount(table.family))
    requires TemplateApplies(table.primeTables, options.crtPrimeCount, options.crtMemoryLimitBytes)
    requires var rules := Flattened(table.primeTables[..Min(options.crtPrimeCount, |table.primeTables|)]);
      AllWellFormed(rules)
        && AppliedBelow(table.family, options.retainFactorWitnesses, rules, start, cells, CandidateCount(table.family))
    ensures TemplateMarked(table, options, cells)
  {
    hide TemplateApplies, FirstClass, AllWellFormed, ProperFactor, Flattened;
    var f, retain := table.family, options.retainFactorWitnesses;
    var rules := Flattened(table.primeTables[..Min(options.crtPrimeCount, |table.primeTables|)]);
    forall ki, ni | f.InRange(ki, ni)
      ensures TemplateMarkedAt(table, options, cells, ki, ni)
    {
      PositionExact(f, ki, ni, ByK);
      assert AppliedAt(f, retain, rules, start, cells, CandidateCount(f), ki, ni);
    }
  }

  /** The board holds consistent marks that stand for real eliminations. */
  ghost predicate Premarked(table: CompiledTable, options: Options, board: Board)
    reads board
  {
    && table.family.Valid() && board.Shape(CandidateCount(table.family), options.retainFactorWitnesses)
    && AllConsistent(board.cells, options.retainFactorWitnesses)
    && AllSound(table.family, table.primes, options.retainFactorWitnesses, board.cells)
  }

  method PremarkUnion(table: CompiledTable, options: Options, board: Board) returns (r: Result<(), Exception>)
    requires ExactTable(table) && CandidateCount(table.family) <= MAX_U64 && Premarked(table, options, board)
    modifies board
    ensures r.Ok? ==> Premarked(table, options, board)
    ensures r.Ok? ==> UnionMarked(table.family, options.retainFactorWitnesses, old(board.cells), board.cells,
      table.primes[..Min(options.wheelPrimeCount, |table.primes|)])
    ensures r.Err? ==> r.error == LengthError && ListTooLarge(table.family, table.primes)
  {
    ghost var limit := Min(options.wheelPrimeCount, |table.primes|);
    if options.wheelPrimeCount == 0 {
      UnionOfNothing(table.family, options.retainFactorWitnesses, board.cells);
      assert table.primes[..0] == [];
      return Ok(());
    }
    r := PremarkSmallPrimeUnion(table.family, table.primeTables, table.primes, options.wheelPrimeCount, board,
      options.retainFactorWitnesses);
    if r.Ok? {
      UnionIsSound(table.family, table.primes, limit, options.retainFactorWitnesses, old(board.cells), board.cells);
    }
  }

  method NewWorkers(threads: nat, count: nat, mode: Mode) returns (workers: seq<Worker>)
    ensures |workers| == threads && Distinct(workers) && fresh(workers)
    ensures forall w :: 0 <= w < threads ==> workers[w].Shape(count, mode) && workers[w].cells == Blank(count)
  {
    workers := [];
    while |workers| < threads
      invariant |workers| <= threads && Distinct(workers) && fresh(workers)
      invariant forall w :: 0 <= w < |workers| ==> workers[w].Shape(count, mode) && workers[w].cells == Blank(count)
    {
      var worker := new Worker(count, mode);
      workers := workers + [worker];
    }
  }

  lemma NothingScanned(p: Plan, mode: Mode, pre: seq<Cell>)
    requires p.Valid() && |pre| == CandidateCount(p.f)
    ensures Scanned(p, mode, pre, if OnBoard(mode) then pre else Blank(CandidateCount(p.f)), {})
  {
    var cells := if OnBoard(mode) then pre else Blank(CandidateCount(p.f));
    forall ki, ni | p.f.InRange(ki, ni)
      ensures ScannedAt(p, mode, pre, cells, {}, ki, ni)
    {
      PositionExact(p.f, ki, ni, ByK);
    }
  }

  /** The workers scan, and their outputs are merged. */
  method ScanAndMerge(p: Plan, board: Board, threads: nat, schedule: seq<Assignment>, ghost segments: nat)
    returns (r: Result<(), Exception>)
    requires p.Valid() && board.Shape(CandidateCount(p.f), p.Retain()) && AllConsistent(board.cells, p.Retain())
    requires threads > 0 && IsSchedule(schedule, threads, segments)
    requires forall g :: 0 <= g < segments ==> SegmentBegin(g, p.options.segmentCandidates) < CandidateCount(p.f)
    modifies board
    ensures r.Ok? ==> board.Shape(CandidateCount(p.f), p.Retain())
    ensures r.Ok? ==> Scanned(p, Direct, old(board.cells), board.cells, SegmentsBelow(schedule, threads))
    ensures r.Err? ==> r.error == LengthError && PlanTooLarge(p)
  {
    var workers := NewWorkers(threads, CandidateCount(p.f), p.Mode());
    ghost var pre := board.cells;
    NothingScanned(p, p.Mode(), pre);
    assert forall w :: SegmentsOf([], w) == {} && SegmentsBelow([], w) == {};
    r := RunSchedule(p, board, workers, schedule, segments, pre);
    if r.Ok? {
      MergeOutputs(p, board, workers, schedule, pre);
    }
  }

  // ----- the result

  datatype SieveResult = SieveResult(words: seq<Word>, factorWitnesses: seq<u64>, candidateCount: u64,
    eliminatedCount: nat)

  /** The final count and the check that witnesses and words agree: it never fails. */
  method Finish(board: Board, count: u64, retain: bool) returns (r: Result<SieveResult, Exception>)
    requires board.Shape(count, retain) && AllConsistent(board.cells, retain)
    ensures r == Ok(SieveResult(board.words, board.witnesses, count, TotalBits(board.words)))
  {
    var eliminated := PopulationCount(board.words);
    if retain {
      var index := 0;
      while index < count
        invariant 0 <= index <= count
      {
        assert Consistent(board.cells[index], retain);
        if Bit(board.words, index) != (board.witnesses[index] != 0) {
          return Err(LogicError);
        }
        index := index + 1;
      }
    }
    return Ok(SieveResult(board.words, board.witnesses, count, eliminated));
  }

  /** The result these primes call for. */
  ghost predicate ResultFor(f: AffineExponentialFamily, primes: seq<u64>, retain: bool, r: SieveResult)
    requires f.Valid()
  {
    && r.words == Reference(f, primes) && r.candidateCount == CandidateCount(f)
    && r.eliminatedCount == |ReferenceList(f, primes, f.k.Count())|
    && r.factorWitnesses == if retain then LeastFactors(f, primes) else []
  }

  lemma DecidedResult(f: AffineExponentialFamily, primes: seq<u64>, retain: bool, board: Board)
    requires f.Valid() && CandidateCount(f) <= MAX_U64
    requires board.Shape(CandidateCount(f), retain) && Decided(f, primes, retain, board.cells)
    ensures ResultFor(f, primes, retain,
      SieveResult(board.words, board.witnesses, CandidateCount(f), TotalBits(board.words)))
    ensures AllConsistent(board.cells, retain)
  {
    DecidedWords(f, primes, retain, board);
    ReferenceCount(f, primes);
  }

  /** Premarks alone decide for the first primes, when no template preceded them. */
  lemma UnionDecides(f: AffineExponentialFamily, primes: seq<u64>, retain: bool, cells: seq<Cell>)
    requires f.Valid() && UnionMarked(f, retain, Blank(CandidateCount(f)), cells, primes)
    ensures Decided(f, primes, retain, cells)
  {
    forall ki, ni | f.InRange(ki, ni)
      ensures DecidedAt(f, primes, retain, cells, ki, ni)
    {
      PositionExact(f, ki, ni, ByK);
      assert UnionMarkedAt(f, retain, Blank(CandidateCount(f)), cells, primes, ki, ni);
    }
  }

  /** Sound marks are reference bits. */
  lemma SoundWords(f: AffineExponentialFamily, primes: seq<u64>, retain: bool, board: Board)
    requires f.Valid() && board.Shape(CandidateCount(f), retain) && AllSound(f, primes, retain, board.cells)
    ensures forall i: nat :: i < CandidateCount(f) && Bit(board.words, i) ==>
      i / 64 < |Reference(f, primes)| && Bit(Reference(f, primes), i)
  {
    forall i: nat | i < CandidateCount(f) && Bit(board.words, i)
      ensures i / 64 < |Reference(f, primes)| && Bit(Reference(f, primes), i)
    {
      var ki, ni := IndexDecodes(f, i);
      assert SoundAt(f, primes, retain, board.cells, ki, ni);
      ReferenceBit(f, primes, ki, ni);
    }
  }

  lemma AllSegmentsDone(p: Plan, schedule: seq<Assignment>, workers: nat, segments: nat)
    requires p.Valid() && IsSchedule(schedule, workers, segments)
    requires forall t: nat :: t < CandidateCount(p.f) ==> t / p.options.segmentCandidates < segments
    ensures forall ki, ni :: p.f.InRange(ki, ni) ==> SegmentAt(p, ki, ni) in SegmentsBelow(schedule, workers)
  {
    forall ki, ni | p.f.InRange(ki, ni)
      ensures SegmentAt(p, ki, ni) in SegmentsBelow(schedule, workers)
    {
      PositionBelowCount(p.f, ki, ni, p.options.orientation);
    }
  }

  lemma NoSegmentDone(schedule: seq<Assignment>, workers: nat)
    requires IsSchedule(schedule, workers, 0)
    ensures SegmentsBelow(schedule, workers) == {}
  {
  }

  /** The primes a run takes into account: all of them, or only the premarked ones
      when the segment count wraps to zero. */
  ghost function Effective(table: CompiledTable, options: Options): seq<u64>
    requires table.family.Valid()
  {
    if SegmentsWrap(CandidateCount(table.family), options.segmentCandidates) then FirstPrimes(table, options)
      else table.primes
  }

  /** The primes of the small-prime union. */
  ghost function FirstPrimes(table: CompiledTable, options: Options): seq<u64> {
    table.primes[..Min(options.wheelPrimeCount, |table.primes|)]
  }

  /** The candidate is marked before any segment is scanned: by the template or the union. */
  ghost predicate MarkedEarly(table: CompiledTable, options: Options, ki: nat, ni: nat)
    requires table.family.InRange(ki, ni)
  {
    TemplateMarks(table, options, ki, ni) || Eliminated(table.family, FirstPrimes(table, options), ki, ni)
  }

  /** Exactly the candidates marked before the scan have their bit. */
  ghost predicate EarlyWords(table: CompiledTable, options: Options, words: seq<Word>)
    requires table.family.Valid()
  {
    && |words| == WordCount(CandidateCount(table.family)) && NoPadding(words, CandidateCount(table.family))
    && forall ki, ni :: table.family.InRange(ki, ni) ==> EarlyBit(table, options, words, ki, ni)
  }

  ghost predicate EarlyBit(table: CompiledTable, options: Options, words: seq<Word>, ki: nat, ni: nat)
    requires table.family.InRange(ki, ni)
  {
    var i := CanonicalIndex(table.family, ki, ni);
    i / 64 < |words| && (Bit(words, i) <==> MarkedEarly(table, options, ki, ni))
  }

  /** Every elimination is already marked before the scan. */
  ghost predicate EarlySuffices(table: CompiledTable, options: Options)
    requires table.family.Valid()
  {
    forall ki, ni :: table.family.InRange(ki, ni) && Eliminated(table.family, table.primes, ki, ni) ==>
      MarkedEarly(table, options, ki, ni)
  }

  /** Premarks of a template and of a union over it. */
  lemma PremarksAreEarly(table: CompiledTable, options: Options, template: seq<Cell>, board: Board)
    requires ExactTable(table) && board.Shape(CandidateCount(table.family), options.retainFactorWitnesses)
    requires TemplateMarked(table, options, template)
    requires UnionMarked(table.family, options.retainFactorWitnesses, template, board.cells,
      FirstPrimes(table, options))
    ensures EarlyWords(table, options, board.words)
  {
    hide TemplateMarks, FirstPrimes;
    var f := table.family;
    forall ki, ni | f.InRange(ki, ni)
      ensures EarlyBit(table, options, board.words, ki, ni)
    {
      PositionExact(f, ki, ni, ByK);
      assert TemplateMarkedAt(table, options, template, ki, ni);
      assert UnionMarkedAt(f, options.retainFactorWitnesses, template, board.cells, FirstPrimes(table, options), ki,
        ni);
      assert board.cells[CanonicalIndex(f, ki, ni)].marked <==> MarkedEarly(table, options, ki, ni);
    }
  }

  /** Early words are the reference's exactly when every elimination is marked early. */
  lemma EarlyVerdict(table: CompiledTable, options: Options, words: seq<Word>)
    requires ExactTable(table) && EarlyWords(table, options, words)
    requires forall i: nat :: i < CandidateCount(table.family) && i / 64 < |words| && Bit(words, i) ==>
      i / 64 < |Reference(table.family, table.primes)| && Bit(Reference(table.family, table.primes), i)
    ensures words == Reference(table.family, table.primes) <==> EarlySuffices(table, options)
  {
    hide MarkedEarly, Reference;
    var f := table.family;
    forall ki, ni | f.InRange(ki, ni)
      ensures CanonicalIndex(f, ki, ni) / 64 < |words|
      ensures Bit(words, CanonicalIndex(f, ki, ni)) <==> MarkedEarly(table, options, ki, ni)
      ensures MarkedEarly(table, options, ki, ni) ==> Eliminated(f, table.primes, ki, ni)
      ensures words == Reference(f, table.primes) && Eliminated(f, table.primes, ki, ni) ==>
        MarkedEarly(table, options, ki, ni)
    {
      PositionExact(f, ki, ni, ByK);
      ReferenceBit(f, table.primes, ki, ni);
      assert EarlyBit(table, options, words, ki, ni);
    }
    if EarlySuffices(table, options) {
      WordsAreReference(f, table.primes, words);
    }
  }

  /** run on a validated table with usable options and a countable family. */
  method RunChecked(table: CompiledTable, options: Options, schedule: seq<Assignment>)
    returns (r: Result<SieveResult, Exception>)
    requires ExactTable(table) && options.threads > 0 && options.segmentCandidates > 0
      && CandidateCount(table.family) <= MAX_U64
    requires var segments := SegmentCount(CandidateCount(table.family), options.segmentCandidates);
      IsSchedule(schedule, ThreadCount(options, segments), segments)
    ensures r.Err? ==> r.error == LengthError && ListTooLarge(table.family, table.primes)
    ensures r.Ok? ==>
      options.crtPrimeCount < 2 || !SegmentsWrap(CandidateCount(table.family), options.segmentCandidates) ==>
      ResultFor(table.family, Effective(table, options), options.retainFactorWitnesses, r.value)
    ensures r.Ok? && SegmentsWrap(CandidateCount(table.family), options.segmentCandidates) ==>
      EarlyWords(table, options, r.value.words)
        && (r.value.words == Reference(table.family, table.primes) <==> EarlySuffices(table, options))
  {
    hide EarlyWords, EarlySuffices, TemplateMarked, Reference;
    var f, retain, size := table.family, options.retainFactorWitnesses, options.segmentCandidates;
    var count: u64 := f.k.Count() * f.n.Count();
    var checks := SelectChecks(table, options);
    var board := new Board(count, retain);
    var template := PremarkTemplate(table, options, board);
    if template.Err? {
      return Err(template.error);
    }
    ghost var templated := board.cells;
    var union := PremarkUnion(table, options, board);
    if union.Err? {
      return Err(union.error);
    }
    ghost var pre := board.cells;
    var segments := SegmentCount(count, size);
    SegmentsTile(count, size);
    var p := Plan(f, checks, options);
    var scanned := ScanAndMerge(p, board, ThreadCount(options, segments), schedule, segments);
    if scanned.Err? {
      assert forall k :: 0 <= k < checks.Count() ==> checks.Prime(k) in table.primes;
      return Err(scanned.error);
    }
    if SegmentsWrap(count, size) {
      NoSegmentDone(schedule, ThreadCount(options, segments));
      NoSegmentKeeps(p, pre, board.cells);
      SoundWords(f, table.primes, retain, board);
      PremarksAreEarly(table, options, templated, board);
      EarlyVerdict(table, options, board.words);
      if options.crtPrimeCount < 2 {
        UnionDecides(f, Effective(table, options), retain, board.cells);
        DecidedResult(f, Effective(table, options), retain, board);
      }
    } else {
      AllSegmentsDone(p, schedule, ThreadCount(options, segments), segments);
      EverySegmentDecides(p, table.primes, pre, board.cells, SegmentsBelow(schedule, ThreadCount(options, segments)));
      DecidedResult(f, table.primes, retain, board);
    }
    r := Finish(board, count, retain);
  }

  /** Whether a run without words touches none: nothing premarks and no segment is scanned. */
  predicate TouchesNoWord(table: CompiledTable, options: Options)
    requires table.family.Valid()
  {
    && Min(options.crtPrimeCount, |table.primes|) < 2 && Min(options.wheelPrimeCount, |table.primes|) == 0
    && SegmentsWrap(CandidateCount(table.family), options.segmentCandidates)
  }

  /** What the language defines: a run that allocates no words must not touch any, unless
      it fails before at the witnesses. */
  predicate Defined(table: CompiledTable, options: Options)
    requires table.family.Valid()
  {
    WordsWrap(CandidateCount(table.family)) ==> options.retainFactorWitnesses || TouchesNoWord(table, options)
  }

  /** The guard a caller can check: neither rounded-up sum wraps. */
  predicate Guarded(count: nat, size: nat) {
    !WordsWrap(count) && !SegmentsWrap(count, size)
  }

  /** run: for every option combination and every schedule the words are those of the
      scalar reference and the witnesses the least proper factors when neither rounded-up
      sum wraps. When the segment count wraps, exactly the premarked candidates have their
      bit; when the word count wraps there are no words. */
  method Run(table: CompiledTable, validated: bool, options: Options, schedule: seq<Assignment>)
    returns (r: Result<SieveResult, Exception>)
    requires validated ==> ExactTable(table)
    requires validated && options.segmentCandidates > 0 && CandidateCount(table.family) <= MAX_U64 ==>
      var segments := SegmentCount(CandidateCount(table.family), options.segmentCandidates);
      IsSchedule(schedule, ThreadCount(options, segments), segments)
    ensures !validated || options.threads == 0 || options.segmentCandidates == 0 ==> r == Err(InvalidArgument)
    ensures validated && options.threads > 0 && options.segmentCandidates > 0 && Defined(table, options) ==>
      var f, count, size := table.family, CandidateCount(table.family), options.segmentCandidates;
      && (count > MAX_U64 || (options.retainFactorWitnesses && count > MAX_ELEMENTS) ==> r == Err(LengthError))
      && (r.Err? && count <= MAX_U64 && !(options.retainFactorWitnesses && count > MAX_ELEMENTS) ==>
            r.error == LengthError && ListTooLarge(f, table.primes))
      && (r.Ok? && Guarded(count, size) ==> ResultFor(f, table.primes, options.retainFactorWitnesses, r.value))
      && (r.Ok? && WordsWrap(count) ==> r.value == SieveResult([], [], count, 0))
      && (r.Ok? && !WordsWrap(count) && SegmentsWrap(count, size) ==> EarlyWords(table, options, r.value.words))
      && (r.Ok? && !WordsWrap(count) && options.crtPrimeCount < 2 ==>
            ResultFor(f, Effective(table, options), options.retainFactorWitnesses, r.value))
      && (r.Ok? ==> (r.value.words == Reference(f, table.primes) <==>
            !WordsWrap(count) && (!SegmentsWrap(count, size) || EarlySuffices(table, options))))
  {
    hide ListTooLarge, EarlyWords, EarlySuffices, IsSchedule;
    if !validated {
      return Err(InvalidArgument);
    }
    if options.threads == 0 || options.segmentCandidates == 0 {
      return Err(InvalidArgument);
    }
    var count := CheckedCandidateCount(table.family);
    if count.Err? {
      return Err(count.error);
    }
    WordsAllocated(count.value);
    if options.retainFactorWitnesses && count.value > MAX_ELEMENTS {
      return Err(LengthError);
    }
    if AllocatedWords(count.value) < WordCount(count.value) {
      if !TouchesNoWord(table, options) {
        return Err(LogicError);  // the source indexes the empty vector here
      }
      SomeWords(table.family, table.primes);
      return Ok(SieveResult([], [], count.value, 0));
    }
    r := RunChecked(table, options, schedule);
  }

  lemma SomeWords(f: AffineExponentialFamily, primes: seq<u64>)
    requires f.Valid()
    ensures Reference(f, primes) != []
  {
    hide WordsOf;
    PositiveCount(f);
    ReferencePadding(f, primes);
    assert |Reference(f, primes)| == WordCount(CandidateCount(f)) by {
      ListsInRange(f, primes, f.k.Count());
    }
  }

  lemma PositiveCount(f: AffineExponentialFamily)
    requires f.Valid()
    ensures CandidateCount(f) > 0
  {
    hide Progression.Count, Progression.Size;
    SomeMember(f.k);
    SomeMember(f.n);
    MulMonotone(f.k.Count(), 1, f.n.Count());
  }

  lemma SomeMember(p: Progression)
    requires p.Valid()
    ensures p.Count() > 0
  {
    hide UnsignedDifference;
    QuotientBounds(UnsignedDifference(p.maximum, p.minimum), p.step);
  }
}
