/** Segments handed to workers in any order: what is scanned after any part of a
    schedule, and how private outputs are merged (src/family_sieve/family_sieve.cpp). */
module SieveWorkers {
  import opened NumberTheory
  import opened MachineArithmetic
  import opened Progressions
  import opened CompiledRules
  import opened Eliminations
  import opened SieveCells
  import opened SieveScan
  import opened SieveLoops
  import opened ResidueScan
  import opened RuleTables
  import opened Words
  import opened Wrappers

  // ----- options

  datatype CandidateStorage = List | DenseBitset
  datatype LoopOrder = PrimeMajor | CandidateMajor
  datatype MetadataLayout = ArrayOfStructures | StructureOfArrays

  /** The options that steer a run; placement, vector mode and huge pages are not modelled. */
  datatype Options = Options(
    storage: CandidateStorage, orientation: BitsetOrientation, loopOrder: LoopOrder, metadataLayout: MetadataLayout,
    segmentCandidates: u64, threads: u32, compressedClasses: bool, enumerateResidueClasses: bool,
    wheelPrimeCount: u64, crtPrimeCount: u64, crtMemoryLimitBytes: u64, explicitPrefetch: bool,
      retainFactorWitnesses: bool)
  {
    /** use_residue_enumeration */
    predicate UseResidueEnumeration() {
      && enumerateResidueClasses && compressedClasses && orientation == ByK && loopOrder == PrimeMajor
      && metadataLayout == ArrayOfStructures && !explicitPrefetch
    }

    function RecordingMode(): Mode {
      if storage == List then WorkerList
      else if orientation == ByK && segmentCandidates % 64 == 0 then Direct
      else WorkerDense
    }
  }

  /** The part of a run that every segment shares. */
  datatype Plan = Plan(f: AffineExponentialFamily, checks: Checks, options: Options) {
    ghost predicate Valid() {
      && f.Valid() && checks.Ordered() && CandidateCount(f) <= MAX_U64 && options.segmentCandidates > 0
      && (checks.EveryPrime? <==> !options.compressedClasses)
      && (options.compressedClasses ==> (checks.Columns? <==> options.metadataLayout == StructureOfArrays))
    }

    function Mode(): Mode {
      options.RecordingMode()
    }

    function Retain(): bool {
      options.retainFactorWitnesses
    }

    function SegmentScan(segment: nat): Scan
      requires f.Valid()
    {
      var begin := SegmentBegin(segment, options.segmentCandidates);
      Scan(f, checks, Mode(), Retain(), options.orientation, begin,
        Min(CandidateCount(f), begin + options.segmentCandidates))
    }
  }

  function SegmentBegin(segment: nat, size: nat): nat {
    MulMonotone(size, 0, segment);
    segment * size
  }

  // ----- one segment

  /** scan_segment: the loop the options ask for. */
  method ScanSegment(p: Plan, s: Scan, board: Board, worker: Worker, ghost pre: seq<Cell>, ghost start: seq<Cell>)
    returns (r: Result<(), Exception>)
    requires p.Valid() && s.checks == p.checks && s.o == p.options.orientation
    requires Running(s, board, worker, pre, start, Constant(0))
    modifies board, worker
    ensures r.Ok? ==> Running(s, board, worker, pre, start, Constant(s.checks.Count()))
    ensures !OnBoard(s.mode) ==> unchanged(board)
    ensures r.Err? ==> r.error == LengthError && ScanTooLarge(s)
  {
    if p.options.UseResidueEnumeration() {
      r := ScanByResidue(s, board, worker, pre, start);
    } else if p.options.loopOrder == PrimeMajor {
      r := ScanPrimeMajor(s, board, worker, pre, start);
    } else {
      r := ScanCandidateMajor(s, board, worker, pre, start);
    }
  }

  /** The cells after scanning these segments and no others. */
  ghost predicate Scanned(p: Plan, mode: Mode, pre: seq<Cell>, cells: seq<Cell>, done: set<nat>)
    requires p.Valid()
  {
    |pre| == |cells| == CandidateCount(p.f) &&
    forall ki, ni :: p.f.InRange(ki, ni) ==> ScannedAt(p, mode, pre, cells, done, ki, ni)
  }

  ghost function SegmentAt(p: Plan, ki: nat, ni: nat): nat
    requires p.f.InRange(ki, ni) && p.options.segmentCandidates > 0
  {
    QuotientBounds(Position(p.f, ki, ni, p.options.orientation), p.options.segmentCandidates);
    Position(p.f, ki, ni, p.options.orientation) / p.options.segmentCandidates
  }

  ghost predicate ScannedAt(p: Plan, mode: Mode, pre: seq<Cell>, cells: seq<Cell>, done: set<nat>, ki: nat, ni: nat)
    requires p.Valid() && |pre| == |cells| == CandidateCount(p.f) && p.f.InRange(ki, ni)
  {
    PositionExact(p.f, ki, ni, ByK);
    var i := CanonicalIndex(p.f, ki, ni);
    cells[i] == Outcome(mode, p.Retain(), pre[i],
      if SegmentAt(p, ki, ni) in done then p.checks.Found(p.checks.Count(), p.f, ki, ni) else None)
  }

  lemma SegmentMember(t: nat, size: nat, segment: nat, count: nat)
    requires size > 0 && t < count
    ensures t / size == segment <==> SegmentBegin(segment, size) <= t < Min(count, SegmentBegin(segment, size) + size)
  {
    QuotientBounds(t, size);
    if segment * size <= t < segment * size + size {
      DivModUnique(t, size, segment, t - segment * size);
    }
    assert (t / size + 1) * size == (t / size) * size + size;
  }

  lemma PositionBelowCount(f: AffineExponentialFamily, ki: nat, ni: nat, o: BitsetOrientation)
    requires f.InRange(ki, ni)
    ensures Position(f, ki, ni, o) < CandidateCount(f) && CanonicalIndex(f, ki, ni) < CandidateCount(f)
  {
    PositionExact(f, ki, ni, o);
  }

  lemma ScanStarts(p: Plan, pre: seq<Cell>, cells: seq<Cell>, done: set<nat>, segment: nat)
    requires p.Valid() && Scanned(p, p.Mode(), pre, cells, done) && segment !in done && p.SegmentScan(segment).Valid()
    ensures p.SegmentScan(segment).AtStage(pre, cells, cells, Constant(0))
  {
    var s := p.SegmentScan(segment);
    forall ki, ni | p.f.InRange(ki, ni)
      ensures s.CellAtStage(pre, cells, cells, Constant(0), ki, ni)
    {
      PositionBelowCount(p.f, ki, ni, s.o);
      assert ScannedAt(p, p.Mode(), pre, cells, done, ki, ni);
      SegmentMember(Position(p.f, ki, ni, s.o), p.options.segmentCandidates, segment, CandidateCount(p.f));
    }
  }

  lemma ScanFinishes(p: Plan, pre: seq<Cell>, start: seq<Cell>, cells: seq<Cell>, done: set<nat>, segment: nat)
    requires p.Valid() && Scanned(p, p.Mode(), pre, start, done) && p.SegmentScan(segment).Valid()
    requires p.SegmentScan(segment).AtStage(pre, start, cells, Constant(p.checks.Count()))
    ensures Scanned(p, p.Mode(), pre, cells, done + {segment})
  {
    var s := p.SegmentScan(segment);
    forall ki, ni | p.f.InRange(ki, ni)
      ensures ScannedAt(p, p.Mode(), pre, cells, done + {segment}, ki, ni)
    {
      PositionBelowCount(p.f, ki, ni, s.o);
      assert ScannedAt(p, p.Mode(), pre, start, done, ki, ni);
      assert s.CellAtStage(pre, start, cells, Constant(p.checks.Count()), ki, ni);
      SegmentMember(Position(p.f, ki, ni, s.o), p.options.segmentCandidates, segment, CandidateCount(p.f));
    }
  }

  /** The board and a worker are ready for the next segment. */
  ghost predicate Prepared(p: Plan, board: Board, worker: Worker, pre: seq<Cell>)
    reads board, worker
  {
    && p.Valid() && board.Shape(CandidateCount(p.f), p.Retain()) && worker.Shape(CandidateCount(p.f), p.Mode())
    && AllConsistent(board.cells, p.Retain()) && AllConsistent(pre, p.Retain())
    && (!OnBoard(p.Mode()) ==> board.cells == pre)
  }

  ghost predicate PlanTooLarge(p: Plan)
    requires p.Valid()
  {
    exists ki, ni, k :: p.f.InRange(ki, ni) && 0 <= k < p.checks.Count()
      && SieveTooLarge(p.f, ki, ni, p.checks.Prime(k))
  }

  /** process_segment */
  method ProcessSegment(p: Plan, board: Board, worker: Worker, segment: nat, ghost pre: seq<Cell>, ghost done: set<nat>)
    returns (r: Result<(), Exception>)
    requires Prepared(p, board, worker, pre) && Scanned(p, p.Mode(), pre, Written(p.Mode(), board, worker), done)
    requires segment !in done && SegmentBegin(segment, p.options.segmentCandidates) < CandidateCount(p.f)
    modifies board, worker
    ensures r.Ok? ==> Prepared(p, board, worker, pre)
    ensures r.Ok? ==> Scanned(p, p.Mode(), pre, Written(p.Mode(), board, worker), done + {segment})
    ensures !OnBoard(p.Mode()) ==> unchanged(board)
    ensures r.Err? ==> r.error == LengthError && PlanTooLarge(p)
  {
    var s := p.SegmentScan(segment);
    ghost var start := Written(p.Mode(), board, worker);
    ScanStarts(p, pre, start, done, segment);
    r := ScanSegment(p, s, board, worker, pre, start);
    if r.Ok? {
      ScanFinishes(p, pre, start, Written(p.Mode(), board, worker), done, segment);
    }
  }

  // ----- schedules

  datatype Assignment = Assignment(worker: nat, segment: nat)

  /** Every segment goes to exactly one worker, in any order. */
  ghost predicate IsSchedule(schedule: seq<Assignment>, workers: nat, segments: nat) {
    && (forall i :: 0 <= i < |schedule| ==> schedule[i].worker < workers && schedule[i].segment < segments)
    && (forall i, j :: 0 <= i < j < |schedule| ==> schedule[i].segment != schedule[j].segment)
    && (forall g :: 0 <= g < segments ==> g in SegmentsBelow(schedule, workers))
  }

  ghost function SegmentsOf(schedule: seq<Assignment>, worker: nat): set<nat> {
    set i | 0 <= i < |schedule| && schedule[i].worker == worker :: schedule[i].segment
  }

  ghost function SegmentsBelow(schedule: seq<Assignment>, workers: nat): set<nat> {
    set i | 0 <= i < |schedule| && schedule[i].worker < workers :: schedule[i].segment
  }

  lemma ScheduleStep(schedule: seq<Assignment>, i: nat, worker: nat)
    requires i < |schedule|
    ensures SegmentsOf(schedule[..i + 1], worker) ==
      SegmentsOf(schedule[..i], worker) + if schedule[i].worker == worker then {schedule[i].segment} else {}
    ensures SegmentsBelow(schedule[..i + 1], worker) ==
      SegmentsBelow(schedule[..i], worker) + if schedule[i].worker < worker then {schedule[i].segment} else {}
  {
    var longer := schedule[..i + 1];
    assert longer == schedule[..i] + [schedule[i]];
    assert forall j :: 0 <= j < i ==> longer[j] == schedule[..i][j];
    assert longer[i] == schedule[i];
  }

  lemma NotYetScheduled(schedule: seq<Assignment>, i: nat, worker: nat)
    requires i < |schedule| && forall a, b :: 0 <= a < b < |schedule| ==> schedule[a].segment != schedule[b].segment
    ensures schedule[i].segment !in SegmentsOf(schedule[..i], worker)
    ensures schedule[i].segment !in SegmentsBelow(schedule[..i], worker)
  {
  }
}
