/** The loop orders of scan_segment: whichever order visits the checks and the
    candidates, each cell of the segment ends at the outcome of the first check
    that eliminates it (src/family_sieve/family_sieve.cpp). */
module SieveLoops {
  import opened NumberTheory
  import opened MachineArithmetic
  import opened Progressions
  import opened CompiledRules
  import opened Eliminations
  import opened TableApplication
  import opened BoundedMagnitude
  import opened SieveCells
  import opened SieveScan
  import opened Words
  import opened Wrappers

  /** The fixed part of a scan. */
  datatype Scan = Scan(
    f: AffineExponentialFamily, checks: Checks, mode: Mode, retain: bool, o: BitsetOrientation,
    begin: nat, end: nat)
  {
    ghost predicate Valid() {
      && f.Valid() && checks.Ordered() && CandidateCount(f) <= MAX_U64 && begin <= end <= CandidateCount(f)
    }

    function Count(): nat
      requires f.Valid()
    {
      CandidateCount(f)
    }

    /** The cell after the first n checks of a candidate of the segment. */
    ghost function After(premarked: Cell, n: nat, ki: nat, ni: nat): Cell
      requires Valid() && f.InRange(ki, ni) && n <= checks.Count()
    {
      Outcome(mode, retain, premarked, checks.Found(n, f, ki, ni))
    }

    /** Every cell: at its position's stage inside the segment, untouched outside. */
    ghost predicate AtStage(pre: seq<Cell>, start: seq<Cell>, cells: seq<Cell>, stage: int -> int) {
      && Valid() && |pre| == |start| == |cells| == Count()
      && (forall t :: begin <= t < end ==> 0 <= stage(t) <= checks.Count())
      && forall ki, ni :: f.InRange(ki, ni) ==> CellAtStage(pre, start, cells, stage, ki, ni)
    }

    ghost predicate CellAtStage(pre: seq<Cell>, start: seq<Cell>, cells: seq<Cell>, stage: int -> int, ki: nat, ni: nat)
      requires Valid() && f.InRange(ki, ni) && |pre| == |start| == |cells| == Count()
      requires forall t :: begin <= t < end ==> 0 <= stage(t) <= checks.Count()
    {
      PositionExact(f, ki, ni, o);
      var i, t := CanonicalIndex(f, ki, ni), Position(f, ki, ni, o);
      cells[i] == if begin <= t < end then After(pre[i], stage(t), ki, ni) else start[i]
    }
  }

  ghost predicate AllConsistent(pre: seq<Cell>, retain: bool) {
    forall i :: 0 <= i < |pre| ==> Consistent(pre[i], retain)
  }

  /** Stages that agree on the segment are interchangeable. */
  lemma StageChange(s: Scan, pre: seq<Cell>, start: seq<Cell>, cells: seq<Cell>, stage: int -> int, stage': int -> int)
    requires s.AtStage(pre, start, cells, stage)
    requires forall t :: s.begin <= t < s.end ==> stage(t) == stage'(t)
    ensures s.AtStage(pre, start, cells, stage')
  {
    forall ki, ni | s.f.InRange(ki, ni)
      ensures s.CellAtStage(pre, start, cells, stage', ki, ni)
    {
      assert s.CellAtStage(pre, start, cells, stage, ki, ni);
    }
  }

  function Advanced(stage: int -> int, t: int): int -> int {
    x => if x == t then stage(x) + 1 else stage(x)
  }

  lemma CanonicalInjective(f: AffineExponentialFamily, ki: nat, ni: nat, kj: nat, nj: nat)
    requires f.InRange(ki, ni) && f.InRange(kj, nj) && CanonicalIndex(f, ki, ni) == CanonicalIndex(f, kj, nj)
    ensures ki == kj && ni == nj
  {
    PositionExact(f, ki, ni, ByK);
    PositionExact(f, kj, nj, ByK);
  }

  lemma PositionInjective(f: AffineExponentialFamily, ki: nat, ni: nat, kj: nat, nj: nat, o: BitsetOrientation)
    requires f.InRange(ki, ni) && f.InRange(kj, nj) && Position(f, ki, ni, o) == Position(f, kj, nj, o)
    ensures ki == kj && ni == nj
  {
    PositionExact(f, ki, ni, o);
    PositionExact(f, kj, nj, o);
  }

  /** One inspection of the candidate at position t brings its cell to the next stage. */
  lemma CellAdvances(s: Scan, premarked: Cell, pre: Cell, k: nat, ki: nat, ni: nat)
    requires s.Valid() && s.f.InRange(ki, ni) && k < s.checks.Count() && Consistent(pre, s.retain)
    requires !OnBoard(s.mode) ==> premarked == pre
    ensures Step(s.mode, s.retain, premarked, s.After(pre, k, ki, ni), s.checks.Eliminates(k, s.f, ki, ni),
      s.checks.Prime(k))
      == s.After(pre, k + 1, ki, ni)
  {
    FoundBounded(s.checks, k, s.f, ki, ni);
    StepKeepsOutcome(s.mode, s.retain, pre, s.checks.Found(k, s.f, ki, ni),
      s.checks.Eliminates(k, s.f, ki, ni), s.checks.Prime(k));
  }

  lemma OtherCellsStay(s: Scan, pre: seq<Cell>, start: seq<Cell>, cells: seq<Cell>, stage: int -> int,
                       ki: nat, ni: nat, c: Cell, kj: nat, nj: nat)
    requires s.AtStage(pre, start, cells, stage) && s.f.InRange(ki, ni) && s.f.InRange(kj, nj)
    requires var t := Position(s.f, ki, ni, s.o); s.begin <= t < s.end && stage(t) < s.checks.Count()
    requires CanonicalIndex(s.f, ki, ni) < |cells| && (ki, ni) != (kj, nj)
    ensures s.CellAtStage(pre, start, cells[CanonicalIndex(s.f, ki, ni) := c],
      Advanced(stage, Position(s.f, ki, ni, s.o)), kj, nj)
  {
    assert s.CellAtStage(pre, start, cells, stage, kj, nj);
    PositionExact(s.f, kj, nj, s.o);
    if CanonicalIndex(s.f, kj, nj) == CanonicalIndex(s.f, ki, ni) {
      CanonicalInjective(s.f, ki, ni, kj, nj);
    }
    if Position(s.f, kj, nj, s.o) == Position(s.f, ki, ni, s.o) {
      PositionInjective(s.f, ki, ni, kj, nj, s.o);
    }
  }

  /** One inspection of the candidate at position t advances the stage of t. */
  lemma StageAdvances(s: Scan, pre: seq<Cell>, start: seq<Cell>, cells: seq<Cell>, stage: int -> int,
                      ki: nat, ni: nat, t: int, i: nat, k: nat, premarked: Cell, c: Cell)
    requires s.AtStage(pre, start, cells, stage) && AllConsistent(pre, s.retain) && s.f.InRange(ki, ni)
    requires t == Position(s.f, ki, ni, s.o) && s.begin <= t < s.end && k == stage(t) && k < s.checks.Count()
    requires i == CanonicalIndex(s.f, ki, ni) && i < |pre| && (!OnBoard(s.mode) ==> premarked == pre[i])
    requires c == Step(s.mode, s.retain, premarked, cells[i], s.checks.Eliminates(k, s.f, ki, ni), s.checks.Prime(k))
    ensures s.AtStage(pre, start, cells[i := c], Advanced(stage, t))
  {
    PositionExact(s.f, ki, ni, s.o);
    assert s.CellAtStage(pre, start, cells, stage, ki, ni);
    CellAdvances(s, premarked, pre[i], k, ki, ni);
    forall kj, nj | s.f.InRange(kj, nj)
      ensures s.CellAtStage(pre, start, cells[i := c], Advanced(stage, t), kj, nj)
    {
      if (ki, ni) != (kj, nj) {
        OtherCellsStay(s, pre, start, cells, stage, ki, ni, c, kj, nj);
      }
    }
  }

  /** A check that does not eliminate the candidate leaves its stage's cell as it is. */
  lemma StageSkips(s: Scan, pre: seq<Cell>, start: seq<Cell>, cells: seq<Cell>, stage: int -> int, stage': int -> int)
    requires s.AtStage(pre, start, cells, stage)
    requires forall t :: s.begin <= t < s.end ==> 0 <= stage'(t) <= s.checks.Count()
    requires forall ki, ni :: s.f.InRange(ki, ni) ==>
      var t := Position(s.f, ki, ni, s.o);
      s.begin <= t < s.end && stage'(t) != stage(t) ==>
        stage'(t) == stage(t) + 1 && !s.checks.Eliminates(stage(t), s.f, ki, ni)
    ensures s.AtStage(pre, start, cells, stage')
  {
    forall ki, ni | s.f.InRange(ki, ni)
      ensures s.CellAtStage(pre, start, cells, stage', ki, ni)
    {
      assert s.CellAtStage(pre, start, cells, stage, ki, ni);
    }
  }

  // ----- one visit

  ghost predicate Ready(s: Scan, board: Board, worker: Worker)
    reads board, worker
  {
    s.Valid() && s.mode != Premark && board.Shape(s.Count(), s.retain) && worker.Shape(s.Count(), s.mode)
  }

  /** The board a worker reads: fixed while it writes privately, and equal to the
      cells it writes when it writes directly. */
  ghost predicate Reads(s: Scan, board: Board, pre: seq<Cell>)
    reads board
  {
    AllConsistent(board.cells, s.retain) && AllConsistent(pre, s.retain) && (!OnBoard(s.mode) ==> board.cells == pre)
  }

  ghost predicate Running(s: Scan, board: Board, worker: Worker, pre: seq<Cell>, start: seq<Cell>, stage: int -> int)
    reads board, worker
  {
    Ready(s, board, worker) && Reads(s, board, pre)
    && s.AtStage(pre, start, Written(s.mode, board, worker), stage)
  }

  lemma StepConsistent(mode: Mode, retain: bool, premarked: Cell, c: Cell, eliminates: bool, prime: u64)
    requires Consistent(c, retain) && prime > 0 && OnBoard(mode)
    ensures Consistent(Step(mode, retain, premarked, c, eliminates, prime), retain)
  {
  }

  method Visit(s: Scan, board: Board, worker: Worker, t: u64, k: nat, matches: bool,
               ghost pre: seq<Cell>, ghost start: seq<Cell>, ghost stage: int -> int)
    returns (r: Result<(), Exception>)
    requires Running(s, board, worker, pre, start, stage)
    requires s.begin <= t < s.end && stage(t) == k < s.checks.Count()
    requires matches == s.checks.Matches(k, s.f, DecodeK(s.f, t, s.o), DecodeN(s.f, t, s.o))
    modifies board, worker
    ensures r.Ok? ==> Running(s, board, worker, pre, start, Advanced(stage, t))
    ensures !OnBoard(s.mode) ==> unchanged(board)
    ensures r.Err? ==> r.error == LengthError && ScanTooLarge(s)
  {
    DecodeExact(s.f, t, s.o);
    var ki: u64, ni: u64 := DecodeK(s.f, t, s.o), DecodeN(s.f, t, s.o);
    PositionExact(s.f, ki, ni, s.o);
    ghost var i := CanonicalIndex(s.f, ki, ni);
    ghost var cells := Written(s.mode, board, worker);
    ghost var premarked := board.cells[i];
    r := Inspect(s.f, s.mode, s.retain, board, worker, ki, ni, s.checks.Prime(k), matches);
    if r.Ok? {
      StageAdvances(s, pre, start, cells, stage, ki, ni, t, i, k, premarked, Written(s.mode, board, worker)[i]);
      if OnBoard(s.mode) {
        StepConsistent(s.mode, s.retain, premarked, cells[i], s.checks.Eliminates(k, s.f, ki, ni), s.checks.Prime(k));
      }
    }
  }

  /** Some candidate a listed prime divides cannot be evaluated exactly. */
  ghost predicate ScanTooLarge(s: Scan)
    requires s.Valid()
  {
    exists ki, ni, k :: s.f.InRange(ki, ni) && 0 <= k < s.checks.Count()
      && SieveTooLarge(s.f, ki, ni, s.checks.Prime(k))
  }

  // ----- the loop orders

  function Constant(n: int): int -> int {
    _ => n
  }

  /** n + 1 below the position, n from it on. */
  function Sweep(n: int, t: int): int -> int {
    x => if x < t then n + 1 else n
  }

  /** A visit that evaluates the check's own condition first. */
  method VisitChecked(s: Scan, board: Board, worker: Worker, t: u64, k: nat,
                      ghost pre: seq<Cell>, ghost start: seq<Cell>, ghost stage: int -> int, ghost stage': int -> int)
    returns (r: Result<(), Exception>)
    requires Running(s, board, worker, pre, start, stage)
    requires s.begin <= t < s.end && stage(t) == k < s.checks.Count()
    requires forall x :: s.begin <= x < s.end ==> stage'(x) == if x == t then k + 1 else stage(x)
    modifies board, worker
    ensures r.Ok? ==> Running(s, board, worker, pre, start, stage')
    ensures !OnBoard(s.mode) ==> unchanged(board)
    ensures r.Err? ==> r.error == LengthError && ScanTooLarge(s)
  {
    var matches := s.checks.Matches(k, s.f, DecodeK(s.f, t, s.o), DecodeN(s.f, t, s.o));
    r := Visit(s, board, worker, t, k, matches, pre, start, stage);
    if r.Ok? {
      StageChange(s, pre, start, Written(s.mode, board, worker), Advanced(stage, t), stage');
    }
  }

  lemma RunningChange(s: Scan, board: Board, worker: Worker, pre: seq<Cell>, start: seq<Cell>,
                      stage: int -> int, stage': int -> int)
    requires Running(s, board, worker, pre, start, stage)
    requires forall t :: s.begin <= t < s.end ==> stage(t) == stage'(t)
    ensures Running(s, board, worker, pre, start, stage')
  {
    StageChange(s, pre, start, Written(s.mode, board, worker), stage, stage');
  }

  lemma SegmentBounds(s: Scan, board: Board, worker: Worker, pre: seq<Cell>, start: seq<Cell>, stage: int -> int)
    requires Running(s, board, worker, pre, start, stage)
    ensures s.Valid() && s.begin <= s.end <= MAX_U64
  {
  }

  method SweepCheck(s: Scan, board: Board, worker: Worker, k: nat, ghost pre: seq<Cell>, ghost start: seq<Cell>)
    returns (r: Result<(), Exception>)
    requires k < s.checks.Count() && Running(s, board, worker, pre, start, Constant(k))
    modifies board, worker
    ensures r.Ok? ==> Running(s, board, worker, pre, start, Constant(k + 1))
    ensures !OnBoard(s.mode) ==> unchanged(board)
    ensures r.Err? ==> r.error == LengthError && ScanTooLarge(s)
  {
    hide Running, Scan.Valid, Progression.Count, Progression.Size, ScanTooLarge;
    SegmentBounds(s, board, worker, pre, start, Constant(k));
    var t: u64 := s.begin;
    RunningChange(s, board, worker, pre, start, Constant(k), Sweep(k, t));
    while t < s.end
      invariant s.begin <= t <= s.end
      invariant Running(s, board, worker, pre, start, Sweep(k, t))
      invariant !OnBoard(s.mode) ==> unchanged(board)
    {
      var step := VisitChecked(s, board, worker, t, k, pre, start, Sweep(k, t), Sweep(k, t + 1));
      if step.Err? {
        return step;
      }
      t := t + 1;
    }
    RunningChange(s, board, worker, pre, start, Sweep(k, t), Constant(k + 1));
    return Ok(());
  }

  /** Prime-major order: all positions for one check, then the next check. */
  method ScanPrimeMajor(s: Scan, board: Board, worker: Worker, ghost pre: seq<Cell>, ghost start: seq<Cell>)
    returns (r: Result<(), Exception>)
    requires Running(s, board, worker, pre, start, Constant(0))
    modifies board, worker
    ensures r.Ok? ==> Running(s, board, worker, pre, start, Constant(s.checks.Count()))
    ensures !OnBoard(s.mode) ==> unchanged(board)
    ensures r.Err? ==> r.error == LengthError && ScanTooLarge(s)
  {
    var k := 0;
    while k < s.checks.Count()
      invariant 0 <= k <= s.checks.Count()
      invariant Running(s, board, worker, pre, start, Constant(k))
      invariant !OnBoard(s.mode) ==> unchanged(board)
    {
      var step := SweepCheck(s, board, worker, k, pre, start);
      if step.Err? {
        return step;
      }
      k := k + 1;
    }
    return Ok(());
  }

  /** All checks done below the position, n of them at it, none after it. */
  function Front(total: int, t: int, n: int): int -> int {
    x => if x < t then total else if x == t then n else 0
  }

  method AllChecksAt(s: Scan, board: Board, worker: Worker, t: u64, ghost pre: seq<Cell>, ghost start: seq<Cell>)
    returns (r: Result<(), Exception>)
    requires s.begin <= t < s.end && Running(s, board, worker, pre, start, Front(s.checks.Count(), t, 0))
    modifies board, worker
    ensures r.Ok? ==> Running(s, board, worker, pre, start, Front(s.checks.Count(), t + 1, 0))
    ensures !OnBoard(s.mode) ==> unchanged(board)
    ensures r.Err? ==> r.error == LengthError && ScanTooLarge(s)
  {
    hide Running;
    var total := s.checks.Count();
    var k := 0;
    while k < total
      invariant 0 <= k <= total
      invariant Running(s, board, worker, pre, start, Front(total, t, k))
      invariant !OnBoard(s.mode) ==> unchanged(board)
    {
      var step := VisitChecked(s, board, worker, t, k, pre, start, Front(total, t, k), Front(total, t, k + 1));
      if step.Err? {
        return step;
      }
      k := k + 1;
    }
    RunningChange(s, board, worker, pre, start, Front(total, t, total), Front(total, t + 1, 0));
    return Ok(());
  }

  /** Candidate-major order: all checks for one position, then the next position. */
  method ScanCandidateMajor(s: Scan, board: Board, worker: Worker, ghost pre: seq<Cell>, ghost start: seq<Cell>)
    returns (r: Result<(), Exception>)
    requires Running(s, board, worker, pre, start, Constant(0))
    modifies board, worker
    ensures r.Ok? ==> Running(s, board, worker, pre, start, Constant(s.checks.Count()))
    ensures !OnBoard(s.mode) ==> unchanged(board)
    ensures r.Err? ==> r.error == LengthError && ScanTooLarge(s)
  {
    ghost var total := s.checks.Count();
    var t: u64 := s.begin;
    RunningChange(s, board, worker, pre, start, Constant(0), Front(total, t, 0));
    while t < s.end
      invariant s.begin <= t <= s.end
      invariant Running(s, board, worker, pre, start, Front(total, t, 0))
      invariant !OnBoard(s.mode) ==> unchanged(board)
    {
      var step := AllChecksAt(s, board, worker, t, pre, start);
      if step.Err? {
        return step;
      }
      t := t + 1;
    }
    RunningChange(s, board, worker, pre, start, Front(total, t, 0), Constant(total));
    return Ok(());
  }
}
