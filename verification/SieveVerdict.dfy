/** From cells to verdicts: what premarking may leave, what merging adds, and when
    the words are the scalar reference's (src/family_sieve/family_sieve.cpp). */
module SieveVerdict {
  import opened NumberTheory
  import opened MachineArithmetic
  import opened Progressions
  import opened CompiledRules
  import opened Eliminations
  import opened SieveCells
  import opened SieveScan
  import opened SieveLoops
  import opened RuleTables
  import opened SievePremark
  import opened CrtTemplate
  import opened SieveWorkers
  import opened SieveMerge
  import opened ReferenceWords
  import opened Words
  import opened Wrappers

  // ----- what premarking may leave behind

  /** A marked cell stands for a real elimination, and its witness is no less than the least one. */
  predicate Sound(c: Cell, retain: bool, verdict: Option<u64>) {
    c.marked ==> verdict.Some? && (retain ==> verdict.value <= c.least)
  }

  ghost predicate AllSound(f: AffineExponentialFamily, primes: seq<u64>, retain: bool, cells: seq<Cell>)
    requires f.Valid()
  {
    |cells| == CandidateCount(f) &&
    forall ki, ni :: f.InRange(ki, ni) ==> SoundAt(f, primes, retain, cells, ki, ni)
  }

  ghost predicate SoundAt(f: AffineExponentialFamily, primes: seq<u64>, retain: bool, cells: seq<Cell>, ki: nat,
    ni: nat)
    requires f.InRange(ki, ni) && |cells| == CandidateCount(f)
  {
    PositionExact(f, ki, ni, ByK);
    Sound(cells[CanonicalIndex(f, ki, ni)], retain, Verdict(f, primes, ki, ni))
  }

  lemma BlankIsSound(f: AffineExponentialFamily, primes: seq<u64>, retain: bool)
    requires f.Valid()
    ensures AllSound(f, primes, retain, seq(CandidateCount(f), _ => Cell(false, 0)))
  {
    forall ki, ni | f.InRange(ki, ni)
      ensures SoundAt(f, primes, retain, seq(CandidateCount(f), _ => Cell(false, 0)), ki, ni)
    {
      PositionExact(f, ki, ni, ByK);
    }
  }

  /** Recording a listed proper factor keeps a cell sound. */
  lemma RecordSound(primes: seq<u64>, v: int, q: u64, c: Cell, retain: bool)
    requires Ascending(primes) && q in primes && ProperFactor(v, q) && Consistent(c, retain)
      && Sound(c, retain, FirstProper(primes, v))
    ensures Sound(Recorded(Direct, retain, c, q), retain, FirstProper(primes, v))
  {
    FirstIsLeast(primes, v, q);
  }

  lemma TemplateCellSound(f: AffineExponentialFamily, primes: seq<u64>, retain: bool, rules: seq<ForbiddenRule>,
                          c: Cell, ki: nat, ni: nat)
    requires f.InRange(ki, ni) && Ascending(primes) && Consistent(c, retain)
      && Sound(c, retain, Verdict(f, primes, ki, ni))
    requires AllWellFormed(rules) && forall i :: 0 <= i < |rules| ==> rules[i].prime in primes
    ensures Sound(TemplateCell(f, retain, rules, c, ki, ni), retain, Verdict(f, primes, ki, ni))
  {
    var q := FirstClass(rules, ki, ni);
    if q != 0 {
      var i := FirstClassFrom(rules, ki, ni);
      hide FirstClass, AllWellFormed, FirstProper, Progression.Count, Progression.Size;
      if f.Admissible(ki, ni) && ProperFactor(f.Candidate(ki, ni), q) {
        RecordSound(primes, f.Candidate(ki, ni), q, c, retain);
      }
    }
  }

  lemma TemplateIsSound(f: AffineExponentialFamily, primes: seq<u64>, retain: bool, rules: seq<ForbiddenRule>,
                        start: seq<Cell>, cells: seq<Cell>)
    requires f.Valid() && Ascending(primes) && AllSound(f, primes, retain, start) && AllConsistent(start, retain)
    requires AllWellFormed(rules) && forall i :: 0 <= i < |rules| ==> rules[i].prime in primes
    requires AppliedBelow(f, retain, rules, start, cells, CandidateCount(f))
    ensures AllSound(f, primes, retain, cells)
  {
    forall ki, ni | f.InRange(ki, ni)
      ensures SoundAt(f, primes, retain, cells, ki, ni)
    {
      PositionExact(f, ki, ni, ByK);
      assert SoundAt(f, primes, retain, start, ki, ni)
        && AppliedAt(f, retain, rules, start, cells, CandidateCount(f), ki, ni);
      TemplateCellSound(f, primes, retain, rules, start[CanonicalIndex(f, ki, ni)], ki, ni);
    }
  }

  /** Template marks keep the cells consistent. */
  lemma TemplateIsConsistent(f: AffineExponentialFamily, retain: bool, rules: seq<ForbiddenRule>, start: seq<Cell>,
                             cells: seq<Cell>)
    requires f.Valid() && AllConsistent(start, retain) && AllWellFormed(rules)
    requires AppliedBelow(f, retain, rules, start, cells, CandidateCount(f))
    ensures AllConsistent(cells, retain)
  {
    forall i | 0 <= i < |cells|
      ensures Consistent(cells[i], retain)
    {
      var ki, ni := IndexDecodes(f, i);
      assert AppliedAt(f, retain, rules, start, cells, CandidateCount(f), ki, ni);
    }
  }

  lemma FewerPrimes(f: AffineExponentialFamily, primes: seq<u64>, limit: nat, ki: nat, ni: nat)
    requires f.InRange(ki, ni) && limit <= |primes| && Ascending(primes)
    ensures var some := Verdict(f, primes[..limit], ki, ni); some.Some? ==> some == Verdict(f, primes, ki, ni)
  {
    var v := f.Candidate(ki, ni);
    var some := Verdict(f, primes[..limit], ki, ni);
    if some.Some? {
      FirstIsLeast(primes, v, some.value);
      var least := FirstProper(primes, v).value;
      var i :| 0 <= i < |primes| && primes[i] == least;
      var j :| 0 <= j < limit && primes[j] == some.value;
      assert i <= j && primes[..limit][i] == least;
      FirstIsLeast(primes[..limit], v, least);
    }
  }

  lemma UnionIsSound(f: AffineExponentialFamily, primes: seq<u64>, limit: nat, retain: bool, start: seq<Cell>,
                     cells: seq<Cell>)
    requires f.Valid() && Ascending(primes) && limit <= |primes| && AllSound(f, primes, retain, start)
    requires UnionMarked(f, retain, start, cells, primes[..limit])
    ensures AllSound(f, primes, retain, cells)
  {
    forall ki, ni | f.InRange(ki, ni)
      ensures SoundAt(f, primes, retain, cells, ki, ni)
    {
      PositionExact(f, ki, ni, ByK);
      assert SoundAt(f, primes, retain, start, ki, ni)
        && UnionMarkedAt(f, retain, start, cells, primes[..limit], ki, ni);
      FewerPrimes(f, primes, limit, ki, ni);
    }
  }

  // ----- merging all outputs

  lemma MergeStep(p: Plan, pre: seq<Cell>, before: seq<Cell>, private: seq<Cell>, after: seq<Cell>,
                  schedule: seq<Assignment>, w: nat)
    requires p.Valid() && !OnBoard(p.Mode()) && AllConsistent(pre, p.Retain())
    requires forall a, b :: 0 <= a < b < |schedule| ==> schedule[a].segment != schedule[b].segment
    requires Scanned(p, Direct, pre, before, SegmentsBelow(schedule, w))
    requires Scanned(p, p.Mode(), pre, private, SegmentsOf(schedule, w))
    requires |after| == |pre| && forall i :: 0 <= i < |after| ==> after[i] == Merged(before[i], private[i])
    ensures Scanned(p, Direct, pre, after, SegmentsBelow(schedule, w + 1))
  {
    forall ki, ni | p.f.InRange(ki, ni)
      ensures ScannedAt(p, Direct, pre, after, SegmentsBelow(schedule, w + 1), ki, ni)
    {
      PositionExact(p.f, ki, ni, ByK);
      assert ScannedAt(p, Direct, pre, before, SegmentsBelow(schedule, w), ki, ni);
      assert ScannedAt(p, p.Mode(), pre, private, SegmentsOf(schedule, w), ki, ni);
      OneOwner(schedule, w, SegmentAt(p, ki, ni));
      MergeIsDirect(p.Mode(), p.Retain(), pre[CanonicalIndex(p.f, ki, ni)],
        p.checks.Found(p.checks.Count(), p.f, ki, ni));
    }
  }

  lemma OneOwner(schedule: seq<Assignment>, w: nat, segment: nat)
    requires forall a, b :: 0 <= a < b < |schedule| ==> schedule[a].segment != schedule[b].segment
    ensures segment in SegmentsBelow(schedule, w + 1) <==>
      segment in SegmentsBelow(schedule, w) || segment in SegmentsOf(schedule, w)
    ensures !(segment in SegmentsBelow(schedule, w) && segment in SegmentsOf(schedule, w))
  {
  }

  lemma PrivateLeast(p: Plan, pre: seq<Cell>, cells: seq<Cell>, done: set<nat>)
    requires p.Valid() && !OnBoard(p.Mode()) && !p.Retain() && Scanned(p, p.Mode(), pre, cells, done)
    ensures forall i :: 0 <= i < |cells| ==> cells[i].least == 0
  {
    forall i | 0 <= i < |cells|
      ensures cells[i].least == 0
    {
      var ki, ni := IndexDecodes(p.f, i);
      assert ScannedAt(p, p.Mode(), pre, cells, done, ki, ni);
    }
  }

  /** The loop over the outputs: afterwards the board holds every worker's segments. */
  method MergeOutputs(p: Plan, board: Board, workers: seq<Worker>, ghost schedule: seq<Assignment>,
                      ghost pre: seq<Cell>)
    requires Progress(p, board, workers, pre, schedule) && |workers| > 0
    requires forall a, b :: 0 <= a < b < |schedule| ==> schedule[a].segment != schedule[b].segment
    modifies board
    ensures board.Shape(CandidateCount(p.f), p.Retain())
    ensures Scanned(p, Direct, pre, board.cells, SegmentsBelow(schedule, |workers|))
  {
    assert WorkerProgress(p, board, workers[0], pre, SegmentsOf(schedule, 0));
    if OnBoard(p.Mode()) {
      return;
    }
    NothingMerged(p, pre, schedule);
    var w := 0;
    while w < |workers|
      invariant 0 <= w <= |workers| && board.Shape(CandidateCount(p.f), p.Retain())
      invariant Scanned(p, Direct, pre, board.cells, SegmentsBelow(schedule, w))
    {
      assert old(WorkerProgress(p, board, workers[w], pre, SegmentsOf(schedule, w)));
      ghost var before := board.cells;
      MergeWorker(p, board, workers[w], pre, SegmentsOf(schedule, w));
      MergeStep(p, pre, before, workers[w].cells, board.cells, schedule, w);
      w := w + 1;
    }
  }

  method MergeWorker(p: Plan, board: Board, worker: Worker, ghost pre: seq<Cell>, ghost done: set<nat>)
    requires p.Valid() && !OnBoard(p.Mode()) && Scanned(p, p.Mode(), pre, worker.cells, done)
    requires board.Shape(CandidateCount(p.f), p.Retain()) && worker.Shape(CandidateCount(p.f), p.Mode())
    modifies board
    ensures board.Shape(CandidateCount(p.f), p.Retain())
    ensures forall i :: 0 <= i < |board.cells| ==> board.cells[i] == Merged(old(board.cells)[i], worker.cells[i])
  {
    if !p.Retain() {
      PrivateLeast(p, pre, worker.cells, done);
    }
    MergeOutput(p.Mode(), p.Retain(), CandidateCount(p.f), board, worker);
  }

  lemma NothingMerged(p: Plan, pre: seq<Cell>, schedule: seq<Assignment>)
    requires p.Valid() && |pre| == CandidateCount(p.f)
    ensures Scanned(p, Direct, pre, pre, SegmentsBelow(schedule, 0))
  {
    forall ki, ni | p.f.InRange(ki, ni)
      ensures ScannedAt(p, Direct, pre, pre, SegmentsBelow(schedule, 0), ki, ni)
    {
      PositionExact(p.f, ki, ni, ByK);
    }
  }

  // ----- the final cells

  /** Every cell holds its candidate's verdict for these primes. */
  ghost predicate Decided(f: AffineExponentialFamily, primes: seq<u64>, retain: bool, cells: seq<Cell>)
    requires f.Valid()
  {
    |cells| == CandidateCount(f) &&
    forall ki, ni :: f.InRange(ki, ni) ==> DecidedAt(f, primes, retain, cells, ki, ni)
  }

  ghost predicate DecidedAt(f: AffineExponentialFamily, primes: seq<u64>, retain: bool, cells: seq<Cell>, ki: nat,
    ni: nat)
    requires f.InRange(ki, ni) && |cells| == CandidateCount(f)
  {
    PositionExact(f, ki, ni, ByK);
    var verdict := Verdict(f, primes, ki, ni);
    cells[CanonicalIndex(f, ki, ni)] == Cell(verdict.Some?, if retain && verdict.Some? then verdict.value else 0)
  }

  /** Scanning every segment decides every candidate. */
  lemma EverySegmentDecides(p: Plan, primes: seq<u64>, pre: seq<Cell>, cells: seq<Cell>, done: set<nat>)
    requires p.Valid() && Ascending(primes) && Complete(p.checks, p.f, primes)
    requires Scanned(p, Direct, pre, cells, done) && AllSound(p.f, primes, p.Retain(), pre)
      && AllConsistent(pre, p.Retain())
    requires forall ki, ni :: p.f.InRange(ki, ni) ==> SegmentAt(p, ki, ni) in done
    ensures Decided(p.f, primes, p.Retain(), cells)
  {
    forall ki, ni | p.f.InRange(ki, ni)
      ensures DecidedAt(p.f, primes, p.Retain(), cells, ki, ni)
    {
      PositionExact(p.f, ki, ni, ByK);
      assert ScannedAt(p, Direct, pre, cells, done, ki, ni) && SoundAt(p.f, primes, p.Retain(), pre, ki, ni);
      FoundIsVerdict(p.checks, p.f, primes, ki, ni);
    }
  }

  /** Scanning no segment leaves the premarks. */
  lemma NoSegmentKeeps(p: Plan, pre: seq<Cell>, cells: seq<Cell>)
    requires p.Valid() && Scanned(p, Direct, pre, cells, {})
    ensures cells == pre
  {
    forall i | 0 <= i < |cells|
      ensures cells[i] == pre[i]
    {
      var ki, ni := IndexDecodes(p.f, i);
      assert ScannedAt(p, Direct, pre, cells, {}, ki, ni);
    }
  }

  lemma DecidedWords(f: AffineExponentialFamily, primes: seq<u64>, retain: bool, board: Board)
    requires f.Valid() && board.Shape(CandidateCount(f), retain) && Decided(f, primes, retain, board.cells)
    ensures board.words == Reference(f, primes)
    ensures board.witnesses == if retain then LeastFactors(f, primes) else []
    ensures AllConsistent(board.cells, retain)
  {
    forall ki, ni | f.InRange(ki, ni) && CanonicalIndex(f, ki, ni) / 64 < |board.words|
      ensures Bit(board.words, CanonicalIndex(f, ki, ni)) <==> Eliminated(f, primes, ki, ni)
    {
      PositionExact(f, ki, ni, ByK);
      assert DecidedAt(f, primes, retain, board.cells, ki, ni);
    }
    WordsAreReference(f, primes, board.words);
    forall i | 0 <= i < CandidateCount(f)
      ensures Consistent(board.cells[i], retain) && (retain ==> board.witnesses[i] == LeastFactorAt(f, primes, i))
    {
      var ki, ni := IndexDecodes(f, i);
      PositionExact(f, ki, ni, ByK);
      assert DecidedAt(f, primes, retain, board.cells, ki, ni);
    }
  }

  /** The least listed proper factor of the candidate at a canonical index, 0 when it has none. */
  ghost function LeastFactorAt(f: AffineExponentialFamily, primes: seq<u64>, i: nat): u64
    requires f.Valid() && i < CandidateCount(f)
  {
    DecodeExact(f, i, ByK);
    match Verdict(f, primes, DecodeK(f, i, ByK), DecodeN(f, i, ByK))
    case Some(q) => q
    case None => 0
  }

  ghost function LeastFactors(f: AffineExponentialFamily, primes: seq<u64>): seq<u64>
    requires f.Valid()
  {
    seq(CandidateCount(f), i requires 0 <= i < CandidateCount(f) => LeastFactorAt(f, primes, i))
  }
}
