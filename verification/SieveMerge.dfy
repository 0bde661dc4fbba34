/** Running a whole schedule and merging the workers' private outputs
    (src/family_sieve/family_sieve.cpp). */
module SieveMerge {
  import opened NumberTheory
  import opened MachineArithmetic
  import opened Progressions
  import opened CompiledRules
  import opened Eliminations
  import opened SieveCells
  import opened SieveScan
  import opened SieveLoops
  import opened SieveWorkers
  import opened Words
  import opened Wrappers

  ghost predicate Distinct(workers: seq<Worker>) {
    forall v, w :: 0 <= v < w < |workers| ==> workers[v] != workers[w]
  }

  /** What the board and the workers hold after part of a schedule. */
  ghost predicate Progress(p: Plan, board: Board, workers: seq<Worker>, pre: seq<Cell>, done: seq<Assignment>)
    reads board, workers
  {
    && (forall w :: 0 <= w < |workers| ==> WorkerProgress(p, board, workers[w], pre, SegmentsOf(done, w)))
    && p.Valid() && (OnBoard(p.Mode()) ==> Scanned(p, p.Mode(), pre, board.cells, SegmentsBelow(done, |workers|)))
  }

  ghost predicate WorkerProgress(p: Plan, board: Board, worker: Worker, pre: seq<Cell>, done: set<nat>)
    reads board, worker
  {
    Prepared(p, board, worker, pre) && (!OnBoard(p.Mode()) ==> Scanned(p, p.Mode(), pre, worker.cells, done))
  }

  method ProcessAssignment(p: Plan, board: Board, workers: seq<Worker>, schedule: seq<Assignment>, i: nat,
                           ghost pre: seq<Cell>)
    returns (r: Result<(), Exception>)
    requires Distinct(workers) && i < |schedule| && schedule[i].worker < |workers|
    requires Progress(p, board, workers, pre, schedule[..i])
    requires forall a, b :: 0 <= a < b < |schedule| ==> schedule[a].segment != schedule[b].segment
    requires SegmentBegin(schedule[i].segment, p.options.segmentCandidates) < CandidateCount(p.f)
    modifies board, workers
    ensures r.Ok? ==> Progress(p, board, workers, pre, schedule[..i + 1])
    ensures r.Err? ==> r.error == LengthError && PlanTooLarge(p)
  {
    var me, segment := schedule[i].worker, schedule[i].segment;
    ghost var done := if OnBoard(p.Mode()) then SegmentsBelow(schedule[..i], |workers|)
      else SegmentsOf(schedule[..i], me);
    NotYetScheduled(schedule, i, me);
    NotYetScheduled(schedule, i, |workers|);
    assert WorkerProgress(p, board, workers[me], pre, SegmentsOf(schedule[..i], me));
    r := ProcessSegment(p, board, workers[me], segment, pre, done);
    if r.Ok? {
      ScheduleStep(schedule, i, |workers|);
      forall w | 0 <= w < |workers|
        ensures WorkerProgress(p, board, workers[w], pre, SegmentsOf(schedule[..i + 1], w))
      {
        ScheduleStep(schedule, i, w);
        assert old(WorkerProgress(p, board, workers[w], pre, SegmentsOf(schedule[..i], w)));
        assert w != me ==> unchanged(workers[w]);
      }
    }
  }

  /** The threads' work, in the order the schedule gives; the first failure ends the run. */
  method RunSchedule(p: Plan, board: Board, workers: seq<Worker>, schedule: seq<Assignment>, ghost segments: nat,
                     ghost pre: seq<Cell>)
    returns (r: Result<(), Exception>)
    requires Distinct(workers) && IsSchedule(schedule, |workers|, segments) && Progress(p, board, workers, pre, [])
    requires forall g :: 0 <= g < segments ==> SegmentBegin(g, p.options.segmentCandidates) < CandidateCount(p.f)
    modifies board, workers
    ensures r.Ok? ==> Progress(p, board, workers, pre, schedule)
    ensures r.Err? ==> r.error == LengthError && PlanTooLarge(p)
  {
    hide Progress, IsSchedule;
    var i := 0;
    assert schedule[..0] == [];
    while i < |schedule|
      invariant 0 <= i <= |schedule| && Progress(p, board, workers, pre, schedule[..i])
    {
      ScheduleBounds(schedule, |workers|, segments, i);
      r := ProcessAssignment(p, board, workers, schedule, i, pre);
      if r.Err? {
        return;
      }
      i := i + 1;
    }
    assert schedule[..i] == schedule;
    return Ok(());
  }

  lemma ScheduleBounds(schedule: seq<Assignment>, workers: nat, segments: nat, i: nat)
    requires IsSchedule(schedule, workers, segments) && i < |schedule|
    ensures schedule[i].worker < workers && schedule[i].segment < segments
    ensures forall a, b :: 0 <= a < b < |schedule| ==> schedule[a].segment != schedule[b].segment
  {
  }

  // ----- merging

  /** Setting the bits of a worker's list. */
  method MergeList(words: seq<Word>, list: seq<u64>) returns (r: seq<Word>)
    requires forall j :: 0 <= j < |list| ==> list[j] / 64 < |words|
    ensures |r| == |words| && forall i: nat :: i / 64 < |words| ==> (Bit(r, i) <==> Bit(words, i) || i in list)
  {
    r := words;
    var j := 0;
    while j < |list|
      invariant 0 <= j <= |list| && |r| == |words|
      invariant forall i: nat :: i / 64 < |words| ==> (Bit(r, i) <==> Bit(words, i) || i in list[..j])
    {
      assert list[..j + 1] == list[..j] + [list[j]];
      r := SetBit(r, list[j]);
      j := j + 1;
    }
    assert list[..j] == list;
  }

  /** Lowering the witnesses to a worker's. */
  method MergeWitnesses(witnesses: seq<u64>, found: seq<Witness>) returns (r: seq<u64>)
    requires forall j :: 0 <= j < |found| ==> found[j].index < |witnesses| && found[j].prime > 0
    ensures |r| == |witnesses| && forall i :: 0 <= i < |witnesses| ==>
      r[i] == Lowered(witnesses[i], LeastEntry(found, i))
  {
    r := witnesses;
    var j := 0;
    while j < |found|
      invariant 0 <= j <= |found| && |r| == |witnesses|
      invariant forall i :: 0 <= i < |witnesses| ==> r[i] == Lowered(witnesses[i], LeastEntry(found[..j], i))
    {
      assert found[..j + 1] == found[..j] + [found[j]];
      AppendFound(found[..j], found[j]);
      r := r[found[j].index := LowerWitness(r[found[j].index], found[j].prime)];
      j := j + 1;
    }
    assert found[..j] == found;
  }

  function Lowered(least: u64, entry: u64): u64 {
    if entry == 0 then least else LowerWitness(least, entry)
  }

  lemma {:induction false} EntryRecorded(found: seq<Witness>, j: nat)
    requires j < |found| && forall i :: 0 <= i < |found| ==> found[i].prime > 0
    ensures LeastEntry(found, found[j].index) > 0
  {
    if j < |found| - 1 {
      EntryRecorded(found[..|found| - 1], j);
    }
  }

  /** A worker's output joins the result cell by cell. */
  method MergeOutput(mode: Mode, retain: bool, ghost count: nat, board: Board, worker: Worker)
    requires board.Shape(count, retain) && worker.Shape(count, mode) && !OnBoard(mode)
    requires !retain ==> forall i :: 0 <= i < count ==> worker.cells[i].least == 0
    modifies board
    ensures board.Shape(count, retain)
    ensures forall i :: 0 <= i < count ==> board.cells[i] == Merged(old(board.cells)[i], worker.cells[i])
  {
    if mode == WorkerList {
      board.words := MergeList(board.words, worker.list);
    } else {
      board.words := MergeWords(board.words, worker.words);
    }
    if !retain && worker.found != [] {
      EntryRecorded(worker.found, 0);
    }
    board.witnesses := MergeWitnesses(board.witnesses, worker.found);
    board.cells := seq(count, i requires 0 <= i < count && |board.cells| == count && |worker.cells| == count
      reads board, worker => Merged(board.cells[i], worker.cells[i]));
  }
}
