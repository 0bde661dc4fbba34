/** Scanning a segment of candidates: the shared board of premarked words, the
    workers' private outputs, and every loop order of scan_segment
    (src/family_sieve/family_sieve.cpp). */
module SieveScan {
  import opened NumberTheory
  import opened MachineArithmetic
  import opened Progressions
  import opened CompiledRules
  import opened Eliminations
  import opened TableApplication
  import opened BoundedMagnitude
  import opened SieveCells
  import opened Words
  import opened Wrappers

  datatype Witness = Witness(index: u64, prime: u64)

  function LeastEntry(found: seq<Witness>, index: nat): u64 {
    if found == [] then 0
    else
      var rest := LeastEntry(found[..|found| - 1], index);
      var last := found[|found| - 1];
      if last.index == index then LowerWitness(rest, last.prime) else rest
  }

  function LeastWith(found: seq<Witness>, w: Witness, index: nat): u64 {
    if w.index == index then LowerWitness(LeastEntry(found, index), w.prime) else LeastEntry(found, index)
  }

  lemma LeastEntryAppend(found: seq<Witness>, w: Witness, index: nat)
    ensures LeastEntry(found + [w], index) == LeastWith(found, w, index)
  {
    assert (found + [w])[..|found|] == found;
  }

  lemma AppendFound(found: seq<Witness>, w: Witness)
    ensures forall i: nat :: LeastEntry(found + [w], i) == LeastWith(found, w, i)
  {
    forall i: nat
      ensures LeastEntry(found + [w], i) == LeastWith(found, w, i)
    {
      LeastEntryAppend(found, w, i);
    }
  }

  function WordCount(count: nat): nat {
    (count + 63) / 64
  }

  /** No bit is set beyond the last candidate. */
  ghost predicate NoPadding(words: seq<Word>, count: nat) {
    forall i: nat :: count <= i && i / 64 < |words| ==> !Bit(words, i)
  }

  /** The result under construction: premarked words and their witnesses. */
  class Board {
    var words: seq<Word>
    var witnesses: seq<u64>
    ghost var cells: seq<Cell>  // what the words and witnesses hold for each candidate

    constructor (count: nat, retain: bool)
      ensures Shape(count, retain) && cells == seq(count, _ => Cell(false, 0))
    {
      words := Zeros(WordCount(count));
      witnesses := if retain then seq(count, _ => 0) else [];
      cells := seq(count, _ => Cell(false, 0));
    }

    ghost predicate Shape(count: nat, retain: bool)
      reads this
    {
      && |words| == WordCount(count) && |witnesses| == (if retain then count else 0) && |cells| == count
      && (forall i :: 0 <= i < count ==> cells[i] == Cell(Bit(words, i), if retain then witnesses[i] else 0))
      && NoPadding(words, count)
    }

    method Record(ghost count: nat, retain: bool, index: u64, prime: u64)
      requires Shape(count, retain) && index < count
      modifies this
      ensures Shape(count, retain)
      ensures cells == old(cells)[index := Recorded(Direct, retain, old(cells)[index], prime)]
    {
      words := SetBit(words, index);
      if retain {
        witnesses := witnesses[index := LowerWitness(witnesses[index], prime)];
      }
      cells := cells[index := Recorded(Direct, retain, cells[index], prime)];
    }
  }

  /** A worker's private output; empty and unused when it writes the board directly. */
  class Worker {
    var words: seq<Word>
    var list: seq<u64>
    var found: seq<Witness>
    ghost var cells: seq<Cell>

    constructor (count: nat, mode: Mode)
      ensures Shape(count, mode) && cells == seq(count, _ => Cell(false, 0))
    {
      words := if mode == WorkerDense then Zeros(WordCount(count)) else [];
      list, found := [], [];
      cells := seq(count, _ => Cell(false, 0));
    }

    ghost predicate Shape(count: nat, mode: Mode)
      reads this
    {
      && (mode == WorkerDense ==> |words| == WordCount(count) && NoPadding(words, count)) && |cells| == count
      && (forall j :: 0 <= j < |list| ==> list[j] < count)
        && (forall j :: 0 <= j < |found| ==> found[j].index < count && found[j].prime > 0)
      && forall i :: 0 <= i < count ==>
        cells[i] == Cell(if mode == WorkerDense then Bit(words, i) else i in list, LeastEntry(found, i))
    }

    method RecordInWords(ghost count: nat, retain: bool, index: u64, prime: u64)
      requires Shape(count, WorkerDense) && index < count && prime > 0
      modifies this
      ensures Shape(count, WorkerDense)
      ensures cells == old(cells)[index := Recorded(WorkerDense, retain, old(cells)[index], prime)]
    {
      var first := !Bit(words, index);
      words := SetBit(words, index);
      if retain && first {
        AppendFound(found, Witness(index, prime));
        found := found + [Witness(index, prime)];
      }
      cells := cells[index := Recorded(WorkerDense, retain, cells[index], prime)];
    }

    method RecordInList(ghost count: nat, retain: bool, index: u64, prime: u64)
      requires Shape(count, WorkerList) && index < count && prime > 0
      modifies this
      ensures Shape(count, WorkerList)
      ensures cells == old(cells)[index := Recorded(WorkerList, retain, old(cells)[index], prime)]
    {
      list := list + [index];
      if retain {
        AppendFound(found, Witness(index, prime));
        found := found + [Witness(index, prime)];
      }
      cells := cells[index := Recorded(WorkerList, retain, cells[index], prime)];
    }
  }

  /** The cells a scan in this mode writes. */
  ghost function Written(mode: Mode, board: Board, worker: Worker): seq<Cell>
    reads board, worker
  {
    if OnBoard(mode) then board.cells else worker.cells
  }

  /** record_elimination */
  method RecordElimination(mode: Mode, retain: bool, ghost count: nat, board: Board, worker: Worker, index: u64,
                           prime: u64)
    requires board.Shape(count, retain) && worker.Shape(count, mode) && index < count && prime > 0 && mode != Premark
    modifies board, worker
    ensures board.Shape(count, retain) && worker.Shape(count, mode)
    ensures if OnBoard(mode) then unchanged(worker) else unchanged(board)
    ensures Written(mode, board, worker) == old(Written(mode, board, worker))[index :=
      Recorded(mode, retain, old(Written(mode, board, worker))[index], prime)]
  {
    match mode {
      case WorkerList => worker.RecordInList(count, retain, index, prime);
      case WorkerDense => worker.RecordInWords(count, retain, index, prime);
      case Direct => board.Record(count, retain, index, prime);
    }
  }

  /** The sieve builds the exact value only when something is negative. */
  ghost predicate SieveTooLarge(f: AffineExponentialFamily, ki: nat, ni: nat, q: u64)
    requires f.InRange(ki, ni)
  {
    TooLargeFor(f, ki, ni, q) && !f.Nonnegative(ki)
  }

  /** The inspection of one candidate by one check. */
  method Inspect(f: AffineExponentialFamily, mode: Mode, retain: bool, board: Board, worker: Worker,
                 ki: u64, ni: u64, prime: u64, matches: bool)
    returns (r: Result<(), Exception>)
    requires f.InRange(ki, ni) && IsPrime(prime) && CanonicalIndex(f, ki, ni) < CandidateCount(f) <= MAX_U64
    requires board.Shape(CandidateCount(f), retain) && worker.Shape(CandidateCount(f), mode)
    requires Consistent(board.cells[CanonicalIndex(f, ki, ni)], retain) && mode != Premark
    modifies board, worker
    ensures board.Shape(CandidateCount(f), retain) && worker.Shape(CandidateCount(f), mode)
    ensures !OnBoard(mode) ==> unchanged(board)
    ensures r.Ok? ==> var i := CanonicalIndex(f, ki, ni);
      Written(mode, board, worker) == old(Written(mode, board, worker))[i :=
        Step(mode, retain, old(board.cells)[i], old(Written(mode, board, worker))[i],
          matches && f.Admissible(ki, ni) && ProperFactor(f.Candidate(ki, ni), prime), prime)]
    ensures r.Err? ==> r.error == LengthError && SieveTooLarge(f, ki, ni, prime)
  {
    ghost var n := CandidateCount(f);
    ghost var before := Written(mode, board, worker);
    var index: u64 := ki * f.n.Count() + ni;
    assert before == before[index := before[index]];
    if !matches || !f.Admissible(ki, ni) {
      return Ok(());
    }
    if Bit(board.words, index) {
      if !retain {
        return Ok(());
      }
      var retained := board.witnesses[index];
      if retained == 0 {
        return Err(LogicError);
      }
      if prime >= retained {
        return Ok(());
      }
    }
    var proper := ProperFactorCheck(f, ki, ni, prime);
    if proper.Err? {
      return Err(proper.error);
    }
    if proper.value {
      RecordElimination(mode, retain, n, board, worker, index, prime);
    }
    return Ok(());
  }
}
