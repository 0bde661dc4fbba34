/** Residue enumeration: visiting only the candidates a rule's class contains
    (src/family_sieve/family_sieve.cpp). */
module ResidueScan {
  import opened NumberTheory
  import opened MachineArithmetic
  import opened Progressions
  import opened CompiledRules
  import opened Eliminations
  import opened TableApplication
  import opened SieveCells
  import opened SieveScan
  import opened SieveLoops
  import opened Words
  import opened Wrappers

  /** first_congruent_index_at_or_after, with the maximum word as "none". */
  function FirstCongruentAtOrAfter(residue: u64, modulus: u64, lower: u64): (r: u64)
    requires residue < modulus
    ensures r == MAX_U64 || (r >= lower && r % modulus == residue)
    ensures forall x: int :: lower <= x < r && x < MAX_U64 ==> x % modulus != residue
  {
    if residue >= lower then
      ResidueIsFirst(residue, modulus, lower);
      residue
    else
      var delta := lower - residue;
      QuotientBounds(delta, modulus);
      var steps := delta / modulus + (if delta % modulus == 0 then 0 else 1);
      StepsReach(residue, modulus, lower, steps);
      if steps > (MAX_U64 - residue) / modulus then MAX_U64 else residue + steps * modulus
  }

  lemma ResidueIsFirst(residue: int, modulus: int, lower: int)
    requires 0 <= lower <= residue < modulus
    ensures residue % modulus == residue
    ensures forall x: int :: lower <= x < residue ==> x % modulus != residue
  {
    DivModUnique(residue, modulus, 0, residue);
    forall x: int | lower <= x < residue
      ensures x % modulus != residue
    {
      DivModUnique(x, modulus, 0, x);
    }
  }

  lemma ClassMember(residue: int, modulus: int, steps: int)
    requires 0 <= residue < modulus
    ensures (residue + steps * modulus) % modulus == residue
  {
    DivModUnique(residue + steps * modulus, modulus, steps, residue);
  }

  lemma StepsLand(residue: nat, modulus: nat, lower: nat, steps: nat)
    requires residue < modulus && residue < lower
    requires steps == (lower - residue) / modulus + (if (lower - residue) % modulus == 0 then 0 else 1)
    ensures lower <= residue + steps * modulus < lower + modulus
  {
    var delta := lower - residue;
    var q := delta / modulus;
    assert delta == modulus * q + delta % modulus && modulus * q == q * modulus;
    assert (q + 1) * modulus == q * modulus + modulus;
  }

  lemma StepsFit(residue: nat, modulus: nat, steps: nat, limit: nat)
    requires modulus > 0 && residue <= limit
    ensures steps <= (limit - residue) / modulus <==> residue + steps * modulus <= limit
  {
    var m := (limit - residue) / modulus;
    QuotientBounds(limit - residue, modulus);
    MulMonotone(modulus, if steps <= m then steps else m + 1, if steps <= m then m else steps);
    assert modulus * steps == steps * modulus && modulus * m == m * modulus && modulus * (m + 1) == (m + 1) * modulus;
  }

  lemma StepsReach(residue: nat, modulus: nat, lower: nat, steps: nat)
    requires residue < modulus && residue < lower <= MAX_U64
    requires steps == (lower - residue) / modulus + (if (lower - residue) % modulus == 0 then 0 else 1)
    ensures var r := residue + steps * modulus;
      && r >= lower && r % modulus == residue
      && (steps <= (MAX_U64 - residue) / modulus <==> r <= MAX_U64)
      && forall x: int :: lower <= x < r ==> x % modulus != residue
  {
    var r := residue + steps * modulus;
    StepsLand(residue, modulus, lower, steps);
    StepsFit(residue, modulus, steps, MAX_U64);
    ClassMember(residue, modulus, steps);
    forall x: int | lower <= x < r
      ensures x % modulus != residue
    {
      if x % modulus == residue {
        NextCongruent(r, x, modulus);
      }
    }
  }

  /** The strided loop of one class over the rows a segment touches. */
  method EnumerateRows(residue: u64, modulus: u64, kBegin: u64, kEnd: u64) returns (ks: seq<u64>)
    requires residue < modulus && kBegin < kEnd
    ensures Ascending(ks)
    ensures forall x: int :: x in ks <==> kBegin <= x < kEnd && x % modulus == residue
  {
    ks := [];
    var k := FirstCongruentAtOrAfter(residue, modulus, kBegin);
    while k < kEnd
      invariant k < kEnd ==> kBegin <= k && k % modulus == residue
      invariant Ascending(ks) && forall j :: 0 <= j < |ks| ==> ks[j] < k
      invariant forall x: int :: x in ks <==> kBegin <= x < k && x < kEnd && x % modulus == residue
      decreases kEnd - k
    {
      forall x: int | k < x && x % modulus == residue
        ensures x >= k + modulus
      {
        NextCongruent(x, k, modulus);
      }
      ks := ks + [k];
      if modulus > kEnd - 1 - k {
        return;
      }
      CongruentStep(k, modulus);
      k := k + modulus;
    }
  }

  ghost predicate DistinctPositions(ts: seq<int>) {
    forall i, j :: 0 <= i < j < |ts| ==> ts[i] != ts[j]
  }

  lemma RowsOfSegment(begin: nat, end: nat, n: nat, t: int)
    requires n > 0 && begin <= t < end
    ensures 0 <= begin / n <= t / n <= (end - 1) / n
  {
    QuotientBounds(begin, n);
    DivMonotone(begin, t, n);
    DivMonotone(t, end - 1, n);
  }

  lemma PositionInColumn(k: nat, n: nat, ni: nat, t: int)
    requires ni < n
    ensures t / n == k && t % n == ni <==> t == k * n + ni
  {
    DivModUnique(k * n + ni, n, k, ni);
    assert t == n * (t / n) + t % n && n * (t / n) == (t / n) * n;
  }

  lemma PositionFits(k: nat, n: nat, ni: nat, rows: nat)
    requires ni < n && k < rows
    ensures 0 <= k * n + ni < rows * n
  {
    RowMajorInverse(rows, n, k, ni);
  }

  /** The positions that rows ks contribute to column ni. */
  ghost function ColumnList(ks: seq<u64>, n: int, ni: int, begin: int, end: int): seq<int> {
    if ks == [] then []
    else
      var t := ks[|ks| - 1] * n + ni;
      ColumnList(ks[..|ks| - 1], n, ni, begin, end) + if begin <= t < end then [t] else []
  }

  lemma {:induction false} ColumnListExact(ks: seq<u64>, n: nat, ni: nat, begin: int, end: int, t: int)
    requires ni < n
    ensures t in ColumnList(ks, n, ni, begin, end) <==> begin <= t < end && t % n == ni && t / n in ks
  {
    if ks != [] {
      var last := |ks| - 1;
      ColumnListExact(ks[..last], n, ni, begin, end, t);
      PositionInColumn(ks[last], n, ni, t);
      assert ks == ks[..last] + [ks[last]];
    }
  }

  lemma {:induction false} ColumnListDistinct(ks: seq<u64>, n: nat, ni: nat, begin: int, end: int)
    requires ni < n && Ascending(ks)
    ensures DistinctPositions(ColumnList(ks, n, ni, begin, end))
  {
    if ks != [] {
      var last := |ks| - 1;
      ColumnListDistinct(ks[..last], n, ni, begin, end);
      ColumnListExact(ks[..last], n, ni, begin, end, ks[last] * n + ni);
      PositionInColumn(ks[last], n, ni, ks[last] * n + ni);
    }
  }

  /** The positions one exponent column contributes. */
  method ColumnPositions(begin: u64, end: u64, ghost rows: nat, n: u64, ghost all: seq<u64>, residue: u64, modulus: u64,
                         ni: u64)
    returns (ts: seq<u64>)
    requires begin < end <= rows * n <= MAX_U64 && residue < modulus && ni < n
    requires Ascending(all) && forall x: int :: x in all <==>
      begin / n <= x < (end - 1) / n + 1 && x % modulus == residue
    ensures ts == ColumnList(all, n, ni, begin, end)
  {
    RowsOfSegment(begin, end, n, begin);
    RowMajor(rows, n, end - 1);
    QuotientBounds(end - 1, n);
    var ks := EnumerateRows(residue, modulus, begin / n, (end - 1) / n + 1);
    AscendingUnique(ks, all);
    ts := [];
    var i := 0;
    while i < |ks|
      invariant 0 <= i <= |ks| && ts == ColumnList(ks[..i], n, ni, begin, end)
    {
      assert ks[i] in ks;
      PositionFits(ks[i], n, ni, rows);
      var t: u64 := ks[i] * n + ni;
      assert ks[..i + 1][..i] == ks[..i];
      if begin <= t < end {
        ts := ts + [t];
      }
      i := i + 1;
    }
    assert ks[..i] == ks;
  }

  /** An ascending list is determined by its members. */
  lemma {:induction false} AscendingUnique(a: seq<u64>, b: seq<u64>)
    requires Ascending(a) && Ascending(b) && forall x: int :: x in a <==> x in b
    ensures a == b
  {
    assert a != [] ==> a[0] in a;
    assert b != [] ==> b[0] in b;
    if a != [] && b != [] {
      assert a[0] in b && b[0] in a;
      assert a[0] == b[0];
      forall x: int
        ensures x in a[1..] <==> x in b[1..]
      {
        assert x in a <==> x == a[0] || x in a[1..];
        assert x in b <==> x == b[0] || x in b[1..];
      }
      AscendingUnique(a[1..], b[1..]);
    }
  }

  /** The columns ns of the rows ks. */
  ghost function ColumnsList(ks: seq<u64>, ns: seq<u64>, n: int, begin: int, end: int): seq<int> {
    if ns == [] then []
    else ColumnsList(ks, ns[..|ns| - 1], n, begin, end) + ColumnList(ks, n, ns[|ns| - 1], begin, end)
  }

  lemma {:induction false} ColumnsListExact(ks: seq<u64>, ns: seq<u64>, n: nat, begin: int, end: int, t: int)
    requires n > 0 && forall j :: 0 <= j < |ns| ==> ns[j] < n
    ensures t in ColumnsList(ks, ns, n, begin, end) <==> begin <= t < end && t % n in ns && t / n in ks
  {
    if ns != [] {
      var last := |ns| - 1;
      ColumnsListExact(ks, ns[..last], n, begin, end, t);
      ColumnListExact(ks, n, ns[last], begin, end, t);
      assert ns == ns[..last] + [ns[last]];
    }
  }

  lemma {:induction false} ColumnsListDistinct(ks: seq<u64>, ns: seq<u64>, n: nat, begin: int, end: int)
    requires n > 0 && Ascending(ks) && Ascending(ns) && forall j :: 0 <= j < |ns| ==> ns[j] < n
    ensures DistinctPositions(ColumnsList(ks, ns, n, begin, end))
  {
    if ns != [] {
      var last := |ns| - 1;
      var earlier, column := ColumnsList(ks, ns[..last], n, begin, end), ColumnList(ks, n, ns[last], begin, end);
      ColumnsListDistinct(ks, ns[..last], n, begin, end);
      ColumnListDistinct(ks, n, ns[last], begin, end);
      forall i, j | 0 <= i < |earlier| && 0 <= j < |column|
        ensures earlier[i] != column[j]
      {
        assert earlier[i] in earlier && column[j] in column;
        ColumnsListExact(ks, ns[..last], n, begin, end, earlier[i]);
        ColumnListExact(ks, n, ns[last], begin, end, column[j]);
      }
    }
  }

  /** The positions of all exponent columns of a rule. */
  method ColumnsPositions(begin: u64, end: u64, ghost rows: nat, n: u64, ghost all: seq<u64>, residue: u64,
                          modulus: u64, ns: seq<u64>)
    returns (ts: seq<u64>)
    requires begin < end <= rows * n <= MAX_U64 && residue < modulus && forall j :: 0 <= j < |ns| ==> ns[j] < n
    requires Ascending(all) && forall x: int :: x in all <==>
      begin / n <= x < (end - 1) / n + 1 && x % modulus == residue
    ensures ts == ColumnsList(all, ns, n, begin, end)
  {
    ts := [];
    var j := 0;
    while j < |ns|
      invariant 0 <= j <= |ns| && ts == ColumnsList(all, ns[..j], n, begin, end)
    {
      var column := ColumnPositions(begin, end, rows, n, all, residue, modulus, ns[j]);
      assert ns[..j + 1][..j] == ns[..j];
      ts := ts + column;
      j := j + 1;
    }
    assert ns[..j] == ns;
  }

  /** The rows of the segment in one class, as a list. */
  lemma ClassRows(residue: nat, modulus: nat, lower: nat, upper: nat) returns (all: seq<u64>)
    requires modulus > 0 && upper <= MAX_U64
    ensures Ascending(all) && forall x: int :: x in all <==> lower <= x < upper && x % modulus == residue
    decreases upper
  {
    if upper <= lower {
      all := [];
    } else {
      all := ClassRows(residue, modulus, lower, upper - 1);
      assert forall j :: 0 <= j < |all| ==> all[j] in all;
      if (upper - 1) % modulus == residue {
        all := all + [upper - 1];
      }
    }
  }

  ghost predicate InSegmentClass(s: Scan, rule: ForbiddenRule, t: int)
    requires s.f.Valid() && rule.WellFormed()
  {
    s.begin <= t < s.end && rule.Matches(s.f, DecodeK(s.f, t, ByK), DecodeN(s.f, t, ByK))
  }

  /** The positions of the segment that a rule matches, each once. */
  method RulePositions(s: Scan, rule: ForbiddenRule) returns (ts: seq<u64>)
    requires s.Valid() && s.begin < s.end && s.o == ByK && rule.WellFormed()
    ensures DistinctPositions(ts)
    ensures forall t: int :: t in ts <==> InSegmentClass(s, rule, t)
  {
    var n := s.f.n.Count();
    var ns := EnumerateExponents(rule, s.f);
    forall j | 0 <= j < |ns|
      ensures ns[j] < n
    {
      assert ns[j] in ns;
    }
    RowsOfSegment(s.begin, s.end, n, s.begin);
    QuotientBounds(s.end - 1, n);
    RowMajor(s.f.k.Count(), n, s.end - 1);
    ghost var all := ClassRows(rule.kIndexResidue, rule.kIndexModulus, s.begin / n, (s.end - 1) / n + 1);
    ts := ColumnsPositions(s.begin, s.end, s.f.k.Count(), n, all, rule.kIndexResidue, rule.kIndexModulus, ns);
    ColumnsListDistinct(all, ns, n, s.begin, s.end);
    forall t: int
      ensures t in ts <==> InSegmentClass(s, rule, t)
    {
      ColumnsListExact(all, ns, n, s.begin, s.end, t);
      if s.begin <= t < s.end {
        DecodeExact(s.f, t, ByK);
        RowsOfSegment(s.begin, s.end, n, t);
      }
    }
  }

  /** k + 1 for the visited positions, k for the others. */
  function Visited(k: int, ts: seq<u64>): int -> int {
    t => if t in ts then k + 1 else k
  }

  lemma VisitedAdvances(k: int, ts: seq<u64>, i: nat)
    requires i < |ts| && ts[i] !in ts[..i]
    ensures forall t: int :: Advanced(Visited(k, ts[..i]), ts[i])(t) == Visited(k, ts[..i + 1])(t)
  {
    assert ts[..i + 1] == ts[..i] + [ts[i]];
  }

  method VisitNext(s: Scan, board: Board, worker: Worker, k: nat, ts: seq<u64>, i: nat,
                   ghost pre: seq<Cell>, ghost start: seq<Cell>)
    returns (r: Result<(), Exception>)
    requires k < s.checks.Count() && i < |ts| && ts[i] !in ts[..i]
    requires Running(s, board, worker, pre, start, Visited(k, ts[..i])) && s.begin <= ts[i] < s.end
    requires s.checks.Matches(k, s.f, DecodeK(s.f, ts[i], s.o), DecodeN(s.f, ts[i], s.o))
    modifies board, worker
    ensures r.Ok? ==> Running(s, board, worker, pre, start, Visited(k, ts[..i + 1]))
    ensures !OnBoard(s.mode) ==> unchanged(board)
    ensures r.Err? ==> r.error == LengthError && ScanTooLarge(s)
  {
    hide Running, Progression.Count, Progression.Size;
    r := Visit(s, board, worker, ts[i], k, true, pre, start, Visited(k, ts[..i]));
    if r.Ok? {
      VisitedAdvances(k, ts, i);
      RunningChange(s, board, worker, pre, start, Advanced(Visited(k, ts[..i]), ts[i]), Visited(k, ts[..i + 1]));
    }
  }

  method VisitPositions(s: Scan, board: Board, worker: Worker, k: nat, ts: seq<u64>,
                        ghost pre: seq<Cell>, ghost start: seq<Cell>)
    returns (r: Result<(), Exception>)
    requires k < s.checks.Count() && Running(s, board, worker, pre, start, Constant(k)) && DistinctPositions(ts)
    requires forall i :: 0 <= i < |ts| ==>
      s.begin <= ts[i] < s.end && s.checks.Matches(k, s.f, DecodeK(s.f, ts[i], s.o), DecodeN(s.f, ts[i], s.o))
    modifies board, worker
    ensures r.Ok? ==> Running(s, board, worker, pre, start, Visited(k, ts))
    ensures !OnBoard(s.mode) ==> unchanged(board)
    ensures r.Err? ==> r.error == LengthError && ScanTooLarge(s)
  {
    hide Running, Progression.Count, Progression.Size, Checks.Matches;
    RunningChange(s, board, worker, pre, start, Constant(k), Visited(k, ts[..0]));
    var i := 0;
    while i < |ts|
      invariant 0 <= i <= |ts|
      invariant Running(s, board, worker, pre, start, Visited(k, ts[..i]))
      invariant !OnBoard(s.mode) ==> unchanged(board)
    {
      assert ts[i] !in ts[..i];
      var step := VisitNext(s, board, worker, k, ts, i, pre, start);
      if step.Err? {
        return step;
      }
      i := i + 1;
    }
    assert ts[..i] == ts;
    return Ok(());
  }

  /** One rule: its positions advance, the others have nothing to gain from it. */
  method VisitClass(s: Scan, board: Board, worker: Worker, k: nat, ghost pre: seq<Cell>, ghost start: seq<Cell>)
    returns (r: Result<(), Exception>)
    requires s.checks.Structures? && k < |s.checks.rules|
    requires s.o == ByK && s.begin < s.end && Running(s, board, worker, pre, start, Constant(k))
    modifies board, worker
    ensures r.Ok? ==> Running(s, board, worker, pre, start, Constant(k + 1))
    ensures !OnBoard(s.mode) ==> unchanged(board)
    ensures r.Err? ==> r.error == LengthError && ScanTooLarge(s)
  {
    var ts := RulePositions(s, s.checks.rules[k]);
    forall i | 0 <= i < |ts|
      ensures s.begin <= ts[i] < s.end && s.checks.Matches(k, s.f, DecodeK(s.f, ts[i], s.o), DecodeN(s.f, ts[i], s.o))
    {
      assert ts[i] in ts;
    }
    r := VisitPositions(s, board, worker, k, ts, pre, start);
    if r.Ok? {
      ClassFinished(s, board, worker, k, s.checks.rules[k], ts, pre, start);
    }
  }

  lemma ClassFinished(s: Scan, board: Board, worker: Worker, k: nat, rule: ForbiddenRule, ts: seq<u64>,
                      pre: seq<Cell>, start: seq<Cell>)
    requires s.checks.Structures? && k < |s.checks.rules| && rule == s.checks.rules[k] && rule.WellFormed()
    requires s.o == ByK && Running(s, board, worker, pre, start, Visited(k, ts))
    requires forall t: int :: t in ts <==> InSegmentClass(s, rule, t)
    ensures Running(s, board, worker, pre, start, Constant(k + 1))
  {
    forall ki, ni | s.f.InRange(ki, ni)
      ensures var t := Position(s.f, ki, ni, s.o);
        s.begin <= t < s.end && Constant(k + 1)(t) != Visited(k, ts)(t) ==>
          Visited(k, ts)(t) == k && !s.checks.Eliminates(k, s.f, ki, ni)
    {
      PositionExact(s.f, ki, ni, ByK);
    }
    StageSkips(s, pre, start, Written(s.mode, board, worker), Visited(k, ts), Constant(k + 1));
  }

  method VisitClasses(s: Scan, board: Board, worker: Worker, ghost pre: seq<Cell>, ghost start: seq<Cell>)
    returns (r: Result<(), Exception>)
    requires s.checks.Structures? && s.o == ByK && s.begin < s.end && Running(s, board, worker, pre, start, Constant(0))
    modifies board, worker
    ensures r.Ok? ==> Running(s, board, worker, pre, start, Constant(s.checks.Count()))
    ensures !OnBoard(s.mode) ==> unchanged(board)
    ensures r.Err? ==> r.error == LengthError && ScanTooLarge(s)
  {
    hide Running, Constant;
    var k := 0;
    while k < |s.checks.rules|
      invariant 0 <= k <= |s.checks.rules|
      invariant Running(s, board, worker, pre, start, Constant(k))
      invariant !OnBoard(s.mode) ==> unchanged(board)
    {
      var step := VisitClass(s, board, worker, k, pre, start);
      if step.Err? {
        return step;
      }
      k := k + 1;
    }
    return Ok(());
  }

  /** The residue-enumeration branch of scan_segment. */
  method ScanByResidue(s: Scan, board: Board, worker: Worker, ghost pre: seq<Cell>, ghost start: seq<Cell>)
    returns (r: Result<(), Exception>)
    requires s.checks.Structures? && s.o == ByK && Running(s, board, worker, pre, start, Constant(0))
    modifies board, worker
    ensures r.Ok? ==> Running(s, board, worker, pre, start, Constant(s.checks.Count()))
    ensures !OnBoard(s.mode) ==> unchanged(board)
    ensures r.Err? ==> r.error == LengthError && ScanTooLarge(s)
  {
    if s.begin >= s.end {
      RunningChange(s, board, worker, pre, start, Constant(0), Constant(s.checks.Count()));
      return Ok(());
    }
    r := VisitClasses(s, board, worker, pre, start);
  }
}
