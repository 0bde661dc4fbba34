/** Whole batches of the result log: their hashes, the chain over them, and the
    checkpoint that must never be ahead (src/discovery/native_b8_campaign.cpp). */
module CampaignBatches {
  import opened MachineArithmetic
  import opened Decimal
  import opened DelimitedText
  import opened CampaignLog
  import opened Wrappers

  // ----- hashes of a batch

  function CanonicalCandidates(candidates: seq<Candidate>): string {
    if candidates == [] then ""
    else
      var last := candidates[|candidates| - 1];
      CanonicalCandidates(candidates[..|candidates| - 1]) + (ToDecimal(last.k) + "\t" + ToDecimal(last.n) + "\n")
  }

  /** ordered_batch_sha256, for one to 32 candidates. */
  function OrderedBatchHash(fmt: LogFormat, candidates: seq<Candidate>): string {
    fmt.sha256(CanonicalCandidates(candidates))
  }

  function HashLines(results: seq<StoredResult>): string {
    if results == [] then ""
      else HashLines(results[..|results| - 1]) + (results[|results| - 1].result.candidateResultHash + "\n")
  }

  /** batch_hash over the rows of the batch. */
  function BatchHash(fmt: LogFormat, batchId: u64, orderedHash: string, engineHash: string,
    rows: seq<StoredResult>): string {
    fmt.sha256(ToDecimal(batchId) + "\t" + orderedHash + "\t" + ToDecimal(|rows|) + "\t" + engineHash + "\n"
      + HashLines(rows))
  }

  function CandidatesOf(rows: seq<StoredResult>): (cs: seq<Candidate>)
    ensures |cs| == |rows|
  {
    seq(|rows|, i requires 0 <= i < |rows| => rows[i].result.candidate)
  }

  predicate IsProvenPrime(row: StoredResult) {
    row.result.classification == "PROVEN_PRIME"
  }

  predicate HasPrime(rows: seq<StoredResult>) {
    exists i :: 0 <= i < |rows| && IsProvenPrime(rows[i])
  }

  /** The last batch hash before any batch: 64 zeros. */
  function ZeroHash(): string {
    seq(64, _ => '0')
  }

  /** advance_result_chain */
  function AdvanceResultChain(fmt: LogFormat, previous: string, batchResultHash: string, batchSize: nat): string {
    fmt.sha256(previous + "\t" + batchResultHash + "\t" + ToDecimal(batchSize) + "\n")
  }

  // ----- validation of the rows

  datatype DurableResultState = DurableResultState(
    nextBatchId: nat, batchEndOffsets: seq<nat>, resultChainHashes: seq<string>, lastBatchHashes: seq<string>,
    completeResultCount: nat, incompleteFinalBatch: bool)

  /** The metadata and hashes of one complete batch agree. */
  predicate LaneConsistent(row: StoredResult, first: StoredResult, lane: nat) {
    && row.batchId == first.batchId && row.batchSize == first.batchSize && row.result.laneId == lane
    && row.orderedCandidateHash == first.orderedCandidateHash && row.engineHash == first.engineHash
    && row.startUtc == first.startUtc && row.terminalStatus == "BATCH_COMPLETE"
    && row.batchResultHash == first.batchResultHash
  }

  predicate BatchConsistent(fmt: LogFormat, batch: seq<StoredResult>)
    requires batch != []
  {
    && (forall lane :: 0 <= lane < |batch| ==> LaneConsistent(batch[lane], batch[0], lane))
    && OrderedBatchHash(fmt, CandidatesOf(batch)) == batch[0].orderedCandidateHash
    && BatchHash(fmt, batch[0].batchId, batch[0].orderedCandidateHash, batch[0].engineHash, batch) ==
      batch[0].batchResultHash
  }

  function InitialState(fmt: LogFormat): DurableResultState {
    DurableResultState(0, [0], [fmt.sha256(fmt.header)], [ZeroHash()], 0, false)
  }

  function AfterBatch(fmt: LogFormat, s: DurableResultState, first: StoredResult, offset: nat): (r: DurableResultState)
    requires s.resultChainHashes != []
    ensures r.resultChainHashes != []
  {
    var previous := s.resultChainHashes[|s.resultChainHashes| - 1];
    s.(nextBatchId := s.nextBatchId + 1, batchEndOffsets := s.batchEndOffsets + [offset],
      resultChainHashes :=
        s.resultChainHashes + [AdvanceResultChain(fmt, previous, first.batchResultHash, first.batchSize)],
      lastBatchHashes := s.lastBatchHashes + [first.batchResultHash])
  }

  /** The verdict on the rows from an offset on. */
  function ValidateFrom(fmt: LogFormat, results: seq<StoredResult>, offset: nat,
    s: DurableResultState): Result<DurableResultState, Exception>
    requires offset <= |results| && s.resultChainHashes != []
    decreases |results| - offset
  {
    if offset == |results| then Ok(s.(completeResultCount := offset))
    else
      var first := results[offset];
      if first.batchId != s.nextBatchId || first.batchSize == 0
        || first.batchSize > MAX_BATCH_SIZE then Err(RuntimeError)
      else if |results| - offset < first.batchSize then Ok(s.(completeResultCount := offset,
        incompleteFinalBatch := true))
      else
        var end := offset + first.batchSize;
        var batch := results[offset..end];
        if !BatchConsistent(fmt, batch) then Err(RuntimeError)
        else if HasPrime(batch) && end != |results| then Err(RuntimeError)
        else ValidateFrom(fmt, results, end, AfterBatch(fmt, s, first, end))
  }

  /** The loop over the lanes of one batch. */
  method CheckBatch(fmt: LogFormat, batch: seq<StoredResult>) returns (consistent: bool, hasPrime: bool)
    requires batch != []
    ensures consistent == BatchConsistent(fmt, batch)
    ensures consistent ==> hasPrime == HasPrime(batch)
  {
    var first := batch[0];
    var candidates := [];
    hasPrime := false;
    var lane := 0;
    while lane < |batch|
      invariant 0 <= lane <= |batch|
      invariant forall l :: 0 <= l < lane ==> LaneConsistent(batch[l], first, l)
      invariant |candidates| == lane && forall l :: 0 <= l < lane ==> candidates[l] == batch[l].result.candidate
      invariant hasPrime <==> HasPrime(batch[..lane])
    {
      if !LaneConsistent(batch[lane], first, lane) {
        return false, false;
      }
      candidates := candidates + [batch[lane].result.candidate];
      assert batch[..lane + 1] == batch[..lane] + [batch[lane]];
      hasPrime := hasPrime || IsProvenPrime(batch[lane]);
      lane := lane + 1;
    }
    assert candidates == CandidatesOf(batch) && batch[..lane] == batch;
    consistent := OrderedBatchHash(fmt, candidates) == first.orderedCandidateHash
      && BatchHash(fmt, first.batchId, first.orderedCandidateHash, first.engineHash, batch) == first.batchResultHash;
  }

  /** validate_result_batches */
  method ValidateResultBatches(fmt: LogFormat, results: seq<StoredResult>)
    returns (r: Result<DurableResultState, Exception>)
    ensures r == ValidateFrom(fmt, results, 0, InitialState(fmt))
  {
    hide BatchConsistent, HasPrime, AdvanceResultChain;
    var s := InitialState(fmt);
    var offset := 0;
    while offset < |results|
      invariant 0 <= offset <= |results| && s.resultChainHashes != []
      invariant ValidateFrom(fmt, results, 0, InitialState(fmt)) == ValidateFrom(fmt, results, offset, s)
    {
      var first := results[offset];
      if first.batchId != s.nextBatchId || first.batchSize == 0 || first.batchSize > MAX_BATCH_SIZE {
        return Err(RuntimeError);
      }
      if |results| - offset < first.batchSize {
        return Ok(s.(completeResultCount := offset, incompleteFinalBatch := true));
      }
      var end := offset + first.batchSize;
      var consistent, hasPrime := CheckBatch(fmt, results[offset..end]);
      if !consistent {
        return Err(RuntimeError);
      }
      if hasPrime && end != |results| {
        return Err(RuntimeError);
      }
      s := AfterBatch(fmt, s, first, end);
      offset := end;
    }
    return Ok(s.(completeResultCount := offset));
  }

  // ----- whole batches

  type Batches = seq<seq<StoredResult>>

  function Flat(batches: Batches): seq<StoredResult> {
    if batches == [] then [] else Flat(batches[..|batches| - 1]) + batches[|batches| - 1]
  }

  /** A complete batch with this identifier. */
  ghost predicate GoodBatch(fmt: LogFormat, batch: seq<StoredResult>, id: nat) {
    && 0 < |batch| <= MAX_BATCH_SIZE && batch[0].batchId == id && batch[0].batchSize == |batch|
    && BatchConsistent(fmt, batch)
  }

  /** Good batches in order, none after a proven prime. */
  ghost predicate GoodBatches(fmt: LogFormat, batches: Batches) {
    && (forall i :: 0 <= i < |batches| ==> GoodBatch(fmt, batches[i], i))
    && (forall i :: 0 <= i < |batches| - 1 ==> !HasPrime(batches[i]))
  }

  /** The chain hash over the first batches. */
  function Chain(fmt: LogFormat, batches: Batches): string {
    if batches == [] then fmt.sha256(fmt.header)
    else
      var last := batches[|batches| - 1];
      AdvanceResultChain(fmt, Chain(fmt, batches[..|batches| - 1]), BatchResult(last), |last|)
  }

  function BatchResult(batch: seq<StoredResult>): string {
    if batch == [] then ZeroHash() else batch[0].batchResultHash
  }

  /** The state a validation must reach over these batches. */
  function StateOf(fmt: LogFormat, batches: Batches): (s: DurableResultState)
    ensures |s.resultChainHashes| == |batches| + 1
  {
    if batches == [] then InitialState(fmt)
    else
      var earlier := StateOf(fmt, batches[..|batches| - 1]);
      DurableResultState(|batches|, earlier.batchEndOffsets + [|Flat(batches)|],
        earlier.resultChainHashes + [Chain(fmt, batches)], earlier.lastBatchHashes
          + [BatchResult(batches[|batches| - 1])], 0, false)
  }

  lemma StateShape(fmt: LogFormat, batches: Batches)
    ensures var s := StateOf(fmt, batches);
      |s.lastBatchHashes| == |s.batchEndOffsets| == |batches| + 1 && s.nextBatchId == |batches|
    ensures batches == [] ==> Flat(batches) == []
  {
  }

  /** The state's entry for the first j batches. */
  ghost predicate EntryIs(s: DurableResultState, fmt: LogFormat, batches: Batches, j: nat)
    requires j <= |batches|
  {
    && j < |s.batchEndOffsets| && j < |s.resultChainHashes| && j < |s.lastBatchHashes|
    && s.batchEndOffsets[j] == |Flat(batches[..j])| && s.resultChainHashes[j] == Chain(fmt, batches[..j])
    && s.lastBatchHashes[j] == if j == 0 then ZeroHash() else BatchResult(batches[j - 1])
  }

  lemma LastFields(fmt: LogFormat, batches: Batches)
    ensures |StateOf(fmt, batches).batchEndOffsets| == |StateOf(fmt, batches).lastBatchHashes| == |batches| + 1
    ensures StateOf(fmt, batches).batchEndOffsets[|batches|] == |Flat(batches)|
    ensures StateOf(fmt, batches).resultChainHashes[|batches|] == Chain(fmt, batches)
    ensures StateOf(fmt, batches).lastBatchHashes[|batches|] == if batches == [] then ZeroHash()
      else BatchResult(batches[|batches| - 1])
  {
    hide HasPrime, AdvanceResultChain, BatchResult;
    if batches != [] {
      StateShape(fmt, batches[..|batches| - 1]);
    }
  }

  lemma LastEntry(fmt: LogFormat, batches: Batches)
    ensures EntryIs(StateOf(fmt, batches), fmt, batches, |batches|)
  {
    LastFields(fmt, batches);
    assert batches[..|batches|] == batches;
    hide StateOf, Chain, Flat, BatchResult;
  }

  lemma {:induction false} StateEntries(fmt: LogFormat, batches: Batches, j: nat)
    requires j <= |batches|
    ensures EntryIs(StateOf(fmt, batches), fmt, batches, j)
    decreases |batches|
  {
    if j < |batches| {
      var earlier := batches[..|batches| - 1];
      StateEntries(fmt, earlier, j);
      assert earlier[..j] == batches[..j];
    } else {
      LastEntry(fmt, batches);
    }
  }

  lemma {:induction false} FlatPrefix(batches: Batches, i: nat)
    requires i < |batches|
    ensures Flat(batches[..i]) + batches[i] == Flat(batches[..i + 1]) && Flat(batches[..i + 1]) <= Flat(batches)
    decreases |batches|
  {
    assert batches[..i + 1][..i] == batches[..i];
    if i + 1 < |batches| {
      FlatPrefix(batches[..|batches| - 1], i);
      assert batches[..|batches| - 1][..i + 1] == batches[..i + 1] && batches[..|batches| - 1][..i] == batches[..i];
    } else {
      assert batches[..i + 1] == batches;
    }
  }

  /** The beginning of one more batch. */
  ghost predicate Partial(fmt: LogFormat, partial: seq<StoredResult>, id: nat) {
    partial == [] || (partial[0].batchId == id && |partial| < partial[0].batchSize <= MAX_BATCH_SIZE)
  }

  lemma BatchSlice(batches: Batches, partial: seq<StoredResult>, i: nat)
    requires i < |batches| && batches[i] != []
    ensures var results, offset := Flat(batches) + partial, |Flat(batches[..i])|; var end := offset + |batches[i]|;
      end == |Flat(batches[..i + 1])| <= |results| && results[offset..end] == batches[i]
        && results[offset] == batches[i][0]
    ensures i + 1 == |batches| && partial == [] ==> |Flat(batches[..i + 1])| == |Flat(batches) + partial|
  {
    var all, offset := Flat(batches), |Flat(batches[..i])|;
    FlatPrefix(batches, i);
    var end := offset + |batches[i]|;
    assert all[..end] == Flat(batches[..i]) + batches[i];
    assert (all + partial)[offset..end] == batches[i];
    if i + 1 == |batches| {
      assert batches[..i + 1] == batches;
    }
  }

  lemma StateStep(fmt: LogFormat, batches: Batches, i: nat)
    requires i < |batches| && GoodBatch(fmt, batches[i], i)
    ensures AfterBatch(fmt, StateOf(fmt, batches[..i]), batches[i][0], |Flat(batches[..i + 1])|) ==
      StateOf(fmt, batches[..i + 1])
    ensures StateOf(fmt, batches[..i]).nextBatchId == i
  {
    LastEntry(fmt, batches[..i]);
    StateShape(fmt, batches[..i]);
    assert batches[..i][..i] == batches[..i] && batches[..i + 1][..i] == batches[..i];
  }

  lemma ValidateStep(fmt: LogFormat, results: seq<StoredResult>, offset: nat, s: DurableResultState,
                     batch: seq<StoredResult>, end: nat)
    requires offset < end <= |results| && s.resultChainHashes != [] && results[offset..end] == batch
    requires GoodBatch(fmt, batch, s.nextBatchId) && (HasPrime(batch) ==> end == |results|)
    ensures ValidateFrom(fmt, results, offset, s) == ValidateFrom(fmt, results, end, AfterBatch(fmt, s, batch[0], end))
  {
    hide BatchConsistent, HasPrime, AfterBatch;
    assert results[offset] == batch[0];
  }

  lemma StepOverBatch(fmt: LogFormat, batches: Batches, partial: seq<StoredResult>, i: nat)
    requires GoodBatches(fmt, batches) && i < |batches|
    requires partial != [] ==> forall j :: 0 <= j < |batches| ==> !HasPrime(batches[j])
    ensures var results := Flat(batches) + partial;
      |Flat(batches[..i])| <= |Flat(batches[..i + 1])| <= |results|
      && ValidateFrom(fmt, results, |Flat(batches[..i])|, StateOf(fmt, batches[..i]))
        == ValidateFrom(fmt, results, |Flat(batches[..i + 1])|, StateOf(fmt, batches[..i + 1]))
  {
    hide ValidateFrom, BatchConsistent, HasPrime, Flat, StateOf, AfterBatch;
    assert GoodBatch(fmt, batches[i], i);
    BatchSlice(batches, partial, i);
    StateStep(fmt, batches, i);
    StateShape(fmt, batches[..i]);
    var end := |Flat(batches[..i + 1])|;
    assert HasPrime(batches[i]) ==> end == |Flat(batches) + partial|;
    ValidateStep(fmt, Flat(batches) + partial, |Flat(batches[..i])|, StateOf(fmt, batches[..i]), batches[i], end);
  }

  lemma ValidateEnd(fmt: LogFormat, batches: Batches, partial: seq<StoredResult>)
    requires Partial(fmt, partial, |batches|)
    ensures ValidateFrom(fmt, Flat(batches) + partial, |Flat(batches)|, StateOf(fmt, batches))
      == Ok(StateOf(fmt, batches).(completeResultCount := |Flat(batches)|, incompleteFinalBatch := partial != []))
  {
    StateShape(fmt, batches);
    if partial != [] {
      assert (Flat(batches) + partial)[|Flat(batches)|] == partial[0];
    }
  }

  ghost predicate ValidatedAt(fmt: LogFormat, batches: Batches, partial: seq<StoredResult>, i: nat)
    requires i <= |batches|
  {
    |Flat(batches[..i])| <= |Flat(batches) + partial|
    && ValidateFrom(fmt, Flat(batches) + partial, |Flat(batches[..i])|, StateOf(fmt, batches[..i]))
      == Ok(StateOf(fmt, batches).(completeResultCount := |Flat(batches)|, incompleteFinalBatch := partial != []))
  }

  lemma {:induction false} ValidateSuffix(fmt: LogFormat, batches: Batches, partial: seq<StoredResult>, i: nat)
    requires GoodBatches(fmt, batches) && Partial(fmt, partial, |batches|) && i <= |batches|
    requires partial != [] ==> forall j :: 0 <= j < |batches| ==> !HasPrime(batches[j])
    ensures ValidatedAt(fmt, batches, partial, i)
    decreases |batches| - i
  {
    hide ValidateFrom, StateOf, Flat, GoodBatches, Partial;
    if i < |batches| {
      StepOverBatch(fmt, batches, partial, i);
      ValidateSuffix(fmt, batches, partial, i + 1);
    } else {
      assert batches[..i] == batches;
      ValidateEnd(fmt, batches, partial);
    }
  }

  /** Whole batches and the beginning of another are recovered exactly, and the chain
      hash recomputed from the rows is the chain advanced batch by batch. */
  lemma ValidateWritten(fmt: LogFormat, batches: Batches, partial: seq<StoredResult>)
    requires GoodBatches(fmt, batches) && Partial(fmt, partial, |batches|)
    requires partial != [] ==> forall j :: 0 <= j < |batches| ==> !HasPrime(batches[j])
    ensures ValidateFrom(fmt, Flat(batches) + partial, 0, InitialState(fmt))
      == Ok(StateOf(fmt, batches).(completeResultCount := |Flat(batches)|, incompleteFinalBatch := partial != []))
  {
    ValidateSuffix(fmt, batches, partial, 0);
    assert batches[..0] == [];
  }
}
