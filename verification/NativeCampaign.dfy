/** The native batch campaign over any sequence of stops, failures, crashes and
    restarts (src/discovery/native_b8_campaign.cpp). */
module NativeCampaign {
  import opened MachineArithmetic
  import opened Decimal
  import opened DelimitedText
  import opened CampaignLog
  import opened CampaignRefusal
  import opened CampaignBatches
  import opened CampaignCheckpoint
  import opened JsonText
  import opened CampaignDisk
  import opened Durability
  import opened CampaignRecovery
  import opened Wrappers

  // ----- the environment

  /** What the engine may do with a batch. */
  datatype Execution = Threw | Stopped(error: string) | Returned(exitCode: int, error: string,
    results: seq<CandidateResult>)

  /** Everything a run does not control: stop requests, the engine's answer to each batch,
      the clock and crashes. */
  datatype Environment = Environment(
    stop: nat -> bool, execute: nat -> Execution, startUtc: nat -> string,
    startFate: nat -> Fate, appendFate: nat -> Fate, checkpointFate: nat -> Fate)
  {
    /** The clock's texts have no tabs or newlines, and the rows of every answer that a run
        would write are usable: the engine may otherwise return any texts. */
    ghost predicate Valid(c: Campaign) {
      && (forall id :: Clean(startUtc(id)))
      && forall id: u64, offset: nat :: BatchUsable(c, id, offset)
    }

    ghost predicate BatchUsable(c: Campaign, id: u64, offset: nat) {
      var e := execute(id);
      e.Returned? && e.exitCode == 0 && e.error == "" && AnswersAt(c, e.results, offset) ==>
        RowsUsable(c, BatchRows(c, id, c.corpus.queue[offset..offset + |e.results|], e.results, startUtc(id)),
          appendFate(id))
    }
  }

  /** The answer has the lanes of a batch of the queue. */
  ghost predicate AnswersAt(c: Campaign, results: seq<CandidateResult>, offset: nat) {
    && |results| <= MAX_BATCH_SIZE && offset + |results| <= |c.corpus.queue|
    && LanesMatch(results, c.corpus.queue[offset..offset + |results|])
  }

  /** The hash of a forgery is unique, and a crash in the append leaves no forgery. */
  ghost predicate RowsUsable(c: Campaign, rows: seq<StoredResult>, fate: Fate) {
    (forall i :: 0 <= i < |rows| ==> RowUsable(c, rows[i])) && NoForgeryKept(c, rows, fate)
  }

  ghost predicate RowUsable(c: Campaign, s: StoredResult) {
    && (Forged(c.cfg, c.fmt, s) ==> UniqueHash(c.cfg, c.fmt, s))
    && (c.validatedEngine ==> Readable(s.result))
  }

  /** The append is whole, or what a crash leaves of the row it cuts does not pass for other
      rows; of a row without a forgery nothing does. */
  ghost predicate NoForgeryKept(c: Campaign, rows: seq<StoredResult>, fate: Fate) {
    var size := |Lines(RowTexts(rows))|;
    Kept(fate, size) == size || !CutReads(c.cfg, c.fmt, CutText(rows, Remains(rows, Kept(fate, size))))
  }

  // ----- building a batch

  function WithHash(c: Campaign, batchId: u64, r: CandidateResult): CandidateResult {
    r.(candidateResultHash := c.fmt.sha256(ResultHashInput(c.cfg.campaignId, batchId, r)))
  }

  predicate LaneMatches(r: CandidateResult, lane: nat, candidate: Candidate) {
    r.laneId == lane && r.candidate == candidate
  }

  function Row(c: Campaign, batchId: u64, orderedHash: string, size: u64, r: CandidateResult, startUtc: string,
               batchResultHash: string): StoredResult {
    StoredResult(c.cfg.campaignId, batchId, orderedHash, size, WithHash(c, batchId, r), c.cfg.engineBinarySha256,
      startUtc, "BATCH_COMPLETE", batchResultHash)
  }

  function RowsOf(c: Campaign, batchId: u64, orderedHash: string, results: seq<CandidateResult>, startUtc: string,
                  batchResultHash: string): (rows: seq<StoredResult>)
    requires |results| <= MAX_BATCH_SIZE
    ensures |rows| == |results|
  {
    seq(|results|, i requires 0 <= i < |results| => Row(c, batchId, orderedHash, |results|, results[i], startUtc,
      batchResultHash))
  }

  lemma HashLinesIgnoreResult(a: seq<StoredResult>, b: seq<StoredResult>)
    requires |a| == |b| && forall i :: 0 <= i < |a| ==>
      a[i].result.candidateResultHash == b[i].result.candidateResultHash
    ensures HashLines(a) == HashLines(b)
  {
    if a != [] {
      HashLinesIgnoreResult(a[..|a| - 1], b[..|b| - 1]);
    }
  }

  /** The rows of a batch with their hashes; the batch hash covers the candidate hashes. */
  function BatchRows(c: Campaign, batchId: u64, candidates: seq<Candidate>, results: seq<CandidateResult>,
    startUtc: string): (rows: seq<StoredResult>)
    requires |results| <= MAX_BATCH_SIZE
    ensures |rows| == |results|
  {
    var ordered := OrderedBatchHash(c.fmt, candidates);
    var unsigned := RowsOf(c, batchId, ordered, results, startUtc, "");
    RowsOf(c, batchId, ordered, results, startUtc,
      BatchHash(c.fmt, batchId, ordered, c.cfg.engineBinarySha256, unsigned))
  }

  ghost predicate LanesMatch(results: seq<CandidateResult>, candidates: seq<Candidate>) {
    |results| == |candidates| && forall lane :: 0 <= lane < |results| ==>
      LaneMatches(results[lane], lane, candidates[lane])
  }

  /** A batch built from matching results is a good batch. */
  lemma BuiltBatchIsGood(c: Campaign, batchId: u64, candidates: seq<Candidate>, results: seq<CandidateResult>,
                         startUtc: string)
    requires 0 < |results| <= MAX_BATCH_SIZE && LanesMatch(results, candidates)
    ensures GoodBatch(c.fmt, BatchRows(c, batchId, candidates, results, startUtc), batchId)
  {
    var ordered := OrderedBatchHash(c.fmt, candidates);
    var unsigned := RowsOf(c, batchId, ordered, results, startUtc, "");
    var rows := BatchRows(c, batchId, candidates, results, startUtc);
    HashLinesIgnoreResult(unsigned, rows);
    assert CandidatesOf(rows) == candidates;
    hide HashLines, CanonicalCandidates;
  }

  lemma BuiltRowIsOwn(c: Campaign, batchId: u64, candidates: seq<Candidate>, results: seq<CandidateResult>,
                      startUtc: string,
                      lane: nat, offset: nat)
    requires c.Valid() && 0 < |results| <= c.cfg.batchSize && LanesMatch(results, candidates) && lane < |results|
    requires offset + |results| <= |c.corpus.queue| && candidates == c.corpus.queue[offset..offset + |results|]
    requires RowUsable(c, BatchRows(c, batchId, candidates, results, startUtc)[lane]) && Clean(startUtc)
    ensures c.OwnRow(BatchRows(c, batchId, candidates, results, startUtc)[lane], offset + lane)
  {
    assert LaneMatches(results[lane], lane, candidates[lane]);
    HashInputIgnoresHash(c, batchId, results[lane]);
    StatusClean();
    hide BatchHash, OrderedBatchHash, ResultHashInput, Clean, Printable, Forged, UniqueHash;
  }

  lemma HashInputIgnoresHash(c: Campaign, batchId: u64, r: CandidateResult)
    ensures ResultHashInput(c.cfg.campaignId, batchId, WithHash(c, batchId, r)) ==
      ResultHashInput(c.cfg.campaignId, batchId, r)
  {
  }

  lemma StatusClean()
    ensures Clean("BATCH_COMPLETE")
  {
  }

  lemma GoodExtends(fmt: LogFormat, batches: Batches, batch: seq<StoredResult>)
    requires GoodBatches(fmt, batches) && !HasPrime(Flat(batches)) && GoodBatch(fmt, batch, |batches|)
    ensures GoodBatches(fmt, batches + [batch])
  {
    hide GoodBatch, HasPrime, Flat;
    var longer := batches + [batch];
    forall i | 0 <= i < |longer|
      ensures GoodBatch(fmt, longer[i], i)
    {
      assert i < |batches| ==> longer[i] == batches[i];
    }
    forall i | 0 <= i < |batches|
      ensures !HasPrime(longer[i])
    {
      assert longer[i] == batches[i];
      if HasPrime(batches[i]) {
        PrimeInFlat(batches, i);
      }
    }
  }

  lemma OwnExtends(c: Campaign, rows: seq<StoredResult>, batch: seq<StoredResult>)
    requires c.OwnRows(rows) && |rows| + |batch| <= |c.corpus.queue|
    requires forall lane :: 0 <= lane < |batch| ==> c.OwnRow(batch[lane], |rows| + lane)
    ensures c.OwnRows(rows + batch)
  {
    hide Campaign.OwnRow;
    forall i | 0 <= i < |rows + batch|
      ensures c.OwnRow((rows + batch)[i], i)
    {
      if i >= |rows| {
        assert c.OwnRow(batch[i - |rows|], |rows| + (i - |rows|));
      }
    }
  }

  /** Appending a built batch to a history without a prime gives a history. */
  lemma BuiltBatchExtends(c: Campaign, batches: Batches, batch: seq<StoredResult>)
    requires c.History(batches) && !HasPrime(Flat(batches)) && GoodBatch(c.fmt, batch, |batches|)
    requires |Flat(batches)| + |batch| <= |c.corpus.queue|
    requires forall lane :: 0 <= lane < |batch| ==> c.OwnRow(batch[lane], |Flat(batches)| + lane)
    ensures c.History(batches + [batch])
  {
    hide GoodBatch, GoodBatches, HasPrime, Flat, Campaign.OwnRow, Campaign.OwnRows;
    FlatAppend(batches, batch);
    GoodExtends(c.fmt, batches, batch);
    OwnExtends(c, Flat(batches), batch);
  }

  lemma PrimeInFlat(batches: Batches, i: nat)
    requires i < |batches| && HasPrime(batches[i])
    ensures HasPrime(Flat(batches))
  {
    hide IsProvenPrime;
    FlatPrefix(batches, i);
    var j :| 0 <= j < |batches[i]| && IsProvenPrime(batches[i][j]);
    var start := |Flat(batches[..i])|;
    assert Flat(batches)[..start + |batches[i]|][start + j] == batches[i][j];
    assert IsProvenPrime(Flat(batches)[start + j]);
  }

  // ----- one batch

  /** What a run keeps in memory. */
  datatype Progress = Progress(stored: seq<StoredResult>, nextBatchId: nat, chain: string, lastHash: string,
    primeFound: bool)

  /** The memory agrees with the durable batches. */
  ghost predicate Agrees(c: Campaign, d: Disk, p: Progress)
    reads d
  {
    && d.Recoverable(c) && d.log.Some? && d.torn == 0
    && p.stored == Flat(d.batches) && p.nextBatchId == |d.batches| && p.chain == Chain(c.fmt, d.batches)
    && p.lastHash == LastHash(d.batches) && p.primeFound == HasPrime(p.stored)
  }

  function CheckpointNow(c: Campaign, p: Progress, terminalStatus: string): Checkpoint
    requires |p.stored| <= |c.corpus.queue|
  {
    var cfg, done := c.cfg, |p.stored|;
    Checkpoint(cfg.campaignId, cfg.parentCampaignId, cfg.engineCommit, cfg.engineBinarySha256, cfg.survivorListSha256,
      terminalStatus, p.nextBatchId, if p.nextBatchId == 0 then 0 else p.nextBatchId - 1, p.lastHash,
      |c.corpus.parentCompleted| + done, p.chain, done, done, |c.corpus.queue| - done,
      CandidateSetHash(c.fmt, c.corpus.parentCompleted), CandidateSetHash(c.fmt, c.corpus.queue))
  }

  lemma CheckpointNowDurable(c: Campaign, d: Disk, p: Progress, terminalStatus: string)
    requires Agrees(c, d, p)
    ensures |p.stored| <= |c.corpus.queue|
    ensures Durable(c, d.log, Some(CheckpointNow(c, p, terminalStatus)), d.batches, d.next, d.torn)
  {
    hide CandidateSetHash, Chain, LastHash, Flat, TornLog, Campaign.History, Lines, RowTexts, HasPrime, ZeroHash;
    StoredFits(c, d.batches);
    assert d.batches[..|d.batches|] == d.batches;
  }

  lemma StoredFits(c: Campaign, batches: Batches)
    requires c.History(batches)
    ensures |Flat(batches)| <= |c.corpus.queue|
  {
  }

  /** durable_checkpoint */
  method DurableCheckpoint(c: Campaign, d: Disk, p: Progress, terminalStatus: string, fate: Fate) returns (alive: bool)
    requires |p.stored| <= |c.corpus.queue|
    modifies d`checkpoint
    ensures old(Agrees(c, d, p)) ==> Agrees(c, d, p)
    ensures alive == fate.Completes?
    ensures d.checkpoint.Some? <==> old(d.checkpoint.Some?) || TakesEffect(fate)
    ensures alive ==> d.checkpoint.Some? && d.checkpoint.value.terminalStatus == terminalStatus
  {
    hide Campaign.Valid, Durable, Flat, Chain, LastHash, HasPrime;
    if Agrees(c, d, p) {
      CheckpointNowDurable(c, d, p, terminalStatus);
    }
    alive := ReplaceCheckpoint(d, CheckpointNow(c, p, terminalStatus), fate);
  }

  lemma AppendCompletes(c: Campaign, d: Disk, rows: seq<StoredResult>)
    requires d.Recoverable(c) && d.log.Some? && d.torn == 0 && c.History(d.batches + [rows])
    ensures Durable(c, Some(d.log.value + Lines(RowTexts(rows))), d.checkpoint, d.batches + [rows], [], 0)
  {
    hide CheckpointOf, Campaign.History;
    var longer := d.batches + [rows];
    UntornLog(c, d.batches, d.next);
    UntornLog(c, longer, []);
    FlatAppend(d.batches, rows);
    LogAppend(c.fmt, Flat(d.batches), rows);
    if d.checkpoint.Some? {
      assert longer[..d.checkpoint.value.nextBatchId] == d.batches[..d.checkpoint.value.nextBatchId];
    }
  }

  lemma AppendTears(c: Campaign, d: Disk, rows: seq<StoredResult>, kept: nat)
    requires d.Recoverable(c) && d.log.Some? && d.torn == 0 && c.History(d.batches + [rows])
    requires kept < |Lines(RowTexts(rows))| && !CutReads(c.cfg, c.fmt, CutText(rows, Remains(rows, kept)))
    ensures Durable(c, Some(d.log.value + Lines(RowTexts(rows))[..kept]), d.checkpoint, d.batches, rows, kept)
  {
    hide NotAhead, Campaign.History, Lines, LogText, CutReads, CutText, Remains;
    UntornLog(c, d.batches, d.next);
  }

  /** append_file_durably on the log: a beginning of the rows' text, the whole of it without a
      crash. When they continue the history and no forgery shows, the batch is durable, torn,
      or untouched, and what was durable before stays. */
  method AppendBatch(c: Campaign, d: Disk, rows: seq<StoredResult>, fate: Fate) returns (alive: bool)
    requires d.Recoverable(c) && d.log.Some? && d.torn == 0
    modifies d`log, d`batches, d`next, d`torn
    ensures d.log == Some(old(d.log.value) + Lines(RowTexts(rows))[..Kept(fate, |Lines(RowTexts(rows))|)])
    ensures alive == fate.Completes?
    ensures c.History(old(d.batches) + [rows]) && NoForgeryKept(c, rows, fate) ==>
      && d.Recoverable(c) && (d.batches == old(d.batches) || d.batches == old(d.batches) + [rows])
      && (alive ==> d.log.Some? && d.torn == 0 && d.batches == old(d.batches) + [rows])
  {
    hide Campaign.Valid, Durable, Campaign.History, Lines, RowTexts, CutReads, CutText, Remains;
    var content := SerializeResultRows(rows);
    ghost var kept := Kept(fate, |content|);
    ghost var continues := c.History(d.batches + [rows]) && NoForgeryKept(c, rows, fate);
    if continues {
      AppendCompletes(c, d, rows);
      if kept < |content| {
        AppendTears(c, d, rows, kept);
      }
    }
    assert content[..|content|] == content;
    alive := AppendLog(d, content, fate);
    if continues && kept == |content| {
      d.batches, d.next, d.torn := d.batches + [rows], [], 0;
    } else if continues {
      d.next, d.torn := rows, kept;
    }
  }

  function Advance(c: Campaign, p: Progress, rows: seq<StoredResult>): Progress
    requires rows != []
  {
    Progress(p.stored + rows, p.nextBatchId + 1,
      AdvanceResultChain(c.fmt, p.chain, rows[0].batchResultHash, |rows|), rows[0].batchResultHash,
      p.primeFound || HasPrime(rows))
  }

  lemma PrimeInConcatenation(a: seq<StoredResult>, b: seq<StoredResult>)
    ensures HasPrime(a + b) <==> HasPrime(a) || HasPrime(b)
  {
    hide IsProvenPrime;
    if i :| 0 <= i < |a| && IsProvenPrime(a[i]) {
      assert (a + b)[i] == a[i];
    }
    if i :| 0 <= i < |b| && IsProvenPrime(b[i]) {
      assert (a + b)[|a| + i] == b[i];
    }
  }

  /** The chain advanced by one batch is the chain over all batches. */
  lemma AdvanceAgrees(c: Campaign, batches: Batches, p: Progress, rows: seq<StoredResult>)
    requires rows != [] && p.stored == Flat(batches) && p.nextBatchId == |batches|
    requires p.chain == Chain(c.fmt, batches) && p.primeFound == HasPrime(p.stored)
    ensures var q, longer := Advance(c, p, rows), batches + [rows];
      && q.stored == Flat(longer) && q.nextBatchId == |longer| && q.chain == Chain(c.fmt, longer)
      && q.lastHash == LastHash(longer) && q.primeFound == HasPrime(q.stored)
  {
    var longer := batches + [rows];
    assert longer[..|batches|] == batches;
    PrimeInConcatenation(p.stored, rows);
    hide HasPrime, AdvanceResultChain;
  }

  /** The size of the next batch. */
  function BatchCount(c: Campaign, done: nat): (n: nat)
    requires done < |c.corpus.queue| && c.cfg.batchSize > 0
    ensures 0 < n <= c.cfg.batchSize && done + n <= |c.corpus.queue|
  {
    if c.cfg.batchSize < |c.corpus.queue| - done then c.cfg.batchSize else |c.corpus.queue| - done
  }

  /** The engine's answer is a complete batch in order. */
  method CheckLanes(results: seq<CandidateResult>, candidates: seq<Candidate>) returns (ok: bool)
    ensures ok == LanesMatch(results, candidates)
  {
    if |results| != |candidates| {
      return false;
    }
    var lane := 0;
    while lane < |results|
      invariant 0 <= lane <= |results|
      invariant forall l :: 0 <= l < lane ==> LaneMatches(results[l], l, candidates[l])
    {
      if !LaneMatches(results[lane], lane, candidates[lane]) {
        return false;
      }
      lane := lane + 1;
    }
    return true;
  }

  lemma BuiltBatchAppends(c: Campaign, batches: Batches, candidates: seq<Candidate>, results: seq<CandidateResult>,
                          startUtc: string)
    requires c.Valid() && c.History(batches) && !HasPrime(Flat(batches)) && |batches| <= MAX_U64
    requires 0 < |results| <= c.cfg.batchSize && LanesMatch(results, candidates)
    requires |Flat(batches)| + |results| <= |c.corpus.queue|
    requires candidates == c.corpus.queue[|Flat(batches)|..|Flat(batches)| + |results|]
    requires Clean(startUtc)
    requires forall i :: 0 <= i < |results| ==> RowUsable(c, BatchRows(c, |batches|, candidates, results, startUtc)[i])
    ensures var rows := BatchRows(c, |batches|, candidates, results, startUtc);
      |rows| == |results| && GoodBatch(c.fmt, rows, |batches|) && c.History(batches + [rows])
  {
    hide Clean, RowUsable, HasPrime, Flat, BatchRows, GoodBatch, GoodBatches, Campaign.OwnRow, Campaign.OwnRows,
      LanesMatch;
    var rows := BatchRows(c, |batches|, candidates, results, startUtc);
    BuiltBatchIsGood(c, |batches|, candidates, results, startUtc);
    forall lane | 0 <= lane < |rows|
      ensures c.OwnRow(rows[lane], |Flat(batches)| + lane)
    {
      BuiltRowIsOwn(c, |batches|, candidates, results, startUtc, lane, |Flat(batches)|);
    }
    BuiltBatchExtends(c, batches, rows);
  }

  lemma {:induction false} BatchesCounted(fmt: LogFormat, batches: Batches)
    requires forall i :: 0 <= i < |batches| ==> batches[i] != []
    ensures |batches| <= |Flat(batches)|
  {
    if batches != [] {
      BatchesCounted(fmt, batches[..|batches| - 1]);
    }
  }

  lemma AgreesCounts(c: Campaign, d: Disk, p: Progress)
    requires c.Valid() && Agrees(c, d, p)
    ensures |d.batches| <= |p.stored| <= |c.corpus.queue| <= MAX_U64 && c.History(d.batches)
  {
    forall i | 0 <= i < |d.batches|
      ensures d.batches[i] != []
    {
      assert GoodBatch(c.fmt, d.batches[i], i);
    }
    BatchesCounted(c.fmt, d.batches);
  }

  datatype BatchEnd = BatchCrashed | BatchFailed | BatchStopped | BatchDone(progress: Progress)

  /** The state a run reports after a durable batch. */
  function StateAfter(c: Campaign, p: Progress): string {
    if p.primeFound then "PRIME_FOUND" else if |p.stored| == |c.corpus.queue| then "COMPLETE_NO_PRIME"
      else "IN_PROGRESS"
  }

  /** Making a complete answer durable, then checkpointing it. Whatever the answer, a
      beginning of its rows' text is appended; the rest needs usable rows. */
  method PersistBatch(c: Campaign, d: Disk, p: Progress, candidates: seq<Candidate>, results: seq<CandidateResult>,
                      startUtc: string,
                      appendFate: Fate, checkpointFate: Fate)
    returns (r: BatchEnd)
    requires c.Valid() && Agrees(c, d, p) && !p.primeFound && |p.stored| + |results| <= |c.corpus.queue|
    requires 0 < |results| <= c.cfg.batchSize && LanesMatch(results, candidates)
    requires candidates == c.corpus.queue[|p.stored|..|p.stored| + |results|] && Clean(startUtc)
    modifies d
    ensures r.BatchCrashed? || r.BatchDone?
    ensures p.nextBatchId <= MAX_U64 &&
      var text := Lines(RowTexts(BatchRows(c, p.nextBatchId, candidates, results, startUtc)));
      d.log == Some(old(d.log.value) + text[..Kept(appendFate, |text|)])
    ensures old(d.checkpoint.Some?) ==> d.checkpoint.Some?
    ensures !appendFate.Completes? ==> r.BatchCrashed? && d.checkpoint == old(d.checkpoint)
    ensures appendFate.Completes? && checkpointFate.Completes? ==> r.BatchDone?
    ensures RowsUsable(c, BatchRows(c, p.nextBatchId, candidates, results, startUtc), appendFate) ==>
      d.Recoverable(c) && old(d.batches) <= d.batches && |d.batches| <= |old(d.batches)| + 1
    ensures RowsUsable(c, BatchRows(c, p.nextBatchId, candidates, results, startUtc), appendFate) && r.BatchDone? ==>
      && Agrees(c, d, r.progress) && |r.progress.stored| == |p.stored| + |results|
      && d.batches == old(d.batches) + [BatchRows(c, p.nextBatchId, candidates, results, startUtc)]
    ensures r.BatchDone? ==> d.checkpoint.Some? && d.checkpoint.value.terminalStatus == StateAfter(c, r.progress)
  {
    hide Campaign.History, Durable, Flat, Chain, LastHash, HasPrime, BatchRows, LanesMatch, RowUsable, NoForgeryKept,
      Clean,
      GoodBatch, AdvanceResultChain, Lines, RowTexts;
    AgreesCounts(c, d, p);
    var rows := BatchRows(c, p.nextBatchId, candidates, results, startUtc);
    if RowsUsable(c, rows, appendFate) {
      BuiltBatchAppends(c, d.batches, candidates, results, startUtc);
    }
    AdvanceAgrees(c, d.batches, p, rows);
    var alive := AppendBatch(c, d, rows, appendFate);
    if !alive {
      return BatchCrashed;
    }
    var q := Advance(c, p, rows);
    alive := DurableCheckpoint(c, d, q, StateAfter(c, q), checkpointFate);
    return if alive then BatchDone(q) else BatchCrashed;
  }

  /** One iteration of the batch loop. */
  method RunBatch(c: Campaign, d: Disk, p: Progress, env: Environment, i: nat)
    returns (r: BatchEnd, ghost submitted: bool)
    requires c.Valid() && env.Valid(c) && Agrees(c, d, p) && !p.primeFound && |p.stored| < |c.corpus.queue|
    modifies d
    ensures d.Recoverable(c) && old(d.batches) <= d.batches && |d.batches| <= |old(d.batches)| + 1
    ensures r.BatchDone? ==> Agrees(c, d, r.progress) && |d.batches| == |old(d.batches)| + 1 && submitted
    ensures r.BatchDone? ==> |p.stored| < |r.progress.stored| <= |c.corpus.queue|
    ensures r.BatchDone? ==> d.checkpoint.Some? && d.checkpoint.value.terminalStatus == StateAfter(c, r.progress)
    ensures r.BatchStopped? ==>
      d.batches == old(d.batches) && d.checkpoint.Some? && d.checkpoint.value.terminalStatus == "STOPPED"
    ensures |d.batches| > |old(d.batches)| ==> submitted
    ensures old(d.checkpoint.Some?) ==> d.checkpoint.Some?
  {
    hide Campaign.History, Durable, Flat, Chain, LastHash, HasPrime, LanesMatch, RowsUsable, BatchRows, Clean,
      Lines, RowTexts, LogFormat.Valid, IdentityPrintable, DistinctQueue;
    submitted := false;
    if env.stop(i) {
      var alive := DurableCheckpoint(c, d, p, "STOPPED", env.checkpointFate(i + 1));
      return if alive then BatchStopped else BatchCrashed, submitted;
    }
    var count := BatchCount(c, |p.stored|);
    var candidates := c.corpus.queue[|p.stored|..|p.stored| + count];
    submitted := true;
    AgreesCounts(c, d, p);
    var execution := env.execute(p.nextBatchId);
    match execution {
      case Threw =>
        var alive := DurableCheckpoint(c, d, p, "ERROR", env.checkpointFate(i + 1));
        return if alive then BatchFailed else BatchCrashed, submitted;
      case Stopped(error) =>
        var alive := DurableCheckpoint(c, d, p, if error != "" then "ERROR" else "STOPPED", env.checkpointFate(i + 1));
        return if !alive then BatchCrashed else if error != "" then BatchFailed else BatchStopped, submitted;
      case Returned(exitCode, error, results) =>
        if exitCode != 0 || error != "" {
          return BatchFailed, submitted;
        }
        var ok := CheckLanes(results, candidates);
        if !ok {
          return BatchFailed, submitted;
        }
        SameLength(results, candidates);
        assert env.BatchUsable(c, p.nextBatchId, |p.stored|) && AnswersAt(c, results, |p.stored|);
        r := PersistBatch(c, d, p, candidates, results, env.startUtc(p.nextBatchId), env.appendFate(p.nextBatchId),
          env.checkpointFate(i + 1));
    }
  }

  lemma SameLength(results: seq<CandidateResult>, candidates: seq<Candidate>)
    requires LanesMatch(results, candidates)
    ensures |results| == |candidates|
  {
  }

  // ----- a whole run

  datatype Outcome = Crashed | Refused | Failed | Finished(state: string)

  /** The batches a run hands to the engine, by identifier: consecutive from the first
      one that is not durable. */
  ghost predicate SubmittedInOrder(submitted: seq<nat>, first: nat) {
    forall j :: 0 <= j < |submitted| ==> submitted[j] == first + j
  }

  /** The batch loop. */
  method RunBatches(c: Campaign, d: Disk, p0: Progress, env: Environment)
    returns (outcome: Outcome, ghost submitted: seq<nat>)
    requires c.Valid() && env.Valid(c) && Agrees(c, d, p0)
    modifies d
    ensures d.Recoverable(c) && old(d.batches) <= d.batches
    ensures SubmittedInOrder(submitted, |old(d.batches)|)
    ensures |old(d.batches)| + |submitted| >= |d.batches| && |old(d.batches)| + |submitted| <= |d.batches| + 1
    ensures p0.primeFound ==> submitted == [] && d.batches == old(d.batches)
    ensures outcome.Finished? && outcome.state == "PRIME_FOUND" ==> HasPrime(Flat(d.batches))
    ensures outcome.Finished? && outcome.state == "COMPLETE_NO_PRIME" ==>
      !HasPrime(Flat(d.batches)) && |Flat(d.batches)| == |c.corpus.queue|
    ensures outcome.Finished? ==> outcome.state in {"PRIME_FOUND", "COMPLETE_NO_PRIME", "STOPPED"}
    ensures outcome != Refused && (old(d.checkpoint.Some?) ==> d.checkpoint.Some?)
  {
    hide Campaign.History, Campaign.Valid, Environment.Valid, Durable, Flat, Chain, LastHash, HasPrime;
    var p := p0;
    submitted := [];
    var i := 0;
    while |p.stored| < |c.corpus.queue| && !p.primeFound
      invariant Agrees(c, d, p) && old(d.batches) <= d.batches
      invariant SubmittedInOrder(submitted, |old(d.batches)|) && |old(d.batches)| + |submitted| == |d.batches|
      invariant old(d.checkpoint.Some?) ==> d.checkpoint.Some?
      invariant p0.primeFound ==> p == p0 && submitted == [] && d.batches == old(d.batches)
      decreases |c.corpus.queue| - |p.stored|
    {
      ghost var id := |d.batches|;
      var r, wasSubmitted := RunBatch(c, d, p, env, i);
      if wasSubmitted {
        submitted := submitted + [id];
      }
      match r {
        case BatchCrashed => return Crashed, submitted;
        case BatchFailed => return Failed, submitted;
        case BatchStopped => return Finished("STOPPED"), submitted;
        case BatchDone(q) => p := q;
      }
      i := i + 1;
    }
    if p.primeFound {
      return Finished("PRIME_FOUND"), submitted;
    }
    QueueExhausted(c, d, p);
    return Finished("COMPLETE_NO_PRIME"), submitted;
  }

  lemma QueueExhausted(c: Campaign, d: Disk, p: Progress)
    requires Agrees(c, d, p) && |p.stored| >= |c.corpus.queue|
    ensures |Flat(d.batches)| == |c.corpus.queue|
  {
  }

  /** What a restart accepts: visible rows that can all be read, and no checkpoint or one
      that is in progress or stopped. */
  ghost predicate Acceptable(c: Campaign, rows: seq<StoredResult>, checkpoint: Option<Checkpoint>) {
    AllReadable(rows) && ResumableCheckpoint(c.cfg, checkpoint)
  }

  /** The first checkpoint of a run, then its batches. */
  method RunRecovered(c: Campaign, d: Disk, p: Progress, env: Environment)
    returns (outcome: Outcome, ghost submitted: seq<nat>)
    requires c.Valid() && env.Valid(c) && Agrees(c, d, p)
    modifies d
    ensures d.Recoverable(c) && old(d.batches) <= d.batches
    ensures SubmittedInOrder(submitted, |old(d.batches)|) && |old(d.batches)| + |submitted| >= |d.batches|
    ensures p.primeFound ==> submitted == [] && d.batches == old(d.batches)
    ensures outcome.Finished? && outcome.state == "PRIME_FOUND" ==> HasPrime(Flat(d.batches))
    ensures outcome.Finished? && outcome.state == "COMPLETE_NO_PRIME" ==>
      !HasPrime(Flat(d.batches)) && |Flat(d.batches)| == |c.corpus.queue|
    ensures outcome != Refused && (TakesEffect(env.checkpointFate(0)) ==> d.checkpoint.Some?)
  {
    hide Campaign.History, Campaign.Valid, Environment.Valid, Durable, Flat, Chain, LastHash, HasPrime;
    submitted := [];
    AgreesCounts(c, d, p);
    var alive := DurableCheckpoint(c, d, p, if p.primeFound then "PRIME_FOUND"
      else "IN_PROGRESS", env.checkpointFate(0));
    if !alive {
      return Crashed, submitted;
    }
    outcome, submitted := RunBatches(c, d, p, env);
  }

  /** run_campaign: whatever the environment does, the durable batches are only ever
      extended, stay an exact prefix of the queue, and the checkpoint is never ahead;
      after a durable proven prime nothing is submitted. It is refused exactly when a
      visible row cannot be read or the checkpoint is not resumable, and a row that
      cannot be read ends the campaign. */
  method RunCampaign(c: Campaign, d: Disk, env: Environment) returns (outcome: Outcome, ghost submitted: seq<nat>)
    requires c.Valid() && env.Valid(c) && d.Recoverable(c)
    modifies d
    ensures d.Recoverable(c) && old(d.batches) <= d.batches
    ensures SubmittedInOrder(submitted, |old(d.batches)|) && |old(d.batches)| + |submitted| >= |d.batches|
    ensures HasPrime(Flat(old(d.batches))) ==> submitted == [] && d.batches == old(d.batches)
    ensures outcome.Finished? && outcome.state == "PRIME_FOUND" ==> HasPrime(Flat(d.batches))
    ensures outcome.Finished? && outcome.state == "COMPLETE_NO_PRIME" ==>
      !HasPrime(Flat(d.batches)) && |Flat(d.batches)| == |c.corpus.queue|
    ensures (forall i :: env.startFate(i).Completes?) ==>
      (outcome == Refused <==> !Acceptable(c, old(d.VisibleRows()), old(d.checkpoint)))
    ensures outcome != Refused && (forall i :: env.startFate(i).Completes?) && TakesEffect(env.checkpointFate(0)) ==>
      d.checkpoint.Some?
    ensures !AllReadable(old(d.VisibleRows())) ==>
      (outcome == Refused || outcome == Crashed) && d.batches == old(d.batches) && !AllReadable(d.VisibleRows())
    ensures c.validatedEngine ==> AllReadable(old(d.VisibleRows()))
  {
    hide Campaign.History, Campaign.Valid, Environment.Valid, Durable, Flat, Chain, LastHash, HasPrime, LogText,
      AllReadable, Resumable,
      StateAfter, SeenOf;
    VisibleIsPrefix(c, d);
    submitted := [];
    var start := Recover(c, d, env.startFate);
    match start {
      case StartupCrashed => return Crashed, submitted;
      case StartupRefused => return Refused, submitted;
      case Started(stored, nextBatchId, chain, lastHash) =>
        outcome, submitted := RunRecovered(c, d, Progress(stored, nextBatchId, chain, lastHash, HasPrime(stored)), env);
    }
  }

  /** Any number of runs: crashes anywhere never lose a durable batch, the last state can
      always be recovered, and behind a row that cannot be read nothing is ever added. */
  method RunRepeatedly(c: Campaign, d: Disk, envs: seq<Environment>) returns (outcomes: seq<Outcome>)
    requires c.Valid() && d.Recoverable(c) && forall i :: 0 <= i < |envs| ==> envs[i].Valid(c)
    modifies d
    ensures d.Recoverable(c) && old(d.batches) <= d.batches && |outcomes| == |envs|
    ensures HasPrime(Flat(old(d.batches))) ==> d.batches == old(d.batches)
    ensures !AllReadable(old(d.VisibleRows())) ==>
      d.batches == old(d.batches) && forall i :: 0 <= i < |outcomes| ==>
        outcomes[i] == Refused || outcomes[i] == Crashed
  {
    hide Campaign.Valid, Environment.Valid, Durable, Flat, HasPrime, LogText, AllReadable, Acceptable, SeenOf;
    outcomes := [];
    ghost var unreadable := !AllReadable(d.VisibleRows());
    while |outcomes| < |envs|
      invariant |outcomes| <= |envs| && d.Recoverable(c) && old(d.batches) <= d.batches
      invariant HasPrime(Flat(old(d.batches))) ==> d.batches == old(d.batches)
      invariant unreadable ==> d.batches == old(d.batches) && !AllReadable(d.VisibleRows())
      invariant unreadable ==> forall i :: 0 <= i < |outcomes| ==> outcomes[i] == Refused || outcomes[i] == Crashed
    {
      var outcome, submitted := RunCampaign(c, d, envs[|outcomes|]);
      outcomes := outcomes + [outcome];
    }
  }

  // ----- identities and answers that end a campaign

  lemma NewDisk(c: Campaign, d: Disk)
    requires d.log == None && d.checkpoint == None && d.batches == [] && d.torn == 0
    ensures d.Recoverable(c) && d.VisibleRows() == [] && Flat(d.batches) == []
      && Acceptable(c, d.VisibleRows(), d.checkpoint)
  {
    hide Lines, RowTexts;
    NothingSeen(d.next);
  }

  /** A new campaign runs, whatever its identity, and saves a checkpoint. The next run is
      refused when a text of the identity has a control character, and otherwise only for
      the rows and the status that the first one left. */
  method UnprintableRunsOnce(c: Campaign, d: Disk, env: Environment, later: Environment)
    returns (first: Outcome, second: Outcome, ghost rows: seq<StoredResult>, ghost saved: Option<Checkpoint>)
    requires c.Valid() && env.Valid(c) && later.Valid(c)
    requires d.log == None && d.checkpoint == None && d.batches == [] && d.torn == 0
    requires (forall i :: env.startFate(i).Completes?) && TakesEffect(env.checkpointFate(0))
    requires forall i :: later.startFate(i).Completes?
    modifies d
    ensures first != Refused && saved.Some?
    ensures second == Refused <==>
      !IdentityPrintable(c.cfg) || !AllReadable(rows) || !Resumable(saved.value.terminalStatus)
  {
    hide Campaign.Valid, Environment.Valid, Campaign.History, Durable, Flat, IdentityPrintable, Resumable, SeenOf,
      AllReadable;
    NewDisk(c, d);
    ghost var submitted;
    first, submitted := RunCampaign(c, d, env);
    rows, saved := d.VisibleRows(), d.checkpoint;
    second, submitted := RunCampaign(c, d, later);
  }

  ghost predicate AnswersReadable(results: seq<CandidateResult>) {
    forall i :: 0 <= i < |results| ==> Readable(results[i])
  }

  lemma BatchFits(c: Campaign)
    requires c.Valid()
    ensures c.cfg.batchSize <= MAX_BATCH_SIZE
  {
  }

  /** run_campaign checks lanes and candidates of an answer but not its verdicts and texts:
      an answer that cannot be read back is made durable, and the next run is refused. */
  method UnreadableAnswerIsFinal(c: Campaign, d: Disk, p: Progress, candidates: seq<Candidate>,
                                 results: seq<CandidateResult>,
                                 startUtc: string, env: Environment) returns (outcome: Outcome)
    requires c.Valid() && env.Valid(c) && Agrees(c, d, p) && !p.primeFound && |p.stored| + |results| <= |c.corpus.queue|
    requires 0 < |results| <= c.cfg.batchSize && LanesMatch(results, candidates)
    requires candidates == c.corpus.queue[|p.stored|..|p.stored| + |results|]
    requires p.nextBatchId <= MAX_U64 && |results| <= MAX_BATCH_SIZE && Clean(startUtc)
    requires forall row :: row in BatchRows(c, p.nextBatchId, candidates, results, startUtc) ==> RowUsable(c, row)
    requires !AnswersReadable(results) && forall i :: env.startFate(i).Completes?
    modifies d
    ensures outcome == Refused && old(d.batches) <= d.batches && |d.batches| == |old(d.batches)| + 1
  {
    hide Campaign.Valid, Environment.Valid, Campaign.History, Durable, Flat, HasPrime, LanesMatch, BatchRows,
      AllReadable, SeenOf, Readable, Forged,
      AnswersReadable, Chain, LastHash, Resumable;
    BatchFits(c);
    var persisted := PersistBatch(c, d, p, candidates, results, startUtc, Completes, Completes);
    UnreadableRow(c, d, |d.batches| - 1, candidates, results, startUtc);
    ghost var submitted;
    outcome, submitted := RunCampaign(c, d, env);
  }

  lemma UnreadableRow(c: Campaign, d: Disk, batchId: u64, candidates: seq<Candidate>, results: seq<CandidateResult>,
                      startUtc: string)
    requires d.Recoverable(c) && d.torn == 0 && |results| <= MAX_BATCH_SIZE && |d.batches| == batchId + 1
    requires d.batches[batchId] == BatchRows(c, batchId, candidates, results, startUtc)
    requires !AnswersReadable(results)
    ensures !AllReadable(d.VisibleRows())
  {
    hide Durable, Flat, Readable, Forged, SeenOf, BatchHash, OrderedBatchHash;
    VisibleIsPrefix(c, d);
    var i :| 0 <= i < |results| && !Readable(results[i]);
    assert Readable(WithHash(c, batchId, results[i])) == Readable(results[i]) by {
      ReadableIgnoresHash(c, batchId, results[i]);
    }
    FlatPrefix(d.batches, batchId);
    var before := Flat(d.batches[..batchId]);
    assert d.batches[..batchId + 1] == d.batches;
    assert Flat(d.batches)[|before| + i] == d.batches[batchId][i];
  }

  lemma ReadableIgnoresHash(c: Campaign, batchId: u64, r: CandidateResult)
    ensures Readable(WithHash(c, batchId, r)) == Readable(r)
  {
  }

  /** Two such answers, neither a forgery: a verdict the log does not know, and a residue
      text of the right length with a tab, whose verdict is accepted. */
  lemma UnreadableAnswers(c: Campaign, id: u64, candidate: Candidate, startUtc: string)
    ensures var unknown := CandidateResult(0, candidate, "UNKNOWN", 0, "", "", "");
      && LanesMatch([unknown], [candidate]) && !Readable(unknown)
      && !Forged(c.cfg, c.fmt, BatchRows(c, id, [candidate], [unknown], startUtc)[0])
    ensures var tabbed := CandidateResult(0, candidate, "COMPOSITE", 0, "0123456789ABCDE\t", "GERBICZ_PASS", "");
      && LanesMatch([tabbed], [candidate]) && VerdictAccepted(tabbed) && !Readable(tabbed)
      && !Forged(c.cfg, c.fmt, BatchRows(c, id, [candidate], [tabbed], startUtc)[0])
  {
    var unknown := CandidateResult(0, candidate, "UNKNOWN", 0, "", "", "");
    var tabbed := CandidateResult(0, candidate, "COMPOSITE", 0, "0123456789ABCDE\t", "GERBICZ_PASS", "");
    hide ResultHashInput, Forged, BatchHash, OrderedBatchHash;
    UnknownIsOneLine(c.cfg, c.fmt, BatchRows(c, id, [candidate], [unknown], startUtc)[0]);
    ReadableIgnoresHash(c, id, unknown);
    TabbedIsAccepted(tabbed);
    AcceptedIsNoForgery(c.cfg, c.fmt, BatchRows(c, id, [candidate], [tabbed], startUtc)[0]);
  }

  lemma UnknownIsOneLine(cfg: CampaignConfig, fmt: LogFormat, s: StoredResult)
    requires s.result.classification == "UNKNOWN" && s.result.res64 == "" && s.result.validationStatus == ""
    ensures !Forged(cfg, fmt, s) && !Readable(s.result)
  {
    DecimalClean(s.result.witnessBase);
    assert Clean("UNKNOWN") && Clean("");
    JoinWithout(AnswerFields(s.result), '\t', '\n');
    hide Join, Split;
  }

  lemma TabbedIsAccepted(r: CandidateResult)
    requires r.classification == "COMPOSITE" && r.res64 == "0123456789ABCDE\t" && r.validationStatus == "GERBICZ_PASS"
    ensures VerdictAccepted(r) && !Readable(r)
  {
    assert r.res64[15] == '\t';
  }
}
