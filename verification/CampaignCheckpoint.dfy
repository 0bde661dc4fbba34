/** The campaign checkpoint: what it records and which checkpoints a restart accepts
    (src/discovery/native_b8_campaign.cpp). */
module CampaignCheckpoint {
  import opened MachineArithmetic
  import opened Decimal
  import opened DelimitedText
  import opened JsonText
  import opened CampaignLog
  import opened CampaignBatches
  import opened Wrappers

  // ----- checkpoints

  datatype Corpus = Corpus(queue: seq<Candidate>, parentCompleted: seq<Candidate>)

  datatype Checkpoint = Checkpoint(
    campaignId: string, parentCampaignId: string, engineCommit: string, engineBinarySha256: string,
    survivorListSha256: string, terminalStatus: string, nextBatchId: nat, lastBatchId: nat, lastBatchHash: string,
    completedUniqueCount: nat, candidateResultsHash: string, completedResumeCount: nat,
    remainingOffset: nat, remainingCount: nat, parentCompletedSha256: string, remainingQueueSourceSha256: string)

  predicate Before(a: Candidate, b: Candidate) {
    a.k < b.k || (a.k == b.k && a.n <= b.n)
  }

  function InsertCandidate(c: Candidate, s: seq<Candidate>): seq<Candidate> {
    if s == [] || Before(c, s[0]) then [c] + s else [s[0]] + InsertCandidate(c, s[1..])
  }

  function SortCandidates(s: seq<Candidate>): seq<Candidate> {
    if s == [] then [] else InsertCandidate(s[0], SortCandidates(s[1..]))
  }

  /** candidate_set_sha256 of a set without duplicates. */
  function CandidateSetHash(fmt: LogFormat, candidates: seq<Candidate>): string {
    fmt.sha256(CanonicalCandidates(SortCandidates(candidates)))
  }

  predicate IdentityMatches(cfg: CampaignConfig, c: Checkpoint) {
    && ReadBack(c.campaignId) == Some(cfg.campaignId) && ReadBack(c.parentCampaignId) == Some(cfg.parentCampaignId)
    && ReadBack(c.engineCommit) == Some(cfg.engineCommit)
    && ReadBack(c.engineBinarySha256) == Some(cfg.engineBinarySha256)
    && ReadBack(c.survivorListSha256) == Some(cfg.survivorListSha256)
  }

  predicate Resumable(terminalStatus: string) {
    terminalStatus == "IN_PROGRESS" || terminalStatus == "STOPPED"
  }

  /** validate_checkpoint on the current schema; an absent checkpoint is accepted. */
  method ValidateCheckpoint(fmt: LogFormat, cfg: CampaignConfig, corpus: Corpus, s: DurableResultState,
                            checkpoint: Option<Checkpoint>)
    returns (r: Result<(), Exception>)
    requires |s.batchEndOffsets| == |s.resultChainHashes| == |s.lastBatchHashes| == s.nextBatchId + 1
    requires forall j :: 0 <= j <= s.nextBatchId ==> s.batchEndOffsets[j] <= |corpus.queue|
    ensures r.Ok? <==> checkpoint.None? || CheckpointAccepted(fmt, cfg, corpus, s, checkpoint.value)
    ensures r.Err? ==> r.error == RuntimeError
  {
    if checkpoint.None? {
      return Ok(());
    }
    var c := checkpoint.value;
    if !IdentityMatches(cfg, c) {
      return Err(RuntimeError);
    }
    if !Resumable(c.terminalStatus) {
      return Err(RuntimeError);
    }
    if c.nextBatchId > s.nextBatchId || c.nextBatchId >= |s.batchEndOffsets| {
      return Err(RuntimeError);
    }
    var resumeCount := s.batchEndOffsets[c.nextBatchId];
    var expectedLastId := if c.nextBatchId == 0 then 0 else c.nextBatchId - 1;
    var valid := c.completedUniqueCount == |corpus.parentCompleted| + resumeCount
      && c.lastBatchId == expectedLastId && c.lastBatchHash == s.lastBatchHashes[c.nextBatchId];
    valid := valid && c.candidateResultsHash == s.resultChainHashes[c.nextBatchId]
      && c.completedResumeCount == resumeCount && c.remainingOffset == resumeCount
      && c.remainingCount == |corpus.queue| - resumeCount
      && c.parentCompletedSha256 == CandidateSetHash(fmt, corpus.parentCompleted)
      && c.remainingQueueSourceSha256 == CandidateSetHash(fmt, corpus.queue);
    if !valid {
      return Err(RuntimeError);
    }
    return Ok(());
  }

  /** The checkpoint is not ahead, and it is the one of the durable batches it counts. */
  ghost predicate CheckpointAccepted(fmt: LogFormat, cfg: CampaignConfig, corpus: Corpus, s: DurableResultState,
    c: Checkpoint)
    requires |s.batchEndOffsets| == |s.resultChainHashes| == |s.lastBatchHashes| == s.nextBatchId + 1
  {
    && IdentityMatches(cfg, c) && Resumable(c.terminalStatus) && c.nextBatchId <= s.nextBatchId
    && Counts(fmt, corpus, c, c.nextBatchId, s.batchEndOffsets[c.nextBatchId], s.resultChainHashes[c.nextBatchId],
      s.lastBatchHashes[c.nextBatchId])
  }

  ghost predicate Counts(fmt: LogFormat, corpus: Corpus, c: Checkpoint, batches: nat, results: nat, chain: string,
    last: string) {
    && c.nextBatchId == batches && c.lastBatchId == (if batches == 0 then 0 else batches - 1) && c.lastBatchHash == last
    && c.completedUniqueCount == |corpus.parentCompleted| + results && c.candidateResultsHash == chain
    && c.completedResumeCount == results && c.remainingOffset == results && c.remainingCount == |corpus.queue| - results
    && c.parentCompletedSha256 == CandidateSetHash(fmt, corpus.parentCompleted)
    && c.remainingQueueSourceSha256 == CandidateSetHash(fmt, corpus.queue)
  }

  function LastHash(batches: Batches): string {
    if batches == [] then ZeroHash() else BatchResult(batches[|batches| - 1])
  }

  /** The checkpoint a campaign writes after these batches. */
  ghost predicate CheckpointOf(fmt: LogFormat, cfg: CampaignConfig, corpus: Corpus, batches: Batches, c: Checkpoint) {
    IdentityEqual(cfg, c) && Counts(fmt, corpus, c, |batches|, |Flat(batches)|, Chain(fmt, batches), LastHash(batches))
  }

  /** Every text of the identity survives the checkpoint. */
  ghost predicate IdentityPrintable(cfg: CampaignConfig) {
    && Printable(cfg.campaignId) && Printable(cfg.parentCampaignId) && Printable(cfg.engineCommit)
    && Printable(cfg.engineBinarySha256) && Printable(cfg.survivorListSha256)
  }

  /** What a restart can go on from: no checkpoint, or one in progress or stopped whose
      identity can be read back. */
  ghost predicate ResumableCheckpoint(cfg: CampaignConfig, checkpoint: Option<Checkpoint>) {
    checkpoint.None? || (Resumable(checkpoint.value.terminalStatus) && IdentityPrintable(cfg))
  }

  ghost predicate IdentityEqual(cfg: CampaignConfig, c: Checkpoint) {
    && c.campaignId == cfg.campaignId && c.parentCampaignId == cfg.parentCampaignId
      && c.engineCommit == cfg.engineCommit
    && c.engineBinarySha256 == cfg.engineBinarySha256 && c.survivorListSha256 == cfg.survivorListSha256
  }

  lemma IdentityReadBack(cfg: CampaignConfig, c: Checkpoint)
    ensures IdentityMatches(cfg, c) <==> IdentityEqual(cfg, c) && IdentityPrintable(cfg)
  {
    ReadBackOf(c.campaignId);
    ReadBackOf(c.parentCampaignId);
    ReadBackOf(c.engineCommit);
    ReadBackOf(c.engineBinarySha256);
    ReadBackOf(c.survivorListSha256);
    hide ReadBack, Printable;
  }

  lemma LastHashOf(batches: Batches, j: nat)
    requires j <= |batches|
    ensures LastHash(batches[..j]) == if j == 0 then ZeroHash() else BatchResult(batches[j - 1])
  {
  }

  /** Over the state of whole batches the tests accept exactly the checkpoint that a
      campaign writes after some of them, when it is resumable and the identity printable. */
  lemma CheckpointVerdict(fmt: LogFormat, cfg: CampaignConfig, corpus: Corpus, batches: Batches, c: Checkpoint)
    ensures |StateOf(fmt, batches).batchEndOffsets| == |StateOf(fmt, batches).lastBatchHashes| == |batches| + 1
    ensures StateOf(fmt, batches).nextBatchId == |batches|
    ensures CheckpointAccepted(fmt, cfg, corpus, StateOf(fmt, batches), c) <==>
      c.nextBatchId <= |batches| && CheckpointOf(fmt, cfg, corpus, batches[..c.nextBatchId], c)
      && Resumable(c.terminalStatus) && IdentityPrintable(cfg)
  {
    hide IdentityMatches, IdentityPrintable, StateOf, Chain, Flat, Resumable, CandidateSetHash, BatchResult, ZeroHash,
      LastHash;
    StateShape(fmt, batches);
    IdentityReadBack(cfg, c);
    if c.nextBatchId <= |batches| {
      StateEntries(fmt, batches, c.nextBatchId);
      LastHashOf(batches, c.nextBatchId);
    }
  }
}
