/** The commit loop of the search and whole runs of it: any sequence of stops, failures,
    crashes and restarts keeps one growing exact ledger (src/mvp/search_pipeline.cpp). */
module SearchCommit {
  import opened MachineArithmetic
  import opened Decimal
  import opened DelimitedText
  import opened SearchRecords
  import opened SearchScan
  import opened SearchLedger
  import opened RuntimeCheckpoint
  import opened SearchCheckpoint
  import opened SearchDisk
  import opened SearchSegments
  import opened SearchRecovery
  import opened SearchBatch
  import opened SearchPipeline
  import opened EvidenceRecords
  import opened EvidenceLog
  import opened Durability
  import opened Hexadecimal
  import opened Wrappers

  // ----- checkpoints

  /** save_progress */
  method SaveProgress(job: Job, d: Disk, next: nat, committedBytes: nat, fate: Fate, ghost os: seq<Outcome>)
    returns (failure: Option<Exception>, alive: bool)
    requires job.Valid() && Lined(job, os) && |os| == next <= job.Count() && d.log.sha256 == job.sha256
    requires d.results == ResultsText(job, os) && EvidenceText(job, os) <= d.log.bytes
      && committedBytes == |EvidenceText(job, os)|
    modifies d`checkpoint, d`committed
    ensures failure == None <==> Sized(job, os)
    ensures failure != None ==> alive && d.checkpoint == old(d.checkpoint) && d.committed == old(d.committed)
    ensures failure == None ==> alive == fate.Completes?
    ensures failure == None && TakesEffect(fate) ==> d.checkpoint == Some(StateOf(job, os)) && d.committed == os
    ensures failure == None && !TakesEffect(fate) ==>
      d.checkpoint == old(d.checkpoint) && d.committed == old(d.committed)
  {
    hide Lined, RecordsText, Evidence, ResultLines, Lines, ProgressText, ToDecimal;
    assert d.log.bytes[..committedBytes] == EvidenceText(job, os);
    assert WholeRecords(EvidenceText(job, os));
    if |d.results| > MAX_U64 {
      return Some(LengthError), true;
    }
    var prefix := d.log.AuthenticatePrefix(committedBytes);
    if prefix.Err? {
      return Some(prefix.error), true;
    }
    var payload := ProgressPayload(job.configurationSha256, prefix.value.size, prefix.value.sha256, |d.results|,
      job.sha256(d.results));
    if TakesEffect(fate) {
      d.checkpoint := Some(CheckpointState(job.campaignId, ProgressText(payload), ToDecimal(next), next));
      d.committed := os;
    }
    return None, fate.Completes?;
  }

  // ----- one candidate

  datatype Committed = Committed(outcome: Outcome, line: string, slice: Slice)

  /** One candidate of the commit loop: its outcome and its result line. */
  method CommitCandidate(job: Job, answers: nat -> Answers, i: nat, x: Artifacts, evidence: nat, certificate: nat,
                         ghost base: seq<Outcome>, ghost os: seq<Outcome>, ghost end: nat)
    returns (r: Result<Committed, Exception>)
    requires job.Valid() && Extends(job, answers, base, os) && i == |os| < end <= job.Count()
      && WithinSegment(job, |base|, end)
    requires ArtifactsOf(job, answers, base, end, x) && Lined(job, os) && RespectfulAnswer(answers(i))
    requires evidence == |BatchEvidence(job, answers, |base|, i)|
      && certificate == |BatchCerts(job, answers, |base|, i)|
    ensures r.Ok? ==> Commit(job, i, answers(i)) == Ok(r.value.outcome) && Lined(job, os + [r.value.outcome])
    ensures r.Ok? ==> r.value.line == RecordLineText(RecordAt(job, os + [r.value.outcome], i))
    ensures r.Ok? && FlintOf(r.value.outcome).Some? ==> r.value.slice == EvidenceSlice(job, os + [r.value.outcome], i)
    ensures Commit(job, i, answers(i)).Ok? ==>
      TextsQuotable(RecordAt(job, os + [Commit(job, i, answers(i)).value], i)) ==> r.Ok?
  {
    hide BatchEvidence, BatchCerts, CertText, CertLines, Lined, Extends, EvidenceText, SlicesOf, TextsQuotable, Lines,
      Probable,
      RespectfulAnswer, SegmentOf, RecordLineText, EvidenceSlice, FlintOf, RecordOf, Commit;
    var outcome := Commit(job, i, answers(i));
    if outcome.Err? {
      return Err(outcome.error);
    }
    var o := outcome.value;
    var longer := os + [o];
    OutcomeArtifacts(job, i, answers(i), o);
    var slice := Slice(0, 0);
    if FlintOf(o).Some? {
      SliceOfNext(job, answers, base, os, o, end);
      slice := x.slices[evidence];
    }
    var offset := 0;
    if o.Certified? {
      CertificateThere(job, answers, base, os, o, end);
      offset := x.offsets[certificate];
    }
    RecordIs(job, os, o, slice, offset);
    var record := RecordOf(job, i, o, slice, offset);
    var line := CanonicalSearchRecord(record);
    if line.Err? {
      return Err(line.error);
    }
    LinedSnoc(job, os, o, answers(i));
    return Ok(Committed(o, line.value, slice));
  }

  lemma CertificateThere(job: Job, answers: nat -> Answers, base: seq<Outcome>, os: seq<Outcome>, o: Outcome, end: nat)
    requires job.Valid() && Extends(job, answers, base, os) && |os| < end <= job.Count()
      && WithinSegment(job, |base|, end)
    requires Commit(job, |os|, answers(|os|)) == Ok(o) && o.Certified?
    ensures var certs, c := BatchCerts(job, answers, |base|, end), |BatchCerts(job, answers, |base|, |os|)|;
      c < |certs| && |CertText(base, SegmentBegin(job, |base|))| + |Lines(certs[..c])| ==
        |CertText(os, SegmentBegin(job, |os|))|
  {
    hide BatchCerts, CertText, Extends, Lines, Probable, Commit;
    OutcomeArtifacts(job, |os|, answers(|os|), o);
    ExtendsBase(job, answers, base, os);
    CertsStep(job, answers, |base|, |os| + 1);
    BatchCertsGrow(job, answers, |base|, |os| + 1, end);
    BatchCertsGrow(job, answers, |base|, |os|, end);
    SegmentIs(job, |base|);
    SegmentIs(job, |os|);
    SameSegment(job, |base|, |os|);
    OffsetOfNext(job, answers, base, os, SegmentBegin(job, |base|));
    var certs, part := BatchCerts(job, answers, |base|, end), BatchCerts(job, answers, |base|, |os|);
    assert certs[..|part|] == part;
  }

  lemma RecordIs(job: Job, os: seq<Outcome>, o: Outcome, slice: Slice, offset: nat)
    requires job.Valid() && |os| < job.Count()
    requires FlintOf(o).Some? ==> slice == EvidenceSlice(job, os + [o], |os|)
    requires o.Certified? ==> offset == |CertText(os, SegmentBegin(job, |os|))|
    ensures RecordOf(job, |os|, o, slice, offset) == RecordAt(job, os + [o], |os|)
  {
    hide EvidenceSlice, CertText;
    assert (os + [o])[..|os|] == os;
  }

  // ----- one more outcome in memory

  /** The memory after one more candidate. */
  function Next(m: Memory, x: Committed): Memory {
    Memory(m.pending + (x.line + ['\n']), if FlintOf(x.outcome).Some? then x.slice.offset + x.slice.length
      else m.committedBytes,
           AddCounted(m.counts, CountedOf(x.outcome)))
  }

  lemma NextResults(job: Job, os: seq<Outcome>, o: Outcome, results: string, pending: string)
    requires job.Valid() && |os| < job.Count() && ResultsText(job, os) == results + pending
    ensures ResultsText(job, os + [o]) == results + (pending + (RecordLineText(RecordAt(job, os + [o], |os|)) + ['\n']))
  {
    hide RecordLineText, RecordAt, ResultLines, Lines;
    var line := RecordLineText(RecordAt(job, os + [o], |os|));
    ResultSnoc(job, os, o);
    LinesSnoc(ResultLines(job, os), line);
    Regroup(results, pending, line + ['\n']);
  }

  lemma NextEvidence(job: Job, os: seq<Outcome>, o: Outcome)
    requires |os| < job.Count()
    ensures var s := EvidenceSlice(job, os + [o], |os|);
      |EvidenceText(job, os + [o])| == if FlintOf(o).Some? then s.offset + s.length else |EvidenceText(job, os)|
  {
    hide FlintOf, EvidenceSlice, RecordsText;
    var longer := os + [o];
    EvidenceSnoc(job, os, o);
    if FlintOf(o).Some? {
      assert longer[|os|] == o && longer[..|os| + 1] == longer;
      SliceEndsWithin(job, longer, |os|);
    }
  }

  lemma NextCounts(os: seq<Outcome>, o: Outcome)
    ensures Tally(os + [o]) == AddCounted(Tally(os), CountedOf(o))
  {
    hide AddCounted, CountedOf;
    assert (os + [o])[..|os|] == os;
  }

  lemma AgreesNext(job: Job, d: Disk, m: Memory, os: seq<Outcome>, x: Committed)
    requires job.Valid() && Agrees(job, d, m, os) && |os| < job.Count() && Lined(job, os + [x.outcome])
    requires x.line == RecordLineText(RecordAt(job, os + [x.outcome], |os|))
    requires FlintOf(x.outcome).Some? ==> x.slice == EvidenceSlice(job, os + [x.outcome], |os|)
    ensures Agrees(job, d, Next(m, x), os + [x.outcome])
  {
    hide Lined, Sound, RecordLineText, RecordAt, EvidenceSlice, FlintOf, CountedOf, AddCounted, StateOf, ResultsText,
      EvidenceText, Tally;
    NextResults(job, os, x.outcome, d.results, m.pending);
    NextEvidence(job, os, x.outcome);
    NextCounts(os, x.outcome);
    assert d.committed <= os + [x.outcome];
  }

  lemma ExtendsNext(job: Job, answers: nat -> Answers, base: seq<Outcome>, os: seq<Outcome>, o: Outcome)
    requires job.Valid() && Extends(job, answers, base, os) && |os| < job.Count()
      && Commit(job, |os|, answers(|os|)) == Ok(o)
    ensures Extends(job, answers, base, os + [o])
  {
    hide Commit;
    assert base <= os + [o];
  }

  /** The checkpoint of all outcomes so far. */
  lemma AgreesSaved(job: Job, d: Disk, m: Memory, os: seq<Outcome>)
    requires job.Valid() && Lined(job, os) && Sized(job, os) && d.committed == os
      && d.checkpoint == Some(StateOf(job, os))
    requires d.log.sha256 == job.sha256 && d.results == ResultsText(job, os) && m.counts == Tally(os)
    requires m.committedBytes == |EvidenceText(job, os)| && m.pending == ""
    ensures Agrees(job, d, m, os)
  {
    hide Lined, Sized, Sound, ResultsText, EvidenceText, Tally, StateOf, Hashes, CanonicalDigest;
    LinedBound(job, os);
    LinedSized(job, os);
    assert ResultsText(job, os) == d.results + "";
  }

  // ----- the commit loop over a batch

  lemma WithinHolds(job: Job, d: Disk, m: Memory, answers: nat -> Answers, base: seq<Outcome>, os: seq<Outcome>,
                    end: nat, segments: map<Segment, string>)
    requires job.Valid() && WithinBatch(job, d, m, answers, base, os, end, segments)
    ensures SegmentsHold(job, os, d.segments) && EvidenceText(job, os) <= d.log.bytes
  {
    hide Agrees, SegmentsExact, SegmentsHold, RecordsText, BatchCerts, BatchEvidence, Evidence, Extends, SegmentOf,
      EvidenceText;
    BatchEvidenceThere(job, answers, base, os, end);
    BatchSegments(job, answers, base, os, end, segments);
  }

  /** Anything behind the checkpoint's part of the files leaves them recoverable. */
  lemma PartRecoverable(job: Job, d: Disk, os: seq<Outcome>)
    requires job.Valid() && Lined(job, os) && d.committed <= os && Sound(job, d.committed) && d.log.sha256 == job.sha256
    requires d.checkpoint == Some(StateOf(job, d.committed)) && ResultsText(job, d.committed) <= d.results
    requires EvidenceText(job, os) <= d.log.bytes && SegmentsHold(job, os, d.segments)
    ensures d.Recoverable(job)
  {
    hide ResultsText, EvidenceText, SegmentsHold, Sound, Lined;
    LinedBound(job, os);
    EvidenceGrows(job, os, |d.committed|);
    assert os[..|d.committed|] == d.committed;
    PrefixTransitive(EvidenceText(job, d.committed), EvidenceText(job, os), d.log.bytes);
    HoldShrinks(job, d.committed, os, d.segments);
  }

  lemma ResultsPrefix(job: Job, committed: seq<Outcome>, os: seq<Outcome>)
    requires job.Valid() && committed <= os && |os| <= job.Count()
    ensures ResultsText(job, committed) <= ResultsText(job, os)
  {
    assert os[..|committed|] == committed;
    ResultsGrow(job, os, |committed|);
  }

  lemma Counters(job: Job, answers: nat -> Answers, begin: nat, i: nat, o: Outcome)
    requires job.Valid() && begin <= i < job.Count() && Commit(job, i, answers(i)) == Ok(o)
    ensures |BatchEvidence(job, answers, begin, i + 1)| ==
      |BatchEvidence(job, answers, begin, i)| + if FlintOf(o).Some? then 1 else 0
    ensures |BatchCerts(job, answers, begin, i + 1)| == |BatchCerts(job, answers, begin, i)| + if o.Certified? then 1
      else 0
  {
    hide Commit, FlintOf, RawRecord, Probable;
    OutcomeArtifacts(job, i, answers(i), o);
  }

  /** With calm answers the next candidate is committed as the ideal ledger says. */
  lemma CalmCandidate(job: Job, env: Environment, ideal: seq<Outcome>, os: seq<Outcome>)
    requires job.Valid() && env.Calm(job, ideal) && os <= ideal && |os| < job.Count()
    ensures Commit(job, |os|, env.answers(|os|)) == Ok(ideal[|os|]) && os + [ideal[|os|]] <= ideal
    ensures TextsQuotable(RecordAt(job, os + [ideal[|os|]], |os|))
  {
    hide Commit, RecordAt, TextsQuotable, Sized, SegmentPath, SegmentOf, AllComplete;
    var n := |os|;
    assert EntryFine(job, ideal, n);
    assert ideal[..n + 1] == os + [ideal[n]];
    RecordStays(job, ideal, n + 1, n);
  }

  lemma CalmSized(job: Job, env: Environment, ideal: seq<Outcome>, os: seq<Outcome>)
    requires job.Valid() && env.Calm(job, ideal) && os <= ideal
    ensures Sized(job, os)
  {
    hide Sized, EntryFine, Commit;
    assert ideal[..|os|] == os;
    SizedShrinks(job, ideal, |os|);
  }

  /** A due checkpoint: the pending lines are appended, then the checkpoint is saved. */
  method WriteCheckpoint(job: Job, d: Disk, m0: Memory, next: nat, fates: StepFates, ghost os: seq<Outcome>)
    returns (failure: Option<Exception>, alive: bool, m: Memory)
    requires job.Valid() && Agrees(job, d, m0, os) && SegmentsHold(job, os, d.segments)
      && EvidenceText(job, os) <= d.log.bytes
    requires next == |os|
    modifies d`results, d`checkpoint, d`committed
    ensures d.Recoverable(job) && (d.committed == old(d.committed) || d.committed == os)
    ensures d.results == old(d.results) + m0.pending[..Kept(fates.results, |m0.pending|)]
    ensures d.committed == os <==>
      old(d.committed) == os || (fates.results.Completes? && TakesEffect(fates.save) && Sized(job, os))
    ensures alive && failure == None ==> d.committed == os && m == m0.(pending := "") && Agrees(job, d, m, os)
    ensures Sized(job, os) && AllComplete(fates) ==> alive && failure == None
  {
    hide Lined, Sized, Sound, ResultsText, EvidenceText, Tally, StateOf, SegmentsHold;
    LinedBound(job, os);
    ResultsPrefix(job, d.committed, os);
    var kept := Kept(fates.results, |m0.pending|);
    d.results := d.results + m0.pending[..kept];
    m := m0.(pending := "");
    PartRecoverable(job, d, os);
    if !fates.results.Completes? {
      return None, false, m;
    }
    assert m0.pending[..kept] == m0.pending;
    failure, alive := SaveProgress(job, d, next, m.committedBytes, fates.save, os);
    LinedSized(job, os);
    PartRecoverable(job, d, os);
    if failure == None && alive {
      AgreesSaved(job, d, m, os);
    }
  }
}
