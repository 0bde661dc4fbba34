/** The search: batches of candidates, their artifacts, the commit loop and its
    checkpoints, and restarts from any crash (src/mvp/search_pipeline.cpp). */
module SearchPipeline {
  import opened NumberTheory
  import opened MachineArithmetic
  import opened Decimal
  import opened DelimitedText
  import opened SearchRecords
  import opened SearchScan
  import opened SearchLedger
  import opened SearchCheckpoint
  import opened SearchDisk
  import opened SearchSegments
  import opened SearchRecovery
  import opened SearchBatch
  import opened EvidenceRecords
  import opened EvidenceLog
  import opened Durability
  import opened Wrappers

  // ----- the environment of one run

  datatype StepFates = StepFates(evidence: Fate, certificates: Fate, results: Fate, save: Fate)

  /** The engines' answers, the batch size, the stop requests by number of committed
      candidates, and what happens to every write. */
  datatype Environment = Environment(
    answers: nat -> Answers, batch: nat, stop: nat -> bool, fates: nat -> StepFates, restore: RestoreFates)
  {
    /** Certificates are single lines. */
    ghost predicate Respectful(job: Job)
      requires job.Valid()
    {
      batch > 0 && forall i: nat :: i < job.Count() ==> RespectfulAnswer(answers(i))
    }

    /** The fallback proof engine names no certificate segment as its artifact. */
    ghost predicate ClaimsNothing(job: Job)
      requires job.Valid()
    {
      forall i: nat :: i < job.Count() ==> UnclaimingAnswer(job, i, answers(i))
    }

    /** No stop, no crash, and answers that lead to this whole ledger. */
    ghost predicate Calm(job: Job, ideal: seq<Outcome>)
      requires job.Valid()
    {
      && |ideal| == job.Count() && Follows(job, answers, ideal) && Sound(job, ideal) && restore.Undisturbed()
      && forall i: nat :: !stop(i) && AllComplete(fates(i))
    }
  }

  ghost predicate RespectfulAnswer(a: Answers) {
    a.certificate.Some? ==> Without(a.certificate.value, '\n')
  }

  ghost predicate UnclaimingAnswer(job: Job, i: nat, a: Answers)
    requires job.Valid()
  {
    a.captured.Some? ==> a.captured.value.artifactPath != SegmentPath(SegmentOf(job, i).begin, SegmentOf(job, i).end)
  }

  predicate AllComplete(f: StepFates) {
    f.evidence.Completes? && f.certificates.Completes? && f.results.Completes? && f.save.Completes?
  }

  datatype RunOutcome = Complete | Stopped | Failed(error: Exception) | Crashed

  /** What the process holds between two checkpoints: the lines not yet written, the end of
      the last used evidence slice, and the counters. */
  datatype Memory = Memory(pending: string, committedBytes: nat, counts: Counts)

  // ----- ledgers in memory

  /** A ledger all of whose lines can be written; its size may be beyond any checkpoint. */
  ghost predicate Lined(job: Job, os: seq<Outcome>)
    requires job.Valid()
  {
    |os| <= job.Count() && forall i: nat :: i < |os| ==> EntryFine(job, os, i)
  }

  lemma LinedSized(job: Job, os: seq<Outcome>)
    requires job.Valid()
    ensures Sound(job, os) <==> Lined(job, os) && Sized(job, os)
  {
    hide EntryFine, Sized;
  }

  lemma LinedSnoc(job: Job, os: seq<Outcome>, o: Outcome, a: Answers)
    requires job.Valid() && Lined(job, os) && |os| < job.Count() && Commit(job, |os|, a) == Ok(o)
    requires TextsQuotable(RecordAt(job, os + [o], |os|)) && RespectfulAnswer(a)
    ensures Lined(job, os + [o])
  {
    hide Commit, RecordAt, TextsQuotable, SegmentPath, SegmentOf, FlintOf, Probable;
    OutcomeArtifacts(job, |os|, a, o);
    var longer := os + [o];
    forall i: nat | i < |longer|
      ensures EntryFine(job, longer, i)
    {
      if i < |os| {
        assert EntryFine(job, os, i);
        assert longer[..|os|] == os;
        RecordStays(job, longer, |os|, i);
      }
    }
  }

  lemma SizedShrinks(job: Job, os: seq<Outcome>, n: nat)
    requires job.Valid() && n <= |os| <= job.Count() && Sized(job, os)
    ensures Sized(job, os[..n])
  {
    hide ResultsText, EvidenceText;
    EvidenceGrows(job, os, n);
    ResultsGrow(job, os, n);
  }

  // ----- the artifacts of a batch

  /** prepare_prp_batch: no batch crosses a checkpoint. */
  method BatchEnd(job: Job, begin: nat, batch: nat) returns (end: nat)
    requires job.Valid() && begin < job.Count() && batch > 0
    ensures WithinSegment(job, begin, end) && end <= begin + batch
    ensures end < begin + batch ==> end == job.Count() || end % job.interval == 0
  {
    var remainder := job.interval - begin % job.interval;
    end := begin + batch;
    if job.Count() < end {
      end := job.Count();
    }
    BeginIsMultiple(begin, job.interval);
    NextMultiple(begin, job.interval);
    if begin + remainder < end {
      end := begin + remainder;
    }
  }

  lemma NextMultiple(x: nat, n: nat)
    requires n > 0
    ensures (x + (n - x % n)) % n == 0
  {
    DivModUnique(x + (n - x % n), n, x / n + 1, 0);
  }

  /** The evidence records of a batch, refused when an engine omitted its raw output. */
  method GatherEvidence(job: Job, answers: nat -> Answers, begin: nat, end: nat)
    returns (r: Result<seq<EvidenceRecord>, Exception>)
    requires job.Valid() && begin <= end <= job.Count()
    ensures r.Ok? ==> r.value == BatchEvidence(job, answers, begin, end)
    ensures r.Err? ==> exists i: nat :: begin <= i < end && Commit(job, i, answers(i)).Err?
  {
    hide RawRecord;
    var records: seq<EvidenceRecord> := [];
    for i := begin to end
      invariant records == BatchEvidence(job, answers, begin, i)
    {
      if Probable(job, i, answers(i)) {
        match answers(i).raw {
          case None =>
            assert Commit(job, i, answers(i)).Err?;
            return Err(RuntimeError);
          case Some(raw) => records := records + [RawRecord(job, i, raw)];
        }
      }
    }
    return Ok(records);
  }

  /** The certificate journal of a batch, and where each certificate stands in the segment. */
  method GatherCertificates(job: Job, answers: nat -> Answers, begin: nat, end: nat, base: nat)
    returns (journal: string, offsets: seq<nat>)
    requires job.Valid() && begin <= end <= job.Count()
    ensures journal == Lines(BatchCerts(job, answers, begin, end))
      && |offsets| == |BatchCerts(job, answers, begin, end)|
    ensures forall c: nat :: c < |offsets| ==> offsets[c] == base + |Lines(BatchCerts(job, answers, begin, end)[..c])|
  {
    hide Lines;
    journal, offsets := "", [];
    EmptyLines(BatchCerts(job, answers, begin, begin));
    ghost var certs := BatchCerts(job, answers, begin, begin);
    for i := begin to end
      invariant certs == BatchCerts(job, answers, begin, i)
      invariant journal == Lines(certs) && |offsets| == |certs|
      invariant forall c: nat :: c < |offsets| ==> offsets[c] == base + |Lines(certs[..c])|
    {
      if Probable(job, i, answers(i)) && answers(i).certificate.Some? {
        var certificate := answers(i).certificate.value;
        LinesSnoc(certs, certificate);
        assert certs[..|certs|] == certs;
        assert forall c: nat :: c <= |certs| ==> (certs + [certificate])[..c] == certs[..c];
        offsets := offsets + [base + |journal|];
        journal := journal + certificate;
        journal := journal + ['\n'];
        certs := certs + [certificate];
        assert journal == Lines(certs) by {
          assert (Lines(certs[..|certs| - 1]) + certificate) + ['\n'] ==
            Lines(certs[..|certs| - 1]) + (certificate + ['\n']);
        }
      }
    }
  }

  // ----- the disk during a run

  /** Result file, checkpoint and memory agree with the outcomes so far. */
  ghost predicate Agrees(job: Job, d: Disk, m: Memory, os: seq<Outcome>)
    reads d
    requires job.Valid()
  {
    && Lined(job, os) && d.committed <= os && Sound(job, d.committed) && d.checkpoint == Some(StateOf(job, d.committed))
    && d.log.sha256 == job.sha256 && d.results == ResultsText(job, d.committed)
      && ResultsText(job, os) == d.results + m.pending
    && m.committedBytes == |EvidenceText(job, os)| && m.counts == Tally(os)
  }

  /** Between two batches the other two files are exact as well. */
  ghost predicate BetweenBatches(job: Job, d: Disk, m: Memory, os: seq<Outcome>)
    reads d, d.log
    requires job.Valid()
  {
    Agrees(job, d, m, os) && d.log.bytes == EvidenceText(job, os) && SegmentsExact(job, os, d.segments)
  }

  /** The segments after a batch's certificates were appended. */
  function WithCertificates(job: Job, begin: nat, certs: seq<string>, segments: map<Segment, string>): map<Segment,
    string>
    requires job.interval > 0
  {
    var s := SegmentOf(job, begin);
    if certs == [] then segments else segments[s := Content(segments, s) + Lines(certs)]
  }

  /** Within a batch all its artifacts are there, and some of its outcomes. */
  ghost predicate WithinBatch(job: Job, d: Disk, m: Memory, answers: nat -> Answers, base: seq<Outcome>,
    os: seq<Outcome>,
                              end: nat, segments: map<Segment, string>)
    reads d, d.log
    requires job.Valid()
  {
    && Agrees(job, d, m, os) && Extends(job, answers, base, os) && |os| <= end && WithinSegment(job, |base|, end)
    && d.log.bytes == RecordsText(Evidence(job, base) + BatchEvidence(job, answers, |base|, end))
    && SegmentsExact(job, base, segments)
    && d.segments == WithCertificates(job, |base|, BatchCerts(job, answers, |base|, end), segments)
  }

  lemma BatchEvidenceThere(job: Job, answers: nat -> Answers, base: seq<Outcome>, os: seq<Outcome>, end: nat)
    requires job.Valid() && Extends(job, answers, base, os) && |os| <= end <= job.Count()
    ensures EvidenceText(job, os) <= RecordsText(Evidence(job, base) + BatchEvidence(job, answers, |base|, end))
    ensures |os| == end ==>
      EvidenceText(job, os) == RecordsText(Evidence(job, base) + BatchEvidence(job, answers, |base|, end))
  {
    hide Evidence, BatchEvidence, RecordsText;
    ExtendedEvidence(job, answers, base, os);
    BatchEvidenceGrows(job, answers, |base|, |os|, end);
    var a, b := BatchEvidence(job, answers, |base|, |os|), BatchEvidence(job, answers, |base|, end);
    assert Evidence(job, base) + b == (Evidence(job, base) + a) + b[|a|..];
    RecordsAppend(Evidence(job, base) + a, b[|a|..]);
  }

  lemma AgreesRecoverable(job: Job, d: Disk, m: Memory, os: seq<Outcome>)
    requires job.Valid() && Agrees(job, d, m, os) && SegmentsHold(job, os, d.segments)
      && EvidenceText(job, os) <= d.log.bytes
    ensures d.Recoverable(job)
  {
    hide ResultsText, EvidenceText, SegmentsHold, Sound, Lined, Tally;
    assert |os| <= job.Count() by {
      LinedBound(job, os);
    }
    EvidenceGrows(job, os, |d.committed|);
    assert os[..|d.committed|] == d.committed;
    PrefixTransitive(EvidenceText(job, d.committed), EvidenceText(job, os), d.log.bytes);
    HoldShrinks(job, d.committed, os, d.segments);
  }

  lemma LinedBound(job: Job, os: seq<Outcome>)
    requires job.Valid() && Lined(job, os)
    ensures |os| <= job.Count()
  {
  }

  lemma WithinRecoverable(job: Job, d: Disk, m: Memory, answers: nat -> Answers, base: seq<Outcome>, os: seq<Outcome>,
                          end: nat, segments: map<Segment, string>)
    requires job.Valid() && WithinBatch(job, d, m, answers, base, os, end, segments)
    ensures d.Recoverable(job)
    ensures EvidenceText(job, os) <= d.log.bytes
    ensures |os| == end ==> BetweenBatches(job, d, m, os)
  {
    hide Agrees, SegmentsExact, SegmentsHold, RecordsText, BatchCerts, BatchEvidence, Evidence, Extends, SegmentOf,
      EvidenceText;
    BatchEvidenceThere(job, answers, base, os, end);
    BatchSegments(job, answers, base, os, end, segments);
    AgreesRecoverable(job, d, m, os);
  }

  lemma ExactHolds(job: Job, os: seq<Outcome>, segments: map<Segment, string>)
    requires job.Valid() && SegmentsExact(job, os, segments)
    ensures SegmentsHold(job, os, segments)
  {
    hide SegmentText, SegmentOf;
  }

  lemma BetweenRecoverable(job: Job, d: Disk, m: Memory, os: seq<Outcome>)
    requires job.Valid() && BetweenBatches(job, d, m, os)
    ensures d.Recoverable(job)
  {
    hide Agrees, SegmentsExact, SegmentsHold, EvidenceText;
    ExactHolds(job, os, d.segments);
    AgreesRecoverable(job, d, m, os);
  }

  // ----- writing the artifacts

  datatype Artifacts = Artifacts(slices: seq<Slice>, offsets: seq<nat>)

  /** The slices and offsets of a batch, as its appends gave them. */
  ghost predicate ArtifactsOf(job: Job, answers: nat -> Answers, base: seq<Outcome>, end: nat, x: Artifacts)
    requires job.Valid() && |base| <= end <= job.Count()
  {
    var certs := BatchCerts(job, answers, |base|, end);
    && x.slices == SlicesOf(BatchEvidence(job, answers, |base|, end), |EvidenceText(job, base)|)
    && |x.offsets| == |certs|
    && forall c: nat :: c < |certs| ==>
      x.offsets[c] == |CertText(base, SegmentBegin(job, |base|))| + |Lines(certs[..c])|
  }

  /** The evidence and certificate appends of a batch; a crash tears both in any way. */
  method AppendArtifacts(job: Job, d: Disk, m: Memory, answers: nat -> Answers, end: nat, fates: StepFates,
                         ghost base: seq<Outcome>, begin: nat)
    returns (r: Result<Artifacts, Exception>, alive: bool)
    requires job.Valid() && BetweenBatches(job, d, m, base) && begin == |base| && WithinSegment(job, begin, end)
    modifies d`segments, d.log
    ensures d.Recoverable(job)
    ensures alive && r.Ok? ==>
      WithinBatch(job, d, m, answers, base, base, end, old(d.segments)) && ArtifactsOf(job, answers, base, end, r.value)
    ensures AllComplete(fates) ==> alive
    ensures alive && r.Err? ==>
      |RecordsText(Evidence(job, base) + BatchEvidence(job, answers, begin, end))| <= STREAM_MAX ==>
      exists i: nat :: begin <= i < end && Commit(job, i, answers(i)).Err?
  {
    hide RecordText, RecordsText, BatchEvidence, BatchCerts, Evidence, Lines, SegmentsExact, SegmentsHold, CertLines,
      Commit, Lined,
      SegmentOf, Tally, ResultsText, Sound, SlicesOf, CertText;
    ghost var segments := d.segments;
    BaseExtends(job, answers, base, end);
    LinedBound(job, base);
    CurrentContent(job, base, segments);
    ExactHolds(job, base, segments);
    var s := SegmentOf(job, begin);
    var journal, offsets := GatherCertificates(job, answers, begin, end, |Content(d.segments, s)|);
    JournalEmpty(BatchCerts(job, answers, begin, end));
    if journal != "" {
      TornSegment(job, base, segments, journal[..Kept(fates.certificates, |journal|)]);
      d.segments := d.segments[s := Content(d.segments, s) + journal[..Kept(fates.certificates, |journal|)]];
    }
    var records := GatherEvidence(job, answers, begin, end);
    if records.Err? {
      AgreesRecoverable(job, d, m, base);
      return Err(records.error), fates.certificates.Completes? || journal == "";
    }
    RecordsAppend(Evidence(job, base), records.value);
    Boundary(job, base);
    var slices, written := d.log.AppendBatch(records.value, fates.evidence);
    AgreesRecoverable(job, d, m, base);
    alive := written && (fates.certificates.Completes? || journal == "");
    if slices.Err? {
      return Err(slices.error), alive;
    }
    WholeBatch(RecordsText(records.value), journal);
    return Ok(Artifacts(slices.value, offsets)), alive;
  }

  lemma BaseExtends(job: Job, answers: nat -> Answers, base: seq<Outcome>, end: nat)
    requires job.Valid() && |base| <= end <= job.Count()
    ensures Extends(job, answers, base, base)
  {
  }

  lemma JournalEmpty(certs: seq<string>)
    ensures Lines(certs) == "" <==> certs == []
  {
    if certs != [] {
      LinesEndInNewline(certs);
    }
  }

  lemma Boundary(job: Job, base: seq<Outcome>)
    requires |base| <= job.Count()
    ensures |EvidenceText(job, base)| <= STREAM_MAX ==> AtBoundary(EvidenceText(job, base))
  {
    RecordsNonempty(Evidence(job, base));
  }

  lemma WholeBatch(records: string, journal: string)
    ensures records[..|records|] == records && journal[..|journal|] == journal
  {
  }
}
