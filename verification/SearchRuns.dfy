/** Whole runs of the search: any sequence of stops, failures, crashes and restarts keeps
    one growing exact ledger (src/mvp/search_pipeline.cpp). */
module SearchRuns {
  import opened MachineArithmetic
  import opened DelimitedText
  import opened SearchRecords
  import opened SearchScan
  import opened SearchLedger
  import opened SearchCheckpoint
  import opened SearchDisk
  import opened SearchSegments
  import opened SearchRecovery
  import opened SearchBatch
  import opened SearchPipeline
  import opened SearchCommit
  import opened EvidenceRecords
  import opened EvidenceLog
  import opened Durability
  import opened Hexadecimal
  import opened Wrappers

  /** Answers under which a ledger stays what a calm run would have written. */
  ghost predicate Calmly(job: Job, env: Environment, ideal: seq<Outcome>, os: seq<Outcome>)
    requires job.Valid()
  {
    env.Calm(job, ideal) && os <= ideal
  }

  // ----- the commit loop over one batch

  /** One candidate, and the checkpoint when it is due. */
  method CommitStep(job: Job, d: Disk, env: Environment, index: nat, x: Artifacts, evidence0: nat, certificate0: nat,
                    m0: Memory,
                    ghost base: seq<Outcome>, ghost os0: seq<Outcome>, ghost end: nat, ghost segments: map<Segment,
                      string>,
                    ghost ideal: seq<Outcome>)
    returns (outcome: Option<RunOutcome>, m: Memory, evidence: nat, certificate: nat, ghost os: seq<Outcome>)
    requires job.Valid() && WithinBatch(job, d, m0, env.answers, base, os0, end, segments)
      && index == |os0| < end <= job.Count()
    requires ArtifactsOf(job, env.answers, base, end, x) && RespectfulAnswer(env.answers(index))
    requires evidence0 == |BatchEvidence(job, env.answers, |base|, index)|
      && certificate0 == |BatchCerts(job, env.answers, |base|, index)|
    modifies d`results, d`checkpoint, d`committed
    ensures d.Recoverable(job) && d.committed <= os && os0 <= os && Extends(job, env.answers, base, os)
    ensures d.committed == old(d.committed) || d.committed == os
    ensures outcome == None ==> |os| == index + 1 && WithinBatch(job, d, m, env.answers, base, os, end, segments)
    ensures outcome == None ==>
      evidence == |BatchEvidence(job, env.answers, |base|, |os|)|
      && certificate == |BatchCerts(job, env.answers, |base|, |os|)|
    ensures outcome == None && |os| == job.Count() ==> d.committed == os && m.pending == ""
    ensures outcome.Some? ==> !outcome.value.Complete?
    ensures outcome == Some(Stopped) ==> d.results == ResultsText(job, d.committed)
    ensures Calmly(job, env, ideal, os0) ==> outcome == None && os <= ideal
  {
    hide Agrees, Lined, Sized, Sound, ResultsText, EvidenceText, Tally, StateOf, SegmentsHold, SegmentsExact,
      WithCertificates, BatchEvidence,
      BatchCerts, Extends, Evidence, RecordsText, ArtifactsOf, Commit, RecordAt, EvidenceSlice, FlintOf, WithinSegment,
        TextsQuotable,
      RecordLineText, Next, RespectfulAnswer, Environment.Calm, AllComplete, Hashes, CanonicalDigest, Durable;
    WithinRecoverable(job, d, m0, env.answers, base, os0, end, segments);
    AgreesFacts(job, d, m0, os0);
    m, os, evidence, certificate := m0, os0, evidence0, certificate0;
    if Calmly(job, env, ideal, os) {
      CalmCandidate(job, env, ideal, os);
    }
    var committed := CommitCandidate(job, env.answers, index, x, evidence, certificate, base, os, end);
    if committed.Err? {
      return Some(RunOutcome.Failed(committed.error)), m, evidence, certificate, os;
    }
    var o := committed.value.outcome;
    WithinFacts(job, d, m, env.answers, base, os, end, segments);
    Counters(job, env.answers, |base|, index, o);
    ExtendsNext(job, env.answers, base, os, o);
    AgreesNext(job, d, m, os, committed.value);
    evidence := if FlintOf(o).Some? then evidence + 1 else evidence;
    certificate := if o.Certified? then certificate + 1 else certificate;
    m, os := Next(m, committed.value), os + [o];
    WithinHolds(job, d, m, env.answers, base, os, end, segments);
    WithinRecoverable(job, d, m, env.answers, base, os, end, segments);
    AgreesFacts(job, d, m, os);
    if Calmly(job, env, ideal, os) {
      CalmSized(job, env, ideal, os);
      CalmStep(job, env, ideal, index + 1);
    }
    if env.stop(index + 1) || index + 1 == job.Count() || (index + 1) % job.interval == 0 {
      var failure, alive;
      failure, alive, m := WriteCheckpoint(job, d, m, index + 1, env.fates(index + 1), os);
      if !alive {
        return Some(Crashed), m, evidence, certificate, os;
      }
      if failure.Some? {
        return Some(RunOutcome.Failed(failure.value)), m, evidence, certificate, os;
      }
    }
    if env.stop(index + 1) {
      StoppedResults(job, d, m, os);
      return Some(Stopped), m, evidence, certificate, os;
    }
    return None, m, evidence, certificate, os;
  }

  method CommitBatch(job: Job, d: Disk, env: Environment, begin: nat, end: nat, x: Artifacts, m0: Memory,
                     ghost base: seq<Outcome>, ghost segments: map<Segment, string>, ghost ideal: seq<Outcome>)
    returns (outcome: Option<RunOutcome>, m: Memory, ghost os: seq<Outcome>)
    requires job.Valid() && env.Respectful(job) && begin == |base| < end <= job.Count()
    requires WithinBatch(job, d, m0, env.answers, base, base, end, segments)
      && ArtifactsOf(job, env.answers, base, end, x)
    modifies d`results, d`checkpoint, d`committed
    ensures d.Recoverable(job) && d.committed <= os && Extends(job, env.answers, base, os)
    ensures d.committed == old(d.committed) || base <= d.committed
    ensures outcome == None ==> |os| == end && BetweenBatches(job, d, m, os)
    ensures outcome == None && end == job.Count() ==> d.committed == os && m.pending == ""
    ensures outcome.Some? ==> !outcome.value.Complete?
    ensures outcome == Some(Stopped) ==> d.results == ResultsText(job, d.committed)
    ensures Calmly(job, env, ideal, base) ==> outcome == None && os <= ideal
  {
    hide WithinBatch, BetweenBatches, ResultsText, BatchEvidence, BatchCerts, Extends, ArtifactsOf, RespectfulAnswer,
      Environment.Calm, Durable,
      Hashes, CanonicalDigest;
    m, os := m0, base;
    var evidence, certificate := 0, 0;
    NothingGathered(job, env.answers, begin);
    WithinFacts(job, d, m, env.answers, base, os, end, segments);
    WithinRecoverable(job, d, m, env.answers, base, os, end, segments);
    for index := begin to end
      invariant index == |os| && base <= os && d.committed <= os && d.Recoverable(job)
      invariant WithinBatch(job, d, m, env.answers, base, os, end, segments)
      invariant evidence == |BatchEvidence(job, env.answers, begin, index)|
        && certificate == |BatchCerts(job, env.answers, begin, index)|
      invariant d.committed == old(d.committed) || base <= d.committed
      invariant begin < index == job.Count() ==> d.committed == os && m.pending == ""
      invariant Calmly(job, env, ideal, base) ==> os <= ideal
    {
      assert RespectfulAnswer(env.answers(index));
      outcome, m, evidence, certificate, os :=
        CommitStep(job, d, env, index, x, evidence, certificate, m, base, os, end, segments, ideal);
      if outcome.Some? {
        return;
      }
    }
    WithinRecoverable(job, d, m, env.answers, base, os, end, segments);
    WithinExtends(job, d, m, env.answers, base, os, end, segments);
    outcome := None;
  }

  lemma WithinExtends(job: Job, d: Disk, m: Memory, answers: nat -> Answers, base: seq<Outcome>, os: seq<Outcome>,
                      end: nat, segments: map<Segment, string>)
    requires job.Valid() && WithinBatch(job, d, m, answers, base, os, end, segments)
    ensures Extends(job, answers, base, os)
  {
  }

  lemma NothingGathered(job: Job, answers: nat -> Answers, begin: nat)
    requires job.Valid() && begin <= job.Count()
    ensures BatchEvidence(job, answers, begin, begin) == [] && BatchCerts(job, answers, begin, begin) == []
  {
  }

  lemma WithinFacts(job: Job, d: Disk, m: Memory, answers: nat -> Answers, base: seq<Outcome>, os: seq<Outcome>,
                    end: nat, segments: map<Segment, string>)
    requires job.Valid() && WithinBatch(job, d, m, answers, base, os, end, segments)
    ensures base <= os && d.committed <= os && |base| < end <= job.Count() && |os| <= end
  {
  }

  lemma AgreesFacts(job: Job, d: Disk, m: Memory, os: seq<Outcome>)
    requires job.Valid() && Agrees(job, d, m, os)
    ensures Lined(job, os) && |os| <= job.Count() && d.committed <= os
  {
  }

  lemma StoppedResults(job: Job, d: Disk, m: Memory, os: seq<Outcome>)
    requires job.Valid() && Agrees(job, d, m, os)
    ensures d.results == ResultsText(job, d.committed)
  {
  }

  lemma CalmStep(job: Job, env: Environment, ideal: seq<Outcome>, i: nat)
    requires job.Valid() && env.Calm(job, ideal)
    ensures !env.stop(i) && AllComplete(env.fates(i))
  {
  }

  // ----- the loop over batches

  lemma ExtendsChain(job: Job, answers: nat -> Answers, a: seq<Outcome>, b: seq<Outcome>, c: seq<Outcome>)
    requires job.Valid() && Extends(job, answers, a, b) && Extends(job, answers, b, c)
    ensures Extends(job, answers, a, c)
  {
    hide Commit;
  }

  lemma ExtendsShorter(job: Job, answers: nat -> Answers, a: seq<Outcome>, b: seq<Outcome>, c: seq<Outcome>)
    requires job.Valid() && a <= b <= c && Extends(job, answers, a, c)
    ensures Extends(job, answers, a, b)
  {
    hide Commit;
  }

  lemma {:induction false} TallyComplete(os: seq<Outcome>)
    ensures Tally(os).proven + Tally(os).composite == |os|
  {
    if os != [] {
      TallyComplete(os[..|os| - 1]);
    }
  }

  lemma BetweenFacts(job: Job, d: Disk, m: Memory, os: seq<Outcome>)
    requires job.Valid() && BetweenBatches(job, d, m, os)
    ensures |os| <= job.Count() && d.committed <= os && m.counts == Tally(os)
    ensures d.committed == os ==> d.Exact(job)
  {
    hide Tally, Lined, Sound, SegmentsExact, EvidenceText, StateOf;
    LinedBound(job, os);
  }

  /** The batches from the first uncommitted candidate on; when all are done, the check of
      the counters never fires. */
  method RunBatches(job: Job, d: Disk, env: Environment, first: nat, m0: Memory, ghost base: seq<Outcome>,
                    ghost ideal: seq<Outcome>)
    returns (outcome: RunOutcome)
    requires job.Valid() && env.Respectful(job) && BetweenBatches(job, d, m0, base) && first == |base|
      && d.committed == base
    modifies d, d.log
    ensures d.Recoverable(job) && Extends(job, env.answers, base, d.committed)
    ensures outcome.Complete? ==> d.Exact(job) && |d.committed| == job.Count()
    ensures outcome.Stopped? ==> d.results == ResultsText(job, d.committed)
    ensures Calmly(job, env, ideal, base) ==> outcome == Complete && d.committed == ideal
  {
    hide WithinBatch, BetweenBatches, ResultsText, BatchEvidence, BatchCerts, Extends, ArtifactsOf, RespectfulAnswer,
      Environment.Calm, Durable,
      Hashes, CanonicalDigest, Tally, RecordsText, Evidence, Commit, AllComplete, Sound, SegmentsExact, StateOf,
        EvidenceText;
    var m, begin := m0, first;
    ghost var os := base;
    BetweenFacts(job, d, m, os);
    BetweenRecoverable(job, d, m, os);
    BaseExtends(job, env.answers, base, |base|);
    while begin < job.Count()
      invariant begin == |os| <= job.Count() && BetweenBatches(job, d, m, os) && d.Recoverable(job)
      invariant Extends(job, env.answers, base, os) && base <= d.committed <= os
      invariant begin == job.Count() ==> d.committed == os
      invariant Calmly(job, env, ideal, base) ==> os <= ideal
    {
      var end := BatchEnd(job, begin, env.batch);
      ghost var segments := d.segments;
      ghost var before := os;
      var artifacts, alive := AppendArtifacts(job, d, m, env.answers, end, env.fates(begin), os, begin);
      ExtendsShorter(job, env.answers, base, d.committed, os);
      if Calmly(job, env, ideal, base) {
        CalmStep(job, env, ideal, begin);
        CalmBatch(job, env, ideal, os, end);
      }
      if !alive {
        return Crashed;
      }
      if artifacts.Err? {
        return RunOutcome.Failed(artifacts.error);
      }
      var stop;
      stop, m, os := CommitBatch(job, d, env, begin, end, artifacts.value, m, os, segments, ideal);
      ExtendsChain(job, env.answers, base, before, os);
      ExtendsShorter(job, env.answers, base, d.committed, os);
      if stop.Some? {
        return stop.value;
      }
      BetweenFacts(job, d, m, os);
      begin := end;
    }
    BetweenFacts(job, d, m, os);
    TallyComplete(os);
    assert m.counts.proven + m.counts.composite == job.Count();
    if Calmly(job, env, ideal, base) {
      CalmAll(job, env, ideal, os);
    }
    return Complete;
  }

  lemma CalmAll(job: Job, env: Environment, ideal: seq<Outcome>, os: seq<Outcome>)
    requires job.Valid() && env.Calm(job, ideal) && os <= ideal && |os| == job.Count()
    ensures os == ideal
  {
  }

  /** A calm batch's artifacts fit the log, and every candidate of it can be committed. */
  lemma CalmBatch(job: Job, env: Environment, ideal: seq<Outcome>, os: seq<Outcome>, end: nat)
    requires job.Valid() && env.Calm(job, ideal) && os <= ideal && |os| <= end <= job.Count()
    ensures |RecordsText(Evidence(job, os) + BatchEvidence(job, env.answers, |os|, end))| <= STREAM_MAX
    ensures forall i: nat :: |os| <= i < end ==> Commit(job, i, env.answers(i)).Ok?
  {
    hide Commit, RecordsText, Evidence, BatchEvidence, EntryFine, ResultsText;
    var longer := ideal[..end];
    assert forall i: nat :: i < end ==> Commit(job, i, env.answers(i)) == Ok(ideal[i]);
    assert Extends(job, env.answers, os, longer);
    ExtendedEvidence(job, env.answers, os, longer);
    EvidenceGrows(job, ideal, end);
  }

  // ----- runs

  /** The loop of a run whose files are exact: an immediate stop only saves the checkpoint again. */
  method Continue(job: Job, d: Disk, env: Environment, at: Restored, ghost ideal: seq<Outcome>)
    returns (outcome: RunOutcome)
    requires job.Valid() && env.Respectful(job) && d.Exact(job)
    requires at == Restored(|d.committed|, |EvidenceText(job, d.committed)|, Tally(d.committed))
    modifies d, d.log
    ensures d.Recoverable(job) && Extends(job, env.answers, old(d.committed), d.committed)
    ensures outcome.Complete? ==> d.Exact(job) && |d.committed| == job.Count()
    ensures outcome.Stopped? ==> d.results == ResultsText(job, d.committed)
    ensures Calmly(job, env, ideal, old(d.committed)) ==> outcome == Complete && d.committed == ideal
  {
    hide ResultsText, EvidenceText, Environment.Calm, Hashes, CanonicalDigest, Tally, SegmentsExact, StateOf,
      RespectfulAnswer, Extends;
    ghost var base := d.committed;
    var m := Memory("", at.evidenceBytes, at.counts);
    LinedSized(job, base);
    ExactBetween(job, d, m);
    if env.stop(at.nextIndex) {
      if Calmly(job, env, ideal, base) {
        CalmStep(job, env, ideal, at.nextIndex);
      }
      var failure, alive := SaveProgress(job, d, at.nextIndex, at.evidenceBytes, env.fates(at.nextIndex).save, base);
      BetweenRecoverable(job, d, m, base);
      BaseExtends(job, env.answers, base, |base|);
      assert failure == None;
      return if alive then Stopped else Crashed;
    }
    outcome := RunBatches(job, d, env, at.nextIndex, m, base, ideal);
  }

  lemma ExactBetween(job: Job, d: Disk, m: Memory)
    requires job.Valid() && d.Exact(job) && m == Memory("", |EvidenceText(job, d.committed)|, Tally(d.committed))
    ensures BetweenBatches(job, d, m, d.committed) && Lined(job, d.committed) && |d.committed| <= job.Count()
  {
    hide ResultsText, EvidenceText, Tally, SegmentsExact, StateOf, Lined, Sized, Sound;
    LinedSized(job, d.committed);
    LinedBound(job, d.committed);
    assert ResultsText(job, d.committed) == d.results + "";
  }

  /** A new campaign in an empty directory: only a crash before its first checkpoint leaves
      something that cannot be resumed. */
  method StartSearch(job: Job, d: Disk, env: Environment, first: Fate, ghost ideal: seq<Outcome>)
    returns (outcome: RunOutcome)
    requires job.Valid() && env.Respectful(job) && d.log.sha256 == job.sha256
    requires d.results == "" && d.log.bytes == "" && d.segments == map[] && d.checkpoint == None && d.committed == []
    modifies d, d.log
    ensures TakesEffect(first) ==> d.Recoverable(job)
    ensures !TakesEffect(first) ==> outcome == Crashed && d.checkpoint == None
    ensures TakesEffect(first) ==> Extends(job, env.answers, [], d.committed)
    ensures outcome.Complete? ==> d.Exact(job) && |d.committed| == job.Count()
    ensures first.Completes? && Calmly(job, env, ideal, []) ==> outcome == Complete && d.committed == ideal
  {
    hide Environment.Calm, Hashes, CanonicalDigest, StateOf, RespectfulAnswer, Extends, Commit;
    NothingWritten(job);
    BaseExtends(job, env.answers, [], 0);
    hide Sound, Sized, Lined, ResultsText, EvidenceText, Tally;
    var failure, alive := SaveProgress(job, d, 0, 0, first, []);
    if TakesEffect(first) {
      NothingExact(job, d);
    }
    if !alive {
      return Crashed;
    }
    outcome := Continue(job, d, env, Restored(0, 0, NoCounts()), ideal);
  }

  lemma NothingWritten(job: Job)
    requires job.Valid()
    ensures Sound(job, []) && Lined(job, []) && Sized(job, []) && ResultsText(job, []) == ""
      && EvidenceText(job, []) == ""
    ensures Tally([]) == NoCounts()
  {
  }

  lemma NothingExact(job: Job, d: Disk)
    requires job.Valid() && d.committed == [] && d.checkpoint == Some(StateOf(job, [])) && d.log.sha256 == job.sha256
    requires d.results == "" && d.log.bytes == "" && d.segments == map[]
    ensures d.Exact(job) && d.Recoverable(job)
  {
    NothingWritten(job);
    hide Sound, StateOf;
  }

  /** A restart of a durable state that is refused or restored exactly: the committed
      outcomes only grow, by outcomes of this run's answers. */
  method ResumeSearch(job: Job, d: Disk, env: Environment, ghost ideal: seq<Outcome>) returns (outcome: RunOutcome)
    requires job.Valid() && env.Respectful(job) && d.Recoverable(job) && Restarts(job, d)
    modifies d, d.log
    ensures d.Recoverable(job) && Extends(job, env.answers, old(d.committed), d.committed)
    ensures outcome.Complete? ==> d.Exact(job) && |d.committed| == job.Count()
    ensures old(EmptyBlocked(d)) ==> outcome == RunOutcome.Failed(InvalidArgument) && EmptyBlocked(d)
    ensures old(Blocked(job, d)) ==> d.committed == old(d.committed) && (outcome.Failed? || outcome == Crashed)
    ensures old(Blocked(job, d)) && env.restore.Undisturbed() ==> outcome.Failed?
    ensures !old(Blocked(job, d)) && Calmly(job, env, ideal, old(d.committed)) ==>
      outcome == Complete && d.committed == ideal
  {
    hide Hashes, CanonicalDigest, StateOf, RespectfulAnswer, Extends, Commit, Durable, ResultsText, EvidenceText, Tally,
      AllComplete, Sound,
      Outrun, Clear;
    ghost var base := d.committed;
    SoundOf(job, d);
    BaseExtends(job, env.answers, base, |base|);
    var restored, alive := RestoreProgress(job, d, env.restore);
    if !alive {
      return Crashed;
    }
    if restored.Err? {
      return RunOutcome.Failed(restored.error);
    }
    outcome := Continue(job, d, env, restored.value, ideal);
  }

  /** Nothing is committed, but the result file has begun: the first append was not
      followed by its checkpoint. */
  ghost predicate EmptyBlocked(d: Disk)
    reads d
  {
    d.committed == [] && d.results != ""
  }

  /** What a restart refuses. */
  ghost predicate Blocked(job: Job, d: Disk)
    reads d
    requires job.Valid()
  {
    EmptyBlocked(d) || Outrun(job, d.committed, d.segments)
  }

  /** A restart is refused, or brings every file back exactly. */
  ghost predicate Restarts(job: Job, d: Disk)
    reads d
    requires job.Valid()
  {
    Blocked(job, d) || Clear(job, d.committed, d.segments)
  }

  lemma SoundOf(job: Job, d: Disk)
    requires job.Valid() && d.Recoverable(job)
    ensures |d.committed| <= job.Count()
  {
  }

  // ----- any number of runs

  ghost predicate SameAnswers(runs: seq<Environment>, answers: nat -> Answers) {
    forall i: nat :: i < |runs| ==> runs[i].answers == answers
  }

  /** No outcome claims its segment. */
  ghost predicate NothingClaimed(job: Job, os: seq<Outcome>)
    requires job.Valid()
  {
    forall i: nat :: i < |os| ==> !Claims(job, os[i], i)
  }

  lemma {:induction false} NothingCounted(job: Job, os: seq<Outcome>, begin: nat)
    requires job.Valid() && NothingClaimed(job, os)
    ensures ClaimCount(job, os, begin) == 0
  {
    hide Claims;
    if |os| > begin {
      NothingCounted(job, os[..|os| - 1], begin);
    }
  }

  /** Without claims every restart is exact or refused at an empty checkpoint only. */
  lemma NothingClaimedRestarts(job: Job, d: Disk)
    requires job.Valid() && d.Recoverable(job) && NothingClaimed(job, d.committed)
    ensures Restarts(job, d) && (Blocked(job, d) <==> EmptyBlocked(d))
  {
    hide Sound, SegmentsHold, ClaimCount, Short, NoneIsCurrent, NothingClaimed, ResultsText, EvidenceText;
    NothingCounted(job, d.committed, SegmentBegin(job, |d.committed|));
    UnclaimedIsNotOutrun(job, d.committed, d.segments);
  }

  lemma NothingClaimedGrows(job: Job, env: Environment, a: seq<Outcome>, b: seq<Outcome>)
    requires job.Valid() && env.ClaimsNothing(job) && NothingClaimed(job, a) && Extends(job, env.answers, a, b)
    ensures NothingClaimed(job, b)
  {
    hide SegmentPath, SegmentOf, Probable;
    forall i: nat | i < |b|
      ensures !Claims(job, b[i], i)
    {
      if i < |a| {
        assert b[i] == a[i];
      } else {
        assert Commit(job, i, env.answers(i)) == Ok(b[i]) && UnclaimingAnswer(job, i, env.answers(i));
      }
    }
  }

  /** Stops, failures, crashes at any write, and restarts: the disk stays recoverable, the
      committed outcomes only grow, and with deterministic engines they are always a
      beginning of what the answers determine. */
  method RunRepeatedly(job: Job, d: Disk, runs: seq<Environment>, ghost answers: nat -> Answers)
    returns (last: RunOutcome)
    requires job.Valid() && d.Recoverable(job) && NothingClaimed(job, d.committed)
    requires forall i: nat :: i < |runs| ==> runs[i].Respectful(job) && runs[i].ClaimsNothing(job)
    modifies d, d.log
    ensures d.Recoverable(job) && old(d.committed) <= d.committed
    ensures last.Complete? ==> d.Exact(job) && |d.committed| == job.Count()
    ensures SameAnswers(runs, answers) && Follows(job, answers, old(d.committed)) ==> Follows(job, answers, d.committed)
    ensures old(EmptyBlocked(d)) && runs != [] ==> last == RunOutcome.Failed(InvalidArgument)
  {
    hide Durable, Commit, Sound, SegmentsExact, ResultsText, EvidenceText, StateOf, RespectfulAnswer, Hashes,
      CanonicalDigest,
      NothingClaimed, Restarts, Environment.ClaimsNothing;
    last := Crashed;
    for i := 0 to |runs|
      invariant d.Recoverable(job) && old(d.committed) <= d.committed && NothingClaimed(job, d.committed)
      invariant last.Complete? ==> d.Exact(job) && |d.committed| == job.Count()
      invariant SameAnswers(runs, answers) && Follows(job, answers, old(d.committed)) ==>
        Follows(job, answers, d.committed)
      invariant old(EmptyBlocked(d)) ==> EmptyBlocked(d) && (i > 0 ==> last == RunOutcome.Failed(InvalidArgument))
    {
      ghost var before := d.committed;
      NothingClaimedRestarts(job, d);
      last := ResumeSearch(job, d, runs[i], []);
      FollowsExtended(job, runs[i].answers, before, d.committed);
      NothingClaimedGrows(job, runs[i], before, d.committed);
    }
  }

  lemma FollowsExtended(job: Job, answers: nat -> Answers, a: seq<Outcome>, b: seq<Outcome>)
    requires job.Valid() && Extends(job, answers, a, b)
    ensures a <= b && (Follows(job, answers, a) ==> Follows(job, answers, b))
  {
    hide Commit;
  }

  /** Deterministic engines: a ledger finished after any interruptions is the ledger of any
      other finished run, byte by byte in all three files. */
  lemma FinishedLedgersAgree(job: Job, answers: nat -> Answers, d: Disk, e: Disk)
    requires job.Valid() && d.Exact(job) && e.Exact(job) && |d.committed| == job.Count() == |e.committed|
    requires Follows(job, answers, d.committed) && Follows(job, answers, e.committed)
    ensures d.results == e.results && d.log.bytes == e.log.bytes
    ensures forall i: nat :: i < job.Count() ==>
      Content(d.segments, SegmentOf(job, i)) == Content(e.segments, SegmentOf(job, i))
  {
    hide Commit, Sound, ResultsText, EvidenceText, SegmentText, SegmentOf, StateOf;
    LedgerDetermined(job, answers, d.committed, e.committed);
    assert e.committed[..|d.committed|] == e.committed;
  }
}
