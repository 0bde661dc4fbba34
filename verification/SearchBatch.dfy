/** One batch of a search: how the engines' answers become outcomes, and what the batch
    adds to the evidence log and the certificate segment (src/mvp/search_pipeline.cpp). */
module SearchBatch {
  import opened NumberTheory
  import opened MachineArithmetic
  import opened DelimitedText
  import opened SearchRecords
  import opened SearchLedger
  import opened SearchDisk
  import opened SearchSegments
  import opened EvidenceRecords
  import opened EvidenceLog
  import opened Wrappers

  // ----- the engines' answers

  datatype PrpVerdict = PrpComposite | PrpProbablePrime | PrpInvalid

  datatype EngineVerdict = SaysPrime | SaysComposite | SaysNothing

  datatype RawOutput = RawOutput(stdout: seq<byte>, stderr: seq<byte>)

  datatype Identity = Identity(engineId: string, executableSha256: string)

  /** What the engines answer for one candidate; a missing part is one the pipeline refuses. */
  datatype Answers = Answers(
    prp: PrpVerdict, certificate: Option<string>, primary: EngineVerdict, captured: Option<Captured>,
    independent: EngineVerdict, raw: Option<RawOutput>, identity: Option<Identity>)

  /** A survivor of the sieve that the base-2 test lets through. */
  predicate Probable(job: Job, i: nat, a: Answers)
    requires i < |job.factors|
  {
    job.factors[i] == 0 && a.prp.PrpProbablePrime?
  }

  /** The proven status of a probable prime: a native certificate, or the proof engine's word. */
  function Proof(a: Answers): Result<bool, Exception> {
    if a.certificate.Some? then Ok(true)
    else if a.primary.SaysNothing? || a.captured.None? then Err(RuntimeError) else Ok(a.primary.SaysPrime?)
  }

  /** The classification of one candidate in the commit loop. */
  function Commit(job: Job, i: nat, a: Answers): Result<Outcome, Exception>
    requires i < job.Count() && |job.factors| == job.Count()
  {
    var factor := job.factors[i];
    if factor != 0 then
      if job.candidates[i].value <= factor || job.candidates[i].value % factor != 0 then Err(LogicError)
        else Ok(SieveFactor(factor))
    else
      match a.prp
      case PrpComposite => Ok(Base2)
      case PrpInvalid => Err(LogicError)
      case PrpProbablePrime =>
        if a.raw.None? then Err(RuntimeError)
        else
          match Proof(a)
          case Err(x) => Err(x)
          case Ok(prime) =>
            if a.independent != (if prime then SaysPrime else SaysComposite) || a.identity.None? then Err(RuntimeError)
            else
              var flint := Flint(a.identity.value.engineId, a.identity.value.executableSha256, a.raw.value.stdout,
                a.raw.value.stderr);
              Ok(if a.certificate.Some? then Certified(a.certificate.value, flint)
                else ByPari(prime, a.captured.value, flint))
  }

  /** These outcomes are what the answers lead to. */
  ghost predicate Follows(job: Job, answers: nat -> Answers, os: seq<Outcome>)
    requires |job.factors| == job.Count()
  {
    |os| <= job.Count() && forall i: nat :: i < |os| ==> Commit(job, i, answers(i)) == Ok(os[i])
  }

  /** With the same answers, equally long ledgers are the same. */
  lemma LedgerDetermined(job: Job, answers: nat -> Answers, a: seq<Outcome>, b: seq<Outcome>)
    requires |job.factors| == job.Count() && Follows(job, answers, a) && Follows(job, answers, b) && |a| <= |b|
    ensures a == b[..|a|]
  {
    forall i | 0 <= i < |a|
      ensures a[i] == b[i]
    {
      assert Commit(job, i, answers(i)) == Ok(a[i]);
    }
  }

  // ----- what a batch adds

  function RawRecord(job: Job, i: nat, raw: RawOutput): EvidenceRecord
    requires i < job.Count()
  {
    EvidenceRecordOf(job, i, Flint("", "", raw.stdout, raw.stderr))
  }

  /** The evidence records of the probable primes of a range, in order. */
  function BatchEvidence(job: Job, answers: nat -> Answers, begin: nat, end: nat): seq<EvidenceRecord>
    requires begin <= end <= job.Count() && |job.factors| == job.Count()
  {
    if begin == end then []
    else
      var a := answers(end - 1);
      BatchEvidence(job, answers, begin, end - 1)
        + if Probable(job, end - 1, a) && a.raw.Some? then [RawRecord(job, end - 1, a.raw.value)] else []
  }

  /** The certificates of the probable primes of a range, in order. */
  function BatchCerts(job: Job, answers: nat -> Answers, begin: nat, end: nat): seq<string>
    requires begin <= end <= job.Count() && |job.factors| == job.Count()
  {
    if begin == end then []
    else
      var a := answers(end - 1);
      BatchCerts(job, answers, begin, end - 1)
        + if Probable(job, end - 1, a) && a.certificate.Some? then [a.certificate.value] else []
  }

  lemma {:induction false} BatchEvidenceGrows(job: Job, answers: nat -> Answers, begin: nat, j: nat, end: nat)
    requires begin <= j <= end <= job.Count() && |job.factors| == job.Count()
    ensures BatchEvidence(job, answers, begin, j) <= BatchEvidence(job, answers, begin, end)
  {
    hide RawRecord, Probable;
    if j < end {
      BatchEvidenceGrows(job, answers, begin, j, end - 1);
    }
  }

  lemma {:induction false} BatchCertsGrow(job: Job, answers: nat -> Answers, begin: nat, j: nat, end: nat)
    requires begin <= j <= end <= job.Count() && |job.factors| == job.Count()
    ensures BatchCerts(job, answers, begin, j) <= BatchCerts(job, answers, begin, end)
  {
    hide Probable;
    if j < end {
      BatchCertsGrow(job, answers, begin, j, end - 1);
    }
  }

  /** A ledger that the commit loop has extended by outcomes of the batch. */
  ghost predicate Extends(job: Job, answers: nat -> Answers, base: seq<Outcome>, os: seq<Outcome>)
    requires |job.factors| == job.Count()
  {
    base <= os && |os| <= job.Count() && forall i: nat :: |base| <= i < |os| ==> Commit(job, i, answers(i)) == Ok(os[i])
  }

  lemma OutcomeArtifacts(job: Job, i: nat, a: Answers, o: Outcome)
    requires i < job.Count() && |job.factors| == job.Count() && Commit(job, i, a) == Ok(o)
    ensures FlintOf(o).Some? <==> Probable(job, i, a)
    ensures Probable(job, i, a) ==>
      a.raw.Some? && EvidenceRecordOf(job, i, FlintOf(o).value) == RawRecord(job, i, a.raw.value)
    ensures o.Certified? <==> Probable(job, i, a) && a.certificate.Some?
    ensures o.Certified? ==> o.certificate == a.certificate.value
    ensures o.ByPari? ==> a.captured == Some(o.primary)
  {
    hide Bytes;
  }

  lemma {:induction false} ExtendedEvidence(job: Job, answers: nat -> Answers, base: seq<Outcome>, os: seq<Outcome>)
    requires |job.factors| == job.Count() && Extends(job, answers, base, os)
    ensures Evidence(job, os) == Evidence(job, base) + BatchEvidence(job, answers, |base|, |os|)
    decreases |os|
  {
    hide RawRecord, Probable, EvidenceRecordOf, Commit, FlintOf;
    if |os| == |base| {
      assert os == base;
    } else {
      var n := |os| - 1;
      var before := os[..n];
      assert os == before + [os[n]];
      ExtendedEvidence(job, answers, base, before);
      OutcomeArtifacts(job, n, answers(n), os[n]);
      EvidenceSnoc(job, before, os[n]);
    }
  }

  lemma {:induction false} ExtendedCerts(job: Job, answers: nat -> Answers, base: seq<Outcome>, os: seq<Outcome>,
                                         begin: nat)
    requires |job.factors| == job.Count() && Extends(job, answers, base, os) && begin <= |base|
    ensures CertLines(os, begin) == CertLines(base, begin) + BatchCerts(job, answers, |base|, |os|)
    decreases |os|
  {
    hide Probable, Commit, FlintOf, CertLines, BatchCerts;
    if |os| == |base| {
      assert os == base;
      NoCerts(job, answers, |os|);
    } else {
      var n := |os| - 1;
      var before := os[..n];
      assert os == before + [os[n]];
      ExtendedCerts(job, answers, base, before, begin);
      OutcomeArtifacts(job, n, answers(n), os[n]);
      CertSnoc(before, os[n], begin);
      CertsStep(job, answers, |base|, n + 1);
    }
  }

  lemma NoCerts(job: Job, answers: nat -> Answers, n: nat)
    requires n <= job.Count() && |job.factors| == job.Count()
    ensures BatchCerts(job, answers, n, n) == []
  {
  }

  lemma CertsStep(job: Job, answers: nat -> Answers, begin: nat, end: nat)
    requires begin < end <= job.Count() && |job.factors| == job.Count()
    ensures var a := answers(end - 1);
      BatchCerts(job, answers, begin, end) == BatchCerts(job, answers, begin, end - 1)
        + if Probable(job, end - 1, a) && a.certificate.Some? then [a.certificate.value] else []
  {
  }

  /** The slice the batch's append has given to the next candidate is where the ledger
      expects its evidence. */
  lemma SliceOfNext(job: Job, answers: nat -> Answers, base: seq<Outcome>, os: seq<Outcome>, o: Outcome, end: nat)
    requires |job.factors| == job.Count() && Extends(job, answers, base, os) && |os| < end <= job.Count()
    requires Commit(job, |os|, answers(|os|)) == Ok(o) && FlintOf(o).Some?
    ensures var e := |BatchEvidence(job, answers, |base|, |os|)|;
      var slices := SlicesOf(BatchEvidence(job, answers, |base|, end), |EvidenceText(job, base)|);
      e < |slices| && slices[e] == EvidenceSlice(job, os + [o], |os|)
  {
    hide RawRecord, Probable, EvidenceRecordOf, Commit, FlintOf, RecordText, RecordsText, SlicesOf;
    var batch, all := BatchEvidence(job, answers, |base|, |os|), BatchEvidence(job, answers, |base|, end);
    OutcomeArtifacts(job, |os|, answers(|os|), o);
    BatchEvidenceGrows(job, answers, |base|, |os| + 1, end);
    assert all[|batch|] == BatchEvidence(job, answers, |base|, |os| + 1)[|batch|];
    assert all[..|batch|] == BatchEvidence(job, answers, |base|, |os| + 1)[..|batch|] == batch;
    SliceAt(all, |EvidenceText(job, base)|, |batch|);
    ExtendedEvidence(job, answers, base, os);
    RecordsAppend(Evidence(job, base), batch);
    assert (os + [o])[..|os|] == os;
    SliceIs(job, os + [o], |os|);
  }

  /** The offset the batch has given to the next certificate is where the ledger expects it. */
  lemma OffsetOfNext(job: Job, answers: nat -> Answers, base: seq<Outcome>, os: seq<Outcome>, begin: nat)
    requires |job.factors| == job.Count() && Extends(job, answers, base, os) && begin <= |base|
    ensures |CertText(base, begin)| + |Lines(BatchCerts(job, answers, |base|, |os|))| == |CertText(os, begin)|
  {
    hide Lines, CertLines;
    ExtendedCerts(job, answers, base, os, begin);
    LinesAppend(CertLines(base, begin), BatchCerts(job, answers, |base|, |os|));
  }

  // ----- the segment of a batch

  /** A batch stays within the segment of its first candidate. */
  predicate WithinSegment(job: Job, begin: nat, end: nat)
    requires job.interval > 0
  {
    begin < end <= job.Count() && end <= SegmentOf(job, begin).end
  }

  lemma SameSegment(job: Job, i: nat, j: nat)
    requires job.Valid() && SegmentOf(job, i).begin <= j < SegmentOf(job, i).end && i < job.Count()
    ensures SegmentOf(job, j) == SegmentOf(job, i)
  {
    BeginIsMultiple(i, job.interval);
    BlockOf(SegmentBegin(job, i), j, job.interval);
  }

  lemma BlocksApart(i: nat, j: nat, n: nat)
    requires n > 0 && i < j && i - i % n != j - j % n
    ensures i - i % n + n <= j - j % n
  {
    var p, q := i / n, j / n;
    DivMonotone(i, j, n);
    MulMonotone(n, p + 1, q);
    assert i - i % n == n * p && j - j % n == n * q && n * (p + 1) == n * p + n;
  }

  /** Different segments do not overlap. */
  lemma OtherSegment(job: Job, i: nat, j: nat)
    requires job.Valid() && i < j < job.Count() && SegmentOf(job, i) != SegmentOf(job, j)
    ensures SegmentOf(job, i).end <= SegmentOf(job, j).begin
  {
    BlocksApart(i, j, job.interval);
  }

  lemma SegmentTextStays(base: seq<Outcome>, os: seq<Outcome>, s: Segment)
    requires base <= os && s.end <= |base|
    ensures SegmentText(os, s) == SegmentText(base, s)
  {
    assert os[..s.end] == base[..s.end];
  }

  /** A longer ledger's segments hold the shorter one's. */
  lemma HoldShrinks(job: Job, base: seq<Outcome>, os: seq<Outcome>, segments: map<Segment, string>)
    requires job.Valid() && base <= os && SegmentsHold(job, os, segments)
    ensures SegmentsHold(job, base, segments)
  {
    hide CertLines, Lines, SegmentOf;
    forall i: nat | i < |base|
      ensures SegmentHolds(job, base, segments, i)
    {
      assert SegmentHolds(job, os, segments, i);
      var s := SegmentOf(job, i);
      if s.end <= |base| {
        SegmentTextStays(base, os, s);
      } else {
        var m := if s.end < |os| then s.end else |os|;
        CertGrows(os[..m], |base|, s.begin);
        assert os[..m][..|base|] == base && base[..|base|] == base;
        hide SegmentHolds, CertText;
        PrefixTransitive(CertText(base, s.begin), CertText(os[..m], s.begin), Content(segments, s));
      }
    }
  }

  lemma PrefixTransitive(a: string, b: string, c: string)
    requires a <= b <= c
    ensures a <= c
  {
  }

  /** What the current segment holds before a batch: the certificates so far. */
  lemma CurrentContent(job: Job, base: seq<Outcome>, segments: map<Segment, string>)
    requires job.Valid() && |base| < job.Count() && SegmentsExact(job, base, segments)
    ensures Content(segments, SegmentOf(job, |base|)) == CertText(base, SegmentBegin(job, |base|))
  {
    hide CertLines, Lines, SegmentOf;
    var n := |base|;
    var s := SegmentOf(job, n);
    assert base[..n] == base;
    SegmentIs(job, n);
    if s.begin == n {
      assert s !in segments;
      NothingYet(base);
    } else {
      SegmentEndsBehind(job, n);
      SameSegment(job, n, n - 1);
      assert Content(segments, SegmentOf(job, n - 1)) == SegmentText(base, SegmentOf(job, n - 1));
    }
  }

  lemma SegmentIs(job: Job, n: nat)
    requires job.Valid() && n < job.Count()
    ensures SegmentOf(job, n).begin == SegmentBegin(job, n)
  {
  }

  lemma NothingYet(os: seq<Outcome>)
    ensures CertText(os, |os|) == ""
  {
  }

  /** Whatever a torn append leaves in the current segment, the ledger so far is held. */
  lemma TornSegment(job: Job, base: seq<Outcome>, segments: map<Segment, string>, extra: string)
    requires job.Valid() && |base| < job.Count() && SegmentsExact(job, base, segments)
    ensures var s := SegmentOf(job, |base|); SegmentsHold(job, base, segments[s := Content(segments, s) + extra])
  {
    hide CertLines, Lines, CertText, SegmentOf;
    var n := |base|;
    var s := SegmentOf(job, n);
    var after := segments[s := Content(segments, s) + extra];
    SegmentIs(job, n);
    SegmentEndsBehind(job, n);
    forall i: nat | i < n
      ensures SegmentHolds(job, base, after, i)
    {
      assert Content(segments, SegmentOf(job, i)) == SegmentText(base, SegmentOf(job, i));
    }
    assert Proper(job, s);
  }

  lemma SegmentEndsBehind(job: Job, n: nat)
    requires job.Valid() && n < job.Count()
    ensures n < SegmentOf(job, n).end
  {
  }

  /** Behind a batch, every segment holds what the ledger says, exactly so when all the
      batch's outcomes are in it. */
  lemma BatchSegments(job: Job, answers: nat -> Answers, base: seq<Outcome>, os: seq<Outcome>, end: nat,
                      segments: map<Segment, string>)
    requires job.Valid() && Extends(job, answers, base, os) && |os| <= end && WithinSegment(job, |base|, end)
    requires SegmentsExact(job, base, segments)
    ensures var s := SegmentOf(job, |base|); var certs := BatchCerts(job, answers, |base|, end);
      var after := if certs == [] then segments else segments[s := Content(segments, s) + Lines(certs)];
      SegmentsHold(job, os, after) && (|os| == end ==> SegmentsExact(job, os, after))
  {
    hide CertLines, Lines, SegmentOf, BatchCerts, Extends, SegmentText;
    var n := |base|;
    var s := SegmentOf(job, n);
    var certs := BatchCerts(job, answers, n, end);
    var after := if certs == [] then segments else segments[s := Content(segments, s) + Lines(certs)];
    ExtendsBase(job, answers, base, os);
    SegmentIs(job, n);
    SegmentEndsBehind(job, n);
    CurrentContent(job, base, segments);
    SegmentInBatch(job, answers, base, os, end);
    EmptyLines(certs);
    forall i: nat | i < |os|
      ensures SegmentHolds(job, os, after, i)
        && (|os| == end ==> Content(after, SegmentOf(job, i)) == SegmentText(os, SegmentOf(job, i)))
    {
      if i < s.begin {
        InsideOwn(job, i, n);
        SegmentTextStays(base, os, SegmentOf(job, i));
        assert Content(segments, SegmentOf(job, i)) == SegmentText(base, SegmentOf(job, i));
      } else {
        SameSegment(job, n, i);
      }
    }
    assert Proper(job, s);
  }

  lemma InsideOwn(job: Job, i: nat, n: nat)
    requires job.Valid() && i < n < job.Count() && i < SegmentOf(job, n).begin
    ensures SegmentOf(job, i) != SegmentOf(job, n) && SegmentOf(job, i).end <= SegmentOf(job, n).begin
  {
    OtherSegment(job, i, n);
  }

  lemma ExtendsBase(job: Job, answers: nat -> Answers, base: seq<Outcome>, os: seq<Outcome>)
    requires |job.factors| == job.Count() && Extends(job, answers, base, os)
    ensures base <= os && |os| <= job.Count()
  {
  }

  lemma EmptyLines(lines: seq<string>)
    ensures lines == [] ==> Lines(lines) == ""
  {
  }

  lemma SegmentInBatch(job: Job, answers: nat -> Answers, base: seq<Outcome>, os: seq<Outcome>, end: nat)
    requires job.Valid() && Extends(job, answers, base, os) && |os| <= end && WithinSegment(job, |base|, end)
    ensures var s := SegmentOf(job, |base|); var all :=
      CertText(base, s.begin) + Lines(BatchCerts(job, answers, |base|, end));
      SegmentText(os, s) <= all && (|os| == end ==> SegmentText(os, s) == all)
  {
    hide CertLines, SegmentOf, BatchCerts, Lines;
    var s := SegmentOf(job, |base|);
    SegmentIs(job, |base|);
    ExtendedCerts(job, answers, base, os, s.begin);
    BatchCertsGrow(job, answers, |base|, |os|, end);
    var a, b := BatchCerts(job, answers, |base|, |os|), BatchCerts(job, answers, |base|, end);
    assert b == a + b[|a|..];
    LinesAppend(a, b[|a|..]);
    LinesAppend(CertLines(base, s.begin), a);
    assert os[..|os|] == os;
  }
}
