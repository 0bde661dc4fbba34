/** What a search writes for its candidates: the result lines, the evidence records and
    the certificates, all determined by the outcomes so far (src/mvp/search_pipeline.cpp). */
module SearchLedger {
  import opened MachineArithmetic
  import opened Decimal
  import opened DelimitedText
  import opened JsonLines
  import opened SearchRecords
  import opened SearchScan
  import opened SearchLines
  import opened EvidenceRecords
  import opened EvidenceLog
  import opened Hexadecimal
  import opened Wrappers

  datatype Candidate = Candidate(k: nat, n: nat, value: nat)

  /** A certificate file and the candidates it is for. */
  datatype Segment = Segment(begin: nat, end: nat)

  /** The campaign is named after its configuration. */
  function CampaignOf(configurationSha256: string): string {
    "sha256:" + configurationSha256
  }

  /** The fixed part of a campaign: its candidates with their work units and the sieve's
      factor witnesses (0 for none), and the checkpoint interval. */
  datatype Job = Job(
    campaignId: string, configurationSha256: string, certificateFormat: string, candidates: seq<Candidate>,
    owners: seq<string>, factors: seq<nat>, interval: nat, sha256: string -> string)
  {
    ghost predicate Valid() {
      && interval > 0 && |owners| == |candidates| == |factors| <= MAX_U64
      && campaignId == CampaignOf(configurationSha256) && CanonicalDigest(configurationSha256) && Hashes(sha256)
    }

    function Count(): nat {
      |candidates|
    }
  }

  /** Raw output of the independent engine, kept in the evidence log. */
  datatype Flint = Flint(engineId: string, executableSha256: string, stdout: seq<byte>, stderr: seq<byte>)

  /** Captured files of the fallback proof engine. */
  datatype Captured = Captured(
    artifactPath: string, artifactSha256: string, engineId: string, executableSha256: string, stderrPath: string,
      stdoutPath: string)

  /** How a candidate was classified. */
  datatype Outcome =
    | SieveFactor(factor: nat)
    | Base2
    | Certified(certificate: string, flint: Flint)
    | ByPari(prime: bool, primary: Captured, flint: Flint)

  function FlintOf(o: Outcome): Option<Flint> {
    match o
    case Certified(_, flint) => Some(flint)
    case ByPari(_, _, flint) => Some(flint)
    case _ => None
  }

  // ----- the evidence log

  function Bytes(s: string): seq<byte> {
    seq(|s|, i requires 0 <= i < |s| => s[i] as int % 256)
  }

  function FlintJob(): string { "flint-" }

  /** make_flint_evidence_record */
  function EvidenceRecordOf(job: Job, i: nat, flint: Flint): EvidenceRecord
    requires i < job.Count()
  {
    EvidenceRecord(Bytes(FlintJob() + ToDecimal(i)), Bytes(ToDecimal(job.candidates[i].value)), flint.stdout,
      flint.stderr)
  }

  function Evidence(job: Job, os: seq<Outcome>): seq<EvidenceRecord>
    requires |os| <= job.Count()
  {
    if os == [] then []
    else
      var n := |os| - 1;
      match FlintOf(os[n])
      case None => Evidence(job, os[..n])
      case Some(flint) => Evidence(job, os[..n]) + [EvidenceRecordOf(job, n, flint)]
  }

  function EvidenceText(job: Job, os: seq<Outcome>): string
    requires |os| <= job.Count()
  {
    RecordsText(Evidence(job, os))
  }

  // ----- the certificates

  function SegmentBegin(job: Job, i: nat): (b: nat)
    requires job.interval > 0
    ensures b <= i
  {
    i - i % job.interval
  }

  function SegmentOf(job: Job, i: nat): (s: Segment)
    requires job.interval > 0
    ensures s.begin <= i && (i < job.Count() ==> i < s.end <= job.Count())
  {
    var begin := SegmentBegin(job, i);
    Segment(begin, if job.Count() < begin + job.interval then job.Count() else begin + job.interval)
  }

  /** The certificates from a candidate on. */
  function CertLines(os: seq<Outcome>, begin: nat): seq<string> {
    if |os| <= begin then []
    else
      var n := |os| - 1;
      CertLines(os[..n], begin) + if os[n].Certified? then [os[n].certificate] else []
  }

  function CertText(os: seq<Outcome>, begin: nat): string {
    Lines(CertLines(os, begin))
  }

  // ----- the result lines

  function JournalEvidence(flint: Flint, slice: Slice): EngineEvidence {
    EngineEvidence("", "", flint.engineId, flint.executableSha256, Some(slice.length), Some(slice.offset),
      JournalPath(), "", "")
  }

  function CapturedEvidence(c: Captured): EngineEvidence {
    EngineEvidence(c.artifactPath, c.artifactSha256, c.engineId, c.executableSha256, None, None, "", c.stderrPath,
      c.stdoutPath)
  }

  function CertificateEvidence(job: Job, i: nat, certificate: string, offset: nat): NativeEvidence
    requires job.interval > 0
  {
    var s := SegmentOf(job, i);
    NativeEvidence(|certificate|, offset, SegmentPath(s.begin, s.end), job.sha256(certificate), job.certificateFormat)
  }

  /** The record of a candidate, for the places of its evidence and certificate. */
  function RecordOf(job: Job, i: nat, o: Outcome, slice: Slice, certificateOffset: nat): SearchRecord
    requires i < job.Count() && |job.owners| == job.Count() && job.interval > 0
  {
    var c := job.candidates[i];
    var independent := match FlintOf(o) case None => None case Some(flint) => Some(JournalEvidence(flint, slice));
    match o
    case SieveFactor(factor) =>
      SearchRecord(job.campaignId, CongruenceFactor, Some(factor), i, None, c.k, c.n, None, CompositeNumber, None,
                   NotRun, c.value, SelfVerified, job.owners[i])
    case Base2 =>
      SearchRecord(job.campaignId, Base2StrongWitness, None, i, None, c.k, c.n, None, CompositeNumber, None,
                   Failed, c.value, SelfVerified, job.owners[i])
    case Certified(certificate, _) =>
      SearchRecord(job.campaignId, ProthCertificateValidated, None, i, independent, c.k, c.n,
                   Some(CertificateEvidence(job, i, certificate, certificateOffset)), ProvenPrime, None,
                   Passed, c.value, IndependentlyVerified, job.owners[i])
    case ByPari(prime, primary, _) =>
      SearchRecord(job.campaignId, if prime then PariPrimecertValidated
        else PariComposite, None, i, independent, c.k, c.n,
                   None, if prime then ProvenPrime else CompositeNumber, Some(CapturedEvidence(primary)),
                   Passed, c.value, IndependentlyVerified, job.owners[i])
  }

  /** The slice of candidate i's evidence: behind the evidence of the candidates before. */
  function EvidenceSlice(job: Job, os: seq<Outcome>, i: nat): Slice
    requires i < |os| <= job.Count()
  {
    var offset := |EvidenceText(job, os[..i])|;
    match FlintOf(os[i])
    case None => Slice(offset, 0)
    case Some(flint) => Slice(offset, |RecordText(EvidenceRecordOf(job, i, flint))|)
  }

  function RecordAt(job: Job, os: seq<Outcome>, i: nat): SearchRecord
    requires i < |os| <= job.Count() && |job.owners| == job.Count() && job.interval > 0
  {
    RecordOf(job, i, os[i], EvidenceSlice(job, os, i), |CertText(os[..i], SegmentBegin(job, i))|)
  }

  function ResultLines(job: Job, os: seq<Outcome>): (lines: seq<string>)
    requires |os| <= job.Count() && |job.owners| == job.Count() && job.interval > 0
    ensures |lines| == |os|
  {
    if os == [] then []
    else ResultLines(job, os[..|os| - 1]) + [RecordLineText(RecordAt(job, os, |os| - 1))]
  }

  function ResultsText(job: Job, os: seq<Outcome>): string
    requires |os| <= job.Count() && |job.owners| == job.Count() && job.interval > 0
  {
    Lines(ResultLines(job, os))
  }

  // ----- one more outcome

  lemma EvidenceSnoc(job: Job, os: seq<Outcome>, o: Outcome)
    requires |os| < job.Count()
    ensures FlintOf(o).None? ==> Evidence(job, os + [o]) == Evidence(job, os)
    ensures FlintOf(o).Some? ==>
      Evidence(job, os + [o]) == Evidence(job, os) + [EvidenceRecordOf(job, |os|, FlintOf(o).value)]
  {
    hide EvidenceRecordOf, FlintOf;
    assert (os + [o])[..|os|] == os;
  }

  lemma CertSnoc(os: seq<Outcome>, o: Outcome, begin: nat)
    requires begin <= |os|
    ensures CertLines(os + [o], begin) == CertLines(os, begin) + if o.Certified? then [o.certificate] else []
  {
    assert (os + [o])[..|os|] == os;
  }

  lemma ResultSnoc(job: Job, os: seq<Outcome>, o: Outcome)
    requires |os| < job.Count() && |job.owners| == job.Count() && job.interval > 0
    ensures ResultLines(job, os + [o]) == ResultLines(job, os) + [RecordLineText(RecordAt(job, os + [o], |os|))]
  {
    hide RecordLineText, RecordAt;
    assert (os + [o])[..|os|] == os;
  }

  // ----- outcomes only grow

  lemma {:induction false} EvidenceGrows(job: Job, os: seq<Outcome>, n: nat)
    requires n <= |os| <= job.Count()
    ensures Evidence(job, os[..n]) <= Evidence(job, os)
    ensures EvidenceText(job, os[..n]) <= EvidenceText(job, os)
    decreases |os|
  {
    hide RecordsText, EvidenceRecordOf, FlintOf;
    if n == |os| {
      assert os[..n] == os;
    } else {
      var shorter := os[..|os| - 1];
      EvidenceGrows(job, shorter, n);
      assert shorter[..n] == os[..n];
      var a, b := Evidence(job, shorter), Evidence(job, os);
      RecordsAppend(a, b[|a|..]);
      assert b == a + b[|a|..];
    }
  }

  lemma {:induction false} CertGrows(os: seq<Outcome>, n: nat, begin: nat)
    requires n <= |os|
    ensures CertLines(os[..n], begin) <= CertLines(os, begin)
    ensures CertText(os[..n], begin) <= CertText(os, begin)
    decreases |os|
  {
    hide Lines;
    if n == |os| {
      assert os[..n] == os;
    } else {
      var shorter := os[..|os| - 1];
      CertGrows(shorter, n, begin);
      assert shorter[..n] == os[..n];
      var a, b := CertLines(shorter, begin), CertLines(os, begin);
      assert |os| <= begin ==> a == [] && b == [];
      LinesAppend(a, b[|a|..]);
      assert b == a + b[|a|..];
    }
  }

  lemma RecordStays(job: Job, os: seq<Outcome>, n: nat, i: nat)
    requires i < n <= |os| <= job.Count() && |job.owners| == job.Count() && job.interval > 0
    ensures RecordAt(job, os[..n], i) == RecordAt(job, os, i)
  {
    assert os[..n][..i] == os[..i];
  }

  lemma {:induction false} ResultLineAt(job: Job, os: seq<Outcome>, i: nat)
    requires i < |os| <= job.Count() && |job.owners| == job.Count() && job.interval > 0
    ensures ResultLines(job, os)[i] == RecordLineText(RecordAt(job, os, i))
    decreases |os|
  {
    hide RecordAt, RecordLineText;
    if i < |os| - 1 {
      ResultLineAt(job, os[..|os| - 1], i);
      RecordStays(job, os, |os| - 1, i);
    }
  }

  lemma {:induction false} ResultsGrow(job: Job, os: seq<Outcome>, n: nat)
    requires n <= |os| <= job.Count() && |job.owners| == job.Count() && job.interval > 0
    ensures ResultLines(job, os[..n]) <= ResultLines(job, os)
    ensures ResultsText(job, os[..n]) <= ResultsText(job, os)
    decreases |os|
  {
    hide Lines, RecordAt, RecordLineText;
    if n == |os| {
      assert os[..n] == os;
    } else {
      var shorter := os[..|os| - 1];
      ResultsGrow(job, shorter, n);
      assert shorter[..n] == os[..n];
      var a, b := ResultLines(job, shorter), ResultLines(job, os);
      LinesAppend(a, b[|a|..]);
      assert b == a + b[|a|..];
    }
  }
}
