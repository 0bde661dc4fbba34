/** The checkpoint of a search: its payload text and the exact reader of it
    (src/mvp/search_pipeline.cpp). */
module SearchCheckpoint {
  import opened MachineArithmetic
  import opened Decimal
  import TextSearch
  import opened EvidenceRecords
  import opened EvidenceLog
  import opened Hexadecimal
  import opened Wrappers

  datatype ProgressPayload = ProgressPayload(
    configurationSha256: string, evidenceBytes: nat, evidenceSha256: string, resultsBytes: nat, resultsSha256: string)

  function ConfigurationMarker(): string { "configuration_sha256=" }
  function EvidenceBytesMarker(): string { ";flint_evidence_bytes=" }
  function EvidenceDigestMarker(): string { ";flint_evidence_sha256=" }
  function ResultsBytesMarker(): string { ";results_bytes=" }
  function ResultsDigestMarker(): string { ";results_sha256=" }
  function Schema(): string { ";schema=primeforge.mvp.checkpoint.v2" }

  predicate IsSeparator(s: string) {
    s != "" && s[0] == ';'
  }

  lemma Separators()
    ensures IsSeparator(EvidenceBytesMarker()) && IsSeparator(EvidenceDigestMarker())
      && IsSeparator(ResultsBytesMarker())
    ensures IsSeparator(ResultsDigestMarker())
  {
  }

  predicate NoSemicolon(s: string) {
    forall i :: 0 <= i < |s| ==> s[i] != ';'
  }

  function Text4(p: ProgressPayload): string {
    p.resultsSha256 + Schema()
  }

  function Text3(p: ProgressPayload): string {
    ToDecimal(p.resultsBytes) + (ResultsDigestMarker() + Text4(p))
  }

  function Text2(p: ProgressPayload): string {
    p.evidenceSha256 + (ResultsBytesMarker() + Text3(p))
  }

  function Text1(p: ProgressPayload): string {
    ToDecimal(p.evidenceBytes) + (EvidenceDigestMarker() + Text2(p))
  }

  /** progress_payload */
  function ProgressText(p: ProgressPayload): string {
    ConfigurationMarker() + (p.configurationSha256 + (EvidenceBytesMarker() + Text1(p)))
  }

  datatype Cut = Cut(value: string, remaining: string)

  /** One search for a marker and the text before it. */
  function CutAt(remaining: string, marker: string): Option<Cut> {
    match TextSearch.FindText(remaining, marker, 0)
    case None => None
    case Some(p) => Some(Cut(remaining[..p], remaining[p + |marker|..]))
  }

  lemma CutBack(value: string, marker: string, rest: string)
    requires NoSemicolon(value) && IsSeparator(marker)
    ensures CutAt(value + (marker + rest), marker) == Some(Cut(value, rest))
  {
    TextSearch.FoundBehind(value, marker, rest);
    var s := value + (marker + rest);
    assert s[..|value|] == value && s[|value| + |marker|..] == rest;
  }

  datatype Pieces = Pieces(configuration: string, evidenceBytes: string, evidence: string, resultsBytes: string,
    results: string)

  /** The searches of parse_progress_payload, in their order. */
  function CutPayload(payload: string): Option<Pieces> {
    if !TextSearch.StartsWith(payload, ConfigurationMarker()) || !TextSearch.EndsWith(payload, Schema()) then None
    else match CutAt(payload[|ConfigurationMarker()|..], EvidenceBytesMarker())
    case None => None
    case Some(a) =>
      match CutAt(a.remaining, EvidenceDigestMarker())
      case None => None
      case Some(b) =>
        match CutAt(b.remaining, ResultsBytesMarker())
        case None => None
        case Some(c) =>
          match CutAt(c.remaining, ResultsDigestMarker())
          case None => None
          case Some(d) => Some(Pieces(a.value, b.value, c.value, d.value, WithoutSchema(d.remaining)))
  }

  function WithoutSchema(s: string): string {
    if |s| < |Schema()| then s else s[..|s| - |Schema()|]
  }

  /** parse_progress_payload */
  function ParseProgress(payload: string): Result<ProgressPayload, Exception> {
    match CutPayload(payload)
    case None => Err(RuntimeError)
    case Some(pieces) =>
      match (ParseCanonicalU64(pieces.evidenceBytes), ParseCanonicalU64(pieces.resultsBytes))
      case (Some(evidenceBytes), Some(resultsBytes)) =>
        var p := ProgressPayload(pieces.configuration, evidenceBytes, pieces.evidence, resultsBytes, pieces.results);
        if !CanonicalDigest(p.configurationSha256) || !CanonicalDigest(p.evidenceSha256)
          || !CanonicalDigest(p.resultsSha256)
          || ProgressText(p) != payload
        then Err(RuntimeError) else Ok(p)
      case _ => Err(RuntimeError)
  }

  predicate PayloadValid(p: ProgressPayload) {
    && CanonicalDigest(p.configurationSha256) && CanonicalDigest(p.evidenceSha256) && CanonicalDigest(p.resultsSha256)
    && p.evidenceBytes <= MAX_U64 && p.resultsBytes <= MAX_U64
  }

  lemma DigestNoSemicolon(s: string)
    requires CanonicalDigest(s)
    ensures NoSemicolon(s)
  {
  }

  lemma DecimalNoSemicolon(n: nat)
    ensures NoSemicolon(ToDecimal(n))
  {
  }

  lemma EndsInSchema(p: ProgressPayload)
    ensures TextSearch.EndsWith(ProgressText(p), Schema()) && WithoutSchema(Text4(p)) == p.resultsSha256
  {
    hide ToDecimal, ConfigurationMarker, EvidenceBytesMarker, EvidenceDigestMarker, ResultsBytesMarker,
      ResultsDigestMarker, Schema;
    assert TextSearch.EndsWith(Text4(p), Schema());
    assert Text4(p)[..|Text4(p)| - |Schema()|] == p.resultsSha256;
    hide TextSearch.EndsWith;
    TextSearch.EndsBehind(ResultsDigestMarker(), Text4(p), Schema());
    TextSearch.EndsBehind(ToDecimal(p.resultsBytes), ResultsDigestMarker() + Text4(p), Schema());
    TextSearch.EndsBehind(ResultsBytesMarker(), Text3(p), Schema());
    TextSearch.EndsBehind(p.evidenceSha256, ResultsBytesMarker() + Text3(p), Schema());
    TextSearch.EndsBehind(EvidenceDigestMarker(), Text2(p), Schema());
    TextSearch.EndsBehind(ToDecimal(p.evidenceBytes), EvidenceDigestMarker() + Text2(p), Schema());
    TextSearch.EndsBehind(EvidenceBytesMarker(), Text1(p), Schema());
    TextSearch.EndsBehind(p.configurationSha256, EvidenceBytesMarker() + Text1(p), Schema());
    TextSearch.EndsBehind(ConfigurationMarker(), p.configurationSha256 + (EvidenceBytesMarker() + Text1(p)), Schema());
  }

  lemma CutWritten(p: ProgressPayload)
    requires PayloadValid(p)
    ensures CutPayload(ProgressText(p)) ==
      Some(Pieces(p.configurationSha256, ToDecimal(p.evidenceBytes), p.evidenceSha256, ToDecimal(p.resultsBytes),
        p.resultsSha256))
  {
    hide ToDecimal, ConfigurationMarker, EvidenceBytesMarker, EvidenceDigestMarker, ResultsBytesMarker,
      ResultsDigestMarker, Schema,
      CanonicalDigest, NoSemicolon, CutAt, WithoutSchema, IsSeparator;
    Separators();
    DigestNoSemicolon(p.configurationSha256);
    DigestNoSemicolon(p.evidenceSha256);
    DecimalNoSemicolon(p.evidenceBytes);
    DecimalNoSemicolon(p.resultsBytes);
    EndsInSchema(p);
    TextSearch.OccursInFrontOf(ConfigurationMarker(), p.configurationSha256 + (EvidenceBytesMarker() + Text1(p)));
    hide TextSearch.EndsWith, TextSearch.StartsWith, Text1, Text2, Text3, Text4;
    Chain(p);
  }

  lemma Chain(p: ProgressPayload)
    requires NoSemicolon(p.configurationSha256) && NoSemicolon(p.evidenceSha256)
    requires NoSemicolon(ToDecimal(p.evidenceBytes)) && NoSemicolon(ToDecimal(p.resultsBytes))
    ensures CutAt(p.configurationSha256 + (EvidenceBytesMarker() + Text1(p)), EvidenceBytesMarker()) ==
      Some(Cut(p.configurationSha256, Text1(p)))
    ensures CutAt(Text1(p), EvidenceDigestMarker()) == Some(Cut(ToDecimal(p.evidenceBytes), Text2(p)))
    ensures CutAt(Text2(p), ResultsBytesMarker()) == Some(Cut(p.evidenceSha256, Text3(p)))
    ensures CutAt(Text3(p), ResultsDigestMarker()) == Some(Cut(ToDecimal(p.resultsBytes), Text4(p)))
  {
    hide ToDecimal, ConfigurationMarker, EvidenceBytesMarker, EvidenceDigestMarker, ResultsBytesMarker,
      ResultsDigestMarker, Schema,
      NoSemicolon, CutAt, IsSeparator;
    Separators();
    CutBack(p.configurationSha256, EvidenceBytesMarker(), Text1(p));
    CutBack(ToDecimal(p.evidenceBytes), EvidenceDigestMarker(), Text2(p));
    CutBack(p.evidenceSha256, ResultsBytesMarker(), Text3(p));
    CutBack(ToDecimal(p.resultsBytes), ResultsDigestMarker(), Text4(p));
  }

  /** The reader accepts exactly the texts of valid payloads, each as that payload. */
  lemma ProgressExact(payload: string, p: ProgressPayload)
    ensures ParseProgress(payload) == Ok(p) <==> PayloadValid(p) && payload == ProgressText(p)
  {
    hide ProgressText, CutPayload, ToDecimal, ParseCanonicalU64, CanonicalDigest;
    if PayloadValid(p) && payload == ProgressText(p) {
      CutWritten(p);
      ParseToDecimal(p.evidenceBytes);
      ParseToDecimal(p.resultsBytes);
    }
  }
}
