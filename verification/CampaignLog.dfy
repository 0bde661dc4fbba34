/** The append-only result log of a native batch campaign: its rows, their text and
    the strict reader (src/discovery/native_b8_campaign.cpp). */
module CampaignLog {
  import opened MachineArithmetic
  import opened Decimal
  import opened DelimitedText
  import opened TextSearch
  import opened Wrappers

  datatype Candidate = Candidate(k: u32, n: u32)

  datatype CandidateResult = CandidateResult(
    laneId: u64, candidate: Candidate, classification: string, witnessBase: u32, res64: string,
    validationStatus: string, candidateResultHash: string)

  datatype StoredResult = StoredResult(
    campaignId: string, batchId: u64, orderedCandidateHash: string, batchSize: u64, result: CandidateResult,
    engineHash: string, startUtc: string, terminalStatus: string, batchResultHash: string)

  /** The identity of a campaign and its batch size. */
  datatype CampaignConfig = CampaignConfig(
    campaignId: string, parentCampaignId: string, engineCommit: string,
    engineBinarySha256: string, survivorListSha256: string, batchSize: u32)

  const MAX_BATCH_SIZE: u32 := 32

  /** What the log's text depends on: SHA-256 as lowercase hexadecimal text, an unknown
      function into clean text, and the header line, which may be any line. */
  datatype LogFormat = LogFormat(sha256: string -> string, header: string) {
    ghost predicate Valid() {
      && header != "" && header[|header| - 1] == '\n'
      && forall s: string {:trigger sha256(s)} :: Clean(sha256(s))
    }
  }

  // ----- rows

  function RowFields(s: StoredResult): (fields: seq<string>)
    ensures |fields| == 16
  {
    var r := s.result;
    [s.campaignId, ToDecimal(s.batchId), s.orderedCandidateHash, ToDecimal(s.batchSize), ToDecimal(r.laneId),
     ToDecimal(r.candidate.k), ToDecimal(r.candidate.n), s.engineHash, s.startUtc, s.terminalStatus,
     r.classification, ToDecimal(r.witnessBase), r.res64, r.validationStatus, r.candidateResultHash, s.batchResultHash]
  }

  function RowText(s: StoredResult): string {
    Join(RowFields(s), '\t')
  }

  function RowTexts(rows: seq<StoredResult>): (lines: seq<string>)
    ensures |lines| == |rows|
  {
    seq(|rows|, i requires 0 <= i < |rows| => RowText(rows[i]))
  }

  /** serialize_result_rows */
  method SerializeResultRows(rows: seq<StoredResult>) returns (content: string)
    ensures content == Lines(RowTexts(rows))
  {
    hide RowText;
    content := "";
    var i := 0;
    while i < |rows|
      invariant 0 <= i <= |rows| && content == Lines(RowTexts(rows[..i]))
    {
      assert RowTexts(rows[..i + 1]) == RowTexts(rows[..i]) + [RowText(rows[i])];
      LinesAppend(RowTexts(rows[..i]), [RowText(rows[i])]);
      assert Lines([RowText(rows[i])]) == RowText(rows[i]) + ['\n'];
      content := content + (RowText(rows[i]) + ['\n']);
      i := i + 1;
    }
    assert rows[..i] == rows;
  }

  function LogText(fmt: LogFormat, rows: seq<StoredResult>): string {
    fmt.header + Lines(RowTexts(rows))
  }

  /** result_hash_input */
  function ResultHashInput(campaignId: string, batchId: u64, r: CandidateResult): string {
    campaignId + "\t" + ToDecimal(batchId) + "\t" + ToDecimal(r.laneId) + "\t" + ToDecimal(r.candidate.k) + "\t"
    + ToDecimal(r.candidate.n) + "\t" + r.classification + "\t" + ToDecimal(r.witnessBase) + "\t" + r.res64 + "\t"
    + r.validationStatus + "\n"
  }

  // ----- the reader

  function ParseU32(s: string): Option<u32> {
    match ParseU64(s)
    case None => None
    case Some(v) => if v < 0x1_0000_0000 then Some(v) else None
  }

  /** The identity and verdict checks on one row. */
  predicate RowAccepted(cfg: CampaignConfig, fmt: LogFormat, s: StoredResult) {
    && s.campaignId == cfg.campaignId && s.engineHash == cfg.engineBinarySha256
    && 0 < s.batchSize <= cfg.batchSize && s.result.laneId < s.batchSize
    && VerdictAccepted(s.result)
    && s.result.candidateResultHash == fmt.sha256(ResultHashInput(cfg.campaignId, s.batchId, s.result))
  }

  predicate VerdictAccepted(r: CandidateResult) {
    VerdictTexts(r.classification, r.res64, r.validationStatus)
  }

  /** The fields of a line as a row. */
  function RowOfFields(f: seq<string>): Option<StoredResult>
    requires |f| == 16
  {
    var batchId, batchSize, laneId := ParseU64(f[1]), ParseU64(f[3]), ParseU64(f[4]);
    var k, n, witnessBase := ParseU32(f[5]), ParseU32(f[6]), ParseU32(f[11]);
    if batchId.None? || batchSize.None? || laneId.None? || k.None? || n.None? || witnessBase.None? then None
    else
      Some(StoredResult(f[0], batchId.value, f[2], batchSize.value,
        CandidateResult(laneId.value, Candidate(k.value, n.value), f[10], witnessBase.value, f[12], f[13], f[14]),
        f[7], f[8], f[9], f[15]))
  }

  function ParseRow(cfg: CampaignConfig, fmt: LogFormat, line: string): Option<StoredResult> {
    var fields := Split(line, '\t');
    if |fields| != 16 then None
    else
      match RowOfFields(fields)
      case None => None
      case Some(row) => if RowAccepted(cfg, fmt, row) then Some(row) else None
  }

  /** The texts a row has from the campaign itself can be written and read back. */
  ghost predicate OwnTexts(s: StoredResult) {
    && Clean(s.campaignId) && Clean(s.orderedCandidateHash) && Clean(s.engineHash) && Clean(s.startUtc)
    && Clean(s.terminalStatus) && Clean(s.result.candidateResultHash) && Clean(s.batchResultHash)
  }

  /** Every text of the row can be. */
  ghost predicate RowClean(s: StoredResult) {
    OwnTexts(s) && Clean(s.result.classification) && Clean(s.result.res64) && Clean(s.result.validationStatus)
  }

  /** The fields a row has from the engine, as they stand in it. */
  function AnswerFields(r: CandidateResult): (fields: seq<string>)
    ensures |fields| == 4
  {
    [r.classification, ToDecimal(r.witnessBase), r.res64, r.validationStatus]
  }

  function AnswerText(r: CandidateResult): string {
    Join(AnswerFields(r), '\t')
  }

  predicate VerdictTexts(classification: string, res64: string, validationStatus: string) {
    (classification == "COMPOSITE" || classification == "PROVEN_PRIME") && validationStatus == "GERBICZ_PASS"
      && |res64| == 16
  }

  /** The row in front of the first line break of an answer, when the answer breaks its line
      behind six fields: they stand where a verdict and two hashes are expected. */
  function CutRow(s: StoredResult): Option<StoredResult> {
    var line := FirstLine(AnswerText(s.result));
    var f := Split(line, '\t');
    if line == AnswerText(s.result) || |f| != 6 || ParseU32(f[1]).None? then None
    else
      Some(s.(result := s.result.(classification := f[0], witnessBase := ParseU32(f[1]).value, res64 := f[2],
        validationStatus := f[3], candidateResultHash := f[4]), batchResultHash := f[5]))
  }

  /** An answer with a row of its own that passes the reader's tests: a verdict the log
      knows, a number as witness, and in front of the line break the hash of that row. */
  predicate Forged(cfg: CampaignConfig, fmt: LogFormat, s: StoredResult) {
    CutRow(s).Some? && RowAccepted(cfg, fmt, CutRow(s).value)
  }

  /** What a restart can read of an engine's answer. */
  predicate Readable(r: CandidateResult) {
    VerdictAccepted(r) && Clean(r.res64)
  }

  lemma ParseU32Of(n: u32)
    ensures ParseU32(ToDecimal(n)) == Some(n) && ParseU64(ToDecimal(n)) == Some(n)
  {
    ParseToDecimal(n);
  }

  lemma FieldsClean(s: StoredResult)
    requires RowClean(s)
    ensures forall i :: 0 <= i < 16 ==> Clean(RowFields(s)[i])
  {
    DecimalClean(s.batchId);
    DecimalClean(s.batchSize);
    DecimalClean(s.result.laneId);
    DecimalClean(s.result.candidate.k);
    DecimalClean(s.result.candidate.n);
    DecimalClean(s.result.witnessBase);
  }

  lemma FieldsRoundTrip(s: StoredResult)
    ensures RowOfFields(RowFields(s)) == Some(s)
  {
    ParseToDecimal(s.batchId);
    ParseToDecimal(s.batchSize);
    ParseToDecimal(s.result.laneId);
    ParseU32Of(s.result.candidate.k);
    ParseU32Of(s.result.candidate.n);
    ParseU32Of(s.result.witnessBase);
  }

  lemma ParseCleanRow(cfg: CampaignConfig, fmt: LogFormat, s: StoredResult)
    requires RowClean(s)
    ensures ParseRow(cfg, fmt, RowText(s)) == if RowAccepted(cfg, fmt, s) then Some(s) else None
    ensures Without(RowText(s), '\n')
  {
    FieldsClean(s);
    SplitJoin(RowFields(s), '\t');
    JoinWithout(RowFields(s), '\t', '\n');
    FieldsRoundTrip(s);
  }

  function FrontFields(s: StoredResult): (fields: seq<string>)
    ensures |fields| == 10
  {
    [s.campaignId, ToDecimal(s.batchId), s.orderedCandidateHash, ToDecimal(s.batchSize), ToDecimal(s.result.laneId),
     ToDecimal(s.result.candidate.k), ToDecimal(s.result.candidate.n), s.engineHash, s.startUtc, s.terminalStatus]
  }

  function HashFields(s: StoredResult): (fields: seq<string>)
    ensures |fields| == 2
  {
    [s.result.candidateResultHash, s.batchResultHash]
  }

  /** The campaign's fields, the engine's, and the two hashes. */
  lemma RowParts(s: StoredResult)
    ensures RowText(s) ==
      Join(FrontFields(s), '\t') + (['\t'] + (AnswerText(s.result) + (['\t'] + Join(HashFields(s), '\t'))))
  {
    hide ToDecimal, Join;
    assert RowFields(s) == FrontFields(s) + (AnswerFields(s.result) + HashFields(s));
    hide RowFields, FrontFields, AnswerFields, HashFields;
    JoinAppend(AnswerFields(s.result), HashFields(s), '\t');
    JoinAppend(FrontFields(s), AnswerFields(s.result) + HashFields(s), '\t');
    assert RowText(s) == Join(FrontFields(s) + (AnswerFields(s.result) + HashFields(s)), '\t') by {
      RowFieldsSplit(s);
    }
  }

  lemma RowFieldsSplit(s: StoredResult)
    ensures RowFields(s) == FrontFields(s) + (AnswerFields(s.result) + HashFields(s))
  {
    hide ToDecimal;
  }

  lemma OwnFieldsClean(s: StoredResult)
    requires OwnTexts(s)
    ensures forall i :: 0 <= i < 10 ==> Clean(FrontFields(s)[i])
    ensures forall i :: 0 <= i < 2 ==> Clean(HashFields(s)[i])
  {
    DecimalClean(s.batchId);
    DecimalClean(s.batchSize);
    DecimalClean(s.result.laneId);
    DecimalClean(s.result.candidate.k);
    DecimalClean(s.result.candidate.n);
  }

  /** Behind a row's own fields, six more are read as its answer and its hashes. */
  lemma ReadBehindFront(cfg: CampaignConfig, fmt: LogFormat, s: StoredResult, line: string, g: seq<string>)
    requires Split(line, '\t') == FrontFields(s) + g
    ensures |g| != 6 || ParseU32(g[1]).None? ==> ParseRow(cfg, fmt, line) == None
    ensures |g| == 6 && ParseU32(g[1]).Some? ==>
      var cut := s.(result := s.result.(classification := g[0], witnessBase := ParseU32(g[1]).value, res64 := g[2],
        validationStatus := g[3], candidateResultHash := g[4]), batchResultHash := g[5]);
      ParseRow(cfg, fmt, line) == if RowAccepted(cfg, fmt, cut) then Some(cut) else None
  {
    hide Split, ToDecimal, ParseU64, ParseU32, RowAccepted;
    ParseToDecimal(s.batchId);
    ParseToDecimal(s.batchSize);
    ParseToDecimal(s.result.laneId);
    ParseU32Of(s.result.candidate.k);
    ParseU32Of(s.result.candidate.n);
  }

  /** A row that a line break of the engine's cuts: its first line is read exactly when the
      answer is a forgery, and then as the row the engine made up. */
  lemma ParseCutRow(cfg: CampaignConfig, fmt: LogFormat, s: StoredResult)
    requires OwnTexts(s) && !Without(AnswerText(s.result), '\n')
    ensures ParseRow(cfg, fmt, FirstLine(RowText(s))) == if Forged(cfg, fmt, s) then CutRow(s) else None
    ensures FirstLine(RowText(s)) != "" && FirstLine(RowText(s)) != RowText(s)
  {
    hide Join, Split, AnswerText, RowText, FrontFields, HashFields, RowAccepted, OwnTexts, ParseRow, ParseU32;
    var front, answer, rest := Join(FrontFields(s), '\t'), AnswerText(s.result), ['\t'] + Join(HashFields(s), '\t');
    RowParts(s);
    OwnFieldsClean(s);
    JoinWithout(FrontFields(s), '\t', '\n');
    assert RowText(s) == (front + ['\t']) + (answer + rest);
    FirstLineBehind(front + ['\t'], answer + rest);
    FirstLineOfCut(answer, rest);
    var line := FirstLine(answer);
    assert FirstLine(RowText(s)) == front + (['\t'] + line);
    SplitBehind(FrontFields(s), line, '\t');
    ReadBehindFront(cfg, fmt, s, FirstLine(RowText(s)), Split(line, '\t'));
  }

  lemma FirstLineOfCut(a: string, b: string)
    requires !Without(a, '\n')
    ensures FirstLine(a + b) == FirstLine(a) && FirstLine(a) != a
  {
    var i := |FirstLine(a)|;
    assert forall j :: 0 <= j < |a| ==> (a + b)[j] == a[j];
    assert i == |a| ==> Without(a, '\n');
    FindUnique(a + b, '\n', 0, i);
  }

  /** A tab in an engine's text makes a row too long. */
  lemma LongRowRefused(cfg: CampaignConfig, fmt: LogFormat, s: StoredResult)
    requires OwnTexts(s) && Without(AnswerText(s.result), '\n') && !RowClean(s)
    ensures ParseRow(cfg, fmt, RowText(s)) == None && Without(RowText(s), '\n')
  {
    hide Join, Split, AnswerText, FrontFields, HashFields, RowText, RowOfFields, RowAccepted;
    var front, answer, hashes := Join(FrontFields(s), '\t'), AnswerText(s.result), Join(HashFields(s), '\t');
    RowParts(s);
    OwnFieldsClean(s);
    JoinWithout(FrontFields(s), '\t', '\n');
    JoinWithout(HashFields(s), '\t', '\n');
    SplitBehind(FrontFields(s), answer + (['\t'] + hashes), '\t');
    SplitBoth(answer, hashes, '\t');
    SplitJoin(HashFields(s), '\t');
    AnswerCount(s.result);
    assert RowClean(s) <==> Clean(s.result.classification) && Clean(s.result.res64) && Clean(s.result.validationStatus);
  }

  /** An answer on one line has four fields exactly when none of its texts has a tab. */
  lemma AnswerCount(r: CandidateResult)
    requires Without(AnswerText(r), '\n')
    ensures |Split(AnswerText(r), '\t')| == 4 <==>
      Clean(r.classification) && Clean(r.res64) && Clean(r.validationStatus)
    ensures |Split(AnswerText(r), '\t')| >= 4
  {
    hide Split, Join, ToDecimal, AnswerText;
    var number := ToDecimal(r.witnessBase);
    var last := r.res64 + (['\t'] + r.validationStatus);
    AnswerParts(r);
    DecimalClean(r.witnessBase);
    PartsWithout(r.classification, number, r.res64, r.validationStatus);
    SplitBoth(r.classification, number + (['\t'] + last), '\t');
    SplitBoth(number, last, '\t');
    SplitBoth(r.res64, r.validationStatus, '\t');
    SplitNone(number, '\t');
    OneField(r.classification);
    OneField(r.res64);
    OneField(r.validationStatus);
  }

  lemma AnswerParts(r: CandidateResult)
    ensures AnswerText(r) ==
      r.classification + (['\t'] + (ToDecimal(r.witnessBase) + (['\t'] + (r.res64 + (['\t'] + r.validationStatus)))))
  {
    hide ToDecimal;
    var f := AnswerFields(r);
    JoinHead(f, '\t');
    JoinHead(f[1..], '\t');
    JoinHead(f[1..][1..], '\t');
    assert f[1..][1..][1..] == [r.validationStatus];
    hide Join;
    assert f[0] == r.classification && f[1..][0] == ToDecimal(r.witnessBase) && f[1..][1..][0] == r.res64;
    JoinOne(r.validationStatus);
  }

  lemma JoinOne(field: string)
    ensures Join([field], '\t') == field
  {
  }

  lemma PartsWithout(a: string, b: string, c: string, d: string)
    requires Without(a + (['\t'] + (b + (['\t'] + (c + (['\t'] + d))))), '\n')
    ensures Without(a, '\n') && Without(c, '\n') && Without(d, '\n')
  {
    var last := c + (['\t'] + d);
    var rest := b + (['\t'] + last);
    WithoutParts(a, ['\t'] + rest);
    WithoutParts(['\t'], rest);
    WithoutParts(b, ['\t'] + last);
    WithoutParts(['\t'], last);
    WithoutParts(c, ['\t'] + d);
    WithoutParts(['\t'], d);
  }

  lemma WithoutParts(a: string, b: string)
    requires Without(a + b, '\n')
    ensures Without(a, '\n') && Without(b, '\n')
  {
    assert forall i :: 0 <= i < |a| ==> a[i] == (a + b)[i];
    assert forall i :: 0 <= i < |b| ==> b[i] == (a + b)[|a| + i];
  }

  lemma OneField(s: string)
    ensures |Split(s, '\t')| >= 1 && (|Split(s, '\t')| == 1 <==> Without(s, '\t'))
  {
    if Without(s, '\t') {
      SplitNone(s, '\t');
    } else {
      SplitSome(s, '\t');
    }
  }

  /** The rows of a campaign that a reader takes. */
  predicate Taken(cfg: CampaignConfig, fmt: LogFormat, s: StoredResult) {
    RowAccepted(cfg, fmt, s) && Clean(s.result.res64)
  }

  /** What the first line of any written row is read as: the row exactly when its identity
      and verdict are accepted and its residue text is clean, another row exactly when the
      answer is a forgery, and otherwise nothing. */
  lemma ParseRowText(cfg: CampaignConfig, fmt: LogFormat, s: StoredResult)
    requires OwnTexts(s)
    ensures ParseRow(cfg, fmt, FirstLine(RowText(s))) ==
      if Taken(cfg, fmt, s) then Some(s) else if Forged(cfg, fmt, s) then CutRow(s) else None
    ensures Taken(cfg, fmt, s) ==> FirstLine(RowText(s)) == RowText(s) && !Forged(cfg, fmt, s)
    ensures Forged(cfg, fmt, s) ==> FirstLine(RowText(s)) != RowText(s)
    ensures FirstLine(RowText(s)) != ""
  {
    hide ParseRow, RowText, AnswerText, FirstLine, ResultHashInput, Split, ParseU32;
    if Taken(cfg, fmt, s) {
      VerdictClean(s.result);
    }
    if RowClean(s) {
      ParseCleanRow(cfg, fmt, s);
      CleanAnswerIsLine(s);
      RowNotEmpty(s);
    } else if Without(AnswerText(s.result), '\n') {
      LongRowRefused(cfg, fmt, s);
      RowNotEmpty(s);
    } else {
      ParseCutRow(cfg, fmt, s);
    }
  }

  lemma CleanAnswerIsLine(s: StoredResult)
    requires RowClean(s)
    ensures Without(AnswerText(s.result), '\n')
  {
    hide ToDecimal, Join;
    DecimalClean(s.result.witnessBase);
    JoinWithout(AnswerFields(s.result), '\t', '\n');
  }

  lemma VerdictClean(r: CandidateResult)
    requires VerdictAccepted(r)
    ensures Clean(r.classification) && Clean(r.validationStatus)
  {
    CleanVerdicts();
    hide Clean;
  }

  lemma CleanVerdicts()
    ensures Clean("COMPOSITE") && Clean("PROVEN_PRIME") && Clean("GERBICZ_PASS")
  {
  }

  lemma RowNotEmpty(s: StoredResult)
    ensures RowText(s) != ""
  {
    hide Join, FrontFields, HashFields, AnswerText, RowText;
    RowParts(s);
  }

  /** An answer with an accepted verdict is no forgery, whatever its residue text: a line
      break there leaves the text in front of it too short. */
  lemma AcceptedIsNoForgery(cfg: CampaignConfig, fmt: LogFormat, s: StoredResult)
    requires VerdictAccepted(s.result)
    ensures !Forged(cfg, fmt, s)
  {
    hide Split, AnswerText, ParseU32, ResultHashInput, FirstLine;
    CutResidueIsShort(s.result);
  }

  lemma CutResidueIsShort(r: CandidateResult)
    requires VerdictAccepted(r)
    ensures var line := FirstLine(AnswerText(r));
      line == AnswerText(r) || |Split(line, '\t')| < 3 || |Split(line, '\t')[2]| < 16
  {
    hide Join, Split, AnswerText, ToDecimal, FirstLine, Clean;
    var front := [r.classification, ToDecimal(r.witnessBase)];
    VerdictClean(r);
    AnswerAround(r, front);
    if Without(r.res64, '\n') {
      WithoutBoth(Join(front, '\t') + ['\t'], r.res64 + (['\t'] + r.validationStatus));
    } else {
      FirstLineOfCut(r.res64, ['\t'] + r.validationStatus);
      var piece := FirstLine(r.res64);
      assert FirstLine(AnswerText(r)) == Join(front, '\t') + (['\t'] + piece);
      SplitBehind(front, piece, '\t');
      PiecesShort(piece);
      assert (front + Split(piece, '\t'))[2] == Split(piece, '\t')[0];
    }
  }

  lemma WithoutBoth(a: string, b: string)
    requires Without(a, '\n') && Without(b, '\n')
    ensures Without(a + b, '\n')
  {
  }

  /** An answer with clean texts around its residue text. */
  lemma AnswerAround(r: CandidateResult, front: seq<string>)
    requires front == [r.classification, ToDecimal(r.witnessBase)] && Clean(r.classification)
      && Clean(r.validationStatus)
    ensures forall i :: 0 <= i < |front| ==> Without(front[i], '\t')
    ensures Without(Join(front, '\t') + ['\t'], '\n') && Without(['\t'] + r.validationStatus, '\n')
    ensures var behind := r.res64 + (['\t'] + r.validationStatus);
      && AnswerText(r) == (Join(front, '\t') + ['\t']) + behind
      && FirstLine(AnswerText(r)) == (Join(front, '\t') + ['\t']) + FirstLine(behind)
      && (Without(r.res64, '\n') ==> Without(behind, '\n'))
  {
    hide Join, AnswerText, ToDecimal, FirstLine, Clean, Without;
    DecimalClean(r.witnessBase);
    CleanWithout(r.classification);
    CleanWithout(r.validationStatus);
    CleanWithout(ToDecimal(r.witnessBase));
    JoinWithout(front, '\t', '\n');
    TabWithout();
    WithoutBoth(Join(front, '\t'), ['\t']);
    WithoutBoth(['\t'], r.validationStatus);
    AnswerInTwo(r, front);
    FirstLineBehind(Join(front, '\t') + ['\t'], r.res64 + (['\t'] + r.validationStatus));
    if Without(r.res64, '\n') {
      WithoutBoth(r.res64, ['\t'] + r.validationStatus);
    }
  }

  lemma CleanWithout(s: string)
    requires Clean(s)
    ensures Without(s, '\t') && Without(s, '\n')
  {
  }

  lemma TabWithout()
    ensures Without(['\t'], '\n')
  {
  }

  lemma AnswerInTwo(r: CandidateResult, front: seq<string>)
    requires front == [r.classification, ToDecimal(r.witnessBase)]
    ensures AnswerText(r) == (Join(front, '\t') + ['\t']) + (r.res64 + (['\t'] + r.validationStatus))
  {
    hide Join, AnswerText, ToDecimal;
    AnswerParts(r);
    FrontOf(r);
  }

  lemma FrontOf(r: CandidateResult)
    ensures Join([r.classification, ToDecimal(r.witnessBase)], '\t') ==
      r.classification + (['\t'] + ToDecimal(r.witnessBase))
  {
    hide ToDecimal;
    assert [r.classification, ToDecimal(r.witnessBase)][1..] == [ToDecimal(r.witnessBase)];
  }

  lemma PiecesShort(s: string)
    ensures |Split(s, '\t')[0]| <= |s|
  {
  }

  // ----- reading the whole log

  /** The rows of the lines: every row accepted and no candidate twice. */
  function ReadRows(cfg: CampaignConfig, fmt: LogFormat, lines: seq<string>,
    seen: set<Candidate>): Result<seq<StoredResult>, Exception> {
    if lines == [] then Ok([])
    else if lines[0] == "" then ReadRows(cfg, fmt, lines[1..], seen)
    else
      match ParseRow(cfg, fmt, lines[0])
      case None => Err(RuntimeError)
      case Some(row) =>
        if row.result.candidate in seen then Err(RuntimeError)
        else Prepend([row], ReadRows(cfg, fmt, lines[1..], seen + {row.result.candidate}))
  }

  function Prepend(rows: seq<StoredResult>, r: Result<seq<StoredResult>, Exception>): Result<seq<StoredResult>,
    Exception> {
    match r
    case Ok(more) => Ok(rows + more)
    case Err(e) => Err(e)
  }

  function ReadLog(cfg: CampaignConfig, fmt: LogFormat, content: string): Result<seq<StoredResult>, Exception> {
    if !StartsWith(content, fmt.header) then Err(RuntimeError)
    else ReadRows(cfg, fmt, GetLines(content[|fmt.header|..]), {})
  }

  /** read_results */
  method ReadResults(cfg: CampaignConfig, fmt: LogFormat, content: string)
    returns (r: Result<seq<StoredResult>, Exception>)
    ensures r == ReadLog(cfg, fmt, content)
  {
    if !StartsWith(content, fmt.header) {
      return Err(RuntimeError);
    }
    r := ReadLineRows(cfg, fmt, GetLines(content[|fmt.header|..]));
  }

  method ReadLineRows(cfg: CampaignConfig, fmt: LogFormat, lines: seq<string>)
    returns (r: Result<seq<StoredResult>, Exception>)
    ensures r == ReadRows(cfg, fmt, lines, {})
  {
    hide ParseRow;
    assert lines[0..] == lines;
    assert forall more: seq<StoredResult> :: [] + more == more;
    var results: seq<StoredResult> := [];
    var seen: set<Candidate> := {};
    var i := 0;
    while i < |lines|
      invariant 0 <= i <= |lines|
      invariant ReadRows(cfg, fmt, lines, {}) == Prepend(results, ReadRows(cfg, fmt, lines[i..], seen))
    {
      assert lines[i..][0] == lines[i] && lines[i..][1..] == lines[i + 1..];
      if lines[i] != "" {
        var row := ParseRow(cfg, fmt, lines[i]);
        if row.None? {
          return Err(RuntimeError);
        }
        if row.value.result.candidate in seen {
          return Err(RuntimeError);
        }
        assert forall more :: (results + [row.value]) + more == results + ([row.value] + more);
        seen := seen + {row.value.result.candidate};
        results := results + [row.value];
      }
      i := i + 1;
    }
    assert lines[i..] == [] && results + [] == results;
    return Ok(results);
  }

  ghost predicate DistinctCandidates(rows: seq<StoredResult>) {
    forall i, j :: 0 <= i < j < |rows| ==> rows[i].result.candidate != rows[j].result.candidate
  }

  ghost predicate AllTaken(cfg: CampaignConfig, fmt: LogFormat, rows: seq<StoredResult>) {
    forall i :: 0 <= i < |rows| ==> Taken(cfg, fmt, rows[i])
  }

  /** How many rows have at least their first line in the beginning of their text. */
  function Begun(rows: seq<StoredResult>, kept: nat): (n: nat)
    ensures n <= |rows| && (kept == 0 ==> n == 0)
  {
    if rows == [] || kept <= |FirstLine(RowText(rows[0]))| then 0
    else
      var size := |RowText(rows[0])| + 1;
      1 + Begun(rows[1..], if kept > size then kept - size else 0)
  }

  /** A beginning of the rows' text that ends with a line. */
  predicate EndsLine(text: string, kept: nat) {
    kept <= |text| && (kept > 0 ==> text[kept - 1] == '\n')
  }

  lemma RowsHead(rows: seq<StoredResult>)
    requires rows != []
    ensures RowTexts(rows)[0] == RowText(rows[0]) && RowTexts(rows)[1..] == RowTexts(rows[1..])
    ensures Lines(RowTexts(rows)) == RowText(rows[0]) + (['\n'] + Lines(RowTexts(rows[1..])))
  {
    hide RowText;
    assert RowTexts(rows)[1..] == RowTexts(rows[1..]);
  }

  /** The lines of a beginning of a row's text and of what follows it. */
  lemma LinesOfBeginning(row: string, rest: string, kept: nat)
    requires var text := row + (['\n'] + rest); EndsLine(text, kept) && kept > 0
    ensures var text := row + (['\n'] + rest); var line := FirstLine(row);
      && |line| < kept && GetLines(text[..kept])[0] == line && GetLines(text[..kept]) != []
      && (line == row ==> EndsLine(rest, kept - |row| - 1) && text[..kept] == row + (['\n'] + rest[..kept - |row| - 1]))
      && (line == row ==> GetLines(text[..kept]) == [row] + GetLines(rest[..kept - |row| - 1]))
  {
    hide GetLines, FirstLine;
    var text := row + (['\n'] + rest);
    var line := FirstLine(row);
    var n := |line|;
    assert forall j :: 0 <= j < n ==> text[j] == line[j];
    assert text[n] == '\n' && n < kept;
    assert text[..kept] == line + (['\n'] + text[n + 1..kept]);
    GetLinesHead(line, text[n + 1..kept]);
    if line == row {
      assert text[n + 1..kept] == rest[..kept - n - 1];
      assert forall j :: 0 <= j < |rest| ==> rest[j] == text[n + 1 + j];
    }
  }

  lemma EndsWithLine(lines: seq<string>)
    ensures EndsLine(Lines(lines), |Lines(lines)|)
  {
    if lines != [] {
      LinesEndInNewline(lines);
    }
  }

  /** Rows come back only for a campaign identifier without tabs and newlines. */
  lemma {:induction false} UncleanIdentityRefused(cfg: CampaignConfig, fmt: LogFormat, lines: seq<string>,
                                                  seen: set<Candidate>)
    requires forall i :: 0 <= i < |lines| ==> Without(lines[i], '\n')
    requires ReadRows(cfg, fmt, lines, seen).Ok? && ReadRows(cfg, fmt, lines, seen).value != []
    ensures Clean(cfg.campaignId)
  {
    if lines[0] == "" {
      UncleanIdentityRefused(cfg, fmt, lines[1..], seen);
    } else {
      FirstField(lines[0]);
    }
  }

  lemma FirstField(line: string)
    requires Without(line, '\n')
    ensures Clean(Split(line, '\t')[0])
  {
  }
}
