/** Which answers pass for rows nobody wrote, and what a campaign then makes durable
    (src/discovery/native_b8_campaign.cpp). */
module CampaignForgery {
  import opened MachineArithmetic
  import opened Decimal
  import opened DelimitedText
  import opened CampaignLog
  import opened CampaignRefusal
  import opened CampaignBatches
  import opened CampaignCheckpoint
  import opened CampaignDisk
  import opened CampaignRecovery
  import opened NativeCampaign
  import opened Durability
  import opened Wrappers

  // ----- exactly the forgeries pass

  /** A torn append that leaves so much of a row leaves a text that is read as rows. */
  ghost predicate BeginningPasses(cfg: CampaignConfig, fmt: LogFormat, s: StoredResult, kept: nat) {
    EndsLine(RowText(s), kept) && CutReads(cfg, fmt, RowText(s)[..kept])
  }

  /** Some beginning of a row passes for rows exactly when its answer is a forgery. */
  lemma ForgedExactly(cfg: CampaignConfig, fmt: LogFormat, s: StoredResult)
    requires OwnTexts(s)
    ensures Forged(cfg, fmt, s) <==> exists kept: nat :: BeginningPasses(cfg, fmt, s, kept)
  {
    hide Forged, OwnTexts, BeginningPasses;
    if Forged(cfg, fmt, s) {
      FirstLinePasses(cfg, fmt, s);
    }
    forall kept: nat | BeginningPasses(cfg, fmt, s, kept)
      ensures Forged(cfg, fmt, s)
    {
      PassingIsForged(cfg, fmt, s, kept);
    }
  }

  lemma FirstLinePasses(cfg: CampaignConfig, fmt: LogFormat, s: StoredResult)
    requires OwnTexts(s) && Forged(cfg, fmt, s)
    ensures BeginningPasses(cfg, fmt, s, |FirstLine(RowText(s))| + 1)
    ensures CutRow(s).Some? && CutRow(s).value != s
    ensures var line := FirstLine(RowText(s));
      line != "" && |line| < |RowText(s)| && RowText(s)[..|line| + 1] == line + "\n"
      && ParseRow(cfg, fmt, line) == CutRow(s)
  {
    hide ParseRow, RowText, AnswerText, OwnTexts, RowAccepted, Taken, GetLines, Split, ParseU32;
    ParseRowText(cfg, fmt, s);
    CutRowDiffers(cfg, fmt, s);
    var line := FirstLine(RowText(s));
    assert RowText(s)[..|line| + 1] == line + (['\n'] + "");
    GetLinesHead(line, "");
    assert GetLines("") == [] by {
      NothingRead();
    }
  }

  lemma NothingRead()
    ensures GetLines("") == []
  {
  }

  lemma CutRowDiffers(cfg: CampaignConfig, fmt: LogFormat, s: StoredResult)
    requires OwnTexts(s) && Forged(cfg, fmt, s)
    ensures CutRow(s).Some? && CutRow(s).value != s && VerdictAccepted(CutRow(s).value.result)
  {
    hide AnswerText, Split, ParseU32, OwnTexts, FirstLine, ResultHashInput;
    if CutRow(s).value == s {
      AcceptedIsNoForgery(cfg, fmt, s);
      assert false;
    }
  }

  lemma PassingIsForged(cfg: CampaignConfig, fmt: LogFormat, s: StoredResult, kept: nat)
    requires OwnTexts(s) && BeginningPasses(cfg, fmt, s, kept)
    ensures Forged(cfg, fmt, s)
  {
    hide ParseRow, RowText, OwnTexts, Taken, Forged, GetLines, FirstLine;
    var row := RowText(s);
    ParseRowText(cfg, fmt, s);
    FirstLineWithin(row, kept);
    assert (row + (['\n'] + ""))[..kept] == row[..kept];
    LinesOfBeginning(row, "", kept);
    assert ParseRow(cfg, fmt, GetLines(row[..kept])[0]).Some?;
  }

  /** What a torn append leaves of the row it cuts is a beginning of that row. */
  lemma {:induction false} CutIsBeginning(rows: seq<StoredResult>, kept: nat) returns (left: nat)
    requires EndsLine(Lines(RowTexts(rows)), kept) && CutText(rows, kept) != ""
    ensures var n := WholeRows(rows, kept);
      n < |rows| && EndsLine(RowText(rows[n]), left) && CutText(rows, kept) == RowText(rows[n])[..left]
  {
    hide RowText;
    RowsHead(rows);
    var row, rest := RowText(rows[0]), Lines(RowTexts(rows[1..]));
    var text := row + (['\n'] + rest);
    if kept <= |row| {
      left := kept;
      assert kept > 0 ==> row[kept - 1] == text[kept - 1];
    } else {
      var more := kept - |row| - 1;
      assert more > 0 ==> rest[more - 1] == text[kept - 1];
      left := CutIsBeginning(rows[1..], more);
    }
  }

  /** So rows without a forgery are usable under every crash. */
  lemma UnforgedIsUsable(c: Campaign, rows: seq<StoredResult>, fate: Fate)
    requires forall i :: 0 <= i < |rows| ==> OwnTexts(rows[i]) && !Forged(c.cfg, c.fmt, rows[i])
    ensures NoForgeryKept(c, rows, fate)
  {
    hide RowText, OwnTexts, Forged, Lines, RowTexts, CutReads, CutText, WholeRows, Remains;
    var kept := Remains(rows, Kept(fate, |Lines(RowTexts(rows))|));
    if CutReads(c.cfg, c.fmt, CutText(rows, kept)) {
      CutNotEmpty(c, rows, kept);
      var left := CutIsBeginning(rows, kept);
      var n := WholeRows(rows, kept);
      assert BeginningPasses(c.cfg, c.fmt, rows[n], left);
      PassingIsForged(c.cfg, c.fmt, rows[n], left);
      assert false;
    }
  }

  lemma CutNotEmpty(c: Campaign, rows: seq<StoredResult>, kept: nat)
    requires CutReads(c.cfg, c.fmt, CutText(rows, kept))
    ensures CutText(rows, kept) != ""
  {
  }

  /** A log with a forgery, torn right behind its first line, is read as the row nobody wrote. */
  lemma ForgeryIsRead(cfg: CampaignConfig, fmt: LogFormat, s: StoredResult)
    requires OwnTexts(s) && Forged(cfg, fmt, s)
    ensures CutRow(s).Some? && CutRow(s).value != s
    ensures var kept := |fmt.header| + |FirstLine(RowText(s))| + 1;
      kept <= |LogText(fmt, [s])| && ReadLog(cfg, fmt, LogText(fmt, [s])[..kept]) == Ok([CutRow(s).value])
  {
    hide ParseRow, RowText, OwnTexts, Forged, FirstLine, CutRow, BeginningPasses;
    FirstLinePasses(cfg, fmt, s);
    OneRow(fmt, s);
    var line := FirstLine(RowText(s));
    var content := LogText(fmt, [s])[..|fmt.header| + |line| + 1];
    assert content == fmt.header + (RowText(s)[..|line| + 1]);
    assert content[..|fmt.header|] == fmt.header && content[|fmt.header|..] == line + (['\n'] + "");
    GetLinesHead(line, "");
    NothingRead();
    hide GetLines;
    OneLineRead(cfg, fmt, line, CutRow(s).value);
  }

  lemma OneLineRead(cfg: CampaignConfig, fmt: LogFormat, line: string, row: StoredResult)
    requires line != "" && ParseRow(cfg, fmt, line) == Some(row)
    ensures ReadRows(cfg, fmt, [line], {}) == Ok([row])
  {
    hide ParseRow;
    assert [line][1..] == [] && ReadRows(cfg, fmt, [], {row.result.candidate}) == Ok([]);
    assert [row] + [] == [row];
  }

  lemma OneRow(fmt: LogFormat, s: StoredResult)
    ensures LogText(fmt, [s]) == fmt.header + (RowText(s) + "\n")
  {
    hide RowText;
    assert RowTexts([s]) == [RowText(s)];
    assert Lines([RowText(s)]) == RowText(s) + "\n";
  }

  // ----- a whole batch nobody wrote

  /** An answer like another, but with the end of its row and more rows behind its verdict. */
  function Forging(a: StoredResult, more: string): CandidateResult {
    a.result.(validationStatus := a.result.validationStatus + (['\t'] + (Join(HashFields(a), '\t') + (['\n'] + more))))
  }

  lemma ForgingText(a: StoredResult, more: string)
    ensures AnswerText(Forging(a, more)) ==
      AnswerText(a.result) + (['\t'] + (Join(HashFields(a), '\t') + (['\n'] + more)))
  {
    hide AnswerText, ToDecimal, Join;
    AnswerParts(a.result);
    AnswerParts(Forging(a, more));
  }

  /** The row of such an answer begins with the row of the other and more. */
  lemma ForgingRow(a: StoredResult, more: string, s: StoredResult)
    requires FrontFields(s) == FrontFields(a) && AnswerText(s.result) == AnswerText(Forging(a, more))
    ensures RowText(a) + (['\n'] + more) <= RowText(s)
  {
    hide ToDecimal, Join, RowText, AnswerText, FrontFields;
    ForgingText(a, more);
    RowParts(a);
    RowParts(s);
    var front, answer, hashes := Join(FrontFields(a), '\t'), AnswerText(a.result), Join(HashFields(a), '\t');
    var rest := ['\t'] + Join(HashFields(s), '\t');
    assert RowText(s) == (front + (['\t'] + (answer + (['\t'] + hashes)))) + ((['\n'] + more) + rest);
  }

  /** Answers that carry a whole other batch in the first of them. */
  function ForgingAnswers(c: Campaign, id: u64, candidates: seq<Candidate>, results: seq<CandidateResult>,
    startUtc: string): (answers: seq<CandidateResult>)
    requires 0 < |results| <= MAX_BATCH_SIZE
    ensures |answers| == |results|
  {
    var rows := BatchRows(c, id, candidates, results, startUtc);
    results[0 := Forging(rows[0], Lines(RowTexts(rows[1..])))]
  }

  lemma ForgingMatches(c: Campaign, id: u64, candidates: seq<Candidate>, results: seq<CandidateResult>,
                       startUtc: string)
    requires 0 < |results| <= MAX_BATCH_SIZE && LanesMatch(results, candidates)
    ensures LanesMatch(ForgingAnswers(c, id, candidates, results, startUtc), candidates)
    ensures !Readable(ForgingAnswers(c, id, candidates, results, startUtc)[0])
  {
    hide BatchHash, OrderedBatchHash, Lines, RowTexts, ResultHashInput;
    var answers := ForgingAnswers(c, id, candidates, results, startUtc);
    forall lane | 0 <= lane < |answers|
      ensures LaneMatches(answers[lane], lane, candidates[lane])
    {
      assert LaneMatches(results[lane], lane, candidates[lane]);
    }
    var rows := BatchRows(c, id, candidates, results, startUtc);
    BrokenStatus(rows[0], Lines(RowTexts(rows[1..])));
  }

  lemma BrokenStatus(a: StoredResult, more: string)
    ensures !Readable(Forging(a, more))
  {
    hide HashFields, Join;
    var hashes := Join(HashFields(a), '\t');
    var status := Forging(a, more).validationStatus;
    assert status[|a.result.validationStatus| + 1 + |hashes|] == '\n';
    CleanVerdicts();
    assert status == "GERBICZ_PASS" ==> Clean(status);
  }

  /** The text of the forged batch is a proper beginning of the text of the answers' rows. */
  lemma ForgedTextBegins(c: Campaign, id: u64, candidates: seq<Candidate>, results: seq<CandidateResult>,
                         startUtc: string)
    requires 0 < |results| <= MAX_BATCH_SIZE
    ensures var taken := Lines(RowTexts(BatchRows(c, id, candidates, results, startUtc)));
      var answers := ForgingAnswers(c, id, candidates, results, startUtc);
      var written := Lines(RowTexts(BatchRows(c, id, candidates, answers, startUtc)));
      taken <= written && taken != written
  {
    hide BatchHash, OrderedBatchHash, ResultHashInput, ToDecimal, RowText, Join;
    var taken := BatchRows(c, id, candidates, results, startUtc);
    var answers := ForgingAnswers(c, id, candidates, results, startUtc);
    var written := BatchRows(c, id, candidates, answers, startUtc);
    var more := Lines(RowTexts(taken[1..]));
    assert AnswerFields(written[0].result) == AnswerFields(Forging(taken[0], more));
    hide Lines, RowTexts;
    ForgingRow(taken[0], more, written[0]);
    RowsHead(taken);
    RowsHead(written);
    PrefixOfMore(RowText(taken[0]) + (['\n'] + more), RowText(written[0]), Lines(RowTexts(written[1..])));
  }

  lemma PrefixOfMore(a: string, b: string, rest: string)
    requires a <= b
    ensures a <= b + (['\n'] + rest) && a != b + (['\n'] + rest)
  {
  }

  /** Whatever batch could be answered: an engine that answers with it inside the first text,
      and a crash behind that part of the append, make the batch durable that nobody wrote;
      the next run accepts it and goes on from there. */
  method ForgedBatchIsTaken(c: Campaign, d: Disk, p: Progress, candidates: seq<Candidate>,
                            results: seq<CandidateResult>, startUtc: string, later: Environment)
    returns (first: BatchEnd, outcome: Outcome, ghost taken: seq<StoredResult>, ghost written: seq<StoredResult>)
    requires c.Valid() && later.Valid(c) && Agrees(c, d, p) && !p.primeFound
    requires 0 < |results| <= c.cfg.batchSize && LanesMatch(results, candidates) && AnswersReadable(results)
    requires |p.stored| + |results| <= |c.corpus.queue| && Clean(startUtc)
    requires candidates == c.corpus.queue[|p.stored|..|p.stored| + |results|]
    requires AllReadable(Flat(d.batches)) && ResumableCheckpoint(c.cfg, d.checkpoint)
    requires forall i :: later.startFate(i).Completes?
    modifies d
    ensures p.nextBatchId <= MAX_U64 && |results| <= MAX_BATCH_SIZE
    ensures taken == BatchRows(c, p.nextBatchId, candidates, results, startUtc)
    ensures written == BatchRows(c, p.nextBatchId, candidates,
      ForgingAnswers(c, p.nextBatchId, candidates, results, startUtc), startUtc)
    ensures first == BatchCrashed && !Readable(written[0].result) && taken != written
    ensures outcome != Refused && old(d.batches) + [taken] <= d.batches
    ensures HasPrime(taken) ==> d.batches == old(d.batches) + [taken]
  {
    hide Campaign.Valid, Environment.Valid, Campaign.History, Durable, Flat, HasPrime, LanesMatch, BatchRows,
      AllReadable, Readable, Chain, LastHash, Resumable, AnswersReadable, ForgingAnswers, Lines, RowTexts, RowsUsable;
    BatchFits(c);
    AgreesCounts(c, d, p);
    var answers := ForgingAnswers(c, p.nextBatchId, candidates, results, startUtc);
    taken := BatchRows(c, p.nextBatchId, candidates, results, startUtc);
    written := BatchRows(c, p.nextBatchId, candidates, answers, startUtc);
    ghost var before := d.batches;
    ForgingMatches(c, p.nextBatchId, candidates, results, startUtc);
    FirstUnreadable(c, p.nextBatchId, candidates, answers, startUtc);
    HonestBatch(c, before, candidates, results, startUtc);
    ForgedTextBegins(c, p.nextBatchId, candidates, results, startUtc);
    AppendCompletes(c, d, taken);
    ReadableBefore(c, before, taken);
    ghost var appended := d.log.value + Lines(RowTexts(taken));
    var content := SerializeResultRows(BatchRows(c, p.nextBatchId, candidates, results, startUtc));
    first := PersistBatch(c, d, p, candidates, answers, startUtc, CrashesAt(|content|), Completes);
    KeptBeginning(content, Lines(RowTexts(written)));
    assert d.log == Some(appended);
    d.batches, d.next, d.torn := before + [taken], [], 0;
    VisibleIsPrefix(c, d);
    FlatAppend(before, taken);
    PrimeInConcatenation(Flat(before), taken);
    ghost var submitted;
    outcome, submitted := RunCampaign(c, d, later);
  }

  lemma KeptBeginning(a: string, b: string)
    requires a <= b && a != b
    ensures b[..Kept(CrashesAt(|a|), |b|)] == a
  {
  }

  lemma FirstUnreadable(c: Campaign, id: u64, candidates: seq<Candidate>, answers: seq<CandidateResult>,
                        startUtc: string)
    requires 0 < |answers| <= MAX_BATCH_SIZE && !Readable(answers[0])
    ensures !Readable(BatchRows(c, id, candidates, answers, startUtc)[0].result)
  {
    hide BatchHash, OrderedBatchHash, Readable;
    ReadableIgnoresHash(c, id, answers[0]);
  }

  /** The batch of readable answers continues the history and is readable. */
  lemma HonestBatch(c: Campaign, batches: Batches, candidates: seq<Candidate>, results: seq<CandidateResult>,
                    startUtc: string)
    requires c.Valid() && c.History(batches) && !HasPrime(Flat(batches)) && |batches| <= MAX_U64
    requires 0 < |results| <= c.cfg.batchSize && LanesMatch(results, candidates) && AnswersReadable(results)
    requires |Flat(batches)| + |results| <= |c.corpus.queue| && Clean(startUtc)
    requires candidates == c.corpus.queue[|Flat(batches)|..|Flat(batches)| + |results|]
    ensures var rows := BatchRows(c, |batches|, candidates, results, startUtc);
      c.History(batches + [rows]) && AllReadable(rows)
  {
    hide Campaign.History, Flat, HasPrime, LanesMatch, Forged, UniqueHash, BatchHash, OrderedBatchHash, Clean;
    var rows := BatchRows(c, |batches|, candidates, results, startUtc);
    forall i | 0 <= i < |results|
      ensures RowUsable(c, rows[i]) && Readable(rows[i].result)
    {
      ReadableIgnoresHash(c, |batches|, results[i]);
      AcceptedIsNoForgery(c.cfg, c.fmt, rows[i]);
    }
    BuiltBatchAppends(c, batches, candidates, results, startUtc);
  }

  lemma ReadableBefore(c: Campaign, batches: Batches, rows: seq<StoredResult>)
    requires AllReadable(Flat(batches)) && AllReadable(rows)
    ensures AllReadable(Flat(batches + [rows]))
  {
    hide Readable, Flat;
    FlatAppend(batches, rows);
  }

  // ----- one candidate, and a prime nobody proved

  /** A new campaign over one candidate, with any hash function into clean texts. */
  function OneCandidate(sha256: string -> string): Campaign {
    Campaign(LogFormat(sha256, "\n"), CampaignConfig("c", "p", "e", "b", "s", 1), Corpus([Candidate(1, 1)], []), false)
  }

  lemma OneCandidateValid(sha256: string -> string)
    requires forall s: string {:trigger sha256(s)} :: Clean(sha256(s))
    ensures OneCandidate(sha256).Valid()
  {
  }

  /** The engine never answers later on. */
  function Silent(): Environment {
    Environment(_ => false, _ => Threw, _ => "", _ => Completes, _ => Completes, _ => Completes)
  }

  lemma SilentIsValid(c: Campaign)
    ensures Silent().Valid(c)
  {
    hide AnswersAt, RowsUsable;
  }

  lemma PrimeAnswer(r: CandidateResult)
    requires r == CandidateResult(0, Candidate(1, 1), "PROVEN_PRIME", 0, "0123456789ABCDEF", "GERBICZ_PASS", "")
    ensures Readable(r) && LanesMatch([r], [Candidate(1, 1)]) && AnswersReadable([r])
  {
  }

  lemma OnePrime(c: Campaign, answer: CandidateResult)
    requires answer.classification == "PROVEN_PRIME"
    ensures HasPrime(BatchRows(c, 0, [answer.candidate], [answer], ""))
  {
    hide BatchHash, OrderedBatchHash, ResultHashInput;
    assert IsProvenPrime(BatchRows(c, 0, [answer.candidate], [answer], "")[0]);
  }

  lemma NoPrime()
    ensures !HasPrime([]) && Flat([]) == []
  {
  }

  lemma InProgressResumes()
    ensures Resumable("IN_PROGRESS")
  {
  }

  lemma OneCandidatePrintable(sha256: string -> string)
    ensures IdentityPrintable(OneCandidate(sha256).cfg)
  {
  }

  /** A new campaign with its first checkpoint. */
  method StartNew(c: Campaign) returns (d: Disk, p: Progress)
    requires c.Valid() && IdentityPrintable(c.cfg)
    ensures fresh(d) && Agrees(c, d, p) && !p.primeFound && p.stored == [] && p.nextBatchId == 0 && d.batches == []
    ensures ResumableCheckpoint(c.cfg, d.checkpoint)
  {
    hide Campaign.Valid, Campaign.History, Durable, Flat, HasPrime, Chain, LastHash, SeenOf, IdentityPrintable,
      Resumable,
      AllReadable;
    d := new Disk();
    NewDisk(c, d);
    NoPrime();
    InProgressResumes();
    var start := Recover(c, d, _ => Completes);
    p := Progress(start.stored, start.nextBatchId, start.chain, start.lastHash, false);
    var alive := DurableCheckpoint(c, d, p, "IN_PROGRESS", Completes);
  }

  /** The engine's only answer is no verdict, and its append does not finish. The next run
      finds the answer inside it. */
  method ForgedAnswer(c: Campaign, answer: CandidateResult, later: Environment) returns (outcome: Outcome, d: Disk)
    requires c.Valid() && IdentityPrintable(c.cfg) && later.Valid(c) && c.corpus.queue == [answer.candidate]
    requires LanesMatch([answer], [answer.candidate]) && AnswersReadable([answer])
      && answer.classification == "PROVEN_PRIME"
    requires forall i :: later.startFate(i).Completes?
    ensures outcome != Refused && |d.batches| == 1 && HasPrime(Flat(d.batches))
  {
    BatchFits(c);
    SomeBatch(c);
    hide Campaign.Valid, Environment.Valid, Campaign.History, Durable, Flat, HasPrime, LanesMatch, BatchRows, Lines,
      RowTexts, Chain, LastHash, Readable, AnswersReadable, AllReadable, SeenOf, Remains, IdentityPrintable,
      ResumableCheckpoint, Clean;
    OnePrime(c, answer);
    NoPrime();
    NothingTabbed();
    var p;
    d, p := StartNew(c);
    var first;
    ghost var taken, written;
    NothingUnreadable();
    assert c.corpus.queue[0..1] == [answer.candidate];
    first, outcome, taken, written := ForgedBatchIsTaken(c, d, p, [answer.candidate], [answer], "", later);
    FlatOne(d.batches, taken);
  }

  lemma FlatOne(batches: Batches, batch: seq<StoredResult>)
    requires batches == [] + [batch]
    ensures Flat(batches) == batch && |batches| == 1
  {
    FlatAppend([], batch);
    assert Flat([]) == [];
  }

  lemma SomeBatch(c: Campaign)
    requires c.Valid()
    ensures c.cfg.batchSize >= 1
  {
  }

  lemma NothingUnreadable()
    ensures AllReadable([])
  {
  }

  lemma NothingTabbed()
    ensures Clean("")
  {
  }

  /** An instance: a prime nobody proved. */
  method ForgedPrime(sha256: string -> string) returns (outcome: Outcome, d: Disk)
    requires forall s: string {:trigger sha256(s)} :: Clean(sha256(s))
    ensures outcome != Refused && |d.batches| == 1 && HasPrime(Flat(d.batches))
  {
    var c := OneCandidate(sha256);
    OneCandidateValid(sha256);
    OneCandidatePrintable(sha256);
    SilentIsValid(c);
    var answer := CandidateResult(0, Candidate(1, 1), "PROVEN_PRIME", 0, "0123456789ABCDEF", "GERBICZ_PASS", "");
    PrimeAnswer(answer);
    hide Campaign.Valid, Environment.Valid, Flat, HasPrime, LanesMatch, AnswersReadable, IdentityPrintable, Readable,
      Clean;
    outcome, d := ForgedAnswer(c, answer, Silent());
  }
}
