/** A log with a whole row that is not taken is refused, whatever texts the engine put into
    it (src/discovery/native_b8_campaign.cpp). */
module CampaignRefusal {
  import opened MachineArithmetic
  import opened Decimal
  import opened DelimitedText
  import opened CampaignLog
  import opened Wrappers

  // ----- one line that is no row

  lemma {:induction false} OneBadLine(cfg: CampaignConfig, fmt: LogFormat, lines: seq<string>, seen: set<Candidate>,
                                      j: nat)
    requires j < |lines| && lines[j] != "" && ParseRow(cfg, fmt, lines[j]) == None
    ensures ReadRows(cfg, fmt, lines, seen) == Err(RuntimeError)
  {
    hide ParseRow;
    if j > 0 {
      if lines[0] == "" {
        OneBadLine(cfg, fmt, lines[1..], seen, j - 1);
      } else {
        var row := ParseRow(cfg, fmt, lines[0]);
        if row.Some? && row.value.result.candidate !in seen {
          OneBadLine(cfg, fmt, lines[1..], seen + {row.value.result.candidate}, j - 1);
        }
      }
    }
  }

  // ----- the end of a row that a line break cuts

  function LastLine(s: string): string {
    s[AfterLastNewline(s)..]
  }

  /** The text whose hash a row carries has the answer in its middle. */
  lemma HashInputParts(campaignId: string, batchId: u64, r: CandidateResult)
    ensures ResultHashInput(campaignId, batchId, r) == InputFront(campaignId, batchId, r) + (AnswerText(r) + ['\n'])
  {
    hide AnswerText, ToDecimal;
    AnswerParts(r);
  }

  function InputFront(campaignId: string, batchId: u64, r: CandidateResult): string {
    campaignId + "\t" + ToDecimal(batchId) + "\t" + ToDecimal(r.laneId) + "\t" + ToDecimal(r.candidate.k) + "\t"
    + ToDecimal(r.candidate.n) + "\t"
  }

  lemma {:induction false} FieldsWithout(s: string, c: char, d: char)
    requires Without(s, d)
    ensures forall i :: 0 <= i < |Split(s, c)| ==> Without(Split(s, c)[i], d)
    decreases |s|
  {
    hide Find;
    if Without(s, c) {
      SplitNone(s, c);
    } else {
      var end := Find(s, c, 0);
      CutAt(s, c, end);
      FieldsWithout(s[end + 1..], c, d);
      SplitHead(s[..end], s[end + 1..], c);
    }
  }

  /** A line that is read as a row has that row's hash in front of its last field, and the
      text the hash is of has no line break but its last character. */
  lemma ReadRowInput(cfg: CampaignConfig, fmt: LogFormat, line: string)
    requires Without(line, '\n') && ParseRow(cfg, fmt, line).Some?
    ensures |Split(line, '\t')| == 16
    ensures var row := ParseRow(cfg, fmt, line).value;
      var input := ResultHashInput(cfg.campaignId, row.batchId, row.result);
      Split(line, '\t')[14] == fmt.sha256(input) && input != "" && Without(input[..|input| - 1], '\n')
  {
    hide Split, ParseU64, ParseU32, ResultHashInput, ToDecimal, AnswerText;
    var row := ParseRow(cfg, fmt, line).value;
    FieldsWithout(line, '\t', '\n');
    HashInputParts(cfg.campaignId, row.batchId, row.result);
    InputIsLine(cfg.campaignId, row.batchId, row.result);
    var input := ResultHashInput(cfg.campaignId, row.batchId, row.result);
    assert input[..|input| - 1] == InputFront(cfg.campaignId, row.batchId, row.result) + AnswerText(row.result);
  }

  lemma InputIsLine(campaignId: string, batchId: u64, r: CandidateResult)
    requires Without(campaignId, '\n') && Without(r.classification, '\n') && Without(r.res64, '\n')
    requires Without(r.validationStatus, '\n')
    ensures Without(InputFront(campaignId, batchId, r) + AnswerText(r), '\n')
  {
    hide ToDecimal, Join;
    DecimalClean(batchId);
    DecimalClean(r.laneId);
    DecimalClean(r.candidate.k);
    DecimalClean(r.candidate.n);
    DecimalClean(r.witnessBase);
    JoinWithout(AnswerFields(r), '\t', '\n');
    hide AnswerText;
    WithoutBoth(InputFront(campaignId, batchId, r), AnswerText(r));
  }

  /** The hash of a row belongs to no text but the one it was computed from. */
  ghost predicate UniqueHash(cfg: CampaignConfig, fmt: LogFormat, s: StoredResult) {
    forall text: string {:trigger fmt.sha256(text)} ::
      fmt.sha256(text) == s.result.candidateResultHash ==> text == ResultHashInput(cfg.campaignId, s.batchId, s.result)
  }

  /** The last line of a cut row carries the hash of a text with a line break in its middle,
      and so is no row. */
  lemma CutTailRefused(cfg: CampaignConfig, fmt: LogFormat, s: StoredResult)
    requires OwnTexts(s) && !Without(AnswerText(s.result), '\n') && UniqueHash(cfg, fmt, s)
    ensures ParseRow(cfg, fmt, LastLine(RowText(s))) == None && LastLine(RowText(s)) != ""
    ensures AfterLastNewline(RowText(s)) > 0
  {
    hide ParseRow, RowText, AnswerText, HashFields, Join, Split, ResultHashInput, AfterLastNewline, OwnTexts, Clean;
    var piece := CutTail(s);
    var line := LastLine(RowText(s));
    OwnFieldsClean(s);
    HashesBehind(s, piece);
    if ParseRow(cfg, fmt, line).Some? {
      ReadRowInput(cfg, fmt, line);
      var row := ParseRow(cfg, fmt, line).value;
      assert ResultHashInput(cfg.campaignId, row.batchId, row.result) ==
        ResultHashInput(cfg.campaignId, s.batchId, s.result);
      HashInputParts(cfg.campaignId, s.batchId, s.result);
      BreakInside(InputFront(cfg.campaignId, s.batchId, s.result), AnswerText(s.result));
      assert false;
    }
  }

  lemma BreakInside(front: string, answer: string)
    requires !Without(answer, '\n')
    ensures var input := front + (answer + ['\n']); !Without(input[..|input| - 1], '\n')
  {
    var i :| 0 <= i < |answer| && answer[i] == '\n';
    var input := front + (answer + ['\n']);
    assert input[..|input| - 1][|front| + i] == '\n';
  }

  /** Two hashes behind anything are its last two fields. */
  lemma HashesBehind(s: StoredResult, piece: string)
    requires forall i :: 0 <= i < 2 ==> Clean(HashFields(s)[i])
    ensures var f := Split(piece + (['\t'] + Join(HashFields(s), '\t')), '\t');
      |f| == 16 ==> f[14] == s.result.candidateResultHash
  {
    hide Split, Join;
    SplitBoth(piece, Join(HashFields(s), '\t'), '\t');
    SplitJoin(HashFields(s), '\t');
  }

  lemma CutTail(s: StoredResult) returns (piece: string)
    requires OwnTexts(s) && !Without(AnswerText(s.result), '\n')
    ensures LastLine(RowText(s)) == piece + (['\t'] + Join(HashFields(s), '\t')) && AfterLastNewline(RowText(s)) > 0
  {
    hide AnswerText, RowText, FrontFields, HashFields, Join, AfterLastNewline;
    var body := Join(FrontFields(s), '\t') + (['\t'] + AnswerText(s.result));
    var hashes := ['\t'] + Join(HashFields(s), '\t');
    RowParts(s);
    assert RowText(s) == body + hashes;
    OwnFieldsClean(s);
    JoinWithout(HashFields(s), '\t', '\n');
    TabWithout();
    WithoutBoth(['\t'], Join(HashFields(s), '\t'));
    var n := AfterLastNewline(body);
    if n == 0 {
      assert body[n..] == body;
      WithoutParts(Join(FrontFields(s), '\t'), ['\t'] + AnswerText(s.result));
      WithoutParts(['\t'], AnswerText(s.result));
    }
    piece := body[n..];
    assert (body + hashes)[n..] == piece + hashes;
    WithoutBoth(piece, hashes);
    AfterLastUnique(body + hashes, n);
  }

  // ----- the whole log

  lemma RowsAround(rows: seq<StoredResult>, i: nat)
    requires i < |rows|
    ensures Lines(RowTexts(rows)) ==
      Lines(RowTexts(rows[..i])) + (RowText(rows[i]) + (['\n'] + Lines(RowTexts(rows[i + 1..]))))
    ensures var front := Lines(RowTexts(rows[..i])); front == "" || front[|front| - 1] == '\n'
  {
    hide RowText;
    assert RowTexts(rows) == RowTexts(rows[..i]) + RowTexts(rows[i..]);
    LinesAppend(RowTexts(rows[..i]), RowTexts(rows[i..]));
    RowsHead(rows[i..]);
    assert rows[i..][1..] == rows[i + 1..];
    if i > 0 {
      LinesEndInNewline(RowTexts(rows[..i]));
    }
  }

  /** The line that refuses a row that is not taken: its first one, or of a forgery the last. */
  lemma RefusingLine(cfg: CampaignConfig, fmt: LogFormat, s: StoredResult)
    returns (front: string, line: string, rest: string)
    requires OwnTexts(s) && !Taken(cfg, fmt, s) && (Forged(cfg, fmt, s) ==> UniqueHash(cfg, fmt, s))
    ensures RowText(s) + ['\n'] == front + (line + (['\n'] + rest))
    ensures (front == "" || front[|front| - 1] == '\n') && Without(line, '\n')
    ensures line != "" && ParseRow(cfg, fmt, line) == None
  {
    hide ParseRow, RowText, Taken, OwnTexts, UniqueHash, AnswerText, RowAccepted, AfterLastNewline, FirstLine;
    var text := RowText(s);
    ParseRowText(cfg, fmt, s);
    if Forged(cfg, fmt, s) {
      ForgedIsCut(cfg, fmt, s);
      CutTailRefused(cfg, fmt, s);
      var n := AfterLastNewline(text);
      front, line, rest := text[..n], LastLine(text), "";
      assert text == front + line;
    } else {
      front, line := "", FirstLine(text);
      rest := if line == text then "" else text[|line| + 1..] + ['\n'];
      assert line == text ==> text + ['\n'] == front + (line + (['\n'] + rest));
      assert line != text ==> text == line + (['\n'] + text[|line| + 1..]);
    }
  }

  lemma ForgedIsCut(cfg: CampaignConfig, fmt: LogFormat, s: StoredResult)
    requires Forged(cfg, fmt, s)
    ensures !Without(AnswerText(s.result), '\n')
  {
    hide Split, AnswerText, RowAccepted, ParseU32;
  }

  /** Whatever follows a whole row that is not taken, the log is refused. */
  lemma UntakenRefused(cfg: CampaignConfig, fmt: LogFormat, rows: seq<StoredResult>, i: nat, rest: string)
    requires i < |rows| && OwnTexts(rows[i]) && !Taken(cfg, fmt, rows[i])
    requires Forged(cfg, fmt, rows[i]) ==> UniqueHash(cfg, fmt, rows[i])
    ensures ReadRows(cfg, fmt, GetLines(Lines(RowTexts(rows)) + rest), {}) == Err(RuntimeError)
  {
    hide ParseRow, RowText, RowTexts, Taken, OwnTexts, Forged, UniqueHash, GetLines, Lines;
    RowsAround(rows, i);
    var before, behind := Lines(RowTexts(rows[..i])), Lines(RowTexts(rows[i + 1..])) + rest;
    var front, line, more := RefusingLine(cfg, fmt, rows[i]);
    Around(before, RowText(rows[i]), Lines(RowTexts(rows[i + 1..])), rest, front, line, more);
    var j := LineInside(before + front, line, more + behind);
    OneBadLine(cfg, fmt, GetLines(Lines(RowTexts(rows)) + rest), {}, j);
  }

  lemma Around(before: string, row: string, behind: string, rest: string, front: string, line: string, more: string)
    requires row + ['\n'] == front + (line + (['\n'] + more))
    ensures (before + (row + (['\n'] + behind))) + rest ==
      (before + front) + (line + (['\n'] + (more + (behind + rest))))
  {
    calc {
      (before + (row + (['\n'] + behind))) + rest;
      before + ((row + ['\n']) + (behind + rest));
      before + ((front + (line + (['\n'] + more))) + (behind + rest));
      (before + front) + (line + (['\n'] + (more + (behind + rest))));
    }
  }

  /** A row of the campaign's, the engine's texts being anything; of a forgery the hash is
      unique. */
  ghost predicate Sealed(cfg: CampaignConfig, fmt: LogFormat, s: StoredResult) {
    OwnTexts(s) && (Forged(cfg, fmt, s) ==> UniqueHash(cfg, fmt, s))
  }

  ghost predicate AllSealed(cfg: CampaignConfig, fmt: LogFormat, rows: seq<StoredResult>) {
    forall i :: 0 <= i < |rows| ==> Sealed(cfg, fmt, rows[i])
  }

  // ----- a torn log

  /** How many rows are whole in a beginning of the rows' text. */
  function WholeRows(rows: seq<StoredResult>, kept: nat): (n: nat)
    ensures n <= |rows|
  {
    if rows == [] || kept <= |RowText(rows[0])| then 0
    else 1 + WholeRows(rows[1..], kept - |RowText(rows[0])| - 1)
  }

  /** What it has of the row behind them. */
  function CutText(rows: seq<StoredResult>, kept: nat): string {
    if rows == [] then ""
    else if kept <= |RowText(rows[0])| then RowText(rows[0])[..kept]
    else CutText(rows[1..], kept - |RowText(rows[0])| - 1)
  }

  /** A text all of whose lines are read as rows. */
  ghost predicate AllLinesRead(cfg: CampaignConfig, fmt: LogFormat, text: string) {
    forall i :: 0 <= i < |GetLines(text)| && GetLines(text)[i] != "" ==> ParseRow(cfg, fmt, GetLines(text)[i]).Some?
  }

  /** The beginning of a row passes for other rows. */
  ghost predicate CutReads(cfg: CampaignConfig, fmt: LogFormat, text: string) {
    text != "" && AllLinesRead(cfg, fmt, text)
  }

  lemma {:induction false} BeginningInTwo(rows: seq<StoredResult>, kept: nat)
    requires kept <= |Lines(RowTexts(rows))|
    ensures Lines(RowTexts(rows))[..kept] == Lines(RowTexts(rows[..WholeRows(rows, kept)])) + CutText(rows, kept)
    ensures CutText(rows, kept) != "" ==> WholeRows(rows, kept) < |rows|
  {
    hide RowText, Lines, RowTexts;
    if rows == [] {
      NoLines();
    } else {
      RowsHead(rows);
      var row, rest := RowText(rows[0]), Lines(RowTexts(rows[1..]));
      if kept <= |row| {
        assert (row + (['\n'] + rest))[..kept] == row[..kept];
        assert rows[..0] == [];
        NoLines();
      } else {
        var more, n := kept - |row| - 1, WholeRows(rows, kept);
        BeginningInTwo(rows[1..], more);
        TextBeginning(row, rest, kept);
        assert rows[..n][1..] == rows[1..][..n - 1] && rows[..n][0] == rows[0];
        RowsHead(rows[..n]);
        Regroup(['\n'], Lines(RowTexts(rows[..n][1..])), CutText(rows, kept));
        Regroup(row, ['\n'] + Lines(RowTexts(rows[..n][1..])), CutText(rows, kept));
      }
    }
  }

  lemma TextBeginning(row: string, rest: string, kept: nat)
    requires |row| < kept <= |row + (['\n'] + rest)|
    ensures (row + (['\n'] + rest))[..kept] == row + (['\n'] + rest[..kept - |row| - 1])
  {
  }

  /** Behind the whole rows one more has begun exactly when something is left of it, and
      then a line break of its own is. */
  lemma {:induction false} BegunInTwo(rows: seq<StoredResult>, kept: nat)
    requires EndsLine(Lines(RowTexts(rows)), kept)
    ensures Begun(rows, kept) == WholeRows(rows, kept) + if CutText(rows, kept) == "" then 0 else 1
    ensures CutText(rows, kept) != "" ==>
      WholeRows(rows, kept) < |rows| && !Without(RowText(rows[WholeRows(rows, kept)]), '\n')
  {
    hide RowText, FirstLine;
    if rows != [] {
      RowsHead(rows);
      var row, rest := RowText(rows[0]), Lines(RowTexts(rows[1..]));
      var text := row + (['\n'] + rest);
      if kept == 0 {
      } else if kept <= |row| {
        assert row[kept - 1] == text[kept - 1] == '\n';
        FirstLineWithin(row, kept);
      } else {
        var more := kept - |row| - 1;
        assert more > 0 ==> rest[more - 1] == text[kept - 1];
        BegunInTwo(rows[1..], more);
      }
    }
  }

  lemma FirstLineWithin(row: string, kept: nat)
    requires 0 < kept <= |row| && row[kept - 1] == '\n'
    ensures |FirstLine(row)| < kept
  {
    assert forall i :: 0 <= i < |FirstLine(row)| ==> FirstLine(row)[i] == row[i];
  }

  lemma {:induction false} CutTextBehind(front: seq<StoredResult>, next: seq<StoredResult>, kept: nat)
    ensures CutText(front + next, |Lines(RowTexts(front))| + kept) == CutText(next, kept)
  {
    hide RowText, Lines, RowTexts;
    if front == [] {
      assert front + next == next;
      assert Lines(RowTexts([])) == "" by {
        NoLines();
      }
    } else {
      RowsHead(front);
      assert (front + next)[0] == front[0] && (front + next)[1..] == front[1..] + next;
      CutTextBehind(front[1..], next, kept);
    }
  }

  lemma NoLines()
    ensures Lines(RowTexts([])) == ""
  {
  }

  lemma TakenIsLine(cfg: CampaignConfig, fmt: LogFormat, s: StoredResult)
    requires Sealed(cfg, fmt, s) && Taken(cfg, fmt, s)
    ensures Without(RowText(s), '\n') && RowText(s) != "" && ParseRow(cfg, fmt, RowText(s)) == Some(s)
  {
    hide ParseRow, RowText, RowAccepted, OwnTexts;
    ParseRowText(cfg, fmt, s);
  }

  /** Rows that are taken are read, and whatever follows is read behind them. */
  lemma {:induction false} ReadTaken(cfg: CampaignConfig, fmt: LogFormat, rows: seq<StoredResult>, seen: set<Candidate>)
    requires AllSealed(cfg, fmt, rows) && AllTaken(cfg, fmt, rows) && DistinctCandidates(rows)
    requires forall i :: 0 <= i < |rows| ==> rows[i].result.candidate !in seen
    ensures ReadRows(cfg, fmt, GetLines(Lines(RowTexts(rows))), seen) == Ok(rows)
  {
    hide ParseRow, RowText, Taken, Sealed;
    if rows != [] {
      RowsHead(rows);
      TakenIsLine(cfg, fmt, rows[0]);
      var row, rest := RowText(rows[0]), Lines(RowTexts(rows[1..]));
      GetLinesHead(row, rest);
      hide GetLines, Lines, RowTexts;
      ReadTaken(cfg, fmt, rows[1..], seen + {rows[0].result.candidate});
      assert [rows[0]] + rows[1..] == rows;
    }
  }

  lemma {:induction false} LinesBehind(cfg: CampaignConfig, fmt: LogFormat, rows: seq<StoredResult>, rest: string)
    requires AllSealed(cfg, fmt, rows) && AllTaken(cfg, fmt, rows)
    ensures GetLines(Lines(RowTexts(rows)) + rest) == RowTexts(rows) + GetLines(rest)
  {
    hide ParseRow, RowText, Taken, Sealed, GetLines;
    if rows == [] {
      NoLines();
      assert "" + rest == rest;
    } else {
      RowsHead(rows);
      TakenIsLine(cfg, fmt, rows[0]);
      LinesBehind(cfg, fmt, rows[1..], rest);
      var row, text := RowText(rows[0]), Lines(RowTexts(rows[1..]));
      Regroup(['\n'], text, rest);
      Regroup(row, ['\n'] + text, rest);
      GetLinesHead(row, text + rest);
      assert RowTexts(rows) == [row] + RowTexts(rows[1..]);
    }
  }

  /** What the reader makes of a beginning of written rows that ends with a line: the rows
      that have begun, or a refusal when one of them is not taken; unless what is left of
      the last one passes for other rows. */
  lemma ReadBeginning(cfg: CampaignConfig, fmt: LogFormat, rows: seq<StoredResult>, kept: nat)
    requires AllSealed(cfg, fmt, rows) && DistinctCandidates(rows) && EndsLine(Lines(RowTexts(rows)), kept)
    requires !CutReads(cfg, fmt, CutText(rows, kept))
    ensures var begun := rows[..Begun(rows, kept)];
      && ReadRows(cfg, fmt, GetLines(Lines(RowTexts(rows))[..kept]), {}) ==
        (if AllTaken(cfg, fmt, begun) then Ok(begun) else Err(RuntimeError))
      && (AllTaken(cfg, fmt, begun) ==> Lines(RowTexts(rows))[..kept] == Lines(RowTexts(begun)))
  {
    hide ParseRow, RowText, RowTexts, Taken, Sealed, GetLines, Lines, Begun, WholeRows, CutText;
    BeginningInTwo(rows, kept);
    BegunInTwo(rows, kept);
    var n, cut := WholeRows(rows, kept), CutText(rows, kept);
    var whole, begun := rows[..n], rows[..Begun(rows, kept)];
    if !AllTaken(cfg, fmt, whole) {
      var i :| 0 <= i < |whole| && !Taken(cfg, fmt, whole[i]);
      SealedOnly(cfg, fmt, rows, i);
      UntakenRefused(cfg, fmt, whole, i, cut);
      assert begun[i] == whole[i];
    } else if cut == "" {
      assert begun == whole;
      assert Lines(RowTexts(whole)) + "" == Lines(RowTexts(whole));
      ReadTaken(cfg, fmt, whole, {});
    } else {
      SealedOnly(cfg, fmt, rows, n);
      if Taken(cfg, fmt, rows[n]) {
        TakenIsLine(cfg, fmt, rows[n]);
        assert false;
      }
      assert begun[n] == rows[n];
      LinesBehind(cfg, fmt, whole, cut);
      var i :| 0 <= i < |GetLines(cut)| && GetLines(cut)[i] != "" && ParseRow(cfg, fmt, GetLines(cut)[i]).None?;
      OneBadLine(cfg, fmt, RowTexts(whole) + GetLines(cut), {}, |whole| + i);
    }
  }

  lemma SealedOnly(cfg: CampaignConfig, fmt: LogFormat, rows: seq<StoredResult>, i: nat)
    requires AllSealed(cfg, fmt, rows) && i < |rows|
    ensures Sealed(cfg, fmt, rows[i]) && OwnTexts(rows[i])
      && (Forged(cfg, fmt, rows[i]) ==> UniqueHash(cfg, fmt, rows[i]))
  {
    assert Sealed(cfg, fmt, rows[i]);
  }

  /** A written log is read back exactly when every row's identity and verdict are
      accepted and every residue text is clean, forgeries included. */
  lemma ReadWrittenLog(cfg: CampaignConfig, fmt: LogFormat, rows: seq<StoredResult>)
    requires AllSealed(cfg, fmt, rows) && DistinctCandidates(rows)
    ensures ReadLog(cfg, fmt, LogText(fmt, rows)) == if AllTaken(cfg, fmt, rows) then Ok(rows) else Err(RuntimeError)
  {
    hide RowTexts, ReadRows, GetLines, Lines, Taken, Sealed, DistinctCandidates;
    var text := Lines(RowTexts(rows));
    assert LogText(fmt, rows)[..|fmt.header|] == fmt.header && LogText(fmt, rows)[|fmt.header|..] == text;
    if AllTaken(cfg, fmt, rows) {
      ReadDistinct(cfg, fmt, rows);
    } else {
      var i :| 0 <= i < |rows| && !Taken(cfg, fmt, rows[i]);
      SealedOnly(cfg, fmt, rows, i);
      UntakenRefused(cfg, fmt, rows, i, "");
      assert text + "" == text;
    }
  }

  lemma ReadDistinct(cfg: CampaignConfig, fmt: LogFormat, rows: seq<StoredResult>)
    requires AllSealed(cfg, fmt, rows) && AllTaken(cfg, fmt, rows) && DistinctCandidates(rows)
    ensures ReadRows(cfg, fmt, GetLines(Lines(RowTexts(rows))), {}) == Ok(rows)
  {
    ReadTaken(cfg, fmt, rows, {});
  }
}
