/** The durable state of a campaign, what a crash may leave of it, and the start-up
    that recovers it (src/discovery/native_b8_campaign.cpp). */
module CampaignDisk {
  import opened MachineArithmetic
  import opened Decimal
  import opened DelimitedText
  import opened CampaignLog
  import opened CampaignRefusal
  import opened CampaignBatches
  import opened CampaignCheckpoint
  import opened JsonText
  import opened Durability
  import opened Wrappers

  // ----- what a campaign writes

  /** One campaign: its fixed configuration and immutable queue, and whether the engine
      only answers with what the log's reader accepts. */
  datatype Campaign = Campaign(fmt: LogFormat, cfg: CampaignConfig, corpus: Corpus, validatedEngine: bool) {
    /** What the configuration and corpus checks of run_campaign establish, with an
        identity that can be written to the log. */
    ghost predicate Valid() {
      && fmt.Valid() && Clean(cfg.campaignId) && Clean(cfg.engineBinarySha256) && 0 < cfg.batchSize <= MAX_BATCH_SIZE
      && |corpus.queue| <= MAX_U64 && DistinctQueue(corpus.queue)
    }

    /** A row the campaign wrote for position i of the queue; its verdict is the engine's word. */
    ghost predicate OwnRow(row: StoredResult, i: nat) {
      && i < |corpus.queue| && row.result.candidate == corpus.queue[i] && Sealed(cfg, fmt, row)
      && row.campaignId == cfg.campaignId && row.engineHash == cfg.engineBinarySha256
      && 0 < row.batchSize <= cfg.batchSize && row.result.laneId < row.batchSize
      && row.result.candidateResultHash == fmt.sha256(ResultHashInput(cfg.campaignId, row.batchId, row.result))
      && (validatedEngine ==> Readable(row.result))
    }

    ghost predicate OwnRows(rows: seq<StoredResult>) {
      |rows| <= |corpus.queue| && forall i :: 0 <= i < |rows| ==> OwnRow(rows[i], i)
    }

    /** Whole batches that form an exact prefix of the queue, none after a proven prime. */
    ghost predicate History(batches: Batches) {
      GoodBatches(fmt, batches) && OwnRows(Flat(batches))
    }
  }

  ghost predicate DistinctQueue(queue: seq<Candidate>) {
    forall i, j :: 0 <= i < j < |queue| ==> queue[i] != queue[j]
  }

  ghost predicate AllReadable(rows: seq<StoredResult>) {
    forall i :: 0 <= i < |rows| ==> Readable(rows[i].result)
  }

  lemma OwnRowsRead(c: Campaign, rows: seq<StoredResult>)
    requires c.OwnRows(rows)
    ensures AllSealed(c.cfg, c.fmt, rows) && (DistinctQueue(c.corpus.queue) ==> DistinctCandidates(rows))
    ensures AllTaken(c.cfg, c.fmt, rows) <==> AllReadable(rows)
    ensures c.validatedEngine ==> AllReadable(rows)
  {
    forall i | 0 <= i < |rows|
      ensures Sealed(c.cfg, c.fmt, rows[i]) && (Taken(c.cfg, c.fmt, rows[i]) <==> Readable(rows[i].result))
      ensures c.validatedEngine ==> Readable(rows[i].result)
    {
      assert c.OwnRow(rows[i], i);
    }
    forall i, j | 0 <= i < j < |rows| && DistinctQueue(c.corpus.queue)
      ensures rows[i].result.candidate != rows[j].result.candidate
    {
      assert c.OwnRow(rows[i], i) && c.OwnRow(rows[j], j);
    }
  }

  // ----- the disk

  /** The result log and the checkpoint. The ghost fields say what they mean: the
      durable batches, and how much of the next one a torn append left behind. */
  class Disk {
    var log: Option<string>
    var checkpoint: Option<Checkpoint>
    ghost var batches: Batches
    ghost var next: seq<StoredResult>
    ghost var torn: nat

    constructor ()
      ensures log == None && checkpoint == None && batches == [] && torn == 0
    {
      log, checkpoint := None, None;
      batches, next, torn := [], [], 0;
    }

    ghost predicate Recoverable(c: Campaign)
      reads this
    {
      Durable(c, log, checkpoint, batches, next, torn)
    }

    /** The rows a restart sees something of: the durable ones, and those of a torn batch
        of which at least the first line is whole. */
    ghost function VisibleRows(): seq<StoredResult>
      reads this
    {
      Flat(batches) + SeenOf(next, torn)
    }
  }

  /** What is left of a torn batch when its last, unfinished line is discarded. */
  ghost function Remains(next: seq<StoredResult>, torn: nat): (kept: nat)
    ensures EndsLine(Lines(RowTexts(next)), kept) && kept <= torn
  {
    LastLineEnd(Lines(RowTexts(next)), torn)
  }

  /** Behind the last newline of a beginning of a text. */
  function LastLineEnd(text: string, torn: nat): (kept: nat)
    ensures EndsLine(text, kept) && kept <= torn
  {
    AfterLastNewline(if torn <= |text| then text[..torn] else text)
  }

  ghost function SeenOf(next: seq<StoredResult>, torn: nat): (rows: seq<StoredResult>)
    ensures |rows| <= |next| && rows == next[..|rows|]
  {
    next[..Begun(next, Remains(next, torn))]
  }

  /** The log after a torn append of the next batch. */
  ghost function TornLog(c: Campaign, batches: Batches, next: seq<StoredResult>, torn: nat): string
    requires torn <= |Lines(RowTexts(next))|
  {
    LogText(c.fmt, Flat(batches)) + Lines(RowTexts(next))[..torn]
  }

  /** Whole batches forming an exact prefix of the queue, possibly followed by the
      beginning of the next one that does not pass for other rows; the checkpoint belongs to
      some of those batches. */
  ghost predicate Durable(c: Campaign, log: Option<string>, checkpoint: Option<Checkpoint>, batches: Batches,
                          next: seq<StoredResult>, torn: nat)
  {
    && c.History(batches) && torn <= |Lines(RowTexts(next))|
    && (torn > 0 ==> torn < |Lines(RowTexts(next))| && c.History(batches + [next]))
    && (torn > 0 ==> !CutReads(c.cfg, c.fmt, CutText(next, Remains(next, torn))))
    && (log.None? ==> batches == [] && torn == 0 && checkpoint.None?)
    && (log.Some? ==> log.value == TornLog(c, batches, next, torn))
    && (checkpoint.Some? ==> NotAhead(c, batches, checkpoint.value))
  }

  lemma UntornLog(c: Campaign, batches: Batches, next: seq<StoredResult>)
    ensures TornLog(c, batches, next, 0) == LogText(c.fmt, Flat(batches))
  {
    assert Lines(RowTexts(next))[..0] == "";
    assert LogText(c.fmt, Flat(batches)) + "" == LogText(c.fmt, Flat(batches));
  }

  /** The checkpoint is the one of some of these batches. */
  ghost predicate NotAhead(c: Campaign, batches: Batches, checkpoint: Checkpoint) {
    checkpoint.nextBatchId <= |batches|
    && CheckpointOf(c.fmt, c.cfg, c.corpus, batches[..checkpoint.nextBatchId], checkpoint)
  }

  lemma LogAppend(fmt: LogFormat, a: seq<StoredResult>, b: seq<StoredResult>)
    ensures LogText(fmt, a + b) == LogText(fmt, a) + Lines(RowTexts(b))
  {
    var first, second := RowTexts(a), RowTexts(b);
    assert RowTexts(a + b) == first + second by {
      hide RowText;
    }
    LinesAppend(first, second);
    hide Lines, RowTexts, RowText;
    Regroup(fmt.header, Lines(first), Lines(second));
  }

  lemma LogEndsInNewline(fmt: LogFormat, rows: seq<StoredResult>)
    requires fmt.Valid()
    ensures var text := LogText(fmt, rows); text != "" && text[|text| - 1] == '\n'
  {
    if rows != [] {
      LinesEndInNewline(RowTexts(rows));
    }
  }

  lemma FlatAppend(batches: Batches, batch: seq<StoredResult>)
    ensures Flat(batches + [batch]) == Flat(batches) + batch
  {
    assert (batches + [batch])[..|batches|] == batches;
  }

  lemma RemainsStays(next: seq<StoredResult>, torn: nat)
    requires torn <= |Lines(RowTexts(next))|
    ensures Remains(next, Remains(next, torn)) == Remains(next, torn)
    ensures torn == 0 ==> Remains(next, torn) == 0
  {
    hide Lines, RowTexts;
    var text, kept := Lines(RowTexts(next)), Remains(next, torn);
    assert text[..kept][kept..] == "";
    AfterLastUnique(text[..kept], kept);
  }

  /** Discarding the unfinished last line of a torn log leaves the durable batches and what
      remains of the next one. */
  lemma DiscardLeavesWholeLines(c: Campaign, batches: Batches, next: seq<StoredResult>, torn: nat)
    requires c.fmt.Valid() && torn <= |Lines(RowTexts(next))|
    ensures DiscardTruncatedFinalLine(TornLog(c, batches, next, torn)) ==
      Ok(TornLog(c, batches, next, Remains(next, torn)))
  {
    hide Lines, RowTexts, LogText, Flat;
    LogEndsInNewline(c.fmt, Flat(batches));
    var front, text := LogText(c.fmt, Flat(batches)), Lines(RowTexts(next));
    var kept := Remains(next, torn);
    CutBehind(front, text[..torn]);
    assert text[..torn][..kept] == text[..kept];
  }

  lemma CutBehind(front: string, tail: string)
    requires front != "" && front[|front| - 1] == '\n'
    ensures DiscardTruncatedFinalLine(front + tail) == Ok(front + tail[..AfterLastNewline(tail)])
  {
    hide AfterLastNewline, DiscardTruncatedFinalLine;
    var n, content := AfterLastNewline(tail), front + tail;
    assert content[|front| + n..] == tail[n..] && content[..|front| + n] == front + tail[..n];
    AfterLastUnique(content, |front| + n);
    DiscardAt(content);
  }

  lemma DiscardAt(content: string)
    requires AfterLastNewline(content) > 0
    ensures DiscardTruncatedFinalLine(content) == Ok(content[..AfterLastNewline(content)])
  {
    assert content[..|content|] == content;
  }

  lemma LinesTogether(front: seq<StoredResult>, next: seq<StoredResult>)
    ensures Lines(RowTexts(front + next)) == Lines(RowTexts(front)) + Lines(RowTexts(next))
  {
    assert RowTexts(front + next) == RowTexts(front) + RowTexts(next) by {
      hide RowText;
    }
    LinesAppend(RowTexts(front), RowTexts(next));
  }

  lemma LogOfBoth(c: Campaign, batches: Batches, next: seq<StoredResult>, kept: nat)
    requires kept <= |Lines(RowTexts(next))|
    ensures var rows, before := Flat(batches) + next, |Lines(RowTexts(Flat(batches)))|;
      && before + kept <= |Lines(RowTexts(rows))|
      && TornLog(c, batches, next, kept) == c.fmt.header + Lines(RowTexts(rows))[..before + kept]
  {
    hide Lines, RowTexts, Flat;
    LinesTogether(Flat(batches), next);
    BothTexts(c.fmt.header, Lines(RowTexts(Flat(batches))), Lines(RowTexts(next)), kept);
  }

  lemma BothTexts(header: string, first: string, second: string, kept: nat)
    requires kept <= |second|
    ensures (header + first) + second[..kept] == header + (first + second)[..|first| + kept]
  {
    assert (first + second)[..|first| + kept] == first + second[..kept];
  }

  lemma {:induction false} BegunBehind(front: seq<StoredResult>, next: seq<StoredResult>, kept: nat)
    ensures Begun(front + next, |Lines(RowTexts(front))| + kept) == |front| + Begun(next, kept)
  {
    hide RowText, Begun, Lines, RowTexts;
    if front == [] {
      assert front + next == next;
      NoLines();
    } else {
      RowsHead(front);
      BegunHead(front + next, |Lines(RowTexts(front))| + kept);
      assert (front + next)[0] == front[0] && (front + next)[1..] == front[1..] + next;
      BegunBehind(front[1..], next, kept);
    }
  }

  lemma BegunHead(rows: seq<StoredResult>, kept: nat)
    requires rows != [] && kept >= |RowText(rows[0])| + 1
    ensures Begun(rows, kept) == 1 + Begun(rows[1..], kept - |RowText(rows[0])| - 1)
  {
    hide RowText;
  }

  /** The rows of a recoverable disk are the campaign's own, also those of a torn batch. */
  lemma OwnRowsAll(c: Campaign, d: Disk)
    requires d.Recoverable(c)
    ensures c.OwnRows(Flat(d.batches)) && (d.torn > 0 ==> c.OwnRows(Flat(d.batches) + d.next))
  {
    if d.torn > 0 {
      FlatAppend(d.batches, d.next);
    }
  }

  lemma OwnPrefix(c: Campaign, rows: seq<StoredResult>, n: nat)
    requires c.OwnRows(rows) && n <= |rows|
    ensures c.OwnRows(rows[..n])
  {
    hide Campaign.OwnRow;
  }

  lemma VisibleIsPrefix(c: Campaign, d: Disk)
    requires d.Recoverable(c)
    ensures c.OwnRows(d.VisibleRows()) && (c.validatedEngine ==> AllReadable(d.VisibleRows()))
    ensures d.torn == 0 ==> d.VisibleRows() == Flat(d.batches)
  {
    hide Campaign.OwnRows, Remains, Begun, Flat, Lines, RowTexts, LogText, NotAhead, AllReadable, AllSealed, AllTaken;
    OwnRowsAll(c, d);
    if d.torn == 0 {
      NothingSeen(d.next);
      assert Flat(d.batches) + [] == Flat(d.batches);
    } else {
      var seen := SeenOf(d.next, d.torn);
      PrefixTogether(Flat(d.batches), d.next, |seen|);
      OwnPrefix(c, Flat(d.batches) + d.next, |Flat(d.batches)| + |seen|);
    }
    OwnRowsRead(c, d.VisibleRows());
  }

  lemma NothingSeen(next: seq<StoredResult>)
    ensures SeenOf(next, 0) == []
  {
  }

  /** A torn batch of which whole lines remain is seen. */
  lemma SomethingSeen(next: seq<StoredResult>, torn: nat)
    requires Remains(next, torn) == torn > 0
    ensures SeenOf(next, torn) != []
  {
    hide FirstLine, RowText;
    assert next == [] ==> Lines(RowTexts(next)) == "";
    if next != [] {
      RowsHead(next);
      LinesOfBeginning(RowText(next[0]), Lines(RowTexts(next[1..])), torn);
    }
  }

  lemma PrefixTogether(front: seq<StoredResult>, next: seq<StoredResult>, n: nat)
    requires n <= |next|
    ensures front + next[..n] == (front + next)[..|front| + n]
  {
  }

  /** What the reader makes of the log when its unfinished line is gone: the visible rows,
      or a refusal when one of them cannot be read. */
  lemma ReadVisible(c: Campaign, d: Disk)
    requires c.Valid() && d.Recoverable(c) && d.log.Some? && Remains(d.next, d.torn) == d.torn
    ensures ReadLog(c.cfg, c.fmt, d.log.value) ==
      if AllReadable(d.VisibleRows()) then Ok(d.VisibleRows()) else Err(RuntimeError)
    ensures d.torn > 0 && AllReadable(d.VisibleRows()) ==> |SeenOf(d.next, d.torn)| < |d.next|
  {
    hide Lines, RowTexts, LogText, Flat, GetLines, ReadRows, Begun, Campaign.OwnRows, AllSealed, DistinctCandidates,
      AllTaken, AllReadable,
      Campaign.History, NotAhead, Remains, CutReads, CutText;
    OwnRowsAll(c, d);
    if d.torn == 0 {
      UntornLog(c, d.batches, d.next);
      VisibleIsPrefix(c, d);
      OwnRowsRead(c, Flat(d.batches));
      ReadWrittenLog(c.cfg, c.fmt, Flat(d.batches));
    } else {
      var front, rows := Flat(d.batches), Flat(d.batches) + d.next;
      var before := |Lines(RowTexts(front))|;
      LogOfBoth(c, d.batches, d.next, d.torn);
      BegunBehind(front, d.next, d.torn);
      CutTextBehind(front, d.next, d.torn);
      OwnRowsRead(c, rows);
      TornEndsLine(front, d.next, d.torn);
      ReadBeginning(c.cfg, c.fmt, rows, before + d.torn);
      var begun := rows[..|front| + Begun(d.next, d.torn)];
      assert begun == d.VisibleRows();
      OwnPrefix(c, rows, |begun|);
      OwnRowsRead(c, begun);
      var text := Lines(RowTexts(rows))[..before + d.torn];
      assert d.log.value[..|c.fmt.header|] == c.fmt.header && d.log.value[|c.fmt.header|..] == text;
      if |begun| == |rows| {
        assert begun == rows;
        LinesTogether(front, d.next);
      }
    }
  }

  lemma TornEndsLine(front: seq<StoredResult>, next: seq<StoredResult>, torn: nat)
    requires EndsLine(Lines(RowTexts(next)), torn)
    ensures EndsLine(Lines(RowTexts(front + next)), |Lines(RowTexts(front))| + torn)
  {
    LinesTogether(front, next);
    EndsWithLine(RowTexts(front));
    hide Lines, RowTexts;
  }

  /** The visible rows are whole batches and the beginning of another. */
  lemma VisibleBatches(c: Campaign, d: Disk)
    requires c.Valid() && d.Recoverable(c) && (d.torn > 0 ==> |SeenOf(d.next, d.torn)| < |d.next|)
    ensures ValidateFrom(c.fmt, d.VisibleRows(), 0, InitialState(c.fmt)) ==
      Ok(StateOf(c.fmt, d.batches).(completeResultCount := |Flat(d.batches)|,
        incompleteFinalBatch := SeenOf(d.next, d.torn) != []))
  {
    hide ValidateFrom, StateOf, Lines, RowTexts, LogText, NotAhead, Remains, Campaign.OwnRows;
    var seen := SeenOf(d.next, d.torn);
    if d.torn == 0 {
      NothingSeen(d.next);
    } else {
      var longer := d.batches + [d.next];
      assert GoodBatch(c.fmt, longer[|d.batches|], |d.batches|);
      assert forall j :: 0 <= j < |d.batches| ==> longer[j] == d.batches[j];
      assert seen != [] ==> seen[0] == d.next[0];
    }
    ValidateWritten(c.fmt, d.batches, seen);
  }

  /** write_checkpoint_atomically on the log: all of the new content or all of the old. */
  method ReplaceLog(d: Disk, content: string, fate: Fate) returns (alive: bool)
    modifies d`log
    ensures alive <==> fate.Completes?
    ensures d.log == if TakesEffect(fate) then Some(content) else old(d.log)
  {
    if TakesEffect(fate) {
      d.log := Some(content);
    }
    alive := fate.Completes?;
  }

  method ReplaceCheckpoint(d: Disk, content: Checkpoint, fate: Fate) returns (alive: bool)
    modifies d`checkpoint
    ensures alive <==> fate.Completes?
    ensures d.checkpoint == if TakesEffect(fate) then Some(content) else old(d.checkpoint)
  {
    if TakesEffect(fate) {
      d.checkpoint := Some(content);
    }
    alive := fate.Completes?;
  }

  /** append_file_durably: a crash keeps any prefix of the appended bytes. */
  method AppendLog(d: Disk, content: string, fate: Fate) returns (alive: bool)
    requires d.log.Some?
    modifies d`log
    ensures alive <==> fate.Completes?
    ensures d.log == Some(old(d.log.value) + content[..Kept(fate, |content|)])
  {
    d.log := Some(d.log.value + content[..Kept(fate, |content|)]);
    alive := fate.Completes?;
  }
}
