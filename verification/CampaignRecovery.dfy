/** The start-up of a campaign: what it recovers after a crash and what it refuses
    (src/discovery/native_b8_campaign.cpp). */
module CampaignRecovery {
  import opened MachineArithmetic
  import opened Decimal
  import opened DelimitedText
  import opened CampaignLog
  import opened CampaignBatches
  import opened CampaignCheckpoint
  import opened CampaignDisk
  import opened Durability
  import opened Wrappers

  // ----- start-up

  lemma EmptyLog(fmt: LogFormat)
    ensures LogText(fmt, Flat([])) == fmt.header
  {
    assert RowTexts([]) == [];
  }

  /** ensure_result_log */
  method EnsureLog(c: Campaign, d: Disk, fate: Fate) returns (alive: bool)
    requires c.Valid() && d.Recoverable(c)
    modifies d`log
    ensures d.Recoverable(c) && (alive ==> d.log.Some?)
    ensures fate.Completes? ==> alive
    ensures old(d.log.Some?) ==> alive && d.log == old(d.log)
  {
    alive := true;
    if d.log.None? {
      EmptyLog(c.fmt);
      UntornLog(c, d.batches, d.next);
      alive := ReplaceLog(d, c.fmt.header, fate);
    }
  }

  /** What is left when the unfinished line of a torn batch is gone. */
  lemma RemainsDurable(c: Campaign, log: Option<string>, checkpoint: Option<Checkpoint>, batches: Batches,
                       next: seq<StoredResult>, torn: nat)
    requires Durable(c, log, checkpoint, batches, next, torn) && log.Some?
    ensures var kept := Remains(next, torn);
      Durable(c, Some(TornLog(c, batches, next, kept)), checkpoint, batches, next, kept)
  {
    hide Campaign.History, TornLog, NotAhead, Lines, RowTexts;
  }

  /** discard_truncated_final_line on the log: what a restart sees does not change. */
  method DiscardTail(c: Campaign, d: Disk, fate: Fate) returns (alive: bool)
    requires c.Valid() && d.Recoverable(c) && d.log.Some?
    modifies d`log, d`torn
    ensures d.Recoverable(c) && d.log.Some? && d.VisibleRows() == old(d.VisibleRows())
    ensures alive ==> Remains(d.next, d.torn) == d.torn
    ensures !alive ==> !fate.Completes?
  {
    hide Campaign.Valid, Campaign.History, LogText, DiscardTruncatedFinalLine, Lines, RowTexts, Flat, Remains, Begun,
      NotAhead, LogFormat.Valid;
    FormatValid(c);
    RemainsStays(d.next, d.torn);
    DiscardLeavesWholeLines(c, d.batches, d.next, d.torn);
    RemainsDurable(c, d.log, d.checkpoint, d.batches, d.next, d.torn);
    var content := d.log.value;
    var kept := DiscardTruncatedFinalLine(content).value;
    alive := true;
    if kept != content {
      alive := ReplaceLog(d, kept, fate);
    }
    if d.log == Some(kept) {
      d.torn := Remains(d.next, d.torn);
    }
  }

  lemma FormatValid(c: Campaign)
    requires c.Valid()
    ensures c.fmt.Valid()
  {
  }

  lemma WholeBatchesDurable(c: Campaign, log: Option<string>, checkpoint: Option<Checkpoint>, batches: Batches,
                            next: seq<StoredResult>, torn: nat)
    requires Durable(c, log, checkpoint, batches, next, torn) && log.Some?
    ensures Durable(c, Some(LogText(c.fmt, Flat(batches))), checkpoint, batches, next, 0)
  {
    UntornLog(c, batches, next);
    hide Campaign.History, TornLog, LogText, NotAhead, Lines;
  }

  /** Rewriting the log without the rows of an incomplete final batch. */
  method DropIncomplete(c: Campaign, d: Disk, rows: seq<StoredResult>, fate: Fate) returns (alive: bool)
    requires c.Valid() && d.Recoverable(c) && d.log.Some? && rows == Flat(d.batches)
    modifies d`log, d`torn
    ensures d.Recoverable(c) && alive == fate.Completes?
    ensures alive ==> d.torn == 0 && d.log.Some?
  {
    hide Campaign.Valid, Campaign.History, Flat, Lines, RowTexts, NotAhead;
    WholeBatchesDurable(c, d.log, d.checkpoint, d.batches, d.next, d.torn);
    var text := SerializeResultRows(rows);
    alive := ReplaceLog(d, c.fmt.header + text, fate);
    if fate.Completes? || fate.CrashesAfter? {
      d.torn := 0;
    }
  }

  /** The durable rows lie on the queue. */
  method MatchQueue(rows: seq<StoredResult>, queue: seq<Candidate>) returns (matches: bool)
    ensures matches <==> |rows| <= |queue| && forall i :: 0 <= i < |rows| ==> rows[i].result.candidate == queue[i]
  {
    if |rows| > |queue| {
      return false;
    }
    var index := 0;
    while index < |rows|
      invariant 0 <= index <= |rows|
      invariant forall i :: 0 <= i < index ==> rows[i].result.candidate == queue[i]
    {
      if rows[index].result.candidate != queue[index] {
        return false;
      }
      index := index + 1;
    }
    return true;
  }

  datatype Startup = StartupCrashed | StartupRefused | Started(stored: seq<StoredResult>, nextBatchId: nat,
    chain: string, lastHash: string)

  lemma OffsetsInQueue(c: Campaign, batches: Batches)
    requires c.History(batches)
    ensures var s := StateOf(c.fmt, batches);
      && |s.batchEndOffsets| == |s.resultChainHashes| == |s.lastBatchHashes| == s.nextBatchId + 1
        && s.nextBatchId == |batches|
      && forall j :: 0 <= j <= s.nextBatchId ==> s.batchEndOffsets[j] <= |c.corpus.queue|
  {
    StateShape(c.fmt, batches);
    forall j | 0 <= j <= |batches|
      ensures StateOf(c.fmt, batches).batchEndOffsets[j] <= |c.corpus.queue|
    {
      StateEntries(c.fmt, batches, j);
      if j < |batches| {
        FlatPrefix(batches, j);
      } else {
        assert batches[..j] == batches;
      }
    }
  }

  /** The recovery before the first batch. Without a crash it is refused exactly when a
      visible row cannot be read or the checkpoint is not resumable; otherwise it ends
      with the durable batches and nothing else. */
  method Recover(c: Campaign, d: Disk, fate: nat -> Fate) returns (r: Startup)
    requires c.Valid() && d.Recoverable(c)
    modifies d`log, d`torn
    ensures d.Recoverable(c) && (!AllReadable(old(d.VisibleRows())) ==> d.VisibleRows() == old(d.VisibleRows()))
    ensures !r.StartupCrashed? ==>
      (r.Started? <==>
        && AllReadable(old(d.VisibleRows()))
        && ResumableCheckpoint(c.cfg, d.checkpoint))
    ensures r.Started? ==> d.log.Some? && d.torn == 0 && r.stored == Flat(d.batches)
    ensures r.Started? ==>
      r.nextBatchId == |d.batches| && r.chain == Chain(c.fmt, d.batches) && r.lastHash == LastHash(d.batches)
    ensures (forall i :: fate(i).Completes?) ==> !r.StartupCrashed?
  {
    hide Campaign.Valid, Campaign.History, LogText, Flat, Chain, AllReadable, ValidateFrom, ReadLog, StateOf,
      Disk.Recoverable, Remains, Begun,
      Lines, RowTexts;
    var alive := EnsureLog(c, d, fate(0));
    if !alive {
      return StartupCrashed;
    }
    alive := DiscardTail(c, d, fate(1));
    if !alive {
      return StartupCrashed;
    }
    ReadVisible(c, d);
    var read := ReadResults(c.cfg, c.fmt, d.log.value);
    if read.Err? {
      return StartupRefused;
    }
    r := RecoverBatches(c, d, read.value, fate(2));
  }

  /** The part of the recovery after the rows have been read. */
  method RecoverBatches(c: Campaign, d: Disk, rows: seq<StoredResult>, fate: Fate) returns (r: Startup)
    requires c.Valid() && d.Recoverable(c) && d.log.Some? && rows == d.VisibleRows()
    requires Remains(d.next, d.torn) == d.torn && (d.torn > 0 ==> |SeenOf(d.next, d.torn)| < |d.next|)
    modifies d`log, d`torn
    ensures d.Recoverable(c)
    ensures !r.StartupCrashed? ==> (r.Started? <==> ResumableCheckpoint(c.cfg, d.checkpoint))
    ensures r.Started? ==> d.log.Some? && d.torn == 0 && r.stored == Flat(d.batches)
    ensures r.Started? ==>
      r.nextBatchId == |d.batches| && r.chain == Chain(c.fmt, d.batches) && r.lastHash == LastHash(d.batches)
    ensures fate.Completes? ==> !r.StartupCrashed?
  {
    hide Campaign.Valid, Campaign.History, LogText, Flat, Chain, ValidateFrom, StateOf, Disk.Recoverable, Remains,
      Begun, Lines, RowTexts;
    VisibleBatches(c, d);
    var validated := ValidateResultBatches(c.fmt, rows);
    var stored, state := rows, validated.value;
    assert rows[..|Flat(d.batches)|] == Flat(d.batches);
    if d.torn > 0 {
      SomethingSeen(d.next, d.torn);
    } else {
      VisibleIsPrefix(c, d);
      NothingSeen(d.next);
    }
    if state.incompleteFinalBatch {
      stored := stored[..state.completeResultCount];
      var alive := DropIncomplete(c, d, stored, fate);
      if !alive {
        return StartupCrashed;
      }
      VisibleIsPrefix(c, d);
      NothingSeen(d.next);
      VisibleBatches(c, d);
      validated := ValidateResultBatches(c.fmt, stored);
      state := validated.value;
    }
    r := AcceptBatches(c, d, stored, state);
  }

  method AcceptBatches(c: Campaign, d: Disk, stored: seq<StoredResult>, state: DurableResultState) returns (r: Startup)
    requires c.Valid() && d.Recoverable(c) && d.log.Some? && d.torn == 0 && stored == Flat(d.batches)
    requires state == StateOf(c.fmt, d.batches).(completeResultCount := |Flat(d.batches)|,
      incompleteFinalBatch := false)
    ensures r.Started? <==> ResumableCheckpoint(c.cfg, d.checkpoint)
    ensures !r.StartupCrashed?
    ensures r.Started? ==> r.stored == Flat(d.batches)
    ensures r.Started? ==>
      r.nextBatchId == |d.batches| && r.chain == Chain(c.fmt, d.batches) && r.lastHash == LastHash(d.batches)
  {
    hide StateOf, Chain, Flat, ZeroHash, BatchResult, GoodBatches, LogText, Lines, RowTexts, CheckpointOf, Resumable,
      IdentityPrintable, Campaign.OwnRow, Counts, IdentityMatches, LastHash;
    LastRowHash(c, d.batches);
    OffsetsInQueue(c, d.batches);
    LastFields(c.fmt, d.batches);
    QueueRows(c, stored);
    var matches := MatchQueue(stored, c.corpus.queue);
    if !matches {
      return StartupRefused;
    }
    if d.checkpoint.Some? {
      CheckpointVerdict(c.fmt, c.cfg, c.corpus, d.batches, d.checkpoint.value);
    }
    var accepted := ValidateCheckpoint(c.fmt, c.cfg, c.corpus, state, d.checkpoint);
    if accepted.Err? {
      return StartupRefused;
    }
    var chain := state.resultChainHashes[|state.resultChainHashes| - 1];
    return Started(stored, state.nextBatchId, chain, if stored == [] then ZeroHash()
      else stored[|stored| - 1].batchResultHash);
  }

  lemma LastRowHash(c: Campaign, batches: Batches)
    requires c.History(batches)
    ensures var rows := Flat(batches); LastHash(batches) == if rows == [] then ZeroHash()
      else rows[|rows| - 1].batchResultHash
  {
    hide OrderedBatchHash, BatchHash, Campaign.OwnRows, HasPrime;
    if batches != [] {
      assert GoodBatch(c.fmt, batches[|batches| - 1], |batches| - 1);
    }
  }

  lemma QueueRows(c: Campaign, rows: seq<StoredResult>)
    requires c.OwnRows(rows)
    ensures |rows| <= |c.corpus.queue| && forall i :: 0 <= i < |rows| ==> rows[i].result.candidate == c.corpus.queue[i]
  {
    forall i | 0 <= i < |rows|
      ensures rows[i].result.candidate == c.corpus.queue[i]
    {
      assert c.OwnRow(rows[i], i);
    }
  }
}
