/** The files of the modular batch pipeline: the result ledger, the checkpoint document
    and the event log, and what a crash leaves of each (src/pipeline/modular_pipeline.cpp). */
module ModularDisk {
  import opened MachineArithmetic
  import opened DelimitedText
  import opened Durability
  import opened EventLog
  import opened Hexadecimal
  import opened JsonText
  import opened ModularCheckpoint
  import opened ModularLedger
  import RuntimeCheckpoint
  import opened Wrappers

  // ----- the fixed part of a run

  /** Tasks, identity and options; the digests are unknown functions. */
  datatype Job = Job(
    tasks: seq<Task>, campaignId: string, tasksSha256: string, backends: nat, batchSize: nat, sha256: string -> string)
  {
    /** What the constructor and run check before anything is submitted; digests are 64
        hexadecimal digits and the whole ledger has a 64-bit size. */
    ghost predicate Valid() {
      && Usable(tasks) && campaignId != "" && backends > 0 && batchSize > 0
      && Hashes(sha256) && CanonicalDigest(tasksSha256) && |Records(tasks, 0, |tasks|)| <= MAX_U64
    }
  }

  // ----- the disk

  class Disk {
    var ledger: string  // empty when the file is absent
    var checkpoint: Option<string>
    var events: string
    ghost var saved: Option<Checkpoint>
    ghost var logged: seq<Event>

    constructor ()
      ensures ledger == "" && checkpoint == None && events == "" && saved == None && logged == []
    {
      ledger, checkpoint, events := "", None, "";
      saved, logged := None, [];
    }

    /** The checkpoint's part of the ledger is exact; behind it a crash may have left anything. */
    ghost predicate LedgerRecoverable(job: Job)
      reads this
      requires job.Valid()
    {
      && Stored(job, checkpoint, saved)
      && match saved
         case None => ledger == ""
         case Some(c) => CheckpointHolds(job, c, ledger)
    }

    /** Behind the records of the event log a crash may have left the beginning of another. */
    ghost predicate Recoverable(job: Job)
      reads this
      requires job.Valid()
    {
      LedgerRecoverable(job) && Holds(job.campaignId, logged, events)
    }

    ghost function Progress(): nat
      reads this
    {
      match saved
      case None => 0
      case Some(c) => c.progress
    }

    /** No run gets past its start: the event log is torn or has used its last number, or
        the saved campaign id cannot be read back. */
    ghost predicate Stuck(job: Job)
      reads this
    {
      Torn(events) || |logged| >= MAX_U64 || (checkpoint.Some? && !Reloadable(job.campaignId))
    }
  }

  /** The checkpoint file is the document of what was saved last. */
  ghost predicate Stored(job: Job, checkpoint: Option<string>, saved: Option<Checkpoint>) {
    match saved
    case None => checkpoint == None
    case Some(c) => checkpoint == Some(RuntimeCheckpoint.Document(job.sha256, c.State()))
  }

  ghost predicate CheckpointHolds(job: Job, c: Checkpoint, ledger: string)
    requires job.Valid()
  {
    && c.campaignId == job.campaignId && c.tasksSha256 == job.tasksSha256 && c.progress <= |job.tasks|
    && c.ledgerBytes <= |ledger| && ledger[..c.ledgerBytes] == Records(job.tasks, 0, c.progress)
    && c.ledgerSha256 == job.sha256(Records(job.tasks, 0, c.progress))
  }

  /** append_durably, with any prefix left by a crash. */
  method Append(d: Disk, content: string, fate: Fate) returns (alive: bool)
    modifies d`ledger
    ensures alive == fate.Completes? && d.ledger == old(d.ledger) + content[..Kept(fate, |content|)]
  {
    d.ledger := d.ledger + content[..Kept(fate, |content|)];
    alive := fate.Completes?;
  }

  /** save: an atomic replacement of the document. */
  method Save(job: Job, d: Disk, c: Checkpoint, fate: Fate) returns (alive: bool)
    requires Stored(job, d.checkpoint, d.saved)
    modifies d`checkpoint, d`saved
    ensures alive == fate.Completes? && Stored(job, d.checkpoint, d.saved)
    ensures d.saved == (if TakesEffect(fate) then Some(c) else old(d.saved))
  {
    if TakesEffect(fate) {
      d.checkpoint := Some(RuntimeCheckpoint.Document(job.sha256, c.State()));
      d.saved := Some(c);
    }
    alive := fate.Completes?;
  }

  // ----- the event log

  /** The part of a record that a crash leaves is neither nothing nor everything. */
  predicate Tears(fate: Fate, size: nat) {
    0 < Kept(fate, size) < size
  }

  class Logger {
    var next: u64

    constructor (next: u64)
      ensures this.next == next
    {
      this.next := next;
    }
  }

  /** The log is whole and the logger knows its next number. */
  ghost predicate LogSynced(job: Job, d: Disk, logger: Logger)
    reads d, logger
  {
    && AllPlain(d.logged) && d.events == EventText(job.campaignId, d.logged) && logger.next == NumberAt(|d.logged|)
  }

  datatype Logged = Appended | Exhausted | LogCrashed

  /** The beginning of a record behind whole records leaves a log that holds them. */
  lemma PartHolds(job: Job, logged: seq<Event>, e: Event, kept: nat)
    requires AllPlain(logged) && Plain(e)
    ensures var record := EventLine(job.campaignId, NumberAt(|logged|), e) + "\n"; var text :=
      EventText(job.campaignId, logged);
      && (kept < |record| ==> Holds(job.campaignId, logged, text + record[..kept]))
      && (kept == |record| ==>
        Holds(job.campaignId, logged + [e], text + record) && text + record == EventText(job.campaignId, logged + [e]))
      && AllPlain(logged + [e])
  {
    hide EventText, EventLine, Plain, NumberAt;
    var line, text := EventLine(job.campaignId, NumberAt(|logged|), e), EventText(job.campaignId, logged);
    var record := line + "\n";
    LineWithoutNewline(job.campaignId, NumberAt(|logged|), e);
    EventTextSnoc(job.campaignId, logged, e);
    if kept < |record| {
      PartWithout(line, kept);
      assert (text + record[..kept])[|text|..] == record[..kept];
    } else {
      assert (text + record)[|text + record|..] == "";
    }
  }

  lemma PartWithout(line: string, kept: nat)
    requires Without(line, '\n') && kept <= |line|
    ensures Without((line + "\n")[..kept], '\n')
  {
  }

  /** BenchmarkLogger::append: the record is written and flushed before the counter moves;
      behind the largest number it throws. On a log nobody knows only that much is said. */
  method LogEvent(job: Job, d: Disk, logger: Logger, e: Event, fate: Fate, ghost known: bool) returns (r: Logged)
    requires known ==> LogSynced(job, d, logger)
    requires Plain(e)
    modifies d`events, d`logged, logger
    ensures r.LogCrashed? <==> !fate.Completes?
    ensures r.Exhausted? <==> fate.Completes? && old(logger.next) == MAX_U64
    ensures old(|d.logged|) <= |d.logged| <= old(|d.logged|) + 1
    ensures known && !r.LogCrashed? ==> LogSynced(job, d, logger) && d.logged == old(d.logged) + [e]
    ensures known ==> Holds(job.campaignId, d.logged, d.events)
    ensures known ==> (Torn(d.events) <==> Tears(fate, |EventLine(job.campaignId, NumberAt(old(|d.logged|)), e)| + 1))
    ensures known && Torn(d.events) ==> fate.CrashesAt?
  {
    hide EventText, EventLine, Plain;
    var record := EventLine(job.campaignId, logger.next, e) + "\n";
    var kept := Kept(fate, |record|);
    assert record[..|record|] == record;
    if known {
      PartHolds(job, d.logged, e, kept);
    }
    d.events := d.events + record[..kept];
    if kept == |record| {
      d.logged := d.logged + [e];
    }
    if known {
      ReopenVerdict(job.campaignId, d.logged, d.events);
    }
    if !fate.Completes? {
      return LogCrashed;
    }
    if logger.next == MAX_U64 {
      return Exhausted;
    }
    logger.next := logger.next + 1;
    return Appended;
  }
}
