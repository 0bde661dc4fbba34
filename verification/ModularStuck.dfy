/** The two ways in which the modular pipeline never starts again, each at an input
    (src/pipeline/modular_pipeline.cpp, src/runtime/benchmark_logger.cpp,
    src/runtime/checkpoint_manager.cpp). */
module ModularStuck {
  import opened NumberTheory
  import opened MachineArithmetic
  import opened Decimal
  import opened DelimitedText
  import opened Durability
  import opened EventLog
  import opened Hexadecimal
  import opened JsonText
  import opened ModularDisk
  import opened ModularEvents
  import opened ModularLedger
  import opened ModularPipeline
  import opened Wrappers

  /** A crash in the middle of the very first record: the second run, and every later one, is refused. */
  method TornStartIsFinal(job: Job, env: Environment, later: Environment) returns (first: Outcome, second: Outcome)
    requires job.Valid() && env.openFate.Completes? && later.openFate.Completes?
    requires env.eventFate(1) == CrashesAt(1)
    ensures first == Crashed && second == Refused
  {
    hide Records, Expected, Reloadable, Holds, CheckpointHolds, Stored, EventText, StartEvent, Plain;
    var d := new Disk();
    NewDisk(job, d);
    assert |EventLine(job.campaignId, 1, StartEvent(job, 0, env.clock(1)))| > 0;
    first := Run(job, d, env);
    second := Run(job, d, later);
  }

  lemma NewDisk(job: Job, d: Disk)
    requires job.Valid() && d.ledger == "" && d.checkpoint == None && d.events == "" && d.saved == None
      && d.logged == []
    ensures d.Recoverable(job) && !d.Stuck(job)
  {
    assert EventText(job.campaignId, []) == "";
  }

  /** Under a campaign id the checkpoint cannot give back the first run completes and the
      second is refused. */
  method UnreadableIdRunsOnce(job: Job, env: Environment, later: Environment) returns (first: Outcome, second: Outcome)
    requires job.Valid() && !Reloadable(job.campaignId) && 2 * |job.tasks| + 2 < MAX_U64
    requires env.Undisturbed(job) && later.openFate.Completes?
    ensures first.Done? && first.complete && second == Refused
  {
    hide Records, Expected, Holds, CheckpointHolds, Stored, EventText, StartEvent, Plain, Environment.Undisturbed,
      Reloadable;
    UndisturbedOpens(job, env);
    var d := new Disk();
    NewDisk(job, d);
    first := Run(job, d, env);
    SavedIsStored(job, d);
    second := Run(job, d, later);
  }

  lemma UndisturbedOpens(job: Job, env: Environment)
    requires job.Valid() && env.Undisturbed(job)
    ensures env.openFate.Completes?
  {
  }

  lemma SavedIsStored(job: Job, d: Disk)
    requires job.Valid() && Stored(job, d.checkpoint, d.saved) && d.saved.Some?
    ensures d.checkpoint.Some?
  {
  }

  // ----- concrete inputs for both

  function Zeros(s: string): string {
    seq(64, i => '0')
  }

  lemma ZerosHash()
    ensures Hashes(Zeros)
  {
    assert forall s: string :: CanonicalDigest(Zeros(s));
  }

  function SmallJob(campaignId: string, tasks: seq<Task>): Job {
    Job(tasks, campaignId, Zeros(""), 1, 1, Zeros)
  }

  function OneTask(): seq<Task> {
    [Task(0, 0, 1)]
  }

  lemma SmallJobValid(campaignId: string, tasks: seq<Task>)
    requires campaignId != "" && (tasks == [] || tasks == OneTask())
    ensures SmallJob(campaignId, tasks).Valid()
  {
    hide CanonicalDigest, Zeros;
    ZerosHash();
    if tasks == OneTask() {
      OneRecordFits();
    }
  }

  lemma OneRecordFits()
    ensures Usable(OneTask()) && |Records(OneTask(), 0, 1)| <= MAX_U64
  {
    var t := OneTask()[0];
    assert Expected(t) == 0;
    assert Records(OneTask(), 0, 0) == "";
    assert ToDecimal(0) == "0" && ToDecimal(1) == "1";
    assert Records(OneTask(), 0, 1) == LedgerRecord(0, t, 0);
    assert |RecordPrefix(0, t)| < 1000 && |RecordSuffix(t)| < 1000;
  }

  function Never(i: nat): bool { false }
  function NoResidues(i: nat): Option<seq<u64>> { Some([]) }
  function Whole(i: nat): Fate { Completes }
  function WholeEvent(i: u64): Fate { Completes }
  function FirstTorn(i: u64): Fate { if i == 1 then CrashesAt(1) else Completes }
  function Noon(i: u64): Utc { "2026" }

  function Quiet(eventFate: u64 -> Fate): Environment {
    Environment(false, Never, Never, NoResidues, Completes, Whole, Whole, eventFate, Noon)
  }

  /** One task, and a crash while its first event is appended. */
  method OneTaskTornStart() returns (first: Outcome, second: Outcome)
    ensures first == Crashed && second == Refused
  {
    hide Job.Valid, Noon;
    SmallJobValid("c", OneTask());
    first, second := TornStartIsFinal(SmallJob("c", OneTask()), Quiet(FirstTorn), Quiet(WholeEvent));
  }

  /** No task, and the one-character campaign id with code 1. */
  method UnreadableIdOfOneCharacter() returns (first: Outcome, second: Outcome)
    ensures first.Done? && first.complete && second == Refused
  {
    hide Job.Valid, Noon;
    var job := SmallJob([1 as char], []);
    SmallJobValid([1 as char], []);
    assert IsControl(job.campaignId[0]) && !IsShortControl(job.campaignId[0]);
    QuietIsUndisturbed(job);
    first, second := UnreadableIdRunsOnce(job, Quiet(WholeEvent), Quiet(WholeEvent));
  }

  lemma QuietIsUndisturbed(job: Job)
    requires job.Valid() && job.tasks == []
    ensures Quiet(WholeEvent).Undisturbed(job)
  {
    hide Job.Valid;
    JobFacts(job);
    forall begin: nat | begin <= |job.tasks|
      ensures AnswersExactly(job, Quiet(WholeEvent).answer(begin), begin, BatchCount(job, begin))
    {
      assert NoResidues(begin) == Some([]);
    }
  }
}
