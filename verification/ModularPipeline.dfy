/** The modular batch pipeline: bounded in-flight batches, commits in order, and a
    ledger that survives crashes (src/pipeline/modular_pipeline.cpp). */
module ModularPipeline {
  import opened NumberTheory
  import opened MachineArithmetic
  import opened Decimal
  import opened DelimitedText
  import opened Durability
  import opened EventLog
  import opened Hexadecimal
  import opened JsonText
  import opened ModularCheckpoint
  import opened ModularDisk
  import opened ModularEvents
  import opened ModularLedger
  import RuntimeCheckpoint
  import opened Wrappers

  // ----- the process

  datatype PendingBatch = PendingBatch(backend: nat, begin: nat, count: nat)

  /** The size of a batch that begins here. */
  function BatchCount(job: Job, begin: nat): nat
    requires begin <= |job.tasks|
  {
    if job.batchSize < |job.tasks| - begin then job.batchSize else |job.tasks| - begin
  }

  predicate FitsAt(job: Job, b: PendingBatch, begin: nat) {
    b.begin == begin < |job.tasks| && b.count == BatchCount(job, begin)
  }

  /** Pending batches tile a range in order. */
  ghost predicate Tiles(job: Job, pending: seq<PendingBatch>, begin: nat, end: nat) {
    if pending == [] then begin == end
    else FitsAt(job, pending[0], begin) && Tiles(job, pending[1..], begin + pending[0].count, end)
  }

  lemma {:induction false} TilesAppend(job: Job, pending: seq<PendingBatch>, begin: nat, end: nat, b: PendingBatch)
    requires Tiles(job, pending, begin, end) && FitsAt(job, b, end)
    ensures Tiles(job, pending + [b], begin, end + b.count) && begin <= end
    decreases |pending|
  {
    if pending == [] {
      assert pending + [b] == [b] && [b][1..] == [];
    } else {
      assert (pending + [b])[1..] == pending[1..] + [b];
      TilesAppend(job, pending[1..], begin + pending[0].count, end, b);
    }
  }

  lemma {:induction false} TilesOrdered(job: Job, pending: seq<PendingBatch>, begin: nat, end: nat)
    requires Tiles(job, pending, begin, end) && job.batchSize > 0
    ensures begin <= end && (pending == [] <==> begin == end)
    decreases |pending|
  {
    if pending != [] {
      TilesOrdered(job, pending[1..], begin + pending[0].count, end);
    }
  }

  function BackendsOf(pending: seq<PendingBatch>): (s: seq<nat>)
    ensures |s| == |pending|
  {
    seq(|pending|, i requires 0 <= i < |pending| => pending[i].backend)
  }

  ghost function AllBackends(n: nat): multiset<nat> {
    if n == 0 then multiset{} else AllBackends(n - 1) + multiset{n - 1}
  }

  class Process {
    var pending: seq<PendingBatch>
    var available: seq<nat>
    var committed: nat
    var nextToSubmit: nat
    var ledgerContent: string
    var residues: seq<u64>
    var stopping: bool

    /** The pending batches tile [committed, nextToSubmit), every backend is free or in
        exactly one of them, and what is committed is exact. */
    ghost predicate Valid(job: Job)
      reads this
      requires job.Valid()
    {
      && committed <= nextToSubmit <= |job.tasks| && Tiles(job, pending, committed, nextToSubmit)
      && multiset(available) + multiset(BackendsOf(pending)) == AllBackends(job.backends)
      && ledgerContent == Records(job.tasks, 0, committed)
      && |residues| == committed && forall i :: 0 <= i < committed ==> residues[i] == Expected(job.tasks[i])
    }

    constructor (job: Job, committed: nat, ledger: string, residues: seq<u64>, stopping: bool)
      requires job.Valid() && committed <= |job.tasks| && ledger == Records(job.tasks, 0, committed)
      requires |residues| == committed && forall i :: 0 <= i < committed ==> residues[i] == Expected(job.tasks[i])
      ensures Valid(job) && pending == [] && this.committed == committed && this.stopping == stopping
      ensures this.nextToSubmit == committed && this.ledgerContent == ledger
    {
      this.pending, this.available := [], Stack(job.backends);
      this.committed, this.nextToSubmit, this.ledgerContent, this.residues, this.stopping :=
        committed, committed, ledger, residues, stopping;
      StackIsAll(job.backends);
      assert BackendsOf([]) == [];
    }

    /** One submission: the backend on top of the stack takes the next batch. */
    method Submit(job: Job)
      requires job.Valid() && Valid(job) && available != [] && nextToSubmit < |job.tasks|
      modifies this`pending, this`available, this`nextToSubmit
      ensures Valid(job) && old(nextToSubmit) < nextToSubmit
      ensures available == old(available)[..|old(available)| - 1]
      ensures var count := BatchCount(job, old(nextToSubmit));
        && nextToSubmit == old(nextToSubmit) + count
        && pending == old(pending) + [PendingBatch(old(available)[|old(available)| - 1], old(nextToSubmit), count)]
    {
      hide Records, Expected, AllBackends, Tiles;
      var top := |available| - 1;
      var backend := available[top];
      var count := BatchCount(job, nextToSubmit);
      var batch := PendingBatch(backend, nextToSubmit, count);
      TilesAppend(job, pending, committed, nextToSubmit, batch);
      assert available == available[..top] + [backend];
      assert BackendsOf(pending + [batch]) == BackendsOf(pending) + [backend];
      available := available[..top];
      pending := pending + [batch];
      nextToSubmit := nextToSubmit + count;
    }
  }

  /** The backends as the run stacks them: the first on top. */
  function Stack(n: nat): seq<nat> {
    if n == 0 then [] else [n - 1] + Stack(n - 1)
  }

  lemma {:induction false} StackIsAll(n: nat)
    ensures multiset(Stack(n)) == AllBackends(n)
  {
    if n > 0 {
      StackIsAll(n - 1);
    }
  }

  lemma NoBackendNoPending(job: Job, p: Process)
    requires job.Valid() && p.Valid(job) && p.pending == []
    ensures p.available != []
  {
    assert BackendsOf(p.pending) == [];
    assert job.backends - 1 in AllBackends(job.backends);
  }

  // ----- one commit

  /** The answer to the batch of this length that begins here is exact. */
  ghost predicate AnswersExactly(job: Job, answer: Option<seq<u64>>, begin: nat, count: nat)
    requires job.Valid() && begin + count <= |job.tasks|
  {
    answer.Some? && |answer.value| == count && forall i :: 0 <= i < count ==>
      answer.value[i] == Expected(job.tasks[begin + i])
  }

  /** The front batch's answer against the reference; its ledger text when it is exact. */
  method VerifyBatch(job: Job, b: PendingBatch, observed: seq<u64>) returns (r: Result<string, Exception>)
    requires job.Valid() && b.begin + b.count <= |job.tasks|
    ensures r.Ok? <==> |observed| == b.count && forall i :: 0 <= i < b.count ==>
      observed[i] == Expected(job.tasks[b.begin + i])
    ensures r.Ok? ==> r.value == Records(job.tasks, b.begin, b.begin + b.count)
  {
    hide LedgerRecord, Expected;
    if |observed| != b.count {
      return Err(RuntimeError);
    }
    var durable := "";
    var offset := 0;
    while offset < b.count
      invariant 0 <= offset <= b.count && durable == Records(job.tasks, b.begin, b.begin + offset)
      invariant forall i :: 0 <= i < offset ==> observed[i] == Expected(job.tasks[b.begin + i])
    {
      var index := b.begin + offset;
      var expected := ReferenceResidue(job.tasks[index]);
      if observed[offset] != expected {
        return Err(RuntimeError);
      }
      durable := durable + LedgerRecord(index, job.tasks[index], observed[offset]);
      offset := offset + 1;
    }
    return Ok(durable);
  }

  /** The disk holds exactly what the process has committed. */
  ghost predicate Synced(job: Job, d: Disk, p: Process)
    reads d, p
    requires job.Valid()
  {
    && p.Valid(job) && d.ledger == p.ledgerContent && Stored(job, d.checkpoint, d.saved) && d.saved.Some?
    && d.saved.value.progress == p.committed && CheckpointHolds(job, d.saved.value, d.ledger)
  }

  lemma JobFacts(job: Job)
    requires job.Valid()
    ensures Usable(job.tasks) && job.batchSize > 0
  {
  }

  datatype Commit = Committed | CommitFailed | CommitCrashed

  lemma {:induction false} RecordsGrow(job: Job, k: nat)
    requires job.Valid() && k <= |job.tasks|
    ensures k <= |Records(job.tasks, 0, k)| <= MAX_U64
  {
    RecordsJoin(job.tasks, 0, k, |job.tasks|);
    AtLeastOneEach(job, k);
  }

  lemma {:induction false} AtLeastOneEach(job: Job, k: nat)
    requires job.Valid() && k <= |job.tasks|
    ensures k <= |Records(job.tasks, 0, k)|
  {
    hide RecordLine;
    if k > 0 {
      AtLeastOneEach(job, k - 1);
    }
  }

  function CheckpointNow(job: Job, committed: u64, ledger: string): Checkpoint
    requires |ledger| <= MAX_U64
  {
    Checkpoint(job.campaignId, committed, |ledger|, job.sha256(ledger), job.tasksSha256)
  }

  lemma CommittedCheckpoint(job: Job, begin: nat, end: nat, ledger: string, durable: string)
    requires job.Valid() && begin <= end <= |job.tasks|
    requires ledger == Records(job.tasks, 0, begin) && durable == Records(job.tasks, begin, end)
    ensures ledger + durable == Records(job.tasks, 0, end) && end <= |ledger + durable| <= MAX_U64
    ensures CheckpointHolds(job, CheckpointNow(job, end, ledger + durable), ledger + durable)
  {
    RecordsJoin(job.tasks, 0, begin, end);
    RecordsGrow(job, end);
    hide Records;
    assert (ledger + durable)[..|ledger + durable|] == ledger + durable;
  }

  /** A checkpoint stays good when anything is appended behind its part of the ledger. */
  lemma TailIsHarmless(job: Job, c: Checkpoint, ledger: string, tail: string)
    requires job.Valid() && CheckpointHolds(job, c, ledger)
    ensures CheckpointHolds(job, c, ledger + tail)
  {
    hide Records;
    assert (ledger + tail)[..c.ledgerBytes] == ledger[..c.ledgerBytes];
  }

  /** Taking the front batch: verify, append, checkpoint, free its backend. */
  method CommitFront(job: Job, d: Disk, p: Process, observed: Option<seq<u64>>, appendFate: Fate, saveFate: Fate)
    returns (r: Commit)
    requires job.Valid() && Synced(job, d, p) && p.pending != []
    modifies d`ledger, d`checkpoint, d`saved, p
    ensures d.LedgerRecoverable(job) && d.Progress() >= old(d.Progress()) && d.saved.Some?
    ensures r.Committed? ==> Synced(job, d, p) && p.committed > old(p.committed)
    ensures r.Committed? ==>
      p.committed == old(p.committed) + old(p.pending)[0].count && p.pending == old(p.pending)[1..]
    ensures r.Committed? ==> p.available == old(p.available) + [old(p.pending)[0].backend]
    ensures r.Committed? ==> p.nextToSubmit == old(p.nextToSubmit) && p.stopping == old(p.stopping)
    ensures appendFate.Completes? && saveFate.Completes? ==> !r.CommitCrashed?
    ensures r.CommitFailed? ==> var b := old(p.pending)[0];
      b.begin + b.count <= |job.tasks| && !AnswersExactly(job, observed, b.begin, b.count)
  {
    hide Expected, Records, CheckpointHolds, AllBackends, Job.Valid;
    JobFacts(job);
    var b := p.pending[0];
    TilesOrdered(job, p.pending[1..], b.begin + b.count, p.nextToSubmit);
    if observed.None? {
      return CommitFailed;
    }
    var verified := VerifyBatch(job, b, observed.value);
    if verified.Err? {
      return CommitFailed;
    }
    r := Persist(job, d, p, b, observed.value, verified.value, appendFate, saveFate);
  }

  /** The batch's records are appended, then the checkpoint names them. */
  method Persist(job: Job, d: Disk, p: Process, b: PendingBatch, observed: seq<u64>, durable: string, appendFate: Fate,
                 saveFate: Fate)
    returns (r: Commit)
    requires job.Valid() && Synced(job, d, p) && p.pending != [] && b == p.pending[0] && FitsAt(job, b, p.committed)
    requires |observed| == b.count && forall i :: 0 <= i < b.count ==> observed[i] == Expected(job.tasks[b.begin + i])
    requires durable == Records(job.tasks, b.begin, b.begin + b.count)
    modifies d`ledger, d`checkpoint, d`saved, p
    ensures d.LedgerRecoverable(job) && d.Progress() >= old(d.Progress()) && d.saved.Some? && !r.CommitFailed?
    ensures r.Committed? ==>
      Synced(job, d, p) && p.committed == old(p.committed) + b.count && p.pending == old(p.pending)[1..]
    ensures r.Committed? ==> p.available == old(p.available) + [b.backend]
    ensures r.Committed? ==> p.nextToSubmit == old(p.nextToSubmit) && p.stopping == old(p.stopping)
    ensures appendFate.Completes? && saveFate.Completes? ==> !r.CommitCrashed?
  {
    hide Expected, Records, CheckpointHolds, AllBackends, Tiles, Job.Valid;
    JobFacts(job);
    ghost var kept := Kept(appendFate, |durable|);
    ghost var before := d.ledger;
    TailIsHarmless(job, d.saved.value, d.ledger, durable[..kept]);
    CommittedCheckpoint(job, p.committed, p.committed + b.count, p.ledgerContent, durable);
    var alive := Append(d, durable, appendFate);
    if !alive {
      return CommitCrashed;
    }
    assert durable[..|durable|] == durable;
    FinishCommit(job, p, b, observed, durable);
    alive := Save(job, d, CheckpointNow(job, p.committed, p.ledgerContent), saveFate);
    if !alive {
      return CommitCrashed;
    }
    return Committed;
  }

  /** The bookkeeping of a verified batch. */
  method FinishCommit(job: Job, p: Process, b: PendingBatch, observed: seq<u64>, durable: string)
    requires job.Valid() && p.Valid(job) && p.pending != [] && b == p.pending[0] && b.begin + b.count <= |job.tasks|
    requires |observed| == b.count && forall i :: 0 <= i < b.count ==> observed[i] == Expected(job.tasks[b.begin + i])
    requires p.ledgerContent + durable == Records(job.tasks, 0, p.committed + b.count)
    modifies p
    ensures p.Valid(job) && p.committed == old(p.committed) + b.count
      && p.ledgerContent == old(p.ledgerContent) + durable
    ensures p.available == old(p.available) + [b.backend]
    ensures p.pending == old(p.pending)[1..] && p.nextToSubmit == old(p.nextToSubmit) && p.stopping == old(p.stopping)
  {
    hide Expected, Records, AllBackends;
    TilesOrdered(job, p.pending[1..], b.begin + b.count, p.nextToSubmit);
    assert BackendsOf(p.pending) == [b.backend] + BackendsOf(p.pending[1..]);
    p.pending := p.pending[1..];
    p.residues := p.residues + observed;
    p.ledgerContent := p.ledgerContent + durable;
    p.committed := p.committed + b.count;
    p.available := p.available + [b.backend];
  }

  // ----- opening

  datatype Opened = OpenCrashed | OpenRefused | Resumed(committed: nat, residues: seq<u64>)

  lemma FreshCheckpoint(job: Job)
    requires job.Valid()
    ensures CheckpointHolds(job, CheckpointNow(job, 0, ""), "") && Records(job.tasks, 0, 0) == ""
  {
  }

  lemma TruncatedCheckpoint(job: Job, c: Checkpoint, ledger: string)
    requires job.Valid() && CheckpointHolds(job, c, ledger)
    ensures CheckpointHolds(job, c, ledger[..c.ledgerBytes])
    ensures c.progress <= |job.tasks| && ledger[..c.ledgerBytes] == Records(job.tasks, 0, c.progress)
  {
  }

  /** The checkpoint document with its payload, for a job of this identity. */
  function ReadCheckpoint(job: Job, document: string): Option<Checkpoint> {
    match RuntimeCheckpoint.Load(job.sha256, document)
    case Err(_) => None
    case Ok(state) =>
      if state.campaignId != job.campaignId || ParseCanonicalU64(state.progressDecimal) != Some(state.sequence)
        || state.sequence > |job.tasks| then None
      else match ParsePayload(state.opaquePayload)
        case Err(_) => None
        case Ok(payload) =>
          if payload.tasksSha256 != job.tasksSha256 then None
          else Some(Checkpoint(state.campaignId, state.sequence, payload.ledgerBytes, payload.ledgerSha256,
            payload.tasksSha256))
  }

  ghost predicate OfJob(job: Job, c: Checkpoint) {
    c.campaignId == job.campaignId && c.tasksSha256 == job.tasksSha256 && c.progress <= |job.tasks|
  }

  /** Reading accepts exactly the documents of this job's checkpoints, and none when the
      campaign id cannot be read back. */
  lemma ReadCheckpointExact(job: Job, document: string, c: Checkpoint)
    requires job.Valid()
    ensures ReadCheckpoint(job, document) == Some(c) <==>
      OfJob(job, c) && c.Valid() && Reloadable(job.campaignId)
        && document == RuntimeCheckpoint.Document(job.sha256, c.State())
  {
    hide Records, RuntimeCheckpoint.Load, RuntimeCheckpoint.Document, ParsePayload, PayloadText, ToDecimal,
      ParseCanonicalU64, Reloadable,
      Hashes, CanonicalDigest;
    if OfJob(job, c) && c.Valid() && document == RuntimeCheckpoint.Document(job.sha256, c.State()) {
      DocumentReads(job.sha256, c);
    }
    if ReadCheckpoint(job, document) == Some(c) {
      var state := RuntimeCheckpoint.Load(job.sha256, document).value;
      RuntimeCheckpoint.LoadExact(job.sha256, document, state);
      PayloadExact(state.opaquePayload, c.Payload());
      ParseCanonicalExact(state.progressDecimal, state.sequence);
    }
  }

  lemma HoldingIsValid(job: Job, c: Checkpoint, ledger: string)
    requires job.Valid() && CheckpointHolds(job, c, ledger)
    ensures OfJob(job, c) && c.Valid()
  {
    hide Records, CanonicalDigest;
  }

  /** The ledger is exactly the records of the committed tasks, the stored checkpoint is
      theirs, and the residues are exact. */
  ghost predicate Loaded(job: Job, d: Disk, committed: nat, residues: seq<u64>)
    reads d
    requires job.Valid()
  {
    && committed <= |job.tasks| && d.ledger == Records(job.tasks, 0, committed)
    && Stored(job, d.checkpoint, d.saved) && d.saved.Some? && d.saved.value.progress == committed
    && CheckpointHolds(job, d.saved.value, d.ledger)
    && |residues| == committed && forall i :: 0 <= i < committed ==> residues[i] == Expected(job.tasks[i])
  }

  /** Loading the checkpoint and authenticating the ledger. Whatever the disk held, what
      is resumed is the exact ledger; a recoverable ledger is refused exactly when the
      campaign id of its checkpoint cannot be read back. */
  method Open(job: Job, d: Disk, fate: Fate) returns (r: Opened)
    requires job.Valid()
    modifies d`ledger, d`checkpoint, d`saved
    ensures r.Resumed? ==> Loaded(job, d, r.committed, r.residues)
    ensures old(d.LedgerRecoverable(job)) ==> d.LedgerRecoverable(job) && d.Progress() == old(d.Progress())
    ensures old(d.LedgerRecoverable(job)) ==>
      (r.OpenRefused? <==> old(d.checkpoint).Some? && !Reloadable(job.campaignId))
    ensures old(d.LedgerRecoverable(job)) && r.Resumed? ==> r.committed == old(d.Progress())
    ensures old(d.checkpoint).Some? ==> d.checkpoint == old(d.checkpoint)
    ensures fate.Completes? ==> !r.OpenCrashed?
  {
    hide Records, Expected, Hashes, Reloadable, Job.Valid, CheckpointHolds, Loaded, Stored;
    if d.checkpoint.None? {
      EmptyIsFresh(job, d);
    }
    if d.checkpoint.Some? {
      r := Reopen(job, d, fate);
    } else if d.ledger == "" {
      r := OpenFresh(job, d, fate);
    } else {
      r := OpenRefused;
    }
  }

  lemma EmptyIsFresh(job: Job, d: Disk)
    requires job.Valid() && d.checkpoint.None?
    ensures d.LedgerRecoverable(job) <==> d.ledger == "" && d.saved.None?
  {
  }

  /** The first checkpoint of an empty ledger. */
  method OpenFresh(job: Job, d: Disk, fate: Fate) returns (r: Opened)
    requires job.Valid() && d.checkpoint.None? && d.ledger == ""
    modifies d`checkpoint, d`saved
    ensures r == Resumed(0, []) || (r == OpenCrashed && !fate.Completes?)
    ensures r.Resumed? ==> Loaded(job, d, 0, [])
    ensures d.LedgerRecoverable(job) && d.Progress() == 0
  {
    hide Records, Job.Valid;
    FreshCheckpoint(job);
    d.saved := None;
    var alive := Save(job, d, CheckpointNow(job, 0, ""), fate);
    return if alive then Resumed(0, []) else OpenCrashed;
  }

  /** An existing checkpoint and its ledger. */
  method Reopen(job: Job, d: Disk, fate: Fate) returns (r: Opened)
    requires job.Valid() && d.checkpoint.Some?
    modifies d`ledger, d`saved
    ensures r.Resumed? ==> Loaded(job, d, r.committed, r.residues)
    ensures old(d.LedgerRecoverable(job)) ==> d.LedgerRecoverable(job) && d.Progress() == old(d.Progress())
    ensures old(d.LedgerRecoverable(job)) ==> (r.OpenRefused? <==> !Reloadable(job.campaignId))
    ensures old(d.LedgerRecoverable(job)) && r.Resumed? ==> r.committed == old(d.Progress())
    ensures fate.Completes? ==> !r.OpenCrashed?
  {
    hide Records, Expected, Hashes, Reloadable, Job.Valid, CheckpointHolds, ReadCheckpoint;
    RecoverableReads(job, d);
    var read := ReadCheckpoint(job, d.checkpoint.value);
    if read.None? {
      return OpenRefused;
    }
    ReadCheckpointExact(job, d.checkpoint.value, read.value);
    d.saved := read;
    r := Authenticate(job, d, read.value, fate);
  }

  /** The checkpoint of a recoverable ledger is read exactly when its campaign id can be. */
  lemma RecoverableReads(job: Job, d: Disk)
    requires job.Valid() && d.checkpoint.Some?
    ensures d.LedgerRecoverable(job) ==>
      d.saved.Some? && ReadCheckpoint(job, d.checkpoint.value) == if Reloadable(job.campaignId) then d.saved else None
  {
    hide Records, Expected, Hashes, Reloadable, Job.Valid, CheckpointHolds, ReadCheckpoint;
    if d.LedgerRecoverable(job) {
      HoldingIsValid(job, d.saved.value, d.ledger);
      ReadCheckpointExact(job, d.checkpoint.value, d.saved.value);
      if ReadCheckpoint(job, d.checkpoint.value).Some? {
        ReadCheckpointExact(job, d.checkpoint.value, ReadCheckpoint(job, d.checkpoint.value).value);
      }
    }
  }

  /** The checks on the ledger of a checkpoint. */
  method Authenticate(job: Job, d: Disk, c: Checkpoint, fate: Fate) returns (r: Opened)
    requires job.Valid() && OfJob(job, c)
    modifies d`ledger
    ensures r.Resumed? ==> r.committed == c.progress <= |job.tasks| && d.ledger == Records(job.tasks, 0, r.committed)
    ensures r.Resumed? ==> CheckpointHolds(job, c, d.ledger)
    ensures r.Resumed? ==> |r.residues| == r.committed && forall i :: 0 <= i < r.committed ==>
      r.residues[i] == Expected(job.tasks[i])
    ensures old(CheckpointHolds(job, c, d.ledger)) ==> !r.OpenRefused? && CheckpointHolds(job, c, d.ledger)
    ensures fate.Completes? ==> !r.OpenCrashed?
  {
    hide Records, Expected, Job.Valid;
    if |d.ledger| < c.ledgerBytes {
      return OpenRefused;
    }
    var durable := d.ledger[..c.ledgerBytes];
    if CheckpointMeans(job, c, d.ledger) {
      TruncatedCheckpoint(job, c, d.ledger);
    }
    if |d.ledger| > c.ledgerBytes {
      if fate == CrashesBefore {
        return OpenCrashed;
      }
      d.ledger := durable;
      if !fate.Completes? {
        return OpenCrashed;
      }
    }
    assert d.ledger == durable;
    if job.sha256(durable) != c.ledgerSha256 {
      return OpenRefused;
    }
    JobFacts(job);
    var restored := RestoreLedger(job.tasks, durable, c.progress);
    if restored.Err? {
      return OpenRefused;
    }
    assert durable[..c.ledgerBytes] == durable;
    return Resumed(c.progress, restored.value);
  }

  ghost predicate CheckpointMeans(job: Job, c: Checkpoint, ledger: string)
    requires job.Valid()
  {
    CheckpointHolds(job, c, ledger)
  }

  // ----- the run

  /** Stop requests, the backends' answers and crashes: anything may happen. Events are
      numbered by their place in the log. */
  datatype Environment = Environment(
    stopAtStart: bool, stopAfterSubmit: nat -> bool, stopAfterCommit: nat -> bool, answer: nat -> Option<seq<u64>>,
    openFate: Fate, appendFate: nat -> Fate, saveFate: nat -> Fate, eventFate: u64 -> Fate, clock: u64 -> Utc)
  {
    /** Nothing stops, fails or crashes. */
    ghost predicate Undisturbed(job: Job)
      requires job.Valid()
    {
      && !stopAtStart && (forall i :: !stopAfterSubmit(i)) && (forall i :: !stopAfterCommit(i)) && EventsComplete()
      && openFate.Completes? && (forall i :: appendFate(i).Completes?) && (forall i :: saveFate(i).Completes?)
      && forall begin: nat :: begin <= |job.tasks| ==> AnswersExactly(job, answer(begin), begin, BatchCount(job, begin))
    }

    ghost predicate EventsComplete() {
      forall i :: eventFate(i).Completes?
    }

    /** A crash leaves every event record whole or not at all. */
    ghost predicate NeverTears() {
      forall i :: !eventFate(i).CrashesAt?
    }
  }

  datatype Outcome = Crashed | Refused | Failed | Done(committed: nat, complete: bool, stopped: bool,
    residues: seq<u64>)

  /** The events so far and those still to come before the last one. */
  ghost function Budget(job: Job, d: Disk, p: Process): nat
    reads d, p
    requires job.Valid() && p.Valid(job)
  {
    |d.logged| + (|job.tasks| - p.nextToSubmit) + (|job.tasks| - p.committed)
  }

  /** Submitting while backends are free, tasks remain and nobody asked to stop. */
  method SubmitAll(job: Job, d: Disk, p: Process, logger: Logger, env: Environment, ghost known: bool)
    returns (r: Logged)
    requires job.Valid() && Synced(job, d, p)
    requires known ==> LogSynced(job, d, logger)
    modifies p, d`events, d`logged, logger
    ensures Synced(job, d, p) && p.committed == old(p.committed) && Budget(job, d, p) <= old(Budget(job, d, p))
    ensures r.Appended? && p.pending == [] ==> p.stopping || p.nextToSubmit == |job.tasks|
    ensures r.Appended? && old(p.stopping) ==> p.stopping
    ensures !old(p.stopping) && (forall i :: !env.stopAfterSubmit(i)) ==> !p.stopping
    ensures known && !r.LogCrashed? ==> LogSynced(job, d, logger)
    ensures known ==> Holds(job.campaignId, d.logged, d.events) && (env.NeverTears() ==> !Torn(d.events))
    ensures env.EventsComplete() ==> !r.LogCrashed?
    ensures known && r.Exhausted? ==> Budget(job, d, p) >= MAX_U64
  {
    hide Records, Expected, CheckpointHolds, AllBackends, Tiles, EventText, Stored, Job.Valid, Holds, AllPlain,
      SubmittedEvent,
      EventLine, Plain, Tears;
    r := Appended;
    if known {
      SyncedLogHolds(job, d, logger);
    }
    while r.Appended? && !p.stopping && p.nextToSubmit < |job.tasks| && p.available != []
      invariant Synced(job, d, p) && p.committed == old(p.committed) && Budget(job, d, p) <= old(Budget(job, d, p))
      invariant old(p.stopping) ==> p.stopping
      invariant !old(p.stopping) && (forall i :: !env.stopAfterSubmit(i)) ==> !p.stopping
      invariant known && !r.LogCrashed? ==> LogSynced(job, d, logger)
      invariant known ==> Holds(job.campaignId, d.logged, d.events) && (env.NeverTears() ==> !Torn(d.events))
      invariant env.EventsComplete() ==> !r.LogCrashed?
      invariant known && r.Exhausted? ==> Budget(job, d, p) >= MAX_U64
      decreases |job.tasks| - p.nextToSubmit, if p.stopping then 0 else 1
    {
      var begin := p.nextToSubmit;
      p.Submit(job);
      var e := SubmittedEvent(begin, BatchCount(job, begin), |p.pending|, env.clock(logger.next));
      r := LogEvent(job, d, logger, e, env.eventFate(logger.next), known);
      if r.Appended? && env.stopAfterSubmit(p.nextToSubmit) {
        p.stopping := true;
      }
    }
    if p.pending == [] {
      NoBackendNoPending(job, p);
    }
  }

  lemma SyncedLogHolds(job: Job, d: Disk, logger: Logger)
    requires LogSynced(job, d, logger)
    ensures Holds(job.campaignId, d.logged, d.events) && !Torn(d.events)
  {
    hide EventText;
    EndsInNewline(job.campaignId, d.logged);
  }

  /** The last words of a run that fails: whatever becomes of this event, the run fails or crashes. */
  method Fail(job: Job, d: Disk, logger: Logger, committed: nat, env: Environment, ghost known: bool)
    returns (outcome: Outcome)
    requires known ==> LogSynced(job, d, logger)
    modifies d`events, d`logged, logger
    ensures outcome == Failed || (outcome == Crashed && !env.EventsComplete())
    ensures |d.logged| <= old(|d.logged|) + 1
    ensures known ==> Holds(job.campaignId, d.logged, d.events)
    ensures known && Torn(d.events) ==> outcome == Crashed && !env.NeverTears()
  {
    hide FailedEvent, EventLine, Plain, EventText, AllPlain, Holds;
    var e := FailedEvent(committed, env.clock(logger.next));
    var r := LogEvent(job, d, logger, e, env.eventFate(logger.next), known);
    return if r.LogCrashed? then Crashed else Failed;
  }

  datatype Round = NextRound | NothingLeft | Over(outcome: Outcome)

  /** The front batch and its event. */
  method CommitNext(job: Job, d: Disk, p: Process, logger: Logger, env: Environment, ghost known: bool)
    returns (r: Round)
    requires job.Valid() && Synced(job, d, p) && p.pending != []
    requires known ==> LogSynced(job, d, logger)
    modifies d, p, logger
    ensures d.LedgerRecoverable(job) && d.Progress() >= old(d.Progress()) && d.saved.Some?
    ensures !r.Over? ==>
      Synced(job, d, p) && Budget(job, d, p) <= old(Budget(job, d, p)) && (known ==> LogSynced(job, d, logger))
    ensures !r.NothingLeft?
    ensures r.NextRound? ==> p.committed > old(p.committed)
    ensures r.Over? ==> (r.outcome == Crashed || r.outcome == Failed) && |d.logged| <= old(Budget(job, d, p)) + 1
    ensures known && r.Over? ==> Holds(job.campaignId, d.logged, d.events)
    ensures known && r.Over? && Torn(d.events) ==> r.outcome == Crashed && !env.NeverTears()
    ensures known && env.Undisturbed(job) && !old(p.stopping) && old(Budget(job, d, p)) < MAX_U64 ==>
      !r.Over? && !p.stopping
  {
    hide Records, Expected, CheckpointHolds, AllBackends, Tiles, AnswersExactly, EventText, Stored, Job.Valid, Holds,
      AllPlain, Torn,
      CommittedEvent, EventLine, Plain;
    FirstPending(job, p);
    if known {
      SyncedLogHolds(job, d, logger);
    }
    var b := p.pending[0];
    var front := CommitFront(job, d, p, env.answer(b.begin), env.appendFate(b.begin), env.saveFate(b.begin));
    match front {
      case CommitCrashed => return Over(Crashed);
      case CommitFailed =>
        var failed := Fail(job, d, logger, p.committed, env, known);
        return Over(failed);
      case Committed =>
    }
    var e := CommittedEvent(b.begin, b.count, |p.pending|, env.clock(logger.next));
    var logged := LogEvent(job, d, logger, e, env.eventFate(logger.next), known);
    match logged {
      case LogCrashed => return Over(Crashed);
      case Exhausted =>
        var failed := Fail(job, d, logger, p.committed, env, known);
        return Over(failed);
      case Appended =>
    }
    if env.stopAfterCommit(p.committed) {
      p.stopping := true;
    }
    return NextRound;
  }

  /** One round of the commit loop: submissions, the front batch, its event. */
  method CommitRound(job: Job, d: Disk, p: Process, logger: Logger, env: Environment, ghost known: bool)
    returns (r: Round)
    requires job.Valid() && Synced(job, d, p) && p.committed < |job.tasks|
    requires known ==> LogSynced(job, d, logger)
    modifies d, p, logger
    ensures d.LedgerRecoverable(job) && d.Progress() >= old(d.Progress()) && d.saved.Some?
    ensures !r.Over? ==>
      Synced(job, d, p) && Budget(job, d, p) <= old(Budget(job, d, p)) && (known ==> LogSynced(job, d, logger))
    ensures r.NextRound? ==> p.committed > old(p.committed)
    ensures r.NothingLeft? ==> p.pending == [] && (p.stopping || p.nextToSubmit == |job.tasks|)
    ensures r.Over? ==> (r.outcome == Crashed || r.outcome == Failed) && |d.logged| <= old(Budget(job, d, p)) + 1
    ensures known && r.Over? ==> Holds(job.campaignId, d.logged, d.events)
    ensures known && r.Over? && Torn(d.events) ==> r.outcome == Crashed && !env.NeverTears()
    ensures known && env.Undisturbed(job) && !old(p.stopping) && old(Budget(job, d, p)) < MAX_U64 ==>
      !r.Over? && !p.stopping
  {
    hide Records, Expected, CheckpointHolds, AllBackends, Tiles, AnswersExactly, EventText, Stored, Job.Valid, Holds,
      AllPlain, Torn;
    var submitted := SubmitAll(job, d, p, logger, env, known);
    match submitted {
      case LogCrashed => return Over(Crashed);
      case Exhausted =>
        var failed := Fail(job, d, logger, p.committed, env, known);
        return Over(failed);
      case Appended =>
    }
    if p.pending == [] {
      return NothingLeft;
    }
    r := CommitNext(job, d, p, logger, env, known);
  }

  /** The commit loop: commits in order until everything in flight is drained. */
  method Drive(job: Job, d: Disk, p: Process, logger: Logger, env: Environment, ghost known: bool)
    returns (outcome: Outcome)
    requires job.Valid() && Synced(job, d, p)
    requires known ==> LogSynced(job, d, logger)
    modifies d, p, logger
    ensures d.LedgerRecoverable(job) && d.Progress() >= old(d.Progress()) && d.saved.Some?
    ensures outcome.Done? ==> Synced(job, d, p) && p.pending == [] && p.committed == p.nextToSubmit
    ensures outcome.Done? ==>
      outcome.committed == p.committed == d.Progress() && outcome.complete == (p.committed == |job.tasks|)
    ensures outcome.Done? ==> outcome.residues == p.residues && (outcome.complete || outcome.stopped)
    ensures outcome != Refused && |d.logged| <= old(Budget(job, d, p)) + 1
    ensures known ==> Holds(job.campaignId, d.logged, d.events)
    ensures known && Torn(d.events) ==> outcome == Crashed && !env.NeverTears()
    ensures known && env.Undisturbed(job) && !old(p.stopping) && old(Budget(job, d, p)) + 1 < MAX_U64 ==>
      outcome.Done? && outcome.complete
  {
    hide Records, Expected, CheckpointHolds, AllBackends, Tiles, AnswersExactly, EventText, Stored, Job.Valid, Holds,
      AllPlain, Torn,
      EndEvent, EventLine, Plain;
    while p.committed < |job.tasks|
      invariant Synced(job, d, p) && d.Progress() >= old(d.Progress()) && Budget(job, d, p) <= old(Budget(job, d, p))
      invariant known ==> LogSynced(job, d, logger)
      invariant known && env.Undisturbed(job) && !old(p.stopping) && old(Budget(job, d, p)) + 1 < MAX_U64 ==>
        !p.stopping
      decreases |job.tasks| - p.committed
    {
      var r := CommitRound(job, d, p, logger, env, known);
      match r {
        case Over(o) => return o;
        case NothingLeft => break;
        case NextRound =>
      }
    }
    Drained(job, p);
    var complete := p.committed == |job.tasks|;
    var e := EndEvent(complete, p.committed, |job.tasks|, env.clock(logger.next));
    var ended := LogEvent(job, d, logger, e, env.eventFate(logger.next), known);
    match ended {
      case LogCrashed => return Crashed;
      case Exhausted => return Failed;
      case Appended => return Done(p.committed, complete, !complete && p.stopping, p.residues);
    }
  }

  lemma FirstPending(job: Job, p: Process)
    requires job.Valid() && p.Valid(job) && p.pending != []
    ensures FitsAt(job, p.pending[0], p.committed)
  {
  }

  lemma Drained(job: Job, p: Process)
    requires job.Valid() && p.Valid(job) && (p.pending == [] || p.committed >= |job.tasks|)
    ensures p.pending == [] && p.committed == p.nextToSubmit
  {
    TilesOrdered(job, p.pending, p.committed, p.nextToSubmit);
  }

  /** run: in every interleaving of submissions, completions, stop requests, failures
      and crashes the recoverable ledger only grows; what a run returns is the exact
      residues of a prefix of the tasks, all of them unless it was stopped. A recoverable
      disk is refused exactly when it is stuck, and then it stays as it is. */
  method Run(job: Job, d: Disk, env: Environment) returns (outcome: Outcome)
    requires job.Valid()
    modifies d
    ensures old(d.Recoverable(job)) ==> d.Recoverable(job) && d.Progress() >= old(d.Progress())
    ensures outcome.Done? ==> d.Progress() == outcome.committed && Loaded(job, d, outcome.committed, outcome.residues)
    ensures outcome.Done? ==>
      outcome.complete == (outcome.committed == |job.tasks|) && (outcome.complete || outcome.stopped)
    ensures old(d.Recoverable(job)) && env.openFate.Completes? ==> (outcome == Refused <==> old(d.Stuck(job)))
    ensures old(d.Recoverable(job)) && outcome == Refused ==> old(d.Stuck(job))
    ensures old(d.Recoverable(job)) && old(d.Stuck(job)) ==>
      d.Stuck(job) && d.Progress() == old(d.Progress()) && (outcome == Refused || outcome == Crashed)
    ensures old(d.Recoverable(job)) ==> |d.logged| <= old(|d.logged|) + 2 * |job.tasks| + 2
    ensures old(d.Recoverable(job)) && Torn(d.events) && !old(Torn(d.events)) ==>
      outcome == Crashed && !env.NeverTears()
    ensures old(d.Recoverable(job)) && !old(d.Stuck(job)) && env.openFate.Completes? && old(StartTears(job, d, env)) ==>
      outcome == Crashed && Torn(d.events)
    ensures old(d.Recoverable(job)) && env.Undisturbed(job) && !old(d.Stuck(job)) ==>
      old(|d.logged|) + 2 * |job.tasks| + 2 < MAX_U64 ==>
      outcome.Done? && outcome.complete
  {
    hide Records, Expected, AnswersExactly, CheckpointHolds, Reloadable, EventText, Plain, Job.Valid, Torn, StartEvent,
      EventLine, Tears,
      Stored, Loaded;
    ghost var known := d.Recoverable(job);
    ghost var before := d.logged;
    if known {
      ReopenVerdict(job.campaignId, d.logged, d.events);
    }
    var start := Open(job, d, env.openFate);
    if start.OpenCrashed? {
      return Crashed;
    }
    if start.OpenRefused? {
      return Refused;
    }
    var next := ReadNextSequence(d.events, job.campaignId);
    if next.Err? {
      return Refused;
    }
    outcome := Start(job, d, env, start.committed, start.residues, next.value, known);
  }

  /** The start event is one that a crash tears. */
  ghost predicate StartTears(job: Job, d: Disk, env: Environment)
    reads d
  {
    var n := NumberAt(|d.logged|);
    Tears(env.eventFate(n), |EventLine(job.campaignId, n, StartEvent(job, d.Progress(), env.clock(n)))| + 1)
  }

  /** The start event and the commit loop of an opened ledger. */
  method Start(job: Job, d: Disk, env: Environment, committed: nat, residues: seq<u64>, next: u64, ghost known: bool)
    returns (outcome: Outcome)
    requires job.Valid() && Loaded(job, d, committed, residues)
    requires known ==>
      AllPlain(d.logged) && d.events == EventText(job.campaignId, d.logged) && next == NumberAt(|d.logged|)
    modifies d
    ensures d.LedgerRecoverable(job) && d.Progress() >= old(d.Progress()) && d.saved.Some? && outcome != Refused
    ensures outcome.Done? ==> d.Progress() == outcome.committed && Loaded(job, d, outcome.committed, outcome.residues)
    ensures outcome.Done? ==>
      outcome.complete == (outcome.committed == |job.tasks|) && (outcome.complete || outcome.stopped)
    ensures |d.logged| <= old(|d.logged|) + 2 * |job.tasks| + 2
    ensures known ==> Holds(job.campaignId, d.logged, d.events)
    ensures known && Torn(d.events) ==> outcome == Crashed && !env.NeverTears()
    ensures known && old(StartTears(job, d, env)) ==> outcome == Crashed && Torn(d.events)
    ensures known && env.Undisturbed(job) && old(|d.logged|) + 2 * |job.tasks| + 2 < MAX_U64 ==>
      outcome.Done? && outcome.complete
  {
    hide Records, Expected, AnswersExactly, CheckpointHolds, EventText, Plain, Job.Valid, Torn, StartEvent, EventLine,
      Tears, Stored,
      Holds, AllPlain, AllBackends, Tiles;
    var logger := new Logger(next);
    var e := StartEvent(job, committed, env.clock(logger.next));
    var started := LogEvent(job, d, logger, e, env.eventFate(logger.next), known);
    match started {
      case LogCrashed => return Crashed;
      case Exhausted => return Failed;
      case Appended =>
        var p := new Process(job, committed, d.ledger, residues, env.stopAtStart);
        outcome := Drive(job, d, p, logger, env, known);
    }
  }

  ghost predicate NoneTears(envs: seq<Environment>) {
    forall i :: 0 <= i < |envs| ==> envs[i].NeverTears()
  }

  predicate Stopped(outcome: Outcome) {
    outcome == Refused || outcome == Crashed
  }

  /** Any number of runs: the committed tasks are never lost; once a run was refused none
      gets past its start any more; and none is refused when crashes leave every event
      record whole, the campaign id can be read back and the numbers suffice. */
  method RunRepeatedly(job: Job, d: Disk, envs: seq<Environment>) returns (outcomes: seq<Outcome>)
    requires job.Valid() && d.Recoverable(job)
    modifies d
    ensures d.Recoverable(job) && d.Progress() >= old(d.Progress()) && |outcomes| == |envs|
    ensures forall i, j :: 0 <= i <= j < |outcomes| && outcomes[i] == Refused ==> Stopped(outcomes[j])
    ensures !old(Torn(d.events)) && Reloadable(job.campaignId) && NoneTears(envs)
      && old(|d.logged|) + |envs| * (2 * |job.tasks| + 2) < MAX_U64
      ==> Refused !in outcomes
  {
    hide Records, Expected, Reloadable, Holds, Job.Valid, Torn, CheckpointHolds, Stored, Environment.NeverTears;
    outcomes := [];
    ghost var size := 2 * |job.tasks| + 2;
    ghost var calm := !Torn(d.events) && Reloadable(job.campaignId) && NoneTears(envs)
      && |d.logged| + |envs| * size < MAX_U64;
    while |outcomes| < |envs|
      invariant |outcomes| <= |envs| && d.Recoverable(job) && d.Progress() >= old(d.Progress())
      invariant |d.logged| <= old(|d.logged|) + |outcomes| * size
      invariant Refused in outcomes ==> d.Stuck(job)
      invariant forall i, j :: 0 <= i <= j < |outcomes| && outcomes[i] == Refused ==> Stopped(outcomes[j])
      invariant calm ==> !Torn(d.events) && Refused !in outcomes
    {
      Multiples(|outcomes| + 1, |envs|, size);
      var outcome := Run(job, d, envs[|outcomes|]);
      outcomes := outcomes + [outcome];
    }
  }

  lemma Multiples(a: nat, b: nat, size: nat)
    requires 0 < a <= b
    ensures a * size <= b * size && (a - 1) * size + size == a * size
  {
  }
}
