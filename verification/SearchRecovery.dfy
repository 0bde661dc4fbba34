/** restore_progress: three files are brought back to what one checkpoint binds
    (src/mvp/search_pipeline.cpp). */
module SearchRecovery {
  import opened NumberTheory
  import opened MachineArithmetic
  import opened Decimal
  import opened DelimitedText
  import opened SearchRecords
  import opened SearchScan
  import opened SearchLedger
  import opened SearchCheckpoint
  import opened SearchPrefix
  import opened SearchDisk
  import opened SearchSegments
  import opened EvidenceRecords
  import opened EvidenceLog
  import opened Durability
  import opened Hexadecimal
  import opened Wrappers

  // ----- the counters

  datatype Counts = Counts(proven: nat, composite: nat, bySieve: nat, byBase2: nat, byEngine: nat)

  function NoCounts(): Counts {
    Counts(0, 0, 0, 0, 0)
  }

  function AddCounted(c: Counts, x: Counted): Counts {
    Counts(
      c.proven + if x.primality.ProvenPrime? then 1 else 0, c.composite + if x.primality.CompositeNumber? then 1 else 0,
      c.bySieve + if x.kind.BySieve? then 1 else 0, c.byBase2 + if x.kind.ByBase2? then 1 else 0,
      c.byEngine + if x.kind.ByEngine? then 1 else 0)
  }

  function CountedOf(o: Outcome): Counted {
    match o
    case SieveFactor(_) => Counted(CompositeNumber, BySieve)
    case Base2 => Counted(CompositeNumber, ByBase2)
    case Certified(_, _) => Counted(ProvenPrime, ByEngine)
    case ByPari(prime, _, _) => Counted(if prime then ProvenPrime else CompositeNumber, ByEngine)
  }

  /** How many candidates were classified how. */
  function Tally(os: seq<Outcome>): Counts {
    if os == [] then NoCounts() else AddCounted(Tally(os[..|os| - 1]), CountedOf(os[|os| - 1]))
  }

  lemma CountedRight(job: Job, os: seq<Outcome>, i: nat)
    requires job.Valid() && i < |os| <= job.Count()
    ensures Counted(RecordAt(job, os, i).primality, KindOf(RecordAt(job, os, i))) == CountedOf(os[i])
  {
    hide EvidenceSlice, CertText, SegmentOf, SegmentPath;
  }

  /** Whether a line counts as a certificate of the partial segment. */
  function CountsCertificate(line: string, index: nat, partial: Option<Segment>): bool {
    partial.Some? && index >= partial.value.begin && NamesSegment(line, partial.value.begin, partial.value.end)
  }

  /** The lines that count as certificates of a segment: its certificates and the claims. */
  function CountedLines(job: Job, os: seq<Outcome>, begin: nat): nat
    requires job.interval > 0
  {
    |CertLines(os, begin)| + ClaimCount(job, os, begin)
  }

  function PartialSegment(job: Job, sequence: nat): Option<Segment>
    requires job.Valid()
  {
    if sequence % job.interval == 0 then None
    else
      var begin := sequence - sequence % job.interval;
      Some(Segment(begin, if job.Count() < begin + job.interval then job.Count() else begin + job.interval))
  }

  /** The second pass over the result prefix: the counters, and the certificates of the
      partial segment. */
  method TallyLines(job: Job, prefix: string, sequence: nat, ghost os: seq<Outcome>)
    returns (r: Result<Counts, Exception>, certificates: nat)
    requires job.Valid()
    ensures Sound(job, os) && |os| == sequence && prefix == ResultsText(job, os) ==> r == Ok(Tally(os))
    ensures Sound(job, os) && |os| == sequence && prefix == ResultsText(job, os) && sequence % job.interval != 0 ==>
      certificates == CountedLines(job, os, SegmentBegin(job, sequence))
  {
    hide ScanLine, Account, Lines, Sound, ResultLines, RecordAt, EvidenceSlice, SegmentOf, NamesSegment, Find,
      CountedOf, AllLines, Claims;
    SoundBound(job, os);
    var counts := NoCounts();
    certificates := 0;
    var offset := 0;
    var partial := PartialSegment(job, sequence);
    ghost var good := Sound(job, os) && |os| == sequence && prefix == ResultsText(job, os);
    if good {
      StartTally(job, os);
    }
    for index := 0 to sequence
      invariant offset <= |prefix|
      invariant good ==> index <= |os| <= job.Count() && counts == Tally(os[..index])
      invariant good ==> offset == |Lines(ResultLines(job, os)[..index])|
      invariant good && partial.Some? ==> certificates == CountedLines(job, os[..index], partial.value.begin)
    {
      var end := Find(prefix, '\n', offset);
      if good {
        NextTally(job, os, index, offset);
        NextCertificate(job, os, index, partial);
      }
      if end == |prefix| {
        return Err(RuntimeError), certificates;
      }
      var line := prefix[offset..end];
      var counted := Account(line);
      if counted.Err? {
        return Err(counted.error), certificates;
      }
      counts := AddCounted(counts, counted.value);
      if CountsCertificate(line, index, partial) {
        certificates := certificates + 1;
      }
      offset := end + 1;
    }
    assert good ==> os[..sequence] == os;
    return Ok(counts), certificates;
  }

  lemma SoundBound(job: Job, os: seq<Outcome>)
    requires job.Valid()
    ensures Sound(job, os) ==> |os| <= job.Count()
  {
  }

  lemma StartTally(job: Job, os: seq<Outcome>)
    requires job.Valid() && Sound(job, os)
    ensures |os| <= job.Count() && os[..0] == [] && |Lines(ResultLines(job, os)[..0])| == 0
  {
  }

  lemma NextTally(job: Job, os: seq<Outcome>, index: nat, offset: nat)
    requires job.Valid() && Sound(job, os) && index < |os| <= job.Count()
    requires offset == |Lines(ResultLines(job, os)[..index])|
    ensures var prefix, line := ResultsText(job, os), ResultLines(job, os)[index];
      offset <= |prefix| && Find(prefix, '\n', offset) == offset + |line| < |prefix|
        && prefix[offset..offset + |line|] == line
      && |Lines(ResultLines(job, os)[..index + 1])| == offset + |line| + 1 && Account(line) == Ok(CountedOf(os[index]))
      && Tally(os[..index + 1]) == AddCounted(Tally(os[..index]), CountedOf(os[index]))
  {
    hide ScanLine, Account, Lines, Sound, ResultLines, RecordAt, EvidenceSlice, KindOf, Find, CountedOf, AddCounted,
      FlintOf;
    AllLinesRead(job, os);
    LineReads(job, os, index);
    CountedRight(job, os, index);
    assert os[..index + 1][..index] == os[..index];
    ScannableLine(ResultsText(job, os), ResultLines(job, os), |os|, job.campaignId, index, offset);
  }

  lemma CountedStep(job: Job, os: seq<Outcome>, begin: nat)
    requires job.interval > 0
    ensures CountedLines(job, os, begin) ==
      if |os| <= begin then 0
      else CountedLines(job, os[..|os| - 1], begin) + if os[|os| - 1].Certified?
        || Claims(job, os[|os| - 1], |os| - 1) then 1 else 0
  {
    hide SegmentPath, SegmentOf;
  }

  lemma NextCertificate(job: Job, os: seq<Outcome>, index: nat, partial: Option<Segment>)
    requires job.Valid() && Sound(job, os) && index < |os| <= job.Count() && partial == PartialSegment(job, |os|)
    ensures partial.Some? ==>
      CountedLines(job, os[..index + 1], partial.value.begin) == CountedLines(job, os[..index], partial.value.begin)
        + if CountsCertificate(ResultLines(job, os)[index], index, partial) then 1 else 0
  {
    hide Sound, ResultLines, NamesSegment, RecordAt, Claims, CountedLines;
    if partial.Some? {
      var begin := partial.value.begin;
      assert os[..index + 1][..index] == os[..index];
      CountedStep(job, os[..index + 1], begin);
      if index >= begin {
        BeginIsMultiple(|os|, job.interval);
        BlockOf(begin, index, job.interval);
        LineNamesSegment(job, os, index);
      } else {
        CountedStep(job, os[..index], begin);
      }
    }
  }

  // ----- the evidence

  ghost predicate Readable(bytes: string, slice: Slice) {
    exists e :: ReadsAs(bytes, slice, e)
  }

  /** Every indexed slice is read, and its record is bound to its candidate. */
  method CheckEvidence(job: Job, log: EvidenceLog, indexed: seq<IndexedSlice>) returns (failure: Option<Exception>)
    ensures AllBound(job, log.bytes, indexed) ==> failure == None
    ensures failure == None ==> forall k :: 0 <= k < |indexed| ==> Readable(log.bytes, indexed[k].slice)
  {
    hide ReadsAs, BoundTo;
    for k := 0 to |indexed|
      invariant forall j :: 0 <= j < k ==> Readable(log.bytes, indexed[j].slice)
    {
      var evidence := log.Read(indexed[k].slice);
      if evidence.Err? {
        assert AllBound(job, log.bytes, indexed) ==> BoundSlice(job, log.bytes, indexed[k]);
        return Some(evidence.error);
      }
      if !BoundTo(job, evidence.value, indexed[k].flatIndex) {
        if AllBound(job, log.bytes, indexed) {
          assert BoundSlice(job, log.bytes, indexed[k]);
          var e :| ReadsAs(log.bytes, indexed[k].slice, e) && BoundTo(job, e, indexed[k].flatIndex);
          ReadsUnique(log.bytes, indexed[k].slice, e, evidence.value);
        }
        return Some(RuntimeError);
      }
      assert Readable(log.bytes, indexed[k].slice);
    }
    return None;
  }

  ghost predicate BoundSlice(job: Job, bytes: string, x: IndexedSlice) {
    exists e :: ReadsAs(bytes, x.slice, e) && BoundTo(job, e, x.flatIndex)
  }

  ghost predicate AllBound(job: Job, bytes: string, indexed: seq<IndexedSlice>) {
    forall k :: 0 <= k < |indexed| ==> BoundSlice(job, bytes, indexed[k])
  }

  lemma LedgerBound(job: Job, os: seq<Outcome>, bytes: string)
    requires job.Valid() && |os| <= job.Count() && EvidenceText(job, os) <= bytes
      && |EvidenceText(job, os)| <= STREAM_MAX
    ensures AllBound(job, bytes, IndexedWritten(job, os))
    ensures Indexes(JustSlices(IndexedWritten(job, os)), Evidence(job, os), bytes)
  {
    hide ReadsAs, BoundTo, SlicesOf, Evidence, IndexedWritten, RecordsText;
    IndexedIsEvidence(job, os);
    var es, indexed := Evidence(job, os), IndexedWritten(job, os);
    var rest := bytes[|EvidenceText(job, os)|..];
    assert bytes == RecordsText(es) + rest;
    forall k | 0 <= k < |indexed|
      ensures BoundSlice(job, bytes, indexed[k])
    {
      SliceReadsBack(es, rest, k);
      assert JustSlices(indexed)[k] == indexed[k].slice;
    }
  }

  // ----- the checkpoint

  /** The checks of the loaded checkpoint. */
  method LoadCheckpoint(job: Job, d: Disk) returns (r: Result<ProgressPayload, Exception>)
    requires job.Valid()
    ensures d.Recoverable(job) ==> r == Ok(PayloadOf(job, d.committed))
    ensures r.Ok? ==> d.checkpoint.Some? && d.checkpoint.value.sequence <= job.Count()
  {
    hide ProgressText, ParseProgress, ResultsText, EvidenceText, ToDecimal, SegmentsHold, CanonicalDigest;
    if d.checkpoint.None? {
      return Err(RuntimeError);
    }
    var state := d.checkpoint.value;
    if d.Recoverable(job) {
      ParseToDecimal(|d.committed|);
      ProgressExact(state.opaquePayload, PayloadOf(job, d.committed));
      PayloadIsValid(job, d.committed);
    }
    match ParseCanonicalU64(state.progressDecimal) {
      case None => return Err(RuntimeError);
      case Some(progress) =>
        if state.campaignId != job.campaignId || state.sequence != progress || state.sequence > job.Count() {
          return Err(RuntimeError);
        }
    }
    var payload := ParseProgress(state.opaquePayload);
    if payload.Err? {
      return Err(payload.error);
    }
    if payload.value.configurationSha256 != job.configurationSha256 {
      return Err(RuntimeError);
    }
    return payload;
  }

  lemma PayloadIsValid(job: Job, os: seq<Outcome>)
    requires job.Valid() && Sound(job, os)
    ensures PayloadValid(PayloadOf(job, os))
  {
    hide CanonicalDigest;
  }

  // ----- the restart

  datatype RestoreFates = RestoreFates(results: Fate, evidence: Fate, segment: Segment -> Fate) {
    ghost predicate Undisturbed() {
      results.Completes? && evidence.Completes? && forall s :: segment(s).Completes?
    }
  }

  datatype Restored = Restored(nextIndex: nat, evidenceBytes: nat, counts: Counts)

  /** write_checkpoint_atomically on the result file: refuses an empty content. */
  method WriteAtomic(d: Disk, content: string, fate: Fate) returns (failure: Option<Exception>, alive: bool)
    modifies d`results
    ensures content == "" ==> failure == Some(InvalidArgument) && alive && d.results == old(d.results)
    ensures content != "" ==> failure == None && alive == fate.Completes?
    ensures content != "" ==> d.results == if TakesEffect(fate) then content else old(d.results)
  {
    if content == "" {
      return Some(InvalidArgument), true;
    }
    d.results := if TakesEffect(fate) then content else d.results;
    return None, fate.Completes?;
  }

  /** What the reading part of a restart has found. */
  datatype Reading = Reading(payload: ProgressPayload, prefix: string, evidence: Prefix)

  /** The part of restore_progress before the first write. */
  method ReadBack(job: Job, d: Disk) returns (r: Result<Reading, Exception>)
    requires job.Valid()
    ensures d.Recoverable(job) ==> r == Ok(Reading(
      PayloadOf(job, d.committed), ResultsText(job, d.committed), PrefixOf(job.sha256, EvidenceText(job, d.committed))))
    ensures r.Ok? ==> d.checkpoint.Some? && |r.value.prefix| <= |d.results|
  {
    hide ProgressText, SegmentsHold, CanonicalDigest, Lines, ResultLines, ScanLine, IndexedOf, IndexedWritten, SlicesOf,
      RecordsText, Evidence, Scannable, EntryFine;
    var loaded := LoadCheckpoint(job, d);
    if loaded.Err? {
      return Err(loaded.error);
    }
    var payload, sequence := loaded.value, d.checkpoint.value.sequence;
    if payload.resultsBytes > |d.results| {
      return Err(RuntimeError);
    }
    var prefix := d.results[..payload.resultsBytes];
    assert d.Recoverable(job) ==> prefix == ResultsText(job, d.committed);
    if job.sha256(prefix) != payload.resultsSha256 {
      return Err(RuntimeError);
    }
    if d.Recoverable(job) {
      AllLinesRead(job, d.committed);
    }
    var indexed, lines := ValidateResultPrefix(prefix, sequence, job.campaignId);
    if indexed.Err? {
      return Err(indexed.error);
    }
    if d.Recoverable(job) {
      SameLines(prefix, lines, ResultLines(job, d.committed), sequence, job.campaignId);
      assert ResultLines(job, d.committed)[..sequence] == lines && d.committed[..sequence] == d.committed;
      IndexedRead(job, d.committed, sequence);
      LedgerBound(job, d.committed, d.log.bytes);
    }
    var failure := CheckEvidence(job, d.log, indexed.value);
    if failure.Some? {
      return Err(failure.value);
    }
    var evidence, records := d.log.ValidateContiguousPrefix(JustSlices(indexed.value));
    if evidence.Err? {
      return Err(evidence.error);
    }
    if d.Recoverable(job) {
      SameRecords(JustSlices(indexed.value), records, Evidence(job, d.committed), d.log.bytes);
    }
    if evidence.value.size != payload.evidenceBytes || evidence.value.sha256 != payload.evidenceSha256 {
      return Err(RuntimeError);
    }
    return Ok(Reading(payload, prefix, evidence.value));
  }

  lemma SameLines(prefix: string, a: seq<string>, b: seq<string>, expected: nat, campaignId: string)
    requires Scannable(prefix, a, expected, campaignId) && Scannable(prefix, b, expected, campaignId)
    ensures a == b
  {
    hide ScanLine, Lines;
    GetLinesOf(a);
    GetLinesOf(b);
  }

  lemma SameRecords(slices: seq<Slice>, a: seq<EvidenceRecord>, b: seq<EvidenceRecord>, bytes: string)
    requires Indexes(slices, a, bytes) && Indexes(slices, b, bytes)
    ensures a == b
  {
    IndexReads(slices, a, bytes);
    ReadsSame(bytes, slices, a, b);
    assert a == b[..|a|] && |a| == |slices| && b == b[..|b|];
  }

  /** No outcome of the partial segment claims it. */
  ghost predicate Unclaimed(job: Job, os: seq<Outcome>)
    requires job.Valid()
  {
    |os| % job.interval != 0 ==> ClaimCount(job, os, SegmentBegin(job, |os|)) == 0
  }

  /** Nobody claims the partial segment, or it has no file. */
  ghost predicate Clear(job: Job, os: seq<Outcome>, segments: map<Segment, string>)
    requires job.Valid()
  {
    Unclaimed(job, os) || NoneIsCurrent(os, segments)
  }

  /** The partial segment's file has fewer lines than certificates and claims are counted. */
  ghost predicate Outrun(job: Job, os: seq<Outcome>, segments: map<Segment, string>)
    requires job.Valid()
  {
    |os| % job.interval != 0 && Short(os, segments, CountedLines(job, os, SegmentBegin(job, |os|)))
  }

  /** Without claims nothing outruns a durable segment. */
  lemma UnclaimedIsNotOutrun(job: Job, os: seq<Outcome>, segments: map<Segment, string>)
    requires job.Valid() && Sound(job, os) && SegmentsHold(job, os, segments) && Unclaimed(job, os)
    ensures !Outrun(job, os, segments)
  {
    hide Sound, CertLines, AfterLines, Lines, AllLines;
    if |os| % job.interval != 0 {
      var lines := CertLines(os, SegmentBegin(job, |os|));
      forall s | s in segments && Current(os, s)
        ensures AfterLines(segments[s], |lines|).Some?
      {
        assert Proper(job, s);
        CurrentSegment(job, s, |os|);
        HeldAt(job, os, segments, s);
        assert os[..|os|] == os;
        CertificatesAreLines(job, os, |os|, s.begin);
        assert segments[s] == Lines(lines) + segments[s][|Lines(lines)|..];
        AfterLinesOf(lines, segments[s][|Lines(lines)|..], |lines|);
      }
    }
  }

  /** restore_progress: a recoverable state is refused exactly when nothing is committed yet
      but the result file is not empty, or claims outrun the partial segment's file. It
      leaves exactly the committed outcomes in all three files exactly when nobody claims
      the partial segment or it has no file. A crash at any write leaves a recoverable
      state with the same committed outcomes. */
  method RestoreProgress(job: Job, d: Disk, fates: RestoreFates) returns (r: Result<Restored, Exception>, alive: bool)
    requires job.Valid()
    modifies d`results, d`segments, d.log
    ensures old(d.Recoverable(job)) ==> d.Recoverable(job)
    ensures old(d.Recoverable(job)) && alive ==>
      (r.Ok? <==> !(d.committed == [] && old(d.results) != "") && !Outrun(job, d.committed, old(d.segments)))
    ensures old(d.Recoverable(job)) && alive && r.Ok? ==> (d.Exact(job) <==> Clear(job, d.committed, old(d.segments)))
    ensures old(d.Recoverable(job)) && alive && r.Ok? ==>
      d.results == ResultsText(job, d.committed) && d.log.bytes == EvidenceText(job, d.committed)
    ensures old(d.Recoverable(job)) && alive && r.Ok? ==>
      r.value == Restored(|d.committed|, |EvidenceText(job, d.committed)|, Tally(d.committed))
    ensures old(d.Recoverable(job)) && d.committed == [] && old(d.results) != "" ==>
      alive && r == Err(InvalidArgument) && d.results == old(d.results) && d.log.bytes == old(d.log.bytes)
        && d.segments == old(d.segments)
    ensures fates.Undisturbed() ==> alive
  {
    hide ProgressText, SegmentsHold, CanonicalDigest, ResultsText, EvidenceText, SegmentsExact, EntryFine, Sized, Tally,
      Short, ClaimCount,
      NoneIsCurrent;
    ghost var os := d.committed;
    ghost var good := d.Recoverable(job);
    var read := ReadBack(job, d);
    if read.Err? {
      return Err(read.error), true;
    }
    var payload, prefix, evidence := read.value.payload, read.value.prefix, read.value.evidence;
    if good {
      EmptyOnlyAtZero(job, os);
      EvidenceAuthentic(job, os, d.log.bytes);
    }
    alive := true;
    if |prefix| != |d.results| {
      var failure;
      failure, alive := WriteAtomic(d, prefix, fates.results);
      if failure.Some? {
        return Err(failure.value), true;
      }
      if !alive {
        return Err(RuntimeError), false;
      }
    } else {
      assert good ==> d.results == prefix;
    }
    var failure;
    failure, alive := d.log.TruncateAuthenticated(evidence, fates.evidence);
    if failure.Some? {
      return Err(failure.value), true;
    }
    if !alive {
      return Err(RuntimeError), false;
    }
    r, alive := RestoreSegments(job, d, prefix, evidence.size, fates.segment);
  }

  /** The part of restore_progress behind the result file and the evidence log. */
  method RestoreSegments(job: Job, d: Disk, prefix: string, evidenceBytes: nat, fate: Segment -> Fate)
    returns (r: Result<Restored, Exception>, alive: bool)
    requires job.Valid() && d.checkpoint.Some?
    modifies d`segments
    ensures (forall s :: fate(s).Completes?) ==> alive
    ensures Rewritten(job, d.committed, d.checkpoint.value.sequence, prefix, old(d.segments)) ==>
      && SegmentsHold(job, d.committed, d.segments)
        && (alive ==> (r.Ok? <==> !Outrun(job, d.committed, old(d.segments))))
      && (alive && r.Ok? ==> r.value == Restored(|d.committed|, evidenceBytes, Tally(d.committed)))
      && (alive && r.Ok? ==>
        (SegmentsExact(job, d.committed, d.segments) <==> Clear(job, d.committed, old(d.segments))))
  {
    hide Sound, SegmentsHold, SegmentsExact, ResultsText, Tally, Short, ClaimCount, CertLines, NoneIsCurrent;
    ghost var os := d.committed;
    var sequence := d.checkpoint.value.sequence;
    var counts, certificates := TallyLines(job, prefix, sequence, os);
    if counts.Err? {
      return Err(counts.error), true;
    }
    if Rewritten(job, os, sequence, prefix, d.segments) && sequence % job.interval == 0 {
      NoneCurrent(job, os, d.segments, certificates);
    }
    var failure;
    failure, alive := TrimSegments(job, d, sequence, certificates, fate);
    if failure.Some? {
      return Err(failure.value), true;
    }
    if !alive {
      return Err(RuntimeError), false;
    }
    return Ok(Restored(sequence, evidenceBytes, counts.value)), true;
  }

  /** The result file holds the committed outcomes, and the segments at least theirs. */
  ghost predicate Rewritten(job: Job, os: seq<Outcome>, sequence: nat, prefix: string, segments: map<Segment, string>)
    requires job.Valid()
  {
    Sound(job, os) && |os| == sequence && prefix == ResultsText(job, os) && SegmentsHold(job, os, segments)
  }

  lemma EmptyOnlyAtZero(job: Job, os: seq<Outcome>)
    requires job.Valid() && |os| <= job.Count()
    ensures ResultsText(job, os) == "" <==> os == []
  {
    hide RecordAt, RecordLineText;
    if os != [] {
      LinesEndInNewline(ResultLines(job, os));
    }
  }

  lemma EvidenceAuthentic(job: Job, os: seq<Outcome>, bytes: string)
    requires job.Valid() && Sound(job, os) && EvidenceText(job, os) <= bytes
    ensures Authentic(job.sha256, bytes, PrefixOf(job.sha256, EvidenceText(job, os)))
    ensures bytes[..|EvidenceText(job, os)|] == EvidenceText(job, os)
  {
    hide CanonicalDigest, RecordsText;
    assert WholeRecords(EvidenceText(job, os));
    ExtensionIsAuthentic(job.sha256, EvidenceText(job, os), bytes);
  }
}
