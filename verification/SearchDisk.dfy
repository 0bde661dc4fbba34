/** The durable state of a search: result lines, evidence log, certificate segments and
    the checkpoint that binds them (src/mvp/search_pipeline.cpp). */
module SearchDisk {
  import opened MachineArithmetic
  import opened Decimal
  import opened DelimitedText
  import opened SearchRecords
  import opened SearchScan
  import opened SearchLines
  import opened SearchLedger
  import opened RuntimeCheckpoint
  import opened SearchCheckpoint
  import opened SearchPrefix
  import opened EvidenceRecords
  import opened EvidenceLog
  import opened Wrappers

  // ----- lines that can be read back

  /** A line that was written: its texts can be quoted, and its certificate is one line. */
  ghost predicate EntryFine(job: Job, os: seq<Outcome>, i: nat)
    requires job.Valid() && i < |os| <= job.Count()
  {
    TextsQuotable(RecordAt(job, os, i)) && (os[i].Certified? ==> Without(os[i].certificate, '\n'))
  }

  /** The fallback proof engine names the candidate's certificate segment as its artifact. */
  predicate Claims(job: Job, o: Outcome, i: nat)
    requires job.interval > 0
  {
    o.ByPari? && o.primary.artifactPath == SegmentPath(SegmentOf(job, i).begin, SegmentOf(job, i).end)
  }

  /** How many outcomes from a candidate on do. */
  function ClaimCount(job: Job, os: seq<Outcome>, begin: nat): nat
    requires job.interval > 0
  {
    if |os| <= begin then 0
    else ClaimCount(job, os[..|os| - 1], begin) + if Claims(job, os[|os| - 1], |os| - 1) then 1 else 0
  }

  /** The sizes a checkpoint can record. */
  ghost predicate Sized(job: Job, os: seq<Outcome>)
    requires job.Valid() && |os| <= job.Count()
  {
    |ResultsText(job, os)| <= MAX_U64 && |EvidenceText(job, os)| <= STREAM_MAX
  }

  ghost predicate Sound(job: Job, os: seq<Outcome>)
    requires job.Valid()
  {
    |os| <= job.Count() && Sized(job, os) && forall i :: 0 <= i < |os| ==> EntryFine(job, os, i)
  }

  lemma SliceEndsWithin(job: Job, os: seq<Outcome>, i: nat)
    requires i < |os| <= job.Count() && FlintOf(os[i]).Some?
    ensures var s := EvidenceSlice(job, os, i); s.length > 0 && s.offset + s.length <= |EvidenceText(job, os)|
    ensures var s := EvidenceSlice(job, os, i); s.offset + s.length == |EvidenceText(job, os[..i + 1])|
  {
    hide RecordText, EvidenceRecordOf, RecordsText;
    var before, record := os[..i], EvidenceRecordOf(job, i, FlintOf(os[i]).value);
    assert os[..i + 1] == before + [os[i]];
    EvidenceSnoc(job, before, os[i]);
    RecordsSnoc(Evidence(job, before), record);
    EvidenceGrows(job, os, i + 1);
  }

  /** The record of a sound entry, as recovery will see it. */
  lemma RecordFacts(job: Job, i: nat, o: Outcome, slice: Slice, offset: nat)
    requires i < job.Count() && |job.owners| == job.Count() && job.interval > 0
    requires TextsQuotable(RecordOf(job, i, o, slice, offset))
    requires FlintOf(o).Some? ==> slice.offset <= MAX_U64 && 0 < slice.length <= MAX_U64
    ensures var r := RecordOf(job, i, o, slice, offset);
      Written(r) && r.flatIndex == i && r.campaignId == job.campaignId
      && SliceOf(r) == if FlintOf(o).Some? then Some(slice) else None
  {
    hide JournalPath, SegmentOf, SegmentPath, TextsQuotable;
  }

  lemma EntryFacts(job: Job, os: seq<Outcome>, i: nat)
    requires job.Valid() && Sound(job, os) && i < |os|
    ensures TextsQuotable(RecordAt(job, os, i))
    ensures FlintOf(os[i]).Some? ==>
      0 < EvidenceSlice(job, os, i).length <= STREAM_MAX && EvidenceSlice(job, os, i).offset <= STREAM_MAX
  {
    hide TextsQuotable, RecordAt, EvidenceSlice, SegmentPath, SegmentOf;
    assert EntryFine(job, os, i);
    if FlintOf(os[i]).Some? {
      SliceEndsWithin(job, os, i);
    }
  }

  /** Recovery reads back every line of a sound ledger. */
  lemma LineReads(job: Job, os: seq<Outcome>, i: nat)
    requires job.Valid() && Sound(job, os) && i < |os| <= job.Count()
    ensures ScanLine(ResultLines(job, os)[i], i, job.campaignId) ==
      Ok(if FlintOf(os[i]).Some? then Some(EvidenceSlice(job, os, i)) else None)
    ensures Without(ResultLines(job, os)[i], '\n')
    ensures Account(ResultLines(job, os)[i]) ==
      Ok(Counted(RecordAt(job, os, i).primality, KindOf(RecordAt(job, os, i))))
  {
    hide EvidenceText, EvidenceSlice, CertText, ResultLines, TextsQuotable, ScanLine, RecordLineText, Account, RecordOf,
      Sound, Written,
      SliceOf, KindOf, FlintOf;
    EntryFacts(job, os, i);
    ResultLineAt(job, os, i);
    RecordFacts(job, i, os[i], EvidenceSlice(job, os, i), |CertText(os[..i], SegmentBegin(job, i))|);
    ScanWritten(RecordAt(job, os, i));
    AccountWritten(RecordAt(job, os, i));
  }

  /** The segment search counts exactly the certificates of that segment and the claims. */
  lemma LineNamesSegment(job: Job, os: seq<Outcome>, i: nat)
    requires job.Valid() && Sound(job, os) && i < |os| <= job.Count()
    ensures var s := SegmentOf(job, i);
      NamesSegment(ResultLines(job, os)[i], s.begin, s.end) <==> os[i].Certified? || Claims(job, os[i], i)
  {
    hide EvidenceSlice, CertText, ResultLines, TextsQuotable, RecordLineText, SegmentPath, NamesSegment, JournalPath,
      Sized, SegmentOf;
    assert EntryFine(job, os, i);
    ResultLineAt(job, os, i);
    var s := SegmentOf(job, i);
    SegmentPathNamed(s.begin, s.end);
    hide Sound;
    NamesSegmentWritten(RecordAt(job, os, i), s.begin, s.end);
  }

  lemma AllLinesRead(job: Job, os: seq<Outcome>)
    requires job.Valid() && Sound(job, os) && |os| <= job.Count()
    ensures Scannable(ResultsText(job, os), ResultLines(job, os), |os|, job.campaignId)
  {
    hide ScanLine, Account, Lines, Sound, ResultLines, EvidenceSlice, RecordAt, KindOf, FlintOf;
    forall i | 0 <= i < |os|
      ensures Without(ResultLines(job, os)[i], '\n') && ScanLine(ResultLines(job, os)[i], i, job.campaignId).Ok?
    {
      LineReads(job, os, i);
    }
  }

  // ----- the slices of a ledger

  function IndexedWritten(job: Job, os: seq<Outcome>): seq<IndexedSlice>
    requires |os| <= job.Count()
  {
    if os == [] then []
    else
      var n := |os| - 1;
      IndexedWritten(job, os[..n]) + if FlintOf(os[n]).Some? then [IndexedSlice(n, EvidenceSlice(job, os, n))] else []
  }

  function JustSlices(indexed: seq<IndexedSlice>): (slices: seq<Slice>)
    ensures |slices| == |indexed|
    ensures forall i :: 0 <= i < |slices| ==> slices[i] == indexed[i].slice
  {
    seq(|indexed|, i requires 0 <= i < |indexed| => indexed[i].slice)
  }

  lemma {:induction false} IndexedRead(job: Job, os: seq<Outcome>, n: nat)
    requires job.Valid() && Sound(job, os) && n <= |os| <= job.Count()
    ensures IndexedOf(ResultLines(job, os)[..n], job.campaignId) == IndexedWritten(job, os[..n])
  {
    hide ScanLine, Sound, EvidenceSlice, Account, ResultLines, RecordAt, KindOf, FlintOf, SearchLedger.Evidence;
    var lines := ResultLines(job, os);
    if n > 0 {
      IndexedRead(job, os, n - 1);
      LineReads(job, os, n - 1);
      SliceStays(job, os, n, n - 1);
      assert lines[..n][..n - 1] == lines[..n - 1] && os[..n][..n - 1] == os[..n - 1];
    }
  }

  lemma SliceStays(job: Job, os: seq<Outcome>, n: nat, i: nat)
    requires i < n <= |os| <= job.Count()
    ensures EvidenceSlice(job, os[..n], i) == EvidenceSlice(job, os, i)
  {
    assert os[..n][..i] == os[..i];
  }

  /** The slices of a ledger are those of its evidence, in order and for the right candidates. */
  lemma {:induction false} IndexedIsEvidence(job: Job, os: seq<Outcome>)
    requires |os| <= job.Count()
    ensures JustSlices(IndexedWritten(job, os)) == SlicesOf(Evidence(job, os), 0)
    ensures |IndexedWritten(job, os)| == |Evidence(job, os)|
    ensures forall k :: 0 <= k < |Evidence(job, os)| ==>
      BoundTo(job, Evidence(job, os)[k], IndexedWritten(job, os)[k].flatIndex)
    decreases |os|
  {
    hide RecordText, EvidenceRecordOf, FlintOf, BoundTo, SlicesOf, RecordsText;
    if os != [] {
      var n := |os| - 1;
      var before := os[..n];
      IndexedIsEvidence(job, before);
      assert os == before + [os[n]];
      EvidenceSnoc(job, before, os[n]);
      if FlintOf(os[n]).Some? {
        var record := EvidenceRecordOf(job, n, FlintOf(os[n]).value);
        SlicesSnoc(Evidence(job, before), record, 0);
        RecordBound(job, n, FlintOf(os[n]).value);
        IndexedSnoc(job, os);
        hide IndexedWritten, Evidence;
        SliceIs(job, os, n);
      }
    } else {
      assert SlicesOf(Evidence(job, os), 0) == [];
    }
  }

  lemma SliceIs(job: Job, os: seq<Outcome>, n: nat)
    requires n < |os| <= job.Count() && FlintOf(os[n]).Some?
    ensures EvidenceSlice(job, os, n) ==
      Slice(|RecordsText(Evidence(job, os[..n]))|, |RecordText(EvidenceRecordOf(job, n, FlintOf(os[n]).value))|)
  {
  }

  lemma IndexedSnoc(job: Job, os: seq<Outcome>)
    requires 0 < |os| <= job.Count() && FlintOf(os[|os| - 1]).Some?
    ensures IndexedWritten(job, os) ==
      IndexedWritten(job, os[..|os| - 1]) + [IndexedSlice(|os| - 1, EvidenceSlice(job, os, |os| - 1))]
  {
  }

  /** What restore_progress checks of every evidence record. */
  predicate BoundTo(job: Job, e: EvidenceRecord, i: nat) {
    i < job.Count() && e.jobId == Bytes(FlintJob() + ToDecimal(i))
      && e.input == Bytes(ToDecimal(job.candidates[i].value))
  }

  lemma RecordBound(job: Job, i: nat, flint: Flint)
    requires i < job.Count()
    ensures BoundTo(job, EvidenceRecordOf(job, i, flint), i)
  {
  }

  // ----- checkpoints

  function PayloadOf(job: Job, os: seq<Outcome>): ProgressPayload
    requires job.Valid() && |os| <= job.Count()
  {
    ProgressPayload(job.configurationSha256, |EvidenceText(job, os)|, job.sha256(EvidenceText(job, os)),
                    |ResultsText(job, os)|, job.sha256(ResultsText(job, os)))
  }

  function StateOf(job: Job, os: seq<Outcome>): CheckpointState
    requires job.Valid() && |os| <= job.Count()
  {
    CheckpointState(job.campaignId, ProgressText(PayloadOf(job, os)), ToDecimal(|os|), |os|)
  }

  // ----- segments

  function Content(segments: map<Segment, string>, s: Segment): string {
    if s in segments then segments[s] else ""
  }

  /** The certificates of a segment's candidates so far. */
  function SegmentText(os: seq<Outcome>, s: Segment): string {
    CertText(os[..if s.end < |os| then s.end else |os|], s.begin)
  }

  /** A segment that is over is exact; the current one may have more behind its certificates. */
  ghost predicate SegmentHolds(job: Job, os: seq<Outcome>, segments: map<Segment, string>, i: nat)
    requires job.Valid()
  {
    var s := SegmentOf(job, i);
    SegmentText(os, s) <= Content(segments, s) && (s.end <= |os| ==> SegmentText(os, s) == Content(segments, s))
  }

  ghost predicate Proper(job: Job, s: Segment)
    requires job.Valid()
  {
    exists i: nat :: i < job.Count() && s == SegmentOf(job, i)
  }

  ghost predicate SegmentsHold(job: Job, os: seq<Outcome>, segments: map<Segment, string>)
    requires job.Valid()
  {
    && (forall s :: s in segments ==> Proper(job, s))
    && forall i: nat :: i < |os| ==> SegmentHolds(job, os, segments, i)
  }

  /** Every segment holds exactly the certificates so far, and none is ahead. */
  ghost predicate SegmentsExact(job: Job, os: seq<Outcome>, segments: map<Segment, string>)
    requires job.Valid()
  {
    && (forall s :: s in segments ==> Proper(job, s) && s.begin < |os|)
    && forall i: nat :: i < |os| ==> Content(segments, SegmentOf(job, i)) == SegmentText(os, SegmentOf(job, i))
  }

  // ----- the disk

  /** The checkpoint binds a beginning of every file; behind it a crash may have left anything. */
  ghost predicate Durable(job: Job, os: seq<Outcome>, results: string, evidence: string, segments: map<Segment, string>,
                          checkpoint: Option<CheckpointState>)
    requires job.Valid()
  {
    && Sound(job, os) && checkpoint == Some(StateOf(job, os))
    && ResultsText(job, os) <= results && EvidenceText(job, os) <= evidence && SegmentsHold(job, os, segments)
  }

  class Disk {
    var results: string
    const log: EvidenceLog
    var segments: map<Segment, string>
    var checkpoint: Option<CheckpointState>
    ghost var committed: seq<Outcome>

    constructor (sha256: string -> string)
      ensures results == "" && fresh(log) && log.bytes == "" && log.sha256 == sha256
      ensures segments == map[] && checkpoint == None && committed == []
    {
      results, segments, checkpoint, committed := "", map[], None, [];
      log := new EvidenceLog(sha256);
    }

    /** A restart from here finds the committed outcomes. */
    ghost predicate Recoverable(job: Job)
      reads this, log
      requires job.Valid()
    {
      log.sha256 == job.sha256 && Durable(job, committed, results, log.bytes, segments, checkpoint)
    }

    /** Nothing is behind the committed outcomes. */
    ghost predicate Exact(job: Job)
      reads this, log
      requires job.Valid()
    {
      && log.sha256 == job.sha256 && Sound(job, committed) && checkpoint == Some(StateOf(job, committed))
      && results == ResultsText(job, committed) && log.bytes == EvidenceText(job, committed)
      && SegmentsExact(job, committed, segments)
    }
  }
}
