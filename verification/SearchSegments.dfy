/** How a restart cuts the certificate segments back to the checkpoint
    (src/mvp/search_pipeline.cpp). */
module SearchSegments {
  import opened NumberTheory
  import opened MachineArithmetic
  import opened DelimitedText
  import opened SearchRecords
  import opened SearchScan
  import opened SearchLedger
  import opened SearchPrefix
  import opened SearchDisk
  import opened EvidenceLog
  import opened Durability
  import opened Wrappers

  datatype Verdict = Keep | Remove | Replace(text: string) | Fail

  /** What happens to one segment file. */
  function Trim(text: string, s: Segment, sequence: nat, interval: nat, count: nat, certificates: nat): Verdict
    requires interval > 0
  {
    if s.begin >= s.end || s.end > count then Fail
    else if s.begin >= sequence then Remove
    else if sequence % interval == 0 || s.begin != sequence - sequence % interval || s.end <= sequence then Keep
    else
      match AfterLines(text, certificates)
      case None => Fail
      case Some(n) => if n == |text| then Keep else if n == 0 then Remove else Replace(text[..n])
  }

  // ----- the current segment

  lemma BlockOf(begin: nat, x: nat, n: nat)
    requires n > 0 && begin % n == 0 && begin <= x < begin + n
    ensures x - x % n == begin
  {
    var q := begin / n;
    DivModUnique(x, n, q, x - begin);
  }

  lemma BeginIsMultiple(i: nat, n: nat)
    requires n > 0
    ensures (i - i % n) % n == 0 && i < i - i % n + n
  {
    DivModUnique(i - i % n, n, i / n, 0);
  }

  /** A proper segment that has begun and is not over is the one of the next candidate. */
  lemma CurrentSegment(job: Job, s: Segment, sequence: nat)
    requires job.Valid() && Proper(job, s) && s.begin < sequence < s.end
    ensures sequence % job.interval != 0 && s.begin == sequence - sequence % job.interval
    ensures s == SegmentOf(job, s.begin)
  {
    var i: nat :| i < job.Count() && s == SegmentOf(job, i);
    BeginIsMultiple(i, job.interval);
    BlockOf(s.begin, sequence, job.interval);
    BlockOf(s.begin, s.begin, job.interval);
  }

  lemma {:induction false} CertificatesAreLines(job: Job, os: seq<Outcome>, n: nat, begin: nat)
    requires job.Valid() && Sound(job, os) && n <= |os|
    ensures AllLines(CertLines(os[..n], begin))
    decreases n
  {
    hide Sized, Without, TextsQuotable, RecordAt, SegmentPath, SegmentOf;
    if n > begin {
      CertificatesAreLines(job, os, n - 1, begin);
      assert os[..n][..n - 1] == os[..n - 1];
      assert EntryFine(job, os, n - 1);
    }
  }

  /** The segment has begun and is not over. */
  predicate Current(os: seq<Outcome>, s: Segment) {
    s.begin < |os| < s.end
  }

  /** So many lines are counted for the partial segment, and exactly its certificates. */
  ghost predicate CountsAll(job: Job, os: seq<Outcome>, certificates: nat)
    requires job.Valid()
  {
    |os| % job.interval != 0 ==> certificates >= |CertLines(os, SegmentBegin(job, |os|))|
  }

  ghost predicate CountsExactly(job: Job, os: seq<Outcome>, certificates: nat)
    requires job.Valid()
  {
    |os| % job.interval != 0 ==> certificates == |CertLines(os, SegmentBegin(job, |os|))|
  }

  /** The verdict on a file of a durable search: files ahead go, a current one fails when
      it has too few lines, becomes exact with the right number of lines counted, and
      keeps too much with more; all others are exact already. */
  lemma TrimWritten(job: Job, os: seq<Outcome>, s: Segment, text: string, certificates: nat)
    requires job.Valid() && Sound(job, os) && Proper(job, s) && CountsAll(job, os, certificates)
    requires s.begin < |os| ==> SegmentText(os, s) <= text && (s.end <= |os| ==> SegmentText(os, s) == text)
    ensures var v, exact :=
      Trim(text, s, |os|, job.interval, job.Count(), certificates), CountsExactly(job, os, certificates);
      && (v.Fail? <==> Current(os, s) && AfterLines(text, certificates).None?) && (s.begin >= |os| ==> v.Remove?)
      && (v.Replace? ==> Current(os, s) && SegmentText(os, s) <= v.text && (exact <==> v.text == SegmentText(os, s)))
      && (s.begin < |os| && v.Keep? ==> (text == SegmentText(os, s) <==> exact || !Current(os, s)))
      && (s.begin < |os| && v.Remove? ==> SegmentText(os, s) == "" && Current(os, s) && exact)
  {
    hide Sound, AfterLines, CertLines;
    var i: nat :| i < job.Count() && s == SegmentOf(job, i);
    if Current(os, s) {
      CurrentSegment(job, s, |os|);
      hide SegmentOf;
      CertificatesAreLines(job, os, |os|, s.begin);
      assert os[..|os|] == os;
      var lines := CertLines(os, s.begin);
      assert SegmentText(os, s) == Lines(lines);
      hide Lines, AllLines, SegmentText;
      var rest := text[|Lines(lines)|..];
      assert text == Lines(lines) + rest;
      AfterLinesOf(lines, rest, |lines|);
      assert lines[..|lines|] == lines;
      MoreLinesReachFurther(text, |lines|, certificates);
      if AfterLines(text, certificates).Some? {
        assert Lines(lines) <= text[..AfterLines(text, certificates).value];
      }
    }
  }

  // ----- what trimming keeps

  ghost predicate Trimmed(os: seq<Outcome>, segments: map<Segment, string>, s: Segment) {
    if s.begin < |os| then Content(segments, s) == SegmentText(os, s) else s !in segments
  }

  function Applied(segments: map<Segment, string>, s: Segment, v: Verdict): map<Segment, string> {
    match v
    case Remove => segments - {s}
    case Replace(text) => segments[s := text]
    case _ => segments
  }

  /** A current file with fewer lines than are counted. */
  ghost predicate Short(os: seq<Outcome>, segments: map<Segment, string>, certificates: nat) {
    exists s :: s in segments && Current(os, s) && AfterLines(segments[s], certificates).None?
  }

  /** At a checkpoint boundary no segment is current. */
  lemma NoneCurrent(job: Job, os: seq<Outcome>, segments: map<Segment, string>, certificates: nat)
    requires job.Valid() && SegmentsHold(job, os, segments) && |os| % job.interval == 0
    ensures !Short(os, segments, certificates)
  {
    hide AfterLines;
    forall s | s in segments
      ensures !Current(os, s)
    {
      assert Proper(job, s);
      if Current(os, s) {
        CurrentSegment(job, s, |os|);
      }
    }
  }

  lemma TrimKeeps(job: Job, os: seq<Outcome>, segments: map<Segment, string>, s: Segment, certificates: nat)
    requires job.Valid() && Sound(job, os) && SegmentsHold(job, os, segments) && s in segments
      && CountsAll(job, os, certificates)
    ensures var v := Trim(segments[s], s, |os|, job.interval, job.Count(), certificates);
      && (v.Fail? <==> Current(os, s) && AfterLines(segments[s], certificates).None?)
      && (!v.Fail? ==> SegmentsHold(job, os, Applied(segments, s, v)))
      && (!v.Fail? ==> (Trimmed(os, Applied(segments, s, v), s) <==>
        CountsExactly(job, os, certificates) || !Current(os, s)))
  {
    hide Sound, SegmentText, CertLines, Trim, AfterLines, CountsAll, CountsExactly;
    assert Proper(job, s);
    if s.begin < |os| {
      HeldAt(job, os, segments, s);
    }
    TrimWritten(job, os, s, segments[s], certificates);
    var after := Applied(segments, s, Trim(segments[s], s, |os|, job.interval, job.Count(), certificates));
    forall i: nat | i < |os|
      ensures SegmentHolds(job, os, after, i)
    {
      assert SegmentHolds(job, os, segments, i);
      hide SegmentOf;
      assert SegmentOf(job, i) != s ==> Content(after, SegmentOf(job, i)) == Content(segments, SegmentOf(job, i));
    }
  }

  lemma HeldAt(job: Job, os: seq<Outcome>, segments: map<Segment, string>, s: Segment)
    requires job.Valid() && SegmentsHold(job, os, segments) && s in segments && s.begin < |os|
    ensures SegmentText(os, s) <= segments[s] && (s.end <= |os| ==> SegmentText(os, s) == segments[s])
  {
    hide SegmentText, Sound;
    assert Proper(job, s);
    var i: nat :| i < job.Count() && s == SegmentOf(job, i);
    BeginIsMultiple(i, job.interval);
    BlockOf(s.begin, s.begin, job.interval);
    assert SegmentHolds(job, os, segments, s.begin);
  }

  lemma AbsentIsExact(job: Job, os: seq<Outcome>, before: map<Segment, string>, i: nat)
    requires job.Valid() && SegmentsHold(job, os, before) && i < |os| && SegmentOf(job, i) !in before
    ensures SegmentText(os, SegmentOf(job, i)) == ""
  {
    assert SegmentHolds(job, os, before, i);
  }

  // ----- the directory loop

  /** The loop over the certificate files, in any order; it may be cut short at any file. */
  method TrimSegments(job: Job, d: Disk, sequence: nat, certificates: nat, fate: Segment -> Fate)
    returns (failure: Option<Exception>, alive: bool)
    requires job.Valid()
    modifies d`segments
    ensures ((forall s :: fate(s).Completes?) ==> alive) && (failure.Some? ==> alive)
    ensures ReadyToTrim(job, d.committed, old(d.segments), sequence, certificates) ==>
      && SegmentsHold(job, d.committed, d.segments) && (failure == None || failure == Some(RuntimeError))
      && (alive ==> (failure == None <==> !Short(d.committed, old(d.segments), certificates)))
      && (alive && failure == None ==> (SegmentsExact(job, d.committed, d.segments) <==>
            CountsExactly(job, d.committed, certificates) || NoneIsCurrent(d.committed, old(d.segments))))
  {
    hide Sound, SegmentText, CertLines, Trim, SegmentOf, Proper, SegmentsHold, AfterLines, CountsExactly, CountsAll,
      Current;
    ghost var exact := CountsExactly(job, d.committed, certificates);
    ghost var before := d.segments;
    ghost var os := d.committed;
    ghost var ready := ReadyToTrim(job, os, before, sequence, certificates);
    var names := d.segments.Keys;
    while names != {}
      invariant names <= d.segments.Keys <= before.Keys
      invariant forall s :: s in names ==> d.segments[s] == before[s]
      invariant ready ==> SegmentsHold(job, os, d.segments)
      invariant ready ==> forall s :: s in before && s !in names ==>
        (Trimmed(os, d.segments, s) <==> exact || !Current(os, s))
      invariant ready ==> forall s :: s in before && s !in names ==>
        !(Current(os, s) && AfterLines(before[s], certificates).None?)
      decreases |names|
    {
      var s :| s in names;
      names := names - {s};
      if ready {
        TrimKeeps(job, os, d.segments, s, certificates);
      }
      var verdict := JudgeSegment(d.segments[s], s, sequence, job.interval, job.Count(), certificates);
      match verdict {
        case Fail =>
          return Some(RuntimeError), true;
        case Keep =>
        case Remove =>
          if !fate(s).Completes? {
            d.segments := if TakesEffect(fate(s)) then d.segments - {s} else d.segments;
            return None, false;
          }
          d.segments := d.segments - {s};
        case Replace(text) =>
          if !fate(s).Completes? {
            d.segments := if TakesEffect(fate(s)) then d.segments[s := text] else d.segments;
            return None, false;
          }
          d.segments := d.segments[s := text];
      }
    }
    if ready {
      if exact || NoneIsCurrent(os, before) {
        AllTrimmed(job, os, before, d.segments);
      } else {
        var s :| s in before && Current(os, s);
        OneUntrimmed(job, os, d.segments, before, s);
      }
    }
    return None, true;
  }

  ghost predicate ReadyToTrim(job: Job, os: seq<Outcome>, segments: map<Segment, string>, sequence: nat,
    certificates: nat)
    requires job.Valid()
  {
    Sound(job, os) && SegmentsHold(job, os, segments) && sequence == |os| && CountsAll(job, os, certificates)
  }

  ghost predicate NoneIsCurrent(os: seq<Outcome>, segments: map<Segment, string>) {
    forall s :: s in segments ==> !Current(os, s)
  }

  lemma OneUntrimmed(job: Job, os: seq<Outcome>, segments: map<Segment, string>, before: map<Segment, string>,
                     s: Segment)
    requires job.Valid() && SegmentsHold(job, os, before) && s in before && Current(os, s) && !Trimmed(os, segments, s)
    ensures !SegmentsExact(job, os, segments)
  {
    hide SegmentText;
    assert Proper(job, s);
    CurrentSegment(job, s, |os|);
    hide SegmentOf;
    assert Content(segments, SegmentOf(job, s.begin)) != SegmentText(os, SegmentOf(job, s.begin));
  }

  lemma AllTrimmed(job: Job, os: seq<Outcome>, before: map<Segment, string>, after: map<Segment, string>)
    requires job.Valid() && SegmentsHold(job, os, before) && SegmentsHold(job, os, after) && after.Keys <= before.Keys
    requires forall s :: s in before ==> Trimmed(os, after, s)
    ensures SegmentsExact(job, os, after)
  {
    hide SegmentText, SegmentOf;
    forall i: nat | i < |os|
      ensures Content(after, SegmentOf(job, i)) == SegmentText(os, SegmentOf(job, i))
    {
      var s := SegmentOf(job, i);
      if s in before {
        assert Trimmed(os, after, s);
      } else {
        AbsentIsExact(job, os, before, i);
      }
    }
    forall s | s in after
      ensures s.begin < |os|
    {
      assert Trimmed(os, after, s);
    }
  }

  /** The body of the loop up to the file operation. */
  method JudgeSegment(text: string, s: Segment, sequence: nat, interval: nat, count: nat, certificates: nat)
    returns (v: Verdict)
    requires interval > 0
    ensures v == Trim(text, s, sequence, interval, count, certificates)
  {
    if s.begin >= s.end || s.end > count {
      return Fail;
    }
    if s.begin >= sequence {
      return Remove;
    }
    if sequence % interval == 0 || s.begin != sequence - sequence % interval || s.end <= sequence {
      return Keep;
    }
    var bytes := AuthenticatedBytes(text, certificates);
    match bytes {
      case None => return Fail;
      case Some(n) =>
        if n == |text| {
          return Keep;
        }
        return if n == 0 then Remove else Replace(text[..n]);
    }
  }
}
