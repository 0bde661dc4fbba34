/** Where a restart of a search fails: the fallback proof engine names the current
    certificate segment as its own artifact (src/mvp/search_pipeline.cpp). */
module SearchClaims {
  import opened DelimitedText
  import opened SearchScan
  import opened SearchLedger
  import opened SearchPrefix
  import opened SearchDisk
  import opened SearchSegments
  import opened SearchRecovery
  import opened Wrappers

  /** There are not more lines than there are. */
  lemma NoFurtherLines(lines: seq<string>, count: nat)
    requires AllLines(lines) && count > |lines|
    ensures AfterLines(Lines(lines), count).None?
  {
    hide Lines;
    assert Lines(lines) + "" == Lines(lines) && lines[..|lines|] == lines;
    AfterLinesOf(lines, "", |lines|);
    StaysNone(Lines(lines), |lines| + 1, count);
  }

  /** The file of the partial segment of an exact search holds its certificates only. */
  lemma ExactCurrent(job: Job, os: seq<Outcome>, segments: map<Segment, string>, s: Segment)
    requires job.Valid() && Sound(job, os) && SegmentsExact(job, os, segments) && s in segments && Current(os, s)
    ensures |os| % job.interval != 0 && s.begin == SegmentBegin(job, |os|)
    ensures segments[s] == Lines(CertLines(os, s.begin)) && AllLines(CertLines(os, s.begin))
  {
    hide Sound, CertLines, AllLines, Lines;
    assert Proper(job, s);
    CurrentSegment(job, s, |os|);
    assert Content(segments, SegmentOf(job, s.begin)) == SegmentText(os, SegmentOf(job, s.begin));
    assert os[..|os|] == os;
    CertificatesAreLines(job, os, |os|, s.begin);
  }

  /** Where every file is exact, a restart is refused exactly when an outcome of the partial
      segment claims it and the segment has a file. */
  lemma ExactOutrunWhenClaimed(job: Job, os: seq<Outcome>, segments: map<Segment, string>)
    requires job.Valid() && Sound(job, os) && SegmentsExact(job, os, segments)
    ensures Outrun(job, os, segments) <==> !Clear(job, os, segments)
  {
    hide Sound, SegmentsExact, CertLines, ClaimCount, AfterLines, Lines, AllLines;
    forall s | s in segments && Current(os, s)
      ensures |os| % job.interval != 0
      ensures AfterLines(segments[s], CountedLines(job, os, SegmentBegin(job, |os|))).None? <==> !Unclaimed(job, os)
    {
      ExactCurrent(job, os, segments, s);
      var lines := CertLines(os, s.begin);
      if Unclaimed(job, os) {
        assert Lines(lines) + "" == segments[s];
        AfterLinesOf(lines, "", |lines|);
      } else {
        NoFurtherLines(lines, CountedLines(job, os, s.begin));
      }
    }
  }

  /** Two candidates of a longer segment: the first is certified, and the fallback engine
      claims the segment for the second. */
  lemma ClaimBehindCertificate(job: Job, os: seq<Outcome>)
    requires job.Valid() && job.interval > 2 && job.Count() > 2 && |os| == 2
    requires os[0].Certified? && Without(os[0].certificate, '\n') && Claims(job, os[1], 1)
    ensures Outrun(job, os, map[SegmentOf(job, 0) := os[0].certificate + "\n"])
  {
    hide Claims, CertLines, ClaimCount, CountedLines, AfterLines;
    CountedStep(job, os, 0);
    CountedStep(job, os[..1], 0);
    CountedStep(job, os[..1][..0], 0);
    OneLine(os[0].certificate);
    NoFurtherLines([os[0].certificate], CountedLines(job, os, 0));
    assert Current(os, SegmentOf(job, 0));
  }

  lemma OneLine(line: string)
    requires Without(line, '\n')
    ensures Lines([line]) == line + "\n" && AllLines([line])
  {
  }
}
