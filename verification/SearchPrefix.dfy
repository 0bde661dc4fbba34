/** Walking over the lines of a file: the result prefix of a checkpoint and the
    certificates of a segment (src/mvp/search_pipeline.cpp). */
module SearchPrefix {
  import opened MachineArithmetic
  import opened Decimal
  import opened DelimitedText
  import opened EvidenceLog
  import opened SearchScan
  import opened Wrappers

  predicate AllLines(lines: seq<string>) {
    forall i :: 0 <= i < |lines| ==> Without(lines[i], '\n')
  }

  /** Where a line stands in the text of all lines. */
  lemma LineAt(lines: seq<string>, k: nat, rest: string)
    requires k < |lines| && AllLines(lines)
    ensures var s, begin := Lines(lines) + rest, |Lines(lines[..k])|;
      begin < |s| && Find(s, '\n', begin) == begin + |lines[k]| < |s| && s[begin..begin + |lines[k]|] == lines[k]
    ensures |Lines(lines[..k + 1])| == |Lines(lines[..k])| + |lines[k]| + 1
  {
    var before, line, after := lines[..k], lines[k], lines[k + 1..];
    assert lines == before + ([line] + after) && lines[..k + 1] == before + [line];
    LinesAppend(before, [line] + after);
    LinesAppend(before, [line]);
    assert [line][1..] == [] && ([line] + after)[1..] == after;
    assert Lines([line]) == line + (['\n'] + Lines([])) && Lines([line] + after) == line + (['\n'] + Lines(after));
    assert Without(line, '\n');
    hide Lines, AllLines;
    LineInside(Lines(before), line, Lines(after), rest);
  }

  lemma LineInside(a: string, line: string, b: string, rest: string)
    requires Without(line, '\n')
    ensures var s := (a + (line + (['\n'] + b))) + rest;
      Find(s, '\n', |a|) == |a| + |line| < |s| && s[|a|..|a| + |line|] == line
  {
    var s := (a + (line + (['\n'] + b))) + rest;
    assert forall j :: |a| <= j < |a| + |line| ==> s[j] == line[j - |a|];
    assert s[|a| + |line|] == '\n';
    FindUnique(s, '\n', |a|, |a| + |line|);
  }

  // ----- counting lines

  /** The position behind a number of newlines. */
  function AfterLines(s: string, count: nat): (r: Option<nat>)
    ensures r.Some? ==> r.value <= |s|
  {
    if count == 0 then Some(0)
    else
      match AfterLines(s, count - 1)
      case None => None
      case Some(p) => var newline := Find(s, '\n', p); if newline == |s| then None else Some(newline + 1)
  }

  /** Behind so many lines stands the rest of the text. */
  lemma {:induction false} AfterLinesOf(lines: seq<string>, rest: string, count: nat)
    requires AllLines(lines) && count <= |lines|
    ensures AfterLines(Lines(lines) + rest, count) == Some(|Lines(lines[..count])|)
  {
    if count > 0 {
      AfterLinesOf(lines, rest, count - 1);
      LineAt(lines, count - 1, rest);
    } else {
      assert lines[..0] == [];
    }
  }

  /** Further lines end further on. */
  lemma {:induction false} MoreLinesReachFurther(s: string, m: nat, n: nat)
    requires m <= n && AfterLines(s, m).Some?
    ensures AfterLines(s, n).Some? ==> AfterLines(s, m).value + (n - m) <= AfterLines(s, n).value
  {
    if m < n {
      MoreLinesReachFurther(s, m, n - 1);
    }
  }

  /** The newline loop over a partial certificate segment. */
  method AuthenticatedBytes(journal: string, certificates: nat) returns (r: Option<nat>)
    ensures r == AfterLines(journal, certificates)
  {
    var bytes := 0;
    for certificate := 0 to certificates
      invariant bytes <= |journal| && AfterLines(journal, certificate) == Some(bytes)
    {
      var newline := Find(journal, '\n', bytes);
      if newline == |journal| {
        StaysNone(journal, certificate + 1, certificates);
        return None;
      }
      bytes := newline + 1;
    }
    return Some(bytes);
  }

  lemma {:induction false} StaysNone(s: string, m: nat, n: nat)
    requires m <= n && AfterLines(s, m).None?
    ensures AfterLines(s, n).None?
  {
    if m < n {
      StaysNone(s, m, n - 1);
    }
  }

  // ----- the result prefix

  datatype IndexedSlice = IndexedSlice(flatIndex: nat, slice: Slice)

  /** A prefix of so many lines, each accepted for its own index. */
  ghost predicate Scannable(prefix: string, lines: seq<string>, expected: nat, campaignId: string) {
    && |lines| == expected && prefix == Lines(lines) && AllLines(lines)
    && forall i :: 0 <= i < |lines| ==> ScanLine(lines[i], i, campaignId).Ok?
  }

  /** The journal slices of scanned lines. */
  function IndexedOf(lines: seq<string>, campaignId: string): seq<IndexedSlice> {
    if lines == [] then []
    else
      var n := |lines| - 1;
      IndexedOf(lines[..n], campaignId) + SliceEntry(ScanLine(lines[n], n, campaignId), n)
  }

  function SliceEntry(scanned: Result<Option<Slice>, Exception>, n: nat): seq<IndexedSlice> {
    if scanned.Ok? && scanned.value.Some? then [IndexedSlice(n, scanned.value.value)] else []
  }

  lemma ScannableLine(prefix: string, lines: seq<string>, expected: nat, campaignId: string, k: nat, offset: nat)
    requires Scannable(prefix, lines, expected, campaignId) && k < expected && offset == |Lines(lines[..k])|
    ensures offset < |prefix| && Find(prefix, '\n', offset) == offset + |lines[k]| < |prefix|
    ensures prefix[offset..offset + |lines[k]|] == lines[k] && ScanLine(lines[k], k, campaignId).Ok?
    ensures |Lines(lines[..k + 1])| == offset + |lines[k]| + 1
  {
    hide ScanLine, Lines;
    LineAt(lines, k, "");
    assert prefix + "" == prefix;
  }

  /** validate_result_prefix accepts exactly the prefixes of accepted lines and collects
      their journal slices. */
  method ValidateResultPrefix(prefix: string, expected: nat, campaignId: string)
    returns (r: Result<seq<IndexedSlice>, Exception>, ghost lines: seq<string>)
    ensures r.Ok? ==> Scannable(prefix, lines, expected, campaignId) && r.value == IndexedOf(lines, campaignId)
    ensures r.Err? ==> forall ls :: !Scannable(prefix, ls, expected, campaignId)
  {
    hide ScanLine, Lines, Scannable, Find, SliceEntry;
    var slices: seq<IndexedSlice> := [];
    lines := [];
    var offset := 0;
    EmptyLines(prefix);
    forall ls | Scannable(prefix, ls, expected, campaignId)
      ensures |ls| == expected && ls[..0] == lines
    {
      WholeIsLines(prefix, ls, expected, campaignId);
    }
    for index := 0 to expected
      invariant |lines| == index && offset <= |prefix| && prefix[..offset] == Lines(lines) && AllLines(lines)
      invariant forall i :: 0 <= i < index ==> ScanLine(lines[i], i, campaignId).Ok?
      invariant slices == IndexedOf(lines, campaignId)
      invariant forall ls :: Scannable(prefix, ls, expected, campaignId) ==> |ls| == expected && ls[..index] == lines
    {
      var end := Find(prefix, '\n', offset);
      forall ls | Scannable(prefix, ls, expected, campaignId)
        ensures end == offset + |ls[index]| < |prefix| && prefix[offset..end] == ls[index]
        ensures ScanLine(ls[index], index, campaignId).Ok?
      {
        assert |Lines(ls[..index])| == offset;
        ScannableLine(prefix, ls, expected, campaignId, index, offset);
      }
      if end == |prefix| {
        return Err(RuntimeError), lines;
      }
      var line := prefix[offset..end];
      var scanned := ScanLine(line, index, campaignId);
      if scanned.Err? {
        return Err(scanned.error), lines;
      }
      AddLine(lines, line, prefix, offset, end);
      slices := slices + SliceEntry(scanned, index);
      assert (lines + [line])[..index] == lines;
      forall ls | Scannable(prefix, ls, expected, campaignId)
        ensures ls[..index + 1] == lines + [line]
      {
        assert ls[..index + 1] == ls[..index] + [ls[index]];
      }
      lines := lines + [line];
      offset := end + 1;
    }
    forall ls | Scannable(prefix, ls, expected, campaignId)
      ensures prefix == Lines(lines)
    {
      WholeIsLines(prefix, ls, expected, campaignId);
      assert ls[..expected] == ls;
    }
    if offset != |prefix| {
      return Err(RuntimeError), lines;
    }
    assert prefix[..offset] == prefix;
    MakeScannable(prefix, lines, expected, campaignId);
    return Ok(slices), lines;
  }

  lemma EmptyLines(prefix: string)
    ensures prefix[..0] == Lines([])
  {
  }

  lemma WholeIsLines(prefix: string, lines: seq<string>, expected: nat, campaignId: string)
    requires Scannable(prefix, lines, expected, campaignId)
    ensures prefix == Lines(lines) && |lines| == expected
  {
  }

  lemma MakeScannable(prefix: string, lines: seq<string>, expected: nat, campaignId: string)
    requires |lines| == expected && prefix == Lines(lines) && AllLines(lines)
    requires forall i :: 0 <= i < |lines| ==> ScanLine(lines[i], i, campaignId).Ok?
    ensures Scannable(prefix, lines, expected, campaignId)
  {
  }

  lemma AddLine(lines: seq<string>, line: string, prefix: string, offset: nat, end: nat)
    requires offset <= end < |prefix| && prefix[..offset] == Lines(lines) && line == prefix[offset..end]
    requires prefix[end] == '\n' && (forall j :: offset <= j < end ==> prefix[j] != '\n')
    ensures prefix[..end + 1] == Lines(lines + [line]) && Without(line, '\n')
  {
    LinesSnoc(lines, line);
    hide Lines;
    assert prefix[..end + 1] == prefix[..offset] + (prefix[offset..end] + [prefix[end]]);
  }
}
