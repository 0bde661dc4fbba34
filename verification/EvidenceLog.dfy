/** The append-only log of raw engine output: slices, authenticated prefixes and
    truncation (src/mvp/flint_evidence_log.cpp). */
module EvidenceLog {
  import opened MachineArithmetic
  import opened Decimal
  import opened DelimitedText
  import opened EvidenceRecords
  import opened Durability
  import opened Hexadecimal
  import opened Wrappers

  const STREAM_MAX: int := 0x7FFF_FFFF_FFFF_FFFF

  datatype Slice = Slice(offset: nat, length: nat)

  datatype Prefix = Prefix(size: nat, sha256: string)

  // ----- whole records

  function RecordsText(es: seq<EvidenceRecord>): string {
    if es == [] then "" else RecordText(es[0]) + RecordsText(es[1..])
  }

  ghost predicate WholeRecords(bytes: string) {
    exists es: seq<EvidenceRecord> :: bytes == RecordsText(es)
  }

  lemma {:induction false} RecordsAppend(a: seq<EvidenceRecord>, b: seq<EvidenceRecord>)
    ensures RecordsText(a + b) == RecordsText(a) + RecordsText(b)
  {
    hide RecordText;
    if a == [] {
      assert a + b == b;
    } else {
      RecordsAppend(a[1..], b);
      assert (a + b)[0] == a[0] && (a + b)[1..] == a[1..] + b;
      Regroup(RecordText(a[0]), RecordsText(a[1..]), RecordsText(b));
    }
  }

  lemma RecordsSingle(e: EvidenceRecord)
    ensures RecordsText([e]) == RecordText(e)
  {
    hide RecordText;
    assert [e][1..] == [];
    assert RecordText(e) + "" == RecordText(e);
  }

  lemma RecordsSnoc(es: seq<EvidenceRecord>, e: EvidenceRecord)
    ensures RecordsText(es + [e]) == RecordsText(es) + RecordText(e)
  {
    RecordsAppend(es, [e]);
    RecordsSingle(e);
  }

  lemma {:induction false} RecordsNonempty(es: seq<EvidenceRecord>)
    ensures RecordsText(es) == "" <==> es == []
    ensures es != [] ==> RecordsText(es)[|RecordsText(es)| - 1] == '\n'
  {
    if es != [] {
      var init, last := es[..|es| - 1], es[|es| - 1];
      assert es == init + [last];
      RecordsSnoc(init, last);
      RecordIsLine(last);
      hide RecordText, RecordLine, RecordsText;
    }
  }

  /** The first newline behind a record's begin is its end. */
  lemma FirstNewline(before: string, e: EvidenceRecord, rest: string)
    ensures var s := before + (RecordText(e) + rest); Find(s, '\n', |before|) == |before| + |RecordText(e)| - 1
  {
    RecordIsLine(e);
    hide RecordText, RecordLine;
    var s := before + (RecordText(e) + rest);
    var n := |RecordLine(e)|;
    assert forall j :: |before| <= j < |before| + n ==> s[j] == RecordLine(e)[j - |before|];
    assert s[|before| + n] == '\n';
    FindUnique(s, '\n', |before|, |before| + n);
  }

  /** A record in front of a text is determined by the text. */
  lemma SplitFirst(e: EvidenceRecord, a: string, f: EvidenceRecord, b: string)
    requires RecordText(e) + a == RecordText(f) + b
    ensures e == f && a == b
  {
    FirstNewline("", e, a);
    FirstNewline("", f, b);
    hide RecordText;
    var s := RecordText(e) + a;
    assert "" + s == s;
    assert s[..|RecordText(e)|] == RecordText(e) && s[..|RecordText(f)|] == RecordText(f);
    assert s[|RecordText(e)|..] == a && s[|RecordText(f)|..] == b;
    RecordTextInjective(e, f);
  }

  /** Records in front of a text are the first records of that text. */
  lemma {:induction false} PrefixOfRecords(es: seq<EvidenceRecord>, rest: string, fs: seq<EvidenceRecord>)
    requires RecordsText(es) + rest == RecordsText(fs)
    ensures |es| <= |fs| && es == fs[..|es|] && rest == RecordsText(fs[|es|..])
  {
    hide RecordText;
    if es == [] {
      assert RecordsText(es) + rest == rest && fs[0..] == fs;
    } else {
      RecordsNonempty(es);
      Regroup(RecordText(es[0]), RecordsText(es[1..]), rest);
      SplitFirst(es[0], RecordsText(es[1..]) + rest, fs[0], RecordsText(fs[1..]));
      PrefixOfRecords(es[1..], rest, fs[1..]);
      hide RecordsText;
      assert es == [es[0]] + es[1..] && fs[..|es|] == [fs[0]] + fs[1..][..|es| - 1];
      assert fs[|es|..] == fs[1..][|es| - 1..];
    }
  }

  /** A concatenation of records splits back in only one way. */
  lemma RecordsInjective(es: seq<EvidenceRecord>, fs: seq<EvidenceRecord>)
    requires RecordsText(es) == RecordsText(fs)
    ensures es == fs
  {
    assert RecordsText(es) + "" == RecordsText(fs);
    PrefixOfRecords(es, "", fs);
    RecordsNonempty(fs[|es|..]);
  }

  // ----- slices

  /** The slices of records written from an offset on. */
  function SlicesOf(es: seq<EvidenceRecord>, offset: nat): (slices: seq<Slice>)
    ensures |slices| == |es|
  {
    if es == [] then []
    else [Slice(offset, |RecordText(es[0])|)] + SlicesOf(es[1..], offset + |RecordText(es[0])|)
  }

  lemma LengthByFirst(es: seq<EvidenceRecord>)
    ensures |RecordsText(es)| == if es == [] then 0 else |RecordText(es[0])| + |RecordsText(es[1..])|
  {
    hide RecordText;
  }

  lemma SlicesByFirst(es: seq<EvidenceRecord>, offset: nat)
    ensures es == [] ==> SlicesOf(es, offset) == []
    ensures es != [] ==>
      SlicesOf(es, offset) == [Slice(offset, |RecordText(es[0])|)] + SlicesOf(es[1..], offset + |RecordText(es[0])|)
  {
  }

  /** Successive appends tile the log: the second begins where the first ends. */
  lemma {:induction false} SlicesTile(a: seq<EvidenceRecord>, b: seq<EvidenceRecord>, offset: nat)
    ensures SlicesOf(a + b, offset) == SlicesOf(a, offset) + SlicesOf(b, offset + |RecordsText(a)|)
  {
    hide RecordText, RecordsText, SlicesOf;
    LengthByFirst(a);
    SlicesByFirst(a, offset);
    if a == [] {
      assert a + b == b;
    } else {
      SlicesTile(a[1..], b, offset + |RecordText(a[0])|);
      SlicesByFirst(a + b, offset);
      assert (a + b)[0] == a[0] && (a + b)[1..] == a[1..] + b;
    }
  }

  lemma SlicesSnoc(es: seq<EvidenceRecord>, e: EvidenceRecord, offset: nat)
    ensures SlicesOf(es + [e], offset) == SlicesOf(es, offset) + [Slice(offset + |RecordsText(es)|, |RecordText(e)|)]
  {
    hide RecordText;
    SlicesTile(es, [e], offset);
    assert [e][1..] == [];
  }

  lemma SliceAt(es: seq<EvidenceRecord>, offset: nat, i: nat)
    requires i < |es|
    ensures SlicesOf(es, offset)[i] == Slice(offset + |RecordsText(es[..i])|, |RecordText(es[i])|)
  {
    hide RecordText;
    assert es == es[..i] + es[i..];
    SlicesTile(es[..i], es[i..], offset);
    assert es[i..][0] == es[i];
  }

  predicate Bounded(bytes: string, slice: Slice) {
    slice.length > 0 && slice.offset + slice.length <= |bytes|
  }

  /** A slice that starts at a record boundary and holds exactly this record. */
  ghost predicate ReadsAs(bytes: string, slice: Slice, e: EvidenceRecord) {
    && Bounded(bytes, slice) && slice.offset <= STREAM_MAX && slice.length <= STREAM_MAX
    && (slice.offset == 0 || bytes[slice.offset - 1] == '\n')
    && bytes[slice.offset..slice.offset + slice.length] == RecordText(e)
  }

  lemma ReadsUnique(bytes: string, slice: Slice, e: EvidenceRecord, f: EvidenceRecord)
    requires ReadsAs(bytes, slice, e) && ReadsAs(bytes, slice, f)
    ensures e == f
  {
    RecordTextInjective(e, f);
  }

  lemma SplitAt(es: seq<EvidenceRecord>, i: nat)
    requires i < |es|
    ensures RecordsText(es) == RecordsText(es[..i]) + (RecordText(es[i]) + RecordsText(es[i + 1..]))
  {
    assert es == es[..i] + es[i..] && es[i..] == [es[i]] + es[i + 1..];
    RecordsAppend(es[..i], es[i..]);
    RecordsAppend([es[i]], es[i + 1..]);
    RecordsSingle(es[i]);
  }

  lemma Ahead(a: string, b: string, c: string)
    ensures (a + (b + c))[|a|..|a| + |b|] == b
  {
  }

  lemma MiddleOf(a: string, b: string, c: string, rest: string)
    ensures var s := (a + (b + c)) + rest;
      s[|a|..|a| + |b|] == b && (a != "" ==> s[|a| - 1] == a[|a| - 1]) && |a| + |b| <= |a + (b + c)|
  {
  }

  /** Every slice of a log's records reads back its own record, whatever follows. */
  lemma SliceReadsBack(es: seq<EvidenceRecord>, rest: string, i: nat)
    requires i < |es| && |RecordsText(es)| <= STREAM_MAX
    ensures ReadsAs(RecordsText(es) + rest, SlicesOf(es, 0)[i], es[i])
  {
    hide RecordText, RecordsText, SlicesOf;
    SliceAt(es, 0, i);
    SplitAt(es, i);
    RecordsNonempty(es[..i]);
    MiddleOf(RecordsText(es[..i]), RecordText(es[i]), RecordsText(es[i + 1..]), rest);
  }

  // ----- authenticated prefixes

  function PrefixOf(sha256: string -> string, bytes: string): Prefix {
    Prefix(|bytes|, sha256(bytes))
  }

  /** What truncate_authenticated demands of the log and the recorded prefix. */
  ghost predicate Authentic(sha256: string -> string, bytes: string, prefix: Prefix) {
    && CanonicalDigest(prefix.sha256) && prefix.size <= |bytes| && prefix.size <= STREAM_MAX
    && WholeRecords(bytes[..prefix.size]) && sha256(bytes[..prefix.size]) == prefix.sha256
  }

  /** A prefix recorded of a log is authentic for every log that goes on from it. */
  lemma ExtensionIsAuthentic(sha256: string -> string, before: string, after: string)
    requires Hashes(sha256) && WholeRecords(before) && |before| <= STREAM_MAX
    requires |before| <= |after| && after[..|before|] == before
    ensures Authentic(sha256, after, PrefixOf(sha256, before)) && after[..PrefixOf(sha256, before).size] == before
  {
  }

  /** Two texts the hash tells apart if they differ. */
  predicate NoCollision(sha256: string -> string, a: string, b: string) {
    sha256(a) == sha256(b) ==> a == b
  }

  /** Unless the log's own beginning collides with the recorded one, truncation is accepted
      for no other log. */
  lemma OnlyExtensionsAreAuthentic(sha256: string -> string, before: string, after: string)
    requires Hashes(sha256) && WholeRecords(before) && |before| <= STREAM_MAX
    requires |before| <= |after| ==> NoCollision(sha256, after[..|before|], before)
    ensures Authentic(sha256, after, PrefixOf(sha256, before)) <==> |before| <= |after| && after[..|before|] == before
  {
    if |before| <= |after| && after[..|before|] == before {
      ExtensionIsAuthentic(sha256, before, after);
    }
  }

  /** The loop over records shared by authentication and truncation. */
  method ParsePrefix(bytes: string) returns (failure: Option<Exception>, ghost records: seq<EvidenceRecord>)
    ensures failure == None ==> bytes == RecordsText(records)
    ensures failure != None ==> !WholeRecords(bytes)
  {
    hide RecordText, RecordsText;
    records := [];
    RecordsNonempty([]);
    var begin := 0;
    while begin < |bytes|
      invariant 0 <= begin <= |bytes| && bytes[..begin] == RecordsText(records)
    {
      assert bytes == RecordsText(records) + bytes[begin..];
      NextRecord(records, bytes[begin..], begin);
      var newline := Find(bytes, '\n', begin);
      if newline == |bytes| {
        return Some(RuntimeError), records;
      }
      var length := newline - begin + 1;
      var parsed := ParseRecord(bytes[begin..begin + length]);
      if parsed.Err? {
        return Some(parsed.error), records;
      }
      RecordsSnoc(records, parsed.value);
      assert bytes[..begin + length] == bytes[..begin] + bytes[begin..begin + length];
      records := records + [parsed.value];
      begin := begin + length;
    }
    assert bytes[..begin] == bytes;
    return None, records;
  }

  lemma NextRecord(records: seq<EvidenceRecord>, rest: string, begin: nat)
    requires rest != "" && begin == |RecordsText(records)|
    ensures var bytes := RecordsText(records) + rest; WholeRecords(bytes) ==>
      Find(bytes, '\n', begin) < |bytes| && IsRecordText(bytes[begin..Find(bytes, '\n', begin) + 1])
  {
    hide RecordText, Find, IsRecordText;
    var bytes := RecordsText(records) + rest;
    if WholeRecords(bytes) {
      var fs :| bytes == RecordsText(fs);
      PrefixOfRecords(records, rest, fs);
      var more := fs[|records|..];
      assert rest == RecordText(more[0]) + RecordsText(more[1..]);
      hide RecordsText;
      NextRecordOf(RecordsText(records), more[0], RecordsText(more[1..]));
    }
  }

  lemma NextRecordOf(before: string, e: EvidenceRecord, after: string)
    ensures var bytes := before + (RecordText(e) + after); var newline := Find(bytes, '\n', |before|);
      newline < |bytes| && IsRecordText(bytes[|before|..newline + 1])
  {
    hide RecordText, Find;
    FirstNewline(before, e, after);
    Ahead(before, RecordText(e), after);
  }

  /** These slices index a beginning of the log, record by record. */
  ghost predicate Indexes(slices: seq<Slice>, es: seq<EvidenceRecord>, bytes: string) {
    slices == SlicesOf(es, 0) && RecordsText(es) <= bytes && |RecordsText(es)| <= STREAM_MAX
  }

  /** Slice by slice, these records are what the log holds. */
  ghost predicate ReadsAll(bytes: string, slices: seq<Slice>, es: seq<EvidenceRecord>) {
    |es| <= |slices| && forall k :: 0 <= k < |es| ==> ReadsAs(bytes, slices[k], es[k])
  }

  lemma IndexReads(slices: seq<Slice>, es: seq<EvidenceRecord>, bytes: string)
    requires Indexes(slices, es, bytes)
    ensures ReadsAll(bytes, slices, es)
  {
    hide RecordsText, RecordText, ReadsAs, SlicesOf;
    var rest := bytes[|RecordsText(es)|..];
    assert bytes == RecordsText(es) + rest;
    forall k | 0 <= k < |es|
      ensures ReadsAs(bytes, slices[k], es[k])
    {
      SliceReadsBack(es, rest, k);
    }
  }

  /** A log is indexed by the same slices in only one way. */
  lemma ReadsSame(bytes: string, slices: seq<Slice>, records: seq<EvidenceRecord>, es: seq<EvidenceRecord>)
    requires ReadsAll(bytes, slices, records) && Indexes(slices, es, bytes)
    ensures |es| == |slices| && records == es[..|records|]
  {
    IndexReads(slices, es, bytes);
    hide ReadsAs, Indexes;
    forall k | 0 <= k < |records|
      ensures records[k] == es[k]
    {
      ReadsUnique(bytes, slices[k], records[k], es[k]);
    }
  }

  lemma ReadsBounded(bytes: string, slice: Slice, e: EvidenceRecord)
    requires ReadsAs(bytes, slice, e)
    ensures Bounded(bytes, slice)
  {
  }

  lemma NextSlice(bytes: string, slices: seq<Slice>, records: seq<EvidenceRecord>, es: seq<EvidenceRecord>)
    requires ReadsAll(bytes, slices, records) && Indexes(slices, es, bytes) && |records| < |slices|
    ensures var slice := slices[|records|];
      slice.offset == |RecordsText(records)| && Bounded(bytes, slice) && slice.length <= STREAM_MAX - slice.offset
      && exists e :: ReadsAs(bytes, slice, e)
  {
    var i := |records|;
    ReadsSame(bytes, slices, records, es);
    IndexReads(slices, es, bytes);
    SliceAt(es, 0, i);
    assert ReadsAs(bytes, slices[i], es[i]);
    SplitAt(es, i);
    hide RecordText, RecordsText, SlicesOf, ReadsAs;
    assert Bounded(bytes, slices[i]) by {
      ReadsBounded(bytes, slices[i], es[i]);
    }
  }

  // ----- the log

  lemma IndexBounded(slices: seq<Slice>, es: seq<EvidenceRecord>, bytes: string)
    requires Indexes(slices, es, bytes)
    ensures |RecordsText(es)| <= STREAM_MAX
  {
  }

  lemma Extended(bytes: string, a: string, n: nat)
    requires a <= bytes && |a| + n <= |bytes|
    ensures a + bytes[|a|..|a| + n] <= bytes
  {
  }

  lemma OneMore(bytes: string, slice: Slice, records: seq<EvidenceRecord>, e: EvidenceRecord)
    requires RecordsText(records) <= bytes && slice.offset == |RecordsText(records)| && ReadsAs(bytes, slice, e)
    ensures RecordsText(records + [e]) <= bytes && |RecordsText(records + [e])| == slice.offset + slice.length
    ensures SlicesOf(records + [e], 0) == SlicesOf(records, 0) + [slice]
  {
    hide RecordText, RecordsText, SlicesOf;
    RecordsSnoc(records, e);
    SlicesSnoc(records, e, 0);
    Extended(bytes, RecordsText(records), slice.length);
  }

  /** Where an append may begin. */
  predicate AtBoundary(bytes: string) {
    bytes == "" || (bytes[|bytes| - 1] == '\n' && |bytes| <= STREAM_MAX + 1)
  }

  class EvidenceLog {
    var bytes: string
    const sha256: string -> string

    constructor (sha256: string -> string)
      ensures bytes == "" && this.sha256 == sha256
    {
      bytes := "";
      this.sha256 := sha256;
    }

    /** append_batch: the slices tile the appended text; nothing before it changes, and a
        crash keeps some beginning of it. */
    method AppendBatch(records: seq<EvidenceRecord>, fate: Fate) returns (r: Result<seq<Slice>, Exception>, alive: bool)
      modifies this
      ensures r.Ok? ==>
        bytes == old(bytes) +
          RecordsText(records)[..Kept(if records == [] then Completes else fate, |RecordsText(records)|)]
      ensures r.Ok? ==> r.value == SlicesOf(records, |old(bytes)|)
      ensures r.Ok? && records != [] ==> alive == fate.Completes?
      ensures r.Err? || records == [] ==> alive && bytes == old(bytes)
      ensures r.Ok? <==> records == [] || (AtBoundary(old(bytes)) && |old(bytes)| + |RecordsText(records)| <= MAX_U64)
    {
      RecordsNonempty(records);
      RecordsNonempty([]);
      hide RecordText, RecordsText;
      if records == [] {
        return Ok([]), true;
      }
      assert records[..0] == [];
      var payload := "";
      var slices: seq<Slice> := [];
      var i := 0;
      while i < |records|
        invariant 0 <= i <= |records| && payload == RecordsText(records[..i]) && bytes == old(bytes)
        invariant slices == SlicesOf(records[..i], |bytes|)
      {
        var canonical := RecordText(records[i]);
        assert records[..i + 1] == records[..i] + [records[i]];
        RecordsSnoc(records[..i], records[i]);
        SlicesSnoc(records[..i], records[i], |bytes|);
        slices := slices + [Slice(|bytes| + |payload|, |canonical|)];
        payload := payload + canonical;
        i := i + 1;
      }
      assert records[..i] == records;
      if |payload| > MAX_U64 {
        return Err(LengthError), true;
      }
      if bytes != "" {
        var boundary := RecordBoundary(|bytes|);
        if boundary.Some? {
          return Err(boundary.value), true;
        }
      }
      if |payload| > MAX_U64 - |bytes| {
        return Err(LengthError), true;
      }
      bytes := bytes + payload[..Kept(fate, |payload|)];
      return Ok(slices), fate.Completes?;
    }

    /** require_record_boundary */
    method RecordBoundary(offset: nat) returns (failure: Option<Exception>)
      requires offset <= |bytes|
      ensures failure == None <==> offset == 0 || (offset - 1 <= STREAM_MAX && bytes[offset - 1] == '\n')
    {
      if offset == 0 {
        return None;
      }
      if offset - 1 > STREAM_MAX {
        return Some(LengthError);
      }
      return if bytes[offset - 1] == '\n' then None else Some(RuntimeError);
    }

    /** read: a slice is read exactly when it is one whole record. */
    method Read(slice: Slice) returns (r: Result<EvidenceRecord, Exception>)
      ensures r.Ok? ==> ReadsAs(bytes, slice, r.value)
      ensures r.Err? ==> forall e :: !ReadsAs(bytes, slice, e)
    {
      hide RecordText;
      if slice.length == 0 || slice.offset > |bytes| || slice.length > |bytes| - slice.offset {
        return Err(RuntimeError);
      }
      var boundary := RecordBoundary(slice.offset);
      if boundary.Some? {
        return Err(boundary.value);
      }
      if slice.offset > STREAM_MAX || slice.length > STREAM_MAX {
        return Err(LengthError);
      }
      r := ParseRecord(bytes[slice.offset..slice.offset + slice.length]);
    }

    /** authenticate_prefix: exactly the prefixes that are whole records, with their hash. */
    method AuthenticatePrefix(size: nat) returns (r: Result<Prefix, Exception>)
      ensures r.Ok? <==> size <= |bytes| && size <= STREAM_MAX && WholeRecords(bytes[..size])
      ensures r.Ok? ==> r.value == PrefixOf(sha256, bytes[..size])
    {
      hide RecordText;
      if size > |bytes| {
        return Err(RuntimeError);
      }
      if size > STREAM_MAX {
        return Err(LengthError);
      }
      var failure, _ := ParsePrefix(bytes[..size]);
      if failure.Some? {
        return Err(failure.value);
      }
      return Ok(Prefix(size, sha256(bytes[..size])));
    }

    /** validate_contiguous_prefix: exactly the slices of the records a prefix consists of. */
    method ValidateContiguousPrefix(slices: seq<Slice>)
      returns (r: Result<Prefix, Exception>, ghost records: seq<EvidenceRecord>)
      ensures r.Ok? ==> slices == SlicesOf(records, 0) && RecordsText(records) <= bytes
      ensures r.Ok? ==> r.value == PrefixOf(sha256, RecordsText(records)) && |RecordsText(records)| <= STREAM_MAX
      ensures r.Err? ==> forall es :: !Indexes(slices, es, bytes)
    {
      hide RecordText, RecordsText, Indexes;
      records := [];
      RecordsNonempty([]);
      var expected := 0;
      var i := 0;
      while i < |slices|
        invariant 0 <= i <= |slices| && slices[..i] == SlicesOf(records, 0)
        invariant expected == |RecordsText(records)| && RecordsText(records) <= bytes
        invariant |records| == i && ReadsAll(bytes, slices, records)
      {
        var slice := slices[i];
        forall es | Indexes(slices, es, bytes)
          ensures slice.offset == expected && Bounded(bytes, slice) && slice.length <= STREAM_MAX - expected
          ensures exists e :: ReadsAs(bytes, slice, e)
        {
          NextSlice(bytes, slices, records, es);
        }
        if slice.offset != expected || slice.length == 0 || slice.length > MAX_U64 - expected {
          return Err(RuntimeError), records;
        }
        var one := Read(slice);
        if one.Err? {
          return Err(one.error), records;
        }
        OneMore(bytes, slice, records, one.value);
        assert slices[..i + 1] == slices[..i] + [slice];
        records := records + [one.value];
        expected := expected + slice.length;
        i := i + 1;
      }
      assert slices[..i] == slices && bytes[..expected] == RecordsText(records);
      forall es | Indexes(slices, es, bytes)
        ensures expected <= STREAM_MAX
      {
        ReadsSame(bytes, slices, records, es);
        assert records == es;
        IndexBounded(slices, es, bytes);
      }
      r := AuthenticatePrefix(expected);
    }

    /** validate_complete_log: the slices index the whole log. */
    method ValidateCompleteLog(slices: seq<Slice>)
      returns (r: Result<Prefix, Exception>, ghost records: seq<EvidenceRecord>)
      ensures r.Ok? ==>
        slices == SlicesOf(records, 0) && bytes == RecordsText(records) && r.value == PrefixOf(sha256, bytes)
      ensures r.Err? ==> forall es :: bytes == RecordsText(es) && |bytes| <= STREAM_MAX ==> slices != SlicesOf(es, 0)
    {
      hide RecordText, RecordsText, SlicesOf;
      r, records := ValidateContiguousPrefix(slices);
      forall es | bytes == RecordsText(es) && |bytes| <= STREAM_MAX && slices == SlicesOf(es, 0)
        ensures Indexes(slices, es, bytes) && (r.Ok? ==> records == es)
      {
        assert Indexes(slices, es, bytes);
        if r.Ok? {
          IndexReads(slices, records, bytes);
          ReadsSame(bytes, slices, records, es);
          assert records == es;
        }
      }
      if r.Ok? && r.value.size != |bytes| {
        r := Err(RuntimeError);
      }
    }

    /** truncate_authenticated: the log is cut back to the recorded prefix exactly when the
        prefix is whole records with that hash; otherwise it stays as it is. */
    method TruncateAuthenticated(prefix: Prefix, fate: Fate) returns (failure: Option<Exception>, alive: bool)
      modifies this
      ensures failure == None <==> Authentic(sha256, old(bytes), prefix)
      ensures failure != None ==> bytes == old(bytes) && alive
      ensures failure == None ==> alive == (fate.Completes? || prefix.size == |old(bytes)|)
      ensures failure == None ==> bytes == if TakesEffect(fate) then old(bytes)[..prefix.size] else old(bytes)
    {
      hide RecordText;
      if !CanonicalDigest(prefix.sha256) {
        return Some(InvalidArgument), true;
      }
      if prefix.size > |bytes| {
        return Some(RuntimeError), true;
      }
      if prefix.size > STREAM_MAX {
        return Some(LengthError), true;
      }
      var parsed, _ := ParsePrefix(bytes[..prefix.size]);
      if parsed.Some? {
        return parsed, true;
      }
      if sha256(bytes[..prefix.size]) != prefix.sha256 {
        return Some(RuntimeError), true;
      }
      alive := true;
      if prefix.size != |bytes| {
        bytes := if TakesEffect(fate) then bytes[..prefix.size] else bytes;
        alive := fate.Completes?;
      } else {
        assert bytes[..prefix.size] == bytes;
      }
      return None, alive;
    }
  }

  /** Truncation to the prefix recorded before an append restores the log from before it,
      whatever records were appended and however much of them reached the disk. */
  method TornAppendUndone(log: EvidenceLog, records: seq<EvidenceRecord>, tear: Fate)
    requires Hashes(log.sha256) && WholeRecords(log.bytes) && |log.bytes| <= STREAM_MAX
    modifies log
    ensures log.bytes == old(log.bytes)
  {
    hide RecordsText, WholeRecords;
    var prefix := PrefixOf(log.sha256, log.bytes);
    var appended, alive := log.AppendBatch(records, tear);
    assert log.bytes[..|old(log.bytes)|] == old(log.bytes);
    ExtensionIsAuthentic(log.sha256, old(log.bytes), log.bytes);
    var failure, undone := log.TruncateAuthenticated(prefix, Completes);
  }
}
