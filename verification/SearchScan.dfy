/** How recovery reads a result line: substring searches that find exactly the members
    the line was written with (src/mvp/search_pipeline.cpp). */
module SearchScan {
  import opened MachineArithmetic
  import opened Decimal
  import opened DelimitedText
  import TextSearch
  import opened JsonLines
  import opened SearchKeys
  import opened SearchRecords
  import opened EvidenceLog
  import opened Wrappers

  // ----- the readers

  function Contains(line: string, k: Key, sought: Sought): bool {
    TextSearch.FindText(line, Marker(KeyText(k), sought), 0).Some?
  }

  /** quoted_decimal_before */
  function QuotedDecimalBefore(line: string, marker: string, before: nat): Result<u64, Exception> {
    match TextSearch.FindLast(line, marker, before)
    case None => Err(RuntimeError)
    case Some(position) =>
      var begin := position + |marker|;
      var end := Find(line, '"', begin);
      if end == |line| || end >= before then Err(RuntimeError)
      else
        match ParseCanonicalU64(line[begin..end])
        case None => Err(RuntimeError)
        case Some(n) => Ok(n)
  }

  /** flint_slice_from_result */
  function FlintSliceFromResult(line: string): Result<Option<Slice>, Exception> {
    var pathMarker := Marker(KeyText(Inner(RawLogPath)), Is(JournalPath()));
    match TextSearch.FindText(line, pathMarker, 0)
    case None => Ok(None)
    case Some(position) =>
      if TextSearch.FindText(line, pathMarker, position + |pathMarker|).Some? then Err(RuntimeError)
      else
        match QuotedDecimalBefore(line, Marker(KeyText(Inner(RawLogLength)), IsQuoted), position)
        case Err(x) => Err(x)
        case Ok(length) =>
          match QuotedDecimalBefore(line, Marker(KeyText(Inner(RawLogOffset)), IsQuoted), position)
          case Err(x) => Err(x)
          case Ok(offset) => if length == 0 then Err(RuntimeError) else Ok(Some(Slice(offset, length)))
  }

  /** The body of validate_result_prefix's loop. */
  function ScanLine(line: string, index: nat, campaignId: string): Result<Option<Slice>, Exception> {
    if !TextSearch.StartsWith(line, "{") || !TextSearch.EndsWith(line, "}")
      || !Contains(line, Top(CampaignId), Is(campaignId))
      || !Contains(line, Top(FlatIndex), Is(ToDecimal(index))) || !Without(line, '\r')
    then Err(RuntimeError)
    else
      match FlintSliceFromResult(line)
      case Err(x) => Err(x)
      case Ok(slice) => if slice.Some? == Contains(line, Top(IndependentEngine), IsNull) then Err(RuntimeError)
        else Ok(slice)
  }

  datatype Kind = BySieve | ByBase2 | ByEngine

  datatype Counted = Counted(primality: Primality, kind: Kind)

  /** account_existing_line */
  function Account(line: string): Result<Counted, Exception> {
    var kind :=
      if Contains(line, Top(ClassificationMethod), Is(MethodText(CongruenceFactor))) then BySieve
      else if Contains(line, Top(ClassificationMethod), Is(MethodText(Base2StrongWitness))) then ByBase2 else ByEngine;
    if Contains(line, Top(PrimalityStatus), Is(PrimalityText(ProvenPrime))) then Ok(Counted(ProvenPrime, kind))
    else if Contains(line, Top(PrimalityStatus),
      Is(PrimalityText(CompositeNumber))) then Ok(Counted(CompositeNumber, kind))
    else Err(RuntimeError)
  }

  /** The search for a certificate of the partial segment. */
  function NamesSegment(line: string, begin: nat, end: nat): bool {
    Contains(line, Inner(ArtifactPath), Is(SegmentPath(begin, end)))
  }

  // ----- which members a record has

  lemma FreeAppend(a: seq<Item>, b: seq<Item>, k: Key, s: Sought)
    ensures Free(a + b, k, s) <==> Free(a, k, s) && Free(b, k, s)
  {
    assert forall item :: item in a ==> item in a + b;
    assert forall item :: item in b ==> item in a + b;
  }

  predicate HeadHas(r: SearchRecord, k: Key, s: Sought) {
    k == Top(ClassificationMethod) && Fits(Quoted(MethodText(r.classification)), s)
  }

  predicate EngineHas(name: LineKey, e: Option<EngineEvidence>, k: Key, s: Sought) {
    match e
    case None => k == Top(name) && Fits(Null, s)
    case Some(x) =>
      || (k == Top(name) && Fits(Opens, s)) || (k == Inner(ArtifactPath) && Fits(TextOrNull(x.artifactPath), s))
      || (k == Inner(RawLogLength) && Fits(NumberOrNull(x.rawLogLength), s))
      || (k == Inner(RawLogOffset) && Fits(NumberOrNull(x.rawLogOffset), s))
      || (k == Inner(RawLogPath) && Fits(TextOrNull(x.rawLogPath), s))
  }

  predicate NativeHas(e: Option<NativeEvidence>, k: Key, s: Sought) {
    e.Some? && k == Inner(ArtifactPath) && Fits(Quoted(e.value.path), s)
  }

  predicate StatusHas(r: SearchRecord, k: Key, s: Sought) {
    k == Top(PrimalityStatus) && Fits(Quoted(PrimalityText(r.primality)), s)
  }

  lemma FreeHead(r: SearchRecord, k: Key, s: Sought)
    requires SearchedKey(k)
    ensures Free(HeadItems(r), k, s) <==> !HeadHas(r, k, s)
  {
    hide ToDecimal, MethodText, Fits;
    assert HeadItems(r)[1] in HeadItems(r);
  }

  lemma FreeFront(name: LineKey, x: EngineEvidence, k: Key, s: Sought)
    requires SearchedKey(k)
    ensures Free(EngineFront(name, x), k, s) <==>
      !((k == Top(name) && Fits(Opens, s)) || (k == Inner(ArtifactPath) && Fits(TextOrNull(x.artifactPath), s)))
  {
    hide Fits, TextOrNull;
    assert EngineFront(name, x)[0] in EngineFront(name, x) && EngineFront(name, x)[1] in EngineFront(name, x);
  }

  lemma FreeLog(x: EngineEvidence, k: Key, s: Sought)
    ensures Free([LengthItem(x), OffsetItem(x), PathItem(x)], k, s) <==>
      !((k == Inner(RawLogLength) && Fits(NumberOrNull(x.rawLogLength), s))
      || (k == Inner(RawLogOffset) && Fits(NumberOrNull(x.rawLogOffset), s))
      || (k == Inner(RawLogPath) && Fits(TextOrNull(x.rawLogPath), s)))
  {
    hide Fits, TextOrNull, NumberOrNull;
    var items := [LengthItem(x), OffsetItem(x), PathItem(x)];
    assert items[0] in items && items[1] in items && items[2] in items;
  }

  lemma FreeBack(x: EngineEvidence, k: Key, s: Sought)
    requires SearchedKey(k)
    ensures Free(EngineBack(x), k, s)
  {
  }

  lemma FreeEngine(name: LineKey, e: Option<EngineEvidence>, k: Key, s: Sought)
    requires SearchedKey(k)
    ensures Free(EngineItems(name, e), k, s) <==> !EngineHas(name, e, k, s)
  {
    hide Fits, TextOrNull, NumberOrNull, EngineFront, EngineBack, LengthItem, OffsetItem, PathItem;
    if e.None? {
      assert EngineItems(name, e)[0] in EngineItems(name, e);
    } else {
      var x := e.value;
      FreeFront(name, x, k, s);
      FreeLog(x, k, s);
      FreeBack(x, k, s);
      FreeAppend(EngineFront(name, x), [LengthItem(x), OffsetItem(x), PathItem(x)], k, s);
      FreeAppend(EngineFront(name, x) + [LengthItem(x), OffsetItem(x), PathItem(x)], EngineBack(x), k, s);
    }
  }

  lemma FreeNative(e: Option<NativeEvidence>, k: Key, s: Sought)
    requires SearchedKey(k)
    ensures Free(NativeItems(e), k, s) <==> !NativeHas(e, k, s)
  {
    hide Fits, Number;
    if e.Some? {
      assert NativeItems(e)[3] in NativeItems(e);
    }
  }

  lemma FreeRest(r: SearchRecord, k: Key, s: Sought)
    requires SearchedKey(k)
    ensures Free(CoordinateItems(r), k, s) && Free(TailItems(r), k, s)
    ensures Free(StatusItems(r), k, s) <==> !StatusHas(r, k, s)
  {
    hide Fits, Number, PrimalityText, VerificationText, PrpText, NotChecked;
    assert StatusItems(r)[1] in StatusItems(r);
  }

  lemma FreeBehind(r: SearchRecord, k: Key, s: Sought)
    requires SearchedKey(k)
    ensures Free(BackItems(r), k, s) <==>
      !(NativeHas(r.native, k, s) || StatusHas(r, k, s) || EngineHas(PrimaryEngine, r.primary, k, s))
  {
    hide Free, CoordinateItems, NativeItems, StatusItems, EngineItems, TailItems, NativeHas, StatusHas, EngineHas,
      SearchedKey;
    FreeRest(r, k, s);
    FreeNative(r.native, k, s);
    FreeEngine(PrimaryEngine, r.primary, k, s);
    FreeAppend(CoordinateItems(r), NativeItems(r.native), k, s);
    FreeAppend(CoordinateItems(r) + NativeItems(r.native), StatusItems(r), k, s);
    FreeAppend(CoordinateItems(r) + NativeItems(r.native)
      + StatusItems(r), EngineItems(PrimaryEngine, r.primary), k, s);
    FreeAppend(CoordinateItems(r) + NativeItems(r.native) + StatusItems(r)
      + EngineItems(PrimaryEngine, r.primary), TailItems(r), k, s);
  }

  predicate Has(r: SearchRecord, k: Key, s: Sought) {
    || HeadHas(r, k, s) || EngineHas(IndependentEngine, r.independent, k, s) || NativeHas(r.native, k, s)
    || StatusHas(r, k, s) || EngineHas(PrimaryEngine, r.primary, k, s)
  }

  /** A search of a written line finds a key and value exactly when the record has them. */
  lemma ContainsIsHas(r: SearchRecord, k: Key, s: Sought)
    requires SearchedKey(k)
    ensures Contains(RecordLineText(r), k, s) <==> Has(r, k, s)
  {
    hide Free, HeadItems, EngineItems, BackItems, NativeHas, StatusHas, EngineHas, HeadHas, SearchedKey, RecordLineText,
      KeyText, Marker;
    FreeHead(r, k, s);
    FreeEngine(IndependentEngine, r.independent, k, s);
    FreeBehind(r, k, s);
    FreeAppend(EngineItems(IndependentEngine, r.independent), BackItems(r), k, s);
    FreeAppend(HeadItems(r), EngineItems(IndependentEngine, r.independent) + BackItems(r), k, s);
    SearchIsMembership(r, k, s);
  }

  // ----- written records

  /** collect_journal_evidence */
  predicate Journaled(e: EngineEvidence) {
    && e.rawLogPath == JournalPath() && e.rawLogOffset.Some? && e.rawLogLength.Some?
    && e.rawLogOffset.value <= MAX_U64 && 0 < e.rawLogLength.value <= MAX_U64
  }

  /** collect_evidence: captured output, no journal. */
  predicate Captured(e: EngineEvidence) {
    e.rawLogPath == "" && e.rawLogOffset.None? && e.rawLogLength.None?
  }

  predicate EvidenceQuotable(e: EngineEvidence) {
    && Quotable(e.artifactPath) && Quotable(e.artifactSha256) && Quotable(e.engineId) && Quotable(e.executableSha256)
    && Quotable(e.rawLogPath) && Quotable(e.rawStderrPath) && Quotable(e.rawStdoutPath)
  }

  /** The texts that quote_json accepts. */
  predicate TextsQuotable(r: SearchRecord) {
    && Quotable(r.campaignId) && Quotable(r.workUnitId)
    && (r.independent.Some? ==> EvidenceQuotable(r.independent.value))
    && (r.primary.Some? ==> EvidenceQuotable(r.primary.value))
    && (r.native.Some? ==>
      Quotable(r.native.value.path) && Quotable(r.native.value.sha256) && Quotable(r.native.value.format))
  }

  /** canonical_search_record */
  function CanonicalSearchRecord(r: SearchRecord): Result<string, Exception> {
    if TextsQuotable(r) then Ok(RecordLineText(r)) else Err(InvalidArgument)
  }

  /** What the commit loop puts into a record. */
  predicate Written(r: SearchRecord) {
    && TextsQuotable(r) && (r.independent.Some? ==> Journaled(r.independent.value))
    && (r.primary.Some? ==> Captured(r.primary.value))
  }

  function SliceOf(r: SearchRecord): Option<Slice>
    requires Written(r)
  {
    match r.independent
    case None => None
    case Some(e) => Some(Slice(e.rawLogOffset.value, e.rawLogLength.value))
  }

  function KindOf(r: SearchRecord): Kind {
    if r.classification.CongruenceFactor? then BySieve else if r.classification.Base2StrongWitness? then ByBase2
      else ByEngine
  }

  /** The counters see exactly the record's status and method. */
  lemma AccountWritten(r: SearchRecord)
    ensures Account(RecordLineText(r)) == Ok(Counted(r.primality, KindOf(r)))
  {
    PrimalityTexts(r.primality);
    MethodTexts(r.classification);
    hide Contains, RecordLineText, PrimalityText, MethodText;
    ContainsIsHas(r, Top(PrimalityStatus), Is(PrimalityText(ProvenPrime)));
    ContainsIsHas(r, Top(PrimalityStatus), Is(PrimalityText(CompositeNumber)));
    ContainsIsHas(r, Top(ClassificationMethod), Is(MethodText(CongruenceFactor)));
    ContainsIsHas(r, Top(ClassificationMethod), Is(MethodText(Base2StrongWitness)));
  }

  lemma SegmentPathNamed(begin: nat, end: nat)
    ensures SegmentPath(begin, end) != ""
  {
    hide ToDecimal;
    assert |SegmentPath(begin, end)| >= 6;
  }

  /** The engine names the certificate file as its own artifact. */
  predicate NamesAsArtifact(e: Option<EngineEvidence>, begin: nat, end: nat) {
    e.Some? && e.value.artifactPath == SegmentPath(begin, end)
  }

  /** The search for a segment sees exactly the records whose certificate is in it and
      those one of whose engines names it as an artifact. */
  lemma NamesSegmentWritten(r: SearchRecord, begin: nat, end: nat)
    ensures NamesSegment(RecordLineText(r), begin, end) <==>
      || (r.native.Some? && r.native.value.path == SegmentPath(begin, end))
      || NamesAsArtifact(r.independent, begin, end) || NamesAsArtifact(r.primary, begin, end)
  {
    SegmentPathNamed(begin, end);
    hide Contains, RecordLineText, SegmentPath;
    ContainsIsHas(r, Inner(ArtifactPath), Is(SegmentPath(begin, end)));
  }

  /** A missing independent engine is seen as such. */
  lemma IndependentNullWritten(r: SearchRecord)
    ensures Contains(RecordLineText(r), Top(IndependentEngine), IsNull) <==> r.independent.None?
  {
    hide Contains, RecordLineText;
    ContainsIsHas(r, Top(IndependentEngine), IsNull);
  }

  // ----- the slice

  lemma LogMembersAlone(r: SearchRecord)
    requires Written(r) && r.independent.Some?
    ensures var e, n := r.independent.value, |HeadItems(r)| + |EngineFront(IndependentEngine, r.independent.value)|;
      && OnlyHit(MembersOf(Items(r)), KeyText(Inner(RawLogLength)), IsQuoted, n)
      && OnlyHit(MembersOf(Items(r)), KeyText(Inner(RawLogOffset)), IsQuoted, n + 1)
      && OnlyHit(MembersOf(Items(r)), KeyText(Inner(RawLogPath)), Is(JournalPath()), n + 2)
      && n + 2 < |Items(r)| && Items(r)[n] == LengthItem(e) && Items(r)[n + 1] == OffsetItem(e)
        && Items(r)[n + 2] == PathItem(e)
  {
    JournalPathNamed();
    hide Free, HeadItems, EngineFront, EngineBack, BackItems, KeyText, OnlyHit, MembersOf, JournalPath, ToDecimal,
      TextsQuotable;
    var e := r.independent.value;
    var front := HeadItems(r) + EngineFront(IndependentEngine, e);
    var back := EngineBack(e) + BackItems(r);
    var x, y, z := LengthItem(e), OffsetItem(e), PathItem(e);
    assert Items(r) == front + ([x] + ([y, z] + back));
    assert Items(r) == (front + [x]) + ([y] + ([z] + back));
    assert Items(r) == (front + [x, y]) + ([z] + back);
    LogOnly(r, Inner(RawLogLength), IsQuoted);
    LogOnly(r, Inner(RawLogOffset), IsQuoted);
    LogOnly(r, Inner(RawLogPath), Is(JournalPath()));
    FreeThree(x, y, z, front, back, IsQuoted);
    FreeThree(x, y, z, front, back, Is(JournalPath()));
    OnlyBetween(front, x, [y, z] + back, IsQuoted);
    OnlyBetween(front + [x], y, [z] + back, IsQuoted);
    OnlyBetween(front + [x, y], z, back, Is(JournalPath()));
  }

  /** No other member of a written record has a journal position. */
  lemma LogOnly(r: SearchRecord, k: Key, s: Sought)
    requires Written(r) && r.independent.Some?
      && (k == Inner(RawLogLength) || k == Inner(RawLogOffset) || k == Inner(RawLogPath))
    requires s == IsQuoted || s == Is(JournalPath())
    ensures Free(HeadItems(r) + EngineFront(IndependentEngine, r.independent.value), k, s)
    ensures Free(EngineBack(r.independent.value) + BackItems(r), k, s)
  {
    hide Free, HeadItems, EngineFront, EngineBack, BackItems, JournalPath, ToDecimal, TextsQuotable;
    var e := r.independent.value;
    FreeHead(r, k, s);
    FreeFront(IndependentEngine, e, k, s);
    FreeBack(e, k, s);
    FreeBehind(r, k, s);
    FreeAppend(HeadItems(r), EngineFront(IndependentEngine, e), k, s);
    FreeAppend(EngineBack(e), BackItems(r), k, s);
  }

  lemma FreeThree(x: Item, y: Item, z: Item, front: seq<Item>, back: seq<Item>, s: Sought)
    requires x.key != y.key && x.key != z.key && y.key != z.key
    ensures Free(back, x.key, s) ==> Free([y, z] + back, x.key, s)
    ensures Free(front, y.key, s) && Free(back, y.key, s) ==> Free(front + [x], y.key, s) && Free([z] + back, y.key, s)
    ensures Free(front, z.key, s) ==> Free(front + [x, y], z.key, s)
  {
    hide Fits;
  }

  /** quoted_decimal_before reads a number that is written once, before a later member. */
  lemma DecimalRead(r: SearchRecord, k: Key, n: u64, i: nat, j: nat)
    requires SearchedKey(k) && OnlyHit(MembersOf(Items(r)), KeyText(k), IsQuoted, i) && i < j < |Items(r)|
    requires Items(r)[i].key == k && Items(r)[i].value == Number(n)
    ensures QuotedDecimalBefore(RecordLineText(r), Marker(KeyText(k), IsQuoted),
      LinePosition(MembersOf(Items(r)), j)) == Ok(n)
  {
    hide Items, KeyText, OnlyHit, AllWellFormed, AllPlain, SearchedKey, QuotedDecimalBefore, LinePosition, Marker,
      LineText, ToDecimal;
    RecordWellFormed(r);
    SearchedIsPlain(k);
    LineOfItems(r);
    NumberRead(MembersOf(Items(r)), KeyText(k), n, i, j);
  }

  lemma NumberRead(ms: seq<Member>, key: string, n: u64, i: nat, j: nat)
    requires AllWellFormed(ms) && key != "" && AllPlain(key) && OnlyHit(ms, key, IsQuoted, i) && i < j < |ms|
    requires ms[i].key == key && ms[i].value == Number(n)
    ensures QuotedDecimalBefore(LineText(ms), Marker(key, IsQuoted), LinePosition(ms, j)) == Ok(n)
  {
    ParseToDecimal(n);
    DigitsBare(ToDecimal(n));
    hide OnlyHit, KeyPattern, AllWellFormed, AllPlain, LineText, ToDecimal, MemberText, ParseCanonicalU64, Bare,
      AllDigits,
      QuotedDecimalBefore, LinePosition, Marker;
    PositionsInOrder(ms, i, j);
    FoundOnly(ms, key, IsQuoted, i, LinePosition(ms, j));
    var rest := QuotedAt(ms, i);
    MarkerLength(key);
    DecimalFound(LineText(ms), Marker(key, IsQuoted), LinePosition(ms, j), LinePosition(ms, i), ToDecimal(n), rest, n);
  }

  lemma PositionsInOrder(ms: seq<Member>, i: nat, j: nat)
    requires i < j < |ms|
    ensures LinePosition(ms, i) + |MemberText(ms[i])| <= LinePosition(ms, j)
  {
    PositionsGrow(ms, i, j);
  }

  lemma MarkerLength(key: string)
    ensures |Marker(key, IsQuoted)| == |KeyPattern(key)| + 1
  {
  }

  lemma DecimalFound(line: string, marker: string, before: nat, p: nat, text: string, rest: string, n: u64)
    requires TextSearch.FindLast(line, marker, before) == Some(p) && p + |marker| <= |line|
    requires line[p + |marker|..] == text + (['"'] + rest) && Bare(text) && p + |marker| + |text| < before
    requires ParseCanonicalU64(text) == Some(n)
    ensures QuotedDecimalBefore(line, marker, before) == Ok(n)
  {
    hide Bare, ParseCanonicalU64, Find;
    QuotedNumber(line, p + |marker|, text, rest);
  }

  lemma DigitsBare(s: string)
    requires AllDigits(s)
    ensures Bare(s)
  {
  }

  lemma QuotedNumber(line: string, begin: nat, text: string, rest: string)
    requires Bare(text) && begin <= |line| && line[begin..] == text + (['"'] + rest)
    ensures Find(line, '"', begin) == begin + |text| < |line| && line[begin..begin + |text|] == text
  {
    var tail := line[begin..];
    assert forall i :: 0 <= i < |text| ==> line[begin + i] == tail[i] == text[i];
    assert line[begin + |text|] == tail[|text|] == '"';
    FindUnique(line, '"', begin, begin + |text|);
  }

  /** flint_slice_from_result finds exactly the slice the record was written with. */
  lemma SliceWritten(r: SearchRecord)
    requires Written(r)
    ensures FlintSliceFromResult(RecordLineText(r)) == Ok(SliceOf(r))
  {
    JournalPathNamed();
    hide Contains, RecordLineText, JournalPath, Items, KeyText, Marker, OnlyHit, HeadItems, EngineFront,
      QuotedDecimalBefore, LinePosition,
      TextsQuotable, MembersOf;
    if r.independent.None? {
      ContainsIsHas(r, Inner(RawLogPath), Is(JournalPath()));
      NotContained(r);
    } else {
      var e := r.independent.value;
      var n := |HeadItems(r)| + |EngineFront(IndependentEngine, e)|;
      LogMembersAlone(r);
      DecimalRead(r, Inner(RawLogLength), e.rawLogLength.value, n, n + 2);
      DecimalRead(r, Inner(RawLogOffset), e.rawLogOffset.value, n + 1, n + 2);
      PathFound(r, n + 2);
    }
  }

  lemma PathFound(r: SearchRecord, j: nat)
    requires OnlyHit(MembersOf(Items(r)), KeyText(Inner(RawLogPath)), Is(JournalPath()), j) && j < |Items(r)|
    ensures var line, marker := RecordLineText(r), Marker(KeyText(Inner(RawLogPath)), Is(JournalPath()));
      var p := LinePosition(MembersOf(Items(r)), j);
      TextSearch.FindText(line, marker, 0) == Some(p) && TextSearch.FindText(line, marker, p + |marker|) == None
  {
    hide JournalPath, Items, KeyText, Marker, OnlyHit, LinePosition, LineText, AllWellFormed, AllPlain;
    RecordWellFormed(r);
    SearchedIsPlain(Inner(RawLogPath));
    var p, marker := LinePosition(MembersOf(Items(r)), j), Marker(KeyText(Inner(RawLogPath)), Is(JournalPath()));
    FoundOnly(MembersOf(Items(r)), KeyText(Inner(RawLogPath)), Is(JournalPath()), j, p + |marker|);
  }

  lemma NotContained(r: SearchRecord)
    ensures Contains(RecordLineText(r), Inner(RawLogPath), Is(JournalPath())) <==>
      TextSearch.FindText(RecordLineText(r), Marker(KeyText(Inner(RawLogPath)), Is(JournalPath())), 0).Some?
  {
    hide RecordLineText, KeyText, Marker, JournalPath;
  }

  lemma LineOfItems(r: SearchRecord)
    ensures RecordLineText(r) == LineText(MembersOf(Items(r)))
  {
  }
}
