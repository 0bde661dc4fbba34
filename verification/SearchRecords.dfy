/** The result lines of a search and what recovery reads back from them
    (src/mvp/search_pipeline.cpp). */
module SearchRecords {
  import opened MachineArithmetic
  import opened Decimal
  import TextSearch
  import opened JsonLines
  import opened SearchKeys
  import opened EvidenceLog
  import opened Wrappers

  // ----- records

  datatype Primality = ProvenPrime | CompositeNumber

  datatype Method =
    CongruenceFactor | Base2StrongWitness | ProthCertificateValidated | PariPrimecertValidated | PariComposite

  datatype Verification = SelfVerified | IndependentlyVerified

  datatype PrpStatus = NotRun | Failed | Passed

  datatype EngineEvidence = EngineEvidence(
    artifactPath: string, artifactSha256: string, engineId: string, executableSha256: string,
    rawLogLength: Option<nat>, rawLogOffset: Option<nat>, rawLogPath: string, rawStderrPath: string,
    rawStdoutPath: string)

  datatype NativeEvidence = NativeEvidence(length: nat, offset: nat, path: string, sha256: string, format: string)

  datatype SearchRecord = SearchRecord(
    campaignId: string, classification: Method, factor: Option<nat>, flatIndex: nat,
      independent: Option<EngineEvidence>,
    k: nat, n: nat, native: Option<NativeEvidence>, primality: Primality, primary: Option<EngineEvidence>,
    prp: PrpStatus, value: nat, verification: Verification, workUnitId: string)

  function PrimalityText(p: Primality): string {
    match p
    case ProvenPrime => "PROVEN_PRIME"
    case CompositeNumber => "COMPOSITE"
  }

  function MethodText(m: Method): (s: string)
    ensures forall c :: c in s ==> ' ' <= c <= '~'
  {
    match m
    case CongruenceFactor => "CONGRUENCE_FACTOR"
    case Base2StrongWitness => "BASE2_STRONG_WITNESS"
    case ProthCertificateValidated => "PROTH_CERTIFICATE_VALIDATED"
    case PariPrimecertValidated => "PARI_PRIMECERT_VALIDATED"
    case PariComposite => "PARI_COMPOSITE"
  }

  function VerificationText(v: Verification): string {
    match v
    case SelfVerified => "SELF_VERIFIED"
    case IndependentlyVerified => "INDEPENDENTLY_VERIFIED"
  }

  function PrpText(p: PrpStatus): string {
    match p
    case NotRun => "NOT_RUN"
    case Failed => "FAILED"
    case Passed => "PASSED"
  }

  function NotChecked(): string { "NOT_CHECKED" }

  function JournalPath(): string { "external/flint/evidence.jsonl" }

  /** The certificate file of a checkpoint interval. */
  function SegmentPath(begin: nat, end: nat): string {
    "proofs/proth/segment-" + ToDecimal(begin) + "-" + ToDecimal(end) + ".jsonl"
  }

  lemma PrimalityTexts(p: Primality)
    ensures PrimalityText(p) == PrimalityText(ProvenPrime) <==> p.ProvenPrime?
    ensures PrimalityText(p) == PrimalityText(CompositeNumber) <==> p.CompositeNumber?
  {
  }

  lemma MethodTexts(m: Method)
    ensures MethodText(m) == MethodText(CongruenceFactor) <==> m.CongruenceFactor?
    ensures MethodText(m) == MethodText(Base2StrongWitness) <==> m.Base2StrongWitness?
  {
  }

  lemma JournalPathNamed()
    ensures JournalPath() != ""
  {
  }

  // ----- the members of a line

  datatype Item = Item(key: Key, value: Value, after: string)

  function TextOrNull(s: string): Value {
    if s == "" then Null else Quoted(s)
  }

  function Number(n: nat): Value {
    Quoted(ToDecimal(n))
  }

  function NumberOrNull(n: Option<nat>): Value {
    match n
    case None => Null
    case Some(v) => Number(v)
  }

  function HeadItems(r: SearchRecord): seq<Item> {
    [Item(Top(CampaignId), Quoted(r.campaignId), ","),
      Item(Top(ClassificationMethod), Quoted(MethodText(r.classification)), ","),
     Item(Top(Factor), NumberOrNull(r.factor), ","), Item(Top(FlatIndex), Number(r.flatIndex), ",")]
  }

  function EngineFront(k: LineKey, e: EngineEvidence): seq<Item> {
    [Item(Top(k), Opens, ""), Item(Inner(ArtifactPath), TextOrNull(e.artifactPath), ","),
     Item(Inner(ArtifactSha256), TextOrNull(e.artifactSha256), ","), Item(Inner(EngineId), Quoted(e.engineId), ","),
     Item(Inner(ExecutableSha256), Quoted(e.executableSha256), ",")]
  }

  function LengthItem(e: EngineEvidence): Item {
    Item(Inner(RawLogLength), NumberOrNull(e.rawLogLength), ",")
  }

  function OffsetItem(e: EngineEvidence): Item {
    Item(Inner(RawLogOffset), NumberOrNull(e.rawLogOffset), ",")
  }

  function PathItem(e: EngineEvidence): Item {
    Item(Inner(RawLogPath), TextOrNull(e.rawLogPath), ",")
  }

  function EngineBack(e: EngineEvidence): seq<Item> {
    [Item(Inner(RawStderrPath), TextOrNull(e.rawStderrPath), ","),
      Item(Inner(RawStdoutPath), TextOrNull(e.rawStdoutPath), "},")]
  }

  /** evidence_json */
  function EngineItems(k: LineKey, e: Option<EngineEvidence>): seq<Item> {
    match e
    case None => [Item(Top(k), Null, ",")]
    case Some(x) => EngineFront(k, x) + [LengthItem(x), OffsetItem(x), PathItem(x)] + EngineBack(x)
  }

  /** native_proof_json */
  function NativeItems(e: Option<NativeEvidence>): seq<Item> {
    match e
    case None => [Item(Top(NativeProthCertificate), Null, ",")]
    case Some(x) =>
      [Item(Top(NativeProthCertificate), Opens, ""), Item(Inner(ArtifactLength), Number(x.length), ","),
       Item(Inner(ArtifactOffset), Number(x.offset), ","), Item(Inner(ArtifactPath), Quoted(x.path), ","),
       Item(Inner(ArtifactSha256), Quoted(x.sha256), ","), Item(Inner(FormatVersion), Quoted(x.format), "},")]
  }

  function CoordinateItems(r: SearchRecord): seq<Item> {
    [Item(Top(K), Number(r.k), ","), Item(Top(N), Number(r.n), ",")]
  }

  function StatusItems(r: SearchRecord): seq<Item> {
    [Item(Top(NoveltyStatus), Quoted(NotChecked()), ","),
      Item(Top(PrimalityStatus), Quoted(PrimalityText(r.primality)), ",")]
  }

  function TailItems(r: SearchRecord): seq<Item> {
    [Item(Top(PrpStatus), Quoted(PrpText(r.prp)), ","), Item(Top(CandidateValue), Number(r.value), ","),
     Item(Top(VerificationStatus), Quoted(VerificationText(r.verification)), ","),
       Item(Top(WorkUnitId), Quoted(r.workUnitId), "}")]
  }

  /** What follows the independent engine's evidence. */
  function BackItems(r: SearchRecord): seq<Item> {
    CoordinateItems(r) + NativeItems(r.native) + StatusItems(r) + EngineItems(PrimaryEngine, r.primary) + TailItems(r)
  }

  function Items(r: SearchRecord): seq<Item> {
    HeadItems(r) + (EngineItems(IndependentEngine, r.independent) + BackItems(r))
  }

  function MembersOf(items: seq<Item>): (ms: seq<Member>)
    ensures |ms| == |items|
    ensures forall i :: 0 <= i < |ms| ==> ms[i] == Member(KeyText(items[i].key), items[i].value, items[i].after)
  {
    seq(|items|, i requires 0 <= i < |items| => Member(KeyText(items[i].key), items[i].value, items[i].after))
  }

  /** canonical_search_record, for texts that quote_json accepts. */
  function RecordLineText(r: SearchRecord): string {
    LineText(MembersOf(Items(r)))
  }

  // ----- well-formed members

  ghost predicate Punctuated(item: Item) {
    if item.value.Opens? then item.after == "" else item.after == "," || item.after == "}," || item.after == "}"
  }

  ghost predicate AllPunctuated(items: seq<Item>) {
    forall item :: item in items ==> Punctuated(item)
  }

  lemma PunctuatedAppend(a: seq<Item>, b: seq<Item>)
    requires AllPunctuated(a) && AllPunctuated(b)
    ensures AllPunctuated(a + b)
  {
  }

  lemma MembersWellFormed(items: seq<Item>)
    requires AllPunctuated(items)
    ensures AllWellFormed(MembersOf(items))
  {
    hide KeyText;
    forall i | 0 <= i < |items|
      ensures WellFormed(MembersOf(items)[i])
    {
      assert items[i] in items && Punctuated(items[i]);
    }
  }

  lemma EnginePiecesPunctuated(k: LineKey, x: EngineEvidence)
    ensures AllPunctuated(EngineFront(k, x)) && AllPunctuated([LengthItem(x), OffsetItem(x), PathItem(x)])
    ensures AllPunctuated(EngineBack(x)) && AllPunctuated([Item(Top(k), Null, ",")])
  {
    hide ToDecimal;
  }

  lemma EnginePunctuated(k: LineKey, e: Option<EngineEvidence>)
    ensures AllPunctuated(EngineItems(k, e))
  {
    hide AllPunctuated, EngineFront, EngineBack;
    if e.Some? {
      var x := e.value;
      EnginePiecesPunctuated(k, x);
      PunctuatedAppend(EngineFront(k, x), [LengthItem(x), OffsetItem(x), PathItem(x)]);
      PunctuatedAppend(EngineFront(k, x) + [LengthItem(x), OffsetItem(x), PathItem(x)], EngineBack(x));
    } else {
      EnginePiecesPunctuated(k, EngineEvidence("", "", "", "", None, None, "", "", ""));
    }
  }

  lemma PiecesPunctuated(r: SearchRecord)
    ensures AllPunctuated(HeadItems(r)) && AllPunctuated(CoordinateItems(r)) && AllPunctuated(NativeItems(r.native))
    ensures AllPunctuated(StatusItems(r)) && AllPunctuated(TailItems(r))
  {
    hide ToDecimal, MethodText, PrimalityText, VerificationText, PrpText, NotChecked;
  }

  lemma ItemsPunctuated(r: SearchRecord)
    ensures AllPunctuated(Items(r))
  {
    hide AllPunctuated, HeadItems, CoordinateItems, NativeItems, StatusItems, TailItems, EngineItems;
    PiecesPunctuated(r);
    EnginePunctuated(IndependentEngine, r.independent);
    EnginePunctuated(PrimaryEngine, r.primary);
    PunctuatedAppend(CoordinateItems(r), NativeItems(r.native));
    PunctuatedAppend(CoordinateItems(r) + NativeItems(r.native), StatusItems(r));
    PunctuatedAppend(CoordinateItems(r) + NativeItems(r.native)
      + StatusItems(r), EngineItems(PrimaryEngine, r.primary));
    PunctuatedAppend(CoordinateItems(r) + NativeItems(r.native) + StatusItems(r)
      + EngineItems(PrimaryEngine, r.primary), TailItems(r));
    PunctuatedAppend(EngineItems(IndependentEngine, r.independent), BackItems(r));
    PunctuatedAppend(HeadItems(r), EngineItems(IndependentEngine, r.independent) + BackItems(r));
  }

  lemma RecordWellFormed(r: SearchRecord)
    ensures AllWellFormed(MembersOf(Items(r)))
  {
    hide Items;
    ItemsPunctuated(r);
    MembersWellFormed(Items(r));
  }

  /** No member has this key with a value that fits. */
  ghost predicate Free(items: seq<Item>, k: Key, sought: Sought) {
    forall item :: item in items ==> !(item.key == k && Fits(item.value, sought))
  }

  lemma HitIsItem(items: seq<Item>, k: Key, sought: Sought, j: nat)
    requires SearchedKey(k)
    ensures Hit(MembersOf(items), KeyText(k), sought, j) <==>
      j < |items| && items[j].key == k && Fits(items[j].value, sought)
  {
    hide KeyText, Fits;
    if j < |items| && KeyText(items[j].key) == KeyText(k) {
      KeyInjective(items[j].key, k);
    }
  }

  /** A search for a key and value succeeds exactly when some member has them. */
  lemma SearchIsMembership(r: SearchRecord, k: Key, sought: Sought)
    requires SearchedKey(k)
    ensures TextSearch.FindText(RecordLineText(r), Marker(KeyText(k), sought), 0).Some? <==> !Free(Items(r), k, sought)
  {
    RecordWellFormed(r);
    SearchedIsPlain(k);
    hide KeyText, Fits, Items, Hit, Marker, LineText, AllWellFormed, AllPlain, SearchedKey;
    var ms := MembersOf(Items(r));
    Contained(ms, KeyText(k), sought);
    if !Free(Items(r), k, sought) {
      var item :| item in Items(r) && item.key == k && Fits(item.value, sought);
      var j: nat :| j < |Items(r)| && Items(r)[j] == item;
      HitIsItem(Items(r), k, sought, j);
    }
    if j: nat :| Hit(ms, KeyText(k), sought, j) {
      HitIsItem(Items(r), k, sought, j);
      assert Items(r)[j] in Items(r);
    }
  }

  /** One member between others that do not fit is the only one. */
  lemma OnlyBetween(a: seq<Item>, x: Item, b: seq<Item>, sought: Sought)
    requires SearchedKey(x.key) && Fits(x.value, sought) && Free(a, x.key, sought) && Free(b, x.key, sought)
    ensures OnlyHit(MembersOf(a + ([x] + b)), KeyText(x.key), sought, |a|)
  {
    hide KeyText, Fits, Hit, SearchedKey;
    var items := a + ([x] + b);
    HitIsItem(items, x.key, sought, |a|);
    forall i: nat | Hit(MembersOf(items), KeyText(x.key), sought, i)
      ensures i == |a|
    {
      HitIsItem(items, x.key, sought, i);
      ElementOf(a, x, b, i);
    }
  }

  lemma ElementOf(a: seq<Item>, x: Item, b: seq<Item>, i: nat)
    requires i < |a + ([x] + b)|
    ensures i == |a| || (a + ([x] + b))[i] in a || (a + ([x] + b))[i] in b
  {
  }
}
