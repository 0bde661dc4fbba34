/** The checkpoint document both pipelines save and load: canonical JSON with a digest
    over its own body (src/runtime/checkpoint_manager.cpp). */
module RuntimeCheckpoint {
  import opened MachineArithmetic
  import opened Decimal
  import opened DelimitedText
  import opened Hexadecimal
  import opened JsonText
  import opened TextSearch
  import opened Wrappers

  datatype CheckpointState = CheckpointState(campaignId: string, opaquePayload: string, progressDecimal: string,
    sequence: u64)

  /** What save refuses to write. */
  predicate ValidState(s: CheckpointState) {
    s.campaignId != "" && Canonical(s.progressDecimal)
  }

  function CampaignKey(): string { "{\"campaign_id\":\"" }
  function PayloadKey(): string { ",\"opaque_payload\":\"" }
  function ProgressKey(): string { ",\"progress_decimal\":\"" }
  function SequenceKey(): string { ",\"sequence\":\"" }
  function DigestKey(): string { ",\"sha256\":\"" }

  // ----- the document

  function OpenBody(s: CheckpointState): string {
    CampaignKey() + (JsonEscape(s.campaignId) + (PayloadKey() + (JsonEscape(s.opaquePayload)
      + (ProgressKey() + (JsonEscape(s.progressDecimal) + (SequenceKey() + JsonEscape(ToDecimal(s.sequence))))))))
  }

  /** canonical_body, which is what the digest covers. */
  function Body(s: CheckpointState): string {
    OpenBody(s) + "}"
  }

  function DocumentWith(s: CheckpointState, digest: string): string {
    OpenBody(s) + (DigestKey() + (JsonEscape(digest) + "}"))
  }

  /** What save writes. */
  function Document(sha256: string -> string, s: CheckpointState): string {
    DocumentWith(s, sha256(Body(s)))
  }

  // ----- loading

  /** consume */
  function Consume(text: string, expected: string): Option<string> {
    if StartsWith(text, expected) then Some(text[|expected|..]) else None
  }

  /** A key with its opening quotation mark, and the string behind it. */
  function Member(text: string, key: string): Option<Parsed> {
    match Consume(text, key) case None => None case Some(rest) => ParseString(rest)
  }

  datatype Members = Members(state: CheckpointState, digest: string)

  /** The members in their order; nothing may follow the closing brace. */
  function ReadMembers(document: string): Option<Members> {
    match Member(document, CampaignKey())
    case None => None
    case Some(campaign) =>
      match Member(campaign.rest, PayloadKey())
      case None => None
      case Some(payload) =>
        match Member(payload.rest, ProgressKey())
        case None => None
        case Some(progress) => ReadRest(campaign.value, payload.value, progress.value, progress.rest)
  }

  function ReadRest(campaignId: string, payload: string, progress: string, text: string): Option<Members> {
    match Member(text, SequenceKey())
    case None => None
    case Some(sequence) =>
      match Member(sequence.rest, DigestKey())
      case None => None
      case Some(digest) =>
        match (ParseU64(sequence.value), Consume(digest.rest, "}"))
        case (Some(n), Some(rest)) =>
          if rest != "" then None else Some(Members(CheckpointState(campaignId, payload, progress, n), digest.value))
        case _ => None
  }

  /** load; a progress that save would refuse is an invalid_argument, everything else a runtime_error. */
  function Load(sha256: string -> string, document: string): Result<CheckpointState, Exception> {
    match ReadMembers(document)
    case None => Err(RuntimeError)
    case Some(m) =>
      if !ValidState(m.state) then Err(InvalidArgument)
      else if sha256(Body(m.state)) != m.digest || DocumentWith(m.state, m.digest) != document then Err(RuntimeError)
      else Ok(m.state)
  }

  /** Both texts of a state survive the document. */
  predicate StateReloads(s: CheckpointState) {
    Reloadable(s.campaignId) && Reloadable(s.opaquePayload)
  }

  lemma MemberBack(key: string, value: string, rest: string)
    ensures Member(key + (JsonEscape(value) + rest), key) == if Reloadable(value) then Some(Parsed(value, rest))
      else None
  {
    hide JsonEscape, ParseString, Reloadable;
    OccursInFrontOf(key, JsonEscape(value) + rest);
    ParseEscaped(value, rest);
  }

  lemma HexReloads(s: string)
    requires CanonicalDigest(s)
    ensures Reloadable(s)
  {
  }

  lemma DigitsReload(s: string)
    requires AllDigits(s)
    ensures Reloadable(s)
  {
  }

  function SequencePart(s: CheckpointState, digest: string): string {
    SequenceKey() + (JsonEscape(ToDecimal(s.sequence)) + (DigestKey() + (JsonEscape(digest) + "}")))
  }

  lemma RestBack(s: CheckpointState, digest: string)
    requires CanonicalDigest(digest)
    ensures ReadRest(s.campaignId, s.opaquePayload, s.progressDecimal, SequencePart(s, digest)) ==
      Some(Members(s, digest))
  {
    hide JsonEscape, Member, Reloadable, ToDecimal, SequenceKey, DigestKey, CanonicalDigest;
    HexReloads(digest);
    DigitsReload(ToDecimal(s.sequence));
    ParseToDecimal(s.sequence);
    MemberBack(SequenceKey(), ToDecimal(s.sequence), DigestKey() + (JsonEscape(digest) + "}"));
    MemberBack(DigestKey(), digest, "}");
  }

  /** The members of a document written from a valid state: itself, or a failure when a
      text cannot be read back. */
  lemma MembersBack(s: CheckpointState, digest: string)
    requires ValidState(s) && CanonicalDigest(digest)
    ensures ReadMembers(DocumentWith(s, digest)) == if StateReloads(s) then Some(Members(s, digest)) else None
  {
    hide JsonEscape, Member, Reloadable, ToDecimal, CampaignKey, PayloadKey, ProgressKey, SequenceKey, DigestKey,
      CanonicalDigest,
      SequencePart, ReadRest;
    var third := ProgressKey() + (JsonEscape(s.progressDecimal) + SequencePart(s, digest));
    var second := PayloadKey() + (JsonEscape(s.opaquePayload) + third);
    DigitsReload(s.progressDecimal);
    MemberBack(CampaignKey(), s.campaignId, second);
    MemberBack(PayloadKey(), s.opaquePayload, third);
    MemberBack(ProgressKey(), s.progressDecimal, SequencePart(s, digest));
    RestBack(s, digest);
    DocumentParts(s, digest);
  }

  lemma DocumentParts(s: CheckpointState, digest: string)
    ensures DocumentWith(s, digest) ==
      CampaignKey() + (JsonEscape(s.campaignId) + (PayloadKey() + (JsonEscape(s.opaquePayload)
      + (ProgressKey() + (JsonEscape(s.progressDecimal) + SequencePart(s, digest))))))
  {
    hide JsonEscape, ToDecimal, CampaignKey, PayloadKey, ProgressKey, SequenceKey, DigestKey;
  }

  /** What load accepts: exactly the documents save writes for valid states whose texts
      reload, each as that state. */
  lemma LoadExact(sha256: string -> string, document: string, s: CheckpointState)
    requires Hashes(sha256)
    ensures Load(sha256, document) == Ok(s) <==> ValidState(s) && StateReloads(s) && document == Document(sha256, s)
  {
    hide DocumentWith, ReadMembers, Body, CanonicalDigest, StateReloads;
    var digest := sha256(Body(s));
    if ValidState(s) && document == Document(sha256, s) {
      MembersBack(s, digest);
    } else if Load(sha256, document) == Ok(s) {
      MembersBack(s, digest);
    }
  }

  /** A saved state is loaded again, or every later load fails: it fails exactly when the
      campaign id or the payload has a control character without a one-letter escape. */
  lemma SavedStateLoads(sha256: string -> string, s: CheckpointState)
    requires Hashes(sha256) && ValidState(s)
    ensures StateReloads(s) ==> Load(sha256, Document(sha256, s)) == Ok(s)
    ensures !StateReloads(s) ==> Load(sha256, Document(sha256, s)) == Err(RuntimeError)
  {
    hide DocumentWith, ReadMembers, Body, CanonicalDigest, StateReloads;
    MembersBack(s, sha256(Body(s)));
  }
}
