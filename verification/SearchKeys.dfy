/** The member names of a search's result lines, told apart by their texts
    (src/mvp/search_pipeline.cpp). */
module SearchKeys {
  import opened JsonLines

  // ----- keys

  /** The members of a line. */
  datatype LineKey =
    | CampaignId | ClassificationMethod | Factor | FlatIndex | IndependentEngine | K | N | NativeProthCertificate
    | NoveltyStatus | PrimalityStatus | PrimaryEngine | PrpStatus | CandidateValue | VerificationStatus | WorkUnitId

  /** The members of the objects inside a line. */
  datatype InnerKey =
    | ArtifactLength | ArtifactOffset | ArtifactPath | ArtifactSha256 | EngineId | ExecutableSha256 | FormatVersion
    | RawLogLength | RawLogOffset | RawLogPath | RawStderrPath | RawStdoutPath

  datatype Key = Top(line: LineKey) | Inner(inner: InnerKey)

  function LineKeyText(k: LineKey): (s: string)
    ensures s != "" && forall c :: c in s ==> '"' < c
  {
    match k
    case CampaignId => "campaign_id"
    case ClassificationMethod => "classification_method"
    case Factor => "factor"
    case FlatIndex => "flat_index"
    case IndependentEngine => "independent_engine"
    case K => "k"
    case N => "n"
    case NativeProthCertificate => "native_proth_certificate"
    case NoveltyStatus => "novelty_status"
    case PrimalityStatus => "primality_status"
    case PrimaryEngine => "primary_engine"
    case PrpStatus => "prp_status"
    case CandidateValue => "value"
    case VerificationStatus => "verification_status"
    case WorkUnitId => "work_unit_id"
  }

  function InnerKeyText(k: InnerKey): (s: string)
    ensures s != "" && forall c :: c in s ==> '"' < c
  {
    match k
    case ArtifactLength => "artifact_length"
    case ArtifactOffset => "artifact_offset"
    case ArtifactPath => "artifact_path"
    case ArtifactSha256 => "artifact_sha256"
    case EngineId => "engine_id"
    case ExecutableSha256 => "executable_sha256"
    case FormatVersion => "format_version"
    case RawLogLength => "raw_log_length"
    case RawLogOffset => "raw_log_offset"
    case RawLogPath => "raw_log_path"
    case RawStderrPath => "raw_stderr_path"
    case RawStdoutPath => "raw_stdout_path"
  }

  function KeyText(k: Key): (s: string)
    ensures s != "" && NoQuote(s) && Unbroken(s)
  {
    hide LineKeyText, InnerKeyText;
    match k
    case Top(line) => var s := LineKeyText(line); assert forall i :: 0 <= i < |s| ==> s[i] in s; s
    case Inner(inner) => var s := InnerKeyText(inner); assert forall i :: 0 <= i < |s| ==> s[i] in s; s
  }

  /** The keys that recovery searches for. */
  predicate SearchedLineKey(k: LineKey) {
    k.ClassificationMethod? || k.IndependentEngine? || k.PrimalityStatus?
  }

  predicate SearchedInnerKey(k: InnerKey) {
    k.ArtifactPath? || k.RawLogLength? || k.RawLogOffset? || k.RawLogPath?
  }

  predicate SearchedKey(k: Key) {
    match k
    case Top(line) => SearchedLineKey(line)
    case Inner(inner) => SearchedInnerKey(inner)
  }

  lemma LineKeyInjective(a: LineKey, b: LineKey)
    requires SearchedLineKey(b) && LineKeyText(a) == LineKeyText(b)
    ensures a == b
  {
  }

  lemma InnerKeyInjective(a: InnerKey, b: InnerKey)
    requires SearchedInnerKey(b) && InnerKeyText(a) == InnerKeyText(b)
    ensures a == b
  {
  }

  lemma KeysApart(a: LineKey, b: InnerKey)
    requires SearchedLineKey(a) || SearchedInnerKey(b)
    ensures LineKeyText(a) != InnerKeyText(b)
  {
  }

  /** They are told apart from all other keys. */
  lemma KeyInjective(a: Key, b: Key)
    requires SearchedKey(b) && KeyText(a) == KeyText(b)
    ensures a == b
  {
    hide LineKeyText, InnerKeyText;
    match (a, b) {
      case (Top(x), Top(y)) => LineKeyInjective(x, y);
      case (Inner(x), Inner(y)) => InnerKeyInjective(x, y);
      case (Top(x), Inner(y)) => KeysApart(x, y);
      case (Inner(x), Top(y)) => KeysApart(y, x);
    }
  }

  lemma SearchedLineKeyPlain(k: LineKey, c: char)
    requires SearchedLineKey(k) && c in LineKeyText(k)
    ensures IsPlain(c)
  {
  }

  lemma SearchedInnerKeyPlain(k: InnerKey, c: char)
    requires SearchedInnerKey(k) && c in InnerKeyText(k)
    ensures IsPlain(c)
  {
  }

  lemma SearchedIsPlain(k: Key)
    requires SearchedKey(k)
    ensures AllPlain(KeyText(k))
  {
    hide LineKeyText, InnerKeyText, IsPlain;
    forall i | 0 <= i < |KeyText(k)|
      ensures IsPlain(KeyText(k)[i])
    {
      match k {
        case Top(line) => SearchedLineKeyPlain(line, KeyText(k)[i]);
        case Inner(inner) => SearchedInnerKeyPlain(inner, KeyText(k)[i]);
      }
    }
  }
}
