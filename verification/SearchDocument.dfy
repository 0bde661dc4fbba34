/** The checkpoint a search saves is one that the checkpoint manager loads again
    (src/mvp/search_pipeline.cpp, src/runtime/checkpoint_manager.cpp). */
module SearchDocument {
  import opened MachineArithmetic
  import opened Decimal
  import opened Hexadecimal
  import opened JsonText
  import opened RuntimeCheckpoint
  import opened SearchCheckpoint
  import opened SearchLedger
  import opened SearchDisk
  import SearchRecovery
  import opened Wrappers

  lemma MarkersReload()
    ensures Reloadable(ConfigurationMarker()) && Reloadable(EvidenceBytesMarker()) && Reloadable(EvidenceDigestMarker())
  {
  }

  lemma ResultMarkersReload()
    ensures Reloadable(ResultsBytesMarker()) && Reloadable(ResultsDigestMarker()) && Reloadable(CampaignOf(""))
  {
  }

  lemma SchemaReloads()
    ensures Reloadable(Schema())
  {
  }

  lemma PayloadReloads(p: ProgressPayload)
    requires PayloadValid(p)
    ensures Reloadable(ProgressText(p))
  {
    hide ToDecimal, ConfigurationMarker, EvidenceBytesMarker, EvidenceDigestMarker, ResultsBytesMarker,
      ResultsDigestMarker, Schema,
      Reloadable, CanonicalDigest, CampaignOf;
    MarkersReload();
    ResultMarkersReload();
    SchemaReloads();
    HexReloads(p.configurationSha256);
    HexReloads(p.evidenceSha256);
    HexReloads(p.resultsSha256);
    DigitsReload(ToDecimal(p.evidenceBytes));
    DigitsReload(ToDecimal(p.resultsBytes));
    ReloadableBoth(p.resultsSha256, Schema());
    ReloadableBoth(ResultsDigestMarker(), Text4(p));
    ReloadableBoth(ToDecimal(p.resultsBytes), ResultsDigestMarker() + Text4(p));
    ReloadableBoth(ResultsBytesMarker(), Text3(p));
    ReloadableBoth(p.evidenceSha256, ResultsBytesMarker() + Text3(p));
    ReloadableBoth(EvidenceDigestMarker(), Text2(p));
    ReloadableBoth(ToDecimal(p.evidenceBytes), EvidenceDigestMarker() + Text2(p));
    ReloadableBoth(EvidenceBytesMarker(), Text1(p));
    ReloadableBoth(p.configurationSha256, EvidenceBytesMarker() + Text1(p));
    ReloadableBoth(ConfigurationMarker(), p.configurationSha256 + (EvidenceBytesMarker() + Text1(p)));
  }

  /** The document of every committed state loads as that state: the campaign id is a digest
      and the payload has no character the loader cannot read. */
  lemma CheckpointLoads(job: Job, os: seq<Outcome>)
    requires job.Valid() && Sound(job, os)
    ensures Load(job.sha256, Document(job.sha256, StateOf(job, os))) == Ok(StateOf(job, os))
  {
    hide ProgressText, Load, Document, Reloadable, ToDecimal, Hashes, PayloadValid, Canonical, ResultsText,
      EvidenceText, EntryFine;
    DecimalRoundTrip(|os|);
    SearchRecovery.PayloadIsValid(job, os);
    PayloadReloads(PayloadOf(job, os));
    CampaignReloads(job.configurationSha256);
    SavedStateLoads(job.sha256, StateOf(job, os));
  }

  lemma CampaignReloads(digest: string)
    requires CanonicalDigest(digest)
    ensures Reloadable(CampaignOf(digest)) && CampaignOf(digest) != ""
  {
    ResultMarkersReload();
    HexReloads(digest);
  }
}
