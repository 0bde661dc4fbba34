/** Written result lines pass recovery's line checks (src/mvp/search_pipeline.cpp). */
module SearchLines {
  import opened MachineArithmetic
  import opened Decimal
  import opened DelimitedText
  import TextSearch
  import opened JsonLines
  import opened SearchKeys
  import opened SearchRecords
  import opened SearchScan
  import opened EvidenceLog
  import opened Wrappers

  // ----- every text of a line can be quoted

  predicate ValueQuotable(v: Value) {
    v.Quoted? ==> Quotable(v.text)
  }

  ghost predicate ItemsQuotable(items: seq<Item>) {
    forall item :: item in items ==> ValueQuotable(item.value)
  }

  lemma QuotableAppend(a: seq<Item>, b: seq<Item>)
    requires ItemsQuotable(a) && ItemsQuotable(b)
    ensures ItemsQuotable(a + b)
  {
  }

  lemma NumberQuotable(n: nat)
    ensures ValueQuotable(Number(n))
  {
  }

  lemma MethodQuotable(m: Method)
    ensures Quotable(MethodText(m))
  {
    hide MethodText;
    assert forall i :: 0 <= i < |MethodText(m)| ==> MethodText(m)[i] in MethodText(m);
  }

  lemma PrimalityQuotable(p: Primality)
    ensures Quotable(PrimalityText(p)) && Quotable(NotChecked())
  {
  }

  lemma VerificationQuotable(v: Verification)
    ensures Quotable(VerificationText(v))
  {
  }

  lemma PrpQuotable(s: PrpStatus)
    ensures Quotable(PrpText(s))
  {
  }

  lemma HeadQuotable(r: SearchRecord)
    requires TextsQuotable(r)
    ensures ItemsQuotable(HeadItems(r))
  {
    hide Number, MethodText, EvidenceQuotable, Quotable;
    MethodQuotable(r.classification);
    NumberQuotable(r.flatIndex);
    if r.factor.Some? {
      NumberQuotable(r.factor.value);
    }
  }

  lemma EngineQuotable(k: LineKey, e: Option<EngineEvidence>)
    requires e.Some? ==> EvidenceQuotable(e.value)
    ensures ItemsQuotable(EngineItems(k, e))
  {
    hide Number, Quotable;
    if e.Some? {
      var x := e.value;
      if x.rawLogLength.Some? {
        NumberQuotable(x.rawLogLength.value);
      }
      if x.rawLogOffset.Some? {
        NumberQuotable(x.rawLogOffset.value);
      }
      assert ItemsQuotable(EngineFront(k, x));
      assert ItemsQuotable([LengthItem(x), OffsetItem(x), PathItem(x)]);
      assert ItemsQuotable(EngineBack(x));
      hide ItemsQuotable, EngineFront, EngineBack, LengthItem, OffsetItem, PathItem, EvidenceQuotable;
      QuotableAppend(EngineFront(k, x), [LengthItem(x), OffsetItem(x), PathItem(x)]);
      QuotableAppend(EngineFront(k, x) + [LengthItem(x), OffsetItem(x), PathItem(x)], EngineBack(x));
    }
  }

  lemma NativeQuotable(e: Option<NativeEvidence>)
    requires e.Some? ==> Quotable(e.value.path) && Quotable(e.value.sha256) && Quotable(e.value.format)
    ensures ItemsQuotable(NativeItems(e))
  {
    hide Number, Quotable;
    if e.Some? {
      NumberQuotable(e.value.length);
      NumberQuotable(e.value.offset);
    }
  }

  lemma RestQuotable(r: SearchRecord)
    requires TextsQuotable(r)
    ensures ItemsQuotable(CoordinateItems(r)) && ItemsQuotable(StatusItems(r)) && ItemsQuotable(TailItems(r))
  {
    hide Number, Quotable, PrimalityText, VerificationText, PrpText, NotChecked, EvidenceQuotable;
    PrimalityQuotable(r.primality);
    VerificationQuotable(r.verification);
    PrpQuotable(r.prp);
    NumberQuotable(r.k);
    NumberQuotable(r.n);
    NumberQuotable(r.value);
  }

  lemma RecordQuotable(r: SearchRecord)
    requires TextsQuotable(r)
    ensures ItemsQuotable(Items(r))
  {
    hide ItemsQuotable, HeadItems, CoordinateItems, NativeItems, StatusItems, TailItems, EngineItems, EvidenceQuotable,
      Quotable;
    HeadQuotable(r);
    RestQuotable(r);
    NativeQuotable(r.native);
    EngineQuotable(IndependentEngine, r.independent);
    EngineQuotable(PrimaryEngine, r.primary);
    QuotableAppend(CoordinateItems(r), NativeItems(r.native));
    QuotableAppend(CoordinateItems(r) + NativeItems(r.native), StatusItems(r));
    QuotableAppend(CoordinateItems(r) + NativeItems(r.native) + StatusItems(r), EngineItems(PrimaryEngine, r.primary));
    QuotableAppend(CoordinateItems(r) + NativeItems(r.native) + StatusItems(r)
      + EngineItems(PrimaryEngine, r.primary), TailItems(r));
    QuotableAppend(EngineItems(IndependentEngine, r.independent), BackItems(r));
    QuotableAppend(HeadItems(r), EngineItems(IndependentEngine, r.independent) + BackItems(r));
  }

  /** A written line has no line break. */
  lemma LineIsUnbroken(r: SearchRecord)
    requires TextsQuotable(r)
    ensures Unbroken(RecordLineText(r))
  {
    hide Items, KeyText, Unbroken, Quotable, TextsQuotable;
    RecordQuotable(r);
    ItemsPunctuated(r);
    var ms := MembersOf(Items(r));
    forall i | 0 <= i < |ms|
      ensures MemberQuotable(ms[i])
    {
      assert Items(r)[i] in Items(r) && Punctuated(Items(r)[i]);
      PunctuationUnbroken(Items(r)[i]);
    }
    LineUnbroken(ms);
  }

  lemma PunctuationUnbroken(item: Item)
    requires Punctuated(item)
    ensures Unbroken(item.after)
  {
  }

  // ----- how a line begins and ends

  lemma {:induction false} LastAfter(ms: seq<Member>)
    requires ms != [] && ms[|ms| - 1].after != ""
    ensures MembersText(ms) != ""
    ensures MembersText(ms)[|MembersText(ms)| - 1] == ms[|ms| - 1].after[|ms[|ms| - 1].after| - 1]
  {
    hide KeyPattern, ValueText;
    if |ms| == 1 {
      assert MembersText(ms[1..]) == "";
      assert MembersText(ms) == MemberText(ms[0]) + "";
    } else {
      LastAfter(ms[1..]);
    }
  }

  lemma LineBraces(r: SearchRecord)
    ensures TextSearch.StartsWith(RecordLineText(r), "{") && TextSearch.EndsWith(RecordLineText(r), "}")
  {
    hide Items, KeyText, MembersText;
    LastItem(r);
    LastBrace(r);
    LastAfter(MembersOf(Items(r)));
  }

  lemma LastBrace(r: SearchRecord)
    ensures |TailItems(r)| == 4 && TailItems(r)[3].after == "}"
  {
    hide Number, VerificationText, PrpText;
  }

  lemma LastItem(r: SearchRecord)
    ensures Items(r) != [] && Items(r)[|Items(r)| - 1] == TailItems(r)[3]
  {
    hide HeadItems, CoordinateItems, NativeItems, StatusItems, EngineItems, Number, VerificationText, PrpText;
    assert |TailItems(r)| == 4;
    hide TailItems;
    assert BackItems(r)[|BackItems(r)| - 1] == TailItems(r)[3];
  }

  /** The line names its campaign and its candidate. */
  lemma LineIdentity(r: SearchRecord)
    ensures Contains(RecordLineText(r), Top(CampaignId), Is(r.campaignId))
    ensures Contains(RecordLineText(r), Top(FlatIndex), Is(ToDecimal(r.flatIndex)))
  {
    hide KeyText, EngineItems, BackItems, LineText, Marker, MethodText, ToDecimal;
    RecordWellFormed(r);
    assert Items(r)[0] == HeadItems(r)[0] && Items(r)[3] == HeadItems(r)[3];
    hide Items, AllWellFormed;
    var ms := MembersOf(Items(r));
    MarkerOccursAt(ms, KeyText(Top(CampaignId)), Is(r.campaignId), 0);
    MarkerOccursAt(ms, KeyText(Top(FlatIndex)), Is(ToDecimal(r.flatIndex)), 3);
  }

  /** Recovery accepts every written line for its own candidate and campaign, and reads
      back its journal slice, whatever the quoted texts contain. */
  lemma ScanWritten(r: SearchRecord)
    requires Written(r)
    ensures ScanLine(RecordLineText(r), r.flatIndex, r.campaignId) == Ok(SliceOf(r))
    ensures Without(RecordLineText(r), '\n')
  {
    LineIsUnbroken(r);
    assert Without(RecordLineText(r), '\n') && Without(RecordLineText(r), '\r') by {
      UnbrokenWithout(RecordLineText(r));
    }
    hide RecordLineText, Contains, FlintSliceFromResult, Without, Unbroken, TextsQuotable, JournalPath, ToDecimal;
    LineBraces(r);
    LineIdentity(r);
    SliceWritten(r);
    IndependentNullWritten(r);
  }

  lemma UnbrokenWithout(s: string)
    requires Unbroken(s)
    ensures Without(s, '\n') && Without(s, '\r')
  {
  }
}
