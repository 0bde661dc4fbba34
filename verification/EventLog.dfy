/** The event log beside a ledger: numbered records, the number a reopened log
    continues with, and why a torn record closes it for good
    (src/runtime/benchmark_logger.cpp). */
module EventLog {
  import opened MachineArithmetic
  import opened Decimal
  import opened DelimitedText
  import opened Hexadecimal
  import opened JsonText
  import opened TextSearch
  import opened Wrappers

  /** The clock's texts, which are never empty. */
  type Utc = s: string | s != "" witness "Z"

  datatype Event = Event(kind: string, payload: string, utc: Utc)

  /** What append demands of a payload, and what every payload of the pipeline meets:
      one object on one line that does not look like a sequence number. */
  predicate Plain(e: Event) {
    && e.kind != "" && Without(e.kind, 'q') && Without(e.payload, 'q') && Without(e.payload, '\n')
  }

  function Opening(): string { "{" + CampaignKey() }
  function CampaignKey(): string { "\"campaign_id\":\"" }
  function CampaignText(campaignId: string): string { CampaignKey() + JsonEscape(campaignId) }
  function KindKey(): string { ",\"event_type\":\"" }
  function PayloadKey(): string { ",\"payload\":" }
  function SequenceMarker(): string { "\"sequence\":\"" }
  function UtcKey(): string { ",\"utc\":\"" }

  /** Everything in front of the sequence number's key. */
  function Head(campaignId: string, e: Event): string {
    "{" + (CampaignText(campaignId) + AfterCampaign(e))
  }

  function AfterCampaign(e: Event): string {
    KindKey() + (JsonEscape(e.kind) + (PayloadKey() + (e.payload + ",")))
  }

  /** Everything behind the sequence number. */
  function Tail(e: Event): string {
    UtcKey() + (JsonEscape(e.utc) + "}")
  }

  /** A record without its newline. */
  function EventLine(campaignId: string, number: nat, e: Event): string {
    Head(campaignId, e) + (SequenceMarker() + (ToDecimal(number) + ("\"" + Tail(e))))
  }

  /** The number of the record after so many: the counter stops at the largest word. */
  function NumberAt(index: nat): u64 {
    if index + 1 <= MAX_U64 then index + 1 else MAX_U64
  }

  function EventLines(campaignId: string, events: seq<Event>): (lines: seq<string>)
    ensures |lines| == |events|
  {
    seq(|events|, i requires 0 <= i < |events| => EventLine(campaignId, NumberAt(i), events[i]))
  }

  function EventText(campaignId: string, events: seq<Event>): string {
    Lines(EventLines(campaignId, events))
  }

  // ----- what a reopened log continues with

  predicate Torn(content: string) {
    content != "" && content[|content| - 1] != '\n'
  }

  /** The last line of a content that ends in a newline. */
  function LastLine(content: string): string
    requires content != "" && content[|content| - 1] == '\n'
  {
    var n := AfterLastNewline(content[..|content| - 1]);
    content[n..|content| - 1]
  }

  /** The digits behind the first sequence key of a line. */
  function SequenceDigits(line: string): Option<string> {
    match FindText(line, SequenceMarker(), 0)
    case None => None
    case Some(p) =>
      var begin := p + |SequenceMarker()|;
      var end := Find(line, '"', begin);
      if end == |line| then None else Some(line[begin..end])
  }

  /** read_next_sequence */
  function ReadNextSequence(content: string, campaignId: string): Result<u64, Exception> {
    if content == "" then Ok(1)
    else if Torn(content) then Err(RuntimeError)
    else
      var line := LastLine(content);
      if FindText(line, CampaignText(campaignId), 0).None? then Err(RuntimeError)
      else match SequenceDigits(line)
        case None => Err(RuntimeError)
        case Some(digits) =>
          match ParseU64(digits)
          case None => Err(RuntimeError)
          case Some(n) => if n == MAX_U64 then Err(RuntimeError) else Ok(n + 1)
  }

  // ----- reading back what was written

  lemma EscapedHeadWithoutQ(e: Event)
    requires Plain(e)
    ensures Without(AfterCampaign(e), 'q') && |AfterCampaign(e)| >= 1 && AfterCampaign(e)[0] == ','
  {
    EscapeWithout(e.kind, 'q');
    assert Without(JsonEscape(e.kind), 'q');
    hide JsonEscape;
  }

  lemma MarkerShape()
    ensures |SequenceMarker()| == 12 && SequenceMarker()[3] == 'q' && SequenceMarker()[8] == 'e'
    ensures SequenceMarker()[9] == '"' && SequenceMarker()[10] == ':'
    ensures SequenceMarker()[0] != 'q' && SequenceMarker()[1] != 'q' && SequenceMarker()[2] != 'q'
    ensures forall i :: 3 <= i < 9 ==> SequenceMarker()[i] != '"'
  {
  }

  /** Behind a place in an escaped text the end of the key follows only across a
      quotation mark. */
  lemma KeyCrossesQuote(value: string, after: string, t: string, at: nat)
    requires t == EscapeBody(value) + ("\"" + after) && after != "" && after[0] == ',' && at < |EscapeBody(value)|
    requires at + 7 < |t|
    ensures t[at + 5] == 'e' && t[at + 6] == '"' && t[at + 7] == ':' ==> exists j :: at <= j < at + 6 && t[j] == '"'
  {
    var body := EscapeBody(value);
    if at + 6 < |body| {
      if t[at + 6] == '"' {
        QuoteFollowsBackslash(value, at + 6);
      }
    } else if at + 6 > |body| {
      assert t[|body|] == '"';
    }
  }

  /** The first sequence key of a record is its own: no other part has the letter q but
      the campaign id, and there a quotation mark never follows a letter. */
  lemma KeyIsFirst(campaignId: string, number: nat, e: Event)
    requires Plain(e)
    ensures FindText(EventLine(campaignId, number, e), SequenceMarker(), 0) == Some(|Head(campaignId, e)|)
  {
    hide JsonEscape, ToDecimal, Head, Tail, SequenceMarker, Plain;
    MarkerShape();
    var head := Head(campaignId, e);
    var line := EventLine(campaignId, number, e);
    var t := SequenceMarker() + (ToDecimal(number) + ("\"" + Tail(e)));
    assert line == head + t && line[|head|..|head| + |SequenceMarker()|] == SequenceMarker();
    forall p: nat | p < |head|
      ensures !OccursAt(line, SequenceMarker(), p)
    {
      NoKeyInHead(campaignId, e, t, p);
    }
    FirstIsFound(line, SequenceMarker(), |head|);
  }

  lemma NoKeyInHead(campaignId: string, e: Event, t: string, p: nat)
    requires Plain(e) && p < |Head(campaignId, e)| && |t| >= 3 && t[0] != 'q' && t[1] != 'q' && t[2] != 'q'
    ensures !OccursAt(Head(campaignId, e) + t, SequenceMarker(), p)
  {
    hide AfterCampaign, EscapeBody, Head, SequenceMarker, Opening, Plain;
    EscapedHeadWithoutQ(e);
    HeadParts(campaignId, e);
    MarkerShape();
    var opening, body, after := Opening(), EscapeBody(campaignId), AfterCampaign(e);
    var line := Head(campaignId, e) + t;
    var rest := body + ("\"" + (after + t));
    assert line == opening + rest;
    if OccursAt(line, SequenceMarker(), p) {
      assert forall j :: p <= j < p + 12 ==> line[j] == line[p..p + 12][j - p] == SequenceMarker()[j - p];
      var q := p + 3;
      assert line[q] == 'q';
      var at := q - |opening|;
      assert 0 <= at < |body| by {
        HeadQ(opening, body, after, t, line, q);
      }
      assert forall j :: at <= j < at + 8 ==> rest[j] == line[|opening| + j] == SequenceMarker()[j + |opening| - p];
      KeyCrossesQuote(campaignId, after + t, rest, at);
    }
  }

  /** The letter q in a head or just behind it is in the campaign id. */
  lemma HeadQ(opening: string, body: string, after: string, t: string, line: string, q: nat)
    requires line == opening + (body + ("\"" + (after + t))) && q < |line| && line[q] == 'q'
    requires q < |opening| + |body| + 1 + |after| + 3
    requires Without(opening, 'q') && Without(after, 'q') && |t| >= 3 && t[0] != 'q' && t[1] != 'q' && t[2] != 'q'
    ensures |opening| <= q < |opening| + |body|
  {
  }

  lemma HeadParts(campaignId: string, e: Event)
    ensures Head(campaignId, e) == Opening() + (EscapeBody(campaignId) + ("\"" + AfterCampaign(e)))
    ensures Without(Opening(), 'q')
  {
    hide EscapeBody, KindKey, PayloadKey;
  }

  /** The number of a record is read back, whatever its campaign and payload. */
  lemma DigitsBack(campaignId: string, number: nat, e: Event)
    requires Plain(e)
    ensures SequenceDigits(EventLine(campaignId, number, e)) == Some(ToDecimal(number))
    ensures FindText(EventLine(campaignId, number, e), CampaignText(campaignId), 0).Some?
  {
    hide JsonEscape, ToDecimal, Tail, SequenceMarker, Plain, AfterCampaign, CampaignText, FindText;
    KeyIsFirst(campaignId, number, e);
    var head, digits := Head(campaignId, e), ToDecimal(number);
    var line := EventLine(campaignId, number, e);
    var begin := |head| + |SequenceMarker()|;
    assert line == (head + SequenceMarker()) + (digits + ("\"" + Tail(e)));
    DigitsEnd(head + SequenceMarker(), digits, Tail(e));
    assert line[1..1 + |CampaignText(campaignId)|] == CampaignText(campaignId);
    assert OccursAt(line, CampaignText(campaignId), 1);
  }

  lemma DigitsEnd(before: string, digits: string, after: string)
    requires AllDigits(digits)
    ensures var line := before + (digits + ("\"" + after)); var end := |before| + |digits|;
      Find(line, '"', |before|) == end < |line| && line[|before|..end] == digits
  {
    var line := before + (digits + ("\"" + after));
    assert forall j :: |before| <= j < |before| + |digits| ==> line[j] == digits[j - |before|];
    FindUnique(line, '"', |before|, |before| + |digits|);
  }

  lemma LineWithoutNewline(campaignId: string, number: nat, e: Event)
    requires Plain(e)
    ensures Without(EventLine(campaignId, number, e), '\n')
  {
    hide EscapeBody, ToDecimal, JsonEscape;
    Escaped(campaignId);
    Escaped(e.kind);
    Escaped(e.utc);
    assert Without(AfterCampaign(e), '\n');
    assert Without(CampaignText(campaignId), '\n');
    hide AfterCampaign, CampaignText;
    assert Without(Head(campaignId, e), '\n');
  }

  lemma Escaped(text: string)
    ensures Without(JsonEscape(text), '\n')
  {
    EscapeWithout(text, '\n');
  }

  // ----- whole logs

  ghost predicate AllPlain(events: seq<Event>) {
    forall i :: 0 <= i < |events| ==> Plain(events[i])
  }

  lemma EventTextSnoc(campaignId: string, events: seq<Event>, e: Event)
    ensures EventText(campaignId, events + [e]) ==
      EventText(campaignId, events) + (EventLine(campaignId, NumberAt(|events|), e) + "\n")
  {
    hide EventLine, NumberAt, Lines;
    assert EventLines(campaignId, events + [e]) ==
      EventLines(campaignId, events) + [EventLine(campaignId, NumberAt(|events|), e)];
    LinesSnoc(EventLines(campaignId, events), EventLine(campaignId, NumberAt(|events|), e));
  }

  lemma LastLineOf(before: string, line: string)
    requires Without(line, '\n') && (before != "" ==> before[|before| - 1] == '\n')
    ensures LastLine(before + (line + "\n")) == line
  {
    var content := before + (line + "\n");
    assert content[..|content| - 1] == before + line && (before + line)[|before|..] == line;
    AfterLastUnique(before + line, |before|);
  }

  /** What an intact log of so many records continues with. */
  lemma NextNumber(campaignId: string, events: seq<Event>)
    requires AllPlain(events)
    ensures !Torn(EventText(campaignId, events))
    ensures ReadNextSequence(EventText(campaignId, events), campaignId) ==
      if |events| < MAX_U64 then Ok(NumberAt(|events|)) else Err(RuntimeError)
  {
    hide EventLine, LastLine, SequenceDigits, CampaignText, FindText, Plain;
    if events != [] {
      var n := |events| - 1;
      var before, line := EventText(campaignId, events[..n]), EventLine(campaignId, NumberAt(n), events[n]);
      assert events == events[..n] + [events[n]];
      EventTextSnoc(campaignId, events[..n], events[n]);
      LineWithoutNewline(campaignId, NumberAt(n), events[n]);
      EndsInNewline(campaignId, events[..n]);
      LastLineOf(before, line);
      DigitsBack(campaignId, NumberAt(n), events[n]);
      ParseToDecimal(NumberAt(n));
    }
  }

  lemma EndsInNewline(campaignId: string, events: seq<Event>)
    ensures !Torn(EventText(campaignId, events))
  {
    if events != [] {
      LinesEndInNewline(EventLines(campaignId, events));
    }
  }

  /** A written log with the beginning of another record behind it. */
  ghost predicate Holds(campaignId: string, events: seq<Event>, content: string) {
    && AllPlain(events) && EventText(campaignId, events) <= content
    && Without(content[|EventText(campaignId, events)|..], '\n')
  }

  /** A log is torn exactly when something is behind its whole records; then it cannot be
      reopened, and otherwise only when the largest number is used up. */
  lemma ReopenVerdict(campaignId: string, events: seq<Event>, content: string)
    requires Holds(campaignId, events, content)
    ensures Torn(content) <==> content != EventText(campaignId, events)
    ensures ReadNextSequence(content, campaignId) ==
      if Torn(content) || |events| >= MAX_U64 then Err(RuntimeError) else Ok(NumberAt(|events|))
  {
    hide EventText, Plain, LastLine, SequenceDigits, CampaignText, FindText;
    var whole := EventText(campaignId, events);
    NextNumber(campaignId, events);
    if content != whole {
      assert content[|content| - 1] == content[|whole|..][|content| - 1 - |whole|];
    }
  }
}
