/** The payload of the pipeline's checkpoint and the exact reader of it
    (src/pipeline/modular_pipeline.cpp). */
module ModularCheckpoint {
  import opened MachineArithmetic
  import opened Decimal
  import opened Hexadecimal
  import opened JsonText
  import opened RuntimeCheckpoint
  import opened TextSearch
  import opened Wrappers

  datatype CheckpointPayload = CheckpointPayload(ledgerBytes: u64, ledgerSha256: string, tasksSha256: string)

  function SchemaPrefix(): string { "schema=" }
  function Schema(): string { "primeforge.modular.pipeline.checkpoint.v1" }
  function BytesMarker(): string { ";ledger_bytes=" }
  function LedgerMarker(): string { ";ledger_sha256=" }
  function TasksMarker(): string { ";tasks_sha256=" }

  /** make_payload */
  function PayloadText(p: CheckpointPayload): string {
    SchemaPrefix() + (Schema() + (BytesMarker() + (ToDecimal(p.ledgerBytes) + (LedgerMarker() + (p.ledgerSha256
      + (TasksMarker() + p.tasksSha256))))))
  }

  datatype Positions = Positions(bytes: nat, ledger: nat, tasks: nat)

  /** The three searches, each from the beginning of the payload. */
  function FindMarkers(payload: string): Option<Positions> {
    match (FindText(payload, BytesMarker(), 0), FindText(payload, LedgerMarker(), 0),
      FindText(payload, TasksMarker(), 0))
    case (Some(b), Some(l), Some(t)) => if b < l < t then Some(Positions(b, l, t)) else None
    case _ => None
  }

  /** A part of a text; empty when it would begin behind its end. */
  function Part(s: string, begin: nat, end: nat): string {
    if begin <= end <= |s| then s[begin..end] else ""
  }

  /** parse_payload */
  function ParsePayload(payload: string): Result<CheckpointPayload, Exception> {
    if !StartsWith(payload, SchemaPrefix()) then Err(RuntimeError)
    else match FindMarkers(payload)
      case None => Err(RuntimeError)
      case Some(at) =>
        if Part(payload, |SchemaPrefix()|, at.bytes) != Schema() then Err(RuntimeError)
        else match ParseCanonicalU64(Part(payload, at.bytes + |BytesMarker()|, at.ledger))
          case None => Err(RuntimeError)
          case Some(bytes) =>
            var p := CheckpointPayload(bytes, Part(payload, at.ledger + |LedgerMarker()|, at.tasks),
                                       Part(payload, at.tasks + |TasksMarker()|, |payload|));
            if !CanonicalDigest(p.ledgerSha256) || !CanonicalDigest(p.tasksSha256) || PayloadText(p) != payload
            then Err(RuntimeError) else Ok(p)
  }

  // ----- the searches find the markers

  predicate NoSemicolon(s: string) {
    forall i :: 0 <= i < |s| ==> s[i] != ';'
  }

  lemma Shapes()
    ensures BytesMarker()[0] == ';' && LedgerMarker()[0] == ';' && TasksMarker()[0] == ';'
    ensures NoSemicolon(SchemaPrefix() + Schema())
    ensures NoSemicolon(BytesMarker()[1..]) && NoSemicolon(LedgerMarker()[1..])
    ensures |BytesMarker()| > 8 && |LedgerMarker()| > 8 && |TasksMarker()| > 8
    ensures BytesMarker()[8] != LedgerMarker()[8] && BytesMarker()[1] != TasksMarker()[1]
      && LedgerMarker()[1] != TasksMarker()[1]
  {
  }

  /** Text that is cut at its markers: head ;bytes= a ;ledger= b ;tasks= c. */
  lemma MarkersFound(head: string, a: string, b: string, c: string)
    requires NoSemicolon(head) && NoSemicolon(a) && NoSemicolon(b)
    ensures var s := head + (BytesMarker() + (a + (LedgerMarker() + (b + (TasksMarker() + c)))));
      var ledger := |head| + |BytesMarker()| + |a|; var tasks := ledger + |LedgerMarker()| + |b|;
      && FindMarkers(s) == Some(Positions(|head|, ledger, tasks)) && tasks + |TasksMarker()| + |c| == |s|
      && s[..|head|] == head && s[|head| + |BytesMarker()|..ledger] == a && s[ledger + |LedgerMarker()|..tasks] == b
      && s[tasks + |TasksMarker()|..] == c
  {
    hide BytesMarker, LedgerMarker, TasksMarker, SchemaPrefix, Schema, FindText, OccursAt, NoSemicolon;
    Shapes();
    var s := head + (BytesMarker() + (a + (LedgerMarker() + (b + (TasksMarker() + c)))));
    Pieces(head, BytesMarker(), a, LedgerMarker(), b, TasksMarker(), c);
    SemicolonsAt(head, BytesMarker(), a, LedgerMarker(), b, TasksMarker() + c);
    var ledger := |head| + |BytesMarker()| + |a|;
    ThreeFound(s, BytesMarker(), LedgerMarker(), TasksMarker(), |head|, ledger, ledger + |LedgerMarker()| + |b|);
  }

  /** No semicolon in front of the third place but at the first two. */
  ghost predicate SemicolonsOnlyAt(s: string, first: nat, second: nat, third: nat) {
    forall p :: 0 <= p < third && p < |s| && p != first && p != second ==> s[p] != ';'
  }

  /** Each marker is found at its own place: it differs from the others there. */
  lemma ThreeFound(s: string, x: string, y: string, z: string, first: nat, second: nat, third: nat)
    requires OccursAt(s, x, first) && OccursAt(s, y, second) && OccursAt(s, z, third) && first < second < third
    requires SemicolonsOnlyAt(s, first, second, third)
    requires |x| > 8 && |y| > 8 && |z| > 8 && x[0] == ';' && y[0] == ';' && z[0] == ';'
    requires x[8] != y[8] && x[1] != z[1] && y[1] != z[1]
    ensures FindText(s, x, 0) == Some(first) && FindText(s, y, 0) == Some(second) && FindText(s, z, 0) == Some(third)
  {
    hide FindText, OccursAt;
    OccursChar(s, x, first, 8);
    OccursChar(s, x, first, 1);
    OccursChar(s, y, second, 1);
    OccursChar(s, y, first, 8);
    OccursChar(s, z, first, 1);
    OccursChar(s, z, second, 1);
    OccursChar(s, z, third, 0);
    FirstOf(s, x, first);
    FirstOf(s, y, second);
    FirstOf(s, z, third);
  }

  lemma Pieces(head: string, x: string, a: string, y: string, b: string, z: string, c: string)
    ensures var s := head + (x + (a + (y + (b + (z + c)))));
      var second := |head| + |x| + |a|; var third := second + |y| + |b|;
      && OccursAt(s, x, |head|) && OccursAt(s, y, second) && OccursAt(s, z, third) && third + |z| + |c| == |s|
      && s[..|head|] == head && s[|head| + |x|..second] == a && s[second + |y|..third] == b && s[third + |z|..] == c
  {
  }

  lemma SemicolonsAt(head: string, x: string, a: string, y: string, b: string, rest: string)
    requires x != "" && y != "" && NoSemicolon(x[1..]) && NoSemicolon(y[1..])
    requires NoSemicolon(head) && NoSemicolon(a) && NoSemicolon(b)
    ensures var second := |head| + |x| + |a|;
      SemicolonsOnlyAt(head + (x + (a + (y + (b + rest)))), |head|, second, second + |y| + |b|)
  {
    assert forall i :: 1 <= i < |x| ==> x[i] == x[1..][i - 1];
    assert forall i :: 1 <= i < |y| ==> y[i] == y[1..][i - 1];
  }

  /** The first of a text's occurrences, when semicolons are elsewhere only where it does not occur. */
  lemma FirstOf(s: string, t: string, at: nat)
    requires t != "" && t[0] == ';' && OccursAt(s, t, at)
    requires forall q: nat :: q < at && OccursAt(s, t, q) ==> s[q] != ';'
    ensures FindText(s, t, 0) == Some(at)
  {
    hide FindText, OccursAt;
    forall q: nat | q < at
      ensures !OccursAt(s, t, q)
    {
      OccursChar(s, t, q, 0);
    }
    FirstIsFound(s, t, at);
  }

  // ----- exactness

  predicate PayloadValid(p: CheckpointPayload) {
    CanonicalDigest(p.ledgerSha256) && CanonicalDigest(p.tasksSha256)
  }

  lemma DigestNoSemicolon(s: string)
    requires CanonicalDigest(s)
    ensures NoSemicolon(s)
  {
  }

  lemma DecimalNoSemicolon(n: nat)
    ensures NoSemicolon(ToDecimal(n))
  {
  }

  lemma TextParts(p: CheckpointPayload)
    ensures PayloadText(p) == (SchemaPrefix() + Schema()) + (BytesMarker() + (ToDecimal(p.ledgerBytes) + (LedgerMarker()
      + (p.ledgerSha256 + (TasksMarker() + p.tasksSha256)))))
    ensures StartsWith(PayloadText(p), SchemaPrefix())
    ensures (SchemaPrefix() + Schema())[|SchemaPrefix()|..] == Schema()
  {
    hide BytesMarker, LedgerMarker, TasksMarker, SchemaPrefix, Schema, ToDecimal;
    OccursInFrontOf(SchemaPrefix(), PayloadText(p)[|SchemaPrefix()|..]);
  }

  /** The reader accepts exactly the payloads that were written, each as itself. */
  lemma PayloadExact(payload: string, p: CheckpointPayload)
    ensures ParsePayload(payload) == Ok(p) <==> PayloadValid(p) && payload == PayloadText(p)
  {
    hide BytesMarker, LedgerMarker, TasksMarker, SchemaPrefix, Schema, ToDecimal, PayloadText, FindMarkers,
      CanonicalDigest, NoSemicolon,
      ParseCanonicalU64;
    if PayloadValid(p) && payload == PayloadText(p) {
      var head := SchemaPrefix() + Schema();
      Shapes();
      DigestNoSemicolon(p.ledgerSha256);
      DecimalNoSemicolon(p.ledgerBytes);
      TextParts(p);
      MarkersFound(head, ToDecimal(p.ledgerBytes), p.ledgerSha256, p.tasksSha256);
      ParseToDecimal(p.ledgerBytes);
      assert payload[|SchemaPrefix()|..|head|] == payload[..|head|][|SchemaPrefix()|..];
      var at := FindMarkers(payload).value;
      assert Part(payload, |SchemaPrefix()|, at.bytes) == Schema();
      assert Part(payload, at.bytes + |BytesMarker()|, at.ledger) == ToDecimal(p.ledgerBytes);
      assert Part(payload, at.ledger + |LedgerMarker()|, at.tasks) == p.ledgerSha256;
      assert Part(payload, at.tasks + |TasksMarker()|, |payload|) == p.tasksSha256;
    }
  }

  // ----- the stored state

  /** What one checkpoint records. */
  datatype Checkpoint = Checkpoint(campaignId: string, progress: u64, ledgerBytes: u64, ledgerSha256: string,
    tasksSha256: string)
  {
    function Payload(): CheckpointPayload {
      CheckpointPayload(ledgerBytes, ledgerSha256, tasksSha256)
    }

    function State(): CheckpointState {
      CheckpointState(campaignId, PayloadText(Payload()), ToDecimal(progress), progress)
    }

    ghost predicate Valid() {
      campaignId != "" && PayloadValid(Payload())
    }
  }

  lemma MarkersReload()
    ensures Reloadable(SchemaPrefix()) && Reloadable(BytesMarker()) && Reloadable(LedgerMarker())
      && Reloadable(TasksMarker())
  {
  }

  lemma SchemaReloads()
    ensures Reloadable(Schema())
  {
  }

  lemma PayloadReloads(p: CheckpointPayload)
    requires PayloadValid(p)
    ensures Reloadable(PayloadText(p))
  {
    hide ToDecimal, BytesMarker, LedgerMarker, TasksMarker, SchemaPrefix, Schema, Reloadable, CanonicalDigest;
    MarkersReload();
    SchemaReloads();
    HexReloads(p.ledgerSha256);
    HexReloads(p.tasksSha256);
    DigitsReload(ToDecimal(p.ledgerBytes));
    var last := TasksMarker() + p.tasksSha256;
    var digest := LedgerMarker() + (p.ledgerSha256 + last);
    var bytes := BytesMarker() + (ToDecimal(p.ledgerBytes) + digest);
    ReloadableBoth(TasksMarker(), p.tasksSha256);
    ReloadableBoth(p.ledgerSha256, last);
    ReloadableBoth(LedgerMarker(), p.ledgerSha256 + last);
    ReloadableBoth(ToDecimal(p.ledgerBytes), digest);
    ReloadableBoth(BytesMarker(), ToDecimal(p.ledgerBytes) + digest);
    ReloadableBoth(Schema(), bytes);
    ReloadableBoth(SchemaPrefix(), Schema() + bytes);
  }

  /** A checkpoint's document is read back with its payload, or not at all: the campaign
      id decides. */
  lemma DocumentReads(sha256: string -> string, c: Checkpoint)
    requires Hashes(sha256) && c.Valid()
    ensures Reloadable(c.campaignId) ==> Load(sha256, Document(sha256, c.State())) == Ok(c.State())
    ensures !Reloadable(c.campaignId) ==> Load(sha256, Document(sha256, c.State())) == Err(RuntimeError)
    ensures ParsePayload(c.State().opaquePayload) == Ok(c.Payload())
    ensures ParseCanonicalU64(c.State().progressDecimal) == Some(c.progress)
  {
    hide PayloadText, ParsePayload, Load, Document, Reloadable, ToDecimal, Hashes, PayloadValid, Canonical;
    DecimalRoundTrip(c.progress);
    ParseToDecimal(c.progress);
    PayloadReloads(c.Payload());
    PayloadExact(c.State().opaquePayload, c.Payload());
    SavedStateLoads(sha256, c.State());
  }
}
