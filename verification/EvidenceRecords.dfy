/** The text of one external engine's raw output: hexadecimal fields between fixed
    markers, ended by the only newline (src/mvp/flint_evidence_log.cpp). */
module EvidenceRecords {
  import opened MachineArithmetic
  import opened DelimitedText
  import opened Hexadecimal
  import opened TextSearch
  import opened Wrappers

  type byte = x: int | 0 <= x < 256

  datatype EvidenceRecord = EvidenceRecord(jobId: seq<byte>, input: seq<byte>, stdout: seq<byte>, stderr: seq<byte>)

  function InputPrefix(): string { "{\"input_hex\":\"" }
  function JobIdMarker(): string { "\",\"job_id_hex\":\"" }
  function StderrMarker(): string { "\",\"stderr_hex\":\"" }
  function StdoutMarker(): string { "\",\"stdout_hex\":\"" }
  function RecordSuffix(): string { "\"}\n" }

  /** Each marker begins with a quotation mark and contains no newline. */
  lemma Markers()
    ensures JobIdMarker() != "" && JobIdMarker()[0] == '"' && Without(JobIdMarker(), '\n')
    ensures StderrMarker() != "" && StderrMarker()[0] == '"' && Without(StderrMarker(), '\n')
    ensures StdoutMarker() != "" && StdoutMarker()[0] == '"' && Without(StdoutMarker(), '\n')
    ensures Without(InputPrefix(), '\n') && |RecordSuffix()| == 3
  {
  }

  // ----- hexadecimal

  function HexText(bytes: seq<byte>): (s: string)
    ensures |s| == 2 * |bytes| && forall i :: 0 <= i < |s| ==> IsHex(s[i])
  {
    if bytes == [] then ""
    else HexText(bytes[..|bytes| - 1]) + [HexDigit(bytes[|bytes| - 1] / 16), HexDigit(bytes[|bytes| - 1] % 16)]
  }

  /** hex_encode */
  method HexEncode(bytes: seq<byte>) returns (result: string)
    ensures result == HexText(bytes)
  {
    result := "";
    for i := 0 to |bytes|
      invariant result == HexText(bytes[..i])
    {
      assert bytes[..i + 1][..i] == bytes[..i];
      result := result + [HexDigit(bytes[i] / 16)];
      result := result + [HexDigit(bytes[i] % 16)];
    }
    assert bytes[..|bytes|] == bytes;
  }

  lemma {:induction false} HexLength(hex: string, bytes: seq<byte>, n: nat)
    requires hex == HexText(bytes) && 2 * n <= |hex|
    ensures n <= |bytes| && hex[..2 * n] == HexText(bytes[..n])
    decreases |bytes|
  {
    if n == |bytes| {
      assert bytes[..n] == bytes && hex[..2 * n] == hex;
    } else {
      var shorter := bytes[..|bytes| - 1];
      HexLength(HexText(shorter), shorter, n);
      assert shorter[..n] == bytes[..n];
      assert hex[..2 * n] == HexText(shorter)[..2 * n];
    }
  }

  /** Two digits of a text are those of its byte there. */
  lemma HexStep(hex: string, bytes: seq<byte>, n: nat)
    requires hex == HexText(bytes) && 2 * n + 1 < |hex|
    ensures hex[2 * n] == HexDigit(bytes[n] / 16) && hex[2 * n + 1] == HexDigit(bytes[n] % 16)
  {
    HexLength(hex, bytes, n + 1);
    assert bytes[..n + 1][..n] == bytes[..n];
    assert hex[2 * n] == hex[..2 * (n + 1)][2 * n] && hex[2 * n + 1] == hex[..2 * (n + 1)][2 * n + 1];
  }

  lemma {:induction false} HexInjective(a: seq<byte>, b: seq<byte>)
    requires HexText(a) == HexText(b)
    ensures a == b
  {
    forall i | 0 <= i < |a|
      ensures a[i] == b[i]
    {
      HexStep(HexText(a), a, i);
      HexStep(HexText(b), b, i);
      assert Nibble(HexText(a)[2 * i]) == a[i] / 16 == b[i] / 16;
      assert Nibble(HexText(a)[2 * i + 1]) == a[i] % 16 == b[i] % 16;
    }
  }

  lemma HexOfByte(high: char, low: char, b: byte)
    requires IsHex(high) && IsHex(low) && b == Nibble(high) * 16 + Nibble(low)
    ensures HexDigit(b / 16) == high && HexDigit(b % 16) == low
  {
    DigitOfNibble(high);
    DigitOfNibble(low);
  }

  /** hex_decode: accepts exactly the texts hex_encode writes. */
  method HexDecode(hex: string) returns (r: Result<seq<byte>, Exception>)
    ensures r.Ok? ==> HexText(r.value) == hex
    ensures r.Err? ==> r.error == InvalidArgument && forall b: seq<byte> :: HexText(b) != hex
  {
    if |hex| % 2 != 0 {
      return Err(InvalidArgument);
    }
    var result: seq<byte> := [];
    var index := 0;
    while index < |hex|
      invariant 0 <= index <= |hex| && index % 2 == 0 && |result| == index / 2
      invariant HexText(result) == hex[..index]
    {
      if !IsHex(hex[index]) || !IsHex(hex[index + 1]) {
        return Err(InvalidArgument);
      }
      var high, low := Nibble(hex[index]), Nibble(hex[index + 1]);
      var b: byte := high * 16 + low;
      HexOfByte(hex[index], hex[index + 1], b);
      assert (result + [b])[..|result|] == result;
      assert hex[..index + 2] == hex[..index] + [hex[index], hex[index + 1]];
      result := result + [b];
      index := index + 2;
    }
    assert hex[..index] == hex;
    return Ok(result);
  }

  // ----- records

  function Tail3(e: EvidenceRecord): string {
    HexText(e.stdout) + RecordSuffix()
  }

  function Tail2(e: EvidenceRecord): string {
    HexText(e.stderr) + (StdoutMarker() + Tail3(e))
  }

  function Tail1(e: EvidenceRecord): string {
    HexText(e.jobId) + (StderrMarker() + Tail2(e))
  }

  /** canonical_flint_evidence_record */
  function RecordText(e: EvidenceRecord): (s: string)
    ensures s != ""
  {
    InputPrefix() + (HexText(e.input) + (JobIdMarker() + Tail1(e)))
  }

  lemma HexWithout(bytes: seq<byte>)
    ensures Without(HexText(bytes), '\n') && Without(HexText(bytes), '"')
  {
  }

  function DropLast(s: string): string
    requires s != ""
  {
    s[..|s| - 1]
  }

  /** The text of a record without its newline. */
  function RecordLine(e: EvidenceRecord): string {
    DropLast(RecordText(e))
  }

  lemma Closing()
    ensures RecordSuffix() == "\"}" + ['\n']
  {
  }

  /** A record's only newline is its last character. */
  lemma RecordIsLine(e: EvidenceRecord)
    ensures RecordText(e) == RecordLine(e) + ['\n'] && Without(RecordLine(e), '\n')
  {
    hide HexText, InputPrefix, JobIdMarker, StderrMarker, StdoutMarker, RecordSuffix;
    Markers();
    HexWithout(e.input);
    HexWithout(e.jobId);
    HexWithout(e.stderr);
    HexWithout(e.stdout);
    var closing := "\"}";
    Closing();
    var body3 := HexText(e.stdout) + closing;
    var body2 := HexText(e.stderr) + (StdoutMarker() + body3);
    var body1 := HexText(e.jobId) + (StderrMarker() + body2);
    var body := InputPrefix() + (HexText(e.input) + (JobIdMarker() + body1));
    assert Tail3(e) == body3 + ['\n'];
    assert Tail2(e) == body2 + ['\n'];
    assert Tail1(e) == body1 + ['\n'];
    assert RecordText(e) == body + ['\n'];
    assert RecordLine(e) == body;
  }

  datatype Taken = Taken(value: string, remaining: string)

  /** take_until */
  function TakeUntil(remaining: string, marker: string): Result<Taken, Exception> {
    match FindText(remaining, marker, 0)
    case None => Err(InvalidArgument)
    case Some(p) => Ok(Taken(remaining[..p], remaining[p + |marker|..]))
  }

  lemma TakenBack(hex: seq<byte>, marker: string, rest: string)
    requires marker != "" && marker[0] == '"'
    ensures TakeUntil(HexText(hex) + (marker + rest), marker) == Ok(Taken(HexText(hex), rest))
  {
    HexWithout(hex);
    hide HexText;
    FoundBehind(HexText(hex), marker, rest);
    var s := HexText(hex) + (marker + rest);
    assert s[..|HexText(hex)|] == HexText(hex) && s[|HexText(hex)| + |marker|..] == rest;
  }

  datatype HexFields = HexFields(input: string, jobId: string, stderr: string, stdout: string)

  /** The cutting part of parse_canonical_flint_evidence_record. */
  function CutRecord(line: string): Result<HexFields, Exception> {
    if !StartsWith(line, InputPrefix()) || !EndsWith(line, RecordSuffix()) then Err(InvalidArgument)
    else match TakeUntil(line[|InputPrefix()|..], JobIdMarker())
    case Err(x) => Err(x)
    case Ok(first) =>
      match TakeUntil(first.remaining, StderrMarker())
      case Err(x) => Err(x)
      case Ok(second) =>
        match TakeUntil(second.remaining, StdoutMarker())
        case Err(x) => Err(x)
        case Ok(third) =>
          if !EndsWith(third.remaining, RecordSuffix()) then Err(InvalidArgument)
          else Ok(HexFields(first.value, second.value, third.value,
                            third.remaining[..|third.remaining| - |RecordSuffix()|]))
  }

  function FieldsOf(e: EvidenceRecord): HexFields {
    HexFields(HexText(e.input), HexText(e.jobId), HexText(e.stderr), HexText(e.stdout))
  }

  /** Cutting a written record gives its four hexadecimal texts. */
  lemma CutWritten(e: EvidenceRecord)
    ensures CutRecord(RecordText(e)) == Ok(FieldsOf(e))
  {
    Markers();
    TakenBack(e.input, JobIdMarker(), Tail1(e));
    TakenBack(e.jobId, StderrMarker(), Tail2(e));
    TakenBack(e.stderr, StdoutMarker(), Tail3(e));
    hide HexText, InputPrefix, JobIdMarker, StderrMarker, StdoutMarker, RecordSuffix, TakeUntil;
    var line := RecordText(e);
    EndsInSuffix(e);
    assert line[|InputPrefix()|..] == HexText(e.input) + (JobIdMarker() + Tail1(e));
    assert StartsWith(line, InputPrefix());
    hide RecordText, Tail1, Tail2, EndsWith, StartsWith;
    assert Tail3(e)[..|Tail3(e)| - |RecordSuffix()|] == HexText(e.stdout);
  }

  lemma EndsInSuffix(e: EvidenceRecord)
    ensures EndsWith(Tail3(e), RecordSuffix()) && EndsWith(RecordText(e), RecordSuffix())
  {
    hide HexText, InputPrefix, JobIdMarker, StderrMarker, StdoutMarker, RecordSuffix;
    assert EndsWith(Tail3(e), RecordSuffix());
    hide EndsWith;
    EndsBehind(StdoutMarker(), Tail3(e), RecordSuffix());
    EndsBehind(HexText(e.stderr), StdoutMarker() + Tail3(e), RecordSuffix());
    EndsBehind(StderrMarker(), Tail2(e), RecordSuffix());
    EndsBehind(HexText(e.jobId), StderrMarker() + Tail2(e), RecordSuffix());
    EndsBehind(JobIdMarker(), Tail1(e), RecordSuffix());
    EndsBehind(HexText(e.input), JobIdMarker() + Tail1(e), RecordSuffix());
    EndsBehind(InputPrefix(), HexText(e.input) + (JobIdMarker() + Tail1(e)), RecordSuffix());
  }

  /** Equal texts come from equal records, on arbitrary byte strings. */
  lemma RecordTextInjective(a: EvidenceRecord, b: EvidenceRecord)
    requires RecordText(a) == RecordText(b)
    ensures a == b
  {
    CutWritten(a);
    CutWritten(b);
    hide RecordText, CutRecord, HexText;
    HexInjective(a.input, b.input);
    HexInjective(a.jobId, b.jobId);
    HexInjective(a.stderr, b.stderr);
    HexInjective(a.stdout, b.stdout);
  }

  ghost predicate IsRecordText(line: string) {
    exists e: EvidenceRecord :: line == RecordText(e)
  }

  /** parse_canonical_flint_evidence_record accepts exactly the printed records. */
  method ParseRecord(line: string) returns (r: Result<EvidenceRecord, Exception>)
    ensures r.Ok? ==> line == RecordText(r.value)
    ensures r.Err? ==> r.error == InvalidArgument && !IsRecordText(line)
  {
    CutIsTotal(line);
    hide HexText, InputPrefix, JobIdMarker, StderrMarker, StdoutMarker, RecordSuffix, TakeUntil, CutRecord, RecordText;
    var fields := CutRecord(line);
    if fields.Err? {
      return Err(InvalidArgument);
    }
    var jobId := HexDecode(fields.value.jobId);
    if jobId.Err? {
      return Err(InvalidArgument);
    }
    var input := HexDecode(fields.value.input);
    if input.Err? {
      return Err(InvalidArgument);
    }
    var stdout := HexDecode(fields.value.stdout);
    if stdout.Err? {
      return Err(InvalidArgument);
    }
    var stderr := HexDecode(fields.value.stderr);
    if stderr.Err? {
      return Err(InvalidArgument);
    }
    var record := EvidenceRecord(jobId.value, input.value, stdout.value, stderr.value);
    if RecordText(record) != line {
      if IsRecordText(line) {
        var e :| line == RecordText(e);
        HexInjective(e.jobId, record.jobId);
        HexInjective(e.input, record.input);
        HexInjective(e.stdout, record.stdout);
        HexInjective(e.stderr, record.stderr);
        assert false;
      }
      return Err(InvalidArgument);
    }
    return Ok(record);
  }

  lemma CutIsTotal(line: string)
    ensures CutRecord(line).Err? ==> CutRecord(line).error == InvalidArgument
    ensures forall e :: line == RecordText(e) ==> CutRecord(line) == Ok(FieldsOf(e))
  {
    forall e | line == RecordText(e)
      ensures CutRecord(line) == Ok(FieldsOf(e))
    {
      CutWritten(e);
    }
    hide RecordText, HexText, FindText, StartsWith, EndsWith;
  }
}
