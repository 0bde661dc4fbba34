/** The canonical text of a Proth certificate and its strict reader (src/proth/proth.cpp). */
module ProthText {
  import opened MachineArithmetic
  import opened Decimal
  import opened Proth
  import opened TextSearch
  import opened Wrappers

  const TEXT_HEAD := "{\"format_version\":\""
  const TEXT_K := "\",\"k\":\""
  const TEXT_N := "\",\"n\":\""
  const TEXT_RESIDUE := "\",\"residue\":\""
  const TEXT_VALUE := "\",\"value\":\""
  const TEXT_WITNESS := "\",\"witness\":\""
  const TEXT_END := "\"}"

  function CertificateText(c: Certificate): string {
    TEXT_HEAD + c.formatVersion + TEXT_K + FieldsText(c)
  }

  function FieldsText(c: Certificate): string {
    ToDecimal(c.k) + (TEXT_N + (ToDecimal(c.n) + (TEXT_RESIDUE + (ToDecimal(c.residue)
      + (TEXT_VALUE + (ToDecimal(c.value) + (TEXT_WITNESS + (ToDecimal(c.base) + TEXT_END))))))))
  }

  /** The rest of the input after an expected prefix. */
  function ConsumePrefix(input: string, prefix: string): Option<string> {
    if StartsWith(input, prefix) then Some(input[|prefix|..]) else None
  }

  datatype Consumed = Consumed(value: u64, rest: string)

  /** A canonical numeral up to the next quotation mark, which stays in the input. */
  function ConsumeDecimal(input: string): Option<Consumed> {
    var end := Find(input, '"', 0);
    if end == |input| then None else
      match ParseCanonicalU64(input[..end])
      case None => None
      case Some(v) => Some(Consumed(v, input[end..]))
  }

  lemma ConsumePrefixOf(prefix: string, rest: string)
    ensures ConsumePrefix(prefix + rest, prefix) == Some(rest)
  {
    assert (prefix + rest)[..|prefix|] == prefix;
    assert (prefix + rest)[|prefix|..] == rest;
  }

  lemma ConsumeDecimalOf(v: u64, rest: string)
    requires rest != [] && rest[0] == '"'
    ensures ConsumeDecimal(ToDecimal(v) + rest) == Some(Consumed(v, rest))
  {
    var t := ToDecimal(v);
    var s := t + rest;
    assert forall j :: 0 <= j < |t| ==> s[j] == t[j] && IsDigit(t[j]);
    FindUnique(s, '"', 0, |t|);
    assert s[..|t|] == t && s[|t|..] == rest;
    ParseToDecimal(v);
  }

  /** A field: a numeral and then the text that separates it from the next one. */
  function ConsumeField(input: string, separator: string): Option<Consumed> {
    match ConsumeDecimal(input)
    case None => None
    case Some(number) =>
      match ConsumePrefix(number.rest, separator)
      case None => None
      case Some(rest) => Some(Consumed(number.value, rest))
  }

  lemma ConsumeFieldOf(v: u64, separator: string, rest: string)
    requires separator != [] && separator[0] == '"'
    ensures ConsumeField(ToDecimal(v) + (separator + rest), separator) == Some(Consumed(v, rest))
  {
    ConsumeDecimalOf(v, separator + rest);
    ConsumePrefixOf(separator, rest);
  }

  /** The five fields in order, with nothing left over. */
  function ParseFields(input: string): Option<Certificate> {
    match ConsumeField(input, TEXT_N)
    case None => None
    case Some(k) =>
      match ConsumeField(k.rest, TEXT_RESIDUE)
      case None => None
      case Some(n) =>
        if n.value >= TWO_TO_32 then None else
        match ConsumeField(n.rest, TEXT_VALUE)
        case None => None
        case Some(residue) =>
          match ConsumeField(residue.rest, TEXT_WITNESS)
          case None => None
          case Some(value) =>
            match ConsumeField(value.rest, TEXT_END)
            case None => None
            case Some(base) =>
              if base.rest != [] then None
              else Some(Certificate(CERTIFICATE_FORMAT, k.value, n.value, value.value, base.value, residue.value))
  }

  /** Reading back the printed fields yields the certificate. */
  lemma FieldsRoundTrip(c: Certificate)
    requires c.formatVersion == CERTIFICATE_FORMAT
    ensures ParseFields(FieldsText(c)) == Some(c)
  {
    var e: string := [];
    assert TEXT_END + e == TEXT_END;
    var t5 := ToDecimal(c.base) + TEXT_END;
    var t4 := ToDecimal(c.value) + (TEXT_WITNESS + t5);
    var t3 := ToDecimal(c.residue) + (TEXT_VALUE + t4);
    var t2 := ToDecimal(c.n) + (TEXT_RESIDUE + t3);
    ConsumeFieldOf(c.k, TEXT_N, t2);
    ConsumeFieldOf(c.n, TEXT_RESIDUE, t3);
    ConsumeFieldOf(c.residue, TEXT_VALUE, t4);
    ConsumeFieldOf(c.value, TEXT_WITNESS, t5);
    ConsumeFieldOf(c.base, TEXT_END, e);
  }

  /** Different certificates of the current format have different texts. */
  lemma TextInjective(c: Certificate, d: Certificate)
    requires c.formatVersion == d.formatVersion == CERTIFICATE_FORMAT
    requires CertificateText(c) == CertificateText(d)
    ensures c == d
  {
    var prefix := TEXT_HEAD + CERTIFICATE_FORMAT + TEXT_K;
    ConsumePrefixOf(prefix, FieldsText(c));
    ConsumePrefixOf(prefix, FieldsText(d));
    FieldsRoundTrip(c);
    FieldsRoundTrip(d);
  }

  /** canonical_certificate: only good certificates have a text. */
  method Canonical(c: Certificate) returns (r: Result<string, Exception>)
    ensures r == if GoodCertificate(c) then Ok(CertificateText(c)) else Err(InvalidArgument)
  {
    var ok := Verify(c);
    if !ok {
      return Err(InvalidArgument);
    }
    return Ok(CertificateText(c));
  }

  /** parse_canonical_certificate accepts exactly the texts of the good certificates. */
  method ParseCanonical(bytes: string) returns (r: Option<Certificate>)
    ensures forall c :: r == Some(c) <==> GoodCertificate(c) && bytes == CertificateText(c)
  {
    var prefix := TEXT_HEAD + CERTIFICATE_FORMAT + TEXT_K;
    forall c | GoodCertificate(c) && bytes == CertificateText(c)
      ensures ConsumePrefix(bytes, prefix) == Some(FieldsText(c)) && ParseFields(FieldsText(c)) == Some(c)
    {
      ConsumePrefixOf(prefix, FieldsText(c));
      FieldsRoundTrip(c);
    }
    var rest := ConsumePrefix(bytes, prefix);
    if rest.None? {
      return None;
    }
    var fields := ParseFields(rest.value);
    if fields.None? {
      return None;
    }
    var text := Canonical(fields.value);
    if text.Err? || text.value != bytes {
      return None;
    }
    return fields;
  }
}
