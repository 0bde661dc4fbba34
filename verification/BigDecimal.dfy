/** The decimal text of big integers: printing and the canonical reader are mutual
    inverses (src/math/big_integer.cpp). */
module BigDecimal {
  import opened NumberTheory
  import opened MachineArithmetic
  import opened Decimal
  import opened Limbs
  import opened BigIntegers
  import opened Wrappers

  // ----- groups of nine digits

  lemma NinePlaces()
    ensures Pow(10, 9) == 1_000_000_000
  {
    assert Pow(10, 3) == 10 * (10 * (10 * Pow(10, 0)));
    PowAdd(10, 3, 3);
    PowAdd(10, 6, 3);
  }

  /** A number padded with zeros to k digits. */
  function Pad(k: nat, r: nat): string {
    if k == 0 then "" else Pad(k - 1, r / 10) + [DigitChar(r % 10)]
  }

  lemma {:induction false} PadAppends(q: nat, k: nat, r: nat)
    requires q > 0 && r < Pow(10, k)
    ensures 0 <= q * Pow(10, k) + r && ToDecimal(q * Pow(10, k) + r) == ToDecimal(q) + Pad(k, r)
  {
    if k == 0 {
      assert q * Pow(10, k) == q && ToDecimal(q) + Pad(k, r) == ToDecimal(q);
    } else {
      var p := Pow(10, k - 1);
      assert q * Pow(10, k) == 10 * (q * p);
      PowPositive(10, k - 1);
      MulMonotone(q, 1, p);
      PadAppends(q, k - 1, r / 10);
      DivModUnique(q * Pow(10, k) + r, 10, q * p + r / 10, r % 10);
      assert (ToDecimal(q) + Pad(k - 1, r / 10)) + [DigitChar(r % 10)] ==
        ToDecimal(q) + (Pad(k - 1, r / 10) + [DigitChar(r % 10)]);
    }
  }

  lemma {:induction false} DecimalBound(s: string)
    requires AllDigits(s)
    ensures DecimalValue(s) < Pow(10, |s|)
  {
    if s != "" {
      DecimalBound(s[..|s| - 1]);
    }
  }

  lemma {:induction false} DecimalSplit(s: string, k: nat)
    requires AllDigits(s) && k <= |s|
    ensures DecimalValue(s) == DecimalValue(s[..k]) * Pow(10, |s| - k) + DecimalValue(s[k..])
    decreases |s|
  {
    var last := |s| - 1;
    if k == |s| {
      assert s[..k] == s && s[k..] == "";
    } else {
      DecimalSplit(s[..last], k);
      assert s[..last][..k] == s[..k] && s[..last][k..] == s[k..][..last - k] && s[k..][last - k] == s[last];
      assert Pow(10, |s| - k) == 10 * Pow(10, last - k);
      ShiftDigit(DecimalValue(s[..k]), Pow(10, last - k), DecimalValue(s[k..][..last - k]), DigitValue(s[last]));
    }
  }

  lemma ShiftDigit(a: int, p: int, b: int, d: int)
    ensures (a * p + b) * 10 + d == a * (10 * p) + (b * 10 + d)
  {
    assert a * (10 * p) == 10 * (a * p);
  }

  // ----- printing

  /** The canonical decimal text of an integer. */
  function SignedDecimal(v: int): string {
    if v < 0 then "-" + ToDecimal(-v) else ToDecimal(v)
  }

  lemma NextGroup(s: seq<Limb>, i: nat)
    requires i + 1 < |s| && NoTopZero(s)
    ensures ToDecimal(Mag(s[i..])) == ToDecimal(Mag(s[i + 1..])) + Pad(9, s[i])
  {
    NinePlaces();
    assert s[i..][1..] == s[i + 1..];
    MagPositive(s[i + 1..]);
    PadAppends(Mag(s[i + 1..]), 9, s[i]);
  }

  /** The top limb, then each further limb with all its nine digits. */
  method MagnitudeText(limbs: seq<Limb>) returns (digits: string)
    requires limbs != [] && NoTopZero(limbs)
    ensures digits == ToDecimal(Mag(limbs))
  {
    hide ToDecimal, Pad;
    var index := |limbs| - 1;
    digits := ToDecimal(limbs[index]);
    assert limbs[index..] == [limbs[index]] && limbs[index..][1..] == [];
    while index != 0
      invariant 0 <= index < |limbs| && digits == ToDecimal(Mag(limbs[index..]))
    {
      NextGroup(limbs, index - 1);
      digits := digits + Pad(9, limbs[index - 1]);
      index := index - 1;
    }
    assert limbs[0..] == limbs;
  }

  /** to_decimal */
  method ToDecimalText(b: BigInteger) returns (text: string)
    requires b.Valid()
    ensures text == SignedDecimal(b.Value())
  {
    if b.sign == 0 {
      return "0";
    }
    MagPositive(b.limbs);
    var digits := MagnitudeText(b.limbs);
    text := if b.sign < 0 then "-" + digits else digits;
  }

  // ----- reading

  function Body(text: string): string {
    if text != "" && text[0] == '-' then text[1..] else text
  }

  /** A canonical signed numeral. */
  predicate CanonicalSigned(text: string) {
    Canonical(Body(text)) && text != "-0"
  }

  function SignedValue(text: string): int
    requires CanonicalSigned(text)
  {
    var magnitude: int := DecimalValue(Body(text));
    if text[0] == '-' then -magnitude else magnitude
  }

  /** The numerals of integers are the canonical ones, and reading inverts printing. */
  lemma PrintedIsCanonical(v: int)
    ensures CanonicalSigned(SignedDecimal(v)) && SignedValue(SignedDecimal(v)) == v
  {
    DecimalRoundTrip(if v < 0 then -v else v);
    if v < 0 {
      assert SignedDecimal(v)[1..] == ToDecimal(-v);
      assert SignedDecimal(v) != "-0" by {
        assert "-0"[1..] == "0" && ToDecimal(-v)[0] != '0';
      }
    }
  }

  lemma CanonicalIsPrinted(text: string)
    requires CanonicalSigned(text)
    ensures SignedDecimal(SignedValue(text)) == text
  {
    var body := Body(text);
    CanonicalIsDecimal(body);
    if text[0] == '-' {
      assert text == ['-'] + body;
      assert body[0] == '0' ==> body == ['0'];
    }
  }

  lemma GroupStep(body: string, start: nat, end: nat, limbs: seq<Limb>, limb: Limb)
    requires AllDigits(body) && start < end <= |body| && limb == DecimalValue(body[start..end])
    requires end - start == 9 || start == 0
    requires DecimalValue(body) == DecimalValue(body[..end]) * Weight(|limbs|) + Mag(limbs)
    ensures DecimalValue(body) == DecimalValue(body[..start]) * Weight(|limbs| + 1) + Mag(limbs + [limb])
  {
    DecimalSplit(body[..end], start);
    assert body[..end][..start] == body[..start] && body[..end][start..] == body[start..end];
    MagAppend(limbs, limb);
    NinePlaces();
    assert start == 0 ==> body[..start] == "";
    GroupSum(DecimalValue(body), DecimalValue(body[..end]), Weight(|limbs|), Mag(limbs), limb,
      DecimalValue(body[..start]), Pow(10, end - start));
    hide Mag, Pow, DecimalValue;
  }

  /** A group of nine digits moves one limb up; the first group has nothing above it. */
  lemma GroupSum(value: int, e: int, w: int, m: int, limb: int, d: int, p: int)
    requires value == e * w + m && e == d * p + limb && (p == 1_000_000_000 || d == 0)
    ensures value == d * (1_000_000_000 * w) + (m + w * limb)
  {
    if d == 0 {
      ZeroGroup(d, p, limb, w);
    } else {
      FullGroup(d, limb, w);
    }
  }

  lemma ZeroGroup(d: int, p: int, limb: int, w: int)
    requires d == 0
    ensures (d * p + limb) * w == d * (1_000_000_000 * w) + w * limb
  {
  }

  lemma FullGroup(d: int, limb: int, w: int)
    ensures (d * 1_000_000_000 + limb) * w == d * (1_000_000_000 * w) + w * limb
  {
    assert (d * 1_000_000_000) * w == d * (1_000_000_000 * w);
  }

  lemma SliceDigits(body: string, start: nat, end: nat)
    requires AllDigits(body) && start <= end <= |body| && end - start <= 9
    ensures AllDigits(body[start..end]) && DecimalValue(body[start..end]) < 1_000_000_000
  {
    var s := body[start..end];
    DecimalBound(s);
    PowMonotone(10, |s|, 9);
    NinePlaces();
  }

  /** The groups of nine digits from the end become limbs. */
  method ReadGroups(body: string) returns (limbs: seq<Limb>)
    requires body != "" && AllDigits(body)
    ensures Mag(limbs) == DecimalValue(body)
  {
    limbs := [];
    var end := |body|;
    assert body[..end] == body;
    while end > 0
      invariant 0 <= end <= |body|
      invariant DecimalValue(body) == DecimalValue(body[..end]) * Weight(|limbs|) + Mag(limbs)
    {
      var start := if end > 9 then end - 9 else 0;
      SliceDigits(body, start, end);
      GroupStep(body, start, end, limbs, DecimalValue(body[start..end]));
      limbs := limbs + [DecimalValue(body[start..end])];
      end := start;
    }
    assert body[..end] == "";
  }

  /** from_decimal: accepts exactly the canonical numerals and reads their value. */
  method FromDecimal(text: string) returns (r: Result<BigInteger, Exception>)
    ensures r.Ok? <==> CanonicalSigned(text)
    ensures r.Ok? ==> r.value.Valid() && r.value.Value() == SignedValue(text)
    ensures r.Err? ==> r.error == InvalidArgument
  {
    if text == "" || text == "-0" || text[0] == '+' {
      return Err(InvalidArgument);
    }
    var negative := text[0] == '-';
    var body := if negative then text[1..] else text;
    if body == "" || (|body| > 1 && body[0] == '0') {
      return Err(InvalidArgument);
    }
    var index := 0;
    while index < |body|
      invariant 0 <= index <= |body| && forall i :: 0 <= i < index ==> IsDigit(body[i])
    {
      if !IsDigit(body[index]) {
        return Err(InvalidArgument);
      }
      index := index + 1;
    }
    var groups := ReadGroups(body);
    var limbs := Normalize(groups);
    var result := new BigInteger(0);
    result.limbs := limbs;
    result.sign := if limbs == [] then 0 else if negative then -1 else 1;
    ghost var magnitude: int := Mag(limbs);
    assert (-1) * magnitude == -magnitude;
    return Ok(result);
  }

  /** Printing a valid integer and reading it back. */
  method DecimalRoundTripOf(b: BigInteger) returns (copy: BigInteger)
    requires b.Valid()
    ensures copy.Valid() && copy.Value() == b.Value()
  {
    var text := ToDecimalText(b);
    PrintedIsCanonical(b.Value());
    var read := FromDecimal(text);
    copy := read.value;
  }
}
