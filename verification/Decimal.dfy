/** Decimal text of unsigned numbers, and its exact 64-bit reader. */
module Decimal {
  import opened NumberTheory
  import opened MachineArithmetic
  import opened Wrappers

  predicate IsDigit(c: char) {
    '0' <= c <= '9'
  }

  predicate AllDigits(s: string) {
    forall i :: 0 <= i < |s| ==> IsDigit(s[i])
  }

  function DigitChar(d: int): (c: char)
    requires 0 <= d < 10
    ensures IsDigit(c) && DigitValue(c) == d
  {
    '0' + d as char
  }

  function DigitValue(c: char): (d: int)
    requires IsDigit(c)
    ensures 0 <= d < 10
  {
    (c - '0') as int
  }

  /** std::to_string of an unsigned number. */
  function ToDecimal(n: nat): (s: string)
    ensures s != [] && AllDigits(s)
  {
    if n < 10 then [DigitChar(n)] else ToDecimal(n / 10) + [DigitChar(n % 10)]
  }

  function DecimalValue(s: string): nat
    requires AllDigits(s)
  {
    if s == [] then 0 else DecimalValue(s[..|s| - 1]) * 10 + DigitValue(s[|s| - 1])
  }

  /** No superfluous leading zero. */
  predicate Canonical(s: string) {
    s != [] && AllDigits(s) && (|s| > 1 ==> s[0] != '0')
  }

  lemma {:induction false} DecimalRoundTrip(n: nat)
    ensures DecimalValue(ToDecimal(n)) == n && Canonical(ToDecimal(n))
    ensures n > 0 ==> ToDecimal(n)[0] != '0'
  {
    if n >= 10 {
      DecimalRoundTrip(n / 10);
      var t := ToDecimal(n / 10);
      assert ToDecimal(n)[..|t|] == t;
      assert ToDecimal(n)[0] == t[0];
    } else {
      assert ToDecimal(n)[..0] == [];
    }
  }

  /** A canonical numeral is the numeral of its value. */
  lemma {:induction false} CanonicalIsDecimal(s: string)
    requires Canonical(s)
    ensures ToDecimal(DecimalValue(s)) == s
    ensures s[0] != '0' ==> DecimalValue(s) > 0
    decreases |s|
  {
    hide DigitValue, DigitChar, ToDecimal, IsDigit;
    var last := |s| - 1;
    var d := DigitValue(s[last]);
    CharOfDigit(s[last]);
    if last == 0 {
      assert s[..0] == [] && s == [s[0]];
      OneDigit(d);
    } else {
      var t := s[..last];
      assert t[0] == s[0];
      CanonicalIsDecimal(t);
      NextDigit(DecimalValue(t), d);
      assert s == t + [s[last]];
    }
  }

  lemma OneDigit(d: nat)
    requires d < 10
    ensures ToDecimal(d) == [DigitChar(d)]
  {
  }

  lemma CharOfDigit(c: char)
    requires IsDigit(c)
    ensures DigitChar(DigitValue(c)) == c && (DigitValue(c) == 0 ==> c == '0')
  {
  }

  lemma NextDigit(v: nat, d: nat)
    requires v > 0 && d < 10
    ensures ToDecimal(v * 10 + d) == ToDecimal(v) + [DigitChar(d)]
  {
    DivModUnique(v * 10 + d, 10, v, d);
  }

  /** std::from_chars over a whole text into a 64-bit word. */
  function ParseU64(s: string): Option<u64> {
    if s != [] && AllDigits(s) && DecimalValue(s) <= MAX_U64 then Some(DecimalValue(s)) else None
  }

  /** The canonical-numeral readers: like ParseU64, but refusing leading zeros. */
  function ParseCanonicalU64(s: string): Option<u64> {
    if s == [] || (|s| > 1 && s[0] == '0') then None else ParseU64(s)
  }

  lemma ParseToDecimal(n: u64)
    ensures ParseU64(ToDecimal(n)) == Some(n) && ParseCanonicalU64(ToDecimal(n)) == Some(n)
  {
    DecimalRoundTrip(n);
  }

  /** The canonical reader accepts exactly the numerals of the 64-bit words. */
  lemma ParseCanonicalExact(s: string, n: u64)
    ensures ParseCanonicalU64(s) == Some(n) <==> s == ToDecimal(n)
  {
    ParseToDecimal(n);
    if ParseCanonicalU64(s) == Some(n) {
      CanonicalIsDecimal(s);
    }
  }

  // ----- separators

  /** The first position of c in s at or after from, or |s| when there is none. */
  function Find(s: string, c: char, from: nat): (i: nat)
    requires from <= |s|
    ensures from <= i <= |s| && (i < |s| ==> s[i] == c)
    ensures forall j :: from <= j < i ==> s[j] != c
    decreases |s| - from
  {
    if from == |s| || s[from] == c then from else Find(s, c, from + 1)
  }

  lemma FindUnique(s: string, c: char, from: nat, i: nat)
    requires from <= i < |s| && s[i] == c && forall j :: from <= j < i ==> s[j] != c
    ensures Find(s, c, from) == i
  {
  }
}
