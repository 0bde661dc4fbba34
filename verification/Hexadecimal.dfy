/** Hexadecimal digits and the digest texts made of them. */
module Hexadecimal {

  predicate IsHex(c: char) {
    '0' <= c <= '9' || 'a' <= c <= 'f'
  }

  function HexDigit(v: int): (c: char)
    requires 0 <= v < 16
    ensures IsHex(c) && Nibble(c) == v
  {
    if v < 10 then '0' + v as char else 'a' + (v - 10) as char
  }

  function Nibble(c: char): (v: int)
    requires IsHex(c)
    ensures 0 <= v < 16
  {
    if c <= '9' then (c - '0') as int else (c - 'a') as int + 10
  }

  lemma DigitOfNibble(c: char)
    requires IsHex(c)
    ensures HexDigit(Nibble(c)) == c
  {
  }

  /** The lowercase text of a SHA-256 digest. */
  predicate CanonicalDigest(s: string) {
    |s| == 64 && forall i :: 0 <= i < |s| ==> IsHex(s[i])
  }

  ghost predicate Hashes(sha256: string -> string) {
    forall s: string {:trigger sha256(s)} :: CanonicalDigest(sha256(s))
  }
}
