/** Magnitudes as little-endian limbs in base 10^9: what appending, updating,
    splitting and comparing limbs means for the number (src/math/big_integer.cpp). */
module Limbs {
  import opened NumberTheory
  import opened MachineArithmetic

  const LIMB_BASE: int := 1_000_000_000

  type Limb = x: int | 0 <= x < 1_000_000_000

  function Mag(s: seq<Limb>): (m: nat)
  {
    if s == [] then 0 else s[0] + 1_000_000_000 * Mag(s[1..])
  }

  /** The weight of a limb position. */
  function Weight(i: nat): (w: int)
    ensures w > 0
  {
    if i == 0 then 1 else 1_000_000_000 * Weight(i - 1)
  }

  /** The limbs from a position on; empty beyond the end. */
  function From(s: seq<Limb>, i: nat): seq<Limb> {
    if i <= |s| then s[i..] else []
  }

  function Digit(s: seq<Limb>, i: nat): Limb {
    if i < |s| then s[i] else 0
  }

  lemma FromStep(s: seq<Limb>, i: nat)
    ensures Mag(From(s, i)) == Digit(s, i) + 1_000_000_000 * Mag(From(s, i + 1))
  {
    if i < |s| {
      assert s[i..][1..] == s[i + 1..];
    }
  }

  lemma {:induction false} MagAppend(s: seq<Limb>, x: Limb)
    ensures Mag(s + [x]) == Mag(s) + Weight(|s|) * x
  {
    if s == [] {
      assert s + [x] == [x] && [x][1..] == [];
    } else {
      MagAppend(s[1..], x);
      assert (s + [x])[1..] == s[1..] + [x];
      ScaleSum(Mag(s[1..]), Weight(|s| - 1), x);
    }
  }

  lemma ScaleSum(m: int, w: int, x: int)
    ensures 1_000_000_000 * (m + w * x) == 1_000_000_000 * m + (1_000_000_000 * w) * x
  {
  }

  lemma {:induction false} MagUpdate(s: seq<Limb>, i: nat, x: Limb)
    requires i < |s|
    ensures Mag(s[i := x]) == Mag(s) + Weight(i) * (x - s[i])
  {
    if i == 0 {
      assert s[i := x][1..] == s[1..];
    } else {
      MagUpdate(s[1..], i - 1, x);
      assert s[i := x][1..] == s[1..][i - 1 := x];
      ScaleSum(Mag(s[1..]), Weight(i - 1), x - s[i]);
    }
  }

  lemma {:induction false} MagSplit(s: seq<Limb>, i: nat)
    requires i <= |s|
    ensures Mag(s) == Mag(s[..i]) + Weight(i) * Mag(s[i..])
  {
    if i > 0 {
      MagSplit(s[1..], i - 1);
      assert s[..i][1..] == s[1..][..i - 1] && s[1..][i - 1..] == s[i..];
      ScaleSum(Mag(s[1..][..i - 1]), Weight(i - 1), Mag(s[i..]));
    }
  }

  lemma {:induction false} MagBelow(s: seq<Limb>)
    ensures Mag(s) < Weight(|s|)
  {
    if s != [] {
      MagBelow(s[1..]);
    }
  }

  lemma {:induction false} MagZeros(n: nat)
    ensures Mag(seq(n, _ => 0)) == 0
  {
    if n > 0 {
      assert seq(n, _ => 0)[1..] == seq(n - 1, _ => 0);
      MagZeros(n - 1);
    }
  }

  /** A top limb that is zero adds nothing. */
  lemma DropTopZero(s: seq<Limb>)
    requires s != [] && s[|s| - 1] == 0
    ensures Mag(s[..|s| - 1]) == Mag(s)
  {
    assert s == s[..|s| - 1] + [s[|s| - 1]];
    MagAppend(s[..|s| - 1], 0);
  }

  /** Without a top zero the length is determined by the number. */
  lemma MagAtLeast(s: seq<Limb>)
    requires s != [] && s[|s| - 1] != 0
    ensures Mag(s) >= Weight(|s| - 1)
  {
    assert s == s[..|s| - 1] + [s[|s| - 1]];
    MagAppend(s[..|s| - 1], s[|s| - 1]);
    MulMonotone(Weight(|s| - 1), 1, s[|s| - 1]);
  }

  lemma {:induction false} WeightMonotone(i: nat, j: nat)
    requires i <= j
    ensures Weight(i) <= Weight(j)
  {
    if i < j {
      WeightMonotone(i, j - 1);
    }
  }

  predicate NoTopZero(s: seq<Limb>) {
    s != [] ==> s[|s| - 1] != 0
  }

  /** The longer of two normalized magnitudes is the larger. */
  lemma LongerIsLarger(a: seq<Limb>, b: seq<Limb>)
    requires NoTopZero(b) && |a| < |b|
    ensures Mag(a) < Mag(b)
  {
    MagBelow(a);
    MagAtLeast(b);
    WeightMonotone(|a|, |b| - 1);
  }

  /** The highest differing limb decides. */
  lemma HigherLimbDecides(a: seq<Limb>, b: seq<Limb>, i: nat)
    requires i < |a| == |b| && a[i + 1..] == b[i + 1..] && a[i] < b[i]
    ensures Mag(a) < Mag(b)
  {
    MagSplit(a, i);
    MagSplit(b, i);
    MagBelow(a[..i]);
    assert a[i..][1..] == a[i + 1..] && b[i..][1..] == b[i + 1..];
    assert Mag(b[i..]) >= Mag(a[i..]) + 1;
    MulMonotone(Weight(i), Mag(a[i..]) + 1, Mag(b[i..]));
    Distribute(Weight(i), Mag(a[i..]));
  }

  lemma Distribute(w: int, m: int)
    ensures w * (m + 1) == w * m + w
  {
  }

  lemma {:induction false} DigitsUnique(a: seq<Limb>, b: seq<Limb>)
    requires |a| == |b| && Mag(a) == Mag(b)
    ensures a == b
  {
    if a != [] {
      QuotientUnique(1_000_000_000, Mag(a[1..]), a[0], Mag(b[1..]), b[0]);
      DigitsUnique(a[1..], b[1..]);
      assert a == [a[0]] + a[1..] && b == [b[0]] + b[1..];
    }
  }

  /** A number has one sequence of limbs without a top zero. */
  lemma NormalizedUnique(a: seq<Limb>, b: seq<Limb>)
    requires NoTopZero(a) && NoTopZero(b) && Mag(a) == Mag(b)
    ensures a == b
  {
    assert |a| == |b| by {
      if |a| < |b| {
        LongerIsLarger(a, b);
      } else if |b| < |a| {
        LongerIsLarger(b, a);
      }
    }
    DigitsUnique(a, b);
  }

  // ----- the steps of the carry loops

  /** Dividing a limb sum into the stored limb and the carry. */
  lemma CarrySplit(v: nat)
    ensures v == v % 1_000_000_000 + 1_000_000_000 * (v / 1_000_000_000)
    ensures 0 <= v % 1_000_000_000 < 1_000_000_000 && 0 <= v / 1_000_000_000
  {
  }

  /** w * (c + x) with x = a + B*m and c + a = r + B*q moves w*r out and leaves the next weight. */
  lemma CarryStep(w: int, r: int, q: int, m: int)
    ensures w * (r + 1_000_000_000 * q + 1_000_000_000 * m) == w * r + (1_000_000_000 * w) * (q + m)
  {
    assert w * (r + 1_000_000_000 * (q + m)) == w * r + w * (1_000_000_000 * (q + m));
    Reassociate(w, q + m);
  }

  lemma Reassociate(w: int, t: int)
    ensures w * (1_000_000_000 * t) == (1_000_000_000 * w) * t
  {
  }
}
