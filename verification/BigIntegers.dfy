/** Signed big integers in base 10^9 refine the integers, also when operands alias
    (src/math/big_integer.cpp). */
module BigIntegers {
  import opened NumberTheory
  import opened MachineArithmetic
  import opened Limbs
  import opened Wrappers

  // ----- magnitudes

  /** compare_absolute: the sign of the difference. */
  method CompareAbsolute(left: seq<Limb>, right: seq<Limb>) returns (order: int)
    requires NoTopZero(left) && NoTopZero(right)
    ensures order == if Mag(left) < Mag(right) then -1 else if Mag(left) > Mag(right) then 1 else 0
    ensures order == 0 ==> left == right
  {
    if |left| != |right| {
      if |left| < |right| {
        LongerIsLarger(left, right);
        return -1;
      }
      LongerIsLarger(right, left);
      return 1;
    }
    var index := |left|;
    while index != 0
      invariant 0 <= index <= |left| && left[index..] == right[index..]
    {
      if left[index - 1] != right[index - 1] {
        if left[index - 1] < right[index - 1] {
          HigherLimbDecides(left, right, index - 1);
          return -1;
        }
        HigherLimbDecides(right, left, index - 1);
        return 1;
      }
      index := index - 1;
    }
    assert left == right;
    return 0;
  }

  /** The sum split into the limbs done, the carry and the limbs to come. */
  ghost predicate SumBalanced(l: seq<Limb>, r: seq<Limb>, result: seq<Limb>, carry: int) {
    Mag(l) + Mag(r) == Mag(result) + Scaled(|result|, carry + Mag(From(l, |result|)) + Mag(From(r, |result|)))
  }

  /** A number shifted to a limb position. */
  function Scaled(i: nat, x: int): int {
    Weight(i) * x
  }

  lemma AddStep(l: seq<Limb>, r: seq<Limb>, result: seq<Limb>, carry: nat, v: nat)
    requires SumBalanced(l, r, result, carry) && v == Digit(l, |result|) + Digit(r, |result|) + carry
    ensures SumBalanced(l, r, result + [v % 1_000_000_000], v / 1_000_000_000)
  {
    var index := |result|;
    FromStep(l, index);
    FromStep(r, index);
    CarrySplit(v);
    CarryStep(Weight(index), v % 1_000_000_000, v / 1_000_000_000, Mag(From(l, index + 1)) + Mag(From(r, index + 1)));
    MagAppend(result, v % 1_000_000_000);
  }

  lemma SumStart(l: seq<Limb>, r: seq<Limb>)
    ensures SumBalanced(l, r, [], 0)
  {
    assert From(l, 0) == l && From(r, 0) == r;
  }

  lemma SumEnd(l: seq<Limb>, r: seq<Limb>, result: seq<Limb>, carry: Limb)
    requires SumBalanced(l, r, result, carry) && |result| >= |l| && |result| >= |r|
    ensures carry == 0 ==> Mag(result) == Mag(l) + Mag(r)
    ensures Mag(result + [carry]) == Mag(l) + Mag(r)
  {
    hide Mag, Weight, Scaled;
    NothingBeyond(l, |result|);
    NothingBeyond(r, |result|);
    ScaledZero(|result|);
    AppendScaled(result, carry);
  }

  lemma AppendScaled(s: seq<Limb>, x: Limb)
    ensures Mag(s + [x]) == Mag(s) + Scaled(|s|, x)
  {
    MagAppend(s, x);
  }

  lemma ScaledZero(i: nat)
    ensures Scaled(i, 0) == 0
  {
  }

  lemma NothingBeyond(s: seq<Limb>, i: nat)
    requires i >= |s|
    ensures Mag(From(s, i)) == 0
  {
  }

  /** add_absolute: one pass of carries; no sum leaves 64 bits. */
  method AddAbsolute(left: seq<Limb>, right: seq<Limb>) returns (result: seq<Limb>)
    requires NoTopZero(left) && NoTopZero(right)
    ensures NoTopZero(result) && Mag(result) == Mag(left) + Mag(right)
    ensures left != [] ==> result != []
  {
    hide SumBalanced, Mag;
    var size := if |left| < |right| then |right| else |left|;
    result := [];
    var carry: u64 := 0;
    var index := 0;
    SumStart(left, right);
    while index < size
      invariant 0 <= index <= size && |result| == index && 0 <= carry <= 1
      invariant SumBalanced(left, right, result, carry)
      invariant index == size && carry == 0 && size > 0 ==> result[size - 1] != 0
    {
      var value: u64 := Digit(left, index) + Digit(right, index) + carry;
      AddStep(left, right, result, carry, value);
      result := result + [value % 1_000_000_000];
      carry := value / 1_000_000_000;
      index := index + 1;
    }
    SumEnd(left, right, result, carry);
    if carry != 0 {
      result := result + [carry];
    }
  }

  lemma BorrowStep(w: int, l: int, s: int, borrow: int, ml: int, ms: int, d: int, borrow': int)
    requires d == l - s - borrow + 1_000_000_000 * borrow'
    ensures w * ((l + 1_000_000_000 * ml) - (s + 1_000_000_000 * ms) - borrow)
      == w * d + (1_000_000_000 * w) * (ml - ms - borrow')
  {
    assert (l + 1_000_000_000 * ml) - (s + 1_000_000_000 * ms) - borrow == d + 1_000_000_000 * (ml - ms - borrow');
    assert w * (d + 1_000_000_000 * (ml - ms - borrow')) == w * d + w * (1_000_000_000 * (ml - ms - borrow'));
    Reassociate(w, ml - ms - borrow');
  }

  method Normalize(s: seq<Limb>) returns (r: seq<Limb>)
    ensures NoTopZero(r) && Mag(r) == Mag(s)
  {
    r := s;
    while r != [] && r[|r| - 1] == 0
      invariant Mag(r) == Mag(s)
      decreases |r|
    {
      DropTopZero(r);
      r := r[..|r| - 1];
    }
  }

  /** The difference split into the limbs done, the borrow and the limbs to come. */
  ghost predicate DifferenceBalanced(l: seq<Limb>, s: seq<Limb>, done: seq<Limb>, borrow: int) {
    Mag(l) - Mag(s) == Mag(done) + Weight(|done|) * (Mag(From(l, |done|)) - Mag(From(s, |done|)) - borrow)
  }

  lemma SubtractStep(l: seq<Limb>, s: seq<Limb>, done: seq<Limb>, borrow: int, d: Limb, borrow': int)
    requires DifferenceBalanced(l, s, done, borrow)
    requires d == Digit(l, |done|) - Digit(s, |done|) - borrow + 1_000_000_000 * borrow'
    ensures DifferenceBalanced(l, s, done + [d], borrow')
  {
    var index := |done|;
    FromStep(l, index);
    FromStep(s, index);
    BorrowStep(Weight(index), Digit(l, index), Digit(s, index), borrow, Mag(From(l, index + 1)),
      Mag(From(s, index + 1)), d, borrow');
    MagAppend(done, d);
  }

  lemma DifferenceStart(l: seq<Limb>, s: seq<Limb>)
    ensures DifferenceBalanced(l, s, [], 0)
  {
    assert From(l, 0) == l && From(s, 0) == s;
  }

  /** subtract_absolute: one pass of borrows, then normalization. */
  method SubtractAbsolute(larger: seq<Limb>, smaller: seq<Limb>) returns (result: seq<Limb>)
    requires Mag(larger) >= Mag(smaller) && NoTopZero(larger) && NoTopZero(smaller)
    ensures NoTopZero(result) && Mag(result) == Mag(larger) - Mag(smaller)
  {
    hide DifferenceBalanced, Mag;
    var difference: seq<Limb> := [];
    var borrow := 0;
    var index := 0;
    DifferenceStart(larger, smaller);
    while index < |larger|
      invariant 0 <= index <= |larger| && |difference| == index && 0 <= borrow <= 1
      invariant DifferenceBalanced(larger, smaller, difference, borrow)
    {
      var value := larger[index] - Digit(smaller, index) - borrow;
      var next := 0;
      if value < 0 {
        value := value + 1_000_000_000;
        next := 1;
      }
      SubtractStep(larger, smaller, difference, borrow, value, next);
      difference := difference + [value];
      borrow := next;
      index := index + 1;
    }
    NoBorrowLeft(larger, smaller, difference, borrow);
    result := Normalize(difference);
  }

  lemma NonnegativeLeavesNoBorrow(w: int, m: int, borrow: nat, total: int)
    requires 0 <= m < w && total >= 0 && total == m + w * (0 - borrow)
    ensures borrow == 0
  {
    assert w * (0 - borrow) == -(w * borrow);
    MulMonotone(w, if borrow > 0 then 1 else 0, borrow);
  }

  /** The last borrow is zero, because the difference is not negative. */
  lemma NoBorrowLeft(larger: seq<Limb>, smaller: seq<Limb>, difference: seq<Limb>, borrow: nat)
    requires Mag(larger) >= Mag(smaller) && NoTopZero(larger) && NoTopZero(smaller) && |difference| == |larger|
    requires DifferenceBalanced(larger, smaller, difference, borrow)
    ensures Mag(difference) == Mag(larger) - Mag(smaller)
  {
    hide Mag, Weight;
    if |larger| < |smaller| {
      LongerIsLarger(larger, smaller);
    }
    NothingBeyond(larger, |larger|);
    NothingBeyond(smaller, |larger|);
    MagBelow(difference);
    NonnegativeLeavesNoBorrow(Weight(|larger|), Mag(difference), borrow, Mag(larger) - Mag(smaller));
  }

  // ----- products

  lemma ProductStep(w: int, a: int, x: int, o: int, carry: int, m: int, v: int)
    requires v == a + x * o + carry && v >= 0
    ensures w * (v % 1_000_000_000 - a) + (1_000_000_000 * w) * (v / 1_000_000_000 + x * m)
      == w * (carry + x * (o + 1_000_000_000 * m))
  {
    CarrySplit(v);
    CarryStep(w, v % 1_000_000_000, v / 1_000_000_000, x * m);
    assert x * (o + 1_000_000_000 * m) == x * o + 1_000_000_000 * (x * m);
    assert w * (v % 1_000_000_000 - a) == w * (v % 1_000_000_000) - w * a;
    assert w * (carry + x * (o + 1_000_000_000 * m)) == w * (v + 1_000_000_000 * (x * m)) - w * a by {
      DistributeDifference(w, v + 1_000_000_000 * (x * m), a);
    }
  }

  lemma DistributeDifference(w: int, p: int, a: int)
    ensures w * (p - a) == w * p - w * a
  {
  }

  lemma LimbProduct(x: Limb, o: Limb)
    ensures 0 <= x * o <= 999_999_999 * 999_999_999
  {
    MulMonotone(x, 0, o);
    MulMonotone(x, o, 999_999_999);
    MulMonotone(999_999_999, x, 999_999_999);
  }

  /** One row of the product, with its carries; every intermediate fits in 64 bits. */
  method AddRow(accumulation: seq<Limb>, x: Limb, other: seq<Limb>, left: nat) returns (acc: seq<Limb>)
    requires left + |other| <= |accumulation|
    ensures |acc| >= |accumulation|
    ensures Mag(acc) == Mag(accumulation) + Weight(left) * (x * Mag(other))
  {
    acc := accumulation;
    var carry: u64 := 0;
    var right := 0;
    assert other[0..] == other;
    while right < |other|
      invariant 0 <= right <= |other| && |acc| == |accumulation| && carry < 1_000_000_000
      invariant Mag(acc) + Weight(left + right) * (carry + x * Mag(other[right..])) ==
        Mag(accumulation) + Weight(left) * (x * Mag(other))
    {
      var index := left + right;
      LimbProduct(x, other[right]);
      var product: u64 := x * other[right];
      var value: u64 := acc[index] + product + carry;
      assert other[right..][1..] == other[right + 1..];
      ProductStep(Weight(index), acc[index], x, other[right], carry, Mag(other[right + 1..]), value);
      MagUpdate(acc, index, value % 1_000_000_000);
      CarryBound(value);
      acc := acc[index := value % 1_000_000_000];
      carry := value / 1_000_000_000;
      right := right + 1;
    }
    assert other[right..] == [] && x * Mag(other[right..]) == 0;
    acc := PropagateCarry(acc, left + |other|, carry);
  }

  lemma CarryBound(value: nat)
    requires value <= 999_999_999 * 999_999_999 + 2 * 999_999_999
    ensures value / 1_000_000_000 < 1_000_000_000
  {
  }

  method PropagateCarry(start: seq<Limb>, from: nat, carry0: u64) returns (acc: seq<Limb>)
    requires from <= |start| && carry0 < 1_000_000_000
    ensures |acc| >= |start| && Mag(acc) == Mag(start) + Weight(from) * carry0
  {
    acc := start;
    var carry: u64 := carry0;
    var index := from;
    while carry != 0
      invariant from <= index <= |acc| && |acc| >= |start| && carry < 1_000_000_000
      invariant Mag(acc) + Weight(index) * carry == Mag(start) + Weight(from) * carry0
      decreases if carry == 0 then 0 else |acc| + 1 - index
    {
      if index == |acc| {
        MagAppend(acc, 0);
        acc := acc + [0];
      }
      var value: u64 := acc[index] + carry;
      ProductStep(Weight(index), acc[index], 0, 0, carry, 0, value);
      MagUpdate(acc, index, value % 1_000_000_000);
      acc := acc[index := value % 1_000_000_000];
      carry := value / 1_000_000_000;
      index := index + 1;
    }
  }

  lemma RowSum(l: seq<Limb>, left: nat, m: int)
    requires left < |l|
    ensures Mag(l[..left + 1]) * m == Mag(l[..left]) * m + Weight(left) * (l[left] * m)
  {
    assert l[..left + 1] == l[..left] + [l[left]];
    MagAppend(l[..left], l[left]);
    assert (Mag(l[..left]) + Weight(left) * l[left]) * m == Mag(l[..left]) * m + (Weight(left) * l[left]) * m;
    assert (Weight(left) * l[left]) * m == Weight(left) * (l[left] * m);
  }

  /** The schoolbook product of two magnitudes. */
  method MultiplyAbsolute(left: seq<Limb>, right: seq<Limb>) returns (result: seq<Limb>)
    ensures NoTopZero(result) && Mag(result) == Mag(left) * Mag(right)
  {
    var accumulation: seq<Limb> := seq(|left| + |right|, _ => 0);
    MagZeros(|left| + |right|);
    var index := 0;
    while index < |left|
      invariant 0 <= index <= |left| && |accumulation| >= |left| + |right|
      invariant Mag(accumulation) == Mag(left[..index]) * Mag(right)
    {
      RowSum(left, index, Mag(right));
      accumulation := AddRow(accumulation, left[index], right, index);
      index := index + 1;
    }
    assert left[..index] == left;
    result := Normalize(accumulation);
  }

  // ----- signed integers

  lemma SignedSum(s: int, a: int, t: int, b: int)
    requires (s == 1 || s == -1) && (t == 1 || t == -1)
    ensures s == t ==> s * (a + b) == s * a + t * b
    ensures s != t ==> s * (a - b) == s * a + t * b && t * (b - a) == s * a + t * b
  {
  }

  lemma SignedProduct(s: int, a: int, t: int, b: int)
    ensures (s * t) * (a * b) == (s * a) * (t * b)
  {
    MulShuffle(s, t, a, b);
  }

  class BigInteger {
    var sign: int
    var limbs: seq<Limb>

    /** Limbs below the base, no top zero, and sign 0 exactly for the empty magnitude. */
    ghost predicate Valid()
      reads this
    {
      -1 <= sign <= 1 && NoTopZero(limbs) && (sign == 0 <==> limbs == [])
    }

    ghost function Value(): int
      reads this
    {
      sign * Mag(limbs)
    }

    /** From a signed 64-bit word; the least one has no positive counterpart there. */
    constructor (value: int)
      requires -0x8000_0000_0000_0000 <= value <= 0x7FFF_FFFF_FFFF_FFFF
      ensures Valid() && Value() == value
    {
      var magnitude: u64 := if value < 0 then -value else value;
      var digits: seq<Limb> := [];
      ghost var whole := magnitude;
      while magnitude != 0
        invariant whole == Mag(digits) + Weight(|digits|) * magnitude
        invariant magnitude == 0 ==> NoTopZero(digits) && (digits == [] <==> whole == 0)
        decreases magnitude
      {
        CarrySplit(magnitude);
        MagAppend(digits, magnitude % 1_000_000_000);
        assert Weight(|digits|) * (magnitude % 1_000_000_000 + 1_000_000_000 * (magnitude / 1_000_000_000))
          == Weight(|digits|) * (magnitude % 1_000_000_000) + Weight(|digits| + 1) * (magnitude / 1_000_000_000) by {
          CarryStep(Weight(|digits|), magnitude % 1_000_000_000, magnitude / 1_000_000_000, 0);
        }
        digits := digits + [magnitude % 1_000_000_000];
        magnitude := magnitude / 1_000_000_000;
      }
      sign := if value == 0 then 0 else if value < 0 then -1 else 1;
      limbs := digits;
    }

    constructor Copy(other: BigInteger)
      requires other.Valid()
      ensures Valid() && Value() == other.Value() && sign == other.sign && limbs == other.limbs
    {
      sign, limbs := other.sign, other.limbs;
    }

    /** Unary minus. */
    method Negated() returns (result: BigInteger)
      requires Valid()
      ensures fresh(result) && result.Valid() && result.Value() == -Value()
    {
      result := new BigInteger.Copy(this);
      result.sign := -result.sign;
      assert (-sign) * Mag(limbs) == -(sign * Mag(limbs));
    }

    /** operator+=, also when the operand is this object. */
    method Add(other: BigInteger)
      requires Valid() && other.Valid()
      modifies this
      ensures Valid() && Value() == old(Value()) + old(other.Value())
    {
      if other.sign == 0 {
        return;
      }
      if sign == 0 {
        sign, limbs := other.sign, other.limbs;
        return;
      }
      SignedSum(sign, Mag(limbs), other.sign, Mag(other.limbs));
      if sign == other.sign {
        limbs := AddAbsolute(limbs, other.limbs);
        return;
      }
      var comparison := CompareAbsolute(limbs, other.limbs);
      if comparison == 0 {
        sign, limbs := 0, [];
      } else if comparison > 0 {
        limbs := SubtractAbsolute(limbs, other.limbs);
        assert limbs != [];
      } else {
        var difference := SubtractAbsolute(other.limbs, limbs);
        assert difference != [];
        sign, limbs := other.sign, difference;
      }
    }

    /** operator-=: the negated copy makes aliasing harmless. */
    method Subtract(other: BigInteger)
      requires Valid() && other.Valid()
      modifies this
      ensures Valid() && Value() == old(Value()) - old(other.Value())
    {
      var negated := other.Negated();
      Add(negated);
    }

    /** operator*=, also when the operand is this object. */
    method Multiply(other: BigInteger)
      requires Valid() && other.Valid()
      modifies this
      ensures Valid() && Value() == old(Value()) * old(other.Value())
    {
      if sign == 0 || other.sign == 0 {
        assert sign * Mag(limbs) == 0 || other.sign * Mag(other.limbs) == 0;
        sign, limbs := 0, [];
        return;
      }
      SignedProduct(sign, Mag(limbs), other.sign, Mag(other.limbs));
      MagPositive(limbs);
      MagPositive(other.limbs);
      MulMonotone(Mag(limbs), 1, Mag(other.limbs));
      var product := MultiplyAbsolute(limbs, other.limbs);
      limbs := product;
      sign := sign * other.sign;
    }

    /** operator<=>: the sign of the difference. */
    method Compare(other: BigInteger) returns (order: int)
      requires Valid() && other.Valid()
      ensures order == if Value() < other.Value() then -1 else if Value() > other.Value() then 1 else 0
    {
      if limbs != [] {
        MagPositive(limbs);
      }
      if other.limbs != [] {
        MagPositive(other.limbs);
      }
      if sign != other.sign {
        return if sign < other.sign then -1 else 1;
      }
      if sign == 0 {
        return 0;
      }
      var comparison := CompareAbsolute(limbs, other.limbs);
      return if comparison == 0 then 0 else if sign > 0 then comparison else -comparison;
    }

    /** modulo: the residue in [0, modulus) of the signed value. */
    method Modulo(modulus: u64) returns (r: Result<u64, Exception>)
      requires Valid()
      ensures modulus == 0 ==> r == Err(InvalidArgument)
      ensures modulus > 0 ==> r == Ok(Value() % modulus)
    {
      if modulus == 0 {
        return Err(InvalidArgument);
      }
      var remainder: u64 := 0;
      var index := |limbs|;
      DivModUnique(0, modulus, 0, 0);
      while index != 0
        invariant 0 <= index <= |limbs| && remainder == Mag(limbs[index..]) % modulus
      {
        HornerStep(limbs, index - 1, modulus);
        var scaled := MultiplyMod(remainder, LIMB_BASE, modulus);
        remainder := AddMod(scaled, limbs[index - 1] % modulus, modulus);
        index := index - 1;
      }
      assert limbs[0..] == limbs;
      ModSelf(Mag(limbs), modulus);
      NegatedResidue(Mag(limbs), modulus);
      if sign < 0 && remainder != 0 {
        remainder := modulus - remainder;
      }
      assert sign == 1 || sign == -1 || Mag(limbs) == 0;
      return Ok(remainder);
    }

    /** to_uint64_absolute: the magnitude, when it fits in a word. */
    method ToUint64Absolute() returns (r: Option<u64>)
      requires Valid()
      ensures r == if Mag(limbs) <= MAX_U64 then Some(Mag(limbs)) else None
    {
      var value: u64 := 0;
      var index := |limbs|;
      while index != 0
        invariant 0 <= index <= |limbs| && value == Mag(limbs[index..])
      {
        assert limbs[index - 1..][1..] == limbs[index..];
        SuffixBelow(limbs, index - 1);
        if value > (MAX_U64 - limbs[index - 1]) / LIMB_BASE {
          return None;
        }
        value := value * LIMB_BASE + limbs[index - 1];
        index := index - 1;
      }
      assert limbs[0..] == limbs;
      return Some(value);
    }
  }

  lemma MagPositive(s: seq<Limb>)
    requires s != [] && NoTopZero(s)
    ensures Mag(s) > 0
  {
    MagAtLeast(s);
  }

  lemma HornerStep(s: seq<Limb>, i: nat, m: u64)
    requires i < |s| && m > 0
    ensures Mag(s[i..]) % m == (((Mag(s[i + 1..]) % m) * LIMB_BASE) % m + s[i] % m) % m
  {
    assert s[i..][1..] == s[i + 1..];
    ModMul(Mag(s[i + 1..]), LIMB_BASE, m);
    ModAdd(Mag(s[i + 1..]) * LIMB_BASE, s[i], m);
  }

  lemma NegatedResidue(x: int, m: int)
    requires m > 0 && x >= 0
    ensures (-x) % m == if x % m == 0 then 0 else m - x % m
  {
    assert x == m * (x / m) + x % m;
    if x % m == 0 {
      DivModUnique(-x, m, -(x / m), 0);
    } else {
      assert (-(x / m) - 1) * m == -(m * (x / m)) - m;
      DivModUnique(-x, m, -(x / m) - 1, m - x % m);
    }
  }

  lemma SuffixBelow(s: seq<Limb>, i: nat)
    requires i < |s|
    ensures Mag(s[i..]) <= Mag(s)
  {
    MagSplit(s, i);
    MulMonotone(Mag(s[i..]), 1, Weight(i));
    assert Mag(s[i..]) * Weight(i) == Weight(i) * Mag(s[i..]);
  }

  /** power: squaring in place, where both operands are the same object. */
  method Power(base: BigInteger, exponent0: u64) returns (result: BigInteger)
    requires base.Valid()
    ensures fresh(result) && result.Valid() && result.Value() == Pow(base.Value(), exponent0)
  {
    result := new BigInteger(1);
    var square := new BigInteger.Copy(base);
    var exponent: u64 := exponent0;
    while exponent != 0
      invariant fresh(result) && fresh(square) && result != square && result.Valid() && square.Valid()
      invariant result.Value() * Pow(square.Value(), exponent) == Pow(base.Value(), exponent0)
      decreases exponent
    {
      ghost var r, x := result.Value(), square.Value();
      PowHalve(x, exponent);
      ProductRegroup(r, if exponent % 2 == 1 then x else 1, Pow(x * x, exponent / 2));
      if exponent % 2 != 0 {
        result.Multiply(square);
      }
      exponent := exponent / 2;
      if exponent != 0 {
        square.Multiply(square);
      } else {
        assert Pow(x * x, exponent) == 1 && Pow(square.Value(), exponent) == 1;
      }
    }
    assert result.Value() * Pow(square.Value(), 0) == result.Value();
  }

  lemma ProductRegroup(r: int, b: int, p: int)
    ensures r * (b * p) == (r * b) * p
  {
  }

  /** The memberwise comparison of two valid integers compares the numbers. */
  lemma EqualByValue(a: BigInteger, b: BigInteger)
    requires a.Valid() && b.Valid()
    ensures a.sign == b.sign && a.limbs == b.limbs <==> a.Value() == b.Value()
  {
    if a.Value() == b.Value() {
      PositiveMagnitude(a.limbs);
      PositiveMagnitude(b.limbs);
      NormalizedUnique(a.limbs, b.limbs);
    }
  }

  lemma PositiveMagnitude(s: seq<Limb>)
    requires NoTopZero(s)
    ensures s != [] <==> Mag(s) > 0
  {
    if s != [] {
      LongerIsLarger([], s);
    }
  }
}
