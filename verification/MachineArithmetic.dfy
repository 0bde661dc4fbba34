/** Unsigned 64-bit arithmetic: the widening product, modular multiplication by
    doubling, and modular powers by repeated squaring (src/math/mul128.cpp). */
module MachineArithmetic {
  import opened NumberTheory
  import opened Wrappers

  const TWO_TO_32: int := 0x1_0000_0000
  const TWO_TO_64: int := 0x1_0000_0000_0000_0000
  const MAX_U64: int := 0xFFFF_FFFF_FFFF_FFFF

  type u32 = x: int | 0 <= x < 0x1_0000_0000
  type u64 = x: int | 0 <= x < 0x1_0000_0000_0000_0000

  // ----- widening multiplication

  datatype UInt128Product = UInt128Product(low: u64, high: u64)

  lemma HalfWordsProduct(a1: int, a0: int, b1: int, b0: int, w: int)
    ensures (a1 * w + a0) * (b1 * w + b0) == (a1 * b1) * (w * w) + (a1 * b0 + a0 * b1) * w + a0 * b0
  {
    assert (a1 * w + a0) * (b1 * w + b0) == (a1 * w) * (b1 * w) + (a1 * w) * b0 + a0 * (b1 * w) + a0 * b0;
    assert (a1 * w) * (b1 * w) == (a1 * b1) * (w * w);
    assert (a1 * w) * b0 == (a1 * b0) * w;
    assert a0 * (b1 * w) == (a0 * b1) * w;
  }

  lemma HalfWordBound(x: int, y: int)
    requires 0 <= x < TWO_TO_32 && 0 <= y < TWO_TO_32
    ensures 0 <= x * y <= (TWO_TO_32 - 1) * (TWO_TO_32 - 1)
  {
    MulMonotone(x, 0, y);
    MulMonotone(x, y, TWO_TO_32 - 1);
    MulMonotone(TWO_TO_32 - 1, x, TWO_TO_32 - 1);
  }

  /** The schoolbook product of two 64-bit words never overflows a word and is exact. */
  method MultiplyFullPortable(left: u64, right: u64) returns (product: UInt128Product)
    ensures product.high * TWO_TO_64 + product.low == left * right
  {
    var leftLow: u64, leftHigh: u64 := left % TWO_TO_32, left / TWO_TO_32;
    var rightLow: u64, rightHigh: u64 := right % TWO_TO_32, right / TWO_TO_32;
    HalfWordBound(leftLow, rightLow);
    HalfWordBound(leftHigh, rightLow);
    HalfWordBound(leftLow, rightHigh);
    HalfWordBound(leftHigh, rightHigh);
    var productLow: u64 := leftLow * rightLow;
    var middleA: u64 := leftHigh * rightLow;
    var middleB: u64 := leftLow * rightHigh;
    var productHigh: u64 := leftHigh * rightHigh;
    var carry: u64 := productLow / TWO_TO_32 + middleA % TWO_TO_32 + middleB % TWO_TO_32;
    // the two halves of the low word have no common bit, so joining them is addition
    var low: u64 := productLow % TWO_TO_32 + (carry % TWO_TO_32) * TWO_TO_32;
    ghost var sum := productHigh + middleA / TWO_TO_32 + middleB / TWO_TO_32 + carry / TWO_TO_32;
    HalfWordsProduct(leftHigh, leftLow, rightHigh, rightLow, TWO_TO_32);
    assert left * right == (leftHigh * TWO_TO_32 + leftLow) * (rightHigh * TWO_TO_32 + rightLow);
    assert left * right == productHigh * TWO_TO_64 + (middleA + middleB) * TWO_TO_32 + productLow;
    assert left * right == sum * TWO_TO_64 + low;
    assert sum < TWO_TO_64 by {
      MulMonotone(left, right, MAX_U64);
      MulMonotone(MAX_U64, left, MAX_U64);
    }
    product := UInt128Product(low, productHigh + middleA / TWO_TO_32 + middleB / TWO_TO_32 + carry / TWO_TO_32);
  }

  // ----- addition and multiplication modulo a word

  /** Modular addition that never leaves the 64-bit range. */
  function AddMod(left: u64, right: u64, modulus: u64): (r: u64)
    requires left < modulus && right < modulus
    ensures r == (left + right) % modulus
  {
    var room := modulus - right;
    if left >= room then
      DivModUnique(left + right, modulus, 1, left - room);
      left - room
    else
      DivModUnique(left + right, modulus, 0, left + right);
      left + right
  }

  function SubtractMod(left: u64, right: u64, modulus: u64): (r: u64)
    requires left < modulus && right < modulus
    ensures r == (left - right) % modulus
  {
    if left >= right then
      DivModUnique(left - right, modulus, 0, left - right);
      left - right
    else
      DivModUnique(left - right, modulus, -1, modulus - (right - left));
      modulus - (right - left)
  }

  function MultiplyMod(left: int, right: int, modulus: int): (r: int)
    requires modulus > 0
    ensures 0 <= r < modulus && Cong(r, left * right, modulus)
  {
    ModSelf(left * right, modulus);
    (left * right) % modulus
  }

  /** One doubling step keeps result + left * right modulo the modulus. */
  lemma DoubleStep(x: int, left: int, right: int, result: int, modulus: int)
    requires modulus > 0 && right > 0 && Cong(result + left * right, x, modulus)
    ensures var r := if right % 2 == 1 then (result + left) % modulus else result;
      Cong(r + ((left + left) % modulus) * (right / 2), x, modulus) && (right == 1 ==> Cong(r, x, modulus))
  {
    var b, h := right % 2, right / 2;
    assert right == 2 * h + b;
    assert left * right == (left + left) * h + b * left;
    var r := if b == 1 then result + left else result;
    var r' := if b == 1 then r % modulus else r;
    ModSelf(left + left, modulus);
    ModSelf(r, modulus);
    CongMul((left + left) % modulus, left + left, h, h, modulus);
    CongAdd(r', r, ((left + left) % modulus) * h, (left + left) * h, modulus);
  }

  /** Double-and-add multiplication computes the product modulo any nonzero word. */
  method MultiplyModPortable(left0: u64, right0: u64, modulus: u64) returns (r: Result<u64, Exception>)
    ensures modulus == 0 ==> r == Err(InvalidArgument)
    ensures modulus != 0 ==> r == Ok((left0 * right0) % modulus)
  {
    if modulus == 0 {
      return Err(InvalidArgument);
    }
    var result := DoubleAndAdd(left0 % modulus, right0 % modulus, modulus);
    ModMul(left0, right0, modulus);
    return Ok(result);
  }

  method DoubleAndAdd(left0: u64, right0: u64, modulus: u64) returns (result: u64)
    requires left0 < modulus && right0 < modulus
    ensures result == (left0 * right0) % modulus
  {
    var left: u64, right: u64 := left0, right0;
    result := 0;
    ghost var x := left * right;
    while right != 0
      invariant left < modulus && result < modulus
      invariant right == 0 ==> Cong(result, x, modulus)
      invariant right != 0 ==> Cong(result + left * right, x, modulus)
      decreases right
    {
      DoubleStep(x, left, right, result, modulus);
      if right % 2 != 0 {
        result := AddMod(result, left, modulus);
      }
      right := right / 2;
      if right != 0 {
        left := AddMod(left, left, modulus);
      }
    }
    ModSelf(result, modulus);
  }

  // ----- powers by repeated squaring

  lemma {:induction false} PowHalve(b: int, e: nat)
    ensures Pow(b, e) == (if e % 2 == 1 then b else 1) * Pow(b * b, e / 2)
  {
    var h := e / 2;
    PowMul(b, 2, h);
    assert Pow(b, 2) == b * Pow(b, 1) && Pow(b, 1) == b * Pow(b, 0);
    if e % 2 == 1 {
      assert Pow(b, e) == b * Pow(b, 2 * h);
    }
  }

  /** One squaring step keeps result * base^exponent modulo the modulus. */
  lemma SquareStep(x: int, result: int, base: int, e: nat, m: int)
    requires m > 0 && e > 0 && Cong(result * Pow(base, e), x, m)
    ensures var r := if e % 2 == 1 then (result * base) % m else result;
      Cong(r * Pow((base * base) % m, e / 2), x, m) && (e == 1 ==> Cong(r, x, m))
  {
    var h := e / 2;
    PowHalve(base, e);
    var r := if e % 2 == 1 then result * base else result;
    var r' := if e % 2 == 1 then r % m else r;
    var s := (base * base) % m;
    MulShuffle(result, 1, if e % 2 == 1 then base else 1, Pow(base * base, h));
    assert result * Pow(base, e) == r * Pow(base * base, h);
    ModSelf(r, m);
    ModSelf(base * base, m);
    PowCong(s, base * base, h, m);
    CongMul(r', r, Pow(s, h), Pow(base * base, h), m);
    if e == 1 {
      assert r * Pow(base * base, h) == r;
    }
  }

  /** The loop shared by the modular powers of the repository; each starts from
      its own one and reduces the base, or not, before the loop. */
  method PowerLoop(start: u64, base0: u64, exponent0: u64, modulus: u64) returns (result: u64)
    requires modulus > 0
    ensures exponent0 == 0 ==> result == start
    ensures exponent0 > 0 ==> result == (start * Pow(base0, exponent0)) % modulus
  {
    result := start;
    var base: u64, exponent: u64 := base0, exponent0;
    ghost var x := start * Pow(base0, exponent0);
    while exponent != 0
      invariant Cong(result * Pow(base, exponent), x, modulus)
      invariant exponent0 == 0 ==> exponent == 0 && result == start
      invariant exponent == 0 ==> exponent0 == 0 || result < modulus
      decreases exponent
    {
      SquareStep(x, result, base, exponent, modulus);
      if exponent % 2 != 0 {
        result := MultiplyMod(result, base, modulus);
      }
      exponent := exponent / 2;
      if exponent != 0 {
        base := MultiplyMod(base, base, modulus);
      } else {
        assert result * Pow((base * base) % modulus, exponent) == result;
      }
    }
    if exponent0 != 0 {
      ModSelf(result, modulus);
    }
  }

  /** power_modulo of the congruence compiler: a reduced base and 1 mod m. */
  method PowerModulo(base: u64, exponent: u64, modulus: u64) returns (result: u64)
    requires modulus > 0
    ensures result == Pow(base, exponent) % modulus
  {
    result := PowerLoop(1 % modulus, base, exponent, modulus);
    if exponent != 0 {
      ModMul(1, Pow(base, exponent), modulus);
    }
  }

  /** power_mod of the Proth and sieve units: the base is reduced first. */
  method PowerMod(base: u64, exponent: u64, modulus: u64) returns (result: u64)
    requires modulus > 1
    ensures result == Pow(base, exponent) % modulus
  {
    result := PowerLoop(1, base % modulus, exponent, modulus);
    PowMod(base, exponent, modulus);
    ModSelf(1, modulus);
  }
}
