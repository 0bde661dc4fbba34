/** The size estimate of family expressions is an upper bound: below saturation the
    exact value has fewer bits (src/family/family.cpp). */
module FamilySize {
  import opened NumberTheory
  import opened MachineArithmetic
  import opened Progressions
  import opened Decimal
  import opened BigDecimal
  import opened Eliminations
  import opened FamilyExpressions
  import opened Wrappers

  // ----- saturating arithmetic

  function SaturatingAdd(left: nat, right: nat): (r: u64)
    ensures r == if left + right > MAX_U64 then MAX_U64 else left + right
  {
    if left > MAX_U64 - right then MAX_U64 else left + right
  }

  function SaturatingMultiply(left: nat, right: nat): (r: u64)
    ensures r < MAX_U64 ==> r == left * right
  {
    MulMonotone(left, 0, right);
    if right != 0 && left > MAX_U64 / right then MAX_U64
    else
      ProductWithin(left, right);
      left * right
  }

  lemma ProductWithin(left: nat, right: nat)
    requires right == 0 || left <= MAX_U64 / right
    ensures 0 <= left * right <= MAX_U64
  {
    if right > 0 {
      QuotientBounds(MAX_U64, right);
      MulMonotone(right, left, MAX_U64 / right);
      MulMonotone(right, 0, left);
      assert right * (MAX_U64 / right) == (MAX_U64 / right) * right && right * left == left * right;
    }
  }

  // ----- bit widths

  lemma {:induction false} BitWidthBound(x: nat)
    ensures x < Pow(2, BitWidth(x))
  {
    if x > 0 {
      BitWidthBound(x / 2);
    }
  }

  /** integer_bit_count */
  function IntegerBitCount(value: nat): nat {
    if value == 0 then 1 else BitWidth(value)
  }

  lemma BitCountBound(value: nat, bound: nat)
    requires value <= bound
    ensures value < Pow(2, IntegerBitCount(bound)) && IntegerBitCount(bound) >= 1
  {
    BitWidthBound(bound);
    assert Pow(2, 1) == 2 * Pow(2, 0);
  }

  // ----- products and powers of two

  lemma PowersMultiply(a: nat, b: nat, x: nat, y: nat)
    requires x < Pow(2, a) && y < Pow(2, b)
    ensures 0 <= x * y < Pow(2, a + b)
  {
    PowAdd(2, a, b);
    MulMonotone(x, 0, y);
    MulMonotone(x, y, Pow(2, b));
    MulMonotone(Pow(2, b), x + 1, Pow(2, a));
    PowPositive(2, b);
    assert Pow(2, b) * (x + 1) == x * Pow(2, b) + Pow(2, b) && Pow(2, b) * Pow(2, a) == Pow(2, a) * Pow(2, b);
  }

  lemma {:induction false} PowBaseMonotone(x: nat, y: nat, e: nat)
    requires x <= y
    ensures 0 <= Pow(x, e) <= Pow(y, e)
  {
    if e > 0 {
      PowBaseMonotone(x, y, e - 1);
      MulMonotone(x, Pow(x, e - 1), Pow(y, e - 1));
      MulMonotone(Pow(y, e - 1), x, y);
      MulMonotone(x, 0, Pow(x, e - 1));
      assert Pow(y, e - 1) * x == x * Pow(y, e - 1) && Pow(y, e - 1) * y == y * Pow(y, e - 1);
    }
  }

  lemma DoubledExponent(b: int, e: nat)
    ensures Pow(b, 2 * e) == Pow(b, e) * Pow(b, e)
  {
    PowAdd(b, e, e);
  }

  lemma FiveToTheFifth()
    ensures Pow(5, 5) == 3125
  {
    assert Pow(5, 2) == 5 * (5 * Pow(5, 0));
    PowAdd(5, 2, 2);
    PowAdd(5, 4, 1);
  }

  lemma FiveTo10()
    ensures Pow(5, 10) == 9765625
  {
    FiveToTheFifth();
    DoubledExponent(5, 5);
  }

  lemma FiveTo20()
    ensures Pow(5, 20) == 95367431640625
  {
    FiveTo10();
    DoubledExponent(5, 10);
  }

  lemma FiveTo40()
    ensures Pow(5, 40) == 9094947017729282379150390625
  {
    FiveTo20();
    DoubledExponent(5, 20);
  }

  lemma FiveTo80()
    ensures Pow(5, 80) == 82718061255302767487140869206996285356581211090087890625
  {
    FiveTo40();
    DoubledExponent(5, 40);
  }

  lemma FiveTo160()
    ensures Pow(5, 160) ==
      6842277657836020854119773355907793609766904013068924666782559979930620520927053718196475529111921787261962890625
  {
    FiveTo80();
    DoubledExponent(5, 80);
  }

  lemma FiveTo205()
    ensures Pow(5, 205) == 194469227433160678348252001680628882518445380272536472909409894212178088563605732536998275722678550529905205923597577566397376358509063720703125
  {
    FiveToTheFifth();
    FiveTo40();
    FiveTo160();
    PowAdd(5, 160, 40);
    PowAdd(5, 200, 5);
  }

  lemma TwoTo17()
    ensures Pow(2, 17) == 131072
  {
    assert Pow(2, 4) == 2 * (2 * (2 * (2 * Pow(2, 0))));
    DoubledExponent(2, 4);
    DoubledExponent(2, 8);
    PowAdd(2, 16, 1);
  }

  lemma TwoTo119()
    ensures Pow(2, 119) == 664613997892457936451903530140172288
  {
    TwoTo17();
    DoubledExponent(2, 17);
    DoubledExponent(2, 34);
    PowAdd(2, 68, 34);
    PowAdd(2, 102, 17);
  }

  lemma TwoTo476()
    ensures Pow(2, 476) == 195109284394749514461349826862072894109287383916560696928697309976585733676235351257519131441468248197489183195087913930965498479955517831643136
  {
    TwoTo119();
    DoubledExponent(2, 119);
    DoubledExponent(2, 238);
  }

  /** 10^205 <= 2^681, the sharpest such fact the factor 3.322 bits per digit rests on. */
  lemma TenTo205()
    ensures 0 < Pow(10, 205) <= Pow(2, 681)
  {
    FiveTo205();
    TwoTo476();
    PowBaseMul(2, 5, 205);
    PowAdd(2, 205, 476);
    PowPositive(2, 205);
    PowPositive(10, 205);
    MulMonotone(Pow(2, 205), Pow(5, 205), Pow(2, 476));
  }

  lemma {:induction false} PowIncreases(b: int, e: nat, f: nat)
    requires b >= 2 && e < f
    ensures Pow(b, e) < Pow(b, f)
  {
    PowPositive(b, f - 1);
    PowMonotone(b, e, f - 1);
    MulMonotone(Pow(b, f - 1), 2, b);
    assert Pow(b, f - 1) * 2 == 2 * Pow(b, f - 1) && b * Pow(b, f - 1) == Pow(b, f - 1) * b;
  }

  function DigitBits(digits: nat): nat {
    digits * 3322 / 1000 + 1
  }

  /** A number of d digits has at most d * 3322 / 1000 + 1 bits. */
  lemma DigitsToBits(d: nat)
    requires d > 0
    ensures Pow(10, d) < Pow(2, DigitBits(d))
  {
    var k := DigitBits(d);
    TenTo205();
    PowMul(10, 205, d);
    PowMul(10, d, 205);
    PowMul(2, 681, d);
    PowMul(2, k, 205);
    assert 205 * d == d * 205;
    PowBaseMonotone(Pow(10, 205), Pow(2, 681), d);
    PowIncreases(2, 681 * d, k * 205);
    if Pow(10, d) >= Pow(2, k) {
      PowPositive(2, k);
      PowBaseMonotone(Pow(2, k), Pow(10, d), 205);
    }
  }

  // ----- the estimate

  /** What the estimate needs of a validated expression. */
  ghost predicate Sized(e: Expression, parameters: Parameters) {
    match e
    case Constant(_) => true
    case Param(name) => name in parameters
    case Negate(x) => Sized(x, parameters)
    case Add(l, r) => Sized(l, parameters) && Sized(r, parameters)
    case Subtract(l, r) => Sized(l, parameters) && Sized(r, parameters)
    case Multiply(l, r) => Sized(l, parameters) && Sized(r, parameters)
    case Power(b, x) => b.Constant? && ControlledExponent(x, parameters)
  }

  ghost predicate ControlledExponent(x: Expression, parameters: Parameters) {
    match x
    case Constant(v) => 0 <= v <= MAX_U64
    case Param(name) => name in parameters && 0 <= parameters[name].minimum <= parameters[name].maximum
    case _ => false
  }

  /** exponent_upper */
  function ExponentUpper(x: Expression, parameters: Parameters): (u: u64)
    requires ControlledExponent(x, parameters)
  {
    match x
    case Constant(v) => v
    case Param(name) => parameters[name].maximum
  }

  function ConstantBits(v: int): u64 {
    var absolute := Magnitude(v);
    if absolute <= MAX_U64 then CountWidth(absolute); IntegerBitCount(absolute)
    else SaturatingAdd(SaturatingMultiply(|ToDecimal(absolute)|, 3322) / 1000, 1)
  }

  /** The width of a word's value is itself a small word. */
  lemma CountWidth(x: u64)
    ensures IntegerBitCount(x) <= MAX_U64
  {
    BitWidthSmall(x);
  }

  lemma {:induction false} BitWidthSmall(x: nat)
    ensures BitWidth(x) <= x
  {
    if x > 0 {
      BitWidthSmall(x / 2);
    }
  }

  function PowerEstimate(base: int, exponent: u64): u64 {
    if exponent == 0 then 1
    else if Magnitude(base) <= MAX_U64 then
      if Magnitude(base) <= 1 then 1
      else SaturatingAdd(SaturatingMultiply(BitWidth(Magnitude(base) - 1), exponent), 1)
    else SaturatingMultiply(ConstantBits(base), exponent)
  }

  function ParameterBits(b: Bounds): u64 {
    var m := Max(Magnitude(b.minimum), Magnitude(b.maximum));
    CountWidth(m);
    IntegerBitCount(m)
  }

  /** estimate_expression_bits */
  function Estimate(e: Expression, parameters: Parameters): u64
    requires Sized(e, parameters)
  {
    match e
    case Constant(v) => ConstantBits(v)
    case Param(name) => ParameterBits(parameters[name])
    case Negate(x) => Estimate(x, parameters)
    case Add(l, r) => SaturatingAdd(Max(Estimate(l, parameters), Estimate(r, parameters)), 1)
    case Subtract(l, r) => SaturatingAdd(Max(Estimate(l, parameters), Estimate(r, parameters)), 1)
    case Multiply(l, r) => SaturatingAdd(Estimate(l, parameters), Estimate(r, parameters))
    case Power(b, x) => PowerEstimate(b.value, ExponentUpper(x, parameters))
  }

  // ----- soundness

  /** The estimate of a constant saturates at this many bits although it stays below
      the largest word. */
  ghost predicate SaturationBits(k: nat) {
    k == MAX_U64 / 1000 + 1
  }

  lemma ConstantBitsShape(v: int, k: nat)
    requires SaturationBits(k)
    ensures 1 <= ConstantBits(v) <= k && ConstantBits(v) < MAX_U64
    ensures Magnitude(v) < Pow(2, ConstantBits(v)) || ConstantBits(v) == k
  {
    var absolute := Magnitude(v);
    if absolute <= MAX_U64 {
      BitCountBound(absolute, absolute);
      WordWidth(absolute);
    } else {
      var d := |ToDecimal(absolute)|;
      DecimalRoundTrip(absolute);
      DecimalBound(ToDecimal(absolute));
      DigitsToBits(d);
      if SaturatingMultiply(d, 3322) < MAX_U64 {
        assert ConstantBits(v) == DigitBits(d);
      }
    }
  }

  lemma WordWidth(x: u64)
    ensures IntegerBitCount(x) <= 64
  {
    WidthHalves(x, 64);
  }

  lemma {:induction false} WidthHalves(x: nat, k: nat)
    requires x < Pow(2, k) || (k == 64 && x <= MAX_U64)
    ensures BitWidth(x) <= k
    decreases k
  {
    assert k == 0 ==> Pow(2, k) == 1;
    if x > 0 && k > 0 {
      if k == 64 {
        SixtyThree();
      } else {
        assert Pow(2, k) == 2 * Pow(2, k - 1);
      }
      WidthHalves(x / 2, k - 1);
    }
  }

  lemma SixtyThree()
    ensures Pow(2, 63) == 0x8000_0000_0000_0000
  {
    TwoTo17();
    DoubledExponent(2, 17);
    assert Pow(2, 4) == 2 * (2 * (2 * (2 * Pow(2, 0))));
    DoubledExponent(2, 4);
    DoubledExponent(2, 8);
    PowAdd(2, 34, 17);
    PowAdd(2, 51, 8);
    PowAdd(2, 59, 4);
  }

  /** A constant's estimate is sound exactly when the constant has at most the
      saturation's bits: some 5.5 * 10^15 decimal digits. */
  lemma ConstantSoundIff(v: int, k: nat)
    requires SaturationBits(k)
    ensures Magnitude(v) < Pow(2, ConstantBits(v)) <==> Magnitude(v) < Pow(2, k)
  {
    ConstantBitsShape(v, k);
    PowMonotone(2, ConstantBits(v), k);
  }

  /** The least constant for which the estimate is wrong: it is not saturated, and the
      constant has one bit more. */
  lemma LeastUnsoundConstant(k: nat)
    requires SaturationBits(k)
    ensures var e := Constant(Pow(2, k));
      Estimate(e, map[]) < MAX_U64 && Magnitude(Exact(e, map[])) >= Pow(2, Estimate(e, map[]))
    ensures forall v: int :: Magnitude(v) < Pow(2, k) ==> Magnitude(v) < Pow(2, ConstantBits(v))
  {
    var v := Pow(2, k);
    PowPositive(2, k);
    ConstantSoundIff(v, k);
    ConstantBitsShape(v, k);
    forall w: int
      ensures Magnitude(w) < Pow(2, k) ==> Magnitude(w) < Pow(2, ConstantBits(w))
    {
      ConstantSoundIff(w, k);
    }
  }

  /** Every constant is within the saturation's bits. */
  ghost predicate Moderate(e: Expression, k: nat) {
    match e
    case Constant(v) => Magnitude(v) < Pow(2, k)
    case Param(_) => true
    case Negate(x) => Moderate(x, k)
    case Add(l, r) => Moderate(l, k) && Moderate(r, k)
    case Subtract(l, r) => Moderate(l, k) && Moderate(r, k)
    case Multiply(l, r) => Moderate(l, k) && Moderate(r, k)
    case Power(b, x) => Moderate(b, k) && Moderate(x, k)
  }

  lemma {:induction false} MagnitudeOfPower(b: int, e: nat)
    ensures Magnitude(Pow(b, e)) == Pow(Magnitude(b), e)
  {
    if e > 0 {
      MagnitudeOfPower(b, e - 1);
      MagnitudeOfProduct(b, Pow(b, e - 1));
    }
  }

  lemma MagnitudeOfProduct(x: int, y: int)
    ensures Magnitude(x * y) == Magnitude(x) * Magnitude(y)
  {
    MulMonotone(Magnitude(x), 0, Magnitude(y));
    assert (-x) * y == -(x * y) && x * (-y) == -(x * y) && (-x) * (-y) == x * y;
  }

  lemma {:induction false} WidthCovers(x: nat)
    requires x > 1
    ensures x <= Pow(2, BitWidth(x - 1)) && BitWidth(x - 1) >= 1
  {
    BitWidthBound(x - 1);
  }

  lemma ExponentGrows(c: nat, e: nat, upper: nat)
    requires e <= upper
    ensures 0 <= c * e <= c * upper
  {
    MulMonotone(c, e, upper);
    MulMonotone(c, 0, e);
  }

  /** A base of at most 2^c raised to at most the upper exponent stays within 2^(c * upper). */
  lemma PowerWithin(b: nat, c: nat, e: nat, upper: nat)
    requires b <= Pow(2, c) && e <= upper
    ensures c * upper >= 0 && Pow(b, e) <= Pow(2, c * upper)
  {
    ExponentGrows(c, e, upper);
    PowBaseMonotone(b, Pow(2, c), e);
    PowMul(2, c, e);
    PowMonotone(2, c * e, c * upper);
  }

  lemma StrictPower(b: nat, c: nat, e: nat)
    requires b < Pow(2, c) && e > 0
    ensures c * e >= 0 && Pow(b, e) < Pow(2, c * e)
  {
    StrictBase(b, Pow(2, c), e);
    PowMul(2, c, e);
  }

  lemma {:induction false} StrictBase(x: nat, y: nat, e: nat)
    requires x < y && e > 0
    ensures 0 <= Pow(x, e) < Pow(y, e)
  {
    if e == 1 {
      assert Pow(x, 1) == x * Pow(x, 0) && Pow(y, 1) == y * Pow(y, 0);
    } else {
      StrictBase(x, y, e - 1);
      StrictProduct(x, y, Pow(x, e - 1), Pow(y, e - 1));
    }
  }

  lemma StrictProduct(x: nat, y: nat, p: nat, q: nat)
    requires x < y && p < q
    ensures 0 <= x * p < y * q
  {
    MulMonotone(x, 0, p);
    MulMonotone(x, p, q);
    MulMonotone(q, x + 1, y);
    assert q * (x + 1) == x * q + q && q * y == y * q;
  }

  lemma PowerSound(b: int, e: nat, upper: u64, k: nat)
    requires e <= upper && PowerEstimate(b, upper) < MAX_U64 && SaturationBits(k) && Magnitude(b) < Pow(2, k)
    ensures Magnitude(Pow(b, e)) < Pow(2, PowerEstimate(b, upper))
  {
    var m := Magnitude(b);
    MagnitudeOfPower(b, e);
    assert Pow(2, 1) == 2 * Pow(2, 0);
    if upper == 0 {
      assert Pow(m, e) == 1;
    } else if m <= 1 {
      PowBaseMonotone(m, 1, e);
      PowOne(e);
    } else if m <= MAX_U64 {
      var c := BitWidth(m - 1);
      WidthCovers(m);
      PowerWithin(m, c, e, upper);
      PowIncreases(2, c * upper, c * upper + 1);
    } else {
      BigBaseSound(b, e, upper, k);
    }
  }

  lemma BigBaseSound(b: int, e: nat, upper: u64, k: nat)
    requires SaturationBits(k) && Magnitude(b) < Pow(2, k) && e <= upper && upper > 0 && Magnitude(b) > MAX_U64
      && PowerEstimate(b, upper) < MAX_U64
    ensures Pow(Magnitude(b), e) < Pow(2, PowerEstimate(b, upper))
  {
    var m, c := Magnitude(b), ConstantBits(b);
    assert PowerEstimate(b, upper) == c * upper;
    MulMonotone(c, 1, upper);
    ConstantBitsShape(b, k);
    ConstantSoundIff(b, k);
    ExponentGrows(c, e, upper);
    if e == 0 {
      PowIncreases(2, 0, c * upper);
    } else {
      StrictPower(m, c, e);
      PowMonotone(2, c * e, c * upper);
    }
  }

  /** A validated expression meets what the estimate needs. */
  lemma {:induction false} ValidIsSized(e: Expression, parameters: Parameters, allowed: set<string>)
    requires Valid(e, parameters, allowed)
    requires forall name :: name in parameters ==> parameters[name].minimum <= parameters[name].maximum
    ensures Sized(e, parameters)
  {
    match e
    case Constant(_) =>
    case Param(name) =>
    case Negate(x) =>
      ValidIsSized(x, parameters, allowed);
    case Add(l, r) =>
      ValidIsSized(l, parameters, allowed);
      ValidIsSized(r, parameters, allowed);
    case Subtract(l, r) =>
      ValidIsSized(l, parameters, allowed);
      ValidIsSized(r, parameters, allowed);
    case Multiply(l, r) =>
      ValidIsSized(l, parameters, allowed);
      ValidIsSized(r, parameters, allowed);
    case Power(b, x) =>
      assert Validate(x, parameters, allowed).Ok?;
  }

  lemma SumSound(x: int, y: int, a: nat, b: nat)
    requires Magnitude(x) < Pow(2, a) && Magnitude(y) < Pow(2, b)
    ensures Magnitude(x + y) < Pow(2, Max(a, b) + 1) && Magnitude(x - y) < Pow(2, Max(a, b) + 1)
  {
    PowMonotone(2, a, Max(a, b));
    PowMonotone(2, b, Max(a, b));
    assert Pow(2, Max(a, b) + 1) == 2 * Pow(2, Max(a, b));
  }

  /** Whenever the estimate is not saturated, the exact value has no more bits. */
  lemma {:induction false} EstimateSound(e: Expression, parameters: Parameters, a: Assignment, k: nat)
    requires SaturationBits(k) && Moderate(e, k)
    requires Sized(e, parameters) && InRange(a, parameters) && Evaluable(e, a) && Estimate(e, parameters) < MAX_U64
    ensures Magnitude(Exact(e, a)) < Pow(2, Estimate(e, parameters))
  {
    hide ConstantBits, PowerEstimate, SaturatingAdd, SaturatingMultiply, Pow, BitWidth, ToDecimal;
    match e
    case Constant(v) =>
      ConstantSoundIff(v, k);
    case Param(name) =>
      var b := parameters[name];
      BitCountBound(Magnitude(a[name]), Max(Magnitude(b.minimum), Magnitude(b.maximum)));
    case Negate(x) =>
      EstimateSound(x, parameters, a, k);
    case Add(l, r) =>
      EstimateSound(l, parameters, a, k);
      EstimateSound(r, parameters, a, k);
      SumSound(Exact(l, a), Exact(r, a), Estimate(l, parameters), Estimate(r, parameters));
    case Subtract(l, r) =>
      EstimateSound(l, parameters, a, k);
      EstimateSound(r, parameters, a, k);
      SumSound(Exact(l, a), Exact(r, a), Estimate(l, parameters), Estimate(r, parameters));
    case Multiply(l, r) =>
      ProductNotSaturated(l, r, parameters);
      EstimateSound(l, parameters, a, k);
      EstimateSound(r, parameters, a, k);
      MagnitudeOfProduct(Exact(l, a), Exact(r, a));
      PowersMultiply(Estimate(l, parameters), Estimate(r, parameters), Magnitude(Exact(l, a)), Magnitude(Exact(r, a)));
    case Power(b, x) =>
      PowerSound(b.value, ExponentValue(x, a), ExponentUpper(x, parameters), k);
  }

  lemma ProductNotSaturated(l: Expression, r: Expression, parameters: Parameters)
    requires Sized(Multiply(l, r), parameters) && Estimate(Multiply(l, r), parameters) < MAX_U64
    ensures Estimate(l, parameters) < MAX_U64 && Estimate(r, parameters) < MAX_U64
    ensures Estimate(Multiply(l, r), parameters) == Estimate(l, parameters) + Estimate(r, parameters)
  {
  }

  /** The estimate bounds the exact value of every validated expression. */
  lemma ValidatedEstimate(e: Expression, parameters: Parameters, allowed: set<string>, a: Assignment, k: nat)
    requires SaturationBits(k) && Moderate(e, k) && Valid(e, parameters, allowed) && InRange(a, parameters)
    ensures Sized(e, parameters) && Evaluable(e, a)
    ensures Estimate(e, parameters) < MAX_U64 ==> Magnitude(Exact(e, a)) < Pow(2, Estimate(e, parameters))
  {
    forall name | name in parameters
      ensures parameters[name].minimum <= parameters[name].maximum
    {
      assert parameters[name].minimum <= a[name] <= parameters[name].maximum;
    }
    ValidIsSized(e, parameters, allowed);
    ValidIsEvaluable(e, parameters, allowed, a);
    if Estimate(e, parameters) < MAX_U64 {
      EstimateSound(e, parameters, a, k);
    }
  }
}
