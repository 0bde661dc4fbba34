/** Arithmetic progressions over signed 64-bit integers and the families
    k * b^n + c over two of them (src/congruence/compiler.cpp). */
module Progressions {
  import opened NumberTheory
  import opened MachineArithmetic
  import opened Wrappers

  const MIN_I64: int := -0x8000_0000_0000_0000
  const MAX_I64: int := 0x7FFF_FFFF_FFFF_FFFF

  type i64 = x: int | -0x8000_0000_0000_0000 <= x <= 0x7FFF_FFFF_FFFF_FFFF

  /** The two's complement reading of a signed word. */
  function ToUnsigned(x: i64): u64 {
    if x < 0 then x + TWO_TO_64 else x
  }

  /** Wrapping subtraction of unsigned words. */
  function WrapSubtract(x: u64, y: u64): u64 {
    if x >= y then x - y else x - y + TWO_TO_64
  }

  /** unsigned_difference: exact despite wrapping when the operands are ordered. */
  function UnsignedDifference(larger: i64, smaller: i64): (d: u64)
    ensures larger >= smaller ==> d == larger - smaller
  {
    WrapSubtract(ToUnsigned(larger), ToUnsigned(smaller))
  }

  /** add_unsigned_offset: the exact sum, or an overflow error above the maximum. */
  function AddUnsignedOffset(value: i64, offset: u64): (r: Result<i64, Exception>)
    ensures r == if value + offset <= MAX_I64 then Ok(value + offset) else Err(OverflowError)
  {
    if value >= 0 then
      if offset > MAX_I64 - value then Err(OverflowError) else Ok(value + offset)
    else
      var magnitude: u64 := WrapSubtract(0, ToUnsigned(value));
      if offset < magnitude then
        var remaining := magnitude - offset;
        if remaining == 0x8000_0000_0000_0000 then Ok(MIN_I64) else Ok(-remaining)
      else
        var positive := offset - magnitude;
        if positive > MAX_I64 then Err(OverflowError) else Ok(positive)
  }

  datatype Progression = Progression(minimum: i64, maximum: i64, step: u64) {

    function Size(): Result<u64, Exception> {
      if step == 0 then Err(InvalidArgument)
      else if minimum > maximum then Err(InvalidArgument)
      else
        var intervals := UnsignedDifference(maximum, minimum) / step;
        QuotientBounds(UnsignedDifference(maximum, minimum), step);
        if intervals == MAX_U64 then Err(OverflowError) else Ok(intervals + 1)
    }

    predicate Valid() {
      Size().Ok?
    }

    function Count(): (n: nat)
      requires Valid()
    {
      Size().value
    }

    /** The mathematical member at an index. */
    function At(index: int): int {
      minimum + index * step
    }

    function ValueAt(index: u64): Result<i64, Exception> {
      match Size()
      case Err(e) => Err(e)
      case Ok(count) =>
        if index >= count then Err(OutOfRange)
        else if index != 0 && step > MAX_U64 / index then Err(OverflowError)
        else
          OffsetFits(index, step);
          AddUnsignedOffset(minimum, index * step)
    }

    predicate Contains(value: i64) {
      && Valid()
      && minimum <= value <= maximum && UnsignedDifference(value, minimum) % step == 0
    }

    function IndexOf(value: i64): Result<u64, Exception> {
      if !Valid() then Err(Size().error)
      else if !Contains(value) then Err(OutOfRange)
      else
        QuotientBounds(UnsignedDifference(value, minimum), step);
        Ok(UnsignedDifference(value, minimum) / step)
    }
  }

  lemma OffsetFits(index: u64, step: u64)
    requires index != 0 ==> step <= MAX_U64 / index
    ensures 0 <= index * step <= MAX_U64
  {
    if index == 0 {
      assert index * step == 0;
    } else {
      QuotientBounds(MAX_U64, index);
      MulMonotone(index, step, MAX_U64 / index);
      MulMonotone(index, 0, step);
      assert index * (MAX_U64 / index) == (MAX_U64 / index) * index;
    }
  }

  /** An index up to span / step keeps the offset inside the span. */
  lemma OffsetWithin(index: nat, step: int, span: nat)
    requires step > 0 && index <= span / step
    ensures 0 <= index * step <= span
    ensures index != 0 && span <= MAX_U64 ==> step <= MAX_U64 / index
  {
    QuotientBounds(span, step);
    MulMonotone(step, 0, index);
    MulMonotone(step, index, span / step);
    assert index * step == step * index && (span / step) * step == step * (span / step);
    if index != 0 && span <= MAX_U64 {
      QuotientBounds(MAX_U64, index);
      MulMonotone(index, MAX_U64 / index + 1, if step > MAX_U64 / index then step else MAX_U64 / index + 1);
      assert index * (MAX_U64 / index + 1) == (MAX_U64 / index + 1) * index;
    }
  }

  /** Inside the range no intermediate overflows: value_at is the mathematical member. */
  lemma ValueAtExact(p: Progression, index: u64)
    requires p.Valid() && index < p.Count()
    ensures p.ValueAt(index) == Ok(p.At(index))
    ensures p.minimum <= p.At(index) <= p.maximum
  {
    OffsetWithin(index, p.step, p.maximum - p.minimum);
  }

  /** The multiples of the step inside a span, by their quotients. */
  lemma StepMember(d: nat, step: int, span: nat)
    requires step > 0 && d <= span && d % step == 0
    ensures 0 <= d / step <= span / step && (d / step) * step == d
  {
    var i := d / step;
    assert d == step * i;
    QuotientBounds(d, step);
    QuotientBounds(span, step);
    var m := span / step + 1;
    assert step * m == m * step;
    MulMonotone(step, m, if i >= m then i else m);
  }

  /** contains and index_of invert value_at. */
  lemma IndexOfExact(p: Progression, value: i64)
    requires p.Valid() && p.Contains(value)
    ensures p.IndexOf(value).Ok?
    ensures p.IndexOf(value).value < p.Count() && p.At(p.IndexOf(value).value) == value
  {
    StepMember(value - p.minimum, p.step, p.maximum - p.minimum);
  }

  lemma ContainsMembers(p: Progression, i: nat)
    requires p.Valid() && i < p.Count()
    ensures p.minimum <= p.At(i) <= p.maximum && p.Contains(p.At(i))
  {
    ValueAtExact(p, i);
    DivModUnique(i * p.step, p.step, i, 0);
  }

  lemma AtInjective(p: Progression, i: int, j: int)
    requires p.step > 0 && p.At(i) == p.At(j)
    ensures i == j
  {
    QuotientUnique(p.step, i, 0, j, 0);
  }

  // ----- families

  datatype ParityConstraint = AnyParity | Even | Odd

  datatype AffineExponentialFamily = AffineExponentialFamily(
    k: Progression, n: Progression, base: i64, constant: i64,
    kParity: ParityConstraint, nParity: ParityConstraint) {

    /** validate_family: both progressions have a size and exponents are nonnegative. */
    function Validate(): Result<(), Exception> {
      if k.Size().Err? then Err(k.Size().error)
      else if n.Size().Err? then Err(n.Size().error)
      else if n.minimum < 0 then Err(InvalidArgument)
      else Ok(())
    }

    predicate Valid() {
      Validate().Ok?
    }

    predicate InRange(ki: int, ni: int) {
      Valid() && 0 <= ki < k.Count() && 0 <= ni < n.Count()
    }

    function Exponent(ni: int): nat
      requires Valid() && 0 <= ni < n.Count()
    {
      ValueAtExact(n, ni);
      n.At(ni)
    }

    /** The candidate k * b^n + c. */
    function Candidate(ki: int, ni: int): int
      requires InRange(ki, ni)
    {
      k.At(ki) * Pow(base, Exponent(ni)) + constant
    }

    predicate Nonnegative(ki: int) {
      k.At(ki) >= 0 && base >= 0 && constant >= 0
    }

    /** candidate_is_valid: both parities are as constrained. */
    predicate Admissible(ki: int, ni: int) {
      ParityMatches(k.At(ki), kParity) && ParityMatches(n.At(ni), nParity)
    }
  }

  /** The parity test of the low bit; two's complement keeps the parity. */
  predicate ParityMatches(value: int, constraint: ParityConstraint) {
    match constraint
    case AnyParity => true
    case Even => value % 2 == 0
    case Odd => value % 2 == 1
  }

  /** BigInteger(value).modulo(m): the residue in [0, m) of a signed word. */
  function Normalize(value: int, modulus: u64): (r: u64)
    requires modulus > 0
    ensures r < modulus && Cong(r, value, modulus)
  {
    ModSelf(value, modulus);
    value % modulus
  }

  method EvaluateResidue(k: i64, base: i64, exponent: u64, constant: i64, modulus: u64) returns (r: u64)
    requires modulus > 0
    ensures r == (k * Pow(base, exponent) + constant) % modulus
  {
    var power := PowerModulo(Normalize(base, modulus), exponent, modulus);
    r := AddMod(MultiplyMod(Normalize(k, modulus), power, modulus), Normalize(constant, modulus), modulus);
    PowMod(base, exponent, modulus);
    ModMul(k, Pow(base, exponent), modulus);
    ModAdd(k * Pow(base, exponent), constant, modulus);
  }

  /** No member of a valid progression overflows: an index is refused for its range only. */
  lemma OutOfRangeOnly(p: Progression, index: u64)
    requires p.Valid()
    ensures p.ValueAt(index).Ok? <==> index < p.Count()
    ensures index >= p.Count() ==> p.ValueAt(index) == Err(OutOfRange)
  {
    if index < p.Count() {
      ValueAtExact(p, index);
    }
  }

  /** evaluate_modulo: the candidate modulo any nonzero word, without building it. */
  method EvaluateModulo(f: AffineExponentialFamily, ki: u64, ni: u64, modulus: u64)
    returns (r: Result<u64, Exception>)
    ensures f.InRange(ki, ni) && modulus > 0 ==> r == Ok(f.Candidate(ki, ni) % modulus)
    ensures f.Valid() && modulus == 0 ==> r == Err(InvalidArgument)
    ensures f.Valid() && !f.InRange(ki, ni) && modulus > 0 ==> r == Err(OutOfRange)
    ensures !f.Valid() ==> r.Err?
  {
    var valid := f.Validate();
    if valid.Err? {
      return Err(valid.error);
    }
    if modulus == 0 {
      return Err(InvalidArgument);
    }
    var kValue := f.k.ValueAt(ki);
    if kValue.Err? {
      OutOfRangeOnly(f.k, ki);
      return Err(kValue.error);
    }
    var nValue := f.n.ValueAt(ni);
    if nValue.Err? {
      OutOfRangeOnly(f.n, ni);
      return Err(nValue.error);
    }
    ValueAtExact(f.k, ki);
    ValueAtExact(f.n, ni);
    var residue := EvaluateResidue(kValue.value, f.base, nValue.value, f.constant, modulus);
    return Ok(residue);
  }
}
