/** Family expressions: validation, exact and modular evaluation, and the size
    estimate (src/family/family.cpp). */
module FamilyExpressions {
  import opened NumberTheory
  import opened MachineArithmetic
  import opened Progressions
  import opened Decimal
  import opened BigIntegers
  import opened BigDecimal
  import opened Eliminations
  import opened Wrappers

  datatype Expression =
    | Constant(value: int)
    | Param(name: string)
    | Add(left: Expression, right: Expression)
    | Subtract(left: Expression, right: Expression)
    | Multiply(left: Expression, right: Expression)
    | Negate(operand: Expression)
    | Power(base: Expression, exponent: Expression)

  datatype Bounds = Bounds(minimum: i64, maximum: i64)

  type Parameters = map<string, Bounds>
  type Assignment = map<string, i64>

  // ----- validation

  datatype FamilyError =
    UnknownParameter | MultiplicationNotAuthorized | PowerBaseNotConstant | PowerExponentDomain |
    PowerExponentNotControlled

  predicate AllowedFactor(e: Expression, allowed: set<string>) {
    e.Constant? || (e.Param? && e.name in allowed)
  }

  function Both(a: Result<(), FamilyError>, b: Result<(), FamilyError>): Result<(), FamilyError> {
    if a.Err? then a else b
  }

  /** validate_expression */
  function Validate(e: Expression, parameters: Parameters, allowed: set<string>): Result<(), FamilyError> {
    match e
    case Constant(_) => Ok(())
    case Param(name) => if name in parameters then Ok(()) else Err(UnknownParameter)
    case Negate(x) => Validate(x, parameters, allowed)
    case Add(l, r) => Both(Validate(l, parameters, allowed), Validate(r, parameters, allowed))
    case Subtract(l, r) => Both(Validate(l, parameters, allowed), Validate(r, parameters, allowed))
    case Multiply(l, r) =>
      var operands := Both(Validate(l, parameters, allowed), Validate(r, parameters, allowed));
      if operands.Err? then operands
      else if !AllowedFactor(l, allowed) && !AllowedFactor(r, allowed) then Err(MultiplicationNotAuthorized)
      else Ok(())
    case Power(b, x) =>
      var operands := Both(Validate(b, parameters, allowed), Validate(x, parameters, allowed));
      if operands.Err? then operands
      else if !b.Constant? then Err(PowerBaseNotConstant)
      else
        match x
        case Constant(v) => if v < 0 || v > MAX_U64 then Err(PowerExponentDomain) else Ok(())
        case Param(name) => if parameters[name].minimum < 0 then Err(PowerExponentDomain) else Ok(())
        case _ => Err(PowerExponentNotControlled)
  }

  ghost predicate Valid(e: Expression, parameters: Parameters, allowed: set<string>) {
    Validate(e, parameters, allowed).Ok?
  }

  /** validate_assignment: exactly the declared parameters, each inside its bounds. */
  ghost predicate InRange(a: Assignment, parameters: Parameters) {
    a.Keys == parameters.Keys && forall name :: name in parameters ==>
      parameters[name].minimum <= a[name] <= parameters[name].maximum
  }

  /** Every power exponent is a nonnegative constant or parameter value. */
  ghost predicate Evaluable(e: Expression, a: Assignment) {
    match e
    case Constant(_) => true
    case Param(name) => name in a
    case Negate(x) => Evaluable(x, a)
    case Add(l, r) => Evaluable(l, a) && Evaluable(r, a)
    case Subtract(l, r) => Evaluable(l, a) && Evaluable(r, a)
    case Multiply(l, r) => Evaluable(l, a) && Evaluable(r, a)
    case Power(b, x) =>
      && Evaluable(b, a) && Evaluable(x, a) && (x.Constant? || (x.Param? && x.name in a))
      && 0 <= ExponentValue(x, a) <= MAX_U64
  }

  /** expression_exponent */
  function ExponentValue(x: Expression, a: Assignment): int
    requires x.Constant? || (x.Param? && x.name in a)
  {
    match x
    case Constant(v) => v
    case Param(name) => a[name]
  }

  lemma {:induction false} ValidIsEvaluable(e: Expression, parameters: Parameters, allowed: set<string>, a: Assignment)
    requires Valid(e, parameters, allowed) && InRange(a, parameters)
    ensures Evaluable(e, a)
  {
    match e
    case Constant(_) =>
    case Param(name) =>
      assert name in a.Keys;
    case Negate(x) =>
      ValidIsEvaluable(x, parameters, allowed, a);
    case Add(l, r) =>
      ValidIsEvaluable(l, parameters, allowed, a);
      ValidIsEvaluable(r, parameters, allowed, a);
    case Subtract(l, r) =>
      ValidIsEvaluable(l, parameters, allowed, a);
      ValidIsEvaluable(r, parameters, allowed, a);
    case Multiply(l, r) =>
      ValidIsEvaluable(l, parameters, allowed, a);
      ValidIsEvaluable(r, parameters, allowed, a);
    case Power(b, x) =>
      ValidIsEvaluable(b, parameters, allowed, a);
      ValidIsEvaluable(x, parameters, allowed, a);
  }

  // ----- evaluation

  /** The mathematical value of an expression. */
  ghost function Exact(e: Expression, a: Assignment): int
    requires Evaluable(e, a)
  {
    match e
    case Constant(v) => v
    case Param(name) => a[name]
    case Negate(x) => -Exact(x, a)
    case Add(l, r) => Exact(l, a) + Exact(r, a)
    case Subtract(l, r) => Exact(l, a) - Exact(r, a)
    case Multiply(l, r) => Exact(l, a) * Exact(r, a)
    case Power(b, x) => Pow(Exact(b, a), ExponentValue(x, a))
  }

  method ConstantInteger(v: int) returns (r: BigInteger)
    ensures fresh(r) && r.Valid() && r.Value() == v
  {
    PrintedIsCanonical(v);
    var parsed := FromDecimal(SignedDecimal(v));
    r := new BigInteger.Copy(parsed.value);
  }

  /** evaluate_expression_exact, on big integers. */
  method EvaluateExpressionExact(e: Expression, a: Assignment) returns (r: BigInteger)
    requires Evaluable(e, a)
    ensures fresh(r) && r.Valid() && r.Value() == Exact(e, a)
  {
    match e {
      case Constant(v) =>
        r := ConstantInteger(v);
      case Param(name) =>
        r := new BigInteger(a[name]);
      case Negate(x) =>
        var operand := EvaluateExpressionExact(x, a);
        r := operand.Negated();
      case Add(l, r') =>
        r := EvaluateExpressionExact(l, a);
        var right := EvaluateExpressionExact(r', a);
        r.Add(right);
      case Subtract(l, r') =>
        r := EvaluateExpressionExact(l, a);
        var right := EvaluateExpressionExact(r', a);
        r.Subtract(right);
      case Multiply(l, r') =>
        r := EvaluateExpressionExact(l, a);
        var right := EvaluateExpressionExact(r', a);
        r.Multiply(right);
      case Power(b, x) =>
        var base := EvaluateExpressionExact(b, a);
        r := BigIntegers.Power(base, ExponentValue(x, a));
    }
  }

  /** evaluate_expression_modulo: the exact value reduced, without building it. */
  method EvaluateExpressionModulo(e: Expression, a: Assignment, modulus: u64) returns (r: u64)
    requires Evaluable(e, a) && modulus > 0
    ensures r == Exact(e, a) % modulus
  {
    match e {
      case Constant(v) =>
        r := Progressions.Normalize(v, modulus);
      case Param(name) =>
        r := Progressions.Normalize(a[name], modulus);
      case Negate(x) =>
        var value := EvaluateExpressionModulo(x, a, modulus);
        NegateMod(Exact(x, a), modulus);
        r := if value == 0 then 0 else modulus - value;
      case Add(l, r') =>
        var left := EvaluateExpressionModulo(l, a, modulus);
        var right := EvaluateExpressionModulo(r', a, modulus);
        ModAdd(Exact(l, a), Exact(r', a), modulus);
        r := AddMod(left, right, modulus);
      case Subtract(l, r') =>
        var left := EvaluateExpressionModulo(l, a, modulus);
        var right := EvaluateExpressionModulo(r', a, modulus);
        SubtractReduced(Exact(l, a), Exact(r', a), modulus);
        r := SubtractMod(left, right, modulus);
      case Multiply(l, r') =>
        var left := EvaluateExpressionModulo(l, a, modulus);
        var right := EvaluateExpressionModulo(r', a, modulus);
        ModMul(Exact(l, a), Exact(r', a), modulus);
        r := MultiplyMod(left, right, modulus);
      case Power(b, x) =>
        var base := EvaluateExpressionModulo(b, a, modulus);
        PowMod(Exact(b, a), ExponentValue(x, a), modulus);
        r := PowerModulo(base, ExponentValue(x, a), modulus);
    }
  }

  lemma NegateMod(x: int, m: int)
    requires m > 0
    ensures (-x) % m == if x % m == 0 then 0 else m - x % m
  {
    var r := x % m;
    assert x == m * (x / m) + r;
    var t := if r == 0 then 0 else m - r;
    assert (-(x / m) - (if r == 0 then 0 else 1)) * m == -(m * (x / m)) - (if r == 0 then 0 else m);
    DivModUnique(-x, m, -(x / m) - (if r == 0 then 0 else 1), t);
  }

  lemma SubtractReduced(x: int, y: int, m: int)
    requires m > 0
    ensures (x % m - y % m) % m == (x - y) % m
  {
    ModSelf(x, m);
    ModSelf(y, m);
    CongAdd(x % m, x, y % m, y, m);
  }

  /** Modular and exact evaluation agree for every validated expression. */
  method EvaluationsAgree(e: Expression, parameters: Parameters, allowed: set<string>, a: Assignment, modulus: u64)
    returns (reduced: u64, exact: BigInteger)
    requires Valid(e, parameters, allowed) && InRange(a, parameters) && modulus > 0
    ensures exact.Valid() && reduced == exact.Value() % modulus && reduced < modulus
  {
    ValidIsEvaluable(e, parameters, allowed, a);
    reduced := EvaluateExpressionModulo(e, a, modulus);
    exact := EvaluateExpressionExact(e, a);
  }
}
